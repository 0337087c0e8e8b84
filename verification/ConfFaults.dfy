/**
 What the configuration parser does with lines that are no settings (conf.c:78-92, 108-112,
 179-203, 258-282), and a file character by character.
 */
module ConfFaults {
  import opened Words
  import opened Conf
  import opened ConfText

  /** isspace of C: tab, newline, vertical tab, form feed, carriage return, space. */
  lemma Spaces(c: byte)
    ensures IsSpace(c as int) <==> c in [0x09, 0x0a, 0x0b, 0x0c, 0x0d, 0x20]
  {
  }

  /** Either sign of a comment. */
  lemma CommentsSkipped(indent: text, sign: byte, junk: text, t: text, section: text, calls: seq<Call>)
    requires Blank(indent) && (sign == ';' as int || sign == '#' as int) && Junk(junk)
    ensures Lines(indent + ([sign] + junk + ['\n' as int]) + t, section, calls) == Lines(t, section, calls)
  {
    hide Lines, Blank;
    assert Junk([sign] + junk);
    NothingReads(indent, [sign] + junk, t, section, calls);
  }

  /** A NUL in a comment ends the file. */
  lemma NulEndsFile(indent: text, sign: byte, junk: text, t: text, section: text, calls: seq<Call>)
    requires Blank(indent) && (sign == ';' as int || sign == '#' as int) && Junk(junk)
    ensures Lines(indent + ([sign] + (junk + ([0] + t))), section, calls) == Done(calls)
  {
    hide NameScan, ValueScan, SectionScan;
    var rest := junk + ([0] + t);
    SkipBlank(indent, [sign] + rest);
    assert ([sign] + rest)[1..] == rest;
    NulEndsComment(junk, t);
    CommentLine(sign, rest, section, calls);
    assert Parse(0, t, section, calls) == Done(calls);
  }

  lemma {:induction false} NulEndsComment(junk: text, t: text)
    requires Junk(junk)
    ensures EatComment(junk + ([0] + t)) == (0, t)
    decreases |junk|
  {
    if junk == [] {
      assert junk + ([0] + t) == [0] + t && ([0] + t)[1..] == t;
    } else {
      assert (junk + ([0] + t))[1..] == junk[1..] + ([0] + t);
      NulEndsComment(junk[1..], t);
    }
  }

  // ------------------------------------------------------------------ Parameters

  /** Words on a line that ends without a sign: the line is ignored. */
  lemma NoSignIgnored(indent: text, words: seq<text>, gaps: seq<Gap>, blank: text, remark: text, t: text,
                      section: text, calls: seq<Call>)
    requires Blank(indent) && Wordy(words, gaps, false) && words[0][0] != '[' as int && words[0][0] != '\\' as int
    requires Blank(blank) && Remark(remark)
    requires var last := words[|words| - 1]; last[|last| - 1] != '\\' as int
    ensures Lines(indent + (Spaced(words, gaps) + (blank + (remark + (['\n' as int] + t)))), section, calls)
         == Lines(t, section, calls)
  {
    hide Normal, Spaced, GapOk, Blank, SectionScan, NameScan, ValueScan, Remark, InName, EatComment, NameLineEnd;
    var n, ending := Normal(words, gaps), remark + (['\n' as int] + t);
    var name := Spaced(words, gaps) + (blank + ending);
    SpacedStarts(words, gaps, false);
    SkipBlank(indent, name);
    FirstChar(words, gaps);
    assert name[0] == words[0][0];
    AllWords([], 0, words, gaps, false, blank + ending);
    assert [] + n == n && |[] + n| == |n|;
    NormalIsSolid(words, gaps, false);
    RemarkStarts(remark, t);
    assert n + Space(false) == n;
    BlankReads(n, false, blank, ending);
    NameRemark(n + Space(blank != []), |n|, remark, t);
    NormalEnds(words, gaps);
    NotContinued(n, blank != []);
    NameLineSteps(n + Space(blank != []), t);
    IgnoredLine(name, t, section, calls);
  }

  lemma RemarkStarts(remark: text, t: text)
    requires Remark(remark)
    ensures var e := remark + (['\n' as int] + t); e != [] && (!IsSpace(e[0]) || e[0] == NEWLINE)
  {
  }

  lemma {:induction false} NormalEnds(ws: seq<text>, gaps: seq<Gap>)
    requires Wordy(ws, gaps, false)
    ensures var n, last := Normal(ws, gaps), ws[|ws| - 1];
            n != [] && last != [] && n[|n| - 1] == last[|last| - 1]
    decreases |ws|
  {
    hide GapOk, Parts, Space, WordOk;
    if |ws| == 1 {
      assert WordOk(ws[0], false);
      WordIsSome(ws[0]);
    } else {
      var rest := Normal(ws[1..], gaps[1..]);
      NormalEnds(ws[1..], gaps[1..]);
      assert Normal(ws, gaps) == ws[0] + (Space(Parts(gaps[0])) + rest);
      assert ws[1..][|ws| - 2] == ws[|ws| - 1];
    }
  }

  lemma WordIsSome(w: text)
    requires WordOk(w, false)
    ensures w != []
  {
  }

  lemma NotContinued(n: text, blank: bool)
    requires n != [] && !IsSpace(n[|n| - 1]) && n[|n| - 1] != '\\' as int
    ensures FindContinuation(n + Space(blank)) < 0
  {
    assert FindContinuation(n) < 0;
    if blank {
      assert (n + [SPACE])[..|n|] == n;
    } else {
      assert n + [] == n;
    }
  }

  lemma IgnoredLine(name: text, t: text, section: text, calls: seq<Call>)
    requires name != [] && NameChar(name[0]) && name[0] != OPEN && name[0] != BACKSLASH
    requires InName([], 0, name) == BadLine(t)
    ensures Parse(name[0] as int, name[1..], section, calls) == Lines(t, section, calls)
  {
    hide NameScan, ValueScan, SectionScan, EatSpace, EatComment;
  }

  /** A sign without a name in front of it ends the program. */
  lemma NoNameExits(indent: text, t: text, section: text, calls: seq<Call>)
    requires Blank(indent)
    ensures Lines(indent + (['=' as int] + t), section, calls) == Exit
  {
    hide ValueScan, SectionScan;
    SkipBlank(indent, ['=' as int] + t);
    assert (['=' as int] + t)[1..] == t;
  }

  /** So does a file that ends within a name. */
  lemma UnfinishedExits(indent: text, words: seq<text>, gaps: seq<Gap>, section: text, calls: seq<Call>)
    requires Blank(indent) && Wordy(words, gaps, false) && words[0][0] != '[' as int && words[0][0] != '\\' as int
    ensures Lines(indent + Spaced(words, gaps), section, calls) == Exit
  {
    hide Normal, Spaced, GapOk, Blank, SectionScan, NameScan, ValueScan, EatComment, NameLineEnd;
    var n, name := Normal(words, gaps), Spaced(words, gaps);
    SpacedStarts(words, gaps, false);
    SkipBlank(indent, name);
    FirstChar(words, gaps);
    AllWords([], 0, words, gaps, false, []);
    assert name + [] == name && [] + n == n;
    NameSteps(n, |n|, EOF, []);
    ExitsInName(name, section, calls);
  }

  lemma ExitsInName(name: text, section: text, calls: seq<Call>)
    requires name != [] && NameChar(name[0]) && name[0] != OPEN && name[0] != BACKSLASH
    requires InName([], 0, name) == NameExit
    ensures Parse(name[0] as int, name[1..], section, calls) == Exit
  {
    hide NameScan, ValueScan, SectionScan, EatSpace, EatComment;
  }

  /** A backslash at the start of a line is skipped. */
  lemma BogusBackslash(indent: text, t: text, section: text, calls: seq<Call>)
    requires Blank(indent)
    ensures Lines(indent + (['\\' as int] + t), section, calls) == Lines(t, section, calls)
  {
    hide EatComment, NameScan, ValueScan, SectionScan;
    SkipBlank(indent, ['\\' as int] + t);
    assert (['\\' as int] + t)[1..] == t;
  }

  // -------------------------------------------------------------------- Sections

  /** A heading without a name, or not closed on its line, ends the program. */
  lemma EmptyHeadingExits(indent: text, blank: text, t: text, section: text, calls: seq<Call>)
    requires Blank(indent) && Blank(blank)
    ensures Lines(indent + (['[' as int] + (blank + ([']' as int] + t))), section, calls) == Exit
    ensures Lines(indent + (['[' as int] + (blank + (['\n' as int] + t))), section, calls) == Exit
  {
    hide EatComment, NameScan, ValueScan;
    HeadingFails(indent, blank, ']' as int, t, section, calls);
    HeadingFails(indent, blank, '\n' as int, t, section, calls);
  }

  lemma HeadingFails(indent: text, blank: text, c: byte, t: text, section: text, calls: seq<Call>)
    requires Blank(indent) && Blank(blank) && (c == CLOSE || c == NEWLINE)
    ensures Lines(indent + (['[' as int] + (blank + ([c] + t))), section, calls) == Exit
  {
    hide EatComment, NameScan, ValueScan, SectionScan;
    var ahead := blank + ([c] + t);
    SkipBlank(indent, ['[' as int] + ahead);
    assert (['[' as int] + ahead)[1..] == ahead;
    SkipBlank(blank, [c] + t);
    assert ([c] + t)[1..] == t;
    SectionSteps([], 0, c as int, t);
    assert SectionLine([], t) == SectionExit;
  }

  /** A heading that the file breaks off is ignored, and so is the rest of nothing. */
  lemma UnfinishedHeading(indent: text, words: seq<text>, gaps: seq<Gap>, section: text, calls: seq<Call>)
    requires Blank(indent) && Wordy(words, gaps, true)
    ensures Lines(indent + (['[' as int] + Spaced(words, gaps)), section, calls) == Done(calls)
  {
    hide Normal, Spaced, GapOk, Blank, SectionScan, NameScan, ValueScan, EatComment;
    var n, name := Normal(words, gaps), Spaced(words, gaps);
    SkipBlank(indent, ['[' as int] + name);
    assert (['[' as int] + name)[1..] == name;
    SpacedStarts(words, gaps, true);
    SkipNone(name);
    AllWords([], 0, words, gaps, true, []);
    assert name + [] == name && [] + n == n;
    SectionSteps(n, |n|, EOF, []);
    EmptyFile(section, calls);
  }

  lemma SkipNone(t: text)
    requires t != [] && !IsSpace(t[0])
    ensures EatSpace(t) == Next(t)
  {
    assert [] + t == t;
    SkipBlank([], t);
  }
}
