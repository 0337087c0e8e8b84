/**
 What configuration files mean (conf.c): files rendered with comments, blank lines, repeated
 spaces and continued lines, and the calls that reading them makes.
 */
module ConfText {
  import opened Words
  import opened Conf

  // ------------------------------------------------------ Texts and what they mean

  /** Whitespace within a line. */
  predicate Blank(t: text) {
    forall i :: 0 <= i < |t| ==> IsSpace(t[i]) && t[i] != NEWLINE
  }

  /** Characters up to the end of the line. */
  predicate Junk(t: text) {
    forall i :: 0 <= i < |t| ==> t[i] != 0 && t[i] != NEWLINE
  }

  /** Nothing, or a comment. */
  predicate Remark(t: text) {
    t == [] || ((t[0] == SEMICOLON || t[0] == HASH) && Junk(t))
  }

  lemma {:induction false} SkipBlank(ws: text, t: text)
    requires Blank(ws) && (t == [] || !IsSpace(t[0]) || t[0] == NEWLINE)
    ensures EatSpace(ws + t) == Next(t)
    decreases |ws|
  {
    if ws == [] {
      assert ws + t == t;
    } else {
      assert (ws + t)[1..] == ws[1..] + t;
      SkipBlank(ws[1..], t);
    }
  }

  lemma {:induction false} SkipJunk(junk: text, t: text)
    requires Junk(junk)
    ensures EatComment(junk + ([NEWLINE] + t)) == (NEWLINE as int, t)
    decreases |junk|
  {
    if junk == [] {
      assert junk + ([NEWLINE] + t) == [NEWLINE] + t && ([NEWLINE] + t)[1..] == t;
    } else {
      assert (junk + ([NEWLINE] + t))[1..] == junk[1..] + ([NEWLINE] + t);
      SkipJunk(junk[1..], t);
    }
  }

  // ------------------------------------------------------------ Lines and gaps

  /** The end of a line: whitespace, perhaps a comment, the newline. */
  datatype Tail = Tail(blank: text, remark: text)

  predicate TailOk(l: Tail) { Blank(l.blank) && Remark(l.remark) }

  function TailText(l: Tail): text { l.blank + (l.remark + [NEWLINE]) }

  /** What lies between words: whitespace, and any number of lines continued by a backslash. */
  datatype Gap = Gap(first: text, more: seq<(Tail, text)>)

  /** In a section heading there are no comments. */
  predicate MoreOk(more: seq<(Tail, text)>, heading: bool) {
    forall i :: 0 <= i < |more| ==> TailOk(more[i].0) && Blank(more[i].1) && (heading ==> more[i].0.remark == [])
  }

  predicate GapOk(g: Gap, heading: bool) { Blank(g.first) && MoreOk(g.more, heading) }

  function MoreText(more: seq<(Tail, text)>): text
    decreases |more|
  {
    if more == [] then [] else [BACKSLASH] + (TailText(more[0].0) + (more[0].1 + MoreText(more[1..])))
  }

  function GapText(g: Gap): text { g.first + MoreText(g.more) }

  /** Is there whitespace other than that between a backslash and the end of its line? */
  predicate MoreParts(more: seq<(Tail, text)>)
    decreases |more|
  {
    more != [] && (more[0].1 != [] || MoreParts(more[1..]))
  }

  /** What is left of a gap: one space, or nothing. */
  function Space(parts: bool): text { if parts then [SPACE] else [] }

  predicate Parts(g: Gap) { g.first != [] || MoreParts(g.more) }

  // ---------------------------------------------------------- Names and headings

  /** Words, or parts of words, with gaps between them. */
  predicate Wordy(ws: seq<text>, gaps: seq<Gap>, heading: bool) {
    && |ws| > 0 && |gaps| == |ws| - 1
    && (forall i :: 0 <= i < |ws| ==> WordOk(ws[i], heading))
    && (forall i :: 0 <= i < |gaps| ==> GapOk(gaps[i], heading))
  }

  predicate WordOk(w: text, heading: bool) {
    w != [] && forall i :: 0 <= i < |w| ==> if heading then HeadChar(w[i]) else NameChar(w[i])
  }

  function Spaced(ws: seq<text>, gaps: seq<Gap>): text
    requires |ws| > 0 && |gaps| == |ws| - 1
  {
    if |ws| == 1 then ws[0] else ws[0] + (GapText(gaps[0]) + Spaced(ws[1..], gaps[1..]))
  }

  /** The words with single spaces, or none where a word is continued on the next line. */
  function Normal(ws: seq<text>, gaps: seq<Gap>): text
    requires |ws| > 0 && |gaps| == |ws| - 1
  {
    if |ws| == 1 then ws[0] else ws[0] + (Space(Parts(gaps[0])) + Normal(ws[1..], gaps[1..]))
  }

  /** The two scanners alike, on the text ahead. */
  function InName(b: text, end: nat, t: text): Named
    requires end <= |b|
  {
    NameScan(b, end, Next(t).0, Next(t).1)
  }

  function InHead(b: text, end: nat, t: text): Heading
    requires end <= |b|
  {
    SectionScan(b, end, Next(t).0, Next(t).1)
  }

  lemma {:induction false} NameWord(b: text, end: nat, w: text, t: text)
    requires end <= |b| && forall i :: 0 <= i < |w| ==> NameChar(w[i])
    ensures InName(b, end, w + t) == InName(b + w, if w == [] then end else |b + w|, t)
    decreases |w|
  {
    if w == [] {
      assert w + t == t && b + w == b;
    } else {
      assert (w + t)[1..] == w[1..] + t;
      NameWord(b + [w[0]], |b| + 1, w[1..], t);
      assert b + [w[0]] + w[1..] == b + w;
    }
  }

  lemma {:induction false} HeadWord(b: text, end: nat, w: text, t: text)
    requires end <= |b| && forall i :: 0 <= i < |w| ==> HeadChar(w[i])
    ensures InHead(b, end, w + t) == InHead(b + w, if w == [] then end else |b + w|, t)
    decreases |w|
  {
    if w == [] {
      assert w + t == t && b + w == b;
    } else {
      assert (w + t)[1..] == w[1..] + t;
      HeadWord(b + [w[0]], |b| + 1, w[1..], t);
      assert b + [w[0]] + w[1..] == b + w;
    }
  }

  /** Not ending in whitespace. */
  predicate Solid(w: text) { w != [] ==> !IsSpace(w[|w| - 1]) }

  /** Whitespace, and what comes behind it. */
  lemma BlankReads(w: text, parts: bool, ws: text, t: text)
    requires Blank(ws) && t != [] && (!IsSpace(t[0]) || t[0] == NEWLINE)
    ensures InName(w + Space(parts), |w|, ws + t) == InName(w + Space(parts || ws != []), |w|, t)
    ensures InHead(w + Space(parts), |w|, ws + t) == InHead(w + Space(parts || ws != []), |w|, t)
  {
    if ws == [] {
      assert ws + t == t;
    } else {
      assert (ws + t)[1..] == ws[1..] + t;
      SkipBlank(ws[1..], t);
      assert (w + Space(parts))[..|w|] == w;
    }
  }

  /** The backslash is found again behind whitespace; what was stored in front of it stays. */
  lemma FindsBackslash(w: text, parts: bool, blank: bool)
    requires Solid(w)
    ensures var b := w + Space(parts);
            var c := b + [BACKSLASH] + Space(blank);
            && FindContinuation(c) == |b| && c[..|b|] == b
            && |w| == if |b| > 0 && b[|b| - 1] == SPACE then |b| - 1 else |b|
  {
    var b := w + Space(parts);
    var d := b + [BACKSLASH];
    assert d[..|b|] == b;
    if blank {
      assert (d + [SPACE])[..|d|] == d;
    } else {
      assert d + [] == d;
    }
  }

  lemma NameRemark(b: text, end: nat, remark: text, t: text)
    requires end <= |b| && Remark(remark)
    ensures InName(b, end, remark + ([NEWLINE] + t)) == NameLineEnd(b, t)
  {
    hide NameLineEnd;
    var rest := remark + ([NEWLINE] + t);
    if remark == [] {
      assert rest == [NEWLINE] + t && rest[1..] == t;
    } else {
      assert rest[1..] == remark[1..] + ([NEWLINE] + t);
      SkipJunk(remark[1..], t);
    }
  }

  /** A continued line within a name, or between the words of one, leaves no trace. */
  lemma NameContinues(w: text, parts: bool, l: Tail, t: text)
    requires Solid(w) && TailOk(l)
    ensures InName(w + Space(parts), |w|, [BACKSLASH] + (TailText(l) + t)) == InName(w + Space(parts), |w|, t)
  {
    hide FindContinuation, Junk, NameScan, NameLineEnd;
    var b, rest := w + Space(parts), l.remark + ([NEWLINE] + t);
    var d := b + [BACKSLASH];
    assert TailText(l) + t == l.blank + rest;
    NameLineSteps(d + Space(l.blank != []), t);
    NameWord(b, |w|, [BACKSLASH], l.blank + rest);
    assert d + Space(false) == d;
    BlankReads(d, false, l.blank, rest);
    NameRemark(d + Space(l.blank != []), |d|, l.remark, t);
    FindsBackslash(w, parts, l.blank != []);
  }

  lemma HeadContinues(w: text, parts: bool, l: Tail, t: text)
    requires Solid(w) && TailOk(l) && l.remark == []
    ensures InHead(w + Space(parts), |w|, [BACKSLASH] + (TailText(l) + t)) == InHead(w + Space(parts), |w|, t)
  {
    hide FindContinuation;
    var b, rest := w + Space(parts), [NEWLINE] + t;
    var d := b + [BACKSLASH];
    assert TailText(l) + t == l.blank + rest && rest[1..] == t;
    HeadWord(b, |w|, [BACKSLASH], l.blank + rest);
    assert d + Space(false) == d;
    BlankReads(d, false, l.blank, rest);
    FindsBackslash(w, parts, l.blank != []);
  }

  lemma MoreStarts(more: seq<(Tail, text)>, t: text)
    requires t != [] && !IsSpace(t[0])
    ensures MoreText(more) + t != [] && !IsSpace((MoreText(more) + t)[0])
  {
  }

  lemma MoreNext(more: seq<(Tail, text)>, t: text)
    requires more != []
    ensures MoreText(more) + t == [BACKSLASH] + (TailText(more[0].0) + (more[0].1 + (MoreText(more[1..]) + t)))
  {
    hide TailText;
  }

  lemma {:induction false} MoreReads(w: text, parts: bool, more: seq<(Tail, text)>, heading: bool, t: text)
    requires Solid(w) && MoreOk(more, heading) && t != [] && !IsSpace(t[0])
    ensures if heading then InHead(w + Space(parts), |w|, MoreText(more) + t)
                            == InHead(w + Space(parts || MoreParts(more)), |w|, t)
            else InName(w + Space(parts), |w|, MoreText(more) + t)
                 == InName(w + Space(parts || MoreParts(more)), |w|, t)
    decreases |more|
  {
    hide InName, InHead, TailText, TailOk, Space;
    if more == [] {
      assert MoreText(more) + t == t;
    } else {
      var rest := MoreText(more[1..]) + t;
      MoreStarts(more[1..], t);
      MoreNext(more, t);
      if heading {
        HeadContinues(w, parts, more[0].0, more[0].1 + rest);
      } else {
        NameContinues(w, parts, more[0].0, more[0].1 + rest);
      }
      BlankReads(w, parts, more[0].1, rest);
      MoreReads(w, parts || more[0].1 != [], more[1..], heading, t);
    }
  }

  /** However long a gap is and over however many lines it goes, it comes to one space or to nothing. */
  lemma GapReads(w: text, g: Gap, heading: bool, t: text)
    requires Solid(w) && GapOk(g, heading) && t != [] && !IsSpace(t[0])
    ensures if heading then InHead(w, |w|, GapText(g) + t) == InHead(w + Space(Parts(g)), |w|, t)
            else InName(w, |w|, GapText(g) + t) == InName(w + Space(Parts(g)), |w|, t)
  {
    hide InName, InHead, MoreText, MoreParts, MoreOk;
    var rest := MoreText(g.more) + t;
    assert GapText(g) + t == g.first + rest && w + Space(false) == w;
    assert rest != [] && !IsSpace(rest[0]) by { MoreStarts(g.more, t); }
    BlankReads(w, false, g.first, rest);
    MoreReads(w, g.first != [], g.more, heading, t);
  }

  lemma SpacedStarts(ws: seq<text>, gaps: seq<Gap>, heading: bool)
    requires Wordy(ws, gaps, heading)
    ensures Spaced(ws, gaps) != [] && Spaced(ws, gaps)[0] == ws[0][0] && !IsSpace(ws[0][0])
    ensures |ws| > 1 ==> Wordy(ws[1..], gaps[1..], heading)
  {
    hide GapOk, GapText;
    assert WordOk(ws[0], heading);
  }

  lemma WordEnds(b: text, w: text, heading: bool)
    requires WordOk(w, heading)
    ensures Solid(b + w)
  {
  }

  lemma SpacedNext(ws: seq<text>, gaps: seq<Gap>, t: text)
    requires |ws| > 1 && |gaps| == |ws| - 1
    ensures Spaced(ws, gaps) + t == ws[0] + (GapText(gaps[0]) + (Spaced(ws[1..], gaps[1..]) + t))
  {
    hide GapText;
  }

  lemma WholeWord(b: text, end: nat, w: text, heading: bool, t: text)
    requires end <= |b| && WordOk(w, heading)
    ensures if heading then InHead(b, end, w + t) == InHead(b + w, |b + w|, t)
            else InName(b, end, w + t) == InName(b + w, |b + w|, t)
  {
    hide InHead, InName;
    if heading {
      HeadWord(b, end, w, t);
    } else {
      NameWord(b, end, w, t);
    }
  }

  /** A word and the gap behind it. */
  lemma WordAndGap(b: text, end: nat, w: text, g: Gap, heading: bool, t: text)
    requires end <= |b| && WordOk(w, heading) && GapOk(g, heading) && t != [] && !IsSpace(t[0])
    ensures var c := b + w;
            if heading then InHead(b, end, w + (GapText(g) + t)) == InHead(c + Space(Parts(g)), |c|, t)
            else InName(b, end, w + (GapText(g) + t)) == InName(c + Space(Parts(g)), |c|, t)
  {
    hide InName, InHead, GapOk, GapText, Parts, Space, WordOk, Solid;
    WholeWord(b, end, w, heading, GapText(g) + t);
    WordEnds(b, w, heading);
    GapReads(b + w, g, heading, t);
  }

  /** However the words are spaced and continued, the buffer holds them with single spaces. */
  lemma {:induction false} AllWords(b: text, end: nat, ws: seq<text>, gaps: seq<Gap>, heading: bool, t: text)
    requires end <= |b| && Wordy(ws, gaps, heading)
    ensures var c := b + Normal(ws, gaps);
            if heading then InHead(b, end, Spaced(ws, gaps) + t) == InHead(c, |c|, t)
            else InName(b, end, Spaced(ws, gaps) + t) == InName(c, |c|, t)
    decreases |ws|
  {
    hide InName, InHead, GapOk, GapText, Parts, Space, WordOk;
    assert WordOk(ws[0], heading);
    if |ws| == 1 {
      WholeWord(b, end, ws[0], heading, t);
    } else {
      var rest := Spaced(ws[1..], gaps[1..]) + t;
      var c, s := b + ws[0], Space(Parts(gaps[0]));
      SpacedStarts(ws, gaps, heading);
      SpacedStarts(ws[1..], gaps[1..], heading);
      SpacedNext(ws, gaps, t);
      WordAndGap(b, end, ws[0], gaps[0], heading, rest);
      AllWords(c + s, |c|, ws[1..], gaps[1..], heading, t);
      assert c + s + Normal(ws[1..], gaps[1..]) == b + Normal(ws, gaps);
    }
  }

  lemma {:induction false} NormalIsSolid(ws: seq<text>, gaps: seq<Gap>, heading: bool)
    requires Wordy(ws, gaps, heading)
    ensures Normal(ws, gaps) != [] && Solid(Normal(ws, gaps))
    decreases |ws|
  {
    hide GapOk;
    if |ws| == 1 {
      assert WordOk(ws[0], heading);
    } else {
      NormalIsSolid(ws[1..], gaps[1..], heading);
    }
  }

  /** The only whitespace in a name as it is stored are single spaces within it. */
  lemma {:induction false} NormalIsTidy(ws: seq<text>, gaps: seq<Gap>, heading: bool, i: nat)
    requires Wordy(ws, gaps, heading) && i < |Normal(ws, gaps)| && IsSpace(Normal(ws, gaps)[i])
    ensures Normal(ws, gaps)[i] == SPACE && 0 < i < |Normal(ws, gaps)| - 1
    ensures !IsSpace(Normal(ws, gaps)[i - 1]) && !IsSpace(Normal(ws, gaps)[i + 1])
    decreases |ws|
  {
    hide GapOk, Parts;
    assert WordOk(ws[0], heading);
    if |ws| > 1 {
      var m := |ws[0]| + |Space(Parts(gaps[0]))|;
      assert WordOk(ws[1], heading);
      assert Normal(ws[1..], gaps[1..])[0] == ws[1][0];
      if i >= m {
        NormalIsTidy(ws[1..], gaps[1..], heading, i - m);
      }
    }
  }

  /** A name, perhaps spaced out and continued, and the sign behind it. */
  lemma NameReads(ws: seq<text>, gaps: seq<Gap>, before: Gap, t: text)
    requires Wordy(ws, gaps, false) && GapOk(before, false)
    ensures InName([], 0, Spaced(ws, gaps) + (GapText(before) + ([EQUALS] + t))) == Name(Normal(ws, gaps), t)
  {
    hide Normal, Spaced, GapText, Parts, GapOk;
    var n, rest := Normal(ws, gaps), [EQUALS] + t;
    AllWords([], 0, ws, gaps, false, GapText(before) + rest);
    assert [] + n == n && |[] + n| == |n|;
    NormalIsSolid(ws, gaps, false);
    GapReads(n, before, false, rest);
    assert rest[1..] == t && (n + Space(Parts(before)))[..|n|] == n;
  }

  /** A section name as it is stored: a gap between the bracket and the first word may leave a space. */
  function HeadName(lead: Gap, ws: seq<text>, gaps: seq<Gap>): text
    requires |ws| > 0 && |gaps| == |ws| - 1
  {
    Space(MoreParts(lead.more)) + Normal(ws, gaps)
  }

  /** It starts with whitespace exactly when whitespace stands between a backslash and the first word. */
  lemma HeadSpaceExactly(lead: Gap, ws: seq<text>, gaps: seq<Gap>)
    requires Wordy(ws, gaps, true)
    ensures HeadName(lead, ws, gaps) != []
    ensures IsSpace(HeadName(lead, ws, gaps)[0]) <==> MoreParts(lead.more)
  {
    hide GapOk, MoreParts, Parts;
    assert WordOk(ws[0], true);
    assert Normal(ws, gaps)[0] == ws[0][0];
  }

  lemma HeadingReads(lead: Gap, ws: seq<text>, gaps: seq<Gap>, trail: Gap, junk: text, t: text)
    requires Wordy(ws, gaps, true) && GapOk(lead, true) && GapOk(trail, true) && Junk(junk)
    ensures var ahead := GapText(lead) + (Spaced(ws, gaps) + (GapText(trail) + ([CLOSE] + (junk + ([NEWLINE] + t)))));
            SectionScan([], 0, EatSpace(ahead).0, EatSpace(ahead).1) == Section(HeadName(lead, ws, gaps), t)
  {
    hide Normal, Spaced, GapText, Parts, GapOk, InHead;
    var n, close := HeadName(lead, ws, gaps), [CLOSE] + (junk + ([NEWLINE] + t));
    var words := Spaced(ws, gaps) + (GapText(trail) + close);
    SpacedStarts(ws, gaps, true);
    LeadReads(lead, words);
    AllWords(Space(MoreParts(lead.more)), 0, ws, gaps, true, GapText(trail) + close);
    NormalIsSolid(ws, gaps, true);
    GapReads(n, trail, true, close);
    HeadCloses(n, Parts(trail), junk, t);
  }

  /** Whitespace right behind the bracket is skipped, that behind a continuation is not. */
  lemma LeadReads(lead: Gap, t: text)
    requires GapOk(lead, true) && t != [] && !IsSpace(t[0])
    ensures SectionScan([], 0, EatSpace(GapText(lead) + t).0, EatSpace(GapText(lead) + t).1)
         == InHead(Space(MoreParts(lead.more)), 0, t)
  {
    hide MoreText, MoreParts, MoreOk, SectionScan;
    var rest := MoreText(lead.more) + t;
    assert GapText(lead) + t == lead.first + rest;
    MoreStarts(lead.more, t);
    SkipBlank(lead.first, rest);
    assert [] + Space(false) == [] && [] + Space(MoreParts(lead.more)) == Space(MoreParts(lead.more));
    MoreReads([], false, lead.more, true, t);
  }

  lemma HeadCloses(n: text, parts: bool, junk: text, t: text)
    requires n != [] && Junk(junk)
    ensures InHead(n + Space(parts), |n|, [CLOSE] + (junk + ([NEWLINE] + t))) == Section(n, t)
  {
    var close := [CLOSE] + (junk + ([NEWLINE] + t));
    assert close[1..] == junk + ([NEWLINE] + t) && (n + Space(parts))[..|n|] == n;
    SkipJunk(junk, t);
  }

  // --------------------------------------------------------------------- Values

  predicate PieceOk(p: text) {
    forall i :: 0 <= i < |p| ==> ValueChar(p[i]) || p[i] == RETURN
  }

  /** What is stored of a piece: carriage returns are dropped. */
  function Stored(p: text): text {
    if p == [] then []
    else
      var n := |p| - 1;
      Stored(p[..n]) + if p[n] == RETURN then [] else [p[n]]
  }

  function AllStored(pieces: seq<text>): (all: seq<text>)
    ensures |all| == |pieces|
    decreases |pieces|
  {
    if pieces == [] then [] else [Stored(pieces[0])] + AllStored(pieces[1..])
  }

  /** The first character stays, unless it is a carriage return. */
  lemma {:induction false} StoredStarts(p: text)
    requires p != [] && p[0] != RETURN
    ensures Stored(p) != [] && Stored(p)[0] == p[0]
  {
    if |p| > 1 {
      StoredStarts(p[..|p| - 1]);
    }
  }

  /** A value cut into pieces, all but the last continued by a backslash. */
  function ValueText(pieces: seq<text>, tails: seq<Tail>): text
    requires |pieces| == |tails| > 0
    decreases |pieces|
  {
    if |pieces| == 1 then pieces[0] + TailText(tails[0])
    else pieces[0] + ([BACKSLASH] + (TailText(tails[0]) + ValueText(pieces[1..], tails[1..])))
  }

  function Joined(pieces: seq<text>): text
    decreases |pieces|
  {
    if pieces == [] then [] else pieces[0] + Joined(pieces[1..])
  }

  /** What the pieces come to: the whitespace behind the last one is dropped. */
  function ValueOf(pieces: seq<text>): text
    requires pieces != []
    decreases |pieces|
  {
    if |pieces| == 1 then pieces[0][..Trim(pieces[0])] else pieces[0] + ValueOf(pieces[1..])
  }

  function InValue(b: text, start: nat, end: nat, t: text): (text, text)
    requires 0 < start <= end <= |b| && b[start - 1] == 0
  {
    ValueScan(b, start, end, Next(t).0, Next(t).1)
  }

  /** Where a text ends when the whitespace behind it is dropped. */
  function Trim(p: text): (n: nat)
    ensures n <= |p|
  {
    if p == [] then 0 else if IsSpace(p[|p| - 1]) then Trim(p[..|p| - 1]) else |p|
  }

  /** Where the value ends when q has been added to a buffer b. */
  function EndOf(b: text, end: nat, q: text): nat { if Trim(q) == 0 then end else |b| + Trim(q) }

  lemma EndNext(b: text, start: nat, end: nat, q: text, c: byte)
    requires 0 < start <= end <= |b| && b[start - 1] == 0
    ensures EndOf(b, end, q + [c]) == if IsSpace(c) then EndOf(b, end, q) else |b + q| + 1
    ensures start <= EndOf(b, end, q) <= |b + q| && (b + q)[start - 1] == 0
  {
    assert (q + [c])[..|q|] == q;
  }

  /** Characters of the value are stored; the end moves to the last one that is not whitespace. */
  lemma {:induction false} ValuePiece(b: text, start: nat, end: nat, p: text, t: text)
    requires 0 < start <= end <= |b| && b[start - 1] == 0 && PieceOk(p)
    ensures InValue(b, start, end, p + t) == InValue(b + Stored(p), start, EndOf(b, end, Stored(p)), t)
    decreases |p|
  {
    hide InValue, EndOf;
    if p == [] {
      NothingStored(b, end);
      assert p + t == t;
    } else {
      var n := |p| - 1;
      var q := Stored(p[..n]);
      assert p + t == p[..n] + ([p[n]] + t);
      ValuePiece(b, start, end, p[..n], [p[n]] + t);
      EndNext(b, start, end, q, p[n]);
      if p[n] == RETURN {
        ReturnStep(b + q, start, EndOf(b, end, q), t);
        assert Stored(p) == q;
      } else {
        ValueStep(b + q, start, EndOf(b, end, q), p[n], t);
        assert b + q + [p[n]] == b + Stored(p);
      }
    }
  }

  lemma NothingStored(b: text, end: nat)
    ensures b + Stored([]) == b && EndOf(b, end, Stored([])) == end
  {
  }

  lemma ReturnStep(b: text, start: nat, end: nat, t: text)
    requires 0 < start <= end <= |b| && b[start - 1] == 0
    ensures InValue(b, start, end, [RETURN] + t) == InValue(b, start, end, t)
  {
    assert ([RETURN] + t)[1..] == t;
  }

  lemma ValueStep(b: text, start: nat, end: nat, c: byte, t: text)
    requires 0 < start <= end <= |b| && b[start - 1] == 0 && ValueChar(c)
    ensures InValue(b, start, end, [c] + t) == InValue(b + [c], start, if IsSpace(c) then end else |b| + 1, t)
  {
    assert ([c] + t)[1..] == t;
  }

  lemma {:induction false} BlankTrims(ws: text)
    requires Blank(ws)
    ensures Blank(Stored(ws)) && Trim(Stored(ws)) == 0
  {
    if ws != [] {
      var q := Stored(ws[..|ws| - 1]);
      BlankTrims(ws[..|ws| - 1]);
      assert (q + [ws[|ws| - 1]])[..|q|] == q;
      assert Stored(ws) == q || Stored(ws) == q + [ws[|ws| - 1]];
    }
  }

  lemma {:induction false} BlankFinds(b: text, ws: text)
    requires Blank(ws)
    ensures FindContinuation(b + ws) == FindContinuation(b)
  {
    if ws == [] {
      assert b + ws == b;
    } else {
      assert (b + ws)[..|b + ws| - 1] == b + ws[..|ws| - 1];
      BlankFinds(b, ws[..|ws| - 1]);
    }
  }

  /** The end of a line within a value, with or without a comment. */
  lemma TailReads(b: text, start: nat, end: nat, l: Tail, t: text)
    requires 0 < start <= end <= |b| && b[start - 1] == 0 && TailOk(l)
    ensures InValue(b, start, end, TailText(l) + t) == ValueLineEnd(b + Stored(l.blank), start, end, t)
  {
    hide ValueLineEnd, ValueScan, Junk;
    var rest := l.remark + ([NEWLINE] + t);
    assert TailText(l) + t == l.blank + rest;
    BlankIsValue(l.blank);
    ValuePiece(b, start, end, l.blank, rest);
    BlankTrims(l.blank);
    RemarkReads(b + Stored(l.blank), start, end, l.remark, t);
  }

  lemma BlankIsValue(ws: text)
    requires Blank(ws)
    ensures PieceOk(ws)
  {
  }

  lemma RemarkReads(b: text, start: nat, end: nat, remark: text, t: text)
    requires 0 < start <= end <= |b| && b[start - 1] == 0 && Remark(remark)
    ensures InValue(b, start, end, remark + ([NEWLINE] + t)) == ValueLineEnd(b, start, end, t)
  {
    hide ValueLineEnd;
    var rest := remark + ([NEWLINE] + t);
    if remark == [] {
      assert rest == [NEWLINE] + t && rest[1..] == t;
    } else {
      assert rest[1..] == remark[1..] + ([NEWLINE] + t);
      SkipJunk(remark[1..], t);
    }
  }

  /** A continued line: the backslash and what follows it on the line are dropped. */
  lemma Continues(b: text, start: nat, end: nat, l: Tail, t: text)
    requires 0 < start <= end <= |b| && b[start - 1] == 0 && TailOk(l)
    ensures InValue(b, start, end, [BACKSLASH] + (TailText(l) + t)) == InValue(b, start, |b|, t)
  {
    hide TailText;
    ValueStep(b, start, end, BACKSLASH, TailText(l) + t);
    TailReads(b + [BACKSLASH], start, |b| + 1, l, t);
    BlankTrims(l.blank);
    BlankFinds(b + [BACKSLASH], Stored(l.blank));
    assert (b + [BACKSLASH] + Stored(l.blank))[..|b|] == b;
  }

  /** The last piece: whitespace behind it is dropped. */
  lemma {:induction false} LastPiece(b: text, start: nat, p: text, l: Tail, t: text)
    requires 0 < start <= |b| && b[start - 1] == 0 && PieceOk(p) && TailOk(l) && FindContinuation(b + Stored(p)) < 0
    ensures InValue(b, start, |b|, p + (TailText(l) + t)) == (b[start..] + Stored(p)[..Trim(Stored(p))], t)
  {
    hide InValue, TailText, PieceOk, Trim, FindContinuation;
    var q, ws := Stored(p), Stored(l.blank);
    var end := |b| + Trim(q);
    ValuePiece(b, start, |b|, p, TailText(l) + t);
    TailReads(b + q, start, end, l, t);
    BlankTrims(l.blank);
    BlankFinds(b + q, ws);
    Cut(b, q, ws, start, Trim(q));
  }

  lemma Cut(b: text, p: text, blank: text, start: nat, n: nat)
    requires start <= |b| && n <= |p|
    ensures (b + p + blank)[start..|b| + n] == b[start..] + p[..n]
  {
  }

  /** However a value is cut and spread over lines, this is what is read. */
  lemma {:induction false} ValueReads(b: text, start: nat, pieces: seq<text>, tails: seq<Tail>, t: text)
    requires 0 < start <= |b| && b[start - 1] == 0 && |pieces| == |tails| > 0
    requires (forall i :: 0 <= i < |pieces| ==> PieceOk(pieces[i])) && (forall i :: 0 <= i < |tails| ==> TailOk(tails[i]))
    requires FindContinuation(b + Joined(AllStored(pieces))) < 0
    ensures InValue(b, start, |b|, ValueText(pieces, tails) + t) == (b[start..] + ValueOf(AllStored(pieces)), t)
    decreases |pieces|
  {
    hide InValue, TailText, PieceOk, TailOk, Trim, FindContinuation, Stored;
    var p, l, q := pieces[0], tails[0], Stored(pieces[0]);
    var rest := AllStored(pieces[1..]);
    assert AllStored(pieces)[1..] == rest;
    if |pieces| == 1 {
      assert Joined(AllStored(pieces)) == q + [] == q;
      assert ValueText(pieces, tails) + t == p + (TailText(l) + t);
      LastPiece(b, start, p, l, t);
    } else {
      var b', more := b + q, ValueText(pieces[1..], tails[1..]) + t;
      Regroup(p, TailText(l), ValueText(pieces[1..], tails[1..]), t);
      ValuePiece(b, start, |b|, p, [BACKSLASH] + (TailText(l) + more));
      Continues(b', start, EndOf(b, |b|, q), l, more);
      assert b' + Joined(rest) == b + Joined(AllStored(pieces));
      assert b'[start..] + ValueOf(rest) == b[start..] + ValueOf(AllStored(pieces));
      ValueReads(b', start, pieces[1..], tails[1..], t);
    }
  }

  lemma Regroup(p: text, l: text, more: text, t: text)
    ensures p + ([BACKSLASH] + (l + more)) + t == p + ([BACKSLASH] + (l + (more + t)))
  {
  }

  /** Behind a NUL it is the value alone that decides whether it is continued. */
  lemma {:induction false} ClosedBehind(b: text, v: text)
    requires b != [] && b[|b| - 1] == 0 && FindContinuation(v) < 0
    ensures FindContinuation(b + v) < 0
  {
    if v == [] {
      assert b + v == b;
    } else {
      var n := |v| - 1;
      assert (b + v)[..|b| + n] == b + v[..n];
      if IsSpace(v[n]) {
        ClosedBehind(b, v[..n]);
      }
    }
  }

  // ------------------------------------------------------------- Whole files

  datatype Item =
    | Nothing(indent: text, remark: text)
    | Bracketed(indent: text, lead: Gap, words: seq<text>, gaps: seq<Gap>, trail: Gap, junk: text)
    | Setting(indent: text, words: seq<text>, gaps: seq<Gap>, before: Gap, after: text,
              pieces: seq<text>, tails: seq<Tail>)

  predicate ItemOk(it: Item) {
    Blank(it.indent)
    && match it
       case Nothing(_, remark) => Remark(remark)
       case Bracketed(_, lead, words, gaps, trail, junk) =>
         Wordy(words, gaps, true) && GapOk(lead, true) && GapOk(trail, true) && Junk(junk)
       case Setting(_, words, gaps, before, after, pieces, tails) =>
         && Wordy(words, gaps, false) && words[0][0] != OPEN && words[0][0] != BACKSLASH
         && GapOk(before, false) && Blank(after) && |pieces| == |tails| > 0
         && (forall i :: 0 <= i < |pieces| ==> PieceOk(pieces[i]))
         && (forall i :: 0 <= i < |tails| ==> TailOk(tails[i]))
         && FindContinuation(Joined(AllStored(pieces))) < 0  // the last line is not continued
         && (if pieces[0] != [] then !IsSpace(pieces[0][0]) else |pieces| == 1 ==> tails[0].blank == [])
  }

  function ItemText(it: Item): text
    requires ItemOk(it)
  {
    match it
    case Nothing(indent, remark) => indent + (remark + [NEWLINE])
    case Bracketed(indent, lead, words, gaps, trail, junk) =>
      indent + ([OPEN] + (GapText(lead) + (Spaced(words, gaps) + (GapText(trail) + ([CLOSE] + (junk + [NEWLINE]))))))
    case Setting(indent, words, gaps, before, after, pieces, tails) =>
      indent + (Spaced(words, gaps) + (GapText(before) + ([EQUALS] + (after + ValueText(pieces, tails)))))
  }

  function FileText(items: seq<Item>): text
    requires forall i :: 0 <= i < |items| ==> ItemOk(items[i])
    decreases |items|
  {
    if items == [] then [] else ItemText(items[0]) + FileText(items[1..])
  }

  /** The section in force and the calls made, after one more item. */
  function Effect(it: Item, section: text, calls: seq<Call>): (text, seq<Call>)
    requires ItemOk(it)
  {
    match it
    case Nothing(_, _) => (section, calls)
    case Bracketed(_, lead, words, gaps, _, _) => (HeadName(lead, words, gaps), calls)
    case Setting(_, words, gaps, _, _, pieces, _) =>
      (section, calls + [Call(section, Normal(words, gaps), ValueOf(AllStored(pieces)))])
  }

  /** The calls a file asks for: each setting with the section in force, in order. */
  function Meaning(items: seq<Item>, section: text, calls: seq<Call>): seq<Call>
    requires forall i :: 0 <= i < |items| ==> ItemOk(items[i])
    decreases |items|
  {
    if items == [] then calls
    else
      var (s, c) := Effect(items[0], section, calls);
      Meaning(items[1..], s, c)
  }

  lemma NothingReads(indent: text, remark: text, t: text, section: text, calls: seq<Call>)
    requires Blank(indent) && Remark(remark)
    ensures Lines(indent + (remark + [NEWLINE]) + t, section, calls) == Lines(t, section, calls)
  {
    var rest := remark + ([NEWLINE] + t);
    assert indent + (remark + [NEWLINE]) + t == indent + rest;
    SkipBlank(indent, rest);
    assert Parse(NEWLINE as int, t, section, calls) == Lines(t, section, calls);
    if remark == [] {
      assert rest == [NEWLINE] + t && rest[1..] == t;
    } else {
      hide Parse, EatComment;
      assert rest[1..] == remark[1..] + ([NEWLINE] + t);
      SkipJunk(remark[1..], t);
      CommentLine(rest[0], rest[1..], section, calls);
    }
  }

  lemma CommentLine(c: byte, rest: text, section: text, calls: seq<Call>)
    requires c == SEMICOLON || c == HASH
    ensures Parse(c as int, rest, section, calls) == Parse(EatComment(rest).0, EatComment(rest).1, section, calls)
  {
  }

  lemma HeadingItemReads(it: Item, t: text, section: text, calls: seq<Call>)
    requires ItemOk(it) && it.Bracketed?
    ensures Lines(ItemText(it) + t, section, calls) == Lines(t, HeadName(it.lead, it.words, it.gaps), calls)
  {
    hide HeadName, Spaced, GapText, GapOk, Junk, Blank, SectionScan, NameScan, ValueScan;
    var close := [CLOSE] + (it.junk + ([NEWLINE] + t));
    var ahead := GapText(it.lead) + (Spaced(it.words, it.gaps) + (GapText(it.trail) + close));
    assert ItemText(it) + t == it.indent + ([OPEN] + ahead);
    SkipBlank(it.indent, [OPEN] + ahead);
    assert ([OPEN] + ahead)[1..] == ahead;
    HeadingReads(it.lead, it.words, it.gaps, it.trail, it.junk, t);
  }

  lemma SettingReads(it: Item, t: text, section: text, calls: seq<Call>)
    requires ItemOk(it) && it.Setting?
    ensures Lines(ItemText(it) + t, section, calls)
         == Lines(t, section, calls + [Call(section, Normal(it.words, it.gaps), ValueOf(AllStored(it.pieces)))])
  {
    hide Normal, Spaced, GapText, GapOk, Blank, SectionScan, NameScan, ValueScan, ValueText, Joined, ValueOf, AllStored;
    hide PieceOk, TailOk;
    var value := ValueText(it.pieces, it.tails) + t;
    var name := Spaced(it.words, it.gaps) + (GapText(it.before) + ([EQUALS] + (it.after + value)));
    assert ItemText(it) + t == it.indent + name;
    SpacedStarts(it.words, it.gaps, false);
    SkipBlank(it.indent, name);
    FirstChar(it.words, it.gaps);
    assert name[0] == it.words[0][0];
    NameReads(it.words, it.gaps, it.before, it.after + value);
    ValueStarts(it, t);
    SkipBlank(it.after, value);
    var n, v := Normal(it.words, it.gaps), ValueOf(AllStored(it.pieces));
    var b := n + [0];
    assert b[|n| + 1..] == [] && [] + v == v;
    ClosedBehind(b, Joined(AllStored(it.pieces)));
    ValueReads(b, |n| + 1, it.pieces, it.tails, t);
  }

  lemma FirstChar(ws: seq<text>, gaps: seq<Gap>)
    requires Wordy(ws, gaps, false)
    ensures NameChar(ws[0][0])
  {
    assert WordOk(ws[0], false);
  }

  lemma ValueStarts(it: Item, t: text)
    requires ItemOk(it) && it.Setting?
    ensures var x := ValueText(it.pieces, it.tails) + t; x != [] && (!IsSpace(x[0]) || x[0] == NEWLINE)
  {
    var x, p, l := ValueText(it.pieces, it.tails) + t, it.pieces[0], it.tails[0];
    assert TailOk(l);
    if p == [] && |it.pieces| == 1 {
      assert x == l.remark + ([NEWLINE] + t);
    }
  }

  /** A rendered file is read as the calls it was rendered from, in order. */
  lemma {:induction false} FileReads(items: seq<Item>, section: text, calls: seq<Call>)
    requires forall i :: 0 <= i < |items| ==> ItemOk(items[i])
    ensures Lines(FileText(items), section, calls) == Done(Meaning(items, section, calls))
    decreases |items|
  {
    hide ItemOk, ItemText, Effect, Lines;
    if items == [] {
      EmptyFile(section, calls);
    } else {
      var (s, c) := Effect(items[0], section, calls);
      ReadItem(items[0], FileText(items[1..]), section, calls);
      FileReads(items[1..], s, c);
    }
  }

  lemma EmptyFile(section: text, calls: seq<Call>)
    ensures Lines([], section, calls) == Done(calls)
  {
  }

  lemma ReadItem(it: Item, t: text, section: text, calls: seq<Call>)
    requires ItemOk(it)
    ensures var (s, c) := Effect(it, section, calls);
            Lines(ItemText(it) + t, section, calls) == Lines(t, s, c)
  {
    hide Lines;
    match it
    case Nothing(indent, remark) => NothingReads(indent, remark, t, section, calls);
    case Bracketed(_, _, _, _, _, _) => HeadingItemReads(it, t, section, calls);
    case Setting(_, _, _, _, _, _, _) => SettingReads(it, t, section, calls);
  }
}
