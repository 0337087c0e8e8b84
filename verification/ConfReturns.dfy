/** Files with carriage returns at their line ends make the same calls (conf.c:114-118, 136-138, 214-217). */
module ConfReturns {
  import opened Words
  import opened Conf
  import opened ConfText

  /** The same text with CR LF for every line end. */
  function Crlf(t: text): text {
    if t == [] then []
    else (if t[0] == NEWLINE then [RETURN, NEWLINE] else [t[0]]) + Crlf(t[1..])
  }

  lemma CrlfNext(t: text)
    requires t != []
    ensures t[0] != NEWLINE ==> Crlf(t) != [] && Crlf(t)[0] == t[0] && Crlf(t)[1..] == Crlf(t[1..])
    ensures t[0] == NEWLINE ==> Crlf(t) == [RETURN] + ([NEWLINE] + Crlf(t[1..]))
  {
  }

  lemma {:induction false} CrlfComment(t: text)
    ensures EatComment(Crlf(t)) == (EatComment(t).0, Crlf(EatComment(t).1))
    decreases |t|
  {
    if t != [] {
      CrlfNext(t);
      if t[0] == NEWLINE {
        var rest := [NEWLINE] + Crlf(t[1..]);
        assert Crlf(t)[1..] == rest && rest[1..] == Crlf(t[1..]);
        assert EatComment(rest) == (NEWLINE as int, Crlf(t[1..]));
      } else {
        CrlfComment(t[1..]);
      }
    }
  }

  lemma {:induction false} CrlfSpace(t: text)
    ensures EatSpace(Crlf(t)) == (EatSpace(t).0, Crlf(EatSpace(t).1))
    decreases |t|
  {
    if t != [] {
      CrlfNext(t);
      if t[0] == NEWLINE {
        var rest := [NEWLINE] + Crlf(t[1..]);
        assert Crlf(t)[1..] == rest && rest[1..] == Crlf(t[1..]);
        assert EatSpace(rest) == (NEWLINE as int, Crlf(t[1..]));
      } else {
        CrlfSpace(t[1..]);
      }
    }
  }

  lemma {:induction false} InHand(t: text)
    ensures EatSpace(t).0 <= 255 && EatComment(t).0 <= 255
    decreases |t|
  {
    if t != [] {
      InHand(t[1..]);
    }
  }

  // ---------------------------------------------------------------------- Names

  function CrlfNamed(r: Named): Named {
    match r
    case Name(name, rest) => Name(name, Crlf(rest))
    case BadLine(rest) => BadLine(Crlf(rest))
    case NameExit => NameExit
  }

  /** What a scanner of names holds: a text without whitespace at its end, and perhaps one space. */
  predicate Fits(b: text, end: nat) {
    end == |b| || (end + 1 == |b| && b[end] == SPACE)
  }

  /** A space at the end makes no difference to the end of a line. */
  lemma SpaceAtEnd(b: text, end: nat)
    requires Fits(b, end)
    ensures var k, c := FindContinuation(b), b[..end] + [SPACE];
            FindContinuation(c) == k < |c| && (k >= 0 ==> c[..k] == b[..k])
  {
    var c := b[..end] + [SPACE];
    assert c[..end] == b[..end];
    if end < |b| {
      assert c == b;
    } else {
      assert b[..end] == b;
    }
  }

  lemma NameLineSame(b: text, end: nat, t: text)
    requires Fits(b, end)
    ensures NameLineEnd(b[..end] + [SPACE], t) == NameLineEnd(b, t)
  {
    hide FindContinuation, NameScan;
    var c := b[..end] + [SPACE];
    SpaceAtEnd(b, end);
    NameLineSteps(b, t);
    NameLineSteps(c, t);
    var k := FindContinuation(b);
    if k > 0 {
      assert c[..k][k - 1] == b[..k][k - 1];
    }
  }

  /** The scan from a character in hand. */
  lemma {:induction false} CrlfNameScan(b: text, end: nat, c: int, t: text)
    requires Fits(b, end) && c <= 255
    ensures NameScan(b, end, c, Crlf(t)) == CrlfNamed(NameScan(b, end, c, t))
    decreases Left(c, t), 1
  {
    hide EatComment, EatSpace, Crlf, NameScan, NameLineEnd, IsSpace, FindContinuation;
    NameSteps(b, end, c, t);
    NameSteps(b, end, c, Crlf(t));
    if c == NEWLINE as int {
      CrlfNameLine(b, t);
    } else if c == SEMICOLON as int || c == HASH as int {
      CommentShrinks(t);
      CrlfComment(t);
      CrlfNameLine(b, EatComment(t).1);
    } else if c > 0 && c != EQUALS as int {
      NameCharOrSpace(c);
      if IsSpace(c) {
        CrlfSpace(t);
        InHand(t);
        CrlfNameScan(b[..end] + [SPACE], end, EatSpace(t).0, EatSpace(t).1);
      } else {
        NameCharStep(b, end, c as byte, t);
        NameCharStep(b, end, c as byte, Crlf(t));
        CrlfInName(b + [c as byte], |b| + 1, t);
      }
    }
  }

  /** And from the text ahead, where a line end may have become two characters. */
  lemma {:induction false} CrlfInName(b: text, end: nat, t: text)
    requires Fits(b, end)
    ensures InName(b, end, Crlf(t)) == CrlfNamed(InName(b, end, t))
    decreases |t|, 2
  {
    hide EatComment, NameScan, NameLineEnd, FindContinuation;
    if t == [] {
      NameSteps(b, end, EOF, []);
    } else {
      CrlfNext(t);
      if t[0] == NEWLINE {
        var rest := [NEWLINE] + Crlf(t[1..]);
        assert Crlf(t)[1..] == rest && rest[1..] == Crlf(t[1..]);
        NameSteps(b, end, RETURN as int, rest);
        NameSteps(b[..end] + [SPACE], end, NEWLINE as int, Crlf(t[1..]));
        NameSteps(b, end, NEWLINE as int, t[1..]);
        NameLineSame(b, end, Crlf(t[1..]));
        CrlfNameLine(b, t[1..]);
      } else {
        CrlfNameScan(b, end, t[0] as int, t[1..]);
      }
    }
  }

  lemma {:induction false} CrlfNameLine(b: text, t: text)
    ensures NameLineEnd(b, Crlf(t)) == CrlfNamed(NameLineEnd(b, t))
    decreases |t|, 3
  {
    hide NameScan, FindContinuation, Crlf;
    NameLineSteps(b, t);
    NameLineSteps(b, Crlf(t));
    var k := FindContinuation(b);
    if k >= 0 {
      CrlfInName(b[..k], if k > 0 && b[k - 1] == SPACE then k - 1 else k, t);
    }
  }

  // ------------------------------------------------------------------- Sections

  function CrlfHeading(r: Heading): Heading {
    match r
    case Section(name, rest) => Section(name, Crlf(rest))
    case Unclosed(rest) => Unclosed(Crlf(rest))
    case SectionExit => SectionExit
  }

  lemma SectionLineSame(b: text, end: nat, t: text)
    requires Fits(b, end)
    ensures SectionLine(b[..end] + [SPACE], t) == SectionLine(b, t)
  {
    hide FindContinuation, SectionScan;
    var c := b[..end] + [SPACE];
    SpaceAtEnd(b, end);
    var k := FindContinuation(b);
    if k > 0 {
      assert c[..k][k - 1] == b[..k][k - 1];
    }
  }

  lemma {:induction false} CrlfSectionScan(b: text, end: nat, c: int, t: text)
    requires Fits(b, end) && c <= 255
    ensures SectionScan(b, end, c, Crlf(t)) == CrlfHeading(SectionScan(b, end, c, t))
    decreases Left(c, t), 1
  {
    hide EatComment, EatSpace, Crlf, SectionScan, SectionLine, IsSpace, FindContinuation;
    SectionSteps(b, end, c, t);
    SectionSteps(b, end, c, Crlf(t));
    if c == NEWLINE as int {
      CrlfSectionLine(b, t);
    } else if c == CLOSE as int {
      CrlfComment(t);
    } else if c > 0 {
      if IsSpace(c) {
        CrlfSpace(t);
        InHand(t);
        CrlfSectionScan(b[..end] + [SPACE], end, EatSpace(t).0, EatSpace(t).1);
      } else {
        SectionCharStep(b, end, c as byte, t);
        SectionCharStep(b, end, c as byte, Crlf(t));
        CrlfInHead(b + [c as byte], |b| + 1, t);
      }
    }
  }

  lemma {:induction false} CrlfInHead(b: text, end: nat, t: text)
    requires Fits(b, end)
    ensures InHead(b, end, Crlf(t)) == CrlfHeading(InHead(b, end, t))
    decreases |t|, 2
  {
    hide EatComment, SectionScan, SectionLine, FindContinuation;
    if t == [] {
      SectionSteps(b, end, EOF, []);
    } else {
      CrlfNext(t);
      if t[0] == NEWLINE {
        var rest := [NEWLINE] + Crlf(t[1..]);
        assert Crlf(t)[1..] == rest && rest[1..] == Crlf(t[1..]);
        SectionSteps(b, end, RETURN as int, rest);
        SectionSteps(b[..end] + [SPACE], end, NEWLINE as int, Crlf(t[1..]));
        SectionSteps(b, end, NEWLINE as int, t[1..]);
        SectionLineSame(b, end, Crlf(t[1..]));
        CrlfSectionLine(b, t[1..]);
      } else {
        CrlfSectionScan(b, end, t[0] as int, t[1..]);
      }
    }
  }

  lemma {:induction false} CrlfSectionLine(b: text, t: text)
    ensures SectionLine(b, Crlf(t)) == CrlfHeading(SectionLine(b, t))
    decreases |t|, 3
  {
    hide SectionScan, FindContinuation, Crlf;
    var k := FindContinuation(b);
    if k >= 0 {
      CrlfInHead(b[..k], if k > 0 && b[k - 1] == SPACE then k - 1 else k, t);
    }
  }

  // --------------------------------------------------------------------- Values

  lemma {:induction false} CrlfValueScan(b: text, start: nat, end: nat, c: int, t: text)
    requires 0 < start <= end <= |b| && b[start - 1] == 0 && c <= 255
    ensures var r := ValueScan(b, start, end, c, t); ValueScan(b, start, end, c, Crlf(t)) == (r.0, Crlf(r.1))
    decreases Left(c, t), 1
  {
    hide EatComment, Crlf, ValueScan, ValueLineEnd, FindContinuation;
    ValueSteps(b, start, end, c, t);
    ValueSteps(b, start, end, c, Crlf(t));
    if c == RETURN as int {
      CrlfInValue(b, start, end, t);
    } else if c == NEWLINE as int {
      CrlfValueLine(b, start, end, t);
    } else if c == SEMICOLON as int || c == HASH as int {
      CommentShrinks(t);
      CrlfComment(t);
      CrlfValueLine(b, start, end, EatComment(t).1);
    } else if c > 0 {
      ValueCharStep(b, start, end, c as byte, t);
      ValueCharStep(b, start, end, c as byte, Crlf(t));
      CrlfInValue(b + [c as byte], start, if IsSpace(c) then end else |b| + 1, t);
    }
  }

  lemma {:induction false} CrlfInValue(b: text, start: nat, end: nat, t: text)
    requires 0 < start <= end <= |b| && b[start - 1] == 0
    ensures var r := InValue(b, start, end, t); InValue(b, start, end, Crlf(t)) == (r.0, Crlf(r.1))
    decreases |t|, 2
  {
    hide EatComment, ValueScan, ValueLineEnd, FindContinuation;
    if t == [] {
      ValueSteps(b, start, end, EOF, []);
    } else {
      CrlfNext(t);
      if t[0] == NEWLINE {
        var rest := [NEWLINE] + Crlf(t[1..]);
        assert Crlf(t) == [RETURN] + rest && rest[1..] == Crlf(t[1..]);
        ReturnStep(b, start, end, rest);
        ValueSteps(b, start, end, NEWLINE as int, Crlf(t[1..]));
        ValueSteps(b, start, end, NEWLINE as int, t[1..]);
        CrlfValueLine(b, start, end, t[1..]);
      } else {
        CrlfValueScan(b, start, end, t[0] as int, t[1..]);
      }
    }
  }

  lemma {:induction false} CrlfValueLine(b: text, start: nat, end: nat, t: text)
    requires 0 < start <= end <= |b| && b[start - 1] == 0
    ensures var r := ValueLineEnd(b, start, end, t); ValueLineEnd(b, start, end, Crlf(t)) == (r.0, Crlf(r.1))
    decreases |t|, 3
  {
    hide ValueScan, FindContinuation, Crlf;
    ValueLineSteps(b, start, end, t);
    ValueLineSteps(b, start, end, Crlf(t));
    var k := FindContinuation(b);
    if k >= 0 {
      StaysInValue(b, start);
      CrlfInValue(b[..k], start, k, t);
    }
  }

  // ----------------------------------------------------------------- Whole files

  /** The rest of the file, once the name of a parameter has been looked for. */
  function Behind(n: Named, section: text, calls: seq<Call>): Outcome
  {
    match n
    case NameExit => Exit
    case BadLine(r) => Lines(r, section, calls)
    case Name(name, r) =>
      var (value, r') := ValueScan(name + [0], |name| + 1, |name| + 1, EatSpace(r).0, EatSpace(r).1);
      Lines(r', section, calls + [Call(section, name, value)])
  }

  predicate StartsParameter(c: int) {
    c != NEWLINE as int && c != BACKSLASH as int && c != SEMICOLON as int && c != HASH as int && c != OPEN as int
  }

  lemma ParameterStep(c: int, t: text, section: text, calls: seq<Call>)
    requires 0 < c <= 255 && StartsParameter(c)
    ensures Parse(c, t, section, calls) == Behind(NameScan([], 0, c, t), section, calls)
  {
    hide EatSpace, EatComment, NameScan, ValueScan, SectionScan;
  }

  /** And behind a section heading. */
  function BehindHeading(h: Heading, section: text, calls: seq<Call>): Outcome {
    match h
    case Section(name, r) => Lines(r, name, calls)
    case Unclosed(r) => Lines(r, section, calls)
    case SectionExit => Exit
  }

  lemma SectionStep(t: text, section: text, calls: seq<Call>)
    ensures Parse(OPEN as int, t, section, calls)
         == BehindHeading(SectionScan([], 0, EatSpace(t).0, EatSpace(t).1), section, calls)
  {
    hide EatSpace, EatComment, NameScan, ValueScan, SectionScan;
  }

  lemma {:induction false} CrlfParameter(c: int, t: text, section: text, calls: seq<Call>)
    requires 0 < c <= 255 && StartsParameter(c)
    ensures Parse(c, Crlf(t), section, calls) == Parse(c, t, section, calls)
    decreases Left(c, t), 0
  {
    hide EatSpace, Crlf, Lines, NameScan, ValueScan;
    ParameterStep(c, t, section, calls);
    ParameterStep(c, Crlf(t), section, calls);
    CrlfNameScan([], 0, c, t);
    match NameScan([], 0, c, t)
    case NameExit =>
    case BadLine(r) => CrlfFile(r, section, calls);
    case Name(name, r) =>
      var (v, rest) := EatSpace(r);
      CrlfSpace(r);
      InHand(r);
      CrlfValueScan(name + [0], |name| + 1, |name| + 1, v, rest);
      var (value, r') := ValueScan(name + [0], |name| + 1, |name| + 1, v, rest);
      CrlfFile(r', section, calls + [Call(section, name, value)]);
  }

  lemma {:induction false} CrlfSection(t: text, section: text, calls: seq<Call>)
    ensures Parse(OPEN as int, Crlf(t), section, calls) == Parse(OPEN as int, t, section, calls)
    decreases Left(OPEN as int, t), 0
  {
    hide EatSpace, Crlf, Lines, SectionScan;
    SectionStep(t, section, calls);
    SectionStep(Crlf(t), section, calls);
    CrlfSpace(t);
    InHand(t);
    var (c, rest) := EatSpace(t);
    CrlfSectionScan([], 0, c, rest);
    match SectionScan([], 0, c, rest)
    case SectionExit =>
    case Unclosed(r) => CrlfFile(r, section, calls);
    case Section(name, r) => CrlfFile(r, name, calls);
  }

  lemma {:induction false} CrlfParse(c: int, t: text, section: text, calls: seq<Call>)
    requires c <= 255
    ensures Parse(c, Crlf(t), section, calls) == Parse(c, t, section, calls)
    decreases Left(c, t), 1
  {
    hide EatSpace, EatComment, Crlf, NameScan, ValueScan, SectionScan;
    if c == NEWLINE as int || c == BACKSLASH as int {
      CrlfFile(t, section, calls);
    } else if c == SEMICOLON as int || c == HASH as int {
      CrlfComment(t);
      InHand(t);
      CrlfParse(EatComment(t).0, EatComment(t).1, section, calls);
    } else if c == OPEN as int {
      CrlfSection(t, section, calls);
    } else if c > 0 {
      CrlfParameter(c, t, section, calls);
    }
  }

  /** Any file, well formed or not, makes the same calls with either kind of line ends. */
  lemma {:induction false} CrlfFile(t: text, section: text, calls: seq<Call>)
    ensures Lines(Crlf(t), section, calls) == Lines(t, section, calls)
    decreases |t|, 2
  {
    hide EatSpace, Parse;
    CrlfSpace(t);
    InHand(t);
    CrlfParse(EatSpace(t).0, EatSpace(t).1, section, calls);
  }
}
