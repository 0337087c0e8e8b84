/** The configuration file parser of conf.c. */
module Conf {
  import opened Words

  type text = seq<byte>

  const NEWLINE: byte := 10
  const RETURN: byte := 13
  const SPACE: byte := 32
  const BACKSLASH: byte := 92
  const EQUALS: byte := '=' as int
  const SEMICOLON: byte := ';' as int
  const HASH: byte := '#' as int
  const OPEN: byte := '[' as int
  const CLOSE: byte := ']' as int
  const EOF: int := -1

  predicate IsSpace(c: int) {
    9 <= c <= 13 || c == 32
  }

  // ---------------------------------------------------------------- The input

  /** getc: the next character and the input behind it. */
  function Next(t: text): (int, text) {
    if t == [] then (EOF, []) else (t[0], t[1..])
  }

  /** eat_comment: to the end of the line. */
  function EatComment(t: text): (r: (int, text))
    ensures |r.1| <= |t| && (r.0 > 0 ==> |r.1| < |t|)
  {
    var (c, rest) := Next(t);
    if c > 0 && c != NEWLINE then EatComment(rest) else (c, rest)
  }

  /** eat_whitespace: within the line. */
  function EatSpace(t: text): (r: (int, text))
    ensures |r.1| <= |t| && (r.0 > 0 ==> |r.1| < |t|)
  {
    var (c, rest) := Next(t);
    if IsSpace(c) && c != NEWLINE then EatSpace(rest) else (c, rest)
  }

  /** Characters left, the one in hand included. */
  function Left(c: int, rest: text): nat { if c > 0 then |rest| + 1 else 0 }

  /** find_continuation: the index of a backslash that only whitespace follows, or -1. */
  function FindContinuation(b: text): (k: int)
    ensures -1 <= k < |b| && (k >= 0 ==> b[k] == BACKSLASH)
  {
    if b == [] then -1
    else
      var n := |b| - 1;
      if IsSpace(b[n]) then FindContinuation(b[..n]) else if b[n] == BACKSLASH then n else -1
  }

  // ------------------------------------------------------------------ Parameters

  datatype Named = Name(name: text, rest: text) | BadLine(rest: text) | NameExit

  /** The name of a parameter: b is what the buffer holds, its first `end` characters end with no space. */
  function NameScan(b: text, end: nat, c: int, rest: text): (r: Named)
    requires end <= |b|
    ensures r.Name? ==> |r.rest| < Left(c, rest) && r.name != []
    ensures r.BadLine? ==> |r.rest| < Left(c, rest)
    decreases Left(c, rest), 0
  {
    if c == EQUALS then (if end == 0 then NameExit else Name(b[..end], rest))
    else if c == SEMICOLON || c == HASH then NameLineEnd(b, EatComment(rest).1)
    else if c == NEWLINE then NameLineEnd(b, rest)
    else if c <= 0 then NameExit
    else if IsSpace(c) then NameScan(b[..end] + [SPACE], end, EatSpace(rest).0, EatSpace(rest).1)
    else if c < 256 then NameScan(b + [c], |b| + 1, Next(rest).0, Next(rest).1)
    else NameExit
  }

  function NameLineEnd(b: text, rest: text): (r: Named)
    ensures r.Name? ==> |r.rest| <= |rest| && r.name != []
    ensures r.BadLine? ==> |r.rest| <= |rest|
    decreases |rest|, 1
  {
    var k := FindContinuation(b);
    if k < 0 then BadLine(rest)
    else NameScan(b[..k], if k > 0 && b[k - 1] == SPACE then k - 1 else k, Next(rest).0, Next(rest).1)
  }

  /** The value: the buffer holds the name, a NUL and what has come of the value; (value, rest). */
  function ValueScan(b: text, start: nat, end: nat, c: int, rest: text): (r: (text, text))
    requires 0 < start <= end <= |b| && b[start - 1] == 0
    ensures |r.1| <= |rest|
    decreases Left(c, rest), 0
  {
    if c <= 0 || c > 255 then (b[start..end], rest)
    else if c == RETURN then ValueScan(b, start, end, Next(rest).0, Next(rest).1)
    else if c == SEMICOLON || c == HASH then ValueLineEnd(b, start, end, EatComment(rest).1)
    else if c == NEWLINE then ValueLineEnd(b, start, end, rest)
    else ValueScan(b + [c], start, if IsSpace(c) then end else |b| + 1, Next(rest).0, Next(rest).1)
  }

  function ValueLineEnd(b: text, start: nat, end: nat, rest: text): (r: (text, text))
    requires 0 < start <= end <= |b| && b[start - 1] == 0
    ensures |r.1| <= |rest|
    decreases |rest|, 1
  {
    var k := FindContinuation(b);
    StaysInValue(b, start);
    if k < 0 then (b[start..end], rest)
    else ValueScan(b[..k], start, k, Next(rest).0, Next(rest).1)
  }

  /** A search for a continuation never crosses the NUL in front of the value. */
  lemma {:induction false} StaysInValue(b: text, start: nat)
    requires 0 < start <= |b| && b[start - 1] == 0
    ensures FindContinuation(b) < 0 || FindContinuation(b) >= start
  {
    var n := |b| - 1;
    if IsSpace(b[n]) {
      StaysInValue(b[..n], start);
    }
  }

  // -------------------------------------------------------------------- Sections

  datatype Heading = Section(name: text, rest: text) | Unclosed(rest: text) | SectionExit

  function SectionScan(b: text, end: nat, c: int, rest: text): (r: Heading)
    requires end <= |b|
    ensures r.Section? || r.Unclosed? ==> |r.rest| <= |rest|
    decreases Left(c, rest)
  {
    if c <= 0 || c > 255 then Unclosed(rest)
    else if c == CLOSE then (if end == 0 then SectionExit else Section(b[..end], EatComment(rest).1))
    else if c == NEWLINE then
      var k := FindContinuation(b);
      if k < 0 then SectionExit
      else SectionScan(b[..k], if k > 0 && b[k - 1] == SPACE then k - 1 else k, Next(rest).0, Next(rest).1)
    else if IsSpace(c) then SectionScan(b[..end] + [SPACE], end, EatSpace(rest).0, EatSpace(rest).1)
    else SectionScan(b + [c], |b| + 1, Next(rest).0, Next(rest).1)
  }

  // ------------------------------------------------------------------- The file

  /** A call of the function the caller passed in; no section yet is the empty text. */
  datatype Call = Call(section: text, name: text, value: text)

  datatype Outcome = Done(calls: seq<Call>) | Exit

  /** conf_parse, with character c in hand. */
  function Parse(c: int, rest: text, section: text, calls: seq<Call>): Outcome
    decreases Left(c, rest)
  {
    if c <= 0 then Done(calls)
    else if c == NEWLINE || c == BACKSLASH then Parse(EatSpace(rest).0, EatSpace(rest).1, section, calls)
    else if c == SEMICOLON || c == HASH then Parse(EatComment(rest).0, EatComment(rest).1, section, calls)
    else if c == OPEN then
      match SectionScan([], 0, EatSpace(rest).0, EatSpace(rest).1)
      case Section(name, r) => Parse(EatSpace(r).0, EatSpace(r).1, name, calls)
      case Unclosed(r) => Parse(EatSpace(r).0, EatSpace(r).1, section, calls)
      case SectionExit => Exit
    else
      match NameScan([], 0, c, rest)
      case NameExit => Exit
      case BadLine(r) => Parse(EatSpace(r).0, EatSpace(r).1, section, calls)
      case Name(name, r) =>
        var (value, r') := ValueScan(name + [0], |name| + 1, |name| + 1, EatSpace(r).0, EatSpace(r).1);
        Parse(EatSpace(r').0, EatSpace(r').1, section, calls + [Call(section, name, value)])
  }

  /** From the start of a line. */
  function Lines(t: text, section: text, calls: seq<Call>): Outcome {
    Parse(EatSpace(t).0, EatSpace(t).1, section, calls)
  }

  // ------------------------------------------------------------ Single steps

  predicate NameChar(c: byte) {
    c != 0 && !IsSpace(c) && c != EQUALS && c != SEMICOLON && c != HASH
  }

  predicate HeadChar(c: byte) {
    c != 0 && !IsSpace(c) && c != CLOSE
  }

  predicate ValueChar(c: byte) {
    c != 0 && c != NEWLINE && c != RETURN && c != SEMICOLON && c != HASH
  }

  lemma NameSteps(b: text, end: nat, c: int, t: text)
    requires end <= |b| && c <= 255
    ensures c == EQUALS as int ==> NameScan(b, end, c, t) == if end == 0 then NameExit else Name(b[..end], t)
    ensures c == NEWLINE as int ==> NameScan(b, end, c, t) == NameLineEnd(b, t)
    ensures c == SEMICOLON as int || c == HASH as int ==> NameScan(b, end, c, t) == NameLineEnd(b, EatComment(t).1)
    ensures c <= 0 ==> NameScan(b, end, c, t) == NameExit
    ensures c > 0 && IsSpace(c) && c != NEWLINE as int ==>
              NameScan(b, end, c, t) == NameScan(b[..end] + [SPACE], end, EatSpace(t).0, EatSpace(t).1)
  {
  }

  lemma NameCharStep(b: text, end: nat, c: byte, t: text)
    requires end <= |b| && NameChar(c)
    ensures NameScan(b, end, c as int, t) == NameScan(b + [c], |b| + 1, Next(t).0, Next(t).1)
  {
  }

  lemma NameCharOrSpace(c: int)
    requires 0 < c <= 255 && c != EQUALS as int && c != SEMICOLON as int && c != HASH as int
    ensures IsSpace(c) || NameChar(c as byte)
  {
  }

  lemma NameLineSteps(b: text, t: text)
    ensures var k := FindContinuation(b);
            NameLineEnd(b, t) == if k < 0 then BadLine(t)
                                 else NameScan(b[..k], if k > 0 && b[k - 1] == SPACE then k - 1 else k, Next(t).0, Next(t).1)
  {
  }

  lemma CommentShrinks(t: text)
    ensures |EatComment(t).1| <= |t|
  {
  }

  lemma ValueSteps(b: text, start: nat, end: nat, c: int, t: text)
    requires 0 < start <= end <= |b| && b[start - 1] == 0 && c <= 255
    ensures c <= 0 ==> ValueScan(b, start, end, c, t) == (b[start..end], t)
    ensures c == RETURN as int ==> ValueScan(b, start, end, c, t) == ValueScan(b, start, end, Next(t).0, Next(t).1)
    ensures c == NEWLINE as int ==> ValueScan(b, start, end, c, t) == ValueLineEnd(b, start, end, t)
    ensures c == SEMICOLON as int || c == HASH as int ==>
              ValueScan(b, start, end, c, t) == ValueLineEnd(b, start, end, EatComment(t).1)
  {
  }

  lemma ValueCharStep(b: text, start: nat, end: nat, c: byte, t: text)
    requires 0 < start <= end <= |b| && b[start - 1] == 0 && ValueChar(c)
    ensures ValueScan(b, start, end, c as int, t)
         == ValueScan(b + [c], start, if IsSpace(c) then end else |b| + 1, Next(t).0, Next(t).1)
  {
  }

  lemma ValueLineSteps(b: text, start: nat, end: nat, t: text)
    requires 0 < start <= end <= |b| && b[start - 1] == 0
    ensures var k := FindContinuation(b);
            && (k < 0 || k >= start)
            && ValueLineEnd(b, start, end, t) == if k < 0 then (b[start..end], t)
                                                 else ValueScan(b[..k], start, k, Next(t).0, Next(t).1)
  {
    StaysInValue(b, start);
  }

  lemma SectionSteps(b: text, end: nat, c: int, t: text)
    requires end <= |b| && c <= 255
    ensures c <= 0 ==> SectionScan(b, end, c, t) == Unclosed(t)
    ensures c == CLOSE as int ==>
              SectionScan(b, end, c, t) == if end == 0 then SectionExit else Section(b[..end], EatComment(t).1)
    ensures c == NEWLINE as int ==> SectionScan(b, end, c, t) == SectionLine(b, t)
    ensures c > 0 && IsSpace(c) && c != NEWLINE as int ==>
              SectionScan(b, end, c, t) == SectionScan(b[..end] + [SPACE], end, EatSpace(t).0, EatSpace(t).1)
  {
  }

  /** A section name may be continued, but not left open, at the end of a line. */
  function SectionLine(b: text, t: text): Heading {
    var k := FindContinuation(b);
    if k < 0 then SectionExit
    else SectionScan(b[..k], if k > 0 && b[k - 1] == SPACE then k - 1 else k, Next(t).0, Next(t).1)
  }

  lemma SectionCharStep(b: text, end: nat, c: byte, t: text)
    requires end <= |b| && HeadChar(c)
    ensures SectionScan(b, end, c as int, t) == SectionScan(b + [c], |b| + 1, Next(t).0, Next(t).1)
  {
  }

  // ------------------------------------------------------------------- The parser

  class Parser {
    var input: text
    var bufr: array<byte>
    var cursec: text
    var calls: seq<Call>

    constructor (t: text)
      ensures input == t && cursec == [] && calls == [] && bufr.Length == 1024 && fresh(bufr)
    {
      input, bufr, cursec, calls := t, new byte[1024](_ => 0), [], [];
    }

    method GetC() returns (c: int)
      modifies this`input
      ensures (c, input) == Next(old(input))
      ensures c <= 255
    {
      if input == [] {
        return EOF;
      }
      c := input[0];
      input := input[1..];
    }

    method SkipComment() returns (c: int)
      modifies this`input
      ensures (c, input) == EatComment(old(input)) && c <= 255
    {
      c := GetC();
      while c > 0 && c != NEWLINE as int
        invariant c <= 255
        invariant EatComment(old(input)) == if c > 0 && c != NEWLINE as int then EatComment(input) else (c, input)
        decreases Left(c, input)
      {
        c := GetC();
      }
    }

    method SkipSpace() returns (c: int)
      modifies this`input
      ensures (c, input) == EatSpace(old(input)) && c <= 255
    {
      c := GetC();
      while IsSpace(c) && c != NEWLINE as int
        invariant c <= 255
        invariant EatSpace(old(input)) == if IsSpace(c) && c != NEWLINE as int then EatSpace(input) else (c, input)
        decreases Left(c, input)
      {
        c := GetC();
      }
    }

    /** Searches backwards from pos. */
    method Find(pos: nat) returns (k: int)
      requires pos <= bufr.Length
      ensures k == FindContinuation(bufr[..pos])
    {
      k := pos - 1;
      assert bufr[..k + 1] == bufr[..pos];
      while k >= 0 && IsSpace(bufr[k] as int)
        invariant -1 <= k < pos
        invariant FindContinuation(bufr[..pos]) == FindContinuation(bufr[..k + 1])
      {
        assert bufr[..k + 1][..k] == bufr[..k];
        k := k - 1;
      }
      if k >= 0 {
        assert bufr[..k + 1][..k] == bufr[..k];
        if bufr[k] == BACKSLASH {
          return;
        }
      }
      k := -1;
    }

    /** Makes room for two more characters. */
    method Reserve(i: nat)
      requires i < bufr.Length
      modifies this`bufr
      ensures i + 2 <= bufr.Length && bufr[..i] == old(bufr[..i])
      ensures bufr.Length >= old(bufr.Length) && (bufr == old(bufr) || fresh(bufr))
    {
      if i > bufr.Length - 2 {
        var smaller := bufr;
        bufr := new byte[smaller.Length + 1024](j requires 0 <= j reads smaller => if j < smaller.Length then smaller[j] else 0);
      }
    }

    method Put(at: nat, c: byte)
      requires at < bufr.Length
      modifies bufr
      ensures bufr[..at + 1] == old(bufr[..at]) + [c]
    {
      bufr[at] := c;
    }

    /** At the end of a line, perhaps with a comment: where a continued line goes on, or -1. */
    method LineEnd(c: int, i: nat) returns (k: int, next: int)
      requires i <= bufr.Length && (c == SEMICOLON as int || c == HASH as int || c == NEWLINE as int)
      modifies this`input
      ensures k == FindContinuation(bufr[..i]) && next <= 255
      ensures var rest := if c == NEWLINE as int then old(input) else EatComment(old(input)).1;
              if k < 0 then input == rest else (next, input) == Next(rest)
    {
      if c != NEWLINE as int {
        var newline := SkipComment();
      }
      k := Find(i);
      next := 0;
      if k >= 0 {
        next := GetC();
      }
    }

    /** Within a name: a run of whitespace becomes one space, any other character is stored. */
    method NameTurn(ghost b: text, i: nat, end: nat, c: int) returns (j: nat, end': nat, next: int, ghost b': text)
      requires end <= i && i + 2 <= bufr.Length && bufr[..i] == b && 0 < c <= 255
      requires IsSpace(c) || NameChar(c as byte)
      requires c != NEWLINE as int
      modifies this`input, bufr
      ensures end' <= j <= i + 1 && next <= 255 && bufr[..j] == b'
      ensures NameScan(b, end, c, old(input)) == NameScan(b', end', next, input)
      ensures Left(next, input) < Left(c, old(input))
    {
      hide EatComment, EatSpace, IsSpace, NameScan, NameLineEnd;
      NameSteps(b, end, c, input);
      if IsSpace(c) {
        assert bufr[..end] == b[..end];
        Put(end, SPACE);
        j, end', b' := end + 1, end, b[..end] + [SPACE];
        next := SkipSpace();
      } else {
        NameCharStep(b, end, c as byte, input);
        Put(i, c as byte);
        j, end', b' := i + 1, i + 1, b + [c as byte];
        next := GetC();
      }
    }

    /** The name of a parameter, up to the sign; the place where its value starts, or 0 when there is none. */
    method ParseName(first: int) returns (start: nat, exits: bool)
      requires 0 < first <= 255 && bufr.Length > 2
      modifies this`input, this`bufr, bufr
      ensures bufr == old(bufr) || fresh(bufr)
      ensures bufr.Length > 2
      ensures match NameScan([], 0, first, old(input))
              case Name(name, rest) => !exits && input == rest && start == |name| + 1 < bufr.Length && bufr[..start] == name + [0]
              case BadLine(rest) => !exits && start == 0 && input == rest
              case NameExit => exits
    {
      hide FindContinuation, EatComment, EatSpace, IsSpace, NameScan, NameLineEnd;
      var c, i: nat, end: nat := first, 0, 0;
      ghost var was, b := NameScan([], 0, first, input), bufr[..0];
      while true
        invariant end <= i < bufr.Length && bufr.Length > 2 && c <= 255 && bufr[..i] == b
        invariant bufr == old(bufr) || fresh(bufr)
        invariant was == NameScan(b, end, c, input)
        decreases Left(c, input)
      {
        Reserve(i);
        NameSteps(b, end, c, input);
        if c == EQUALS as int {
          if end == 0 {
            return 0, true;
          }
          assert bufr[..end] == b[..end];
          Put(end, 0);
          return end + 1, false;
        } else if c == SEMICOLON as int || c == HASH as int || c == NEWLINE as int {
          NameLineSteps(b, if c == NEWLINE as int then input else EatComment(input).1);
          var k;
          k, c := LineEnd(c, i);
          if k < 0 {
            return 0, false;
          }
          i := k;
          b := b[..k];
          end := if i > 0 && bufr[i - 1] == SPACE then i - 1 else i;
        } else if c <= 0 {
          return 0, true;
        } else {
          NameCharOrSpace(c);
          i, end, c, b := NameTurn(b, i, end, c);
        }
      }
    }

    /** One character of a value, or the end of one of its lines; c is 0 behind the last of them. */
    method ValueTurn(ghost b: text, start: nat, end: nat, i: nat, c: int)
      returns (end': nat, j: nat, next: int, ghost b': text)
      requires 0 < start <= end <= i && i + 2 <= bufr.Length && bufr[..i] == b && b[start - 1] == 0 && 0 < c <= 255
      modifies this`input, bufr
      ensures start <= end' <= j <= i + 1 && next <= 255 && bufr[..j] == b' && b'[..start] == b[..start]
      ensures ValueScan(b, start, end, c, old(input)) == ValueScan(b', start, end', next, input)
      ensures Left(next, input) < Left(c, old(input))
    {
      hide FindContinuation, EatComment, EatSpace, IsSpace, ValueScan, ValueLineEnd;
      end', j, b', next := end, i, b, 0;
      ValueSteps(b, start, end, c, input);
      if c == RETURN as int {
        next := GetC();
      } else if c == SEMICOLON as int || c == HASH as int || c == NEWLINE as int {
        CommentShrinks(input);
        ValueLineSteps(b, start, end, if c == NEWLINE as int then input else EatComment(input).1);
        var k;
        k, next := LineEnd(c, i);
        if k < 0 {
          ValueSteps(b, start, end, 0, input);
          next := 0;
        } else {
          j := k;
          end' := k;  // moved back over whitespace, of which a backslash is none
          b' := b[..k];
        }
      } else {
        ValueCharStep(b, start, end, c as byte, input);
        Put(i, c as byte);
        j := i + 1;
        b' := b + [c as byte];
        if !IsSpace(c) {
          end' := j;
        }
        next := GetC();
      }
    }

    /** The value; its end. */
    method ParseValue(start: nat) returns (end: nat)
      requires 0 < start < bufr.Length && bufr[start - 1] == 0
      modifies this`input, this`bufr, bufr
      ensures bufr == old(bufr) || fresh(bufr)
      ensures start <= end < bufr.Length && bufr[..start] == old(bufr[..start])
      ensures (bufr[start..end], input) == ValueScan(old(bufr[..start]), start, start, EatSpace(old(input)).0, EatSpace(old(input)).1)
    {
      hide FindContinuation, EatComment, EatSpace, IsSpace, ValueScan, ValueLineEnd;
      var i := start;
      ghost var head, b := bufr[..start], bufr[..start];
      ghost var was := ValueScan(head, start, start, EatSpace(input).0, EatSpace(input).1);
      end := start;
      var c := SkipSpace();
      while c > 0
        invariant start <= end <= i < bufr.Length && c <= 255 && bufr[..i] == b
        invariant bufr == old(bufr) || fresh(bufr)
        invariant b[..start] == head && b[start - 1] == 0
        invariant was == ValueScan(b, start, end, c, input)
        decreases Left(c, input)
      {
        Reserve(i);
        end, i, c, b := ValueTurn(b, start, end, i, c);
      }
      ValueSteps(b, start, end, c, input);
      assert bufr[..i][start..end] == bufr[start..end] && bufr[..start] == b[..start];
      Put(end, 0);
      assert bufr[..end + 1][start..end] == bufr[start..end] && bufr[..end + 1][..start] == bufr[..start];
    }

    /** A section name becomes the current one. */
    method ParseSection() returns (exits: bool)
      requires bufr.Length > 2
      modifies this`input, this`bufr, this`cursec, bufr
      ensures (bufr == old(bufr) || fresh(bufr)) && bufr.Length > 2
      ensures match SectionScan([], 0, EatSpace(old(input)).0, EatSpace(old(input)).1)
              case Section(name, rest) => !exits && cursec == name && input == rest
              case Unclosed(rest) => !exits && cursec == old(cursec) && input == rest
              case SectionExit => exits
    {
      hide FindContinuation, EatComment, EatSpace, IsSpace, SectionScan;
      var i: nat, end: nat := 0, 0;
      ghost var was, b := SectionScan([], 0, EatSpace(input).0, EatSpace(input).1), bufr[..0];
      var c := SkipSpace();
      while c > 0
        invariant end <= i < bufr.Length && bufr.Length > 2 && c <= 255 && bufr[..i] == b
        invariant bufr == old(bufr) || fresh(bufr)
        invariant was == SectionScan(b, end, c, input) && cursec == old(cursec)
        decreases Left(c, input)
      {
        Reserve(i);
        SectionSteps(b, end, c, input);
        if c == CLOSE as int {
          if end == 0 {
            return true;
          }
          cursec := bufr[..end];
          assert cursec == b[..end];
          var newline := SkipComment();
          return false;
        } else if c == NEWLINE as int {
          var k;
          k, c := LineEnd(c, i);
          if k < 0 {
            return true;
          }
          i := k;
          b := b[..k];
          end := if i > 0 && bufr[i - 1] == SPACE then i - 1 else i;
        } else if IsSpace(c) {
          assert bufr[..end] == b[..end];
          Put(end, SPACE);
          i := end + 1;
          b := b[..end] + [SPACE];
          c := SkipSpace();
        } else {
          SectionCharStep(b, end, c as byte, input);
          Put(i, c as byte);
          i := i + 1;
          end := i;
          b := b + [c as byte];
          c := GetC();
        }
      }
      SectionSteps(b, end, c, input);
      return false;
    }

    /** A parameter line: the function passed in is called once, or the line is ignored. */
    method ParseParameter(first: int) returns (exits: bool)
      requires 0 < first <= 255 && bufr.Length > 2
      modifies this`input, this`bufr, this`calls, bufr
      ensures (bufr == old(bufr) || fresh(bufr)) && bufr.Length > 2
      ensures match NameScan([], 0, first, old(input))
              case NameExit => exits
              case BadLine(rest) => !exits && input == rest && calls == old(calls)
              case Name(name, rest) =>
                var (value, rest') := ValueScan(name + [0], |name| + 1, |name| + 1, EatSpace(rest).0, EatSpace(rest).1);
                !exits && input == rest' && calls == old(calls) + [Call(cursec, name, value)]
    {
      hide EatSpace, NameScan, ValueScan;
      ghost var scanned := NameScan([], 0, first, input);
      var start;
      start, exits := ParseName(first);
      if exits || start == 0 {
        return;
      }
      assert bufr[..start] == scanned.name + [0] && bufr[..start][start - 1] == 0;
      var end := ParseValue(start);
      assert bufr[..start][..start - 1] == bufr[..start - 1] == scanned.name;
      calls := calls + [Call(cursec, bufr[..start - 1], bufr[start..end])];
    }

    /** conf_parse */
    method ConfParse() returns (exits: bool)
      requires bufr.Length > 2
      modifies this, bufr
      ensures match Lines(old(input), old(cursec), old(calls))
              case Done(all) => !exits && calls == all
              case Exit => exits
    {
      hide EatSpace, EatComment, NameScan, ValueScan, SectionScan;
      ghost var was := Lines(input, cursec, calls);
      var c := SkipSpace();
      while c > 0
        invariant c <= 255 && bufr.Length > 2 && (bufr == old(bufr) || fresh(bufr))
        invariant was == Parse(c, input, cursec, calls)
        decreases Left(c, input)
      {
        exits := false;
        if c == NEWLINE as int || c == BACKSLASH as int {
          c := SkipSpace();
        } else if c == SEMICOLON as int || c == HASH as int {
          c := SkipComment();
        } else if c == OPEN as int {
          exits := ParseSection();
          if exits {
            return;
          }
          c := SkipSpace();
        } else {
          exits := ParseParameter(c);
          if exits {
            return;
          }
          c := SkipSpace();
        }
      }
      exits := false;
    }
  }
}
