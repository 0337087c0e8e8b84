/** Escaped binary data of the GDB remote protocol (gdbproxy.c:1840-1876). */
module GdbEscape {
  import opened Words
  import opened GdbHex
  import opened GdbPacket
  import opened GdbFrames

  /** The bytes an escaped text stands for, and whether it ends inside an escape. */
  function Unescape(e: text): (seq<byte>, bool) {
    if e == [] then ([], false)
    else
      var n := |e| - 1;
      var (d, pending) := Unescape(e[..n]);
      if pending then (d + [Flip(e[n])], false) else if e[n] == ESCAPE then (d, true) else (d + [e[n]], false)
  }

  function Data(e: text): seq<byte> { Unescape(e).0 }
  function Pending(e: text): bool { Unescape(e).1 }

  lemma UnescapeNext(e: text, i: nat)
    requires i < |e|
    ensures Unescape(e[..i + 1]) == var (d, pending) := Unescape(e[..i]);
              if pending then (d + [Flip(e[i])], false) else if e[i] == ESCAPE then (d, true) else (d + [e[i]], false)
  {
    assert e[..i + 1][..i] == e[..i];
  }

  lemma UnescapeSnoc(e: text, c: byte)
    ensures Unescape(e + [c]) == var (d, pending) := Unescape(e);
              if pending then (d + [Flip(c)], false) else if c == ESCAPE then (d, true) else (d + [c], false)
  {
    assert (e + [c])[..|e|] == e;
  }

  lemma HexSnoc(d: seq<byte>, b: byte)
    ensures HexOf(d + [b]) == HexOf(d) + HexByte(b)
  {
    assert (d + [b])[..|d|] == d;
  }

  /** `#`, `$` and `}` as the protocol escapes them: 7d 03, 7d 04 and 7d 5d; other bytes stand for themselves. */
  lemma KnownEscapes(b: byte)
    ensures Unescape([0x7d, 0x03]) == (['#' as int], false)
    ensures Unescape([0x7d, 0x04]) == (['$' as int], false)
    ensures Unescape([0x7d, 0x5d]) == (['}' as int], false)
    ensures b != 0x7d ==> Unescape([b]) == ([b], false)
    ensures Unescape([0x7d]) == ([], true)
  {
    assert [b][..0] == [] && [] + [b] == [b] && Unescape([]) == ([], false);
    OneEscape(0x03);
    OneEscape(0x04);
    OneEscape(0x5d);
  }

  lemma OneEscape(c: byte)
    ensures Unescape([0x7d, c]) == ([Flip(c)], false)
  {
    assert [0x7d, c][..1] == [0x7d] && [0x7d][..0] == [] && [] + [Flip(c)] == [Flip(c)];
    assert Unescape([]) == ([], false) && Unescape([0x7d]) == ([], true);
  }

  /** An escaping of data that escapes at least `#`, `$` and `}`. */
  predicate Escapes(e: text, data: seq<byte>) {
    && Unescape(e) == (data, false)
    && forall i :: 0 <= i < |e| && !Pending(e[..i]) ==> e[i] != HASH && e[i] != DOLLAR
  }

  lemma EscapesData(e: text, data: seq<byte>)
    requires Escapes(e, data)
    ensures Unescape(e) == (data, false)
  {
  }

  /** Before its last character an escaped text stands for fewer bytes than in the end. */
  lemma {:induction false} StillShort(e: text, i: nat)
    requires i < |e| && !Pending(e)
    ensures |Data(e[..i])| < |Data(e)|
  {
    assert e[..|e|] == e;
    Grows(e, i, |e|);
  }

  lemma {:induction false} Grows(e: text, i: nat, j: nat)
    requires i < j <= |e|
    ensures |Data(e[..i])| <= |Data(e[..j])|
    ensures Pending(e[..i]) || !Pending(e[..j]) ==> |Data(e[..i])| < |Data(e[..j])|
  {
    UnescapeNext(e, j - 1);
    if i < j - 1 {
      Grows(e, i, j - 1);
    }
  }

  /** Between a half and one byte for every character. */
  lemma {:induction false} UnescapedLength(e: text, i: nat)
    requires i <= |e|
    ensures i <= 2 * |Data(e[..i])| + (if Pending(e[..i]) then 1 else 0)
  {
    if i == 0 {
      assert e[..0] == [];
    } else {
      UnescapeNext(e, i - 1);
      UnescapedLength(e, i - 1);
    }
  }

  lemma ShortData(e: text, data: seq<byte>)
    requires Escapes(e, data)
    ensures |e| <= 2 * |data|
  {
    assert e[..|e|] == e;
    UnescapedLength(e, |e|);
  }

  /** The escaping GDB itself uses: only `#`, `$` and `}`. */
  function Escaped(data: seq<byte>): text {
    if data == [] then [] else Escaped(data[..|data| - 1]) + EscapedByte(data[|data| - 1])
  }

  function EscapedByte(b: byte): text {
    if b == HASH || b == DOLLAR || b == ESCAPE then [ESCAPE, Flip(b)] else [b]
  }

  lemma EscapesPlain(e: text, data: seq<byte>, b: byte)
    requires Escapes(e, data) && b != HASH && b != DOLLAR && b != ESCAPE
    ensures Escapes(e + [b], data + [b])
  {
    hide Unescape;
    UnescapeSnoc(e, b);
    forall i | 0 <= i < |e + [b]| && !Pending((e + [b])[..i])
      ensures (e + [b])[i] != HASH && (e + [b])[i] != DOLLAR
    {
      if i < |e| {
        assert (e + [b])[..i] == e[..i];
      }
    }
  }

  lemma EscapesPair(e: text, data: seq<byte>, c: byte)
    requires Escapes(e, data)
    ensures Escapes(e + [ESCAPE] + [c], data + [Flip(c)])
  {
    hide Unescape, Flip;
    UnescapeSnoc(e, ESCAPE);
    UnescapeSnoc(e + [ESCAPE], c);
    var f := e + [ESCAPE] + [c];
    assert f[..|e| + 1] == e + [ESCAPE];
    forall i | 0 <= i < |f| && !Pending(f[..i])
      ensures f[i] != HASH && f[i] != DOLLAR
    {
      if i < |e| {
        assert f[..i] == e[..i];
      }
    }
  }

  lemma FlipTwice(b: byte)
    ensures Flip(Flip(b)) == b && (b == HASH || b == DOLLAR || b == ESCAPE ==> Flip(b) != DOLLAR)
  {
  }

  lemma EscapedStep(e: text, data: seq<byte>, b: byte)
    requires Escapes(e, data) && FreeOfDollar(e)
    ensures Escapes(e + EscapedByte(b), data + [b]) && FreeOfDollar(e + EscapedByte(b))
  {
    hide Escapes, Flip;
    FlipTwice(b);
    if b == HASH || b == DOLLAR || b == ESCAPE {
      EscapesPair(e, data, Flip(b));
      assert e + [ESCAPE] + [Flip(b)] == e + EscapedByte(b);
    } else {
      EscapesPlain(e, data, b);
    }
  }

  /** Every block of data survives that escaping. */
  lemma {:induction false} StandardEscapingIsSafe(data: seq<byte>)
    ensures Escapes(Escaped(data), data) && FreeOfDollar(Escaped(data))
  {
    hide Escapes, FreeOfDollar, EscapedByte;
    if data == [] {
      NothingEscapes();
    } else {
      var n := |data| - 1;
      StandardEscapingIsSafe(data[..n]);
      EscapedStep(Escaped(data[..n]), data[..n], data[n]);
      assert data == data[..n] + [data[n]];
    }
  }

  lemma NothingEscapes()
    ensures Escapes([], []) && FreeOfDollar([])
  {
  }
}
