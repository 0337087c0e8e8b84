/** Hexadecimal text of the GDB remote protocol (gdbproxy.c:2015-2093, 2237-2262, 2470-2630). */
module GdbHex {
  import opened Words

  type text = seq<byte>

  const COMMA: byte := ',' as int
  const COLON: byte := ':' as int

  // ------------------------------------------------------------------- Strings

  const DATABYTES_MAX: nat := 0x1_0000
  const INOUTBUF_SIZE: nat := 2 * DATABYTES_MAX + 32

  /** Index of the first c in t from `from` on, or |t|. */
  function Find(t: text, from: nat, c: byte): (k: nat)
    requires from <= |t|
    ensures from <= k <= |t| && (k < |t| ==> t[k] == c)
    ensures forall i :: from <= i < k ==> t[i] != c
    decreases |t| - from
  {
    if from == |t| || t[from] == c then from else Find(t, from + 1, c)
  }

  /** What C makes of a buffer: a string up to the first NUL. */
  function CString(t: text): text { t[..Find(t, 0, 0)] }

  lemma {:induction false} NulFree(t: text)
    requires forall i :: 0 <= i < |t| ==> t[i] != 0
    ensures CString(t) == t
  {
  }

  method StrLen(t: text) returns (n: nat)
    ensures n == Find(t, 0, 0)
  {
    n := 0;
    while n < |t| && t[n] != 0
      invariant n <= |t| && Find(t, 0, 0) == Find(t, n, 0)
    {
      n := n + 1;
    }
  }

  /** rp_hex_nibble: either case is accepted. */
  function Nibble(c: byte): (n: int)
    ensures -1 <= n < 16
  {
    if '0' as int <= c <= '9' as int then c - '0' as int
    else if 'A' as int <= c <= 'F' as int then c - 'A' as int + 10
    else if 'a' as int <= c <= 'f' as int then c - 'a' as int + 10
    else -1
  }

  function Digit(n: nat): byte
    requires n < 16
  {
    "0123456789abcdef"[n] as int
  }

  lemma DigitNibble(n: nat)
    requires n < 16
    ensures Nibble(Digit(n)) == n
    ensures Digit(n) != COLON && Digit(n) != COMMA && Digit(n) != 0
  {
  }

  /** Digits in either case, and nothing else. */
  lemma NibbleIs(c: byte, n: nat)
    requires n < 16
    ensures Nibble(c) == n <==> c == "0123456789abcdef"[n] as int || c == "0123456789ABCDEF"[n] as int
  {
  }

  function HexByte(b: byte): (t: text)
    ensures |t| == 2
  {
    [Digit(b / 16), Digit(b % 16)]
  }

  function HexOf(data: seq<byte>): (t: text)
    ensures |t| == 2 * |data|
  {
    if data == [] then [] else HexOf(data[..|data| - 1]) + HexByte(data[|data| - 1])
  }

  // -------------------------------------------------------------- Data blocks

  /**
   rp_decode_data on a string: pairs of digits, at most `size` bytes.  A last odd character is
   dropped with a warning unless it is the only one.
   */
  function Decoded(t: text, size: nat): Option<seq<byte>> {
    if |t| / 2 > size || (|t| % 2 == 1 && (|t| / 2 == size || |t| == 1)) then None
    else Pairs(t[..2 * (|t| / 2)])
  }

  function Pairs(t: text): Option<seq<byte>>
    requires |t| % 2 == 0
  {
    if t == [] then Some([])
    else
      var n := |t| - 2;
      var hi, lo, rest := Nibble(t[n]), Nibble(t[n + 1]), Pairs(t[..n]);
      if hi < 0 || lo < 0 || rest.None? then None else Some(rest.value + [hi * 16 + lo])
  }

  lemma PairsNext(t: text, i: nat)
    requires 2 * i + 1 < |t|
    ensures var hi, lo, rest := Nibble(t[2 * i]), Nibble(t[2 * i + 1]), Pairs(t[..2 * i]);
            Pairs(t[..2 * (i + 1)]) == if hi < 0 || lo < 0 || rest.None? then None else Some(rest.value + [hi * 16 + lo])
  {
    assert t[..2 * (i + 1)][..2 * i] == t[..2 * i];
  }

  /** A pair that does not decode spoils every longer string. */
  lemma {:induction false} BadPair(t: text, i: nat, k: nat)
    requires i <= k && 2 * k <= |t| && Pairs(t[..2 * i]).None?
    ensures Pairs(t[..2 * k]).None?
  {
    if i < k {
      BadPair(t, i, k - 1);
      PairsNext(t, k - 1);
    }
  }

  lemma PairsSnoc(t: text, x: byte, y: byte, b: byte)
    requires |t| % 2 == 0 && Pairs(t).Some? && Nibble(x) >= 0 && Nibble(y) >= 0 && b == Nibble(x) * 16 + Nibble(y)
    ensures Pairs(t + [x, y]) == Some(Pairs(t).value + [b])
  {
    hide Nibble, Pairs;
    var u, n := t + [x, y], |t| / 2;
    PairsNext(u, n);
    assert u[..2 * n] == t && u[..2 * (n + 1)] == u;
  }

  lemma PairsAppend(t: text, b: byte)
    requires |t| % 2 == 0 && Pairs(t).Some?
    ensures Pairs(t + HexByte(b)) == Some(Pairs(t).value + [b])
  {
    hide Digit, Nibble, Pairs;
    DigitNibble(b / 16);
    DigitNibble(b % 16);
    PairsSnoc(t, Digit(b / 16), Digit(b % 16), b);
  }

  lemma HexNext(data: seq<byte>, n: nat)
    requires |data| == n + 1
    ensures HexOf(data) == HexOf(data[..n]) + HexByte(data[n])
  {
  }

  /** Decoding inverts encoding. */
  lemma {:induction false} DecodeInvertsHex(data: seq<byte>)
    ensures Pairs(HexOf(data)) == Some(data)
  {
    if data != [] {
      var n := |data| - 1;
      HexNext(data, n);
      DecodeInvertsHex(data[..n]);
      PairsAppend(HexOf(data[..n]), data[n]);
      assert data == data[..n] + [data[n]];
    }
  }

  lemma HexDecodes(data: seq<byte>, size: nat)
    requires |data| <= size
    ensures Decoded(HexOf(data), size) == Some(data)
  {
    hide HexOf;
    DecodeInvertsHex(data);
    var t := HexOf(data);
    assert |t| / 2 == |data| && t[..2 * |data|] == t;
  }

  /** Byte k of what was decoded is digits 2k and 2k + 1; a last odd digit counts for nothing. */
  lemma DecodedMeans(t: text, size: nat)
    ensures var r := Decoded(t, size);
            r.Some? <==>
              && |t| / 2 <= size && !(|t| % 2 == 1 && |t| / 2 == size) && |t| != 1
              && Digits(t[..2 * (|t| / 2)])
    ensures var r := Decoded(t, size);
            r.Some? ==>
              && |r.value| == |t| / 2
              && forall k :: 0 <= k < |r.value| ==> r.value[k] == 16 * Nibble(t[2 * k]) + Nibble(t[2 * k + 1])
  {
    hide Nibble;
    PairsMean(t[..2 * (|t| / 2)]);
  }

  lemma {:induction false} PairsMean(t: text)
    requires |t| % 2 == 0
    ensures Pairs(t).Some? <==> Digits(t)
    ensures Pairs(t).Some? ==>
              && |Pairs(t).value| == |t| / 2
              && forall k :: 0 <= k < |t| / 2 ==> Pairs(t).value[k] == 16 * Nibble(t[2 * k]) + Nibble(t[2 * k + 1])
  {
    hide Nibble;
    if t != [] {
      var n := |t| - 2;
      PairsMean(t[..n]);
      assert Digits(t) <==> Digits(t[..n]) && Nibble(t[n]) >= 0 && Nibble(t[n + 1]) >= 0;
    }
  }

  /** The loop over the string: in[..] up to its end, out gets one byte for every two digits. */
  method DecodeData(input: text, out: array<byte>) returns (ok: bool, len: nat)
    requires out.Length > 0
    modifies out
    ensures ok == Decoded(input, out.Length).Some?
    ensures ok ==> len <= out.Length && out[..len] == Decoded(input, out.Length).value
  {
    hide Nibble;
    var count, i := 0, 0;
    assert input[..0] == [];
    while i < |input| && count < out.Length
      invariant i == 2 * count <= |input| && count <= out.Length
      invariant Pairs(input[..i]) == Some(out[..count])
    {
      if i + 1 == |input| {
        return count > 0, count;  // odd number of nibbles
      }
      PairsNext(input, count);
      var hi, lo := Nibble(input[i]), Nibble(input[i + 1]);
      if hi < 0 || lo < 0 {
        BadPair(input, count + 1, |input| / 2);
        return false, 0;
      }
      ghost var before := out[..count];
      out[count] := hi * 16 + lo;
      assert out[..count + 1] == before + [hi * 16 + lo];
      count, i := count + 1, i + 2;
    }
    assert i == |input| ==> input[..i] == input;
    return i == |input|, count;
  }

  // ------------------------------------------------------------------ Numbers

  predicate Digits(t: text) {
    forall i :: 0 <= i < |t| ==> Nibble(t[i]) >= 0
  }

  /** Value of a string of hexadecimal digits. */
  function HexValue(t: text): nat
    requires Digits(t)
  {
    if t == [] then 0 else 16 * HexValue(t[..|t| - 1]) + Nibble(t[|t| - 1])
  }

  /** A number as hexadecimal digits, none of them superfluous. */
  function Render(n: nat): text {
    if n < 16 then [Digit(n)] else Render(n / 16) + [Digit(n % 16)]
  }

  lemma {:induction false} RenderReads(n: nat)
    ensures Digits(Render(n)) && HexValue(Render(n)) == n
  {
    hide Digit, Nibble;
    DigitNibble(n % 16);
    if n >= 16 {
      RenderReads(n / 16);
      assert Render(n)[..|Render(n)| - 1] == Render(n / 16);
    } else {
      assert Render(n)[..0] == [] && HexValue([]) == 0;
    }
  }

  function Power16(k: nat): nat { if k == 0 then 1 else 16 * Power16(k - 1) }

  lemma {:induction false} RenderFits(n: nat, k: nat)
    requires k > 0 && n < Power16(k)
    ensures 0 < |Render(n)| <= k
    decreases k
  {
    if n >= 16 {
      assert k > 1 by {
        assert Power16(0) == 1 && Power16(1) == 16;
      }
      RenderFits(n / 16, k - 1);
    }
  }

  /** How many of the first `most` characters are digits, from the front. */
  function DigitRun(t: text, most: nat): (n: nat)
    ensures n <= |t| && n <= most
    ensures forall i :: 0 <= i < n ==> Nibble(t[i]) >= 0
    ensures n < |t| && n < most ==> Nibble(t[n]) < 0
  {
    if most == 0 || t == [] || Nibble(t[0]) < 0 then 0
    else
      var n := DigitRun(t[1..], most - 1);
      assert forall i :: 0 < i <= n ==> t[i] == t[1..][i - 1];
      n + 1
  }

  /** A number and the text behind its terminator; a `stop` of 0 is the end of the string. */
  function Number(t: text, most: nat, stop: byte): Option<(nat, text)> {
    var n := DigitRun(t, most);
    if t == [] then None
    else if n == |t| then (if stop == 0 then Some((HexValue(t), [])) else None)
    else if stop != 0 && t[n] == stop then Some((HexValue(t[..n]), t[n + 1..]))
    else None
  }

  /** A run of at most `most` digits followed by the terminator is read whole. */
  lemma NumberReads(digits: text, most: nat, stop: byte, rest: text)
    requires 0 < |digits| <= most && Digits(digits)
    requires stop != 0 && Nibble(stop) < 0
    ensures Number(digits + [stop] + rest, most, stop) == Some((HexValue(digits), rest))
  {
    var t := digits + [stop] + rest;
    var n := |digits|;
    assert t[n] == stop;
    RunIs(t, most, n);
    assert t[..n] == digits && t[n + 1..] == rest;
  }

  lemma NumberEnds(digits: text, most: nat)
    requires 0 < |digits| <= most && Digits(digits)
    ensures Number(digits, most, 0) == Some((HexValue(digits), []))
  {
    RunIs(digits, most, |digits|);
  }

  /** Nothing else is read: what is returned are the digits in front of the terminator, and what follows it. */
  lemma NumberMeans(t: text, most: nat, stop: byte)
    requires Nibble(stop) < 0
    ensures var r := Number(t, most, stop);
            r.Some? ==>
              var (v, rest) := r.value;
              var n := if stop == 0 then |t| else |t| - |rest| - 1;
              && 0 <= n <= most && Digits(t[..n]) && v == HexValue(t[..n])
              && (if stop == 0 then n > 0 && rest == [] else t[n] == stop && t[n + 1..] == rest)
  {
    assert t[..|t|] == t;
  }

  /** More digits than are allowed are no number. */
  lemma TooManyDigits(t: text, most: nat, stop: byte)
    requires most < |t| && Digits(t[..most + 1]) && Nibble(stop) < 0
    ensures Number(t, most, stop) == None
  {
    assert forall i :: 0 <= i <= most ==> t[i] == t[..most + 1][i];
    RunIs(t, most, most);
  }

  /** rp_decode_uint64 and rp_decode_uint32: shift in a digit at a time. */
  method DecodeUint(t: text, most: nat, stop: byte) returns (r: Option<(nat, text)>)
    ensures r == Number(t, most, stop)
  {
    if t == [] {
      return None;
    }
    var value, count := 0, 0;
    assert t[..0] == [];
    while count < |t| && count < most && Nibble(t[count]) >= 0
      invariant count <= |t| && count <= most
      invariant forall i :: 0 <= i < count ==> Nibble(t[i]) >= 0
      invariant value == HexValue(t[..count])
    {
      assert t[..count + 1][..count] == t[..count];
      value := value * 16 + Nibble(t[count]);
      count := count + 1;
    }
    RunIs(t, most, count);
    assert count == |t| ==> t[..count] == t;
    if count == |t| {
      return if stop == 0 then Some((value, [])) else None;
    }
    if stop == 0 || t[count] != stop {
      return None;
    }
    return Some((value, t[count + 1..]));
  }

  lemma RunIs(t: text, most: nat, n: nat)
    requires n <= |t| && n <= most && (forall i :: 0 <= i < n ==> Nibble(t[i]) >= 0)
    requires n < |t| && n < most ==> Nibble(t[n]) < 0
    ensures DigitRun(t, most) == n
  {
  }
}
