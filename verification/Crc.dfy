/**
 The table-driven checksum of remote-skeleton.c:1198-1229.  Unsigned words and bytes
 are bit strings here, most significant bit first.
 */
module Crc {
  import opened Bits

  type word32 = b: bits | |b| == 32 witness Zeros(32)
  type byte8 = b: bits | |b| == 8 witness Zeros(8)

  /** 0x04c11db7 */
  const POLYNOMIAL: word32 :=
    [false, false, false, false, false, true, false, false, true, true, false, false, false, false, false, true,
     false, false, false, true, true, true, false, true, true, false, true, true, false, true, true, true]

  /** The generator of CRC-32, without its leading term. */
  lemma KnownPolynomial(i: nat)
    requires i < 32
    ensures POLYNOMIAL[31 - i] <==> i in {26, 23, 22, 16, 12, 11, 10, 8, 7, 5, 4, 2, 1, 0}
  {
  }

  function XorBits(a: bits, b: bits): (c: bits)
    requires |a| == |b|
    ensures |c| == |a| && forall i :: 0 <= i < |a| ==> c[i] == (a[i] != b[i])
  {
    seq(|a|, i requires 0 <= i < |a| => a[i] != b[i])
  }

  /** c << n */
  function Shl(c: word32, n: nat): word32
    requires n <= 32
  {
    c[n..] + Zeros(n)
  }

  /** c & 0x80000000 ? (c << 1) ^ 0x04c11db7 : c << 1 */
  function Step(c: word32): word32 {
    if c[0] then XorBits(Shl(c, 1), POLYNOMIAL) else Shl(c, 1)
  }

  function Steps(c: word32, n: nat): word32 {
    if n == 0 then c else Step(Steps(c, n - 1))
  }

  /** One byte, bit at a time. */
  function Feed(c: word32, b: byte8): word32 {
    Steps(XorBits(c, b + Zeros(24)), 8)
  }

  function Crc(c: word32, buf: seq<byte8>): word32 {
    if buf == [] then c else Feed(Crc(c, buf[..|buf| - 1]), buf[|buf| - 1])
  }

  /** A buffer can be fed in chunks. */
  lemma {:induction false} CrcAppend(c: word32, a: seq<byte8>, b: seq<byte8>)
    ensures Crc(c, a + b) == Crc(Crc(c, a), b)
  {
    if b == [] {
      assert a + b == a;
    } else {
      var n := |b| - 1;
      assert (a + b)[..|a| + n] == a + b[..n];
      CrcAppend(c, a, b[..n]);
    }
  }

  // ----------------------------------------------------- Division of polynomials

  /** Remainder of a string of coefficients by x^32 + POLYNOMIAL, by long division. */
  function Remainder(m: bits): word32
    requires |m| >= 32
    decreases |m|
  {
    if |m| == 32 then m
    else if m[0] then Remainder(XorBits(m[1..33], POLYNOMIAL) + m[33..])
    else Remainder(m[1..])
  }

  function AllBits(buf: seq<byte8>): (m: bits)
    ensures |m| == 8 * |buf|
  {
    if buf == [] then [] else buf[0] + AllBits(buf[1..])
  }

  /** The dividend: the message times x^32, with c added to its first 32 coefficients. */
  function Dividend(c: word32, m: bits): (d: bits)
    ensures |d| == |m| + 32
  {
    XorBits(c + Zeros(|m|), m + Zeros(32))
  }

  /** The register after the bits m. */
  function FeedBits(c: word32, m: bits): word32
    decreases |m|
  {
    if m == [] then c else FeedBits(Step(c[0 := c[0] != m[0]]), m[1..])
  }

  lemma DivideOnce(c: word32, m: bits)
    requires m != []
    ensures Remainder(Dividend(c, m)) == Remainder(Dividend(Step(c[0 := c[0] != m[0]]), m[1..]))
  {
    hide Remainder;
    var d, c' := Dividend(c, m), Step(c[0 := c[0] != m[0]]);
    var e := if d[0] then XorBits(d[1..33], POLYNOMIAL) + d[33..] else d[1..];
    DivideStep(d);
    NextDividend(c, m, e);
  }

  lemma DivideStep(d: bits)
    requires |d| > 32
    ensures Remainder(d) == Remainder(if d[0] then XorBits(d[1..33], POLYNOMIAL) + d[33..] else d[1..])
  {
  }

  lemma NextDividend(c: word32, m: bits, e: bits)
    requires m != []
    requires var d := Dividend(c, m); e == if d[0] then XorBits(d[1..33], POLYNOMIAL) + d[33..] else d[1..]
    ensures e == Dividend(Step(c[0 := c[0] != m[0]]), m[1..])
  {
    var d, f := Dividend(c, m), Dividend(Step(c[0 := c[0] != m[0]]), m[1..]);
    forall i | 0 <= i < |e|
      ensures e[i] == f[i]
    {
      assert d[i + 1] == ((c + Zeros(|m|))[i + 1] != (m + Zeros(32))[i + 1]);
    }
  }

  /** The shift register computes the remainder of the division. */
  lemma {:induction false} FeedDivides(c: word32, m: bits)
    ensures FeedBits(c, m) == Remainder(Dividend(c, m))
    decreases |m|
  {
    if m == [] {
      assert Dividend(c, m) == c;
    } else {
      DivideOnce(c, m);
      FeedDivides(Step(c[0 := c[0] != m[0]]), m[1..]);
    }
  }

  // ---------------------------------------------- Bit at a time and byte at a time

  lemma {:induction false} StepsFirst(c: word32, n: nat)
    ensures Steps(c, n + 1) == Steps(Step(c), n)
  {
    if n > 0 {
      StepsFirst(c, n - 1);
    }
  }

  lemma StepAbsorbs(c: word32, m: bits)
    requires 0 < |m| <= 32
    ensures Step(XorBits(c, m + Zeros(32 - |m|))) == XorBits(Step(c[0 := c[0] != m[0]]), m[1..] + Zeros(33 - |m|))
  {
    var a, b := Step(XorBits(c, m + Zeros(32 - |m|))), XorBits(Step(c[0 := c[0] != m[0]]), m[1..] + Zeros(33 - |m|));
    forall i | 0 <= i < 32
      ensures a[i] == b[i]
    {
    }
  }

  /** Adding the bits up front or one at a time makes no difference. */
  lemma {:induction false} StepsFeed(c: word32, m: bits)
    requires |m| <= 32
    ensures Steps(XorBits(c, m + Zeros(32 - |m|)), |m|) == FeedBits(c, m)
    decreases |m|
  {
    hide Step;
    if m == [] {
      assert XorBits(c, [] + Zeros(32)) == c;
    } else {
      StepsFirst(XorBits(c, m + Zeros(32 - |m|)), |m| - 1);
      StepAbsorbs(c, m);
      StepsFeed(Step(c[0 := c[0] != m[0]]), m[1..]);
    }
  }

  lemma {:induction false} FeedAppend(c: word32, a: bits, b: bits)
    ensures FeedBits(c, a + b) == FeedBits(FeedBits(c, a), b)
    decreases |a|
  {
    hide Step;
    if a == [] {
      assert a + b == b;
    } else {
      assert (a + b)[1..] == a[1..] + b && (a + b)[0] == a[0];
      FeedAppend(Step(c[0 := c[0] != a[0]]), a[1..], b);
    }
  }

  lemma {:induction false} BitsAppend(a: seq<byte8>, b: seq<byte8>)
    ensures AllBits(a + b) == AllBits(a) + AllBits(b)
  {
    if a == [] {
      assert a + b == b;
    } else {
      assert (a + b)[1..] == a[1..] + b;
      BitsAppend(a[1..], b);
    }
  }

  lemma {:induction false} CrcFeeds(c: word32, buf: seq<byte8>)
    ensures Crc(c, buf) == FeedBits(c, AllBits(buf))
  {
    hide Step, Steps;
    if buf != [] {
      var n := |buf| - 1;
      var b := buf[n];
      CrcFeeds(c, buf[..n]);
      StepsFeed(Crc(c, buf[..n]), b);
      assert buf == buf[..n] + [b];
      BitsAppend(buf[..n], [b]);
      assert AllBits([b]) == b + AllBits([b][1..]) == b;
      FeedAppend(c, AllBits(buf[..n]), b);
    }
  }

  /** The checksum is the remainder of the message times x^32, with the start value added in front. */
  lemma CrcIsRemainder(c: word32, buf: seq<byte8>)
    ensures Crc(c, buf) == Remainder(Dividend(c, AllBits(buf)))
  {
    CrcFeeds(c, buf);
    FeedDivides(c, AllBits(buf));
  }

  // ------------------------------------------------------------------- The table

  /** An index as eight bits, and back. */
  function Binary(i: nat, n: nat): (b: bits)
    ensures |b| == n
    decreases n
  {
    if n == 0 then [] else Binary(i / 2, n - 1) + [i % 2 == 1]
  }

  function Index(b: bits): (i: nat)
    ensures |b| == 8 ==> i < 256
  {
    IndexBound(b);
    Place(b)
  }

  function Place(b: bits): nat {
    if b == [] then 0 else 2 * Place(b[..|b| - 1]) + (if b[|b| - 1] then 1 else 0)
  }

  lemma IndexBound(b: bits)
    ensures |b| == 8 ==> Place(b) < 256
  {
    if |b| == 8 {
      assert Place(b[..0]) == 0 && b[..1][..0] == b[..0];
      assert Place(b[..1]) <= 1 && b[..2][..1] == b[..1];
      assert Place(b[..2]) <= 3 && b[..3][..2] == b[..2];
      assert Place(b[..3]) <= 7 && b[..4][..3] == b[..3];
      assert Place(b[..4]) <= 15 && b[..5][..4] == b[..4];
      assert Place(b[..5]) <= 31 && b[..6][..5] == b[..5];
      assert Place(b[..6]) <= 63 && b[..7][..6] == b[..6];
      assert Place(b[..7]) <= 127 && b[..8] == b;
    }
  }

  lemma {:induction false} BinaryOfPlace(b: bits)
    ensures Binary(Place(b), |b|) == b
  {
    if b != [] {
      var n := |b| - 1;
      BinaryOfPlace(b[..n]);
      assert b == b[..n] + [b[n]];
    }
  }

  /** Entry i of the complete table. */
  function Entry(i: nat): word32 {
    Steps(Binary(i, 8) + Zeros(24), 8)
  }

  lemma StepLinear(x: word32, y: word32)
    ensures Step(XorBits(x, y)) == XorBits(Step(x), Step(y))
  {
    var a, b := Step(XorBits(x, y)), XorBits(Step(x), Step(y));
    forall i | 0 <= i < 32
      ensures a[i] == b[i]
    {
    }
  }

  lemma {:induction false} StepsLinear(x: word32, y: word32, n: nat)
    ensures Steps(XorBits(x, y), n) == XorBits(Steps(x, n), Steps(y, n))
  {
    hide Step;
    if n > 0 {
      StepsLinear(x, y, n - 1);
      StepLinear(Steps(x, n - 1), Steps(y, n - 1));
    }
  }

  /** While zeros are shifted out nothing is added. */
  lemma {:induction false} StepsShift(r: bits, n: nat)
    requires |r| + n == 32
    ensures Steps(Zeros(n) + r, n) == r + Zeros(n)
    decreases n
  {
    if n > 0 {
      StepsFirst(Zeros(n) + r, n - 1);
      assert Step(Zeros(n) + r) == Zeros(n - 1) + (r + [false]);
      StepsShift(r + [false], n - 1);
      assert r + [false] + Zeros(n - 1) == r + Zeros(n);
    }
  }

  /** Looking a byte up is feeding its eight bits. */
  lemma TableFeeds(c: word32, b: byte8)
    ensures XorBits(Shl(c, 8), Entry(Index(XorBits(c[..8], b)))) == Feed(c, b)
  {
    hide Steps, Place;
    var top := XorBits(c[..8], b);
    BinaryOfPlace(top);
    assert XorBits(c, b + Zeros(24)) == XorBits(top + Zeros(24), Zeros(8) + c[8..]);
    StepsLinear(top + Zeros(24), Zeros(8) + c[8..], 8);
    StepsShift(c[8..], 8);
    var e, s := Steps(top + Zeros(24), 8), Shl(c, 8);
    assert XorBits(s, e) == XorBits(e, s);
  }

  /** Entry 1 of a complete table is not zero, so it tells a complete table from an empty one. */
  lemma EntryOne()
    ensures Entry(1) == POLYNOMIAL && POLYNOMIAL != Zeros(32)
  {
    var one := Zeros(7) + [true];
    assert Binary(1, 8) == one by {
      assert Place(Zeros(7)) == 0 by { PlaceOfZeros(7); }
      assert one[..7] == Zeros(7);
      assert Place(one) == 1;
      BinaryOfPlace(one);
    }
    var x := [true] + Zeros(24);
    assert one + Zeros(24) == Zeros(7) + x;
    StepsShift(x, 7);
    assert Steps(one + Zeros(24), 7) == x + Zeros(7);
    assert Shl(x + Zeros(7), 1) == Zeros(32);
    assert Step(x + Zeros(7)) == POLYNOMIAL;
    assert POLYNOMIAL[5];
  }

  lemma {:induction false} PlaceOfZeros(n: nat)
    ensures Place(Zeros(n)) == 0
  {
    if n > 0 {
      assert Zeros(n)[..n - 1] == Zeros(n - 1);
      PlaceOfZeros(n - 1);
    }
  }

  class Checksum {
    const table: array<word32>

    /** Either nothing has been computed yet, or everything. */
    ghost predicate Valid()
      reads this, table
    {
      && table.Length == 256
      && ((forall i :: 0 <= i < 256 ==> table[i] == Zeros(32)) || Complete())
    }

    ghost predicate Complete()
      reads this, table
      requires table.Length == 256
    {
      forall i :: 0 <= i < 256 ==> table[i] == Entry(i)
    }

    constructor ()
      ensures Valid()
    {
      table := new word32[256](_ => Zeros(32));
    }

    method MakeEntry(i: nat) returns (c: word32)
      ensures c == Entry(i)
    {
      hide Binary, Step;
      var j: nat;
      c, j := Binary(i, 8) + Zeros(24), 8;
      while j > 0
        invariant j <= 8 && c == Steps(Binary(i, 8) + Zeros(24), 8 - j)
      {
        c := Step(c);
        j := j - 1;
      }
    }

    method Fill()
      requires table.Length == 256
      modifies table
      ensures Complete()
    {
      hide Entry;
      for i := 0 to 256
        invariant forall k :: 0 <= k < i ==> table[k] == Entry(k)
      {
        var c := MakeEntry(i);
        table[i] := c;
      }
    }

    /** The checksum of a buffer, from the value `start` on; the table is complete whenever it is used. */
    method Crc32(buf: seq<byte8>, start: word32) returns (crc: word32)
      requires Valid()
      modifies table
      ensures Valid() && Complete() && crc == Crc(start, buf)
    {
      hide Entry, Index, Feed;
      EntryOne();
      if table[1] == Zeros(32) {
        Fill();
      }
      crc := start;
      assert buf[..0] == [];
      for i := 0 to |buf|
        invariant Complete() && crc == Crc(start, buf[..i])
      {
        assert buf[..i + 1][..i] == buf[..i];
        TableFeeds(crc, buf[i]);
        crc := XorBits(Shl(crc, 8), table[Index(XorBits(crc[..8], buf[i]))]);
      }
      assert buf[..|buf|] == buf;
    }
  }
}
