/** The bytes of a number, least significant first: the order of the host's memory. */
module Bytes {
  import opened Words

  /** Byte k. */
  function ByteIn(w: nat, k: nat): byte {
    if k == 0 then w % 256 else ByteIn(w / 256, k - 1)
  }

  lemma BytesShifted(w: nat)
    ensures ByteIn(w, 0) == w % 256 && ByteIn(w, 1) == w / 0x100 % 256
    ensures ByteIn(w, 2) == w / 0x1_0000 % 256 && ByteIn(w, 3) == w / 0x100_0000 % 256
  {
    var a := w / 256;
    var b := a / 256;
    assert b == w / 0x1_0000 && b / 256 == w / 0x100_0000;
    assert ByteIn(w, 3) == ByteIn(a, 2) == ByteIn(b, 1) == ByteIn(b / 256, 0);
  }

  /** w &= ~(0xff << 8*k); w |= b << 8*k */
  function PutByte(w: nat, k: nat, b: byte): nat {
    if k == 0 then w / 256 * 256 + b else w % 256 + 256 * PutByte(w / 256, k - 1, b)
  }

  lemma {:induction false} PutByteIn(w: nat, k: nat, b: byte, j: nat)
    ensures ByteIn(PutByte(w, k, b), j) == if j == k then b else ByteIn(w, j)
  {
    var v := PutByte(w, k, b);
    if k > 0 {
      assert v % 256 == w % 256 && v / 256 == PutByte(w / 256, k - 1, b);
      if j > 0 {
        PutByteIn(w / 256, k - 1, b, j - 1);
      }
    } else {
      assert v % 256 == b && v / 256 == w / 256;
    }
  }

  lemma {:induction false} PutByteFits(w: nat, k: nat, b: byte, n: nat)
    requires k < n && w < Bound(n)
    ensures PutByte(w, k, b) < Bound(n)
  {
    var rest := Bound(n - 1);
    assert w / 256 < rest;
    if k > 0 {
      PutByteFits(w / 256, k - 1, b, n - 1);
    }
  }

  function Bound(n: nat): nat { if n == 0 then 1 else 256 * Bound(n - 1) }

  /** In a 32-bit word. */
  function Patched(w: word, k: nat, b: byte): word
    requires k < 4
  {
    assert Bound(4) == WORDS;
    PutByteFits(w, k, b, 4);
    PutByte(w, k, b)
  }

  lemma PatchedAll(w: word, k: nat, b: byte)
    requires k < 4
    ensures forall j :: 0 <= j < 4 ==> ByteIn(Patched(w, k, b), j) == if j == k then b else ByteIn(w, j)
  {
    forall j | 0 <= j < 4
      ensures ByteIn(Patched(w, k, b), j) == if j == k then b else ByteIn(w, j)
    {
      PutByteIn(w, k, b, j);
    }
  }

  lemma {:induction false} SameBytes(x: nat, y: nat, n: nat)
    requires x < Bound(n) && y < Bound(n) && forall j :: 0 <= j < n ==> ByteIn(x, j) == ByteIn(y, j)
    ensures x == y
  {
    if n > 0 {
      assert ByteIn(x, 0) == ByteIn(y, 0);
      forall j | 0 <= j < n - 1
        ensures ByteIn(x / 256, j) == ByteIn(y / 256, j)
      {
        assert ByteIn(x, j + 1) == ByteIn(y, j + 1);
      }
      SameBytes(x / 256, y / 256, n - 1);
    }
  }

  lemma FourBytes()
    ensures Bound(4) == WORDS
  {
    assert Bound(2) == 0x1_0000;
  }

  /** x ^ y */
  function Xor(x: nat, y: nat): nat {
    if x == 0 then y else if y == 0 then x
    else 2 * Xor(x / 2, y / 2) + (if x % 2 != y % 2 then 1 else 0)
  }

  lemma {:induction false} XorZero(x: nat, y: nat)
    ensures Xor(x, y) == 0 <==> x == y
  {
    if x > 0 && y > 0 {
      XorZero(x / 2, y / 2);
    }
  }

  lemma XorHalf(x: nat, y: nat)
    ensures Xor(x, y) / 2 == Xor(x / 2, y / 2) && (Xor(x, y) % 2 == 1 <==> x % 2 != y % 2)
  {
  }

  lemma XorQuarter(x: nat, y: nat)
    ensures Xor(x, y) / 4 == Xor(x / 4, y / 4) && (Xor(x, y) % 4 == 0 <==> x % 4 == y % 4)
  {
    hide Xor;
    XorHalf(x, y);
    XorHalf(x / 2, y / 2);
  }

  lemma XorNibble(x: nat, y: nat)
    ensures Xor(x, y) / 16 == Xor(x / 16, y / 16) && (Xor(x, y) % 16 == 0 <==> x % 16 == y % 16)
  {
    hide Xor;
    XorQuarter(x, y);
    XorQuarter(x / 4, y / 4);
  }

  /** The low byte of x ^ y is zero exactly when x and y agree there; shifting it out leaves the rest. */
  lemma XorByte(x: nat, y: nat)
    ensures Xor(x, y) / 256 == Xor(x / 256, y / 256) && (Xor(x, y) % 256 == 0 <==> x % 256 == y % 256)
  {
    hide Xor;
    XorNibble(x, y);
    XorNibble(x / 16, y / 16);
  }

  function Join(low: nat, high: nat): nat { low + 256 * high }

  /** A word is its four bytes. */
  function WordOf(b: seq<byte>): word
    requires |b| == 4
  {
    Join(b[0], Join(b[1], Join(b[2], b[3])))
  }

  lemma JoinParts(low: byte, high: nat, k: nat)
    ensures ByteIn(Join(low, high), k) == if k == 0 then low else ByteIn(high, k - 1)
  {
  }

  lemma WordOfBytes(b: seq<byte>, k: nat)
    requires |b| == 4 && k < 4
    ensures ByteIn(WordOf(b), k) == b[k]
  {
    hide Join;
    JoinParts(b[0], Join(b[1], Join(b[2], b[3])), k);
    if k > 0 {
      JoinParts(b[1], Join(b[2], b[3]), k - 1);
      if k > 1 {
        JoinParts(b[2], b[3], k - 2);
      }
    }
  }

  /** Replacing one of the four bytes is patching the word. */
  lemma WordPatched(b: seq<byte>, k: nat, v: byte)
    requires |b| == 4 && k < 4
    ensures WordOf(b[k := v]) == Patched(WordOf(b), k, v)
  {
    hide WordOf, ByteIn;
    var x, y := WordOf(b[k := v]), Patched(WordOf(b), k, v);
    forall j | 0 <= j < 4
      ensures ByteIn(x, j) == ByteIn(y, j)
    {
      WordOfBytes(b[k := v], j);
      WordOfBytes(b, j);
      PutByteIn(WordOf(b), k, v, j);
    }
    FourBytes();
    SameBytes(x, y, 4);
  }
}
