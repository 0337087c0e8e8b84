/** Bit strings, least significant bit first, and the numbers they stand for. */
module Bits {
  import opened Words

  type bits = seq<bool>

  function Zeros(n: nat): (z: bits)
    ensures |z| == n
  {
    seq(n, _ => false)
  }

  /** The low n bits of v. */
  function ToBits(v: nat, n: nat): (b: bits)
    ensures |b| == n
    decreases v, n
  {
    if n == 0 then [] else [v % 2 == 1] + ToBits(v / 2, n - 1)
  }

  function Num(b: bits): (v: nat)
    ensures v < Pow2(|b|)
  {
    if b == [] then 0 else (if b[0] then 1 else 0) + 2 * Num(b[1..])
  }

  lemma {:induction false} NumOfBits(v: nat, n: nat)
    requires v < Pow2(n)
    ensures Num(ToBits(v, n)) == v
  {
    if n > 0 {
      NumOfBits(v / 2, n - 1);
      assert ToBits(v, n)[1..] == ToBits(v / 2, n - 1);
    }
  }

  lemma {:induction false} BitsOfNum(b: bits)
    ensures ToBits(Num(b), |b|) == b
  {
    if b != [] {
      BitsOfNum(b[1..]);
      assert Num(b) / 2 == Num(b[1..]);
      assert b == [b[0]] + b[1..];
    }
  }

  lemma {:induction false} PrefixOfBits(v: nat, n: nat, m: nat)
    requires m <= n
    ensures ToBits(v, n)[..m] == ToBits(v, m)
  {
    if m > 0 {
      PrefixOfBits(v / 2, n - 1, m - 1);
      var t := ToBits(v / 2, n - 1);
      assert ToBits(v, n)[..m] == [v % 2 == 1] + t[..m - 1];
    }
  }

  lemma HalveMod(v: nat, p: nat)
    requires p > 0
    ensures v % (2 * p) == v % 2 + 2 * (v / 2 % p)
  {
    var q, r := v / 2 / p, v / 2 % p;
    assert v == 2 * (q * p + r) + v % 2;
    assert 2 * (q * p) == q * (2 * p);
    ModUnique(v, q, 2 * p, 2 * r + v % 2);
  }

  /** v modulo 2^n */
  function Low(v: nat, n: nat): nat { v % Pow2(n) }

  /** The low n bits, extended with zeros, are the number modulo 2^n. */
  lemma {:induction false} NumTruncates(v: nat, n: nat, width: nat)
    requires n <= width
    ensures Num(ToBits(v, n) + Zeros(width - n)) == Low(v, n)
  {
    var b := ToBits(v, n) + Zeros(width - n);
    if n == 0 {
      assert b == Zeros(width);
      NumOfZeros(width);
    } else {
      assert b[1..] == ToBits(v / 2, n - 1) + Zeros(width - n);
      NumTruncates(v / 2, n - 1, width - 1);
      HalveMod(v, Pow2(n - 1));
    }
  }

  /** The bits of x, then those of y. */
  lemma {:induction false} StackBits(x: nat, m: nat, y: nat, n: nat)
    requires x < Pow2(m)
    ensures Pow2(m) * y >= 0 && ToBits(x + Pow2(m) * y, m + n) == ToBits(x, m) + ToBits(y, n)
  {
    if m > 0 {
      var p := Pow2(m - 1);
      var z := p * y;
      Doubled(p, y);
      var v := x + 2 * z;
      assert v / 2 == x / 2 + z && v % 2 == x % 2;
      StackBits(x / 2, m - 1, y, n);
      hide ToBits;
      BitsNext(v, m - 1 + n);
      BitsNext(x, m - 1);
    }
  }

  lemma Doubled(p: nat, y: nat)
    ensures 2 * p * y == 2 * (p * y) >= 0
  {
  }

  lemma BitsNext(v: nat, n: nat)
    ensures ToBits(v, n + 1) == [v % 2 == 1] + ToBits(v / 2, n)
  {
  }

  lemma FourBits(v: nat)
    ensures ToBits(v, 4) == [v % 2 == 1, v / 2 % 2 == 1, v / 4 % 2 == 1, v / 8 % 2 == 1]
  {
    var w := v / 2;
    var x := w / 2;
    var y := x / 2;
    assert x == v / 4 && y == v / 8;
    assert ToBits(y, 1) == [y % 2 == 1] + ToBits(y / 2, 0);
    assert ToBits(x, 2) == [x % 2 == 1] + ToBits(y, 1);
    assert ToBits(w, 3) == [w % 2 == 1] + ToBits(x, 2);
  }

  /** Above the highest set bit everything is zero. */
  lemma {:induction false} HighBitsClear(v: nat, n: nat, i: nat)
    requires v < Pow2(i) && i <= n
    ensures forall j :: i <= j < n ==> !ToBits(v, n)[j]
  {
    if i == 0 {
      ZeroBits(n);
    } else {
      HighBitsClear(v / 2, n - 1, i - 1);
    }
  }

  lemma {:induction false} ZeroBits(n: nat)
    ensures ToBits(0, n) == Zeros(n)
  {
    if n > 0 {
      ZeroBits(n - 1);
    }
  }

  lemma Powers()
    ensures Pow2(8) == 0x100 && Pow2(9) == 0x200 && Pow2(32) == WORDS
  {
    assert Pow2(8) == 0x100;
    assert Pow2(16) == 0x1_0000 by { Pow16(); }
    assert Pow2(20) == 0x10_0000;
    assert Pow2(24) == 0x100_0000;
    assert Pow2(28) == 0x1000_0000;
  }

  // ------------------------------------------------------------- Bytes

  type octet = b: bits | |b| == 8 witness [false, false, false, false, false, false, false, false]

  function Octet(v: byte): octet {
    ToBits(v, 8)
  }

  function ByteOf(b: octet): (v: byte) {
    Powers();
    Num(b)
  }

  lemma OctetOfByte(b: octet)
    ensures Octet(ByteOf(b)) == b
  {
    BitsOfNum(b);
  }

  // -------------------------------------------------- Machine words as bit strings

  /** a | b */
  function BitOr(a: bits, b: bits): (c: bits)
    requires |a| == |b|
    ensures |c| == |a|
  {
    seq(|a|, i requires 0 <= i < |a| => a[i] || b[i])
  }

  /** a & b */
  function BitAnd(a: bits, b: bits): (c: bits)
    requires |a| == |b|
    ensures |c| == |a|
  {
    seq(|a|, i requires 0 <= i < |a| => a[i] && b[i])
  }

  /** ~a */
  function BitNot(a: bits): (c: bits)
    ensures |c| == |a|
  {
    seq(|a|, i requires 0 <= i < |a| => !a[i])
  }

  /** a << k; shifting by the width or more is undefined in C and gives zero here. */
  function ShiftLeft(a: bits, k: int): (c: bits)
    ensures |c| == |a|
  {
    if 0 <= k < |a| then Zeros(k) + a[..|a| - k] else Zeros(|a|)
  }

  /** a >> k */
  function ShiftRight(a: bits, k: int): (c: bits)
    ensures |c| == |a|
  {
    if 0 <= k < |a| then a[k..] + Zeros(k) else Zeros(|a|)
  }

  /** a - 1, wrapping */
  function Decrement(a: bits): (c: bits)
    ensures |c| == |a|
  {
    ToBits((Num(a) + Pow2(|a|) - 1) % Pow2(|a|), |a|)
  }

  function OneBit(width: nat, k: nat): (c: bits)
    requires k < width
    ensures |c| == width
  {
    ShiftLeft([true] + Zeros(width - 1), k)
  }

  lemma {:induction false} NumOfOneBit(width: nat, k: nat)
    requires k < width
    ensures Num(Zeros(k) + [true] + Zeros(width - k - 1)) == Pow2(k)
  {
    var a := Zeros(k) + [true] + Zeros(width - k - 1);
    if k == 0 {
      assert a[1..] == Zeros(width - 1);
      NumOfZeros(width - 1);
    } else {
      assert a[1..] == Zeros(k - 1) + [true] + Zeros(width - k - 1);
      NumOfOneBit(width - 1, k - 1);
    }
  }

  lemma {:induction false} NumOfZeros(n: nat)
    ensures Num(Zeros(n)) == 0
  {
    if n > 0 {
      assert Zeros(n)[1..] == Zeros(n - 1);
      NumOfZeros(n - 1);
    }
  }

  lemma {:induction false} BitsOfOnes(width: nat, k: nat)
    requires k <= width
    ensures ToBits(Pow2(k) - 1, width) == seq(k, _ => true) + Zeros(width - k)
  {
    if k == 0 {
      ZeroBits(width);
      assert ToBits(0, width) == seq(0, _ => true) + Zeros(width);
    } else {
      BitsOfOnes(width - 1, k - 1);
      assert (Pow2(k) - 1) / 2 == Pow2(k - 1) - 1;
      assert seq(k, _ => true) + Zeros(width - k) == [true] + (seq(k - 1, _ => true) + Zeros(width - k));
    }
  }

  lemma {:induction false} Pow2Monotone(a: nat, b: nat)
    requires a <= b
    ensures Pow2(a) <= Pow2(b)
  {
    if a < b {
      Pow2Monotone(a, b - 1);
    }
  }

  /** (1 << k) - 1 has exactly the low k bits set. */
  lemma LowMask(width: nat, k: nat)
    requires k < width
    ensures forall i :: 0 <= i < width ==> Decrement(OneBit(width, k))[i] == (i < k)
  {
    var a := OneBit(width, k);
    assert a == Zeros(k) + [true] + Zeros(width - k - 1);
    NumOfOneBit(width, k);
    Pow2Monotone(k, width);
    assert (Pow2(k) + Pow2(width) - 1) % Pow2(width) == Pow2(k) - 1 by {
      Pow2Monotone(k + 1, width);
      assert Pow2(k) - 1 + Pow2(width) == (Pow2(k) - 1) + 1 * Pow2(width);
      ModOnce(Pow2(k) - 1, Pow2(width));
    }
    BitsOfOnes(width, k);
  }

  lemma ModOnce(x: nat, m: nat)
    requires x < m
    ensures (x + m) % m == x
  {
    assert (x + m) / m == 1;
  }
}
