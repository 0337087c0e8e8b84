/** Unsigned 32-bit words as integers, and the bit operations the sources use on them. */
module Words {

  const WORDS: int := 0x1_0000_0000
  type word = x: int | 0 <= x < WORDS
  type byte = x: int | 0 <= x < 256

  datatype Option<T> = None | Some(value: T)

  /** Is bit p of x set?  p is a power of two. */
  predicate Has(x: int, p: int)
    requires p > 0
  {
    x / p % 2 == 1
  }

  /** x | p, for a single bit p */
  function Set(x: int, p: int): int
    requires p > 0
  {
    if Has(x, p) then x else x + p
  }

  /** x & ~p, for a single bit p */
  function Clear(x: int, p: int): int
    requires p > 0
  {
    if Has(x, p) then x - p else x
  }

  function Pow2(n: nat): (p: int)
    ensures p > 0
  {
    if n == 0 then 1 else 2 * Pow2(n - 1)
  }

  /** x | y */
  function Or(x: nat, y: nat): nat {
    if x == 0 then y
    else if y == 0 then x
    else 2 * Or(x / 2, y / 2) + (if x % 2 == 1 || y % 2 == 1 then 1 else 0)
  }

  lemma OrZero(y: nat)
    ensures Or(y, 0) == y
  {
  }

  /** Or-ing a number below a power of two into a multiple of that power adds the two. */
  lemma {:induction false} OrDisjoint(q: nat, n: nat, y: nat)
    requires y < Pow2(n)
    ensures q * Pow2(n) >= 0 && Or(q * Pow2(n), y) == q * Pow2(n) + y
  {
    if n == 0 {
      OrZero(q);
    } else {
      var x, p := q * Pow2(n), Pow2(n - 1);
      assert x == 2 * (q * p) by { assert q * (2 * p) == 2 * (q * p); }
      OrDisjoint(q, n - 1, y / 2);
      if y == 0 {
        OrZero(x);
      }
    }
  }

  lemma Pow16()
    ensures Pow2(16) == 0x1_0000
  {
    assert Pow2(8) == 0x100;
    assert Pow2(12) == 0x1000;
  }

  /** x & y */
  function And(x: nat, y: nat): (z: nat)
    ensures z <= x && z <= y
  {
    if x == 0 || y == 0 then 0 else 2 * And(x / 2, y / 2) + (if x % 2 == 1 && y % 2 == 1 then 1 else 0)
  }

  lemma {:induction false} AndTwice(x: nat, y: nat)
    ensures And(And(x, y), y) == And(x, y)
  {
    if x > 0 && y > 0 {
      var z := And(x, y);
      assert z / 2 == And(x / 2, y / 2) && (z % 2 == 1 <==> x % 2 == 1 && y % 2 == 1);
      AndTwice(x / 2, y / 2);
      if z == 0 {
        assert And(x / 2, y / 2) == 0;
      }
    }
  }

  // ------------------------------------------------------------ What these are, bit by bit

  /** Bit k of x. */
  predicate BitAt(x: nat, k: nat) {
    if k == 0 then x % 2 == 1 else BitAt(x / 2, k - 1)
  }

  lemma {:induction false} NoBits(k: nat)
    ensures !BitAt(0, k)
  {
    if k > 0 {
      NoBits(k - 1);
    }
  }

  lemma {:induction false} OrBits(x: nat, y: nat, k: nat)
    ensures BitAt(Or(x, y), k) <==> BitAt(x, k) || BitAt(y, k)
  {
    NoBits(k);
    if x > 0 && y > 0 && k > 0 {
      assert Or(x, y) / 2 == Or(x / 2, y / 2);
      OrBits(x / 2, y / 2, k - 1);
    }
  }

  lemma {:induction false} AndBits(x: nat, y: nat, k: nat)
    ensures BitAt(And(x, y), k) <==> BitAt(x, k) && BitAt(y, k)
  {
    NoBits(k);
    if x > 0 && y > 0 && k > 0 {
      assert And(x, y) / 2 == And(x / 2, y / 2);
      AndBits(x / 2, y / 2, k - 1);
    }
  }

  lemma HalveTwice(x: nat, p: nat)
    requires p > 0
    ensures x / (2 * p) == x / 2 / p
  {
    var q, r := x / 2 / p, x / 2 % p;
    assert x == 2 * (q * p + r) + x % 2;
    assert x == q * (2 * p) + (2 * r + x % 2) by { assert 2 * (q * p) == q * (2 * p); }
    ModUnique(x, q, 2 * p, 2 * r + x % 2);
  }

  lemma ModUnique(v: int, q: int, m: int, r: int)
    requires m > 0 && 0 <= r < m && v == q * m + r
    ensures v % m == r && v / m == q
  {
    var q', r' := v / m, v % m;
    assert (q - q') * m == r' - r;
    if q != q' {
      Scaled(if q > q' then q - q' else q' - q, m);
    }
  }

  lemma Scaled(k: int, m: int)
    requires k > 0 && m > 0
    ensures k * m >= m
  {
  }

  /** The tests and changes of single bits. */
  lemma {:induction false} SingleBits(x: nat, k: nat, j: nat)
    ensures Has(x, Pow2(k)) <==> BitAt(x, k)
    ensures Set(x, Pow2(k)) >= 0 && (BitAt(Set(x, Pow2(k)), j) <==> j == k || BitAt(x, j))
    ensures Clear(x, Pow2(k)) >= 0 && (BitAt(Clear(x, Pow2(k)), j) <==> j != k && BitAt(x, j))
  {
    if k == 0 {
      assert Set(x, 1) / 2 == x / 2 == Clear(x, 1) / 2;
    } else {
      var p := Pow2(k - 1);
      HalveTwice(x, p);
      assert Has(x, 2 * p) == Has(x / 2, p);
      assert Set(x, 2 * p) / 2 == Set(x / 2, p) && Set(x, 2 * p) % 2 == x % 2;
      SingleBits(x / 2, k - 1, if j == 0 then 0 else j - 1);
      assert Clear(x, 2 * p) == if Has(x / 2, p) then x - 2 * p else x;
      assert Clear(x, 2 * p) / 2 == Clear(x / 2, p) && Clear(x, 2 * p) % 2 == x % 2;
    }
  }
}
