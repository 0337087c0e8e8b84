/** Reassembly of the bits an MPSSE read returned (adapter-mpsse.c:262-318, 329-351). */
module Decode {
  import opened Bits
  import opened Scan

  type word64 = b: bits | |b| == 64 witness Zeros(64)

  /** What the adapter remembers about the last read it compiled. */
  datatype Masks = Masks(highByteBits: nat, fixHighBit: word64, highByteMask: word64, highBitMask: word64)

  /** 0xff */
  function LowByte(): word64 {
    seq(64, i => i < 8)
  }

  /** The byte the partial bits arrive in, when there are any. */
  function TailMask(whole: nat, tail: nat): word64 {
    if tail > 0 then ShiftLeft(LowByte(), 8 * whole) else Zeros(64)
  }

  /** The masks set while compiling an n-bit read: size is the number of bytes before the last one. */
  function MasksOf(n: nat): Masks
    requires 0 < n <= 64
  {
    var size := ReplyLength(n) - 1;
    Masks((n - 1) % 8,
          ShiftLeft(OneBit(64, 6), size * 8),
          TailMask((n - 1) / 8, (n - 1) % 8),
          OneBit(64, n - 1))
  }

  /** The high byte moved down to where its bits belong. */
  function FixHighByte(highByteBits: nat, mask: word64, word: word64): word64 {
    if highByteBits > 0 then
      var highByte := BitAnd(mask, ShiftRight(BitAnd(word, mask), 8 - highByteBits));
      BitOr(BitAnd(word, BitNot(mask)), highByte)
    else word
  }

  function FixData(m: Masks, word: word64): word64 {
    var low := BitAnd(FixHighByte(m.highByteBits, m.highByteMask, word), Decrement(m.highBitMask));
    if exists i :: 0 <= i < 64 && BitAnd(word, m.fixHighBit)[i] then BitOr(low, m.highBitMask) else low
  }

  lemma OneBitAt(k: nat, i: nat)
    requires k < 64 && i < 64
    ensures OneBit(64, k)[i] == (i == k)
  {
  }

  lemma HighByteMaskAt(whole: nat, i: nat)
    requires whole < 8 && i < 64
    ensures ShiftLeft(LowByte(), 8 * whole)[i] == (8 * whole <= i < 8 * whole + 8)
  {
  }

  /** Below the last bit the corrected word holds the data bits, wherever the engine put them. */
  lemma HighByteFixed(word: word64, t: bits, whole: nat, tail: nat, i: nat)
    requires |t| == 8 * whole + tail && tail < 8 && |t| < 57 && i < |t|
    requires word[..8 * whole] == t[..8 * whole]
    requires tail > 0 ==> word[8 * whole + 8 - tail..8 * whole + 8] == t[8 * whole..]
    ensures FixHighByte(tail, TailMask(whole, tail), word)[i] == t[i]
  {
    if i < 8 * whole {
      assert word[..8 * whole][i] == t[..8 * whole][i];
      if tail > 0 {
        HighByteMaskAt(whole, i);
      }
    } else {
      HighByteMaskAt(whole, i);
      var j := i + 8 - tail;
      HighByteMaskAt(whole, j);
      assert word[8 * whole + 8 - tail..8 * whole + 8][i - 8 * whole] == t[8 * whole..][i - 8 * whole];
    }
  }

  /**
   For every scan of 1 to 57 bits, every reply the engine can give for it and
   whatever follows that reply in the buffer, the decoded number is the bits read.
   */
  lemma FixInverts(n: nat, r: bits, t: bits, word: word64)
    requires 0 < n <= 57 && |t| == n && Returns(r, t)
    requires |r| <= 64 && word[..|r|] == r
    ensures FixData(MasksOf(n), word) == t + Zeros(64 - n)
  {
    var whole, tail := (n - 1) / 8, (n - 1) % 8;
    var m := MasksOf(n);
    var size := ReplyLength(n) - 1;
    FixedBitShows(n, r, t, word);
    LowMask(64, n - 1);
    forall i | 0 <= i < 64
      ensures FixData(m, word)[i] == (t + Zeros(64 - n))[i]
    {
      OneBitAt(n - 1, i);
      if i < n - 1 {
        BelowLast(n, r, t, word, i);
      }
    }
  }

  lemma FixedBitShows(n: nat, r: bits, t: bits, word: word64)
    requires 0 < n <= 57 && |t| == n && Returns(r, t)
    requires |r| <= 64 && word[..|r|] == r
    ensures (exists i :: 0 <= i < 64 && BitAnd(word, MasksOf(n).fixHighBit)[i]) <==> t[n - 1]
  {
    var size := ReplyLength(n) - 1;
    var mask := MasksOf(n).fixHighBit;
    forall i | 0 <= i < 64
      ensures mask[i] == (i == size * 8 + 6)
    {
      if i >= size * 8 {
        OneBitAt(6, i - size * 8);
      }
    }
    assert |r| - 2 == size * 8 + 6;
    assert word[..|r|][|r| - 2] == r[|r| - 2];
    assert BitAnd(word, mask)[size * 8 + 6] == t[n - 1];
  }

  lemma BelowLast(n: nat, r: bits, t: bits, word: word64, i: nat)
    requires 0 < n <= 57 && |t| == n && Returns(r, t)
    requires |r| <= 64 && word[..|r|] == r && i < n - 1
    ensures FixHighByte((n - 1) % 8, TailMask((n - 1) / 8, (n - 1) % 8), word)[i] == t[i]
  {
    var whole, tail := (n - 1) / 8, (n - 1) % 8;
    WordHolds(r[..|r| - 8], t[..n - 1], word, whole, tail);
    HighByteFixed(word, t[..n - 1], whole, tail, i);
  }

  /** The places of the reply, seen in a word that starts with it. */
  lemma WordHolds(s: bits, u: bits, word: word64, whole: nat, tail: nat)
    requires |u| == 8 * whole + tail && tail < 8 && Holds(s, u, whole, tail)
    requires |s| <= 64 && word[..|s|] == s
    ensures word[..8 * whole] == u[..8 * whole]
    ensures tail > 0 ==> word[8 * whole + 8 - tail..8 * whole + 8] == u[8 * whole..]
  {
    assert word[..8 * whole] == s[..8 * whole];
    if tail > 0 {
      assert word[8 * whole + 8 - tail..8 * whole + 8] == s[|s| - tail..];
    }
  }
}
