/** Verifying a programmed block and repairing it (target.c:1435-1485, mcprog.c:392-430). */
module FlashVerify {
  import opened Words
  import opened Bytes
  import opened Chip
  import opened Bus
  import opened Target
  import opened Flash

  // ----------------------------------------------------- What one attempt changes

  /** The first byte from k on in which w and e differ, or 4. */
  function FirstBad(w: word, e: word, k: nat): (j: nat)
    requires k <= 4
    ensures k <= j <= 4 && (forall i :: k <= i < j ==> ByteIn(w, i) == ByteIn(e, i))
    ensures j < 4 ==> ByteIn(w, j) != ByteIn(e, j)
    decreases 4 - k
  {
    if k == 4 || ByteIn(w, k) != ByteIn(e, k) then k else FirstBad(w, e, k + 1)
  }

  lemma Differ(w: word, e: word)
    requires w != e
    ensures FirstBad(w, e, 0) < 4
  {
    if FirstBad(w, e, 0) == 4 {
      FourBytes();
      SameBytes(w, e, 4);
    }
  }

  /** On an 8-bit bus the lowest differing byte is programmed again; on a 32-bit bus, the word. */
  function Attempt(width: nat, w: word, e: word): word
    requires w != e
  {
    if width == 8 then
      Differ(w, e);
      var j := FirstBad(w, e, 0);
      Patched(w, j, And(ByteIn(w, j), ByteIn(e, j)))
    else And(w, e)
  }

  /** Does the retry loop end with the word right, when `left` more attempts may succeed? */
  predicate Mends(width: nat, w: word, e: word, left: nat)
    decreases left
  {
    w == e || (left > 0 && Mends(width, Attempt(width, w, e), e, left - 1))
  }

  /** Bytes that differ, from the k-th on. */
  function Wrong(w: word, e: word, k: nat): (n: nat)
    requires k <= 4
    ensures n <= 4 - k
    decreases 4 - k
  {
    if k == 4 then 0 else (if ByteIn(w, k) != ByteIn(e, k) then 1 else 0) + Wrong(w, e, k + 1)
  }

  /** Every byte that differs can be put right by clearing bits. */
  predicate Clearable(w: word, e: word) {
    forall j :: 0 <= j < 4 ==> And(ByteIn(w, j), ByteIn(e, j)) == ByteIn(e, j)
  }

  lemma AndSelf(x: nat)
    ensures And(x, x) == x
  {
  }

  lemma WrongNone(w: word, e: word)
    ensures Wrong(w, e, 0) == 0 <==> w == e
  {
    if Wrong(w, e, 0) == 0 {
      assert Wrong(w, e, 1) == 0 && Wrong(w, e, 2) == 0 && Wrong(w, e, 3) == 0;
      FourBytes();
      SameBytes(w, e, 4);
    }
  }

  /** Putting one wrong byte right leaves one wrong byte less; not putting it right leaves as many. */
  lemma {:induction false} WrongAfter(w: word, v: word, e: word, j: nat, k: nat)
    requires j < 4 && k <= 4 && ByteIn(w, j) != ByteIn(e, j)
    requires forall i :: 0 <= i < 4 && i != j ==> ByteIn(v, i) == ByteIn(w, i)
    ensures Wrong(v, e, k) == Wrong(w, e, k) - (if k <= j && ByteIn(v, j) == ByteIn(e, j) then 1 else 0)
    decreases 4 - k
  {
    hide ByteIn;
    if k < 4 {
      WrongAfter(w, v, e, j, k + 1);
    }
  }

  lemma AttemptMends(w: word, e: word)
    requires w != e
    ensures var v, j := Attempt(8, w, e), FirstBad(w, e, 0);
            && j < 4 && Wrong(v, e, 0) == Wrong(w, e, 0) - (if And(ByteIn(w, j), ByteIn(e, j)) == ByteIn(e, j) then 1 else 0)
            && (Clearable(v, e) <==> Clearable(w, e))
  {
    hide ByteIn, Patched, And, Wrong;
    Differ(w, e);
    var j := FirstBad(w, e, 0);
    var v := Attempt(8, w, e);
    PatchedAll(w, j, And(ByteIn(w, j), ByteIn(e, j)));
    WrongAfter(w, v, e, j, 0);
    AndTwice(ByteIn(w, j), ByteIn(e, j));
  }

  /** On an 8-bit bus: at most `left` bytes differ and each can be repaired. */
  lemma {:induction false} MendsByte(w: word, e: word, left: nat)
    ensures Mends(8, w, e, left) <==> Wrong(w, e, 0) <= left && Clearable(w, e)
    decreases left
  {
    hide ByteIn, Wrong, Clearable, Attempt, FirstBad, And;
    WrongNone(w, e);
    if w == e {
      AllClear(w);
    } else if left > 0 {
      AttemptMends(w, e);
      MendsByte(Attempt(8, w, e), e, left - 1);
      if Clearable(w, e) {
        ClearAt(w, e, FirstBad(w, e, 0));
      }
    }
  }

  lemma AllClear(w: word)
    ensures Clearable(w, w)
  {
    forall j | 0 <= j < 4
      ensures And(ByteIn(w, j), ByteIn(w, j)) == ByteIn(w, j)
    {
      AndSelf(ByteIn(w, j));
    }
  }

  lemma ClearAt(w: word, e: word, j: nat)
    requires Clearable(w, e) && j < 4
    ensures And(ByteIn(w, j), ByteIn(e, j)) == ByteIn(e, j)
  {
  }

  /** A repairable word has one wrong byte less after each attempt. */
  lemma CountsDown(w: word, e: word)
    requires w != e
    ensures Clearable(Attempt(8, w, e), e) <==> Clearable(w, e)
    ensures Clearable(w, e) ==> Wrong(Attempt(8, w, e), e, 0) + 1 == Wrong(w, e, 0)
  {
    hide ByteIn, Wrong, Clearable, Attempt, FirstBad, And;
    AttemptMends(w, e);
    if Clearable(w, e) {
      ClearAt(w, e, FirstBad(w, e, 0));
    }
  }

  /** On a 32-bit bus one attempt decides. */
  lemma {:induction false} MendsWord(w: word, e: word, left: nat)
    requires left > 0
    ensures Mends(32, w, e, left) <==> And(w, e) == e
  {
    if w == e {
      AndSelf(w);
    } else if And(w, e) != e {
      Stuck(w, e, left);
    }
  }

  lemma {:induction false} Stuck(w: word, e: word, left: nat)
    requires And(w, e) != e && w != e
    ensures !Mends(32, w, e, left)
  {
    if left > 0 {
      AndTwice(w, e);
      Stuck(And(w, e), e, left - 1);
    }
  }

  // ------------------------------------------------------------------- The board

  /** The contents of a byte-wide device. */
  ghost predicate AllBytes(cells: map<word, word>) {
    forall a: word :: Cell(cells, a) < 256
  }

  /** The four bytes from a up. */
  function FourAt(cells: map<word, word>, a: nat): (b: seq<byte>)
    ensures |b| == 4
  {
    [Cell(cells, a % WORDS) % 256, Cell(cells, (a + 1) % WORDS) % 256,
     Cell(cells, (a + 2) % WORDS) % 256, Cell(cells, (a + 3) % WORDS) % 256]
  }

  function WordIn(width: nat, cells: map<word, word>, a: word): word {
    if width == 8 then WordOf(FourAt(cells, a)) else Cell(cells, a)
  }

  /** On an 8-bit bus the core reads a word as four bytes, the lowest address lowest; on a 32-bit bus, as a cell. */
  lemma WordIsBytes(cells: map<word, word>, a: word, k: nat)
    requires k < 4
    ensures ByteIn(WordIn(8, cells, a), k) == Cell(cells, (a + k) % WORDS) % 256
    ensures WordIn(32, cells, a) == Cell(cells, a)
  {
    WordOfBytes(FourAt(cells, a), k);
  }

  /** A word keeps its value while its bytes do. */
  lemma WordKept(width: nat, c: map<word, word>, c': map<word, word>, a: word)
    requires a + 4 <= WORDS && forall x: word :: a <= x < a + 4 ==> Cell(c', x) == Cell(c, x)
    ensures WordIn(width, c', a) == WordIn(width, c, a)
  {
    hide Cell, WordOf;
    assert (a + 1) % WORDS == a + 1 && (a + 2) % WORDS == a + 2 && (a + 3) % WORDS == a + 3;
  }

  lemma StillBytes(cells: map<word, word>, a: word, b: byte)
    requires AllBytes(cells)
    ensures AllBytes(cells[a := b])
  {
    var after := cells[a := b];
    forall x: word
      ensures Cell(after, x) < 256
    {
      assert Cell(cells, x) < 256;
    }
  }

  lemma OthersKept(cells: map<word, word>, a: word, v: word)
    ensures Cell(cells[a := v], a) == v
    ensures forall x: word :: x != a ==> Cell(cells[a := v], x) == Cell(cells, x)
  {
  }

  lemma FourAfter(cells: map<word, word>, p: word, j: nat, b: byte)
    requires p + 4 <= WORDS && j < 4
    ensures FourAt(cells[p + j := b], p) == FourAt(cells, p)[j := b]
  {
    hide Cell;
    OthersKept(cells, p + j, b);
    assert p % WORDS == p && (p + 1) % WORDS == p + 1 && (p + 2) % WORDS == p + 2 && (p + 3) % WORDS == p + 3;
  }

  lemma FourIs(cells: map<word, word>, p: word, j: nat)
    requires p + 4 <= WORDS && j < 4 && AllBytes(cells)
    ensures FourAt(cells, p)[j] == Cell(cells, p + j)
  {
    assert (p + j) % WORDS == p + j;
  }

  /** An 8-bit or 32-bit flash on the target's bus, and what the host knows about it. */
  class Board {
    const width: nat
    const k: FlashKit
    const base: word
    const cscon3: word
    const flashDelay: bool
    var device: Flash8

    constructor (w: nat, kit: FlashKit, b: word, c: word, delay: bool, d: Flash8)
      ensures width == w && k == kit && base == b && cscon3 == c && flashDelay == delay && device == d
    {
      width, k, base, cscon3, flashDelay, device := w, kit, b, c, delay, d;
    }

    /** The chip answers with its contents, and its command addresses are not the lane register. */
    ghost predicate Valid()
      reads this
    {
      && (width == 8 || width == 32) && LaneClear(cscon3) && device.flash.mode == Reading
      && Plus(base, k.odd) != CSCON3 && Plus(base, k.even) != CSCON3
      && (width == 8 ==> AllBytes(device.flash.cells))
    }

    /** What the core reads at a physical address. */
    function Word(a: word): word
      reads this
    {
      WordIn(width, device.flash.cells, a)
    }

    method ReadWord(addr: word) returns (w: word)
      ensures w == Word(Phys(addr))
    {
      w := Word(Phys(addr));
    }

    /** Nothing but the four bytes from p, or the word at p, has changed. */
    twostate predicate Elsewhere(p: word)
      reads this
    {
      forall a: word :: !(p <= a < p + (if width == 8 then 4 else 1)) ==>
        Cell(device.flash.cells, a) == old(Cell(device.flash.cells, a))
    }

    /** The four bytes at p lie in the address space and are not the lane register. */
    predicate Addressable(p: word) {
      p + 4 <= WORDS && !(p <= CSCON3 < p + 4)
    }

    method ProgramByte(a: word, v: word)
      requires Valid() && a != CSCON3 && width == 8
      modifies this
      ensures Valid()
      ensures device.flash.cells == old(device.flash.cells[a := And(Cell(device.flash.cells, a), v % 256)])
    {
      hide TwoBytes, Run8, Plus;
      ghost var f, kit := device.flash, ByteKit(k);
      assert kit.odd == k.odd && kit.even == k.even;
      TwoSeen(k, base, device, cscon3, Plus(base, k.odd), k.aa, Plus(base, k.even), k.c55);
      device := Run8(k, base, device, TwoBytes(cscon3, Plus(base, k.odd), k.aa, Plus(base, k.even), k.c55));
      TwoSeen(k, base, device, cscon3, Plus(base, k.odd), k.a0, a, v);
      assert device.flash == f.(mode := Armed);
      StillBytes(f.cells, a, And(Cell(f.cells, a), v % 256));
      device := Run8(k, base, device, TwoBytes(cscon3, Plus(base, k.odd), k.a0, a, v));
      assert device.flash == f.(cells := f.cells[a := And(Cell(f.cells, a), v % 256)]);
    }

    /** Address and value of the byte to program: the differences are shifted out while they are zero. */
    method BadByte(addr: word, bad: word, expected: word) returns (a: word, e: word)
      requires bad != expected && addr + 4 <= WORDS
      ensures FirstBad(bad, expected, 0) < 4 && a == addr + FirstBad(bad, expected, 0)
      ensures e % 256 == ByteIn(expected, FirstBad(bad, expected, 0))
    {
      hide Xor;
      Differ(bad, expected);
      var diff: nat;
      a, diff, e := addr, Xor(bad, expected), expected;
      ghost var j, i, b := FirstBad(bad, expected, 0), 0, bad;
      while diff != 0 && diff % 256 == 0
        invariant i <= j && a == addr + i && diff == Xor(b, e)
        invariant forall m :: 0 <= m < 4 - i ==> ByteIn(b, m) == ByteIn(bad, m + i) && ByteIn(e, m) == ByteIn(expected, m + i)
        decreases diff
      {
        XorByte(b, e);
        assert ByteIn(b, 0) == ByteIn(bad, i) && ByteIn(e, 0) == ByteIn(expected, i);
        forall m | 0 <= m < 3 - i
          ensures ByteIn(b / 256, m) == ByteIn(bad, m + i + 1) && ByteIn(e / 256, m) == ByteIn(expected, m + i + 1)
        {
          assert ByteIn(b, m + 1) == ByteIn(bad, m + 1 + i) && ByteIn(e, m + 1) == ByteIn(expected, m + 1 + i);
        }
        a, diff, e := a + 1, diff / 256, e / 256;
        b, i := b / 256, i + 1;
      }
      XorZero(b, e);
      XorByte(b, e);
      assert ByteIn(b, j - i) != ByteIn(e, j - i);
      assert ByteIn(b, 0) == ByteIn(bad, i) && ByteIn(e, 0) == ByteIn(expected, i);
    }

    /** target_flash_rewrite; the result is false when this kind of flash cannot be repaired. */
    method Rewrite(addr: word, bad: word, expected: word) returns (done: bool)
      requires Valid() && Addressable(Phys(addr)) && bad == Word(Phys(addr)) && bad != expected
      modifies this
      ensures Valid() && Elsewhere(Phys(addr))
      ensures done <==> width == 8 || !flashDelay
      ensures if done then Word(Phys(addr)) == Attempt(width, bad, expected) else device == old(device)
    {
      hide Plus, ByteIn, Patched, And, WordOf, Run, FourAt, Cell, AllBytes, FirstBad;
      var p := Phys(addr);
      if width == 8 {
        Differ(bad, expected);
        ghost var j := FirstBad(bad, expected, 0);
        var a, e := BadByte(p, bad, expected);
        ghost var bytes := FourAt(device.flash.cells, p);
        WordOfBytes(bytes, j);
        WordPatched(bytes, j, And(ByteIn(bad, j), ByteIn(expected, j)));
        FourIs(device.flash.cells, p, j);
        OthersKept(device.flash.cells, a, And(ByteIn(bad, j), ByteIn(expected, j)));
        FourAfter(device.flash.cells, p, j, And(ByteIn(bad, j), ByteIn(expected, j)));
        ProgramByte(a, e);
        return true;
      }
      if flashDelay {
        return false;
      }
      OthersKept(device.flash.cells, p, And(bad, expected));
      WordProgrammed(k, base, device.flash, p, expected);
      device := device.(flash := Run(k, base, device.flash, ProgramWord(k, base, p, expected)));
      return true;
    }

    /** The retry loop for one word: at most four attempts, of which the first three count. */
    method Mend(addr: word, found: word, expected: word, verifyOnly: bool) returns (ok: bool, ghost attempts: nat)
      requires Valid() && Addressable(Phys(addr)) && found == Word(Phys(addr))
      modifies this
      ensures Valid() && Elsewhere(Phys(addr))
      ensures ok <==> Mends(width, found, expected, Retries(verifyOnly))
      ensures ok ==> Word(Phys(addr)) == expected
      ensures attempts <= (if ok then 3 else 4) && (ok && width == 8 ==> attempts == Wrong(found, expected, 0))
      ensures verifyOnly ==> device == old(device)
    {
      hide Word, Attempt, Wrong, Clearable;
      var word, try := found, 0;
      ghost var left := Retries(verifyOnly);
      attempts := 0;
      while word != expected
        invariant Valid() && Elsewhere(Phys(addr)) && word == Word(Phys(addr))
        invariant 0 <= try <= 3 && (left > 0 ==> try <= left)
        invariant left == 0 ==> try == 0 && word == found
        invariant Mends(width, found, expected, left) <==> Mends(width, word, expected, if left == 0 then 0 else left - try)
        invariant attempts == try
        invariant width == 8 ==> (Clearable(word, expected) <==> Clearable(found, expected))
        invariant width == 8 && Clearable(word, expected) ==> Wrong(word, expected, 0) + attempts == Wrong(found, expected, 0)
        invariant verifyOnly ==> device == old(device)
        decreases 4 - try
      {
        if verifyOnly {
          return false, attempts;
        }
        ghost var before := word;
        var done := Rewrite(addr, word, expected);
        if !done {
          return false, attempts;
        }
        CountsDown(before, expected);
        word := ReadWord(addr);
        try, attempts := try + 1, attempts + 1;
        if try > 3 {
          return false, attempts;
        }
      }
      AllClear(expected);
      WrongNone(word, expected);
      return true, attempts;
    }

    /** How many attempts may succeed. */
    function Retries(verifyOnly: bool): nat {
      if verifyOnly || (width != 8 && flashDelay) then 0 else 3
    }

    /** n words from a start address in one segment, all within the flash. */
    ghost predicate Covers(start: word, n: nat) {
      && start + 4 * n <= WORDS && Phys(start) + 4 * n <= WORDS
      && forall i :: 0 <= i < n ==> Phys(start + 4 * i) == Phys(start) + 4 * i && Addressable(Phys(start) + 4 * i)
    }

    /** target_read_block */
    method ReadBlock(start: word, n: nat) returns (block: array<word>)
      requires Covers(start, n)
      ensures fresh(block) && block.Length == n
      ensures forall j :: 0 <= j < n ==> block[j] == Word(Phys(start) + 4 * j)
    {
      hide WordIn, Cell, Addressable;
      block := new word[n];
      for i := 0 to n
        invariant forall j :: 0 <= j < i ==> block[j] == Word(Phys(start) + 4 * j)
        modifies block
      {
        block[i] := ReadWord(start + 4 * i);
      }
    }

    /** verify_block: the whole block is read, then each word is compared and if need be repaired. */
    method VerifyBlock(start: word, want: seq<word>, verifyOnly: bool) returns (ok: bool, ghost attempts: nat)
      requires Valid() && Covers(start, |want|)
      modifies this
      ensures Valid()
      ensures ok <==> forall i :: 0 <= i < |want| ==>
                        Mends(width, old(Word(Phys(start) + 4 * i)), want[i], Retries(verifyOnly))
      ensures ok ==> forall i :: 0 <= i < |want| ==> Word(Phys(start) + 4 * i) == want[i]
      ensures forall a: word :: !(Phys(start) <= a < Phys(start) + 4 * |want|) ==>
                Cell(device.flash.cells, a) == old(Cell(device.flash.cells, a))
      ensures attempts <= 4 * |want| && (ok ==> attempts <= 3 * |want|)
      ensures verifyOnly ==> device == old(device)
    {
      hide Mends, WordIn, Cell, Addressable;
      ghost var p, cells := Phys(start), device.flash.cells;
      attempts := 0;
      var block := ReadBlock(start, |want|);
      for i := 0 to |want|
        invariant Valid() && (verifyOnly ==> device == old(device)) && attempts <= 3 * i
        invariant forall j :: 0 <= j < |want| ==> block[j] == WordIn(width, cells, p + 4 * j)
        invariant forall j :: 0 <= j < i ==> Mends(width, block[j], want[j], Retries(verifyOnly))
        invariant forall j :: 0 <= j < i ==> WordIn(width, device.flash.cells, p + 4 * j) == want[j]
        invariant forall j :: i <= j < |want| ==> WordIn(width, device.flash.cells, p + 4 * j) == block[j]
        invariant forall a: word :: !(p <= a < p + 4 * i) ==> Cell(device.flash.cells, a) == Cell(cells, a)
        modifies this
      {
        ghost var before := device.flash.cells;
        ghost var more;
        ok, more := Mend(start + 4 * i, block[i], want[i], verifyOnly);
        attempts := attempts + more;
        if !ok {
          return;
        }
        OnlyOne(width, before, device.flash.cells, p, i, |want|);
      }
      ok := true;
    }
  }

  /** Changing one word of a block leaves the other words of it alone. */
  lemma OnlyOne(width: nat, c: map<word, word>, c': map<word, word>, p: word, i: nat, n: nat)
    requires i < n && p + 4 * n <= WORDS
    requires forall a: word :: !(p + 4 * i <= a < p + 4 * i + (if width == 8 then 4 else 1)) ==> Cell(c', a) == Cell(c, a)
    ensures forall j :: 0 <= j < n && j != i ==> WordIn(width, c', p + 4 * j) == WordIn(width, c, p + 4 * j)
  {
    hide WordIn, Cell;
    forall j | 0 <= j < n && j != i
      ensures WordIn(width, c', p + 4 * j) == WordIn(width, c, p + 4 * j)
    {
      WordKept(width, c, c', p + 4 * j);
    }
  }
}
