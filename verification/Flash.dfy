/**
 Flash chips with the AMD command set on the target's bus, and what the programming
 sequences of target.c do to them.
 */
module Flash {
  import opened Words
  import opened Bytes
  import opened Chip
  import opened Bus

  /** Where a chip is in a command sequence. */
  datatype Mode = Reading | Unlocked | Armed | Programming | Bypass | BypassProgramming | BypassLeaving

  /** Cells are numbered by address; programming can only clear bits. */
  datatype Flash = Flash(cells: map<word, word>, mode: Mode)

  /** One write of v to address a, for chips whose command addresses start at base. */
  function Command(k: FlashKit, base: word, f: Flash, a: word, v: word): Flash {
    match f.mode
    case Reading => f.(mode := if a == Plus(base, k.odd) && v == k.aa then Unlocked else Reading)
    case Unlocked => f.(mode := if a == Plus(base, k.even) && v == k.c55 then Armed else Reading)
    case Armed =>
      f.(mode := if a != Plus(base, k.odd) then Reading
                 else if v == k.a0 then Programming else if v == k.c20 then Bypass else Reading)
    case Programming => Flash(f.cells[a := And(Cell(f.cells, a), v)], Reading)
    case Bypass => f.(mode := if v == k.a0 then BypassProgramming else if v == k.c90 then BypassLeaving else Bypass)
    case BypassProgramming => Flash(f.cells[a := And(Cell(f.cells, a), v)], Bypass)
    case BypassLeaving => f.(mode := if v == 0 then Reading else Bypass)
  }

  // --------------------------------------------------------------- 32-bit bus

  function Run(k: FlashKit, base: word, f: Flash, ws: seq<BusWrite>): Flash {
    if ws == [] then f
    else
      var w := ws[|ws| - 1];
      Command(k, base, Run(k, base, f, ws[..|ws| - 1]), w.addr, w.data)
  }

  lemma {:induction false} RunAppend(k: FlashKit, base: word, f: Flash, a: seq<BusWrite>, b: seq<BusWrite>)
    ensures Run(k, base, f, a + b) == Run(k, base, Run(k, base, f, a), b)
  {
    if b == [] {
      assert a + b == a;
    } else {
      var n := |b| - 1;
      assert (a + b)[..|a| + n] == a + b[..n];
      RunAppend(k, base, f, a, b[..n]);
    }
  }

  /** The four writes that program one word. */
  lemma WordProgrammed(k: FlashKit, base: word, f: Flash, addr: word, v: word)
    requires f.mode == Reading
    ensures Run(k, base, f, ProgramWord(k, base, addr, v)) == Flash(f.cells[addr := And(Cell(f.cells, addr), v)], Reading)
  {
    var ws := ProgramWord(k, base, addr, v);
    assert ws[..3][..2] == ws[..2] && ws[..2][..1] == ws[..1] && ws[..1][..0] == [];
    assert Run(k, base, f, ws[..1]) == f.(mode := Unlocked);
    assert Run(k, base, f, ws[..2]) == f.(mode := Armed);
    assert Run(k, base, f, ws[..3]) == f.(mode := Programming);
  }

  /** Programming a block leaves each addressed word as old & data, all others alone, and the chip in read mode. */
  lemma {:induction false} BlockProgrammed(k: FlashKit, base: word, f: Flash, addr: word, data: seq<word>, a: word)
    requires f.mode == Reading && 4 * |data| <= WORDS
    ensures var g := Run(k, base, f, ProgramWrites(k, base, addr, data));
            && g.mode == Reading
            && (forall i :: 0 <= i < |data| && a == Plus(addr, 4 * i) ==>
                  Cell(g.cells, a) == And(Cell(f.cells, a), data[i]))
            && ((forall i :: 0 <= i < |data| ==> a != Plus(addr, 4 * i)) ==> Cell(g.cells, a) == Cell(f.cells, a))
  {
    if data != [] {
      hide Plus, And, Command, ProgramWord;
      var n := |data| - 1;
      var next := Plus(addr, 4 * n);
      BlockProgrammed(k, base, f, addr, data[..n], a);
      RunAppend(k, base, f, ProgramWrites(k, base, addr, data[..n]), ProgramWord(k, base, next, data[n]));
      WordProgrammed(k, base, Run(k, base, f, ProgramWrites(k, base, addr, data[..n])), next, data[n]);
      if a == next {
        forall i | 0 <= i < n
          ensures a != Plus(addr, 4 * i)
        {
          Apart(addr, 4 * i, 4 * n);
        }
      }
    }
  }

  // ---------------------------------------------------------------- 8-bit bus

  const CSCON3: word := 0x182F_100C

  /** MC_CSCON3_ADDR: which byte of the word an 8-bit device sees. */
  function Lane(addr: word): word { addr % 4 * 0x10_0000 }

  /** A byte-wide device: the lane register supplies the low address bits, the low data byte is taken. */
  datatype Flash8 = Flash8(flash: Flash, lane: nat)

  function ByteKit(k: FlashKit): FlashKit {
    k.(aa := k.aa % 256, c55 := k.c55 % 256, a0 := k.a0 % 256, c20 := k.c20 % 256, c90 := k.c90 % 256)
  }

  function Take(k: FlashKit, base: word, f: Flash8, w: BusWrite): Flash8 {
    if w.addr == CSCON3 then f.(lane := w.data / 0x10_0000 % 4)
    else f.(flash := Command(ByteKit(k), base, f.flash, (w.addr - w.addr % 4 + f.lane) % WORDS, w.data % 256))
  }

  function Run8(k: FlashKit, base: word, f: Flash8, ws: seq<BusWrite>): Flash8 {
    if ws == [] then f
    else Take(k, base, Run8(k, base, f, ws[..|ws| - 1]), ws[|ws| - 1])
  }

  lemma {:induction false} Run8Append(k: FlashKit, base: word, f: Flash8, a: seq<BusWrite>, b: seq<BusWrite>)
    ensures Run8(k, base, f, a + b) == Run8(k, base, Run8(k, base, f, a), b)
  {
    if b == [] {
      assert a + b == a;
    } else {
      var n := |b| - 1;
      assert (a + b)[..|a| + n] == a + b[..n];
      Run8Append(k, base, f, a, b[..n]);
    }
  }

  /** target_write_byte: the lane, then the byte. */
  function ByteWrite(cscon3: word, addr: word, v: word): seq<BusWrite>
    requires cscon3 + 0x30_0000 < WORDS
  {
    [BusWrite(CSCON3, cscon3 + Lane(addr)), BusWrite(addr, v)]
  }

  /** The lane bits of CSCON3 are clear in the value kept by the host. */
  predicate LaneClear(cscon3: word) {
    cscon3 / 0x10_0000 % 4 == 0 && cscon3 + 0x30_0000 < WORDS
  }

  lemma LaneReads(cscon3: word, addr: word)
    requires LaneClear(cscon3)
    ensures (cscon3 + Lane(addr)) / 0x10_0000 % 4 == addr % 4
  {
    var q := cscon3 / 0x10_0000;
    assert cscon3 + Lane(addr) == (q + addr % 4) * 0x10_0000 + cscon3 % 0x10_0000;
    assert (cscon3 + Lane(addr)) / 0x10_0000 == q + addr % 4;
  }

  /** The device sees one write of the low byte to exactly that address. */
  lemma ByteSeen(k: FlashKit, base: word, f: Flash8, cscon3: word, addr: word, v: word)
    requires LaneClear(cscon3) && addr != CSCON3
    ensures Run8(k, base, f, ByteWrite(cscon3, addr, v))
         == Flash8(Command(ByteKit(k), base, f.flash, addr, v % 256), addr % 4)
  {
    hide Command;
    var ws := ByteWrite(cscon3, addr, v);
    LaneReads(cscon3, addr);
    assert ws[..1] == [ws[0]] && ws[..1][..0] == [];
    assert Run8(k, base, f, ws[..1]) == f.(lane := addr % 4);
  }

  /** target_write_2bytes */
  function TwoBytes(cscon3: word, a1: word, v1: word, a2: word, v2: word): seq<BusWrite>
    requires cscon3 + 0x30_0000 < WORDS
  {
    ByteWrite(cscon3, a1, v1) + ByteWrite(cscon3, a2, v2)
  }

  lemma TwoSeen(k: FlashKit, base: word, f: Flash8, cscon3: word, a1: word, v1: word, a2: word, v2: word)
    requires LaneClear(cscon3) && a1 != CSCON3 && a2 != CSCON3
    ensures Run8(k, base, f, TwoBytes(cscon3, a1, v1, a2, v2)).flash
         == Command(ByteKit(k), base, Command(ByteKit(k), base, f.flash, a1, v1 % 256), a2, v2 % 256)
  {
    hide Command, Run8, ByteWrite, ByteKit;
    Run8Append(k, base, f, ByteWrite(cscon3, a1, v1), ByteWrite(cscon3, a2, v2));
    ByteSeen(k, base, f, cscon3, a1, v1);
    ByteSeen(k, base, Run8(k, base, f, ByteWrite(cscon3, a1, v1)), cscon3, a2, v2);
  }

  /** Values written for a block: each word, then shifted down by 8, 16 and 24 bits. */
  function Shifts(data: seq<word>): (vs: seq<word>)
    ensures |vs| == 4 * |data|
  {
    if data == [] then []
    else
      Shifts(data[..|data| - 1]) + FourShifts(data[|data| - 1])
  }

  function FourShifts(w: word): (vs: seq<word>)
    ensures |vs| == 4
  {
    [w, w / 0x100, w / 0x1_0000, w / 0x100_0000]
  }

  lemma ShiftsNext(data: seq<word>, i: nat)
    requires i < |data|
    ensures Shifts(data[..i + 1]) == Shifts(data[..i]) + FourShifts(data[i])
  {
    assert data[..i + 1][..i] == data[..i];
  }

  /** The program command and the value, for every byte. */
  function ByteWrites(k: FlashKit, cscon3: word, addr: word, vs: seq<word>): seq<BusWrite>
    requires cscon3 + 0x30_0000 < WORDS
  {
    if vs == [] then []
    else
      var n := |vs| - 1;
      ByteWrites(k, cscon3, addr, vs[..n]) + TwoBytes(cscon3, Plus(addr, n), k.a0, Plus(addr, n), vs[n])
  }

  lemma ByteNext(k: FlashKit, cscon3: word, addr: word, vs: seq<word>, i: nat)
    requires cscon3 + 0x30_0000 < WORDS && i < |vs|
    ensures ByteWrites(k, cscon3, addr, vs[..i + 1])
         == ByteWrites(k, cscon3, addr, vs[..i]) + TwoBytes(cscon3, Plus(addr, i), k.a0, Plus(addr, i), vs[i])
  {
    assert vs[..i + 1][..i] == vs[..i];
  }

  lemma {:induction false} ByteWritesAppend(k: FlashKit, cscon3: word, addr: word, a: seq<word>, b: seq<word>)
    requires cscon3 + 0x30_0000 < WORDS
    ensures ByteWrites(k, cscon3, addr, a + b)
         == ByteWrites(k, cscon3, addr, a) + ByteWrites(k, cscon3, Plus(addr, |a|), b)
  {
    if b == [] {
      assert a + b == a;
    } else {
      var n := |b| - 1;
      assert (a + b)[..|a| + n] == a + b[..n];
      ByteWritesAppend(k, cscon3, addr, a, b[..n]);
      PlusPlus(addr, |a|, n);
    }
  }

  /** target_program_block8: unlock bypass, the bytes, reset of unlock bypass. */
  function ProgramWrites8(k: FlashKit, cscon3: word, base: word, addr: word, data: seq<word>): seq<BusWrite>
    requires cscon3 + 0x30_0000 < WORDS
  {
    Unlock(k, cscon3, base) + ByteWrites(k, cscon3, addr, Shifts(data)) + TwoBytes(cscon3, base, k.c90, base, 0)
  }

  function Unlock(k: FlashKit, cscon3: word, base: word): seq<BusWrite>
    requires cscon3 + 0x30_0000 < WORDS
  {
    TwoBytes(cscon3, Plus(base, k.odd), k.aa, Plus(base, k.even), k.c55) + ByteWrite(cscon3, Plus(base, k.odd), k.c20)
  }

  /** The low bytes of the bypass commands are told apart from the program command. */
  predicate Bypassable(k: FlashKit) {
    k.c20 % 256 != k.a0 % 256 && k.c90 % 256 != k.a0 % 256
  }

  /** The command addresses and the block stay clear of the lane register. */
  predicate ClearOfLane(k: FlashKit, base: word, addr: word, n: nat) {
    && Plus(base, k.odd) != CSCON3 && Plus(base, k.even) != CSCON3 && base != CSCON3
    && forall i :: 0 <= i < n ==> Plus(addr, i) != CSCON3
  }

  lemma Unlocks(k: FlashKit, base: word, f: Flash8, cscon3: word)
    requires LaneClear(cscon3) && Plus(base, k.odd) != CSCON3 && Plus(base, k.even) != CSCON3
    requires f.flash.mode == Reading && Bypassable(k)
    ensures Run8(k, base, f, Unlock(k, cscon3, base)).flash == f.flash.(mode := Bypass)
  {
    hide Run8, ByteWrite, TwoBytes;
    var ws := TwoBytes(cscon3, Plus(base, k.odd), k.aa, Plus(base, k.even), k.c55);
    Run8Append(k, base, f, ws, ByteWrite(cscon3, Plus(base, k.odd), k.c20));
    TwoSeen(k, base, f, cscon3, Plus(base, k.odd), k.aa, Plus(base, k.even), k.c55);
    ByteSeen(k, base, Run8(k, base, f, ws), cscon3, Plus(base, k.odd), k.c20);
  }

  lemma ByteProgrammed(k: FlashKit, base: word, f: Flash8, cscon3: word, a: word, v: word)
    requires LaneClear(cscon3) && a != CSCON3 && f.flash.mode == Bypass
    ensures Run8(k, base, f, TwoBytes(cscon3, a, k.a0, a, v)).flash
         == Flash(f.flash.cells[a := And(Cell(f.flash.cells, a), v % 256)], Bypass)
  {
    hide Run8, TwoBytes;
    TwoSeen(k, base, f, cscon3, a, k.a0, a, v);
  }

  /** One byte more, seen from address a. */
  lemma ByteSeenAt(k: FlashKit, base: word, f: Flash8, cscon3: word, addr: word, vs: seq<word>, a: word)
    requires LaneClear(cscon3) && vs != [] && Plus(addr, |vs| - 1) != CSCON3
    requires Run8(k, base, f, ByteWrites(k, cscon3, addr, vs[..|vs| - 1])).flash.mode == Bypass
    ensures var n := |vs| - 1;
            var before := Run8(k, base, f, ByteWrites(k, cscon3, addr, vs[..n])).flash;
            var after := Run8(k, base, f, ByteWrites(k, cscon3, addr, vs)).flash;
            && after.mode == Bypass
            && Cell(after.cells, a)
               == if a == Plus(addr, n) then And(Cell(before.cells, a), vs[n] % 256) else Cell(before.cells, a)
  {
    hide Plus, And, Run8, TwoBytes, ByteWrites;
    var n := |vs| - 1;
    var next, before := Plus(addr, n), ByteWrites(k, cscon3, addr, vs[..n]);
    ByteNext(k, cscon3, addr, vs, n);
    assert vs[..n + 1] == vs;
    Run8Append(k, base, f, before, TwoBytes(cscon3, next, k.a0, next, vs[n]));
    ByteProgrammed(k, base, Run8(k, base, f, before), cscon3, next, vs[n]);
  }

  lemma NothingSent(k: FlashKit, base: word, f: Flash8, cscon3: word, addr: word)
    requires LaneClear(cscon3)
    ensures Run8(k, base, f, ByteWrites(k, cscon3, addr, [])) == f
  {
  }

  lemma {:induction false} BytesProgrammed(k: FlashKit, base: word, f: Flash8, cscon3: word, addr: word, vs: seq<word>, a: word)
    requires LaneClear(cscon3) && f.flash.mode == Bypass && |vs| <= WORDS
    requires forall i :: 0 <= i < |vs| ==> Plus(addr, i) != CSCON3
    ensures var g := Run8(k, base, f, ByteWrites(k, cscon3, addr, vs)).flash;
            && g.mode == Bypass
            && (forall i :: 0 <= i < |vs| && a == Plus(addr, i) ==>
                  Cell(g.cells, a) == And(Cell(f.flash.cells, a), vs[i] % 256))
            && ((forall i :: 0 <= i < |vs| ==> a != Plus(addr, i)) ==> Cell(g.cells, a) == Cell(f.flash.cells, a))
  {
    hide Plus, And, Run8, ByteWrites, Cell;
    if vs == [] {
      NothingSent(k, base, f, cscon3, addr);
    } else {
      var n := |vs| - 1;
      BytesProgrammed(k, base, f, cscon3, addr, vs[..n], a);
      ByteSeenAt(k, base, f, cscon3, addr, vs, a);
      if a == Plus(addr, n) {
        forall i | 0 <= i < n
          ensures a != Plus(addr, i)
        {
          Apart(addr, i, n);
        }
      }
    }
  }

  /** Value 4*i+j is word i shifted down by 8*j: its low byte is byte j of the word. */
  lemma {:induction false} ShiftAt(data: seq<word>, i: nat, j: nat)
    requires i < |data| && j < 4
    ensures Shifts(data)[4 * i + j] % 256 == ByteIn(data[i], j)
  {
    if i < |data| - 1 {
      ShiftAt(data[..|data| - 1], i, j);
    } else {
      ShiftBytes(data[i], j);
    }
  }

  lemma ShiftBytes(w: word, j: nat)
    requires j < 4
    ensures FourShifts(w)[j] % 256 == ByteIn(w, j)
  {
    assert w / 0x1_0000 == w / 256 / 256 && w / 0x100_0000 == w / 256 / 256 / 256;
    if j > 1 {
      assert ByteIn(w, j) == ByteIn(w / 256 / 256, j - 2);
    }
  }

  /** Byte by byte: old & data, all others alone, and the chip back in read mode. */
  lemma Block8Programmed(k: FlashKit, base: word, f: Flash8, cscon3: word, addr: word, data: seq<word>, a: word)
    requires LaneClear(cscon3) && f.flash.mode == Reading && Bypassable(k) && 4 * |data| <= WORDS
    requires ClearOfLane(k, base, addr, 4 * |data|)
    ensures var g := Run8(k, base, f, ProgramWrites8(k, cscon3, base, addr, data)).flash;
            && g.mode == Reading
            && (forall i :: 0 <= i < 4 * |data| && a == Plus(addr, i) ==>
                  Cell(g.cells, a) == And(Cell(f.flash.cells, a), ByteIn(data[i / 4], i % 4)))
            && ((forall i :: 0 <= i < 4 * |data| ==> a != Plus(addr, i)) ==>
                  Cell(g.cells, a) == Cell(f.flash.cells, a))
  {
    hide Run8, ByteWrites, TwoBytes, Unlock, And, Plus, Shifts, ByteIn;
    var ws1, ws2 := Unlock(k, cscon3, base), ByteWrites(k, cscon3, addr, Shifts(data));
    var ws3 := TwoBytes(cscon3, base, k.c90, base, 0);
    Unlocks(k, base, f, cscon3);
    Run8Append(k, base, f, ws1 + ws2, ws3);
    Run8Append(k, base, f, ws1, ws2);
    var f1 := Run8(k, base, f, ws1);
    BytesProgrammed(k, base, f1, cscon3, addr, Shifts(data), a);
    TwoSeen(k, base, Run8(k, base, f1, ws2), cscon3, base, k.c90, base, 0);
    forall i | 0 <= i < 4 * |data|
      ensures Shifts(data)[i] % 256 == ByteIn(data[i / 4], i % 4)
    {
      ShiftAt(data, i / 4, i % 4);
    }
  }

  // ---------------------------------------------------------------- Known sequences

  /** Two 16-bit chips on a 32-bit bus, and one 8-bit chip (target.c:955-968, 1041-1057). */
  const TWO_CHIPS: FlashKit :=
    FlashKit(0x1_5554, 0xaaa8, 0x00aa_00aa, 0x0055_0055, 0x00a0_00a0, 0x0020_0020, 0x0090_0090)
  const ONE_CHIP: FlashKit :=
    FlashKit(0xaaa, 0x555, 0xaaaa_aaaa, 0x5555_5555, 0xa0a0_a0a0, 0x2020_2020, 0x9090_9090)

  /** One word, in the boot flash at 0x1fc00000. */
  lemma KnownProgramming(a: word, v: word)
    ensures ProgramWrites(TWO_CHIPS, 0x1fc0_0000, a, [v])
         == [BusWrite(0x1fc1_5554, 0x00aa_00aa), BusWrite(0x1fc0_aaa8, 0x0055_0055),
             BusWrite(0x1fc1_5554, 0x00a0_00a0), BusWrite(a, v)]
  {
    assert [v][..0] == [];
    assert ProgramWrites(TWO_CHIPS, 0x1fc0_0000, a, [v]) == [] + ProgramWord(TWO_CHIPS, 0x1fc0_0000, Plus(a, 0), v);
  }

  /** Unlock bypass of the 8-bit chip; the lane is address bits 1 and 0 in bits 21 and 20. */
  lemma KnownUnlock()
    ensures Unlock(ONE_CHIP, 0, 0x1fc0_0000)
         == [BusWrite(0x182f_100c, 0x20_0000), BusWrite(0x1fc0_0aaa, 0xaaaa_aaaa),
             BusWrite(0x182f_100c, 0x10_0000), BusWrite(0x1fc0_0555, 0x5555_5555),
             BusWrite(0x182f_100c, 0x20_0000), BusWrite(0x1fc0_0aaa, 0x2020_2020)]
  {
  }

  /** Byte 3 of a block at 0x1fc00100 in bypass mode. */
  lemma KnownByte(v: word)
    ensures TwoBytes(0, 0x1fc0_0103, ONE_CHIP.a0, 0x1fc0_0103, v)
         == [BusWrite(0x182f_100c, 0x30_0000), BusWrite(0x1fc0_0103, 0xa0a0_a0a0),
             BusWrite(0x182f_100c, 0x30_0000), BusWrite(0x1fc0_0103, v)]
  {
  }
}
