/**
 Register and memory access to a stopped MC12 core (target.c).

 Every access is made of OnCD writes and single-stepped instructions that use
 GP as base, FP as scratch and word 0 of CRAM as mailbox.  Each method says
 what it does to the whole device; what the user of the debugger sees of it is
 the matter of module Debugger.
 */
module Target {
  import opened Words
  import opened Chip

  // --- Instruction words (mips.h:20-54).  Fields never overlap, so `|` is `+`.
  const MIPS_NOP: word := 0
  const MIPS_SLL: word := 0
  const MIPS_JR: word := 0x8
  const MIPS_MFHI: word := 0x10
  const MIPS_MTHI: word := 0x11
  const MIPS_MFLO: word := 0x12
  const MIPS_MTLO: word := 0x13
  const MIPS_ADDI: word := 0x8 * OPCODE
  const MIPS_ORI: word := 0xd * OPCODE
  const MIPS_LUI: word := 15 * OPCODE
  const MIPS_SW: word := 0x2b * OPCODE
  const MIPS_SWC1: word := 0x39 * OPCODE
  const MIPS_MFC0: word := 0x10 * OPCODE
  const MIPS_MTC0: word := 0x10 * OPCODE + 4 * BIT21
  const MIPS_CFC1: word := 0x11 * OPCODE + 2 * BIT21
  const MIPS_MTC1: word := 0x11 * OPCODE + 4 * BIT21
  const MIPS_CTC1: word := 0x11 * OPCODE + 6 * BIT21

  const OPCODE: int := 0x400_0000
  const BIT21: int := 0x20_0000
  const BIT16: int := 0x1_0000
  const BIT11: int := 0x800
  const BIT6: int := 0x40

  const CRAM_ADDR: word := 0xb800_0000
  const BOOT_ADDR: word := 0xbfc0_0000
  const GP: word := 28
  const FP: word := 30
  const CP0_BADVADDR: word := 8
  const CP0_STATUS: word := 12
  const CP0_CAUSE: word := 13
  const CP1_FIR: word := 0
  const CP1_FCSR: word := 31

  /** Physical address that target_read_next and target_write_next put in OMAR. */
  function Phys(a: word): word {
    if a >= 0xA000_0000 then a - 0xA000_0000
    else if a >= 0x8000_0000 then a - 0x8000_0000
    else a
  }

  /** Where the mailbox lives, for the debug unit and for the core alike. */
  const CRAM_WORD: word := 0x1800_0000

  // ------------------------------------------------ What the instruction words mean

  /** Field extraction from an instruction assembled field by field. */
  lemma Fields(op: int, rs: int, rt: int, imm: int)
    requires 0 <= op < 64 && 0 <= rs < 32 && 0 <= rt < 32 && 0 <= imm < 0x1_0000
    ensures var i := op * OPCODE + rs * BIT21 + rt * BIT16 + imm;
            0 <= i < WORDS
            && i / 0x400_0000 == op && i / 0x20_0000 % 32 == rs && i / 0x1_0000 % 32 == rt && i % 0x1_0000 == imm
  {
    var i := ((op * 32 + rs) * 32 + rt) * 0x1_0000 + imm;
    assert i == op * OPCODE + rs * BIT21 + rt * BIT16 + imm;
    assert i / 0x1_0000 == (op * 32 + rs) * 32 + rt;
  }

  lemma LowFields(rd: int, sa: int, funct: int)
    requires 0 <= rd < 32 && 0 <= sa < 32 && 0 <= funct < 64
    ensures var imm := rd * BIT11 + sa * BIT6 + funct;
            0 <= imm < 0x1_0000 && imm / 0x800 == rd && imm / 0x40 % 32 == sa && imm % 0x40 == funct
  {
  }

  lemma StoreWords(r: word)
    requires r < 32
    ensures Decode(MIPS_SW + GP * BIT21 + r * BIT16) == Sw(r, GP, 0)
    ensures Decode(MIPS_SWC1 + GP * BIT21 + r * BIT16) == Swc1(r, GP, 0)
  {
    Fields(0x2b, GP, r, 0);
    Fields(0x39, GP, r, 0);
  }

  /** The ADDI, SLL, ORI triple of target_write_reg. */
  function LoadHigh(r: word, v: word): word
    requires r < 32
  {
    MIPS_ADDI + r * BIT16 + v / 0x1_0000
  }

  function ShiftUp(r: word): word
    requires r < 32
  {
    MIPS_SLL + r * BIT11 + r * BIT16 + 16 * BIT6
  }

  function OrLow(r: word, v: word): word
    requires r < 32
  {
    MIPS_ORI + r * BIT16 + r * BIT21 + v % 0x1_0000
  }

  lemma TripleWords(r: word, v: word)
    requires r < 32
    ensures Decode(LoadHigh(r, v)) == Addi(r, 0, v / 0x1_0000)
    ensures Decode(ShiftUp(r)) == Sll(r, r, 16)
    ensures Decode(OrLow(r, v)) == Ori(r, r, v % 0x1_0000)
  {
    Fields(0x08, 0, r, v / 0x1_0000);
    LowFields(r, 16, 0);
    Fields(0, 0, r, r * BIT11 + 16 * BIT6);
    Fields(0x0d, r, r, v % 0x1_0000);
  }

  lemma MoveWords(r: word)
    requires r < 32
    ensures Decode(MIPS_MFC0 + FP * BIT16 + r * BIT11) == Mfc0(FP, r)
    ensures Decode(MIPS_MTC0 + FP * BIT16 + r * BIT11) == Mtc0(FP, r)
    ensures Decode(MIPS_CFC1 + FP * BIT16 + r * BIT11) == Cfc1(FP, r)
    ensures Decode(MIPS_CTC1 + FP * BIT16 + r * BIT11) == Ctc1(FP, r)
    ensures Decode(MIPS_MTC1 + FP * BIT16 + r * BIT11) == Mtc1(FP, r)
  {
    LowFields(r, 0, 0);
    Fields(0x10, 0, FP, r * BIT11);
    Fields(0x10, 4, FP, r * BIT11);
    Fields(0x11, 2, FP, r * BIT11);
    Fields(0x11, 6, FP, r * BIT11);
    Fields(0x11, 4, FP, r * BIT11);
  }

  lemma FixedWords()
    ensures Decode(MIPS_NOP) == Sll(0, 0, 0)
    ensures Decode(MIPS_MFLO + FP * BIT11) == Mflo(FP)
    ensures Decode(MIPS_MFHI + FP * BIT11) == Mfhi(FP)
    ensures Decode(MIPS_MTLO + FP * BIT21) == Mtlo(FP)
    ensures Decode(MIPS_MTHI + FP * BIT21) == Mthi(FP)
    ensures Decode(MIPS_JR + GP * BIT21) == Jr(GP)
    ensures Decode(MIPS_LUI + GP * BIT16 + CRAM_ADDR / 0x1_0000) == Lui(GP, 0xb800)
  {
  }

  lemma HighHalf(v: word)
    ensures SignExtend(v / 0x1_0000) * 0x1_0000 % WORDS == v / 0x1_0000 * 0x1_0000
  {
    var hi := v / 0x1_0000;
    var low := hi * 0x1_0000;
    if hi >= 0x8000 {
      assert SignExtend(hi) * 0x1_0000 == low + 0xffff * WORDS;
      assert (low + 0xffff * WORDS) % WORDS == low;
    } else {
      assert SignExtend(hi) == hi;
    }
  }

  lemma HalvesMakeTheWord(v: word)
    ensures Or(v / 0x1_0000 * 0x1_0000, v % 0x1_0000) == v
  {
    Pow16();
    OrDisjoint(v / 0x1_0000, 16, v % 0x1_0000);
  }

  lemma ShiftSixteen(c: Cpu, r: word)
    ensures Execute(c, Sll(r, r, 16)) == SetGpr(c, r, Gpr(c, r) * 0x1_0000 % WORDS)
  {
    Pow16();
  }

  lemma SetGprTwice(c: Cpu, r: word, u: word, v: word)
    ensures SetGpr(SetGpr(c, r, u), r, v) == SetGpr(c, r, v)
  {
    assert c.gpr[r := u][r := v] == c.gpr[r := v];
  }

  lemma AfterAddi(c: Cpu, r: word, hi: word)
    ensures Execute(c, Addi(r, 0, hi)) == SetGpr(c, r, SignExtend(hi))
  {
    assert Gpr(c, 0) == 0;
    assert !AddOverflows(0, SignExtend(hi));
  }

  lemma AfterSll(c: Cpu, r: word, h: word, k: word)
    requires k == h * 0x1_0000 % WORDS
    ensures Execute(SetGpr(c, r, h), Sll(r, r, 16)) == SetGpr(c, r, k)
  {
    ShiftSixteen(SetGpr(c, r, h), r);
    SetGprTwice(c, r, h, k);
  }

  lemma AfterOri(c: Cpu, r: word, k: word, low: word, v: word)
    requires v == Or(k, low)
    ensures Execute(SetGpr(c, r, k), Ori(r, r, low)) == SetGpr(c, r, v)
  {
    SetGprTwice(c, r, k, v);
  }

  /**
   Whatever the register held and whatever the sign bits of v's halves,
   executing the triple leaves exactly v in register r.
   */
  lemma TripleLoads(c: Cpu, r: word, v: word)
    requires r < 32
    ensures Execute(Execute(Execute(c, Decode(LoadHigh(r, v))), Decode(ShiftUp(r))), Decode(OrLow(r, v)))
         == SetGpr(c, r, v)
  {
    TripleWords(r, v);
    HighHalf(v);
    HalvesMakeTheWord(v);
    var hi, k := v / 0x1_0000, v / 0x1_0000 * 0x1_0000;
    AfterAddi(c, r, hi);
    AfterSll(c, r, SignExtend(hi), k);
    AfterOri(c, r, k, v % 0x1_0000, v);
  }

  // ----------------------------------------------------------- The device, one operation at a time

  /** The device after `target_exec (instr)`. */
  function Supplied(d: Oncd, instr: word): Oncd {
    Step(d.(pcfetch := BOOT_ADDR, irdec := instr))
  }

  /** Memory after storing v through the base register GP. */
  function Posted(d: Oncd, v: word): map<word, word> {
    StoreAt(d.mem, Gpr(d.cpu, GP), v)
  }

  /** The parts of the debug unit that register and memory access never touches. */
  ghost predicate Undisturbed(d: Oncd, d': Oncd) {
    d'.pcexec == d.pcexec && d'.obcr == d.obcr && d'.omlr0 == d.omlr0 && d'.omlr1 == d.omlr1
  }

  /** The adapter: the port to the device, and the shadow of OSCR kept on the host. */
  class Adapter {
    var chip: Oncd
    var oscr: word
    const blockWords: nat  // most words its block functions take at once; 0 when it has none
    const programBlockWords: nat
    const writesNwords: bool  // does it have a function for words at scattered addresses?

    /** The shadow tells the truth about the two bits that steer memory cycles. */
    ghost predicate Synced()
      reads this
    {
      Has(oscr, SLCT_MEM) == Has(chip.oscr, SLCT_MEM) && Has(oscr, RO) == Has(chip.oscr, RO)
    }

    constructor (d: Oncd, words: nat, programWords: nat, nwords: bool)
      ensures chip == d && oscr == 0
      ensures blockWords == words && programBlockWords == programWords && writesNwords == nwords
    {
      chip, oscr, blockWords, programBlockWords, writesNwords := d, 0, words, programWords, nwords;
    }

    method OncdWrite(v: word, cmd: word)
      modifies this`chip
      ensures chip == Write(old(chip), v, cmd)
    {
      chip := Write(chip, v, cmd);
    }

    method OncdRead(cmd: word) returns (v: word)
      ensures v == Read(chip, cmd)
    {
      v := Read(chip, cmd);
    }
  }

  /** Execution of one MIPS32 instruction. */
  method Exec(a: Adapter, instr: word)
    modifies a`chip
    ensures a.chip == Supplied(old(a.chip), instr)
  {
    a.OncdWrite(BOOT_ADDR, PCFETCH);
    a.OncdWrite(instr, IRDEC);
    a.OncdWrite(0, GO + FLUSH_PIPE + STEP_1CLK);
  }

  // ---------------------------------------------------------------- Memory words

  method ReadStart(a: Adapter)
    requires a.Synced()
    modifies a
    ensures a.Synced() && Has(a.oscr, SLCT_MEM) && Has(a.oscr, RO)
    ensures a.chip == old(a.chip).(oscr := a.chip.oscr)
  {
    SelectRead(a.oscr);
    var oscrNew := Set(Set(a.oscr, SLCT_MEM), RO);
    if oscrNew != a.oscr {
      a.oscr := oscrNew;
      a.OncdWrite(a.oscr, OSCR);
    }
  }

  /** The memory cycle is complete when OSCR is read back, so one poll for RDYm suffices. */
  method ReadNext(a: Adapter, addr: word) returns (data: word)
    requires a.Synced() && Has(a.oscr, SLCT_MEM) && Has(a.oscr, RO)
    modifies a
    ensures a.Synced() && Has(a.oscr, SLCT_MEM) && Has(a.oscr, RO)
    ensures data == Cell(old(a.chip.mem), Phys(addr))
    ensures a.chip == old(a.chip).(oscr := a.chip.oscr, omar := Phys(addr), omdr := data)
  {
    var physAddr := Phys(addr);
    ReadyKeepsSelection(a.chip.oscr);
    a.OncdWrite(physAddr, OMAR);
    a.OncdWrite(0, MEM);
    a.oscr := a.OncdRead(OSCR);
    data := a.OncdRead(OMDR);
  }

  method ReadWord(a: Adapter, addr: word) returns (data: word)
    requires a.Synced()
    modifies a
    ensures a.Synced()
    ensures data == Cell(old(a.chip.mem), Phys(addr))
    ensures a.chip == old(a.chip).(oscr := a.chip.oscr, omar := Phys(addr), omdr := data)
  {
    ReadStart(a);
    data := ReadNext(a, addr);
  }

  method WriteNext(a: Adapter, addr: word, data: word)
    requires a.Synced() && Has(a.oscr, SLCT_MEM) && !Has(a.oscr, RO)
    modifies a`chip
    ensures a.Synced()
    ensures a.chip == old(a.chip).(oscr := a.chip.oscr, omar := Phys(addr), omdr := data,
                                   mem := old(a.chip.mem)[Phys(addr) := data],
                                   bus := old(a.chip.bus) + [BusWrite(Phys(addr), data)])
  {
    var physAddr := Phys(addr);
    ReadyKeepsSelection(a.chip.oscr);
    a.OncdWrite(physAddr, OMAR);
    a.OncdWrite(data, OMDR);
    a.OncdWrite(0, MEM);
  }

  /** Allow memory access for writing. */
  method WriteStart(a: Adapter)
    requires a.Synced()
    modifies a
    ensures a.Synced() && Has(a.oscr, SLCT_MEM) && !Has(a.oscr, RO)
    ensures a.chip == old(a.chip).(oscr := a.chip.oscr)
  {
    SelectWrite(a.oscr);
    var oscrNew := Set(Clear(a.oscr, RO), SLCT_MEM);
    if oscrNew != a.oscr {
      a.oscr := oscrNew;
      a.OncdWrite(a.oscr, OSCR);
    }
  }

  method WriteWord(a: Adapter, addr: word, data: word)
    requires a.Synced()
    modifies a
    ensures a.Synced() && Has(a.oscr, SLCT_MEM) && !Has(a.oscr, RO)
    ensures a.chip == old(a.chip).(oscr := a.chip.oscr, omar := Phys(addr), omdr := data,
                                   mem := old(a.chip.mem)[Phys(addr) := data],
                                   bus := old(a.chip.bus) + [BusWrite(Phys(addr), data)])
  {
    WriteStart(a);
    WriteNext(a, addr, data);
  }

  // ------------------------------------------------------------ Registers of the stopped core

  /**
   Some number of steps and memory cycles took d to d', with the pipeline empty,
   leaving the core's registers and memory as given.
   */
  ghost predicate Became(d: Oncd, d': Oncd, cpu: Cpu, mem: map<word, word>) {
    d'.cpu == cpu && d'.mem == mem && d'.inflight == [] && Undisturbed(d, d')
  }

  lemma NopSupplied(d: Oncd)
    requires d.inflight == []
    ensures Became(d, Supplied(d, MIPS_NOP), d.cpu, d.mem)
    ensures Supplied(d, MIPS_NOP).oscr == d.oscr
    ensures Supplied(d, MIPS_NOP).pcfetch == BOOT_ADDR + 4
  {
    FixedWords();
  }

  method Nops(a: Adapter, n: nat)
    requires a.Synced() && a.chip.inflight == []
    modifies a`chip
    ensures a.Synced() && Became(old(a.chip), a.chip, old(a.chip.cpu), old(a.chip.mem))
  {
    for i := 0 to n
      invariant a.Synced() && Became(old(a.chip), a.chip, old(a.chip.cpu), old(a.chip.mem))
    {
      NopSupplied(a.chip);
      Exec(a, MIPS_NOP);
    }
  }

  /** Reading a general register: stored through GP, fetched from word 0 of CRAM. */
  method ReadReg(a: Adapter, regno: word) returns (val: word)
    requires a.Synced() && a.chip.inflight == [] && regno < 32
    modifies a
    ensures var d, r := old(a.chip), Gpr(old(a.chip.cpu), regno);
            a.Synced() && Became(d, a.chip, d.cpu, Posted(d, r)) && val == Cell(Posted(d, r), CRAM_WORD)
  {
    StoreWords(regno);
    Exec(a, MIPS_SW + GP * BIT21 + regno * BIT16);
    Nops(a, 3);
    val := ReadWord(a, CRAM_ADDR);
  }

  method WriteReg(a: Adapter, regno: word, val: word)
    requires a.Synced() && a.chip.inflight == [] && regno < 32
    modifies a`chip
    ensures a.Synced()
    ensures Became(old(a.chip), a.chip, SetGpr(old(a.chip.cpu), regno, val), old(a.chip.mem))
  {
    TripleWords(regno, val);
    TripleLoads(a.chip.cpu, regno, val);
    Exec(a, LoadHigh(regno, val));
    Exec(a, ShiftUp(regno));
    Exec(a, OrLow(regno, val));
  }

  method ReadCp0(a: Adapter, regno: word) returns (val: word)
    requires a.Synced() && a.chip.inflight == [] && regno < 32
    modifies a
    ensures var d, r := old(a.chip), Cell(old(a.chip.cpu.cp0), regno);
            a.Synced() && Became(d, a.chip, SetGpr(d.cpu, FP, r), Posted(d, r))
            && val == Cell(Posted(d, r), CRAM_WORD)
  {
    MoveWords(regno);
    Exec(a, MIPS_MFC0 + FP * BIT16 + regno * BIT11);
    Nops(a, 2);
    val := ReadReg(a, FP);
  }

  method WriteCp0(a: Adapter, regno: word, val: word)
    requires a.Synced() && a.chip.inflight == [] && regno < 32
    modifies a`chip
    ensures a.Synced()
    ensures var d := old(a.chip);
            var c := SetGpr(d.cpu, FP, val);
            Became(d, a.chip, c.(cp0 := c.cp0[regno := val]), d.mem)
  {
    MoveWords(regno);
    WriteReg(a, FP, val);
    Exec(a, MIPS_MTC0 + FP * BIT16 + regno * BIT11);
    Nops(a, 1);
  }

  method ReadFpu(a: Adapter, regno: word) returns (val: word)
    requires a.Synced() && a.chip.inflight == [] && regno < 32
    modifies a
    ensures var d, r := old(a.chip), Cell(old(a.chip.cpu.fpr), regno);
            a.Synced() && Became(d, a.chip, d.cpu, Posted(d, r)) && val == Cell(Posted(d, r), CRAM_WORD)
  {
    StoreWords(regno);
    Exec(a, MIPS_SWC1 + GP * BIT21 + regno * BIT16);
    Nops(a, 3);
    val := ReadWord(a, CRAM_ADDR);
  }

  method WriteFpu(a: Adapter, regno: word, val: word)
    requires a.Synced() && a.chip.inflight == [] && regno < 32
    modifies a`chip
    ensures a.Synced()
    ensures var d := old(a.chip);
            var c := SetGpr(d.cpu, FP, val);
            Became(d, a.chip, c.(fpr := c.fpr[regno := val]), d.mem)
  {
    MoveWords(regno);
    WriteReg(a, FP, val);
    Exec(a, MIPS_MTC1 + FP * BIT16 + regno * BIT11);
    Nops(a, 1);
  }

  method ReadFpuCtl(a: Adapter, regno: word) returns (val: word)
    requires a.Synced() && a.chip.inflight == [] && regno < 32
    modifies a
    ensures var d, r := old(a.chip), Cell(old(a.chip.cpu.fcr), regno);
            a.Synced() && Became(d, a.chip, SetGpr(d.cpu, FP, r), Posted(d, r))
            && val == Cell(Posted(d, r), CRAM_WORD)
  {
    MoveWords(regno);
    Exec(a, MIPS_CFC1 + FP * BIT16 + regno * BIT11);
    Nops(a, 2);
    val := ReadReg(a, FP);
  }

  method WriteFpuCtl(a: Adapter, regno: word, val: word)
    requires a.Synced() && a.chip.inflight == [] && regno < 32
    modifies a`chip
    ensures a.Synced()
    ensures var d := old(a.chip);
            var c := SetGpr(d.cpu, FP, val);
            Became(d, a.chip, c.(fcr := c.fcr[regno := val]), d.mem)
  {
    MoveWords(regno);
    WriteReg(a, FP, val);
    Exec(a, MIPS_CTC1 + FP * BIT16 + regno * BIT11);
    Nops(a, 1);
  }

  /** LO when `high` is false, HI when it is true. */
  method ReadHiLo(a: Adapter, high: bool) returns (val: word)
    requires a.Synced() && a.chip.inflight == []
    modifies a
    ensures var d, r := old(a.chip), if high then old(a.chip.cpu.hi) else old(a.chip.cpu.lo);
            a.Synced() && Became(d, a.chip, SetGpr(d.cpu, FP, r), Posted(d, r))
            && val == Cell(Posted(d, r), CRAM_WORD)
  {
    FixedWords();
    if high {
      Exec(a, MIPS_MFHI + FP * BIT11);
    } else {
      Exec(a, MIPS_MFLO + FP * BIT11);
    }
    val := ReadReg(a, FP);
  }

  method WriteHiLo(a: Adapter, high: bool, val: word)
    requires a.Synced() && a.chip.inflight == []
    modifies a`chip
    ensures a.Synced()
    ensures var d := old(a.chip);
            var c := SetGpr(d.cpu, FP, val);
            Became(d, a.chip, if high then c.(hi := val) else c.(lo := val), d.mem)
  {
    FixedWords();
    WriteReg(a, FP, val);
    Nops(a, 1);
    if high {
      Exec(a, MIPS_MTHI + FP * BIT21);
    } else {
      Exec(a, MIPS_MTLO + FP * BIT21);
    }
    Nops(a, 1);
  }
}
