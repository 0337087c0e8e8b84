/**
 Transparent debugging of a stopped MC12 core (target.c:195-620).

 `Debugger.Logical` is the machine the debugger shows its user.  Stopping the
 core makes it the machine that was stopped, every access keeps it except for
 the write asked for, and resuming puts exactly it back into the hardware.
 */
module Debugger {
  import opened Words
  import opened Chip
  import opened Target

  // ------------------------------------------------------------ What the user sees

  /** The architectural machine: registers, memory and the address to resume at. */
  datatype Arch = Arch(cpu: Cpu, mem: map<word, word>, pc: word)

  ghost predicate SameCpu(c: Cpu, c': Cpu) {
    (forall r: word :: r != 0 ==> Cell(c.gpr, r) == Cell(c'.gpr, r)) && c.hi == c'.hi && c.lo == c'.lo
    && Same(c.cp0, c'.cp0) && Same(c.fpr, c'.fpr) && Same(c.fcr, c'.fcr)
  }

  ghost predicate SameArch(m: Arch, m': Arch) {
    SameCpu(m.cpu, m'.cpu) && Same(m.mem, m'.mem) && m.pc == m'.pc
  }

  /** First exception among the instructions in flight. */
  function FirstFault(inflight: seq<word>): word {
    if inflight == [] then NO_EXCEPTION
    else if inflight[0] != NO_EXCEPTION then inflight[0]
    else FirstFault(inflight[1..])
  }

  /** What a stopped device will go on to run. */
  function ArchOf(d: Oncd): Arch {
    var fault := FirstFault(d.inflight);
    Arch(d.cpu, d.mem, if fault != NO_EXCEPTION then fault else d.pcdec)
  }

  /**
   At most three instructions are in flight, none when the exec stage is empty, and
   no exception vector is the address after the one steps are taken from.
   */
  ghost predicate Plausible(d: Oncd) {
    |d.inflight| <= 3 && (d.pcexec == 0 ==> d.inflight == []) && BOOT_ADDR + 4 !in d.inflight
  }

  /** Register `regno` in the debugger's numbering (target.c:455-467). */
  function ArchRead(m: Arch, regno: word): word {
    if regno <= 31 then Gpr(m.cpu, regno)
    else if regno == 32 then Cell(m.cpu.cp0, CP0_STATUS)
    else if regno == 33 then m.cpu.lo
    else if regno == 34 then m.cpu.hi
    else if regno == 35 then Cell(m.cpu.cp0, CP0_BADVADDR)
    else if regno == 36 then Cell(m.cpu.cp0, CP0_CAUSE)
    else if regno == 37 then m.pc
    else if regno <= 69 then Cell(m.cpu.fpr, regno - 38)
    else if regno == 70 then Cell(m.cpu.fcr, CP1_FCSR)
    else if regno == 71 then Cell(m.cpu.fcr, CP1_FIR)
    else 0
  }

  /** BADVADDR and FIR cannot be changed, and neither can register 0. */
  function ArchWrite(m: Arch, regno: word, v: word): Arch {
    var c := m.cpu;
    if regno <= 31 then m.(cpu := SetGpr(c, regno, v))
    else if regno == 32 then m.(cpu := c.(cp0 := c.cp0[CP0_STATUS := v]))
    else if regno == 33 then m.(cpu := c.(lo := v))
    else if regno == 34 then m.(cpu := c.(hi := v))
    else if regno == 36 then m.(cpu := c.(cp0 := c.cp0[CP0_CAUSE := v]))
    else if regno == 37 then m.(pc := v)
    else if 38 <= regno <= 69 then m.(cpu := c.(fpr := c.fpr[regno - 38 := v]))
    else if regno == 70 then m.(cpu := c.(fcr := c.fcr[CP1_FCSR := v]))
    else m
  }

  lemma NopDrains(d: Oncd)
    ensures var d' := Supplied(d, MIPS_NOP);
            && d'.cpu == d.cpu && d'.mem == d.mem && d'.oscr == d.oscr && Undisturbed(d, d')
            && d'.inflight == (if d.inflight == [] then [] else d.inflight[1..])
            && d'.pcfetch == (if d.inflight != [] && d.inflight[0] != NO_EXCEPTION then d.inflight[0] else BOOT_ADDR + 4)
  {
    FixedWords();
  }

  lemma JumpThroughGp(d: Oncd)
    requires d.inflight == []
    ensures var d' := Supplied(d, MIPS_JR + GP * BIT21);
            Became(d, d', d.cpu, d.mem) && d'.oscr == d.oscr && d'.pcfetch == Gpr(d.cpu, GP)
  {
    FixedWords();
  }

  lemma PointGpAtCram(d: Oncd)
    requires d.inflight == []
    ensures var d' := Supplied(d, MIPS_LUI + GP * BIT16 + CRAM_ADDR / 0x1_0000);
            Became(d, d', SetGpr(d.cpu, GP, CRAM_ADDR), d.mem) && d'.oscr == d.oscr
  {
    FixedWords();
  }

  lemma BeginFlags(x: word)
    ensures 0 <= Set(Clear(x, NDS), NFEXP) < WORDS
  {
  }

  lemma EndFlags(x: word)
    ensures 0 <= Set(Clear(x, NFEXP), DBM) < WORDS
  {
  }

  lemma SetNds(x: word)
    ensures var y := Set(x, NDS);
            0 <= y < WORDS && Has(y, NDS)
  {
  }

  lemma ClearDbm(x: word)
    requires Has(x, NDS)
    ensures var y := Clear(x, DBM);
            0 <= y < WORDS && Has(y, NDS) && !Has(y, DBM)
  {
  }

  lemma ResumeFlags(x: word)
    ensures var y := Clear(Set(x, NDS), DBM);
            0 <= y < WORDS && Has(y, NDS) && !Has(y, DBM)
  {
    SetNds(x);
    ClearDbm(Set(x, NDS));
  }

  /** The GPRs with the saved GP and FP put back. */
  function PutBack(c: Cpu, gp: word, fp: word): Cpu {
    c.(gpr := c.gpr[GP := gp][FP := fp])
  }

  /** What the user sees is blind to the contents of GP, FP and the mailbox. */
  lemma ScratchInvisible(c: Cpu, c': Cpu, gp: word, fp: word)
    requires gp == Gpr(c, GP) && fp == Gpr(c, FP)
    requires forall r: word :: r != GP && r != FP ==> Gpr(c', r) == Gpr(c, r)
    requires c'.hi == c.hi && c'.lo == c.lo && c'.cp0 == c.cp0 && c'.fpr == c.fpr && c'.fcr == c.fcr
    ensures SameCpu(PutBack(c', gp, fp), c)
  {
    forall r: word | r != 0
      ensures Cell(PutBack(c', gp, fp).gpr, r) == Cell(c.gpr, r)
    {
      assert Gpr(c', r) == Cell(c'.gpr, r);
    }
  }

  /** Using FP as scratch and the mailbox changes nothing the user sees. */
  lemma ScratchUse(c: Cpu, c': Cpu, gp: word, fp: word, m: map<word, word>, v: word, mem0: word)
    requires c' == c || exists x: word :: c' == SetGpr(c, FP, x)
    ensures SameCpu(PutBack(c', gp, fp), PutBack(c, gp, fp))
    ensures Same(m[CRAM_WORD := v][CRAM_WORD := mem0], m[CRAM_WORD := mem0])
  {
  }

  lemma MailboxInvisible(m: map<word, word>, v: word)
    ensures Same(m[CRAM_WORD := v][CRAM_WORD := Cell(m, CRAM_WORD)], m)
    ensures Same(m[CRAM_WORD := Cell(m, CRAM_WORD)], m)
  {
  }

  /** Base addresses through which a store reaches the mailbox. */
  predicate MailboxBase(gp: word) {
    gp % 4 == 0 && Translate(gp) == CRAM_WORD
  }

  lemma CramIsMailbox()
    ensures MailboxBase(CRAM_ADDR) && Phys(CRAM_ADDR) == CRAM_WORD
  {
  }

  lemma PostedInMailbox(d: Oncd, v: word)
    requires MailboxBase(Gpr(d.cpu, GP))
    ensures Posted(d, v) == d.mem[CRAM_WORD := v] && Cell(Posted(d, v), CRAM_WORD) == v
  {
  }

  /**
   The mailbox protocol delivers every value, and disturbs no other word, exactly
   when the base register addresses the mailbox.
   */
  lemma MailboxDelivers(gp: word)
    ensures MailboxBase(gp) <==>
            forall d: Oncd, v: word :: Gpr(d.cpu, GP) == gp ==>
              Same(Posted(d, v), d.mem[CRAM_WORD := v])
  {
    if !MailboxBase(gp) {
      var c := Cpu(map[GP := gp], 0, 0, map[], map[], map[]);
      var d := Oncd(c, map[], 0, 0, 0, 0, 0, 0, 0, 0, 0, 0, [], []);
      assert Gpr(d.cpu, GP) == gp;
      assert Cell(Posted(d, 1), CRAM_WORD) == 0;
      assert Cell(d.mem[CRAM_WORD := 1], CRAM_WORD) == 1;
      assert !Same(Posted(d, 1), d.mem[CRAM_WORD := 1]);
    }
  }

  lemma StepNop(d: Oncd, pc: word)
    requires d.inflight == []
    ensures var d' := Write(Write(Write(d, pc, PCFETCH), MIPS_NOP, IRDEC), 0, GO + FLUSH_PIPE + STEP_1CLK);
            Became(d, d', d.cpu, d.mem) && d'.pcdec == pc && d'.oscr == d.oscr
  {
    FixedWords();
  }

  // ---------------------------------------------------------------- requests

  datatype Request =
    | ReadRegister(regno: word) | WriteRegister(regno: word, val: word)
    | ReadMemory(addr: word) | WriteMemory(addr: word, val: word)

  /** The writes target_write_register carries out faithfully when the core stopped at pcDec. */
  predicate Honoured(regno: word, val: word, pcDec: word) {
    && (regno == GP ==> MailboxBase(val))
    && (regno == 0 ==> val == 0)
    && (regno == 37 && val == NO_EXCEPTION ==> pcDec == NO_EXCEPTION)
  }

  predicate Served(q: Request, pcDec: word) {
    match q
    case WriteRegister(regno, val) => Honoured(regno, val, pcDec)
    case _ => true
  }

  /** All but a read of the mailbox word, which shows what was last passed through it. */
  predicate Truthful(q: Request) {
    q.ReadMemory? ==> Phys(q.addr) != CRAM_WORD
  }

  /** A write to the mailbox word is lost. */
  function Apply(m: Arch, q: Request): Arch {
    match q
    case WriteRegister(regno, val) => ArchWrite(m, regno, val)
    case WriteMemory(addr, val) => if Phys(addr) == CRAM_WORD then m else m.(mem := m.mem[Phys(addr) := val])
    case _ => m
  }

  function Answer(m: Arch, q: Request): word {
    match q
    case ReadRegister(regno) => ArchRead(m, regno)
    case ReadMemory(addr) => Cell(m.mem, Phys(addr))
    case _ => 0
  }

  function Run(m: Arch, qs: seq<Request>): Arch {
    if qs == [] then m else Apply(Run(m, qs[..|qs| - 1]), qs[|qs| - 1])
  }

  lemma RunSnoc(m: Arch, qs: seq<Request>, i: nat)
    requires i < |qs|
    ensures Run(m, qs[..i + 1]) == Apply(Run(m, qs[..i]), qs[i])
  {
    assert qs[..i + 1][..i] == qs[..i];
  }

  lemma RunNothing(m: Arch, qs: seq<Request>)
    ensures Run(m, qs[..0]) == m
  {
  }

  lemma SameTransitive(a: Arch, b: Arch, c: Arch)
    requires SameArch(a, b) && SameArch(b, c)
    ensures SameArch(a, c)
  {
  }

  lemma SameRead(m: Arch, m': Arch, regno: word)
    requires SameArch(m, m')
    ensures ArchRead(m, regno) == ArchRead(m', regno)
  {
  }

  lemma SameGprWrite(c: Cpu, c': Cpu, r: word, v: word)
    requires SameCpu(c, c')
    ensures SameCpu(SetGpr(c, r, v), SetGpr(c', r, v))
  {
    var g, g' := SetGpr(c, r, v).gpr, SetGpr(c', r, v).gpr;
    forall q: word | q != 0
      ensures Cell(g, q) == Cell(g', q)
    {
      assert Cell(c.gpr, q) == Cell(c'.gpr, q);
    }
  }

  lemma SameCellWrite(m: map<word, word>, m': map<word, word>, k: word, v: word)
    requires Same(m, m')
    ensures Same(m[k := v], m'[k := v])
  {
    var n, n' := m[k := v], m'[k := v];
    forall j: word
      ensures Cell(n, j) == Cell(n', j)
    {
      assert Cell(m, j) == Cell(m', j);
    }
  }

  lemma SameFpuWrite(m: Arch, m': Arch, regno: word, v: word)
    requires SameArch(m, m') && 38 <= regno <= 69
    ensures SameArch(ArchWrite(m, regno, v), ArchWrite(m', regno, v))
  {
    SameCellWrite(m.cpu.fpr, m'.cpu.fpr, regno - 38, v);
  }

  lemma SameCp0Write(m: Arch, m': Arch, regno: word, v: word)
    requires SameArch(m, m') && (regno == 32 || regno == 36)
    ensures SameArch(ArchWrite(m, regno, v), ArchWrite(m', regno, v))
  {
    SameCellWrite(m.cpu.cp0, m'.cpu.cp0, if regno == 32 then CP0_STATUS else CP0_CAUSE, v);
  }

  lemma SameFcsrWrite(m: Arch, m': Arch, v: word)
    requires SameArch(m, m')
    ensures SameArch(ArchWrite(m, 70, v), ArchWrite(m', 70, v))
  {
    SameCellWrite(m.cpu.fcr, m'.cpu.fcr, CP1_FCSR, v);
  }

  lemma SameOtherWrite(m: Arch, m': Arch, regno: word, v: word)
    requires SameArch(m, m')
    requires regno in {33, 34, 35, 37} || regno > 70
    ensures SameArch(ArchWrite(m, regno, v), ArchWrite(m', regno, v))
  {
  }

  lemma SameWrite(m: Arch, m': Arch, regno: word, v: word)
    requires SameArch(m, m')
    ensures SameArch(ArchWrite(m, regno, v), ArchWrite(m', regno, v))
  {
    if regno <= 31 {
      SameGprWrite(m.cpu, m'.cpu, regno, v);
      assert ArchWrite(m, regno, v).cpu == SetGpr(m.cpu, regno, v);
    } else if regno == 32 || regno == 36 {
      SameCp0Write(m, m', regno, v);
    } else if 38 <= regno <= 69 {
      SameFpuWrite(m, m', regno, v);
    } else if regno == 70 {
      SameFcsrWrite(m, m', v);
    } else {
      SameOtherWrite(m, m', regno, v);
    }
  }

  lemma SameApply(m: Arch, m': Arch, q: Request)
    requires SameArch(m, m')
    ensures SameArch(Apply(m, q), Apply(m', q)) && Answer(m, q) == Answer(m', q)
  {
    match q
    case ReadRegister(regno) => SameRead(m, m', regno);
    case WriteRegister(regno, v) => SameWrite(m, m', regno, v);
    case ReadMemory(_) =>
    case WriteMemory(addr, v) => SameCellWrite(m.mem, m'.mem, Phys(addr), v);
  }

  // ------------------------------------------------------------------ target_t

  class Debugger {
    const adapter: Adapter
    var pcFetch: word
    var pcDec: word
    var irDec: word
    var pcExec: word
    var mem0: word
    // Caches: a register is in the map when its `valid` flag is set.
    var reg: map<word, word>
    var regCp0: map<word, word>
    var regFpu: map<word, word>
    var regLo: Option<word>
    var regHi: Option<word>
    var regFcsr: Option<word>
    var regFir: Option<word>
    var exception: word

    constructor (a: Adapter)
      ensures adapter == a
    {
      adapter := a;
      pcFetch, pcDec, irDec, pcExec, mem0, exception := 0, 0, 0, 0, 0, NO_EXCEPTION;
      reg, regCp0, regFpu := map[], map[], map[];
      regLo, regHi, regFcsr, regFir := None, None, None, None;
    }

    /** Every cached value is the register's, GP and FP excepted: theirs are the saved ones. */
    ghost predicate Coherent()
      reads this, adapter
    {
      var c := adapter.chip.cpu;
      && GP in reg && FP in reg
      && (forall r :: r in reg && r != GP && r != FP ==> r < 32 && reg[r] == Gpr(c, r))
      && (forall r :: r in regCp0 ==> regCp0[r] == Cell(c.cp0, r))
      && (forall r :: r in regFpu ==> regFpu[r] == Cell(c.fpr, r))
      && (regLo.Some? ==> regLo.value == c.lo)
      && (regHi.Some? ==> regHi.value == c.hi)
      && (regFcsr.Some? ==> regFcsr.value == Cell(c.fcr, CP1_FCSR))
      && (regFir.Some? ==> regFir.value == Cell(c.fcr, CP1_FIR))
    }

    /** The state between target_save_state and target_restore_state. */
    ghost predicate Stopped()
      reads this, adapter
    {
      && adapter.Synced() && adapter.chip.inflight == []
      && MailboxBase(Gpr(adapter.chip.cpu, GP))
      && Coherent()
    }

    /** The machine as the user sees it: the hardware, with the three saved words put back. */
    ghost function Logical(): Arch
      reads this, adapter
      requires GP in reg && FP in reg
    {
      var d := adapter.chip;
      Arch(PutBack(d.cpu, reg[GP], reg[FP]),
           d.mem[CRAM_WORD := mem0],
           if exception != NO_EXCEPTION then exception else pcDec)
    }

    // ------------------------------------------------------------ save, restore

    /** Lets the exec, mem and wb stages finish; only the first exception matters. */
    method DrainPipeline() returns (fault: word)
      requires Plausible(adapter.chip)
      modifies adapter`chip
      ensures fault == FirstFault(old(adapter.chip.inflight))
      ensures var d, d' := old(adapter.chip), adapter.chip;
              Became(d, d', d.cpu, d.mem) && d'.oscr == d.oscr
    {
      hide Supplied;
      fault := NO_EXCEPTION;
      ghost var d := adapter.chip;
      for i := 0 to 3
        invariant adapter.chip.cpu == d.cpu && adapter.chip.mem == d.mem && adapter.chip.oscr == d.oscr
        invariant Undisturbed(d, adapter.chip)
        invariant |adapter.chip.inflight| <= 3 - i && BOOT_ADDR + 4 !in adapter.chip.inflight
        invariant FirstFault(d.inflight) == if fault != NO_EXCEPTION then fault else FirstFault(adapter.chip.inflight)
      {
        NopDrains(adapter.chip);
        ghost var before := adapter.chip.inflight;
        Exec(adapter, MIPS_NOP);
        assert forall p :: p in adapter.chip.inflight ==> p in before;
        if fault == NO_EXCEPTION {
          var pc := adapter.OncdRead(PCFETCH);
          if pc != BOOT_ADDR + 4 {
            fault := pc;
          }
        }
      }
    }

    /** GP is read through JR, then pointed at CRAM. */
    method TakeOverGp()
      requires adapter.Synced() && adapter.chip.inflight == []
      modifies this`reg, adapter`chip
      ensures adapter.Synced()
      ensures reg == old(reg)[GP := Gpr(old(adapter.chip.cpu), GP)]
      ensures var d := old(adapter.chip);
              Became(d, adapter.chip, SetGpr(d.cpu, GP, CRAM_ADDR), d.mem)
    {
      hide Supplied, Has;
      Nops(adapter, 2);
      JumpThroughGp(adapter.chip);
      Exec(adapter, MIPS_JR + GP * BIT21);
      var gp := adapter.OncdRead(PCFETCH);
      reg := reg[GP := gp];
      // 0xb800 already has the bit that `| 0x8000` would set.
      PointGpAtCram(adapter.chip);
      Exec(adapter, MIPS_LUI + GP * BIT16 + CRAM_ADDR / 0x1_0000);
      Nops(adapter, 2);
    }

    /** Reads the pipeline registers, lets the pipeline run empty and sets the debug bit. */
    method SavePipeline()
      requires Plausible(adapter.chip)
      modifies this, adapter
      ensures adapter.Synced()
      ensures var d := old(adapter.chip);
              && Became(d, adapter.chip, d.cpu, d.mem)
              && exception == FirstFault(d.inflight)
              && pcDec == d.pcdec && irDec == d.irdec && pcFetch == d.pcfetch
    {
      var a := adapter;
      pcFetch := a.OncdRead(PCFETCH);
      pcDec := a.OncdRead(PCDEC);
      irDec := a.OncdRead(IRDEC);
      pcExec := a.OncdRead(PCEXEC);
      a.oscr := a.OncdRead(OSCR);
      BeginFlags(a.oscr);
      a.oscr := Set(Clear(a.oscr, NDS), NFEXP);
      a.OncdWrite(a.oscr, OSCR);
      exception := NO_EXCEPTION;
      if pcExec != 0 {
        exception := DrainPipeline();
      }
      EndFlags(a.oscr);
      a.oscr := Set(Clear(a.oscr, NFEXP), DBM);
      a.OncdWrite(a.oscr, OSCR);
    }

    /** Forgets the caches, saves the mailbox word, GP and FP, and points GP at the mailbox. */
    method ClaimScratch()
      requires adapter.Synced() && adapter.chip.inflight == []
      modifies this`reg, this`regCp0, this`regFpu, this`regLo, this`regHi, this`regFcsr, this`regFir, this`mem0
      modifies adapter
      ensures adapter.Synced()
      ensures regCp0 == map[] && regFpu == map[] && regLo == regHi == regFcsr == regFir == None
      ensures var d := old(adapter.chip);
              && reg == map[GP := Gpr(d.cpu, GP), FP := Gpr(d.cpu, FP)] && mem0 == Cell(d.mem, CRAM_WORD)
              && Became(d, adapter.chip, SetGpr(d.cpu, GP, CRAM_ADDR), d.mem[CRAM_WORD := reg[FP]])
    {
      hide StoreAt, Posted, Translate, MailboxBase, Has;
      reg, regCp0, regFpu := map[], map[], map[];
      regLo, regHi, regFcsr, regFir := None, None, None, None;
      mem0 := ReadWord(adapter, CRAM_ADDR);
      TakeOverGp();
      ghost var d := adapter.chip;
      CramIsMailbox();
      PostedInMailbox(d, Gpr(d.cpu, FP));
      var fp := ReadReg(adapter, FP);
      reg := reg[FP := fp];
    }

    method SaveState()
      requires Plausible(adapter.chip)
      modifies this, adapter
      ensures Stopped()
      ensures SameArch(Logical(), ArchOf(old(adapter.chip)))
      ensures irDec == old(adapter.chip.irdec) && pcFetch == old(adapter.chip.pcfetch)
      ensures pcDec == old(adapter.chip.pcdec)
      ensures Cell(adapter.chip.mem, CRAM_WORD) == Gpr(old(adapter.chip.cpu), FP)
    {
      SavePipeline();
      ghost var d := adapter.chip;
      ClaimScratch();
      ScratchInvisible(d.cpu, adapter.chip.cpu, reg[GP], reg[FP]);
      MailboxInvisible(d.mem, reg[FP]);
    }

    /** FP, GP and the mailbox get their saved contents. */
    method ReleaseScratch()
      requires Stopped()
      modifies adapter
      ensures adapter.Synced() && adapter.chip.inflight == []
      ensures SameCpu(adapter.chip.cpu, old(Logical()).cpu)
      ensures Same(adapter.chip.mem, old(Logical()).mem)
    {
      WriteReg(adapter, FP, reg[FP]);
      WriteReg(adapter, GP, reg[GP]);
      WriteWord(adapter, CRAM_ADDR, mem0);
      Nops(adapter, 3);
    }

    /** Refills the pipeline, or steers it to the exception handler, and clears the debug bit. */
    method RefillPipeline()
      requires adapter.Synced() && adapter.chip.inflight == []
      modifies adapter
      ensures var d, d' := old(adapter.chip), adapter.chip;
              && d'.cpu == d.cpu && d'.mem == d.mem && d'.inflight == []
              && d'.pcdec == (if exception == NO_EXCEPTION then pcDec else exception)
              && (exception == NO_EXCEPTION ==> d'.irdec == irDec && d'.pcfetch == pcFetch)
              && Has(d'.oscr, NDS) && !Has(d'.oscr, DBM)
    {
      var a := adapter;
      StepNop(a.chip, if exception == NO_EXCEPTION then pcDec else exception);
      if exception == NO_EXCEPTION {
        a.OncdWrite(pcDec, PCFETCH);
        a.OncdWrite(MIPS_NOP, IRDEC);
        a.OncdWrite(0, GO + FLUSH_PIPE + STEP_1CLK);
        a.OncdWrite(irDec, IRDEC);
        a.OncdWrite(pcFetch, PCFETCH);
      } else {
        a.OncdWrite(exception, PCFETCH);
        a.OncdWrite(MIPS_NOP, IRDEC);
        a.OncdWrite(0, GO + FLUSH_PIPE + STEP_1CLK);
      }
      ResumeFlags(a.oscr);
      a.oscr := Clear(Set(a.oscr, NDS), DBM);
      a.OncdWrite(a.oscr, OSCR);
    }

    method RestoreState()
      requires Stopped()
      modifies adapter
      ensures SameArch(ArchOf(adapter.chip), old(Logical()))
      ensures exception == NO_EXCEPTION ==> adapter.chip.irdec == irDec && adapter.chip.pcfetch == pcFetch
      ensures adapter.chip.inflight == []
      ensures Has(adapter.chip.oscr, NDS) && !Has(adapter.chip.oscr, DBM)
    {
      ReleaseScratch();
      RefillPipeline();
    }

    // --------------------------------------------------- reading through the caches

    method CachedGpr(regno: word) returns (val: word)
      requires Stopped() && regno < 32
      modifies this`reg, adapter
      ensures Stopped() && SameArch(Logical(), old(Logical()))
      ensures val == Gpr(old(Logical()).cpu, regno)
    {
      if regno !in reg {
        ghost var d := adapter.chip;
        PostedInMailbox(d, Gpr(d.cpu, regno));
        var v := ReadReg(adapter, regno);
        reg := reg[regno := v];
        ScratchUse(d.cpu, adapter.chip.cpu, reg[GP], reg[FP], d.mem, v, mem0);
      }
      val := reg[regno];
    }

    method CachedCp0(regno: word) returns (val: word)
      requires Stopped() && regno < 32
      modifies this`regCp0, adapter
      ensures Stopped() && SameArch(Logical(), old(Logical()))
      ensures val == Cell(old(Logical()).cpu.cp0, regno)
    {
      if regno !in regCp0 {
        ghost var d := adapter.chip;
        PostedInMailbox(d, Cell(d.cpu.cp0, regno));
        var v := ReadCp0(adapter, regno);
        regCp0 := regCp0[regno := v];
        ScratchUse(d.cpu, adapter.chip.cpu, reg[GP], reg[FP], d.mem, v, mem0);
      }
      val := regCp0[regno];
    }

    method CachedFpu(regno: word) returns (val: word)
      requires Stopped() && regno < 32
      modifies this`regFpu, adapter
      ensures Stopped() && SameArch(Logical(), old(Logical()))
      ensures val == Cell(old(Logical()).cpu.fpr, regno)
    {
      if regno !in regFpu {
        ghost var d := adapter.chip;
        PostedInMailbox(d, Cell(d.cpu.fpr, regno));
        var v := ReadFpu(adapter, regno);
        regFpu := regFpu[regno := v];
        ScratchUse(d.cpu, adapter.chip.cpu, reg[GP], reg[FP], d.mem, v, mem0);
      }
      val := regFpu[regno];
    }

    method CachedLo() returns (val: word)
      requires Stopped()
      modifies this`regLo, adapter
      ensures Stopped() && SameArch(Logical(), old(Logical()))
      ensures val == old(Logical()).cpu.lo
    {
      if regLo.None? {
        ghost var d := adapter.chip;
        PostedInMailbox(d, d.cpu.lo);
        var v := ReadHiLo(adapter, false);
        regLo := Some(v);
        ScratchUse(d.cpu, adapter.chip.cpu, reg[GP], reg[FP], d.mem, v, mem0);
      }
      val := regLo.value;
    }

    method CachedHi() returns (val: word)
      requires Stopped()
      modifies this`regHi, adapter
      ensures Stopped() && SameArch(Logical(), old(Logical()))
      ensures val == old(Logical()).cpu.hi
    {
      if regHi.None? {
        ghost var d := adapter.chip;
        PostedInMailbox(d, d.cpu.hi);
        var v := ReadHiLo(adapter, true);
        regHi := Some(v);
        ScratchUse(d.cpu, adapter.chip.cpu, reg[GP], reg[FP], d.mem, v, mem0);
      }
      val := regHi.value;
    }

    method CachedFcsr() returns (val: word)
      requires Stopped()
      modifies this`regFcsr, adapter
      ensures Stopped() && SameArch(Logical(), old(Logical()))
      ensures val == Cell(old(Logical()).cpu.fcr, CP1_FCSR)
    {
      if regFcsr.None? {
        ghost var d := adapter.chip;
        PostedInMailbox(d, Cell(d.cpu.fcr, CP1_FCSR));
        var v := ReadFpuCtl(adapter, CP1_FCSR);
        regFcsr := Some(v);
        ScratchUse(d.cpu, adapter.chip.cpu, reg[GP], reg[FP], d.mem, v, mem0);
      }
      val := regFcsr.value;
    }

    method CachedFir() returns (val: word)
      requires Stopped()
      modifies this`regFir, adapter
      ensures Stopped() && SameArch(Logical(), old(Logical()))
      ensures val == Cell(old(Logical()).cpu.fcr, CP1_FIR)
    {
      if regFir.None? {
        ghost var d := adapter.chip;
        PostedInMailbox(d, Cell(d.cpu.fcr, CP1_FIR));
        var v := ReadFpuCtl(adapter, CP1_FIR);
        regFir := Some(v);
        ScratchUse(d.cpu, adapter.chip.cpu, reg[GP], reg[FP], d.mem, v, mem0);
      }
      val := regFir.value;
    }

    /** Whatever was accessed before, a read returns the register the user sees. */
    method ReadRegister(regno: word) returns (val: word)
      requires Stopped()
      modifies this`reg, this`regCp0, this`regFpu, this`regLo, this`regHi, this`regFcsr, this`regFir, adapter
      ensures Stopped() && SameArch(Logical(), old(Logical()))
      ensures val == ArchRead(old(Logical()), regno)
    {
      if regno <= 31 {
        val := CachedGpr(regno);
      } else if regno == 32 {
        val := CachedCp0(CP0_STATUS);
      } else if regno == 33 {
        val := CachedLo();
      } else if regno == 34 {
        val := CachedHi();
      } else if regno == 35 {
        val := CachedCp0(CP0_BADVADDR);
      } else if regno == 36 {
        val := CachedCp0(CP0_CAUSE);
      } else if regno == 37 {
        val := if exception != NO_EXCEPTION then exception else pcDec;
      } else if regno <= 69 {
        val := CachedFpu(regno - 38);
      } else if regno == 70 {
        val := CachedFcsr();
      } else if regno == 71 {
        val := CachedFir();
      } else {
        val := 0;
      }
    }

    // ------------------------------------------------------------------ writing

    method StoreGpr(regno: word, val: word)
      requires Stopped() && regno < 32
      modifies this`reg, adapter`chip
      ensures (regno == GP ==> MailboxBase(val)) && (regno == 0 ==> val == 0) ==>
                Stopped() && SameArch(Logical(), old(Logical()).(cpu := SetGpr(old(Logical()).cpu, regno, val)))
      ensures Stopped() ==> (regno == GP ==> MailboxBase(val)) && (regno == 0 ==> val == 0)
      ensures GP in reg && FP in reg
    {
      WriteReg(adapter, regno, val);
      reg := reg[regno := val];
      assert regno in reg && reg[regno] == val;
    }

    method StoreCp0(regno: word, val: word)
      requires Stopped() && regno < 32
      modifies this`regCp0, adapter`chip
      ensures Stopped()
      ensures var m := old(Logical());
              SameArch(Logical(), m.(cpu := m.cpu.(cp0 := m.cpu.cp0[regno := val])))
    {
      WriteCp0(adapter, regno, val);
      regCp0 := regCp0[regno := val];
    }

    method StoreLo(val: word)
      requires Stopped()
      modifies this`regLo, adapter`chip
      ensures Stopped()
      ensures var m := old(Logical());
              SameArch(Logical(), m.(cpu := m.cpu.(lo := val)))
    {
      WriteHiLo(adapter, false, val);
      regLo := Some(val);
    }

    method StoreHi(val: word)
      requires Stopped()
      modifies this`regHi, adapter`chip
      ensures Stopped()
      ensures var m := old(Logical());
              SameArch(Logical(), m.(cpu := m.cpu.(hi := val)))
    {
      WriteHiLo(adapter, true, val);
      regHi := Some(val);
    }

    method StoreFpuReg(regno: word, val: word)
      requires Stopped() && regno < 32
      modifies this`regFpu, adapter`chip
      ensures Stopped()
      ensures var m := old(Logical());
              SameArch(Logical(), m.(cpu := m.cpu.(fpr := m.cpu.fpr[regno := val])))
    {
      WriteFpu(adapter, regno, val);
      regFpu := regFpu[regno := val];
    }

    method StoreFcsr(val: word)
      requires Stopped()
      modifies this`regFcsr, adapter`chip
      ensures Stopped()
      ensures var m := old(Logical());
              SameArch(Logical(), m.(cpu := m.cpu.(fcr := m.cpu.fcr[CP1_FCSR := val])))
    {
      WriteFpuCtl(adapter, CP1_FCSR, val);
      regFcsr := Some(val);
    }

    /**
     Sets exactly the register asked for, and stays consistent, if and only if the
     write is honoured.  The value goes straight to the hardware, and to the cache: a new
     GP replaces the base register at once, a value written to register 0 stays in the
     cache, and a PC equal to the NO_EXCEPTION marker is taken for no write at all.
     */
    method WriteRegister(regno: word, val: word)
      requires Stopped()
      modifies this`reg, this`regCp0, this`regFpu, this`regLo, this`regHi, this`regFcsr, this`exception, adapter
      ensures GP in reg && FP in reg
      ensures Honoured(regno, val, pcDec) <==> Stopped() && SameArch(Logical(), ArchWrite(old(Logical()), regno, val))
    {
      if regno <= 31 {
        StoreGpr(regno, val);
      } else if regno == 32 {
        StoreCp0(CP0_STATUS, val);
      } else if regno == 33 {
        StoreLo(val);
      } else if regno == 34 {
        StoreHi(val);
      } else if regno == 36 {
        StoreCp0(CP0_CAUSE, val);
      } else if regno == 37 {
        exception := val;
      } else if 38 <= regno <= 69 {
        StoreFpuReg(regno - 38, val);
      } else if regno == 70 {
        StoreFcsr(val);
      }
    }

    // -------------------------------------------------------- memory, and whole sessions

    /** The word the hardware holds; of the mailbox word that is right only while it holds what was saved. */
    method PeekWord(addr: word) returns (val: word)
      requires Stopped()
      modifies adapter
      ensures Stopped() && SameArch(Logical(), old(Logical()))
      ensures val == Cell(old(adapter.chip.mem), Phys(addr))
      ensures val == Cell(old(Logical()).mem, Phys(addr)) <==>
                Phys(addr) != CRAM_WORD || Cell(old(adapter.chip.mem), CRAM_WORD) == mem0
    {
      val := ReadWord(adapter, addr);
    }

    /** A write to the mailbox word itself is lost: the word keeps its saved value. */
    method PokeWord(addr: word, val: word)
      requires Stopped()
      modifies adapter
      ensures Stopped()
      ensures SameArch(Logical(), if Phys(addr) == CRAM_WORD then old(Logical())
                                  else old(Logical()).(mem := old(Logical()).mem[Phys(addr) := val]))
    {
      WriteWord(adapter, addr, val);
    }

    method Serve(q: Request) returns (val: word)
      requires Stopped() && Served(q, pcDec)
      modifies this`reg, this`regCp0, this`regFpu, this`regLo, this`regHi, this`regFcsr, this`regFir, this`exception, adapter
      ensures Stopped()
      ensures SameArch(Logical(), Apply(old(Logical()), q))
      ensures Truthful(q) ==> val == Answer(old(Logical()), q)
    {
      val := 0;
      match q {
        case ReadRegister(regno) => val := this.ReadRegister(regno);
        case WriteRegister(regno, v) => this.WriteRegister(regno, v);
        case ReadMemory(addr) => val := PeekWord(addr);
        case WriteMemory(addr, v) => PokeWord(addr, v);
      }
    }

    /**
     Stop, any requests at all, resume: every answer but that of the mailbox word is what the stopped
     machine would give, and what resumes is the stopped machine with just the writes applied.
     */
    method Session(qs: seq<Request>) returns (answers: seq<word>)
      requires Plausible(adapter.chip)
      requires forall q :: q in qs ==> Served(q, adapter.chip.pcdec)
      modifies this, adapter
      ensures |answers| == |qs|
      ensures forall i :: 0 <= i < |qs| && Truthful(qs[i]) ==>
                answers[i] == Answer(Run(ArchOf(old(adapter.chip)), qs[..i]), qs[i])
      ensures SameArch(ArchOf(adapter.chip), Run(ArchOf(old(adapter.chip)), qs))
    {
      hide Apply, Answer, Truthful, SameArch, Run, ArchOf, Logical, Plausible, Served, MailboxBase;
      ghost var m := ArchOf(adapter.chip);
      SaveState();
      assert Run(m, qs[..0]) == m by { RunNothing(m, qs); }
      answers := [];
      for i := 0 to |qs|
        invariant Stopped() && |answers| == i
        invariant pcDec == old(adapter.chip.pcdec)
        invariant SameArch(Logical(), Run(m, qs[..i]))
        invariant forall j :: 0 <= j < i && Truthful(qs[j]) ==> answers[j] == Answer(Run(m, qs[..j]), qs[j])
      {
        RunSnoc(m, qs, i);
        ghost var shown := Logical();
        SameApply(shown, Run(m, qs[..i]), qs[i]);
        var val := Serve(qs[i]);
        SameTransitive(Logical(), Apply(shown, qs[i]), Run(m, qs[..i + 1]));
        answers := answers + [val];
      }
      assert qs[..|qs|] == qs;
      ghost var shown := Logical();
      RestoreState();
      SameTransitive(ArchOf(adapter.chip), shown, Run(m, qs));
    }
  }

  /** An input that shows it: stop a core whose FP and word 0 of CRAM differ, and read that word. */
  method MailboxMisread() returns (val: word, ghost d: Oncd)
    ensures Plausible(d) && val == 1 && Cell(ArchOf(d).mem, Phys(0xb800_0000)) == 0
  {
    var device := Oncd(Cpu(map[FP := 1], 0, 0, map[], map[], map[]), map[], 0, 0, 0, 0, 0, 0, 0, 0, 0, 0, [], []);
    d := device;
    var a := new Adapter(device, 0, 0, false);
    var t := new Debugger(a);
    t.SaveState();
    val := t.PeekWord(0xb800_0000);
  }
}
