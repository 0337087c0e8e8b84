/**
 The device behind the JTAG port: a MIPS32 core that is stopped, its memory, and
 the OnCD debug unit through which the host reaches both (oncd.h, mips.h).

 The core is architectural: one OnCD step completes one instruction.  Register
 files and memory are finite maps whose missing entries read as zero; two maps
 are the same file when they agree at every index.
 */
module Chip {
  import opened Words

  // --- Register numbers of the OnCD unit (oncd.h:31-49) and command flags
  const OSCR: word := 0x00
  const OMBC: word := 0x01
  const OMLR0: word := 0x02
  const OMLR1: word := 0x03
  const OBCR: word := 0x04
  const IRDEC: word := 0x05
  const PCDEC: word := 0x07
  const PCEXEC: word := 0x08
  const PCFETCH: word := 0x0A
  const OMAR: word := 0x0B
  const OMDR: word := 0x0C
  const MEM: word := 0x0D
  const GO: word := 0x0F
  const FLUSH_PIPE: word := 0x40
  const READ: word := 0x40
  const STEP_1CLK: word := 0x80

  // --- Bits of OSCR (oncd.h:52-67)
  const SLCT_MEM: word := 0x0001
  const RO: word := 0x0002
  const RDYM: word := 0x0020
  const DBM: word := 0x0400
  const NDS: word := 0x0800
  const NFEXP: word := 0x2000

  const NO_EXCEPTION: word := 0xffff_ffff

  /** Entry k of a register file or memory. */
  function Cell(m: map<word, word>, k: word): word {
    if k in m then m[k] else 0
  }

  ghost predicate Same(m: map<word, word>, m': map<word, word>) {
    forall k: word :: Cell(m, k) == Cell(m', k)
  }

  // ---------------------------------------------------------------- MIPS32

  datatype Cpu = Cpu(gpr: map<word, word>, hi: word, lo: word,
                     cp0: map<word, word>, fpr: map<word, word>, fcr: map<word, word>)

  /** General register r: register 0 is hard-wired to zero. */
  function Gpr(c: Cpu, r: word): word {
    if r == 0 then 0 else Cell(c.gpr, r)
  }

  function SetGpr(c: Cpu, r: word, v: word): Cpu {
    if r == 0 then c else c.(gpr := c.gpr[r := v])
  }

  /** The low 16 bits of a word as a signed number, in two's complement. */
  function SignExtend(imm: word): word {
    if imm % 0x1_0000 >= 0x8000 then imm % 0x1_0000 + 0xffff_0000 else imm % 0x1_0000
  }

  function Add(x: word, y: word): word { (x + y) % WORDS }

  function Signed(x: word): int { if x < 0x8000_0000 then x else x - WORDS }

  /** ADDI traps on signed overflow instead of writing its destination. */
  predicate AddOverflows(x: word, y: word) {
    !(-0x8000_0000 <= Signed(x) + Signed(y) < 0x8000_0000)
  }

  /** Physical address of a load or store: kseg0 and kseg1 drop their top three bits. */
  function Translate(va: word): word {
    if 0x8000_0000 <= va < 0xC000_0000 then va % 0x2000_0000 else va
  }

  /** The instructions the debugger supplies; any other word changes no register. */
  datatype Instr =
    | Sll(rd: word, rt: word, sa: word)
    | Jr(rs: word)
    | Mfhi(rd: word) | Mthi(rs: word) | Mflo(rd: word) | Mtlo(rs: word)
    | Addi(rt: word, rs: word, imm: word)
    | Ori(rt: word, rs: word, imm: word)
    | Lui(rt: word, imm: word)
    | Mfc0(rt: word, rd: word) | Mtc0(rt: word, rd: word)
    | Cfc1(rt: word, rd: word) | Mtc1(rt: word, rd: word) | Ctc1(rt: word, rd: word)
    | Sw(rt: word, base: word, imm: word)
    | Swc1(rt: word, base: word, imm: word)
    | Other

  /** Instruction formats of the MIPS32 Architecture For Programmers, Volume II, chapter 3. */
  function Decode(i: word): Instr {
    var op, rs, rt := i / 0x400_0000, i / 0x20_0000 % 32, i / 0x1_0000 % 32;
    var imm := i % 0x1_0000;
    var rd, sa, funct := imm / 0x800, imm / 0x40 % 32, imm % 0x40;
    if op == 0x00 then
      if funct == 0x00 then Sll(rd, rt, sa)
      else if funct == 0x08 then Jr(rs)
      else if funct == 0x10 then Mfhi(rd)
      else if funct == 0x11 then Mthi(rs)
      else if funct == 0x12 then Mflo(rd)
      else if funct == 0x13 then Mtlo(rs)
      else Other
    else if op == 0x08 then Addi(rt, rs, imm)
    else if op == 0x0d then Ori(rt, rs, imm)
    else if op == 0x0f then Lui(rt, imm)
    else if op == 0x10 then (if rs == 0 then Mfc0(rt, rd) else if rs == 4 then Mtc0(rt, rd) else Other)
    else if op == 0x11 then
      (if rs == 2 then Cfc1(rt, rd) else if rs == 4 then Mtc1(rt, rd) else if rs == 6 then Ctc1(rt, rd) else Other)
    else if op == 0x2b then Sw(rt, rs, imm)
    else if op == 0x39 then Swc1(rt, rs, imm)
    else Other
  }

  /** Register effect of one instruction. */
  function Execute(c: Cpu, i: Instr): Cpu {
    match i
    case Sll(rd, rt, sa) => SetGpr(c, rd, Gpr(c, rt) * Pow2(sa) % WORDS)
    case Mfhi(rd) => SetGpr(c, rd, c.hi)
    case Mthi(rs) => c.(hi := Gpr(c, rs))
    case Mflo(rd) => SetGpr(c, rd, c.lo)
    case Mtlo(rs) => c.(lo := Gpr(c, rs))
    case Addi(rt, rs, imm) =>
      var x, y := Gpr(c, rs), SignExtend(imm);
      if AddOverflows(x, y) then c else SetGpr(c, rt, Add(x, y))
    case Ori(rt, rs, imm) => SetGpr(c, rt, Or(Gpr(c, rs), imm) % WORDS)
    case Lui(rt, imm) => SetGpr(c, rt, imm * 0x1_0000 % WORDS)
    case Mfc0(rt, rd) => SetGpr(c, rt, Cell(c.cp0, rd))
    case Mtc0(rt, rd) => c.(cp0 := c.cp0[rd := Gpr(c, rt)])
    case Cfc1(rt, rd) => SetGpr(c, rt, Cell(c.fcr, rd))
    case Ctc1(rt, rd) => c.(fcr := c.fcr[rd := Gpr(c, rt)])
    case Mtc1(rt, rd) => c.(fpr := c.fpr[rd := Gpr(c, rt)])
    case Jr(_) => c
    case Sw(_, _, _) => c
    case Swc1(_, _, _) => c
    case Other => c
  }

  /** A store at va, which traps when the address is not a multiple of four. */
  function StoreAt(mem: map<word, word>, va: word, v: word): map<word, word> {
    if va % 4 != 0 then mem else mem[Translate(va) := v]
  }

  /** Memory effect of one instruction. */
  function Store(c: Cpu, mem: map<word, word>, i: Instr): map<word, word> {
    match i
    case Sw(rt, base, imm) => StoreAt(mem, Add(Gpr(c, base), SignExtend(imm)), Gpr(c, rt))
    case Swc1(rt, base, imm) => StoreAt(mem, Add(Gpr(c, base), SignExtend(imm)), Cell(c.fpr, rt))
    case _ => mem
  }

  /** Address fetched after the instruction at pc: JR jumps. */
  function NextPc(c: Cpu, i: Instr, pc: word): word {
    if i.Jr? then Gpr(c, i.rs) else Add(pc, 4)
  }

  // ------------------------------------------------------------------ OnCD

  /** One word written to the memory bus. */
  datatype BusWrite = BusWrite(addr: word, data: word)

  /**
   `bus` is every word the debug unit has written to memory, oldest first.
   `inflight` lists what the instructions still in the pipeline will do when they
   complete: NO_EXCEPTION, or the vector of the exception they raise.
   */
  datatype Oncd = Oncd(cpu: Cpu, mem: map<word, word>,
                       oscr: word, irdec: word, pcdec: word, pcexec: word, pcfetch: word,
                       omar: word, omdr: word,
                       obcr: word, omlr0: word, omlr1: word,
                       bus: seq<BusWrite>, inflight: seq<word>)

  /** One step: the supplied instruction completes, and so does the oldest one in flight. */
  function Step(d: Oncd): Oncd {
    var i := Decode(d.irdec);
    var next := if d.inflight != [] && d.inflight[0] != NO_EXCEPTION then d.inflight[0]
                else NextPc(d.cpu, i, d.pcfetch);
    d.(cpu := Execute(d.cpu, i), mem := Store(d.cpu, d.mem, i),
       pcdec := d.pcfetch, pcfetch := next,
       inflight := if d.inflight == [] then [] else d.inflight[1..])
  }

  /** Memory cycle at OMAR, in the direction OSCR selects. */
  function Access(d: Oncd): Oncd {
    if !Has(d.oscr, SLCT_MEM) then d
    else
      var ready := Set(d.oscr, RDYM) % WORDS;
      if Has(d.oscr, RO) then d.(omdr := Cell(d.mem, d.omar), oscr := ready)
      else d.(mem := d.mem[d.omar := d.omdr], oscr := ready, bus := d.bus + [BusWrite(d.omar, d.omdr)])
  }

  /** Effect of shifting in command `cmd` with data `v`. */
  function Write(d: Oncd, v: word, cmd: word): Oncd {
    var r := cmd % 32;
    if r == MEM then Access(d)
    else if r == GO then (if Has(cmd, STEP_1CLK) then Step(d) else d)
    else if Has(cmd, READ) then d
    else if r == OSCR then d.(oscr := v)
    else if r == IRDEC then d.(irdec := v)
    else if r == PCFETCH then d.(pcfetch := v)
    else if r == OMAR then d.(omar := v)
    else if r == OMDR then d.(omdr := v)
    else if r == OBCR then d.(obcr := v)
    else if r == OMLR0 then d.(omlr0 := v)
    else if r == OMLR1 then d.(omlr1 := v)
    else d
  }

  /** The register that a read command shifts out. */
  function Read(d: Oncd, cmd: word): word {
    var r := cmd % 32;
    if r == OSCR then d.oscr
    else if r == IRDEC then d.irdec
    else if r == PCDEC then d.pcdec
    else if r == PCEXEC then d.pcexec
    else if r == PCFETCH then d.pcfetch
    else if r == OMAR then d.omar
    else if r == OMDR then d.omdr
    else if r == OBCR then d.obcr
    else if r == OMLR0 then d.omlr0
    else if r == OMLR1 then d.omlr1
    else 0
  }

  // --------------------------------------------------------- Memory cycles

  lemma SelectRead(x: word)
    ensures var y := Set(Set(x, SLCT_MEM), RO);
            0 <= y < WORDS && Has(y, SLCT_MEM) && Has(y, RO)
  {
  }

  lemma SelectWrite(x: word)
    ensures var y := Set(Clear(x, RO), SLCT_MEM);
            0 <= y < WORDS && Has(y, SLCT_MEM) && !Has(y, RO)
  {
  }

  lemma ReadyKeepsSelection(x: word)
    ensures var y := Set(x, RDYM);
            0 <= y < WORDS && Has(y, SLCT_MEM) == Has(x, SLCT_MEM) && Has(y, RO) == Has(x, RO)
  {
  }

  /** OSCR x allows memory cycles, for reading or for writing. */
  predicate Selects(x: word, reading: bool) {
    Has(x, SLCT_MEM) && Has(x, RO) == reading
  }

  /** Two OSCR values that steer memory cycles the same way. */
  ghost predicate Agree(x: word, y: word) {
    Has(x, SLCT_MEM) == Has(y, SLCT_MEM) && Has(x, RO) == Has(y, RO)
  }

  /** The word at addr written on the memory bus, and the unit's registers after it. */
  ghost predicate Stored(d: Oncd, d': Oncd, addr: word, v: word) {
    d' == d.(oscr := d'.oscr, omar := addr, omdr := v, mem := d.mem[addr := v], bus := d.bus + [BusWrite(addr, v)])
  }

  lemma StoreCycle(d: Oncd, addr: word, v: word)
    requires Selects(d.oscr, false)
    ensures var e := Write(Write(Write(d, addr, OMAR), v, OMDR), 0, MEM);
            Stored(d, e, addr, v) && Selects(e.oscr, false)
  {
    ReadyKeepsSelection(d.oscr);
  }

  /** The word at addr fetched, and the unit's registers after it. */
  ghost predicate Fetched(d: Oncd, d': Oncd, addr: word) {
    d' == d.(oscr := d'.oscr, omar := addr, omdr := Cell(d.mem, addr))
  }

  /** What reading changes: the debug unit's own registers. */
  ghost predicate Browsed(d: Oncd, d': Oncd) {
    d' == d.(oscr := d'.oscr, omar := d'.omar, omdr := d'.omdr)
  }

  lemma FetchCycle(d: Oncd, addr: word)
    requires Selects(d.oscr, true)
    ensures var e := Write(Write(d, addr, OMAR), 0, MEM);
            && Fetched(d, e, addr) && Selects(e.oscr, true)
            && Read(e, OMDR + READ) == Cell(d.mem, addr) && Write(e, 0, OMDR + READ) == e
  {
    ReadyKeepsSelection(d.oscr);
  }
}
