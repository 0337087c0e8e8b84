/**
 What the debugger's register numbers and addresses mean to the core itself (target.c:455-620,
 629-632, 690-693, mips.h:20-54, oncd.h:31-67): the numbers name what the core's own instructions move, and the
 debug unit finds a word where the core puts it.
 */
module Registers {
  import opened Words
  import opened Chip
  import opened Target
  import opened Debugger

  // ------------------------------------------------------------------ Registers

  /** Registers that can be written read back what was written. */
  predicate Writable(regno: word) {
    0 < regno <= 70 && regno != 35
  }

  lemma ReadOverWrite(m: Arch, regno: word, v: word, q: word)
    ensures ArchRead(ArchWrite(m, regno, v), q) == if q == regno && Writable(regno) then v else ArchRead(m, q)
  {
  }

  /** Machines that are the same read alike, register by register and word by word. */
  lemma ShownAlike(m: Arch, m': Arch, regno: word, a: word)
    requires SameArch(m, m')
    ensures ArchRead(m, regno) == ArchRead(m', regno) && Cell(m.mem, a) == Cell(m'.mem, a) && m.pc == m'.pc
    ensures Cell(m.cpu.cp0, a) == Cell(m'.cpu.cp0, a) && Cell(m.cpu.fcr, a) == Cell(m'.cpu.fcr, a)
  {
    SameRead(m, m', regno);
  }

  /** The machine after an instruction that moves between registers. */
  function After(m: Arch, i: Instr): Arch { m.(cpu := Execute(m.cpu, i)) }

  /** 33 and 34 are what MTLO and MTHI write, and MFLO and MFHI read. */
  lemma LowAndHigh(m: Arch, s: word, r: word)
    requires 0 < r < 32
    ensures ArchRead(After(m, Mtlo(s)), 33) == Gpr(m.cpu, s) && ArchRead(After(m, Mflo(r)), r) == ArchRead(m, 33)
    ensures ArchRead(After(m, Mthi(s)), 34) == Gpr(m.cpu, s) && ArchRead(After(m, Mfhi(r)), r) == ArchRead(m, 34)
  {
  }

  /** 32, 35 and 36 are registers 12, 8 and 13 of coprocessor 0. */
  lemma Coprocessor0(m: Arch, s: word, r: word)
    requires 0 < r < 32
    ensures ArchRead(After(m, Mtc0(s, 12)), 32) == Gpr(m.cpu, s)
    ensures ArchRead(After(m, Mfc0(r, 12)), r) == ArchRead(m, 32)
    ensures ArchRead(After(m, Mtc0(s, 8)), 35) == Gpr(m.cpu, s)
    ensures ArchRead(After(m, Mfc0(r, 8)), r) == ArchRead(m, 35)
    ensures ArchRead(After(m, Mtc0(s, 13)), 36) == Gpr(m.cpu, s)
    ensures ArchRead(After(m, Mfc0(r, 13)), r) == ArchRead(m, 36)
  {
  }

  /** 38 to 69 are the registers of the FPU, 70 and 71 its control registers 31 and 0. */
  lemma FloatingPoint(m: Arch, s: word, k: word, r: word)
    requires 0 < r < 32 && k < 32
    ensures ArchRead(After(m, Mtc1(s, k)), 38 + k) == Gpr(m.cpu, s)
    ensures ArchRead(After(m, Ctc1(s, 31)), 70) == Gpr(m.cpu, s)
    ensures ArchRead(After(m, Cfc1(r, 31)), r) == ArchRead(m, 70)
    ensures ArchRead(After(m, Ctc1(s, 0)), 71) == Gpr(m.cpu, s)
    ensures ArchRead(After(m, Cfc1(r, 0)), r) == ArchRead(m, 71)
  {
  }

  /** 0 to 31 are the general registers. */
  lemma General(m: Arch, r: word, imm: word)
    requires 0 < r < 32 && imm < 0x1_0000
    ensures ArchRead(After(m, Lui(r, imm)), r) == imm * 0x1_0000 && ArchRead(m, 0) == 0
  {
  }

  /** After JR the core goes on where register 37 says when it stops there. */
  lemma JumpsTo(d: Oncd, s: word)
    requires d.inflight == []
    ensures ArchRead(ArchOf(d.(pcdec := NextPc(d.cpu, Jr(s), d.pcdec))), 37) == Gpr(d.cpu, s)
  {
  }

  /** The fields of an instruction word. */
  lemma Parts(i: word, op: nat, rs: nat, rt: nat, imm: nat)
    requires op < 64 && rs < 32 && rt < 32 && imm < 0x1_0000
    requires i == op * 0x400_0000 + rs * 0x20_0000 + rt * 0x1_0000 + imm
    ensures i / 0x400_0000 == op && i / 0x20_0000 % 32 == rs && i / 0x1_0000 % 32 == rt && i % 0x1_0000 == imm
  {
    Fields(op, rs, rt, imm);
  }

  /** The machine words of those instructions, as an assembler gives them. */
  lemma KnownMoves()
    ensures Decode(0x0000_f012) == Mflo(30)
    ensures Decode(0x0000_f010) == Mfhi(30)
    ensures Decode(0x03c0_0013) == Mtlo(30)
    ensures Decode(0x03c0_0011) == Mthi(30)
  {
    Parts(0x0000_f012, 0x0, 0, 0, 0xf012);
    Parts(0x0000_f010, 0x0, 0, 0, 0xf010);
    Parts(0x03c0_0013, 0x0, 30, 0, 0x13);
    Parts(0x03c0_0011, 0x0, 30, 0, 0x11);
  }

  lemma KnownCp0Moves()
    ensures Decode(0x401e_6000) == Mfc0(30, 12)
    ensures Decode(0x409e_6800) == Mtc0(30, 13)
  {
    Parts(0x401e_6000, 0x10, 0, 30, 0x6000);
    Parts(0x409e_6800, 0x10, 4, 30, 0x6800);
  }

  lemma KnownFpuMoves()
    ensures Decode(0x445e_f800) == Cfc1(30, 31)
    ensures Decode(0x44de_f800) == Ctc1(30, 31)
    ensures Decode(0x449e_2800) == Mtc1(30, 5)
  {
    Parts(0x445e_f800, 0x11, 2, 30, 0xf800);
    Parts(0x44de_f800, 0x11, 6, 30, 0xf800);
    Parts(0x449e_2800, 0x11, 4, 30, 0x2800);
  }

  lemma KnownStores()
    ensures Decode(0xe785_0000) == Swc1(5, 28, 0)
    ensures Decode(0xaf84_0000) == Sw(4, 28, 0)
    ensures Decode(0x3c1c_b800) == Lui(28, 0xb800)
  {
    Parts(0xe785_0000, 0x39, 28, 5, 0x0);
    Parts(0xaf84_0000, 0x2b, 28, 4, 0x0);
    Parts(0x3c1c_b800, 0xf, 0, 28, 0xb800);
  }

  lemma KnownLoads()
    ensures Decode(0x2004_1234) == Addi(4, 0, 0x1234)
    ensures Decode(0x0004_2400) == Sll(4, 4, 16)
    ensures Decode(0x3484_5678) == Ori(4, 4, 0x5678)
    ensures Decode(0x0380_0008) == Jr(28)
  {
    Parts(0x2004_1234, 0x8, 0, 4, 0x1234);
    Parts(0x0004_2400, 0x0, 0, 4, 0x2400);
    Parts(0x3484_5678, 0xd, 4, 4, 0x5678);
    Parts(0x0380_0008, 0x0, 28, 0, 0x8);
  }

  // ------------------------------------------------------------- The debug unit

  /** The numbers of the unit's registers (oncd.h:31-49): what a write to each does. */
  lemma UnitWrites(d: Oncd, v: word)
    ensures Write(d, v, 0x00) == d.(oscr := v) && Write(d, v, 0x05) == d.(irdec := v)
    ensures Write(d, v, 0x0a) == d.(pcfetch := v) && Write(d, v, 0x0b) == d.(omar := v)
    ensures Write(d, v, 0x0c) == d.(omdr := v) && Write(d, v, 0x04) == d.(obcr := v)
    ensures Write(d, v, 0x02) == d.(omlr0 := v) && Write(d, v, 0x03) == d.(omlr1 := v)
    ensures Write(d, v, 0x0d) == Access(d) && Write(d, v, 0xcf) == Step(d)
  {
    hide Access, Step;
  }

  /** And what a read of each gives. */
  lemma UnitReads(d: Oncd)
    ensures Read(d, 0x40) == d.oscr && Read(d, 0x45) == d.irdec && Read(d, 0x47) == d.pcdec
    ensures Read(d, 0x48) == d.pcexec && Read(d, 0x4a) == d.pcfetch && Read(d, 0x4b) == d.omar
    ensures Read(d, 0x4c) == d.omdr && Read(d, 0x44) == d.obcr && Read(d, 0x42) == d.omlr0 && Read(d, 0x43) == d.omlr1
  {
  }

  /** A memory cycle with the low two bits of OSCR at 3 reads, at 1 writes, and at 0 or 2 does nothing. */
  lemma MemoryCycles(d: Oncd)
    ensures d.oscr % 4 == 3 ==> Fetched(d, Access(d).(omar := d.omar), d.omar)
    ensures d.oscr % 4 == 1 ==> Stored(d, Access(d), d.omar, d.omdr)
    ensures d.oscr % 4 == 0 || d.oscr % 4 == 2 ==> Access(d) == d
  {
    SelectBits(d.oscr);
  }

  lemma SelectBits(x: word)
    ensures Has(x, 1) <==> x % 4 == 1 || x % 4 == 3
    ensures Has(x, 2) <==> x % 4 >= 2
  {
  }

  /** A stopped core goes on at the first exception pending, or else at the instruction being decoded. */
  lemma ResumePoint(d: Oncd, k: nat)
    requires forall i :: 0 <= i < k && i < |d.inflight| ==> d.inflight[i] == 0xffff_ffff
    ensures k < |d.inflight| && d.inflight[k] != 0xffff_ffff ==> ArchOf(d).pc == d.inflight[k]
    ensures k == |d.inflight| ==> ArchOf(d).pc == d.pcdec
  {
    FirstFaultIs(d.inflight, k);
  }

  lemma {:induction false} FirstFaultIs(inflight: seq<word>, k: nat)
    requires forall i :: 0 <= i < k && i < |inflight| ==> inflight[i] == NO_EXCEPTION
    ensures k < |inflight| && inflight[k] != NO_EXCEPTION ==> FirstFault(inflight) == inflight[k]
    ensures k == |inflight| ==> FirstFault(inflight) == NO_EXCEPTION
    decreases k
  {
    if k > 0 && inflight != [] {
      FirstFaultIs(inflight[1..], k - 1);
    }
  }

  // -------------------------------------------------------------------- Requests

  /** What a session answers after a write: the value written, or what was there before. */
  lemma AnswersAfter(m: Arch, regno: word, v: word, q: word, a: word, b: word)
    ensures Answer(Apply(m, WriteRegister(regno, v)), ReadRegister(q))
         == if q == regno && Writable(regno) then v else Answer(m, ReadRegister(q))
    ensures Answer(Apply(m, WriteRegister(regno, v)), ReadMemory(b)) == Answer(m, ReadMemory(b))
    ensures Answer(Apply(m, WriteMemory(a, v)), ReadMemory(b))
         == if Phys(a) == Phys(b) && Phys(b) != 0x1800_0000 then v else Answer(m, ReadMemory(b))
    ensures Answer(Apply(m, WriteMemory(a, v)), ReadRegister(q)) == Answer(m, ReadRegister(q))
    ensures Answer(m, ReadRegister(q)) == ArchRead(m, q) && Answer(m, ReadMemory(b)) == Cell(m.mem, Phys(b))
  {
    hide Phys;
    ReadOverWrite(m, regno, v, q);
  }

  /** Requests are applied in order; reading changes nothing. */
  lemma RunMeans(m: Arch, qs: seq<Request>, q: Request)
    ensures Run(m, []) == m && Run(m, qs + [q]) == Apply(Run(m, qs), q)
    ensures q.ReadRegister? || q.ReadMemory? ==> Run(m, qs + [q]) == Run(m, qs)
  {
    assert (qs + [q])[..|qs|] == qs;
  }

  // ------------------------------------------------------------------ Addresses

  /** The debug unit and the core mean the same word by an address, up to the mapped segment. */
  lemma PhysIsTranslate(a: word)
    ensures Phys(a) == Translate(a) <==> a < 0xC000_0000
    ensures a < 0x8000_0000 ==> Phys(a) == a
    ensures 0x8000_0000 <= a < 0xA000_0000 ==> Phys(a) == a - 0x8000_0000
    ensures 0xA000_0000 <= a ==> Phys(a) == a - 0xA000_0000
  {
  }

  /** A word the core stores is found by the debugger at the same address, and no other word changes. */
  lemma StoredIsFound(mem: map<word, word>, va: word, v: word, a: word)
    requires va % 4 == 0 && va < 0xC000_0000
    ensures Cell(StoreAt(mem, va, v), Phys(a)) == if Phys(a) == Phys(va) then v else Cell(mem, Phys(a))
  {
    PhysIsTranslate(va);
  }

  /** Word 0 of CRAM, through either unmapped segment: 0x98000000 and 0xb8000000. */
  lemma MailboxAddresses(a: word)
    ensures Phys(a) == CRAM_WORD <==> a == 0x1800_0000 || a == 0x9800_0000 || a == 0xb800_0000
  {
  }

  /** Reading a word by its number at the debugger gives what the core stored there. */
  method PeekAfterStore(a: Adapter, ghost mem: map<word, word>, addr: word, ghost v: word) returns (val: word)
    requires a.Synced() && addr % 4 == 0 && addr < 0xC000_0000 && a.chip.mem == StoreAt(mem, addr, v)
    modifies a
    ensures a.Synced() && val == v
  {
    StoredIsFound(mem, addr, v, addr);
    val := ReadWord(a, addr);
  }
}
