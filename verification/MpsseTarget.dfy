/**
 The block functions of target.c on the FT2232 adapter (target.c:1487-1617,
 adapter-mpsse.c:527-636, 777-778): from the call down to the clocks of the JTAG port.
 */
module MpsseTarget {
  import opened Words
  import opened Jtag
  import opened MpsseOncd
  import opened MpsseBlock
  import opened Chip
  import opened Bus
  import opened Flash
  import Target
  import TargetBlock
  import TargetFlash

  /** block_words and program_block_words */
  const BLOCK_WORDS: nat := 999999

  function ChunkSize(left: nat): nat { if left > BLOCK_WORDS then BLOCK_WORDS else left }

  lemma NoChunk(d: Oncd, addr: word)
    ensures BlockRead(d.mem, addr, 0) == [] && Plus(addr, 0) == addr
    ensures Wrote(d, d, BlockWrites(addr, []))
  {
    WroteNothing(d, d);
  }

  /** target_read_block */
  method ReadBlock(a: Adapter, ghost p: Port<Oncd>, addr: word, nwords: nat, data: array<word>, at: nat)
    returns (ghost q: Port<Oncd>)
    requires Ready(a, p) && a.bytesToRead == 0 && at + nwords <= data.Length && Separate(a, data)
    modifies a, a.output, a.input, data
    ensures Ready(a, q) && Browsed(p.chip, q.chip) && a.bytesToRead == 0
    ensures data[..] == Spliced(old(data[..]), at, BlockRead(p.chip.mem, Target.Phys(addr), nwords))
  {
    hide Ready, Spliced, BlockRead, Plus;
    q := p;
    var first, done := Target.Phys(addr), 0;
    var next := first;
    ghost var before, mem := data[..], p.chip.mem;
    NoChunk(p.chip, first);
    SpliceNothing(before, at);
    while done < nwords
      invariant done <= nwords && next == Plus(first, 4 * done)
      invariant Ready(a, q) && a.bytesToRead == 0 && Browsed(p.chip, q.chip)
      invariant data[..] == Spliced(before, at, BlockRead(mem, first, done))
    {
      var n := ChunkSize(nwords - done);
      q := MpsseBlock.ReadBlock(a, q, n, next, data, at + done);
      SpliceBoth(before, at, BlockRead(mem, first, done), BlockRead(mem, next, n));
      BlockReadAppend(mem, first, done, n);
      PlusPlus(first, 4 * done, 4 * n);
      done, next := done + n, Plus(next, n * 4);
    }
  }

  /** target_write_block */
  method WriteBlock(a: Adapter, ghost p: Port<Oncd>, addr: word, nwords: nat, data: array<word>, at: nat)
    returns (ghost q: Port<Oncd>)
    requires Ready(a, p) && at + nwords <= data.Length && Separate(a, data)
    modifies a, a.output, a.input
    ensures Ready(a, q) && Wrote(p.chip, q.chip, BlockWrites(Target.Phys(addr), data[at..at + nwords]))
    ensures a.bytesToRead <= old(a.bytesToRead)
  {
    hide Ready, Wrote, BlockWrites, Plus;
    q := p;
    var first, done := Target.Phys(addr), 0;
    var next := first;
    ghost var ws := data[at..at + nwords];
    assert ws[..0] == [];
    NoChunk(p.chip, first);
    while done < nwords
      invariant done <= nwords && next == Plus(first, 4 * done)
      invariant Ready(a, q) && a.bytesToRead <= old(a.bytesToRead)
      invariant Wrote(p.chip, q.chip, BlockWrites(first, ws[..done]))
    {
      var n := ChunkSize(nwords - done);
      ghost var d, part := q.chip, data[at + done..at + done + n];
      q := MpsseBlock.WriteBlock(a, q, n, next, data, at + done);
      WroteBoth(p.chip, d, q.chip, BlockWrites(first, ws[..done]), BlockWrites(next, part));
      BlockAppend(first, ws[..done], part);
      assert ws[..done] + part == ws[..done + n];
      PlusPlus(first, 4 * done, 4 * n);
      done, next := done + n, Plus(next, n * 4);
    }
    assert ws[..nwords] == ws;
  }

  /** target_program_block32 */
  method ProgramBlock32(a: Adapter, ghost p: Port<Oncd>, addr: word, base: word, nwords: nat,
                        data: array<word>, at: nat, k: FlashKit)
    returns (ghost q: Port<Oncd>)
    requires Ready(a, p) && at + nwords <= data.Length && Separate(a, data)
    modifies a, a.output, a.input
    ensures Ready(a, q) && Wrote(p.chip, q.chip, ProgramWrites(k, base, addr, data[at..at + nwords]))
    ensures a.bytesToRead <= old(a.bytesToRead)
  {
    hide Ready, Wrote, ProgramWrites, Plus;
    q := p;
    var next, done := addr, 0;
    ghost var ws := data[at..at + nwords];
    assert ws[..0] == [];
    NoChunk(p.chip, addr);
    NothingProgrammed(p.chip, k, base, addr);
    while done < nwords
      invariant done <= nwords && next == Plus(addr, 4 * done)
      invariant Ready(a, q) && a.bytesToRead <= old(a.bytesToRead)
      invariant Wrote(p.chip, q.chip, ProgramWrites(k, base, addr, ws[..done]))
    {
      var n := ChunkSize(nwords - done);
      ghost var d, part := q.chip, data[at + done..at + done + n];
      q := MpsseBlock.ProgramBlock32(a, q, n, base, next, data, at + done, k);
      WroteBoth(p.chip, d, q.chip, ProgramWrites(k, base, addr, ws[..done]), ProgramWrites(k, base, next, part));
      ProgramAppend(k, base, addr, ws[..done], part);
      assert ws[..done] + part == ws[..done + n];
      PlusPlus(addr, 4 * done, 4 * n);
      done, next := done + n, Plus(next, n * 4);
    }
    assert ws[..nwords] == ws;
  }

  lemma NothingProgrammed(d: Oncd, k: FlashKit, base: word, addr: word)
    ensures Wrote(d, d, ProgramWrites(k, base, addr, []))
  {
    WroteNothing(d, d);
  }

  // ------------------------------------------------------------------- 8-bit bus

  /** target_program_block8: every group of writes goes through the adapter's write_nwords. */
  method ProgramBlock8(a: Adapter, ghost p: Port<Oncd>, cscon3: word, addr: word, base: word, nwords: nat,
                       data: array<word>, at: nat, k: FlashKit)
    returns (ghost q: Port<Oncd>)
    requires Ready(a, p) && at + nwords <= data.Length && Separate(a, data) && LaneClear(cscon3)
    modifies a, a.output, a.input
    ensures Ready(a, q) && Wrote(p.chip, q.chip, ProgramWrites8(k, cscon3, base, addr, data[at..at + nwords]))
    ensures a.bytesToRead <= old(a.bytesToRead)
  {
    hide Ready, Wrote, TwoBytes, ByteWrite, ByteWrites, Shifts, Plus;
    var odd, even := Plus(base, k.odd), Plus(base, k.even);
    ghost var ws := data[at..at + nwords];
    ghost var pair, enter := TwoBytes(cscon3, odd, k.aa, even, k.c55), ByteWrite(cscon3, odd, k.c20);
    ghost var bytes, leave := ByteWrites(k, cscon3, addr, Shifts(ws)), TwoBytes(cscon3, base, k.c90, base, 0);
    q := WriteNwords(a, p, TwoBytes(cscon3, odd, k.aa, even, k.c55));
    ghost var d1 := q.chip;
    q := WriteNwords(a, q, ByteWrite(cscon3, odd, k.c20));
    WroteBoth(p.chip, d1, q.chip, pair, enter);
    ghost var d2 := q.chip;
    q := ProgramBytes(a, q, cscon3, addr, nwords, data, at, k);
    WroteBoth(p.chip, d2, q.chip, pair + enter, bytes);
    ghost var d3 := q.chip;
    q := WriteNwords(a, q, TwoBytes(cscon3, base, k.c90, base, 0));
    WroteBoth(p.chip, d3, q.chip, pair + enter + bytes, leave);
  }

  method ProgramBytes(a: Adapter, ghost p: Port<Oncd>, cscon3: word, addr: word, nwords: nat, data: array<word>,
                      at: nat, k: FlashKit)
    returns (ghost q: Port<Oncd>)
    requires Ready(a, p) && at + nwords <= data.Length && Separate(a, data) && LaneClear(cscon3)
    modifies a, a.output, a.input
    ensures Ready(a, q) && Wrote(p.chip, q.chip, ByteWrites(k, cscon3, addr, Shifts(data[at..at + nwords])))
    ensures a.bytesToRead <= old(a.bytesToRead)
  {
    hide Ready, Wrote, ByteWrites, Shifts, Plus, TargetBlock.Issued;
    q := p;
    var next := addr;
    ghost var ws := data[at..at + nwords];
    TargetFlash.NoBytesYet(p.chip, true, k, cscon3, addr, ws);
    for i := 0 to nwords
      invariant Ready(a, q) && a.bytesToRead <= old(a.bytesToRead) && next == Plus(addr, 4 * i)
      invariant Wrote(p.chip, q.chip, TargetBlock.Issued(true, ByteWrites(k, cscon3, addr, Shifts(ws[..i]))))
    {
      ghost var d := q.chip;
      q := ProgramFourBytes(a, q, cscon3, next, data[at + i], k);
      TargetFlash.MoreBytes(p.chip, d, q.chip, true, k, cscon3, addr, ws, i);
      PlusPlus(addr, 4 * i, 4);
      next := Plus(next, 4);
    }
    assert ws[..nwords] == ws;
    AsIssued(ByteWrites(k, cscon3, addr, Shifts(ws)));
  }

  method ProgramFourBytes(a: Adapter, ghost p: Port<Oncd>, cscon3: word, addr: word, w: word, k: FlashKit)
    returns (ghost q: Port<Oncd>)
    requires Ready(a, p) && LaneClear(cscon3)
    modifies a, a.output, a.input
    ensures Ready(a, q)
    ensures Wrote(p.chip, q.chip, TargetBlock.Issued(true, ByteWrites(k, cscon3, addr, FourShifts(w))))
    ensures a.bytesToRead <= old(a.bytesToRead)
  {
    hide Ready, Wrote, TwoBytes, ByteWrites, Plus, TargetBlock.Issued;
    ghost var vs := FourShifts(w);
    TargetFlash.NoBytes(p.chip, true, k, cscon3, addr, vs);
    q := ProgramByte(a, p, p, cscon3, addr, w, k, vs, 0);
    q := ProgramByte(a, p, q, cscon3, addr, w / 0x100, k, vs, 1);
    q := ProgramByte(a, p, q, cscon3, addr, w / 0x1_0000, k, vs, 2);
    q := ProgramByte(a, p, q, cscon3, addr, w / 0x100_0000, k, vs, 3);
    assert vs[..4] == vs;
  }

  method ProgramByte(a: Adapter, ghost first: Port<Oncd>, ghost p: Port<Oncd>, cscon3: word, addr: word, v: word,
                     k: FlashKit, ghost vs: seq<word>, i: nat)
    returns (ghost q: Port<Oncd>)
    requires Ready(a, p) && LaneClear(cscon3) && i < |vs| && vs[i] == v
    requires Wrote(first.chip, p.chip, TargetBlock.Issued(true, ByteWrites(k, cscon3, addr, vs[..i])))
    modifies a, a.output, a.input
    ensures Ready(a, q)
    ensures Wrote(first.chip, q.chip, TargetBlock.Issued(true, ByteWrites(k, cscon3, addr, vs[..i + 1])))
    ensures a.bytesToRead <= old(a.bytesToRead)
  {
    hide Ready, Wrote, TwoBytes, ByteWrites, Plus, TargetBlock.Issued;
    q := WriteNwords(a, p, TwoBytes(cscon3, Plus(addr, i), k.a0, Plus(addr, i), v));
    AsIssued(TwoBytes(cscon3, Plus(addr, i), k.a0, Plus(addr, i), v));
    TargetFlash.ByteDone(first.chip, p.chip, q.chip, true, k, cscon3, addr, vs, i);
  }

  lemma AsIssued(ws: seq<BusWrite>)
    ensures TargetBlock.Issued(true, ws) == ws
  {
  }
}
