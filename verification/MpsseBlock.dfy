/** Block transfers through the FT2232 adapter (adapter-mpsse.c:527-636). */
module MpsseBlock {
  import opened Words
  import opened Bits
  import opened Jtag
  import opened Ftdi
  import opened Scan
  import opened Decode
  import opened Mpsse
  import opened OncdPort
  import opened MpsseOncd
  import opened Chip
  import opened Bus

  const BATCH: int := 10
  const REPLY: int := 6  // bytes the engine returns for a 41-bit read

  /** The adapter drives p, whose memory cycles the host's copy of OSCR describes. */
  ghost predicate Ready(a: Adapter, p: Port<Oncd>)
    reads a, a.output, a.input
  {
    Attached(a, p) && Agree(a.oscr, p.chip.oscr)
  }

  /** Allow memory access: OSCR is written only when the host's copy has to change. */
  method Allow(a: Adapter, ghost p: Port<Oncd>, reading: bool) returns (ghost q: Port<Oncd>)
    requires Ready(a, p)
    modifies a, a.output, a.input
    ensures Ready(a, q) && Selects(a.oscr, reading) && q.chip == p.chip.(oscr := q.chip.oscr)
    ensures a.bytesToRead <= old(a.bytesToRead)
  {
    hide DoAll, Packet, MasksOf, SerializeAll, Listening, TapDevice, Pow2;
    q := p;
    SelectRead(a.oscr);
    SelectWrite(a.oscr);
    var oscrNew := if reading then Set(Set(a.oscr, SLCT_MEM), RO) else Set(Clear(a.oscr, RO), SLCT_MEM);
    if oscrNew != a.oscr {
      Powers();
      a.oscr := oscrNew;
      q := OncdWrite(a, p, a.oscr, OSCR, 32);
    }
  }

  // ------------------------------------------------------------------ Writing

  /** Queues one write cycle. */
  method StoreNext(a: Adapter, ghost p: Port<Oncd>, addr: word, v: word) returns (ghost q: Port<Oncd>)
    requires Ready(a, p) && Selects(a.oscr, false)
    modifies a, a.output, a.input
    ensures Ready(a, q) && Stored(p.chip, q.chip, addr, v) && a.oscr == old(a.oscr)
    ensures a.bytesToRead <= old(a.bytesToRead)
  {
    hide DoAll, Packet, MasksOf, SerializeAll, Listening, TapDevice, Pow2, Write, Has;
    StoreCycle(p.chip, addr, v);
    Powers();
    q := OncdWrite(a, p, addr, OMAR, 32);
    q := OncdWrite(a, q, v, OMDR, 32);
    q := OncdWrite(a, q, 0, MEM, 0);
  }

  ghost predicate Separate(a: Adapter, data: array<word>) {
    var d: object := data;
    d != a.output && d != a.input && d != a
  }

  /** nwords words of data, from index `at`, are written to memory from addr up. */
  method WriteBlock(a: Adapter, ghost p: Port<Oncd>, nwords: nat, addr: word, data: array<word>, at: nat)
    returns (ghost q: Port<Oncd>)
    requires Ready(a, p) && at + nwords <= data.Length && Separate(a, data)
    modifies a, a.output, a.input
    ensures Ready(a, q) && Wrote(p.chip, q.chip, BlockWrites(addr, data[at..at + nwords]))
    ensures a.bytesToRead <= old(a.bytesToRead)
  {
    hide DoAll, Packet, MasksOf, SerializeAll, Attached, Pow2, Has, Stored, Wrote, BlockWrites;
    ghost var ws := data[at..at + nwords];
    q := Allow(a, p, false);
    Unmoved(p.chip, q.chip, addr);
    var next := addr;
    for i := 0 to nwords
      invariant a.bytesToRead <= old(a.bytesToRead)
      invariant Ready(a, q) && Selects(a.oscr, false) && next == Plus(addr, 4 * i)
      invariant Wrote(p.chip, q.chip, BlockWrites(addr, ws[..i]))
    {
      ghost var d := q.chip;
      q := StoreNext(a, q, next, data[at + i]);
      BlockNext(addr, ws, i);
      WroteMore(p.chip, d, q.chip, BlockWrites(addr, ws[..i]), next, ws[i]);
      next := Plus(next, 4);
    }
    assert ws[..nwords] == ws;
  }

  /** Writes each word to the address given with it. */
  method WriteNwords(a: Adapter, ghost p: Port<Oncd>, ws: seq<BusWrite>) returns (ghost q: Port<Oncd>)
    requires Ready(a, p)
    modifies a, a.output, a.input
    ensures Ready(a, q) && Wrote(p.chip, q.chip, ws)
    ensures a.bytesToRead <= old(a.bytesToRead)
  {
    hide DoAll, Packet, MasksOf, SerializeAll, Attached, Pow2, Has, Stored, Wrote;
    q := Allow(a, p, false);
    WroteNothing(p.chip, q.chip);
    assert ws[..0] == [];
    for i := 0 to |ws|
      invariant a.bytesToRead <= old(a.bytesToRead)
      invariant Ready(a, q) && Selects(a.oscr, false) && Wrote(p.chip, q.chip, ws[..i])
    {
      ghost var d := q.chip;
      q := StoreNext(a, q, ws[i].addr, ws[i].data);
      WroteMore(p.chip, d, q.chip, ws[..i], ws[i].addr, ws[i].data);
      assert ws[..i + 1] == ws[..i] + [BusWrite(ws[i].addr, ws[i].data)];
    }
    assert ws[..|ws|] == ws;
  }

  lemma Unmoved(d: Oncd, d': Oncd, addr: word)
    requires d' == d.(oscr := d'.oscr)
    ensures Wrote(d, d', BlockWrites(addr, []))
  {
    WroteNothing(d, d');
  }

  /** Programs flash: the command sequence for each word, with no flush forced in between. */
  method ProgramBlock32(a: Adapter, ghost p: Port<Oncd>, nwords: nat, base: word, addr: word,
                        data: array<word>, at: nat, k: FlashKit)
    returns (ghost q: Port<Oncd>)
    requires Ready(a, p) && at + nwords <= data.Length && Separate(a, data)
    modifies a, a.output, a.input
    ensures Ready(a, q) && Wrote(p.chip, q.chip, ProgramWrites(k, base, addr, data[at..at + nwords]))
    ensures a.bytesToRead <= old(a.bytesToRead)
  {
    hide DoAll, Packet, MasksOf, SerializeAll, Attached, Pow2, Has, Stored, Wrote, ProgramWrites;
    ghost var ws := data[at..at + nwords];
    q := Allow(a, p, false);
    Unmoved32(k, base, addr, p.chip, q.chip);
    var next := addr;
    for i := 0 to nwords
      invariant a.bytesToRead <= old(a.bytesToRead)
      invariant Ready(a, q) && Selects(a.oscr, false) && next == Plus(addr, 4 * i)
      invariant Wrote(p.chip, q.chip, ProgramWrites(k, base, addr, ws[..i]))
    {
      ghost var d := q.chip;
      q := ProgramNextWord(a, q, base, next, data[at + i], k);
      ProgramNext(k, base, addr, ws, i);
      WroteBoth(p.chip, d, q.chip, ProgramWrites(k, base, addr, ws[..i]), ProgramWord(k, base, next, ws[i]));
      next := Plus(next, 4);
    }
    assert ws[..nwords] == ws;
  }

  lemma Unmoved32(k: FlashKit, base: word, addr: word, d: Oncd, d': Oncd)
    requires d' == d.(oscr := d'.oscr)
    ensures Wrote(d, d', ProgramWrites(k, base, addr, []))
  {
    WroteNothing(d, d');
  }

  method ProgramNextWord(a: Adapter, ghost p: Port<Oncd>, base: word, addr: word, v: word, k: FlashKit)
    returns (ghost q: Port<Oncd>)
    requires Ready(a, p) && Selects(a.oscr, false)
    modifies a, a.output, a.input
    ensures Ready(a, q) && Wrote(p.chip, q.chip, ProgramWord(k, base, addr, v)) && a.oscr == old(a.oscr)
    ensures a.bytesToRead <= old(a.bytesToRead)
  {
    hide DoAll, Packet, MasksOf, SerializeAll, Attached, Pow2, Has, Stored, Wrote;
    ghost var odd, even := Plus(base, k.odd), Plus(base, k.even);
    ghost var d1, d2, d3;
    q := StoreNext(a, p, Plus(base, k.odd), k.aa);
    d1 := q.chip;
    q := StoreNext(a, q, Plus(base, k.even), k.c55);
    d2 := q.chip;
    q := StoreNext(a, q, Plus(base, k.odd), k.a0);
    d3 := q.chip;
    q := StoreNext(a, q, addr, v);
    FourStores(p.chip, d1, d2, d3, q.chip, odd, k.aa, even, k.c55, odd, k.a0, addr, v);
  }

  // ------------------------------------------------------------------ Reading

  /** One word of a batch: three transactions, one answer. */
  method FetchNext(a: Adapter, ghost p: Port<Oncd>, addr: word) returns (ghost q: Port<Oncd>, ghost r: seq<octet>)
    requires Ready(a, p) && Selects(a.oscr, true)
    requires a.bytesToWrite + 3 * PACKET_SIZE <= OUTPUT_SIZE && a.bytesToRead + 6 <= INPUT_SIZE - 2
    modifies a, a.output, a.input
    ensures Ready(a, q) && Fetched(p.chip, q.chip, addr) && a.oscr == old(a.oscr)
    ensures a.bytesToWrite <= old(a.bytesToWrite) + 3 * PACKET_SIZE && a.bytesToRead == old(a.bytesToRead) + 6
    ensures a.ahead.reply == old(a.ahead).reply + r && Answers(r, Cell(p.chip.mem, addr), 32)
    ensures a.masks == MasksOf(41) && a.bytesPerWord == 6
  {
    hide DoAll, Packet, MasksOf, SerializeAll, Listening, TapDevice, Pow2, Write, Read, Answers, Has, Cell;
    FetchCycle(p.chip, addr);
    Powers();
    q := OncdWrite(a, p, addr, OMAR, 32);
    q := OncdWrite(a, q, 0, MEM, 0);
    SmallReply(32);
    q, r := QueueRead(a, q, OMDR, 32);
  }

  /** rs holds the answers to reads of registers that held ws. */
  ghost predicate AllAnswered(rs: seq<octet>, ws: seq<word>) {
    |rs| == REPLY * |ws|
    && forall j :: 0 <= j < |ws| ==> Answers(rs[REPLY * j..REPLY * j + REPLY], ws[j], 32)
  }

  lemma AnsweredNext(rs: seq<octet>, ws: seq<word>, r: seq<octet>, w: word)
    requires AllAnswered(rs, ws) && Answers(r, w, 32) && |r| == REPLY
    ensures AllAnswered(rs + r, ws + [w])
  {
    hide Answers;
    forall j | 0 <= j < |ws| + 1
      ensures Answers((rs + r)[REPLY * j..REPLY * j + REPLY], (ws + [w])[j], 32)
    {
      if j == |ws| {
        assert (rs + r)[REPLY * j..REPLY * j + REPLY] == r;
      } else {
        assert (rs + r)[REPLY * j..REPLY * j + REPLY] == rs[REPLY * j..REPLY * j + REPLY];
      }
    }
  }

  lemma AnsweredAt(rs: seq<octet>, ws: seq<word>, input: seq<octet>, i: nat)
    requires AllAnswered(rs, ws) && i < |ws| && |rs| <= |input| && input[..|rs|] == rs && REPLY * i + 8 <= |input|
    ensures Fixed(MasksOf(41), input, REPLY * i) == ws[i]
  {
    hide Answers, MasksOf, Fixed;
    var r := rs[REPLY * i..REPLY * i + REPLY];
    assert input[REPLY * i..REPLY * i + |r|] == r;
    AnswerDecodes(input, REPLY * i, r, ws[i], 32);
    Powers();
  }

  /** Queues a batch.  It fits the empty output buffer, so nothing is flushed before the end. */
  method QueueBatch(a: Adapter, ghost p: Port<Oncd>, n: nat, addr: word) returns (ghost q: Port<Oncd>)
    requires Ready(a, p) && Selects(a.oscr, true) && 0 < n <= BATCH
    requires a.bytesToWrite == 0 && a.bytesToRead == 0
    modifies a, a.output, a.input
    ensures Ready(a, q) && Browsed(p.chip, q.chip) && a.oscr == old(a.oscr)
    ensures a.bytesToRead == REPLY * n && AllAnswered(a.ahead.reply, BlockRead(p.chip.mem, addr, n))
    ensures a.masks == MasksOf(41) && a.bytesPerWord == REPLY
  {
    hide DoAll, MasksOf, SerializeAll, Listening, TapDevice, Pow2, Answers, Has, Cell;
    q := p;
    ghost var rs: seq<octet> := [];
    assert a.ahead.reply == rs;
    for i := 0 to n
      invariant Ready(a, q) && Selects(a.oscr, true) && Browsed(p.chip, q.chip) && a.oscr == old(a.oscr)
      invariant a.bytesToRead == REPLY * i && a.bytesToWrite <= 3 * PACKET_SIZE * i
      invariant a.ahead.reply == rs && AllAnswered(rs, BlockRead(p.chip.mem, addr, i))
      invariant i > 0 ==> a.masks == MasksOf(41) && a.bytesPerWord == REPLY
    {
      ghost var r;
      q, r := FetchNext(a, q, Plus(addr, 4 * i));
      AnsweredNext(rs, BlockRead(p.chip.mem, addr, i), r, Cell(p.chip.mem, Plus(addr, 4 * i)));
      rs := rs + r;
    }
  }

  /** Decodes a batch of answers, six bytes apart. */
  method DecodeBatch(a: Adapter, n: nat, ghost ws: seq<word>, data: array<word>, at: nat)
    requires n == |ws| <= BATCH && at + n <= data.Length && a.input.Length == INPUT_SIZE && Separate(a, data)
    requires AllAnswered(a.input[..REPLY * n], ws) && a.masks == MasksOf(41) && a.bytesPerWord == REPLY
    modifies data
    ensures data[..] == Spliced(old(data[..]), at, ws)
  {
    hide MasksOf, Answers, Fixed, AllAnswered, Spliced;
    ghost var before, rs := data[..], a.input[..REPLY * n];
    SpliceNothing(before, at);
    assert ws[..0] == [];
    for i := 0 to n
      invariant data[..] == Spliced(before, at, ws[..i])
    {
      AnsweredAt(rs, ws, a.input[..], i);
      SpliceNext(before, at, ws, i);
      data[at + i] := Fixed(a.masks, a.input[..], i * a.bytesPerWord);
    }
    assert ws[..n] == ws;
  }

  method ReadBatch(a: Adapter, ghost p: Port<Oncd>, n: nat, addr: word, data: array<word>, at: nat)
    returns (ghost q: Port<Oncd>)
    requires Ready(a, p) && Selects(a.oscr, true) && 0 < n <= BATCH
    requires a.bytesToWrite == 0 && a.bytesToRead == 0 && at + n <= data.Length && Separate(a, data)
    modifies a, a.output, a.input, data
    ensures Ready(a, q) && Browsed(p.chip, q.chip) && Selects(a.oscr, true)
    ensures a.bytesToWrite == 0 && a.bytesToRead == 0
    ensures data[..] == Spliced(old(data[..]), at, BlockRead(p.chip.mem, addr, n))
  {
    hide Attached, MasksOf, Has, BlockRead, AllAnswered, Spliced;
    q := QueueBatch(a, p, n, addr);
    Deliver(a, q);
    DecodeBatch(a, n, BlockRead(p.chip.mem, addr, n), data, at);
  }

  /** Reads nwords words from addr up, in batches, as a loop reading one word at a time would. */
  method ReadBlock(a: Adapter, ghost p: Port<Oncd>, nwords: nat, addr: word, data: array<word>, at: nat)
    returns (ghost q: Port<Oncd>)
    requires Ready(a, p) && a.bytesToRead == 0 && at + nwords <= data.Length && Separate(a, data)
    modifies a, a.output, a.input, data
    ensures Ready(a, q) && Browsed(p.chip, q.chip) && a.bytesToRead == 0
    ensures data[..] == Spliced(old(data[..]), at, BlockRead(p.chip.mem, addr, nwords))
  {
    hide Attached, MasksOf, Has, BlockRead, Spliced;
    q := Allow(a, p, true);
    Deliver(a, q);
    ghost var before, mem := data[..], p.chip.mem;
    var done, next := 0, addr;
    NothingRead(before, at, mem, addr);
    while done < nwords
      invariant done <= nwords && next == Plus(addr, 4 * done)
      invariant Ready(a, q) && Selects(a.oscr, true) && Browsed(p.chip, q.chip)
      invariant a.bytesToRead == 0 && a.bytesToWrite == 0
      invariant data[..] == Spliced(before, at, BlockRead(mem, addr, done))
    {
      var n := if nwords - done > BATCH then BATCH else nwords - done;
      q := ReadBatch(a, q, n, next, data, at + done);
      SpliceBoth(before, at, BlockRead(mem, addr, done), BlockRead(mem, next, n));
      BlockReadAppend(mem, addr, done, n);
      PlusPlus(addr, 4 * done, 4 * n);
      done, next := done + n, Plus(next, n * 4);
    }
  }

  lemma NothingRead(data: seq<word>, at: nat, mem: map<word, word>, addr: word)
    requires at <= |data|
    ensures data == Spliced(data, at, BlockRead(mem, addr, 0))
  {
  }
}
