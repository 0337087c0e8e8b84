/** Blocks of words (target.c:1487-1541, 1591-1617, 676-719), with and without block functions in the adapter. */
module TargetBlock {
  import opened Words
  import opened Chip
  import opened Bus
  import opened Target

  /** The physical words from addr up lie below the addresses that are translated again. */
  predicate Untranslated(addr: word, n: nat) {
    addr + 4 * n <= 0x8000_0000
  }

  lemma PhysStays(addr: word, n: nat, i: nat)
    requires Untranslated(addr, n) && i < n
    ensures Phys(Plus(addr, 4 * i)) == Plus(addr, 4 * i)
  {
  }

  // ------------------------------------------------- What the word loops issue

  /** None of the addresses is translated. */
  predicate Physical(ws: seq<BusWrite>) {
    forall i :: 0 <= i < |ws| ==> ws[i].addr < 0x8000_0000
  }

  /** The writes as target_write_next issues them. */
  function Translated(ws: seq<BusWrite>): (ts: seq<BusWrite>)
    ensures |ts| == |ws|
  {
    if ws == [] then []
    else
      var w := ws[|ws| - 1];
      Translated(ws[..|ws| - 1]) + [BusWrite(Phys(w.addr), w.data)]
  }

  lemma TranslatedNext(ws: seq<BusWrite>, i: nat)
    requires i < |ws|
    ensures Translated(ws[..i + 1]) == Translated(ws[..i]) + [BusWrite(Phys(ws[i].addr), ws[i].data)]
  {
    assert ws[..i + 1][..i] == ws[..i];
  }

  /** With and without block functions the same writes are issued exactly when the addresses are physical. */
  lemma {:induction false} SameWrites(ws: seq<BusWrite>)
    ensures Translated(ws) == ws <==> Physical(ws)
  {
    if ws != [] {
      var n := |ws| - 1;
      var ts := Translated(ws);
      SameWrites(ws[..n]);
      assert ts[..n] == Translated(ws[..n]);
      assert ws == ws[..n] + [ws[n]];
      if Physical(ws) {
        assert Physical(ws[..n]);
      } else if Physical(ws[..n]) {
        assert ws[n].addr >= 0x8000_0000;
        assert ts[n] != ws[n];
      } else {
        assert ts[..n] != ws[..n];
      }
    }
  }

  /** The writes of an adapter's own function, or those of the loop. */
  function Issued(own: bool, ws: seq<BusWrite>): seq<BusWrite> {
    if own then ws else Translated(ws)
  }

  lemma SameIssued(own: bool, ws: seq<BusWrite>)
    requires Translated(ws) == ws
    ensures Issued(own, ws) == ws
  {
  }

  lemma NothingYet(d: Oncd, ws: seq<BusWrite>)
    ensures Wrote(d, d, Translated(ws[..0]))
  {
    WroteNothing(d, d);
  }

  lemma Another(d: Oncd, d1: Oncd, d2: Oncd, ws: seq<BusWrite>, i: nat)
    requires i < |ws| && Wrote(d, d1, Translated(ws[..i]))
    requires var p, v := Phys(ws[i].addr), ws[i].data;
             d2 == d1.(oscr := d2.oscr, omar := p, omdr := v, mem := d1.mem[p := v], bus := d1.bus + [BusWrite(p, v)])
    ensures Wrote(d, d2, Translated(ws[..i + 1]))
  {
    hide Wrote, Translated;
    WordStored(d1, d2, Phys(ws[i].addr), ws[i].data);
    TranslatedNext(ws, i);
    WroteMore(d, d1, d2, Translated(ws[..i]), Phys(ws[i].addr), ws[i].data);
  }

  /** A block below the translated addresses is issued as it is. */
  lemma BlockIssued(own: bool, addr: word, data: seq<word>)
    requires Untranslated(addr, |data|)
    ensures Issued(own, BlockWrites(addr, data)) == BlockWrites(addr, data)
  {
    SameWrites(BlockWrites(addr, data));
    BlockIsPhysical(addr, data);
  }

  lemma {:induction false} BlockIsPhysical(addr: word, data: seq<word>)
    requires Untranslated(addr, |data|)
    ensures Physical(BlockWrites(addr, data))
  {
    if data != [] {
      BlockIsPhysical(addr, data[..|data| - 1]);
    }
  }

  lemma {:induction false} BlockWriteAt(addr: word, data: seq<word>, i: nat)
    requires i < |data|
    ensures |BlockWrites(addr, data)| == |data| && BlockWrites(addr, data)[i] == BusWrite(Plus(addr, 4 * i), data[i])
    ensures BlockWrites(addr, data)[..i] == BlockWrites(addr, data[..i])
  {
    var n := |data| - 1;
    var before := BlockWrites(addr, data[..n]);
    BlockLength(addr, data[..n]);
    if i < n {
      BlockWriteAt(addr, data[..n], i);
      assert data[..n][..i] == data[..i];
    }
  }

  lemma {:induction false} BlockLength(addr: word, data: seq<word>)
    ensures |BlockWrites(addr, data)| == |data|
  {
    if data != [] {
      BlockLength(addr, data[..|data| - 1]);
    }
  }

  /** The words a block function returns, or the word loop, which translates each address once more. */
  function Fetched(own: bool, mem: map<word, word>, addr: word, n: nat): (ws: seq<word>)
    ensures |ws| == n
  {
    if own then BlockRead(mem, addr, n)
    else if n == 0 then []
    else Fetched(own, mem, addr, n - 1) + [Cell(mem, Phys(Plus(addr, 4 * (n - 1))))]
  }

  lemma {:induction false} BlockFetched(own: bool, mem: map<word, word>, addr: word, n: nat)
    requires Untranslated(addr, n)
    ensures Fetched(own, mem, addr, n) == BlockRead(mem, addr, n)
  {
    if !own && n > 0 {
      BlockFetched(own, mem, addr, n - 1);
      PhysStays(addr, n, n - 1);
    }
  }

  // ---------------------------------------------------- The adapter's functions

  /** What an adapter's read_block does: see MpsseBlock.ReadBlock. */
  method AdapterReadBlock(a: Adapter, nwords: nat, addr: word, data: array<word>, at: nat)
    requires a.Synced() && at + nwords <= data.Length
    modifies a, data
    ensures a.Synced() && Browsed(old(a.chip), a.chip)
    ensures data[..] == Spliced(old(data[..]), at, BlockRead(old(a.chip.mem), addr, nwords))
  {
    hide Has;
    ReadStart(a);
    var ws := BlockRead(a.chip.mem, addr, nwords);
    forall i | 0 <= i < nwords {
      data[at + i] := ws[i];
    }
  }

  /** What an adapter's write_block does: see MpsseBlock.WriteBlock. */
  method AdapterWriteBlock(a: Adapter, nwords: nat, addr: word, data: array<word>, at: nat)
    requires a.Synced() && at + nwords <= data.Length
    modifies a
    ensures a.Synced() && Wrote(old(a.chip), a.chip, BlockWrites(addr, data[at..at + nwords]))
  {
    hide Has;
    WriteStart(a);
    var ws := BlockWrites(addr, data[at..at + nwords]);
    a.chip := a.chip.(mem := Commit(a.chip.mem, ws), bus := a.chip.bus + ws);
  }

  /** What an adapter's program_block32 does: see MpsseBlock.ProgramBlock32. */
  method AdapterProgramBlock32(a: Adapter, nwords: nat, base: word, addr: word, data: array<word>, at: nat, k: FlashKit)
    requires a.Synced() && at + nwords <= data.Length
    modifies a
    ensures a.Synced() && Wrote(old(a.chip), a.chip, ProgramWrites(k, base, addr, data[at..at + nwords]))
  {
    hide Has;
    WriteStart(a);
    var ws := ProgramWrites(k, base, addr, data[at..at + nwords]);
    a.chip := a.chip.(mem := Commit(a.chip.mem, ws), bus := a.chip.bus + ws);
  }

  /** What an adapter's write_nwords does: see MpsseBlock.WriteNwords. */
  method AdapterWriteNwords(a: Adapter, ws: seq<BusWrite>)
    requires a.Synced()
    modifies a
    ensures a.Synced() && Wrote(old(a.chip), a.chip, ws)
  {
    hide Has;
    WriteStart(a);
    a.chip := a.chip.(mem := Commit(a.chip.mem, ws), bus := a.chip.bus + ws);
  }

  // ------------------------------------------------------------------ Reading

  /** target_read_block */
  method ReadBlock(a: Adapter, addr: word, nwords: nat, data: array<word>, at: nat)
    requires a.Synced() && at + nwords <= data.Length
    modifies a, data
    ensures a.Synced() && Browsed(old(a.chip), a.chip)
    ensures data[..] == Spliced(old(data[..]), at, Fetched(a.blockWords > 0, old(a.chip.mem), Phys(addr), nwords))
    ensures Untranslated(Phys(addr), nwords) ==>
              data[..] == Spliced(old(data[..]), at, BlockRead(old(a.chip.mem), Phys(addr), nwords))
  {
    hide Has, Spliced, BlockRead, Untranslated;
    var first, done := Phys(addr), 0;
    ghost var before, d := data[..], a.chip;
    if Untranslated(first, nwords) {
      BlockFetched(a.blockWords > 0, d.mem, first, nwords);
    }
    SpliceNothing(before, at);
    if a.blockWords > 0 {
      var next := first;
      assert BlockRead(d.mem, first, 0) == [] by { NoWords(d.mem, first); }
      while done < nwords
        invariant done <= nwords && next == Plus(first, 4 * done)
        invariant a.Synced() && Browsed(d, a.chip)
        invariant data[..] == Spliced(before, at, BlockRead(d.mem, first, done))
      {
        var n := if nwords - done > a.blockWords then a.blockWords else nwords - done;
        AdapterReadBlock(a, n, next, data, at + done);
        SpliceBoth(before, at, BlockRead(d.mem, first, done), BlockRead(d.mem, next, n));
        BlockReadAppend(d.mem, first, done, n);
        PlusPlus(first, 4 * done, 4 * n);
        done, next := done + n, Plus(next, n * 4);
      }
      return;
    }
    ReadStart(a);
    for i := 0 to nwords
      invariant a.Synced() && Has(a.oscr, SLCT_MEM) && Has(a.oscr, RO) && Browsed(d, a.chip)
      invariant data[..] == Spliced(before, at, Fetched(false, d.mem, first, i))
    {
      ghost var d1 := data[..];
      var w := ReadNext(a, Plus(first, 4 * i));
      data[at + i] := w;
      SpliceOne(d1, at + i, w);
      SpliceBoth(before, at, Fetched(false, d.mem, first, i), [w]);
    }
  }

  lemma NoWords(mem: map<word, word>, addr: word)
    ensures BlockRead(mem, addr, 0) == []
  {
  }

  // ------------------------------------------------------------------ Writing

  /** With no words to write, the loop without block functions still writes the first one. */
  function WordsStored(a: Adapter, nwords: nat): nat {
    if a.blockWords == 0 && nwords == 0 then 1 else nwords
  }

  /** target_write_block */
  method WriteBlock(a: Adapter, addr: word, nwords: nat, data: array<word>, at: nat)
    requires a.Synced() && at + WordsStored(a, nwords) <= data.Length
    modifies a
    ensures a.Synced()
    ensures var ws := data[at..at + WordsStored(a, nwords)];
            Wrote(old(a.chip), a.chip, Issued(a.blockWords > 0, BlockWrites(Phys(addr), ws)))
    ensures Untranslated(Phys(addr), WordsStored(a, nwords)) ==>
              Wrote(old(a.chip), a.chip, BlockWrites(Phys(addr), data[at..at + WordsStored(a, nwords)]))
  {
    hide Has, Wrote, BlockWrites, Untranslated, Stored, Translated;
    var first := Phys(addr);
    ghost var ws := data[at..at + WordsStored(a, nwords)];
    if Untranslated(first, |ws|) {
      BlockIssued(a.blockWords > 0, first, ws);
    }
    if a.blockWords > 0 {
      WriteChunks(a, first, nwords, data, at);
    } else {
      WriteWords(a, first, nwords, data, at);
    }
  }

  method WriteChunks(a: Adapter, first: word, nwords: nat, data: array<word>, at: nat)
    requires a.Synced() && a.blockWords > 0 && at + nwords <= data.Length
    modifies a
    ensures a.Synced() && Wrote(old(a.chip), a.chip, BlockWrites(first, data[at..at + nwords]))
  {
    hide Has, Wrote, BlockWrites, Stored;
    ghost var d, ws := a.chip, data[at..at + nwords];
    var done, next := 0, first;
    Start(d, d, first);
    assert ws[..0] == [];
    while done < nwords
      invariant done <= nwords && next == Plus(first, 4 * done) && a.Synced()
      invariant Wrote(d, a.chip, BlockWrites(first, ws[..done]))
    {
      var n := if nwords - done > a.blockWords then a.blockWords else nwords - done;
      ghost var d1, part := a.chip, data[at + done..at + done + n];
      AdapterWriteBlock(a, n, next, data, at + done);
      WroteBoth(d, d1, a.chip, BlockWrites(first, ws[..done]), BlockWrites(next, part));
      BlockAppend(first, ws[..done], part);
      assert ws[..done] + part == ws[..done + n];
      PlusPlus(first, 4 * done, 4 * n);
      done, next := done + n, Plus(next, n * 4);
    }
    assert ws[..nwords] == ws;
  }

  /** The first word is written even when there are none. */
  method WriteWords(a: Adapter, first: word, nwords: nat, data: array<word>, at: nat)
    requires a.Synced() && a.blockWords == 0 && at + WordsStored(a, nwords) <= data.Length
    modifies a
    ensures a.Synced()
    ensures Wrote(old(a.chip), a.chip, Translated(BlockWrites(first, data[at..at + WordsStored(a, nwords)])))
  {
    hide Has, Wrote, BlockWrites, Stored, Translated;
    ghost var n := WordsStored(a, nwords);
    ghost var d, ws := a.chip, data[at..at + n];
    ghost var all := BlockWrites(first, ws);
    NothingYet(d, all);
    BlockWriteAt(first, ws, 0);
    WriteWord(a, first, data[at]);
    Another(d, d, a.chip, all, 0);
    var i := 1;
    while i < nwords
      invariant 1 <= i <= n && a.Synced() && Has(a.oscr, SLCT_MEM) && !Has(a.oscr, RO)
      invariant Wrote(d, a.chip, Translated(all[..i]))
    {
      ghost var d1 := a.chip;
      BlockWriteAt(first, ws, i);
      WriteNext(a, Plus(first, 4 * i), data[at + i]);
      Another(d, d1, a.chip, all, i);
      i := i + 1;
    }
    assert all[..n] == all;
  }

  lemma Start(d: Oncd, d': Oncd, addr: word)
    requires d' == d.(oscr := d'.oscr)
    ensures Wrote(d, d', BlockWrites(addr, []))
  {
    WroteNothing(d, d');
  }

  lemma WordStored(d: Oncd, d': Oncd, addr: word, v: word)
    requires d' == d.(oscr := d'.oscr, omar := addr, omdr := v, mem := d.mem[addr := v], bus := d.bus + [BusWrite(addr, v)])
    ensures Stored(d, d', addr, v)
  {
  }
}
