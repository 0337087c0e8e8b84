/** Flash programming loops (target.c:727-776, 1543-1617). */
module TargetFlash {
  import opened Words
  import opened Chip
  import opened Bus
  import opened Target
  import opened TargetBlock
  import opened Flash

  /** target_write_nwords */
  method WriteNwords(a: Adapter, ws: seq<BusWrite>)
    requires a.Synced() && (a.writesNwords || |ws| > 0)
    modifies a
    ensures a.Synced() && Wrote(old(a.chip), a.chip, Issued(a.writesNwords, ws))
  {
    hide Has, Wrote, Stored, Translated;
    if a.writesNwords {
      AdapterWriteNwords(a, ws);
      return;
    }
    WriteLoop(a, ws);
  }

  method WriteLoop(a: Adapter, ws: seq<BusWrite>)
    requires a.Synced() && |ws| > 0
    modifies a
    ensures a.Synced() && Wrote(old(a.chip), a.chip, Translated(ws))
  {
    hide Has, Wrote, Stored, Translated;
    ghost var d := a.chip;
    NothingYet(d, ws);
    WriteWord(a, ws[0].addr, ws[0].data);
    Another(d, d, a.chip, ws, 0);
    for i := 1 to |ws|
      invariant a.Synced() && Has(a.oscr, SLCT_MEM) && !Has(a.oscr, RO)
      invariant Wrote(d, a.chip, Translated(ws[..i]))
    {
      ghost var d1 := a.chip;
      WriteNext(a, ws[i].addr, ws[i].data);
      Another(d, d1, a.chip, ws, i);
    }
    assert ws[..|ws|] == ws;
  }

  lemma {:induction false} TranslatedAppend(a: seq<BusWrite>, b: seq<BusWrite>)
    ensures Translated(a + b) == Translated(a) + Translated(b)
  {
    if b == [] {
      assert a + b == a;
    } else {
      var n := |b| - 1;
      assert (a + b)[..|a| + n] == a + b[..n];
      TranslatedAppend(a, b[..n]);
    }
  }

  lemma NoneIssued(d: Oncd, own: bool)
    ensures Wrote(d, d, Issued(own, []))
  {
    WroteNothing(d, d);
  }

  /** One after the other, as they are issued. */
  lemma IssuedBoth(d: Oncd, d1: Oncd, d2: Oncd, own: bool, a: seq<BusWrite>, b: seq<BusWrite>)
    requires Wrote(d, d1, Issued(own, a)) && Wrote(d1, d2, Issued(own, b))
    ensures Wrote(d, d2, Issued(own, a + b))
  {
    hide Wrote, Translated;
    TranslatedAppend(a, b);
    WroteBoth(d, d1, d2, Issued(own, a), Issued(own, b));
  }

  // ------------------------------------------------------------------ 32-bit bus

  /** The command addresses and the block lie in physical memory. */
  predicate InReach(k: FlashKit, base: word, addr: word, n: nat) {
    Plus(base, k.odd) < 0x8000_0000 && Plus(base, k.even) < 0x8000_0000 && Untranslated(addr, n)
  }

  /** Then none of the programming sequence is translated. */
  lemma {:induction false} ReachIsPhysical(k: FlashKit, base: word, addr: word, data: seq<word>)
    requires InReach(k, base, addr, |data|)
    ensures Translated(ProgramWrites(k, base, addr, data)) == ProgramWrites(k, base, addr, data)
  {
    if data != [] {
      var n := |data| - 1;
      hide ProgramWord, Translated;
      ReachIsPhysical(k, base, addr, data[..n]);
      WordInReach(k, base, addr, |data|, n, data[n]);
      TranslatedAppend(ProgramWrites(k, base, addr, data[..n]), ProgramWord(k, base, Plus(addr, 4 * n), data[n]));
    } else {
      SameWrites([]);
    }
  }

  /** target_program_block32: the same bus writes, word by word or in batches of any size. */
  method ProgramBlock32(a: Adapter, addr: word, base: word, nwords: nat, data: array<word>, at: nat, k: FlashKit)
    requires a.Synced() && at + nwords <= data.Length
    modifies a
    ensures a.Synced()
    ensures var ws := ProgramWrites(k, base, addr, data[at..at + nwords]);
            Wrote(old(a.chip), a.chip, Issued(a.programBlockWords > 0 || a.writesNwords, ws))
    ensures InReach(k, base, addr, nwords) ==>
              Wrote(old(a.chip), a.chip, ProgramWrites(k, base, addr, data[at..at + nwords]))
  {
    hide Has, Wrote, ProgramWrites, InReach, ProgramWord, Translated;
    ghost var d, ws := a.chip, data[at..at + nwords];
    if a.programBlockWords > 0 {
      Begin(d, k, base, addr, ws);
      var done, next := 0, addr;
      while done < nwords
        invariant done <= nwords && next == Plus(addr, 4 * done) && a.Synced()
        invariant Wrote(d, a.chip, ProgramWrites(k, base, addr, ws[..done]))
      {
        var n := if nwords - done > a.programBlockWords then a.programBlockWords else nwords - done;
        ghost var d1, part := a.chip, data[at + done..at + done + n];
        AdapterProgramBlock32(a, n, base, next, data, at + done, k);
        WroteBoth(d, d1, a.chip, ProgramWrites(k, base, addr, ws[..done]), ProgramWrites(k, base, next, part));
        ProgramAppend(k, base, addr, ws[..done], part);
        assert ws[..done] + part == ws[..done + n];
        PlusPlus(addr, 4 * done, 4 * n);
        done, next := done + n, Plus(next, n * 4);
      }
      assert ws[..nwords] == ws;
      return;
    }
    ProgramWordLoop(a, addr, base, nwords, data, at, k);
    if InReach(k, base, addr, nwords) {
      ReachIsPhysical(k, base, addr, ws);
    }
  }

  method ProgramWordLoop(a: Adapter, addr: word, base: word, nwords: nat, data: array<word>, at: nat, k: FlashKit)
    requires a.Synced() && at + nwords <= data.Length
    modifies a
    ensures a.Synced()
    ensures Wrote(old(a.chip), a.chip, Issued(a.writesNwords, ProgramWrites(k, base, addr, data[at..at + nwords])))
  {
    hide Has, Wrote, ProgramWrites, ProgramWord, Issued;
    ghost var d, own, ws := a.chip, a.writesNwords, data[at..at + nwords];
    assert ProgramWrites(k, base, addr, ws[..0]) == [] by { NoneProgrammed(k, base, addr, ws); }
    assert Wrote(d, d, Issued(own, [])) by { NoneIssued(d, own); }
    var next := addr;
    for i := 0 to nwords
      invariant next == Plus(addr, 4 * i) && a.Synced()
      invariant Wrote(d, a.chip, Issued(own, ProgramWrites(k, base, addr, ws[..i])))
    {
      ghost var d1 := a.chip;
      WriteNwords(a, ProgramWord(k, base, next, data[at + i])) by { FourWrites(k, base, next, data[at + i]); }
      ProgramNext(k, base, addr, ws, i);
      IssuedBoth(d, d1, a.chip, own, ProgramWrites(k, base, addr, ws[..i]), ProgramWord(k, base, next, ws[i]));
      PlusPlus(addr, 4 * i, 4);
      next := Plus(next, 4);
    }
    assert ws[..nwords] == ws;
  }

  lemma NoneProgrammed(k: FlashKit, base: word, addr: word, ws: seq<word>)
    ensures ProgramWrites(k, base, addr, ws[..0]) == []
  {
  }

  lemma FourWrites(k: FlashKit, base: word, addr: word, v: word)
    ensures |ProgramWord(k, base, addr, v)| == 4
  {
  }

  lemma Begin(d: Oncd, k: FlashKit, base: word, addr: word, ws: seq<word>)
    ensures Wrote(d, d, ProgramWrites(k, base, addr, ws[..0]))
  {
    WroteNothing(d, d);
  }

  lemma WordInReach(k: FlashKit, base: word, addr: word, n: nat, i: nat, v: word)
    requires InReach(k, base, addr, n) && i < n
    ensures Translated(ProgramWord(k, base, Plus(addr, 4 * i), v)) == ProgramWord(k, base, Plus(addr, 4 * i), v)
  {
    SameWrites(ProgramWord(k, base, Plus(addr, 4 * i), v));
  }

  // ------------------------------------------------------------------- 8-bit bus

  method Write2Bytes(a: Adapter, cscon3: word, a1: word, v1: word, a2: word, v2: word)
    requires a.Synced() && LaneClear(cscon3)
    modifies a
    ensures a.Synced() && Wrote(old(a.chip), a.chip, Issued(a.writesNwords, TwoBytes(cscon3, a1, v1, a2, v2)))
  {
    WriteNwords(a, TwoBytes(cscon3, a1, v1, a2, v2));
  }

  method WriteByte(a: Adapter, cscon3: word, addr: word, v: word)
    requires a.Synced() && LaneClear(cscon3)
    modifies a
    ensures a.Synced() && Wrote(old(a.chip), a.chip, Issued(a.writesNwords, ByteWrite(cscon3, addr, v)))
  {
    WriteNwords(a, ByteWrite(cscon3, addr, v));
  }

  /** target_program_block8 */
  method ProgramBlock8(a: Adapter, cscon3: word, addr: word, base: word, nwords: nat, data: array<word>, at: nat,
                       k: FlashKit)
    requires a.Synced() && at + nwords <= data.Length && LaneClear(cscon3)
    modifies a
    ensures a.Synced()
    ensures var ws := ProgramWrites8(k, cscon3, base, addr, data[at..at + nwords]);
            Wrote(old(a.chip), a.chip, Issued(a.writesNwords, ws))
    ensures InReach(k, base, addr, nwords) && base < 0x8000_0000 ==>
              Wrote(old(a.chip), a.chip, ProgramWrites8(k, cscon3, base, addr, data[at..at + nwords]))
  {
    hide Has, Wrote, TwoBytes, ByteWrite, ByteWrites, Shifts, Plus, Issued, InReach;
    ghost var d, own, ws := a.chip, a.writesNwords, data[at..at + nwords];
    ghost var odd, unlock := Plus(base, k.odd), Unlock(k, cscon3, base);
    Write2Bytes(a, cscon3, Plus(base, k.odd), k.aa, Plus(base, k.even), k.c55);
    ghost var d1 := a.chip;
    WriteByte(a, cscon3, Plus(base, k.odd), k.c20);
    IssuedBoth(d, d1, a.chip, own, TwoBytes(cscon3, odd, k.aa, Plus(base, k.even), k.c55),
               ByteWrite(cscon3, odd, k.c20));
    ghost var d2 := a.chip;
    ProgramBytes(a, cscon3, addr, nwords, data, at, k);
    IssuedBoth(d, d2, a.chip, own, unlock, ByteWrites(k, cscon3, addr, Shifts(ws)));
    ghost var d3 := a.chip;
    Write2Bytes(a, cscon3, base, k.c90, base, 0);
    IssuedBoth(d, d3, a.chip, own, unlock + ByteWrites(k, cscon3, addr, Shifts(ws)),
               TwoBytes(cscon3, base, k.c90, base, 0));
    if InReach(k, base, addr, nwords) && base < 0x8000_0000 {
      ReachIsPhysical8(k, cscon3, base, addr, ws);
      SameIssued(own, ProgramWrites8(k, cscon3, base, addr, ws));
    }
  }

  /** The bytes of the words, low byte first. */
  method ProgramBytes(a: Adapter, cscon3: word, addr: word, nwords: nat, data: array<word>, at: nat, k: FlashKit)
    requires a.Synced() && at + nwords <= data.Length && LaneClear(cscon3)
    modifies a
    ensures a.Synced()
    ensures var ws := ByteWrites(k, cscon3, addr, Shifts(data[at..at + nwords]));
            Wrote(old(a.chip), a.chip, Issued(a.writesNwords, ws))
  {
    hide Has, Wrote, TwoBytes, ByteWrite, ByteWrites, Shifts, Plus, Issued;
    ghost var d, own, ws := a.chip, a.writesNwords, data[at..at + nwords];
    var next := addr;
    NoBytesYet(d, own, k, cscon3, addr, ws);
    for i := 0 to nwords
      invariant a.Synced() && next == Plus(addr, 4 * i)
      invariant Wrote(d, a.chip, Issued(own, ByteWrites(k, cscon3, addr, Shifts(ws[..i]))))
    {
      ghost var d2 := a.chip;
      ProgramFourBytes(a, cscon3, next, data[at + i], k);
      MoreBytes(d, d2, a.chip, own, k, cscon3, addr, ws, i);
      PlusPlus(addr, 4 * i, 4);
      next := Plus(next, 4);
    }
    assert ws[..nwords] == ws;
  }

  lemma NoBytesYet(d: Oncd, own: bool, k: FlashKit, cscon3: word, addr: word, ws: seq<word>)
    requires LaneClear(cscon3)
    ensures Plus(addr, 4 * 0) == addr && Wrote(d, d, Issued(own, ByteWrites(k, cscon3, addr, Shifts(ws[..0]))))
  {
    assert ws[..0] == [];
    NoneIssued(d, own);
  }

  method ProgramFourBytes(a: Adapter, cscon3: word, addr: word, w: word, k: FlashKit)
    requires a.Synced() && LaneClear(cscon3)
    modifies a
    ensures a.Synced() && Wrote(old(a.chip), a.chip, Issued(a.writesNwords, ByteWrites(k, cscon3, addr, FourShifts(w))))
  {
    hide Has, Wrote, TwoBytes, ByteWrites, Plus, Issued;
    ghost var d, own, vs := a.chip, a.writesNwords, FourShifts(w);
    NoBytes(d, own, k, cscon3, addr, vs);
    Write2Bytes(a, cscon3, addr, k.a0, addr, w);
    ByteDone(d, d, a.chip, own, k, cscon3, addr, vs, 0);
    ghost var d1 := a.chip;
    Write2Bytes(a, cscon3, Plus(addr, 1), k.a0, Plus(addr, 1), w / 0x100);
    ByteDone(d, d1, a.chip, own, k, cscon3, addr, vs, 1);
    ghost var d2 := a.chip;
    Write2Bytes(a, cscon3, Plus(addr, 2), k.a0, Plus(addr, 2), w / 0x1_0000);
    ByteDone(d, d2, a.chip, own, k, cscon3, addr, vs, 2);
    ghost var d3 := a.chip;
    Write2Bytes(a, cscon3, Plus(addr, 3), k.a0, Plus(addr, 3), w / 0x100_0000);
    ByteDone(d, d3, a.chip, own, k, cscon3, addr, vs, 3);
    assert vs[..4] == vs;
  }

  lemma NoBytes(d: Oncd, own: bool, k: FlashKit, cscon3: word, addr: word, vs: seq<word>)
    requires LaneClear(cscon3)
    ensures Plus(addr, 0) == addr && Wrote(d, d, Issued(own, ByteWrites(k, cscon3, addr, vs[..0])))
  {
    WroteNothing(d, d);
  }

  lemma ByteDone(d: Oncd, d1: Oncd, d2: Oncd, own: bool, k: FlashKit, cscon3: word, addr: word, vs: seq<word>, i: nat)
    requires LaneClear(cscon3) && i < |vs|
    requires Wrote(d, d1, Issued(own, ByteWrites(k, cscon3, addr, vs[..i])))
    requires Wrote(d1, d2, Issued(own, TwoBytes(cscon3, Plus(addr, i), k.a0, Plus(addr, i), vs[i])))
    ensures Wrote(d, d2, Issued(own, ByteWrites(k, cscon3, addr, vs[..i + 1])))
  {
    hide Wrote, TwoBytes, ByteWrites, Issued, Plus;
    ByteNext(k, cscon3, addr, vs, i);
    IssuedBoth(d, d1, d2, own, ByteWrites(k, cscon3, addr, vs[..i]),
               TwoBytes(cscon3, Plus(addr, i), k.a0, Plus(addr, i), vs[i]));
  }

  lemma MoreBytes(d: Oncd, d1: Oncd, d2: Oncd, own: bool, k: FlashKit, cscon3: word, addr: word, ws: seq<word>, i: nat)
    requires LaneClear(cscon3) && i < |ws|
    requires Wrote(d, d1, Issued(own, ByteWrites(k, cscon3, addr, Shifts(ws[..i]))))
    requires Wrote(d1, d2, Issued(own, ByteWrites(k, cscon3, Plus(addr, 4 * i), FourShifts(ws[i]))))
    ensures Wrote(d, d2, Issued(own, ByteWrites(k, cscon3, addr, Shifts(ws[..i + 1]))))
  {
    hide Wrote, ByteWrites, Shifts, FourShifts, Issued, Plus;
    ShiftsNext(ws, i);
    ByteWritesAppend(k, cscon3, addr, Shifts(ws[..i]), FourShifts(ws[i]));
    IssuedBoth(d, d1, d2, own, ByteWrites(k, cscon3, addr, Shifts(ws[..i])),
               ByteWrites(k, cscon3, Plus(addr, 4 * i), FourShifts(ws[i])));
  }

  lemma PairIsPhysical(cscon3: word, a1: word, v1: word, a2: word, v2: word)
    requires LaneClear(cscon3) && a1 < 0x8000_0000 && a2 < 0x8000_0000
    ensures Translated(TwoBytes(cscon3, a1, v1, a2, v2)) == TwoBytes(cscon3, a1, v1, a2, v2)
    ensures Translated(ByteWrite(cscon3, a1, v1)) == ByteWrite(cscon3, a1, v1)
  {
    hide Translated;
    SameWrites(TwoBytes(cscon3, a1, v1, a2, v2));
    SameWrites(ByteWrite(cscon3, a1, v1));
  }

  lemma {:induction false} BytesArePhysical(k: FlashKit, cscon3: word, addr: word, vs: seq<word>)
    requires LaneClear(cscon3) && addr + |vs| <= 0x8000_0000
    ensures Translated(ByteWrites(k, cscon3, addr, vs)) == ByteWrites(k, cscon3, addr, vs)
  {
    if vs != [] {
      var n := |vs| - 1;
      var a, before := Plus(addr, n), ByteWrites(k, cscon3, addr, vs[..n]);
      assert a == addr + n;
      hide TwoBytes, Translated;
      BytesArePhysical(k, cscon3, addr, vs[..n]);
      PairIsPhysical(cscon3, a, k.a0, a, vs[n]);
      TranslatedAppend(before, TwoBytes(cscon3, a, k.a0, a, vs[n]));
    } else {
      SameWrites([]);
    }
  }

  lemma ReachIsPhysical8(k: FlashKit, cscon3: word, base: word, addr: word, data: seq<word>)
    requires LaneClear(cscon3) && InReach(k, base, addr, |data|) && base < 0x8000_0000
    ensures Translated(ProgramWrites8(k, cscon3, base, addr, data)) == ProgramWrites8(k, cscon3, base, addr, data)
  {
    hide TwoBytes, ByteWrite, ByteWrites, Shifts, Translated;
    var odd, even := Plus(base, k.odd), Plus(base, k.even);
    var w1, w2 := TwoBytes(cscon3, odd, k.aa, even, k.c55), ByteWrite(cscon3, odd, k.c20);
    var w3, w4 := ByteWrites(k, cscon3, addr, Shifts(data)), TwoBytes(cscon3, base, k.c90, base, 0);
    PairIsPhysical(cscon3, odd, k.aa, even, k.c55);
    PairIsPhysical(cscon3, odd, k.c20, odd, 0);
    PairIsPhysical(cscon3, base, k.c90, base, 0);
    BytesArePhysical(k, cscon3, addr, Shifts(data));
    TranslatedAppend(w1, w2);
    TranslatedAppend(w1 + w2, w3);
    TranslatedAppend(w1 + w2 + w3, w4);
  }
}
