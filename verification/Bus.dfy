/**
 What a run of debug-unit write cycles puts on the memory bus, and what it leaves
 in a memory: the common language of the word loops of target.c and of the
 adapters' block functions.
 */
module Bus {
  import opened Words
  import opened Chip

  /** Unsigned 32-bit address arithmetic. */
  function Plus(addr: word, offset: nat): word { (addr + offset) % WORDS }

  lemma PlusPlus(addr: word, a: nat, b: nat)
    ensures Plus(Plus(addr, a), b) == Plus(addr, a + b)
  {
  }

  /** Memory after the writes ws, oldest first. */
  function Commit(mem: map<word, word>, ws: seq<BusWrite>): map<word, word> {
    if ws == [] then mem
    else
      var last := ws[|ws| - 1];
      Commit(mem, ws[..|ws| - 1])[last.addr := last.data]
  }

  /** The debug unit took d to d' by the write cycles ws and nothing else. */
  ghost predicate Wrote(d: Oncd, d': Oncd, ws: seq<BusWrite>) {
    d' == d.(oscr := d'.oscr, omar := d'.omar, omdr := d'.omdr, mem := Commit(d.mem, ws), bus := d.bus + ws)
  }

  /** Field by field: the bus has seen exactly ws, memory holds them, and the core is untouched. */
  lemma WroteMeans(d: Oncd, d': Oncd, ws: seq<BusWrite>)
    requires Wrote(d, d', ws)
    ensures d'.bus == d.bus + ws && d'.mem == Commit(d.mem, ws) && d'.cpu == d.cpu
    ensures d'.pcdec == d.pcdec && d'.pcexec == d.pcexec && d'.pcfetch == d.pcfetch && d'.irdec == d.irdec
    ensures d'.obcr == d.obcr && d'.omlr0 == d.omlr0 && d'.omlr1 == d.omlr1 && d'.inflight == d.inflight
  {
  }

  lemma WroteNothing(d: Oncd, d': Oncd)
    requires d' == d.(oscr := d'.oscr)
    ensures Wrote(d, d', [])
  {
    assert d.bus + [] == d.bus;
  }

  lemma WroteMore(d: Oncd, d1: Oncd, d2: Oncd, ws: seq<BusWrite>, addr: word, v: word)
    requires Wrote(d, d1, ws) && Stored(d1, d2, addr, v)
    ensures Wrote(d, d2, ws + [BusWrite(addr, v)])
  {
    var all := ws + [BusWrite(addr, v)];
    assert all[..|all| - 1] == ws;
    assert d.bus + ws + [BusWrite(addr, v)] == d.bus + all;
  }

  /** Four write cycles in a row. */
  lemma FourStores(d: Oncd, d1: Oncd, d2: Oncd, d3: Oncd, d4: Oncd,
                   a1: word, v1: word, a2: word, v2: word, a3: word, v3: word, a4: word, v4: word)
    requires Stored(d, d1, a1, v1) && Stored(d1, d2, a2, v2) && Stored(d2, d3, a3, v3) && Stored(d3, d4, a4, v4)
    ensures Wrote(d, d4, [BusWrite(a1, v1), BusWrite(a2, v2), BusWrite(a3, v3), BusWrite(a4, v4)])
  {
    hide Stored, Wrote;
    assert Wrote(d, d, []) by { WroteNothing(d, d); }
    var ws1, ws2 := [BusWrite(a1, v1)], [BusWrite(a1, v1), BusWrite(a2, v2)];
    var ws3 := [BusWrite(a1, v1), BusWrite(a2, v2), BusWrite(a3, v3)];
    assert [] + ws1 == ws1 && ws1 + [BusWrite(a2, v2)] == ws2 && ws2 + [BusWrite(a3, v3)] == ws3;
    WroteMore(d, d, d1, [], a1, v1);
    WroteMore(d, d1, d2, ws1, a2, v2);
    WroteMore(d, d2, d3, ws2, a3, v3);
    WroteMore(d, d3, d4, ws3, a4, v4);
    assert ws3 + [BusWrite(a4, v4)] == [BusWrite(a1, v1), BusWrite(a2, v2), BusWrite(a3, v3), BusWrite(a4, v4)];
  }

  lemma {:induction false} CommitAppend(mem: map<word, word>, a: seq<BusWrite>, b: seq<BusWrite>)
    ensures Commit(mem, a + b) == Commit(Commit(mem, a), b)
  {
    if b == [] {
      assert a + b == a;
    } else {
      var n := |b| - 1;
      assert (a + b)[..|a + b| - 1] == a + b[..n];
      CommitAppend(mem, a, b[..n]);
    }
  }

  lemma WroteBoth(d: Oncd, d1: Oncd, d2: Oncd, a: seq<BusWrite>, b: seq<BusWrite>)
    requires Wrote(d, d1, a) && Wrote(d1, d2, b)
    ensures Wrote(d, d2, a + b)
  {
    CommitAppend(d.mem, a, b);
    assert d.bus + a + b == d.bus + (a + b);
  }

  // ------------------------------------------------------------------ Blocks

  /** The n words of memory from addr up. */
  function BlockRead(mem: map<word, word>, addr: word, n: nat): (ws: seq<word>)
    ensures |ws| == n
  {
    if n == 0 then [] else BlockRead(mem, addr, n - 1) + [Cell(mem, Plus(addr, 4 * (n - 1)))]
  }

  lemma {:induction false} BlockReadAt(mem: map<word, word>, addr: word, n: nat, i: nat)
    requires i < n
    ensures BlockRead(mem, addr, n)[i] == Cell(mem, Plus(addr, 4 * i))
  {
    if i < n - 1 {
      BlockReadAt(mem, addr, n - 1, i);
    }
  }

  lemma {:induction false} BlockReadAppend(mem: map<word, word>, addr: word, m: nat, n: nat)
    ensures BlockRead(mem, addr, m + n) == BlockRead(mem, addr, m) + BlockRead(mem, Plus(addr, 4 * m), n)
  {
    if n > 0 {
      BlockReadAppend(mem, addr, m, n - 1);
      PlusPlus(addr, 4 * m, 4 * (n - 1));
    }
  }

  /** Consecutive words from addr up. */
  function BlockWrites(addr: word, data: seq<word>): seq<BusWrite> {
    if data == [] then []
    else
      var n := |data| - 1;
      BlockWrites(addr, data[..n]) + [BusWrite(Plus(addr, 4 * n), data[n])]
  }

  lemma BlockNext(addr: word, data: seq<word>, i: nat)
    requires i < |data|
    ensures BlockWrites(addr, data[..i + 1]) == BlockWrites(addr, data[..i]) + [BusWrite(Plus(addr, 4 * i), data[i])]
  {
    assert data[..i + 1][..i] == data[..i];
  }

  lemma {:induction false} BlockAppend(addr: word, a: seq<word>, b: seq<word>)
    ensures BlockWrites(addr, a + b) == BlockWrites(addr, a) + BlockWrites(Plus(addr, 4 * |a|), b)
  {
    if b == [] {
      assert a + b == a;
    } else {
      var n := |b| - 1;
      assert (a + b)[..|a| + n] == a + b[..n];
      BlockAppend(addr, a, b[..n]);
      PlusPlus(addr, 4 * |a|, 4 * n);
    }
  }

  /** A block no longer than the address space: each word lands at its address and no other changes. */
  lemma {:induction false} BlockLands(mem: map<word, word>, addr: word, data: seq<word>, a: word)
    requires 4 * |data| <= WORDS
    ensures var mem' := Commit(mem, BlockWrites(addr, data));
            && (forall i :: 0 <= i < |data| && a == Plus(addr, 4 * i) ==> Cell(mem', a) == data[i])
            && ((forall i :: 0 <= i < |data| ==> a != Plus(addr, 4 * i)) ==> Cell(mem', a) == Cell(mem, a))
  {
    if data != [] {
      var n := |data| - 1;
      var ws := BlockWrites(addr, data);
      assert ws[..|ws| - 1] == BlockWrites(addr, data[..n]);
      BlockLands(mem, addr, data[..n], a);
      if a == Plus(addr, 4 * n) {
        forall i | 0 <= i < n
          ensures a != Plus(addr, 4 * i)
        {
          Apart(addr, 4 * i, 4 * n);
        }
      }
    }
  }

  lemma Apart(addr: word, x: nat, y: nat)
    requires x < y < WORDS
    ensures Plus(addr, x) != Plus(addr, y)
  {
  }

  // -------------------------------------------------------------- Host buffers

  /** ws in place of the |ws| elements of data from index at. */
  function Spliced(data: seq<word>, at: nat, ws: seq<word>): seq<word>
    requires at + |ws| <= |data|
  {
    data[..at] + ws + data[at + |ws|..]
  }

  lemma SpliceNext(data: seq<word>, at: nat, ws: seq<word>, i: nat)
    requires i < |ws| && at + |ws| <= |data|
    ensures Spliced(data, at, ws[..i])[at + i := ws[i]] == Spliced(data, at, ws[..i + 1])
  {
  }

  lemma SpliceBoth(data: seq<word>, at: nat, a: seq<word>, b: seq<word>)
    requires at + |a| + |b| <= |data|
    ensures Spliced(Spliced(data, at, a), at + |a|, b) == Spliced(data, at, a + b)
  {
  }

  lemma SpliceNothing(data: seq<word>, at: nat)
    requires at <= |data|
    ensures Spliced(data, at, []) == data
  {
  }

  lemma SpliceOne(data: seq<word>, at: nat, w: word)
    requires at < |data|
    ensures Spliced(data, at, [w]) == data[at := w]
  {
  }

  // ------------------------------------------------------- Flash programming

  /** Command addresses and words of one flash device (target.h, target.c:955-1057). */
  datatype FlashKit = FlashKit(odd: word, even: word, aa: word, c55: word, a0: word, c20: word, c90: word)

  function ProgramWord(k: FlashKit, base: word, addr: word, v: word): seq<BusWrite> {
    [BusWrite(Plus(base, k.odd), k.aa), BusWrite(Plus(base, k.even), k.c55),
     BusWrite(Plus(base, k.odd), k.a0), BusWrite(addr, v)]
  }

  /** Unlock, unlock, program command, word; for each word of the block. */
  function ProgramWrites(k: FlashKit, base: word, addr: word, data: seq<word>): seq<BusWrite> {
    if data == [] then []
    else
      var n := |data| - 1;
      ProgramWrites(k, base, addr, data[..n]) + ProgramWord(k, base, Plus(addr, 4 * n), data[n])
  }

  lemma ProgramNext(k: FlashKit, base: word, addr: word, data: seq<word>, i: nat)
    requires i < |data|
    ensures ProgramWrites(k, base, addr, data[..i + 1])
         == ProgramWrites(k, base, addr, data[..i]) + ProgramWord(k, base, Plus(addr, 4 * i), data[i])
  {
    assert data[..i + 1][..i] == data[..i];
  }

  lemma {:induction false} ProgramAppend(k: FlashKit, base: word, addr: word, a: seq<word>, b: seq<word>)
    ensures ProgramWrites(k, base, addr, a + b)
         == ProgramWrites(k, base, addr, a) + ProgramWrites(k, base, Plus(addr, 4 * |a|), b)
  {
    if b == [] {
      assert a + b == a;
    } else {
      var n := |b| - 1;
      assert (a + b)[..|a| + n] == a + b[..n];
      ProgramAppend(k, base, addr, a, b[..n]);
      PlusPlus(addr, 4 * |a|, 4 * n);
    }
  }
}
