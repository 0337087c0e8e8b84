/** Byte access to a memory that is reached a word at a time (remote-elvees.c:462-637). */
module ElveesMem {
  import opened Words
  import opened Bytes
  import opened Chip
  import opened Bus
  import opened Target
  import opened TargetBlock

  const MAX_ADDRESS: nat := 0xFFFF_FFFF

  /** The byte at physical address p. */
  function ByteAt(mem: map<word, word>, p: word): byte {
    ByteIn(Cell(mem, p - p % 4), p % 4)
  }

  /** Consecutive addresses are translated alike. */
  predicate OneSegment(addr: word, size: nat) {
    addr + size <= 0x8000_0000
    || (0x8000_0000 <= addr && addr + size <= 0xA000_0000)
    || (0xA000_0000 <= addr && addr + size <= WORDS)
  }

  /** Exactly then is a run of addresses a run of physical addresses. */
  lemma SegmentsAreRuns(addr: word, size: nat)
    requires 0 < size && addr + size <= WORDS
    ensures OneSegment(addr, size) <==> forall x :: addr <= x < addr + size ==> Phys(x) == Phys(addr) + (x - addr)
  {
    if !OneSegment(addr, size) {
      assert Phys(if addr < 0x8000_0000 then 0x8000_0000 else 0xA000_0000) == 0;
    }
  }

  // ------------------------------------------------------------------ Reading

  /** The n bytes of memory from physical address p are in the buffer from index at; nothing else changed. */
  ghost predicate Loaded(before: seq<byte>, after: seq<byte>, at: nat, mem: map<word, word>, p: nat, n: nat) {
    && |after| == |before| && at + n <= |before| && p + n <= WORDS
    && (forall i :: at <= i < at + n ==> after[i] == ByteAt(mem, p + (i - at)))
    && (forall i :: 0 <= i < at || at + n <= i < |before| ==> after[i] == before[i])
  }

  lemma LoadedBoth(b0: seq<byte>, b1: seq<byte>, b2: seq<byte>, at: nat, mem: map<word, word>, p: nat, m: nat, n: nat)
    requires Loaded(b0, b1, at, mem, p, m) && Loaded(b1, b2, at + m, mem, p + m, n)
    ensures Loaded(b0, b2, at, mem, p, m + n)
  {
    hide ByteAt;
  }

  /** One or more bytes of the word that holds p. */
  lemma WithinWord(mem: map<word, word>, p: word, k: nat)
    requires p % 4 + k < 4
    ensures p + k < WORDS && ByteAt(mem, p + k) == ByteIn(Cell(mem, p - p % 4), p % 4 + k)
  {
    assert (p + k) % 4 == p % 4 + k;
  }

  lemma PhysAligned(addr: word)
    ensures Phys(addr) % 4 == addr % 4 && Phys(addr - addr % 4) == Phys(addr) - Phys(addr) % 4
  {
  }

  /** The bytes before the first word boundary. */
  method ReadHead(a: Adapter, addr: word, buf: array<byte>, reqSize: nat) returns (nbytes: nat)
    requires a.Synced() && addr % 4 != 0 && 0 < reqSize <= buf.Length
    modifies a, buf
    ensures a.Synced() && Browsed(old(a.chip), a.chip)
    ensures nbytes == if 4 - addr % 4 > reqSize then reqSize else 4 - addr % 4
    ensures Loaded(old(buf[..]), buf[..], 0, old(a.chip.mem), Phys(addr), nbytes)
  {
    hide ByteAt, ByteIn, Has;
    ghost var mem, p := a.chip.mem, Phys(addr);
    PhysAligned(addr);
    var offset := addr % 4;
    nbytes := if 4 - offset > reqSize then reqSize else 4 - offset;
    WithinWord(mem, p, 0);
    WithinWord(mem, p, nbytes - 1);
    WithinWord(mem, p, if nbytes > 1 then 1 else 0);
    var data := ReadWord(a, addr - offset);
    match offset {
    case 1 =>
      buf[0] := ByteIn(data, 1);
      if nbytes > 1 {
        buf[1] := ByteIn(data, 2);
      }
      if nbytes > 2 {
        buf[2] := ByteIn(data, 3);
      }
    case 2 =>
      buf[0] := ByteIn(data, 2);
      if nbytes > 1 {
        buf[1] := ByteIn(data, 3);
      }
    case _ =>
      buf[0] := ByteIn(data, 3);
    }
  }

  /** Whole words; the buffer is filled as an array of them, least significant byte first. */
  method ReadWords(a: Adapter, addr: word, nwords: nat, buf: array<byte>, at: nat)
    requires a.Synced() && addr % 4 == 0 && at + 4 * nwords <= buf.Length
    modifies a, buf
    ensures a.Synced() && Browsed(old(a.chip), a.chip)
    ensures OneSegment(addr, 4 * nwords) ==> Loaded(old(buf[..]), buf[..], at, old(a.chip.mem), Phys(addr), 4 * nwords)
    ensures forall i :: 0 <= i < at || at + 4 * nwords <= i < buf.Length ==> buf[i] == old(buf[i])
  {
    hide ByteAt, ByteIn, Has, BlockRead, Cell, Loaded, OneSegment, Spliced, Phys;
    SegmentAligned(addr, nwords);
    ghost var mem, p := a.chip.mem, Phys(addr);
    var words := new word[nwords](_ => 0);
    ghost var was := words[..];
    ReadBlock(a, addr, nwords, words, 0);
    ghost var good := OneSegment(addr, 4 * nwords);
    if good {
      SpliceAll(was, BlockRead(mem, p, nwords));
      assert Loaded(buf[..], buf[..], at, mem, p, 0) by { NoBytes(buf[..], at, mem, p); }
    }
    ghost var before := buf[..];
    for i := 0 to nwords
      invariant good ==> Loaded(before, buf[..], at, mem, p, 4 * i)
      invariant forall j :: 0 <= j < at || at + 4 * nwords <= j < buf.Length ==> buf[j] == old(buf[j])
      modifies buf
    {
      ghost var b := buf[..];
      if good {
        WordRead(mem, addr, nwords, i);
      }
      var w := words[i];
      StoreWord(buf, at + 4 * i, w);
      if good {
        WordLoaded(b, buf[..], at + 4 * i, mem, p + 4 * i, w);
        LoadedBoth(before, b, buf[..], at, mem, p, 4 * i, 4);
      }
    }
  }

  lemma NoBytes(b: seq<byte>, at: nat, mem: map<word, word>, p: nat)
    requires at <= |b| && p <= WORDS
    ensures Loaded(b, b, at, mem, p, 0)
  {
  }

  lemma SegmentAligned(addr: word, n: nat)
    requires addr % 4 == 0
    ensures OneSegment(addr, 4 * n) ==> Untranslated(Phys(addr), n)
  {
  }

  lemma {:induction false} WordRead(mem: map<word, word>, addr: word, n: nat, i: nat)
    requires OneSegment(addr, 4 * n) && addr % 4 == 0 && i < n
    ensures Phys(addr) + 4 * n <= WORDS && Phys(addr) % 4 == 0
    ensures BlockRead(mem, Phys(addr), n)[i] == Cell(mem, Phys(addr) + 4 * i)
  {
    hide BlockRead, Cell, OneSegment, Phys;
    SegmentStart(addr, n);
    BlockReadAt(mem, Phys(addr), n, i);
  }

  lemma SpliceAll(data: seq<word>, ws: seq<word>)
    requires |data| == |ws|
    ensures Spliced(data, 0, ws) == ws
  {
  }

  method StoreWord(buf: array<byte>, at: nat, w: word)
    requires at + 4 <= buf.Length
    modifies buf
    ensures buf[..] == old(buf[..at]) + [ByteIn(w, 0), ByteIn(w, 1), ByteIn(w, 2), ByteIn(w, 3)] + old(buf[at + 4..])
  {
    hide ByteIn;
    buf[at], buf[at + 1], buf[at + 2], buf[at + 3] := ByteIn(w, 0), ByteIn(w, 1), ByteIn(w, 2), ByteIn(w, 3);
  }

  lemma WordLoaded(before: seq<byte>, after: seq<byte>, at: nat, mem: map<word, word>, p: nat, w: word)
    requires at + 4 <= |before| && p % 4 == 0 && p + 4 <= WORDS && w == Cell(mem, p)
    requires after == before[..at] + [ByteIn(w, 0), ByteIn(w, 1), ByteIn(w, 2), ByteIn(w, 3)] + before[at + 4..]
    ensures Loaded(before, after, at, mem, p, 4)
  {
    hide ByteAt, ByteIn;
    WithinWord(mem, p, 0);
    WithinWord(mem, p, 1);
    WithinWord(mem, p, 2);
    WithinWord(mem, p, 3);
  }

  /** The bytes of a last partial word. */
  method ReadTail(a: Adapter, addr: word, n: nat, buf: array<byte>, at: nat)
    requires a.Synced() && addr % 4 == 0 && 0 < n < 4 && at + n <= buf.Length
    modifies a, buf
    ensures a.Synced() && Browsed(old(a.chip), a.chip)
    ensures Loaded(old(buf[..]), buf[..], at, old(a.chip.mem), Phys(addr), n)
  {
    hide ByteAt, ByteIn, Has;
    ghost var mem, p := a.chip.mem, Phys(addr);
    PhysAligned(addr);
    var data := ReadWord(a, addr);
    assert Loaded(buf[..], buf[..], at, mem, p, 0);
    for i := 0 to n
      invariant Loaded(old(buf[..]), buf[..], at, mem, p, i)
      modifies buf
    {
      WithinWord(mem, p, i);
      buf[at + i] := ByteIn(data, i);
    }
  }

  datatype Outcome = BadAddress | Done(size: nat)

  /** From a word boundary on: whole words, and the bytes of a last partial one. */
  method ReadAligned(a: Adapter, addr: word, reqSize: nat, buf: array<byte>, at: nat)
    requires a.Synced() && addr % 4 == 0 && 0 < reqSize && at + reqSize <= buf.Length && addr + reqSize <= WORDS
    modifies a, buf
    ensures a.Synced() && Browsed(old(a.chip), a.chip)
    ensures OneSegment(addr, reqSize) ==> Loaded(old(buf[..]), buf[..], at, old(a.chip.mem), Phys(addr), reqSize)
  {
    hide Loaded, Has, ByteAt, Phys, OneSegment;
    ghost var mem, p, b0 := a.chip.mem, Phys(addr), buf[..];
    var words, rest := reqSize / 4, reqSize % 4;
    if reqSize >= 4 {
      ReadWords(a, addr, words, buf, at);
      SegmentPart(addr, reqSize, 0, 4 * words);
      if rest == 0 {
        return;
      }
    } else {
      NothingLoadedAt(b0, at, mem, p);
    }
    ghost var b1 := buf[..];
    SegmentPart(addr, reqSize, 4 * words, rest);
    ReadTail(a, addr + 4 * words, rest, buf, at + 4 * words);
    if OneSegment(addr, reqSize) {
      LoadedBoth(b0, b1, buf[..], at, mem, p, 4 * words, rest);
    }
  }

  /** elvees_read_mem: a request past the last address is cut short. */
  method ReadMem(a: Adapter, address: nat, buf: array<byte>, requested: nat) returns (r: Outcome)
    requires a.Synced() && 0 < requested <= buf.Length
    modifies a, buf
    ensures a.Synced() && Browsed(old(a.chip), a.chip)
    ensures r == if address > MAX_ADDRESS then BadAddress
                 else Done(if address + requested > MAX_ADDRESS + 1 then MAX_ADDRESS + 1 - address else requested)
    ensures r.BadAddress? ==> buf[..] == old(buf[..])
    ensures r.Done? && OneSegment(address, r.size) ==>
              Loaded(old(buf[..]), buf[..], 0, old(a.chip.mem), Phys(address), r.size)
  {
    hide Loaded, Has, ByteAt, Phys, OneSegment;
    if address > MAX_ADDRESS {
      return BadAddress;
    }
    var reqSize := if address + requested > MAX_ADDRESS + 1 then MAX_ADDRESS + 1 - address else requested;
    r := Done(reqSize);
    if address % 4 == 0 {
      ReadAligned(a, address, reqSize, buf, 0);
      return;
    }
    ghost var mem, b0 := a.chip.mem, buf[..];
    var nbytes := ReadHead(a, address, buf, reqSize);
    if nbytes < reqSize {
      ghost var b1 := buf[..];
      SegmentPart(address, reqSize, nbytes, reqSize - nbytes);
      ReadAligned(a, address + nbytes, reqSize - nbytes, buf, nbytes);
      if OneSegment(address, reqSize) {
        LoadedBoth(b0, b1, buf[..], 0, mem, Phys(address), nbytes, reqSize - nbytes);
      }
    }
  }

  lemma NothingLoadedAt(b: seq<byte>, at: nat, mem: map<word, word>, p: word)
    requires at <= |b|
    ensures Loaded(b, b, at, mem, p, 0)
  {
  }

  /** A part of a run within one segment lies in it, as far from its start. */
  lemma SegmentPart(addr: word, size: nat, skip: nat, n: nat)
    requires skip + n <= size && 0 < n && addr + size <= WORDS
    ensures addr + skip < WORDS
    ensures OneSegment(addr, size) ==> OneSegment(addr + skip, n) && Phys(addr + skip) == Phys(addr) + skip
  {
  }

  // ------------------------------------------------------------------ Writing

  /** The bytes from physical address p up are those given; every other byte of memory is as before. */
  ghost predicate Changed(mem: map<word, word>, mem': map<word, word>, p: nat, bytes: seq<byte>) {
    && p + |bytes| <= WORDS
    && forall q: word :: ByteAt(mem', q) == if p <= q < p + |bytes| then bytes[q - p] else ByteAt(mem, q)
  }

  lemma ChangedBoth(m0: map<word, word>, m1: map<word, word>, m2: map<word, word>, p: nat, a: seq<byte>, b: seq<byte>)
    requires Changed(m0, m1, p, a) && Changed(m1, m2, p + |a|, b)
    ensures Changed(m0, m2, p, a + b)
  {
    hide ByteAt;
  }

  /** Only memory and the debug unit's own registers changed. */
  ghost predicate Touched(d: Oncd, d': Oncd) {
    d' == d.(oscr := d'.oscr, omar := d'.omar, omdr := d'.omdr, mem := d'.mem, bus := d'.bus)
  }

  /** Bytes k and up of the word at p replaced. */
  lemma WordChanged(mem: map<word, word>, p: word, w: word, k: nat, bytes: seq<byte>)
    requires p % 4 == 0 && p + 4 <= WORDS && k + |bytes| <= 4
    requires forall j :: 0 <= j < 4 ==>
               ByteIn(w, j) == if k <= j < k + |bytes| then bytes[j - k] else ByteIn(Cell(mem, p), j)
    ensures Changed(mem, mem[p := w], p + k, bytes)
  {
    hide ByteIn;
    var mem' := mem[p := w];
    forall q: word
      ensures ByteAt(mem', q) == if p + k <= q < p + k + |bytes| then bytes[q - p - k] else ByteAt(mem, q)
    {
      if q - q % 4 == p {
        var j := q % 4;
        assert ByteAt(mem', q) == ByteIn(w, j);
      }
    }
  }

  /** The new value of a word whose first nbytes bytes from `offset` on come from the buffer. */
  method Compose(was: word, offset: nat, nbytes: nat, buf: array<byte>) returns (data: word)
    requires 0 < offset < 4 && 0 < nbytes <= 4 - offset && nbytes <= buf.Length
    ensures forall j :: 0 <= j < 4 ==>
              ByteIn(data, j) == if offset <= j < offset + nbytes then buf[j - offset] else ByteIn(was, j)
  {
    hide ByteIn, Patched;
    data := was;
    match offset {
    case 1 =>
      PatchedAll(data, 1, buf[0]);
      data := Patched(data, 1, buf[0]);
      if nbytes > 1 {
        PatchedAll(data, 2, buf[1]);
        data := Patched(data, 2, buf[1]);
      }
      if nbytes > 2 {
        PatchedAll(data, 3, buf[2]);
        data := Patched(data, 3, buf[2]);
      }
    case 2 =>
      PatchedAll(data, 2, buf[0]);
      data := Patched(data, 2, buf[0]);
      if nbytes > 1 {
        PatchedAll(data, 3, buf[1]);
        data := Patched(data, 3, buf[1]);
      }
    case _ =>
      PatchedAll(data, 3, buf[0]);
      data := Patched(data, 3, buf[0]);
    }
  }

  method WriteHead(a: Adapter, addr: word, buf: array<byte>, size: nat) returns (nbytes: nat)
    requires a.Synced() && addr % 4 != 0 && 0 < size <= buf.Length
    modifies a
    ensures a.Synced() && Touched(old(a.chip), a.chip)
    ensures nbytes == if 4 - addr % 4 > size then size else 4 - addr % 4
    ensures Changed(old(a.chip.mem), a.chip.mem, Phys(addr), buf[..nbytes])
  {
    hide ByteAt, ByteIn, Has;
    ghost var mem, p := a.chip.mem, Phys(addr);
    PhysAligned(addr);
    var offset := addr % 4;
    nbytes := if 4 - offset > size then size else 4 - offset;
    var data := ReadWord(a, addr - offset);
    data := Compose(data, offset, nbytes, buf);
    WordChanged(mem, p - p % 4, data, offset, buf[..nbytes]);
    WriteWord(a, addr - offset, data);
  }

  /** Whole words, taken from the buffer as from an array of them. */
  method WriteWords(a: Adapter, addr: word, nwords: nat, buf: array<byte>, at: nat)
    requires a.Synced() && addr % 4 == 0 && 0 < nwords && at + 4 * nwords <= buf.Length
    modifies a
    ensures a.Synced()
    ensures OneSegment(addr, 4 * nwords) ==>
              && Touched(old(a.chip), a.chip)
              && Changed(old(a.chip.mem), a.chip.mem, Phys(addr), buf[at..at + 4 * nwords])
  {
    hide ByteAt, ByteIn, Has, OneSegment, Phys, WordOf, BlockWrites;
    SegmentAligned(addr, nwords);
    var words := new word[nwords](i requires at + 4 * i + 4 <= buf.Length reads buf =>
      WordOf(buf[at + 4 * i..at + 4 * i + 4]));
    ghost var d := a.chip;
    WriteBlock(a, addr, nwords, words, 0);
    assert words[..nwords] == words[0..0 + nwords];
    if OneSegment(addr, 4 * nwords) {
      ghost var bytes := buf[at..at + 4 * nwords];
      forall i | 0 <= i < nwords
        ensures words[..nwords][i] == WordOf(bytes[4 * i..4 * i + 4])
      {
        SliceOfSlice(buf[..], at, 4 * nwords, 4 * i, 4);
      }
      WordsChange(d, a.chip, addr, words[..nwords], buf[at..at + 4 * nwords]);
    }
  }

  lemma SliceOfSlice(b: seq<byte>, at: nat, n: nat, i: nat, k: nat)
    requires at + n <= |b| && i + k <= n
    ensures b[at..at + n][i..i + k] == b[at + i..at + i + k]
  {
    var x, y := b[at..at + n][i..i + k], b[at + i..at + i + k];
    forall j | 0 <= j < k
      ensures x[j] == y[j]
    {
    }
  }

  lemma WordsChange(d: Oncd, d': Oncd, addr: word, ws: seq<word>, bytes: seq<byte>)
    requires OneSegment(addr, 4 * |ws|) && addr % 4 == 0 && |bytes| == 4 * |ws|
    requires forall i :: 0 <= i < |ws| ==> ws[i] == WordOf(bytes[4 * i..4 * i + 4])
    requires Wrote(d, d', BlockWrites(Phys(addr), ws))
    ensures Touched(d, d') && Changed(d.mem, d'.mem, Phys(addr), bytes)
  {
    hide ByteIn, BlockWrites, WordOf, Commit;
    var p := Phys(addr);
    SegmentStart(addr, |ws|);
    forall q: word
      ensures ByteAt(d'.mem, q) == if p <= q < p + |bytes| then bytes[q - p] else ByteAt(d.mem, q)
    {
      ByteLands(d.mem, p, ws, bytes, q);
    }
  }

  lemma SegmentStart(addr: word, n: nat)
    requires OneSegment(addr, 4 * n) && addr % 4 == 0
    ensures Phys(addr) % 4 == 0 && Phys(addr) + 4 * n <= WORDS
  {
  }

  lemma ByteLands(mem: map<word, word>, p: word, ws: seq<word>, bytes: seq<byte>, q: word)
    requires p % 4 == 0 && p + 4 * |ws| <= WORDS && |bytes| == 4 * |ws|
    requires forall i :: 0 <= i < |ws| ==> ws[i] == WordOf(bytes[4 * i..4 * i + 4])
    ensures ByteAt(Commit(mem, BlockWrites(p, ws)), q)
         == if p <= q < p + |bytes| then bytes[q - p] else ByteAt(mem, q)
  {
    hide ByteIn, BlockWrites, WordOf, Commit, Cell, Plus;
    var a := q - q % 4;
    BlockLands(mem, p, ws, a);
    if p <= q < p + |bytes| {
      var i := WordIndex(p, q, |ws|);
      WordOfBytes(bytes[4 * i..4 * i + 4], q % 4);
    } else {
      forall i | 0 <= i < |ws|
        ensures a != Plus(p, 4 * i)
      {
        Elsewhere(p, q, |ws|, i);
      }
    }
  }

  lemma WordIndex(p: word, q: word, n: nat) returns (i: nat)
    requires p % 4 == 0 && p <= q < p + 4 * n <= WORDS
    ensures i < n && q - q % 4 == Plus(p, 4 * i) && q - p == 4 * i + q % 4
  {
    i := (q - p) / 4;
  }

  lemma Elsewhere(p: word, q: word, n: nat, i: nat)
    requires p % 4 == 0 && p + 4 * n <= WORDS && !(p <= q < p + 4 * n) && i < n
    ensures q - q % 4 != Plus(p, 4 * i)
  {
  }

  method WriteTail(a: Adapter, addr: word, n: nat, buf: array<byte>, at: nat)
    requires a.Synced() && addr % 4 == 0 && 0 < n < 4 && at + n <= buf.Length
    modifies a
    ensures a.Synced() && Touched(old(a.chip), a.chip)
    ensures Changed(old(a.chip.mem), a.chip.mem, Phys(addr), buf[at..at + n])
  {
    hide ByteAt, ByteIn, Has, Patched;
    ghost var mem, p := a.chip.mem, Phys(addr);
    PhysAligned(addr);
    var data := ReadWord(a, addr);
    ghost var was := data;
    for i := 0 to n
      invariant forall j :: 0 <= j < 4 ==> ByteIn(data, j) == if j < i then buf[at + j] else ByteIn(was, j)
      modifies {}
    {
      PatchedAll(data, i, buf[at + i]);
      data := Patched(data, i, buf[at + i]);
    }
    WordChanged(mem, p, data, 0, buf[at..at + n]);
    WriteWord(a, addr, data);
  }

  /** From a word boundary on: whole words, and the bytes of a last partial one. */
  method WriteAligned(a: Adapter, addr: word, size: nat, buf: array<byte>, at: nat)
    requires a.Synced() && addr % 4 == 0 && 0 < size && at + size <= buf.Length && addr + size <= WORDS
    modifies a
    ensures a.Synced()
    ensures OneSegment(addr, size) ==>
              && Touched(old(a.chip), a.chip)
              && Changed(old(a.chip.mem), a.chip.mem, Phys(addr), buf[at..at + size])
  {
    hide Changed, Touched, Has, ByteAt, Phys, OneSegment;
    ghost var d, p := a.chip, Phys(addr);
    var words, rest := size / 4, size % 4;
    if size >= 4 {
      WriteWords(a, addr, words, buf, at);
      SegmentPart(addr, size, 0, 4 * words);
      if rest == 0 {
        return;
      }
    } else {
      NothingChanged(d, p);
      assert buf[at..at + 4 * words] == [];
    }
    ghost var d1 := a.chip;
    SegmentPart(addr, size, 4 * words, rest);
    WriteTail(a, addr + 4 * words, rest, buf, at + 4 * words);
    if OneSegment(addr, size) {
      assert buf[at..at + size][..4 * words] == buf[at..at + 4 * words];
      assert buf[at..at + size][4 * words..] == buf[at + 4 * words..at + size];
      MoreChanged(d, d1, a.chip, p, buf[at..at + size], 4 * words, rest, buf[at + 4 * words..at + size]);
    }
  }

  /** elvees_write_mem: exactly the bytes from address on change. */
  method WriteMem(a: Adapter, address: nat, buf: array<byte>, size: nat) returns (r: Outcome)
    requires a.Synced() && size <= buf.Length
    modifies a
    ensures a.Synced()
    ensures r == if size > 0 && address + size > MAX_ADDRESS + 1 then BadAddress else Done(size)
    ensures r.BadAddress? || size == 0 ==> a.chip == old(a.chip)
    ensures r.Done? && size > 0 && OneSegment(address, size) ==>
              && Touched(old(a.chip), a.chip)
              && Changed(old(a.chip.mem), a.chip.mem, Phys(address), buf[..size])
  {
    hide Changed, Touched, Has, ByteAt, Phys, OneSegment;
    if size == 0 {
      return Done(0);
    }
    if address > MAX_ADDRESS || address + size - 1 > MAX_ADDRESS {
      return BadAddress;
    }
    r := Done(size);
    if address % 4 == 0 {
      WriteAligned(a, address, size, buf, 0);
      assert buf[0..0 + size] == buf[..size];
      return;
    }
    ghost var d := a.chip;
    var nbytes := WriteHead(a, address, buf, size);
    if nbytes < size {
      ghost var d1 := a.chip;
      SegmentPart(address, size, nbytes, size - nbytes);
      WriteAligned(a, address + nbytes, size - nbytes, buf, nbytes);
      if OneSegment(address, size) {
        assert buf[..size][..nbytes] == buf[..nbytes];
        MoreChanged(d, d1, a.chip, Phys(address), buf[..size], nbytes, size - nbytes, buf[nbytes..size]);
      }
    }
  }

  lemma NothingChanged(d: Oncd, p: word)
    ensures Touched(d, d) && Changed(d.mem, d.mem, p, [])
  {
  }

  lemma MoreChanged(d: Oncd, d1: Oncd, d2: Oncd, p: nat, bytes: seq<byte>, at: nat, n: nat, more: seq<byte>)
    requires at + n == |bytes| && more == bytes[at..] && Touched(d, d1) && Touched(d1, d2)
    requires Changed(d.mem, d1.mem, p, bytes[..at]) && Changed(d1.mem, d2.mem, p + at, more)
    ensures Touched(d, d2) && Changed(d.mem, d2.mem, p, bytes)
  {
    hide Changed;
    assert bytes[..at] + more == bytes;
    ChangedBoth(d.mem, d1.mem, d2.mem, p, bytes[..at], more);
  }

  /** Reading what was just written returns the buffer. */
  lemma ReadAfterWrite(mem: map<word, word>, mem': map<word, word>, p: nat, bytes: seq<byte>,
                       before: seq<byte>, after: seq<byte>)
    requires Changed(mem, mem', p, bytes) && Loaded(before, after, 0, mem', p, |bytes|)
    ensures after[..|bytes|] == bytes
  {
    hide ByteAt;
  }
}
