/**
 The bit-bang adapter (adapter-bitbang.c:104-306): every clock is two
 samples of the output pins, and the adapter answers each sample with the level of
 the pins just before it took effect.
 */
module Bitbang {
  import opened Words
  import opened Bits
  import opened Serial
  import opened Jtag
  import opened Scan

  const BUFFER: nat := 128
  const REPLY: nat := 64
  // Bit positions of a sample
  const TCK: nat := 0
  const TDI: nat := 1
  const READ_TDO: nat := 2
  const TMS: nat := 3

  function Sample(tck: bool, tms: bool, tdi: bool): octet {
    [tck, tdi, false, tms, true, false, true, false]
  }

  /** The FT232R in synchronous bit-bang mode with a target on its pins. */
  datatype Pins<!C> = Pins(port: Port<C>, tck: bool)

  /** A rising edge of TCK clocks the port. */
  function Drive<C>(d: Pins<C>, s: octet): Pins<C> {
    Pins(if s[TCK] && !d.tck then Clock(d.port, Clk(s[TMS], s[TDI])) else d.port, s[TCK])
  }

  function Level<C>(d: Pins<C>): octet {
    Zeros(8)[READ_TDO := Tdo(d.port)]
  }

  function DriveAll<C>(d: Pins<C>, ss: seq<octet>): Pins<C>
    decreases |ss|
  {
    if ss == [] then d else DriveAll(Drive(d, ss[0]), ss[1..])
  }

  function Levels<C>(d: Pins<C>, ss: seq<octet>): (r: seq<octet>)
    ensures |r| == |ss|
    decreases |ss|
  {
    if ss == [] then [] else [Level(d)] + Levels(Drive(d, ss[0]), ss[1..])
  }

  lemma {:induction false} DriveAppend<C>(d: Pins<C>, a: seq<octet>, b: seq<octet>)
    ensures DriveAll(d, a + b) == DriveAll(DriveAll(d, a), b)
    ensures Levels(d, a + b) == Levels(d, a) + Levels(DriveAll(d, a), b)
    decreases |a|
  {
    if a == [] {
      assert a + b == b;
    } else {
      assert (a + b)[1..] == a[1..] + b;
      DriveAppend(Drive(d, a[0]), a[1..], b);
    }
  }

  /** The two samples of each clock. */
  function Samples(cs: seq<Clk>): (ss: seq<octet>)
    ensures |ss| == 2 * |cs|
  {
    if cs == [] then []
    else
      var n := |cs| - 1;
      Samples(cs[..n]) + [Sample(false, cs[n].tms, cs[n].tdi), Sample(true, cs[n].tms, cs[n].tdi)]
  }

  lemma SamplesNext(cs: seq<Clk>, c: Clk)
    ensures Samples(cs + [c]) == Samples(cs) + [Sample(false, c.tms, c.tdi), Sample(true, c.tms, c.tdi)]
  {
    assert (cs + [c])[..|cs|] == cs;
  }

  lemma ClockSampled<C>(d: Pins<C>, c: Clk)
    ensures var ss := [Sample(false, c.tms, c.tdi), Sample(true, c.tms, c.tdi)];
            DriveAll(d, ss) == Pins(Clock(d.port, c), true) && Levels(d, ss)[1][READ_TDO] == Tdo(d.port)
  {
    var low, high := Sample(false, c.tms, c.tdi), Sample(true, c.tms, c.tdi);
    var e := Drive(d, low);
    assert [low, high][1..] == [high] && [high][1..] == [];
    assert DriveAll(d, [low, high]) == DriveAll(e, [high]) == DriveAll(Drive(e, high), []);
    assert Levels(e, [high])[0] == Level(e);
    assert Levels(d, [low, high])[1] == Levels(e, [high])[0];
  }

  /** Samples run exactly the clocks they stand for, and every second answer is what the clock reads. */
  lemma {:induction false} SamplesRun<C>(d: Pins<C>, cs: seq<Clk>)
    ensures DriveAll(d, Samples(cs)).port == TapRun(d.port, cs)
    ensures forall i :: 0 <= i < |cs| ==> Levels(d, Samples(cs))[2 * i + 1][READ_TDO] == TapReads(d.port, cs)[i]
    decreases |cs|
  {
    if cs != [] {
      var n, c := |cs| - 1, cs[|cs| - 1];
      var before, ss := Samples(cs[..n]), [Sample(false, c.tms, c.tdi), Sample(true, c.tms, c.tdi)];
      assert cs == cs[..n] + [c];
      SamplesRun(d, cs[..n]);
      DriveAppend(d, before, ss);
      TapRunAppend(d.port, cs[..n], [c]);
      TapOneClock(TapRun(d.port, cs[..n]), c);
      ClockSampled(DriveAll(d, before), c);
    }
  }

  /** The clocks that lead from a parking state to a shift state, with TDI high. */
  function Entry(instruction: bool): seq<Clk> {
    if instruction then [Clk(true, true), Clk(true, true), Clk(false, true), Clk(false, true)]
    else [Clk(true, true), Clk(false, true), Clk(false, true)]
  }

  // ----------------------------------------------------------------- USB packets

  /** The next packet that brings any answers, and the packets behind it; 0 when there is none. */
  function NextPacket(arrivals: seq<nat>): (nat, seq<nat>) {
    if arrivals == [] then (0, [])
    else if arrivals[0] > 0 then (arrivals[0], arrivals[1..])
    else NextPacket(arrivals[1..])
  }

  lemma NextIs(arrivals: seq<nat>)
    requires arrivals != []
    ensures NextPacket(arrivals)
         == if arrivals[0] > 0 then (arrivals[0], arrivals[1..]) else NextPacket(arrivals[1..])
  {
  }

  lemma NoneComes()
    ensures NextPacket([]) == (0, [])
  {
  }

  /** What is asked for at once when n answers are still awaited. */
  function Asked(n: nat): nat { if n < REPLY - 2 then n else REPLY - 2 }

  /** A single packet brings everything that is asked for, until all n answers have come. */
  predicate Whole(arrivals: seq<nat>, n: nat)
    decreases n
  {
    n == 0 || (NextPacket(arrivals).0 >= Asked(n) && Whole(NextPacket(arrivals).1, n - Asked(n)))
  }

  /** The packets that come behind those n answers. */
  function Behind(arrivals: seq<nat>, n: nat): seq<nat>
    decreases n
  {
    if n == 0 then arrivals else Behind(NextPacket(arrivals).1, n - Asked(n))
  }

  /** Packet i brings the answers from 62 * i on, the rest of them or 62. */
  predicate Brings(arrivals: seq<nat>, n: nat, i: nat) {
    62 * i < n ==> i < |arrivals| && arrivals[i] >= Asked(n - 62 * i)
  }

  lemma BringsNext(arrivals: seq<nat>, n: nat, i: nat)
    requires arrivals != [] && n > 0
    ensures Brings(arrivals, n, i + 1) == Brings(arrivals[1..], n - Asked(n), i)
  {
  }

  /** Without empty packets: every packet in its turn brings what is asked for then. */
  lemma {:induction false} WholeExactly(arrivals: seq<nat>, n: nat)
    requires forall i :: 0 <= i < |arrivals| ==> arrivals[i] > 0
    ensures Whole(arrivals, n) <==> forall i: nat :: Brings(arrivals, n, i)
    decreases n
  {
    if n > 0 && arrivals != [] {
      var rest, m := arrivals[1..], n - Asked(n);
      WholeExactly(rest, m);
      forall i: nat
        ensures Brings(arrivals, n, i + 1) == Brings(rest, m, i)
      {
        BringsNext(arrivals, n, i);
      }
      assert Brings(arrivals, n, 0) == (arrivals[0] >= Asked(n));
      if Whole(arrivals, n) {
        forall i: nat
          ensures Brings(arrivals, n, i)
        {
          if i > 0 {
            assert Brings(rest, m, i - 1);
          }
        }
      } else if Brings(arrivals, n, 0) {
        var i: nat :| !Brings(rest, m, i);
        assert !Brings(arrivals, n, i + 1);
      }
    } else {
      assert Brings(arrivals, n, 0) <==> n == 0;
    }
  }

  /** One short packet is enough to lose the exchange. */
  lemma ShortPacketLoses(arrivals: seq<nat>, n: nat, i: nat)
    requires forall i :: 0 <= i < |arrivals| ==> arrivals[i] > 0
    requires i < |arrivals| && 62 * i < n && arrivals[i] < Asked(n - 62 * i)
    ensures !Whole(arrivals, n)
  {
    WholeExactly(arrivals, n);
    assert !Brings(arrivals, n, i);
  }

  /** Full packets, and enough of them, never lose it. */
  lemma FullPacketsSuffice(arrivals: seq<nat>, n: nat)
    requires (forall i :: 0 <= i < |arrivals| ==> arrivals[i] >= 62) && n <= 62 * |arrivals|
    ensures Whole(arrivals, n)
  {
    WholeExactly(arrivals, n);
  }

  /** After some rounds that began with the packets `was` and n answers awaited: `lost` when one fell short. */
  predicate OnCourse(was: seq<nat>, n: nat, arrivals: seq<nat>, left: nat, lost: bool) {
    if lost then !Whole(was, n)
    else Whole(was, n) == Whole(arrivals, left) && Behind(was, n) == Behind(arrivals, left)
  }

  lemma RoundGoes(was: seq<nat>, n: nat, arrivals: seq<nat>, left: nat, lost: bool, complete: bool)
    requires OnCourse(was, n, arrivals, left, lost) && left > 0
    requires !lost ==> (complete <==> NextPacket(arrivals).0 >= Asked(left))
    ensures lost || !complete ==> !Whole(was, n)
    ensures !lost && complete ==> OnCourse(was, n, NextPacket(arrivals).1, left - Asked(left), false)
  {
    hide NextPacket;
  }

  class Bitbang<C> {
    const output: array<octet>
    var outputLen: nat
    var pins: Pins<C>
    var fifo: seq<octet>  // answers the adapter has not delivered yet
    var arrivals: seq<nat>  // how many answers the USB packets to come can bring
    var oscr: word

    predicate Valid()
      reads this
    {
      output.Length == BUFFER && outputLen <= BUFFER && fifo == []
    }

    function Contents(): seq<octet>
      reads this, output
      requires outputLen <= output.Length
    {
      output[..outputLen]
    }

    constructor (port: Port<C>, packets: seq<nat>)
      ensures Valid() && Contents() == [] && pins.port == port && oscr == 0 && fresh(output) && arrivals == packets
    {
      output := new octet[BUFFER](_ => Zeros(8));
      outputLen, pins, fifo, oscr, arrivals := 0, Pins(port, false), [], 0, packets;
    }

    // ------------------------------------------------------------------- USB

    method BulkWrite(at: nat, n: nat)
      requires at + n <= output.Length
      modifies this`pins, this`fifo
      ensures pins == DriveAll(old(pins), output[at..at + n])
      ensures fifo == old(fifo) + Levels(old(pins), output[at..at + n])
    {
      fifo := fifo + Levels(pins, output[at..at + n]);
      pins := DriveAll(pins, output[at..at + n]);
    }

    /** One USB packet: two status bytes and as many answers as it can bring, no more than are asked for. */
    method BulkRead(size: nat) returns (chunk: seq<octet>)
      requires size >= 2 && |fifo| >= size - 2 && arrivals != []
      modifies this`fifo, this`arrivals
      ensures chunk + fifo == old(fifo)
      ensures |chunk| == if old(arrivals[0]) < size - 2 then old(arrivals[0]) else size - 2
      ensures arrivals == old(arrivals[1..])
    {
      var k := if arrivals[0] < size - 2 then arrivals[0] else size - 2;
      chunk := fifo[..k];
      fifo := fifo[k..];
      arrivals := arrivals[1..];
    }

    method CopyIn(at: nat, chunk: seq<octet>)
      requires at + |chunk| <= output.Length
      modifies output
      ensures output[..at + |chunk|] == old(output[..at]) + chunk
      ensures forall i :: at + |chunk| <= i < output.Length ==> output[i] == old(output[i])
    {
      for i := 0 to |chunk|
        invariant output[..at + i] == old(output[..at]) + chunk[..i]
        invariant forall j :: at + i <= j < output.Length ==> output[j] == old(output[j])
      {
        output[at + i] := chunk[i];
      }
    }

    /** The answers of one packet move to the buffer. */
    method ReadPacket(ask: nat, at: nat) returns (n: nat)
      requires ask <= |fifo| && arrivals != [] && at + ask <= output.Length
      modifies this`fifo, this`arrivals, output
      ensures n == (if old(arrivals[0]) < ask then old(arrivals[0]) else ask) && arrivals == old(arrivals[1..])
      ensures output[..at + n] + fifo == old(output[..at] + fifo) && |fifo| == |old(fifo)| - n
      ensures forall i :: at + n <= i < output.Length ==> output[i] == old(output[i])
    {
      var chunk := BulkRead(ask + 2);
      n := |chunk|;
      AppendThree(output[..at], chunk, fifo);
      CopyIn(at, chunk);
    }

    /**
     Collects `want` answers; `up` is false when no more packets come.  The count includes the two
     status bytes of each packet, so the loop gets everything only if one packet brings it all.
     */
    method Receive(want: nat, at: nat) returns (got: nat, up: bool)
      requires 0 < want <= |fifo| && at + want <= output.Length
      modifies this`fifo, this`arrivals, output
      ensures got <= want
      ensures got == want <==> NextPacket(old(arrivals)).0 >= want
      ensures got == want ==> up && arrivals == NextPacket(old(arrivals)).1
      ensures output[..at + got] + fifo == old(output[..at] + fifo) && |fifo| == |old(fifo)| - got
      ensures forall i :: at + got <= i < output.Length ==> output[i] == old(output[i])
    {
      hide NextPacket;
      var bytesRead := 0;
      got := 0;
      NoneComes();
      while bytesRead < want
        invariant got <= want && got <= bytesRead && |fifo| == |old(fifo)| - got
        invariant bytesRead == 0 ==> got == 0 && NextPacket(arrivals) == NextPacket(old(arrivals))
        invariant bytesRead > 0 ==> bytesRead >= got + 2 && (got == want <==> NextPacket(old(arrivals)).0 >= want)
        invariant got == want ==> arrivals == NextPacket(old(arrivals)).1
        invariant output[..at + got] + fifo == old(output[..at] + fifo)
        invariant forall i :: at + got <= i < output.Length ==> output[i] == old(output[i])
        decreases |arrivals|
      {
        if arrivals == [] {
          return got, false;
        }
        NextIs(arrivals);
        var n := ReadPacket(want - bytesRead, at + got);
        if n > 0 {
          bytesRead := bytesRead + n + 2;
          got := got + n;
        }
      }
      up := true;
    }

    /** Adds one TCK/TMS/TDI sample; the program ends when the buffer is full. */
    method Write(tck: bool, tms: bool, tdi: bool)
      requires outputLen < output.Length
      modifies output, this`outputLen
      ensures outputLen == old(outputLen) + 1 && Contents() == old(Contents()) + [Sample(tck, tms, tdi)]
    {
      output[outputLen] := Sample(tck, tms, tdi);
      outputLen := outputLen + 1;
    }

    /**
     Sends the buffer, at most as much at a time as the receive queue holds, and replaces it
     by the answers.  When a packet comes short the original waits forever, and when no more come
     it exits; ok is false then.
     */
    method SendRecv() returns (ok: bool)
      requires Valid() && outputLen < BUFFER
      modifies this`outputLen, this`pins, this`fifo, this`arrivals, output
      ensures ok <==> Whole(old(arrivals), old(outputLen) + 1)
      ensures ok ==> Valid() && outputLen == 0 && arrivals == Behind(old(arrivals), old(outputLen) + 1)
      ensures var ss := old(Contents()) + [Sample(false, true, true)];
              && PartlyDriven(old(pins), pins, ss)
              && (ok ==> pins == DriveAll(old(pins), ss) && output[..|ss|] == Levels(old(pins), ss))
    {
      hide DriveAll, Levels, NextPacket, Whole, Behind, OnCourse, Sample, PartlyDriven;
      Write(false, true, true);
      ghost var ss, was, d := Contents(), arrivals, pins;
      var emptyFifo, txdone, rxdone := REPLY - 2, 0, 0;
      SetsOut(d, ss, was);
      while rxdone < outputLen
        invariant 0 <= rxdone && rxdone + |fifo| == txdone <= outputLen == |ss| <= BUFFER == output.Length
        invariant emptyFifo == REPLY - 2 && pins == DriveAll(d, ss[..txdone])
        invariant output[..rxdone] + fifo == Levels(d, ss[..txdone])
        invariant forall i :: txdone <= i < outputLen ==> output[i] == ss[i]
        invariant OnCourse(was, |ss|, arrivals, |ss| - txdone, fifo != [])
        decreases outputLen - txdone
      {
        if txdone == outputLen {
          Waits(was, |ss|, arrivals);
          Part(d, ss, txdone);
          return false;  // nothing left to send and nothing awaited: the loop never ends
        }
        var bytesToWrite := if outputLen - txdone < emptyFifo then outputLen - txdone else emptyFifo;
        txdone := SendChunk(d, ss, txdone, bytesToWrite, rxdone);
        emptyFifo := emptyFifo - bytesToWrite;
        if emptyFifo == 0 || txdone == outputLen {
          var got, up := ReadReplies(was, |ss|, txdone, REPLY - emptyFifo - 2, rxdone);
          rxdone := rxdone + got;
          emptyFifo := REPLY - 2;
          if !up {
            Part(d, ss, txdone);
            return false;
          }
        }
      }
      Arrives(was, |ss|, arrivals);
      assert ss[..|ss|] == ss;
      Part(d, ss, |ss|);
      outputLen := 0;
      ok := true;
    }

    /** Reads what is asked for at once, after `txdone` of n samples have been sent. */
    method ReadReplies(ghost was: seq<nat>, ghost n: nat, ghost txdone: nat, want: nat, rxdone: nat)
      returns (got: nat, up: bool)
      requires 0 < want <= |fifo| && rxdone + |fifo| == txdone <= n && rxdone + want <= output.Length
      requires OnCourse(was, n, arrivals, n - txdone + want, rxdone + want != txdone) && want == Asked(n - txdone + want)
      modifies this`fifo, this`arrivals, output
      ensures got <= want && |fifo| == |old(fifo)| - got
      ensures output[..rxdone + got] + fifo == old(output[..rxdone] + fifo)
      ensures forall i :: rxdone + got <= i < output.Length ==> output[i] == old(output[i])
      ensures if up then OnCourse(was, n, arrivals, n - txdone, fifo != []) else !Whole(was, n)
    {
      hide NextPacket, Whole, Behind, OnCourse, Asked;
      ghost var before := arrivals;
      got, up := Receive(want, rxdone);
      RoundGoes(was, n, before, n - txdone + want, rxdone + want != txdone, got == want);
      StaysLost(was, n, arrivals, n - txdone);
    }

    /** Sends the next samples; their answers line up behind those awaited. */
    method SendChunk(ghost d: Pins<C>, ghost ss: seq<octet>, at: nat, n: nat, ghost rxdone: nat) returns (txdone: nat)
      requires at + n <= outputLen == |ss| <= output.Length && forall i :: at <= i < at + n ==> output[i] == ss[i]
      requires pins == DriveAll(d, ss[..at]) && rxdone <= at && output[..rxdone] + fifo == Levels(d, ss[..at])
      modifies this`pins, this`fifo
      ensures txdone == at + n && pins == DriveAll(d, ss[..txdone])
      ensures output[..rxdone] + fifo == Levels(d, ss[..txdone]) && |fifo| == |old(fifo)| + n
    {
      hide DriveAll, Levels;
      ghost var chunk := output[at..at + n];
      Chunk(d, ss, at, n);
      assert chunk == ss[at..at + n];
      AppendThree(output[..rxdone], fifo, Levels(pins, chunk));
      BulkWrite(at, n);
      txdone := at + n;
    }

    // ------------------------------------------------------------- Building a scan

    /** Both samples of one clock. */
    method Cycle(ghost cs: seq<Clk>, tms: bool, tdi: bool)
      requires outputLen + 2 <= output.Length && Contents() == Samples(cs)
      modifies output, this`outputLen
      ensures outputLen == old(outputLen) + 2 && Contents() == Samples(cs + [Clk(tms, tdi)])
    {
      Write(false, tms, tdi);
      Write(true, tms, tdi);
      SamplesNext(cs, Clk(tms, tdi));
    }

    /** A TMS step, with TDI high. */
    method Step(ghost cs: seq<Clk>, tms: bool)
      requires outputLen + 2 <= output.Length && Contents() == Samples(cs)
      modifies output, this`outputLen
      ensures outputLen == old(outputLen) + 2 && Contents() == Samples(cs + [Clk(tms, true)])
    {
      Cycle(cs, tms, true);
    }

    /** The data bits of a scan; a new byte is taken every eight bits, zeros when there is no data. */
    method ShiftBits(ghost entry: seq<Clk>, nbits: nat, newdata: seq<octet>)
      requires newdata == [] || nbits <= 8 * |newdata|
      requires outputLen + 2 * nbits <= output.Length && Contents() == Samples(entry)
      modifies output, this`outputLen
      ensures outputLen == old(outputLen) + 2 * nbits
      ensures Contents() == Samples(entry + ShiftClocks(Sent(newdata, nbits)))
    {
      hide Samples, Unpack, ShiftLeft, BitAnd, BytesTaken, OneBit, Zeros, MaskAt;
      ghost var data := Sent(newdata, nbits);
      var databits: octet, mask: octet, next := Zeros(8), Zeros(8), 0;
      FirstByte();
      assert entry + ShiftClocks(data)[..0] == entry;
      for n := 0 to nbits
        invariant outputLen == old(outputLen) + 2 * n
        invariant Contents() == Samples(entry + ShiftClocks(data)[..n])
        invariant MaskAt(mask, n) && next == (if newdata == [] then 0 else BytesTaken(n))
        invariant newdata == [] ==> databits == Zeros(8)
        invariant newdata != [] && n % 8 != 0 && n < nbits ==> databits == newdata[n / 8]
      {
        ByteDue(mask, n);
        if mask == Zeros(8) {
          if newdata != [] {
            databits, next := newdata[next], next + 1;
          }
          mask := OneBit(8, 0);
        }
        NextBit(newdata, nbits, databits, mask, n);
        Cycle(entry + ShiftClocks(data)[..n], n == nbits - 1, BitAnd(databits, mask) != Zeros(8));
        assert entry + ShiftClocks(data)[..n] + [ShiftClocks(data)[n]] == entry + ShiftClocks(data)[..n + 1];
        mask := ShiftLeft(mask, 1);
      }
      assert ShiftClocks(data)[..nbits] == ShiftClocks(data);
    }

    /** data[k] |= 1 << j, or data[k] &= ~(1 << j) */
    method PutBit(data: array<octet>, k: nat, j: nat, high: bool)
      requires k < data.Length && j < 8
      modifies data
      ensures data[..] == old(data[..])[k := old(data[k])[j := high]]
    {
      SetBit(data[k], j);
      if high {
        data[k] := BitOr(data[k], OneBit(8, j));
      } else {
        data[k] := BitAnd(data[k], BitNot(OneBit(8, j)));
      }
    }

    /** Bit n of a string of bytes */
    method PutAnswer(data: array<octet>, n: nat, high: bool)
      requires n < 8 * data.Length
      modifies data
      ensures Unpack(data[..]) == old(Unpack(data[..]))[n := high]
    {
      hide Unpack, BitOr, BitAnd, BitNot, OneBit;
      UnpackSet(data[..], n, n / 8, n % 8, high);
      PutBit(data, n / 8, n % 8, high);
    }

    /** Extracts the answers from sample `offset` on into the low bits of data. */
    method BitRead(offset: nat, nbits: nat, data: array<octet>, ghost t: bits)
      requires data != output && offset + 2 * nbits <= output.Length && nbits <= 8 * data.Length
      requires |t| == nbits && forall i :: 0 <= i < nbits ==> output[offset + 2 * i + 1][READ_TDO] == t[i]
      modifies data
      ensures Unpack(data[..]) == t + old(Unpack(data[..]))[nbits..]
    {
      hide Unpack, BitOr, BitAnd, BitNot, OneBit;
      ghost var was := Unpack(data[..]);
      assert t[..0] + was[0..] == was;
      for n := 0 to nbits
        invariant Unpack(data[..]) == t[..n] + was[n..]
      {
        PutAnswer(data, n, output[offset + n * 2 + 1][READ_TDO]);
        Advance(t, was, n);
      }
    }

    /** The bits of a new instruction, the last of them with TMS high. */
    method ShiftInstr(ghost entry: seq<Clk>, nbits: nat, newinst: word)
      requires nbits <= 32 && outputLen + 2 * nbits <= output.Length && Contents() == Samples(entry)
      modifies output, this`outputLen
      ensures outputLen == old(outputLen) + 2 * nbits
      ensures Contents() == Samples(entry + ShiftClocks(ToBits(newinst, 32)[..nbits]))
    {
      hide Samples, ShiftLeft, BitAnd, OneBit, Zeros, ToBits;
      ghost var data := ToBits(newinst, 32)[..nbits];
      var mask := OneBit(32, 0);
      assert entry + ShiftClocks(data)[..0] == entry;
      for n := 0 to nbits
        invariant outputLen == old(outputLen) + 2 * n && |mask| == 32
        invariant Contents() == Samples(entry + ShiftClocks(data)[..n])
        invariant n < 32 ==> mask == OneBit(32, n)
      {
        InstrBit(ToBits(newinst, 32), n);
        Cycle(entry + ShiftClocks(data)[..n], n == nbits - 1, BitAnd(ToBits(newinst, 32), mask) != Zeros(32));
        assert entry + ShiftClocks(data)[..n] + [ShiftClocks(data)[n]] == entry + ShiftClocks(data)[..n + 1];
        mask := ShiftLeft(mask, 1);
      }
      assert ShiftClocks(data)[..nbits] == ShiftClocks(data);
    }

    // ------------------------------------------------------------------- Scans

    /**
     The end of a scan: one more clock, the exchange, and the bits that were read, which
     replace the low bits of olddata when there is one.
     */
    method Finish(ghost pre: seq<Clk>, ghost entry: seq<Clk>, ghost data: bits, ghost instruction: bool,
                  inputOffset: nat, nbits: nat, olddata: array?<octet>)
      returns (ok: bool)
      requires Valid() && Contents() == Samples(pre + entry + ShiftClocks(data)) && outputLen + 3 <= BUFFER
      requires var p := TapRun(pins.port, pre);
               TapRun(p, entry) == p.(tap := if instruction then ShiftIR else ShiftDR, shifted := [])
      requires 0 < nbits == |data| && inputOffset == 2 * (|pre| + |entry|)
      requires olddata != null ==> olddata != output && nbits <= 8 * olddata.Length
      modifies this`outputLen, this`pins, this`fifo, this`arrivals, output, olddata
      ensures ok <==> Whole(old(arrivals), old(outputLen) + 3)
      ensures ok ==> Valid() && outputLen == 0 && arrivals == Behind(old(arrivals), old(outputLen) + 3)
      ensures ok ==> pins.port == Scanned(TapRun(old(pins.port), pre), instruction, data)
      ensures ok && olddata != null ==>
                Unpack(olddata[..]) == ScanOut(TapRun(old(pins.port), pre), instruction, data)
                                       + old(if olddata == null then [] else Unpack(olddata[..]))[nbits..]
    {
      hide Samples, ScanOut, DrScan, IrScan, Unpack, TapRun, DriveAll, Levels, Sample, ShiftClocks, Whole, Behind;
      ghost var d := pins;
      Step(pre + entry + ShiftClocks(data), true);
      ScanDriven(d, pre, entry, data, instruction);
      ghost var ss := Contents() + [Sample(false, true, true)];
      ok := SendRecv();
      if ok && olddata != null {
        assert output[..|ss|] == Levels(d, ss);
        BitRead(inputOffset, nbits, olddata, ScanOut(TapRun(d.port, pre), instruction, data));
      }
    }

    /** The steps into the shift state. */
    method EnterShift(ghost pre: seq<Clk>, instruction: bool)
      requires outputLen + 8 <= output.Length && Contents() == Samples(pre)
      modifies this`outputLen, output
      ensures outputLen == old(outputLen) + 2 * |Entry(instruction)|
      ensures Contents() == Samples(pre + Entry(instruction))
    {
      hide Samples;
      ghost var cs := pre + [Clk(true, true)];
      Step(pre, true);
      if instruction {
        Step(cs, true);
        cs := cs + [Clk(true, true)];
      }
      Step(cs, false);
      Step(cs + [Clk(false, true)], false);
      assert cs + [Clk(false, true)] + [Clk(false, true)] == pre + Entry(instruction);
    }

    /** One data scan, after whatever clocks are queued already. */
    method TapData(ghost pre: seq<Clk>, nbits: nat, newdata: seq<octet>, olddata: array?<octet>)
      returns (ok: bool)
      requires Valid() && Contents() == Samples(pre) && Parked(TapRun(pins.port, pre).tap)
      requires 0 < nbits && (newdata == [] || nbits <= 8 * |newdata|) && outputLen + 2 * nbits + 9 <= BUFFER
      requires olddata != null ==> olddata != output && nbits <= 8 * olddata.Length
      modifies this`outputLen, this`pins, this`fifo, this`arrivals, output, olddata
      ensures ok <==> Whole(old(arrivals), old(outputLen) + 2 * nbits + 9)
      ensures ok ==> Valid() && outputLen == 0 && arrivals == Behind(old(arrivals), old(outputLen) + 2 * nbits + 9)
      ensures ok ==> pins.port == DrScan(TapRun(old(pins.port), pre), Sent(newdata, nbits))
      ensures ok && olddata != null ==>
                Unpack(olddata[..]) == ScanOut(TapRun(old(pins.port), pre), false, Sent(newdata, nbits))
                                       + old(if olddata == null then [] else Unpack(olddata[..]))[nbits..]
    {
      hide Samples, ScanOut, DrScan, Sent, Unpack, TapRun, ShiftClocks, Whole, Behind;
      ghost var entry := Entry(false);
      ToShiftDR(TapRun(pins.port, pre), entry[0], entry[1], entry[2]);
      EnterShift(pre, false);
      var inputOffset := outputLen;
      ShiftBits(pre + entry, nbits, newdata);
      ok := Finish(pre, entry, Sent(newdata, nbits), false, inputOffset, nbits, olddata);
    }

    /** One instruction scan; returns the bits read. */
    method TapInstr(ghost pre: seq<Clk>, nbits: nat, newinst: word) returns (ok: bool, status: word)
      requires Valid() && Contents() == Samples(pre) && Parked(TapRun(pins.port, pre).tap)
      requires 0 < nbits <= 32 && outputLen + 2 * nbits + 11 <= BUFFER
      modifies this`outputLen, this`pins, this`fifo, this`arrivals, output
      ensures ok <==> Whole(old(arrivals), old(outputLen) + 2 * nbits + 11)
      ensures ok ==> Valid() && outputLen == 0 && arrivals == Behind(old(arrivals), old(outputLen) + 2 * nbits + 11)
      ensures ok ==> pins.port == IrScan(TapRun(old(pins.port), pre), ToBits(newinst, 32)[..nbits])
      ensures ok ==> ToBits(status, 32) == ScanOut(TapRun(old(pins.port), pre), true, ToBits(newinst, 32)[..nbits])
                                           + Zeros(32 - nbits)
    {
      hide Samples, ScanOut, IrScan, Unpack, TapRun, ShiftClocks, ToBits, Num, Pow2, Whole, Behind, Unsigned, TapNext;
      ghost var data := ToBits(newinst, 32)[..nbits];
      ghost var entry := Entry(true);
      ToShiftIR(TapRun(pins.port, pre), entry[0], entry[1], entry[2], entry[3]);
      EnterShift(pre, true);
      var inputOffset := outputLen;
      ShiftInstr(pre + entry, nbits, newinst);
      var bytes := new octet[4](_ => Zeros(8));
      ghost var was := Unpack(bytes[..]);
      assert was[nbits..] == Zeros(32 - nbits) by { FourZeros(bytes[..]); }
      ok := Finish(pre, entry, data, true, inputOffset, nbits, bytes);
      status := Unsigned(bytes[..]);
    }
  }

  /** The samples were driven, perhaps not all of them. */
  ghost predicate PartlyDriven<C>(d: Pins<C>, e: Pins<C>, ss: seq<octet>) {
    exists n :: 0 <= n <= |ss| && e == DriveAll(d, ss[..n])
  }

  lemma Part<C>(d: Pins<C>, ss: seq<octet>, n: nat)
    requires n <= |ss|
    ensures PartlyDriven(d, DriveAll(d, ss[..n]), ss)
  {
  }

  lemma SetsOut<C>(d: Pins<C>, ss: seq<octet>, was: seq<nat>)
    ensures d == DriveAll(d, ss[..0]) && [] == Levels(d, ss[..0]) && OnCourse(was, |ss|, was, |ss|, false)
  {
    EmptyDrive(d, ss);
  }

  lemma Waits(was: seq<nat>, n: nat, arrivals: seq<nat>)
    ensures OnCourse(was, n, arrivals, 0, true) ==> !Whole(was, n)
  {
  }

  lemma StaysLost(was: seq<nat>, n: nat, arrivals: seq<nat>, left: nat)
    ensures !Whole(was, n) ==> OnCourse(was, n, arrivals, left, true)
  {
  }

  lemma Arrives(was: seq<nat>, n: nat, arrivals: seq<nat>)
    requires OnCourse(was, n, arrivals, 0, false)
    ensures Whole(was, n) && Behind(was, n) == arrivals
  {
  }

  function Scanned<C>(p: Port<C>, instruction: bool, data: bits): Port<C> {
    if instruction then IrScan(p, data) else DrScan(p, data)
  }

  /** Four bytes as an unsigned. */
  function Unsigned(s: seq<octet>): (v: word)
    requires |s| == 4
    ensures ToBits(v, 32) == Unpack(s)
  {
    Powers();
    BitsOfNum(Unpack(s));
    Num(Unpack(s))
  }

  lemma FourZeros(s: seq<octet>)
    requires |s| == 4 && forall i :: 0 <= i < 4 ==> s[i] == Zeros(8)
    ensures Unpack(s) == Zeros(32)
  {
    hide Unpack;
    forall i | 0 <= i < 32
      ensures Unpack(s)[i] == Zeros(32)[i]
    {
      UnpackAt(s, i);
    }
  }

  lemma InstrBit(b: bits, n: nat)
    requires |b| == 32 && n < 32
    ensures (BitAnd(b, OneBit(32, n)) != Zeros(32)) == b[n]
    ensures n < 31 ==> ShiftLeft(OneBit(32, n), 1) == OneBit(32, n + 1)
  {
    var m := BitAnd(b, OneBit(32, n));
    assert m[n] == b[n];
    forall i | 0 <= i < 32 && !b[n]
      ensures m[i] == Zeros(32)[i]
    {
    }
  }

  /** What a scan sends: the low bits of the data, or zeros. */
  function Sent(newdata: seq<octet>, nbits: nat): (d: bits)
    requires newdata == [] || nbits <= 8 * |newdata|
    ensures |d| == nbits
  {
    if newdata == [] then Zeros(nbits) else Unpack(newdata)[..nbits]
  }

  /** The mask before bit n: empty when a new byte is due. */
  predicate MaskAt(mask: octet, n: nat) {
    mask == if n % 8 == 0 then Zeros(8) else OneBit(8, n % 8)
  }

  /** The samples of a scan, queued behind the clocks `pre`, perform it, and answer what it reads. */
  lemma ScanDriven<C>(d: Pins<C>, pre: seq<Clk>, entry: seq<Clk>, data: bits, instruction: bool)
    requires data != []
    requires var p := TapRun(d.port, pre);
             TapRun(p, entry) == p.(tap := if instruction then ShiftIR else ShiftDR, shifted := [])
    ensures var p := TapRun(d.port, pre);
            var ss := Samples(pre + entry + ShiftClocks(data) + [Clk(true, true)]) + [Sample(false, true, true)];
            && DriveAll(d, ss).port == (if instruction then IrScan(p, data) else DrScan(p, data))
            && |ss| >= 2 * (|pre| + |entry| + |data|)
            && (forall i :: 0 <= i < |data| ==>
                  Levels(d, ss)[2 * (|pre| + |entry|) + 2 * i + 1][READ_TDO] == ScanOut(p, instruction, data)[i])
  {
    hide Samples, ScanOut, DrScan, IrScan, TapRun, TapReads, ShiftClocks, Levels, DriveAll;
    var p := TapRun(d.port, pre);
    var last := Clk(true, true);
    var scan := ScanClocks(entry, data, last);
    var cs := pre + entry + ShiftClocks(data) + [last];
    assert cs == pre + scan;
    SamplesRun(d, cs);
    LastSample(d, Samples(cs));
    TapRunAppend(d.port, pre, scan);
    ScanRuns(p, entry, data, last, instruction);
    ScanReads(p, entry, data, last, instruction);
    forall i | 0 <= i < |data|
      ensures TapReads(d.port, cs)[|pre| + |entry| + i] == ScanOut(p, instruction, data)[i]
    {
      assert TapReads(p, scan)[|entry|..|entry| + |data|][i] == TapReads(p, scan)[|entry| + i];
    }
    forall i | 0 <= i < |data|
      ensures Levels(d, Samples(cs) + [Sample(false, true, true)])[2 * (|pre| + |entry|) + 2 * i + 1][READ_TDO]
           == ScanOut(p, instruction, data)[i]
    {
      var k := |pre| + |entry| + i;
      assert Levels(d, Samples(cs))[2 * k + 1][READ_TDO] == TapReads(d.port, cs)[k];
    }
  }

  /** The sample that parks TCK low clocks nothing. */
  lemma LastSample<C>(d: Pins<C>, ss: seq<octet>)
    ensures DriveAll(d, ss + [Sample(false, true, true)]).port == DriveAll(d, ss).port
    ensures Levels(d, ss + [Sample(false, true, true)])[..|ss|] == Levels(d, ss)
  {
    DriveAppend(d, ss, [Sample(false, true, true)]);
    OneSample(DriveAll(d, ss), Sample(false, true, true));
  }

  lemma OneSample<C>(d: Pins<C>, s: octet)
    ensures DriveAll(d, [s]) == Drive(d, s)
  {
  }

  lemma Advance(t: bits, was: bits, n: nat)
    requires n < |t| <= |was|
    ensures (t[..n] + was[n..])[n := t[n]] == t[..n + 1] + was[n + 1..]
  {
  }

  lemma SetBit(b: octet, k: nat)
    requires k < 8
    ensures BitOr(b, OneBit(8, k)) == b[k := true] && BitAnd(b, BitNot(OneBit(8, k))) == b[k := false]
  {
  }

  lemma UnpackSet(s: seq<octet>, n: nat, k: nat, j: nat, b: bool)
    requires n < 8 * |s| && k == n / 8 && j == n % 8
    ensures Unpack(s[k := s[k][j := b]]) == Unpack(s)[n := b]
  {
    hide Unpack;
    var s' := s[k := s[k][j := b]];
    forall i | 0 <= i < 8 * |s|
      ensures Unpack(s')[i] == Unpack(s)[n := b][i]
    {
      UnpackAt(s', i);
      UnpackAt(s, i);
    }
  }

  /** Bytes taken before bit n. */
  function BytesTaken(n: nat): nat { (n + 7) / 8 }

  lemma FirstByte()
    ensures MaskAt(Zeros(8), 0) && BytesTaken(0) == 0
  {
  }

  lemma ByteDue(mask: octet, n: nat)
    requires MaskAt(mask, n)
    ensures (mask == Zeros(8)) == (n % 8 == 0)
    ensures if n % 8 == 0 then BytesTaken(n) == n / 8 else mask == OneBit(8, n % 8) && BytesTaken(n) == n / 8 + 1
    ensures BytesTaken(n + 1) == n / 8 + 1
    ensures n % 8 == 0 ==> OneBit(8, 0) == OneBit(8, n % 8)
    ensures (n + 1) % 8 != 0 ==> (n + 1) / 8 == n / 8
  {
    if n % 8 != 0 {
      assert OneBit(8, n % 8)[n % 8];
    }
  }

  lemma {:induction false} UnpackAt(s: seq<octet>, i: nat)
    requires i < 8 * |s|
    ensures Unpack(s)[i] == s[i / 8][i % 8]
  {
    if i >= 8 {
      UnpackAt(s[1..], i - 8);
    }
  }

  lemma NextBit(newdata: seq<octet>, nbits: nat, databits: octet, mask: octet, n: nat)
    requires n < nbits && (newdata == [] || nbits <= 8 * |newdata|)
    requires mask == OneBit(8, n % 8)
    requires databits == if newdata == [] then Zeros(8) else newdata[n / 8]
    ensures (BitAnd(databits, mask) != Zeros(8)) == Sent(newdata, nbits)[n]
    ensures MaskAt(ShiftLeft(mask, 1), n + 1)
  {
    MaskedBit(databits, n % 8);
    if newdata != [] {
      UnpackAt(newdata, n);
    }
    NextMask(n);
  }

  lemma MaskedBit(b: octet, k: nat)
    requires k < 8
    ensures (BitAnd(b, OneBit(8, k)) != Zeros(8)) == b[k]
  {
    var m := BitAnd(b, OneBit(8, k));
    assert m[k] == b[k];
    if !b[k] {
      forall i | 0 <= i < 8
        ensures m[i] == Zeros(8)[i]
      {
      }
    }
  }

  lemma NextMask(n: nat)
    ensures MaskAt(ShiftLeft(OneBit(8, n % 8), 1), n + 1)
  {
    OneBitMoves(n % 8);
    assert (n + 1) % 8 == if n % 8 == 7 then 0 else n % 8 + 1;
  }

  lemma OneBitMoves(k: nat)
    requires k < 8
    ensures ShiftLeft(OneBit(8, k), 1) == if k == 7 then Zeros(8) else OneBit(8, k + 1)
  {
    var m := ShiftLeft(OneBit(8, k), 1);
    var want := if k == 7 then Zeros(8) else OneBit(8, k + 1);
    forall i | 0 <= i < 8
      ensures m[i] == want[i]
    {
    }
  }

  lemma EmptyDrive<C>(d: Pins<C>, ss: seq<octet>)
    ensures DriveAll(d, ss[..0]) == d && Levels(d, ss[..0]) == []
  {
  }

  lemma Chunk<C>(d: Pins<C>, ss: seq<octet>, at: nat, n: nat)
    requires at + n <= |ss|
    ensures DriveAll(d, ss[..at + n]) == DriveAll(DriveAll(d, ss[..at]), ss[at..at + n])
    ensures Levels(d, ss[..at + n]) == Levels(d, ss[..at]) + Levels(DriveAll(d, ss[..at]), ss[at..at + n])
  {
    assert ss[..at + n] == ss[..at] + ss[at..at + n];
    DriveAppend(d, ss[..at], ss[at..at + n]);
  }
}
