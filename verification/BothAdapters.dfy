/**
 Both adapters implement the same JTAG port: whatever scans are asked for, the command
 bytes of adapter-mpsse.c and the pin samples of adapter-bitbang.c leave the same target in
 the same state and bring back the same bits.
 */
module BothAdapters {
  import opened Bits
  import opened Serial
  import opened Jtag
  import opened Ftdi
  import opened Scan
  import opened Decode
  import opened OncdPort
  import opened Bitbang

  /** The low n bits of a word shifted through the instruction or the data register. */
  datatype Request = Request(instruction: bool, tdi: word64, n: nat)

  predicate Proper(qs: seq<Request>) {
    forall i :: 0 <= i < |qs| ==> 0 < qs[i].n <= 64
  }

  function DataOf(q: Request): (b: bits)
    requires q.n <= 64
    ensures |b| == q.n
  {
    q.tdi[..q.n]
  }

  function After<C>(p: Port<C>, q: Request): Port<C>
    requires q.n <= 64
  {
    Scanned(p, q.instruction, DataOf(q))
  }

  /** The port after the scans, each seen as one operation. */
  function Performed<C>(p: Port<C>, qs: seq<Request>): Port<C>
    requires Proper(qs)
    decreases |qs|
  {
    if qs == [] then p else Performed(After(p, qs[0]), qs[1..])
  }

  /** What each of them reads. */
  function Answers<C>(p: Port<C>, qs: seq<Request>): (ts: seq<bits>)
    requires Proper(qs)
    ensures |ts| == |qs|
    decreases |qs|
  {
    if qs == [] then []
    else [ScanOut(p, qs[0].instruction, DataOf(qs[0]))] + Answers(After(p, qs[0]), qs[1..])
  }

  // ------------------------------------------------------------------ FT2232

  function Prolog(q: Request): bits { if q.instruction then [true] else [] }

  /** The commands queued for the scans. */
  function Commands(qs: seq<Request>): (cs: seq<Command>)
    requires Proper(qs)
    ensures forall c :: c in cs ==> WellFormed(c)
    decreases |qs|
  {
    if qs == [] then [] else Packet(Prolog(qs[0]), qs[0].tdi, qs[0].n, true) + Commands(qs[1..])
  }

  /** One answer after the other, each holding the bits of one scan. */
  ghost predicate Carries(reply: seq<octet>, ts: seq<bits>)
    decreases |ts|
  {
    if ts == [] then reply == []
    else
      ts[0] != [] && exists k :: 0 <= k <= |reply| && Returns(Unpack(reply[..k]), ts[0]) && Carries(reply[k..], ts[1..])
  }

  lemma CarriesFirst(r: seq<octet>, rest: seq<octet>, t: bits, ts: seq<bits>)
    requires t != [] && Returns(Unpack(r), t) && Carries(rest, ts)
    ensures Carries(r + rest, [t] + ts)
  {
    hide Returns, Unpack;
    var all, us := r + rest, [t] + ts;
    assert all[..|r|] == r && all[|r|..] == rest && us[1..] == ts;
  }

  lemma OnePacket<C>(f: Ftdi<Port<C>>, p: Port<C>, q: Request) returns (r: seq<octet>)
    requires f.port == TapDevice(p) && Parked(p.tap) && 0 < q.n <= 64
    ensures var g := DoAll(f, Packet(Prolog(q), q.tdi, q.n, true));
            g.port == TapDevice(After(p, q)) && g.reply == f.reply + r
    ensures Returns(Unpack(r), ScanOut(p, q.instruction, DataOf(q)))
    ensures Parked(After(p, q).tap)
  {
    hide DoAll, Packet, RunClocks, Tdos, PacketClocks, Returns, Unpack, ScanOut, TapDevice;
    var t;
    r, t := PacketRuns(f, Prolog(q), q.tdi, q.n, true);
    if q.instruction {
      InstructionPacket(p, DataOf(q));
    } else {
      DataPacket(p, DataOf(q));
    }
  }

  lemma FirstOf<C>(f: Ftdi<Port<C>>, p: Port<C>, qs: seq<Request>)
    requires qs != [] && Proper(qs)
    ensures var cs := Packet(Prolog(qs[0]), qs[0].tdi, qs[0].n, true);
            DoAll(f, Commands(qs)) == DoAll(DoAll(f, cs), Commands(qs[1..]))
    ensures Performed(p, qs) == Performed(After(p, qs[0]), qs[1..])
    ensures Answers(p, qs) == [ScanOut(p, qs[0].instruction, DataOf(qs[0]))] + Answers(After(p, qs[0]), qs[1..])
  {
    hide DoAll, Packet, ScanOut, After;
    DoAllAppend(f, Packet(Prolog(qs[0]), qs[0].tdi, qs[0].n, true), Commands(qs[1..]));
  }

  lemma NoScans<C>(f: Ftdi<Port<C>>, p: Port<C>)
    ensures DoAll(f, Commands([])) == f && Performed(p, []) == p && Carries([], Answers(p, []))
  {
  }

  /** Run by the engine, the commands perform the scans, and the reply carries what they read. */
  lemma {:induction false} EngineScans<C>(f: Ftdi<Port<C>>, p: Port<C>, qs: seq<Request>) returns (reply: seq<octet>)
    requires f.port == TapDevice(p) && Parked(p.tap) && Proper(qs)
    ensures var g := DoAll(f, Commands(qs));
            g.port == TapDevice(Performed(p, qs)) && g.reply == f.reply + reply
    ensures Carries(reply, Answers(p, qs)) && Parked(Performed(p, qs).tap)
    decreases |qs|
  {
    hide DoAll, Packet, Commands, Performed, Answers, Carries, ScanOut, TapDevice, Returns, Unpack, After, Parked;
    if qs == [] {
      NoScans(f, p);
      reply := [];
    } else {
      var r := OnePacket(f, p, qs[0]);
      FirstOf(f, p, qs);
      var g := DoAll(f, Packet(Prolog(qs[0]), qs[0].tdi, qs[0].n, true));
      var rest := EngineScans(g, After(p, qs[0]), qs[1..]);
      var t := ScanOut(p, qs[0].instruction, DataOf(qs[0]));
      CarriesFirst(r, rest, t, Answers(After(p, qs[0]), qs[1..]));
      reply := r + rest;
      assert f.reply + r + rest == f.reply + reply;
    }
  }

  // ----------------------------------------------------------------- Bit-bang

  /** The samples sent for one scan. */
  function ScanSamples(q: Request): seq<octet>
    requires q.n <= 64
  {
    Samples([] + Entry(q.instruction) + ShiftClocks(DataOf(q)) + [Clk(true, true)]) + [Sample(false, true, true)]
  }

  function AllSamples(qs: seq<Request>): seq<octet>
    requires Proper(qs)
    decreases |qs|
  {
    if qs == [] then [] else ScanSamples(qs[0]) + AllSamples(qs[1..])
  }

  /** The bits taken from the answers to a scan, where bitbang_read looks for them. */
  function Extracted(levels: seq<octet>, q: Request): (t: bits)
    requires |levels| >= 2 * (|Entry(q.instruction)| + q.n)
    ensures |t| == q.n
  {
    seq(q.n, i requires 0 <= i < q.n => levels[2 * |Entry(q.instruction)| + 2 * i + 1][READ_TDO])
  }

  /** What is extracted scan by scan. */
  function Seen<C>(d: Pins<C>, qs: seq<Request>): (ts: seq<bits>)
    requires Proper(qs)
    ensures |ts| == |qs|
    decreases |qs|
  {
    if qs == [] then []
    else
      var ss := ScanSamples(qs[0]);
      [Extracted(Levels(d, ss), qs[0])] + Seen(DriveAll(d, ss), qs[1..])
  }

  lemma OneScan<C>(d: Pins<C>, q: Request)
    requires Parked(d.port.tap) && 0 < q.n <= 64
    ensures var ss := ScanSamples(q);
            && DriveAll(d, ss).port == After(d.port, q)
            && Extracted(Levels(d, ss), q) == ScanOut(d.port, q.instruction, DataOf(q))
    ensures Parked(After(d.port, q).tap)
  {
    hide DriveAll, Levels, Samples, ScanOut, ShiftClocks, TapRun;
    var p, e := d.port, Entry(q.instruction);
    assert TapRun(p, []) == p by { NoClocks(p); }
    if q.instruction {
      ToShiftIR(p, e[0], e[1], e[2], e[3]);
    } else {
      ToShiftDR(p, e[0], e[1], e[2]);
    }
    ScanDriven(d, [], e, DataOf(q), q.instruction);
  }

  lemma NoClocks<C>(p: Port<C>)
    ensures TapRun(p, []) == p
  {
  }

  /** Driven on the pins, the samples perform the scans, and the answers hold what they read. */
  lemma {:induction false} PinsScan<C>(d: Pins<C>, qs: seq<Request>)
    requires Parked(d.port.tap) && Proper(qs)
    ensures DriveAll(d, AllSamples(qs)).port == Performed(d.port, qs)
    ensures Seen(d, qs) == Answers(d.port, qs)
    decreases |qs|
  {
    hide ScanSamples, Extracted, ScanOut, After, Levels;
    if qs != [] {
      OneScan(d, qs[0]);
      PinsScan(DriveAll(d, ScanSamples(qs[0])), qs[1..]);
      DriveAppend(d, ScanSamples(qs[0]), AllSamples(qs[1..]));
    }
  }

  /** Every run of scans: the same target in the same state, and the same bits read. */
  lemma AdaptersAgree<C>(f: Ftdi<Port<C>>, d: Pins<C>, qs: seq<Request>) returns (reply: seq<octet>)
    requires f.port == TapDevice(d.port) && Parked(d.port.tap) && Proper(qs)
    ensures var g, e := DoAll(f, Commands(qs)), DriveAll(d, AllSamples(qs));
            g.port == TapDevice(e.port) && g.reply == f.reply + reply && Parked(e.port.tap)
    ensures Carries(reply, Seen(d, qs))
  {
    hide DoAll, Commands, DriveAll, AllSamples, TapDevice, Carries, Seen, Answers, Performed;
    reply := EngineScans(f, d.port, qs);
    PinsScan(d, qs);
  }
}
