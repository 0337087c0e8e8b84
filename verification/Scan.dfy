/**
 The scan compiler of the MPSSE adapter (adapter-mpsse.c:218-360): from a TMS
 prolog and up to 64 data bits to MPSSE commands, and from the bytes the engine
 returns back to the bits it read.
 */
module Scan {
  import opened Bits
  import opened Serial
  import opened Ftdi

  /** Bits as bytes, eight at a time. */
  function Pack(d: bits): (s: seq<octet>)
    requires |d| % 8 == 0
    ensures |s| == |d| / 8
  {
    if d == [] then [] else [d[..8]] + Pack(d[8..])
  }

  function Unpack(s: seq<octet>): (d: bits)
    ensures |d| == 8 * |s|
  {
    if s == [] then [] else s[0] + Unpack(s[1..])
  }

  lemma UnpackOne(b: octet)
    ensures Unpack([b]) == b
  {
    assert Unpack([b]) == b + Unpack([]);
  }

  lemma {:induction false} UnpackPacked(d: bits)
    requires |d| % 8 == 0
    ensures Unpack(Pack(d)) == d
  {
    if d != [] {
      UnpackPacked(d[8..]);
      assert d[..8] + d[8..] == d;
    }
  }

  lemma {:induction false} UnpackAppend(a: seq<octet>, b: seq<octet>)
    ensures Unpack(a + b) == Unpack(a) + Unpack(b)
  {
    if a == [] {
      assert a + b == b;
    } else {
      assert (a + b)[1..] == a[1..] + b;
      UnpackAppend(a[1..], b);
    }
  }

  // ------------------------------------------------------------ The commands of a packet

  const STANDARD_PROLOG: bits := [true, false, false]

  /** The prolog, at most seven bits to a command. */
  function PrologCommands(p: bits): (cs: seq<Command>)
    requires |p| <= 14
    ensures forall c :: c in cs ==> WellFormed(c)
  {
    if |p| == 0 then []
    else if |p| < 8 then [Tms(|p|, (p + Zeros(8 - |p|)), false)]
    else [Tms(7, (p[..7] + [false]), false), Tms(|p| - 7, (p[7..] + Zeros(15 - |p|)), false)]
  }

  function WholeCommands(w: bits, whole: nat, read: bool): (cs: seq<Command>)
    requires |w| == 64 && whole < 8
    ensures forall c :: c in cs ==> WellFormed(c)
  {
    if whole > 0 then [Whole(Pack(w[..8 * whole]), read)] else []
  }

  /** A last partial byte carries higher bits of the word along. */
  function TailCommands(w: bits, whole: nat, tail: nat, read: bool): (cs: seq<Command>)
    requires |w| == 64 && whole < 8 && tail < 8
    ensures forall c :: c in cs ==> WellFormed(c)
  {
    if tail > 0 then [Data(tail, w[8 * whole..8 * whole + 8], read)] else []
  }

  function DataCommands(w: bits, n: nat, read: bool): (cs: seq<Command>)
    requires |w| == 64 && n < 64
    ensures forall c :: c in cs ==> WellFormed(c)
  {
    WholeCommands(w, n / 8, read) + TailCommands(w, n / 8, n % 8, read)
  }

  /** The last data bit, with TMS high, and one more clock with TMS high. */
  function EpilogCommand(last: bool, read: bool): (c: Command)
    ensures WellFormed(c)
  {
    Tms(2, ([true, true, false, false, false, false, false, last]), read)
  }

  function Packet(p: bits, w: bits, n: nat, read: bool): (cs: seq<Command>)
    requires |w| == 64 && n <= 64 && |p| <= if n == 0 then 14 else 11
    ensures forall c :: c in cs ==> WellFormed(c)
  {
    if n == 0 then PrologCommands(p)
    else PrologCommands(p + STANDARD_PROLOG) + DataCommands(w, n - 1, read) + [EpilogCommand(w[n - 1], read)]
  }

  lemma PrologSize(p: bits)
    requires |p| <= 14
    ensures |SerializeAll(PrologCommands(p))| <= 6
  {
    var cs := PrologCommands(p);
    if |cs| == 2 {
      assert SerializeAll(cs[1..]) == Serialize(cs[1]) + SerializeAll(cs[1..][1..]);
    }
  }

  lemma PacketSize(p: bits, w: bits, n: nat, read: bool)
    requires |w| == 64 && n <= 64 && |p| <= if n == 0 then 14 else 11
    ensures |SerializeAll(Packet(p, w, n, read))| <= 23
  {
    if n == 0 {
      PrologSize(p);
    } else {
      var a, b := PrologCommands(p + STANDARD_PROLOG), DataCommands(w, n - 1, read);
      var c := [EpilogCommand(w[n - 1], read)];
      PrologSize(p + STANDARD_PROLOG);
      DataSize(w, n - 1, read);
      SerializeAppend(a, b);
      SerializeAppend(a + b, c);
      assert SerializeAll(c) == Serialize(c[0]) + SerializeAll(c[1..]);
    }
  }

  lemma DataSize(w: bits, n: nat, read: bool)
    requires |w| == 64 && n < 64
    ensures |SerializeAll(DataCommands(w, n, read))| <= 13
  {
    var a, b := WholeCommands(w, n / 8, read), TailCommands(w, n / 8, n % 8, read);
    SerializeAppend(a, b);
    if a != [] {
      assert SerializeAll(a) == Serialize(a[0]) + SerializeAll([]);
    }
    if b != [] {
      assert SerializeAll(b) == Serialize(b[0]) + SerializeAll([]);
    }
  }

  // ------------------------------------------------------- What the commands do

  function TmsClocks(tms: bits): (cs: seq<Clk>)
    ensures |cs| == |tms|
  {
    seq(|tms|, i requires 0 <= i < |tms| => Clk(tms[i], false))
  }

  lemma DoOne<S>(f: Ftdi<S>, c: Command)
    requires WellFormed(c)
    ensures DoAll(f, [c]) == Do(f, c)
  {
    assert [c][1..] == [];
  }

  lemma DoTwo<S>(f: Ftdi<S>, c: Command, d: Command)
    requires WellFormed(c) && WellFormed(d)
    ensures DoAll(f, [c, d]) == Do(Do(f, c), d)
  {
    assert [c, d] == [c] + [d];
    DoAllAppend(f, [c], [d]);
    DoOne(f, c);
    DoOne(Do(f, c), d);
  }

  lemma PrologRuns<S>(f: Ftdi<S>, p: bits)
    requires |p| <= 14
    ensures DoAll(f, PrologCommands(p)) == Clocked(f, TmsClocks(p), false)
  {
    if |p| == 0 {
      assert TmsClocks(p) == [];
    } else if |p| < 8 {
      var b := p + Zeros(8 - |p|);
      DoOne(f, Tms(|p|, b, false));
      assert TmsCommand(b, |p|) == TmsClocks(p);
    } else {
      var b, c := p[..7] + [false], p[7..] + Zeros(15 - |p|);
      DoTwo(f, Tms(7, b, false), Tms(|p| - 7, (c), false));
      assert TmsCommand(b, 7) + TmsCommand(c, |p| - 7) == TmsClocks(p);
      ClockedAppend(f, TmsCommand(b, 7), TmsCommand(c, |p| - 7), false);
    }
  }

  lemma ByteRuns<S>(f: Ftdi<S>, b: octet, read: bool)
    ensures var g, cs := Returned(Clocked(f, TdiCommand(f.tms, b), read), read), TdiCommand(f.tms, b);
            && g.port == RunClocks(f.port, cs) && g.tms == f.tms
            && g.reply == f.reply + (if read then [Tdos(f.port, cs)] else [])
  {
    var t := Tdos(f.port, TdiCommand(f.tms, b));
    assert (f.received + t)[8..] == t;
  }

  lemma SplitClocks(tms: bool, a: bits, b: bits)
    ensures TdiCommand(tms, a + b) == TdiCommand(tms, a) + TdiCommand(tms, b)
  {
  }

  lemma PackAppend(a: bits, b: bits)
    requires |a| == 8 && |b| % 8 == 0
    ensures Pack(a + b) == [a] + Pack(b)
  {
    assert (a + b)[..8] == a && (a + b)[8..] == b;
  }

  /** Whole bytes clock their bits in order and return the TDO bits in the same packing. */
  lemma {:induction false} WholeRuns<S>(f: Ftdi<S>, d: bits, read: bool)
    requires |d| % 8 == 0
    ensures var g, cs := ByteRun(f, Pack(d), read), TdiCommand(f.tms, d);
            && g.port == RunClocks(f.port, cs) && g.tms == f.tms
            && g.reply == f.reply + (if read then Pack(Tdos(f.port, cs)) else [])
    decreases |d|
  {
    if d == [] {
      assert TdiCommand(f.tms, d) == [];
      assert f.reply + [] == f.reply;
    } else {
      var b, rest := d[..8], d[8..];
      assert b + rest == d;
      ByteRuns(f, b, read);
      SplitClocks(f.tms, b, rest);
      RunAppend(f.port, TdiCommand(f.tms, b), TdiCommand(f.tms, rest));
      var g := Returned(Clocked(f, TdiCommand(f.tms, b), read), read);
      WholeRuns(g, rest, read);
      var t, u := Tdos(f.port, TdiCommand(f.tms, b)), Tdos(g.port, TdiCommand(f.tms, rest));
      PackAppend(t, u);
      assert f.reply + [t] + Pack(u) == f.reply + ([t] + Pack(u));
    }
  }

  /** A partial byte returns its TDO bits at the top, above stale ones. */
  lemma TailRuns<S>(f: Ftdi<S>, b: octet, k: nat, read: bool)
    requires 0 < k < 8
    ensures var g, cs := Do(f, Data(k, b, read)), TdiCommand(f.tms, b[..k]);
            && g.port == RunClocks(f.port, cs) && g.tms == f.tms
            && (!read ==> g.reply == f.reply)
            && (read ==> g.reply == f.reply + [g.received] && g.received[8 - k..] == Tdos(f.port, cs))
  {
    var t := Tdos(f.port, TdiCommand(f.tms, b[..k]));
    assert (f.received + t)[k..][8 - k..] == t;
  }

  /** The bits an n-bit scan returns sit in these places of the reply. */
  ghost predicate Holds(r: bits, t: bits, whole: nat, tail: nat)
    requires |t| == 8 * whole + tail && tail < 8
  {
    var size := whole + (if tail > 0 then 1 else 0);
    |r| == 8 * size && r[..8 * whole] == t[..8 * whole] && r[|r| - tail..] == t[8 * whole..]
  }

  lemma WholeStage<S>(f: Ftdi<S>, w: bits, whole: nat, read: bool)
    requires |w| == 64 && whole < 8
    ensures var g, cs := DoAll(f, WholeCommands(w, whole, read)), TdiCommand(f.tms, w[..8 * whole]);
            && g.port == RunClocks(f.port, cs) && g.tms == f.tms
            && g.reply == f.reply + (if read then Pack(Tdos(f.port, cs)) else [])
  {
    WholeRuns(f, w[..8 * whole], read);
    if whole > 0 {
      DoOne(f, Whole(Pack(w[..8 * whole]), read));
    }
  }

  lemma TailStage<S>(f: Ftdi<S>, w: bits, whole: nat, tail: nat, read: bool)
    requires |w| == 64 && whole < 8 && tail < 8
    ensures var g, cs := DoAll(f, TailCommands(w, whole, tail, read)), TdiCommand(f.tms, w[8 * whole..8 * whole + tail]);
            && g.port == RunClocks(f.port, cs) && g.tms == f.tms
            && (!read || tail == 0 ==> g.reply == f.reply)
            && (read && tail > 0 ==> g.reply == f.reply + [g.received] && g.received[8 - tail..] == Tdos(f.port, cs))
  {
    if tail > 0 {
      var b: octet := w[8 * whole..8 * whole + 8];
      DoOne(f, Data(tail, b, read));
      TailRuns(f, b, tail, read);
      assert b[..tail] == w[8 * whole..8 * whole + tail];
    } else {
      assert TdiCommand(f.tms, w[8 * whole..8 * whole]) == [];
    }
  }

  lemma HoldsWhole(t: bits)
    requires |t| % 8 == 0
    ensures Holds(Unpack(Pack(t)), t, |t| / 8, 0)
  {
    UnpackPacked(t);
  }

  lemma TailOfAppend(t: bits, v: bits, k: nat)
    requires k <= |v|
    ensures (t + v)[..|t|] == t && (t + v)[|t + v| - k..] == v[|v| - k..]
  {
  }

  lemma Eights(k: nat)
    ensures 8 * k % 8 == 0 && 8 * k / 8 == k
  {
  }

  lemma HoldsAppend(t: bits, received: octet, u: bits)
    requires |t| % 8 == 0 && 0 < |u| < 8 && received[8 - |u|..] == u
    ensures Holds(t + received, t + u, |t| / 8, |u|)
  {
    TailOfAppend(t, received, |u|);
    assert (t + u)[..|t|] == t && (t + u)[|t|..] == u;
  }

  lemma HoldsTail(t: bits, u: bits, received: octet)
    requires |t| % 8 == 0 && 0 < |u| < 8 && received[8 - |u|..] == u
    ensures Holds(Unpack(Pack(t) + [received]), t + u, |t| / 8, |u|)
  {
    var r := Unpack(Pack(t) + [received]);
    assert r == t + received by {
      UnpackPacked(t);
      UnpackOne(received);
      UnpackAppend(Pack(t), [received]);
    }
    HoldsAppend(t, received, u);
  }

  lemma DataReply<S>(f: Ftdi<S>, g: Ftdi<S>, h: Ftdi<S>, t: bits, u: bits, read: bool) returns (r: seq<octet>)
    requires |t| % 8 == 0 && |u| < 8
    requires g.reply == f.reply + (if read then Pack(t) else [])
    requires !read || |u| == 0 ==> h.reply == g.reply
    requires read && |u| > 0 ==> h.reply == g.reply + [h.received] && h.received[8 - |u|..] == u
    ensures h.reply == f.reply + r
    ensures if read then Holds(Unpack(r), t + u, |t| / 8, |u|) else r == []
  {
    if !read {
      r := [];
    } else if |u| == 0 {
      r := Pack(t);
      HoldsWhole(t);
      assert t + u == t;
    } else {
      r := Pack(t) + [h.received];
      HoldsTail(t, u, h.received);
    }
  }

  lemma WholeAndTail<S>(f: Ftdi<S>, w: bits, whole: nat, tail: nat, read: bool) returns (r: seq<octet>)
    requires |w| == 64 && whole < 8 && tail < 8 && !f.tms
    ensures var g := DoAll(f, WholeCommands(w, whole, read) + TailCommands(w, whole, tail, read));
            var cs := TdiCommand(false, w[..8 * whole + tail]);
            && g.port == RunClocks(f.port, cs) && !g.tms && g.reply == f.reply + r
            && (if read then Holds(Unpack(r), Tdos(f.port, cs), whole, tail) else r == [])
  {
    var d, b := w[..8 * whole], w[8 * whole..8 * whole + tail];
    assert w[..8 * whole + tail] == d + b;
    Eights(whole);
    SplitClocks(false, d, b);
    RunAppend(f.port, TdiCommand(false, d), TdiCommand(false, b));
    DoAllAppend(f, WholeCommands(w, whole, read), TailCommands(w, whole, tail, read));
    WholeStage(f, w, whole, read);
    var g := DoAll(f, WholeCommands(w, whole, read));
    TailStage(g, w, whole, tail, read);
    r := DataReply(f, g, DoAll(g, TailCommands(w, whole, tail, read)), Tdos(f.port, TdiCommand(false, d)),
                   Tdos(g.port, TdiCommand(false, b)), read);
  }

  /** The data commands clock the first n bits; a read returns them all. */
  lemma DataRuns<S>(f: Ftdi<S>, w: bits, n: nat, read: bool) returns (r: seq<octet>)
    requires |w| == 64 && n < 64 && !f.tms
    ensures var g, cs := DoAll(f, DataCommands(w, n, read)), TdiCommand(false, w[..n]);
            && g.port == RunClocks(f.port, cs) && !g.tms && g.reply == f.reply + r
            && (if read then Holds(Unpack(r), Tdos(f.port, cs), n / 8, n % 8) else r == [])
  {
    r := WholeAndTail(f, w, n / 8, n % 8, read);
  }

  lemma EpilogRuns<S>(f: Ftdi<S>, last: bool, read: bool)
    ensures var g, cs := Do(f, EpilogCommand(last, read)), [Clk(true, last), Clk(true, last)];
            && g.port == RunClocks(f.port, cs) && g.tms
            && (!read ==> g.reply == f.reply)
            && (read ==> g.reply == f.reply + [g.received] && g.received[6] == Tdos(f.port, cs)[0])
  {
    var b: octet := [true, true, false, false, false, false, false, last];
    assert TmsCommand(b, 2) == [Clk(true, last), Clk(true, last)];
    var t := Tdos(f.port, [Clk(true, last), Clk(true, last)]);
    assert (f.received + t)[2..][6] == t[0];
  }

  // --------------------------------------------------------------- Whole packets

  /** The clocks of a packet, with TDI held at the last data bit while the scan is left. */
  function PacketClocks(p: bits, data: bits): seq<Clk> {
    if data == [] then TmsClocks(p)
    else
      var last := Clk(true, data[|data| - 1]);
      TmsClocks(p + STANDARD_PROLOG) + (TdiCommand(false, data[..|data| - 1]) + [last, last])
  }

  /** Number of bytes the engine returns for an n-bit read. */
  function ReplyLength(n: nat): nat
    requires n > 0
  {
    (n - 1) / 8 + (if (n - 1) % 8 > 0 then 1 else 0) + 1
  }

  /** Where a reply of r bits keeps the bits t that were read. */
  ghost predicate Returns(r: bits, t: bits)
    requires t != []
  {
    var n := |t|;
    |r| == 8 * ReplyLength(n)
    && Holds(r[..|r| - 8], t[..n - 1], (n - 1) / 8, (n - 1) % 8)
    && r[|r| - 2] == t[n - 1]
  }

  lemma PrologOnly<S>(f: Ftdi<S>, p: bits, w: bits, read: bool)
    requires |w| == 64 && |p| <= 14
    ensures DoAll(f, Packet(p, w, 0, read)) == Clocked(f, PacketClocks(p, w[..0]), false)
  {
    PrologRuns(f, p);
  }

  lemma LastBits(a: bits, b: octet)
    ensures (a + b)[..|a + b| - 8] == a && (a + b)[|a + b| - 2] == b[6]
  {
  }

  lemma LastByte(r: seq<octet>, received: octet, t: bits, last: bool)
    requires |t| < 64 && Holds(Unpack(r), t, |t| / 8, |t| % 8) && received[6] == last
    ensures Returns(Unpack(r + [received]), t + [last])
  {
    UnpackAppend(r, [received]);
    UnpackOne(received);
    LastBits(Unpack(r), received);
    var v := t + [last];
    assert v[..|v| - 1] == t && v[|v| - 1] == last;
  }

  lemma PrologLeavesTmsLow<S>(f: Ftdi<S>, p: bits)
    requires |p| <= 11
    ensures var g := DoAll(f, PrologCommands(p + STANDARD_PROLOG));
            g.port == RunClocks(f.port, TmsClocks(p + STANDARD_PROLOG)) && !g.tms && g.reply == f.reply
  {
    PrologRuns(f, p + STANDARD_PROLOG);
  }

  /** The reply of data and epilog commands together. */
  lemma ScanReply<S>(f: Ftdi<S>, h: Ftdi<S>, k: Ftdi<S>, r: seq<octet>, t: bits, last: bool)
    requires |t| < 64 && Holds(Unpack(r), t, |t| / 8, |t| % 8)
    requires h.reply == f.reply + r && k.reply == h.reply + [k.received] && k.received[6] == last
    ensures k.reply == f.reply + (r + [k.received])
    ensures Returns(Unpack(r + [k.received]), t + [last])
  {
    LastByte(r, k.received, t, last);
    AppendThree(f.reply, r, [k.received]);
  }

  function EntryClocks(p: bits): (cs: seq<Clk>)
    ensures |cs| == |p| + 3
  {
    TmsClocks(p + STANDARD_PROLOG)
  }

  function DataClocks(w: bits, n: nat): seq<Clk>
    requires 0 < n <= |w|
  {
    TdiCommand(false, w[..n - 1]) + [Clk(true, w[n - 1]), Clk(true, w[n - 1])]
  }

  lemma ClocksOfPacket(p: bits, w: bits, n: nat)
    requires 0 < n <= |w|
    ensures PacketClocks(p, w[..n]) == EntryClocks(p) + DataClocks(w, n)
  {
    assert w[..n][..n - 1] == w[..n - 1];
  }

  lemma PacketReads<S>(d: Device<S>, p: bits, w: bits, n: nat)
    requires 0 < n <= |w|
    ensures var cs, e := PacketClocks(p, w[..n]), RunClocks(d, EntryClocks(p));
            && RunClocks(d, cs) == RunClocks(e, DataClocks(w, n))
            && |cs| >= |p| + 3 + n
            && Tdos(d, cs)[|p| + 3..|p| + 3 + n] == Tdos(e, DataClocks(w, n))[..n]
  {
    ClocksOfPacket(p, w, n);
    RunAppend(d, EntryClocks(p), DataClocks(w, n));
    ReadsAfter(d, EntryClocks(p), DataClocks(w, n), n);
  }

  /** Data and epilog, from a point where TMS is low. */
  lemma DataAndEpilog<S>(f: Ftdi<S>, w: bits, n: nat, read: bool) returns (r: seq<octet>, t: bits)
    requires |w| == 64 && 0 < n <= 64 && !f.tms
    ensures var g := DoAll(f, DataCommands(w, n - 1, read) + [EpilogCommand(w[n - 1], read)]);
            && g.port == RunClocks(f.port, DataClocks(w, n)) && g.reply == f.reply + r
            && t == Tdos(f.port, DataClocks(w, n))[..n]
    ensures if read then Returns(Unpack(r), t) else r == []
  {
    var last := w[n - 1];
    var dc, e := DataCommands(w, n - 1, read), EpilogCommand(last, read);
    var c2, c3 := TdiCommand(false, w[..n - 1]), [Clk(true, last), Clk(true, last)];
    DoAllAppend(f, dc, [e]);
    r := DataRuns(f, w, n - 1, read);
    var h := DoAll(f, dc);
    DoOne(h, e);
    EpilogRuns(h, last, read);
    RunAppend(f.port, c2, c3);
    ReadsBefore(f.port, c2, c3);
    t := Tdos(f.port, c2) + [Tdos(h.port, c3)[0]];
    if read {
      ScanReply(f, h, Do(h, e), r, Tdos(f.port, c2), Tdos(h.port, c3)[0]);
      r := r + [Do(h, e).received];
    }
  }

  /**
   The engine turns the bytes of a packet into exactly its clocks, and the bytes r it
   returns hold the bits t read on the data clocks.
   */
  lemma PacketRuns<S>(f: Ftdi<S>, p: bits, w: bits, n: nat, read: bool) returns (r: seq<octet>, t: bits)
    requires |w| == 64 && 0 < n <= 64 && |p| <= 11
    ensures var g, cs := DoAll(f, Packet(p, w, n, read)), PacketClocks(p, w[..n]);
            && g.port == RunClocks(f.port, cs) && g.reply == f.reply + r
            && |cs| >= |p| + 3 + n && t == Tdos(f.port, cs)[|p| + 3..|p| + 3 + n]
    ensures |t| == n && if read then Returns(Unpack(r), t) else r == []
  {
    var pc, dc := PrologCommands(p + STANDARD_PROLOG), DataCommands(w, n - 1, read);
    var ec := [EpilogCommand(w[n - 1], read)];
    AppendThree(pc, dc, ec);
    DoAllAppend(f, pc, dc + ec);
    PrologLeavesTmsLow(f, p);
    var g := DoAll(f, pc);
    r, t := DataAndEpilog(g, w, n, read);
    PacketReads(f.port, p, w, n);
  }
}
