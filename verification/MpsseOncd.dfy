/**
 OnCD register and memory access through the FT2232 adapter
 (adapter-mpsse.c:350-360, 421-498).
 */
module MpsseOncd {
  import opened Words
  import opened Bits
  import opened Serial
  import opened Jtag
  import opened Ftdi
  import opened Scan
  import opened Decode
  import opened Mpsse
  import opened OncdPort
  import opened Chip

  type Adapter = Mpsse<Port<Oncd>>

  /** Once everything queued is delivered the engine drives p, a target listening to OnCD commands. */
  ghost predicate Attached(a: Adapter, p: Port<Oncd>)
    reads a, a.output, a.input
  {
    a.Valid() && a.ahead.port == TapDevice(p) && Listening(p)
  }

  /** What the engine does with one data packet: the port sees one data scan. */
  lemma DataPacketRuns<C>(f: Ftdi<Port<C>>, p: Port<C>, w: word64, n: nat, read: bool) returns (r: seq<octet>, t: bits)
    requires f.port == TapDevice(p) && Parked(p.tap) && 0 < n <= 64
    ensures var g := DoAll(f, Packet([], w, n, read));
            g.port == TapDevice(DrScan(p, w[..n])) && g.reply == f.reply + r
    ensures t == ScanOut(p, false, w[..n])
    ensures if read then Returns(Unpack(r), t) else r == []
  {
    r, t := PacketRuns(f, [], w, n, read);
    DataPacket(p, w[..n]);
  }

  /** What the engine does with one transaction: the target sees one OnCD write. */
  lemma TransactionRuns(f: Ftdi<Port<Oncd>>, p: Port<Oncd>, cmd: word, v: word, len: nat, read: bool)
    returns (r: seq<octet>, t: bits)
    requires f.port == TapDevice(p) && Listening(p)
    requires cmd < 0x200 && len <= 32 && v < Pow2(len)
    ensures var g, q := DoAll(f, Packet([], Transaction(cmd, v, len), 9 + len, read)), DrScan(p, CommandBits(cmd, v, len));
            g.port == TapDevice(q) && Listening(q) && q.chip == Write(p.chip, v, cmd) && g.reply == f.reply + r
    ensures t == ScanOut(p, false, CommandBits(cmd, v, len))
    ensures if read then Returns(Unpack(r), t) else r == []
  {
    TransactionBits(cmd, v, len);
    r, t := DataPacketRuns(f, p, Transaction(cmd, v, len), 9 + len, read);
    CommandWrites(p, cmd, v, len);
  }

  lemma WholeBytesKeepMasks(m: Masks, bytesPerWord: int)
    ensures MasksAfter(m, bytesPerWord, 9, false) == MasksAfter(m, bytesPerWord, 41, false) == m
  {
  }

  lemma WriteRuns(f: Ftdi<Port<Oncd>>, p: Port<Oncd>, cmd: word, v: word, len: nat) returns (q: Port<Oncd>)
    requires f.port == TapDevice(p) && Listening(p) && cmd < 0x200 && len <= 32 && v < Pow2(len)
    ensures var g := DoAll(f, Packet([], Transaction(cmd, v, len), 9 + len, false));
            g.port == TapDevice(q) && Listening(q) && q.chip == Write(p.chip, v, cmd) && g.reply == f.reply
  {
    var r, t := TransactionRuns(f, p, cmd, v, len, false);
    q := DrScan(p, CommandBits(cmd, v, len));
    assert f.reply + [] == f.reply;
  }

  /** r is what the engine returns for a read of len bits of a register that holds v. */
  ghost predicate Answers(r: seq<octet>, v: word, len: nat) {
    |r| == ReplyLength(9 + len)
    && exists t: bits :: |t| == 9 + len && Returns(Unpack(r), t) && t[9..] == ToBits(v, len)
  }

  lemma ReadRuns(f: Ftdi<Port<Oncd>>, p: Port<Oncd>, cmd: word, len: nat) returns (q: Port<Oncd>, r: seq<octet>)
    requires f.port == TapDevice(p) && Listening(p) && cmd < 0x200 && len <= 32
    ensures var g := DoAll(f, Packet([], Transaction(cmd, 0, len), 9 + len, true));
            g.port == TapDevice(q) && Listening(q) && q.chip == Write(p.chip, 0, cmd) && g.reply == f.reply + r
    ensures Answers(r, Read(p.chip, cmd), len)
  {
    var t;
    r, t := TransactionRuns(f, p, cmd, 0, len, true);
    CommandReads(p, cmd, len);
    q := DrScan(p, CommandBits(cmd, 0, len));
    assert |t| == 9 + len;
  }

  // ------------------------------------------------------- Identification and selection

  /** Reading the identification code, from whatever state the port is in. */
  method GetIdcode(a: Adapter, ghost p: Port<Oncd>) returns (idcode: word, ghost q: Port<Oncd>)
    requires a.Valid() && a.bytesToRead == 0 && a.ahead.port == TapDevice(p)
    modifies a, a.output, a.input
    ensures a.Valid() && a.bytesToRead == 0 && a.ahead.port == TapDevice(q)
    ensures idcode == Low(p.idcode, 32) && Parked(q.tap)
  {
    hide RunClocks, Tdos, PacketClocks, TapRun, ScanOut, DoAll, SerializeAll, TapDevice, ToBits, Value, Low;
    ghost var data := ToBits(0, 64)[..32];
    IdcodePacket(p, data);
    var w;
    ghost var t;
    w, t := a.Exchange(RESET_PROLOG, 32, ToBits(0, 64));
    ghost var port := TapRun(p, TmsClocks(RESET_PROLOG));
    q := DrScan(port, data);
    IdcodeReads(port, data);
    ValueOf(t, p.idcode, 32);
    idcode := Value(w);
  }

  /** Selects the OnCD unit and tells whether the processor is stopped (status bit 2). */
  method CpuStopped(a: Adapter, ghost p: Port<Oncd>) returns (stopped: bool, ghost q: Port<Oncd>)
    requires a.Valid() && a.bytesToRead == 0 && a.ahead.port == TapDevice(p) && Parked(p.tap)
    modifies a, a.output, a.input
    ensures a.Valid() && a.bytesToRead == 0 && a.ahead.port == TapDevice(q)
    ensures stopped == Has(Low(p.status, 4), 4)
    ensures q.ir == TAP_DEBUG_ENABLE && Parked(q.tap) && q.chip == p.chip && q.unit == p.unit
  {
    hide RunClocks, Tdos, PacketClocks, TapRun, ScanOut, DoAll, SerializeAll, TapDevice, Value, Low, Has;
    ghost var data := ToBits(TAP_DEBUG_ENABLE, 64)[..4];
    InstructionPacket(p, data);
    var w;
    ghost var t;
    w, t := a.Exchange([true], 4, ToBits(TAP_DEBUG_ENABLE, 64));
    q := IrScan(p, data);
    SelectsDebug();
    StatusReads(p, data);
    ValueOf(t, p.status, 4);
    stopped := Has(Value(w), 4);
  }

  // ---------------------------------------------------------- Register access

  /** Writing an OnCD register; reglen 0 for commands without data. */
  method OncdWrite(a: Adapter, ghost p: Port<Oncd>, value: word, reg: word, reglen: nat) returns (ghost q: Port<Oncd>)
    requires Attached(a, p) && reg < 0x200 && reglen <= 32 && value < Pow2(reglen)
    modifies a, a.output, a.input
    ensures Attached(a, q) && q.chip == Write(p.chip, value, reg) && a.oscr == old(a.oscr)
    ensures a.ahead.reply == if old(a.Full()) then [] else old(a.ahead).reply
    ensures a.bytesToWrite <= (if old(a.Full()) then 0 else old(a.bytesToWrite)) + PACKET_SIZE
    ensures a.bytesToRead == if old(a.Full()) then 0 else old(a.bytesToRead)
    ensures reglen == 0 || reglen == 32 ==> a.masks == old(a.masks) && a.bytesPerWord == old(a.bytesPerWord)
  {
    hide DoAll, Packet, MasksAfter, SerializeAll, Transaction, Listening, TapDevice, Write;
    q := WriteRuns(if a.Full() then a.ahead.(reply := []) else a.ahead, p, reg, value, reglen);
    WholeBytesKeepMasks(a.masks, a.bytesPerWord);
    a.Send([], 9 + reglen, Transaction(reg, value, reglen), false);
  }

  /** A read of the low reglen bits of a register, queued behind whatever is queued already. */
  method QueueRead(a: Adapter, ghost p: Port<Oncd>, reg: word, reglen: nat) returns (ghost q: Port<Oncd>, ghost r: seq<octet>)
    requires Attached(a, p) && reg + READ < 0x100 && reglen <= 32
    requires a.bytesToRead + ReplyLength(9 + reglen) <= INPUT_SIZE - 2
    modifies a, a.output, a.input
    ensures Attached(a, q) && q.chip == Write(p.chip, 0, reg + READ) && a.oscr == old(a.oscr)
    ensures a.ahead.reply == (if old(a.Full()) then [] else old(a.ahead).reply) + r
    ensures Answers(r, Read(p.chip, reg + READ), reglen)
    ensures a.bytesToWrite <= (if old(a.Full()) then 0 else old(a.bytesToWrite)) + PACKET_SIZE
    ensures a.bytesToRead == (if old(a.Full()) then 0 else old(a.bytesToRead)) + ReplyLength(9 + reglen)
    ensures a.masks == MasksOf(9 + reglen) && a.bytesPerWord == ReplyLength(9 + reglen)
  {
    hide DoAll, Packet, MasksOf, SerializeAll, Transaction, Listening, TapDevice, Write, ReplyLength, Answers;
    q, r := ReadRuns(if a.Full() then a.ahead.(reply := []) else a.ahead, p, reg + READ, reglen);
    a.Send([], 9 + reglen, Transaction(reg + READ, 0, reglen), true);
  }

  /** mpsse_fix_data on the eight bytes that start at `at`, then >> 9. */
  function Fixed(m: Masks, input: seq<octet>, at: nat): word
    requires at + 8 <= |input|
  {
    Powers();
    Num(FixData(m, Unpack(input[at..at + 8]))[9..41])
  }

  /** Whatever follows an answer in the buffer, decoding yields the register. */
  lemma AnswerDecodes(input: seq<octet>, at: nat, r: seq<octet>, v: word, len: nat)
    requires len <= 32 && at + 8 <= |input| && |r| <= 8 && input[at..at + |r|] == r && Answers(r, v, len)
    ensures Fixed(MasksOf(9 + len), input, at) == Low(v, len)
  {
    hide Unpack, FixData, MasksOf, Returns, Num, ToBits, Pow2, TailMask;
    var rest := input[at + |r|..at + 8];
    var t: bits :| |t| == 9 + len && Returns(Unpack(r), t) && t[9..] == ToBits(v, len);
    assert input[at..at + 8] == r + rest;
    UnpackAppend(r, rest);
    FixInverts(9 + len, Unpack(r), t, Unpack(input[at..at + 8]));
    assert (t + Zeros(55 - len))[9..41] == t[9..] + Zeros(32 - len);
    NumTruncates(v, len, 32);
  }

  /** Delivers what is queued; the answers are then in the input buffer. */
  method Deliver(a: Adapter, ghost p: Port<Oncd>)
    requires Attached(a, p)
    modifies a, a.input
    ensures Attached(a, p) && a.bytesToWrite == 0 && a.bytesToRead == 0
    ensures a.oscr == old(a.oscr) && a.masks == old(a.masks) && a.bytesPerWord == old(a.bytesPerWord)
    ensures old(a.bytesToRead) <= INPUT_SIZE - 2 && a.input[..old(a.bytesToRead)] == old(a.ahead.reply)
    ensures a.input.Length == INPUT_SIZE
  {
    hide DoAll, SerializeAll, Listening, TapDevice;
    a.Flush();
  }

  /** Flush, then decode the one answer awaited. */
  method Recv(a: Adapter, ghost p: Port<Oncd>, ghost r: seq<octet>, ghost v: word, ghost len: nat) returns (value: word)
    requires Attached(a, p) && len <= 32 && a.masks == MasksOf(9 + len) && Answers(r, v, len)
    requires a.ahead.reply == r && |r| == a.bytesToRead <= 8
    modifies a, a.input
    ensures Attached(a, p) && a.bytesToWrite == 0 && a.bytesToRead == 0 && a.oscr == old(a.oscr)
    ensures value == Low(v, len)
  {
    hide Attached, Low, Answers, MasksOf, Fixed;
    Deliver(a, p);
    ghost var input := a.input[..];
    assert input[0..0 + |r|] == r;
    AnswerDecodes(input, 0, r, v, len);
    value := Fixed(a.masks, a.input[..], 0);
  }

  /** Reading the low reglen bits of an OnCD register. */
  method OncdRead(a: Adapter, ghost p: Port<Oncd>, reg: word, reglen: nat) returns (value: word, ghost q: Port<Oncd>)
    requires Attached(a, p) && a.bytesToRead == 0 && reg + READ < 0x100 && reglen <= 32
    modifies a, a.output, a.input
    ensures Attached(a, q) && q.chip == Write(p.chip, 0, reg + READ) && a.oscr == old(a.oscr)
    ensures value == Low(Read(p.chip, reg + READ), reglen)
    ensures a.bytesToRead == 0 && a.bytesToWrite == 0
  {
    ghost var r;
    SmallReply(reglen);
    hide DoAll, Packet, MasksOf, SerializeAll, Listening, TapDevice, Write, Read, Fixed, Pow2, ReplyLength, Answers, Low;
    q, r := QueueRead(a, p, reg, reglen);
    value := Recv(a, q, r, Read(p.chip, reg + READ), reglen);
  }

  lemma SmallReply(reglen: nat)
    requires reglen <= 32
    ensures ReplyLength(9 + reglen) <= 6 && ReplyLength(41) == 6
  {
  }
}
