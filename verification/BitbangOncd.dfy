/** OnCD register access through the bit-bang adapter (adapter-bitbang.c:311-416). */
module BitbangOncd {
  import opened Words
  import opened Bits
  import opened Serial
  import opened Jtag
  import opened Scan
  import opened Chip
  import opened OncdPort
  import opened Bitbang

  type Adapter = Bitbang<Oncd>

  /** Nothing is queued and the target listens to OnCD commands. */
  ghost predicate Attached(a: Adapter)
    reads a
  {
    a.Valid() && a.outputLen == 0 && Listening(a.pins.port)
  }

  lemma NothingQueued(a: Adapter)
    requires a.Valid() && a.outputLen == 0
    ensures a.Contents() == Samples([]) && TapRun(a.pins.port, []) == a.pins.port
  {
  }

  lemma CommandSent(cmd: word, v: word, len: nat)
    requires cmd < 0x200 && len <= 32
    ensures Sent(Pack(Transaction(cmd, v, len)), 9 + len) == CommandBits(cmd, v, len)
  {
    UnpackPacked(Transaction(cmd, v, len));
    TransactionBits(cmd, v, len);
  }

  /** Samples of a data scan of n bits: three clocks before, one behind, and one sample with TCK low. */
  function ScanSize(n: nat): nat { 2 * n + 9 }

  /** Writing an OnCD register; reglen 0 for commands without data. */
  method OncdWrite(a: Adapter, value: word, reg: word, reglen: nat) returns (ok: bool)
    requires Attached(a) && reg < 0x200 && reglen <= 32 && value < Pow2(reglen)
    modifies a, a.output
    ensures ok <==> Whole(old(a.arrivals), ScanSize(9 + reglen))
    ensures ok ==> Attached(a) && a.arrivals == Behind(old(a.arrivals), ScanSize(9 + reglen))
    ensures ok ==> a.pins.port.chip == Write(old(a.pins.port.chip), value, reg)
  {
    hide Whole, Behind, Samples, Pow2, Sent, Transaction, Pack, CommandBits, Write, Listening, TapRun;
    ghost var p := a.pins.port;
    NothingQueued(a);
    CommandSent(reg, value, reglen);
    CommandWrites(p, reg, value, reglen);
    ListeningIsParked(p);
    ok := a.TapData([], 9 + reglen, Pack(Transaction(reg, value, reglen)), null);
  }

  lemma ListeningIsParked(p: Port<Oncd>)
    requires Listening(p)
    ensures Parked(p.tap)
  {
  }

  /** A read command with no data is the same bits as one with zero data. */
  lemma ReadSent(cmd: word, len: nat)
    requires cmd < 0x200 && len <= 32
    ensures var data := Pack(ToBits(cmd, 64));
            && Sent(data, 9 + len) == CommandBits(cmd, 0, len)
            && Unpack(data)[9 + len..] == Zeros(55 - len)
  {
    var w := ToBits(cmd, 64);
    UnpackPacked(w);
    Powers();
    PrefixOfBits(cmd, 64, 9);
    HighBitsClear(cmd, 64, 9);
    ZeroBits(len);
    var c := CommandBits(cmd, 0, len);
    forall i | 0 <= i < 9 + len
      ensures w[i] == c[i]
    {
      if i < 9 {
        assert w[..9][i] == w[i];
      }
    }
    assert w[..9 + len] == c;
    assert w[9 + len..] == Zeros(55 - len);
  }

  /** data >> 9, as an unsigned */
  function Shifted(data: seq<octet>): word
    requires |data| == 8
  {
    Powers();
    Num(Unpack(data)[9..41])
  }

  lemma ShiftedReads(data: seq<octet>, t: bits, v: word, len: nat)
    requires |data| == 8 && len <= 32 && |t| == 9 + len
    requires Unpack(data) == t + Zeros(55 - len) && t[9..] == ToBits(v, len)
    ensures Shifted(data) == Low(v, len)
  {
    assert (t + Zeros(55 - len))[9..41] == t[9..] + Zeros(32 - len);
    NumTruncates(v, len, 32);
  }

  /** Reading the low reglen bits of an OnCD register: the command is overwritten by what is read. */
  method OncdRead(a: Adapter, reg: word, reglen: nat) returns (ok: bool, value: word)
    requires Attached(a) && reg + READ < 0x100 && reglen <= 32
    modifies a, a.output
    ensures ok <==> Whole(old(a.arrivals), ScanSize(9 + reglen))
    ensures ok ==> Attached(a) && a.arrivals == Behind(old(a.arrivals), ScanSize(9 + reglen))
    ensures ok ==> a.pins.port.chip == Write(old(a.pins.port.chip), 0, reg + READ)
    ensures ok ==> value == Low(Read(old(a.pins.port.chip), reg + READ), reglen)
  {
    hide Whole, Behind, Samples, Sent, ToBits, Pack, Unpack, CommandBits, Write, Listening, TapRun, ScanOut, Shifted, Low, Read, Pow2;
    ghost var p, cmd := a.pins.port, reg + READ;
    NothingQueued(a);
    ReadSent(cmd, reglen);
    CommandWrites(p, cmd, 0, reglen);
    CommandReads(p, cmd, reglen);
    ListeningIsParked(p);
    var packed := Pack(ToBits(reg + READ, 64));
    var data := new octet[8](i requires 0 <= i < 8 => packed[i]);
    assert data[..] == packed;
    ok := a.TapData([], 9 + reglen, packed, data);
    if ok {
      ShiftedReads(data[..], ScanOut(p, false, CommandBits(cmd, 0, reglen)), Read(p.chip, cmd), reglen);
    }
    value := Shifted(data[..]);
  }

  // ------------------------------------------------------- Identification and selection

  /** Reading the identification code, from whatever state the port is in. */
  method GetIdcode(a: Adapter) returns (ok: bool, idcode: word)
    requires a.Valid() && a.outputLen == 0
    modifies a, a.output
    ensures ok <==> Whole(old(a.arrivals), 31) && Whole(Behind(old(a.arrivals), 31), ScanSize(32))
    ensures ok ==> a.Valid() && a.outputLen == 0 && Parked(a.pins.port.tap)
    ensures ok ==> idcode == Low(old(a.pins.port.idcode), 32)
  {
    hide Whole, Behind, Samples, Sent, ToBits, Unpack, TapRun, ScanOut, Low, Num, Pow2;
    ghost var p := a.pins.port;
    ghost var cs: seq<Clk> := [];
    NothingQueued(a);
    for i := 0 to 5
      invariant a.Valid() && a.outputLen == 2 * i && a.Contents() == Samples(cs) && a.pins.port == p
      invariant TmsOf(cs) == Ones(i) && a.arrivals == old(a.arrivals)
    {
      a.Step(cs, true);
      TmsNext(cs, Clk(true, true));
      cs := cs + [Clk(true, true)];
    }
    a.Step(cs, false);
    TmsNext(cs, Clk(false, true));
    cs := cs + [Clk(false, true)];
    assert TmsOf(cs) == [true, true, true, true, true, false];
    ResetSelectsIdcode(p, cs);
    ghost var q := TapRun(p, cs);
    var status;
    ok, status := a.TapInstr(cs, 4, TAP_IDCODE);
    if !ok {
      return ok, 0;
    }
    SelectsIdcode();
    NothingQueued(a);
    var bytes := new octet[4](_ => Zeros(8));
    ghost var port := a.pins.port;
    ok := a.TapData([], 32, [], bytes);
    if ok {
      IdcodeReads(port, Sent([], 32));
      IdcodeValue(bytes[..], p.idcode);
    }
    idcode := Unsigned(bytes[..]);
  }

  function Ones(n: nat): bits { seq(n, _ => true) }

  lemma TmsNext(cs: seq<Clk>, c: Clk)
    ensures TmsOf(cs + [c]) == TmsOf(cs) + [c.tms]
  {
  }

  lemma SelectsIdcode()
    ensures Num(ToBits(TAP_IDCODE, 32)[..4]) == TAP_IDCODE
  {
    PrefixOfBits(TAP_IDCODE, 32, 4);
    NumOfBits(TAP_IDCODE, 4);
  }

  lemma IdcodeValue(s: seq<octet>, v: nat)
    requires |s| == 4 && Unpack(s) == ToBits(v, 32)
    ensures Unsigned(s) == Low(v, 32)
  {
    NumTruncates(v, 32, 32);
    assert ToBits(v, 32) + Zeros(0) == ToBits(v, 32);
    NumOfBits(Unsigned(s), 32);
  }

  /** Selects the OnCD unit and tells whether the processor is stopped (status bit 2). */
  method CpuStopped(a: Adapter) returns (ok: bool, stopped: bool)
    requires a.Valid() && a.outputLen == 0 && Parked(a.pins.port.tap)
    modifies a, a.output
    ensures ok <==> Whole(old(a.arrivals), 19)
    ensures ok ==> a.Valid() && a.outputLen == 0 && stopped == Has(Low(old(a.pins.port.status), 4), 4)
    ensures ok ==> var p, q := old(a.pins.port), a.pins.port;
                   q.ir == TAP_DEBUG_ENABLE && Parked(q.tap) && q.chip == p.chip && q.unit == p.unit
  {
    hide Whole, Behind, Samples, ToBits, TapRun, ScanOut, Low, Num, Pow2, Has;
    NothingQueued(a);
    ghost var p, data := a.pins.port, ToBits(TAP_DEBUG_ENABLE, 32)[..4];
    var ir;
    ok, ir := a.TapInstr([], 4, TAP_DEBUG_ENABLE);
    if ok {
      SelectsDebug32();
      StatusReads(p, data);
      StatusValue(ir, p.status);
    }
    stopped := Has(ir, 4);
  }

  lemma SelectsDebug32()
    ensures Num(ToBits(TAP_DEBUG_ENABLE, 32)[..4]) == TAP_DEBUG_ENABLE
  {
    PrefixOfBits(TAP_DEBUG_ENABLE, 32, 4);
    NumOfBits(TAP_DEBUG_ENABLE, 4);
  }

  lemma StatusValue(ir: word, status: nat)
    requires ToBits(ir, 32) == ToBits(status, 4) + Zeros(28)
    ensures ir == Low(status, 4)
  {
    Powers();
    NumTruncates(status, 4, 32);
    NumOfBits(ir, 32);
  }
}
