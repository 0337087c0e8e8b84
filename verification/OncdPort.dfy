/**
 OnCD transactions as JTAG scans: what the commands of target.c become on the
 wire, whichever adapter clocks them out.
 */
module OncdPort {
  import opened Words
  import opened Bits
  import opened Serial
  import opened Jtag
  import opened Ftdi
  import opened Scan
  import opened Chip
  import opened Decode

  /** The port as a device that is clocked bit by bit. */
  function TapDevice<C>(p: Port<C>): Device<Port<C>> {
    Device(p, (q: Port<C>, c: Clk) => Clock(q, c), (q: Port<C>) => Tdo(q))
  }

  lemma {:induction false} TapDeviceRuns<C>(p: Port<C>, cs: seq<Clk>)
    ensures RunClocks(TapDevice(p), cs) == TapDevice(TapRun(p, cs))
    ensures Tdos(TapDevice(p), cs) == TapReads(p, cs)
    decreases |cs|
  {
    if cs != [] {
      var d := TapDevice(p);
      assert d.(state := d.clock(d.state, cs[0])) == TapDevice(Clock(p, cs[0]));
      TapDeviceRuns(Clock(p, cs[0]), cs[1..]);
    }
  }

  /** A packet's clocks have the shape of a scan. */
  lemma PacketIsScan(prolog: bits, data: bits)
    requires data != []
    ensures PacketClocks(prolog, data)
         == ScanClocks(TmsClocks(prolog + STANDARD_PROLOG), data, Clk(true, data[|data| - 1]))
  {
    var last := Clk(true, data[|data| - 1]);
    assert ShiftClocks(data) == TdiCommand(false, data[..|data| - 1]) + [last];
  }

  /** From a parking state the standard prolog performs a data scan. */
  lemma DataPacket<C>(p: Port<C>, data: bits)
    requires Parked(p.tap) && data != []
    ensures var d, cs := TapDevice(p), PacketClocks([], data);
            && RunClocks(d, cs) == TapDevice(DrScan(p, data))
            && |cs| >= 3 + |data| && Tdos(d, cs)[3..3 + |data|] == ScanOut(p, false, data)
  {
    var entry := TmsClocks([] + STANDARD_PROLOG);
    var last := Clk(true, data[|data| - 1]);
    assert entry == [Clk(true, false), Clk(false, false), Clk(false, false)];
    PacketIsScan([], data);
    TapDeviceRuns(p, PacketClocks([], data));
    ToShiftDR(p, entry[0], entry[1], entry[2]);
    ScanRuns(p, entry, data, last, false);
    ScanReads(p, entry, data, last, false);
  }

  /** One more TMS=1 in front makes it an instruction scan. */
  lemma InstructionPacket<C>(p: Port<C>, data: bits)
    requires Parked(p.tap) && data != []
    ensures var d, cs := TapDevice(p), PacketClocks([true], data);
            && RunClocks(d, cs) == TapDevice(IrScan(p, data))
            && |cs| >= 4 + |data| && Tdos(d, cs)[4..4 + |data|] == ScanOut(p, true, data)
  {
    var entry := TmsClocks([true] + STANDARD_PROLOG);
    var last := Clk(true, data[|data| - 1]);
    assert entry == [Clk(true, false), Clk(true, false), Clk(false, false), Clk(false, false)];
    PacketIsScan([true], data);
    TapDeviceRuns(p, PacketClocks([true], data));
    ToShiftIR(p, entry[0], entry[1], entry[2], entry[3]);
    ScanRuns(p, entry, data, last, true);
    ScanReads(p, entry, data, last, true);
  }

  /** From any state, five TMS=1 clocks and TMS=0 in front make it a scan of the identification register. */
  lemma IdcodePacket<C>(p: Port<C>, data: bits)
    requires data != []
    ensures var d, cs := TapDevice(p), PacketClocks(RESET_PROLOG, data);
            var q := TapRun(p, TmsClocks(RESET_PROLOG));
            && RunClocks(d, cs) == TapDevice(DrScan(q, data)) && q.ir == TAP_IDCODE
            && |cs| >= 9 + |data| && Tdos(d, cs)[9..9 + |data|] == ScanOut(q, false, data)
            && q.idcode == p.idcode
  {
    hide TapRun, TapReads, RunClocks, Tdos, DrScan, ScanOut, ShiftClocks;
    var reset, entry := TmsClocks(RESET_PROLOG), TmsClocks(STANDARD_PROLOG);
    var last := Clk(true, data[|data| - 1]);
    assert TmsOf(reset) == [true, true, true, true, true, false];
    ResetSelectsIdcode(p, reset);
    var q := TapRun(p, reset);
    assert entry == [Clk(true, false), Clk(false, false), Clk(false, false)];
    assert TmsClocks(RESET_PROLOG + STANDARD_PROLOG) == reset + entry;
    PacketIsScan(RESET_PROLOG, data);
    ScanBehind(reset, entry, data, last);
    var cs, scan := PacketClocks(RESET_PROLOG, data), ScanClocks(entry, data, last);
    TapDeviceRuns(p, cs);
    TapRunAppend(p, reset, scan);
    ToShiftDR(q, entry[0], entry[1], entry[2]);
    ScanRuns(q, entry, data, last, false);
    ScanReads(q, entry, data, last, false);
    SliceAfter(TapReads(p, reset), TapReads(q, scan), 3, |data|);
  }

  const RESET_PROLOG: bits := [true, true, true, true, true, false]

  lemma ScanBehind(a: seq<Clk>, entry: seq<Clk>, data: bits, last: Clk)
    ensures ScanClocks(a + entry, data, last) == a + ScanClocks(entry, data, last)
  {
    AppendThree(a, entry, ShiftClocks(data) + [last]);
  }

  lemma SliceAfter<T>(a: seq<T>, b: seq<T>, i: nat, n: nat)
    requires i + n <= |b|
    ensures (a + b)[|a| + i..|a| + i + n] == b[i..i + n]
  {
  }

  /** What a 32-bit scan of the identification register reads. */
  lemma IdcodeReads<C>(q: Port<C>, data: bits)
    requires q.ir == TAP_IDCODE && |data| == 32
    ensures ScanOut(q, false, data) == ToBits(q.idcode, 32)
  {
  }

  /** What an instruction scan reads: the status bits of the core. */
  lemma StatusReads<C>(q: Port<C>, data: bits)
    requires |data| == 4
    ensures ScanOut(q, true, data) == ToBits(q.status, 4)
  {
  }

  /** The low 32 bits of a received word. */
  function Value(w: word64): word {
    Powers();
    Num(w[..32])
  }

  lemma ValueOf(t: bits, v: nat, n: nat)
    requires n <= 32 && t == ToBits(v, n)
    ensures Value(t + Zeros(64 - n)) == Low(v, n)
  {
    assert (t + Zeros(64 - n))[..32] == t + Zeros(32 - n);
    NumTruncates(v, n, 32);
  }

  lemma SelectsDebug()
    ensures Num(ToBits(TAP_DEBUG_ENABLE, 64)[..4]) == TAP_DEBUG_ENABLE
  {
    PrefixOfBits(TAP_DEBUG_ENABLE, 64, 4);
    NumOfBits(TAP_DEBUG_ENABLE, 4);
  }

  // ------------------------------------------------------------ The OnCD unit

  /** On update a nine-bit command and its data take effect. */
  function Update(d: Oncd, b: bits): Oncd {
    if |b| >= 9 then Write(d, Num(b[9..]) % WORDS, Num(b[..9]) % WORDS) else d
  }

  /** Once the command is in, the register it names is shifted out. */
  function Output(d: Oncd, got: bits): bool {
    9 <= |got| < 41 && ToBits(Read(d, Num(got[..9]) % WORDS), 32)[|got| - 9]
  }

  function OncdUnit(): Unit<Oncd> {
    Unit((d: Oncd, b: bits) => Update(d, b), (d: Oncd, got: bits) => Output(d, got))
  }

  /** A target that listens to OnCD commands. */
  ghost predicate Listening(p: Port<Oncd>) {
    Parked(p.tap) && p.ir == TAP_DEBUG_ENABLE && p.unit == OncdUnit()
  }

  /** The bits of one transaction: the command, then the low `len` bits of the data. */
  function CommandBits(cmd: word, v: word, len: nat): (b: bits)
    ensures |b| == 9 + len
  {
    ToBits(cmd, 9) + ToBits(v, len)
  }

  /** reg | value << 9 */
  function Transaction(cmd: word, v: word, len: nat): word64 {
    if len > 0 then BitOr(ToBits(cmd, 64), ShiftLeft(ToBits(v, 64), 9)) else ToBits(cmd, 64)
  }

  lemma TransactionBits(cmd: word, v: word, len: nat)
    requires cmd < 0x200 && len <= 32
    ensures Transaction(cmd, v, len)[..9 + len] == CommandBits(cmd, v, len)
  {
    var b, c := Transaction(cmd, v, len), CommandBits(cmd, v, len);
    Powers();
    PrefixOfBits(cmd, 64, 9);
    HighBitsClear(cmd, 64, 9);
    PrefixOfBits(v, 64, len);
    forall i | 0 <= i < 9 + len
      ensures b[i] == c[i]
    {
      if i < 9 {
        assert ToBits(cmd, 64)[..9][i] == ToBits(cmd, 9)[i];
      } else {
        assert ToBits(v, 64)[..len][i - 9] == ToBits(v, len)[i - 9];
      }
    }
  }

  lemma SmallNumber(v: word, n: nat)
    requires v < Pow2(n)
    ensures Num(ToBits(v, n)) % WORDS == v
  {
    NumOfBits(v, n);
  }

  lemma CommandSplits(cmd: word, v: word, len: nat)
    ensures CommandBits(cmd, v, len)[..9] == ToBits(cmd, 9) && CommandBits(cmd, v, len)[9..] == ToBits(v, len)
  {
  }

  lemma CommandNumbers(cmd: word, v: word, len: nat)
    requires cmd < 0x200 && v < Pow2(len)
    ensures var b := CommandBits(cmd, v, len);
            Num(b[..9]) % WORDS == cmd && Num(b[9..]) % WORDS == v
  {
    CommandSplits(cmd, v, len);
    Powers();
    SmallNumber(cmd, 9);
    SmallNumber(v, len);
  }

  lemma ScanUpdates(p: Port<Oncd>, b: bits)
    requires Listening(p)
    ensures DrScan(p, b).chip == Update(p.chip, b) && Listening(DrScan(p, b))
  {
  }

  /** A scan of command and data bits is one OnCD write. */
  lemma CommandWrites(p: Port<Oncd>, cmd: word, v: word, len: nat)
    requires Listening(p) && cmd < 0x200 && v < Pow2(len)
    ensures DrScan(p, CommandBits(cmd, v, len)).chip == Write(p.chip, v, cmd)
    ensures Listening(DrScan(p, CommandBits(cmd, v, len)))
  {
    ScanUpdates(p, CommandBits(cmd, v, len));
    CommandNumbers(cmd, v, len);
  }

  lemma RegisterBit(v: word, len: nat, i: nat)
    requires i < len <= 32
    ensures ToBits(v, 32)[i] == ToBits(v, len)[i]
  {
    PrefixOfBits(v, 32, len);
    assert ToBits(v, 32)[..len][i] == ToBits(v, 32)[i];
  }

  lemma OutputBit(d: Oncd, cmd: word, len: nat, i: nat)
    requires cmd < 0x200 && len <= 32 && i < len
    ensures Output(d, CommandBits(cmd, 0, len)[..9 + i]) == ToBits(Read(d, cmd), len)[i]
  {
    var b := CommandBits(cmd, 0, len)[..9 + i];
    assert b[..9] == CommandBits(cmd, 0, len)[..9];
    CommandNumber(cmd, len);
    RegisterBit(Read(d, cmd), len, i);
  }

  lemma CommandNumber(cmd: word, len: nat)
    requires cmd < 0x200
    ensures Num(CommandBits(cmd, 0, len)[..9]) % WORDS == cmd
  {
    CommandSplits(cmd, 0, len);
    Powers();
    SmallNumber(cmd, 9);
  }

  lemma ScanOutputs(p: Port<Oncd>, b: bits, i: nat)
    requires Listening(p) && i < |b|
    ensures ScanOut(p, false, b)[i] == Output(p.chip, b[..i])
  {
  }

  /** After the nine command bits a read scan yields the register, least significant bit first. */
  lemma CommandReads(p: Port<Oncd>, cmd: word, len: nat)
    requires Listening(p) && cmd < 0x200 && len <= 32
    ensures ScanOut(p, false, CommandBits(cmd, 0, len))[9..] == ToBits(Read(p.chip, cmd), len)
  {
    var b := CommandBits(cmd, 0, len);
    forall i | 0 <= i < len
      ensures ScanOut(p, false, b)[9 + i] == ToBits(Read(p.chip, cmd), len)[i]
    {
      ScanOutputs(p, b, 9 + i);
      OutputBit(p.chip, cmd, len, i);
    }
  }
}
