/**
 A write by the debugger, from the socket to the target's memory (gdbproxy.c:459-496,
 1351-1412, 1505, remote-elvees.c:544-637).
 */
module GdbToMemory {
  import opened Words
  import opened GdbHex
  import opened GdbMemory
  import opened GdbPacket
  import opened GdbFrames
  import opened GdbEscape
  import opened GdbBinary
  import Chip
  import ElveesMem
  import Target

  /** The write that the next packet of the input asks for, if that is what it is. */
  function Asked(input: text): Option<MemWrite> {
    var o := Run(Idle(INOUTBUF_SIZE), input, INOUTBUF_SIZE).0;
    if o.Packet? && CString(o.data) == o.data != [] && o.data[0] == BIG_M then WriteRequest(o.data) else None
  }

  /** Exactly these bytes of memory, from this address on, are now what was asked for. */
  ghost predicate Performed(d: Chip.Oncd, d': Chip.Oncd, w: MemWrite) {
    if w.data == [] || w.addr + |w.data| > WORDS then d' == d
    else ElveesMem.OneSegment(w.addr, |w.data|) ==>
           ElveesMem.Touched(d, d') && ElveesMem.Changed(d.mem, d'.mem, Target.Phys(w.addr), w.data)
  }

  /** What one turn of the main loop comes to; a packet with a NUL inside fails an assertion. */
  datatype Turn = NotAPacket | Failed | OtherCommand | Refused | Answered(r: ElveesMem.Outcome)

  function TurnFor(o: Outcome): Turn {
    if !o.Packet? then NotAPacket
    else if CString(o.data) != o.data then Failed
    else if o.data == [] || o.data[0] != BIG_M then OtherCommand
    else
      match WriteRequest(o.data)
      case None => Refused
      case Some(w) => Answered(if w.data != [] && w.addr + |w.data| > WORDS then ElveesMem.BadAddress
                               else ElveesMem.Done(|w.data|))
  }

  /** One turn of the main loop, as far as memory writes go. */
  method Serve(sock: Socket, a: Target.Adapter) returns (turn: Turn)
    requires a.Synced()
    modifies sock, a
    ensures a.Synced()
    ensures var (o, rest) := Run(Idle(INOUTBUF_SIZE), old(sock.incoming), INOUTBUF_SIZE);
            sock.incoming == rest && sock.sent == old(sock.sent) + Acknowledgement(o) && turn == TurnFor(o)
    ensures match Asked(old(sock.incoming))
            case None => a.chip == old(a.chip)
            case Some(w) => Performed(old(a.chip), a.chip, w)
  {
    hide Run, WriteRequest, CString, ElveesMem.Changed, ElveesMem.Touched, ElveesMem.OneSegment;
    var buf := new byte[INOUTBUF_SIZE];
    var reply, len := GetPacket(sock, buf, INOUTBUF_SIZE);
    if reply != Received {
      return NotAPacket;
    }
    var packet := buf[..len];
    if CString(packet) != packet {
      return Failed;
    }
    if packet == [] || packet[0] != BIG_M {
      return OtherCommand;
    }
    var call := HandleWriteMemory(packet);
    if call.None? {
      return Refused;
    }
    var w := call.value;
    var data := new byte[|w.data|](i requires 0 <= i < |w.data| => w.data[i]);
    assert data[..|w.data|] == w.data;
    var r := ElveesMem.WriteMem(a, w.addr, data, |w.data|);
    return Answered(r);
  }

  // ------------------------------------------------------------- What GDB sends

  /** A write as GDB renders it: address and length in any hexadecimal form, data as digits or escaped. */
  datatype Write = Write(addr: text, len: text, data: seq<byte>, escaped: Option<text>)

  /** Within the limits of the protocol, and without a `$` in escaped data. */
  predicate WriteOk(w: Write) {
    && 0 < |w.addr| <= 16 && 0 < |w.len| <= 8 && Digits(w.addr) && Digits(w.len)
    && |w.data| <= DATABYTES_MAX && HexValue(w.len) == |w.data|
    && (w.escaped.Some? ==> Escapes(w.escaped.value, w.data) && FreeOfDollar(w.escaped.value))
  }

  function WriteText(w: Write): text {
    match w.escaped
    case None => Frame(HexPacket(w.addr, w.len, w.data))
    case Some(e) => Frame(Header(w.addr, w.len) + e)
  }

  function Meant(w: Write): MemWrite
    requires WriteOk(w)
  {
    MemWrite(HexValue(w.addr), w.data)
  }

  lemma HexPacketIsOrdinary(addr: text, len: text, data: seq<byte>)
    requires addr != [] && len != [] && Digits(addr) && Digits(len)
    ensures var p := HexPacket(addr, len, data); p != [] && p[0] == BIG_M && Ordinary(p, |p|)
  {
    hide HexOf;
    var p, k := HexPacket(addr, len, data), |addr| + |len| + 3;
    forall i | 1 <= i < |p|
      ensures p[i] != HASH && p[i] != DOLLAR && (i == 2 ==> p[i] != COLON)
    {
      if i <= |addr| {
        DigitIsPlain(addr, i - 1);
        DigitIsNoHash(addr[i - 1]);
      } else if |addr| + 1 < i < k - 1 {
        DigitIsPlain(len, i - |addr| - 2);
        DigitIsNoHash(len[i - |addr| - 2]);
      } else if i >= k {
        HexIsPlain(data, i - k);
      }
    }
  }

  lemma DigitIsNoHash(c: byte)
    requires Nibble(c) >= 0
    ensures c != HASH && c != DOLLAR && c != COLON
  {
  }

  lemma {:induction false} HexIsPlain(data: seq<byte>, i: nat)
    requires i < 2 * |data|
    ensures HexOf(data)[i] != HASH && HexOf(data)[i] != DOLLAR && HexOf(data)[i] != COLON
  {
    var n := |data| - 1;
    if i < 2 * n {
      HexIsPlain(data[..n], i);
    } else {
      NoDollar(data[n] / 16);
      NoDollar(data[n] % 16);
      DigitNibble(data[n] / 16);
      DigitNibble(data[n] % 16);
    }
  }

  /** In either form the write is understood for what it means, wherever in the input it stands. */
  lemma WriteArrives(w: Write, junk: text, rest: text)
    requires WriteOk(w) && Junk(junk)
    ensures var input := junk + (WriteText(w) + rest);
            && Run(Idle(INOUTBUF_SIZE), input, INOUTBUF_SIZE) == (Packet(HexPacket(w.addr, w.len, w.data), []), rest)
            && Asked(input) == Some(Meant(w))
  {
    hide Run, HexOf, HexValue, WriteRequest, Escapes, Digits, CString, Frame, Header, HexPacket, Ordinary;
    var p := HexPacket(w.addr, w.len, w.data);
    HexPacketIsOrdinary(w.addr, w.len, w.data);
    HexPacketIsString(w.addr, w.len, w.data);
    HexPacketWrites(w.addr, w.len, w.data);
    HexPacketFits(w.addr, w.len, w.data);
    match w.escaped
    case None => PlainRoundTrip(p, junk, rest, INOUTBUF_SIZE);
    case Some(e) => BinaryBecomesHex(w.addr, w.len, e, w.data, junk, rest, INOUTBUF_SIZE);
  }

  lemma HexPacketFits(addr: text, len: text, data: seq<byte>)
    requires |addr| <= 16 && |len| <= 8 && |data| <= DATABYTES_MAX
    ensures |HexPacket(addr, len, data)| + 1 < INOUTBUF_SIZE
  {
    hide HexOf;
  }

  /** What GDB writes, as digits or escaped, is what memory then holds, and nothing else has changed. */
  method WriteThrough(sock: Socket, a: Target.Adapter, ghost w: Write, ghost junk: text, ghost rest: text)
    returns (turn: Turn)
    requires a.Synced() && WriteOk(w) && Junk(junk) && sock.incoming == junk + (WriteText(w) + rest)
    modifies sock, a
    ensures a.Synced() && sock.incoming == rest && sock.sent == old(sock.sent) + [PLUS]
    ensures var addr := HexValue(w.addr);
            if w.data == [] then turn == Answered(ElveesMem.Done(0)) && a.chip == old(a.chip)
            else if addr + |w.data| > WORDS then turn == Answered(ElveesMem.BadAddress) && a.chip == old(a.chip)
            else
              && turn == Answered(ElveesMem.Done(|w.data|))
              && (ElveesMem.OneSegment(addr, |w.data|) ==>
                    && ElveesMem.Touched(old(a.chip), a.chip)
                    && ElveesMem.Changed(old(a.chip.mem), a.chip.mem, Target.Phys(addr), w.data))
  {
    hide Run, WriteText, HexPacket, HexValue, WriteOk, ElveesMem.Changed, ElveesMem.Touched, ElveesMem.OneSegment;
    WriteArrives(w, junk, rest);
    turn := Serve(sock, a);
  }

  /** A write to the number n, as digits without superfluous ones. */
  function WriteTo(n: nat, data: seq<byte>, escaped: Option<text>): Write {
    Write(Render(n), Render(|data|), data, escaped)
  }

  lemma WriteToOk(n: nat, data: seq<byte>, escaped: Option<text>)
    requires n < 0x1_0000_0000_0000_0000 && |data| <= DATABYTES_MAX
    requires escaped.Some? ==> Escapes(escaped.value, data) && FreeOfDollar(escaped.value)
    ensures WriteOk(WriteTo(n, data, escaped)) && Meant(WriteTo(n, data, escaped)) == MemWrite(n, data)
  {
    hide Render, HexValue, Digits;
    RenderReads(n);
    RenderReads(|data|);
    assert Power16(16) == 0x1_0000_0000_0000_0000 && Power16(8) == 0x1_0000_0000 by { Powers(); }
    RenderFits(n, 16);
    RenderFits(|data|, 8);
  }

  lemma Powers()
    ensures Power16(16) == 0x1_0000_0000_0000_0000 && Power16(8) == 0x1_0000_0000
  {
    assert Power16(4) == 0x1_0000;
    assert Power16(8) == 0x1_0000_0000;
    assert Power16(12) == 0x1_0000_0000_0000;
  }

  /** So a write to the number n changes the bytes from address n on. */
  method WriteAt(sock: Socket, a: Target.Adapter, ghost n: nat, ghost data: seq<byte>, ghost escaped: Option<text>,
                 ghost junk: text, ghost rest: text)
    returns (turn: Turn)
    requires a.Synced() && Junk(junk) && data != [] && |data| <= DATABYTES_MAX && n + |data| <= WORDS
    requires escaped.Some? ==> Escapes(escaped.value, data) && FreeOfDollar(escaped.value)
    requires sock.incoming == junk + (WriteText(WriteTo(n, data, escaped)) + rest)
    modifies sock, a
    ensures a.Synced() && sock.incoming == rest && turn == Answered(ElveesMem.Done(|data|))
    ensures ElveesMem.OneSegment(n, |data|) ==>
              && ElveesMem.Touched(old(a.chip), a.chip)
              && ElveesMem.Changed(old(a.chip.mem), a.chip.mem, Target.Phys(n), data)
  {
    hide Run, WriteText, WriteOk, HexValue, Escapes, ElveesMem.Changed, ElveesMem.Touched, ElveesMem.OneSegment;
    WriteToOk(n, data, escaped);
    turn := WriteThrough(sock, a, WriteTo(n, data, escaped), junk, rest);
  }
}
