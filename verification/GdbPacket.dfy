/**
 Packets of the GDB remote protocol (gdbproxy.c:1570-1931): the receiving state
 machine with its in-place translation of binary packets, and the sender.
 Framing is section E.1 of the appendix "GDB Remote Serial Protocol" of
 "Debugging with GDB".
 */
module GdbPacket {
  import opened Words
  import opened GdbHex

  const DOLLAR: byte := '$' as int
  const HASH: byte := '#' as int
  const PLUS: byte := '+' as int
  const MINUS: byte := '-' as int
  const CTRL_C: byte := 3
  const ESCAPE: byte := 0x7D
  const BIG_X: byte := 'X' as int
  const BIG_M: byte := 'M' as int
  const SIZE_MAX: nat := 0xffff_ffff_ffff_ffff

  /**
   State of the receiver.  `room` is what is left of buf_len; `tag` is the sequence id, or empty.
   */
  datatype Rx = Rx(state: nat, pkt: text, sum: byte, check: byte, esc: bool, tag: text, room: nat)

  /** Overrun: a character is stored outside the buffer. */
  datatype Outcome =
    | More(rx: Rx)
    | Packet(data: text, tag: text)
    | Ack | Nak | Interrupt | Overrun

  function Idle(room: nat): Rx { Rx(0, [], 0, 0, false, [], room) }

  /** A `$` forgets whatever was being received. */
  function Restart(r: Rx): Rx { r.(state := 1, pkt := [], sum := 0, check := 0, tag := []) }

  /** The character counts in the checksum; the text t is stored. */
  function Take(r: Rx, c: byte, t: text, state: nat): Rx {
    r.(pkt := r.pkt + t, sum := (r.sum + c) % 256, state := state)
  }

  /** c ^ 0x20 */
  function Flip(c: byte): byte { if c / 32 % 2 == 1 then c - 32 else c + 32 }

  /** buf_len--, on an unsigned type */
  function Less(room: nat): nat { if room == 0 then SIZE_MAX else room - 1 }

  function Wait(r: Rx, c: byte): Outcome {
    if c == DOLLAR then More(Restart(r))
    else if c == CTRL_C then Interrupt
    else if c == PLUS then Ack
    else if c == MINUS then Nak
    else More(r)
  }

  /** States 1 to 3: two characters that may turn out to be a sequence id. */
  function Early(r: Rx, c: byte): (o: Outcome)
    ensures o.More?
  {
    if c == HASH then More(r.(state := 8))
    else if r.state == 3 && c == COLON then More(r.(tag := r.pkt, pkt := [], state := 4))
    else More(Take(r, c, [c], r.state + 1))
  }

  function Fourth(r: Rx, c: byte): (o: Outcome)
    ensures o.More?
  {
    if c == HASH then More(r.(state := 8))
    else
      var q := Take(r, c, [c], 5);
      if q.pkt[0] == BIG_X then More(q.(pkt := q.pkt[0 := BIG_M], esc := false, room := Less(r.room), state := 6))
      else More(q)
  }

  function Plain(r: Rx, c: byte): (o: Outcome)
    ensures o.More?
  {
    if c == HASH then More(r.(state := 8))
    else if |r.pkt| >= r.room then More(r)
    else More(Take(r, c, [c], 5))
  }

  function InHead(r: Rx, c: byte): (o: Outcome)
    ensures o.More?
  {
    More(Take(r, c, [c], if c == COLON then 7 else 6))
  }

  function Binary(r: Rx, c: byte): (o: Outcome)
    ensures o.More?
  {
    if |r.pkt| >= r.room then More(r)
    else if r.esc then More(Take(r, c, HexByte(Flip(c)), 7).(esc := false))
    else if c == ESCAPE then More(r.(sum := (r.sum + c) % 256, esc := true))
    else if c == HASH then More(r.(state := 8))
    else More(Take(r, c, HexByte(c), 7))
  }

  function Check(r: Rx, c: byte): Outcome {
    var nib := Nibble(c);
    if nib < 0 then More(r.(state := 0))
    else
      var check := r.check * 16 % 256 + nib;
      if r.state == 8 then More(r.(check := check, state := 9))
      else if r.sum == check then Packet(r.pkt, r.tag)
      else More(r.(check := check, state := 0))
  }

  function Act(r: Rx, c: byte): Outcome {
    if r.state == 0 then Wait(r, c)
    else if r.state <= 3 then Early(r, c)
    else if r.state == 4 then Fourth(r, c)
    else if r.state == 5 then Plain(r, c)
    else if r.state == 6 then InHead(r, c)
    else if r.state == 7 then Binary(r, c)
    else Check(r, c)
  }

  /** Does a text of this length fit, with what is stored behind it? */
  function Fits(o: Outcome, capacity: nat): Outcome {
    match o
    case More(r) => if |r.pkt| > capacity then Overrun else o
    case Packet(data, _) => if |data| >= capacity then Overrun else o
    case _ => o
  }

  /** One character. */
  function Step(r: Rx, c: byte, capacity: nat): Outcome {
    Fits(Act(if c == DOLLAR && r.state != 0 then Restart(r) else r, c), capacity)
  }

  /** Characters are taken until there is a result, or none are left. */
  function Steps(r: Rx, input: text, capacity: nat): (Outcome, text)
    decreases |input|
  {
    if input == [] then (More(r), [])
    else
      var o := Step(r, input[0], capacity);
      if o.More? then Steps(o.rx, input[1..], capacity) else (o, input[1..])
  }

  /** The outcome, and the input it leaves. */
  function Run(r: Rx, input: text, capacity: nat): (Outcome, text) { Steps(r, input, capacity) }

  lemma RunStep(r: Rx, input: text, capacity: nat, q: Rx)
    requires input != [] && Step(r, input[0], capacity) == More(q)
    ensures Run(r, input, capacity) == Run(q, input[1..], capacity)
  {
  }

  // ------------------------------------------------------------- The receiver

  /** The debugger's end of the socket. */
  class Socket {
    var incoming: text
    var sent: text

    /** -1 when nothing more will come. */
    method ReadChar() returns (c: int)
      modifies this`incoming
      ensures old(incoming) == [] ==> c == -1 && incoming == []
      ensures old(incoming) != [] ==> c == old(incoming)[0] && incoming == old(incoming)[1..]
    {
      if incoming == [] {
        return -1;
      }
      c := incoming[0];
      incoming := incoming[1..];
    }

    method PutChar(c: byte)
      modifies this`sent
      ensures sent == old(sent) + [c]
    {
      sent := sent + [c];
    }
  }

  datatype Reply = Closed | Received | Acked | Nacked | ControlC | OutOfBounds

  /** What the caller sees of an outcome. */
  ghost predicate Reports(o: Outcome, reply: Reply, data: text) {
    match o
    case More(_) => reply == Closed
    case Packet(d, _) => reply == Received && data == d
    case Ack => reply == Acked
    case Nak => reply == Nacked
    case Interrupt => reply == ControlC
    case Overrun => reply == OutOfBounds
  }

  /** A good packet is acknowledged, with its sequence id if it had one. */
  function Acknowledgement(o: Outcome): text {
    if o.Packet? then [PLUS] + o.tag else []
  }

  method Store(buf: array<byte>, at: nat, c: byte)
    requires at < buf.Length
    modifies buf
    ensures buf[..at + 1] == old(buf[..at]) + [c]
  {
    buf[at] := c;
  }

  method StoreHex(buf: array<byte>, at: nat, c: byte)
    requires at + 1 < buf.Length
    modifies buf
    ensures buf[..at + 2] == old(buf[..at]) + HexByte(c)
  {
    Store(buf, at, Digit(c / 16));
    Store(buf, at + 1, Digit(c % 16));
  }

  /** A character before the data of a binary packet, or of any other packet. */
  method TextChar(buf: array<byte>, ghost r: Rx, c: byte, state: nat, pktLen: nat, rxCsum: byte, tag: text,
                  escFound: bool, room: nat)
    returns (next: nat, len: nat, sum: byte, id: text, esc: bool, left: nat, fits: bool)
    requires pktLen <= buf.Length && r == Rx(state, buf[..pktLen], rxCsum, r.check, escFound, tag, room)
    requires buf.Length > 6 && room <= SIZE_MAX && InText(state, pktLen) && (tag == [] || |tag| == 2)
    modifies buf
    ensures fits <==> |Act(r, c).rx.pkt| <= buf.Length
    ensures fits ==> len <= buf.Length && Act(r, c) == More(Rx(next, buf[..len], sum, r.check, esc, id, left))
    ensures fits ==> (InText(next, len) || next == 7 || next == 8) && (id == [] || |id| == 2) && left <= SIZE_MAX
  {
    next, len, sum, id, esc, left, fits := state, pktLen, rxCsum, tag, escFound, room, true;
    match state {
    case 1 | 2 =>
      if c == HASH {
        next := 8;
      } else {
        Store(buf, pktLen, c);
        len, sum, next := pktLen + 1, (rxCsum + c) % 256, state + 1;
      }
    case 3 =>
      if c == HASH {
        next := 8;
      } else {
        if c == COLON {
          assert buf[..pktLen] == [buf[0], buf[1]];
          id := [buf[0], buf[1]];
          len := 0;
          assert buf[..0] == [];
        } else {
          Store(buf, pktLen, c);
          len, sum := pktLen + 1, (rxCsum + c) % 256;
        }
        next := 4;
      }
    case 4 =>
      if c == HASH {
        next := 8;
      } else {
        Store(buf, pktLen, c);
        len, sum := pktLen + 1, (rxCsum + c) % 256;
        if buf[0] == BIG_X {
          ghost var pkt := buf[..len];
          buf[0] := BIG_M;
          assert buf[..len] == pkt[0 := BIG_M];
          esc, left, next := false, Less(room), 6;
        } else {
          next := 5;
        }
      }
    case 5 =>
      if c == HASH {
        next := 8;
      } else if pktLen < room {
        if pktLen >= buf.Length {
          fits := false;
          return;
        }
        Store(buf, pktLen, c);
        len, sum := pktLen + 1, (rxCsum + c) % 256;
      }
    case _ =>
      if pktLen >= buf.Length {
        fits := false;
        return;
      }
      Store(buf, pktLen, c);
      len, sum := pktLen + 1, (rxCsum + c) % 256;
      if c == COLON {
        next := 7;
      }
    }
  }

  /** The states that store text, and how much is stored in the first of them. */
  predicate InText(state: nat, len: nat) {
    1 <= state <= 6 && (state <= 3 ==> len == state - 1) && (state == 4 ==> len <= 3)
  }

  /** A character of escaped binary data, stored as two hexadecimal digits. */
  method BinaryChar(buf: array<byte>, ghost r: Rx, c: byte, pktLen: nat, rxCsum: byte, escFound: bool, room: nat)
    returns (state: nat, len: nat, sum: byte, esc: bool, fits: bool)
    requires pktLen <= buf.Length && r == Rx(7, buf[..pktLen], rxCsum, r.check, escFound, r.tag, room)
    modifies buf
    ensures fits <==> |Binary(r, c).rx.pkt| <= buf.Length
    ensures fits ==> len <= buf.Length && Binary(r, c) == More(Rx(state, buf[..len], sum, r.check, esc, r.tag, room))
    ensures state == 7 || state == 8
  {
    hide HexByte;
    state, len, sum, esc, fits := 7, pktLen, rxCsum, escFound, true;
    if pktLen >= room {
      return;
    }
    if escFound {
      if pktLen + 1 >= buf.Length {
        fits := false;
        return;
      }
      StoreHex(buf, pktLen, Flip(c));
      len, sum, esc := pktLen + 2, (rxCsum + c) % 256, false;
    } else if c == ESCAPE {
      sum, esc := (rxCsum + c) % 256, true;
    } else if c == HASH {
      state := 8;
    } else {
      if pktLen + 1 >= buf.Length {
        fits := false;
        return;
      }
      StoreHex(buf, pktLen, c);
      len, sum := pktLen + 2, (rxCsum + c) % 256;
    }
  }

  /** A digit of the checksum. */
  method CheckChar(ghost r: Rx, c: byte, state: nat, rxCsum: byte, calcCsum: byte)
    returns (next: nat, value: byte, good: bool)
    requires r.state == state && r.sum == rxCsum && r.check == calcCsum && 8 <= state <= 9
    ensures Check(r, c) == if good then Packet(r.pkt, r.tag) else More(r.(check := value, state := next))
    ensures next == 0 || next == 9
  {
    var nib := Nibble(c);
    if nib < 0 {
      return 0, calcCsum, false;
    }
    value := calcCsum * 16 % 256 + nib;
    if state == 8 {
      return 9, value, false;
    }
    return 0, value, rxCsum == value;
  }

  method Terminate(buf: array<byte>, len: nat)
    requires len < buf.Length
    modifies buf
    ensures buf[..len] == old(buf[..len]) && buf[len] == 0
  {
    buf[len] := 0;
  }

  method Acknowledge(sock: Socket, tag: text)
    requires tag == [] || |tag| == 2
    modifies sock`sent
    ensures sock.sent == old(sock.sent) + ([PLUS] + tag)
  {
    sock.PutChar(PLUS);
    if tag != [] {
      sock.PutChar(tag[0]);
      sock.PutChar(tag[1]);
    }
  }

  /** Reads one packet into buf, or whatever comes instead of one. */
  method GetPacket(sock: Socket, buf: array<byte>, bufLen: nat) returns (reply: Reply, len: nat)
    requires 6 < bufLen == buf.Length <= SIZE_MAX
    modifies sock, buf
    ensures var (o, rest) := Run(Idle(bufLen), old(sock.incoming), bufLen);
            && len <= buf.Length && Reports(o, reply, buf[..len]) && sock.incoming == rest
            && (reply.Received? ==> len < buf.Length && buf[len] == 0)
            && sock.sent == old(sock.sent) + Acknowledgement(o)
    ensures var input := old(sock.incoming);
            if input == [] then reply == Closed
            else
              && (input[0] == '+' as int ==> reply == Acked) && (input[0] == '-' as int ==> reply == Nacked)
              && (input[0] == 3 ==> reply == ControlC)
  {
    hide Run, Step, Act, Digit, Nibble, HexByte, Binary, Early, Fourth, Plain, InHead, Check;
    var state: nat, pktLen: nat, rxCsum: byte, calcCsum: byte, escFound, room: nat := 0, 0, 0, 0, false, bufLen;
    var tag: text := [];
    ghost var input, rx := sock.incoming, Idle(bufLen);
    FirstDecides(input, bufLen);
    assert buf[..0] == [];
    while true
      invariant pktLen <= buf.Length && room <= SIZE_MAX
      invariant rx == Rx(state, buf[..pktLen], rxCsum, calcCsum, escFound, tag, room)
      invariant Run(Idle(bufLen), input, bufLen) == Run(rx, sock.incoming, bufLen)
      invariant state <= 9 && (1 <= state <= 6 ==> InText(state, pktLen))
      invariant sock.sent == old(sock.sent) && (tag == [] || |tag| == 2)
      decreases |sock.incoming|
    {
      ghost var before := sock.incoming;
      var got := sock.ReadChar();
      if got == -1 {
        RunEnds(rx, bufLen);
        return Closed, 0;
      }
      var c: byte := got;
      if c == DOLLAR && state != 0 {
        tag, rxCsum, calcCsum, pktLen, state := [], 0, 0, 0, 1;
        assert buf[..0] == [];
      }
      ghost var r := if c == DOLLAR && rx.state != 0 then Restart(rx) else rx;
      StepIs(rx, c, bufLen);
      match state {
      case 0 =>
        if c == DOLLAR {
          tag, rxCsum, calcCsum, pktLen, state := [], 0, 0, 0, 1;
          assert buf[..0] == [];
        } else if c == CTRL_C {
          RunStops(rx, before, bufLen, Interrupt);
          return ControlC, 0;
        } else if c == PLUS {
          RunStops(rx, before, bufLen, Outcome.Ack);
          return Acked, 0;
        } else if c == MINUS {
          RunStops(rx, before, bufLen, Outcome.Nak);
          return Nacked, 0;
        }
      case 1 | 2 | 3 | 4 | 5 | 6 =>
        var fits;
        state, pktLen, rxCsum, tag, escFound, room, fits :=
          TextChar(buf, r, c, state, pktLen, rxCsum, tag, escFound, room);
        if !fits {
          RunStops(rx, before, bufLen, Overrun);
          return OutOfBounds, 0;
        }
      case 7 =>
        var fits;
        state, pktLen, rxCsum, escFound, fits :=
          BinaryChar(buf, rx, c, pktLen, rxCsum, escFound, room);
        if !fits {
          RunStops(rx, before, bufLen, Overrun);
          return OutOfBounds, 0;
        }
      case _ =>
        var good;
        state, calcCsum, good := CheckChar(r, c, state, rxCsum, calcCsum);
        if good {
          if pktLen >= buf.Length {
            RunStops(rx, before, bufLen, Overrun);
            return OutOfBounds, 0;
          }
          RunStops(rx, before, bufLen, Packet(buf[..pktLen], tag));
          Terminate(buf, pktLen);
          Acknowledge(sock, tag);
          return Received, pktLen;
        }
      }
      ghost var next := Rx(state, buf[..pktLen], rxCsum, calcCsum, escFound, tag, room);
      RunStep(rx, before, bufLen, next);
      rx := next;
    }
  }

  /** A sign, a control-C or the end of the input outside a packet is reported at once. */
  lemma FirstDecides(input: text, capacity: nat)
    ensures var o := Run(Idle(capacity), input, capacity).0;
            if input == [] then o.More?
            else
              && (input[0] == '+' as int ==> o == Ack) && (input[0] == '-' as int ==> o == Nak)
              && (input[0] == 3 ==> o == Interrupt)
  {
    hide Early, Fourth, Plain, InHead, Binary, Check;
  }

  lemma StepIs(r: Rx, c: byte, capacity: nat)
    ensures var q := if c == DOLLAR && r.state != 0 then Restart(r) else r;
            && Step(r, c, capacity) == Fits(Act(q, c), capacity)
            && (q.state == 0 ==> Act(q, c) == Wait(q, c))
            && (q.state == 7 ==> Act(q, c) == Binary(q, c))
            && (q.state > 7 ==> Act(q, c) == Check(q, c))
            && (1 <= q.state <= 7 ==> Act(q, c).More?)
  {
    hide HexByte, Flip;
  }

  lemma RunEnds(r: Rx, capacity: nat)
    ensures Run(r, [], capacity) == (More(r), [])
  {
  }

  lemma RunStops(r: Rx, input: text, capacity: nat, o: Outcome)
    requires input != [] && Step(r, input[0], capacity) == o && !o.More?
    ensures Run(r, input, capacity) == (o, input[1..])
  {
  }
}
