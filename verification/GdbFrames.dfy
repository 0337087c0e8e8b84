/**
 What the receiver of GdbPacket makes of well-formed frames, and what every packet
 it accepts must have looked like (gdbproxy.c:1576-1614, 1654-1931).
 */
module GdbFrames {
  import opened Words
  import opened GdbHex
  import opened GdbPacket

  /** Sum of the characters, modulo 256. */
  function Sum(p: text): byte {
    if p == [] then 0 else (Sum(p[..|p| - 1]) + p[|p| - 1]) % 256
  }

  lemma SumNext(p: text, i: nat)
    requires i < |p|
    ensures Sum(p[..i + 1]) == (Sum(p[..i]) + p[i]) % 256
  {
    assert p[..i + 1][..i] == p[..i];
  }

  lemma SumSnoc(t: text, raw: text, c: byte)
    ensures Sum(t + (raw + [c])) == (Sum(t + raw) + c) % 256
  {
    assert t + (raw + [c]) == t + raw + [c];
    assert (t + raw + [c])[..|t + raw|] == t + raw;
  }

  /** What rp_putpkt sends for a payload. */
  function Frame(p: text): text {
    [DOLLAR] + p + Trailer(p)
  }

  function Trailer(p: text): text { [HASH] + HexByte(Sum(p)) }

  /** The frame is built character by character in a buffer of its own; None is a failed assertion. */
  method BuildFrame(buf: text) returns (frame: Option<text>)
    ensures var s := CString(buf);
            frame == if |s| <= INOUTBUF_SIZE then Some(Frame(s)) else None
  {
    hide Sum, HexByte, CString;
    ghost var s := CString(buf);
    StringIs(buf);
    var d := new byte[INOUTBUF_SIZE + 4];
    d[0] := DOLLAR;
    var csum: byte, i := 0, 0;
    assert buf[..0] == [] && d[..1] == [DOLLAR] + buf[..0];
    assert Sum([]) == 0 by { NoSum(); }
    while i < |buf| && buf[i] != 0 && i < INOUTBUF_SIZE
      invariant i <= |s| && i <= INOUTBUF_SIZE
      invariant d[..i + 1] == [DOLLAR] + buf[..i] && csum == Sum(buf[..i])
    {
      SumNext(buf, i);
      csum := (csum + buf[i]) % 256;
      Store(d, i + 1, buf[i]);
      assert [DOLLAR] + buf[..i] + [buf[i]] == [DOLLAR] + buf[..i + 1];
      i := i + 1;
    }
    if i < |buf| && buf[i] != 0 {
      return None;
    }
    assert buf[..i] == s;
    Store(d, i + 1, HASH);
    StoreHex(d, i + 2, csum);
    frame := Some(d[..i + 4]);
    assert [DOLLAR] + s + [HASH] + HexByte(csum) == Frame(s);
  }

  lemma StringIs(buf: text)
    ensures var n := |CString(buf)|;
            && n <= |buf| && CString(buf) == buf[..n] && (n < |buf| ==> buf[n] == 0)
            && forall i :: 0 <= i < n ==> buf[i] != 0
  {
  }

  lemma NoSum()
    ensures Sum([]) == 0
  {
  }

  // ---------------------------------------------------------- Runs of the receiver

  /** Characters that cannot start anything are skipped. */
  predicate Junk(t: text) {
    forall i :: 0 <= i < |t| ==> t[i] != DOLLAR && t[i] != PLUS && t[i] != MINUS && t[i] != CTRL_C
  }

  lemma {:induction false} JunkSkipped(r: Rx, junk: text, rest: text, capacity: nat)
    requires r.state == 0 && Junk(junk) && |r.pkt| <= capacity
    ensures Run(r, junk + rest, capacity) == Run(r, rest, capacity)
    decreases |junk|
  {
    if junk == [] {
      assert junk + rest == rest;
    } else {
      RunStep(r, junk + rest, capacity, r);
      assert (junk + rest)[1..] == junk[1..] + rest;
      JunkSkipped(r, junk[1..], rest, capacity);
    }
  }

  /** A sign or a control-C outside a packet, behind any junk. */
  lemma LoneCharacters(junk: text, rest: text, n: nat)
    requires Junk(junk)
    ensures Run(Idle(n), junk + (['+' as int] + rest), n) == (Ack, rest)
    ensures Run(Idle(n), junk + (['-' as int] + rest), n) == (Nak, rest)
    ensures Run(Idle(n), junk + ([3] + rest), n) == (Interrupt, rest)
  {
    Alone(junk, '+' as int, rest, n, Ack);
    Alone(junk, '-' as int, rest, n, Nak);
    Alone(junk, 3, rest, n, Interrupt);
  }

  lemma Alone(junk: text, c: byte, rest: text, n: nat, o: Outcome)
    requires Junk(junk) && Step(Idle(n), c, n) == o && !o.More?
    ensures Run(Idle(n), junk + ([c] + rest), n) == (o, rest)
  {
    JunkSkipped(Idle(n), junk, [c] + rest, n);
    RunStops(Idle(n), [c] + rest, n, o);
    assert ([c] + rest)[1..] == rest;
  }

  /** What is sent for a packet is received as an acknowledgement, its sequence id left behind. */
  lemma AcknowledgementArrives(o: Outcome, rest: text, n: nat)
    requires o.Packet?
    ensures Run(Idle(n), Acknowledgement(o) + rest, n) == (Ack, o.tag + rest)
  {
    assert [] + (['+' as int] + (o.tag + rest)) == Acknowledgement(o) + rest;
    LoneCharacters([], o.tag + rest, n);
  }

  /** The receiver once the first i characters of a plain payload have come. */
  function Got(p: text, i: nat, room: nat): Rx
    requires i <= |p|
  {
    Rx(if i < 4 then i + 1 else 5, p[..i], Sum(p[..i]), 0, false, [], room)
  }

  /** Nothing in the first n characters ends the packet, restarts it or makes it special. */
  predicate Ordinary(p: text, n: nat)
    requires n <= |p|
  {
    && (forall i :: 0 <= i < n ==> p[i] != HASH && (i > 0 ==> p[i] != DOLLAR))
    && (n > 2 ==> p[2] != COLON) && (n > 3 ==> p[0] != BIG_X)
  }

  lemma GotNext(p: text, i: nat)
    requires i < |p|
    ensures p[..i] + [p[i]] == p[..i + 1] && p[..i + 1][0] == p[0] && Sum(p[..i + 1]) == (Sum(p[..i]) + p[i]) % 256
  {
    SumNext(p, i);
  }

  lemma OrdinaryStep(p: text, i: nat, room: nat)
    requires i < |p| <= room && Ordinary(p, i + 1)
    ensures Step(Got(p, i, room), p[i], room) == More(Got(p, i + 1, room))
  {
    hide Sum, Binary, Check, HexByte, Ordinary;
    GotNext(p, i);
    var c := p[i];
    assert c != HASH && (i > 0 ==> c != DOLLAR) && (i == 2 ==> c != COLON) && (i == 3 ==> p[0] != BIG_X) by {
      OrdinaryAt(p, i);
    }
    if i == 0 {
      FirstStep(p, room);
    }
  }

  lemma OrdinaryAt(p: text, i: nat)
    requires i < |p| && Ordinary(p, i + 1)
    ensures p[i] != HASH && (i > 0 ==> p[i] != DOLLAR) && (i == 2 ==> p[2] != COLON) && (i == 3 ==> p[0] != BIG_X)
  {
  }

  /** Even a `$` is taken as the first character. */
  lemma FirstStep(p: text, room: nat)
    requires p != [] && |p| <= room && p[0] != HASH
    ensures Step(Got(p, 0, room), p[0], room) == More(Got(p, 1, room))
  {
    hide Binary, Check, HexByte, Fourth, Plain, InHead;
    assert p[..0] == [] && p[..1] == [p[0]] && [p[0]][..0] == [];
  }

  lemma StillOrdinary(p: text, i: nat, n: nat)
    requires i <= n <= |p| && Ordinary(p, n)
    ensures Ordinary(p, i)
  {
  }

  lemma {:induction false} OrdinaryRun(p: text, i: nat, n: nat, rest: text, room: nat)
    requires i <= n <= |p| <= room && Ordinary(p, n)
    ensures Run(Got(p, i, room), p[i..] + rest, room) == Run(Got(p, n, room), p[n..] + rest, room)
    decreases n - i
  {
    hide Run, Step, Got, Ordinary;
    if i < n {
      StillOrdinary(p, i + 1, n);
      OrdinaryStep(p, i, room);
      RunStep(Got(p, i, room), p[i..] + rest, room, Got(p, i + 1, room));
      assert (p[i..] + rest)[1..] == p[i + 1..] + rest;
      OrdinaryRun(p, i + 1, n, rest, room);
    }
  }

  /** A frame starts with a restart. */
  lemma FrameStarts(junk: text, body: text, room: nat)
    requires Junk(junk)
    ensures Run(Idle(room), junk + ([DOLLAR] + body), room) == Run(Got([], 0, room), body, room)
  {
    JunkSkipped(Idle(room), junk, [DOLLAR] + body, room);
    RunStep(Idle(room), [DOLLAR] + body, room, Got([], 0, room));
    assert ([DOLLAR] + body)[1..] == body;
  }

  /** The end of a frame, in a state where `#` ends a packet. */
  lemma TrailerDelivers(r: Rx, sum: byte, rest: text, capacity: nat)
    requires 1 <= r.state <= 7 && r.state != 6 && (r.state == 7 ==> !r.esc && |r.pkt| < r.room)
    requires |r.pkt| < capacity && r.check == 0 && r.sum == sum
    ensures Run(r, [HASH] + HexByte(sum) + rest, capacity) == (Packet(r.pkt, r.tag), rest)
  {
    var input := [HASH] + HexByte(sum) + rest;
    var hi, lo := Digit(sum / 16), Digit(sum % 16);
    assert input[0] == HASH && input[1] == hi && input[2] == lo;
    var q := r.(state := 8);
    assert Step(r, HASH, capacity) == More(q);
    RunStep(r, input, capacity, q);
    CheckDigits(q, sum, capacity);
    var s := q.(state := 9, check := sum / 16);
    RunStep(q, input[1..], capacity, s);
    RunStops(s, input[1..][1..], capacity, Packet(r.pkt, r.tag));
    assert input[1..][1..][1..] == rest;
  }

  lemma CheckDigits(q: Rx, sum: byte, capacity: nat)
    requires q.state == 8 && q.check == 0 && q.sum == sum && |q.pkt| < capacity
    ensures Step(q, Digit(sum / 16), capacity) == More(q.(state := 9, check := sum / 16))
    ensures Step(q.(state := 9, check := sum / 16), Digit(sum % 16), capacity) == Packet(q.pkt, q.tag)
  {
    DigitNibble(sum / 16);
    DigitNibble(sum % 16);
    NoDollar(sum / 16);
    NoDollar(sum % 16);
  }

  lemma NoDollar(n: nat)
    requires n < 16
    ensures Digit(n) != DOLLAR && Digit(n) != HASH
  {
  }

  // -------------------------------------------------------------- Plain payloads

  /** What rp_putpkt frames, rp_getpkt returns, after any junk, and acknowledges without a sequence id. */
  lemma PlainRoundTrip(p: text, junk: text, rest: text, bufLen: nat)
    requires |p| < bufLen && Junk(junk) && Ordinary(p, |p|)
    ensures Run(Idle(bufLen), junk + (Frame(p) + rest), bufLen) == (Packet(p, []), rest)
  {
    hide Step, Sum, HexByte;
    var body := p + (Trailer(p) + rest);
    assert Frame(p) + rest == [DOLLAR] + body;
    FrameStarts(junk, body, bufLen);
    assert Got(p, 0, bufLen) == Got([], 0, bufLen) by { EmptyGot(p, bufLen); }
    assert p[0..] == p;
    OrdinaryRun(p, 0, |p|, Trailer(p) + rest, bufLen);
    assert p[|p|..] + (Trailer(p) + rest) == Trailer(p) + rest;
    assert p[..|p|] == p;
    TrailerDelivers(Got(p, |p|, bufLen), Sum(p), rest, bufLen);
  }

  /** Both ends: the receiver answers a frame with a sign that its sender takes for an acknowledgement. */
  lemma FrameAcknowledged(p: text, junk: text, rest: text, n: nat, m: nat)
    requires |p| < n && Junk(junk) && Ordinary(p, |p|)
    ensures var answer := Acknowledgement(Run(Idle(n), junk + (Frame(p) + rest), n).0);
            answer == ['+' as int] && Run(Idle(m), answer, m) == (Ack, [])
  {
    hide Run, Frame, Ordinary;
    PlainRoundTrip(p, junk, rest, n);
    var o := Packet(p, []);
    AcknowledgementArrives(o, [], m);
    assert Acknowledgement(o) + [] == Acknowledgement(o) == ['+' as int] && o.tag + [] == [];
  }

  lemma EmptyGot(p: text, room: nat)
    ensures Got(p, 0, room) == Got([], 0, room)
  {
    assert p[..0] == [];
  }

  predicate FreeOfDollar(t: text) {
    forall i :: 0 <= i < |t| ==> t[i] != DOLLAR
  }

  /** Past the place where a packet turns special: it has a sequence id, or it has become an M packet. */
  predicate Marked(r: Rx, tagged: bool) {
    (r.state == 0 || r.state >= 4) && if tagged then r.tag != [] else r.state != 4 && r.pkt != [] && r.pkt[0] == BIG_M
  }

  lemma MarkedStep(r: Rx, c: byte, capacity: nat, tagged: bool)
    requires Marked(r, tagged) && c != DOLLAR
    ensures var o := Step(r, c, capacity);
            && (o.More? ==> Marked(o.rx, tagged))
            && (o.Packet? ==> if tagged then o.tag != [] else o.data != [] && o.data[0] == BIG_M)
  {
    hide HexByte, Nibble;
  }

  /** Until the next `$` no other kind of packet is returned. */
  lemma {:induction false} MarkedRun(r: Rx, input: text, capacity: nat, tagged: bool)
    requires Marked(r, tagged) && FreeOfDollar(input)
    ensures var o := Run(r, input, capacity).0;
            o.Packet? ==> if tagged then o.tag != [] else o.data != [] && o.data[0] == BIG_M
    decreases |input|
  {
    hide Step, Marked;
    if input != [] {
      MarkedStep(r, input[0], capacity, tagged);
      var o := Step(r, input[0], capacity);
      if o.More? {
        MarkedRun(o.rx, input[1..], capacity, tagged);
      }
    }
  }

  // ---------------------------------------------------------------- Sequence ids

  /** The receiver once a sequence id and the first i characters of the payload have come. */
  function GotTagged(tag: text, p: text, i: nat, room: nat): Rx
    requires i <= |p|
  {
    Rx(if i == 0 then 4 else 5, p[..i], Sum(tag + p[..i]), 0, false, tag, room)
  }

  lemma TagStarts(a: byte, b: byte, p: text, rest: text, n: nat)
    requires 2 < n && a !in [DOLLAR, HASH] && b !in [DOLLAR, HASH]
    ensures Run(Got([], 0, n), [a, b, COLON] + rest, n) == Run(GotTagged([a, b], p, 0, n), rest, n)
  {
    hide Run, Ordinary, Sum;
    var t := [a, b, COLON];
    EmptyGot(t, n);
    assert Ordinary(t, 2) by { StartsOrdinary(a, b); }
    assert t[0..] == t;
    OrdinaryRun(t, 0, 2, rest, n);
    assert t[2..] + rest == [COLON] + rest && t[..2] == [a, b] == [a, b] + p[..0];
    TagEnds(t, n);
    RunStep(Got(t, 2, n), [COLON] + rest, n, GotTagged([a, b], p, 0, n));
    assert ([COLON] + rest)[1..] == rest;
  }

  lemma StartsOrdinary(a: byte, b: byte)
    requires a !in [DOLLAR, HASH] && b !in [DOLLAR, HASH]
    ensures Ordinary([a, b, COLON], 2)
  {
  }

  lemma TagEnds(t: text, n: nat)
    requires |t| == 3 <= n
    ensures Step(Got(t, 2, n), COLON, n) == More(Rx(4, [], Sum(t[..2]), 0, false, t[..2], n))
  {
    hide Sum, Binary, Check;
  }

  lemma TaggedStep(tag: text, p: text, i: nat, n: nat)
    requires i < |p| < n && p[i] != HASH && p[i] != DOLLAR && (i == 0 ==> p[0] != BIG_X)
    ensures Step(GotTagged(tag, p, i, n), p[i], n) == More(GotTagged(tag, p, i + 1, n))
  {
    hide Sum, Binary, Check;
    assert p[..i] + [p[i]] == p[..i + 1];
    SumSnoc(tag, p[..i], p[i]);
  }

  lemma {:induction false} TaggedRun(tag: text, p: text, i: nat, rest: text, n: nat)
    requires i <= |p| < n && (p != [] ==> p[0] != BIG_X)
    requires forall j :: 0 <= j < |p| ==> p[j] != HASH && p[j] != DOLLAR
    ensures Run(GotTagged(tag, p, i, n), p[i..] + rest, n) == Run(GotTagged(tag, p, |p|, n), rest, n)
    decreases |p| - i
  {
    hide Run, Step, GotTagged;
    if i < |p| {
      TaggedStep(tag, p, i, n);
      RunStep(GotTagged(tag, p, i, n), p[i..] + rest, n, GotTagged(tag, p, i + 1, n));
      assert (p[i..] + rest)[1..] == p[i + 1..] + rest;
      TaggedRun(tag, p, i + 1, rest, n);
    } else {
      assert p[i..] + rest == rest;
    }
  }

  /** A frame `$ab:payload` comes back without its id, which counts in the sum; the `:` does not. */
  lemma TaggedRoundTrip(a: byte, b: byte, p: text, junk: text, rest: text, n: nat)
    requires 2 < n && |p| < n && Junk(junk) && a !in [DOLLAR, HASH] && b !in [DOLLAR, HASH]
    requires (p != [] ==> p[0] != BIG_X) && forall i :: 0 <= i < |p| ==> p[i] != HASH && p[i] != DOLLAR
    ensures Run(Idle(n), junk + ([DOLLAR] + ([a, b, COLON] + (p + ([HASH] + HexByte(Sum([a, b] + p)) + rest)))), n)
         == (Packet(p, [a, b]), rest)
  {
    hide Run, Sum, HexByte;
    var tail := [HASH] + HexByte(Sum([a, b] + p)) + rest;
    FrameStarts(junk, [a, b, COLON] + (p + tail), n);
    TagStarts(a, b, p, p + tail, n);
    assert p[0..] == p && p[..|p|] == p;
    TaggedRun([a, b], p, 0, tail, n);
    TrailerDelivers(GotTagged([a, b], p, |p|, n), Sum([a, b] + p), rest, n);
  }

  // ------------------------------------------------------------- Damaged frames

  /** A receiver that waits, whatever it received before. */
  predicate Waiting(r: Rx, room: nat) {
    r.state == 0 && !r.esc && r.room == room && |r.pkt| <= room
  }

  lemma FrameStartsAnew(r: Rx, junk: text, body: text, room: nat)
    requires Waiting(r, room) && Junk(junk)
    ensures Run(r, junk + ([DOLLAR] + body), room) == Run(Got([], 0, room), body, room)
  {
    JunkSkipped(r, junk, [DOLLAR] + body, room);
    RunStep(r, [DOLLAR] + body, room, Got([], 0, room));
    assert ([DOLLAR] + body)[1..] == body;
  }

  lemma FrameArrives(r: Rx, p: text, junk: text, rest: text, n: nat)
    requires Waiting(r, n) && |p| < n && Junk(junk) && Ordinary(p, |p|)
    ensures Run(r, junk + (Frame(p) + rest), n) == (Packet(p, []), rest)
  {
    hide Run, Ordinary;
    var body := p + (Trailer(p) + rest);
    assert Frame(p) + rest == [DOLLAR] + body;
    FrameStartsAnew(r, junk, body, n);
    assert [] + (Frame(p) + rest) == [] + ([DOLLAR] + body);
    FrameStarts([], body, n);
    PlainRoundTrip(p, [], rest, n);
  }

  /** Another two characters behind a payload than the digits of its sum. */
  predicate Damaged(p: text, hi: byte, lo: byte) {
    hi != DOLLAR && lo != DOLLAR
    && if Nibble(hi) < 0 then Junk([lo]) else Nibble(lo) < 0 || 16 * Nibble(hi) + Nibble(lo) != Sum(p)
  }

  lemma DamagedDrops(p: text, hi: byte, lo: byte, rest: text, n: nat)
    requires |p| < n && Damaged(p, hi, lo)
    ensures var q := Got(p, |p|, n).(state := 8);
            exists r: Rx :: Waiting(r, n) && Run(q, [hi, lo] + rest, n) == Run(r, rest, n)
  {
    hide Sum;
    var q := Got(p, |p|, n).(state := 8);
    var input := [hi, lo] + rest;
    assert p[..|p|] == p;
    if Nibble(hi) < 0 {
      var r := q.(state := 0);
      RunStep(q, input, n, r);
      assert input[1..] == [lo] + rest;
      JunkSkipped(r, [lo], rest, n);
      assert Waiting(r, n);
      return;
    }
    var s := q.(state := 9, check := Nibble(hi));
    assert Step(q, hi, n) == More(s);
    RunStep(q, input, n, s);
    var r := if Nibble(lo) < 0 then s.(state := 0)
             else s.(state := 0, check := Nibble(hi) * 16 % 256 + Nibble(lo));
    assert Step(s, lo, n) == More(r);
    RunStep(s, input[1..], n, r);
    assert input[1..][1..] == rest && Waiting(r, n);
  }

  /** A frame whose digits are wrong is dropped, and the next one is received. */
  lemma DamagedFrameRecovers(p: text, hi: byte, lo: byte, q: text, junk: text, more: text, rest: text, n: nat)
    requires |p| < n && |q| < n && Ordinary(p, |p|) && Ordinary(q, |q|) && Junk(junk) && Junk(more)
    requires Damaged(p, hi, lo)
    ensures Run(Idle(n), junk + ([DOLLAR] + (p + ([HASH] + ([hi, lo] + (more + (Frame(q) + rest)))))), n)
         == (Packet(q, []), rest)
  {
    hide Run, Ordinary, Damaged;
    var tail := [HASH] + ([hi, lo] + (more + (Frame(q) + rest)));
    FrameStarts(junk, p + tail, n);
    EmptyGot(p, n);
    assert p[0..] == p && p[|p|..] + tail == tail;
    OrdinaryRun(p, 0, |p|, tail, n);
    DamagedTail(p, hi, lo, q, more, rest, n);
  }

  lemma DamagedTail(p: text, hi: byte, lo: byte, q: text, more: text, rest: text, n: nat)
    requires |p| < n && |q| < n && Ordinary(q, |q|) && Junk(more) && Damaged(p, hi, lo)
    ensures Run(Got(p, |p|, n), [HASH] + ([hi, lo] + (more + (Frame(q) + rest))), n) == (Packet(q, []), rest)
  {
    hide Run, Ordinary, Damaged, Nibble;
    var ahead := more + (Frame(q) + rest);
    var tail, s := [HASH] + ([hi, lo] + ahead), Got(p, |p|, n).(state := 8);
    HashEnds(p, n);
    RunStep(Got(p, |p|, n), tail, n, s);
    assert tail[1..] == [hi, lo] + ahead;
    DamagedDrops(p, hi, lo, ahead, n);
    var r: Rx :| Waiting(r, n) && Run(s, [hi, lo] + ahead, n) == Run(r, ahead, n);
    FrameArrives(r, q, more, rest, n);
  }

  lemma HashEnds(p: text, n: nat)
    requires |p| < n
    ensures Step(Got(p, |p|, n), HASH, n) == More(Got(p, |p|, n).(state := 8))
  {
    hide Sum;
  }

  /**
   A frame that breaks off spoils the one behind it, whose `$` is taken for its first character and
   for a part of its sum; the one after that is received.
   */
  lemma InterruptedFrameSpoilsNext(p: text, q: text, next: text, junk: text, more: text, rest: text, n: nat)
    requires 0 < |p| < n && |q| + 1 < n && |next| < n && Junk(junk) && Junk(more)
    requires Ordinary(p, |p|) && Ordinary([DOLLAR] + q, |q| + 1) && Ordinary(next, |next|)
    ensures Run(Idle(n), junk + ([DOLLAR] + (p + (Frame(q) + (more + (Frame(next) + rest))))), n)
         == (Packet(next, []), rest)
  {
    hide Run, Ordinary, Damaged, Sum;
    var s, hi, lo := [DOLLAR] + q, Digit(Sum(q) / 16), Digit(Sum(q) % 16);
    var tail := [HASH] + ([hi, lo] + (more + (Frame(next) + rest)));
    var ahead := Frame(q) + (more + (Frame(next) + rest));
    assert ahead == [DOLLAR] + (q + tail);
    FrameStarts(junk, p + ahead, n);
    EmptyGot(p, n);
    assert p[0..] == p && p[|p|..] + ahead == ahead;
    OrdinaryRun(p, 0, |p|, ahead, n);
    RestartsWithDollar(p, s, n);
    RunStep(Got(p, |p|, n), ahead, n, Got(s, 1, n));
    assert ahead[1..] == q + tail == s[1..] + tail && s[|s|..] + tail == tail;
    OrdinaryRun(s, 1, |s|, tail, n);
    SpoiltSum(q);
    DamagedTail(s, hi, lo, next, more, rest, n);
  }

  lemma RestartsWithDollar(p: text, s: text, n: nat)
    requires 0 < |p| < n && 0 < |s| < n && s[0] == DOLLAR
    ensures Step(Got(p, |p|, n), DOLLAR, n) == More(Got(s, 1, n))
  {
    hide Binary, Check, HexByte;
    assert s[..1] == [DOLLAR] == [] + [DOLLAR] && Sum([DOLLAR]) == DOLLAR by { SumOne(DOLLAR); }
  }

  lemma SpoiltSum(q: text)
    ensures Damaged([DOLLAR] + q, Digit(Sum(q) / 16), Digit(Sum(q) % 16))
  {
    hide Sum, Digit, Nibble;
    var x := Sum(q);
    SumBehind(DOLLAR, q);
    assert 16 * (x / 16) + x % 16 == x && (DOLLAR + x) % 256 != x;
    DigitNibble(Sum(q) / 16);
    DigitNibble(Sum(q) % 16);
    NoDollar(Sum(q) / 16);
    NoDollar(Sum(q) % 16);
  }

  lemma {:induction false} SumBehind(c: byte, q: text)
    ensures Sum([c] + q) == (c + Sum(q)) % 256
  {
    hide Sum;
    if q == [] {
      assert [c] + q == [c];
      SumOne(c);
    } else {
      var n := |q| - 1;
      var t := [c] + q;
      assert t[..n + 1] == [c] + q[..n] && t[..n + 2] == t && q[..n + 1] == q;
      SumBehind(c, q[..n]);
      SumNext(t, n + 1);
      SumNext(q, n);
      AddOnce(c, Sum(q[..n]), q[n]);
    }
  }

  lemma SumOne(c: byte)
    ensures Sum([c]) == c && Sum([]) == 0
  {
    assert [c][..0] == [];
  }

  lemma AddOnce(a: nat, b: nat, c: nat)
    ensures ((a + b) % 256 + c) % 256 == (a + (b + c) % 256) % 256
  {
    var x, y := (a + b) / 256, (b + c) / 256;
    ModIs(a + b + c, x, (a + b) % 256 + c);
    ModIs(a + b + c, y, a + (b + c) % 256);
  }

  lemma ModIs(s: nat, q: nat, r: nat)
    requires s == 256 * q + r
    ensures r % 256 == s % 256
  {
  }

  /** The answer `OK` as it goes over the wire: `$OK#9a`. */
  lemma KnownFrame()
    ensures Frame(['O' as int, 'K' as int])
         == ['$' as int, 'O' as int, 'K' as int, '#' as int, '9' as int, 'a' as int]
  {
    var p := ['O' as int, 'K' as int];
    assert p[..1] == ['O' as int] && p[..1][..0] == [] && Sum([]) == 0;
    assert Sum(p[..1]) == 0x4f && Sum(p) == (0x4f + 0x4b) % 256 == 0x9a;
    assert HexByte(0x9a) == ['9' as int, 'a' as int];
  }

  /** Characters the protocol itself keeps out of payloads; a `$` in front does no harm. */
  predicate Clean(p: text) {
    forall i :: 0 <= i < |p| ==> p[i] != HASH && (i > 0 ==> p[i] != DOLLAR)
  }

  /** A clean payload comes back exactly when its third character is not `:` and it is not a long X packet. */
  lemma PlainRoundTripExactly(p: text, junk: text, bufLen: nat)
    requires |p| < bufLen && Junk(junk) && Clean(p)
    ensures Run(Idle(bufLen), junk + Frame(p), bufLen).0 == Packet(p, [])
       <==> !(|p| > 2 && p[2] == COLON) && !(|p| > 3 && p[0] == BIG_X)
  {
    assert Frame(p) + [] == Frame(p);
    if Ordinary(p, |p|) {
      PlainRoundTrip(p, junk, [], bufLen);
    } else if |p| > 2 && p[2] == COLON {
      Diverted(p, junk, bufLen, 2, true);
    } else {
      Diverted(p, junk, bufLen, 3, false);
    }
  }

  lemma Diverted(p: text, junk: text, bufLen: nat, k: nat, tagged: bool)
    requires |p| < bufLen && Junk(junk) && Clean(p) && k < |p| && Ordinary(p, k)
    requires if tagged then k == 2 && p[2] == COLON else k == 3 && p[0] == BIG_X && p[2] != COLON
    ensures Run(Idle(bufLen), junk + Frame(p), bufLen).0 != Packet(p, [])
  {
    hide Step, Sum, HexByte;
    var body := p + Trailer(p);
    assert Frame(p) == [DOLLAR] + body;
    FrameStarts(junk, body, bufLen);
    EmptyGot(p, bufLen);
    assert p[0..] == p;
    OrdinaryRun(p, 0, k, Trailer(p), bufLen);
    var input := p[k..] + Trailer(p);
    assert input[0] == p[k] && input[1..] == p[k + 1..] + Trailer(p);
    TurnsSpecial(p, k, bufLen, tagged);
    var q := Step(Got(p, k, bufLen), p[k], bufLen).rx;
    RunStep(Got(p, k, bufLen), input, bufLen, q);
    TrailerClean(p);
    assert FreeOfDollar(p[k + 1..] + Trailer(p));
    MarkedRun(q, input[1..], bufLen, tagged);
  }

  lemma TrailerClean(p: text)
    ensures FreeOfDollar(Trailer(p))
  {
    NoDollar(Sum(p) / 16);
    NoDollar(Sum(p) % 16);
  }

  lemma TurnsSpecial(p: text, k: nat, room: nat, tagged: bool)
    requires k < |p| <= room && Clean(p)
    requires if tagged then k == 2 && p[2] == COLON else k == 3 && p[0] == BIG_X && p[2] != COLON
    ensures var o := Step(Got(p, k, room), p[k], room); o.More? && Marked(o.rx, tagged)
  {
    hide Sum;
    assert p[..k] + [p[k]] == p[..k + 1];
  }
}
