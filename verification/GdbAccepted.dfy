/**
 What every packet that rp_getpkt accepts must have looked like on the wire
 (gdbproxy.c:1654-1931).
 */
module GdbAccepted {
  import opened Words
  import opened GdbHex
  import opened GdbPacket
  import opened GdbFrames
  import opened GdbEscape

  /**
   The frame being received, as it was sent: it starts at index `start` with the sequence id,
   if any; then comes the text `raw`, whose first h characters are the header of a binary packet;
   then what found no room; then the `#` and the digits so far.
   */
  datatype Framed = Framed(start: nat, raw: text, h: nat, dropped: text, tail: text)

  function Line(tag: text, g: Framed): text {
    (if tag == [] then [] else tag + [COLON]) + (g.raw + (g.dropped + g.tail))
  }

  /** What is stored for the text `raw`, whose first h characters are the header of a binary packet. */
  function Shown(raw: text, h: nat): text
    requires h <= |raw|
  {
    if h == 0 then raw else raw[..h][0 := BIG_M] + HexOf(Data(raw[h..]))
  }

  function Dollars(c: text): nat {
    if c == [] then 0 else Dollars(c[..|c| - 1]) + if c[|c| - 1] == DOLLAR then 1 else 0
  }

  lemma DollarsSnoc(c: text, x: byte)
    ensures Dollars(c + [x]) == Dollars(c) + if x == DOLLAR then 1 else 0
  {
    assert (c + [x])[..|c|] == c;
  }

  lemma {:induction false} SomeDollar(c: text, i: nat)
    requires i < |c| && c[i] == DOLLAR
    ensures Dollars(c) > 0
  {
    if i < |c| - 1 {
      SomeDollar(c[..|c| - 1], i);
    }
  }

  /** A frame begins behind the last `$`, or with it when that came in the middle of another frame. */
  predicate Begins(c: text, start: nat) {
    && start <= |c| && (forall i :: start < i < |c| ==> c[i] != DOLLAR)
    && if start < |c| && c[start] == DOLLAR then Dollars(c[..start]) > 0 else 0 < start && c[start - 1] == DOLLAR
  }

  /** A packet is known to be binary once this many characters have come. */
  function Telling(tag: text): nat { if tag == [] then 4 else 1 }

  /** The header of an X packet ends with the first `:` behind the place where it is recognised. */
  predicate BinaryHeader(tag: text, raw: text, h: nat) {
    && Telling(tag) < h <= |raw| && raw[0] == BIG_X && raw[h - 1] == COLON
    && forall i :: Telling(tag) <= i < h - 1 ==> raw[i] != COLON
  }

  /** Not an X packet, and not a sequence id either. */
  predicate PlainText(tag: text, raw: text) {
    && (|raw| >= Telling(tag) ==> raw[0] != BIG_X) && (tag == [] && |raw| > 2 ==> raw[2] != COLON)
    && forall i :: 0 <= i < |raw| ==> raw[i] != HASH
  }

  /** Unescaped, a `#` is the end of the data. */
  predicate Unhashed(e: text) {
    forall i :: 0 <= i < |e| && !Pending(e[..i]) ==> e[i] != HASH
  }

  // ------------------------------------------------------------- The invariant

  /** Each X packet costs one byte of room for good, and starts with a `$` of its own. */
  predicate Roomy(r: Rx, h: nat, dollars: nat, bufLen: nat) {
    r.room + dollars >= bufLen + if 1 <= r.state <= 5 || (r.state >= 8 && h == 0) then 1 else 0
  }

  /** The `#` and the first digit. */
  predicate TailIs(r: Rx, tail: text) {
    && (r.state <= 7 ==> tail == [])
    && (r.state == 8 ==> tail == [HASH])
    && (r.state == 9 ==> |tail| == 2 && tail[0] == HASH && Nibble(tail[1]) == r.check)
  }

  predicate Kind(r: Rx, raw: text, h: nat) {
    && h <= |raw| && (r.tag == [] || |r.tag| == 2)
    && (r.state <= 3 ==> r.tag == [] && |raw| == r.state - 1)
    && (r.state == 4 ==> |raw| == Telling(r.tag) - 1)
    && (r.state <= 5 ==> h == 0)
    && (r.state == 5 ==> |raw| >= Telling(r.tag))
    && (h == 0 ==> r.state != 6 && r.state != 7 && PlainText(r.tag, raw))
    && (r.state == 6 ==> h == |raw| && HeaderSoFar(r.tag, raw) && !r.esc)
    && (h > 0 && r.state != 6 ==> BinaryHeader(r.tag, raw, h) && Unhashed(raw[h..]))
    && (r.state == 7 ==> r.esc == Pending(raw[h..]))
    && (r.state >= 8 && h > 0 ==> !Pending(raw[h..]))
  }

  predicate HeaderSoFar(tag: text, raw: text) {
    && |raw| >= Telling(tag) && raw[0] == BIG_X
    && forall i :: Telling(tag) <= i < |raw| ==> raw[i] != COLON
  }

  /** Only a full buffer drops characters, and a binary packet that does never ends. */
  predicate Dropping(r: Rx, g: Framed) {
    && (forall i :: 0 <= i < |g.dropped| ==> g.h == 0 ==> g.dropped[i] != HASH)
    && (g.dropped != [] ==> |r.pkt| >= r.room && (r.state == 5 || r.state == 7 || (r.state >= 8 && g.h == 0)))
  }

  /** What the receiver holds is what the frame g says. */
  predicate Holds(r: Rx, g: Framed) {
    && Kind(r, g.raw, g.h) && Dropping(r, g) && TailIs(r, g.tail)
    && r.sum == Sum(r.tag + g.raw) && r.pkt == Shown(g.raw, g.h) && (r.state != 9 ==> r.check == 0)
  }

  /** Of the characters c taken so far, those from g.start on are the frame. */
  predicate Sound(r: Rx, c: text, g: Framed, bufLen: nat) {
    && r.state <= 9 && Roomy(r, g.h, Dollars(c), bufLen)
    && (r.state != 0 ==> Begins(c, g.start) && c[g.start..] == Line(r.tag, g) && Holds(r, g))
  }

  // ------------------------------------------------------------- One character

  /** How the frame goes on with x. */
  function Longer(q: Rx, g: Framed, x: byte): Framed {
    if q.state >= 8 then g.(tail := g.tail + [x])
    else if Act(q, x).More? && Act(q, x).rx.state == 8 then g.(tail := [HASH])
    else if q.state == 3 && x == COLON then g.(raw := [])
    else if (q.state == 5 || q.state == 7) && |q.pkt| >= q.room then g.(dropped := g.dropped + [x])
    else
      var raw := g.raw + [x];
      g.(raw := raw, h := if q.state == 6 || (q.state == 4 && raw[0] == BIG_X) then |raw| else g.h)
  }

  lemma LineExtends(tag: text, g: Framed, x: byte)
    ensures Line(tag, g.(tail := g.tail + [x])) == Line(tag, g) + [x]
    ensures g.tail == [] ==> Line(tag, g.(dropped := g.dropped + [x])) == Line(tag, g) + [x]
    ensures g.tail == [] && g.dropped == [] ==> Line(tag, g.(raw := g.raw + [x])) == Line(tag, g) + [x]
    ensures tag == [] && g.raw != [] && g.dropped == g.tail == [] && x == COLON ==>
              Line(g.raw, g.(raw := [])) == Line(tag, g) + [x]
  {
  }

  lemma LineIgnoresHeader(tag: text, g: Framed, h: nat)
    ensures Line(tag, g.(h := h)) == Line(tag, g)
  {
  }

  lemma TagKept(q: Rx, x: byte)
    requires 1 <= q.state <= 9
    ensures var o := Act(q, x); o.More? ==> o.rx.tag == if q.state == 3 && x == COLON then q.pkt else q.tag
  {
    hide HexByte, Nibble, Flip;
  }

  lemma BeforeTail(q: Rx, g: Framed)
    requires 1 <= q.state <= 7 && Holds(q, g)
    ensures g.tail == [] && (g.dropped == [] || ((q.state == 5 || q.state == 7) && |q.pkt| >= q.room))
    ensures q.state == 3 ==> q.pkt == g.raw && q.tag == [] && g.raw != []
  {
    hide Unescape, Sum, HexOf, PlainText, BinaryHeader, HeaderSoFar, Unhashed;
  }

  lemma EndsText(q: Rx, x: byte)
    requires 1 <= q.state <= 7 && Act(q, x).More? && Act(q, x).rx.state == 8
    ensures x == HASH && (q.state != 7 || |q.pkt| < q.room)
  {
    hide HexByte, Flip;
  }

  /** Every character becomes part of the line. */
  lemma LineGrows(q: Rx, g: Framed, x: byte)
    requires 1 <= q.state <= 9 && Holds(q, g)
    ensures var o := Act(q, x);
            o.More? || q.state >= 8 ==> Line(if o.More? then o.rx.tag else q.tag, Longer(q, g, x)) == Line(q.tag, g) + [x]
  {
    hide Line, Holds, Act;
    TagKept(q, x);
    LineExtends(q.tag, g, x);
    if q.state <= 7 {
      BeforeTail(q, g);
      if Act(q, x).More? && Act(q, x).rx.state == 8 {
        EndsText(q, x);
        assert g.tail + [x] == [HASH];
      }
      var raw := g.raw + [x];
      LineIgnoresHeader(q.tag, g.(raw := raw), |raw|);
    }
  }

  lemma RoomStep(q: Rx, g: Framed, x: byte, dollars: nat, bufLen: nat)
    requires 1 <= q.state <= 9 && Roomy(q, g.h, dollars, bufLen) && bufLen <= SIZE_MAX
    requires Holds(q, g)
    ensures var o := Act(q, x);
            o.More? ==> Roomy(o.rx, Longer(q, g, x).h, dollars, bufLen) && o.rx.state <= 9
  {
    hide HexByte, Nibble, Flip, Unescape, Sum, HexOf, PlainText, Unhashed, Dropping;
  }

  lemma HoldsEarly(q: Rx, g: Framed, x: byte)
    requires 1 <= q.state <= 3 && Holds(q, g)
    ensures var r := Early(q, x).rx; Holds(r, Longer(q, g, x))
  {
    hide Unescape, Sum;
    SumSnoc(q.tag, g.raw, x);
    if q.state == 3 && x == COLON {
      assert g.raw + [] == g.raw && [] + g.raw == g.raw;
    }
  }

  lemma ShownHeader(raw: text)
    requires raw != []
    ensures Shown(raw, |raw|) == raw[0 := BIG_M] && Shown(raw, 0) == raw
  {
    assert raw[..|raw|] == raw && raw[|raw|..] == [] && raw[0 := BIG_M] + [] == raw[0 := BIG_M];
  }

  lemma HoldsFourth(q: Rx, g: Framed, x: byte)
    requires q.state == 4 && Holds(q, g)
    ensures var r := Fourth(q, x).rx; Holds(r, Longer(q, g, x))
  {
    hide Sum, Unescape, HexOf, BinaryHeader, Unhashed;
    SumSnoc(q.tag, g.raw, x);
    ShownHeader(g.raw + [x]);
  }

  lemma HoldsPlain(q: Rx, g: Framed, x: byte)
    requires q.state == 5 && Holds(q, g)
    ensures var r := Plain(q, x).rx; Holds(r, Longer(q, g, x))
  {
    hide Sum, Unescape, HexOf, BinaryHeader, HeaderSoFar, Unhashed;
    SumSnoc(q.tag, g.raw, x);
  }

  lemma HoldsHead(q: Rx, g: Framed, x: byte)
    requires q.state == 6 && Holds(q, g)
    ensures var r := InHead(q, x).rx; Holds(r, Longer(q, g, x))
  {
    hide Sum;
    SumSnoc(q.tag, g.raw, x);
    var raw := g.raw + [x];
    assert g.raw[..|g.raw|] == g.raw && g.raw[|g.raw|..] == [] && raw[..|raw|] == raw && raw[|raw|..] == [];
    assert raw[0 := BIG_M] == g.raw[0 := BIG_M] + [x];
    assert g.raw[0 := BIG_M] + [] == g.raw[0 := BIG_M] && raw[0 := BIG_M] + [] == raw[0 := BIG_M];
  }

  lemma SplitSnoc(raw: text, h: nat, x: byte)
    requires h <= |raw|
    ensures (raw + [x])[h..] == raw[h..] + [x] && (raw + [x])[..h] == raw[..h]
  {
  }

  /** One more character of escaped data shows as two digits, or as nothing yet. */
  lemma ShownSnoc(raw: text, h: nat, x: byte)
    requires 0 < h <= |raw|
    ensures Shown(raw + [x], h)
         == Shown(raw, h) + if Pending(raw[h..]) then HexByte(Flip(x)) else if x == ESCAPE then [] else HexByte(x)
    ensures Pending((raw + [x])[h..]) <==> !Pending(raw[h..]) && x == ESCAPE
  {
    hide Unescape, HexOf, HexByte, Flip;
    var e, head := raw[h..], raw[..h][0 := BIG_M];
    var d := Data(e);
    SplitSnoc(raw, h, x);
    UnescapeSnoc(e, x);
    HexSnoc(d, Flip(x));
    HexSnoc(d, x);
    assert head + HexOf(d) + HexByte(x) == head + (HexOf(d) + HexByte(x));
    assert head + HexOf(d) + HexByte(Flip(x)) == head + (HexOf(d) + HexByte(Flip(x)));
    assert head + HexOf(d) + [] == head + HexOf(d);
  }

  lemma HeaderStays(tag: text, raw: text, h: nat, x: byte)
    requires BinaryHeader(tag, raw, h)
    ensures BinaryHeader(tag, raw + [x], h)
  {
  }

  lemma HoldsData(q: Rx, g: Framed, x: byte)
    requires q.state == 7 && Holds(q, g)
    ensures var r := Binary(q, x).rx; Holds(r, Longer(q, g, x))
  {
    hide Sum, Unescape, HexByte, Flip, Shown, Pending, Unhashed, BinaryHeader, PlainText, HeaderSoFar;
    assert BinaryHeader(q.tag, g.raw, g.h) && g.h > 0;
    if |q.pkt| < q.room && (q.esc || x != HASH) {
      SumSnoc(q.tag, g.raw, x);
      SplitSnoc(g.raw, g.h, x);
      ShownSnoc(g.raw, g.h, x);
      UnhashedSnoc(g.raw[g.h..], x);
      HeaderStays(q.tag, g.raw, g.h, x);
      assert Shown(g.raw, g.h) + [] == Shown(g.raw, g.h);
    }
  }

  lemma UnhashedSnoc(e: text, x: byte)
    requires Unhashed(e) && (Pending(e) || x != HASH)
    ensures Unhashed(e + [x])
  {
    hide Unescape;
    forall i | 0 <= i < |e + [x]| && !Pending((e + [x])[..i])
      ensures (e + [x])[i] != HASH
    {
      assert (e + [x])[..i] == e[..i];
      assert e[..|e|] == e;
    }
  }

  lemma HoldsCheck(q: Rx, g: Framed, x: byte)
    requires 8 <= q.state <= 9 && Holds(q, g)
    ensures var o := Check(q, x);
            && (o.More? && o.rx.state != 0 ==> Holds(o.rx, Longer(q, g, x)))
            && (o.More? ==> o.rx.tag == q.tag)
            && (o.Packet? ==> Ends(o, Longer(q, g, x)))
  {
    hide Unescape, Sum, HexOf;
  }

  /** The frame is complete, and says what the packet o is. */
  predicate Ends(o: Outcome, g: Framed)
    requires o.Packet?
  {
    && g.h <= |g.raw| && o.data == Shown(g.raw, g.h) && (o.tag == [] || |o.tag| == 2)
    && (if g.h == 0 then PlainText(o.tag, g.raw)
        else BinaryHeader(o.tag, g.raw, g.h) && Unhashed(g.raw[g.h..]) && !Pending(g.raw[g.h..]) && g.dropped == [])
    && (forall i :: 0 <= i < |g.dropped| ==> g.dropped[i] != HASH)
    && |g.tail| == 3 && g.tail[0] == HASH && Nibble(g.tail[1]) >= 0 && Nibble(g.tail[2]) >= 0
    && Nibble(g.tail[1]) * 16 + Nibble(g.tail[2]) == Sum(o.tag + g.raw)
  }

  lemma HoldsNothing(r: Rx, n: nat)
    ensures Holds(Restart(r), Framed(n, [], 0, [], [])) && Line([], Framed(n, [], 0, [], [])) == []
  {
    var nothing: text := [];
    assert nothing + nothing == nothing;
  }

  lemma Continues(c: text, tag: text, tag': text, g: Framed, g': Framed, x: byte)
    requires g.start == g'.start <= |c| && c[g.start..] == Line(tag, g) && Line(tag', g') == Line(tag, g) + [x]
    ensures (c + [x])[g.start..] == Line(tag', g')
  {
    assert (c + [x])[g.start..] == c[g.start..] + [x];
  }

  lemma LongerStart(q: Rx, g: Framed, x: byte)
    ensures Longer(q, g, x).start == g.start
  {
  }

  /** Within a frame, states 1 to 9. */
  lemma FrameStep(q: Rx, c: text, g: Framed, x: byte)
    requires 1 <= q.state <= 9 && g.start <= |c| && c[g.start..] == Line(q.tag, g) && Holds(q, g)
    ensures var o, g' := Act(q, x), Longer(q, g, x);
            && (o.More? && o.rx.state != 0 ==> (c + [x])[g.start..] == Line(o.rx.tag, g') && Holds(o.rx, g'))
            && (o.Packet? ==> o.tag == q.tag && (c + [x])[g.start..] == Line(o.tag, g') && Ends(o, g'))
            && g'.start == g.start
  {
    hide Holds, Line, Longer, Ends, Early, Fourth, Plain, InHead, Binary, Nibble;
    LineGrows(q, g, x);
    LongerStart(q, g, x);
    var o, g' := Act(q, x), Longer(q, g, x);
    Continues(c, q.tag, if o.More? then o.rx.tag else q.tag, g, g', x);
    if q.state <= 3 {
      HoldsEarly(q, g, x);
    } else if q.state == 4 {
      HoldsFourth(q, g, x);
    } else if q.state == 5 {
      HoldsPlain(q, g, x);
    } else if q.state == 6 {
      HoldsHead(q, g, x);
    } else if q.state == 7 {
      HoldsData(q, g, x);
    } else {
      HoldsCheck(q, g, x);
    }
  }

  /** The frame after one more character, if there is one. */
  function Next(r: Rx, c: text, g: Framed, x: byte): Framed {
    if r.state == 0 then Framed(|c| + 1, [], 0, [], [])
    else if x == DOLLAR then Longer(Restart(r), Framed(|c|, [], 0, [], []), x)
    else Longer(r, g, x)
  }

  /** Received: of all the characters c, those from g.start on are a complete frame for the packet o. */
  predicate Received(o: Outcome, c: text, g: Framed, bufLen: nat)
    requires o.Packet?
  {
    && Begins(c, g.start) && c[g.start..] == Line(o.tag, g) && Ends(o, g)
    && (g.dropped != [] ==> |g.raw| + Dollars(c) > bufLen)
  }

  lemma BeginsWith(c: text, start: nat, x: byte)
    requires Begins(c, start) && x != DOLLAR
    ensures start <= |c| && Begins(c + [x], start)
  {
    hide Dollars;
    assert (c + [x])[..start] == c[..start];
  }

  lemma BeginsAnew(c: text)
    ensures Begins(c + [DOLLAR], |c| + 1)
  {
  }

  lemma BeginsAgain(c: text, start: nat)
    requires Begins(c, start)
    ensures Begins(c + [DOLLAR], |c|)
  {
    hide Dollars;
    assert (c + [DOLLAR])[..|c|] == c;
    SomeDollar(c, if start < |c| && c[start] == DOLLAR then start else start - 1);
  }

  /** Every character, in every state. */
  lemma SoundStep(r: Rx, c: text, g: Framed, x: byte, bufLen: nat, capacity: nat)
    requires Sound(r, c, g, bufLen) && bufLen <= SIZE_MAX
    ensures var o, g' := Step(r, x, capacity), Next(r, c, g, x);
            && (o.More? ==> Sound(o.rx, c + [x], g', bufLen))
            && (o.Packet? ==> Received(o, c + [x], g', bufLen))
  {
    hide Holds, Line, Longer, Ends, Act, Begins;
    DollarsSnoc(c, x);
    if r.state == 0 {
      SoundIdle(r, c, x, g.h, bufLen);
    } else if x == DOLLAR {
      var q, g0 := Restart(r), Framed(|c|, [], 0, [], []);
      HoldsNothing(r, |c|);
      BeginsAgain(c, g.start);
      assert c[|c|..] == [];
      RoomStep(q, g0, x, Dollars(c) + 1, bufLen);
      FrameStep(q, c, g0, x);
      NotYet(q, x);
    } else {
      BeginsWith(c, g.start, x);
      RoomStep(r, g, x, Dollars(c), bufLen);
      FrameStep(r, c, g, x);
      if Act(r, x).Packet? {
        DroppedForRoom(r, c, g, x, bufLen);
      }
    }
  }

  lemma NotYet(q: Rx, x: byte)
    requires q.state == 1
    ensures Act(q, x).More?
  {
  }

  lemma SoundIdle(r: Rx, c: text, x: byte, h: nat, bufLen: nat)
    requires r.state == 0 && Roomy(r, h, Dollars(c), bufLen)
    ensures var o, g' := Act(r, x), Framed(|c| + 1, [], 0, [], []);
            && !o.Packet? && (o.More? ==> Sound(o.rx, c + [x], g', bufLen))
  {
    hide Holds, Line, Dollars, Early, Fourth, Plain, InHead, Binary, Check;
    DollarsSnoc(c, x);
    if x == DOLLAR {
      HoldsNothing(r, |c| + 1);
      BeginsAnew(c);
      assert (c + [x])[|c| + 1..] == [];
    }
  }

  /** Only the second digit makes a packet. */
  lemma PacketAtDigit(r: Rx, x: byte)
    requires Act(r, x).Packet?
    ensures r.state >= 8
  {
    hide HexByte, Flip, Nibble;
  }

  lemma FullWhenDropping(r: Rx, g: Framed)
    requires r.state >= 8 && Holds(r, g)
    ensures g.dropped != [] ==> g.h == 0 && r.pkt == g.raw && |r.pkt| >= r.room
  {
    hide Kind, TailIs, Sum, Data, HexOf;
  }

  lemma DroppedForRoom(r: Rx, c: text, g: Framed, x: byte, bufLen: nat)
    requires 1 <= r.state <= 9 && Holds(r, g) && Roomy(r, g.h, Dollars(c), bufLen) && Act(r, x).Packet?
    ensures Longer(r, g, x).dropped != [] ==> |Longer(r, g, x).raw| + Dollars(c + [x]) > bufLen
  {
    hide Act, Holds, Dollars;
    PacketAtDigit(r, x);
    FullWhenDropping(r, g);
    DollarsSnoc(c, x);
  }

  // ------------------------------------------------------------- Whole inputs

  lemma {:induction false} SoundRun(r: Rx, c: text, g: Framed, input: text, bufLen: nat) returns (g': Framed)
    requires Sound(r, c, g, bufLen) && bufLen <= SIZE_MAX
    ensures var (o, rest) := Run(r, input, bufLen);
            o.Packet? ==> |rest| <= |input| && rest == input[|input| - |rest|..]
                          && |o.data| < bufLen && Received(o, c + input[..|input| - |rest|], g', bufLen)
    decreases |input|
  {
    hide Sound, Received, Step;
    g' := g;
    if input != [] {
      SoundStep(r, c, g, input[0], bufLen, bufLen);
      g' := Next(r, c, g, input[0]);
      var o := Step(r, input[0], bufLen);
      if o.More? {
        g' := SoundRun(o.rx, c + [input[0]], g', input[1..], bufLen);
        var (result, rest) := Run(o.rx, input[1..], bufLen);
        if result.Packet? {
          assert c + [input[0]] + input[1..][..|input[1..]| - |rest|] == c + input[..|input| - |rest|];
        }
      } else if o.Packet? {
        PacketFits(r, input[0], bufLen);
        assert input[..1] == [input[0]];
      }
    }
  }

  lemma PacketFits(r: Rx, x: byte, capacity: nat)
    ensures var o := Step(r, x, capacity); o.Packet? ==> |o.data| < capacity
  {
    hide Act;
  }

  /**
   No packet is returned unless its checksum matches: the characters taken end in a frame whose
   digits are the sum of the sequence id and the text received, and the packet is that text.
   */
  lemma AcceptedIsVouched(input: text, bufLen: nat) returns (g: Framed)
    requires bufLen <= SIZE_MAX
    ensures var (o, rest) := Run(Idle(bufLen), input, bufLen);
            o.Packet? ==> |rest| <= |input| && rest == input[|input| - |rest|..]
                          && |o.data| < bufLen && Received(o, input[..|input| - |rest|], g, bufLen)
  {
    hide Received, Run;
    g := SoundRun(Idle(bufLen), [], Framed(0, [], 0, [], []), input, bufLen);
    var (o, rest) := Run(Idle(bufLen), input, bufLen);
    if o.Packet? {
      assert [] + input[..|input| - |rest|] == input[..|input| - |rest|];
    }
  }

  function Id(tag: text): text { if tag == [] then [] else tag + [COLON] }

  lemma {:induction false} NoDollars(t: text)
    requires FreeOfDollar(t)
    ensures Dollars(t) == 0
  {
    if t != [] {
      NoDollars(t[..|t| - 1]);
    }
  }

  lemma {:induction false} DollarsAppend(a: text, b: text)
    ensures Dollars(a + b) == Dollars(a) + Dollars(b)
  {
    if b == [] {
      assert a + b == a;
    } else {
      var n := |b| - 1;
      assert (a + b)[..|a| + n] == a + b[..n];
      DollarsAppend(a, b[..n]);
    }
  }

  /** With a single `$` there is one way only to begin, and nothing is dropped. */
  lemma OnlyStart(o: Outcome, before: text, body: text, g: Framed, bufLen: nat)
    requires o.Packet? && |o.data| < bufLen && Received(o, before + ([DOLLAR] + body), g, bufLen)
    requires FreeOfDollar(before) && FreeOfDollar(body)
    ensures g.start == |before| + 1 && g.dropped == [] && body == Line(o.tag, g)
  {
    hide Unescape, Sum, HexOf, PlainText, BinaryHeader, Unhashed, Line, Dollars;
    var c := before + ([DOLLAR] + body);
    assert c[|before|] == DOLLAR && c[|before| + 1..] == body;
    NoDollars(before);
    NoDollars(body);
    DollarsAppend(before, [DOLLAR] + body);
    DollarsAppend([DOLLAR], body);
    DollarsSnoc([], DOLLAR);
    assert [] + [DOLLAR] == [DOLLAR];
    NoDollars([]);
  }

  lemma NeedsDollar(o: Outcome, c: text, g: Framed, bufLen: nat)
    requires o.Packet? && Received(o, c, g, bufLen)
    ensures !FreeOfDollar(c) && Ends(o, g)
  {
    hide Dollars, Ends, Line;
  }

  /**
   One frame, whatever is in it: if a packet is returned, the text behind the `$` is a sequence id
   or none, the text of the packet, `#` and the two digits of the sum of both; and a binary packet
   is a header and an escaping of its data.
   */
  lemma OneFrameIsVouched(before: text, body: text, bufLen: nat) returns (g: Framed)
    requires bufLen <= SIZE_MAX && FreeOfDollar(before) && FreeOfDollar(body)
    ensures var (o, rest) := Run(Idle(bufLen), before + ([DOLLAR] + body), bufLen);
            o.Packet? ==>
              && |rest| <= |body| && body == Id(o.tag) + (g.raw + (g.tail + rest)) && Ends(o, g)
              && (g.h > 0 ==> Escapes(g.raw[g.h..], Data(g.raw[g.h..])))
  {
    hide Run, Received, Ends;
    var input := before + ([DOLLAR] + body);
    g := AcceptedIsVouched(input, bufLen);
    var (o, rest) := Run(Idle(bufLen), input, bufLen);
    if o.Packet? {
      NeedsDollar(o, input[..|input| - |rest|], g, bufLen);
      var taken := body[..|body| - |rest|];
      assert input[..|input| - |rest|] == before + ([DOLLAR] + taken);
      assert rest == body[|body| - |rest|..] && body == taken + rest;
      OnlyStart(o, before, taken, g, bufLen);
      assert taken == Id(o.tag) + (g.raw + ([] + g.tail)) && [] + g.tail == g.tail;
      assert taken + rest == Id(o.tag) + (g.raw + (g.tail + rest));
      if g.h > 0 {
        DataEscaped(o, taken, g);
      }
    }
  }

  lemma DataEscaped(o: Outcome, taken: text, g: Framed)
    requires o.Packet? && Ends(o, g) && g.h > 0 && FreeOfDollar(taken) && taken == Line(o.tag, g)
    ensures Escapes(g.raw[g.h..], Data(g.raw[g.h..]))
  {
    hide Unescape, Sum, HexOf, Nibble;
    var n, e := |Id(o.tag)|, g.raw[g.h..];
    forall i | 0 <= i < |e|
      ensures e[i] != DOLLAR
    {
      assert e[i] == taken[n + g.h + i];
    }
  }
}
