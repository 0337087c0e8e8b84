/**
 Binary X packets (gdbproxy.c:1788-1876): what the on-the-fly translation into an M
 packet preserves, for every frame that is accepted and for every frame that is sent.
 */
module GdbBinary {
  import opened Words
  import opened GdbHex
  import opened GdbMemory
  import opened GdbPacket
  import opened GdbFrames
  import opened GdbEscape

  // --------------------------------------------- Every X packet becomes its M packet

  /** "X addr,len:" */
  function Header(addr: text, len: text): text {
    [BIG_X] + addr + [COMMA] + len + [COLON]
  }

  lemma KnownHeader()
    ensures Header(['1' as int, 'f' as int], ['2' as int])
         == ['X' as int, '1' as int, 'f' as int, ',' as int, '2' as int, ':' as int]
  {
  }

  predicate HeaderOk(head: text) {
    && |head| > 4 && head[0] == BIG_X
    && forall i :: 0 < i < |head| ==> head[i] != DOLLAR && head[i] != HASH && (head[i] == COLON <==> i == |head| - 1)
  }

  lemma HeaderIsOk(addr: text, len: text)
    requires addr != [] && len != [] && Digits(addr) && Digits(len)
    ensures HeaderOk(Header(addr, len))
  {
    var head := Header(addr, len);
    forall i | 0 < i < |head|
      ensures head[i] != DOLLAR && head[i] != HASH && (head[i] == COLON <==> i == |head| - 1)
    {
      if i <= |addr| {
        DigitIsPlain(addr, i - 1);
      } else if |addr| + 1 < i < |head| - 1 {
        DigitIsPlain(len, i - |addr| - 2);
      }
    }
  }

  lemma DigitIsPlain(t: text, i: nat)
    requires Digits(t) && i < |t|
    ensures t[i] != DOLLAR && t[i] != HASH && t[i] != COLON
  {
  }

  /** The receiver within the header, from the fourth character on. */
  function InHeader(head: text, i: nat, room: nat): Rx
    requires 4 <= i <= |head|
  {
    Rx(if i < |head| then 6 else 7, head[..i][0 := BIG_M], Sum(head[..i]), 0, false, [], room)
  }

  /** The receiver within the data. */
  function InData(head: text, e: text, i: nat, room: nat): Rx
    requires head != [] && i <= |e|
  {
    Rx(7, head[0 := BIG_M] + HexOf(Data(e[..i])), Sum(head + e[..i]), 0, Pending(e[..i]), [], room)
  }

  lemma BecomesBinary(head: text, bufLen: nat)
    requires HeaderOk(head) && |head| < bufLen
    ensures Step(Got(head, 3, bufLen), head[3], bufLen) == More(InHeader(head, 4, bufLen - 1))
  {
    SumNext(head, 3);
    assert head[..3] + [head[3]] == head[..4];
  }

  lemma HeaderStep(head: text, i: nat, bufLen: nat)
    requires HeaderOk(head) && |head| < bufLen && 4 <= i < |head|
    ensures Step(InHeader(head, i, bufLen - 1), head[i], bufLen) == More(InHeader(head, i + 1, bufLen - 1))
  {
    hide Sum;
    SumNext(head, i);
    assert head[..i][0 := BIG_M] + [head[i]] == head[..i + 1][0 := BIG_M];
  }

  lemma {:induction false} HeaderRun(head: text, i: nat, rest: text, bufLen: nat)
    requires HeaderOk(head) && |head| < bufLen && 4 <= i <= |head|
    ensures Run(InHeader(head, i, bufLen - 1), head[i..] + rest, bufLen)
         == Run(InHeader(head, |head|, bufLen - 1), rest, bufLen)
    decreases |head| - i
  {
    hide Run, Step, InHeader, HeaderOk;
    if i == |head| {
      assert head[i..] + rest == rest;
    } else {
      HeaderStep(head, i, bufLen);
      RunStep(InHeader(head, i, bufLen - 1), head[i..] + rest, bufLen, InHeader(head, i + 1, bufLen - 1));
      assert (head[i..] + rest)[1..] == head[i + 1..] + rest;
      HeaderRun(head, i + 1, rest, bufLen);
    }
  }

  lemma HeaderEnds(head: text, e: text, room: nat)
    requires HeaderOk(head)
    ensures InHeader(head, |head|, room) == InData(head, e, 0, room)
  {
    assert head[..|head|] == head && e[..0] == [] && head + [] == head;
    assert head[0 := BIG_M] + [] == head[0 := BIG_M];
  }

  lemma DataStep(head: text, e: text, i: nat, data: seq<byte>, bufLen: nat)
    requires HeaderOk(head) && Escapes(e, data) && i < |e| && e[i] != DOLLAR
    requires |head| + 2 * |data| + 1 < bufLen
    ensures Step(InData(head, e, i, bufLen - 1), e[i], bufLen) == More(InData(head, e, i + 1, bufLen - 1))
  {
    hide Sum, HexOf, Unescape, HexByte, Flip;
    StillShort(e, i);
    UnescapeNext(e, i);
    SumSnoc(head, e[..i], e[i]);
    assert e[..i] + [e[i]] == e[..i + 1];
    var d := Data(e[..i]);
    HexSnoc(d, e[i]);
    HexSnoc(d, Flip(e[i]));
    var h := head[0 := BIG_M];
    assert h + HexOf(d) + HexByte(e[i]) == h + (HexOf(d) + HexByte(e[i]));
    assert h + HexOf(d) + HexByte(Flip(e[i])) == h + (HexOf(d) + HexByte(Flip(e[i])));
  }

  lemma FreeAt(e: text, n: nat, i: nat)
    requires i < n <= |e| && FreeOfDollar(e[..n])
    ensures e[i] != DOLLAR
  {
    assert e[..n][i] == e[i];
  }

  lemma {:induction false} DataRun(head: text, e: text, i: nat, n: nat, data: seq<byte>, rest: text, bufLen: nat)
    requires HeaderOk(head) && Escapes(e, data) && i <= n <= |e| && FreeOfDollar(e[..n])
    requires |head| + 2 * |data| + 1 < bufLen
    ensures Run(InData(head, e, i, bufLen - 1), e[i..] + rest, bufLen)
         == Run(InData(head, e, n, bufLen - 1), e[n..] + rest, bufLen)
    decreases n - i
  {
    hide Run, Step, InData, Escapes, FreeOfDollar;
    if i < n {
      FreeAt(e, n, i);
      DataStep(head, e, i, data, bufLen);
      RunStep(InData(head, e, i, bufLen - 1), e[i..] + rest, bufLen, InData(head, e, i + 1, bufLen - 1));
      assert (e[i..] + rest)[1..] == e[i + 1..] + rest;
      DataRun(head, e, i + 1, n, data, rest, bufLen);
    }
  }

  /** From the start of the frame to the end of its header. */
  lemma HeaderRuns(head: text, junk: text, rest: text, bufLen: nat)
    requires HeaderOk(head) && |head| < bufLen && Junk(junk)
    ensures Run(Idle(bufLen), junk + ([DOLLAR] + (head + rest)), bufLen)
         == Run(InHeader(head, |head|, bufLen - 1), rest, bufLen)
  {
    hide Run, Step, Got, InHeader;
    FrameStarts(junk, head + rest, bufLen);
    EmptyGot(head, bufLen);
    assert head[0..] == head;
    OrdinaryRun(head, 0, 3, rest, bufLen);
    BecomesBinary(head, bufLen);
    RunStep(Got(head, 3, bufLen), head[3..] + rest, bufLen, InHeader(head, 4, bufLen - 1));
    assert (head[3..] + rest)[1..] == head[4..] + rest;
    HeaderRun(head, 4, rest, bufLen);
  }

  lemma ShownPacket(addr: text, len: text, data: seq<byte>)
    ensures Header(addr, len)[0 := BIG_M] + HexOf(data) == HexPacket(addr, len, data)
  {
    hide HexOf;
    assert Header(addr, len)[0 := BIG_M] == ['M' as int] + addr + [COMMA] + len + [COLON];
  }

  /** An X packet whose escaped data holds no `$` arrives as the M packet of the same data. */
  lemma BinaryBecomesHex(addr: text, len: text, e: text, data: seq<byte>, junk: text, rest: text, bufLen: nat)
    requires addr != [] && len != [] && Digits(addr) && Digits(len) && Escapes(e, data) && FreeOfDollar(e)
    requires Junk(junk) && |HexPacket(addr, len, data)| + 1 < bufLen
    ensures Run(Idle(bufLen), junk + (Frame(Header(addr, len) + e) + rest), bufLen)
         == (Packet(HexPacket(addr, len, data), []), rest)
  {
    hide Step, Sum, HexByte, HexOf, Digits, Escapes;
    var head, p := Header(addr, len), Header(addr, len) + e;
    HeaderIsOk(addr, len);
    ShownPacket(addr, len, data);
    var tail := Trailer(p) + rest;
    assert Frame(p) + rest == [DOLLAR] + (head + (e + tail));
    HeaderRuns(head, junk, e + tail, bufLen);
    HeaderEnds(head, e, bufLen - 1);
    assert e[0..] == e && e[..|e|] == e;
    DataRun(head, e, 0, |e|, data, tail, bufLen);
    assert e[|e|..] + tail == tail;
    assert Unescape(e) == (data, false) by { EscapesData(e, data); }
    TrailerDelivers(InData(head, e, |e|, bufLen - 1), Sum(p), rest, bufLen);
  }

  // ------------------------------- A `$` within the escaped data loses the packet

  /** pkt cannot be the M packet for (head, data): too short, or with a `:` too close to its end. */
  lemma {:induction false} Differs(pkt: text, h: nat, head: text, data: seq<byte>)
    requires HeaderOk(head) && head != []
    requires |pkt| <= 2 * |data| || (0 < h <= |pkt| && pkt[h - 1] == COLON && |pkt| - h + 2 <= 2 * |data|)
    ensures pkt != head[0 := BIG_M] + HexOf(data)
  {
    var t := head[0 := BIG_M] + HexOf(data);
    if 0 < h <= |t| {
      OnlyColon(head, data, h - 1);
    }
    TooClose(pkt, t, h, |head|, 2 * |data|);
  }

  lemma TooClose(pkt: text, t: text, h: nat, m: nat, n: nat)
    requires |t| == m + n && m > 0 && (0 < h <= |t| && t[h - 1] == COLON ==> h == m)
    requires |pkt| <= n || (0 < h <= |pkt| && pkt[h - 1] == COLON && |pkt| - h + 2 <= n)
    ensures pkt != t
  {
  }

  /** The `:` that ends the header is the only one. */
  lemma OnlyColon(head: text, data: seq<byte>, i: nat)
    requires HeaderOk(head) && i < |head| + 2 * |data|
    ensures (head[0 := BIG_M] + HexOf(data))[i] == COLON ==> i == |head| - 1
  {
    if i >= |head| {
      HexHasNoColon(data, i - |head|);
    }
  }

  lemma {:induction false} HexHasNoColon(data: seq<byte>, i: nat)
    requires i < 2 * |data|
    ensures HexOf(data)[i] != COLON
  {
    var n := |data| - 1;
    if i < 2 * n {
      HexHasNoColon(data[..n], i);
    } else {
      DigitNibble(data[n] / 16);
      DigitNibble(data[n] % 16);
    }
  }

  /**
   After a `$` among the first i characters of the escaped data: whatever has been stored since
   is short, or its own binary data keep step with the escapes and are fewer.
   */
  predicate Astray(r: Rx, h: nat, e: text, i: nat)
    requires i <= |e|
  {
    && r.state <= 9
    && (1 <= r.state <= 5 || r.state >= 8 ==> |r.pkt| <= i)
    && (r.state == 6 ==> !r.esc)
    && (r.state == 7 ==> 0 < h <= |r.pkt| && r.pkt[h - 1] == COLON && |r.pkt| - h + 2 <= 2 * |Data(e[..i])|
                         && (|r.pkt| >= r.room || r.esc == Pending(e[..i])))
  }

  lemma AstrayInText(r: Rx, h: nat, e: text, i: nat, data: seq<byte>)
    requires Escapes(e, data) && 2 <= i < |e| && Astray(r, h, e, i) && 1 <= r.state <= 6
    requires e[i] == DOLLAR ==> r == Restart(r)
    ensures var o := Act(r, e[i]);
            && o.More? && (o.rx.state != 7 ==> Astray(o.rx, h, e, i + 1))
            && (o.rx.state == 7 ==> Astray(o.rx, |o.rx.pkt|, e, i + 1))
  {
    hide Unescape, Sum;
    UnescapeNext(e, i);
    UnescapedLength(e, i + 1);
  }

  lemma AstrayInData(r: Rx, h: nat, e: text, i: nat, data: seq<byte>)
    requires Escapes(e, data) && 2 <= i < |e| && Astray(r, h, e, i) && r.state == 7 && e[i] != DOLLAR
    ensures var o := Act(r, e[i]); o.More? && Astray(o.rx, h, e, i + 1)
  {
    hide Unescape, HexByte, Flip;
    UnescapeNext(e, i);
  }

  lemma AstrayElsewhere(r: Rx, h: nat, e: text, i: nat)
    requires i < |e| && Astray(r, h, e, i) && (r.state == 0 || r.state >= 8) && (e[i] == DOLLAR ==> r.state == 0)
    ensures var o := Act(r, e[i]);
            (o.More? ==> Astray(o.rx, h, e, i + 1)) && (o.Packet? ==> |o.data| <= i)
  {
    hide Unescape, Nibble;
  }

  lemma AstrayStep(r: Rx, h: nat, e: text, i: nat, data: seq<byte>, capacity: nat) returns (h': nat)
    requires Escapes(e, data) && 2 <= i < |e| && Astray(r, h, e, i)
    ensures var o := Step(r, e[i], capacity);
            (o.More? ==> Astray(o.rx, h', e, i + 1)) && (o.Packet? ==> |o.data| <= i)
  {
    hide Act, Unescape, Escapes, Astray;
    h' := h;
    var q := r;
    if e[i] == DOLLAR && r.state != 0 {
      q := Restart(r);
      RestartIsAstray(r, h, e, i);
    }
    if 1 <= q.state <= 6 {
      AstrayInText(q, h, e, i, data);
      var o := Act(q, e[i]);
      h' := if o.rx.state == 7 then |o.rx.pkt| else h;
    } else if q.state == 7 {
      AstrayInData(q, h, e, i, data);
    } else {
      AstrayHasState(q, h, e, i);
      AstrayElsewhere(q, h, e, i);
    }
  }

  lemma RestartIsAstray(r: Rx, h: nat, e: text, i: nat)
    requires i <= |e|
    ensures Astray(Restart(r), h, e, i)
  {
  }

  lemma AstrayHasState(r: Rx, h: nat, e: text, i: nat)
    requires i <= |e| && Astray(r, h, e, i)
    ensures r.state <= 9
  {
  }

  /** What is left of the frame after the data: `#` and two digits. */
  predicate Ending(r: Rx, t: text) {
    r.state == 0 || r.state == 6 || (r.state == 7 && |r.pkt| >= r.room) || (8 <= r.state <= 9 && r.pkt != t)
  }

  lemma AstrayEnds(r: Rx, h: nat, head: text, e: text, data: seq<byte>, capacity: nat)
    requires HeaderOk(head) && Escapes(e, data) && Astray(r, h, e, |e|)
    ensures var o := Step(r, HASH, capacity);
            !o.Packet? && (o.More? ==> Ending(o.rx, head[0 := BIG_M] + HexOf(data)))
  {
    hide Unescape, HexOf;
    assert e[..|e|] == e;
    UnescapedLength(e, |e|);
    if 1 <= r.state <= 5 || r.state >= 8 || (r.state == 7 && |r.pkt| < r.room) {
      Differs(r.pkt, h, head, data);
    }
  }

  lemma EndingStep(r: Rx, x: byte, t: text, capacity: nat)
    requires Ending(r, t) && Nibble(x) >= 0
    ensures var o := Step(r, x, capacity); (o.More? ==> Ending(o.rx, t)) && (o.Packet? ==> o.data != t)
  {
  }

  lemma {:induction false} EndingRun(r: Rx, digits: text, t: text, capacity: nat)
    requires Ending(r, t) && Digits(digits)
    ensures var o := Run(r, digits, capacity).0; o.Packet? ==> o.data != t
    decreases |digits|
  {
    hide Step, Ending;
    if digits != [] {
      EndingStep(r, digits[0], t, capacity);
      var o := Step(r, digits[0], capacity);
      if o.More? {
        EndingRun(o.rx, digits[1..], t, capacity);
      }
    }
  }

  lemma SumIsDigits(b: byte)
    ensures Digits(HexByte(b))
  {
    DigitNibble(b / 16);
    DigitNibble(b % 16);
  }

  lemma {:induction false} AstrayRun(r: Rx, h: nat, head: text, e: text, i: nat, data: seq<byte>, sum: byte, capacity: nat)
    requires HeaderOk(head) && Escapes(e, data) && 2 <= i <= |e| && Astray(r, h, e, i)
    ensures var o := Run(r, e[i..] + ([HASH] + HexByte(sum)), capacity).0;
            o.Packet? ==> o.data != head[0 := BIG_M] + HexOf(data)
    decreases |e| - i
  {
    hide Step, Astray, Escapes, HexByte, HexOf, Ending;
    var tail := [HASH] + HexByte(sum);
    var input, t := e[i..] + tail, head[0 := BIG_M] + HexOf(data);
    if i == |e| {
      assert input == tail && tail[1..] == HexByte(sum);
      AstrayEnds(r, h, head, e, data, capacity);
      var o := Step(r, HASH, capacity);
      if o.More? {
        SumIsDigits(sum);
        EndingRun(o.rx, HexByte(sum), t, capacity);
      }
    } else {
      var h' := AstrayStep(r, h, e, i, data, capacity);
      var o := Step(r, e[i], capacity);
      assert input[0] == e[i] && input[1..] == e[i + 1..] + tail;
      if o.More? {
        AstrayRun(o.rx, h', head, e, i + 1, data, sum, capacity);
      } else if o.Packet? {
        ShortData(e, data);
        assert |o.data| < |t|;
      }
    }
  }

  lemma FirstDollar(e: text) returns (k: nat)
    requires !FreeOfDollar(e)
    ensures k < |e| && e[k] == DOLLAR && FreeOfDollar(e[..k])
  {
    k := Find(e, 0, DOLLAR);
  }

  lemma RestartsInData(head: text, e: text, k: nat, data: seq<byte>, bufLen: nat)
    requires HeaderOk(head) && Escapes(e, data) && k < |e| && e[k] == DOLLAR && |head| + 2 * |data| + 1 < bufLen
    ensures var o := Step(InData(head, e, k, bufLen - 1), e[k], bufLen);
            o.More? && k > 0 && Astray(o.rx, 0, e, k + 1)
  {
    hide HexOf, Sum;
    assert e[..0] == [];
  }

  /** The packet arrives exactly when no `$` is sent within its data, that is, when no byte 4 is escaped. */
  lemma BinaryBecomesHexExactly(addr: text, len: text, e: text, data: seq<byte>, junk: text, bufLen: nat)
    requires addr != [] && len != [] && Digits(addr) && Digits(len) && Escapes(e, data)
    requires Junk(junk) && |HexPacket(addr, len, data)| + 1 < bufLen
    ensures Run(Idle(bufLen), junk + Frame(Header(addr, len) + e), bufLen).0 == Packet(HexPacket(addr, len, data), [])
       <==> FreeOfDollar(e)
  {
    hide Step, Sum, HexByte, HexOf, Digits, Escapes, InHeader, InData, Astray, FreeOfDollar, HeaderOk;
    var p := Header(addr, len) + e;
    if FreeOfDollar(e) {
      assert Frame(p) + [] == Frame(p);
      BinaryBecomesHex(addr, len, e, data, junk, [], bufLen);
    } else {
      var head, tail := Header(addr, len), Trailer(p);
      var k := FirstDollar(e);
      HeaderIsOk(addr, len);
      ShownPacket(addr, len, data);
      assert Frame(p) == [DOLLAR] + (head + (e + tail));
      HeaderRuns(head, junk, e + tail, bufLen);
      HeaderEnds(head, e, bufLen - 1);
      assert e[0..] == e;
      DataRun(head, e, 0, k, data, tail, bufLen);
      RestartsInData(head, e, k, data, bufLen);
      var q := Step(InData(head, e, k, bufLen - 1), e[k], bufLen).rx;
      var input := e[k..] + tail;
      assert input[0] == e[k] && input[1..] == e[k + 1..] + tail;
      RunStep(InData(head, e, k, bufLen - 1), input, bufLen, q);
      AstrayRun(q, 0, head, e, k + 1, data, Sum(p), bufLen);
    }
  }

  /** Within the limits of the protocol a binary write and a hexadecimal write ask for the same thing. */
  lemma BinaryWriteIsHexWrite(addr: text, len: text, e: text, data: seq<byte>, junk: text, rest: text)
    requires 0 < |addr| <= 16 && 0 < |len| <= 8 && Digits(addr) && Digits(len)
    requires |data| <= DATABYTES_MAX && HexValue(len) == |data|
    requires Escapes(e, data) && FreeOfDollar(e) && Junk(junk)
    ensures var (o, left) := Run(Idle(INOUTBUF_SIZE), junk + (Frame(Header(addr, len) + e) + rest), INOUTBUF_SIZE);
            && o.Packet? && o.tag == [] && left == rest && CString(o.data) != []
            && WriteRequest(CString(o.data)) == Some(MemWrite(HexValue(addr), data))
  {
    hide Run, HexOf, HexValue, WriteRequest, Escapes, Digits, CString;
    BinaryBecomesHex(addr, len, e, data, junk, rest, INOUTBUF_SIZE);
    HexPacketIsString(addr, len, data);
    HexPacketWrites(addr, len, data);
  }

  /** An escaping the protocol allows and the receiver loses: byte 4 goes out as `}$`. */
  lemma EscapedFourIsLost(addr: text, len: text, junk: text, bufLen: nat)
    requires addr != [] && len != [] && Digits(addr) && Digits(len)
    requires Junk(junk) && |HexPacket(addr, len, [4])| + 1 < bufLen
    ensures Escapes([ESCAPE, DOLLAR], [4])
    ensures Run(Idle(bufLen), junk + Frame(Header(addr, len) + [ESCAPE, DOLLAR]), bufLen).0
         != Packet(HexPacket(addr, len, [4]), [])
  {
    hide Run, Unescape, Digits, HexPacket, Frame, Header;
    var e := [ESCAPE, DOLLAR];
    NothingEscapes();
    EscapesPair([], [], DOLLAR);
    assert [] + [ESCAPE] + [DOLLAR] == e && [] + [Flip(DOLLAR)] == [4];
    assert e[1] == DOLLAR;
    BinaryBecomesHexExactly(addr, len, e, [4], junk, bufLen);
  }
}
