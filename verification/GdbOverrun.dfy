/**
 When rp_getpkt stores a character outside its buffer (gdbproxy.c:1812-1848, 1904-1906): only
 the data of a binary packet and the middle of a plain one are checked against its length.
 */
module GdbOverrun {
  import opened Words
  import opened GdbHex
  import opened GdbMemory
  import opened GdbPacket
  import opened GdbFrames
  import opened GdbAccepted

  // ---------------------------------------------------- What can go wrong in a frame

  /** The text begins with the two digits of the sum. */
  predicate SumMatches(t: text, sum: byte) {
    |t| >= 2 && Nibble(t[0]) >= 0 && Nibble(t[1]) >= 0 && Nibble(t[0]) * 16 + Nibble(t[1]) == sum
  }

  /** The header goes on for more than `free` characters. */
  predicate HeaderOverflows(rest: text, free: nat) {
    |rest| > free && forall i :: 0 <= i < free ==> rest[i] != COLON
  }

  /** A plain packet fills the buffer to the last byte and is accepted: then its NUL does not fit. */
  predicate PlainOverflows(rest: text, free: nat, before: text) {
    var p := Find(rest, 0, HASH);
    free <= p < |rest| && SumMatches(rest[p + 1..], Sum(before + rest[..free]))
  }

  /** The text of a packet, behind its sequence id. */
  predicate TextOverflows(tag: text, t: text, bufLen: nat)
    requires bufLen > 6
  {
    var k := Telling(tag);
    && |t| >= k && (forall i :: 0 <= i < k ==> t[i] != HASH)
    && if t[0] == BIG_X then HeaderOverflows(t[k..], bufLen - k) else PlainOverflows(t[k..], bufLen - k, tag + t[..k])
  }

  predicate HasId(body: text) {
    |body| > 2 && body[0] != HASH && body[1] != HASH && body[2] == COLON
  }

  /** What comes behind the `$`. */
  predicate Overflows(body: text, bufLen: nat)
    requires bufLen > 6
  {
    if HasId(body) then TextOverflows(body[..2], body[3..], bufLen) else TextOverflows([], body, bufLen)
  }

  // ---------------------------------------------------------------- Safe for good

  /** Until the next `$` nothing can be stored outside the buffer. */
  predicate Safe(r: Rx, capacity: nat) {
    && r.state <= 9 && |r.pkt| <= capacity
    && (r.state == 0 || (r.state == 7 && r.room < capacity) || (r.state >= 8 && |r.pkt| < capacity))
  }

  lemma SafeStep(r: Rx, x: byte, capacity: nat)
    requires Safe(r, capacity) && x != DOLLAR
    ensures var o := Step(r, x, capacity); !o.Overrun? && (o.More? ==> Safe(o.rx, capacity))
  {
    hide Nibble, Digit, Flip;
  }

  lemma {:induction false} SafeRun(r: Rx, input: text, capacity: nat)
    requires Safe(r, capacity) && FreeOfDollar(input)
    ensures !Run(r, input, capacity).0.Overrun?
    decreases |input|
  {
    hide Step, Safe;
    if input != [] {
      SafeStep(r, input[0], capacity);
      var o := Step(r, input[0], capacity);
      if o.More? {
        SafeRun(o.rx, input[1..], capacity);
      }
    }
  }

  // ------------------------------------------------------------- The exact condition

  lemma FirstDigit(r: Rx, x: byte, capacity: nat)
    requires r.state == 8 && r.check == 0 && |r.pkt| <= capacity && x != DOLLAR
    ensures Step(r, x, capacity)
         == More(if Nibble(x) < 0 then r.(state := 0) else r.(check := Nibble(x), state := 9))
  {
    hide Nibble;
  }

  lemma SecondDigit(r: Rx, x: byte, capacity: nat)
    requires r.state == 9 && r.check < 16 && |r.pkt| == capacity && x != DOLLAR
    ensures var o := Step(r, x, capacity);
            if Nibble(x) >= 0 && r.check * 16 + Nibble(x) == r.sum then o == Overrun
            else o.More? && Safe(o.rx, capacity)
  {
    hide Nibble;
  }

  lemma CheckDecides(r: Rx, input: text, capacity: nat)
    requires r.state == 8 && r.check == 0 && |r.pkt| == capacity && FreeOfDollar(input)
    ensures Run(r, input, capacity).0.Overrun? <==> SumMatches(input, r.sum)
  {
    hide Nibble, Step;
    if input != [] {
      FirstDigit(r, input[0], capacity);
      var q := Step(r, input[0], capacity).rx;
      RunStep(r, input, capacity, q);
      if q.state == 0 {
        SafeRun(q, input[1..], capacity);
      } else if |input| > 1 {
        SecondDigit(q, input[1], capacity);
        var o := Step(q, input[1], capacity);
        if o.More? {
          RunStep(q, input[1..], capacity, o.rx);
          SafeRun(o.rx, input[1..][1..], capacity);
        } else {
          RunStops(q, input[1..], capacity, o);
        }
      }
    }
  }

  lemma FindNext(t: text, c: byte)
    requires t != [] && t[0] != c
    ensures Find(t, 0, c) == Find(t[1..], 0, c) + 1
  {
    var k := Find(t[1..], 0, c);
    assert forall i :: 0 < i < k + 1 ==> t[i] == t[1..][i - 1];
    if k < |t| - 1 {
      assert t[1..][k] == t[k + 1];
      FindIs(t, 0, c, k + 1);
    }
  }

  lemma PlainNext(rest: text, free: nat, before: text)
    requires rest != [] && rest[0] != HASH
    ensures PlainOverflows(rest, free, before)
       <==> if free == 0 then PlainOverflows(rest[1..], 0, before)
            else PlainOverflows(rest[1..], free - 1, before + [rest[0]])
  {
    hide Find, Sum, SumMatches;
    FindNext(rest, HASH);
    var p := Find(rest, 0, HASH);
    if p < |rest| {
      assert rest[p + 1..] == rest[1..][p..];
      assert rest[..0] == rest[1..][..0];
      if 0 < free <= p {
        assert before + rest[..free] == before + [rest[0]] + rest[1..][..free - 1];
      }
    }
  }

  lemma FindFirst(t: text, c: byte)
    requires t != [] && t[0] == c
    ensures Find(t, 0, c) == 0
  {
  }

  lemma PlainStep(r: Rx, x: byte, capacity: nat, before: text)
    requires r.state == 5 && |r.pkt| <= capacity == r.room && r.sum == Sum(before) && x != DOLLAR
    ensures Step(r, x, capacity) == More(if x == HASH then r.(state := 8)
                                         else if |r.pkt| == capacity then r
                                         else r.(pkt := r.pkt + [x], sum := Sum(before + [x])))
  {
    hide Sum;
    SumSnoc(before, [], x);
    assert before + ([] + [x]) == before + [x] && before + [] == before;
  }

  /** A plain packet, from its fifth character on. */
  lemma {:induction false} PlainDecides(r: Rx, rest: text, capacity: nat, before: text)
    requires r.state == 5 && |r.pkt| <= capacity == r.room && r.check == 0 && r.sum == Sum(before) && FreeOfDollar(rest)
    ensures Run(r, rest, capacity).0.Overrun? <==> PlainOverflows(rest, capacity - |r.pkt|, before)
    decreases |rest|
  {
    hide Step, Sum, PlainOverflows, SumMatches;
    if rest == [] {
      NothingOverflows(capacity - |r.pkt|, before);
    } else {
      PlainStep(r, rest[0], capacity, before);
      var q := Step(r, rest[0], capacity).rx;
      RunStep(r, rest, capacity, q);
      if rest[0] == HASH {
        HashDecides(q, rest, capacity, before);
      } else {
        PlainNext(rest, capacity - |r.pkt|, before);
        PlainDecides(q, rest[1..], capacity, if |r.pkt| == capacity then before else before + [rest[0]]);
      }
    }
  }

  lemma NothingOverflows(free: nat, before: text)
    ensures !PlainOverflows([], free, before)
  {
  }

  lemma HashDecides(q: Rx, rest: text, capacity: nat, before: text)
    requires q.state == 8 && |q.pkt| <= capacity && q.check == 0 && q.sum == Sum(before)
    requires rest != [] && rest[0] == HASH && FreeOfDollar(rest)
    ensures Run(q, rest[1..], capacity).0.Overrun? <==> PlainOverflows(rest, capacity - |q.pkt|, before)
  {
    hide Sum, Run, SumMatches;
    FindFirst(rest, HASH);
    if |q.pkt| == capacity {
      CheckDecides(q, rest[1..], capacity);
      assert before + rest[..0] == before;
    } else {
      SafeRun(q, rest[1..], capacity);
    }
  }

  /** The header of a binary packet, from the character behind the one that told. */
  lemma {:induction false} HeaderDecides(r: Rx, rest: text, capacity: nat)
    requires r.state == 6 && |r.pkt| <= capacity && r.room < capacity && FreeOfDollar(rest)
    ensures Run(r, rest, capacity).0.Overrun? <==> HeaderOverflows(rest, capacity - |r.pkt|)
    decreases |rest|
  {
    if rest != [] {
      var o := Step(r, rest[0], capacity);
      if |r.pkt| == capacity {
        RunStops(r, rest, capacity, Overrun);
      } else {
        RunStep(r, rest, capacity, o.rx);
        if rest[0] == COLON {
          SafeRun(o.rx, rest[1..], capacity);
        } else {
          HeaderDecides(o.rx, rest[1..], capacity);
          HeaderNext(rest, capacity - |r.pkt|);
        }
      }
    }
  }

  lemma HeaderNext(rest: text, free: nat)
    requires rest != [] && rest[0] != COLON && free > 0
    ensures HeaderOverflows(rest, free) <==> HeaderOverflows(rest[1..], free - 1)
  {
    if HeaderOverflows(rest[1..], free - 1) {
      forall i | 0 <= i < free
        ensures rest[i] != COLON
      {
        if i > 0 {
          assert rest[i] == rest[1..][i - 1];
        }
      }
    }
  }

  /** The character that tells what kind of packet it is. */
  lemma TextDecides(r: Rx, t: text, rest: text, capacity: nat)
    requires r.state == 4 && capacity > 6 && r.room == capacity && r.check == 0
    requires |t| == Telling(r.tag) - 1 && r.pkt == t && r.sum == Sum(r.tag + t) && FreeOfDollar(rest)
    requires forall i :: 0 <= i < |t| ==> t[i] != HASH
    ensures Run(r, rest, capacity).0.Overrun? <==> TextOverflows(r.tag, t + rest, capacity)
  {
    hide Sum, HeaderOverflows, PlainOverflows;
    if rest != [] {
      var x := rest[0];
      var q := Step(r, x, capacity).rx;
      FourthRoom(r, x, capacity);
      RunStep(r, rest, capacity, q);
      var all := t + rest;
      if x == HASH {
        SafeRun(q, rest[1..], capacity);
        assert all[|t|] == HASH;
      } else {
        var k := Telling(r.tag);
        assert all[..k] == t + [x] && all[k..] == rest[1..] && all[0] == (t + [x])[0];
        SumSnoc(r.tag, t, x);
        if q.state == 6 {
          HeaderDecides(q, rest[1..], capacity);
        } else {
          PlainDecides(q, rest[1..], capacity, r.tag + (t + [x]));
        }
      }
    }
  }

  lemma FourthRoom(r: Rx, x: byte, capacity: nat)
    requires r.state == 4 && capacity > 6 && r.room == capacity && |r.pkt| <= 3 && x != DOLLAR
    ensures Step(r, x, capacity).More?
  {
  }

  /** The first characters of a packet, up to the third. */
  lemma StartDecides(body: text, n: nat, bufLen: nat)
    requires n <= 3 && n <= |body| && bufLen > 6 && FreeOfDollar(body)
    requires Ordinary(body[..n], n)
    ensures Run(Got([], 0, bufLen), body, bufLen) == Run(Got(body[..n], n, bufLen), body[n..], bufLen)
  {
    hide Step, Got;
    var p, rest := body[..n], body[n..];
    EmptyGot(p, bufLen);
    OrdinaryRun(p, 0, n, rest, bufLen);
    assert p[0..] + rest == body && p[n..] + rest == rest;
  }

  lemma IdDecides(body: text, bufLen: nat)
    requires bufLen > 6 && FreeOfDollar(body) && HasId(body)
    ensures Run(Got([], 0, bufLen), body, bufLen).0.Overrun? <==> Overflows(body, bufLen)
  {
    hide Sum, TextOverflows;
    StartDecides(body, 2, bufLen);
    var tag, rest := body[..2], body[2..];
    var q := Rx(4, [], Sum(tag), 0, false, tag, bufLen);
    assert tag[..2] == tag && rest[0] == COLON && rest[1..] == body[3..] && tag + [] == tag;
    RunStep(Got(tag, 2, bufLen), rest, bufLen, q);
    TextDecides(q, [], body[3..], bufLen);
    assert [] + body[3..] == body[3..];
  }

  /** A `#` within the first three characters, or fewer than three of them. */
  lemma ShortDecides(body: text, n: nat, bufLen: nat)
    requires bufLen > 6 && FreeOfDollar(body) && n <= 2 && n <= |body| && (n < |body| ==> body[n] == HASH)
    requires forall i :: 0 <= i < n ==> body[i] != HASH
    ensures !Run(Got([], 0, bufLen), body, bufLen).0.Overrun? && !Overflows(body, bufLen)
  {
    hide Sum, HeaderOverflows, PlainOverflows;
    StartDecides(body, n, bufLen);
    var p, rest := body[..n], body[n..];
    if n < |body| {
      var q := Got(p, n, bufLen).(state := 8);
      assert p[..n] == p;
      RunStep(Got(p, n, bufLen), rest, bufLen, q);
      SafeRun(q, rest[1..], bufLen);
    }
  }

  lemma PlainStartDecides(body: text, bufLen: nat)
    requires bufLen > 6 && FreeOfDollar(body) && |body| >= 3 && !HasId(body)
    requires forall i :: 0 <= i < 3 ==> body[i] != HASH
    ensures Run(Got([], 0, bufLen), body, bufLen).0.Overrun? <==> Overflows(body, bufLen)
  {
    hide Sum, TextOverflows;
    StartDecides(body, 3, bufLen);
    var p, rest := body[..3], body[3..];
    assert p[..3] == p && [] + p == p && p + rest == body;
    TextDecides(Got(p, 3, bufLen), p, rest, bufLen);
  }

  /**
   One frame, behind junk and with no `$` in it, is stored outside the buffer exactly when it is an
   X packet whose header is longer than the buffer, or a plain packet that fills the buffer to the
   last byte and carries the right digits.
   */
  lemma OverrunsExactly(junk: text, body: text, bufLen: nat)
    requires bufLen > 6 && Junk(junk) && FreeOfDollar(body)
    ensures Run(Idle(bufLen), junk + ([DOLLAR] + body), bufLen).0.Overrun? <==> Overflows(body, bufLen)
  {
    hide Run, Got, Overflows;
    FrameStarts(junk, body, bufLen);
    if HasId(body) {
      IdDecides(body, bufLen);
    } else if |body| >= 1 && body[0] == HASH {
      ShortDecides(body, 0, bufLen);
    } else if |body| >= 2 && body[1] == HASH {
      ShortDecides(body, 1, bufLen);
    } else if |body| >= 3 && body[2] == HASH {
      ShortDecides(body, 2, bufLen);
    } else if |body| < 3 {
      ShortDecides(body, |body|, bufLen);
    } else {
      PlainStartDecides(body, bufLen);
    }
  }

  function Zeros(n: nat): (t: text)
    ensures |t| == n && forall i :: 0 <= i < n ==> t[i] == '0' as int
  {
    seq(n, _ => '0' as int)
  }

  /** An input that does it: `$X` and as many digits as the buffer has bytes. */
  lemma LongHeaderOverruns(bufLen: nat)
    requires bufLen > 6
    ensures Run(Idle(bufLen), [] + ([DOLLAR] + ([BIG_X] + Zeros(bufLen))), bufLen).0.Overrun?
  {
    hide Run;
    OverrunsExactly([], [BIG_X] + Zeros(bufLen), bufLen);
  }

  // -------------------------------------------------------------- Never, in many frames

  /** Characters since the last `$`, which counts as one. */
  function Since(c: text): nat {
    if c == [] then 0
    else
      var n := |c| - 1;
      if c[n] == DOLLAR then 1 else if Since(c[..n]) == 0 then 0 else Since(c[..n]) + 1
  }

  lemma SinceSnoc(c: text, x: byte)
    ensures Since(c + [x]) == if x == DOLLAR then 1 else if Since(c) == 0 then 0 else Since(c) + 1
  {
    assert (c + [x])[..|c|] == c;
  }

  /** At no point have n characters come since the last `$`. */
  predicate Terse(c: text, input: text, n: nat) {
    forall i :: 0 <= i <= |input| ==> Since(c + input[..i]) < n
  }

  /** The receiver has stored no more than came since the `$`, or stopped for lack of room. */
  predicate Contained(r: Rx, since: nat, dollars: nat, bufLen: nat) {
    && r.state <= 9 && r.room <= bufLen && r.room + dollars >= bufLen + (if 1 <= r.state <= 5 then 1 else 0)
    && |r.pkt| <= bufLen && (1 <= r.state <= 6 ==> |r.pkt| <= since) && (r.state != 0 ==> since > 0)
    && (r.state == 6 || r.state == 7 ==> r.room < bufLen)
    && (r.state >= 8 ==> |r.pkt| < bufLen)
  }

  lemma ContainedAct(r: Rx, x: byte, since: nat, since': nat, dollars: nat, bufLen: nat)
    requires Contained(r, since, dollars, bufLen) && r.state != 0 && since < since' < bufLen && dollars <= bufLen
    ensures var o := Act(r, x);
            && (o.More? ==> Contained(o.rx, since', dollars, bufLen)) && (o.Packet? ==> |o.data| < bufLen)
            && !o.Overrun?
  {
    hide Nibble, Digit, Flip;
  }

  lemma ContainedWait(r: Rx, x: byte, since: nat, since': nat, dollars: nat, bufLen: nat)
    requires Contained(r, since, dollars, bufLen) && r.state == 0 && (x == DOLLAR ==> since' > 0)
    ensures var o := Act(r, x);
            && (o.More? ==> Contained(o.rx, since', dollars + if x == DOLLAR then 1 else 0, bufLen))
            && !o.Packet? && !o.Overrun?
  {
  }

  lemma ContainedStep(r: Rx, x: byte, c: text, bufLen: nat)
    requires Contained(r, Since(c), Dollars(c), bufLen) && bufLen > 6
    requires Since(c + [x]) < bufLen && Dollars(c + [x]) <= bufLen
    ensures var o := Step(r, x, bufLen);
            !o.Overrun? && (o.More? ==> Contained(o.rx, Since(c + [x]), Dollars(c + [x]), bufLen))
  {
    hide Act, Since, Dollars;
    SinceSnoc(c, x);
    DollarsSnoc(c, x);
    if r.state == 0 {
      ContainedWait(r, x, Since(c), Since(c + [x]), Dollars(c), bufLen);
    } else if x == DOLLAR {
      RestartsContained(r, x, Dollars(c + [x]), bufLen);
    } else {
      ContainedGrows(r, Since(c), Dollars(c), bufLen);
      ContainedAct(r, x, Since(c), Since(c + [x]), Dollars(c), bufLen);
    }
  }

  lemma RestartsContained(r: Rx, x: byte, dollars: nat, bufLen: nat)
    requires r.room <= bufLen && r.room + dollars > bufLen > 6 && x == DOLLAR
    ensures var o := Act(Restart(r), x); o.More? && Contained(o.rx, 1, dollars, bufLen)
  {
  }

  lemma ContainedGrows(r: Rx, since: nat, dollars: nat, bufLen: nat)
    requires Contained(r, since, dollars, bufLen)
    ensures r.state != 0 ==> since > 0
  {
  }

  lemma {:induction false} ContainedRun(r: Rx, c: text, input: text, bufLen: nat)
    requires Contained(r, Since(c), Dollars(c), bufLen) && bufLen > 6
    requires Terse(c, input, bufLen) && Dollars(c + input) <= bufLen
    ensures !Run(r, input, bufLen).0.Overrun?
    decreases |input|
  {
    hide Step, Contained, Since, Dollars;
    if input != [] {
      var x := input[0];
      assert input[..1] == [x] && c + input == c + [x] + input[1..];
      DollarsAppend(c + [x], input[1..]);
      ContainedStep(r, x, c, bufLen);
      var o := Step(r, x, bufLen);
      if o.More? {
        forall i | 0 <= i <= |input[1..]|
          ensures Since(c + [x] + input[1..][..i]) < bufLen
        {
          assert c + [x] + input[1..][..i] == c + input[..i + 1];
        }
        ContainedRun(o.rx, c + [x], input[1..], bufLen);
      }
    }
  }

  /** Any number of frames, good or bad, as long as the buffer has bytes, each shorter than the buffer. */
  lemma NeverOverruns(input: text, bufLen: nat)
    requires bufLen > 6 && Terse([], input, bufLen) && Dollars(input) <= bufLen
    ensures !Run(Idle(bufLen), input, bufLen).0.Overrun?
  {
    hide Run;
    assert [] + input == input;
    ContainedRun(Idle(bufLen), [], input, bufLen);
  }
}
