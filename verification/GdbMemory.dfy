/** The M command of the GDB remote protocol (gdbproxy.c:459-496, 2079-2093). */
module GdbMemory {
  import opened Words
  import opened GdbHex

  /** A call of the target's write_mem. */
  datatype MemWrite = MemWrite(addr: nat, data: seq<byte>)

  lemma FindIs(t: text, from: nat, c: byte, k: nat)
    requires from <= k < |t| && t[k] == c && forall i :: from <= i < k ==> t[i] != c
    ensures Find(t, from, c) == k
  {
  }

  /** Address and length of `AA..A,LL..L`. */
  function Range(t: text): Option<(nat, nat)> {
    match Number(t, 16, COMMA)
    case None => None
    case Some((addr, rest)) =>
      (match Number(rest, 8, 0)
       case None => None
       case Some((len, _)) => Some((addr, len)))
  }

  /** What a packet `MAA..A,LL..L:XX..XX` asks for, if it is well formed. */
  function WriteRequest(t: text): Option<MemWrite>
    requires t != []
  {
    var k := Find(t, 1, COLON);
    if k == |t| then None
    else
      match Range(t[1..k])
      case None => None
      case Some((addr, len)) =>
        var data := Decoded(t[k + 1..], DATABYTES_MAX);
        if len <= DATABYTES_MAX && data.Some? && |data.value| == len then Some(MemWrite(addr, data.value)) else None
  }

  function HexPacket(addr: text, len: text, data: seq<byte>): text {
    ['M' as int] + addr + [COMMA] + len + [COLON] + HexOf(data)
  }

  lemma DigitsHaveNoColon(t: text, i: nat)
    requires Digits(t) && i < |t|
    ensures t[i] != COLON && t[i] != COMMA
  {
  }

  lemma RangeReads(addr: text, len: text)
    requires 0 < |addr| <= 16 && 0 < |len| <= 8 && Digits(addr) && Digits(len)
    ensures Range(addr + [COMMA] + len) == Some((HexValue(addr), HexValue(len)))
  {
    hide HexValue, Number;
    NumberReads(addr, 16, COMMA, len);
    NumberEnds(len, 8);
  }

  /** The `:` behind the length is the first one. */
  lemma FirstColon(addr: text, len: text, data: seq<byte>)
    requires Digits(addr) && Digits(len)
    ensures Find(HexPacket(addr, len, data), 1, COLON) == |addr| + |len| + 2
  {
    hide HexOf, Digits, Nibble;
    var t, k := HexPacket(addr, len, data), |addr| + |len| + 2;
    forall i | 1 <= i < k
      ensures t[i] != COLON
    {
      if i <= |addr| {
        DigitsHaveNoColon(addr, i - 1);
      } else if i > |addr| + 1 {
        DigitsHaveNoColon(len, i - |addr| - 2);
      }
    }
    FindIs(t, 1, COLON, k);
  }

  lemma PacketParts(addr: text, len: text, data: seq<byte>)
    ensures var t, k := HexPacket(addr, len, data), |addr| + |len| + 2;
            k < |t| && t[1..k] == addr + [COMMA] + len && t[k + 1..] == HexOf(data)
  {
    hide HexOf;
  }

  /** Every rendering of an address and of the length of the data is understood. */
  lemma HexPacketWrites(addr: text, len: text, data: seq<byte>)
    requires 0 < |addr| <= 16 && 0 < |len| <= 8 && Digits(addr) && Digits(len)
    requires |data| <= DATABYTES_MAX && HexValue(len) == |data|
    ensures WriteRequest(HexPacket(addr, len, data)) == Some(MemWrite(HexValue(addr), data))
  {
    hide HexValue, Number, Decoded, HexOf, Range, Find, HexPacket;
    FirstColon(addr, len, data);
    PacketParts(addr, len, data);
    RangeReads(addr, len);
    HexDecodes(data, DATABYTES_MAX);
  }

  /** Whatever asks for a write is of that form: the address, the length of the data, the data. */
  lemma RequestMeans(t: text, w: MemWrite) returns (addr: text, len: text, body: text)
    requires t != [] && WriteRequest(t) == Some(w)
    ensures t == [t[0]] + addr + [',' as int] + len + [':' as int] + body
    ensures |addr| <= 16 && 0 < |len| <= 8 && Digits(addr) && Digits(len)
    ensures HexValue(addr) == w.addr && HexValue(len) == |w.data| <= DATABYTES_MAX
    ensures Decoded(body, DATABYTES_MAX) == Some(w.data)
  {
    hide HexValue, Decoded, Nibble, Find, Range, Digits;
    var k := Find(t, 1, COLON);
    addr, len := RangeMeans(t[1..k]);
    body := t[k + 1..];
    assert t == [t[0]] + t[1..k] + [COLON] + body;
  }

  lemma RangeMeans(t: text) returns (addr: text, len: text)
    requires Range(t).Some?
    ensures t == addr + [',' as int] + len && |addr| <= 16 && 0 < |len| <= 8 && Digits(addr) && Digits(len)
    ensures Range(t) == Some((HexValue(addr), HexValue(len)))
  {
    hide HexValue, Number, Nibble;
    SignsAreNoDigits();
    NumberMeans(t, 16, COMMA);
    var (a, rest) := Number(t, 16, COMMA).value;
    NumberMeans(rest, 8, 0);
    addr, len := t[..|t| - |rest| - 1], rest;
    assert rest[..|rest|] == rest;
  }

  lemma SignsAreNoDigits()
    ensures Nibble(COMMA) < 0 && Nibble(0) < 0
  {
  }

  /** `M1A,2:0fF0`: two bytes at 26. */
  lemma KnownRequest()
    ensures WriteRequest(['M' as int, '1' as int, 'A' as int, ',' as int, '2' as int, ':' as int,
                          '0' as int, 'f' as int, 'F' as int, '0' as int]) == Some(MemWrite(26, [0x0f, 0xf0]))
  {
    hide Range, Decoded;
    var t := ['M' as int, '1' as int, 'A' as int, ',' as int, '2' as int, ':' as int,
              '0' as int, 'f' as int, 'F' as int, '0' as int];
    FindIs(t, 1, COLON, 5);
    assert t[1..5] == ['1' as int, 'A' as int, ',' as int, '2' as int];
    assert t[6..] == ['0' as int, 'f' as int, 'F' as int, '0' as int];
    KnownRange();
    KnownData();
  }

  lemma KnownRange()
    ensures Range(['1' as int, 'A' as int, ',' as int, '2' as int]) == Some((26, 2))
  {
    hide Number, Nibble, Digits, HexValue;
    var addr, len := ['1' as int, 'A' as int], ['2' as int];
    TwoDigits('1' as int, 'A' as int, 1, 10);
    OneDigit('2' as int, 2);
    assert addr + [COMMA] + len == ['1' as int, 'A' as int, ',' as int, '2' as int];
    RangeReads(addr, len);
  }

  predicate Shows(c: byte, n: nat) {
    n < 16 && (c == "0123456789abcdef"[n] as int || c == "0123456789ABCDEF"[n] as int)
  }

  lemma OneDigit(c: byte, n: nat)
    requires Shows(c, n)
    ensures Nibble(c) == n && Digits([c]) && HexValue([c]) == n
  {
    hide Nibble;
    NibbleIs(c, n);
    assert [c][..0] == [] && HexValue([]) == 0;
  }

  lemma TwoDigits(c: byte, d: byte, m: nat, n: nat)
    requires Shows(c, m) && Shows(d, n)
    ensures Digits([c, d]) && HexValue([c, d]) == 16 * m + n
  {
    hide Nibble, Shows;
    OneDigit(c, m);
    OneDigit(d, n);
    assert [c, d][..1] == [c];
  }

  lemma KnownData()
    ensures Decoded(['0' as int, 'f' as int, 'F' as int, '0' as int], DATABYTES_MAX) == Some([0x0f, 0xf0])
  {
    hide Nibble, Pairs;
    var t := ['0' as int, 'f' as int, 'F' as int, '0' as int];
    AddPair([], [], '0' as int, 'f' as int, 0, 15);
    assert [] + ['0' as int, 'f' as int] == ['0' as int, 'f' as int] && [] + [0x0f] == [0x0f];
    AddPair(['0' as int, 'f' as int], [0x0f], 'F' as int, '0' as int, 15, 0);
    assert t[..4] == t == ['0' as int, 'f' as int] + ['F' as int, '0' as int];
    assert [0x0f] + [0xf0] == [0x0f, 0xf0];
  }

  lemma AddPair(t: text, bytes: seq<byte>, c: byte, d: byte, m: nat, n: nat)
    requires t == [] == bytes || (|t| % 2 == 0 && Pairs(t) == Some(bytes))
    requires Shows(c, m) && Shows(d, n)
    ensures Pairs(t + [c, d]) == Some(bytes + [16 * m + n])
  {
    hide Nibble, Shows;
    OneDigit(c, m);
    OneDigit(d, n);
    PairsSnoc(t, c, d, 16 * m + n);
  }

  lemma {:induction false} HexHasNoNul(data: seq<byte>, i: nat)
    requires i < 2 * |data|
    ensures HexOf(data)[i] != 0
  {
    var n := |data| - 1;
    if i < 2 * n {
      HexHasNoNul(data[..n], i);
    } else {
      DigitNibble(data[n] / 16);
      DigitNibble(data[n] % 16);
    }
  }

  /** An M packet is a string as it stands. */
  lemma HexPacketIsString(addr: text, len: text, data: seq<byte>)
    requires Digits(addr) && Digits(len)
    ensures CString(HexPacket(addr, len, data)) == HexPacket(addr, len, data)
  {
    hide HexOf, CString;
    var t, k := HexPacket(addr, len, data), |addr| + |len| + 3;
    forall i | 0 <= i < |t|
      ensures t[i] != 0
    {
      if 1 <= i <= |addr| {
        assert t[i] == addr[i - 1];
      } else if |addr| + 1 < i < k - 1 {
        assert t[i] == len[i - |addr| - 2];
      } else if i >= k {
        HexHasNoNul(data, i - k);
      }
    }
    NulFree(t);
  }

  method DecodeMem(t: text) returns (r: Option<(nat, nat)>)
    ensures r == Range(t)
  {
    var addr := DecodeUint(t, 16, COMMA);
    if addr.None? {
      return None;
    }
    var len := DecodeUint(addr.value.1, 8, 0);
    if len.None? {
      return None;
    }
    return Some((addr.value.0, len.value.0));
  }

  /** handle_write_memory_command: the call it makes, or None when it answers with an error. */
  method HandleWriteMemory(packet: text) returns (call: Option<MemWrite>)
    requires packet != [] && packet[0] != 0
    ensures call == WriteRequest(CString(packet))
  {
    hide Number, Decoded, Range;
    var n := StrLen(packet);
    var inBuf := packet[..n];
    var cp := 1;
    while cp < |inBuf| && inBuf[cp] != COLON
      invariant 1 <= cp <= |inBuf| && Find(inBuf, 1, COLON) == Find(inBuf, cp, COLON)
    {
      cp := cp + 1;
    }
    if cp == |inBuf| {
      return None;
    }
    var range := DecodeMem(inBuf[1..cp]);
    if range.None? || range.value.1 > DATABYTES_MAX {
      return None;
    }
    var dataBuf := new byte[DATABYTES_MAX](_ => 0);
    var ok, len1 := DecodeData(inBuf[cp + 1..], dataBuf);
    if !ok || range.value.1 != len1 {
      return None;
    }
    return Some(MemWrite(range.value.0, dataBuf[..len1]));
  }
}
