/**
 The S-record and Intel HEX readers of mcprog.c:127-320: what a line means, what is
 loaded, and that both formats carry the same image.
 */
module ImageFile {
  import opened Words

  type text = seq<byte>

  const MEMORY_SIZE: nat := 0x100_0000
  const NEWLINE: byte := 10
  const BIG_S: byte := 'S' as int
  const COLON: byte := ':' as int
  const DIGIT_0: byte := '0' as int

  // ------------------------------------------------------------- Hexadecimal

  predicate IsXDigit(c: byte) {
    '0' as int <= c <= '9' as int || 'a' as int <= c <= 'f' as int || 'A' as int <= c <= 'F' as int
  }

  /** NIBBLE: anything but a digit is taken for a letter. */
  function DigitValue(c: byte): int {
    if '0' as int <= c <= '9' as int then c - '0' as int
    else (if 'A' as int <= c <= 'Z' as int then c + 32 else c) + 10 - 'a' as int
  }

  /** A line as fgets leaves it: its characters, a newline, a NUL. */
  function Char(line: text, i: nat): byte
    requires i < |line| + 2
  {
    if i < |line| then line[i] else if i == |line| then NEWLINE else 0
  }

  /** HEX, as stored in an unsigned char */
  function Hex(line: text, i: nat): byte
    requires i + 1 < |line| + 2
  {
    (DigitValue(Char(line, i)) * 16 + DigitValue(Char(line, i + 1))) % 256
  }

  function Digit(n: nat): byte
    requires n < 16
  {
    "0123456789ABCDEF"[n] as int
  }

  function UpperHex(b: byte): (t: text)
    ensures |t| == 2
  {
    [Digit(b / 16), Digit(b % 16)]
  }

  lemma DigitIs(n: nat)
    requires n < 16
    ensures DigitValue(Digit(n)) == n && IsXDigit(Digit(n))
  {
  }

  /** The digits of either case, and no other characters. */
  lemma DigitsAre(c: byte, n: nat)
    requires n < 16
    ensures IsXDigit(c) && DigitValue(c) == n <==> c == "0123456789abcdef"[n] as int || c == "0123456789ABCDEF"[n] as int
    ensures IsXDigit(c) ==> 0 <= DigitValue(c) < 16
  {
  }

  lemma HexReads(line: text, i: nat, b: byte)
    requires i + 2 <= |line| && line[i..i + 2] == UpperHex(b)
    ensures Hex(line, i) == b && IsXDigit(line[i]) && IsXDigit(line[i + 1])
  {
    hide DigitValue, Digit, IsXDigit;
    assert line[i] == line[i..i + 2][0] && line[i + 1] == line[i..i + 2][1];
    DigitIs(b / 16);
    DigitIs(b % 16);
  }

  function HexText(data: seq<byte>): (t: text)
    ensures |t| == 2 * |data|
  {
    if data == [] then [] else UpperHex(data[0]) + HexText(data[1..])
  }

  /** The n bytes written from character i of a line on. */
  function BytesAt(line: text, i: nat, n: nat): (d: seq<byte>)
    requires i + 2 * n <= |line| + 2
    ensures |d| == n
    decreases n
  {
    if n == 0 then [] else [Hex(line, i)] + BytesAt(line, i + 2, n - 1)
  }

  lemma {:induction false} BytesRead(line: text, i: nat, data: seq<byte>)
    requires i + 2 * |data| <= |line| && line[i..i + 2 * |data|] == HexText(data)
    ensures BytesAt(line, i, |data|) == data
    decreases |data|
  {
    if data != [] {
      hide Hex, UpperHex, Char;
      var t := line[i..i + 2 * |data|];
      assert line[i..i + 2] == t[..2] && line[i + 2..i + 2 * |data|] == t[2..];
      assert t[2..] == HexText(data[1..]);
      HexReads(line, i, data[0]);
      BytesRead(line, i + 2, data[1..]);
    }
  }

  // ------------------------------------------------------------------ Loading

  /** Memory read so far: base 0 means that none has been chosen. */
  datatype Image = Image(bytes: seq<byte>, base: word, len: nat)

  /** Unsafe: characters or array elements outside the line or the record buffer are used. */
  datatype Outcome = Reading(image: Image) | Finished(image: Image) | Refused | Unsafe

  /** What a line says.  A data record announces `count` bytes and holds those of them that are in the line. */
  datatype Record = Blank | Ignored | Last | Foreign | Wrong | Beyond | High(high: word)
                  | Data(address: word, count: int, data: seq<byte>)

  /** Loading a data record.  The range check is in unsigned arithmetic. */
  function Placed(m: Image, address: word, count: int, data: seq<byte>): Outcome
    requires |m.bytes| == MEMORY_SIZE
  {
    var base := if m.base == 0 then address else m.base;
    if address < base then Refused
    else
      var at := address - base;
      if (at + count) % WORDS > MEMORY_SIZE then Refused
      else if count > 0 && (at + count > MEMORY_SIZE || |data| != count) then Unsafe
      else
        var end := if count > 0 then at + count else at;
        var bytes := if count > 0 then m.bytes[..at] + data + m.bytes[at + count..] else m.bytes;
        Reading(Image(bytes, base, if m.len < end then end else m.len))
  }

  function Apply(m: Image, r: Record): (o: Outcome)
    requires |m.bytes| == MEMORY_SIZE
    ensures o.Reading? || o.Finished? ==> |o.image.bytes| == MEMORY_SIZE
  {
    match r
    case Blank => Reading(m)
    case Ignored => Reading(m)
    case High(_) => Reading(m)
    case Last => Finished(m)
    case Foreign => if m.len == 0 then Finished(m) else Refused
    case Wrong => Refused
    case Beyond => Unsafe
    case Data(address, count, data) => Placed(m, address, count, data)
  }

  /** Most significant byte first. */
  function Number(d: seq<byte>): nat {
    if d == [] then 0 else Number(d[..|d| - 1]) * 256 + d[|d| - 1]
  }

  function NumberBytes(a: nat, n: nat): (d: seq<byte>)
    ensures |d| == n
  {
    if n == 0 then [] else NumberBytes(a / 256, n - 1) + [a % 256]
  }

  function Limit(n: nat): nat { if n == 0 then 1 else 256 * Limit(n - 1) }

  lemma {:induction false} NumberIs(a: nat, n: nat)
    requires a < Limit(n)
    ensures Number(NumberBytes(a, n)) == a
  {
    if n > 0 {
      NumberIs(a / 256, n - 1);
      assert NumberBytes(a, n)[..n - 1] == NumberBytes(a / 256, n - 1);
    }
  }

  // ------------------------------------------------------------------ S-records

  /** Length of the address in an S1, S2 or S3 record. */
  function AddressSize(kind: byte): nat {
    if kind == DIGIT_0 + 1 then 2 else if kind == DIGIT_0 + 2 then 3 else if kind == DIGIT_0 + 3 then 4 else 0
  }

  function SrecRecord(line: text): Record {
    if line == [] then Blank
    else if line[0] != BIG_S then Foreign
    else
      var kind := Char(line, 1);
      if DIGIT_0 + 7 <= kind <= DIGIT_0 + 9 then Last
      else if |line| < 4 || !IsXDigit(line[2]) || !IsXDigit(line[3]) then Wrong
      else
        var n := AddressSize(kind);
        if n == 0 then Ignored
        else if 4 + 2 * n > |line| + 2 then Beyond
        else
          var address, count := Number(BytesAt(line, 4, n)) % WORDS, Hex(line, 2) - 1 - n;
          Data(address, count,
               if count > 0 && 4 + 2 * n + 2 * count <= |line| + 2 then BytesAt(line, 4 + 2 * n, count) else [])
  }

  function SrecAll(m: Image, lines: seq<text>): Outcome
    requires |m.bytes| == MEMORY_SIZE
    decreases |lines|
  {
    if lines == [] then Finished(m)
    else
      var o := Apply(m, SrecRecord(lines[0]));
      if o.Reading? then SrecAll(o.image, lines[1..]) else o
  }

  // ------------------------------------------------------------------ Intel HEX

  function Total(d: seq<byte>): nat {
    if d == [] then 0 else Total(d[..|d| - 1]) + d[|d| - 1]
  }

  function Pair(high: byte, low: byte): (v: word)
    ensures v < 0x1_0000
  {
    high * 0x100 + low
  }

  /** high << 16 | low */
  function Joined(high: word, low: word): word
    requires high < 0x1_0000 && low < 0x1_0000
  {
    high * 0x1_0000 + low
  }

  /** The two checksum bytes agree. */
  predicate SumOk(data: seq<byte>, kind: byte, address: word, checksum: byte) {
    (Total(data) + kind + |data| + address % 0x100 + address / 0x100 % 0x100) % 256 == (256 - checksum) % 256
  }

  function HexRecord(line: text, high: word): (r: Record)
    requires high < 0x1_0000
    ensures r.High? ==> r.high < 0x1_0000
  {
    if line == [] then Blank
    else if line[0] != COLON then Foreign
    else if |line| < 9 || !(forall i :: 1 <= i < 9 ==> IsXDigit(line[i])) then Wrong
    else HexFields(line, Hex(line, 7), Hex(line, 1), Joined(high, Pair(Hex(line, 3), Hex(line, 5))))
  }

  function HexFields(line: text, kind: byte, bytes: byte, address: word): (r: Record)
    requires |line| >= 9
    ensures r.High? ==> r.high < 0x1_0000
  {
    if kind == 1 then Last
    else if kind == 5 then Ignored
    else if bytes % 2 == 1 || |line| + 1 < bytes * 2 + 11 || address % 4 != 0 then Wrong
    else if bytes > 16 then Beyond
    else
      var data := BytesAt(line, 9, bytes);
      if !SumOk(data, kind, address, Hex(line, 9 + 2 * bytes)) then Wrong
      else if kind == 4 then (if bytes != 2 then Wrong else High(Pair(data[0], data[1])))
      else if kind != 0 then Wrong
      else Data(address, bytes, data)
  }

  function HexAll(m: Image, high: word, lines: seq<text>): Outcome
    requires |m.bytes| == MEMORY_SIZE && high < 0x1_0000
    decreases |lines|
  {
    if lines == [] then Finished(m)
    else
      var r := HexRecord(lines[0], high);
      var o := Apply(m, r);
      if !o.Reading? then o
      else HexAll(o.image, if r.High? then r.high else high, lines[1..])
  }

  // ---------------------------------------------------------- Sparse images as text

  /** Some bytes at an address. */
  datatype Chunk = Chunk(address: word, data: seq<byte>)

  /** The chunks put in memory one after the other. */
  function Load(m: Image, cs: seq<Chunk>): Outcome
    requires |m.bytes| == MEMORY_SIZE
    decreases |cs|
  {
    if cs == [] then Finished(m)
    else
      var o := Placed(m, cs[0].address, |cs[0].data|, cs[0].data);
      if o.Reading? then Load(o.image, cs[1..]) else o
  }

  /** An S record with an address of n bytes; the reader ignores its checksum. */
  function SrecLine(c: Chunk, n: nat, checksum: byte): text
    requires 2 <= n <= 4 && |c.data| + n < 255
  {
    [BIG_S, DIGIT_0 + n - 1] + UpperHex(|c.data| + n + 1) + HexText(NumberBytes(c.address, n)) + HexText(c.data)
    + UpperHex(checksum)
  }

  lemma SrecLineParts(c: Chunk, n: nat, checksum: byte)
    requires 2 <= n <= 4 && |c.data| + n < 255
    ensures var line := SrecLine(c, n, checksum);
            && |line| == 6 + 2 * n + 2 * |c.data| && line[0] == BIG_S && line[1] == DIGIT_0 + n - 1
            && line[2..4] == UpperHex(|c.data| + n + 1)
            && line[4..4 + 2 * n] == HexText(NumberBytes(c.address, n))
            && line[4 + 2 * n..4 + 2 * n + 2 * |c.data|] == HexText(c.data)
  {
    hide HexText, UpperHex, NumberBytes;
  }

  /** Every S1, S2 and S3 rendering of a chunk is read as that chunk. */
  lemma SrecLineReads(c: Chunk, n: nat, checksum: byte)
    requires 2 <= n <= 4 && |c.data| + n < 255 && c.address < Limit(n)
    ensures SrecRecord(SrecLine(c, n, checksum)) == Data(c.address, |c.data|, c.data)
  {
    hide HexText, UpperHex, NumberBytes, BytesAt, Hex, Number, IsXDigit, SrecLine, Limit;
    var line := SrecLine(c, n, checksum);
    SrecLineParts(c, n, checksum);
    HexReads(line, 2, |c.data| + n + 1);
    BytesRead(line, 4, NumberBytes(c.address, n));
    NumberIs(c.address, n);
    BytesRead(line, 4 + 2 * n, c.data);
    assert Char(line, 1) == line[1];
    if c.data == [] {
      assert c.data == [];
    }
  }

  /** Any line that starts as an S record, by the digit behind the S. */
  lemma EveryKindReads(line: text)
    requires |line| >= 4 && line[0] == 'S' as int && IsXDigit(line[2]) && IsXDigit(line[3])
    ensures var r := SrecRecord(line);
            if line[1] in ['7' as int, '8' as int, '9' as int] then r == Last
            else if line[1] in ['1' as int, '2' as int, '3' as int] then
              r.Data? || (r == Beyond && |line| < 4 + 2 * (line[1] - '0' as int))
            else r == Ignored
  {
    hide Hex, Number, BytesAt, IsXDigit;
  }

  /** The data are there if the line is long enough for them, or lacks one or two characters of the last byte. */
  lemma SrecHolds(line: text)
    requires SrecRecord(line).Data?
    ensures var r, n := SrecRecord(line), line[1] - '0' as int + 1;
            && line[1] in ['1' as int, '2' as int, '3' as int] && 2 + 2 * n <= |line|
            && r.count == Hex(line, 2) - 1 - n
            && (r.count > 0 ==> if 2 + 2 * n + 2 * r.count <= |line| then |r.data| == r.count else r.data == [])
            && (r.count <= 0 ==> r.data == [])
  {
    hide Hex, Number, BytesAt, IsXDigit;
  }

  /** A line without a count is wrong, unless it ends the file; one that does not start with S is no record. */
  lemma BrokenSrec(line: text)
    requires line != []
    ensures line[0] != 'S' as int ==> SrecRecord(line) == Foreign
    ensures line[0] == 'S' as int ==> (|line| < 2 || line[1] !in ['7' as int, '8' as int, '9' as int]) ==>
              (|line| < 4 || !IsXDigit(line[2]) || !IsXDigit(line[3])) ==> SrecRecord(line) == Wrong
  {
    hide Hex, Number, BytesAt, IsXDigit;
  }

  /** A record that announces `count` bytes takes that many of those behind its address, if the line has them. */
  lemma SrecTakes(line: text, n: nat, count: int, body: seq<byte>, address: word)
    requires 2 <= n <= 4 && |line| >= 4 + 2 * n && line[..2] == ['S' as int, '0' as int + n - 1]
    requires 0 <= count + n + 1 < 256 && line[2..4] == UpperHex(count + n + 1)
    requires address < Limit(n) && line[4..4 + 2 * n] == HexText(NumberBytes(address, n))
    requires 4 + 2 * n + 2 * |body| <= |line| && line[4 + 2 * n..4 + 2 * n + 2 * |body|] == HexText(body)
    ensures count <= 0 ==> SrecRecord(line) == Data(address, count, [])
    ensures 0 < count <= |body| ==> SrecRecord(line) == Data(address, count, body[..count])
    ensures count > 0 && 2 + 2 * n + 2 * count > |line| ==> SrecRecord(line) == Data(address, count, [])
  {
    hide HexText, UpperHex, NumberBytes, BytesAt, Hex, Number, IsXDigit, Limit, SrecRecord;
    assert line[0] == line[..2][0] && line[1] == line[..2][1];
    HexReads(line, 2, count + n + 1);
    BytesRead(line, 4, NumberBytes(address, n));
    NumberIs(address, n);
    SrecFields(line, n);
    if 0 < count <= |body| {
      PrefixRead(line, 4 + 2 * n, body, count);
    }
  }

  lemma PrefixRead(line: text, at: nat, body: seq<byte>, count: nat)
    requires count <= |body| && at + 2 * |body| <= |line| && line[at..at + 2 * |body|] == HexText(body)
    ensures BytesAt(line, at, count) == body[..count]
  {
    hide BytesAt, HexText;
    HexPrefix(body, count);
    assert line[at..at + 2 * count] == line[at..at + 2 * |body|][..2 * count];
    BytesRead(line, at, body[..count]);
  }

  /** The fields of a record with an address of n bytes. */
  lemma SrecFields(line: text, n: nat)
    requires 2 <= n <= 4 && |line| >= 4 + 2 * n && line[0] == BIG_S && line[1] == DIGIT_0 + n - 1
    requires IsXDigit(line[2]) && IsXDigit(line[3])
    ensures var count := Hex(line, 2) - 1 - n;
            var there := count > 0 && 4 + 2 * n + 2 * count <= |line| + 2;
            SrecRecord(line) == Data(Number(BytesAt(line, 4, n)) % WORDS, count,
                                     if there then BytesAt(line, 4 + 2 * n, count) else [])
  {
    hide Hex, Number, BytesAt, IsXDigit;
  }

  lemma {:induction false} HexPrefix(data: seq<byte>, n: nat)
    requires n <= |data|
    ensures HexText(data)[..2 * n] == HexText(data[..n])
    decreases n
  {
    if n > 0 {
      HexPrefix(data[1..], n - 1);
      assert data[..n][1..] == data[1..][..n - 1];
    }
  }

  /** A data record that announces more than its line holds reads characters beyond the line. */
  lemma ShortSrecUnsafe(m: Image, address: word, count: int)
    requires |m.bytes| == MEMORY_SIZE && 0 < count < 256 && m.base <= address < m.base + 0x1000
    ensures Placed(m, address, count, []) == Unsafe
  {
  }

  /** A line that is no record ends an image of nothing, and breaks one that has begun. */
  lemma ForeignEnds(m: Image, line: text, rest: seq<text>, high: word)
    requires |m.bytes| == MEMORY_SIZE && high < 0x1_0000 && line != []
    ensures line[0] != 'S' as int ==>
              SrecAll(m, [line] + rest) == if m.len == 0 then Finished(m) else Refused
    ensures line[0] != ':' as int ==>
              HexAll(m, high, [line] + rest) == if m.len == 0 then Finished(m) else Refused
  {
  }

  /** Empty lines are skipped; a file may end without a terminator. */
  lemma EmptySkipped(m: Image, rest: seq<text>, high: word)
    requires |m.bytes| == MEMORY_SIZE && high < 0x1_0000
    ensures SrecAll(m, [[]] + rest) == SrecAll(m, rest) && HexAll(m, high, [[]] + rest) == HexAll(m, high, rest)
    ensures SrecAll(m, []) == Finished(m) == HexAll(m, high, [])
  {
    assert ([[]] + rest)[1..] == rest;
  }

  // ------------------------------------------------------- Every record, every checksum

  /** A record of Intel HEX, with any checksum byte. */
  function RecordLine(kind: byte, low: word, data: seq<byte>, checksum: byte): text
    requires low < 0x1_0000 && |data| < 256
  {
    [COLON] + UpperHex(|data|) + UpperHex(low / 0x100) + UpperHex(low % 0x100) + UpperHex(kind) + HexText(data)
    + UpperHex(checksum)
  }

  lemma RecordParts(kind: byte, low: word, data: seq<byte>, checksum: byte)
    requires low < 0x1_0000 && |data| < 256
    ensures var line := RecordLine(kind, low, data, checksum);
            && |line| == 11 + 2 * |data| && line[0] == COLON && line[1..3] == UpperHex(|data|)
            && line[3..5] == UpperHex(low / 0x100) && line[5..7] == UpperHex(low % 0x100) && line[7..9] == UpperHex(kind)
            && line[9..9 + 2 * |data|] == HexText(data)
            && line[9 + 2 * |data|..9 + 2 * |data| + 2] == UpperHex(checksum)
  {
    hide HexText, UpperHex;
  }

  lemma HexHeader(line: text)
    requires |line| >= 9 && IsXDigit(line[1]) && IsXDigit(line[2]) && IsXDigit(line[3]) && IsXDigit(line[4])
    requires IsXDigit(line[5]) && IsXDigit(line[6]) && IsXDigit(line[7]) && IsXDigit(line[8])
    ensures forall i :: 1 <= i < 9 ==> IsXDigit(line[i])
  {
  }

  lemma RecordFields(kind: byte, high: word, low: word, data: seq<byte>, checksum: byte)
    requires high < 0x1_0000 && low < 0x1_0000 && |data| < 256
    ensures var line := RecordLine(kind, low, data, checksum);
            && |line| == 11 + 2 * |data| && HexRecord(line, high) == HexFields(line, kind, |data|, Joined(high, low))
            && BytesAt(line, 9, |data|) == data && Hex(line, 9 + 2 * |data|) == checksum
  {
    hide HexText, UpperHex, BytesAt, Hex, IsXDigit, RecordLine, HexFields;
    var line := RecordLine(kind, low, data, checksum);
    RecordParts(kind, low, data, checksum);
    HexReads(line, 1, |data|);
    HexReads(line, 3, low / 0x100);
    HexReads(line, 5, low % 0x100);
    HexReads(line, 7, kind);
    HexReads(line, 9 + 2 * |data|, checksum);
    BytesRead(line, 9, data);
    HexHeader(line);
    assert Pair(low / 0x100, low % 0x100) == low;
  }

  /** The bytes of a record, the checksum included, add up to nothing. */
  predicate AddsUp(kind: byte, low: word, data: seq<byte>, checksum: byte) {
    (|data| + low / 0x100 + low % 0x100 + kind + Total(data) + checksum) % 256 == 0
  }

  /** What a record of any type, size and checksum is good for. */
  function Verdict(kind: byte, high: word, low: word, data: seq<byte>, checksum: byte): Record
    requires high < 0x1_0000 && low < 0x1_0000 && |data| < 256
  {
    if kind == 1 then Last
    else if kind == 5 then Ignored
    else if |data| % 2 == 1 || low % 4 != 0 then Wrong
    else if |data| > 16 then Beyond
    else if !AddsUp(kind, low, data, checksum) then Wrong
    else if kind == 0 then Data(0x1_0000 * (high as int) + low, |data|, data)
    else if kind == 4 && |data| == 2 then High(0x100 * (data[0] as int) + data[1])
    else Wrong
  }

  lemma EveryRecordReads(kind: byte, high: word, low: word, data: seq<byte>, checksum: byte)
    requires high < 0x1_0000 && low < 0x1_0000 && |data| < 256
    ensures HexRecord(RecordLine(kind, low, data, checksum), high) == Verdict(kind, high, low, data, checksum)
  {
    hide HexRecord, BytesAt, Hex, RecordLine, Total, HexFields, AddsUp, SumOk, Verdict;
    RecordFields(kind, high, low, data, checksum);
    SumsAgree(kind, high, low, data, checksum);
    FieldsDecide(RecordLine(kind, low, data, checksum), kind, high, low, data, checksum);
  }

  lemma FieldsDecide(line: text, kind: byte, high: word, low: word, data: seq<byte>, checksum: byte)
    requires high < 0x1_0000 && low < 0x1_0000 && |data| < 256 && |line| == 11 + 2 * |data|
    requires BytesAt(line, 9, |data|) == data && Hex(line, 9 + 2 * |data|) == checksum
    requires SumOk(data, kind, Joined(high, low), checksum) <==> AddsUp(kind, low, data, checksum)
    ensures HexFields(line, kind, |data|, Joined(high, low)) == Verdict(kind, high, low, data, checksum)
  {
    hide BytesAt, Hex, AddsUp, SumOk, Joined;
    JoinedParts(high, low);
  }

  lemma JoinedParts(high: word, low: word)
    requires high < 0x1_0000 && low < 0x1_0000
    ensures Joined(high, low) == 0x1_0000 * (high as int) + low && Joined(high, low) % 4 == low % 4
    ensures Joined(high, low) % 0x100 == low % 0x100 && Joined(high, low) / 0x100 % 0x100 == low / 0x100
  {
    LowParts(high, low);
  }

  lemma LowParts(h: int, l: int)
    requires 0 <= l < 0x1_0000
    ensures (0x1_0000 * h + l) % 4 == l % 4
    ensures (0x1_0000 * h + l) % 0x100 == l % 0x100
    ensures (0x1_0000 * h + l) / 0x100 % 0x100 == l / 0x100
  {
    var q, r := l / 0x100, l % 0x100;
    Remainder4(0x4000 * h, l);
    Remainder256(0x100 * h + q, r);
    Remainder256(h, q);
    assert 0x1_0000 * h + l == 0x100 * (0x100 * h + q) + r;
  }

  lemma Remainder4(k: int, l: int)
    ensures (4 * k + l) % 4 == l % 4
  {
  }

  lemma Remainder256(k: int, r: int)
    requires 0 <= r < 0x100
    ensures (0x100 * k + r) / 0x100 == k && (0x100 * k + r) % 0x100 == r
  {
  }

  lemma SumsAgree(kind: byte, high: word, low: word, data: seq<byte>, checksum: byte)
    requires high < 0x1_0000 && low < 0x1_0000
    ensures SumOk(data, kind, Joined(high, low), checksum) <==> AddsUp(kind, low, data, checksum)
  {
    hide Joined, Total;
    JoinedParts(high, low);
    Cancels(Total(data) + kind + |data| + low % 0x100 + low / 0x100, checksum);
  }

  lemma Cancels(s: nat, c: byte)
    ensures s % 256 == (256 - c) % 256 <==> (s + c) % 256 == 0
  {
    var q, r := s / 256, s % 256;
    if r + c < 256 {
      Remainder256(q, r + c);
      assert s + c == 0x100 * q + (r + c);
    } else {
      Remainder256(q + 1, r + c - 256);
      assert s + c == 0x100 * (q + 1) + (r + c - 256);
    }
  }

  /** And of any line at all that is taken for data or for an address: its bytes add up. */
  lemma TakenAddsUp(line: text, high: word)
    requires high < 0x1_0000 && (HexRecord(line, high).Data? || HexRecord(line, high).High?)
    ensures 10 + 2 * Hex(line, 1) <= |line| && line[0] == ':' as int
    ensures (Hex(line, 1) + Hex(line, 3) + Hex(line, 5) + Hex(line, 7) + Total(BytesAt(line, 9, Hex(line, 1)))
             + Hex(line, 9 + 2 * Hex(line, 1))) % 256 == 0
    ensures Hex(line, 7) == if HexRecord(line, high).Data? then 0 else 4
  {
    hide Hex, BytesAt, Total, HexRecord, HexFields, SumOk, Joined, Pair;
    RecordIsFields(line, high);
    var h, l, n, kind := Hex(line, 3), Hex(line, 5), Hex(line, 1), Hex(line, 7);
    var low := Pair(h, l);
    PairParts(h, l);
    FieldsTaken(line, kind, n, Joined(high, low));
    SumsAgree(kind, high, low, BytesAt(line, 9, n), Hex(line, 9 + 2 * (n as int)));
  }

  lemma PairParts(h: byte, l: byte)
    ensures Pair(h, l) / 0x100 == h && Pair(h, l) % 0x100 == l
  {
  }

  lemma RecordIsFields(line: text, high: word)
    requires high < 0x1_0000 && (HexRecord(line, high).Data? || HexRecord(line, high).High?)
    ensures |line| >= 9 && line[0] == ':' as int
    ensures HexRecord(line, high)
         == HexFields(line, Hex(line, 7), Hex(line, 1), Joined(high, Pair(Hex(line, 3), Hex(line, 5))))
  {
    hide Hex, HexFields, IsXDigit, Joined, Pair;
  }

  lemma FieldsTaken(line: text, kind: byte, bytes: byte, address: word)
    requires |line| >= 9
    ensures var r := HexFields(line, kind, bytes, address);
            r.Data? || r.High? ==>
              && 10 + 2 * bytes <= |line| && SumOk(BytesAt(line, 9, bytes), kind, address, Hex(line, 9 + 2 * bytes))
              && kind == if r.Data? then 0 else 4
  {
    hide Hex, BytesAt, SumOk;
  }

  /** A line too short for its type, address and count is wrong, and so is one with another character there. */
  lemma BrokenHex(line: text, high: word)
    requires high < 0x1_0000 && line != [] && line[0] == ':' as int
    ensures |line| < 9 ==> HexRecord(line, high) == Wrong
    ensures |line| >= 9 && (exists i :: 1 <= i < 9 && !IsXDigit(line[i])) ==> HexRecord(line, high) == Wrong
    ensures |line| >= 9 && (forall i :: 1 <= i < 9 ==> IsXDigit(line[i])) ==>
              && (Hex(line, 7) == 1 ==> HexRecord(line, high) == Last)
              && (Hex(line, 7) == 5 ==> HexRecord(line, high) == Ignored)
  {
    hide Hex, IsXDigit, BytesAt, SumOk, Joined, Pair;
  }

  /** Nor may any of the data be missing, or more than the last digit of the checksum. */
  lemma ShortHexWrong(line: text, high: word)
    requires high < 0x1_0000 && |line| >= 9 && line[0] == ':' as int && (forall i :: 1 <= i < 9 ==> IsXDigit(line[i]))
    requires Hex(line, 7) != 1 && Hex(line, 7) != 5 && |line| < 10 + 2 * Hex(line, 1)
    ensures HexRecord(line, high) == Wrong
  {
    hide Hex, IsXDigit, Joined, Pair;
  }

  /** When only that digit is missing, the line end is taken for one. */
  lemma NewlineAsDigit(line: text, i: nat)
    requires i + 1 == |line|
    ensures Hex(line, i) == (DigitValue(line[i]) * 16 + (10 + 10 - 'a' as int)) % 256
    ensures Hex(line, i + 1) == ((10 + 10 - 'a' as int) * 16 + (0 + 10 - 'a' as int)) % 256
  {
  }

  /** A data record with a wrong checksum ends the reading, whatever follows. */
  lemma WrongSumRefused(m: Image, high: word, low: word, data: seq<byte>, checksum: byte, rest: seq<text>)
    requires |m.bytes| == MEMORY_SIZE && high < 0x1_0000 && low < 0x1_0000 && |data| <= 16
    requires !AddsUp(0, low, data, checksum)
    ensures HexAll(m, high, [RecordLine(0, low, data, checksum)] + rest) == Refused
  {
    hide HexRecord, AddsUp, RecordLine;
    EveryRecordReads(0, high, low, data, checksum);
  }

  // ----------------------------------------------------------------- Good records

  /** A record with its checksum. */
  function HexLine(kind: byte, low: word, data: seq<byte>): text
    requires low < 0x1_0000 && |data| < 256
  {
    RecordLine(kind, low, data, Checksum(kind, low, data))
  }

  function Checksum(kind: byte, low: word, data: seq<byte>): byte {
    (256 - (Total(data) + kind + |data| + low % 0x100 + low / 0x100 % 0x100) % 256) % 256
  }

  lemma ChecksumAddsUp(kind: byte, low: word, data: seq<byte>)
    requires low < 0x1_0000
    ensures AddsUp(kind, low, data, Checksum(kind, low, data))
  {
    hide Total;
    assert low / 0x100 % 0x100 == low / 0x100;
    Negates(Total(data) + kind + |data| + low % 0x100 + low / 0x100);
  }

  lemma Negates(s: nat)
    ensures (s + (256 - s % 256) % 256) % 256 == 0
  {
    var q, r := s / 256, s % 256;
    if r > 0 {
      Remainder256(q + 1, 0);
      assert s + (256 - r) == 0x100 * (q + 1) + 0;
    }
  }

  lemma HexDataReads(high: word, low: word, data: seq<byte>)
    requires high < 0x1_0000 && low < 0x1_0000 && low % 4 == 0 && |data| <= 16 && |data| % 2 == 0
    ensures HexRecord(HexLine(0, low, data), high) == Data(Joined(high, low), |data|, data)
  {
    hide HexRecord, Checksum, AddsUp, RecordLine;
    EveryRecordReads(0, high, low, data, Checksum(0, low, data));
    ChecksumAddsUp(0, low, data);
  }

  /** An extended linear address record. */
  function HighLine(high: word): text
    requires high < 0x1_0000
  {
    HexLine(4, 0, [high / 0x100, high % 0x100])
  }

  lemma HighReads(high: word, before: word)
    requires high < 0x1_0000 && before < 0x1_0000
    ensures HexRecord(HighLine(high), before) == High(high)
  {
    hide HexRecord, Checksum, AddsUp, RecordLine;
    var data := [high / 0x100, high % 0x100];
    EveryRecordReads(4, before, 0, data, Checksum(4, 0, data));
    ChecksumAddsUp(4, 0, data);
  }

  // ------------------------------------------------------ Both formats, one image

  /** Chunks both formats can carry: short records, and word-aligned addresses. */
  predicate Carried(cs: seq<Chunk>) {
    forall i :: 0 <= i < |cs| ==> |cs[i].data| <= 16 && |cs[i].data| % 2 == 0 && cs[i].address % 4 == 0
  }

  /** As S records with addresses of ns[i] bytes, and any checksums; `end` is any of the three terminators. */
  function AsSrec(cs: seq<Chunk>, ns: seq<nat>, checksums: seq<byte>, end: nat): (lines: seq<text>)
    requires Carried(cs) && |ns| == |cs| == |checksums| && 7 <= end <= 9
    requires forall i :: 0 <= i < |cs| ==> 2 <= ns[i] <= 4
    decreases |cs|
  {
    if cs == [] then [[BIG_S, DIGIT_0 + end]]
    else [SrecLine(cs[0], ns[0], checksums[0])] + AsSrec(cs[1..], ns[1..], checksums[1..], end)
  }

  /** As Intel HEX: a new upper half of the address is announced when it changes. */
  function AsHex(cs: seq<Chunk>, high: word): (lines: seq<text>)
    requires Carried(cs) && high < 0x1_0000
    decreases |cs|
  {
    if cs == [] then [HexLine(1, 0, [])]
    else
      var h, l := cs[0].address / 0x1_0000, cs[0].address % 0x1_0000;
      (if h == high then [] else [HighLine(h)]) + [HexLine(0, l, cs[0].data)] + AsHex(cs[1..], h)
  }

  /** Reading the S records loads exactly the chunks. */
  lemma {:induction false} SrecLoads(m: Image, cs: seq<Chunk>, ns: seq<nat>, checksums: seq<byte>, end: nat)
    requires |m.bytes| == MEMORY_SIZE && Carried(cs) && |ns| == |cs| == |checksums| && 7 <= end <= 9
    requires forall i :: 0 <= i < |cs| ==> 2 <= ns[i] <= 4 && cs[i].address < Limit(ns[i])
    ensures SrecAll(m, AsSrec(cs, ns, checksums, end)) == Load(m, cs)
    decreases |cs|
  {
    hide SrecRecord, SrecLine, Placed, Limit;
    var lines := AsSrec(cs, ns, checksums, end);
    if cs == [] {
      LastSrec(end);
    } else {
      var c := cs[0];
      SrecLineReads(c, ns[0], checksums[0]);
      assert lines[1..] == AsSrec(cs[1..], ns[1..], checksums[1..], end);
      var o := Placed(m, c.address, |c.data|, c.data);
      if o.Reading? {
        PlacedSize(m, c.address, |c.data|, c.data);
        SrecLoads(o.image, cs[1..], ns[1..], checksums[1..], end);
      }
    }
  }

  lemma LastSrec(end: nat)
    requires 7 <= end <= 9
    ensures SrecRecord([BIG_S, DIGIT_0 + end]) == Last
  {
  }

  lemma PlacedSize(m: Image, address: word, count: int, data: seq<byte>)
    requires |m.bytes| == MEMORY_SIZE
    ensures var o := Placed(m, address, count, data); o.Reading? ==> |o.image.bytes| == MEMORY_SIZE
  {
  }

  lemma {:induction false} SkipHigh(m: Image, high: word, h: word, rest: seq<text>)
    requires |m.bytes| == MEMORY_SIZE && high < 0x1_0000 && h < 0x1_0000
    ensures HexAll(m, high, (if h == high then [] else [HighLine(h)]) + rest) == HexAll(m, h, rest)
  {
    hide HexRecord, HighLine;
    if h == high {
      assert [] + rest == rest;
    } else {
      HighReads(h, high);
      assert ([HighLine(h)] + rest)[1..] == rest;
    }
  }

  /** Reading the Intel HEX records loads exactly the chunks. */
  lemma {:induction false} HexLoads(m: Image, cs: seq<Chunk>, high: word)
    requires |m.bytes| == MEMORY_SIZE && Carried(cs) && high < 0x1_0000
    ensures HexAll(m, high, AsHex(cs, high)) == Load(m, cs)
    decreases |cs|
  {
    hide HexRecord, HexLine, Placed;
    var lines := AsHex(cs, high);
    if cs == [] {
      LastHex(high);
    } else {
      var c := cs[0];
      var h, l := c.address / 0x1_0000, c.address % 0x1_0000;
      var rest := [HexLine(0, l, c.data)] + AsHex(cs[1..], h);
      HexDataReads(h, l, c.data);
      assert lines == (if h == high then [] else [HighLine(h)]) + rest;
      SkipHigh(m, high, h, rest);
      assert rest[0] == HexLine(0, l, c.data) && rest[1..] == AsHex(cs[1..], h);
      var o := Placed(m, c.address, |c.data|, c.data);
      if o.Reading? {
        PlacedSize(m, c.address, |c.data|, c.data);
        HexLoads(o.image, cs[1..], h);
      }
    }
  }

  lemma LastHex(high: word)
    requires high < 0x1_0000
    ensures HexRecord(HexLine(1, 0, []), high) == Last
  {
    hide HexRecord, Checksum, RecordLine;
    EveryRecordReads(1, high, 0, [], Checksum(1, 0, []));
  }

  /** Either format of an image is read as the same image. */
  lemma FormatsAgree(m: Image, cs: seq<Chunk>, ns: seq<nat>, checksums: seq<byte>, end: nat)
    requires |m.bytes| == MEMORY_SIZE && Carried(cs) && |ns| == |cs| == |checksums| && 7 <= end <= 9
    requires forall i :: 0 <= i < |cs| ==> 2 <= ns[i] <= 4 && cs[i].address < Limit(ns[i])
    ensures SrecAll(m, AsSrec(cs, ns, checksums, end)) == HexAll(m, 0, AsHex(cs, 0))
  {
    SrecLoads(m, cs, ns, checksums, end);
    HexLoads(m, cs, 0);
  }

  // ------------------------------------------------------------ What is loaded

  /** The byte a chunk leaves at address a, where `was` was before. */
  function Over(c: Chunk, a: nat, was: byte): byte {
    if c.address <= a < c.address + |c.data| then c.data[a - c.address] else was
  }

  function ByteAt(cs: seq<Chunk>, a: nat, was: byte): byte
    decreases |cs|
  {
    if cs == [] then was else ByteAt(cs[1..], a, Over(cs[0], a, was))
  }

  /** The furthest end of the chunks, counted from base. */
  function Furthest(cs: seq<Chunk>, base: word, len: nat): nat
    decreases |cs|
  {
    if cs == [] then len
    else
      var end := cs[0].address + |cs[0].data| - base;
      Furthest(cs[1..], base, if len < end then end else len)
  }

  predicate InRange(cs: seq<Chunk>, base: word) {
    forall i :: 0 <= i < |cs| ==> base <= cs[i].address && cs[i].address - base + |cs[i].data| <= MEMORY_SIZE
  }

  lemma PlacedMeans(m: Image, c: Chunk, base: word)
    requires |m.bytes| == MEMORY_SIZE && base == (if m.base == 0 then c.address else m.base)
    requires base <= c.address && c.address - base + |c.data| <= MEMORY_SIZE
    ensures var o, end := Placed(m, c.address, |c.data|, c.data), c.address + |c.data| - base;
            && o.Reading? && |o.image.bytes| == MEMORY_SIZE && o.image.base == base
            && o.image.len == (if m.len < end then end else m.len)
            && forall k :: 0 <= k < MEMORY_SIZE ==> o.image.bytes[k] == Over(c, base + k, m.bytes[k])
  {
  }

  lemma PlacedExactly(m: Image, c: Chunk)
    requires |m.bytes| == MEMORY_SIZE && m.base != 0
    ensures var o := Placed(m, c.address, |c.data|, c.data);
            && !o.Finished? && (o.Reading? ==> o.image.base == m.base && |o.image.bytes| == MEMORY_SIZE)
            && (o.Reading? <==> m.base <= c.address && c.address - m.base + |c.data| <= MEMORY_SIZE)
  {
  }

  /** The chunks are loaded exactly when each lies in memory; otherwise they are refused, or spill over. */
  lemma {:induction false} LoadsExactly(m: Image, cs: seq<Chunk>)
    requires |m.bytes| == MEMORY_SIZE && m.base != 0
    ensures Load(m, cs).Finished? <==> InRange(cs, m.base)
    decreases |cs|
  {
    hide Placed;
    if cs != [] {
      PlacedExactly(m, cs[0]);
      var o := Placed(m, cs[0].address, |cs[0].data|, cs[0].data);
      assert InRange(cs, m.base) <==>
             m.base <= cs[0].address && cs[0].address - m.base + |cs[0].data| <= MEMORY_SIZE && InRange(cs[1..], m.base)
        by { RangeNext(cs, m.base); }
      if o.Reading? {
        LoadsExactly(o.image, cs[1..]);
      }
    }
  }

  lemma RangeNext(cs: seq<Chunk>, base: word)
    requires cs != []
    ensures InRange(cs, base) <==>
            base <= cs[0].address && cs[0].address - base + |cs[0].data| <= MEMORY_SIZE && InRange(cs[1..], base)
  {
    if InRange(cs[1..], base) && base <= cs[0].address && cs[0].address - base + |cs[0].data| <= MEMORY_SIZE {
      forall i | 0 <= i < |cs|
        ensures base <= cs[i].address && cs[i].address - base + |cs[i].data| <= MEMORY_SIZE
      {
        if i > 0 {
          assert cs[i] == cs[1..][i - 1];
        }
      }
    }
  }

  /** The same for an image that starts at its first chunk. */
  lemma ImageLoadsExactly(m: Image, cs: seq<Chunk>)
    requires |m.bytes| == MEMORY_SIZE && m.base == 0 && cs != [] && cs[0].address != 0
    ensures Load(m, cs).Finished? <==> InRange(cs, cs[0].address)
  {
    hide Placed, InRange;
    FirstPlaced(m, cs);
    LoadsExactly(m.(base := cs[0].address), cs);
  }

  lemma FirstPlaced(m: Image, cs: seq<Chunk>)
    requires |m.bytes| == MEMORY_SIZE && m.base == 0 && cs != []
    ensures Load(m, cs) == Load(m.(base := cs[0].address), cs)
  {
    hide Placed;
    BaseTaken(m, cs[0].address, |cs[0].data|, cs[0].data);
  }

  lemma BaseTaken(m: Image, address: word, count: int, data: seq<byte>)
    requires |m.bytes| == MEMORY_SIZE && m.base == 0
    ensures Placed(m, address, count, data) == Placed(m.(base := address), address, count, data)
  {
  }

  lemma {:induction false} LoadMeans(m: Image, cs: seq<Chunk>)
    requires |m.bytes| == MEMORY_SIZE && m.base != 0 && InRange(cs, m.base)
    ensures var o := Load(m, cs);
            && o.Finished? && |o.image.bytes| == MEMORY_SIZE && o.image.base == m.base
            && o.image.len == Furthest(cs, m.base, m.len)
            && forall k :: 0 <= k < MEMORY_SIZE ==> o.image.bytes[k] == ByteAt(cs, m.base + k, m.bytes[k])
    decreases |cs|
  {
    hide Placed;
    if cs != [] {
      var c := cs[0];
      assert InRange(cs[1..], m.base);
      PlacedMeans(m, c, m.base);
      var q := Placed(m, c.address, |c.data|, c.data).image;
      LoadMeans(q, cs[1..]);
      forall k | 0 <= k < MEMORY_SIZE
        ensures ByteAt(cs[1..], m.base + k, q.bytes[k]) == ByteAt(cs, m.base + k, m.bytes[k])
      {
      }
    }
  }

  /**
   A sparse image whose first chunk has the lowest address, other than zero, is loaded from that
   address on: every byte at its offset, the length up to the furthest end.
   */
  lemma ImageLoads(m: Image, cs: seq<Chunk>)
    requires |m.bytes| == MEMORY_SIZE && m.base == 0 && cs != [] && cs[0].address != 0 && InRange(cs, cs[0].address)
    ensures var o, base := Load(m, cs), cs[0].address;
            && o.Finished? && |o.image.bytes| == MEMORY_SIZE && o.image.base == base
            && o.image.len == Furthest(cs, base, m.len)
            && forall k :: 0 <= k < MEMORY_SIZE ==> o.image.bytes[k] == ByteAt(cs, base + k, m.bytes[k])
  {
    hide Placed;
    var c := cs[0];
    assert InRange(cs[1..], c.address);
    PlacedMeans(m, c, c.address);
    var q := Placed(m, c.address, |c.data|, c.data).image;
    LoadMeans(q, cs[1..]);
    forall k | 0 <= k < MEMORY_SIZE
      ensures ByteAt(cs[1..], c.address + k, q.bytes[k]) == ByteAt(cs, c.address + k, m.bytes[k])
    {
    }
  }

  function FirstNonzero(cs: seq<Chunk>): word
    decreases |cs|
  {
    if cs == [] then 0 else if cs[0].address != 0 then cs[0].address else FirstNonzero(cs[1..])
  }

  /** A base of zero counts as none: the base is the first address that is not zero. */
  lemma {:induction false} BaseChosen(m: Image, cs: seq<Chunk>)
    requires |m.bytes| == MEMORY_SIZE
    ensures var o := Load(m, cs);
            o.Finished? ==> o.image.base == if m.base != 0 then m.base else FirstNonzero(cs)
    decreases |cs|
  {
    if cs != [] {
      var o := Placed(m, cs[0].address, |cs[0].data|, cs[0].data);
      if o.Reading? {
        PlacedSize(m, cs[0].address, |cs[0].data|, cs[0].data);
        BaseChosen(o.image, cs[1..]);
      }
    }
  }

  /** So the image is counted from its first address exactly when that is not zero, or no other is. */
  lemma BaseIsFirst(m: Image, cs: seq<Chunk>)
    requires |m.bytes| == MEMORY_SIZE && m.base == 0 && cs != [] && Load(m, cs).Finished?
    ensures Load(m, cs).image.base == cs[0].address
       <==> cs[0].address != 0 || forall i :: 0 <= i < |cs| ==> cs[i].address == 0
  {
    BaseChosen(m, cs);
    NoneNonzero(cs);
  }

  /** Bytes at 0 and at 4: the image is counted from 4, where the second has replaced the first. */
  lemma BaseIsSecond(m: Image, x: byte, y: byte)
    requires |m.bytes| == MEMORY_SIZE && m.base == 0 && m.len == 0
    ensures Load(m, [Chunk(0, [x]), Chunk(4, [y])]) == Finished(Image([y] + m.bytes[1..], 4, 1))
  {
    var c, c' := Chunk(0, [x]), Chunk(4, [y]);
    var cs := [c, c'];
    assert cs[1..] == [c'] && [c'][1..] == [];
    var q, r := Image([x] + m.bytes[1..], 0, 1), Image([y] + m.bytes[1..], 4, 1);
    assert Placed(m, 0, 1, [x]) == Reading(q) by { ByteAtStart(m, 0, x); }
    assert Placed(q, 4, 1, [y]) == Reading(r) by {
      ByteAtStart(q, 4, y);
      assert q.bytes[1..] == m.bytes[1..];
    }
    assert Load(q, [c']) == Load(r, []) == Finished(r);
  }

  lemma ByteAtStart(m: Image, address: word, x: byte)
    requires |m.bytes| == MEMORY_SIZE && m.base == 0 && m.len <= 1
    ensures Placed(m, address, 1, [x]) == Reading(Image([x] + m.bytes[1..], address, 1))
  {
    assert m.bytes[..0] == [];
  }

  lemma {:induction false} NoneNonzero(cs: seq<Chunk>)
    ensures FirstNonzero(cs) == 0 <==> forall i :: 0 <= i < |cs| ==> cs[i].address == 0
    decreases |cs|
  {
    if cs != [] {
      NoneNonzero(cs[1..]);
      if FirstNonzero(cs) != 0 && cs[0].address == 0 {
        var i :| 0 <= i < |cs[1..]| && cs[1..][i].address != 0;
        assert cs[i + 1].address != 0;
      } else if FirstNonzero(cs) == 0 {
        forall i | 0 <= i < |cs|
          ensures cs[i].address == 0
        {
          if i > 0 {
            assert cs[1..][i - 1].address == 0;
          }
        }
      }
    }
  }

  // ------------------------------------------------------------------ The readers

  datatype Reply = Length(n: nat) | Exit | Undefined

  class Memory {
    const data: array<byte>  // memory_data
    var base: word  // memory_base

    ghost predicate Valid()
    {
      data.Length == MEMORY_SIZE
    }

    constructor ()
      ensures Valid() && base == 0 && fresh(data)
    {
      data, base := new byte[MEMORY_SIZE](_ => 0), 0;
    }

    /** The memory as an image with `len` bytes read so far. */
    function Contents(len: nat): Image
      reads this, data
    {
      Image(data[..], base, len)
    }

    /** Stores a data record. */
    method Place(address: word, count: int, record: seq<byte>, len: nat) returns (reply: Reply)
      requires Valid()
      modifies this, data
      ensures match Placed(old(Contents(len)), address, count, record)
              case Reading(m) => reply == Length(m.len) && Contents(m.len) == m
              case Refused => reply == Exit
              case Unsafe => reply == Undefined
              case Finished(_) => false
    {
      if base == 0 {
        base := address;
      }
      if address < base {
        return Exit;
      }
      var at := address - base;
      if (at + count) % WORDS > MEMORY_SIZE {
        return Exit;
      }
      if count > 0 && (at + count > MEMORY_SIZE || |record| != count) {
        return Undefined;
      }
      if count > 0 {
        Copy(at, record);
      }
      var end := if count > 0 then at + count else at;
      return Length(if len < end then end else len);
    }

    method Copy(at: nat, record: seq<byte>)
      requires at + |record| <= data.Length
      modifies data
      ensures data[..] == old(data[..at]) + record + old(data[at + |record|..])
    {
      ghost var before := data[..];
      assert before == before[..at] + record[..0] + before[at..];
      for k := 0 to |record|
        invariant data[..] == before[..at] + record[..k] + before[at + k..]
      {
        Overlay(before, at, record, k);
        data[at + k] := record[k];
      }
      assert record[..|record|] == record;
    }

    /** read_srec, on the lines of the file */
    method ReadSrec(lines: seq<text>) returns (reply: Reply)
      requires Valid()
      modifies this, data
      ensures Tells(SrecAll(old(Contents(0)), lines), reply, Contents(if reply.Length? then reply.n else 0))
    {
      hide SrecRecord, Placed;
      var len, i := 0, 0;
      ghost var first := Contents(0);
      assert lines[0..] == lines;
      while i < |lines|
        invariant i <= |lines| && SrecAll(first, lines) == SrecAll(Contents(len), lines[i..])
      {
        assert lines[i..][0] == lines[i] && lines[i..][1..] == lines[i + 1..];
        match SrecRecord(lines[i]) {
        case Blank =>
        case Ignored =>
        case High(_) =>
        case Last =>
          return Length(len);
        case Foreign =>
          return if len == 0 then Length(len) else Exit;
        case Wrong =>
          return Exit;
        case Beyond =>
          return Undefined;
        case Data(address, count, record) =>
          var r := Place(address, count, record, len);
          if !r.Length? {
            return r;
          }
          len := r.n;
        }
        i := i + 1;
      }
      assert lines[i..] == [];
      return Length(len);
    }

    /** read_hex, on the lines of the file */
    method ReadHex(lines: seq<text>) returns (reply: Reply)
      requires Valid()
      modifies this, data
      ensures Tells(HexAll(old(Contents(0)), 0, lines), reply, Contents(if reply.Length? then reply.n else 0))
    {
      hide HexRecord, Placed;
      var len, i, high := 0, 0, 0;
      ghost var first := Contents(0);
      assert lines[0..] == lines;
      while i < |lines|
        invariant i <= |lines| && 0 <= high < 0x1_0000
        invariant HexAll(first, 0, lines) == HexAll(Contents(len), high, lines[i..])
      {
        assert lines[i..][0] == lines[i] && lines[i..][1..] == lines[i + 1..];
        match HexRecord(lines[i], high) {
        case Blank =>
        case Ignored =>
        case High(h) =>
          high := h;
        case Last =>
          return Length(len);
        case Foreign =>
          return if len == 0 then Length(len) else Exit;
        case Wrong =>
          return Exit;
        case Beyond =>
          return Undefined;
        case Data(address, count, record) =>
          var r := Place(address, count, record, len);
          if !r.Length? {
            return r;
          }
          len := r.n;
        }
        i := i + 1;
      }
      assert lines[i..] == [];
      return Length(len);
    }
  }

  /** The reply reports the outcome, and memory is the image that was read. */
  ghost predicate Tells(o: Outcome, reply: Reply, m: Image) {
    match o
    case Finished(image) => reply == Length(image.len) && m == image
    case Refused => reply == Exit
    case Unsafe => reply == Undefined
    case Reading(_) => false
  }

  /** What a reader that returns says. */
  lemma TellsAll(o: Outcome, reply: Reply, m: Image)
    requires Tells(o, reply, m)
    ensures reply.Length? <==> o.Finished?
    ensures o.Finished? ==> reply.n == o.image.len && m.bytes == o.image.bytes && m.base == o.image.base
    ensures reply.Exit? <==> o.Refused?
  {
  }

  /** So a reader that meets a data record with a wrong checksum exits. */
  lemma WrongSumExits(m: Image, low: word, data: seq<byte>, checksum: byte, rest: seq<text>, reply: Reply, after: Image)
    requires |m.bytes| == MEMORY_SIZE && low < 0x1_0000 && |data| <= 16 && !AddsUp(0, low, data, checksum)
    requires Tells(HexAll(m, 0, [RecordLine(0, low, data, checksum)] + rest), reply, after)
    ensures reply == Exit
  {
    WrongSumRefused(m, 0, low, data, checksum, rest);
  }

  /** `:0400000001020305F2` adds up to 1, not to 0; with a 4 in place of the 5 it would be a good record. */
  lemma KnownSums()
    ensures !AddsUp(0, 0, [1, 2, 3, 5], 0xf2) && AddsUp(0, 0, [1, 2, 3, 4], 0xf2)
  {
    FourTotal(1, 2, 3, 5);
    FourTotal(1, 2, 3, 4);
  }

  lemma KnownDigits()
    ensures UpperHex(0) == ['0' as int, '0' as int] && UpperHex(1) == ['0' as int, '1' as int]
    ensures UpperHex(2) == ['0' as int, '2' as int] && UpperHex(3) == ['0' as int, '3' as int]
    ensures UpperHex(4) == ['0' as int, '4' as int] && UpperHex(5) == ['0' as int, '5' as int]
    ensures UpperHex(0xf2) == ['F' as int, '2' as int]
  {
  }

  lemma KnownDamaged(m: Image, rest: seq<text>)
    requires |m.bytes| == MEMORY_SIZE
    ensures var line := [':' as int, '0' as int, '4' as int, '0' as int, '0' as int, '0' as int, '0' as int,
                         '0' as int, '0' as int, '0' as int, '1' as int, '0' as int, '2' as int, '0' as int, '3' as int,
                         '0' as int, '5' as int, 'F' as int, '2' as int];
            HexAll(m, 0, [line] + rest) == Refused
  {
    hide UpperHex, HexAll, AddsUp, HexText;
    KnownSums();
    KnownDigits();
    FourHex(1, 2, 3, 5);
    var body := HexText([1, 2, 3, 5]);
    assert body == ['0' as int, '1' as int, '0' as int, '2' as int, '0' as int, '3' as int, '0' as int, '5' as int];
    assert RecordLine(0, 0, [1, 2, 3, 5], 0xf2)
        == [':' as int] + UpperHex(4) + UpperHex(0) + UpperHex(0) + UpperHex(0) + body + UpperHex(0xf2);
    assert RecordLine(0, 0, [1, 2, 3, 5], 0xf2)
        == [':' as int, '0' as int, '4' as int, '0' as int, '0' as int, '0' as int, '0' as int, '0' as int, '0' as int,
            '0' as int, '1' as int, '0' as int, '2' as int, '0' as int, '3' as int, '0' as int, '5' as int,
            'F' as int, '2' as int];
    WrongSumRefused(m, 0, 0, [1, 2, 3, 5], 0xf2, rest);
  }

  lemma FourTotal(a: byte, b: byte, c: byte, d: byte)
    ensures Total([a, b, c, d]) == a + b + c + d
  {
    hide Total;
    TotalNext([], a);
    TotalNext([a], b);
    TotalNext([a, b], c);
    TotalNext([a, b, c], d);
    assert [] + [a] == [a] && [a] + [b] == [a, b] && [a, b] + [c] == [a, b, c] && [a, b, c] + [d] == [a, b, c, d];
  }

  lemma TotalNext(d: seq<byte>, b: byte)
    ensures Total([]) == 0 && Total(d + [b]) == Total(d) + b
  {
    assert (d + [b])[..|d|] == d;
  }

  lemma FourHex(a: byte, b: byte, c: byte, d: byte)
    ensures HexText([a, b, c, d]) == UpperHex(a) + UpperHex(b) + UpperHex(c) + UpperHex(d)
  {
    hide UpperHex;
    assert [a, b, c, d][1..] == [b, c, d] && [b, c, d][1..] == [c, d] && [c, d][1..] == [d] && [d][1..] == [];
    assert HexText([d]) == UpperHex(d) + [] && HexText([c, d]) == UpperHex(c) + HexText([d]);
    assert HexText([b, c, d]) == UpperHex(b) + HexText([c, d]);
  }

  lemma Overlay(b: seq<byte>, at: nat, d: seq<byte>, k: nat)
    requires k < |d| && at + |d| <= |b|
    ensures (b[..at] + d[..k] + b[at + k..])[at + k := d[k]] == b[..at] + d[..k + 1] + b[at + k + 1..]
  {
  }
}
