/**
 The Multi-Protocol Synchronous Serial Engine of the FT2232, sections 3.4 and
 3.5 of FTDI AN_108: the commands that clock TMS bits, whole TDI bytes and TDI
 bits, least significant bit first.

 TMS keeps its level between commands.  TDO bits enter the receive register at
 the top, so a command that reads fewer than eight bits returns them in the top
 bits of a byte, above whatever was received before.
 */
module Ftdi {
  import opened Words
  import opened Bits
  import opened Serial

  // --------------------------------------------------------- Commands as bytes

  /** Tms and Data clock out the low n bits of a byte, Whole all eight of each. */
  datatype Command =
    | Tms(n: nat, load: octet, read: bool)
    | Data(n: nat, load: octet, read: bool)
    | Whole(data: seq<octet>, read: bool)

  const TMS_OUT: byte := 0x4b
  const TMS_READ: byte := 0x6b
  const BYTES_OUT: byte := 0x19
  const BYTES_READ: byte := 0x39
  const BITS_OUT: byte := 0x1b
  const BITS_READ: byte := 0x3b

  function BytesOf(d: seq<octet>): (s: seq<byte>)
    ensures |s| == |d|
  {
    seq(|d|, i requires 0 <= i < |d| => ByteOf(d[i]))
  }

  function OctetsOf(s: seq<byte>): (d: seq<octet>)
    ensures |d| == |s|
  {
    seq(|s|, i requires 0 <= i < |s| => Octet(s[i]))
  }

  lemma OctetsOfBytes(d: seq<octet>)
    ensures OctetsOf(BytesOf(d)) == d
  {
    forall i | 0 <= i < |d|
      ensures OctetsOf(BytesOf(d))[i] == d[i]
    {
      OctetOfByte(d[i]);
    }
  }

  predicate WellFormed(c: Command) {
    match c
    case Tms(n, _, _) => 1 <= n <= 7
    case Data(n, _, _) => 1 <= n <= 8
    case Whole(data, _) => 1 <= |data| <= 0x1_0000
  }

  /** The bytes of a command; counts are sent less one. */
  function Serialize(c: Command): (s: seq<byte>)
    requires WellFormed(c)
    ensures |s| >= 3
  {
    match c
    case Tms(n, b, read) => [if read then TMS_READ else TMS_OUT, n - 1, ByteOf(b)]
    case Data(n, b, read) => [if read then BITS_READ else BITS_OUT, n - 1, ByteOf(b)]
    case Whole(data, read) =>
      [if read then BYTES_READ else BYTES_OUT, (|data| - 1) % 256, (|data| - 1) / 256] + BytesOf(data)
  }

  function SerializeAll(cs: seq<Command>): seq<byte>
    requires forall c :: c in cs ==> WellFormed(c)
  {
    if cs == [] then [] else Serialize(cs[0]) + SerializeAll(cs[1..])
  }

  /** The command that starts s and the number of bytes it takes; None when it is unknown or incomplete. */
  function ParseOne(s: seq<byte>): (r: Option<(Command, nat)>)
    ensures r.Some? ==> WellFormed(r.value.0) && 0 < r.value.1 <= |s|
  {
    if |s| < 3 then None
    else if s[0] == TMS_OUT || s[0] == TMS_READ then
      (if s[1] <= 6 then Some((Tms(s[1] + 1, Octet(s[2]), s[0] == TMS_READ), 3)) else None)
    else if s[0] == BITS_OUT || s[0] == BITS_READ then
      (if s[1] <= 7 then Some((Data(s[1] + 1, Octet(s[2]), s[0] == BITS_READ), 3)) else None)
    else if s[0] == BYTES_OUT || s[0] == BYTES_READ then
      var n: int := s[1] as int + 256 * s[2] as int + 1;
      if 3 + n <= |s| then Some((Whole(OctetsOf(s[3..3 + n]), s[0] == BYTES_READ), 3 + n)) else None
    else None
  }

  /** The commands of a byte stream; None when it does not end at a command boundary. */
  function Parse(s: seq<byte>): (r: Option<seq<Command>>)
    ensures r.Some? ==> forall c :: c in r.value ==> WellFormed(c)
    decreases |s|
  {
    if s == [] then Some([])
    else
      var one := ParseOne(s);
      if one.None? then None
      else
        var rest := Parse(s[one.value.1..]);
        if rest.None? then None else Some([one.value.0] + rest.value)
  }

  lemma ParseOneOf(c: Command, rest: seq<byte>)
    requires WellFormed(c)
    ensures ParseOne(Serialize(c) + rest) == Some((c, |Serialize(c)|))
  {
    var s := Serialize(c) + rest;
    assert s[0] == Serialize(c)[0] && s[1] == Serialize(c)[1] && s[2] == Serialize(c)[2];
    match c
    case Whole(data, _) =>
      assert s[3..3 + |data|] == BytesOf(data);
      OctetsOfBytes(data);
    case Tms(_, b, _) => OctetOfByte(b);
    case Data(_, b, _) => OctetOfByte(b);
  }

  /** The engine recovers the commands from their bytes. */
  lemma {:induction false} ParseSerialized(cs: seq<Command>)
    requires forall c :: c in cs ==> WellFormed(c)
    ensures Parse(SerializeAll(cs)) == Some(cs)
  {
    if cs != [] {
      var c, rest := cs[0], SerializeAll(cs[1..]);
      ParseOneOf(c, rest);
      ParseSerialized(cs[1..]);
      assert (Serialize(c) + rest)[|Serialize(c)|..] == rest;
      assert [c] + cs[1..] == cs;
    }
  }

  lemma {:induction false} SerializeAppend(a: seq<Command>, b: seq<Command>)
    requires forall c :: c in a ==> WellFormed(c)
    requires forall c :: c in b ==> WellFormed(c)
    ensures forall c :: c in a + b ==> WellFormed(c)
    ensures SerializeAll(a + b) == SerializeAll(a) + SerializeAll(b)
  {
    if a == [] {
      assert a + b == b;
    } else {
      assert (a + b)[1..] == a[1..] + b;
      SerializeAppend(a[1..], b);
      assert Serialize(a[0]) + (SerializeAll(a[1..]) + SerializeAll(b))
          == Serialize(a[0]) + SerializeAll(a[1..]) + SerializeAll(b);
    }
  }

  // ------------------------------------------------------------ What they do

  datatype Ftdi<!S> = Ftdi(tms: bool, received: octet, port: Device<S>, reply: seq<octet>)

  /** Runs the port, sampling TDO when asked. */
  function Clocked<S>(f: Ftdi<S>, cs: seq<Clk>, read: bool): Ftdi<S> {
    var t := Tdos(f.port, cs);
    f.(port := RunClocks(f.port, cs),
       tms := if cs == [] then f.tms else cs[|cs| - 1].tms,
       received := if read then (f.received + t)[|t|..] else f.received)
  }

  function Returned<S>(f: Ftdi<S>, read: bool): Ftdi<S> {
    if read then f.(reply := f.reply + [f.received]) else f
  }

  /** Bit 7 of the byte of a TMS command is the level of TDI. */
  function TmsCommand(b: octet, n: nat): (cs: seq<Clk>)
    requires n <= 7
    ensures |cs| == n
  {
    seq(n, i requires 0 <= i < n => Clk(b[i], b[7]))
  }

  function TdiCommand(tms: bool, data: bits): (cs: seq<Clk>)
    ensures |cs| == |data|
  {
    seq(|data|, i requires 0 <= i < |data| => Clk(tms, data[i]))
  }

  /** Whole bytes, each returned as soon as it is complete. */
  function ByteRun<S>(f: Ftdi<S>, data: seq<octet>, read: bool): Ftdi<S>
    decreases |data|
  {
    if data == [] then f
    else ByteRun(Returned(Clocked(f, TdiCommand(f.tms, data[0]), read), read), data[1..], read)
  }

  function Do<S>(f: Ftdi<S>, c: Command): Ftdi<S>
    requires WellFormed(c)
  {
    match c
    case Tms(n, b, read) => Returned(Clocked(f, TmsCommand(b, n), read), read)
    case Data(n, b, read) => Returned(Clocked(f, TdiCommand(f.tms, b[..n]), read), read)
    case Whole(data, read) => ByteRun(f, data, read)
  }

  function DoAll<S>(f: Ftdi<S>, cs: seq<Command>): Ftdi<S>
    requires forall c :: c in cs ==> WellFormed(c)
    decreases |cs|
  {
    if cs == [] then f else DoAll(Do(f, cs[0]), cs[1..])
  }

  lemma {:induction false} DoAllAppend<S>(f: Ftdi<S>, a: seq<Command>, b: seq<Command>)
    requires forall c :: c in a ==> WellFormed(c)
    requires forall c :: c in b ==> WellFormed(c)
    ensures DoAll(f, a + b) == DoAll(DoAll(f, a), b)
    decreases |a|
  {
    if a == [] {
      assert a + b == b;
    } else {
      assert (a + b)[1..] == a[1..] + b;
      DoAllAppend(Do(f, a[0]), a[1..], b);
    }
  }

  /** The engine after a byte stream. */
  function Interpret<S>(f: Ftdi<S>, s: seq<byte>): Option<Ftdi<S>> {
    if Parse(s).None? then None else Some(DoAll(f, Parse(s).value))
  }

  lemma TopBits(r: bits, t: bits, u: bits)
    ensures (r + (t + u))[|t + u|..] == ((r + t)[|t|..] + u)[|u|..]
  {
  }

  lemma ClockedAppend<S>(f: Ftdi<S>, a: seq<Clk>, b: seq<Clk>, read: bool)
    ensures Clocked(f, a + b, read) == Clocked(Clocked(f, a, read), b, read)
  {
    RunAppend(f.port, a, b);
    TopBits(f.received, Tdos(f.port, a), Tdos(RunClocks(f.port, a), b));
  }
}
