/**
 The FT2232 adapter (adapter-mpsse.c): an output queue of MPSSE commands, the
 replies read back when it is flushed, and OnCD transactions on top.

 `engine` is the FT2232 with the target behind it.  It runs nothing until the
 queue is flushed; `ahead` is what it will be then.
 */
module Mpsse {
  import opened Words
  import opened Bits
  import opened Serial
  import opened Ftdi
  import opened Scan
  import opened Decode

  const OUTPUT_SIZE: int := 4096
  const PACKET_SIZE: int := 23
  const INPUT_SIZE: int := 64

  /**
   The masks after compiling an n-bit scan.  A scan that reads nothing still moves
   the byte mask when it ends in a partial byte.
   */
  function MasksAfter(m: Masks, bytesPerWord: int, n: nat, read: bool): Masks
    requires n <= 64
  {
    if n > 0 && read then MasksOf(n)
    else if n > 0 && (n - 1) % 8 > 0 then m.(highByteMask := ShiftLeft(LowByte(), (bytesPerWord - 1) * 8))
    else m
  }

  function PerWordAfter(bytesPerWord: int, n: nat, read: bool): int {
    if n > 0 && read then ReplyLength(n) else bytesPerWord
  }

  /** Bytes the engine will return for it. */
  function Awaited(n: nat, read: bool): nat {
    if n > 0 && read then ReplyLength(n) else 0
  }

  class Mpsse<S> {
    const output: array<byte>
    var bytesToWrite: nat
    const input: array<octet>
    var bytesToRead: nat
    var bytesPerWord: int
    var masks: Masks
    var engine: Ftdi<S>
    var oscr: word  // the host's copy of the target's OSCR
    ghost var queue: seq<Command>
    ghost var ahead: Ftdi<S>  // the engine once everything queued has been delivered
    ghost var delivered: seq<byte>
    ghost var stream: seq<byte>  // all that was ever queued

    function Contents(): seq<byte>
      reads this, output
      requires bytesToWrite <= output.Length
    {
      output[..bytesToWrite]
    }

    /**
     The queue holds whole commands, the engine's answers have been collected, what is
     awaited fits, and `owed` of the bytes awaited are from a packet still to be queued.
     */
    ghost predicate Owing(owed: nat)
      reads this, output, input
    {
      && output.Length == OUTPUT_SIZE && input.Length == INPUT_SIZE && bytesToWrite <= OUTPUT_SIZE
      && (forall c :: c in queue ==> WellFormed(c))
      && Contents() == SerializeAll(queue) && delivered + Contents() == stream
      && engine.reply == []
      && ahead == DoAll(engine, queue)
      && |ahead.reply| + owed == bytesToRead <= INPUT_SIZE - 2
    }

    ghost predicate Valid()
      reads this, output, input
    {
      Owing(0)
    }

    constructor (e: Ftdi<S>)
      requires e.reply == []
      ensures Valid() && ahead == e && stream == [] && oscr == 0 && fresh(output) && fresh(input)
    {
      output, input := new byte[OUTPUT_SIZE](_ => 0), new octet[INPUT_SIZE](_ => Zeros(8));
      bytesToWrite, bytesToRead, bytesPerWord, oscr := 0, 0, 0, 0;
      masks := Masks(0, Zeros(64), Zeros(64), Zeros(64));
      engine, ahead, queue, delivered, stream := e, e, [], [], [];
    }

    // ------------------------------------------------------------------- USB

    /** One USB packet of replies: two status bytes and at least one of those pending. */
    method BulkRead(size: int) returns (chunk: seq<octet>)
      requires size > 2 && engine.reply != []
      modifies this`engine
      ensures 0 < |chunk| <= size - 2 && chunk + engine.reply == old(engine.reply)
      ensures engine == old(engine).(reply := engine.reply)
    {
      var k :| 1 <= k <= size - 2 && k <= |engine.reply|;
      chunk := engine.reply[..k];
      engine := engine.(reply := engine.reply[k..]);
    }

    /** Delivers the queue and collects the answers, in however many USB packets they come. */
    method Flush()
      requires Valid()
      modifies this`bytesToWrite, this`bytesToRead, this`engine, this`queue, this`ahead, this`delivered, input
      ensures Valid() && queue == [] && bytesToWrite == 0
      ensures delivered == stream
      ensures engine == ahead == old(ahead).(reply := [])
      ensures old(bytesToRead) <= INPUT_SIZE - 2 && input[..old(bytesToRead)] == old(ahead).reply
      ensures bytesToRead == 0
    {
      hide RunClocks, Serialize, Do, Parse;
      if bytesToWrite == 0 {
        EmptyQueue(queue);
        return;
      }
      ParseSerialized(queue);
      engine := Interpret(engine, output[..bytesToWrite]).value;
      delivered := delivered + Contents();
      bytesToWrite := 0;
      queue, ahead := [], ahead.(reply := []);
      if bytesToRead == 0 {
        return;
      }
      Collect();
    }

    /** Reads until as many reply bytes have come as are awaited. */
    method Collect()
      requires input.Length == INPUT_SIZE && |engine.reply| == bytesToRead <= INPUT_SIZE - 2
      modifies this`bytesToRead, this`engine, input
      ensures input[..old(bytesToRead)] == old(engine.reply)
      ensures engine == old(engine).(reply := []) && bytesToRead == 0
    {
      ghost var all := engine.reply;
      var bytesRead := 0;
      while bytesRead < bytesToRead
        invariant bytesToRead == old(bytesToRead)
        invariant 0 <= bytesRead <= bytesToRead
        invariant engine == old(engine).(reply := engine.reply)
        invariant input[..bytesRead] + engine.reply == all
      {
        var chunk := BulkRead(bytesToRead - bytesRead + 2);
        CopyIn(bytesRead, chunk);
        bytesRead := bytesRead + |chunk|;
      }
      bytesToRead := 0;
    }

    /** memcpy into the input buffer */
    method CopyIn(at: nat, chunk: seq<octet>)
      requires at + |chunk| <= input.Length
      modifies input
      ensures input[..at + |chunk|] == old(input[..at]) + chunk
    {
      for i := 0 to |chunk|
        invariant input[..at + i] == old(input[..at]) + chunk[..i]
      {
        input[at + i] := chunk[i];
      }
    }

    // ------------------------------------------------------------ Building a packet

    method Put(b: byte)
      requires bytesToWrite < output.Length
      modifies output, this`bytesToWrite
      ensures bytesToWrite == old(bytesToWrite) + 1
      ensures Contents() == old(Contents()) + [b]
    {
      output[bytesToWrite] := b;
      bytesToWrite := bytesToWrite + 1;
    }

    /** Three bytes: a command, its count less one, and a load. */
    method PutCommand(op: byte, count: nat, load: octet)
      requires bytesToWrite + 3 <= output.Length && 0 < count <= 256
      modifies output, this`bytesToWrite
      ensures bytesToWrite == old(bytesToWrite) + 3
      ensures Contents() == old(Contents()) + [op, count - 1, ByteOf(load)]
    {
      Put(op);
      Put(count - 1);
      Put(ByteOf(load));
    }

    /** TMS prolog, from 1 to 14 bits. */
    method PutProlog(nbits: nat, prolog: bits)
      requires |prolog| == 32 && nbits <= 14 && bytesToWrite + 6 <= output.Length
      requires forall i :: nbits <= i < 32 ==> !prolog[i]
      modifies output, this`bytesToWrite
      ensures bytesToWrite <= old(bytesToWrite) + 6
      ensures Contents() == old(Contents()) + SerializeAll(PrologCommands(prolog[..nbits]))
    {
      ghost var p := prolog[..nbits];
      if nbits > 0 {
        if nbits < 8 {
          assert prolog[..8] == p + Zeros(8 - nbits);
          PutCommand(TMS_OUT, nbits, prolog[..8]);
          SerializeOne(Tms(nbits, prolog[..8], false));
        } else {
          assert p[..7] == prolog[..7] && prolog[7..15] == p[7..] + Zeros(15 - nbits);
          PutCommand(TMS_OUT, 7, prolog[..7] + [false]);
          PutCommand(TMS_OUT, nbits - 7, prolog[7..15]);
          SerializeTwo(Tms(7, prolog[..7] + [false], false), Tms(nbits - 7, prolog[7..15], false));
        }
      }
    }

    method PutHeader(op: byte, count: nat)
      requires bytesToWrite + 3 <= output.Length && 0 < count <= 0x1_0000
      modifies output, this`bytesToWrite
      ensures bytesToWrite == old(bytesToWrite) + 3
      ensures Contents() == old(Contents()) + [op, (count - 1) % 256, (count - 1) / 256]
    {
      Put(op);
      Put((count - 1) % 256);
      Put((count - 1) / 256);
    }

    /** The low bytes of tdi, each shifted out once it is stored. */
    method PutBytes(w: word64, nbytes: nat) returns (tdi: word64)
      requires nbytes < 8 && bytesToWrite + nbytes <= output.Length
      modifies output, this`bytesToWrite
      ensures bytesToWrite == old(bytesToWrite) + nbytes
      ensures tdi == ShiftRight(w, 8 * nbytes)
      ensures Contents() == old(Contents()) + BytesOf(Pack(w[..8 * nbytes]))
    {
      tdi := w;
      ghost var base := Contents();
      assert w == ShiftRight(w, 0) && w[..0] == [];
      for i := 0 to nbytes
        invariant bytesToWrite == old(bytesToWrite) + i
        invariant tdi == ShiftRight(w, 8 * i)
        invariant Contents() == base + BytesOf(Pack(w[..8 * i]))
      {
        ShiftedBytes(w, i);
        Put(ByteOf(tdi[..8]));
        tdi := ShiftRight(tdi, 8);
      }
    }

    /** Whole bytes; tdi is shifted past them. */
    method PutWhole(w: word64, nbytes: nat, read: bool) returns (tdi: word64)
      requires nbytes < 8 && bytesToWrite + 3 + nbytes <= output.Length
      modifies output, this`bytesToWrite
      ensures bytesToWrite <= old(bytesToWrite) + 3 + nbytes
      ensures tdi == ShiftRight(w, 8 * nbytes)
      ensures Contents() == old(Contents()) + SerializeAll(WholeCommands(w, nbytes, read))
    {
      hide ShiftRight, Pack, BytesOf;
      if nbytes == 0 {
        assert ShiftRight(w, 0) == w by { NoShift(w); }
        return w;
      }
      ghost var base := Contents();
      PutHeader(if read then BYTES_READ else BYTES_OUT, nbytes);
      tdi := PutBytes(w, nbytes);
      SerializeOne(Whole(Pack(w[..8 * nbytes]), read));
      AppendThree(base, Contents()[|base|..|base| + 3], BytesOf(Pack(w[..8 * nbytes])));
    }

    /** The last, partial byte; the whole ones of w have been shifted out. */
    method PutTail(shifted: word64, ghost w: word64, ghost whole: nat, last: nat, read: bool) returns (tdi: word64)
      requires last < 8 && whole < 8 && shifted == ShiftRight(w, 8 * whole) && bytesToWrite + 3 <= output.Length
      modifies output, this`bytesToWrite
      ensures bytesToWrite <= old(bytesToWrite) + 3
      ensures tdi[0] == w[8 * whole + last]
      ensures Contents() == old(Contents()) + SerializeAll(TailCommands(w, whole, last, read))
    {
      ShiftHead(w, 8 * whole, 8);
      if last > 0 {
        PutCommand(if read then BITS_READ else BITS_OUT, last, shifted[..8]);
        SerializeOne(Data(last, shifted[..8], read));
      }
      tdi := ShiftRight(shifted, last);
    }

    /** The last bit, and the clock after it, with TMS high. */
    method PutEpilog(last: bool, read: bool)
      requires bytesToWrite + 3 <= output.Length
      modifies output, this`bytesToWrite
      ensures bytesToWrite == old(bytesToWrite) + 3
      ensures Contents() == old(Contents()) + SerializeAll([EpilogCommand(last, read)])
    {
      // tdi << 7 | 1 | tms_epilog << 1
      PutCommand(if read then TMS_READ else TMS_OUT, 2, [true, true, false, false, false, false, false, last]);
      SerializeOne(EpilogCommand(last, read));
    }

    /** Data bits and epilog. */
    method PutData(w: word64, n: nat, read: bool)
      requires 0 < n <= 64 && bytesToWrite + 16 <= output.Length
      modifies output, this`bytesToWrite
      ensures bytesToWrite <= old(bytesToWrite) + 16
      ensures Contents() == old(Contents())
                            + (SerializeAll(DataCommands(w, n - 1, read)) + SerializeAll([EpilogCommand(w[n - 1], read)]))
    {
      var nbytes, last := (n - 1) / 8, (n - 1) % 8;
      ghost var base := Contents();
      var tdi := PutWhole(w, nbytes, read);
      tdi := PutTail(tdi, w, nbytes, last, read);
      PutEpilog(tdi[0], read);
      SerializeAppend(WholeCommands(w, nbytes, read), TailCommands(w, nbytes, last, read));
      AppendFour(base, SerializeAll(WholeCommands(w, nbytes, read)), SerializeAll(TailCommands(w, nbytes, last, read)),
                 SerializeAll([EpilogCommand(w[n - 1], read)]));
    }

    /** The masks a read will be decoded by, and the number of bytes it will return. */
    method NoteMasks(n: nat, read: bool)
      requires Owing(0) && n <= 64 && bytesToRead + Awaited(n, read) <= INPUT_SIZE - 2
      modifies this`bytesToRead, this`bytesPerWord, this`masks
      ensures Owing(Awaited(n, read))
      ensures bytesToRead == old(bytesToRead) + Awaited(n, read)
      ensures masks == MasksAfter(old(masks), old(bytesPerWord), n, read)
      ensures bytesPerWord == PerWordAfter(old(bytesPerWord), n, read)
    {
      hide DoAll, SerializeAll, ShiftLeft, OneBit;
      if n == 0 {
        return;
      }
      var nbytes, last := (n - 1) / 8, (n - 1) % 8;
      if read {
        masks := masks.(highByteBits := last, fixHighBit := Zeros(64), highByteMask := Zeros(64));
        bytesPerWord := if masks.highByteBits > 0 then nbytes + 1 else nbytes;
        bytesToRead := bytesToRead + bytesPerWord;
      }
      if last > 0 {
        masks := masks.(highByteMask := ShiftLeft(LowByte(), (bytesPerWord - 1) * 8));
      }
      if read {
        masks := masks.(fixHighBit := ShiftLeft(OneBit(64, 6), bytesPerWord * 8));
        bytesPerWord := bytesPerWord + 1;
        bytesToRead := bytesToRead + 1;
        masks := masks.(highBitMask := OneBit(64, n - 1));
      }
    }

    /** The bytes of a whole packet. */
    method PutPacket(prolog: bits, n: nat, tdi: word64, read: bool)
      requires n <= 64 && |prolog| <= if n == 0 then 14 else 11
      requires bytesToWrite + PACKET_SIZE <= output.Length
      modifies output, this`bytesToWrite
      ensures bytesToWrite <= old(bytesToWrite) + PACKET_SIZE
      ensures Contents() == old(Contents()) + SerializeAll(Packet(prolog, tdi, n, read))
    {
      var count, p := |prolog|, prolog + Zeros(32 - |prolog|);  // tms_prolog_nbits, tms_prolog
      if n > 0 {
        p := p[count := true];
        count := count + 3;
      }
      ghost var base := Contents();
      PutProlog(count, p);
      if n > 0 {
        assert p[..count] == prolog + STANDARD_PROLOG;
        PutData(tdi, n, read);
        SerializePacket(base, prolog, tdi, n, read);
      }
    }

    predicate Full()
      reads this
    {
      bytesToWrite > OUTPUT_SIZE - PACKET_SIZE
    }

    method MakeRoom()
      requires Valid()
      modifies this`bytesToWrite, this`bytesToRead, this`engine, this`queue, this`ahead, this`delivered, input
      ensures Valid() && !Full()
      ensures bytesToRead == if old(Full()) then 0 else old(bytesToRead)
      ensures ahead == if old(Full()) then old(ahead).(reply := []) else old(ahead)
      ensures bytesToWrite == if old(Full()) then 0 else old(bytesToWrite)
    {
      if bytesToWrite > OUTPUT_SIZE - PACKET_SIZE {
        Flush();
      }
    }

    /** Accounts for a packet whose bytes have just been stored. */
    ghost method Enqueue(packet: seq<Command>, owed: nat)
      requires output.Length == OUTPUT_SIZE && input.Length == INPUT_SIZE && bytesToWrite <= OUTPUT_SIZE
      requires (forall c :: c in queue ==> WellFormed(c)) && (forall c :: c in packet ==> WellFormed(c))
      requires Contents() == SerializeAll(queue) + SerializeAll(packet) && delivered + SerializeAll(queue) == stream
      requires engine.reply == [] && ahead == DoAll(engine, queue)
      requires |ahead.reply| + owed == |DoAll(ahead, packet).reply| == bytesToRead <= INPUT_SIZE - 2
      modifies this`queue, this`ahead, this`stream
      ensures Owing(0) && ahead == DoAll(old(ahead), packet) && stream == old(stream) + SerializeAll(packet)
    {
      AppendThree(delivered, SerializeAll(queue), SerializeAll(packet));
      SerializeAppend(queue, packet);
      DoAllAppend(engine, queue, packet);
      queue, ahead, stream := queue + packet, DoAll(ahead, packet), stream + SerializeAll(packet);
    }

    method Store(prolog: bits, n: nat, tdi: word64, read: bool)
      requires n <= 64 && |prolog| <= if n == 0 then 14 else 11
      requires Owing(Awaited(n, read)) && !Full()
      modifies output, this`bytesToWrite, this`queue, this`ahead, this`stream
      ensures Owing(0) && bytesToWrite <= old(bytesToWrite) + PACKET_SIZE
      ensures stream == old(stream) + SerializeAll(Packet(prolog, tdi, n, read))
      ensures ahead == DoAll(old(ahead), Packet(prolog, tdi, n, read))
    {
      PacketReply(ahead, prolog, tdi, n, read);
      PutPacket(prolog, n, tdi, read);
      Enqueue(Packet(prolog, tdi, n, read), Awaited(n, read));
    }

    /**
     mpsse_send: queues one scan, flushing first when the queue might overflow.
     The engine will behave as if the packet had been delivered after all before it.
     */
    method Send(prolog: bits, n: nat, tdi: word64, read: bool)
      requires Valid()
      requires n <= 64 && |prolog| <= if n == 0 then 14 else 11
      requires bytesToRead + Awaited(n, read) <= INPUT_SIZE - 2
      modifies this, output, input
      ensures Valid() && oscr == old(oscr)
      ensures bytesToWrite <= (if old(Full()) then 0 else old(bytesToWrite)) + PACKET_SIZE
      ensures bytesToRead == (if old(Full()) then 0 else old(bytesToRead)) + Awaited(n, read)
      ensures stream == old(stream) + SerializeAll(Packet(prolog, tdi, n, read))
      ensures ahead == DoAll(if old(Full()) then old(ahead).(reply := []) else old(ahead),
                             Packet(prolog, tdi, n, read))
      ensures masks == MasksAfter(old(masks), old(bytesPerWord), n, read)
      ensures bytesPerWord == PerWordAfter(old(bytesPerWord), n, read)
    {
      hide DoAll, Packet, MasksAfter, SerializeAll;
      MakeRoom();
      NoteMasks(n, read);
      Store(prolog, n, tdi, read);
    }

    /** mpsse_recv: flush, then decode the first eight bytes of the input buffer. */
    method Recv() returns (word: word64)
      requires Valid()
      modifies this`bytesToWrite, this`bytesToRead, this`engine, this`queue, this`ahead, this`delivered, input
      ensures Valid() && bytesToWrite == 0 && bytesToRead == 0
      ensures ahead == old(ahead).(reply := [])
      ensures old(bytesToRead) <= INPUT_SIZE - 2 && input[..old(bytesToRead)] == old(ahead).reply
      ensures input.Length == INPUT_SIZE && word == FixData(masks, Unpack(input[..8]))
    {
      hide FixData, Unpack, DoAll, SerializeAll;
      Flush();
      word := FixData(masks, Unpack(input[..8]));
    }

    /** A read: the device sees the clocks of the scan, and the bits it answered come back in order. */
    method Exchange(prolog: bits, n: nat, tdi: word64) returns (word: word64, ghost t: bits)
      requires Valid() && bytesToRead == 0 && 0 < n <= 57 && |prolog| <= 11
      modifies this, output, input
      ensures Valid() && bytesToRead == 0 && oscr == old(oscr)
      ensures ahead.port == RunClocks(old(ahead).port, PacketClocks(prolog, tdi[..n]))
      ensures ReadBy(old(ahead).port, prolog, tdi[..n], t) && word == t + Zeros(64 - n)
    {
      ghost var f, r := ahead, [];
      hide FixData, Unpack, DoAll, SerializeAll, RunClocks, PacketClocks, Packet, MasksOf, Returns, ReplyLength, ReadBy, Zeros;
      r, t := ExchangeRuns(f, prolog, tdi, n);
      Send(prolog, n, tdi, true);
      word := Recv();
      ExchangeDecodes(input[..], n, r, t);
    }
  }

  /** t is what d answers on the data clocks of a packet. */
  ghost predicate ReadBy<S>(d: Device<S>, prolog: bits, data: bits, t: bits) {
    var cs := PacketClocks(prolog, data);
    |t| == |data| && |cs| >= |prolog| + 3 + |data| && t == Tdos(d, cs)[|prolog| + 3..|prolog| + 3 + |data|]
  }

  lemma {:induction false} ExchangeRuns<S>(f: Ftdi<S>, prolog: bits, w: word64, n: nat) returns (r: seq<octet>, t: bits)
    requires f.reply == [] && 0 < n <= 57 && |prolog| <= 11
    ensures var g := DoAll(f, Packet(prolog, w, n, true));
            g.port == RunClocks(f.port, PacketClocks(prolog, w[..n])) && g.reply == r
    ensures f.(reply := []) == f && |r| == Awaited(n, true) <= 8
    ensures ReadBy(f.port, prolog, w[..n], t) && |t| == n && Returns(Unpack(r), t)
  {
    hide DoAll, Packet, RunClocks, Tdos, PacketClocks, Returns, Unpack, ReplyLength;
    r, t := PacketRuns(f, prolog, w, n, true);
    ReplySize(r, t);
    assert f.reply + r == r;
  }

  lemma {:induction false} ReplySize(r: seq<octet>, t: bits)
    requires 0 < |t| <= 57 && Returns(Unpack(r), t)
    ensures |r| == ReplyLength(|t|) <= 8
  {
  }

  lemma ExchangeDecodes(input: seq<octet>, n: nat, r: seq<octet>, t: bits)
    requires 0 < n <= 57 && |t| == n && Returns(Unpack(r), t) && |r| <= 8 <= |input| && input[..|r|] == r
    ensures FixData(MasksOf(n), Unpack(input[..8])) == t + Zeros(64 - n)
  {
    hide FixData, Unpack, MasksOf, Returns;
    assert input[..8] == r + input[|r|..8];
    UnpackAppend(r, input[|r|..8]);
    FixInverts(n, Unpack(r), t, Unpack(input[..8]));
  }

  lemma SerializePacket(base: seq<byte>, p: bits, w: word64, n: nat, read: bool)
    requires 0 < n <= 64 && |p| <= 11
    ensures base + SerializeAll(PrologCommands(p + STANDARD_PROLOG))
            + (SerializeAll(DataCommands(w, n - 1, read)) + SerializeAll([EpilogCommand(w[n - 1], read)]))
         == base + SerializeAll(Packet(p, w, n, read))
  {
    var a, b, c := PrologCommands(p + STANDARD_PROLOG), DataCommands(w, n - 1, read), [EpilogCommand(w[n - 1], read)];
    SerializeAppend(a, b);
    SerializeAppend(a + b, c);
    AppendFour(base, SerializeAll(a), SerializeAll(b), SerializeAll(c));
    AppendThree(base + SerializeAll(a), SerializeAll(b), SerializeAll(c));
  }

  /** How many bytes a packet makes the engine return. */
  lemma PacketReply<S>(f: Ftdi<S>, p: bits, w: word64, n: nat, read: bool)
    requires n <= 64 && |p| <= if n == 0 then 14 else 11
    ensures |DoAll(f, Packet(p, w, n, read)).reply| == |f.reply| + Awaited(n, read)
  {
    if n == 0 {
      PrologOnly(f, p, w, read);
    } else {
      var r, t := PacketRuns(f, p, w, n, read);
    }
  }

  lemma AppendFour<T>(a: seq<T>, b: seq<T>, c: seq<T>, d: seq<T>)
    ensures a + b + c + d == a + ((b + c) + d)
  {
  }

  lemma {:induction false} PackSnoc(d: bits, b: octet)
    requires |d| % 8 == 0
    ensures Pack(d + b) == Pack(d) + [b]
  {
    if d == [] {
      assert d + b == b && b[8..] == [] && b[..8] == b;
    } else {
      assert (d + b)[..8] == d[..8] && (d + b)[8..] == d[8..] + b;
      PackSnoc(d[8..], b);
    }
  }

  lemma NoShift(w: word64)
    ensures ShiftRight(w, 0) == w
  {
  }

  lemma ShiftTwice(w: word64, a: nat, b: nat)
    requires a + b < 64
    ensures ShiftRight(ShiftRight(w, a), b) == ShiftRight(w, a + b)
  {
  }

  lemma ShiftHead(w: word64, a: nat, k: nat)
    requires a + k <= 64 && a < 64
    ensures ShiftRight(w, a)[..k] == w[a..a + k]
  {
  }

  lemma ShiftedBytes(w: word64, i: nat)
    requires i < 7
    ensures ShiftRight(w, 8 * i)[..8] == w[8 * i..8 * i + 8]
    ensures ShiftRight(ShiftRight(w, 8 * i), 8) == ShiftRight(w, 8 * (i + 1))
    ensures BytesOf(Pack(w[..8 * (i + 1)])) == BytesOf(Pack(w[..8 * i])) + [ByteOf(w[8 * i..8 * i + 8])]
  {
    ShiftTwice(w, 8 * i, 8);
    ShiftHead(w, 8 * i, 8);
    PackNext(w, i);
  }

  lemma PackNext(w: word64, i: nat)
    requires i < 7
    ensures BytesOf(Pack(w[..8 * (i + 1)])) == BytesOf(Pack(w[..8 * i])) + [ByteOf(w[8 * i..8 * i + 8])]
  {
    var b := w[8 * i..8 * i + 8];
    assert w[..8 * (i + 1)] == w[..8 * i] + b;
    PackSnoc(w[..8 * i], b);
  }

  lemma EmptyQueue(queue: seq<Command>)
    requires (forall c :: c in queue ==> WellFormed(c)) && SerializeAll(queue) == []
    ensures queue == []
  {
  }

  lemma SerializeOne(c: Command)
    requires WellFormed(c)
    ensures SerializeAll([c]) == Serialize(c)
  {
    assert [c][1..] == [];
    assert Serialize(c) + [] == Serialize(c);
  }

  lemma SerializeTwo(c: Command, d: Command)
    requires WellFormed(c) && WellFormed(d)
    ensures SerializeAll([c, d]) == Serialize(c) + Serialize(d)
  {
    assert [c, d][1..] == [d];
    SerializeOne(d);
  }
}
