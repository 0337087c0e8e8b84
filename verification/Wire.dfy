/**
 What goes over the wires, byte by byte: the commands of FTDI AN_108, sections 3.4 and 3.5, that
 the MPSSE adapter sends for its transactions (adapter-mpsse.c:218-327, 421-498), and the samples
 of the bit-bang adapter (adapter-bitbang.c:42-58, 104-119).
 */
module Wire {
  import opened Words
  import opened Bits
  import opened Jtag
  import opened Ftdi
  import opened Scan
  import opened OncdPort
  import opened Bitbang

  // --------------------------------------------------------------- Bytes of a number

  /** x & 0xff, x >> 8 & 0xff, and so on. */
  function LittleEndian(x: nat, n: nat): (s: seq<byte>)
    ensures |s| == n
  {
    if n == 0 then [] else [x % 256] + LittleEndian(x / 256, n - 1)
  }

  lemma OctetIs(x: nat)
    ensures ByteOf(ToBits(x, 8)) == x % 256
  {
    Powers();
    NumTruncates(x, 8, 8);
    assert ToBits(x, 8) + Zeros(0) == ToBits(x, 8);
  }

  lemma {:induction false} BytesAre(w: bits, x: nat, n: nat)
    requires |w| == 8 * n && w == ToBits(x, 8 * n)
    ensures BytesOf(Pack(w)) == LittleEndian(x, n)
    decreases n
  {
    if n > 0 {
      EightMore(x, 8 * (n - 1));
      var low, rest := ToBits(x, 8), ToBits(x / 256, 8 * (n - 1));
      assert w[..8] == low && w[8..] == rest;
      BytesAre(rest, x / 256, n - 1);
      OctetIs(x);
      assert Pack(w) == [low] + Pack(rest);
      assert BytesOf([low] + Pack(rest)) == [ByteOf(low)] + BytesOf(Pack(rest));
    }
  }

  lemma EightMore(x: nat, n: nat)
    ensures ToBits(x, 8 + n) == ToBits(x, 8) + ToBits(x / 256, n)
  {
    Powers();
    StackBits(x % 256, 8, x / 256, n);
    assert x % 256 + 256 * (x / 256) == x;
    PrefixOfBits(x, 8 + n, 8);
    StackBits(x % 256, 8, x / 256, 0);
    assert ToBits(x / 256, 0) == [];
    assert ToBits(x, 8) == ToBits(x % 256, 8);
  }

  // ------------------------------------------------------------------- MPSSE bytes

  lemma ThreeCommands(a: Command, b: Command, c: Command)
    requires WellFormed(a) && WellFormed(b) && WellFormed(c)
    ensures SerializeAll([a] + [b] + [c]) == Serialize(a) + (Serialize(b) + Serialize(c))
  {
    hide Serialize, WellFormed;
    assert [a] + [b] + [c] == [a, b, c] && [a, b, c][1..] == [b, c] && [b, c][1..] == [c] && [c][1..] == [];
    assert SerializeAll([c]) == Serialize(c) + [] == Serialize(c);
    assert SerializeAll([b, c]) == Serialize(b) + Serialize(c);
  }

  function Bit(b: bool): nat { if b then 1 else 0 }

  lemma EightBits(a: bool, b: bool, c: bool, d: bool, e: bool, f: bool, g: bool, h: bool)
    ensures ByteOf([a, b, c, d, e, f, g, h])
         == Bit(a) + 2 * Bit(b) + 4 * Bit(c) + 8 * Bit(d) + 16 * Bit(e) + 32 * Bit(f) + 64 * Bit(g) + 128 * Bit(h)
  {
    hide Num, Bit;
    assert Num([]) == 0 by { NumOfZeros(0); }
    FourMore(e, f, g, h, []);
    FourMore(a, b, c, d, [e, f, g, h] + []);
    assert [a, b, c, d] + ([e, f, g, h] + []) == [a, b, c, d, e, f, g, h];
  }

  lemma FourMore(a: bool, b: bool, c: bool, d: bool, rest: bits)
    ensures Num([a, b, c, d] + rest) == Bit(a) + 2 * Bit(b) + 4 * Bit(c) + 8 * Bit(d) + 16 * Num(rest)
  {
    hide Num;
    FrontBit(d, rest);
    FrontBit(c, [d] + rest);
    FrontBit(b, [c] + ([d] + rest));
    FrontBit(a, [b] + ([c] + ([d] + rest)));
    assert [a, b, c, d] + rest == [a] + ([b] + ([c] + ([d] + rest)));
  }

  lemma FrontBit(a: bool, b: bits)
    ensures Num([a] + b) == Bit(a) + 2 * Num(b)
  {
    assert ([a] + b)[1..] == b;
  }

  /** TMS 1, 0, 0: `4b 02 01`. */
  lemma PrologBytes()
    ensures PrologCommands([] + STANDARD_PROLOG) == [Tms(3, Octet(1), false)]
    ensures Serialize(Tms(3, Octet(1), false)) == [0x4b, 0x02, 0x01]
  {
    OctetIs(1);
    assert [] + STANDARD_PROLOG == STANDARD_PROLOG;
    EightBits(true, false, false, false, false, false, false, false);
    OctetOfByte([true, false, false, false, false, false, false, false]);
    assert STANDARD_PROLOG + Zeros(5) == [true, false, false, false, false, false, false, false];
  }

  /** The last bit and TMS 1, 1: `4b 01` or `6b 01`, and the bit above 3. */
  lemma EpilogBytes(last: bool, read: bool)
    ensures Serialize(EpilogCommand(last, read)) == [if read then 0x6b else 0x4b, 0x01, if last then 0x83 else 0x03]
  {
    EightBits(true, true, false, false, false, false, false, last);
  }

  /** cmd | v << 9 */
  function Sent(cmd: nat, v: nat): nat { cmd + 512 * v }

  lemma TransactionIs(cmd: word, v: word)
    requires cmd < 512
    ensures Transaction(cmd, v, 32)[..40] == ToBits(Sent(cmd, v), 40)
    ensures Transaction(cmd, v, 32)[40] == (v >= 0x8000_0000)
  {
    hide ToBits, Transaction;
    var w, x := Transaction(cmd, v, 32), Sent(cmd, v);
    TransactionBits(cmd, v, 32);
    assert ToBits(x, 41) == ToBits(cmd, 9) + ToBits(v, 32) by {
      Powers();
      StackBits(cmd, 9, v, 32);
    }
    PrefixOfBits(x, 41, 40);
    assert w[..40] == w[..41][..40];
    TopBit(v);
    assert w[40] == w[..41][40] == ToBits(v, 32)[31];
  }

  lemma TopBit(v: word)
    ensures ToBits(v, 32)[31] == (v >= 0x8000_0000)
  {
    Powers();
    var high := if v >= 0x8000_0000 then 1 else 0;
    assert Pow2(31) == 0x8000_0000;
    StackBits(v - 0x8000_0000 * high, 31, high, 1);
    assert ToBits(high, 1) == [high == 1] + ToBits(high / 2, 0);
  }

  /** A transaction of 41 bits: the prolog, five bytes of `cmd | v << 9`, and the last bit. */
  lemma TransactionBytes(cmd: word, v: word, read: bool)
    requires cmd < 512
    ensures SerializeAll(Packet([], Transaction(cmd, v, 32), 41, read))
         == [0x4b, 0x02, 0x01]
            + (([if read then 0x39 else 0x19, 0x04, 0x00] + LittleEndian(Sent(cmd, v), 5))
               + [if read then 0x6b else 0x4b, 0x01, if v >= 0x8000_0000 then 0x83 else 0x03])
  {
    hide Transaction, ToBits, Pack, Serialize, PrologCommands, EpilogCommand;
    var w := Transaction(cmd, v, 32);
    TransactionIs(cmd, v);
    PrologBytes();
    EpilogBytes(w[40], read);
    BytesAre(w[..40], Sent(cmd, v), 5);
    var whole := Whole(Pack(w[..40]), read);
    assert DataCommands(w, 40, read) == [whole] + [] == [whole];
    WholeBytes(w[..40], read);
    ThreeCommands(Tms(3, Octet(1), false), whole, EpilogCommand(w[40], read));
  }

  lemma WholeBytes(d: bits, read: bool)
    requires |d| == 40
    ensures Serialize(Whole(Pack(d), read)) == [if read then 0x39 else 0x19, 0x04, 0x00] + BytesOf(Pack(d))
  {
  }

  /** Address 0x18000000 written to OMAR, and OSCR read. */
  lemma KnownTransactions()
    ensures SerializeAll(Packet([], Transaction(0x0b, 0x1800_0000, 32), 41, false))
         == [0x4b, 0x02, 0x01, 0x19, 0x04, 0x00, 0x0b, 0x00, 0x00, 0x00, 0x30, 0x4b, 0x01, 0x03]
    ensures SerializeAll(Packet([], Transaction(0x40, 0, 32), 41, true))
         == [0x4b, 0x02, 0x01, 0x39, 0x04, 0x00, 0x40, 0x00, 0x00, 0x00, 0x00, 0x6b, 0x01, 0x03]
  {
    hide Transaction, Packet, SerializeAll, LittleEndian;
    TransactionBytes(0x0b, 0x1800_0000, false);
    TransactionBytes(0x40, 0, true);
    assert Sent(0x0b, 0x1800_0000) == 0x30_0000_000b && Sent(0x40, 0) == 0x40;
    assert LittleEndian(0x30_0000_000b, 5) == [0x0b, 0x00, 0x00, 0x00, 0x30] by { FiveBytes(0x30_0000_000b); }
    assert LittleEndian(0x40, 5) == [0x40, 0x00, 0x00, 0x00, 0x00] by { FiveBytes(0x40); }
  }

  lemma FiveBytes(x: nat)
    ensures LittleEndian(x, 5)
         == [x % 256, x / 0x100 % 256, x / 0x1_0000 % 256, x / 0x100_0000 % 256, x / 0x1_0000_0000 % 256]
  {
    var a := x / 256;
    var b := a / 256;
    var c := b / 256;
    var d := c / 256;
    assert LittleEndian(d, 1) == [d % 256] + LittleEndian(d / 256, 0);
    assert LittleEndian(c, 2) == [c % 256] + LittleEndian(d, 1);
    assert LittleEndian(b, 3) == [b % 256] + LittleEndian(c, 2);
    assert LittleEndian(a, 4) == [a % 256] + LittleEndian(b, 3);
  }

  /** The identification register, behind a reset: prolog 1, 1, 1, 1, 1, 0 and 1, 0, 0, then 31 bits and the last. */
  lemma IdcodeBytes()
    ensures SerializeAll(PrologCommands(RESET_PROLOG + STANDARD_PROLOG)) == [0x4b, 0x06, 0x5f, 0x4b, 0x01, 0x00]
    ensures SerializeAll(DataCommands(Zeros(64), 31, true))
         == [0x39, 0x02, 0x00, 0x00, 0x00, 0x00, 0x3b, 0x06, 0x00]
  {
    hide Pack, ByteOf;
    var p := RESET_PROLOG + STANDARD_PROLOG;
    assert p[..7] + [false] == [true, true, true, true, true, false, true, false];
    assert p[7..] + Zeros(6) == [false, false, false, false, false, false, false, false];
    EightBits(true, true, true, true, true, false, true, false);
    EightBits(false, false, false, false, false, false, false, false);
    var c, d := Tms(7, p[..7] + [false], false), Tms(2, p[7..] + Zeros(6), false);
    assert PrologCommands(p) == [c, d];
    TwoCommands(c, d);
    var z := Zeros(64);
    assert z[24..32] == [false, false, false, false, false, false, false, false];
    ZeroBits(24);
    assert z[..24] == ToBits(0, 24);
    BytesAre(z[..24], 0, 3);
    ThreeZeros();
    var w, t := Whole(Pack(z[..24]), true), Data(7, z[24..32], true);
    assert DataCommands(z, 31, true) == [w] + [t] == [w, t];
    TwoCommands(w, t);
  }

  lemma ThreeZeros()
    ensures LittleEndian(0, 3) == [0, 0, 0]
  {
    assert LittleEndian(0, 1) == [0] + LittleEndian(0, 0) && LittleEndian(0, 2) == [0] + LittleEndian(0, 1);
  }

  lemma TwoCommands(a: Command, b: Command)
    requires WellFormed(a) && WellFormed(b)
    ensures SerializeAll([a, b]) == Serialize(a) + Serialize(b)
  {
    hide Serialize, WellFormed;
    assert [a, b][1..] == [b] && [b][1..] == [];
    assert SerializeAll([b]) == Serialize(b) + [] == Serialize(b);
  }

  // -------------------------------------------------------------- Bit-bang samples

  /** Bit 0 is TCK, bit 1 TDI, bit 3 TMS; neither reset, bits 4 and 6, is ever active. */
  lemma SampleByte(tck: bool, tms: bool, tdi: bool)
    ensures ByteOf(Sample(tck, tms, tdi))
         == 0x50 + 0x01 * Bit(tck) + 0x02 * Bit(tdi) + 0x08 * Bit(tms)
  {
    EightBits(tck, tdi, false, tms, true, false, true, false);
  }

  /** Bit 2 of an answer is TDO. */
  lemma LevelByte<C>(d: Pins<C>)
    ensures ByteOf(Level(d)) == 0x04 * Bit(Tdo(d.port))
  {
    var t := Tdo(d.port);
    EightBits(false, false, t, false, false, false, false, false);
    assert Level(d) == [false, false, t, false, false, false, false, false];
  }
}
