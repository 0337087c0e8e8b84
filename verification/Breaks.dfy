/** Hardware breakpoints (target.c:1895-1965): two slots in OBCR, OMLR0 and OMLR1. */
module Breaks {
  import opened Words
  import opened Bits
  import opened Chip
  import opened Target

  // Bits of OBCR (oncd.h:72-92)
  const MBS0: nat := 0
  const MBS1: nat := 1
  const WRITE0: nat := 2
  const READ0: nat := 3
  const EQ0: nat := 4
  const WRITE1: nat := 6
  const READ1: nat := 7
  const EQ1: nat := 8
  const ANY: nat := 10

  type obcr = b: bits | |b| == 12 witness Zeros(12)

  /** A mask with these bits set. */
  function Mask(s: set<nat>): obcr {
    seq(12, i requires 0 <= i < 12 => i in s)
  }

  predicate NonZero(o: obcr) {
    o != Zeros(12)
  }

  /** What a breakpoint watches: a data address, or instruction fetch when `memory` is false. */
  datatype Break = Break(addr: word, memory: bool, read: bool, write: bool)

  datatype Kind = Code | Reads | Writes | Accesses

  function Made(addr: word, kind: Kind): Break {
    match kind
    case Code => Break(addr, false, true, false)
    case Reads => Break(addr, true, true, false)
    case Writes => Break(addr, true, false, true)
    case Accesses => Break(addr, true, true, true)
  }

  /** The list of breakpoints, newest first. */
  function Added(list: seq<Break>, b: Break): seq<Break> {
    if list == [] then [b] else [b, list[0]]
  }

  function Removed(list: seq<Break>, addr: word): seq<Break> {
    if list == [] then []
    else if list[0].addr == addr then list[1..]
    else [list[0]] + Removed(list[1..], addr)
  }

  predicate WellMade(list: seq<Break>) {
    |list| <= 2 && forall i :: 0 <= i < |list| ==> list[i].read || list[i].write
  }

  /** OBCR for a list. */
  function Encoded(list: seq<Break>, any: bool): obcr {
    var one, two := |list| > 0, |list| > 1;
    [one && list[0].memory, two && list[1].memory,
     one && list[0].write, one && list[0].read, one, false,
     two && list[1].write, two && list[1].read, two, false,
     any, false]
  }

  /** The registers hold the list; slot 1 is not used while slot 0 is free. */
  ghost predicate Holds(d: Oncd, list: seq<Break>, any: bool) {
    && WellMade(list) && d.obcr < 0x1000 && ToBits(d.obcr, 12) == Encoded(list, any)
    && (|list| > 0 ==> d.omlr0 == list[0].addr) && (|list| > 1 ==> d.omlr1 == list[1].addr)
  }

  // ------------------------------------------------------------- Bit arithmetic

  /** The first breakpoint moved to the second place: obcr << 1 & MBS1 | obcr << 4 & (RW1 | CC1) */
  function Pushed(o: obcr): obcr {
    BitOr(BitAnd(ShiftLeft(o, 1), Mask({MBS1})), BitAnd(ShiftLeft(o, 4), Mask({WRITE1, READ1, EQ1, EQ1 + 1})))
  }

  /** The second moved to the first: obcr >> 1 & MBS0 | obcr >> 4 & (RW0 | CC0) */
  function Pulled(o: obcr): obcr {
    BitOr(BitAnd(ShiftRight(o, 1), Mask({MBS0})), BitAnd(ShiftRight(o, 4), Mask({WRITE0, READ0, EQ0, EQ0 + 1})))
  }

  /** What a kind sets for slot 0. */
  function KindBits(kind: Kind): obcr {
    match kind
    case Code => Mask({EQ0, READ0})
    case Reads => Mask({EQ0, READ0, MBS0})
    case Writes => Mask({EQ0, WRITE0, MBS0})
    case Accesses => Mask({EQ0, WRITE0, READ0, MBS0})
  }

  predicate Uses0(o: obcr) { NonZero(BitAnd(o, Mask({WRITE0, READ0}))) }
  predicate Uses1(o: obcr) { NonZero(BitAnd(o, Mask({WRITE1, READ1}))) }

  lemma UsesEncoded(list: seq<Break>, any: bool)
    requires WellMade(list)
    ensures Uses0(Encoded(list, any)) <==> |list| > 0
    ensures Uses1(Encoded(list, any)) <==> |list| > 1
  {
    var o := Encoded(list, any);
    var a, b := BitAnd(o, Mask({WRITE0, READ0})), BitAnd(o, Mask({WRITE1, READ1}));
    assert a[WRITE0] == o[WRITE0] && a[READ0] == o[READ0] && b[WRITE1] == o[WRITE1] && b[READ1] == o[READ1];
    if |list| == 0 {
      assert forall i :: 0 <= i < 12 ==> a[i] == Zeros(12)[i];
    }
    if |list| <= 1 {
      assert forall i :: 0 <= i < 12 ==> b[i] == Zeros(12)[i];
    }
  }

  lemma PushedIs(o: obcr)
    ensures Pushed(o) == [false, o[0], false, false, false, false, o[2], o[3], o[4], o[5], false, false]
  {
    var p := Pushed(o);
    forall i | 0 <= i < 12
      ensures p[i] == [false, o[0], false, false, false, false, o[2], o[3], o[4], o[5], false, false][i]
    {
    }
  }

  lemma PulledIs(o: obcr)
    ensures Pulled(o) == [o[1], false, o[6], o[7], o[8], o[9], false, false, false, false, false, false]
  {
    var p := Pulled(o);
    forall i | 0 <= i < 12
      ensures p[i] == [o[1], false, o[6], o[7], o[8], o[9], false, false, false, false, false, false][i]
    {
    }
  }

  lemma KindIs(kind: Kind)
    ensures KindBits(kind) == [Made(0, kind).memory, false, Made(0, kind).write, Made(0, kind).read, true, false,
                               false, false, false, false, false, false]
  {
    var b, k := Made(0, kind), KindBits(kind);
    forall i | 0 <= i < 12
      ensures k[i] == [b.memory, false, b.write, b.read, true, false, false, false, false, false, false, false][i]
    {
    }
  }

  lemma PushedEncoded(list: seq<Break>, any: bool, kind: Kind, addr: word)
    requires WellMade(list)
    ensures var o := if list != [] then Pushed(Encoded(list, any)) else Mask({ANY});
            BitOr(o, KindBits(kind)) == Encoded(Added(list, Made(addr, kind)), list == [])
  {
    hide Pushed, KindBits;
    var o := if list != [] then Pushed(Encoded(list, any)) else Mask({ANY});
    var p, q := BitOr(o, KindBits(kind)), Encoded(Added(list, Made(addr, kind)), list == []);
    PushedIs(Encoded(list, any));
    KindIs(kind);
    forall i | 0 <= i < 12
      ensures p[i] == q[i]
    {
    }
  }

  lemma PulledEncoded(list: seq<Break>, any: bool)
    requires WellMade(list) && |list| == 2
    ensures Pulled(Encoded(list, any)) == Encoded(list[1..], false)
  {
    hide Pulled;
    PulledIs(Encoded(list, any));
  }

  lemma DroppedEncoded(list: seq<Break>, any: bool)
    requires WellMade(list) && |list| == 2
    ensures BitAnd(Encoded(list, any), BitNot(Mask({MBS1, WRITE1, READ1, EQ1, EQ1 + 1}))) == Encoded(list[..1], any)
  {
    var p := BitAnd(Encoded(list, any), BitNot(Mask({MBS1, WRITE1, READ1, EQ1, EQ1 + 1})));
    var q := Encoded(list[..1], any);
    forall i | 0 <= i < 12
      ensures p[i] == q[i]
    {
    }
  }

  /** What the register holds for one breakpoint of each kind, and for two. */
  lemma KnownRegisters(d: Oncd, a: word, b: word)
    ensures Holds(d, [Made(a, Code)], true) ==> d.obcr == 0x418 && d.omlr0 == a
    ensures Holds(d, [Made(a, Reads)], true) ==> d.obcr == 0x419 && d.omlr0 == a
    ensures Holds(d, [Made(a, Writes)], true) ==> d.obcr == 0x415 && d.omlr0 == a
    ensures Holds(d, [Made(a, Accesses)], true) ==> d.obcr == 0x41d && d.omlr0 == a
    ensures Holds(d, [Made(b, Writes), Made(a, Code)], false) ==> d.obcr == 0x195 && d.omlr0 == b && d.omlr1 == a
  {
    hide ToBits, Num;
    KnownWord(0x418, Encoded([Made(a, Code)], true), d.obcr);
    KnownWord(0x419, Encoded([Made(a, Reads)], true), d.obcr);
    KnownWord(0x415, Encoded([Made(a, Writes)], true), d.obcr);
    KnownWord(0x41d, Encoded([Made(a, Accesses)], true), d.obcr);
    KnownWord(0x195, Encoded([Made(b, Writes), Made(a, Code)], false), d.obcr);
    KnownBits();
  }

  lemma KnownWord(v: nat, o: obcr, w: nat)
    requires v < 0x1000
    ensures w < 0x1000 && ToBits(v, 12) == o && ToBits(w, 12) == o ==> w == v
  {
    assert Pow2(12) == 0x1000 by { assert Pow2(8) == 0x100; }
    NumOfBits(v, 12);
    if w < 0x1000 {
      NumOfBits(w, 12);
    }
  }

  lemma KnownBits()
    ensures ToBits(0x418, 12) == [false, false, false, true, true, false, false, false, false, false, true, false]
    ensures ToBits(0x419, 12) == [true, false, false, true, true, false, false, false, false, false, true, false]
    ensures ToBits(0x415, 12) == [true, false, true, false, true, false, false, false, false, false, true, false]
    ensures ToBits(0x41d, 12) == [true, false, true, true, true, false, false, false, false, false, true, false]
    ensures ToBits(0x195, 12) == [true, false, true, false, true, false, false, true, true, false, false, false]
  {
    hide ToBits;
    Nibbles();
    ThreeNibbles(8, 1, 4);
    ThreeNibbles(9, 1, 4);
    ThreeNibbles(5, 1, 4);
    ThreeNibbles(0xd, 1, 4);
    ThreeNibbles(5, 9, 1);
  }

  lemma Nibbles()
    ensures ToBits(1, 4) == [true, false, false, false] && ToBits(4, 4) == [false, false, true, false]
    ensures ToBits(5, 4) == [true, false, true, false] && ToBits(8, 4) == [false, false, false, true]
    ensures ToBits(9, 4) == [true, false, false, true] && ToBits(0xd, 4) == [true, false, true, true]
  {
    hide ToBits;
    FourBits(1);
    FourBits(4);
    FourBits(5);
    FourBits(8);
    FourBits(9);
    FourBits(0xd);
  }

  lemma ThreeNibbles(x: nat, y: nat, z: nat)
    requires x < 16 && y < 16
    ensures ToBits(x + 16 * y + 256 * z, 12) == ToBits(x, 4) + (ToBits(y, 4) + ToBits(z, 4))
  {
    hide ToBits;
    assert Pow2(4) == 16;
    StackBits(x, 4, y + 16 * z, 8);
    StackBits(y, 4, z, 4);
  }

  // ------------------------------------------------------------- The operations

  method ReadObcr(a: Adapter) returns (o: obcr)
    ensures o == ToBits(a.chip.obcr, 12)
  {
    var v := a.OncdRead(OBCR);
    o := ToBits(v, 12);
  }

  /** The two match registers and the control register; nothing else changes. */
  method WriteBreaks(a: Adapter, o: obcr, l0: word, l1: word)
    modifies a`chip
    ensures a.chip == old(a.chip).(obcr := a.chip.obcr, omlr0 := l0, omlr1 := l1)
    ensures a.chip.obcr < 0x1000 && ToBits(a.chip.obcr, 12) == o
  {
    assert Pow2(12) == 0x1000 by { assert Pow2(8) == 0x100; }
    BitsOfNum(o);
    a.OncdWrite(l0, OMLR0);
    a.OncdWrite(l1, OMLR1);
    a.OncdWrite(Num(o), OBCR);
  }

  /** The newest breakpoint takes slot 0, the one before it slot 1, and a third is forgotten. */
  method AddBreak(a: Adapter, addr: word, kind: Kind, ghost list: seq<Break>, ghost any: bool)
    requires Holds(a.chip, list, any)
    modifies a`chip
    ensures Holds(a.chip, Added(list, Made(addr, kind)), list == [])
    ensures a.chip == old(a.chip).(obcr := a.chip.obcr, omlr0 := a.chip.omlr0, omlr1 := a.chip.omlr1)
  {
    hide Encoded, Pushed, KindBits, Uses0, ToBits, Mask;
    UsesEncoded(list, any);
    PushedEncoded(list, any, kind, addr);
    var o := ReadObcr(a);
    var l1: word;
    if Uses0(o) {
      o := Pushed(o);
      l1 := a.OncdRead(OMLR0);
    } else {
      o, l1 := Mask({ANY}), 0;
    }
    o := BitOr(o, KindBits(kind));
    WriteBreaks(a, o, addr, l1);
    a.OncdWrite(0, OMBC);
  }

  /** The first breakpoint at addr is dropped and the rest move up. */
  method RemoveBreak(a: Adapter, addr: word, ghost list: seq<Break>, ghost any: bool)
    requires Holds(a.chip, list, any)
    modifies a`chip
    ensures Holds(a.chip, Removed(list, addr), AnyAfter(list, addr, any))
    ensures a.chip == old(a.chip).(obcr := a.chip.obcr, omlr0 := a.chip.omlr0, omlr1 := a.chip.omlr1)
  {
    hide Encoded, Pulled, Uses0, Uses1, ToBits, Mask, Removed;
    UsesEncoded(list, any);
    RemovedOne(list, addr);
    var o := ReadObcr(a);
    var l0 := a.OncdRead(OMLR0);
    var l1 := a.OncdRead(OMLR1);
    NoneEncoded();
    if Uses0(o) && l0 == addr {
      if Uses1(o) {
        PulledEncoded(list, any);
        o, l0, l1 := Pulled(o), l1, 0;
      } else {
        o, l0, l1 := Zeros(12), 0, 0;
      }
    } else if Uses1(o) && l1 == addr {
      assert Uses0(o);  // slot 1 is not used while slot 0 is free
      DroppedEncoded(list, any);
      assert list[..1] == [list[0]];
      o, l1 := BitAnd(o, BitNot(Mask({MBS1, WRITE1, READ1, EQ1, EQ1 + 1}))), 0;
    } else {
      NotThere(list, addr);
      return;
    }
    WriteBreaks(a, o, l0, l1);
  }

  lemma RemovedOne(list: seq<Break>, addr: word)
    requires |list| <= 2
    ensures |list| == 1 && list[0].addr == addr ==> Removed(list, addr) == []
    ensures |list| == 2 && list[0].addr == addr ==> Removed(list, addr) == list[1..]
    ensures |list| == 2 && list[0].addr != addr && list[1].addr == addr ==> Removed(list, addr) == list[..1]
  {
    if |list| == 2 {
      assert list[1..] == [list[1]] && list[1..][1..] == [] && [list[0]] + [] == list[..1];
    }
  }

  lemma NoneEncoded()
    ensures Encoded([], false) == Zeros(12)
  {
  }

  lemma NotThere(list: seq<Break>, addr: word)
    requires forall i :: 0 <= i < |list| ==> list[i].addr != addr
    ensures Removed(list, addr) == list
  {
  }

  /** The trigger condition survives only the removal of the second of two. */
  function AnyAfter(list: seq<Break>, addr: word, any: bool): bool {
    if list != [] && list[0].addr == addr then false else any
  }

  // ------------------------------------------------------------------- Sequences

  datatype Op = Add(addr: word, kind: Kind) | Remove(addr: word)

  /** The list, and whether one match is enough, after some operations on free slots. */
  function After(ops: seq<Op>): (seq<Break>, bool) {
    if ops == [] then ([], false)
    else
      var (list, any) := After(ops[..|ops| - 1]);
      match ops[|ops| - 1]
      case Add(addr, kind) => (Added(list, Made(addr, kind)), list == [])
      case Remove(addr) => (Removed(list, addr), AnyAfter(list, addr, any))
  }

  /** Whatever is added and removed, the registers hold the list. */
  method Perform(a: Adapter, ops: seq<Op>)
    requires a.chip.obcr == 0
    modifies a`chip
    ensures Holds(a.chip, After(ops).0, After(ops).1)
  {
    hide Encoded, ToBits, Added, Removed;
    NothingHeld(a.chip);
    assert ops[..0] == [];
    for i := 0 to |ops|
      invariant Holds(a.chip, After(ops[..i]).0, After(ops[..i]).1)
    {
      assert ops[..i + 1][..i] == ops[..i];
      ghost var (list, any) := After(ops[..i]);
      match ops[i] {
      case Add(addr, kind) => AddBreak(a, addr, kind, list, any);
      case Remove(addr) => RemoveBreak(a, addr, list, any);
      }
    }
    assert ops[..|ops|] == ops;
  }

  lemma NothingHeld(d: Oncd)
    requires d.obcr == 0
    ensures Holds(d, [], false)
  {
    ZeroBits(12);
    NoneEncoded();
  }

  /** With two breakpoints set, the unit stops only when both match: OBCR_ANY is never left set. */
  lemma {:induction false} TwoNeedBoth(ops: seq<Op>)
    ensures |After(ops).0| <= 2 && (|After(ops).0| != 1 ==> !After(ops).1)
  {
    if ops != [] {
      var n := |ops| - 1;
      TwoNeedBoth(ops[..n]);
      if ops[n].Remove? {
        Shorter(After(ops[..n]).0, ops[n].addr);
      }
    }
  }

  lemma Shorter(list: seq<Break>, addr: word)
    requires |list| <= 2
    ensures |Removed(list, addr)| <= |list|
    ensures |Removed(list, addr)| == 0 ==> list == [] || list[0].addr == addr
    ensures |Removed(list, addr)| == 2 ==> |list| == 2
  {
  }
}
