/**
 The JTAG port of the device: the TAP controller of section 6.1 of IEEE Std
 1149.1-2001, its shift path, and behind it the OnCD unit.
 */
module Jtag {
  import opened Bits
  import opened Serial

  datatype TapState =
    | TestLogicReset | RunTestIdle
    | SelectDR | CaptureDR | ShiftDR | Exit1DR | PauseDR | Exit2DR | UpdateDR
    | SelectIR | CaptureIR | ShiftIR | Exit1IR | PauseIR | Exit2IR | UpdateIR

  function TapNext(s: TapState, tms: bool): TapState {
    match s
    case TestLogicReset => if tms then TestLogicReset else RunTestIdle
    case RunTestIdle => if tms then SelectDR else RunTestIdle
    case SelectDR => if tms then SelectIR else CaptureDR
    case CaptureDR => if tms then Exit1DR else ShiftDR
    case ShiftDR => if tms then Exit1DR else ShiftDR
    case Exit1DR => if tms then UpdateDR else PauseDR
    case PauseDR => if tms then Exit2DR else PauseDR
    case Exit2DR => if tms then UpdateDR else ShiftDR
    case UpdateDR => if tms then SelectDR else RunTestIdle
    case SelectIR => if tms then TestLogicReset else CaptureIR
    case CaptureIR => if tms then Exit1IR else ShiftIR
    case ShiftIR => if tms then Exit1IR else ShiftIR
    case Exit1IR => if tms then UpdateIR else PauseIR
    case PauseIR => if tms then Exit2IR else PauseIR
    case Exit2IR => if tms then UpdateIR else ShiftIR
    case UpdateIR => if tms then SelectDR else RunTestIdle
  }

  /** Figure 6-1 in columns: a scan of either kind is captured, shifted, paused, resumed and finished alike. */
  lemma TapColumns()
    ensures TapNext(RunTestIdle, true) == SelectDR && TapNext(SelectDR, true) == SelectIR
            && TapNext(SelectIR, true) == TestLogicReset && TapNext(TestLogicReset, false) == RunTestIdle
    ensures Column(SelectDR, CaptureDR, ShiftDR, Exit1DR, PauseDR, Exit2DR, UpdateDR)
    ensures Column(SelectIR, CaptureIR, ShiftIR, Exit1IR, PauseIR, Exit2IR, UpdateIR)
  {
  }

  predicate Column(select: TapState, capture: TapState, shift: TapState, exit1: TapState, pause: TapState,
                   exit2: TapState, update: TapState) {
    && TapNext(select, false) == capture && TapNext(capture, false) == shift == TapNext(shift, false)
    && TapNext(capture, true) == exit1 == TapNext(shift, true)
    && TapNext(exit1, false) == pause == TapNext(pause, false) && TapNext(pause, true) == exit2
    && TapNext(exit2, false) == shift && TapNext(exit1, true) == update == TapNext(exit2, true)
    && TapNext(update, true) == SelectDR && TapNext(update, false) == RunTestIdle
  }

  // --- Instructions of the TAP (oncd.h:21-26)
  const TAP_IDCODE: nat := 3
  const TAP_DEBUG_ENABLE: nat := 5

  /** The register path behind the controller: what a data scan does, and what it reads. */
  datatype Unit<!C> = Unit(update: (C, bits) -> C, output: (C, bits) -> bool)

  /** `shifted` holds the bits received since the last capture; `status` is what an IR scan reads. */
  datatype Port<!C> = Port(tap: TapState, ir: nat, shifted: bits, chip: C, unit: Unit<C>, idcode: nat, status: nat)

  /** Bit shifted out when `got` has been shifted in. */
  function OutBit<C>(p: Port<C>, instruction: bool, got: bits): bool {
    if instruction then |got| < 4 && ToBits(p.status, 4)[|got|]
    else if p.ir == TAP_IDCODE then |got| < 32 && ToBits(p.idcode, 32)[|got|]
    else if p.ir == TAP_DEBUG_ENABLE then p.unit.output(p.chip, got)
    else false
  }

  /** What Update-DR makes of the bits received. */
  function Updated<C>(p: Port<C>): C {
    if p.ir == TAP_DEBUG_ENABLE then p.unit.update(p.chip, p.shifted) else p.chip
  }

  /** TDO before the rising edge of TCK. */
  function Tdo<C>(p: Port<C>): bool {
    if p.tap == ShiftDR then OutBit(p, false, p.shifted)
    else if p.tap == ShiftIR then OutBit(p, true, p.shifted)
    else false
  }

  /** One rising edge of TCK. */
  function Clock<C>(p: Port<C>, c: Clk): Port<C> {
    var q := if p.tap == ShiftDR || p.tap == ShiftIR then p.(shifted := p.shifted + [c.tdi])
             else if p.tap == CaptureDR || p.tap == CaptureIR then p.(shifted := [])
             else p;
    var next := TapNext(p.tap, c.tms);
    if next == UpdateDR then q.(tap := next, chip := Updated(q))
    else if next == UpdateIR then q.(tap := next, ir := Num(q.shifted))
    else if next == TestLogicReset then q.(tap := next, ir := TAP_IDCODE)
    else q.(tap := next)
  }

  function TapRun<C>(p: Port<C>, cs: seq<Clk>): Port<C>
    decreases |cs|
  {
    if cs == [] then p else TapRun(Clock(p, cs[0]), cs[1..])
  }

  function TapReads<C>(p: Port<C>, cs: seq<Clk>): (t: bits)
    ensures |t| == |cs|
    decreases |cs|
  {
    if cs == [] then [] else [Tdo(p)] + TapReads(Clock(p, cs[0]), cs[1..])
  }

  lemma {:induction false} TapRunAppend<C>(p: Port<C>, a: seq<Clk>, b: seq<Clk>)
    ensures TapRun(p, a + b) == TapRun(TapRun(p, a), b)
    ensures TapReads(p, a + b) == TapReads(p, a) + TapReads(TapRun(p, a), b)
    decreases |a|
  {
    if a == [] {
      assert a + b == b;
    } else {
      assert (a + b)[1..] == a[1..] + b;
      TapRunAppend(Clock(p, a[0]), a[1..], b);
    }
  }

  // ------------------------------------------------------------------- Scans

  /** Data bits with TMS low, except the last one. */
  function ShiftClocks(data: bits): (cs: seq<Clk>)
    ensures |cs| == |data|
  {
    seq(|data|, i requires 0 <= i < |data| => Clk(i == |data| - 1, data[i]))
  }

  /** States a scan starts from and ends in. */
  predicate Parked(s: TapState) {
    s == RunTestIdle || s == UpdateDR || s == UpdateIR
  }

  /** A data-register scan, seen as one operation. */
  function DrScan<C>(p: Port<C>, data: bits): Port<C> {
    var q := p.(tap := UpdateDR, shifted := data);
    q.(chip := Updated(q))
  }

  function IrScan<C>(p: Port<C>, data: bits): Port<C> {
    p.(tap := UpdateIR, shifted := data, ir := Num(data))
  }

  /** The bits a scan of `data` reads. */
  function ScanOut<C>(p: Port<C>, instruction: bool, data: bits): (t: bits)
    ensures |t| == |data|
  {
    seq(|data|, i requires 0 <= i < |data| => OutBit(p, instruction, data[..i]))
  }

  /** One data bit short of the last: the path fills and the controller stays. */
  lemma ShiftOne<C>(p: Port<C>, c: Clk)
    requires p.tap == ShiftDR || p.tap == ShiftIR
    ensures Tdo(p) == OutBit(p, p.tap == ShiftIR, p.shifted)
    ensures Clock(p, c) == p.(shifted := p.shifted + [c.tdi],
                              tap := if !c.tms then p.tap else if p.tap == ShiftIR then Exit1IR else Exit1DR)
  {
  }

  /** The bits shifted out while `data` follows `got` in. */
  function Outs<C>(p: Port<C>, instruction: bool, got: bits, data: bits): (t: bits)
    ensures |t| == |data|
  {
    seq(|data|, i requires 0 <= i < |data| => OutBit(p, instruction, got + data[..i]))
  }

  lemma OutsCons<C>(p: Port<C>, instruction: bool, got: bits, data: bits)
    requires data != []
    ensures Outs(p, instruction, got, data)
         == [OutBit(p, instruction, got)] + Outs(p, instruction, got + [data[0]], data[1..])
  {
    var o, rest := Outs(p, instruction, got, data), Outs(p, instruction, got + [data[0]], data[1..]);
    assert got + data[..0] == got;
    forall i | 1 <= i < |data|
      ensures o[i] == rest[i - 1]
    {
      assert got + [data[0]] + data[1..][..i - 1] == got + data[..i];
    }
  }

  /** While shifting, the register path fills and nothing else changes. */
  lemma {:induction false} ShiftRuns<C>(p: Port<C>, data: bits)
    requires data != []
    requires p.tap == ShiftDR || p.tap == ShiftIR
    ensures TapRun(p, ShiftClocks(data))
         == p.(tap := if p.tap == ShiftIR then Exit1IR else Exit1DR, shifted := p.shifted + data)
    decreases |data|
  {
    hide Clock, OutBit;
    var cs := ShiftClocks(data);
    ShiftOne(p, cs[0]);
    var q := Clock(p, cs[0]);
    if |data| == 1 {
      assert data == [data[0]];
      assert cs[1..] == [];
    } else {
      assert cs[1..] == ShiftClocks(data[1..]);
      ShiftRuns(q, data[1..]);
      assert p.shifted + [data[0]] + data[1..] == p.shifted + data;
    }
  }

  lemma {:induction false} ShiftReads<C>(p: Port<C>, data: bits)
    requires data != []
    requires p.tap == ShiftDR || p.tap == ShiftIR
    ensures TapReads(p, ShiftClocks(data)) == Outs(p, p.tap == ShiftIR, p.shifted, data)
    decreases |data|
  {
    var cs := ShiftClocks(data);
    ShiftOne(p, cs[0]);
    OutsCons(p, p.tap == ShiftIR, p.shifted, data);
    if |data| == 1 {
      assert cs[1..] == [];
    } else {
      var q := Clock(p, cs[0]);
      assert cs[1..] == ShiftClocks(data[1..]);
      ShiftReads(q, data[1..]);
      SameOuts(p, q, p.tap == ShiftIR, q.shifted, data[1..]);
    }
  }

  /** What is shifted out depends on the instruction and the unit, not on the path. */
  lemma SameOuts<C>(p: Port<C>, q: Port<C>, instruction: bool, got: bits, data: bits)
    requires q.ir == p.ir && q.chip == p.chip && q.unit == p.unit && q.idcode == p.idcode && q.status == p.status
    ensures Outs(q, instruction, got, data) == Outs(p, instruction, got, data)
  {
    forall i | 0 <= i < |data|
      ensures Outs(q, instruction, got, data)[i] == Outs(p, instruction, got, data)[i]
    {
    }
  }

  lemma TapOneClock<C>(p: Port<C>, c: Clk)
    ensures TapRun(p, [c]) == Clock(p, c)
  {
  }

  lemma TwoClocks<C>(p: Port<C>, a: Clk, b: Clk)
    ensures TapRun(p, [a, b]) == Clock(Clock(p, a), b)
  {
    TapRunAppend(p, [a], [b]);
    assert [a] + [b] == [a, b];
    TapOneClock(p, a);
    TapOneClock(Clock(p, a), b);
  }

  lemma ThreeClocks<C>(p: Port<C>, a: Clk, b: Clk, c: Clk)
    ensures TapRun(p, [a, b, c]) == Clock(Clock(Clock(p, a), b), c)
  {
    TapRunAppend(p, [a, b], [c]);
    assert [a, b] + [c] == [a, b, c];
    TwoClocks(p, a, b);
    TapOneClock(Clock(Clock(p, a), b), c);
  }

  /** Away from the shift, capture and update states a clock only moves the controller. */
  lemma Moves<C>(p: Port<C>, c: Clk)
    requires p.tap == SelectDR || p.tap == SelectIR || Parked(p.tap)
    requires TapNext(p.tap, c.tms) != TestLogicReset
    ensures Clock(p, c) == p.(tap := TapNext(p.tap, c.tms))
  {
  }

  lemma Captures<C>(p: Port<C>, c: Clk)
    requires (p.tap == CaptureDR || p.tap == CaptureIR) && !c.tms
    ensures Clock(p, c) == p.(tap := if p.tap == CaptureDR then ShiftDR else ShiftIR, shifted := [])
  {
  }

  lemma LeavesParking<C>(p: Port<C>, c: Clk)
    requires Parked(p.tap) && c.tms
    ensures Clock(p, c) == p.(tap := SelectDR)
  {
    Moves(p, c);
  }

  lemma ToShiftDR<C>(p: Port<C>, a: Clk, b: Clk, c: Clk)
    requires Parked(p.tap) && a.tms && !b.tms && !c.tms
    ensures TapRun(p, [a, b, c]) == p.(tap := ShiftDR, shifted := [])
  {
    hide Clock, TapRun;
    ThreeClocks(p, a, b, c);
    LeavesParking(p, a);
    Moves(p.(tap := SelectDR), b);
    Captures(p.(tap := CaptureDR), c);
  }

  lemma ToSelectIR<C>(p: Port<C>, a: Clk, b: Clk)
    requires Parked(p.tap) && a.tms && b.tms
    ensures TapRun(p, [a, b]) == p.(tap := SelectIR)
  {
    TwoClocks(p, a, b);
    LeavesParking(p, a);
    Moves(p.(tap := SelectDR), b);
  }

  lemma ToShiftIR<C>(p: Port<C>, a: Clk, b: Clk, c: Clk, d: Clk)
    requires Parked(p.tap) && a.tms && b.tms && !c.tms && !d.tms
    ensures TapRun(p, [a, b, c, d]) == p.(tap := ShiftIR, shifted := [])
  {
    hide Clock, TapRun;
    ToSelectIR(p, a, b);
    var q := p.(tap := SelectIR);
    TwoClocks(q, c, d);
    Moves(q, c);
    Captures(p.(tap := CaptureIR), d);
    TapRunAppend(p, [a, b], [c, d]);
    assert [a, b] + [c, d] == [a, b, c, d];
  }

  /** The clocks of a scan: `entry` leads to the shift state, one more clock leaves it. */
  function ScanClocks(entry: seq<Clk>, data: bits, last: Clk): seq<Clk> {
    entry + (ShiftClocks(data) + [last])
  }

  lemma Leaves<C>(p: Port<C>, last: Clk, data: bits, instruction: bool)
    requires last.tms
    ensures var q := p.(tap := if instruction then Exit1IR else Exit1DR, shifted := data);
            Clock(q, last) == if instruction then IrScan(p, data) else DrScan(p, data)
  {
  }

  lemma ScanOuts<C>(p: Port<C>, instruction: bool, data: bits)
    ensures Outs(p, instruction, [], data) == ScanOut(p, instruction, data)
  {
    forall i | 0 <= i < |data|
      ensures Outs(p, instruction, [], data)[i] == ScanOut(p, instruction, data)[i]
    {
      assert [] + data[..i] == data[..i];
    }
  }

  lemma Middle<T>(a: seq<T>, b: seq<T>, c: seq<T>)
    ensures (a + (b + c))[|a|..|a| + |b|] == b
  {
  }

  /** From wherever scans park, a clock sequence of this shape performs exactly one scan and parks again. */
  lemma ScanRuns<C>(p: Port<C>, entry: seq<Clk>, data: bits, last: Clk, instruction: bool)
    requires data != [] && last.tms
    requires TapRun(p, entry) == p.(tap := if instruction then ShiftIR else ShiftDR, shifted := [])
    ensures TapRun(p, ScanClocks(entry, data, last)) == if instruction then IrScan(p, data) else DrScan(p, data)
  {
    var q := TapRun(p, entry);
    TapRunAppend(p, entry, ShiftClocks(data) + [last]);
    TapRunAppend(q, ShiftClocks(data), [last]);
    ShiftRuns(q, data);
    assert [] + data == data;
    TapOneClock(TapRun(q, ShiftClocks(data)), last);
    Leaves(p, last, data, instruction);
  }

  /** The data clocks of that sequence read exactly what the scan reads. */
  lemma ScanReads<C>(p: Port<C>, entry: seq<Clk>, data: bits, last: Clk, instruction: bool)
    requires data != [] && last.tms
    requires TapRun(p, entry) == p.(tap := if instruction then ShiftIR else ShiftDR, shifted := [])
    ensures TapReads(p, ScanClocks(entry, data, last))[|entry|..|entry| + |data|] == ScanOut(p, instruction, data)
  {
    var q := TapRun(p, entry);
    TapRunAppend(p, entry, ShiftClocks(data) + [last]);
    TapRunAppend(q, ShiftClocks(data), [last]);
    ShiftReads(q, data);
    SameOuts(p, q, instruction, [], data);
    ScanOuts(p, instruction, data);
    Middle(TapReads(p, entry), TapReads(q, ShiftClocks(data)), TapReads(TapRun(q, ShiftClocks(data)), [last]));
  }

  /** The controller's own path, whatever is shifted meanwhile. */
  function TapPath(s: TapState, tms: bits): TapState
    decreases |tms|
  {
    if tms == [] then s else TapPath(TapNext(s, tms[0]), tms[1..])
  }

  function TmsOf(cs: seq<Clk>): (t: bits)
    ensures |t| == |cs|
  {
    seq(|cs|, i requires 0 <= i < |cs| => cs[i].tms)
  }

  lemma {:induction false} TapFollows<C>(p: Port<C>, cs: seq<Clk>)
    ensures TapRun(p, cs).tap == TapPath(p.tap, TmsOf(cs))
    decreases |cs|
  {
    if cs != [] {
      assert TmsOf(cs)[1..] == TmsOf(cs[1..]);
      TapFollows(Clock(p, cs[0]), cs[1..]);
    }
  }

  /** Whatever the port was doing, those clocks leave it idle with the identification register selected. */
  lemma ResetSelectsIdcode<C>(p: Port<C>, cs: seq<Clk>)
    requires TmsOf(cs) == [true, true, true, true, true, false]
    ensures TapRun(p, cs).tap == RunTestIdle && TapRun(p, cs).ir == TAP_IDCODE
    ensures TapRun(p, cs).idcode == p.idcode && TapRun(p, cs).status == p.status && TapRun(p, cs).unit == p.unit
  {
    hide Clock, TapRun, TapPath;
    TapFollows(p, cs);
    ResetReachesIdle(p.tap);
    var five, last := cs[..5], cs[5];
    assert cs == five + [last] && five == cs[..4] + [cs[4]];
    TapRunAppend(p, five, [last]);
    TapRunAppend(p, cs[..4], [cs[4]]);
    assert TmsOf(five) == TmsOf(cs)[..5] && last.tms == TmsOf(cs)[5];
    assert TmsOf(cs)[..5] == [true, true, true, true, true];
    TapFollows(p, five);
    FivePath(p.tap);
    TapOneClock(TapRun(p, cs[..4]), cs[4]);
    TapOneClock(TapRun(p, five), last);
    EntersReset(TapRun(p, cs[..4]), cs[4]);
    LeavesReset(TapRun(p, five), last);
    Wiring(p, cs);
  }

  lemma EntersReset<C>(p: Port<C>, c: Clk)
    ensures Clock(p, c).tap == TestLogicReset ==> Clock(p, c).ir == TAP_IDCODE
  {
  }

  lemma LeavesReset<C>(p: Port<C>, c: Clk)
    requires p.tap == TestLogicReset && !c.tms
    ensures Clock(p, c).ir == p.ir
  {
  }

  lemma FivePath(s: TapState)
    ensures TapPath(s, [true, true, true, true, true]) == TestLogicReset
  {
    FiveOnes(s);
  }

  lemma {:induction false} Wiring<C>(p: Port<C>, cs: seq<Clk>)
    ensures var q := TapRun(p, cs); q.idcode == p.idcode && q.status == p.status && q.unit == p.unit
    decreases |cs|
  {
    if cs != [] {
      Wiring(Clock(p, cs[0]), cs[1..]);
    }
  }

  /** Five clocks with TMS high and one with TMS low reach Run-Test/Idle from every state. */
  lemma ResetReachesIdle(s: TapState)
    ensures TapPath(s, [true, true, true, true, true, false]) == RunTestIdle
  {
    FiveOnes(s);
  }

  lemma FiveOnes(s: TapState)
    ensures TapNext(TapNext(TapNext(TapNext(TapNext(s, true), true), true), true), true) == TestLogicReset
  {
  }
}
