/** A device driven bit by bit: TMS and TDI go in on the rising edge of TCK, TDO is read before it. */
module Serial {

  datatype Clk = Clk(tms: bool, tdi: bool)

  datatype Device<!S> = Device(state: S, clock: (S, Clk) -> S, tdo: S -> bool)

  function RunClocks<S>(d: Device<S>, cs: seq<Clk>): Device<S>
    decreases |cs|
  {
    if cs == [] then d else RunClocks(d.(state := d.clock(d.state, cs[0])), cs[1..])
  }

  function Tdos<S>(d: Device<S>, cs: seq<Clk>): (t: seq<bool>)
    ensures |t| == |cs|
    decreases |cs|
  {
    if cs == [] then [] else [d.tdo(d.state)] + Tdos(d.(state := d.clock(d.state, cs[0])), cs[1..])
  }

  lemma {:induction false} RunAppend<S>(d: Device<S>, a: seq<Clk>, b: seq<Clk>)
    ensures RunClocks(d, a + b) == RunClocks(RunClocks(d, a), b)
    ensures Tdos(d, a + b) == Tdos(d, a) + Tdos(RunClocks(d, a), b)
    decreases |a|
  {
    if a == [] {
      assert a + b == b;
    } else {
      assert (a + b)[1..] == a[1..] + b;
      RunAppend(d.(state := d.clock(d.state, a[0])), a[1..], b);
    }
  }

  /** What is read after a prefix of the clocks has gone by. */
  lemma ReadsAfter<S>(d: Device<S>, a: seq<Clk>, b: seq<Clk>, n: nat)
    requires n <= |b|
    ensures Tdos(d, a + b)[|a|..|a| + n] == Tdos(RunClocks(d, a), b)[..n]
  {
    RunAppend(d, a, b);
    var t, u := Tdos(d, a), Tdos(RunClocks(d, a), b);
    assert (t + u)[|t|..|t| + n] == u[..n];
  }

  /** What is read by a prefix of the clocks and the first of the rest. */
  lemma ReadsBefore<S>(d: Device<S>, a: seq<Clk>, b: seq<Clk>)
    requires |b| > 0
    ensures Tdos(d, a + b)[..|a| + 1] == Tdos(d, a) + [Tdos(RunClocks(d, a), b)[0]]
  {
    RunAppend(d, a, b);
    var t, u := Tdos(d, a), Tdos(RunClocks(d, a), b);
    assert (t + u)[..|t| + 1] == t + [u[0]];
  }

  lemma AppendThree<T>(a: seq<T>, b: seq<T>, c: seq<T>)
    ensures a + b + c == a + (b + c)
  {
  }
}
