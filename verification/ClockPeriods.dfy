/**
  The bridge between two clocks of fixed periods (rtl/verilog/apb_clock_bridge.v): with a `clk_output` at least as fast
  as `clk_input` the handshake never gets stuck, whatever the phases; with a slower one it can.
 */
module ClockPeriods {
  import opened ClockBridge
  import opened ClockGaps

  // ---------------------------------------------------------------- periodic edges

  predicate Ticked(e: Edge, input: bool) {
    if input then !e.Out? else !e.In?
  }

  /** One clock has period p: two ticks in a row are p apart, and no other stretch without a tick inside is as long. */
  predicate Periodic(es: seq<Edge>, ts: seq<real>, input: bool, p: real)
    requires |ts| == |es|
  {
    forall i, j :: 0 <= i < j < |es| && (forall k :: i < k < j ==> !Ticked(es[k], input)) ==>
      ts[j] - ts[i] <= p && (ts[j] - ts[i] == p <==> Ticked(es[i], input) && Ticked(es[j], input))
  }

  /** The edges of two clocks with periods p and q, merged; `ts` are their times. */
  predicate Merged(es: seq<Edge>, ts: seq<real>, p: real, q: real) {
    && |ts| == |es|
    && (forall i, j :: 0 <= i < j < |ts| ==> ts[i] < ts[j])
    && Periodic(es, ts, true, p) && Periodic(es, ts, false, q)
  }

  /** Up to two edges of `clk_output` for one of `clk_input`. */
  predicate Alike(es: seq<Edge>) {
    && (forall i, j :: 0 <= i < |es| && j == i + 1 < |es| && !es[i].Out? && !es[j].Out? ==> es[i].Both? && es[j].Both?)
    && (forall i, j, k :: 0 <= i < |es| && j == i + 1 && k == i + 2 < |es| && es[j].Out? && es[k].Out? ==> es[i].In?)
  }

  /** At least two edges of `clk_output` between two of `clk_input`. */
  predicate Faster(es: seq<Edge>) {
    forall i, j :: 0 <= i < j < |es| && j <= i + 2 && !es[i].Out? ==> es[j].Out?
  }

  lemma Neighbours(es: seq<Edge>, ts: seq<real>, input: bool, p: real, i: nat)
    requires |ts| == |es| && Periodic(es, ts, input, p) && i + 1 < |es|
    ensures ts[i + 1] - ts[i] <= p
    ensures ts[i + 1] - ts[i] == p <==> Ticked(es[i], input) && Ticked(es[i + 1], input)
  {
    var j := i + 1;
    assert ts[j] - ts[i] <= p;
  }

  lemma OverOne(es: seq<Edge>, ts: seq<real>, input: bool, p: real, i: nat)
    requires |ts| == |es| && Periodic(es, ts, input, p) && i + 2 < |es| && !Ticked(es[i + 1], input)
    ensures ts[i + 2] - ts[i] <= p
    ensures ts[i + 2] - ts[i] == p <==> Ticked(es[i], input) && Ticked(es[i + 2], input)
  {
    var j := i + 2;
    hide Ticked;
    forall k | i < k < j
      ensures !Ticked(es[k], input)
    {
      assert k == i + 1;
    }
    assert ts[j] - ts[i] <= p;
  }

  lemma Slow(es: seq<Edge>, ts: seq<real>, p: real, q: real, i: nat)
    requires Merged(es, ts, p, q) && q <= p && i + 1 < |es| && !es[i].Out? && !es[i + 1].Out?
    ensures es[i].Both? && es[i + 1].Both? && p == q
  {
    Neighbours(es, ts, true, p, i);
    Neighbours(es, ts, false, q, i);
    hide Periodic;
  }

  lemma TwoAlone(es: seq<Edge>, ts: seq<real>, p: real, q: real, i: nat)
    requires Merged(es, ts, p, q) && p <= 2.0 * q && i + 2 < |es| && es[i + 1].Out? && es[i + 2].Out?
    ensures es[i].In?
  {
    OverOne(es, ts, true, p, i);
    Neighbours(es, ts, false, q, i);
    Neighbours(es, ts, false, q, i + 1);
    hide Periodic;
  }

  lemma OneBetween(es: seq<Edge>, ts: seq<real>, p: real, q: real, i: nat)
    requires Merged(es, ts, p, q) && i + 2 < |es| && !es[i].Out? && es[i + 1].Out? && !es[i + 2].Out?
    ensures p <= 2.0 * q
  {
    OverOne(es, ts, true, p, i);
    Neighbours(es, ts, false, q, i);
    Neighbours(es, ts, false, q, i + 1);
    hide Periodic;
  }

  lemma AlikeOrFaster(es: seq<Edge>, ts: seq<real>, p: real, q: real)
    requires Merged(es, ts, p, q) && 0.0 < q <= p
    ensures if p <= 2.0 * q then Alike(es) else Faster(es)
  {
    hide Merged;
    if p <= 2.0 * q {
      forall i, j | 0 <= i < |es| && j == i + 1 < |es| && !es[i].Out? && !es[j].Out?
        ensures es[i].Both? && es[j].Both?
      {
        Slow(es, ts, p, q, i);
      }
      forall i, j, k | 0 <= i < |es| && j == i + 1 && k == i + 2 < |es| && es[j].Out? && es[k].Out?
        ensures es[i].In?
      {
        TwoAlone(es, ts, p, q, i);
      }
    } else {
      forall i, j | 0 <= i < j < |es| && j <= i + 2 && !es[i].Out?
        ensures es[j].Out?
      {
        if !es[i + 1].Out? {
          Slow(es, ts, p, q, i);
          assert false;
        }
        if j == i + 2 && !es[j].Out? {
          OneBetween(es, ts, p, q, i);
          assert false;
        }
      }
    }
  }

  // ---------------------------------------------------------------- up to two output edges for one input edge

  /** Output edges since the last input edge, that one included. */
  function Outputs(es: seq<Edge>): nat
    decreases |es|
  {
    if es == [] then 0
    else
      var n := |es| - 1;
      match es[n]
      case In(_) => 0
      case Both(_, _) => 1
      case Out(_) => Outputs(es[..n]) + 1
  }

  /** With `outputs` as above, and whether the last edge was one of `clk_input`. */
  predicate AlikeInv(y: System, outputs: nat, justInput: bool) {
    && Inv(y) && !Stuck(y)
    && (y.m.phase != Access && Remembered(y.r) ==> justInput)
    && (y.m.phase == Access && !Pending(y) && y.r.ready2 ==>
          && (!y.r.ready1 && y.r.enableBuf ==> outputs >= 1)
          && (y.r.outEnable ==> outputs >= 2))
  }

  lemma AlikeAtFirst(x: System)
    requires Initial(x)
    ensures AlikeInv(x, 0, false)
  {
  }

  lemma AlikeStep(y: System, e: Edge, outputs: nat, justInput: bool)
    requires AlikeInv(y, outputs, justInput)
    requires e.In? ==> !justInput
    requires e.Out? ==> outputs <= 1
    ensures AlikeInv(Next(y, e), if e.In? then 0 else if e.Both? then 1 else outputs + 1, !e.Out?)
  {
    InvNext(y, e);
    HowItGetsStuck(y, e);
  }

  lemma {:induction false} AlikeNeverSticks(x: System, es: seq<Edge>, n: nat)
    requires Initial(x) && Alike(es) && n <= |es|
    ensures AlikeInv(Before(x, es, n), Outputs(es[..n]), n > 0 && !es[n - 1].Out?)
    decreases n
  {
    hide AlikeInv, Run;
    if n == 0 {
      AlikeAtFirst(x);
      BeforeFirst(x, es);
    } else {
      var m := n - 1;
      AlikeNeverSticks(x, es, m);
      BeforeNext(x, es, m);
      assert es[..n][..m] == es[..m];
      if m >= 2 && es[m].Out? && es[m - 1].Out? {
        assert es[m - 2].In?;
        assert es[..m][..m - 1] == es[..m - 1] && es[..m - 1][..m - 2] == es[..m - 2];
      }
      AlikeStep(Before(x, es, m), es[m], Outputs(es[..m]), m > 0 && !es[m - 1].Out?);
    }
  }

  // ---------------------------------------------------------------- a much faster output clock

  /** Edges of `clk_output` alone since the last edge of `clk_input`. */
  function Alone(es: seq<Edge>): nat
    decreases |es|
  {
    if es == [] || !es[|es| - 1].Out? then 0 else Alone(es[..|es| - 1]) + 1
  }

  predicate FasterInv(y: System, alone: nat) {
    && Inv(y) && !Stuck(y)
    && (y.m.phase != Access && Remembered(y.r) ==> alone == 0)
    && (y.m.phase != Access && y.r.ready1 ==> alone <= 1)
    && (y.m.phase == Access && !Pending(y) ==> !y.r.ready2)
  }

  lemma FasterAtFirst(x: System)
    requires Initial(x)
    ensures FasterInv(x, 0)
  {
  }

  lemma FasterStep(y: System, e: Edge, alone: nat)
    requires FasterInv(y, alone)
    requires !e.Out? && y.m.phase == Setup ==> alone >= 2
    ensures FasterInv(Next(y, e), if e.Out? then alone + 1 else 0)
  {
    InvNext(y, e);
    HowItGetsStuck(y, e);
  }

  /** Without any edge of `clk_input` the master is still idle; otherwise there has been one before the last stretch. */
  lemma {:induction false} AloneBack(x: System, es: seq<Edge>, n: nat)
    requires Initial(x) && n <= |es|
    ensures Alone(es[..n]) <= n
    ensures Alone(es[..n]) == n ==> Before(x, es, n).m.phase == Idle
    ensures Alone(es[..n]) < n ==> !es[n - 1 - Alone(es[..n])].Out?
    decreases n
  {
    hide Run;
    if n == 0 {
      BeforeFirst(x, es);
    } else {
      BeforeNext(x, es, n - 1);
      assert es[..n][..n - 1] == es[..n - 1];
      AloneBack(x, es, n - 1);
    }
  }

  lemma {:induction false} FasterNeverSticks(x: System, es: seq<Edge>, n: nat)
    requires Initial(x) && Faster(es) && n <= |es|
    ensures FasterInv(Before(x, es, n), Alone(es[..n]))
    decreases n
  {
    hide FasterInv, Run;
    if n == 0 {
      FasterAtFirst(x);
      BeforeFirst(x, es);
    } else {
      var m := n - 1;
      FasterNeverSticks(x, es, m);
      BeforeNext(x, es, m);
      AloneBack(x, es, m);
      assert es[..n][..m] == es[..m];
      FasterStep(Before(x, es, m), es[m], Alone(es[..m]));
    }
  }

  // ---------------------------------------------------------------- two clocks of fixed periods

  /** With a `clk_output` at least as fast as `clk_input` nothing ever sticks. */
  lemma SteadyClocksNeverStick(x: System, es: seq<Edge>, ts: seq<real>, p: real, q: real)
    requires Initial(x) && Merged(es, ts, p, q) && 0.0 < q <= p
    ensures !Stuck(Run(x, es)) && Sampled(x, es)
  {
    AlikeOrFaster(es, ts, p, q);
    assert es[..|es|] == es;
    if Alike(es) {
      AlikeNeverSticks(x, es, |es|);
    } else {
      FasterNeverSticks(x, es, |es|);
    }
    StuckExact(x, es);
    hide Run, Sampled;
  }

  /** So every request is answered within six rounds. */
  lemma SteadyResponse(x: System, es: seq<Edge>, rounds: seq<seq<Edge>>, ts: seq<real>, p: real, q: real)
    requires Initial(x) && Run(x, es).m.phase == Access
    requires |rounds| == 6 && forall i :: 0 <= i < |rounds| ==> Round(rounds[i])
    requires Merged(es + Joined(rounds), ts, p, q) && 0.0 < q <= p
    ensures |Run(x, es + Joined(rounds)).answered| > |Run(x, es).answered|
  {
    hide Run, Sampled, Joined;
    SteadyClocksNeverStick(x, es + Joined(rounds), ts, p, q);
    BoundedResponse(x, es, rounds);
  }

  // ---------------------------------------------------------------- a slower output clock

  function SlowTimes(): seq<real> {
    [1.0, 3.0, 5.0, 6.0, 7.0, 9.0, 11.0, 12.0, 13.0, 15.0, 17.0]
  }

  /** Request `a`, then at once request `b`; the slave answers the second edge that shows it PENABLE. */
  function SlowRun(a: Request, b: Request, ans: Answer): seq<Edge> {
    var go, on, busy, done := Choice(true, a), Choice(true, b), Slave(false, ans), Slave(true, ans);
    [In(go), Both(on, busy), In(on), Out(busy), In(on), Both(on, busy), In(on), Out(done), In(on), Both(on, busy), In(on)]
  }

  /** Distances over one and two edges decide about a clock that ticks at every second edge or more often. */
  predicate LocallyPeriodic(es: seq<Edge>, ts: seq<real>, input: bool, p: real, i: int)
    requires |ts| == |es| && 0 <= i < |es|
  {
    && (i + 1 < |es| ==>
          && ts[i + 1] - ts[i] <= p && (ts[i + 1] - ts[i] == p <==> Ticked(es[i], input) && Ticked(es[i + 1], input)))
    && (i + 2 < |es| && !Ticked(es[i + 1], input) ==>
          && Ticked(es[i + 2], input)
          && ts[i + 2] - ts[i] <= p && (ts[i + 2] - ts[i] == p <==> Ticked(es[i], input)))
  }

  lemma PeriodicLocally(es: seq<Edge>, ts: seq<real>, input: bool, p: real)
    requires |ts| == |es| && forall i :: 0 <= i < |es| ==> LocallyPeriodic(es, ts, input, p, i)
    ensures Periodic(es, ts, input, p)
  {
    hide Ticked;
    forall i, j | 0 <= i < j < |es| && (forall k :: i < k < j ==> !Ticked(es[k], input))
      ensures ts[j] - ts[i] <= p && (ts[j] - ts[i] == p <==> Ticked(es[i], input) && Ticked(es[j], input))
    {
      assert (j > i + 1 ==> !Ticked(es[i + 1], input)) && (j > i + 2 ==> !Ticked(es[i + 2], input));
      assert LocallyPeriodic(es, ts, input, p, i);
    }
  }

  lemma SlowRunIsMerged(a: Request, b: Request, ans: Answer)
    ensures Merged(SlowRun(a, b, ans), SlowTimes(), 2.0, 3.0)
  {
    var es, ts := SlowRun(a, b, ans), SlowTimes();
    forall i | 0 <= i < |es|
      ensures LocallyPeriodic(es, ts, true, 2.0, i) && LocallyPeriodic(es, ts, false, 3.0, i)
    {
      SlowRunAt(a, b, ans, i);
    }
    PeriodicLocally(es, ts, true, 2.0);
    PeriodicLocally(es, ts, false, 3.0);
    hide Periodic, SlowRun;
  }

  lemma SlowRunAt(a: Request, b: Request, ans: Answer, i: nat)
    requires i < 11
    ensures |SlowRun(a, b, ans)| == |SlowTimes()| == 11
    ensures LocallyPeriodic(SlowRun(a, b, ans), SlowTimes(), true, 2.0, i)
    ensures LocallyPeriodic(SlowRun(a, b, ans), SlowTimes(), false, 3.0, i)
  {
  }

  lemma Run2(x: System, e: Edge, f: Edge, es: seq<Edge>)
    ensures Run(x, [e, f] + es) == Run(Next(Next(x, e), f), es)
  {
    hide Next;
    assert ([e, f] + es)[1..] == [f] + es && ([f] + es)[1..] == es;
  }

  /** A `clk_output` with two thirds of the frequency: the second of two requests in a row is never served. */
  lemma SlowOutputSticks(x: System, a: Request, b: Request, ans: Answer)
    requires Initial(x)
    ensures Merged(SlowRun(a, b, ans), SlowTimes(), 2.0, 3.0)
    ensures Stuck(Run(x, SlowRun(a, b, ans)))
  {
    SlowRunIsMerged(a, b, ans);
    hide Merged;
    var es := SlowRun(a, b, ans);
    var x1 := Next(Next(x, es[0]), es[1]);
    var x2 := Next(Next(x1, es[2]), es[3]);
    var x3 := Next(Next(x2, es[4]), es[5]);
    var x4 := Next(Next(x3, es[6]), es[7]);
    var x5 := Next(Next(x4, es[8]), es[9]);
    assert Stuck(Next(x5, es[10]));
    assert es == [es[0], es[1]] + ([es[2], es[3]] + ([es[4], es[5]] + ([es[6], es[7]] + ([es[8], es[9]] + [es[10]]))));
    assert Run(x, es) == Next(x5, es[10]) by {
      hide Next, SlowRun;
      Run2(x, es[0], es[1], [es[2], es[3]] + ([es[4], es[5]] + ([es[6], es[7]] + ([es[8], es[9]] + [es[10]]))));
      Run2(x1, es[2], es[3], [es[4], es[5]] + ([es[6], es[7]] + ([es[8], es[9]] + [es[10]])));
      Run2(x2, es[4], es[5], [es[6], es[7]] + ([es[8], es[9]] + [es[10]]));
      Run2(x3, es[6], es[7], [es[8], es[9]] + [es[10]]);
      Run2(x4, es[8], es[9], [es[10]]);
      assert [es[10]][1..] == [];
      assert Run(x5, [es[10]]) == Run(Next(x5, es[10]), []);
    }
  }
}
