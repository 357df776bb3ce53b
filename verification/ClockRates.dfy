/**
  For which periods of its two clocks the bridge (rtl/verilog/apb_clock_bridge.v) can stop for ever: exactly when
  `clk_output` is slower than `clk_input`.  A master without pauses and a slave without waits are enough for it.
 */
module ClockRates {
  import opened ClockBridge
  import opened ClockGaps
  import opened ClockPeriods

  /** The two periods, and what master and slave drive at every edge. */
  datatype Clocks = Clocks(p: real, q: real, c: Choice, s: Slave)

  predicate Slower(k: Clocks) {
    0.0 < k.p < k.q && k.c.start && k.s.ready
  }

  // ---------------------------------------------------------------- merging two clocks

  /** The next edge, when the next tick of clk_input is at i and that of clk_output at o. */
  function First(k: Clocks, i: real, o: real): Edge {
    if i < o then In(k.c) else if o < i then Out(k.s) else Both(k.c, k.s)
  }

  function Earlier(i: real, o: real): real {
    if i < o then i else o
  }

  function NextIn(k: Clocks, i: real, o: real): real {
    if i <= o then i + k.p else i
  }

  function NextOut(k: Clocks, i: real, o: real): real {
    if o <= i then o + k.q else o
  }

  function Edges(k: Clocks, i: real, o: real, n: nat): (es: seq<Edge>)
    ensures |es| == n
    decreases n
  {
    if n == 0 then [] else [First(k, i, o)] + Edges(k, NextIn(k, i, o), NextOut(k, i, o), n - 1)
  }

  function Times(k: Clocks, i: real, o: real, n: nat): (ts: seq<real>)
    ensures |ts| == n
    decreases n
  {
    if n == 0 then [] else [Earlier(i, o)] + Times(k, NextIn(k, i, o), NextOut(k, i, o), n - 1)
  }

  /** Neither clock is overdue. */
  predicate Due(k: Clocks, i: real, o: real) {
    0.0 < k.p && 0.0 < k.q && i < o + k.p && o < i + k.q
  }

  lemma DueNext(k: Clocks, i: real, o: real)
    requires Due(k, i, o)
    ensures Due(k, NextIn(k, i, o), NextOut(k, i, o))
    ensures Earlier(NextIn(k, i, o), NextOut(k, i, o)) > Earlier(i, o)
  {
  }

  lemma {:induction false} NotBefore(k: Clocks, i: real, o: real, n: nat, a: nat)
    requires Due(k, i, o) && a < n
    ensures Times(k, i, o, n)[a] >= Earlier(i, o) && (a > 0 ==> Times(k, i, o, n)[a] > Earlier(i, o))
    decreases n
  {
    if a > 0 {
      DueNext(k, i, o);
      NotBefore(k, NextIn(k, i, o), NextOut(k, i, o), n - 1, a - 1);
    }
  }

  lemma {:induction false} Increasing(k: Clocks, i: real, o: real, n: nat, a: nat, b: nat)
    requires Due(k, i, o) && a < b < n
    ensures Times(k, i, o, n)[a] < Times(k, i, o, n)[b]
    decreases n
  {
    if a == 0 {
      NotBefore(k, i, o, n, b);
    } else {
      DueNext(k, i, o);
      Increasing(k, NextIn(k, i, o), NextOut(k, i, o), n - 1, a - 1, b - 1);
    }
  }

  /** The first tick of a clock comes when it is due, and nothing without one comes later. */
  lemma {:induction false} FirstTick(k: Clocks, i: real, o: real, n: nat, input: bool, j: nat)
    requires Due(k, i, o) && j < n
    requires forall a :: 0 <= a < j ==> !Ticked(Edges(k, i, o, n)[a], input)
    ensures var due, t := if input then i else o, Times(k, i, o, n)[j];
            t <= due && (t == due <==> Ticked(Edges(k, i, o, n)[j], input))
    decreases n
  {
    if j > 0 {
      DueNext(k, i, o);
      var es, fs := Edges(k, i, o, n), Edges(k, NextIn(k, i, o), NextOut(k, i, o), n - 1);
      assert !Ticked(es[0], input);
      forall a | 0 <= a < j - 1
        ensures !Ticked(fs[a], input)
      {
        assert fs[a] == es[a + 1];
      }
      FirstTick(k, NextIn(k, i, o), NextOut(k, i, o), n - 1, input, j - 1);
    }
  }

  /** One pair of edges without a tick between them. */
  lemma {:induction false} PairIsPeriodic(k: Clocks, i: real, o: real, n: nat, input: bool, a: nat, b: nat)
    requires Due(k, i, o) && a < b < n
    requires forall c :: a < c < b ==> !Ticked(Edges(k, i, o, n)[c], input)
    ensures var p, d := if input then k.p else k.q, Times(k, i, o, n)[b] - Times(k, i, o, n)[a];
            d <= p && (d == p <==> Ticked(Edges(k, i, o, n)[a], input) && Ticked(Edges(k, i, o, n)[b], input))
    decreases n
  {
    DueNext(k, i, o);
    var i', o' := NextIn(k, i, o), NextOut(k, i, o);
    var es, fs := Edges(k, i, o, n), Edges(k, i', o', n - 1);
    if a == 0 {
      forall c | 0 <= c < b - 1
        ensures !Ticked(fs[c], input)
      {
        assert fs[c] == es[c + 1];
      }
      FirstTick(k, i', o', n - 1, input, b - 1);
    } else {
      forall c | a - 1 < c < b - 1
        ensures !Ticked(fs[c], input)
      {
        assert fs[c] == es[c + 1];
      }
      PairIsPeriodic(k, i', o', n - 1, input, a - 1, b - 1);
    }
  }

  lemma EdgesArePeriodic(k: Clocks, i: real, o: real, n: nat, input: bool)
    requires Due(k, i, o)
    ensures Periodic(Edges(k, i, o, n), Times(k, i, o, n), input, if input then k.p else k.q)
  {
    hide Edges, Times, Due, Ticked;
    forall a, b | 0 <= a < b < n && (forall c :: a < c < b ==> !Ticked(Edges(k, i, o, n)[c], input))
      ensures var p, d := if input then k.p else k.q, Times(k, i, o, n)[b] - Times(k, i, o, n)[a];
              d <= p && (d == p <==> Ticked(Edges(k, i, o, n)[a], input) && Ticked(Edges(k, i, o, n)[b], input))
    {
      PairIsPeriodic(k, i, o, n, input, a, b);
    }
  }

  lemma EdgesAreMerged(k: Clocks, i: real, o: real, n: nat)
    requires Due(k, i, o)
    ensures Merged(Edges(k, i, o, n), Times(k, i, o, n), k.p, k.q)
  {
    forall a, b | 0 <= a < b < n
      ensures Times(k, i, o, n)[a] < Times(k, i, o, n)[b]
    {
      Increasing(k, i, o, n, a, b);
    }
    EdgesArePeriodic(k, i, o, n, true);
    EdgesArePeriodic(k, i, o, n, false);
    hide Periodic, Edges, Times;
  }

  // ---------------------------------------------------------------- the run that sticks

  /** Tick j of clk_input; the first is at 0. */
  function Tick(k: Clocks, j: int): real {
    j as real * k.p
  }

  lemma TickStep(k: Clocks, j: int)
    ensures Tick(k, j + 1) == Tick(k, j) + k.p
  {
  }

  lemma SameTick(k: Clocks, j: int, l: int)
    requires 0.0 < k.p && Tick(k, j) - Tick(k, l) < k.p && Tick(k, l) - Tick(k, j) < k.p
    ensures j == l
  {
    if j > l {
      TickOrder(k, l + 1, j);
      TickStep(k, l);
    } else if j < l {
      TickOrder(k, j + 1, l);
      TickStep(k, j);
    }
  }

  lemma TickOrder(k: Clocks, j: int, l: int)
    requires 0.0 < k.p && j <= l
    ensures Tick(k, j) <= Tick(k, l)
  {
    var d, p := (l - j) as real, k.p;
    assert d * p >= 0.0;
    assert d == l as real - j as real;
    assert d * p == l as real * p - j as real * p;
  }

  /** The first access ends at the fourth tick of clk_output; tick m of clk_input is the next one, and no output tick falls
      between the two ticks after it, in which the master ends the first request and begins the second. */
  predicate Aimed(k: Clocks, start: real, m: int) {
    var late := Tick(k, m) - (start + 3.0 * k.q);
    && Slower(k) && 0.0 < start <= k.p && 0.0 < late <= k.p
    && (if k.q <= 2.0 * k.p then late == k.q - k.p else late + 2.0 * k.p < k.q)
  }

  predicate Quiet(r: Regs) {
    !r.outEnable && !r.ready1 && !r.ready2 && !r.inReady
  }

  /** The way to the stuck state, in nine stages; the next ticks are tick j of clk_input and one of clk_output at o. */
  predicate Stage(k: Clocks, start: real, m: int, x: System, stage: nat, j: int, o: real) {
    && Inv(x) && Aimed(k, start, m)
    && (stage < 6 ==> !Pending(x)) && (3 <= stage <= 7 ==> x.m.phase == Access)
    && match stage
       case 0 => x.m.phase == Idle && Quiet(x.r) && !x.r.outSel && !x.r.enableBuf && j == 0 && o == start
       case 1 => x.m.phase == Setup && Quiet(x.r) && !x.r.outSel && !x.r.enableBuf && j == 1 && o == start
       case 2 => x.m.phase == Setup && Quiet(x.r) && x.r.outSel && !x.r.enableBuf && j == 1 && o == start + k.q
       case 3 => Quiet(x.r) && x.r.outSel && !x.r.enableBuf && o == start + k.q && Tick(k, j) < o + k.p
       case 4 => Quiet(x.r) && x.r.outSel && x.r.enableBuf && o == start + 2.0 * k.q && Tick(k, j) < o + k.p
       case 5 => Quiet(x.r.(outEnable := false)) && x.r.outEnable && x.r.outSel && o == start + 3.0 * k.q && Tick(k, j) < o + k.p
       case 6 => Pending(x) && Quiet(x.r.(ready1 := false)) && j == m && o == start + 4.0 * k.q
       case 7 => Pending(x) && x.r.inReady && !x.r.outEnable && j == m + 1 && o == start + 4.0 * k.q
       case 8 => x.m.phase == Setup && Remembered(x.r) && !x.r.outEnable && j == m + 2 && o > Tick(k, j)
       case _ => false
  }

  function NextTick(k: Clocks, j: int, o: real): int {
    if Tick(k, j) <= o then j + 1 else j
  }

  predicate Closer(k: Clocks, start: real, m: int, x: System, stage: nat, j: int, o: real) {
    var e := First(k, Tick(k, j), o);
    var y, l, u := Next(x, e), NextTick(k, j, o), NextOut(k, Tick(k, j), o);
    if stage == 8 then Stuck(y)
    else (Stage(k, start, m, y, stage, l, u) && l > j) || Stage(k, start, m, y, stage + 1, l, u) || Stage(k, start, m, y, stage + 2, l, u)
  }

  lemma FirstStages(k: Clocks, start: real, m: int, x: System, stage: nat, j: int, o: real)
    requires Stage(k, start, m, x, stage, j, o) && stage <= 2
    ensures Closer(k, start, m, x, stage, j, o)
  {
    InvNext(x, First(k, Tick(k, j), o));
    TickStep(k, j);
    assert Tick(k, 0) == 0.0 && Tick(k, 1) == k.p;
    hide Tick;
  }

  lemma MiddleStages(k: Clocks, start: real, m: int, x: System, stage: nat, j: int, o: real)
    requires Stage(k, start, m, x, stage, j, o) && 3 <= stage <= 5
    ensures Closer(k, start, m, x, stage, j, o)
  {
    InvNext(x, First(k, Tick(k, j), o));
    TickStep(k, j);
    if stage == 5 && Tick(k, j) > o {
      SameTick(k, j, m);
    } else if stage == 5 && Tick(k, j) == o {
      SameTick(k, j + 1, m);
    }
    hide Tick;
  }

  lemma LastStages(k: Clocks, start: real, m: int, x: System, stage: nat, j: int, o: real)
    requires Stage(k, start, m, x, stage, j, o) && 6 <= stage <= 8
    ensures Closer(k, start, m, x, stage, j, o)
  {
    InvNext(x, First(k, Tick(k, j), o));
    TickStep(k, m);
    TickStep(k, m + 1);
    hide Tick;
  }

  lemma StageIsEarly(k: Clocks, start: real, m: int, x: System, stage: nat, j: int, o: real)
    requires Stage(k, start, m, x, stage, j, o)
    ensures stage <= 8 && j <= m + 2
  {
    if stage <= 2 && m < 0 {
      TickOrder(k, m, 0);
    } else if 3 <= stage <= 5 && j > m + 2 {
      TickOrder(k, m + 1, j);
      TickStep(k, m);
    }
  }

  /** Every edge leads to a later tick of clk_input or to a later stage, so the run ends stuck. */
  lemma {:induction false} GetsStuck(k: Clocks, start: real, m: int, x: System, stage: nat, j: int, o: real) returns (n: nat)
    requires Stage(k, start, m, x, stage, j, o)
    ensures Stuck(Run(x, Edges(k, Tick(k, j), o, n)))
    decreases m + 2 - j + 8 - stage
  {
    StageIsEarly(k, start, m, x, stage, j, o);
    if stage <= 2 {
      FirstStages(k, start, m, x, stage, j, o);
    } else if stage <= 5 {
      MiddleStages(k, start, m, x, stage, j, o);
    } else {
      LastStages(k, start, m, x, stage, j, o);
    }
    TickStep(k, j);
    hide Stage, Tick, Next, Stuck;
    var i := Tick(k, j);
    var y, l, u := Next(x, First(k, i, o)), NextTick(k, j, o), NextOut(k, i, o);
    assert Tick(k, l) == NextIn(k, i, o);
    if stage == 8 {
      n := 1;
      assert Edges(k, i, o, 1)[1..] == [];
      assert Run(y, []) == y;
    } else {
      var next := if Stage(k, start, m, y, stage, l, u) && l > j then stage
                  else if Stage(k, start, m, y, stage + 1, l, u) then stage + 1 else stage + 2;
      StageIsEarly(k, start, m, y, next, l, u);
      var r := GetsStuck(k, start, m, y, next, l, u);
      n := r + 1;
      assert Edges(k, i, o, n)[1..] == Edges(k, Tick(k, l), u, r);
    }
  }

  /** Phases that aim at the stuck state, for every pair of periods. */
  lemma Phases(k: Clocks) returns (start: real, m: int)
    requires Slower(k)
    ensures Aimed(k, start, m)
  {
    var late := if k.q <= 2.0 * k.p then k.q - k.p
                else if k.q - 2.0 * k.p < k.p then (k.q - 2.0 * k.p) / 2.0 else k.p / 2.0;
    var v := 3.0 * k.q + late;
    var f := (v / k.p).Floor;
    m := f + 1;
    start := Tick(k, m) - v;
    WholePart(v, k.p);
    assert Tick(k, m) - (start + 3.0 * k.q) == late;
  }

  lemma WholePart(v: real, p: real)
    requires 0.0 < p
    ensures 0.0 < ((v / p).Floor + 1) as real * p - v <= p
  {
    var w := v / p;
    var g := (w.Floor + 1) as real;
    Scaled(g, w, p);
    assert w * p == v;
  }

  lemma Scaled(g: real, w: real, p: real)
    requires 0.0 < p && 0.0 < g - w <= 1.0
    ensures 0.0 < g * p - w * p <= p
  {
    var r := g - w;
    assert g * p - w * p == r * p;
    assert 0.0 < r * p;
    assert (1.0 - r) * p >= 0.0;
    assert (1.0 - r) * p == p - r * p;
  }

  /** However little slower clk_output is, there are phases at which the bridge stops for ever, although the master makes its
      requests without pauses and the slave is always ready. */
  lemma SlowerClockSticks(x: System, p: real, q: real, req: Request, ans: Answer) returns (es: seq<Edge>, ts: seq<real>)
    requires Initial(x) && 0.0 < p < q
    ensures Merged(es, ts, p, q) && Stuck(Run(x, es))
    ensures forall i :: 0 <= i < |es| ==> Drives(es[i], Choice(true, req), Slave(true, ans))
  {
    var k := Clocks(p, q, Choice(true, req), Slave(true, ans));
    var start, m := Phases(k);
    assert Tick(k, 0) == 0.0;
    InvRun(x, []);
    assert Stage(k, start, m, x, 0, 0, start);
    var n := GetsStuck(k, start, m, x, 0, 0, start);
    hide Stage, Stuck, Run;
    es, ts := Edges(k, 0.0, start, n), Times(k, 0.0, start, n);
    EdgesAreMerged(k, 0.0, start, n);
    SameDrive(k, 0.0, start, n);
  }

  lemma {:induction false} SameDrive(k: Clocks, i: real, o: real, n: nat)
    ensures forall a :: 0 <= a < n ==> Drives(Edges(k, i, o, n)[a], k.c, k.s)
    decreases n
  {
    if n > 0 {
      var es, fs := Edges(k, i, o, n), Edges(k, NextIn(k, i, o), NextOut(k, i, o), n - 1);
      SameDrive(k, NextIn(k, i, o), NextOut(k, i, o), n - 1);
      assert forall a :: 0 < a < n ==> es[a] == fs[a - 1];
      assert Drives(First(k, i, o), k.c, k.s);
    }
  }

  predicate Drives(e: Edge, c: Choice, s: Slave) {
    (e.Out? || e.c == c) && (e.In? || e.s == s)
  }

  /** For two clocks of fixed periods the bridge never stops, whatever the phases, the master and the slave, exactly when
      clk_output is at least as fast as clk_input. */
  lemma FixedPeriodsExact(p: real, q: real)
    requires 0.0 < p && 0.0 < q
    ensures (forall x: System, es: seq<Edge>, ts: seq<real> | Initial(x) && Merged(es, ts, p, q) :: !Stuck(Run(x, es))) <==> q <= p
  {
    hide Run, Stuck, Merged;
    if q <= p {
      forall x: System, es: seq<Edge>, ts: seq<real> | Initial(x) && Merged(es, ts, p, q)
        ensures !Stuck(Run(x, es))
      {
        SteadyClocksNeverStick(x, es, ts, p, q);
      }
    } else {
      var req, ans := Request(0, false, 0), Answer(0, false);
      var x := System(Master(Idle, req), Regs(req, false, false, false, false, false, false, ans), [], [], []);
      var es, ts := SlowerClockSticks(x, p, q, req, ans);
    }
  }
}
