/**
  When the bridge between two clocks (rtl/verilog/apb_clock_bridge.v) can stop for ever: the gaps of the handshake
  signals that one clock must sample, seen over whole runs, and two clocks of fixed periods.
 */
module ClockGaps {
  import opened ClockBridge

  /** The state before edge k. */
  function Before(x: System, es: seq<Edge>, k: nat): System
    requires k <= |es|
  {
    Run(x, es[..k])
  }

  lemma {:induction false} RunAppend(x: System, a: seq<Edge>, b: seq<Edge>)
    ensures Run(x, a + b) == Run(Run(x, a), b)
    decreases |a|
  {
    hide Next;
    if a == [] {
      assert a + b == b;
    } else {
      assert (a + b)[1..] == a[1..] + b;
      RunAppend(Next(x, a[0]), a[1..], b);
    }
  }

  lemma BeforeFirst(x: System, es: seq<Edge>)
    ensures Before(x, es, 0) == x
  {
    assert es[..0] == [];
  }

  lemma BeforeNext(x: System, es: seq<Edge>, k: nat)
    requires k < |es|
    ensures Before(x, es, k + 1) == Next(Before(x, es, k), es[k])
  {
    hide Next;
    assert es[..k + 1] == es[..k] + [es[k]];
    RunAppend(x, es[..k], [es[k]]);
    var y := Run(x, es[..k]);
    assert Run(Next(y, es[k]), []) == Next(y, es[k]);
    assert [es[k]][1..] == [];
  }

  lemma BeforeInv(x: System, es: seq<Edge>, k: nat)
    requires Initial(x) && k <= |es|
    ensures Inv(Before(x, es, k))
  {
    InvRun(x, es[..k]);
  }

  // ---------------------------------------------------------------- gaps

  /** The master has dropped PENABLE at edge i - 1, and no edge of `clk_output` from i up to n has seen it low. */
  ghost predicate EnableUnseen(x: System, es: seq<Edge>, i: nat, n: nat)
    requires n <= |es|
  {
    && 0 < i <= n && Before(x, es, i - 1).m.phase == Access
    && (forall k :: i <= k <= n ==> Before(x, es, k).m.phase != Access)
    && (forall k :: i <= k < n ==> es[k].In?)
  }

  /** A gap of PENABLE between two accesses that ends with edge j, and that no edge of `clk_output` has sampled. */
  ghost predicate EnableMissed(x: System, es: seq<Edge>, i: nat, j: nat)
    requires j < |es|
  {
    EnableUnseen(x, es, i, j) && es[j].In? && Before(x, es, j + 1).m.phase == Access
  }

  /** ready1 has fallen at edge i - 1, and no edge of `clk_input` from i up to n has seen it low. */
  ghost predicate ReadyUnseen(x: System, es: seq<Edge>, i: nat, n: nat)
    requires n <= |es|
  {
    && 0 < i <= n && Before(x, es, i - 1).r.ready1
    && (forall k :: i <= k <= n ==> !Before(x, es, k).r.ready1)
    && (forall k :: i <= k < n ==> es[k].Out?)
  }

  /** A gap of ready1 between two completions that ends with edge j, and that no edge of `clk_input` has sampled. */
  ghost predicate ReadyMissed(x: System, es: seq<Edge>, i: nat, j: nat)
    requires j < |es|
  {
    ReadyUnseen(x, es, i, j) && es[j].Out? && Before(x, es, j + 1).r.ready1
  }

  ghost predicate MissedBefore(x: System, es: seq<Edge>, n: nat)
    requires n <= |es|
  {
    || (exists i: nat, j: nat :: j < n && EnableMissed(x, es, i, j))
    || (exists i: nat, j: nat :: j < n && ReadyMissed(x, es, i, j))
  }

  /** Every gap of the two handshake signals has been sampled by the other clock. */
  ghost predicate Sampled(x: System, es: seq<Edge>) {
    !MissedBefore(x, es, |es|)
  }

  // ---------------------------------------------------------------- stuck exactly after a missed gap

  /** The output side still remembers the last access exactly while its gap is unseen. */
  lemma {:induction false} EnableRemembered(x: System, es: seq<Edge>, n: nat)
    requires Initial(x) && n <= |es| && !Stuck(Before(x, es, n))
    ensures (exists i: nat :: EnableUnseen(x, es, i, n)) <==>
              var y := Before(x, es, n); y.m.phase != Access && y.r.ready1 && y.r.enableBuf && y.r.outSel
    decreases n
  {
    hide Run;
    if n == 0 {
      BeforeFirst(x, es);
    } else {
      var m := n - 1;
      var y, z := Before(x, es, m), Before(x, es, n);
      BeforeNext(x, es, m);
      BeforeInv(x, es, m);
      if Stuck(y) {
        StuckStays(y, es[m]);
      }
      EnableRemembered(x, es, m);
      EnableStep(y, es[m]);
      hide Before, Next, Inv, Stuck;
      if y.m.phase == Access && z.m.phase != Access {
        assert EnableUnseen(x, es, n, n);
      } else if y.m.phase != Access && z.m.phase != Access && es[m].In? {
        if i: nat :| EnableUnseen(x, es, i, m) {
          assert EnableUnseen(x, es, i, n);
        }
        if i: nat :| EnableUnseen(x, es, i, n) {
          assert EnableUnseen(x, es, i, m);
        }
      }
    }
  }

  predicate Remembered(r: Regs) {
    r.ready1 && r.enableBuf && r.outSel
  }

  lemma EnableStep(y: System, e: Edge)
    requires Inv(y) && !Stuck(y)
    ensures var z := Next(y, e);
            && (y.m.phase == Access && z.m.phase != Access ==> Remembered(z.r))
            && (y.m.phase != Access && z.m.phase != Access ==> (Remembered(z.r) <==> e.In? && Remembered(y.r)))
  {
  }

  /** ready2 remembers the last answer exactly while the gap of ready1 is unseen. */
  lemma {:induction false} ReadyRemembered(x: System, es: seq<Edge>, n: nat)
    requires Initial(x) && n <= |es|
    ensures (exists i: nat :: ReadyUnseen(x, es, i, n)) <==>
              var y := Before(x, es, n); !y.r.ready1 && y.r.ready2
    decreases n
  {
    hide Run;
    if n == 0 {
      BeforeFirst(x, es);
    } else {
      var m := n - 1;
      var y, z := Before(x, es, m), Before(x, es, n);
      BeforeNext(x, es, m);
      BeforeInv(x, es, m);
      ReadyRemembered(x, es, m);
      ReadyStep(y, es[m]);
      hide Before, Next, Inv;
      if y.r.ready1 && !z.r.ready1 {
        assert ReadyUnseen(x, es, n, n);
      } else if !y.r.ready1 && !z.r.ready1 && es[m].Out? {
        if i: nat :| ReadyUnseen(x, es, i, m) {
          assert ReadyUnseen(x, es, i, n);
        }
        if i: nat :| ReadyUnseen(x, es, i, n) {
          assert ReadyUnseen(x, es, i, m);
        }
      }
    }
  }

  lemma ReadyStep(y: System, e: Edge)
    requires Inv(y)
    ensures var z := Next(y, e);
            && (y.r.ready1 && !z.r.ready1 ==> z.r.ready2)
            && (!y.r.ready1 && !z.r.ready1 ==> (z.r.ready2 <==> e.Out? && y.r.ready2))
  {
  }

  /** A step sticks exactly when it ends a gap that nobody has sampled. */
  lemma StepSticks(x: System, es: seq<Edge>, j: nat)
    requires Initial(x) && j < |es| && !Stuck(Before(x, es, j))
    ensures Stuck(Before(x, es, j + 1)) <==>
              (exists i: nat :: EnableMissed(x, es, i, j)) || (exists i: nat :: ReadyMissed(x, es, i, j))
  {
    var y := Before(x, es, j);
    BeforeNext(x, es, j);
    BeforeInv(x, es, j);
    EnableRemembered(x, es, j);
    ReadyRemembered(x, es, j);
    HowItGetsStuck(y, es[j]);
    GapEnds(y, es[j]);
    hide Run, Before, Next, Inv, Stuck;
    if i: nat :| EnableUnseen(x, es, i, j) {
      assert EnableMissed(x, es, i, j) <==> es[j].In? && Before(x, es, j + 1).m.phase == Access;
    }
    if i: nat :| ReadyUnseen(x, es, i, j) {
      assert ReadyMissed(x, es, i, j) <==> es[j].Out? && Before(x, es, j + 1).r.ready1;
    }
  }

  lemma GapEnds(y: System, e: Edge)
    requires Inv(y)
    ensures y.m.phase != Access && e.In? ==> (Next(y, e).m.phase == Access <==> y.m.phase == Setup)
    ensures !y.r.ready1 && e.Out? ==> (Next(y, e).r.ready1 <==> y.r.outEnable && e.s.ready)
    ensures y.r.outEnable ==> !y.r.ready1
  {
  }

  lemma {:induction false} StuckBefore(x: System, es: seq<Edge>, n: nat)
    requires Initial(x) && n <= |es|
    ensures Stuck(Before(x, es, n)) <==> MissedBefore(x, es, n)
    decreases n
  {
    hide Run;
    if n == 0 {
      BeforeFirst(x, es);
    } else {
      StuckBefore(x, es, n - 1);
      BeforeNext(x, es, n - 1);
      BeforeInv(x, es, n - 1);
      if Stuck(Before(x, es, n - 1)) {
        StuckStays(Before(x, es, n - 1), es[n - 1]);
      } else {
        StepSticks(x, es, n - 1);
      }
      hide Before, Next, Stuck, Inv, EnableMissed, ReadyMissed;
    }
  }

  /** Over every run: the handshake is stuck exactly when some gap has been missed. */
  lemma StuckExact(x: System, es: seq<Edge>)
    requires Initial(x)
    ensures Stuck(Run(x, es)) <==> !Sampled(x, es)
  {
    hide Run;
    assert es[..|es|] == es;
    StuckBefore(x, es, |es|);
  }

  // ---------------------------------------------------------------- the bounded response

  function Joined(rounds: seq<seq<Edge>>): seq<Edge> {
    if rounds == [] then [] else rounds[0] + Joined(rounds[1..])
  }

  lemma {:induction false} RoundsJoined(x: System, rounds: seq<seq<Edge>>)
    ensures RunRounds(x, rounds) == Run(x, Joined(rounds))
    decreases |rounds|
  {
    if rounds != [] {
      RunAppend(x, rounds[0], Joined(rounds[1..]));
      RoundsJoined(Run(x, rounds[0]), rounds[1..]);
    }
  }

  /** A request is answered within six rounds whenever the gaps have been sampled. */
  lemma BoundedResponse(x: System, es: seq<Edge>, rounds: seq<seq<Edge>>)
    requires Initial(x) && Run(x, es).m.phase == Access
    requires |rounds| == 6 && forall i :: 0 <= i < |rounds| ==> Round(rounds[i])
    requires Sampled(x, es + Joined(rounds))
    ensures |Run(x, es + Joined(rounds)).answered| > |Run(x, es).answered|
  {
    AnsweredOrStuck(x, es, rounds);
    RoundsJoined(Run(x, es), rounds);
    RunAppend(x, es, Joined(rounds));
    StuckExact(x, es + Joined(rounds));
    hide Run, RunRounds, Joined, Sampled;
  }
}
