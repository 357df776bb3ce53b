/**
  The APB bridge between two clocks (rtl/verilog/apb_clock_bridge.v): a request made by a master in the
  `clk_input` domain is repeated to a slave in the `clk_output` domain.  The edges of the two clocks come in
  any order, also at the same moment, and the slave answers whenever it likes.

  The master follows the operating states of ARM IHI 0024 ("Operating States"): IDLE, SETUP for one cycle,
  then ACCESS with everything held until it samples PREADY.
 */
module ClockBridge {

  datatype Request = Request(addr: int, write: bool, wdata: int)

  datatype Answer = Answer(rdata: int, err: bool)

  /** A transfer as one side of the bridge sees it. */
  datatype Transfer = Transfer(req: Request, ans: Answer)

  /** What the slave drives at an edge of `clk_output`. */
  datatype Slave = Slave(ready: bool, ans: Answer)

  datatype Phase = Idle | Setup | Access

  /** `req` is what the master drives on PADDR, PWRITE and PWDATA; in IDLE it may be anything. */
  datatype Master = Master(phase: Phase, req: Request)

  datatype Regs = Regs(outReq: Request, outSel: bool, outEnable: bool, enableBuf: bool,
                       ready1: bool, ready2: bool, inReady: bool, inAns: Answer)

  /** The registers of the bridge; both clocks update them in place. */
  class Bridge {
    var output_P: Request
    var output_PSEL: bool
    var output_PENABLE: bool
    var enable_buf: bool
    var ready1: bool
    var ready2: bool
    var input_PREADY: bool
    var input_PRDATA: Answer

    ghost function Value(): Regs
      reads this
    {
      Regs(output_P, output_PSEL, output_PENABLE, enable_buf, ready1, ready2, input_PREADY, input_PRDATA)
    }

    /** One rising edge of `clk_output`. */
    method ClkOutput(m: Master, s: Slave)
      modifies this`output_P, this`output_PSEL, this`output_PENABLE, this`enable_buf, this`ready1, this`input_PRDATA
      ensures Value() == OutputEdge(old(Value()), m, s)
    {
      var wasSel, wasEnable, wasBuf := output_PSEL, output_PENABLE, enable_buf;
      output_P := m.req;
      output_PSEL := m.phase != Idle;
      enable_buf := m.phase == Access;
      output_PENABLE := wasSel && wasBuf && !ready1 && !(wasEnable && s.ready);
      if wasSel && wasEnable && s.ready {
        ready1 := true;
        input_PRDATA := s.ans;
      } else if !(wasSel && wasBuf) {
        ready1 := false;
      }
    }

    /** One rising edge of `clk_input`. */
    method ClkInput()
      modifies this`ready2, this`input_PREADY
      ensures Value() == InputEdge(old(Value()))
    {
      var wasReady := input_PREADY;
      input_PREADY := ready1 && !ready2 && !wasReady;
      if !ready1 {
        ready2 := false;
      } else if wasReady {
        ready2 := true;
      }
    }
  }

  function OutputEdge(r: Regs, m: Master, s: Slave): Regs {
    var complete := r.outSel && r.outEnable && s.ready;
    r.(outReq := m.req,
       outSel := m.phase != Idle,
       enableBuf := m.phase == Access,
       outEnable := r.outSel && r.enableBuf && !r.ready1 && !(r.outEnable && s.ready),
       ready1 := complete || (r.ready1 && r.outSel && r.enableBuf),
       inAns := if complete then s.ans else r.inAns)
  }

  function InputEdge(r: Regs): Regs {
    r.(inReady := r.ready1 && !r.ready2 && !r.inReady,
       ready2 := r.ready1 && (r.inReady || r.ready2))
  }

  /** The bridge between master and slave; `issued`, `served` and `answered` record the runs of the two buses. */
  datatype System = System(m: Master, r: Regs,
                           issued: seq<Request>,     // requests the master has started
                           served: seq<Transfer>,    // transfers completed on the output bus
                           answered: seq<Transfer>)  // transfers completed on the input bus

  /** What the master does next when it is free: start `req`, or stay idle and drive anything. */
  datatype Choice = Choice(start: bool, req: Request)

  datatype Edge = In(c: Choice) | Out(s: Slave) | Both(c: Choice, s: Slave)

  function Free(x: System, c: Choice): System {
    if c.start then x.(m := Master(Setup, c.req), issued := x.issued + [c.req]) else x.(m := Master(Idle, c.req))
  }

  /** The master at an edge of `clk_input`; it samples PREADY and PRDATA as they were before the edge. */
  function MasterEdge(x: System, c: Choice): System {
    match x.m.phase
    case Idle => Free(x, c)
    case Setup => x.(m := x.m.(phase := Access))
    case Access => if x.r.inReady then Free(x.(answered := x.answered + [Transfer(x.m.req, x.r.inAns)]), c) else x
  }

  function SlaveEdge(x: System, s: Slave): System {
    if x.r.outSel && x.r.outEnable && s.ready then x.(served := x.served + [Transfer(x.r.outReq, s.ans)]) else x
  }

  /** Both sides of a simultaneous edge see the registers as they were before it. */
  function Next(x: System, e: Edge): System {
    match e
    case In(c) => MasterEdge(x, c).(r := InputEdge(x.r))
    case Out(s) => SlaveEdge(x, s).(r := OutputEdge(x.r, x.m, s))
    case Both(c, s) =>
      SlaveEdge(MasterEdge(x, c), s).(r := OutputEdge(x.r, x.m, s).(inReady := InputEdge(x.r).inReady, ready2 := InputEdge(x.r).ready2))
  }

  function Run(x: System, es: seq<Edge>): System
    decreases |es|
  {
    if es == [] then x else Run(Next(x, es[0]), es[1..])
  }

  predicate Initial(x: System) {
    && x.m.phase == Idle && x.issued == [] && x.served == [] && x.answered == []
    && !x.r.outSel && !x.r.outEnable && !x.r.enableBuf && !x.r.ready1 && !x.r.ready2 && !x.r.inReady
  }

  // ---------------------------------------------------------------- what every edge keeps

  /** The current request has been carried out by the slave but not yet reported to the master. */
  predicate Pending(x: System) { |x.served| == |x.answered| + 1 }

  predicate Requests(ts: seq<Transfer>, rs: seq<Request>) {
    |ts| == |rs| && forall i :: 0 <= i < |ts| ==> ts[i].req == rs[i]
  }

  predicate Inv(x: System) {
    && |x.answered| <= |x.served| <= |x.answered| + 1
    && x.answered == x.served[..|x.answered|]
    && |x.issued| == |x.answered| + (if x.m.phase == Idle then 0 else 1)
    && (x.m.phase != Idle ==> x.issued[|x.answered|] == x.m.req)
    && Requests(x.answered, x.issued[..|x.answered|])
    && (Pending(x) ==>
          && x.m.phase == Access && x.r.ready1 && x.r.outSel && x.r.enableBuf
          && x.served[|x.answered|] == Transfer(x.m.req, x.r.inAns))
    && (x.r.inReady ==> Pending(x) && !x.r.ready2)
    && (x.r.ready1 && !Pending(x) ==> x.r.ready2)
    && (x.r.outEnable ==> !x.r.ready1 && x.r.enableBuf)
    && (x.r.enableBuf && !x.r.ready1 ==> x.m.phase == Access && x.r.outSel && x.r.outReq == x.m.req)
  }

  lemma InvIn(x: System, c: Choice)
    requires Inv(x)
    ensures Inv(Next(x, In(c)))
  {
  }

  lemma InvOut(x: System, s: Slave)
    requires Inv(x)
    ensures Inv(Next(x, Out(s)))
  {
  }

  lemma InvBoth(x: System, c: Choice, s: Slave)
    requires Inv(x)
    ensures Inv(Next(x, Both(c, s)))
  {
  }

  lemma {:induction false} InvRun(x: System, es: seq<Edge>)
    requires Inv(x)
    ensures Inv(Run(x, es))
    decreases |es|
  {
    if es != [] {
      InvNext(x, es[0]);
      InvRun(Next(x, es[0]), es[1..]);
    }
  }

  lemma InvNext(x: System, e: Edge)
    requires Inv(x)
    ensures Inv(Next(x, e))
  {
    match e {
      case In(c) => InvIn(x, c);
      case Out(s) => InvOut(x, s);
      case Both(c, s) => InvBoth(x, c, s);
    }
  }

  // ---------------------------------------------------------------- safety over every run

  /** What the master has been told is exactly what the slave did: every request once, in order, with the
      slave's own answer; at most one access is still to be reported, and PREADY is up only for that one. */
  predicate Transparent(x: System) {
    && x.answered <= x.served
    && |x.served| <= |x.answered| + 1
    && |x.served| <= |x.issued|
    && Requests(x.served, x.issued[..|x.served|])
    && (x.r.inReady ==>
          x.m.phase == Access && x.served == x.answered + [Transfer(x.m.req, x.r.inAns)])
  }

  lemma BridgeIsTransparent(x: System, es: seq<Edge>)
    requires Initial(x)
    ensures Transparent(Run(x, es))
  {
    InvRun(x, es);
    var y := Run(x, es);
    hide Run;
    assert y.served == y.served[..|y.answered|] + y.served[|y.answered|..];
    if Pending(y) {
      assert y.served[..|y.answered|] + [y.served[|y.answered|]] == y.served;
    }
  }

  /** What the slave sees: PENABLE rises after a select cycle with the same request, which is the master's current one;
      while the slave waits it stays up with that request, whatever the clocks do, and it drops once the slave is ready. */
  lemma OutputBusHoldsAccess(x: System, es: seq<Edge>, e: Edge)
    requires Initial(x)
    ensures var y := Run(x, es);
            var z := Next(y, e);
            && (z.r.outEnable ==>
                  && z.r.outSel && z.m.phase == Access && z.r.outReq == z.m.req
                  && y.r.outSel && y.r.outReq == z.r.outReq && y.m == z.m)
            && (y.r.outEnable && (e.In? || !e.s.ready) ==> z.r.outEnable && z.r.outReq == y.r.outReq)
            && (y.r.outEnable && !e.In? && e.s.ready ==> !z.r.outEnable && |z.served| == |y.served| + 1)
            && (|z.served| > |y.served| ==> y.r.outEnable && z.served[|y.served|].req == y.m.req)
  {
    InvRun(x, es);
    InvNext(Run(x, es), e);
    hide Run;
  }

  /** The select phase need not be the single SETUP cycle of ARM IHI 0024: after a rise of PSEL the next edge of `clk_output`
      raises PENABLE exactly when the first one has seen the master in ACCESS already; if it has seen SETUP, there are
      two select cycles or more. */
  lemma SelectPhase(x: System, es: seq<Edge>, e: Edge, f: Edge)
    requires Initial(x) && !e.In? && !f.In?
    ensures var y := Run(x, es);
            var z := Next(y, e);
            !y.r.outSel && z.r.outSel ==> !z.r.outEnable && (Next(z, f).r.outEnable <==> y.m.phase == Access)
  {
    InvRun(x, es);
    hide Run;
  }

  // ---------------------------------------------------------------- progress

  /** The handshake is stuck: the other clock has missed a low phase and nothing can happen any more. */
  predicate Stuck(x: System) {
    && x.m.phase == Access
    && (if Pending(x) then x.r.ready2 else x.r.ready1 && x.r.enableBuf && x.r.outSel)
  }

  lemma StuckStays(x: System, e: Edge)
    requires Inv(x) && Stuck(x)
    ensures Stuck(Next(x, e)) && Next(x, e).answered == x.answered && Next(x, e).served == x.served
  {
  }

  /** The only two ways to get stuck: a request enters ACCESS while the output side still remembers the last
      one, no edge of `clk_output` having sampled PENABLE low; or an access completes while ready2 is still up,
      no edge of `clk_input` having sampled ready1 low. */
  lemma HowItGetsStuck(x: System, e: Edge)
    requires Inv(x) && !Stuck(x)
    ensures Stuck(Next(x, e)) <==>
            || (e.In? && x.m.phase == Setup && x.r.ready1 && x.r.enableBuf && x.r.outSel)
            || (e.Out? && x.r.outEnable && e.s.ready && x.r.ready2)
  {
  }

  /** How many useful edges the current request still needs. */
  function Rank(x: System): nat {
    if Pending(x) then (if x.r.inReady then 0 else 1)
    else if x.r.ready1 then 5
    else if !x.r.enableBuf then 4
    else if !x.r.outEnable then 3
    else 2
  }

  predicate Waiting(x: System, n: nat) {
    Inv(x) && x.m.phase == Access && |x.answered| == n && !Stuck(x)
  }

  /** The edge that the current request waits for. */
  predicate Useful(x: System, e: Edge) {
    if Pending(x) then !e.Out?
    else !e.In? && (x.r.outEnable ==> e.s.ready)
  }

  lemma EdgeProgress(x: System, e: Edge, n: nat)
    requires Waiting(x, n)
    ensures var y := Next(x, e);
            || |y.answered| > n || Stuck(y)
            || (Waiting(y, n) && (if Useful(x, e) then Rank(y) < Rank(x) else Rank(y) <= Rank(x)))
  {
    InvNext(x, e);
  }

  /** A stretch of edges in which both clocks tick and the slave is ready at least once. */
  predicate Round(es: seq<Edge>) {
    && (exists i :: 0 <= i < |es| && !es[i].Out?)
    && (exists i :: 0 <= i < |es| && !es[i].In? && es[i].s.ready)
  }

  predicate Settled(x: System, n: nat) {
    Inv(x) && (|x.answered| > n || Stuck(x))
  }

  lemma {:induction false} SettledStays(x: System, es: seq<Edge>, n: nat)
    requires Settled(x, n)
    ensures Settled(Run(x, es), n)
    decreases |es|
  {
    if es != [] {
      InvNext(x, es[0]);
      if Stuck(x) {
        StuckStays(x, es[0]);
      }
      SettledStays(Next(x, es[0]), es[1..], n);
    }
  }

  predicate HasUseful(x: System, es: seq<Edge>) {
    if Pending(x) then exists i :: 0 <= i < |es| && !es[i].Out?
    else exists i :: 0 <= i < |es| && !es[i].In? && es[i].s.ready
  }

  lemma UsefulLater(x: System, z: System, es: seq<Edge>)
    requires es != [] && HasUseful(x, es) && !Useful(x, es[0]) && Pending(x) == Pending(z)
    ensures HasUseful(z, es[1..])
  {
    if Pending(x) {
      var i :| 0 <= i < |es| && !es[i].Out?;
      assert es[1..][i - 1] == es[i];
    } else {
      var i :| 0 <= i < |es| && !es[i].In? && es[i].s.ready;
      assert es[1..][i - 1] == es[i];
    }
  }

  /** Edges cannot undo progress, and the edge a request waits for is useful whenever it comes. */
  lemma {:induction false} StretchProgress(x: System, es: seq<Edge>, n: nat)
    requires Waiting(x, n)
    ensures var y := Run(x, es);
            Settled(y, n) || (Waiting(y, n) && Rank(y) <= Rank(x) && (HasUseful(x, es) ==> Rank(y) < Rank(x)))
    decreases |es|
  {
    if es != [] {
      var z := Next(x, es[0]);
      EdgeProgress(x, es[0], n);
      InvNext(x, es[0]);
      if |z.answered| > n || Stuck(z) {
        SettledStays(z, es[1..], n);
      } else {
        StretchProgress(z, es[1..], n);
        if HasUseful(x, es) && Rank(z) == Rank(x) {
          UsefulLater(x, z, es);
        }
      }
    }
  }

  function RunRounds(x: System, rounds: seq<seq<Edge>>): System
    decreases |rounds|
  {
    if rounds == [] then x else RunRounds(Run(x, rounds[0]), rounds[1..])
  }

  lemma {:induction false} RoundsProgress(x: System, rounds: seq<seq<Edge>>, n: nat)
    requires Waiting(x, n) || Settled(x, n)
    requires forall i :: 0 <= i < |rounds| ==> Round(rounds[i])
    ensures var y := RunRounds(x, rounds);
            Settled(y, n) || (!Settled(x, n) && Waiting(y, n) && Rank(y) + |rounds| <= Rank(x))
    decreases |rounds|
  {
    if rounds != [] {
      assert Round(rounds[0]);
      if Settled(x, n) {
        SettledStays(x, rounds[0], n);
      } else {
        StretchProgress(x, rounds[0], n);
        assert HasUseful(x, rounds[0]);
      }
      RoundsProgress(Run(x, rounds[0]), rounds[1..], n);
    }
  }

  /** From any reachable state, six rounds answer the current request or end with the handshake stuck. */
  lemma AnsweredOrStuck(x: System, es: seq<Edge>, rounds: seq<seq<Edge>>)
    requires Initial(x) && Run(x, es).m.phase == Access
    requires |rounds| == 6 && forall i :: 0 <= i < |rounds| ==> Round(rounds[i])
    ensures var y := RunRounds(Run(x, es), rounds);
            |y.answered| > |Run(x, es).answered| || Stuck(y)
  {
    InvRun(x, es);
    var z := Run(x, es);
    hide Run, RunRounds;
    if Stuck(z) {
      StuckRounds(z, rounds);
    } else {
      RoundsProgress(z, rounds, |z.answered|);
    }
  }

  lemma {:induction false} StuckRounds(x: System, rounds: seq<seq<Edge>>)
    requires Inv(x) && Stuck(x)
    ensures Stuck(RunRounds(x, rounds))
    decreases |rounds|
  {
    if rounds != [] {
      StuckRun(x, rounds[0]);
      InvRun(x, rounds[0]);
      StuckRounds(Run(x, rounds[0]), rounds[1..]);
    }
  }

  lemma {:induction false} StuckRun(x: System, es: seq<Edge>)
    requires Inv(x) && Stuck(x)
    ensures Stuck(Run(x, es)) && Run(x, es).answered == x.answered
    decreases |es|
  {
    if es != [] {
      StuckStays(x, es[0]);
      InvNext(x, es[0]);
      StuckRun(Next(x, es[0]), es[1..]);
    }
  }
}
