/**
  The kernel driver's use of the DMA engine (software/linux/drivers/display.c:70-98): callers serialised by a
  mutex, an engine that runs one batch at a time, and an interrupt handler that wakes the caller.

  The engine raises a level interrupt while it is idle and the interrupt is enabled; reading `int_stat` tells
  whether it is idle, writing it enables or disables the interrupt, writing the command count starts a batch
  (rtl/src/main/scala/endeavour2/DmaController.scala:365-370, 464).  Callers, handler and engine take their
  steps in any order.
 */
module DmaDriver {

  import opened MachineTypes

  /** The arguments of call_dma. */
  datatype Request = Request(addr: nat, count: nat, sync: bool)

  /** What the engine was started with. */
  datatype Batch = Batch(addr: nat, count: nat)

  /** Where a caller stands.  `batch` is the number of its own batch once it has started one. */
  datatype Caller =
    | Away
    | Locking(req: Request)                          // mutex_lock_interruptible
    | Check(req: Request, batch: Option<nat>)        // while (!int_stat)
    | Reinit(req: Request, batch: Option<nat>)       // reinit_completion
    | Arm(req: Request, batch: Option<nat>)          // int_stat = 1
    | Sleep(req: Request, batch: Option<nat>)        // wait_for_completion
    | WriteAddress(req: Request)
    | WriteCount(req: Request)
    | Unlock(req: Request, batch: Option<nat>)
  {
    predicate Inside() { !Away? && !Locking? }
  }

  /** `Broken`: a count was written into a running engine. */
  datatype Engine = Idle | Busy | Broken

  datatype Handler = Off | Entered | Cleared

  datatype State = State(callers: seq<Caller>, owner: Option<nat>, completion: nat,
                         engine: Engine, armed: bool, handler: Handler,
                         cmdAddress: nat,          // the register: a batch is read from there
                         batches: seq<Batch>,      // all batches that have been started
                         finished: nat)

  datatype Step =
    | Call(t: nat, req: Request)
    | Acquire(t: nat)
    | Interrupted(t: nat)        // -ERESTARTSYS
    | Proceed(t: nat)
    | Finish(addr: nat)          // the engine ends its batch, with its address register where the commands ended
    | Enter                      // the interrupt is taken
    | Clear                      // int_stat = 0
    | Complete                   // complete(&dma_ready)

  predicate Enabled(s: State, a: Step) {
    match a
    case Call(t, _) => t < |s.callers| && s.callers[t].Away?
    case Acquire(t) => t < |s.callers| && s.callers[t].Locking? && s.owner == None
    case Interrupted(t) => t < |s.callers| && s.callers[t].Locking?
    case Proceed(t) => t < |s.callers| && s.callers[t].Inside() && (s.callers[t].Sleep? ==> s.completion > 0)
    case Finish(_) => s.engine == Busy
    case Enter => s.armed && s.engine == Idle && s.handler == Off
    case Clear => s.handler == Entered
    case Complete => s.handler == Cleared
  }

  function At(s: State, t: nat, c: Caller): State
    requires t < |s.callers|
  {
    s.(callers := s.callers[t := c])
  }

  /** The next statement of a caller that holds the mutex. */
  function Advance(s: State, t: nat): State
    requires Enabled(s, Proceed(t))
  {
    match s.callers[t]
    case Check(r, b) =>
      if s.engine != Idle then At(s, t, Reinit(r, b))
      else if b == None && r.count > 0 then At(s, t, WriteAddress(r))
      else At(s, t, Unlock(r, b))
    case Reinit(r, b) => At(s, t, Arm(r, b)).(completion := 0)
    case Arm(r, b) => At(s, t, Sleep(r, b)).(armed := true)
    case Sleep(r, b) => At(s, t, Check(r, b)).(completion := s.completion - 1)
    case WriteAddress(r) => At(s, t, WriteCount(r)).(cmdAddress := r.addr)
    case WriteCount(r) =>
      At(s, t, if r.sync then Check(r, Some(|s.batches|)) else Unlock(r, Some(|s.batches|)))
      .(engine := if s.engine == Idle then Busy else Broken, batches := s.batches + [Batch(s.cmdAddress, r.count)])
    case Unlock(_, _) => At(s, t, Away).(owner := None)
  }

  function Next(s: State, a: Step): State
    requires Enabled(s, a)
  {
    match a
    case Call(t, r) => At(s, t, Locking(r))
    case Acquire(t) => At(s, t, Check(s.callers[t].req, None)).(owner := Some(t))
    case Interrupted(t) => At(s, t, Away)
    case Proceed(t) => Advance(s, t)
    case Finish(addr) => s.(engine := Idle, finished := s.finished + 1, cmdAddress := addr)
    case Enter => s.(handler := Entered)
    case Clear => s.(handler := Cleared, armed := false)
    case Complete => s.(handler := Off, completion := s.completion + 1)
  }

  predicate Initial(s: State) {
    && (forall t :: 0 <= t < |s.callers| ==> s.callers[t].Away?)
    && s.owner == None && s.completion == 0 && s.engine == Idle && !s.armed && s.handler == Off
    && s.batches == [] && s.finished == 0
  }

  /** A run: every step is possible where it is taken. */
  predicate Possible(s: State, run: seq<Step>)
    decreases |run|
  {
    run == [] || (Enabled(s, run[0]) && Possible(Next(s, run[0]), run[1..]))
  }

  function After(s: State, run: seq<Step>): State
    requires Possible(s, run)
    decreases |run|
  {
    if run == [] then s else After(Next(s, run[0]), run[1..])
  }

  // ---------------------------------------------------------------- what every step keeps

  /** A caller that has started its batch, and the number of that batch. */
  predicate HasBatch(c: Caller) {
    (c.Check? || c.Reinit? || c.Arm? || c.Sleep? || c.Unlock?) && c.batch.Some?
  }

  function BatchOf(c: Caller): nat
    requires HasBatch(c)
  {
    c.batch.value
  }

  /** What holds where the caller inside the mutex stands. */
  predicate OwnerInv(s: State, c: Caller) {
    && (c.Sleep? || (!s.armed && s.handler == Off && s.completion == 0))
    && (c.Sleep? ==>
          && s.completion + (if s.armed then 1 else 0) + (if s.handler == Cleared then 1 else 0) == 1
          && (s.handler != Off || s.completion > 0 ==> s.engine == Idle) && (s.handler == Entered ==> s.armed))
    && (c.WriteAddress? || c.WriteCount? ==> s.engine == Idle && c.req.count > 0)
    && ((c.Check? || c.Reinit? || c.Arm? || c.Sleep?) && c.batch.Some? ==>
          c.batch.value + 1 == |s.batches| && c.req.sync && c.req.count > 0)
    && (c.Unlock? && c.batch.Some? ==> c.batch.value + 1 == |s.batches|)
    && (c.WriteCount? ==> s.cmdAddress == c.req.addr)
    && (c.Inside() && HasBatch(c) ==> BatchOf(c) < |s.batches| && s.batches[BatchOf(c)] == Batch(c.req.addr, c.req.count))
    && (c.Unlock? ==> (c.req.count > 0 <==> c.batch.Some?))
    && (c.Unlock? && c.req.sync ==> s.engine == Idle)
  }

  predicate Inv(s: State) {
    && s.engine != Broken
    && |s.batches| == s.finished + (if s.engine == Busy then 1 else 0)
    && (forall t :: 0 <= t < |s.callers| ==> (s.callers[t].Inside() <==> s.owner == Some(t)))
    && (s.owner.Some? ==> s.owner.value < |s.callers| && OwnerInv(s, s.callers[s.owner.value]))
    && (s.owner == None ==> !s.armed && s.handler == Off && s.completion == 0)
  }

  lemma InvAdvance(s: State, t: nat)
    requires Inv(s) && Enabled(s, Proceed(t))
    ensures Inv(Advance(s, t))
  {
  }

  lemma InvNext(s: State, a: Step)
    requires Inv(s) && Enabled(s, a)
    ensures Inv(Next(s, a))
  {
    if a.Proceed? {
      InvAdvance(s, a.t);
    }
  }

  lemma {:induction false} InvAfter(s: State, run: seq<Step>)
    requires Inv(s) && Possible(s, run)
    ensures Inv(After(s, run))
    decreases |run|
  {
    if run != [] {
      InvNext(s, run[0]);
      InvAfter(Next(s, run[0]), run[1..]);
    }
  }

  // ---------------------------------------------------------------- safety over every run

  /** A command count is written only while the engine is idle, and no two callers are inside at once. */
  lemma CountOnlyWhileIdle(s: State, run: seq<Step>, t: nat, u: nat)
    requires Initial(s) && Possible(s, run) && t < |s.callers| && u < |s.callers|
    ensures var z := After(s, run);
            && |z.callers| == |s.callers| && z.engine != Broken
            && (z.callers[t].WriteAddress? || z.callers[t].WriteCount? ==> z.engine == Idle)
            && (z.callers[t].Inside() && z.callers[u].Inside() ==> t == u)
  {
    CallersStay(s, run);
    InvAfter(s, run);
    hide After, Possible;
  }

  lemma {:induction false} CallersStay(s: State, run: seq<Step>)
    requires Possible(s, run)
    ensures |After(s, run).callers| == |s.callers|
    decreases |run|
  {
    if run != [] {
      CallersStay(Next(s, run[0]), run[1..]);
    }
  }

  /** The batch that a call starts is the one it was called with: at its own address, with its own count. */
  lemma OwnBatch(s: State, run: seq<Step>, t: nat)
    requires Initial(s) && Possible(s, run) && t < |After(s, run).callers|
    ensures var z := After(s, run);
            var c := z.callers[t];
            HasBatch(c) ==> BatchOf(c) < |z.batches| && z.batches[BatchOf(c)] == Batch(c.req.addr, c.req.count)
  {
    InvAfter(s, run);
    hide After, Possible;
  }

  /** A started batch stays as it was started. */
  lemma {:induction false} BatchesStay(s: State, run: seq<Step>)
    requires Possible(s, run)
    ensures s.batches <= After(s, run).batches && s.finished <= After(s, run).finished
    decreases |run|
  {
    if run != [] {
      BatchesStay(Next(s, run[0]), run[1..]);
    }
  }

  /** A call with commands has started its batch by the time it leaves, and a synchronous one leaves only after that batch,
      with its own address and count, and every earlier one, has finished. */
  lemma SyncReturnsAfterItsBatch(s: State, run: seq<Step>, t: nat)
    requires Initial(s) && Possible(s, run) && t < |After(s, run).callers|
    ensures var z := After(s, run);
            var c := z.callers[t];
            && (c.Unlock? && c.req.count > 0 ==>
                  && c.batch.Some? && c.batch.value + 1 == |z.batches|
                  && z.batches[c.batch.value] == Batch(c.req.addr, c.req.count)
                  && (c.req.sync ==> c.batch.value < z.finished))
            && (c.Unlock? && c.req.count == 0 ==> c.batch == None)
  {
    InvAfter(s, run);
    hide After, Possible;
  }

  /** No wakeup is lost: while a caller sleeps, the completion is set, the interrupt is armed, or the handler
      is just about to complete; and exactly one of the three. */
  lemma NoLostWakeup(s: State, run: seq<Step>, t: nat)
    requires Initial(s) && Possible(s, run) && t < |After(s, run).callers|
    ensures var z := After(s, run);
            z.callers[t].Sleep? ==>
              z.completion + (if z.armed then 1 else 0) + (if z.handler == Cleared then 1 else 0) == 1
  {
    InvAfter(s, run);
    hide After, Possible;
  }

  // ---------------------------------------------------------------- progress

  predicate Hardware(a: Step) { a.Finish? || a.Enter? || a.Clear? || a.Complete? }

  /** How many steps of engine and handler are left until a sleeping caller can go on. */
  function WakeRank(s: State): nat {
    if s.completion > 0 then 0
    else if s.handler == Cleared then 1
    else if s.handler == Entered then 2
    else if s.engine == Idle then 3
    else 4
  }

  /** A sleeping caller can go on, or engine and handler have exactly one step to take, which brings it nearer;
      the other callers can neither use up the wakeup nor push it away. */
  lemma SleeperIsWoken(s: State, t: nat, a: Step)
    requires Inv(s) && t < |s.callers| && s.callers[t].Sleep?
    ensures WakeRank(s) == 0 <==> Enabled(s, Proceed(t))
    ensures WakeRank(s) > 0 ==> exists h: Step :: Hardware(h) && Enabled(s, h)
    ensures Enabled(s, a) && a != Proceed(t) ==>
              var z := Next(s, a);
              && |z.callers| == |s.callers| && z.callers[t] == s.callers[t]
              && (WakeRank(s) == 0 ==> WakeRank(z) == 0)
              && (WakeRank(s) > 0 ==> if Hardware(a) then WakeRank(z) < WakeRank(s) else WakeRank(z) == WakeRank(s))
  {
    if WakeRank(s) > 0 {
      var h := if s.handler == Cleared then Complete else if s.handler == Entered then Clear
               else if s.engine == Idle then Enter else Finish(0);
      assert Hardware(h) && Enabled(s, h);
    }
  }

  function HardwareSteps(run: seq<Step>): nat {
    if run == [] then 0 else (if Hardware(run[0]) then 1 else 0) + HardwareSteps(run[1..])
  }

  predicate Without(run: seq<Step>, a: Step) {
    forall i :: 0 <= i < |run| ==> run[i] != a
  }

  /** Four steps of engine and handler, wherever they come in a run, let a sleeping caller go on. */
  lemma {:induction false} WokenWithinFour(s: State, run: seq<Step>, t: nat)
    requires Inv(s) && t < |s.callers| && s.callers[t].Sleep?
    requires Possible(s, run) && Without(run, Proceed(t)) && HardwareSteps(run) >= WakeRank(s)
    ensures Enabled(After(s, run), Proceed(t))
    decreases |run|
  {
    if run == [] {
      SleeperIsWoken(s, t, Finish(0));
    } else {
      assert run[0] != Proceed(t);
      SleeperIsWoken(s, t, run[0]);
      InvNext(s, run[0]);
      WokenWithinFour(Next(s, run[0]), run[1..], t);
    }
  }

  /** Whoever is inside a call, somebody can take a step: the protocol never deadlocks. */
  lemma NeverStuck(s: State, run: seq<Step>, t: nat)
    requires Initial(s) && Possible(s, run) && t < |After(s, run).callers| && !After(s, run).callers[t].Away?
    ensures exists a: Step :: !a.Call? && !a.Interrupted? && Enabled(After(s, run), a)
  {
    InvAfter(s, run);
    var z := After(s, run);
    hide After, Possible;
    if z.owner == None {
      assert Enabled(z, Acquire(t));
    } else {
      var u := z.owner.value;
      if z.callers[u].Sleep? {
        SleeperIsWoken(z, u, Finish(0));
        if WakeRank(z) > 0 {
          var h: Step :| Hardware(h) && Enabled(z, h);
        }
      } else {
        assert Enabled(z, Proceed(u));
      }
    }
  }

  // ---------------------------------------------------------------- a whole call

  /** How many steps of the caller itself and of the hardware are left of a call.  After its wakeup the caller finds the
      engine idle, because nobody else can have started it. */
  function CallRank(s: State, t: nat): nat
    requires t < |s.callers|
  {
    var busy := if s.engine == Busy then 1 else 0;
    match s.callers[t]
    case Away => 0
    case Locking(_) => 0
    case Unlock(_, _) => 1 + busy
    case WriteCount(_) => 11
    case WriteAddress(_) => 12
    case Check(_, b) => if s.engine == Busy then Waiting(b) + 7 else Waiting(b) - 1
    case Sleep(_, b) => Waiting(b) + WakeRank(s)
    case Arm(_, b) => Waiting(b) + 4 + busy
    case Reinit(_, b) => Waiting(b) + 5 + busy
  }

  /** The steps from a wakeup on: with its batch done a call has only to leave, before that it has to start the batch. */
  function Waiting(batch: Option<nat>): nat {
    if batch.Some? then 3 else 14
  }

  lemma CallProgress(s: State, t: nat, a: Step)
    requires Inv(s) && t < |s.callers| && s.callers[t].Inside() && Enabled(s, a)
    ensures var z := Next(s, a);
            |z.callers| == |s.callers| &&
            (if a == Proceed(t) && s.callers[t].Unlock? then z.callers[t].Away?
             else
               && z.callers[t].Inside()
               && (if a == Proceed(t) || Hardware(a) then CallRank(z, t) < CallRank(s, t) else CallRank(z, t) == CallRank(s, t)))
  {
  }

  /** The steps of caller t, and of engine and handler. */
  function CallSteps(run: seq<Step>, t: nat): nat {
    if run == [] then 0 else (if run[0] == Proceed(t) || Hardware(run[0]) then 1 else 0) + CallSteps(run[1..], t)
  }

  /** A caller that holds the mutex has returned after at most 21 steps of its own and of the hardware, however they are
      interleaved with those of all the others. */
  lemma {:induction false} ReturnsWithin(s: State, run: seq<Step>, t: nat) returns (n: nat)
    requires Inv(s) && Possible(s, run) && t < |s.callers| && s.callers[t].Inside()
    requires CallSteps(run, t) >= CallRank(s, t)
    ensures CallRank(s, t) <= 21
    ensures n <= |run| && Possible(s, run[..n]) && t < |After(s, run[..n]).callers| && After(s, run[..n]).callers[t].Away?
    decreases |run|
  {
    RankBounds(s, t);
    CallProgress(s, t, run[0]);
    InvNext(s, run[0]);
    var z := Next(s, run[0]);
    hide Inv, Next, Enabled, CallRank;
    if z.callers[t].Away? {
      n := 1;
      assert run[..1][1..] == [];
      assert Possible(z, []) && After(z, []) == z;
    } else {
      var m := ReturnsWithin(z, run[1..], t);
      n := m + 1;
      assert run[..n][1..] == run[1..][..m];
    }
  }

  lemma RankBounds(s: State, t: nat)
    requires Inv(s) && t < |s.callers| && s.callers[t].Inside()
    ensures 1 <= CallRank(s, t) <= 21
  {
  }

  /** While a call lasts, the caller or the hardware can take one of those steps. */
  lemma CallGoesOn(s: State, t: nat)
    requires Inv(s) && t < |s.callers| && s.callers[t].Inside()
    ensures exists a: Step :: (a == Proceed(t) || Hardware(a)) && Enabled(s, a)
  {
    if s.callers[t].Sleep? && s.completion == 0 {
      SleeperIsWoken(s, t, Finish(0));
      var h: Step :| Hardware(h) && Enabled(s, h);
    } else {
      assert Enabled(s, Proceed(t));
    }
  }

  /** Nothing is lost by resetting the completion: it is never set there. */
  lemma NothingToReset(s: State, run: seq<Step>, t: nat)
    requires Initial(s) && Possible(s, run) && t < |After(s, run).callers|
    ensures var z := After(s, run);
            z.callers[t].Inside() && !z.callers[t].Sleep? ==> z.completion == 0 && !z.armed && z.handler == Off
  {
    InvAfter(s, run);
    hide After, Possible;
  }

  // ---------------------------------------------------------------- one call, step by step

  lemma {:induction false} RunsOn(s: State, a: seq<Step>, b: seq<Step>)
    requires Possible(s, a) && Possible(After(s, a), b)
    ensures Possible(s, a + b) && After(s, a + b) == After(After(s, a), b)
    decreases |a|
  {
    hide Next, Enabled;
    if a == [] {
      assert a + b == b;
    } else {
      assert (a + b)[1..] == a[1..] + b;
      RunsOn(Next(s, a[0]), a[1..], b);
    }
  }

  lemma OneStep(s: State, a: Step)
    requires Enabled(s, a)
    ensures Possible(s, [a]) && After(s, [a]) == Next(s, a)
  {
    hide Next, Enabled;
    assert [a][1..] == [];
    assert After(Next(s, a), []) == Next(s, a);
  }

  lemma TwoSteps(s: State, a: Step, b: Step)
    requires Enabled(s, a) && Enabled(Next(s, a), b)
    ensures Possible(s, [a, b]) && After(s, [a, b]) == Next(Next(s, a), b)
  {
    OneStep(s, a);
    OneStep(Next(s, a), b);
    hide Next, Enabled, Possible, After;
    assert [a, b] == [a] + [b];
    RunsOn(s, [a], [b]);
  }

  /** Nobody is inside, and the engine is idle. */
  predicate Resting(s: State, t: nat) {
    Inv(s) && s.owner == None && t < |s.callers| && s.callers[t].Away? && s.engine == Idle
  }

  /** The caller t has this place, and the engine has been started for it. */
  function During(s: State, t: nat, c: Caller, r: Request): State
    requires t < |s.callers|
  {
    At(s, t, c).(owner := Some(t), cmdAddress := r.addr, batches := s.batches + [Batch(r.addr, r.count)], engine := Busy)
  }

  /** Four steps start the batch of a call: lock, find the engine idle, address, count. */
  lemma StartsBatch(s: State, t: nat, r: Request)
    requires Resting(s, t) && r.count > 0 && r.sync
    ensures var run := [Call(t, r), Acquire(t)] + ([Proceed(t), Proceed(t)] + [Proceed(t)]);
            Possible(s, run) && After(s, run) == During(s, t, Check(r, Some(|s.batches|)), r)
  {
    var s1 := Next(Next(s, Call(t, r)), Acquire(t));
    assert s1 == At(s, t, Check(r, None)).(owner := Some(t));
    TwoSteps(s, Call(t, r), Acquire(t));
    var s2 := Next(Next(s1, Proceed(t)), Proceed(t));
    assert s2 == At(s, t, WriteCount(r)).(owner := Some(t), cmdAddress := r.addr);
    TwoSteps(s1, Proceed(t), Proceed(t));
    OneStep(s2, Proceed(t));
    assert Next(s2, Proceed(t)) == During(s, t, Check(r, Some(|s.batches|)), r);
    hide Possible, After, Next, Enabled, Resting;
    RunsOn(s1, [Proceed(t), Proceed(t)], [Proceed(t)]);
    RunsOn(s, [Call(t, r), Acquire(t)], [Proceed(t), Proceed(t)] + [Proceed(t)]);
  }

  /** Three steps to sleep, while the engine runs: reset, arm, sleep; then the batch ends. */
  lemma GoesToSleep(s: State, t: nat, r: Request, x: nat)
    requires Resting(s, t)
    ensures var c := Some(|s.batches|);
            var z := During(s, t, Check(r, c), r);
            var run := [Proceed(t), Proceed(t)] + [Proceed(t), Finish(x)];
            Possible(z, run) && After(z, run) ==
            During(s, t, Sleep(r, c), r).(armed := true, engine := Idle, finished := s.finished + 1, cmdAddress := x)
  {
    var c := Some(|s.batches|);
    var z := During(s, t, Check(r, c), r);
    var z1 := Next(Next(z, Proceed(t)), Proceed(t));
    assert z1 == During(s, t, Arm(r, c), r);
    TwoSteps(z, Proceed(t), Proceed(t));
    var z2 := Next(Next(z1, Proceed(t)), Finish(x));
    assert z2 == During(s, t, Sleep(r, c), r).(armed := true, engine := Idle, finished := s.finished + 1, cmdAddress := x);
    TwoSteps(z1, Proceed(t), Finish(x));
    hide Possible, After, Next, Enabled, Resting, During;
    RunsOn(z, [Proceed(t), Proceed(t)], [Proceed(t), Finish(x)]);
  }

  /** The interrupt is taken, the handler disarms it and completes, and the caller finds the engine idle. */
  lemma WakesUp(s: State, t: nat, r: Request, x: nat)
    requires Resting(s, t)
    ensures var c := Some(|s.batches|);
            var z := During(s, t, Sleep(r, c), r).(armed := true, engine := Idle, finished := s.finished + 1, cmdAddress := x);
            var run := [Enter, Clear] + [Complete, Proceed(t)];
            Possible(z, run) && After(z, run) ==
            During(s, t, Check(r, c), r).(engine := Idle, finished := s.finished + 1, cmdAddress := x)
  {
    var c := Some(|s.batches|);
    var z := During(s, t, Sleep(r, c), r).(armed := true, engine := Idle, finished := s.finished + 1, cmdAddress := x);
    var z3 := Next(Next(z, Enter), Clear);
    assert z3 == z.(armed := false, handler := Cleared) && Next(z, Enter).armed;
    TwoSteps(z, Enter, Clear);
    var z4 := Next(Next(z3, Complete), Proceed(t));
    assert z4.callers == During(s, t, Check(r, c), r).callers;
    TwoSteps(z3, Complete, Proceed(t));
    hide Possible, After, Next, Enabled, Resting;
    RunsOn(z, [Enter, Clear], [Complete, Proceed(t)]);
  }

  /** A synchronous call on a driver at rest: its own batch is started and finished, and everything else is as before. */
  lemma SyncCall(s: State, t: nat, r: Request, x: nat) returns (run: seq<Step>)
    requires Resting(s, t) && r.count > 0 && r.sync
    ensures Possible(s, run)
    ensures After(s, run) == s.(batches := s.batches + [Batch(r.addr, r.count)], finished := s.finished + 1, cmdAddress := x)
  {
    var start := [Call(t, r), Acquire(t)] + ([Proceed(t), Proceed(t)] + [Proceed(t)]);
    var sleep, wake := [Proceed(t), Proceed(t)] + [Proceed(t), Finish(x)], [Enter, Clear] + [Complete, Proceed(t)];
    var c := Some(|s.batches|);
    var z := During(s, t, Check(r, c), r).(engine := Idle, finished := s.finished + 1, cmdAddress := x);
    var last := s.(batches := s.batches + [Batch(r.addr, r.count)], finished := s.finished + 1, cmdAddress := x);
    StartsBatch(s, t, r);
    GoesToSleep(s, t, r, x);
    WakesUp(s, t, r, x);
    assert s.callers[t := Away] == s.callers;
    assert Next(Next(z, Proceed(t)), Proceed(t)) == last;
    TwoSteps(z, Proceed(t), Proceed(t));
    hide Possible, After, Next, Enabled, Resting, During;
    run := start + (sleep + (wake + [Proceed(t), Proceed(t)]));
    RunsOn(After(During(s, t, Check(r, c), r), sleep), wake, [Proceed(t), Proceed(t)]);
    RunsOn(During(s, t, Check(r, c), r), sleep, wake + [Proceed(t), Proceed(t)]);
    RunsOn(s, start, sleep + (wake + [Proceed(t), Proceed(t)]));
  }
}
