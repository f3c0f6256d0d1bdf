/**
 * The shutdown handshake between the server and the lazy deleter: dispatches enqueue partition keys
 * while the worker consumes them; Drain refuses new dispatches and waits for those in flight; Stop
 * then makes the worker drain its queue and exit. No context is cancelled.
 */
module Shutdown {
  import opened Prelude

  type PK = Bytes

  /** The worker at its select, holding a dequeued key, or past quit: draining, holding, exited. */
  datatype Worker = Waiting | Holding(pk: PK) | Draining | DrainHolding(pk: PK) | Exited

  /** Serving; Drain called; Drain returned, all dispatches done or the wait timed out. */
  datatype Stage = Serving | Closing | Drained(clean: bool)

  datatype State = State(
    stage: Stage, inflight: nat, capacity: nat, queue: seq<PK>, worker: Worker, quit: bool,
    accepted: seq<PK>, processed: seq<PK>, dropped: nat)

  datatype Step =
    | Dispatch | Refuse | Enqueue(pk: PK) | Return
    | DrainBegin | DrainReturn | StopBegin
    | Take | Process | SeeQuit | HonourQuit | DrainTake | DrainProcess | DrainDone

  predicate WorkerStep(step: Step) {
    || step.Take? || step.Process?
    || step.SeeQuit? || step.HonourQuit? || step.DrainTake? || step.DrainProcess? || step.DrainDone?
  }

  predicate Enabled(s: State, step: Step) {
    match step
    case Dispatch => s.stage.Serving?
    case Refuse => !s.stage.Serving?
    case Enqueue(_) => s.inflight > 0
    case Return => s.inflight > 0
    case DrainBegin => s.stage.Serving?
    case DrainReturn => s.stage.Closing?
    case StopBegin => s.stage.Drained? && !s.quit
    case Take => s.worker.Waiting? && s.queue != []
    case Process => s.worker.Holding?
    case SeeQuit => s.worker.Waiting? && s.quit
    case HonourQuit => s.worker.Holding? && s.quit
    case DrainTake => s.worker.Draining? && s.queue != []
    case DrainProcess => s.worker.DrainHolding?
    case DrainDone => s.worker.Draining? && s.queue == []
  }

  function Next(s: State, step: Step): State
    requires Enabled(s, step)
  {
    match step
    case Dispatch => s.(inflight := s.inflight + 1)
    case Refuse => s
    case Enqueue(pk) =>
      // A full queue drops the key instead of blocking the dispatch.
      if |s.queue| < s.capacity then s.(queue := s.queue + [pk], accepted := s.accepted + [pk])
      else s.(dropped := s.dropped + 1)
    case Return => s.(inflight := s.inflight - 1)
    case DrainBegin => s.(stage := Closing)
    case DrainReturn => s.(stage := Drained(s.inflight == 0))
    case StopBegin => s.(quit := true)
    case Take => s.(worker := Holding(s.queue[0]), queue := s.queue[1..])
    case Process => s.(worker := Waiting, processed := s.processed + [s.worker.pk])
    case SeeQuit => s.(worker := Draining)
    case HonourQuit => s.(worker := Draining, processed := s.processed + [s.worker.pk])
    case DrainTake => s.(worker := DrainHolding(s.queue[0]), queue := s.queue[1..])
    case DrainProcess => s.(worker := Draining, processed := s.processed + [s.worker.pk])
    case DrainDone => s.(worker := Exited)
  }

  predicate Runs(s: State, run: seq<Step>)
    decreases |run|
  {
    run != [] ==> Enabled(s, run[0]) && Runs(Next(s, run[0]), run[1..])
  }

  function After(s: State, run: seq<Step>): State
    requires Runs(s, run)
    decreases |run|
  {
    if run == [] then s else After(Next(s, run[0]), run[1..])
  }

  function Boot(capacity: nat): State {
    State(Serving, 0, capacity, [], Waiting, false, [], [], 0)
  }

  function Hand(w: Worker): seq<PK> {
    if w.Holding? || w.DrainHolding? then [w.pk] else []
  }

  /** Every accepted key is processed, in the worker's hand or queued, in the order accepted. */
  predicate Accounted(s: State) {
    s.accepted == s.processed + Hand(s.worker) + s.queue
  }

  /** After a clean Drain nothing is in flight; quit follows Drain; past quit the worker only drains. */
  predicate Orderly(s: State) {
    && (s.stage == Drained(true) ==> s.inflight == 0)
    && (s.quit ==> s.stage.Drained?)
    && (s.worker.Draining? || s.worker.DrainHolding? || s.worker.Exited? ==> s.quit)
    && |s.queue| <= s.capacity
    && (s.worker.Exited? && s.stage == Drained(true) ==> s.queue == [])
  }

  lemma StepKeepsAccount(s: State, step: Step)
    requires Accounted(s) && Orderly(s) && Enabled(s, step)
    ensures Accounted(Next(s, step)) && Orderly(Next(s, step))
  {
    if step.Take? || step.DrainTake? {
      assert s.queue == [s.queue[0]] + s.queue[1..];
    }
  }

  lemma {:induction false} RunKeepsAccount(s: State, run: seq<Step>)
    requires Accounted(s) && Orderly(s) && Runs(s, run)
    ensures Accounted(After(s, run)) && Orderly(After(s, run))
    decreases |run|
  {
    if run != [] {
      StepKeepsAccount(s, run[0]);
      RunKeepsAccount(Next(s, run[0]), run[1..]);
    }
  }

  /** At every point of every run: accepted is processed, then the one in hand, then the queue. */
  lemma AcceptedIsAccounted(capacity: nat, run: seq<Step>)
    requires Runs(Boot(capacity), run)
    ensures var s := After(Boot(capacity), run);
            s.accepted == s.processed + Hand(s.worker) + s.queue && |s.queue| <= capacity
  {
    RunKeepsAccount(Boot(capacity), run);
    CapacityIsFixed(Boot(capacity), run);
  }

  lemma {:induction false} CapacityIsFixed(s: State, run: seq<Step>)
    requires Runs(s, run)
    ensures After(s, run).capacity == s.capacity
    decreases |run|
  {
    if run != [] {
      CapacityIsFixed(Next(s, run[0]), run[1..]);
    }
  }

  /** The keys the dispatches of a run hand over, in order. */
  function Offered(run: seq<Step>): seq<PK> {
    if run == [] then [] else (if run[0].Enqueue? then [run[0].pk] else []) + Offered(run[1..])
  }

  /** As long as the keys offered fit the free slots none is dropped: all are accepted, in order. */
  lemma {:induction false} DropsOnlyWhenFull(s: State, run: seq<Step>)
    requires Runs(s, run) && |s.queue| + |Offered(run)| <= s.capacity
    ensures After(s, run).dropped == s.dropped && After(s, run).accepted == s.accepted + Offered(run)
    decreases |run|
  {
    if run != [] {
      DropsOnlyWhenFull(Next(s, run[0]), run[1..]);
    }
  }

  /** Every key offered is accepted or counted as dropped. */
  lemma {:induction false} OfferedIsCounted(s: State, run: seq<Step>)
    requires Runs(s, run)
    ensures |After(s, run).accepted| + After(s, run).dropped == |s.accepted| + s.dropped + |Offered(run)|
    decreases |run|
  {
    if run != [] {
      OfferedIsCounted(Next(s, run[0]), run[1..]);
    }
  }

  /** Once Drain has begun no dispatch becomes in-flight. */
  lemma {:induction false} ClosingAdmitsNobody(s: State, run: seq<Step>)
    requires !s.stage.Serving? && Runs(s, run)
    ensures After(s, run).inflight <= s.inflight && !After(s, run).stage.Serving?
    decreases |run|
  {
    if run != [] {
      ClosingAdmitsNobody(Next(s, run[0]), run[1..]);
    }
  }

  /**
   * If Drain ended with nothing in flight and the worker has exited after Stop, every key ever accepted
   * has been processed, once, in order; and so it stays whatever happens next.
   */
  lemma CleanShutdownLosesNothing(capacity: nat, run: seq<Step>, more: seq<Step>)
    requires Runs(Boot(capacity), run) && Runs(After(Boot(capacity), run), more)
    requires After(Boot(capacity), run).stage == Drained(true)
    requires After(Boot(capacity), run).worker.Exited?
    ensures var s := After(After(Boot(capacity), run), more);
            s.processed == s.accepted == After(Boot(capacity), run).accepted
  {
    RunKeepsAccount(Boot(capacity), run);
    FrozenAfterExit(After(Boot(capacity), run), more);
  }

  lemma {:induction false} FrozenAfterExit(s: State, more: seq<Step>)
    requires Accounted(s) && Orderly(s) && Runs(s, more)
    requires s.stage == Drained(true) && s.worker.Exited?
    ensures var e := After(s, more);
            e.processed == e.accepted == s.accepted
    decreases |more|
  {
    if more != [] {
      StepKeepsAccount(s, more[0]);
      FrozenAfterExit(Next(s, more[0]), more[1..]);
    }
  }

  // ----- Stop returns ---------------------------------------------------------------------------

  /** The worker steps still to take once quit is signalled and nobody enqueues. */
  function Rank(s: State): nat {
    2 * |s.queue| + match s.worker
      case Waiting => 2
      case Holding(_) => 3
      case Draining => 1
      case DrainHolding(_) => 2
      case Exited => 0
  }

  /** After a clean Drain and Stop the worker can always move, and every step brings it closer to exit. */
  lemma StopReturns(s: State, step: Step)
    requires Orderly(s) && s.quit && s.stage == Drained(true)
    ensures !s.worker.Exited? ==> exists w: Step :: WorkerStep(w) && Enabled(s, w)
    ensures Enabled(s, step) ==> step.Refuse? || (WorkerStep(step) && Rank(Next(s, step)) < Rank(s))
  {
    var w := match s.worker
      case Waiting => SeeQuit
      case Holding(_) => Process
      case Draining => if s.queue == [] then DrainDone else DrainTake
      case DrainHolding(_) => DrainProcess
      case Exited => DrainDone;
    assert !s.worker.Exited? ==> WorkerStep(w) && Enabled(s, w);
  }

  // ----- When the wait timed out ----------------------------------------------------------------

  /** What is queued once the worker has exited is never processed. */
  lemma {:induction false} QueuedAfterExitIsLost(s: State, more: seq<Step>)
    requires s.worker.Exited? && Runs(s, more)
    ensures After(s, more).processed == s.processed && s.queue <= After(s, more).queue
    decreases |more|
  {
    if more != [] {
      QueuedAfterExitIsLost(Next(s, more[0]), more[1..]);
    }
  }

  /** Whatever follows, every key accepted by then has been processed. */
  ghost predicate LosesNothing(s: State) {
    forall more: seq<Step> :: Runs(s, more) ==> After(s, more).processed == After(s, more).accepted
  }

  lemma {:induction false} NothingComesIn(s: State, more: seq<Step>)
    requires Runs(s, more) && !s.stage.Serving? && s.inflight == 0
    ensures After(s, more).accepted == s.accepted
    decreases |more|
  {
    if more != [] {
      NothingComesIn(Next(s, more[0]), more[1..]);
    }
  }

  /** One more key arrives. */
  lemma LateKey(s: State, pk: PK)
    requires s.inflight > 0 && |s.queue| < s.capacity
    ensures var late := [Enqueue(pk)];
            Runs(s, late) && After(s, late).accepted == s.accepted + [pk] && After(s, late).processed == s.processed
  {
    Unroll(s, [Enqueue(pk)], Next(s, Enqueue(pk)));
  }

  /**
   * Once the worker has exited, the shutdown loses no accepted key, now or later, if and only if nothing
   * is queued and no dispatch is in flight.
   */
  lemma ExitLosesNothingIffQuiet(capacity: nat, run: seq<Step>)
    requires capacity > 0 && Runs(Boot(capacity), run) && After(Boot(capacity), run).worker.Exited?
    ensures var s := After(Boot(capacity), run);
            LosesNothing(s) <==> s.queue == [] && s.inflight == 0
  {
    RunKeepsAccount(Boot(capacity), run);
    CapacityIsFixed(Boot(capacity), run);
    var s := After(Boot(capacity), run);
    assert Runs(s, []) && After(s, []) == s;
    if s.queue == [] && s.inflight == 0 {
      forall more | Runs(s, more) ensures After(s, more).processed == After(s, more).accepted {
        NothingComesIn(s, more);
        QueuedAfterExitIsLost(s, more);
      }
    } else if s.queue == [] {
      LateKey(s, []);
    }
  }

  /** The worker steps from quit to exit. */
  function ExitRun(s: State): seq<Step>
    decreases Rank(s)
  {
    match s.worker
    case Waiting => [SeeQuit] + ExitRun(s.(worker := Draining))
    case Holding(pk) => [HonourQuit] + ExitRun(s.(worker := Draining, processed := s.processed + [pk]))
    case Draining =>
      if s.queue == [] then [DrainDone]
      else [DrainTake] + ExitRun(s.(worker := DrainHolding(s.queue[0]), queue := s.queue[1..]))
    case DrainHolding(pk) => [DrainProcess] + ExitRun(s.(worker := Draining, processed := s.processed + [pk]))
    case Exited => []
  }

  /** Past quit the worker can reach its exit on its own, emptying the queue. */
  lemma {:induction false} ExitRunExits(s: State)
    requires s.quit && !s.worker.Exited?
    ensures Runs(s, ExitRun(s))
    ensures var e := After(s, ExitRun(s));
            && e.worker.Exited? && e.queue == [] && e.inflight == s.inflight && e.capacity == s.capacity
            && e.stage == s.stage && e.accepted == s.accepted
    decreases Rank(s)
  {
    var run := ExitRun(s);
    var next := Next(s, run[0]);
    Unroll(s, run, next);
    if next.worker.Exited? {
      assert run[1..] == [];
    } else {
      assert run[1..] == ExitRun(next);
      ExitRunExits(next);
    }
  }

  /** No key is lost once Stop has brought the worker to its exit, however it gets there. */
  ghost predicate StopLosesNothing(s: State) {
    forall more: seq<Step> ::
      Runs(s, more) && After(s, more).worker.Exited? ==> After(s, more).processed == After(s, more).accepted
  }

  /**
   * The moment Drain's wait ends decides: no continuation through Stop loses an accepted key if and only
   * if nothing is in flight then, whether the wait completed or timed out.
   */
  lemma DrainDecides(capacity: nat, run: seq<Step>)
    requires capacity > 0 && Runs(Boot(capacity), run) && After(Boot(capacity), run).stage.Closing?
    ensures var s := After(Boot(capacity), run);
            StopLosesNothing(Next(s, DrainReturn)) <==> s.inflight == 0
  {
    RunKeepsAccount(Boot(capacity), run);
    CapacityIsFixed(Boot(capacity), run);
    var s := After(Boot(capacity), run);
    var d := Next(s, DrainReturn);
    StepKeepsAccount(s, DrainReturn);
    if s.inflight == 0 {
      forall more | Runs(d, more) && After(d, more).worker.Exited?
        ensures After(d, more).processed == After(d, more).accepted
      {
        RunKeepsAccount(d, more);
        StageIsFinal(d, more);
      }
    } else {
      var q := Next(d, StopBegin);
      var toExit := ExitRun(q);
      ExitRunExits(q);
      var e := After(q, toExit);
      RunKeepsAccount(q, toExit);
      LateKey(e, []);
      Concat(q, toExit, [Enqueue([])]);
      Unroll(d, [StopBegin] + (toExit + [Enqueue([])]), q);
      assert ([StopBegin] + (toExit + [Enqueue([])]))[1..] == toExit + [Enqueue([])];
      assert After(e, [Enqueue([])]).worker.Exited?;
    }
  }

  lemma {:induction false} StageIsFinal(s: State, more: seq<Step>)
    requires s.stage.Drained? && Runs(s, more)
    ensures After(s, more).stage == s.stage
    decreases |more|
  {
    if more != [] {
      StageIsFinal(Next(s, more[0]), more[1..]);
    }
  }

  lemma {:induction false} Concat(s: State, a: seq<Step>, b: seq<Step>)
    requires Runs(s, a)
    ensures Runs(s, a + b) <==> Runs(After(s, a), b)
    ensures Runs(s, a + b) ==> After(s, a + b) == After(After(s, a), b)
    decreases |a|
  {
    if a == [] {
      assert a + b == b;
    } else {
      assert (a + b)[1..] == a[1..] + b;
      Concat(Next(s, a[0]), a[1..], b);
    }
  }

  /** A dispatch that outlives Drain's timeout loses the key it enqueues after the worker's exit. */
  lemma TimedOutDrainLoses(capacity: nat, pk: PK)
    requires capacity > 0
    ensures var run := [Dispatch, DrainBegin, DrainReturn, StopBegin] + [SeeQuit, DrainDone, Enqueue(pk), Return];
            && Runs(Boot(capacity), run)
            && After(Boot(capacity), run).accepted == [pk]
            && After(Boot(capacity), run).processed == []
  {
    var late := [SeeQuit, DrainDone, Enqueue(pk), Return];
    StoppedTooEarly(capacity, late);
    var s4 := Boot(capacity).(stage := Drained(false), inflight := 1, quit := true);
    var s6 := s4.(worker := Exited);
    var s7 := s6.(queue := [pk], accepted := [pk]);
    Unroll(s4, late, s4.(worker := Draining));
    Unroll(s4.(worker := Draining), late[1..], s6);
    Unroll(s6, late[1..][1..], s7);
    Unroll(s7, late[1..][1..][1..], s7.(inflight := 0));
  }

  lemma StoppedTooEarly(capacity: nat, late: seq<Step>)
    ensures var run := [Dispatch, DrainBegin, DrainReturn, StopBegin] + late;
            var s4 := Boot(capacity).(stage := Drained(false), inflight := 1, quit := true);
            && (Runs(Boot(capacity), run) <==> Runs(s4, late))
            && (Runs(s4, late) ==> After(Boot(capacity), run) == After(s4, late))
  {
    var run := [Dispatch, DrainBegin, DrainReturn, StopBegin] + late;
    var s0 := Boot(capacity);
    var s1 := s0.(inflight := 1);
    Unroll(s0, run, s1);
    Unroll(s1, run[1..], s1.(stage := Closing));
    Unroll(s1.(stage := Closing), run[1..][1..], s1.(stage := Drained(false)));
    Unroll(s1.(stage := Drained(false)), run[1..][1..][1..], s1.(stage := Drained(false), quit := true));
    assert run[1..][1..][1..][1..] == late;
  }

  lemma Unroll(s: State, run: seq<Step>, s': State)
    requires run != [] && Enabled(s, run[0]) && s' == Next(s, run[0])
    ensures Runs(s, run) <==> Runs(s', run[1..])
    ensures Runs(s, run) ==> After(s, run) == After(s', run[1..])
  {
  }

  // ----- The coded queue and drain loop ---------------------------------------------------------

  lemma RunsThen(s: State, run: seq<Step>, step: Step)
    requires Runs(s, run) && Enabled(After(s, run), step)
    ensures Runs(s, run + [step]) && After(s, run + [step]) == Next(After(s, run), step)
  {
    Concat(s, run, [step]);
    Unroll(After(s, run), [step], Next(After(s, run), step));
  }

  /** The deleter's fields; the rest of the process is in rest. */
  class Deleter {
    const capacity: nat
    var queue: seq<PK>
    ghost var rest: State

    constructor (capacity: nat)
      ensures Abs() == Boot(capacity) && this.capacity == capacity
    {
      this.capacity := capacity;
      queue, rest := [], Boot(capacity);
    }

    ghost function Abs(): State
      reads this
    {
      rest.(queue := queue, capacity := capacity)
    }

    /** Enqueue never blocks: it is the protocol's step, dropping the key when the queue is full. */
    method Enqueue(pk: PK)
      requires Enabled(Abs(), Step.Enqueue(pk))
      modifies this
      ensures Abs() == Next(old(Abs()), Step.Enqueue(pk))
    {
      if |queue| < capacity {
        queue := queue + [pk];
        rest := rest.(accepted := rest.accepted + [pk]);
      } else {
        rest := rest.(dropped := rest.dropped + 1);
      }
    }

    /** The drain loop is a run of the protocol that ends in the worker's exit with an empty queue. */
    method Drain() returns (ghost run: seq<Step>)
      requires Abs().worker.Draining?
      modifies this
      ensures Runs(old(Abs()), run) && Abs() == After(old(Abs()), run)
      ensures Abs().worker.Exited? && queue == []
      ensures Abs().processed == old(Abs()).processed + old(queue)
    {
      ghost var start := Abs();
      run := [];
      while |queue| > 0
        invariant Runs(start, run) && Abs() == After(start, run) && Abs().worker.Draining?
        invariant Abs().processed + queue == start.processed + start.queue
        decreases |queue|
      {
        RunsThen(start, run, DrainTake);
        var pk := queue[0];
        queue := queue[1..];
        rest := rest.(worker := DrainHolding(pk));
        run := run + [DrainTake];
        RunsThen(start, run, DrainProcess);
        rest := rest.(worker := Draining, processed := rest.processed + [pk]);
        run := run + [DrainProcess];
      }
      RunsThen(start, run, DrainDone);
      rest := rest.(worker := Exited);
      run := run + [DrainDone];
    }
  }
}
