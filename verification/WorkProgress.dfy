/** How far the work queue gets: a bound on the steps of every run, when the stop procedure can
    return, and that neither claim is about nothing. */
module WorkProgress {
  import opened WorkQueue
  import opened WorkRuns

  // ----- how long a run takes -----------------------------------------------------------

  function ThreadCost<T>(t: Thread<T>): nat {
    match t
    case Starting => 2
    case Draining => 1
    case Executing(_) => 2
    case Asleep => 0
    case Woken => 2
    case Exited => 0
  }

  function CallerCost<T>(c: Caller<T>): nat {
    match c
    case Idle => 0
    case Handing(_, _) => 5
    case Stopping(left) => 4 * left
    case Joining(worker) => 4 * worker + 1
  }

  /** Steps the first n workers may still take by themselves. */
  function WorkersCost<T>(ws: seq<Worker<T>>, ts: seq<Thread<T>>, n: nat): nat
    requires n <= |ws| == |ts|
  {
    if n == 0 then 0
    else WorkersCost(ws, ts, n - 1) + 2 * |ws[n - 1].queue| + ThreadCost(ts[n - 1])
  }

  /** Steps left without new work, a spurious wake-up or a stop. */
  function StepsLeft<T>(s: System<T>): nat
    requires |s.workers| == |s.threads|
  {
    WorkersCost(s.workers, s.threads, |s.workers|) + CallerCost(s.caller)
  }

  lemma {:induction false} OneWorkerChanges<T>(ws: seq<Worker<T>>, ts: seq<Thread<T>>, k: nat, w: Worker<T>, t: Thread<T>, n: nat)
    requires k < |ws| == |ts| && n <= |ws|
    ensures WorkersCost(ws[k := w], ts[k := t], n)
         == WorkersCost(ws, ts, n)
            + if k < n then 2 * |w.queue| + ThreadCost(t) - 2 * |ws[k].queue| - ThreadCost(ts[k]) else 0
  {
    if n > 0 {
      OneWorkerChanges(ws, ts, k, w, t, n - 1);
    }
  }

  /** What a step may add to the steps left, itself included. */
  function Allowance<T>(step: Step<T>, n: nat): nat {
    match step
    case Choose(_, _, _) => 6
    case Spurious(_) => 3
    case BeginStop => 4 * n + 1
    case _ => 0
  }

  lemma WorkerStepsLeft<T>(s: System<T>, step: Step<T>, k: nat)
    requires Enabled(s, step) && step in {Lock(k), Take(k), Return(k), Sleep(k), Spurious(k)}
    ensures StepsLeft(Next(s, step)) + 1 <= StepsLeft(s) + Allowance(step, |s.workers|)
  {
    var t := Next(s, step);
    OneWorkerChanges(s.workers, s.threads, k, t.workers[k], t.threads[k], |s.workers|);
    assert t.workers == s.workers[k := t.workers[k]] && t.threads == s.threads[k := t.threads[k]];
  }

  lemma CallerStepsLeft<T>(s: System<T>, step: Step<T>)
    requires Enabled(s, step) && (step.Choose? || step.Enqueue? || step.BeginStop? || step.StopWorker? || step.Join?)
    ensures StepsLeft(Next(s, step)) + 1 <= StepsLeft(s) + Allowance(step, |s.workers|)
  {
    var t := Next(s, step);
    if step.Enqueue? || (step.StopWorker? && s.workers[s.caller.left - 1].active) {
      var k := if step.Enqueue? then s.caller.to else s.caller.left - 1;
      OneWorkerChanges(s.workers, s.threads, k, t.workers[k], t.threads[k], |s.workers|);
    }
  }

  lemma StepLeft<T>(s: System<T>, step: Step<T>)
    requires Enabled(s, step)
    ensures StepsLeft(Next(s, step)) + 1 <= StepsLeft(s) + Allowance(step, |s.workers|)
  {
    match step {
      case Lock(i) => WorkerStepsLeft(s, step, i);
      case Take(i) => WorkerStepsLeft(s, step, i);
      case Return(i) => WorkerStepsLeft(s, step, i);
      case Sleep(i) => WorkerStepsLeft(s, step, i);
      case Spurious(i) => WorkerStepsLeft(s, step, i);
      case _ => CallerStepsLeft(s, step);
    }
  }

  function Allowances<T>(steps: seq<Step<T>>, n: nat): nat {
    if steps == [] then 0 else Allowance(steps[0], n) + Allowances(steps[1..], n)
  }

  lemma {:induction false} RunLeft<T>(s: System<T>, steps: seq<Step<T>>, t: System<T>)
    requires Inv(s) && Run(s, steps, t)
    ensures Inv(t) && |steps| + StepsLeft(t) <= StepsLeft(s) + Allowances(steps, |s.workers|)
    decreases |steps|
  {
    if steps != [] {
      StepKeeps(s, steps[0]);
      StepLeft(s, steps[0]);
      RunLeft(Next(s, steps[0]), steps[1..], t);
    }
  }

  lemma {:induction false} FreshCost<T>(s: System<T>, n: nat)
    requires Initial(s) && n <= |s.workers|
    ensures WorkersCost(s.workers, s.threads, n) <= 2 * n
  {
    if n > 0 {
      FreshCost(s, n - 1);
    }
  }

  /** Every run is finite: two steps for each worker, six for each piece of work, three for each
      spurious wake-up, and 4n + 1 once the queue of n workers is stopped. */
  lemma RunsAreBounded<T>(s0: System<T>, steps: seq<Step<T>>, s: System<T>)
    requires Initial(s0) && Run(s0, steps, s)
    ensures |steps| <= 2 * |s0.workers| + Allowances(steps, |s0.workers|)
  {
    InitialInv(s0);
    RunLeft(s0, steps, s);
    FreshCost(s0, |s0.workers|);
  }

  // ----- all of the stop procedure ------------------------------------------------------

  ghost predicate NoSpurious<T>(steps: seq<Step<T>>) { forall i | 0 <= i < |steps| :: !steps[i].Spurious? }

  /** The stop procedure can run to its end without a spurious wake-up. */
  ghost predicate CanStop<T(!new)>(s: System<T>) {
    exists steps, t :: Run(s, steps, t) && t.caller == Stopping(0) && NoSpurious(steps)
  }

  ghost predicate MissedNow<T>(s: System<T>) { s.caller.Joining? && Missed(s, s.caller.worker) }

  /** The worker whose turn it is. */
  function Turn<T>(s: System<T>): int {
    match s.caller
    case Stopping(left) => left - 1
    case Joining(worker) => worker
    case _ => -1
  }

  /** The loop has not yet got past worker i. */
  predicate Above<T>(s: System<T>, i: int) {
    match s.caller
    case Stopping(left) => left >= i
    case Joining(worker) => worker >= i
    case _ => false
  }

  /** A step towards the end of the stop procedure; it concerns only the worker whose turn it is. */
  lemma StopStep<T>(s: System<T>) returns (step: Step<T>)
    requires Inv(s) && (s.caller.Stopping? || s.caller.Joining?) && !MissedNow(s) && s.caller != Stopping(0)
    ensures Enabled(s, step) && Quiet(step)
    ensures var t := Next(s, step); (t.caller.Stopping? || t.caller.Joining?) && !MissedNow(t)
    ensures var t := Next(s, step); Above(t, Turn(s)) && forall k | 0 <= k < |s.workers| && k != Turn(s) ::
              t.threads[k] == s.threads[k] && t.workers[k] == s.workers[k]
  {
    var i := Turn(s);
    if s.caller.Joining? {
      step := if s.threads[i] == Exited then Join else Lock(i);
    } else {
      step := match s.threads[i]
        case Executing(_) => Return(i)
        case Draining => if s.workers[i].queue == [] then Sleep(i) else Take(i)
        case _ => StopWorker;
    }
  }

  lemma {:induction false} StopRun<T>(s: System<T>) returns (steps: seq<Step<T>>, t: System<T>)
    requires Inv(s) && (s.caller.Stopping? || s.caller.Joining?) && !MissedNow(s)
    ensures Run(s, steps, t) && t.caller == Stopping(0) && NoSpurious(steps)
    decreases StepsLeft(s)
  {
    if s.caller == Stopping(0) {
      steps, t := [], s;
    } else {
      var step := StopStep(s);
      StepKeeps(s, step);
      StepLeft(s, step);
      var rest;
      rest, t := StopRun(Next(s, step));
      steps := [step] + rest;
      assert steps[1..] == rest;
    }
  }

  /** The loop over all workers can still return exactly when it is not joining a worker that
      missed its signal; before the first worker is told to stop, therefore, it always can. */
  lemma StopReturnsExactlyWhen<T(!new)>(s: System<T>)
    requires Reachable(s) && (s.caller.Stopping? || s.caller.Joining?)
    ensures CanStop(s) <==> !MissedNow(s)
  {
    ReachableInv(s);
    if MissedNow(s) {
      forall steps, t | Run(s, steps, t) && NoSpurious(steps)
        ensures t.caller != Stopping(0)
      {
        StaysMissed(s, steps, t, s.caller.worker);
      }
    } else {
      var steps, t := StopRun(s);
    }
  }

  /** No work is queued or executed. */
  ghost predicate NoWork<T>(s: System<T>) {
    && |s.threads| == |s.workers|
    && forall i | 0 <= i < |s.workers| :: s.workers[i].queue == [] && !s.threads[i].Executing?
  }

  lemma {:induction false} NoWorkStays<T>(s: System<T>, steps: seq<Step<T>>, t: System<T>)
    requires Inv(s) && (s.caller.Stopping? || s.caller.Joining?) && NoWork(s) && !MissedNow(s) && Run(s, steps, t)
    ensures Inv(t) && (t.caller.Stopping? || t.caller.Joining?) && NoWork(t) && !MissedNow(t)
    decreases |steps|
  {
    if steps != [] {
      StepKeeps(s, steps[0]);
      NoWorkStays(Next(s, steps[0]), steps[1..], t);
    }
  }

  lemma RunCons<T>(s: System<T>, step: Step<T>, rest: seq<Step<T>>, t: System<T>)
    requires Enabled(s, step) && Run(Next(s, step), rest, t)
    ensures Run(s, [step] + rest, t)
  {
    assert ([step] + rest)[1..] == rest;
  }

  lemma RunTail<T>(s: System<T>, steps: seq<Step<T>>, t: System<T>)
    requires steps != [] && Run(s, steps, t)
    ensures Enabled(s, steps[0]) && Run(Next(s, steps[0]), steps[1..], t)
  {
  }

  lemma {:induction false} RunConcat<T>(s: System<T>, a: seq<Step<T>>, t: System<T>, b: seq<Step<T>>, u: System<T>)
    requires Run(s, a, t) && Run(t, b, u)
    ensures Run(s, a + b, u)
    decreases |a|
  {
    if a == [] {
      assert a + b == b;
    } else {
      RunTail(s, a, t);
      RunConcat(Next(s, a[0]), a[1..], t, b, u);
      RunCons(s, a[0], a[1..] + b, u);
      assert [a[0]] + (a[1..] + b) == a + b;
    }
  }

  /** Worker i executes work and can still be told to stop. */
  ghost predicate Busy<T>(s: System<T>, i: nat) {
    Inv(s) && i < |s.workers| && s.workers[i].active && s.threads[i].Executing?
  }

  /** A worker with work in its queue takes it, while the caller stands still. */
  lemma {:induction false} GetsBusy<T>(s: System<T>, i: nat) returns (steps: seq<Step<T>>, t: System<T>)
    requires Inv(s) && i < |s.workers| && s.workers[i].active
    requires s.workers[i].queue != [] || s.threads[i].Executing?
    ensures Run(s, steps, t) && t.caller == s.caller && Busy(t, i) && |t.workers| == |s.workers|
    decreases StepsLeft(s)
  {
    if s.threads[i].Executing? {
      steps, t := [], s;
    } else {
      var step := if s.threads[i] == Draining then Take(i) else Lock(i);
      StepKeeps(s, step);
      StepLeft(s, step);
      steps, t := GetsBusy(Next(s, step), i);
      RunCons(s, step, steps, t);
      steps := [step] + steps;
    }
  }

  /** The loop comes down to worker i, which goes on executing. */
  lemma {:induction false} ComesDown<T>(s: System<T>, i: nat) returns (steps: seq<Step<T>>, t: System<T>)
    requires Busy(s, i) && (s.caller.Stopping? || s.caller.Joining?) && !MissedNow(s) && Above(s, i + 1)
    ensures Run(s, steps, t) && t.caller == Stopping(i + 1) && Busy(t, i)
    decreases StepsLeft(s)
  {
    if s.caller == Stopping(i + 1) {
      steps, t := [], s;
    } else {
      var step := StopStep(s);
      StepKeeps(s, step);
      StepLeft(s, step);
      steps, t := ComesDown(Next(s, step), i);
      RunCons(s, step, steps, t);
      steps := [step] + steps;
    }
  }

  lemma {:induction false} AppendStep<T>(s0: System<T>, steps: seq<Step<T>>, s: System<T>, step: Step<T>)
    requires Run(s0, steps, s) && Enabled(s, step)
    ensures Run(s0, steps + [step], Next(s, step))
    decreases |steps|
  {
    var all := steps + [step];
    if steps == [] {
      assert all == [step] && all[1..] == [];
    } else {
      AppendStep(Next(s0, steps[0]), steps[1..], s, step);
      assert all[0] == steps[0] && all[1..] == steps[1..] + [step];
    }
  }

  /** From a stop that has just begun, with work at worker i, to its signal being missed. */
  lemma MissesSignal<T>(s: System<T>, i: nat) returns (steps: seq<Step<T>>, t: System<T>)
    requires Inv(s) && s.caller == Stopping(|s.workers|) && i < |s.workers| && s.workers[i].active
    requires s.workers[i].queue != [] || s.threads[i].Executing?
    ensures Run(s, steps, t) && MissedNow(t)
  {
    var a, b, u, v;
    a, u := GetsBusy(s, i);
    b, v := ComesDown(u, i);
    RunConcat(s, a, u, b, v);
    t := Next(v, Step<T>.StopWorker);
    AppendStep(s, a + b, v, StopWorker);
    steps := a + b + [StopWorker];
  }

  lemma ReachNext<T(!new)>(s: System<T>, step: Step<T>)
    requires Reachable(s) && Enabled(s, step)
    ensures Reachable(Next(s, step))
  {
    var s0, steps :| Initial(s0) && Run(s0, steps, s);
    AppendStep(s0, steps, s, step);
  }

  lemma {:induction false} ReachRun<T(!new)>(s: System<T>, steps: seq<Step<T>>, t: System<T>)
    requires Reachable(s) && Run(s, steps, t)
    ensures Reachable(t)
    decreases |steps|
  {
    if steps != [] {
      ReachNext(s, steps[0]);
      ReachRun(Next(s, steps[0]), steps[1..], t);
    }
  }

  ghost predicate NeverSticks<T(!new)>(s: System<T>) { forall steps, u | Run(s, steps, u) :: CanStop(u) }

  lemma IdleStops<T(!new)>(s: System<T>)
    requires Inv(s) && s.caller.Stopping? && NoWork(s)
    ensures NeverSticks(s)
  {
    forall steps, u | Run(s, steps, u)
      ensures CanStop(u)
    {
      NoWorkStays(s, steps, u);
      var rest, v := StopRun(u);
    }
  }

  lemma BusySticks<T(!new)>(s: System<T>, i: nat)
    requires Reachable(s) && Inv(s) && s.caller == Stopping(|s.workers|) && i < |s.workers| && s.workers[i].active
    requires s.workers[i].queue != [] || s.threads[i].Executing?
    ensures !NeverSticks(s)
  {
    var steps, u := MissesSignal(s, i);
    ReachRun(s, steps, u);
    StopReturnsExactlyWhen(u);
  }

  /** Whether stopping the queue can always return, whatever the schedule does: exactly when at the
      call no work is queued and none is executed. */
  lemma StopIsSafeExactlyWhen<T(!new)>(s: System<T>)
    requires Reachable(s) && Enabled(s, Step<T>.BeginStop)
    ensures NeverSticks(Next(s, Step<T>.BeginStop)) <==> NoWork(s)
  {
    ReachableInv(s);
    ReachNext(s, BeginStop);
    StepKeeps(s, Step<T>.BeginStop);
    if NoWork(s) {
      IdleStops(Next(s, Step<T>.BeginStop));
    } else {
      var i: nat :| i < |s.workers| && !(s.workers[i].queue == [] && !s.threads[i].Executing?);
      BusySticks(Next(s, Step<T>.BeginStop), i);
    }
  }

  // ----- a stop that cannot return ------------------------------------------------------

  /** A queue of one active worker that has finished nothing. */
  function One(busy: bool, queue: seq<nat>, t: Thread<nat>, c: Caller<nat>, log: seq<Dispatch<nat>>): System<nat> {
    System([Worker(0, true, busy, queue)], [t], 1, 0, 0, c, log, [[]])
  }

  lemma OneFlag(busy: bool, queue: seq<nat>)
    ensures var flags := Flags([Worker(0, true, busy, queue)]); flags == [true] && ActiveCount(flags) == 1
  {
    var flags := Flags([Worker(0, true, busy, queue)]);
    assert flags == [true] && flags[1..] == [];
  }

  lemma GivenNext(s: System<nat>, work: nat, log: seq<Dispatch<nat>>)
    requires s == One(false, [], Starting, Handing(work, 0), log)
    ensures Enabled(s, Step<nat>.Enqueue) && Next(s, Step<nat>.Enqueue) == One(true, [work], Starting, Idle, log)
  {
    assert [] + [work] == [work];
  }

  /** Work handed to a worker that is just starting. */
  lemma WorkGiven(work: nat)
    ensures Reachable(One(true, [work], Starting, Idle, [Dispatch(work, 0)]))
  {
    var log := [Dispatch(work, 0)];
    var s0, s1 := One(false, [], Starting, Idle, []), One(false, [], Starting, Handing(work, 0), log);
    OneFlag(false, []);
    assert Initial(s0) && Run(s0, [], s0);
    assert [] + log == log;
    assert Enabled(s0, Choose(work, 0, 0)) && Next(s0, Choose(work, 0, 0)) == s1;
    ReachNext(s0, Choose(work, 0, 0));
    GivenNext(s1, work, log);
    ReachNext(s1, Enqueue);
  }

  /** The worker takes the work. */
  lemma WorkTaken(work: nat, log: seq<Dispatch<nat>>)
    requires Reachable(One(true, [work], Starting, Idle, log))
    ensures Reachable(One(true, [], Executing(work), Idle, log))
  {
    var s0, s1, s2 := One(true, [work], Starting, Idle, log), One(true, [work], Draining, Idle, log),
                      One(true, [], Executing(work), Idle, log);
    assert Enabled(s0, Step<nat>.Lock(0)) && Next(s0, Step<nat>.Lock(0)) == s1;
    ReachNext(s0, Lock(0));
    assert [work][1..] == [];
    assert Enabled(s1, Step<nat>.Take(0)) && Next(s1, Step<nat>.Take(0)) == s2;
    ReachNext(s1, Take(0));
  }

  /** The queue is stopped while the worker executes. */
  lemma StoppedWhileBusy(work: nat, log: seq<Dispatch<nat>>)
    requires Reachable(One(true, [], Executing(work), Idle, log))
    ensures Reachable(One(true, [], Executing(work), Stopping(1), log))
  {
    var s := One(true, [], Executing(work), Idle, log);
    assert Next(s, Step<nat>.BeginStop) == One(true, [], Executing(work), Stopping(1), log);
    ReachNext(s, BeginStop);
  }

  /** A stop that cannot return: the worker is told to stop while it executes its first work. */
  lemma StopCanHang(work: nat) returns (s: System<nat>, t: System<nat>)
    ensures Reachable(s) && Enabled(s, Step<nat>.StopWorker) && t == Next(s, Step<nat>.StopWorker)
    ensures s.threads == [Executing(work)] && t.caller == Joining(0) && !CanJoin(t, 0) && !CanStop(t)
  {
    var log := [Dispatch(work, 0)];
    WorkGiven(work);
    WorkTaken(work, log);
    StoppedWhileBusy(work, log);
    s := One(true, [], Executing(work), Stopping(1), log);
    assert Enabled(s, Step<nat>.StopWorker);
    t := Next(s, Step<nat>.StopWorker);
    StopJoinsExactlyWhen(s, 0);
    ReachNext(s, StopWorker);
    StopReturnsExactlyWhen(t);
  }
}
