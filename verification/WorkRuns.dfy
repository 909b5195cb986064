/** The dispatcher, its worker threads and the stop procedure as a transition system. Each
    mutex-held region that does not span a wait or a call to the work's function is one step. */
module WorkRuns {
  import opened Machine
  import opened WorkQueue

  /** A worker thread: before its first lock; holding its mutex; inside the work's function;
      asleep on its signal; signalled or woken for no reason but not running yet; returned. */
  datatype Thread<T> = Starting | Draining | Executing(work: T) | Asleep | Woken | Exited

  /** The main thread: between calls; in the dispatcher, worker chosen but its mutex not yet
      taken; in the stop procedure with so many workers left; joining one of them. */
  datatype Caller<T> = Idle | Handing(work: T, to: nat) | Stopping(left: nat) | Joining(worker: nat)

  datatype Dispatch<T> = Dispatch(work: T, to: nat)

  datatype System<T> = System(
    workers: seq<Worker<T>>, threads: seq<Thread<T>>,
    activeN: nat, first: nat, next: nat,
    caller: Caller<T>,
    // history only: all dispatches made, and what each worker has finished, in order
    log: seq<Dispatch<T>>, done: seq<seq<T>>
  )

  /** The table as Workqueue.Init leaves it. */
  ghost predicate Initial<T>(s: System<T>) {
    && 0 < |s.workers| < 256 && |s.threads| == |s.done| == |s.workers|
    && s.activeN == ActiveCount(Flags(s.workers)) > 0
    && s.first < |s.workers| && s.workers[s.first].active && s.next == s.first
    && s.caller == Idle && s.log == []
    && forall i | 0 <= i < |s.workers| ::
         && s.workers[i] == Worker(i, s.workers[i].active, false, [])
         && s.threads[i] == (if s.workers[i].active then Starting else Exited)
         && s.done[i] == []
  }

  datatype Step<T> =
    | Choose(work: T, to: nat, next: nat) | Enqueue
    | Lock(i: nat) | Take(i: nat) | Return(i: nat) | Sleep(i: nat) | Spurious(i: nat)
    | BeginStop | StopWorker | Join

  ghost predicate Enabled<T>(s: System<T>, step: Step<T>) {
    |s.threads| == |s.workers| == |s.done| &&
    match step
    case Choose(work, to, next) =>
      s.caller == Idle && s.activeN > 0 && to < |s.workers|
      && Picks(Flags(s.workers), s.activeN, s.first, s.next, to, next)
    case Enqueue => s.caller.Handing? && s.caller.to < |s.workers| && s.threads[s.caller.to] != Draining
    case Lock(i) => i < |s.workers| && (s.threads[i] == Starting || s.threads[i] == Woken)
    case Take(i) => i < |s.workers| && s.threads[i] == Draining && s.workers[i].queue != []
    case Return(i) => i < |s.workers| && s.threads[i].Executing?
    case Sleep(i) => i < |s.workers| && s.threads[i] == Draining && s.workers[i].queue == []
    case Spurious(i) => i < |s.workers| && s.threads[i] == Asleep
    case BeginStop => s.caller == Idle && s.activeN > 0
    case StopWorker =>
      s.caller.Stopping? && 0 < s.caller.left <= |s.workers| && s.threads[s.caller.left - 1] != Draining
    case Join => s.caller.Joining? && s.caller.worker < |s.workers| && s.threads[s.caller.worker] == Exited
  }

  function Signalled<T>(t: Thread<T>): Thread<T> { if t == Asleep then Woken else t }

  ghost function Next<T>(s: System<T>, step: Step<T>): System<T>
    requires Enabled(s, step)
  {
    match step
    case Choose(work, to, next) =>
      s.(caller := Handing(work, to), next := next, log := s.log + [Dispatch(work, to)])
    case Enqueue =>
      var to := s.caller.to;
      var w := s.workers[to];
      s.(workers := s.workers[to := w.(queue := w.queue + [s.caller.work], busy := true)],
         threads := s.threads[to := Signalled(s.threads[to])], caller := Idle)
    case Lock(i) => s.(threads := s.threads[i := if s.workers[i].active then Draining else Exited])
    case Take(i) =>
      var w := s.workers[i];
      s.(workers := s.workers[i := w.(queue := w.queue[1..])],
         threads := s.threads[i := Executing(w.queue[0])])
    case Return(i) =>
      s.(threads := s.threads[i := Draining], done := s.done[i := s.done[i] + [s.threads[i].work]])
    case Sleep(i) =>
      s.(workers := s.workers[i := s.workers[i].(busy := false)], threads := s.threads[i := Asleep])
    case Spurious(i) => s.(threads := s.threads[i := Woken])
    case BeginStop => s.(caller := Stopping(|s.workers|))
    case StopWorker =>
      var i := s.caller.left - 1;
      if s.workers[i].active then
        s.(workers := s.workers[i := s.workers[i].(active := false)],
           threads := s.threads[i := Signalled(s.threads[i])],
           activeN := if s.activeN > 0 then s.activeN - 1 else TWO32 - 1, caller := Joining(i))
      else s.(caller := Stopping(i))
    case Join => s.(caller := Stopping(s.caller.worker))
  }

  ghost predicate Run<T>(s0: System<T>, steps: seq<Step<T>>, s: System<T>)
    decreases |steps|
  {
    if steps == [] then s == s0
    else Enabled(s0, steps[0]) && Run(Next(s0, steps[0]), steps[1..], s)
  }

  ghost predicate Reachable<T(!new)>(s: System<T>) {
    exists s0, steps :: Initial(s0) && Run(s0, steps, s)
  }

  // ----- where every piece of work is ---------------------------------------------------

  /** What has been dispatched to worker i, in order. */
  function Sent<T>(log: seq<Dispatch<T>>, i: nat): seq<T> {
    if log == [] then []
    else Sent(log[..|log| - 1], i) + if log[|log| - 1].to == i then [log[|log| - 1].work] else []
  }

  function Running<T>(t: Thread<T>): seq<T> { if t.Executing? then [t.work] else [] }

  function InHand<T>(c: Caller<T>, i: nat): seq<T> { if c.Handing? && c.to == i then [c.work] else [] }

  /** Everything worker i has finished, is executing, has queued, or is about to be given. */
  function Held<T>(s: System<T>, i: nat): seq<T>
    requires i < |s.workers| && |s.threads| == |s.done| == |s.workers|
  {
    s.done[i] + Running(s.threads[i]) + s.workers[i].queue + InHand(s.caller, i)
  }

  /** One worker: its flags agree with what it holds and where its thread is. */
  ghost predicate WorkerInv<T>(w: Worker<T>, t: Thread<T>) {
    && (t == Asleep ==> w.queue == [] && !w.busy)
    && (!w.busy ==> w.queue == [] && !t.Executing?)
    && (t == Exited ==> !w.active)
  }

  ghost predicate CallerInv<T>(s: System<T>)
    requires |s.threads| == |s.workers|
  {
    && (s.caller.Handing? ==> s.caller.to < |s.workers| && s.workers[s.caller.to].active)
    && (s.caller.Idle? || s.caller.Handing? ==> s.first < |s.workers| && s.workers[s.first].active)
    && (s.caller.Idle? || s.caller.Handing? ==> forall i | 0 <= i < |s.workers| && !s.workers[i].active ::
          s.workers[i].queue == [] && s.threads[i] == Exited)
    && (s.caller.Stopping? ==> s.caller.left <= |s.workers|)
    && (s.caller.Joining? ==> s.caller.worker < |s.workers| && !s.workers[s.caller.worker].active)
  }

  /** What a worker holds is what it was sent. */
  ghost predicate Placed<T>(s: System<T>)
    requires |s.threads| == |s.done| == |s.workers|
  {
    forall i | 0 <= i < |s.workers| :: Held(s, i) == Sent(s.log, i)
  }

  ghost predicate Inv<T>(s: System<T>) {
    && 0 < |s.workers| < 256 && |s.threads| == |s.done| == |s.workers|
    && s.activeN == ActiveCount(Flags(s.workers))
    && s.next < |s.workers|
    && CallerInv(s)
    && (forall i | 0 <= i < |s.workers| :: s.workers[i].idx == i && WorkerInv(s.workers[i], s.threads[i]))
    && Placed(s)
  }

  lemma InitialInv<T>(s: System<T>)
    requires Initial(s)
    ensures Inv(s)
  {
  }

  /** Changing everything but one worker's active flag leaves all flags as they were. */
  lemma SameFlags<T>(a: seq<Worker<T>>, i: nat, w: Worker<T>)
    requires i < |a| && w.active == a[i].active
    ensures Flags(a[i := w]) == Flags(a)
  {
  }

  lemma FlagCleared<T>(a: seq<Worker<T>>, i: nat)
    requires i < |a| && a[i].active
    ensures Flags(a[i := a[i].(active := false)]) == Flags(a)[i := false]
    ensures ActiveCount(Flags(a[i := a[i].(active := false)])) == ActiveCount(Flags(a)) - 1
  {
    assert Flags(a[i := a[i].(active := false)]) == Flags(a)[i := false];
    Deactivated(Flags(a), i);
  }

  lemma SentSnoc<T>(log: seq<Dispatch<T>>, d: Dispatch<T>, i: nat)
    ensures Sent(log + [d], i) == Sent(log, i) + if d.to == i then [d.work] else []
  {
    assert (log + [d])[..|log|] == log;
  }

  lemma ChooseKeeps<T>(s: System<T>, step: Step<T>)
    requires Inv(s) && step.Choose? && Enabled(s, step)
    ensures Inv(Next(s, step))
  {
    var t := Next(s, step);
    forall i | 0 <= i < |s.workers|
      ensures Held(t, i) == Sent(t.log, i)
    {
      assert Held(s, i) == Sent(s.log, i);
      SentSnoc(s.log, Dispatch(step.work, step.to), i);
    }
  }

  /** A step that changes what one worker holds only in arrangement keeps all the others. */
  lemma HeldKept<T>(s: System<T>, t: System<T>, k: nat)
    requires |t.threads| == |t.done| == |t.workers| == |s.workers| == |s.threads| == |s.done| && t.log == s.log
    requires k < |s.workers| && Placed(s)
    requires forall i | 0 <= i < |s.workers| && i != k ::
      t.workers[i].queue == s.workers[i].queue && t.threads[i] == s.threads[i] && t.done[i] == s.done[i]
      && InHand(t.caller, i) == InHand(s.caller, i)
    requires Held(t, k) == Held(s, k)
    ensures Placed(t)
  {
    forall i | 0 <= i < |s.workers|
      ensures Held(t, i) == Sent(t.log, i)
    {
      assert Held(s, i) == Sent(s.log, i);
    }
  }

  lemma EnqueueKeeps<T>(s: System<T>)
    requires Inv(s) && Enabled(s, Step<T>.Enqueue)
    ensures Inv(Next(s, Step<T>.Enqueue))
  {
    var t, to := Next(s, Step<T>.Enqueue), s.caller.to;
    assert Held(s, to) == Held(t, to);
    HeldKept(s, t, to);
    SameFlags(s.workers, to, t.workers[to]);
  }

  lemma QueueStepKeeps<T>(s: System<T>, step: Step<T>, i: nat)
    requires Inv(s) && Enabled(s, step) && (step == Take(i) || step == Sleep(i))
    ensures Inv(Next(s, step))
  {
    var t := Next(s, step);
    assert Held(s, i) == Held(t, i);
    HeldKept(s, t, i);
    SameFlags(s.workers, i, t.workers[i]);
  }

  lemma ThreadStepKeeps<T>(s: System<T>, step: Step<T>, i: nat)
    requires Inv(s) && Enabled(s, step) && (step == Lock(i) || step == Return(i) || step == Spurious(i))
    ensures Inv(Next(s, step))
  {
    var t := Next(s, step);
    assert Held(s, i) == Held(t, i);
    HeldKept(s, t, i);
  }

  /** A step that leaves queues, finished work and the work in hand as they are. */
  lemma HeldUntouched<T>(s: System<T>, t: System<T>)
    requires |t.threads| == |t.done| == |t.workers| == |s.workers| == |s.threads| == |s.done| && t.log == s.log
    requires Placed(s) && t.done == s.done
    requires forall i | 0 <= i < |s.workers| ::
      t.workers[i].queue == s.workers[i].queue && Running(t.threads[i]) == Running(s.threads[i])
      && InHand(t.caller, i) == InHand(s.caller, i)
    ensures Placed(t)
  {
    forall i | 0 <= i < |s.workers|
      ensures Held(t, i) == Sent(t.log, i)
    {
      assert Held(s, i) == Sent(s.log, i);
    }
  }

  lemma FlagTaken<T>(s: System<T>)
    requires Inv(s) && Enabled(s, Step<T>.StopWorker) && s.workers[s.caller.left - 1].active
    ensures var t := Next(s, Step<T>.StopWorker); t.activeN == ActiveCount(Flags(t.workers))
  {
    FlagCleared(s.workers, s.caller.left - 1);
    SomeActive(Flags(s.workers), s.caller.left - 1);
  }

  lemma TellsToStop<T>(s: System<T>)
    requires Inv(s) && Enabled(s, Step<T>.StopWorker)
    ensures Inv(Next(s, Step<T>.StopWorker))
  {
    if s.workers[s.caller.left - 1].active {
      FlagTaken(s);
    }
    HeldUntouched(s, Next(s, Step<T>.StopWorker));
  }

  lemma StopStepKeeps<T>(s: System<T>, step: Step<T>)
    requires Inv(s) && Enabled(s, step) && (step.BeginStop? || step.StopWorker? || step.Join?)
    ensures Inv(Next(s, step))
  {
    if step.StopWorker? {
      TellsToStop(s);
    } else {
      HeldUntouched(s, Next(s, step));
    }
  }

  lemma StepKeeps<T>(s: System<T>, step: Step<T>)
    requires Inv(s) && Enabled(s, step)
    ensures Inv(Next(s, step))
  {
    match step {
      case Choose(_, _, _) => ChooseKeeps(s, step);
      case Enqueue => EnqueueKeeps(s);
      case BeginStop => StopStepKeeps(s, step);
      case StopWorker => StopStepKeeps(s, step);
      case Join => StopStepKeeps(s, step);
      case Take(i) => QueueStepKeeps(s, step, i);
      case Sleep(i) => QueueStepKeeps(s, step, i);
      case _ => ThreadStepKeeps(s, step, step.i);
    }
  }

  lemma {:induction false} RunKeeps<T>(s0: System<T>, steps: seq<Step<T>>, s: System<T>)
    requires Inv(s0) && Run(s0, steps, s)
    ensures Inv(s)
    decreases |steps|
  {
    if steps != [] {
      StepKeeps(s0, steps[0]);
      RunKeeps(Next(s0, steps[0]), steps[1..], s);
    }
  }

  lemma ReachableInv<T(!new)>(s: System<T>)
    requires Reachable(s)
    ensures Inv(s)
  {
    var s0, steps :| Initial(s0) && Run(s0, steps, s);
    InitialInv(s0);
    RunKeeps(s0, steps, s);
  }

  /** In every reachable state each worker has processed a prefix of what it was given, in the
      order given, and the rest is being executed, queued or about to be queued there. */
  lemma FirstInFirstOut<T(!new)>(s: System<T>, i: nat)
    requires Reachable(s) && i < |s.workers|
    ensures |s.threads| == |s.done| == |s.workers|
    ensures Sent(s.log, i) == s.done[i] + Running(s.threads[i]) + s.workers[i].queue + InHand(s.caller, i)
  {
    ReachableInv(s);
  }

  function Works<T>(log: seq<Dispatch<T>>): multiset<T> {
    if log == [] then multiset{} else Works(log[..|log| - 1]) + multiset{log[|log| - 1].work}
  }

  /** All pieces of work in the parts. */
  function AllOf<T>(parts: seq<seq<T>>): multiset<T> {
    if parts == [] then multiset{} else AllOf(parts[..|parts| - 1]) + multiset(parts[|parts| - 1])
  }

  /** What each of n workers was sent. */
  function SentParts<T>(log: seq<Dispatch<T>>, n: nat): (parts: seq<seq<T>>)
    ensures |parts| == n && forall i :: 0 <= i < n ==> parts[i] == Sent(log, i)
  {
    seq(n, i requires 0 <= i < n => Sent(log, i))
  }

  /** What each worker holds. */
  function HeldParts<T>(s: System<T>): (parts: seq<seq<T>>)
    requires |s.threads| == |s.done| == |s.workers|
    ensures |parts| == |s.workers| && forall i :: 0 <= i < |s.workers| ==> parts[i] == Held(s, i)
  {
    seq(|s.workers|, i requires 0 <= i < |s.workers| => Held(s, i))
  }

  lemma OneMore<T>(s: seq<T>, x: T)
    ensures multiset(s + [x]) == multiset(s) + multiset{x}
  {
  }

  /** One more piece of work in one part. */
  lemma {:induction false} OneMoreIn<T>(parts: seq<seq<T>>, i: nat, x: T)
    requires i < |parts|
    ensures AllOf(parts[i := parts[i] + [x]]) == AllOf(parts) + multiset{x}
  {
    var n, more := |parts| - 1, parts[i := parts[i] + [x]];
    if i == n {
      assert more[..n] == parts[..n];
      OneMore(parts[n], x);
    } else {
      assert more[..n] == parts[..n][i := parts[i] + [x]];
      OneMoreIn(parts[..n], i, x);
    }
  }

  lemma {:induction false} NothingIn<T>(parts: seq<seq<T>>)
    requires forall i :: 0 <= i < |parts| ==> parts[i] == []
    ensures AllOf(parts) == multiset{}
  {
    if parts != [] {
      NothingIn(parts[..|parts| - 1]);
    }
  }

  lemma SentPartsSnoc<T>(log: seq<Dispatch<T>>, d: Dispatch<T>, n: nat)
    requires d.to < n
    ensures SentParts(log + [d], n) == SentParts(log, n)[d.to := Sent(log, d.to) + [d.work]]
  {
    forall i | 0 <= i < n
      ensures Sent(log + [d], i) == SentParts(log, n)[d.to := Sent(log, d.to) + [d.work]][i]
    {
      SentSnoc(log, d, i);
    }
  }

  lemma {:induction false} AllSent<T>(log: seq<Dispatch<T>>, n: nat)
    requires forall d | d in log :: d.to < n
    ensures AllOf(SentParts(log, n)) == Works(log)
  {
    if log == [] {
      NothingIn(SentParts(log, n));
    } else {
      var front, d := log[..|log| - 1], log[|log| - 1];
      assert log == front + [d] && d in log;
      AllSent(front, n);
      SentPartsSnoc(front, d, n);
      OneMoreIn(SentParts(front, n), d.to, d.work);
    }
  }

  lemma {:induction false} ToWorkers<T>(s0: System<T>, steps: seq<Step<T>>, s: System<T>)
    requires Run(s0, steps, s) && forall d | d in s0.log :: d.to < |s0.workers|
    ensures |s.workers| == |s0.workers| && forall d | d in s.log :: d.to < |s.workers|
    decreases |steps|
  {
    if steps != [] {
      ToWorkers(Next(s0, steps[0]), steps[1..], s);
    }
  }

  /** No work is lost or done twice: at any moment what all the workers have finished, are
      executing, have queued or are being given is exactly what was dispatched. */
  lemma EveryWorkInOnePlace<T(!new)>(s: System<T>)
    requires Reachable(s)
    ensures |s.threads| == |s.done| == |s.workers|
    ensures AllOf(HeldParts(s)) == Works(s.log)
  {
    var s0, steps :| Initial(s0) && Run(s0, steps, s);
    ToWorkers(s0, steps, s);
    ReachableInv(s);
    assert HeldParts(s) == SentParts(s.log, |s.workers|);
    AllSent(s.log, |s.workers|);
  }

  /** The active worker fewest slots after start. */
  lemma {:induction false} FirstFrom(flags: seq<bool>, start: nat, c: nat) returns (b: nat)
    requires start < |flags| && c < |flags| && flags[c]
    ensures Selects(flags, start, b)
    decreases Ahead(start, c, |flags|)
  {
    if j :| 0 <= j < |flags| && Ahead(start, j, |flags|) < Ahead(start, c, |flags|) && flags[j] {
      b := FirstFrom(flags, start, j);
    } else {
      b := c;
    }
  }

  /** The dispatcher always has an active worker to pick, picks only such, and until the queue is
      being stopped the worker about to receive work is active. */
  lemma DispatchesToActive<T(!new)>(s: System<T>, work: T) returns (to: nat, next: nat)
    requires Reachable(s) && s.caller == Idle
    ensures s.activeN > 0 && Enabled(s, Choose(work, to, next))
    ensures forall c: nat, k: nat | Enabled(s, Choose(work, c, k)) :: c == to && s.workers[c].active
  {
    ReachableInv(s);
    var flags := Flags(s.workers);
    SomeActive(flags, s.first);
    if s.activeN > 1 {
      to := FirstFrom(flags, s.next, s.first);
      next := Following(to, |flags|);
    } else {
      to, next := s.first, s.next;
    }
  }

  /** A sleeping worker that nobody has signalled has nothing to do, and a worker that claims not
      to be busy holds no work: freeing it then meets its assertion. */
  lemma NoLostWakeup<T(!new)>(s: System<T>, i: nat)
    requires Reachable(s) && i < |s.workers|
    ensures |s.threads| == |s.workers|
    ensures s.threads[i] == Asleep ==> s.workers[i].queue == []
    ensures !s.workers[i].busy ==> s.workers[i].queue == [] && !s.threads[i].Executing?
  {
    ReachableInv(s);
  }

  ghost predicate Quiet<T>(step: Step<T>) { !step.Choose? && !step.Spurious? && !step.BeginStop? }

  /** Until the queue is being stopped: either all dispatched work has been processed, or some
      thread can go on without new work, a spurious wake-up or a stop. */
  lemma WorkGetsDone<T(!new)>(s: System<T>) returns (step: Step<T>)
    requires Reachable(s) && (s.caller == Idle || s.caller.Handing?)
    ensures |s.done| == |s.workers|
    ensures (Enabled(s, step) && Quiet(step)) || forall i | 0 <= i < |s.workers| :: s.done[i] == Sent(s.log, i)
  {
    ReachableInv(s);
    step := Enqueue;
    if i: nat :| i < |s.workers| && s.threads[i] != Asleep && s.threads[i] != Exited {
      step := match s.threads[i]
        case Executing(_) => Return(i)
        case Draining => if s.workers[i].queue == [] then Sleep(i) else Take(i)
        case _ => Lock(i);
    } else if s.caller == Idle {
      forall i | 0 <= i < |s.workers|
        ensures s.done[i] == Sent(s.log, i)
      {
        assert Held(s, i) == Sent(s.log, i);
      }
    }
  }

  // ----- round robin --------------------------------------------------------------------

  function Bit(b: bool): int { if b then 1 else 0 }

  /** Going round from start, every active worker has had b pieces of work, and those that next
      has passed one more. */
  ghost predicate Level<T>(flags: seq<bool>, log: seq<Dispatch<T>>, start: nat, next: nat, b: int) {
    forall i | 0 <= i < |flags| && flags[i] :: |Sent(log, i)| + Bit(i < start) == b + Bit(i < next)
  }

  ghost predicate Balanced<T>(s: System<T>, start: nat) {
    s.activeN > 1 ==> exists b :: Level(Flags(s.workers), s.log, start, s.next, b)
  }

  lemma LevelStep<T>(flags: seq<bool>, log: seq<Dispatch<T>>, start: nat, next: nat, b: int, d: Dispatch<T>)
    returns (b': int)
    requires Level(flags, log, start, next, b) && Selects(flags, next, d.to)
    ensures Level(flags, log + [d], start, Following(d.to, |flags|), b')
  {
    var c := d.to;
    b' := if c < next || c + 1 == |flags| then b + 1 else b;
    forall i | 0 <= i < |flags| && flags[i]
      ensures |Sent(log + [d], i)| + Bit(i < start) == b' + Bit(i < Following(c, |flags|))
    {
      SentSnoc(log, d, i);
      assert Ahead(next, i, |flags|) >= Ahead(next, c, |flags|);
    }
  }

  predicate Dispatching<T>(c: Caller<T>) { c.Idle? || c.Handing? }

  lemma BalanceStep<T>(s: System<T>, step: Step<T>, start: nat)
    requires Inv(s) && Enabled(s, step) && Balanced(s, start) && Dispatching(s.caller)
    ensures var t := Next(s, step); Dispatching(t.caller) ==> Balanced(t, start)
  {
    var t := Next(s, step);
    if step.Choose? {
      if s.activeN > 1 {
        var b :| Level(Flags(s.workers), s.log, start, s.next, b);
        var b' := LevelStep(Flags(s.workers), s.log, start, s.next, b, Dispatch(step.work, step.to));
      }
    } else if Dispatching(t.caller) {
      assert Flags(t.workers) == Flags(s.workers);
    }
  }

  lemma {:induction false} RunBalanced<T>(s0: System<T>, steps: seq<Step<T>>, s: System<T>, start: nat)
    requires Inv(s0) && Run(s0, steps, s) && Dispatching(s.caller)
    requires Dispatching(s0.caller) ==> Balanced(s0, start)
    ensures Dispatching(s0.caller) && Balanced(s, start)
    decreases |steps|
  {
    if steps != [] {
      if Dispatching(s0.caller) {
        BalanceStep(s0, steps[0], start);
      }
      StepKeeps(s0, steps[0]);
      RunBalanced(Next(s0, steps[0]), steps[1..], s, start);
    }
  }

  lemma {:induction false} OneActive(flags: seq<bool>, i: nat, j: nat)
    requires i < j < |flags| && flags[i] && flags[j]
    ensures ActiveCount(flags) > 1
  {
    if i == 0 {
      SomeActive(flags[1..], j - 1);
    } else {
      OneActive(flags[1..], i - 1, j - 1);
    }
  }

  /** Round robin is fair: however the threads run, the numbers of pieces of work given to any two
      active workers never differ by more than one. */
  lemma RoundRobinIsFair<T(!new)>(s: System<T>, i: nat, j: nat)
    requires Reachable(s) && Dispatching(s.caller)
    requires i < |s.workers| && j < |s.workers| && s.workers[i].active && s.workers[j].active
    ensures |Sent(s.log, i)| <= |Sent(s.log, j)| + 1
  {
    var s0, steps :| Initial(s0) && Run(s0, steps, s);
    InitialInv(s0);
    assert Level(Flags(s0.workers), s0.log, s0.next, s0.next, 0);
    RunBalanced(s0, steps, s, s0.next);
    RunKeeps(s0, steps, s);
    if i != j {
      OneActive(Flags(s.workers), Min(i, j), Max(i, j));
      var b :| Level(Flags(s.workers), s.log, s0.next, s.next, b);
      assert Flags(s.workers)[i] && Flags(s.workers)[j];
    }
  }

  // ----- stopping -----------------------------------------------------------------------

  /** The stop procedure can get past joining worker i without a spurious wake-up of it. */
  ghost predicate CanJoin<T(!new)>(s: System<T>, i: nat) {
    exists steps, t :: Run(s, steps, t) && t.caller == Stopping(i) && Spurious(i) !in steps
  }

  /** Joining a worker that was told to stop, but whose thread will sleep without looking. */
  ghost predicate Missed<T>(s: System<T>, i: nat) {
    && i < |s.workers| == |s.threads| && s.caller == Joining(i) && !s.workers[i].active
    && (s.threads[i].Executing? || s.threads[i] == Draining || s.threads[i] == Asleep)
  }

  lemma {:induction false} StaysMissed<T>(s: System<T>, steps: seq<Step<T>>, t: System<T>, i: nat)
    requires Missed(s, i) && Run(s, steps, t) && Spurious(i) !in steps
    ensures Missed(t, i)
    decreases |steps|
  {
    if steps != [] {
      StaysMissed(Next(s, steps[0]), steps[1..], t, i);
    }
  }

  /** Telling worker i to stop: the join that follows can return exactly when the worker was not
      executing work at that moment. The loop tests the active flag before, not after, it
      drains the queue, so a signal given during the work's function is lost. */
  lemma StopJoinsExactlyWhen<T(!new)>(s: System<T>, i: nat)
    requires Reachable(s) && s.caller == Stopping(i + 1) && Enabled(s, Step<T>.StopWorker) && s.workers[i].active
    ensures CanJoin(Next(s, Step<T>.StopWorker), i) <==> !s.threads[i].Executing?
  {
    ReachableInv(s);
    var t := Next(s, Step<T>.StopWorker);
    if s.threads[i].Executing? {
      forall steps, u | Run(t, steps, u) && Spurious(i) !in steps
        ensures u.caller != Stopping(i)
      {
        StaysMissed(t, steps, u, i);
      }
    } else {
      var t1 := Next(t, Lock(i));
      var t2 := Next(t1, Step<T>.Join);
      var steps := [Step<T>.Lock(i), Step<T>.Join];
      assert Run(t2, [], t2);
      assert steps[1..] == [Step<T>.Join] && steps[1..][1..] == [];
      assert Run(t1, steps[1..], t2);
      assert Run(t, steps, t2);
    }
  }
}
