/** Local push as a transition system: the roller thread and the reconstruction thread on one
    queue. The table is complete before they start. Queue, condition variable and roller are those
    of the remote transmitter; dequeueing and processing an element happen under one lock. */
module LocalRuns {
  import opened Machine
  import opened Blocks
  import opened Roller
  import opened Rebuild
  import opened Receiver
  import opened Channel
  import opened Remote
  import opened RemoteSafety
  import opened RemoteOutcome
  import opened Streams

  datatype LocalStep = Shared(step: Step) | Consume

  /** Nothing in transit, the table full; toTx is the reconstruction thread's bytes_to_rx, and the
      transmitter's counters are history only. */
  function LocalInitial(c: Config): System
    requires Wellformed(c)
  {
    Initial(c).(table := Entries(c.strong, c.y, c.p.L), ckBlock := BlockCount(|c.y|, c.p.L))
  }

  ghost predicate LocalEnabled(c: Config, s: System, step: LocalStep)
    requires Wellformed(c)
  {
    match step
    case Consume => s.phase == Holding && s.queue != [] && s.txOut == []
    case Shared(t) =>
      && (t.RollOnce? || t.Enqueue? || t.Begin? || t.Wait? || t.SpuriousWake? || t.Resume? || t.Finish?)
      && Enabled(c, s, t)
  }

  /** Dequeue an element and process it; an error ends the thread. */
  ghost function ConsumeNext(c: Config, s: System): System
    requires Wellformed(c) && LocalEnabled(c, s, Consume)
  {
    var t := Next(c, s, Dequeue);
    var (err, rx) := Process(c.p.L, c.y, s.rx, s.queue[0]);
    t.(txOut := [], rcv := s.rcv + 1, rx := rx, failed := err != OK, phase := if err != OK then Finished else s.phase)
  }

  ghost function LocalNext(c: Config, s: System, step: LocalStep): System
    requires Wellformed(c) && LocalEnabled(c, s, step)
  {
    match step
    case Consume => ConsumeNext(c, s)
    case Shared(t) => Next(c, s, t)
  }

  ghost predicate LocalRun(c: Config, s0: System, steps: seq<LocalStep>, s: System)
    requires Wellformed(c)
    decreases |steps|
  {
    if steps == [] then s == s0
    else LocalEnabled(c, s0, steps[0]) && LocalRun(c, LocalNext(c, s0, steps[0]), steps[1..], s)
  }

  ghost predicate LocallyReachable(c: Config, s: System)
    requires Wellformed(c)
  {
    exists steps :: LocalRun(c, LocalInitial(c), steps, s)
  }

  // ----- what every step keeps ----------------------------------------------------------

  /** The reconstruction thread has processed, without error, what it dequeued. */
  ghost predicate ConsumedInv(c: Config, s: System) {
    && s.rcv == s.deq <= |s.log| && s.txOut == [] && s.wire == [] && !s.failed
    && ProcessAll(c.p.L, c.y, EMPTY, s.log[..s.deq]) == (OK, s.rx)
  }

  /** When the first window is a block of y, the first lookup has found it. */
  ghost predicate FirstLookup(c: Config, s: System)
    requires Wellformed(c)
  {
    WholeFileMatch(c) && s.roll.pos > 0 ==> HasZeroDiff(s.log)
  }

  ghost predicate LocalInv(c: Config, s: System)
    requires Wellformed(c)
  {
    && s.table == Entries(c.strong, c.y, c.p.L)
    && ChannelInv(c, s) && RollerInv(c, s) && QueueInv(c, s) && ConsumedInv(c, s) && FirstLookup(c, s)
  }

  lemma FullTable(c: Config)
    requires Wellformed(c)
    ensures ChannelInv(c, LocalInitial(c))
  {
    var es := Entries(c.strong, c.y, c.p.L);
    assert es[..|es|] == es && es[|es|..|es|] == [];
    assert Frames([]) == [];
  }

  lemma LocalInitialInv(c: Config)
    requires Sound(c)
    ensures LocalInv(c, LocalInitial(c))
  {
    FullTable(c);
    InitialRoller(c);
    InitialQueue(c);
  }

  lemma PrefixSpelled(c: Config, a: seq<Delta>, b: seq<Delta>, emitted: nat)
    requires SpellsRange(c.y, c.p.L, a + b, c.x, 0, emitted)
    ensures SpellsRange(c.y, c.p.L, a, c.x, 0, Covered(a))
  {
    SpellsTake(c.y, c.p.L, a, b, c.x[0..emitted]);
    assert c.x[0..emitted][..Covered(a)] == c.x[0..Covered(a)];
  }

  lemma WholeProcesses(c: Config, s: System)
    requires Wellformed(c) && RollerInv(c, s) && HasZeroDiff(s.log)
    ensures |s.log| == 1 && ProcessAll(c.p.L, c.y, EMPTY, s.log).0 == OK
  {
    assert s.log == [ZeroDiff(s.log[0].ref, |c.x|)];
    ZeroDiffRebuild(c.p.L, c.x, c.y, s.log[0].ref);
  }

  lemma PlainProcesses(c: Config, a: seq<Delta>, b: seq<Delta>, emitted: nat)
    requires c.p.L > 0 && SpellsRange(c.y, c.p.L, a + b, c.x, 0, emitted) && Chain(c.p.L, |c.x|, 0, a + b)
    requires !HasZeroDiff(a + b)
    ensures ProcessAll(c.p.L, c.y, EMPTY, a).0 == OK
  {
    HasZeroDiffConcat(a, b);
    ChainConcat(c.p.L, |c.x|, 0, a, b);
    PrefixSpelled(c, a, b, emitted);
    ProcessAllSpelled(c.p.L, c.x, c.y, 0, EMPTY, a);
  }

  /** Any number of the emitted elements can be processed without error. */
  lemma PrefixProcesses(c: Config, s: System, k: nat)
    requires Wellformed(c) && RollerInv(c, s) && k <= |s.log|
    ensures ProcessAll(c.p.L, c.y, EMPTY, s.log[..k]).0 == OK
  {
    if HasZeroDiff(s.log) {
      WholeProcesses(c, s);
      assert k == 1 ==> s.log[..k] == s.log;
    } else {
      assert s.log == s.log[..k] + s.log[k..];
      PlainProcesses(c, s.log[..k], s.log[k..], Emitted(s.roll));
    }
  }

  lemma ConsumeKeeps(c: Config, s: System)
    requires Sound(c) && LocalInv(c, s) && LocalEnabled(c, s, Consume)
    ensures LocalInv(c, ConsumeNext(c, s))
  {
    DequeueQueue(c, s);
    PrefixProcesses(c, s, s.deq + 1);
    assert s.log[..s.deq + 1] == s.log[..s.deq] + [s.queue[0]];
    ProcessSnoc(c.p.L, c.y, EMPTY, s.log[..s.deq], s.rx, s.queue[0]);
  }

  lemma RollConsumed(c: Config, s: System, hit: Option<nat>)
    requires Wellformed(c) && ConsumedInv(c, s) && Enabled(c, s, RollOnce(hit))
    ensures ConsumedInv(c, Next(c, s, RollOnce(hit)))
  {
    var es := Advance(c.p, c.x, s.roll, hit).1;
    assert (s.log + es)[..s.deq] == s.log[..s.deq];
  }

  lemma RollLooksUp(c: Config, s: System, hit: Option<nat>)
    requires Sound(c) && s.table == Entries(c.strong, c.y, c.p.L) && RollerInv(c, s) && FirstLookup(c, s)
    requires Enabled(c, s, RollOnce(hit))
    ensures FirstLookup(c, Next(c, s, RollOnce(hit)))
  {
    AdvanceZero(c.p, c.x, s.roll, hit);
    HasZeroDiffConcat(s.log, Advance(c.p, c.x, s.roll, hit).1);
    if WholeFileMatch(c) && s.roll.pos == 0 {
      WholeWindow(c.p.L, c.x);
      WholeFileLookup(c.strong, c.x, c.y, c.p.L, hit);
    }
  }

  lemma LocalRollKeeps(c: Config, s: System, hit: Option<nat>)
    requires Sound(c) && LocalInv(c, s) && Enabled(c, s, RollOnce(hit))
    ensures LocalInv(c, Next(c, s, RollOnce(hit)))
  {
    RollOnceKeeps(c, s, hit);
    RollOnceQueue(c, s, hit);
    RollConsumed(c, s, hit);
    RollLooksUp(c, s, hit);
    ChannelUntouched(c, s, RollOnce(hit));
  }

  lemma LocalEnqueueKeeps(c: Config, s: System)
    requires Sound(c) && LocalInv(c, s) && Enabled(c, s, Enqueue)
    ensures LocalInv(c, Next(c, s, Enqueue))
  {
    EnqueueQueue(c, s);
  }

  /** The steps that only change the reconstruction thread's phase. */
  lemma PhaseKeeps(c: Config, s: System, step: Step)
    requires Sound(c) && LocalInv(c, s) && Enabled(c, s, step)
    requires step.Begin? || step.Wait? || step.SpuriousWake? || step.Resume? || step.Finish?
    ensures LocalInv(c, Next(c, s, step))
  {
  }

  lemma LocalStepKeeps(c: Config, s: System, step: LocalStep)
    requires Sound(c) && LocalInv(c, s) && LocalEnabled(c, s, step)
    ensures LocalInv(c, LocalNext(c, s, step))
  {
    match step {
      case Consume => ConsumeKeeps(c, s);
      case Shared(t) =>
        match t {
          case RollOnce(hit) => LocalRollKeeps(c, s, hit);
          case Enqueue => LocalEnqueueKeeps(c, s);
          case _ => PhaseKeeps(c, s, t);
        }
    }
  }

  lemma {:induction false} LocalRunKeeps(c: Config, s0: System, steps: seq<LocalStep>, s: System)
    requires Sound(c) && LocalInv(c, s0) && LocalRun(c, s0, steps, s)
    ensures LocalInv(c, s)
    decreases |steps|
  {
    if steps != [] {
      LocalStepKeeps(c, s0, steps[0]);
      LocalRunKeeps(c, LocalNext(c, s0, steps[0]), steps[1..], s);
    }
  }

  lemma LocallyReachableInv(c: Config, s: System)
    requires Sound(c) && LocallyReachable(c, s)
    ensures LocalInv(c, s)
  {
    var steps :| LocalRun(c, LocalInitial(c), steps, s);
    LocalInitialInv(c);
    LocalRunKeeps(c, LocalInitial(c), steps, s);
  }

  // ----- the outcome --------------------------------------------------------------------

  lemma AllConsumed(c: Config, s: System)
    requires Wellformed(c) && RollerInv(c, s) && QueueInv(c, s) && s.toTx == 0
    ensures s.log[..s.deq] == s.log && Covered(s.log) == |c.x|
    ensures s.queue == [] && s.pending == [] && s.roll == Roll(|c.x|, [])
  {
    ChainComplete(c.p.L, |c.x|, s.log, s.deq);
    assert s.log[..s.deq] == s.log && s.log[..s.enq] == s.log;
  }

  lemma FoundExactly(c: Config, s: System)
    requires Wellformed(c) && RollerInv(c, s) && FirstLookup(c, s) && s.roll.pos == |c.x|
    ensures !HasZeroDiff(s.log) || c.x <= c.y
       <==> CopiesRest(c.p, c.x, 0) || |c.x| > c.p.L || c.x <= c.y || !IsSomeBlock(c.x, c.y, c.p.L)
  {
  }

  /** What a finished log rebuilds. */
  lemma LogRebuilds(c: Config, log: seq<Delta>)
    requires c.p.L > 0 && Chain(c.p.L, |c.x|, 0, log) && SpellsRange(c.y, c.p.L, log, c.x, 0, |c.x|) && Covered(log) == |c.x|
    requires HasZeroDiff(log) ==> IsZeroDiff(log) && log[0].n == |c.x|
    ensures var (err, rx) := ProcessAll(c.p.L, c.y, EMPTY, log);
            && rx.st.byRef + rx.st.byRaw == |c.x| == |rx.z| && rx.st.tailN <= 1
            && (rx.z == c.x <==> !HasZeroDiff(log) || c.x <= c.y)
  {
    TallyAccounts(c.p.L, |c.x|, 0, NOTHING, log);
    RebuildOutcome(c.p.L, c.x, c.y, log);
  }

  lemma FinishedLog(c: Config, s: System)
    requires Wellformed(c) && RollerInv(c, s) && s.roll == Roll(|c.x|, [])
    ensures Chain(c.p.L, |c.x|, 0, s.log) && SpellsRange(c.y, c.p.L, s.log, c.x, 0, |c.x|)
    ensures HasZeroDiff(s.log) ==> IsZeroDiff(s.log) && s.log[0].n == |c.x|
  {
  }

  /** When the reconstruction thread expects nothing more, in whatever order the two threads ran:
      the queue is empty, every byte is accounted for, the result has x's size, and it is x
      exactly when a copy threshold fired at once, x is longer than a block, a prefix of y, or
      no block of y. */
  lemma LocalRunExact(c: Config, s: System)
    requires Sound(c) && LocallyReachable(c, s) && s.toTx == 0
    ensures s.queue == [] && s.pending == [] && s.roll.pos == |c.x| && !s.failed
    ensures s.rx.st.byRef + s.rx.st.byRaw == |c.x| == |s.rx.z| && s.rx.st.tailN <= 1
    ensures s.rx.z == c.x
       <==> |c.x| < c.p.copyAll || |c.x| <= c.p.copyTail || |c.x| > c.p.L || c.x <= c.y || !IsSomeBlock(c.x, c.y, c.p.L)
  {
    LocallyReachableInv(c, s);
    AllConsumed(c, s);
    FinishedLog(c, s);
    LogRebuilds(c, s.log);
    FoundExactly(c, s);
  }

  /** The count never underflows, and a sleeping thread nobody has signalled sees an empty queue. */
  lemma LocalHandOff(c: Config, s: System)
    requires Sound(c) && LocallyReachable(c, s)
    ensures s.deq <= |s.log| && s.toTx == |c.x| - Covered(s.log[..s.deq])
    ensures s.queue != [] ==> Size(s.queue[0]) <= s.toTx
    ensures s.phase == Asleep ==> s.queue == [] && s.toTx > 0
  {
    LocallyReachableInv(c, s);
    if s.queue != [] {
      assert s.queue[0] == s.log[s.deq];
      ChainElement(c.p.L, |c.x|, s.log, s.deq);
    }
  }

  ghost predicate LocallyComplete(c: Config, s: System) { s.roll.pos == |c.x| && s.pending == [] && s.phase == Finished }

  /** While the reconstruction thread sleeps the roller has something left to do. */
  lemma SleeperHasMore(c: Config, s: System)
    requires Wellformed(c) && RollerInv(c, s) && QueueInv(c, s) && s.phase == Asleep && s.pending == []
    ensures s.roll.pos < |c.x|
  {
    assert s.log[..s.deq] == s.log;
  }

  lemma StepPossible(c: Config, s: System) returns (step: LocalStep)
    requires Wellformed(c) && RollerInv(c, s) && QueueInv(c, s) && s.txOut == [] && !LocallyComplete(c, s)
    ensures LocalEnabled(c, s, step) && step != Shared(SpuriousWake)
  {
    if s.phase == Starting {
      step := Shared(Begin);
    } else if s.phase == Woken {
      step := Shared(Resume);
    } else if s.phase == Holding {
      step := if s.queue != [] then Consume else if s.toTx > 0 then Shared(Wait) else Shared(Finish);
    } else if s.pending != [] {
      step := Shared(Enqueue);
    } else {
      if s.phase == Asleep {
        SleeperHasMore(c, s);
      }
      var hit := LegitHitExists(c.strong, s.table, Window(c.p.L, c.x, s.roll.pos));
      step := Shared(RollOnce(hit));
    }
  }

  /** No deadlock: until both threads are done some step other than a spurious wake-up is possible. */
  lemma LocalProgress(c: Config, s: System) returns (step: LocalStep)
    requires Sound(c) && LocallyReachable(c, s) && !LocallyComplete(c, s)
    ensures LocalEnabled(c, s, step) && step != Shared(SpuriousWake)
  {
    LocallyReachableInv(c, s);
    step := StepPossible(c, s);
  }

  function LocallySpurious(steps: seq<LocalStep>): nat {
    if steps == [] then 0 else (if steps[0] == Shared(SpuriousWake) then 1 else 0) + LocallySpurious(steps[1..])
  }

  lemma LocalStepWork(c: Config, s: System, step: LocalStep)
    requires Sound(c) && LocalInv(c, s) && LocalEnabled(c, s, step)
    ensures var w, w' := DeltaWork(c, s), DeltaWork(c, LocalNext(c, s, step));
            if step == Shared(SpuriousWake) then w' == w + 2 else w' < w
  {
    match step {
      case Consume =>
        ConsumeKeeps(c, s);
        DequeueWork(c, s);
      case Shared(t) =>
        match t {
          case RollOnce(hit) => RollOnceWork(c, s, hit);
          case Enqueue => EnqueueStepWork(c, s);
          case _ => OtherStepWork(c, s, t);
        }
    }
  }

  lemma {:induction false} LocalRunWork(c: Config, s0: System, steps: seq<LocalStep>, s: System)
    requires Sound(c) && LocalInv(c, s0) && LocalRun(c, s0, steps, s)
    ensures LocalInv(c, s) && |steps| + DeltaWork(c, s) <= DeltaWork(c, s0) + 3 * LocallySpurious(steps)
    decreases |steps|
  {
    if steps != [] {
      LocalStepKeeps(c, s0, steps[0]);
      LocalStepWork(c, s0, steps[0]);
      LocalRunWork(c, LocalNext(c, s0, steps[0]), steps[1..], s);
    }
  }

  /** Every run is finite, whatever the schedule. */
  lemma LocalRunsAreBounded(c: Config, steps: seq<LocalStep>, s: System)
    requires Sound(c) && LocalRun(c, LocalInitial(c), steps, s)
    ensures |steps| <= 60 * |c.x| + 2 + 3 * LocallySpurious(steps)
  {
    LocalInitialInv(c);
    LocalRunWork(c, LocalInitial(c), steps, s);
  }
}
