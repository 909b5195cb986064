/** Remote push: what a finished session has rebuilt, that every session finishes, and how many
    steps it takes. */
module RemoteOutcome {
  import opened Machine
  import opened Blocks
  import opened Roller
  import opened Rebuild
  import opened Receiver
  import opened Channel
  import opened Wire
  import opened Remote
  import opened RemoteSafety
  import Md5

  // ----- what has been rebuilt ----------------------------------------------------------

  /** The bytes an element stands for; empty when it points outside y. */
  function Content(y: seq<byte>, L: nat, d: Delta): seq<byte> {
    if d.Raw? then d.bytes
    else if Offset(d.ref, L) + d.n <= |y| then y[Offset(d.ref, L)..Offset(d.ref, L) + d.n]
    else []
  }

  function Meaning(y: seq<byte>, L: nat, ds: seq<Delta>): seq<byte> {
    if ds == [] then [] else Content(y, L, ds[0]) + Meaning(y, L, ds[1..])
  }

  lemma ContentOfDenoted(y: seq<byte>, L: nat, d: Delta, w: seq<byte>)
    requires Denotes(y, L, d, w)
    ensures Content(y, L, d) == w
  {
  }

  lemma CutAt<T>(w: seq<T>, n: nat)
    requires n <= |w|
    ensures w[..n] + w[n..] == w
  {
  }

  lemma {:induction false} MeaningOfSpelled(y: seq<byte>, L: nat, ds: seq<Delta>, w: seq<byte>)
    requires Spells(y, L, ds, w)
    ensures Meaning(y, L, ds) == w
    decreases |ds|
  {
    if ds != [] {
      var n := Size(ds[0]);
      MeaningOfSpelled(y, L, ds[1..], w[n..]);
      ContentOfDenoted(y, L, ds[0], w[..n]);
      CutAt(w, n);
    }
  }

  lemma MeaningCons(y: seq<byte>, L: nat, d: Delta, ds: seq<Delta>)
    ensures Meaning(y, L, [d] + ds) == Content(y, L, d) + Meaning(y, L, ds)
  {
    assert ([d] + ds)[1..] == ds;
  }

  lemma {:induction false} MeaningConcat(y: seq<byte>, L: nat, a: seq<Delta>, b: seq<Delta>)
    ensures Meaning(y, L, a + b) == Meaning(y, L, a) + Meaning(y, L, b)
  {
    if a == [] {
      assert a + b == b;
    } else {
      MeaningConcat(y, L, a[1..], b);
      assert a + b == [a[0]] + (a[1..] + b);
      MeaningCons(y, L, a[0], a[1..] + b);
      Associate(Content(y, L, a[0]), Meaning(y, L, a[1..]), Meaning(y, L, b));
    }
  }

  lemma FourParts(y: seq<byte>, L: nat, a: seq<Delta>, b: seq<Delta>, d: seq<Delta>, e: seq<Delta>)
    ensures Meaning(y, L, a + b + d + e) == Meaning(y, L, a) + Meaning(y, L, b) + Meaning(y, L, d) + Meaning(y, L, e)
  {
    MeaningConcat(y, L, a + b + d, e);
    MeaningConcat(y, L, a + b, d);
    MeaningConcat(y, L, a, b);
  }

  lemma LogMeaning(c: Config, s: System)
    requires Wellformed(c) && RollerInv(c, s)
    ensures s.roll.pos <= |c.x| && Meaning(c.y, c.p.L, s.log) + s.roll.raw + c.x[s.roll.pos..] == c.x
  {
    MeaningOfSpelled(c.y, c.p.L, s.log, c.x[0..Emitted(s.roll)]);
    assert c.x == c.x[0..Emitted(s.roll)] + s.roll.raw + c.x[s.roll.pos..];
  }

  lemma SlicesJoin(log: seq<Delta>, i: nat, j: nat, k: nat)
    requires i <= j <= k <= |log|
    ensures log[..i] + log[i..j] + log[j..k] + log[k..] == log
  {
  }

  lemma FourSlices(y: seq<byte>, L: nat, log: seq<Delta>, i: nat, j: nat, k: nat)
    requires i <= j <= k <= |log|
    ensures Meaning(y, L, log)
         == Meaning(y, L, log[..i]) + Meaning(y, L, log[i..j]) + Meaning(y, L, log[j..k]) + Meaning(y, L, log[k..])
  {
    SlicesJoin(log, i, j, k);
    FourParts(y, L, log[..i], log[i..j], log[j..k], log[k..]);
  }

  lemma {:induction false} SpellsTake(y: seq<byte>, L: nat, a: seq<Delta>, b: seq<Delta>, w: seq<byte>)
    requires Spells(y, L, a + b, w)
    ensures Covered(a) <= |w| && Spells(y, L, a, w[..Covered(a)])
    decreases |a|
  {
    if a != [] {
      var n := Size(a[0]);
      assert (a + b)[1..] == a[1..] + b;
      SpellsTake(y, L, a[1..], b, w[n..]);
      assert w[..Covered(a)][..n] == w[..n] && w[..Covered(a)][n..] == w[n..][..Covered(a[1..])];
    }
  }

  lemma PrefixMeaning(y: seq<byte>, L: nat, log: seq<Delta>, k: nat, x: seq<byte>, emitted: nat)
    requires SpellsRange(y, L, log, x, 0, emitted) && k <= |log|
    ensures Covered(log[..k]) <= |x| && Meaning(y, L, log[..k]) == x[..Covered(log[..k])]
  {
    var a, b := log[..k], log[k..];
    assert log == a + b;
    SpellsTake(y, L, a, b, x[0..emitted]);
    assert x[0..emitted][..Covered(a)] == x[..Covered(a)];
    MeaningOfSpelled(y, L, a, x[..Covered(a)]);
  }

  lemma ReceivedMeaning(c: Config, s: System)
    requires Sound(c) && Inv(c, s) && !HasZeroDiff(s.log)
    ensures s.rx.z == Meaning(c.y, c.p.L, s.log[..s.rcv])
  {
    assert s.log == s.log[..s.rcv] + s.log[s.rcv..];
    HasZeroDiffConcat(s.log[..s.rcv], s.log[s.rcv..]);
    PrefixMeaning(c.y, c.p.L, s.log, s.rcv, c.x, Emitted(s.roll));
  }

  /** In every reachable state x is, in this order, what the received elements stand for, what is
      on the wire, what is in the queue, what the roller is about to enqueue, its buffered
      literals and the bytes from its cursor on; and the wire bytes are those elements. */
  lemma XIsInTransit(c: Config, s: System)
    requires Sound(c) && Reachable(c, s)
    ensures s.rcv <= s.deq <= |s.log| && s.roll.pos <= |c.x|
    ensures var y, L, got, flight := c.y, c.p.L, s.log[..s.rcv], s.log[s.rcv..s.deq];
            && Meaning(y, L, got) + Meaning(y, L, flight) + Meaning(y, L, s.queue) + Meaning(y, L, s.pending)
               + s.roll.raw + c.x[s.roll.pos..] == c.x
            && s.rxIn + s.wire + s.txOut == EncodeAll(flight)
            && (!HasZeroDiff(s.log) ==> s.rx.z == Meaning(y, L, got))
  {
    ReachableInv(c, s);
    LogMeaning(c, s);
    FourSlices(c.y, c.p.L, s.log, s.rcv, s.deq, s.enq);
    if !HasZeroDiff(s.log) {
      ReceivedMeaning(c, s);
    }
  }

  lemma OnlyZeroDiff(log: seq<Delta>, k: nat)
    requires k <= |log| && HasZeroDiff(log[..k]) && (HasZeroDiff(log) ==> IsZeroDiff(log))
    ensures k == |log| && IsZeroDiff(log)
  {
    HasZeroDiffConcat(log[..k], log[k..]);
    assert log == log[..k] + log[k..];
  }

  lemma ChainComplete(L: nat, total: nat, log: seq<Delta>, k: nat)
    requires L > 0 && k <= |log| && Chain(L, total, 0, log) && Covered(log[..k]) == total
    ensures k == |log|
  {
    var a, b := log[..k], log[k..];
    assert log == a + b;
    ChainConcat(L, total, 0, a, b);
    ChainGrows(L, total, total, b);
  }

  /** Once the receiver expects nothing more, every element has been received. */
  lemma AllReceived(c: Config, s: System)
    requires Sound(c) && Inv(c, s) && s.toRx == 0
    ensures s.rcv == |s.log| && Covered(s.log) == |c.x| && Delivered(c, s.log, s.rx, 0)
  {
    var a := s.log[..s.rcv];
    if HasZeroDiff(a) {
      OnlyZeroDiff(s.log, s.rcv);
      ZeroDiffTally(c.p.L, s.log);
    } else {
      ChainComplete(c.p.L, |c.x|, s.log, s.rcv);
    }
    assert a == s.log;
  }

  /** Nothing is left in any buffer, queue or stream. */
  lemma NothingLeft(c: Config, s: System)
    requires Sound(c) && Inv(c, s) && s.rcv == |s.log| && Covered(s.log) == |c.x|
    ensures s.queue == [] && s.pending == [] && s.roll.pos == |c.x| && s.toTx == 0
    ensures s.rxIn == [] && s.wire == [] && s.txOut == [] && s.txStats == Tally(c.p.L, NOTHING, s.log)
  {
    assert s.log[s.rcv..s.deq] == [];
    assert s.log[..s.enq] == s.log && s.log[..s.deq] == s.log;
    assert |s.rxIn + s.wire + s.txOut| == 0;
  }

  /** The result is x exactly when no ZERO_DIFF was sent or y is x; the receiver's counters are
      then the transmitter's, and its final assertion holds in just those cases or when y merely
      has the size of x. */
  lemma Delivery(c: Config, s: System)
    requires Sound(c) && Inv(c, s) && s.toRx == 0
    ensures s.rcv == |s.log| && s.queue == [] && s.pending == [] && s.roll.pos == |c.x|
    ensures s.rx.z == c.x <==> !HasZeroDiff(s.log) || c.y == c.x
    ensures s.rx.st.byRef + s.rx.st.byRaw == |c.x| <==> !HasZeroDiff(s.log) || |c.y| == |c.x|
    ensures s.rx.st == s.txStats <==> !HasZeroDiff(s.log) || |c.y| == |c.x|
    ensures s.rx.st.tailN <= 1
  {
    AllReceived(c, s);
    NothingLeft(c, s);
    if HasZeroDiff(s.log) {
      ZeroDiffTally(c.p.L, s.log);
    } else {
      TallyAccounts(c.p.L, |c.x|, 0, NOTHING, s.log);
    }
  }

  /** The hand-off from roller to transmitter: bytes_to_rx is always what has not been dequeued
      and never underflows; a sleeping transmitter nobody has signalled sees an empty queue; and
      when it returns the queue is empty, with every byte of x counted once as matched or raw. */
  lemma QueueHandOff(c: Config, s: System)
    requires Sound(c) && Reachable(c, s)
    ensures s.deq <= |s.log| && s.toTx == |c.x| - Covered(s.log[..s.deq])
    ensures s.queue != [] ==> Size(s.queue[0]) <= s.toTx
    ensures s.phase == Asleep ==> s.queue == [] && s.toTx > 0
    ensures s.phase == Finished ==> s.queue == [] && s.deq == |s.log| && s.txStats.byRef + s.txStats.byRaw == |c.x|
  {
    ReachableInv(c, s);
    if s.queue != [] {
      assert s.queue[0] == s.log[s.deq];
      ChainElement(c.p.L, |c.x|, s.log, s.deq);
    }
    if s.phase == Finished {
      ChainComplete(c.p.L, |c.x|, s.log, s.deq);
      assert s.log[..s.enq] == s.log && s.log[..s.deq] == s.log;
      TallyAccounts(c.p.L, |c.x|, 0, NOTHING, s.log);
    }
  }

  // ----- progress -----------------------------------------------------------------------

  lemma ChannelProgress(c: Config, s: System) returns (step: Step)
    requires Wellformed(c) && ChannelInv(c, s) && |s.table| < BlockCount(|c.y|, c.p.L)
    ensures Enabled(c, s, step) && step != SpuriousWake
  {
    var es := Entries(c.strong, c.y, c.p.L);
    if |s.ckIn| == FRAME {
      step := InsertEntry;
    } else if s.ckWire != [] {
      step := ReadFrame(1);
    } else if s.ckOut != [] {
      step := WriteFrame(1);
    } else {
      step := SendFrame;
    }
  }

  /** With nothing left to roll or enqueue, an empty queue means every byte was transmitted. */
  lemma AllDequeued(c: Config, s: System)
    requires Sound(c) && Inv(c, s) && s.roll.pos == |c.x| && s.pending == []
    ensures s.queue == [] ==> s.toTx == 0 && s.deq == |s.log|
    ensures s.phase == Finished ==> s.queue == [] && s.deq == |s.log|
    ensures s.phase != Asleep
  {
    if s.queue == [] {
      assert s.log[..s.deq] == s.log;
    }
    if s.phase == Finished {
      ChainComplete(c.p.L, |c.x|, s.log, s.deq);
    }
  }

  lemma UnreceivedBytes(c: Config, s: System)
    requires Sound(c) && Inv(c, s) && s.toRx > 0 && s.deq == |s.log| && s.txOut == [] && s.roll.pos == |c.x|
    ensures (s.rxIn != [] && |s.rxIn| == Needed(s.rxIn)) || (s.wire != [] && |s.rxIn| + 1 <= Needed(s.rxIn))
  {
    var ds := s.log[s.rcv..s.deq];
    assert s.log[..|s.log|] == s.log;
    assert ds != [];
    LogEncodable(c, s);
    assert AllEncodable(ds);
    assert s.rxIn + s.wire + [] == s.rxIn + s.wire;
    StreamHead(ds, s.rxIn, s.wire, s.txOut);
    NeededOfPrefix(ds[0], |s.rxIn|);
  }

  /** With the roller done and the transmitter asleep or finished, only the receiver is left. */
  lemma ReceiverProgress(c: Config, s: System) returns (step: Step)
    requires Sound(c) && Inv(c, s) && !Complete(c, s)
    requires |s.table| == BlockCount(|c.y|, c.p.L) && s.roll.pos == |c.x| && s.pending == []
    requires s.phase == Asleep || s.phase == Finished
    ensures Enabled(c, s, step) && step != SpuriousWake
  {
    AllDequeued(c, s);
    assert s.phase == Finished && s.toRx > 0;
    UnreceivedBytes(c, s);
    if s.rxIn != [] && |s.rxIn| == Needed(s.rxIn) {
      step := ProcessDelta;
    } else {
      step := ReadDelta(1);
    }
  }

  /** No deadlock: some step other than a spurious wake-up is possible until all is complete. In
      particular a sleeping transmitter never waits for a signal that was already given. */
  lemma Progress(c: Config, s: System) returns (step: Step)
    requires Sound(c) && Inv(c, s) && !Complete(c, s)
    ensures Enabled(c, s, step) && step != SpuriousWake
  {
    if |s.table| < BlockCount(|c.y|, c.p.L) {
      step := ChannelProgress(c, s);
    } else if s.phase == Starting {
      step := Begin;
    } else if s.phase == Woken {
      step := Resume;
    } else if s.phase == Holding {
      step := if s.txOut != [] then WriteDelta(1) else if s.queue != [] then Dequeue
              else if s.toTx > 0 then Wait else Finish;
    } else if s.pending != [] {
      step := Enqueue;
    } else if s.roll.pos < |c.x| {
      var hit := LegitHitExists(c.strong, s.table, Window(c.p.L, c.x, s.roll.pos));
      step := RollOnce(hit);
    } else {
      step := ReceiverProgress(c, s);
    }
  }

  // ----- how long it takes --------------------------------------------------------------

  /** The sum of a cost over all elements. */
  function Total(ds: seq<Delta>, cost: Delta -> nat): nat {
    if ds == [] then 0 else cost(ds[0]) + Total(ds[1..], cost)
  }

  function Cost(each: nat): Delta -> nat { d => 2 * |Encode(d)| + each }

  /** Twice the encoded size of every element plus a fixed number of steps for each. */
  function Work(ds: seq<Delta>, each: nat): nat { Total(ds, Cost(each)) }

  function PhaseWork(p: Phase): nat {
    match p
    case Starting => 2
    case Holding => 1
    case Asleep => 0
    case Woken => 2
    case Finished => 0
  }

  /** Steps still needed by the checksum channel: two per byte and two per block. */
  ghost function ChannelWork(c: Config, s: System): int
    requires Wellformed(c)
  {
    var n := BlockCount(|c.y|, c.p.L);
    41 * (n - s.ckBlock) + 2 * |s.ckOut| + |s.ckWire| + (n - |s.table|)
  }

  /** Steps still needed by roller, queue, transmitter and receiver. */
  ghost function DeltaWork(c: Config, s: System): int
    requires Wellformed(c)
  {
    60 * (|c.x| - s.roll.pos) + 2 * |s.roll.raw| + Work(s.pending, 6) + Work(s.queue, 3)
    + 2 * |s.txOut| + |s.wire| + (s.deq - s.rcv) + PhaseWork(s.phase)
  }

  ghost function Remaining(c: Config, s: System): int
    requires Wellformed(c)
  {
    ChannelWork(c, s) + DeltaWork(c, s)
  }

  lemma {:induction false} TotalConcat(a: seq<Delta>, b: seq<Delta>, cost: Delta -> nat)
    ensures Total(a + b, cost) == Total(a, cost) + Total(b, cost)
  {
    if a == [] {
      assert a + b == b;
    } else {
      TotalConcat(a[1..], b, cost);
      assert (a + b)[1..] == a[1..] + b && (a + b)[0] == a[0];
    }
  }

  lemma TotalOfOne(d: Delta, cost: Delta -> nat)
    ensures Total([d], cost) == cost(d)
  {
    assert [d][1..] == [];
  }

  lemma EncodedLength(d: Delta)
    ensures |Encode(d)| <= 9 + if d.Raw? then |d.bytes| else 0
  {
  }

  lemma WorkOfOne(d: Delta, each: nat)
    ensures Work([d], each) == 2 * |Encode(d)| + each
    ensures Work([d], each) <= 18 + each + if d.Raw? then 2 * |d.bytes| else 0
  {
    TotalOfOne(d, Cost(each));
    assert Cost(each)(d) == 2 * |Encode(d)| + each;
    EncodedLength(d);
  }

  lemma WorkOfFlush(raw: seq<byte>, d: Delta, each: nat)
    ensures Work(Flush(raw) + [d], each) <= 2 * |raw| + 36 + 2 * each + if d.Raw? then 2 * |d.bytes| else 0
  {
    WorkOfOne(d, each);
    WorkOfOne(Raw(raw), each);
    TotalConcat(Flush(raw), [d], Cost(each));
  }

  lemma RollWork(p: Params, x: seq<byte>, r: Roll, hit: Option<nat>)
    requires p.Valid() && Buffered(p, x, r) && r.pos < |x|
    ensures var (r', es) := Advance(p, x, r, hit);
            r'.pos <= |x| && Work(es, 6) + 2 * |r'.raw| + 60 * (|x| - r'.pos) < 2 * |r.raw| + 60 * (|x| - r.pos)
  {
    if CopiesRest(p, x, r.pos) {
      WorkOfFlush(r.raw, Raw(x[r.pos..]), 6);
    } else if hit.Some? {
      WorkOfFlush(r.raw, Found(p, x, Window(p.L, x, r.pos), hit.value), 6);
    } else {
      WorkOfOne(Raw(r.raw + [x[r.pos]]), 6);
    }
  }

  predicate OfChannel(step: Step) { step.SendFrame? || step.WriteFrame? || step.ReadFrame? || step.InsertEntry? }

  lemma ChannelStepWork(c: Config, s: System, step: Step)
    requires Wellformed(c) && ChannelInv(c, s) && Enabled(c, s, step)
    ensures ChannelWork(c, Next(c, s, step))
         <= ChannelWork(c, s) - if OfChannel(step) then 1 else 0
  {
    match step {
      case SendFrame => FrameRoundTrip(EntryOf(c.strong, c.y, c.p.L, s.ckBlock));
      case ProcessDelta => ReceiveTouches(c, s);
      case _ =>
    }
  }

  lemma RollOnceWork(c: Config, s: System, hit: Option<nat>)
    requires Wellformed(c) && RollerInv(c, s) && Enabled(c, s, RollOnce(hit))
    ensures DeltaWork(c, Next(c, s, RollOnce(hit))) < DeltaWork(c, s)
  {
    RollWork(c.p, c.x, s.roll, hit);
    assert Work([], 6) == 0;
  }

  lemma DequeueWork(c: Config, s: System)
    requires Wellformed(c) && QueueInv(c, s) && Enabled(c, s, Dequeue)
    ensures DeltaWork(c, Next(c, s, Dequeue)) < DeltaWork(c, s)
  {
    assert Work(s.queue, 3) == 2 * |Encode(s.queue[0])| + 3 + Work(s.queue[1..], 3);
  }

  lemma EnqueueWork(pending: seq<Delta>, queue: seq<Delta>)
    requires pending != []
    ensures Work(pending[1..], 6) + Work(queue + [pending[0]], 3) + 3 == Work(pending, 6) + Work(queue, 3)
  {
    TotalConcat(queue, [pending[0]], Cost(3));
    WorkOfOne(pending[0], 3);
  }

  lemma EnqueueStepWork(c: Config, s: System)
    requires Wellformed(c) && Enabled(c, s, Enqueue)
    ensures DeltaWork(c, Next(c, s, Enqueue)) < DeltaWork(c, s)
  {
    EnqueueWork(s.pending, s.queue);
  }

  /** The steps that leave roller state, pending elements and queue as they are. */
  lemma OtherStepWork(c: Config, s: System, step: Step)
    requires Wellformed(c) && Enabled(c, s, step)
    requires !step.RollOnce? && !step.Enqueue? && !step.Dequeue? && !step.ProcessDelta?
    ensures var w, w' := DeltaWork(c, s), DeltaWork(c, Next(c, s, step));
            if OfChannel(step) then w' == w else if step.SpuriousWake? then w' == w + 2 else w' < w
  {
  }

  lemma ProcessWork(c: Config, s: System)
    requires Sound(c) && Inv(c, s) && Enabled(c, s, ProcessDelta)
    ensures DeltaWork(c, Receive(c, s)) == DeltaWork(c, s) - 1
  {
    NextElement(c, s);
    var d, rx := DeliverNext(c, s);
    ReceiveOk(c, s, d, rx);
  }

  lemma DeltaStepWork(c: Config, s: System, step: Step)
    requires Sound(c) && Inv(c, s) && Enabled(c, s, step)
    ensures var w, w' := DeltaWork(c, s), DeltaWork(c, Next(c, s, step));
            if OfChannel(step) then w' == w else if step.SpuriousWake? then w' == w + 2 else w' < w
  {
    match step {
      case RollOnce(hit) => RollOnceWork(c, s, hit);
      case Enqueue => EnqueueStepWork(c, s);
      case Dequeue => DequeueWork(c, s);
      case ProcessDelta => ProcessWork(c, s);
      case _ => OtherStepWork(c, s, step);
    }
  }

  lemma RemainingPositive(c: Config, s: System)
    requires Wellformed(c) && ChannelInv(c, s) && RollerInv(c, s) && QueueInv(c, s)
    ensures Remaining(c, s) >= 0
  {
  }

  lemma StepWork(c: Config, s: System, step: Step)
    requires Sound(c) && Inv(c, s) && Enabled(c, s, step)
    ensures var w, w' := Remaining(c, s), Remaining(c, Next(c, s, step));
            if step.SpuriousWake? then w' <= w + 2 else w' < w
  {
    ChannelStepWork(c, s, step);
    DeltaStepWork(c, s, step);
  }

  function Spurious(steps: seq<Step>): nat {
    if steps == [] then 0 else (if steps[0].SpuriousWake? then 1 else 0) + Spurious(steps[1..])
  }

  lemma {:induction false} RunWork(c: Config, s0: System, steps: seq<Step>, s: System)
    requires Sound(c) && Inv(c, s0) && Run(c, s0, steps, s)
    ensures Inv(c, s) && |steps| + Remaining(c, s) <= Remaining(c, s0) + 3 * Spurious(steps)
    decreases |steps|
  {
    if steps != [] {
      StepKeeps(c, s0, steps[0]);
      StepWork(c, s0, steps[0]);
      RunWork(c, Next(c, s0, steps[0]), steps[1..], s);
    }
  }

  /** Every run is finite: its length is bounded by the file sizes and the number of spurious
      wake-ups, whatever the schedule. */
  lemma RunsAreBounded(c: Config, steps: seq<Step>, s: System)
    requires Sound(c) && Run(c, Initial(c), steps, s)
    ensures |steps| <= 42 * BlockCount(|c.y|, c.p.L) + 60 * |c.x| + 2 + 3 * Spurious(steps)
  {
    InitialInv(c);
    RunWork(c, Initial(c), steps, s);
    RemainingPositive(c, s);
  }

  /** From every reachable state the session can be run to completion. */
  lemma {:induction false} CanComplete(c: Config, s: System) returns (steps: seq<Step>, t: System)
    requires Sound(c) && Inv(c, s)
    ensures Run(c, s, steps, t) && Inv(c, t) && Complete(c, t)
    decreases Remaining(c, s)
  {
    if Complete(c, s) {
      steps, t := [], s;
    } else {
      var step := Progress(c, s);
      StepKeeps(c, s, step);
      StepWork(c, s, step);
      RemainingPositive(c, s);
      var rest;
      rest, t := CanComplete(c, Next(c, s, step));
      steps := [step] + rest;
    }
  }

  // ----- when the result is x -----------------------------------------------------------

  /** The condition on the files and the parameters, known before the session starts. */
  ghost predicate AlwaysExact(c: Config)
    requires Wellformed(c)
  {
    || |c.x| < c.p.copyAll || |c.x| <= c.p.copyTail
    || |c.x| > c.p.L || c.y == c.x || !IsSomeBlock(c.x, c.y, c.p.L)
  }

  /** A file larger than a block, or a y of at most one block, is always rebuilt exactly. */
  lemma UsualCase(c: Config)
    requires Wellformed(c) && (|c.x| > c.p.L || |c.y| <= c.p.L)
    ensures AlwaysExact(c)
  {
    if k :| 0 <= k < BlockCount(|c.y|, c.p.L) && Block(c.y, c.p.L, k) == c.x && |c.y| <= c.p.L {
      assert BlockCount(0, c.p.L) == 0 && k == 0;
      assert Block(c.y, c.p.L, 0) == c.y;
    }
  }

  lemma SendOne(c: Config, s: System, f: seq<byte>) returns (t: System)
    requires Wellformed(c) && s.ckWire == s.ckOut == [] && s.ckBlock < BlockCount(|c.y|, c.p.L)
    requires f == Frame(EntryOf(c.strong, c.y, c.p.L, s.ckBlock)) && |f| == FRAME
    ensures Run(c, s, [SendFrame, WriteFrame(FRAME)], t) && t == s.(ckBlock := s.ckBlock + 1, ckWire := f)
  {
    var s1 := Next(c, s, SendFrame);
    t := Next(c, s1, WriteFrame(FRAME));
    assert t.ckWire == f && t.ckOut == [];
    RunOne(c, s1, WriteFrame(FRAME), t, [], t);
    RunOne(c, s, SendFrame, s1, [WriteFrame(FRAME)], t);
    assert [SendFrame] + [WriteFrame(FRAME)] == [SendFrame, WriteFrame(FRAME)];
  }

  lemma ReceiveOne(c: Config, s: System, f: seq<byte>) returns (t: System)
    requires Wellformed(c) && s.ckIn == [] && s.ckWire == f && |f| == FRAME && |s.table| < BlockCount(|c.y|, c.p.L)
    ensures Run(c, s, [ReadFrame(FAST_BYTES), ReadFrame(FRAME - FAST_BYTES), InsertEntry], t)
    ensures t == s.(ckWire := [], table := s.table + [ParseFrame(f, |s.table|)])
  {
    var s1 := Next(c, s, ReadFrame(FAST_BYTES));
    assert s1.ckIn == f[..FAST_BYTES] && s1.ckWire == f[FAST_BYTES..];
    var s2 := Next(c, s1, ReadFrame(FRAME - FAST_BYTES));
    assert s2.ckIn == f && s2.ckWire == [];
    t := Next(c, s2, InsertEntry);
    RunOne(c, s2, InsertEntry, t, [], t);
    RunOne(c, s1, ReadFrame(FRAME - FAST_BYTES), s2, [InsertEntry], t);
    RunOne(c, s, ReadFrame(FAST_BYTES), s1, [ReadFrame(FRAME - FAST_BYTES), InsertEntry], t);
    assert [ReadFrame(FAST_BYTES)] + [ReadFrame(FRAME - FAST_BYTES), InsertEntry]
        == [ReadFrame(FAST_BYTES), ReadFrame(FRAME - FAST_BYTES), InsertEntry];
  }

  /** One more block through the checksum channel while everything else stands still. */
  lemma OneBlock(c: Config, s: System) returns (steps: seq<Step>, t: System)
    requires Wellformed(c) && ChannelInv(c, s) && s.ckIn == s.ckWire == s.ckOut == []
    requires s.ckBlock == |s.table| < BlockCount(|c.y|, c.p.L)
    ensures Run(c, s, steps, t) && t == s.(ckBlock := s.ckBlock + 1, table := t.table) && |t.table| == |s.table| + 1
  {
    var f := Frame(EntryOf(c.strong, c.y, c.p.L, s.ckBlock));
    FrameRoundTrip(EntryOf(c.strong, c.y, c.p.L, s.ckBlock));
    var u := SendOne(c, s, f);
    t := ReceiveOne(c, u, f);
    var first, second := [SendFrame, WriteFrame(FRAME)], [ReadFrame(FAST_BYTES), ReadFrame(FRAME - FAST_BYTES), InsertEntry];
    RunConcat(c, s, first, u, second, t);
    steps := first + second;
  }

  lemma WholeTable(es: seq<Entry>, table: seq<Entry>)
    requires |table| == |es| && table == es[..|table|]
    ensures table == es
  {
  }

  lemma {:induction false} FillTable(c: Config, s: System) returns (steps: seq<Step>, t: System)
    requires Sound(c) && Inv(c, s) && s.ckIn == s.ckWire == s.ckOut == [] && s.ckBlock == |s.table|
    ensures Run(c, s, steps, t) && Inv(c, t) && t.table == Entries(c.strong, c.y, c.p.L)
    ensures t.roll == s.roll && t.pending == s.pending && t.log == s.log
    decreases BlockCount(|c.y|, c.p.L) - |s.table|
  {
    if |s.table| == BlockCount(|c.y|, c.p.L) {
      steps, t := [], s;
      WholeTable(Entries(c.strong, c.y, c.p.L), s.table);
    } else {
      var first, mid := OneBlock(c, s);
      RunKeeps(c, s, first, mid);
      var rest;
      rest, t := FillTable(c, mid);
      RunConcat(c, s, first, mid, rest, t);
      steps := first + rest;
    }
  }

  lemma WrongResult(c: Config, s: System)
    requires Sound(c) && Inv(c, s) && Complete(c, s) && c.y != c.x
    requires s.log != [] && s.log[0].ZeroDiff?
    ensures s.toRx == 0 && s.rx.z != c.x
  {
    Delivery(c, s);
  }

  lemma {:induction false} LogGrows(c: Config, s0: System, steps: seq<Step>, s: System)
    requires Wellformed(c) && Run(c, s0, steps, s)
    ensures s0.log <= s.log
    decreases |steps|
  {
    if steps != [] {
      if steps[0] == ProcessDelta {
        ReceiveTouches(c, s0);
      }
      LogGrows(c, Next(c, s0, steps[0]), steps[1..], s);
    }
  }

  lemma ZeroDiffRun(c: Config, s1: System) returns (steps: seq<Step>, s: System)
    requires Sound(c) && !AlwaysExact(c) && Inv(c, s1)
    requires s1.table == Entries(c.strong, c.y, c.p.L) && s1.roll == START && s1.pending == [] && s1.log == []
    ensures Run(c, s1, steps, s) && s.toRx == 0 && s.rx.z != c.x
  {
    var k :| 0 <= k < BlockCount(|c.y|, c.p.L) && Block(c.y, c.p.L, k) == c.x;
    WholeWindowEntry(c.strong, c.x, c.y, c.p.L, k);
    var roll := RollOnce(Some(k));
    var s2 := Next(c, s1, roll);
    AdvanceZero(c.p, c.x, START, Some(k));
    assert s2.log == [] + [ZeroDiff(k, |c.x|)];
    StepKeeps(c, s1, roll);
    var rest;
    rest, s := CanComplete(c, s2);
    RunOne(c, s1, roll, s2, rest, s);
    steps := [roll] + rest;
    LogGrows(c, s2, rest, s);
    WrongResult(c, s);
  }

  lemma Reaches(c: Config, a: seq<Step>, t: System, b: seq<Step>, s: System)
    requires Wellformed(c) && Run(c, Initial(c), a, t) && Run(c, t, b, s)
    ensures Reachable(c, s)
  {
    RunConcat(c, Initial(c), a, t, b, s);
  }

  /** When the condition fails: fill the table first, then roll; the ZERO_DIFF delivers y. */
  lemma BadSchedule(c: Config) returns (s: System)
    requires Sound(c) && !AlwaysExact(c)
    ensures Reachable(c, s) && s.toRx == 0 && s.rx.z != c.x
  {
    var s0 := Initial(c);
    InitialInv(c);
    var fill, s1 := FillTable(c, s0);
    var steps;
    steps, s := ZeroDiffRun(c, s1);
    Reaches(c, fill, s1, steps, s);
  }

  /** Nothing has arrived in the table, the transmitter has not begun, no ZERO_DIFF was emitted. */
  ghost predicate Early(c: Config, s: System)
    requires Wellformed(c)
  {
    Inv(c, s) && s.table == [] && s.phase == Starting && !HasZeroDiff(s.log)
  }

  lemma EarlyInitial(c: Config)
    requires Sound(c)
    ensures Early(c, Initial(c))
  {
    InitialInv(c);
  }

  lemma RollEarly(c: Config, s: System) returns (step: Step)
    requires Sound(c) && Early(c, s) && (s.pending != [] || s.roll.pos < |c.x|)
    ensures Enabled(c, s, step) && Early(c, Next(c, s, step)) && step != SpuriousWake
  {
    if s.pending != [] {
      step := Enqueue;
    } else {
      step := RollOnce(None);
      AdvanceZero(c.p, c.x, s.roll, None);
      HasZeroDiffConcat(s.log, Advance(c.p, c.x, s.roll, None).1);
    }
    StepKeeps(c, s, step);
  }

  /** The roller may run to its end before the first checksum has arrived. */
  lemma {:induction false} RollAhead(c: Config, s: System) returns (steps: seq<Step>, t: System)
    requires Sound(c) && Early(c, s)
    ensures Run(c, s, steps, t) && Early(c, t) && t.roll.pos == |c.x| && t.pending == []
    decreases Remaining(c, s)
  {
    if s.pending == [] && s.roll.pos == |c.x| {
      steps, t := [], s;
    } else {
      var step := RollEarly(c, s);
      StepWork(c, s, step);
      RemainingPositive(c, s);
      var rest;
      rest, t := RollAhead(c, Next(c, s, step));
      steps := [step] + rest;
      RunOne(c, s, step, Next(c, s, step), rest, t);
    }
  }

  lemma NothingEmittedSince(c: Config, t: System, s: System)
    requires Sound(c) && Inv(c, t) && Inv(c, s) && t.roll.pos == |c.x| && t.log <= s.log
    ensures s.log == t.log
  {
    assert s.log[..|t.log|] == t.log;
    ChainComplete(c.p.L, |c.x|, s.log, |t.log|);
  }

  lemma RightResult(c: Config, s: System)
    requires Sound(c) && Inv(c, s) && Complete(c, s) && !HasZeroDiff(s.log)
    ensures s.toRx == 0 && s.rx.z == c.x
  {
    Delivery(c, s);
  }

  lemma RollAheadRun(c: Config, t: System) returns (steps: seq<Step>, s: System)
    requires Sound(c) && Early(c, t) && t.roll.pos == |c.x|
    ensures Run(c, t, steps, s) && Complete(c, s) && s.rx.z == c.x
  {
    steps, s := CanComplete(c, t);
    LogGrows(c, t, steps, s);
    NothingEmittedSince(c, t, s);
    RightResult(c, s);
  }

  /** Whatever the files, some schedule rebuilds x: roll everything while the table is empty. */
  lemma GoodSchedule(c: Config) returns (s: System)
    requires Sound(c)
    ensures Reachable(c, s) && s.toRx == 0 && s.rx.z == c.x
  {
    EarlyInitial(c);
    var ahead, t := RollAhead(c, Initial(c));
    var rest;
    rest, s := RollAheadRun(c, t);
    Reaches(c, ahead, t, rest, s);
  }

  /** Every schedule that runs to completion rebuilds x: this holds for all schedules exactly
      when the condition does. */
  lemma RemotePushExact(c: Config)
    requires Sound(c)
    ensures (forall s | Reachable(c, s) && s.toRx == 0 :: s.rx.z == c.x)
       <==> |c.x| < c.p.copyAll || |c.x| <= c.p.copyTail
            || |c.x| > c.p.L || c.y == c.x || !IsSomeBlock(c.x, c.y, c.p.L)
  {
    if AlwaysExact(c) {
      forall s | Reachable(c, s) && s.toRx == 0
        ensures s.rx.z == c.x
      {
        ReachableInv(c, s);
        Delivery(c, s);
      }
    } else {
      var s := BadSchedule(c);
      assert Reachable(c, s) && s.toRx == 0 && s.rx.z != c.x;
    }
  }

  /** rm_md5 as the strong checksum. */
  function Md5Of(t: Md5.Transform): Strong { d => Md5.Digest(t, d) }

  /** The condition does not follow from the absence of collisions: with blocks of one byte and
      y = 1 2, some schedule rebuilds the file x = 2 as y. */
  lemma RemotePushCanFail(t: Md5.Transform) returns (c: Config, s: System)
    ensures c == Config(Params(1, 0, 0, 1, true), [2], [1, 2], Md5Of(t))
    ensures Sound(c) && !AlwaysExact(c)
    ensures Reachable(c, s) && s.toRx == 0 && s.rx.z != c.x
  {
    c := Config(Params(1, 0, 0, 1, true), [2], [1, 2], Md5Of(t));
    TwoOneByteBlocks(Md5Of(t));
    assert IsSomeBlock(c.x, c.y, 1);
    s := BadSchedule(c);
  }
}
