/** What every step of a remote push keeps, and what a finished one has rebuilt. */
module RemoteSafety {
  import opened Machine
  import opened Blocks
  import opened Roller
  import opened Rebuild
  import opened Receiver
  import opened Channel
  import opened Wire
  import opened Remote

  ghost predicate Sound(c: Config) { Wellformed(c) && NoCollision(c.strong, c.x, c.y, c.p.L) }

  // ----- the checksum channel -----------------------------------------------------------

  /** The transmitter's table is a prefix of y's, references included, and what is in transit
      is the frames of the following blocks. */
  ghost predicate InTransit(es: seq<Entry>, table: seq<Entry>, sent: nat, input: seq<byte>, stream: seq<byte>, output: seq<byte>) {
    && |table| <= sent <= |es| && table == es[..|table|] && |input| <= FRAME
    && input + stream + output == Frames(es[|table|..sent])
  }

  ghost predicate ChannelInv(c: Config, s: System)
    requires Wellformed(c)
  {
    InTransit(Entries(c.strong, c.y, c.p.L), s.table, s.ckBlock, s.ckIn, s.ckWire, s.ckOut)
  }

  lemma FrameSent(es: seq<Entry>, table: seq<Entry>, sent: nat, input: seq<byte>, stream: seq<byte>)
    requires InTransit(es, table, sent, input, stream, []) && sent < |es|
    ensures InTransit(es, table, sent + 1, input, stream, Frame(es[sent]))
  {
    var t := |table|;
    assert es[t..sent + 1] == es[t..sent] + [es[sent]];
    FramesConcat(es[t..sent], [es[sent]]);
    FramesOne(es[sent]);
    assert input + stream + [] == input + stream;
  }

  lemma EntryArrived(es: seq<Entry>, table: seq<Entry>, sent: nat, input: seq<byte>, stream: seq<byte>, output: seq<byte>)
    requires InTransit(es, table, sent, input, stream, output) && |input| == FRAME
    requires forall i :: 0 <= i < |es| ==> es[i].ref == i && |es[i].sch| == 16
    ensures InTransit(es, table + [ParseFrame(input, |table|)], sent, [], stream, output)
  {
    var t := |table|;
    assert t < sent by { assert |input + stream + output| > 0; }
    var rest := es[t..sent];
    assert rest[1..] == es[t + 1..sent] && rest[0] == es[t];
    FrameRoundTrip(es[t]);
    Associate(input, stream, output);
    Front(input, stream + output);
    Front(Frame(es[t]), Frames(rest[1..]));
    assert es[..t] + [es[t]] == es[..t + 1];
    assert [] + stream + output == stream + output;
  }

  /** Bytes moved from the front of one buffer to the back of the one before it. */
  lemma Moved(a: seq<byte>, b: seq<byte>, d: seq<byte>, n: nat)
    requires n <= |b|
    ensures a + b[..n] + b[n..] + d == a + b + d
    ensures d + (a + b[..n]) + b[n..] == d + a + b
  {
    assert b[..n] + b[n..] == b;
  }

  lemma ReceiveTouches(c: Config, s: System)
    requires s.rxIn != [] && |s.rxIn| >= Needed(s.rxIn)
    ensures var t := Receive(c, s);
            && t == s.(failed := t.failed, rx := t.rx, toRx := t.toRx, rxIn := t.rxIn, rcv := t.rcv)
            && s.rcv <= t.rcv <= s.rcv + 1
  {
  }

  lemma ChannelUntouched(c: Config, s: System, step: Step)
    requires Wellformed(c) && Enabled(c, s, step)
    requires !step.SendFrame? && !step.InsertEntry? && !step.WriteFrame? && !step.ReadFrame?
    ensures var t := Next(c, s, step);
            && t.table == s.table && t.ckBlock == s.ckBlock && t.ckIn == s.ckIn
            && t.ckWire == s.ckWire && t.ckOut == s.ckOut
  {
    if step == ProcessDelta {
      ReceiveTouches(c, s);
    }
  }

  lemma ChannelKeeps(c: Config, s: System, step: Step)
    requires Wellformed(c) && ChannelInv(c, s) && Enabled(c, s, step)
    ensures ChannelInv(c, Next(c, s, step))
  {
    match step {
      case SendFrame => FrameSent(Entries(c.strong, c.y, c.p.L), s.table, s.ckBlock, s.ckIn, s.ckWire);
      case InsertEntry =>
        EntryArrived(Entries(c.strong, c.y, c.p.L), s.table, s.ckBlock, s.ckIn, s.ckWire, s.ckOut);
      case WriteFrame(n) => Moved(s.ckWire, s.ckOut, s.ckIn, n);
      case ReadFrame(n) => Moved(s.ckIn, s.ckWire, s.ckOut, n);
      case _ => ChannelUntouched(c, s, step);
    }
  }

  // ----- the roller ---------------------------------------------------------------------

  /** x is no larger than a block, equals a block of y, and no copy threshold fires. */
  ghost predicate WholeFileMatch(c: Config)
    requires Wellformed(c)
  {
    0 < |c.x| <= c.p.L && !CopiesRest(c.p, c.x, 0) && IsSomeBlock(c.x, c.y, c.p.L)
  }

  /** Everything emitted so far is well shaped and, with the buffered literals, spells the part
      of x before the cursor, although each lookup saw only a prefix of the table. */
  ghost predicate RollerInv(c: Config, s: System)
    requires Wellformed(c)
  {
    && Shape(c.p, c.x, s.roll, s.log) && Emitted(s.roll) >= 0
    && SpellsRange(c.y, c.p.L, s.log, c.x, 0, Emitted(s.roll))
    && (HasZeroDiff(s.log) ==> IsZeroDiff(s.log) && s.log[0].n == |c.x| && s.roll.pos == |c.x| && WholeFileMatch(c))
  }

  lemma ZeroDiffKept(p: Params, x: seq<byte>, r: Roll, hit: Option<nat>, log: seq<Delta>)
    requires Shape(p, x, r, log) && r.pos < |x| && !HasZeroDiff(log)
    ensures var (r', es) := Advance(p, x, r, hit);
            HasZeroDiff(log + es) ==> IsZeroDiff(log + es) && (log + es)[0].n == |x| && r'.pos == |x|
  {
    var (r', es) := Advance(p, x, r, hit);
    HasZeroDiffConcat(log, es);
    AdvanceZero(p, x, r, hit);
    if HasZeroDiff(es) {
      ChainGrows(p.L, |x|, 0, log);
      assert log == [] && log + es == es;
    }
  }

  /** What it takes for this lookup to emit a ZERO_DIFF. */
  lemma WholeFileFound(c: Config, s: System, hit: Option<nat>)
    requires Sound(c) && ChannelInv(c, s) && RollerInv(c, s) && Enabled(c, s, RollOnce(hit))
    requires HasZeroDiff(Advance(c.p, c.x, s.roll, hit).1)
    ensures WholeFileMatch(c)
  {
    AdvanceZero(c.p, c.x, s.roll, hit);
    HitIsBlock(c.strong, c.x, c.y, c.p.L, 0, s.table, hit.value);
    WholeWindow(c.p.L, c.x);
  }

  lemma RollOnceKeeps(c: Config, s: System, hit: Option<nat>)
    requires Sound(c) && ChannelInv(c, s) && RollerInv(c, s) && Enabled(c, s, RollOnce(hit))
    ensures RollerInv(c, Next(c, s, RollOnce(hit)))
  {
    var (r, es) := Advance(c.p, c.x, s.roll, hit);
    AdvanceShape(c.p, c.x, s.roll, hit, s.log);
    AdvanceSpells(c.p, c.strong, c.x, c.y, s.roll, hit, s.table);
    SpellsStep(c.y, c.p.L, s.log, es, c.x, 0, Emitted(s.roll), Emitted(r));
    ZeroDiffKept(c.p, c.x, s.roll, hit, s.log);
    HasZeroDiffConcat(s.log, es);
    if HasZeroDiff(es) {
      WholeFileFound(c, s, hit);
    }
  }

  lemma RollerKeeps(c: Config, s: System, step: Step)
    requires Sound(c) && ChannelInv(c, s) && RollerInv(c, s) && Enabled(c, s, step)
    ensures RollerInv(c, Next(c, s, step))
  {
    match step {
      case RollOnce(hit) => RollOnceKeeps(c, s, hit);
      case _ =>
    }
  }

  // ----- the queue ----------------------------------------------------------------------

  /** Where every emitted element is, what the counters say of the enqueued ones, and when the
      delta transmitter may sleep. */
  ghost predicate Placed(L: nat, total: nat, log: seq<Delta>, enq: nat, deq: nat, pending: seq<Delta>, queue: seq<Delta>,
                         txStats: Stats, toTx: nat) {
    && deq <= enq <= |log| && pending == log[enq..] && queue == log[deq..enq]
    && txStats == Tally(L, NOTHING, log[..enq])
    && toTx + Covered(log[..deq]) == total
  }

  ghost predicate QueueInv(c: Config, s: System) {
    && s.rcv <= s.deq
    && Placed(c.p.L, |c.x|, s.log, s.enq, s.deq, s.pending, s.queue, s.txStats, s.toTx)
    && (s.phase != Holding ==> s.txOut == [])
    && (s.phase == Asleep ==> s.queue == [] && s.toTx > 0)
    && (s.phase == Finished ==> s.toTx == 0)
  }

  lemma TakeNext(L: nat, log: seq<Delta>, k: nat)
    requires k < |log|
    ensures log[..k + 1] == log[..k] + [log[k]]
    ensures Covered(log[..k + 1]) == Covered(log[..k]) + Size(log[k])
    ensures Tally(L, NOTHING, log[..k + 1]) == Count(L, Tally(L, NOTHING, log[..k]), log[k])
  {
    assert log[..k + 1] == log[..k] + [log[k]];
    CoveredConcat(log[..k], [log[k]]);
    ChainOne(L, 0, 0, log[k]);
    TallyConcat(L, NOTHING, log[..k], [log[k]]);
    assert [log[k]][1..] == [];
  }

  lemma EnqueuePlaced(L: nat, total: nat, log: seq<Delta>, enq: nat, deq: nat, pending: seq<Delta>, queue: seq<Delta>,
                      txStats: Stats, toTx: nat)
    requires Placed(L, total, log, enq, deq, pending, queue, txStats, toTx) && pending != []
    ensures Placed(L, total, log, enq + 1, deq, pending[1..], queue + [pending[0]], Count(L, txStats, pending[0]), toTx)
  {
    TakeNext(L, log, enq);
    assert log[deq..enq + 1] == log[deq..enq] + [log[enq]];
  }

  lemma DequeuePlaced(L: nat, total: nat, log: seq<Delta>, enq: nat, deq: nat, pending: seq<Delta>, queue: seq<Delta>,
                      txStats: Stats, toTx: nat)
    requires Placed(L, total, log, enq, deq, pending, queue, txStats, toTx) && queue != []
    requires Covered(log) <= total < TWO64
    ensures Size(queue[0]) <= toTx && Wrap64(toTx - Size(queue[0])) == toTx - Size(queue[0])
    ensures Placed(L, total, log, enq, deq + 1, pending, queue[1..], txStats, toTx - Size(queue[0]))
  {
    TakeNext(L, log, deq);
    CoveredConcat(log[..deq + 1], log[deq + 1..]);
    assert log == log[..deq + 1] + log[deq + 1..];
    assert log[deq..enq][1..] == log[deq + 1..enq];
  }

  lemma RolledPlaced(L: nat, total: nat, log: seq<Delta>, enq: nat, deq: nat, queue: seq<Delta>,
                     txStats: Stats, toTx: nat, es: seq<Delta>)
    requires Placed(L, total, log, enq, deq, [], queue, txStats, toTx)
    ensures Placed(L, total, log + es, enq, deq, es, queue, txStats, toTx)
  {
    assert enq == |log|;
    assert (log + es)[enq..] == es && (log + es)[deq..enq] == log[deq..enq];
    assert (log + es)[..enq] == log[..enq] && (log + es)[..deq] == log[..deq];
  }

  lemma RollOnceQueue(c: Config, s: System, hit: Option<nat>)
    requires Wellformed(c) && QueueInv(c, s) && Enabled(c, s, RollOnce(hit))
    ensures QueueInv(c, Next(c, s, RollOnce(hit)))
  {
    var es := Advance(c.p, c.x, s.roll, hit).1;
    RolledPlaced(c.p.L, |c.x|, s.log, s.enq, s.deq, s.queue, s.txStats, s.toTx, es);
  }

  lemma EnqueueQueue(c: Config, s: System)
    requires Wellformed(c) && QueueInv(c, s) && Enabled(c, s, Enqueue)
    ensures QueueInv(c, Next(c, s, Enqueue))
  {
    EnqueuePlaced(c.p.L, |c.x|, s.log, s.enq, s.deq, s.pending, s.queue, s.txStats, s.toTx);
  }

  lemma DequeueQueue(c: Config, s: System)
    requires Wellformed(c) && RollerInv(c, s) && QueueInv(c, s) && Enabled(c, s, Dequeue)
    ensures QueueInv(c, Next(c, s, Dequeue))
    ensures Size(s.queue[0]) <= s.toTx && Next(c, s, Dequeue).toTx == s.toTx - Size(s.queue[0])
  {
    DequeuePlaced(c.p.L, |c.x|, s.log, s.enq, s.deq, s.pending, s.queue, s.txStats, s.toTx);
  }

  lemma QueueKeeps(c: Config, s: System, step: Step)
    requires Wellformed(c) && RollerInv(c, s) && QueueInv(c, s) && Enabled(c, s, step)
    requires step == ProcessDelta ==> s.rcv < s.deq
    ensures QueueInv(c, Next(c, s, step))
  {
    match step {
      case RollOnce(hit) => RollOnceQueue(c, s, hit);
      case Enqueue => EnqueueQueue(c, s);
      case Dequeue => DequeueQueue(c, s);
      case ProcessDelta => ReceiveTouches(c, s);
      case _ =>
    }
  }

  // ----- the delta stream ---------------------------------------------------------------

  /** What is between transmitter and receiver is the encoding of the elements dequeued but not
      yet received, and the receiver never holds more than one of them. */
  ghost predicate Streamed(ds: seq<Delta>, input: seq<byte>, stream: seq<byte>, output: seq<byte>) {
    && input + stream + output == EncodeAll(ds)
    && (ds != [] ==> |input| <= |Encode(ds[0])|)
  }

  lemma StreamPush(ds: seq<Delta>, input: seq<byte>, stream: seq<byte>, d: Delta)
    requires Streamed(ds, input, stream, [])
    ensures Streamed(ds + [d], input, stream, Encode(d))
  {
    EncodeConcat(ds, [d]);
    EncodeCons(d, []);
    assert [d] + [] == [d] && Encode(d) + [] == Encode(d);
    assert input + stream + [] == input + stream;
  }

  lemma StreamHead(ds: seq<Delta>, input: seq<byte>, stream: seq<byte>, output: seq<byte>)
    requires Streamed(ds, input, stream, output) && input + stream != []
    ensures ds != [] && input == Encode(ds[0])[..|input|]
  {
    var e, more := Encode(ds[0]), EncodeAll(ds[1..]);
    assert input + stream + output == e + more;
    assert input == (e + more)[..|input|];
  }

  lemma StreamRead(ds: seq<Delta>, input: seq<byte>, stream: seq<byte>, output: seq<byte>, n: nat)
    requires Streamed(ds, input, stream, output) && 0 < n <= |stream| && |input| + n <= Needed(input)
    requires AllEncodable(ds)
    ensures Streamed(ds, input + stream[..n], stream[n..], output)
  {
    StreamHead(ds, input, stream, output);
    NeededOfPrefix(ds[0], |input|);
    Moved(input, stream, output, n);
  }

  lemma PopBytes(input: seq<byte>, stream: seq<byte>, output: seq<byte>, e: seq<byte>, more: seq<byte>)
    requires input + stream + output == e + more && |input| == |e|
    ensures input == e && [] + stream + output == more
  {
    Associate(input, stream, output);
    Front(input, stream + output);
    Front(e, more);
    assert [] + stream + output == stream + output;
  }

  lemma StreamPop(ds: seq<Delta>, input: seq<byte>, stream: seq<byte>, output: seq<byte>)
    requires Streamed(ds, input, stream, output) && input != [] && |input| == Needed(input) && AllEncodable(ds)
    ensures ds != [] && input == Encode(ds[0]) && Streamed(ds[1..], [], stream, output)
  {
    StreamHead(ds, input, stream, output);
    NeededOfPrefix(ds[0], |input|);
    PopBytes(input, stream, output, Encode(ds[0]), EncodeAll(ds[1..]));
  }

  ghost predicate StreamInv(s: System) {
    s.rcv <= s.deq <= |s.log| && Streamed(s.log[s.rcv..s.deq], s.rxIn, s.wire, s.txOut)
  }

  lemma {:induction false} OffsetAtLeast(k: nat, L: nat)
    requires L > 0
    ensures k <= Offset(k, L)
  {
    if k > 0 {
      OffsetAtLeast(k - 1, L);
    }
  }

  /** References and sizes of spelled elements fit the wire format. */
  lemma {:induction false} SpelledEncodable(y: seq<byte>, L: nat, ds: seq<Delta>, w: seq<byte>)
    requires L > 0 && Spells(y, L, ds, w) && |w| < TWO64 && |y| < TWO64
    ensures AllEncodable(ds)
    decreases |ds|
  {
    if ds != [] {
      var n := Size(ds[0]);
      SpelledEncodable(y, L, ds[1..], w[n..]);
      if !ds[0].Raw? {
        OffsetAtLeast(ds[0].ref, L);
      }
      assert forall i :: 0 < i < |ds| ==> ds[i] == ds[1..][i - 1];
    }
  }

  lemma LogEncodable(c: Config, s: System)
    requires Wellformed(c) && RollerInv(c, s)
    ensures AllEncodable(s.log)
  {
    SpelledEncodable(c.y, c.p.L, s.log, c.x[0..Emitted(s.roll)]);
  }

  lemma SliceSnoc(log: seq<Delta>, i: nat, j: nat)
    requires i <= j < |log|
    ensures log[i..j + 1] == log[i..j] + [log[j]]
  {
  }

  lemma DequeueStream(c: Config, s: System)
    requires Wellformed(c) && QueueInv(c, s) && StreamInv(s) && Enabled(c, s, Dequeue)
    ensures StreamInv(Next(c, s, Dequeue))
  {
    var t := Next(c, s, Dequeue);
    SliceSnoc(s.log, s.rcv, s.deq);
    StreamPush(s.log[s.rcv..s.deq], s.rxIn, s.wire, s.queue[0]);
    assert t.log[t.rcv..t.deq] == s.log[s.rcv..s.deq] + [s.queue[0]];
  }

  lemma ReadStream(c: Config, s: System, n: nat)
    requires Wellformed(c) && RollerInv(c, s) && StreamInv(s) && Enabled(c, s, ReadDelta(n))
    ensures StreamInv(Next(c, s, ReadDelta(n)))
  {
    LogEncodable(c, s);
    assert AllEncodable(s.log[s.rcv..s.deq]);
    StreamRead(s.log[s.rcv..s.deq], s.rxIn, s.wire, s.txOut, n);
  }

  lemma WriteStream(c: Config, s: System, n: nat)
    requires Wellformed(c) && StreamInv(s) && Enabled(c, s, WriteDelta(n))
    ensures StreamInv(Next(c, s, WriteDelta(n)))
  {
    Moved(s.wire, s.txOut, s.rxIn, n);
  }

  /** The steps that touch neither the stream nor the counters of elements sent and received. */
  lemma StreamUntouched(c: Config, s: System, step: Step)
    requires Wellformed(c) && StreamInv(s) && Enabled(c, s, step)
    requires !step.Dequeue? && !step.WriteDelta? && !step.ReadDelta? && !step.ProcessDelta?
    ensures StreamInv(Next(c, s, step))
  {
    assert Next(c, s, step).log[s.rcv..s.deq] == s.log[s.rcv..s.deq];
  }

  lemma StreamKeeps(c: Config, s: System, step: Step)
    requires Wellformed(c) && RollerInv(c, s) && QueueInv(c, s) && StreamInv(s) && Enabled(c, s, step)
    requires step != ProcessDelta
    ensures StreamInv(Next(c, s, step))
  {
    match step {
      case Dequeue => DequeueStream(c, s);
      case WriteDelta(n) => WriteStream(c, s, n);
      case ReadDelta(n) => ReadStream(c, s, n);
      case _ => StreamUntouched(c, s, step);
    }
  }

  // ----- the file receiver --------------------------------------------------------------

  /** After the elements `got`: a prefix of x with matching counters, or, after a ZERO_DIFF, all
      of y and nothing more expected. */
  ghost predicate Delivered(c: Config, got: seq<Delta>, rx: Rx, toRx: nat) {
    if HasZeroDiff(got) then
      rx == Rx(c.y, Count(c.p.L, NOTHING, ZeroDiff(0, |c.y|))) && toRx == 0
    else
      && Rebuilt(c.x, Covered(got), rx) && toRx + Covered(got) == |c.x|
      && rx.st == Tally(c.p.L, NOTHING, got)
  }

  ghost predicate ReceiverInv(c: Config, s: System) {
    !s.failed && s.rcv <= |s.log| && Delivered(c, s.log[..s.rcv], s.rx, s.toRx)
  }

  lemma ChainElement(L: nat, total: nat, log: seq<Delta>, k: nat)
    requires L > 0 && Chain(L, total, 0, log) && k < |log|
    ensures var done := Covered(log[..k]);
            && Fits(L, total, done, log[k]) && done + Size(log[k]) <= total && (done == 0 ==> k == 0)
  {
    var a, b := log[..k], log[k..];
    assert log == a + b;
    ChainConcat(L, total, 0, a, b);
    ChainGrows(L, total, 0, a);
  }

  lemma CoveredTake(ds: seq<Delta>, k: nat)
    requires 0 < k <= |ds|
    ensures Covered(ds[..k]) == Size(ds[0]) + Covered(ds[1..][..k - 1])
  {
    assert ds[..k][1..] == ds[1..][..k - 1];
  }

  lemma {:induction false} ElementDenotes(y: seq<byte>, L: nat, ds: seq<Delta>, x: seq<byte>, from: nat, k: nat)
    requires k < |ds| && SpellsRange(y, L, ds, x, from, from + Covered(ds))
    ensures var at, n := from + Covered(ds[..k]), Size(ds[k]);
            at + n <= |x| && Denotes(y, L, ds[k], x[at..at + n])
    decreases k
  {
    SpellsSplit(y, L, ds, x, from);
    if k == 0 {
      assert Covered(ds[..0]) == 0;
    } else {
      CoveredTake(ds, k);
      ElementDenotes(y, L, ds[1..], x, from + Size(ds[0]), k - 1);
      assert ds[1..][k - 1] == ds[k];
    }
  }

  lemma WholeRange(y: seq<byte>, L: nat, log: seq<Delta>, x: seq<byte>, emitted: nat)
    requires SpellsRange(y, L, log, x, 0, emitted)
    ensures emitted == 0 + Covered(log)
  {
    SpellsCovers(y, L, log, x[0..emitted]);
  }

  lemma LogDenotes(c: Config, log: seq<Delta>, k: nat, emitted: int)
    requires emitted >= 0 && SpellsRange(c.y, c.p.L, log, c.x, 0, emitted) && k < |log|
    ensures var at, n := Covered(log[..k]), Size(log[k]);
            at + n <= |c.x| && Denotes(c.y, c.p.L, log[k], c.x[at..at + n])
  {
    WholeRange(c.y, c.p.L, log, c.x, emitted);
    ElementDenotes(c.y, c.p.L, log, c.x, 0, k);
  }

  /** What the invariants say about one element of the log. */
  lemma LogElement(c: Config, s: System, k: nat)
    requires Wellformed(c) && RollerInv(c, s) && k < |s.log|
    ensures var done, d := Covered(s.log[..k]), s.log[k];
            && Fits(c.p.L, |c.x|, done, d) && done + Size(d) <= |c.x|
            && Denotes(c.y, c.p.L, d, c.x[done..done + Size(d)])
            && Encodable(d) && (done == 0 ==> k == 0)
  {
    ChainElement(c.p.L, |c.x|, s.log, k);
    LogEncodable(c, s);
    LogDenotes(c, s.log, k, Emitted(s.roll));
  }

  /** The element a complete input buffer holds is the next one of the log. */
  lemma NextElement(c: Config, s: System)
    requires Wellformed(c) && RollerInv(c, s) && QueueInv(c, s) && StreamInv(s) && Enabled(c, s, ProcessDelta)
    ensures s.rcv < s.deq && s.rxIn == Encode(s.log[s.rcv])
    ensures Streamed(s.log[s.rcv + 1..s.deq], [], s.wire, s.txOut)
  {
    var ds := s.log[s.rcv..s.deq];
    LogEncodable(c, s);
    assert AllEncodable(ds);
    StreamPop(ds, s.rxIn, s.wire, s.txOut);
    assert ds[1..] == s.log[s.rcv + 1..s.deq];
  }

  lemma SnocFacts(L: nat, got: seq<Delta>, d: Delta)
    ensures Covered(got + [d]) == Covered(got) + Size(d)
    ensures Tally(L, NOTHING, got + [d]) == Count(L, Tally(L, NOTHING, got), d)
    ensures HasZeroDiff(got + [d]) <==> HasZeroDiff(got) || d.ZeroDiff?
  {
    var all := got + [d];
    assert all[..|got|] == got && all[..|got| + 1] == all;
    TakeNext(L, all, |got|);
    HasZeroDiffConcat(got, [d]);
    assert HasZeroDiff([d]) <==> d.ZeroDiff? by { assert [d][0] == d; }
  }

  lemma DeliveredSnoc(c: Config, got: seq<Delta>, d: Delta, rx: Rx, toRx: nat)
    requires !HasZeroDiff(got) && !d.ZeroDiff?
    requires Rebuilt(c.x, Covered(got) + Size(d), rx) && toRx + Covered(got) + Size(d) == |c.x|
    requires rx.st == Count(c.p.L, Tally(c.p.L, NOTHING, got), d)
    ensures Delivered(c, got + [d], rx, toRx)
  {
    SnocFacts(c.p.L, got, d);
  }

  lemma DeliverPlain(c: Config, got: seq<Delta>, rx: Rx, toRx: nat, d: Delta)
    requires c.p.L > 0 && |c.x| < TWO64 && Delivered(c, got, rx, toRx) && toRx > 0 && !d.ZeroDiff?
    requires var done := Covered(got);
             && Fits(c.p.L, |c.x|, done, d) && done + Size(d) <= |c.x|
             && Denotes(c.y, c.p.L, d, c.x[done..done + Size(d)])
    ensures var (err, rx') := Process(c.p.L, c.y, rx, d);
            err == OK && Delivered(c, got + [d], rx', LeftAfter(toRx, d))
  {
    ProcessSpelled(c.p.L, c.x, c.y, Covered(got), rx, d);
    LeftIsExact(c.p.L, |c.x|, Covered(got), d);
    DeliveredSnoc(c, got, d, Process(c.p.L, c.y, rx, d).1, LeftAfter(toRx, d));
  }

  lemma DeliverZeroDiff(c: Config, rx: Rx, toRx: nat, d: Delta)
    requires c.p.L > 0 && 0 < |c.x| < TWO64 && |c.y| < TWO64
    requires Delivered(c, [], rx, toRx) && d.ZeroDiff? && Encodable(d)
    requires Fits(c.p.L, |c.x|, 0, d)
    ensures var got := ZeroDiff(0, |c.y|);
            && Needed(Encode(d)) == |Encode(d)| && Parse(c.p.L, toRx, |c.y|, Encode(d)) == Some(got)
            && (var (err, rx') := Process(c.p.L, c.y, rx, got);
                err == OK && Delivered(c, [d], rx', LeftAfter(toRx, got)))
  {
    assert !HasZeroDiff([]) && rx == EMPTY && toRx == |c.x|;
    ParseEncoded(c.p.L, |c.x|, 0, |c.y|, d);
    assert [d][0].ZeroDiff?;
  }

  lemma ReceiveOk(c: Config, s: System, d: Delta, rx: Rx)
    requires s.rxIn != [] && |s.rxIn| >= Needed(s.rxIn) && Parse(c.p.L, s.toRx, |c.y|, s.rxIn) == Some(d)
    requires Process(c.p.L, c.y, s.rx, d) == (OK, rx)
    ensures Receive(c, s) == s.(rx := rx, toRx := LeftAfter(s.toRx, d), rxIn := [], rcv := s.rcv + 1)
  {
  }

  lemma NextPlain(c: Config, got: seq<Delta>, rx: Rx, toRx: nat, e: Delta) returns (rx': Rx)
    requires c.p.L > 0 && 0 < |c.x| < TWO64 && Delivered(c, got, rx, toRx) && toRx > 0 && !e.ZeroDiff?
    requires var done := Covered(got);
             && Fits(c.p.L, |c.x|, done, e) && done + Size(e) <= |c.x| && Encodable(e)
             && Denotes(c.y, c.p.L, e, c.x[done..done + Size(e)])
    ensures Needed(Encode(e)) == |Encode(e)| && Parse(c.p.L, toRx, |c.y|, Encode(e)) == Some(e)
    ensures Process(c.p.L, c.y, rx, e) == (OK, rx') && Delivered(c, got + [e], rx', LeftAfter(toRx, e))
  {
    ParseEncoded(c.p.L, |c.x|, Covered(got), |c.y|, e);
    DeliverPlain(c, got, rx, toRx, e);
    rx' := Process(c.p.L, c.y, rx, e).1;
  }

  /** The next element is received without error. */
  lemma DeliverNext(c: Config, s: System) returns (d: Delta, rx: Rx)
    requires Wellformed(c) && RollerInv(c, s) && ReceiverInv(c, s)
    requires s.toRx > 0 && s.rcv < |s.log| && s.rxIn == Encode(s.log[s.rcv])
    ensures Needed(s.rxIn) == |s.rxIn| && Parse(c.p.L, s.toRx, |c.y|, s.rxIn) == Some(d)
    ensures Process(c.p.L, c.y, s.rx, d) == (OK, rx)
    ensures Delivered(c, s.log[..s.rcv + 1], rx, LeftAfter(s.toRx, d))
  {
    LogElement(c, s, s.rcv);
    var got, e := s.log[..s.rcv], s.log[s.rcv];
    assert s.log[..s.rcv + 1] == got + [e];
    if e.ZeroDiff? {
      assert got == [] && got + [e] == [e];
      d := ZeroDiff(0, |c.y|);
      DeliverZeroDiff(c, s.rx, s.toRx, e);
      rx := Process(c.p.L, c.y, s.rx, d).1;
    } else {
      d := e;
      rx := NextPlain(c, got, s.rx, s.toRx, e);
    }
  }

  lemma ProcessKeeps(c: Config, s: System)
    requires Wellformed(c) && RollerInv(c, s) && QueueInv(c, s) && StreamInv(s) && ReceiverInv(c, s)
    requires Enabled(c, s, ProcessDelta)
    ensures var t := Receive(c, s); StreamInv(t) && ReceiverInv(c, t) && t.rcv == s.rcv + 1 <= s.deq
  {
    NextElement(c, s);
    var d, rx := DeliverNext(c, s);
    ReceiveOk(c, s, d, rx);
  }

  // ----- all steps, all runs ------------------------------------------------------------

  ghost predicate Inv(c: Config, s: System)
    requires Wellformed(c)
  {
    ChannelInv(c, s) && RollerInv(c, s) && QueueInv(c, s) && StreamInv(s) && ReceiverInv(c, s)
  }

  lemma NothingEmitted(p: Params, x: seq<byte>, y: seq<byte>)
    requires p.Valid()
    ensures Shape(p, x, START, []) && Emitted(START) == 0 && SpellsRange(y, p.L, [], x, 0, 0) && !HasZeroDiff([])
  {
  }

  lemma InitialRoller(c: Config)
    requires Wellformed(c)
    ensures RollerInv(c, Initial(c))
  {
    NothingEmitted(c.p, c.x, c.y);
  }

  lemma InitialQueue(c: Config)
    requires Wellformed(c)
    ensures QueueInv(c, Initial(c))
  {
  }

  lemma InitialChannel(c: Config)
    requires Wellformed(c)
    ensures ChannelInv(c, Initial(c))
  {
  }

  lemma InitialReceiver(c: Config)
    requires Wellformed(c)
    ensures StreamInv(Initial(c)) && ReceiverInv(c, Initial(c))
  {
    assert !HasZeroDiff([]);
  }

  lemma InitialInv(c: Config)
    requires Wellformed(c)
    ensures Inv(c, Initial(c))
  {
    InitialChannel(c);
    InitialRoller(c);
    InitialQueue(c);
    InitialReceiver(c);
  }

  lemma ReceiverKeeps(c: Config, s: System, step: Step)
    requires Sound(c) && Inv(c, s) && Enabled(c, s, step) && step != ProcessDelta
    ensures ReceiverInv(c, Next(c, s, step))
  {
    var t := Next(c, s, step);
    assert t.log[..s.rcv] == s.log[..s.rcv];
  }

  lemma StepKeeps(c: Config, s: System, step: Step)
    requires Sound(c) && Inv(c, s) && Enabled(c, s, step)
    ensures Inv(c, Next(c, s, step))
  {
    ChannelKeeps(c, s, step);
    RollerKeeps(c, s, step);
    if step == ProcessDelta {
      ProcessKeeps(c, s);
    } else {
      StreamKeeps(c, s, step);
      ReceiverKeeps(c, s, step);
    }
    QueueKeeps(c, s, step);
  }

  lemma {:induction false} RunKeeps(c: Config, s0: System, steps: seq<Step>, s: System)
    requires Sound(c) && Inv(c, s0) && Run(c, s0, steps, s)
    ensures Inv(c, s)
    decreases |steps|
  {
    if steps != [] {
      StepKeeps(c, s0, steps[0]);
      RunKeeps(c, Next(c, s0, steps[0]), steps[1..], s);
    }
  }

  lemma ReachableInv(c: Config, s: System)
    requires Sound(c) && Reachable(c, s)
    ensures Inv(c, s)
  {
    var steps :| Run(c, Initial(c), steps, s);
    InitialInv(c);
    RunKeeps(c, Initial(c), steps, s);
  }
}
