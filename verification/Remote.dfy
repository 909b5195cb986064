/** Remote push as a transition system. Two hosts, two byte streams and five activities: the
    checksum sender and the file receiver on one host; the checksum receiver, the roller and the
    delta transmitter on the other. Every mutex-held region is one step, and reads and writes
    move any number of bytes at a time. */
module Remote {
  import opened Machine
  import opened Blocks
  import opened Roller
  import opened Receiver
  import opened Channel
  import opened Wire

  datatype Config = Config(p: Params, x: seq<byte>, y: seq<byte>, strong: Strong)

  /** L and the send threshold are positive, the hashtable exists, sizes fit a size_t. */
  ghost predicate Wellformed(c: Config) {
    c.p.Valid() && c.p.indexed && |c.x| < TWO64 && |c.y| < TWO64 && Sized(c.strong)
  }

  /** The delta transmitter and the queue's mutex and condition variable: before its first lock,
      holding the mutex, asleep on the signal, signalled but not yet running again, and done. */
  datatype Phase = Starting | Holding | Asleep | Woken | Finished

  datatype System = System(
    // checksum sender: blocks read, unwritten rest of the current frame, the stream
    ckBlock: nat, ckOut: seq<byte>, ckWire: seq<byte>,
    // checksum receiver: partial frame, the hashtable
    ckIn: seq<byte>, table: seq<Entry>,
    // roller: its state, elements not yet enqueued, the transmitter's counters
    roll: Roll, pending: seq<Delta>, txStats: Stats,
    // delta transmitter: the queue, its phase, bytes_to_rx, unwritten rest of the element, the stream
    queue: seq<Delta>, phase: Phase, toTx: nat, txOut: seq<byte>, wire: seq<byte>,
    // file receiver: partial element, bytes_to_rx, result file with counters, error exit taken
    rxIn: seq<byte>, toRx: nat, rx: Rx, failed: bool,
    // history only: everything the roller emitted, and how many elements of it were enqueued,
    // dequeued and received
    log: seq<Delta>, enq: nat, deq: nat, rcv: nat
  )

  function Initial(c: Config): System {
    System(0, [], [], [], [], START, [], NOTHING, [], Starting, |c.x|, [], [], [], |c.x|, EMPTY, false, [], 0, 0, 0)
  }

  datatype Step =
    | SendFrame | WriteFrame(n: nat) | ReadFrame(n: nat) | InsertEntry
    | RollOnce(hit: Option<nat>) | Enqueue
    | Begin | Dequeue | WriteDelta(n: nat) | Wait | SpuriousWake | Resume | Finish
    | ReadDelta(n: nat) | ProcessDelta

  /** How far the checksum receiver's current rm_tcp_rx goes: the fast checksum, then the rest. */
  function FrameGoal(have: nat): nat { if have < FAST_BYTES then FAST_BYTES else FRAME }

  ghost predicate Enabled(c: Config, s: System, step: Step)
    requires Wellformed(c)
  {
    match step
    case SendFrame => s.ckOut == [] && s.ckBlock < BlockCount(|c.y|, c.p.L)
    case WriteFrame(n) => 0 < n <= |s.ckOut|
    case ReadFrame(n) =>
      |s.table| < BlockCount(|c.y|, c.p.L) && 0 < n <= |s.ckWire| && |s.ckIn| + n <= FrameGoal(|s.ckIn|)
    case InsertEntry => |s.ckIn| == FRAME
    case RollOnce(hit) =>
      && s.pending == [] && s.roll.pos < |c.x|
      && (CopiesRest(c.p, c.x, s.roll.pos) || Legit(c.strong, s.table, Window(c.p.L, c.x, s.roll.pos), hit))
    case Enqueue => s.pending != [] && s.phase != Holding
    case Begin => s.phase == Starting
    case Dequeue => s.phase == Holding && s.txOut == [] && s.queue != []
    case WriteDelta(n) => s.phase == Holding && 0 < n <= |s.txOut|
    case Wait => s.phase == Holding && s.txOut == [] && s.queue == [] && s.toTx > 0
    case SpuriousWake => s.phase == Asleep
    case Resume => s.phase == Woken
    case Finish => s.phase == Holding && s.txOut == [] && s.queue == [] && s.toTx == 0
    case ReadDelta(n) => s.toRx > 0 && !s.failed && 0 < n <= |s.wire| && |s.rxIn| + n <= Needed(s.rxIn)
    case ProcessDelta => s.toRx > 0 && !s.failed && s.rxIn != [] && |s.rxIn| == Needed(s.rxIn)
  }

  /** The file receiver with a complete element: parse, rebuild, count down. */
  function Receive(c: Config, s: System): System
    requires s.rxIn != [] && |s.rxIn| >= Needed(s.rxIn)
  {
    match Parse(c.p.L, s.toRx, |c.y|, s.rxIn)
    case None => s.(failed := true)
    case Some(d) =>
      var (err, rx) := Process(c.p.L, c.y, s.rx, d);
      if err != OK then s.(failed := true, rx := rx)
      else s.(rx := rx, toRx := LeftAfter(s.toRx, d), rxIn := [], rcv := s.rcv + 1)
  }

  ghost function Next(c: Config, s: System, step: Step): System
    requires Wellformed(c) && Enabled(c, s, step)
  {
    match step
    case SendFrame =>
      s.(ckOut := Frame(EntryOf(c.strong, c.y, c.p.L, s.ckBlock)), ckBlock := s.ckBlock + 1)
    case WriteFrame(n) => s.(ckWire := s.ckWire + s.ckOut[..n], ckOut := s.ckOut[n..])
    case ReadFrame(n) => s.(ckIn := s.ckIn + s.ckWire[..n], ckWire := s.ckWire[n..])
    case InsertEntry => s.(table := s.table + [ParseFrame(s.ckIn, |s.table|)], ckIn := [])
    case RollOnce(hit) =>
      var (r, es) := Advance(c.p, c.x, s.roll, hit);
      s.(roll := r, pending := es, log := s.log + es)
    case Enqueue =>
      var d := s.pending[0];
      s.(pending := s.pending[1..], queue := s.queue + [d], txStats := Count(c.p.L, s.txStats, d),
         phase := if s.phase == Asleep then Woken else s.phase, enq := s.enq + 1)
    case Begin => s.(phase := if s.toTx == 0 then Finished else Holding)
    case Dequeue =>
      var d := s.queue[0];
      s.(queue := s.queue[1..], txOut := Encode(d), toTx := Wrap64(s.toTx - Size(d)), deq := s.deq + 1)
    case WriteDelta(n) => s.(wire := s.wire + s.txOut[..n], txOut := s.txOut[n..])
    case Wait => s.(phase := Asleep)
    case SpuriousWake => s.(phase := Woken)
    case Resume => s.(phase := Holding)
    case Finish => s.(phase := Finished)
    case ReadDelta(n) => s.(rxIn := s.rxIn + s.wire[..n], wire := s.wire[n..])
    case ProcessDelta => Receive(c, s)
  }

  /** s follows from s0 by the given steps. */
  ghost predicate Run(c: Config, s0: System, steps: seq<Step>, s: System)
    requires Wellformed(c)
    decreases |steps|
  {
    if steps == [] then s == s0
    else Enabled(c, s0, steps[0]) && Run(c, Next(c, s0, steps[0]), steps[1..], s)
  }

  lemma RunOne(c: Config, s: System, step: Step, t: System, rest: seq<Step>, u: System)
    requires Wellformed(c) && Enabled(c, s, step) && t == Next(c, s, step) && Run(c, t, rest, u)
    ensures Run(c, s, [step] + rest, u)
  {
    assert ([step] + rest)[1..] == rest;
  }

  lemma RunTail(c: Config, s: System, steps: seq<Step>, u: System)
    requires Wellformed(c) && steps != [] && Run(c, s, steps, u)
    ensures Enabled(c, s, steps[0]) && Run(c, Next(c, s, steps[0]), steps[1..], u)
  {
  }

  lemma {:induction false} RunConcat(c: Config, s0: System, a: seq<Step>, s1: System, b: seq<Step>, s2: System)
    requires Wellformed(c) && Run(c, s0, a, s1) && Run(c, s1, b, s2)
    ensures Run(c, s0, a + b, s2)
    decreases |a|
  {
    if a == [] {
      assert a + b == b;
    } else {
      RunTail(c, s0, a, s1);
      RunConcat(c, Next(c, s0, a[0]), a[1..], s1, b, s2);
      RunOne(c, s0, a[0], Next(c, s0, a[0]), a[1..] + b, s2);
      assert [a[0]] + (a[1..] + b) == a + b;
    }
  }

  ghost predicate Reachable(c: Config, s: System)
    requires Wellformed(c)
  {
    exists steps :: Run(c, Initial(c), steps, s)
  }

  /** Everything is delivered and every thread of the session has run to its end. */
  ghost predicate Complete(c: Config, s: System)
    requires Wellformed(c)
  {
    && |s.table| == BlockCount(|c.y|, c.p.L)
    && s.roll.pos == |c.x| && s.pending == [] && s.phase == Finished
    && s.toRx == 0
  }
}
