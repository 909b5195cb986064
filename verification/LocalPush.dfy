/** A whole local push: build the table of y, roll over x, rebuild the result file. */
module LocalPush {
  import opened Machine
  import opened Checksum
  import opened Blocks
  import opened Roller
  import opened Rebuild
  import opened Receiver
  import opened Table
  import opened RollingProc
  import opened Costs
  import opened Shifts

  /** rm_session_delta_rx_f_local with the reconstruction callback, draining a queue that the
      producer has finished filling: elements in order, until all bytes are accounted for. */
  method DeltaRxLocal(s: PushSession, rb: Rebuilder, y: seq<byte>, total: nat) returns (err: Error, left: int)
    modifies s`queue, rb, rb.file
    ensures (err, rb.State()) == ProcessAll(rb.L, y, old(rb.State()), old(s.queue))
    ensures err == OK ==> s.queue == [] && left == total - Covered(old(s.queue))
  {
    left := total;
    err := OK;
    while s.queue != []
      invariant ProcessAll(rb.L, y, rb.State(), s.queue) == ProcessAll(rb.L, y, old(rb.State()), old(s.queue))
      invariant left - Covered(s.queue) == total - Covered(old(s.queue)) && err == OK
      decreases |s.queue|
    {
      var d := s.queue[0];
      s.queue := s.queue[1..];
      err := rb.ProcessElement(y, d);
      if err != OK {
        return;
      }
      left := left - Size(d);
    }
  }

  /** In a local push nobody inserts into the table while the roller runs. */
  function Never(i: nat): seq<Entry> { [] }

  lemma {:induction false} ArrivedNothing(n: nat)
    ensures Arrived(Never, n) == []
  {
    if n > 0 {
      ArrivedNothing(n - 1);
    }
  }

  lemma NoArrivals(es: seq<Entry>, n: nat)
    ensures forall i | 0 <= i < n :: TablesFor(es, Never, n)[i] == es
  {
    forall i | 0 <= i < n
      ensures TablesFor(es, Never, n)[i] == es
    {
      ArrivedNothing(i + 1);
    }
  }

  lemma Outcome(p: Params, strong: Strong, x: seq<byte>, y: seq<byte>, hits: seq<Option<nat>>, tables: seq<seq<Entry>>)
    requires p.Valid() && x != [] && NoCollision(strong, x, y, p.L) && Answered(p, strong, x, hits, tables)
    requires Produce(p, x, hits).0.pos == |x|
    requires forall i | 0 <= i < |tables| :: tables[i] == Entries(strong, y, p.L)
    ensures var ds := Produce(p, x, hits).1;
            var (err, rx) := ProcessAll(p.L, y, EMPTY, ds);
            && err == OK && rx.st == Tally(p.L, NOTHING, ds) && rx.st.byRef + rx.st.byRaw == |x| && |rx.z| == |x|
            && (rx.z == x <==> CopiesRest(p, x, 0) || |x| > p.L || x <= y || !IsSomeBlock(x, y, p.L))
  {
    assert forall i | 0 <= i < |tables| :: tables[i] <= Entries(strong, y, p.L);
    LocalPushExact(p, strong, x, y, hits, tables);
    LocalPushCondition(p, strong, x, y, hits, tables);
    ProduceShape(p, x, hits);
    TallyAccounts(p.L, |x|, 0, NOTHING, Produce(p, x, hits).1);
  }

  /** What reconstruction makes of the queue: the roller's run over a complete table, or nothing. */
  lemma QueueOutcome(p: Params, strong: Strong, x: seq<byte>, y: seq<byte>, hits: seq<Option<nat>>, ds: seq<Delta>)
    requires p.Valid() && NoCollision(strong, x, y, p.L)
    requires if x == [] then ds == []
             else Ran(p, strong, x, hits, TablesFor(Entries(strong, y, p.L), Never, |hits|), Roll(|x|, []), ds)
    ensures var (err, rx) := ProcessAll(p.L, y, EMPTY, ds);
            && err == OK && rx.st == Tally(p.L, NOTHING, ds) && rx.st.byRef + rx.st.byRaw == |x| && |rx.z| == |x|
            && (rx.z == x <==> CopiesRest(p, x, 0) || |x| > p.L || x <= y || !IsSomeBlock(x, y, p.L))
  {
    if x != [] {
      NoArrivals(Entries(strong, y, p.L), |hits|);
      Outcome(p, strong, x, y, hits, TablesFor(Entries(strong, y, p.L), Never, |hits|));
    }
  }

  /** Every lookup was answered from the complete table. */
  lemma QueueLookups(p: Params, strong: Strong, x: seq<byte>, es: seq<Entry>, hits: seq<Option<nat>>, ds: seq<Delta>, i: nat)
    requires p.Valid() && p.indexed && i < |hits|
    requires Ran(p, strong, x, hits, TablesFor(es, Never, |hits|), Roll(|x|, []), ds)
    ensures var q := ProbeAt(p, x, hits, i);
            q < |x| && (|x| < p.copyAll || |x| - q <= p.copyTail || Legit(strong, es, Window(p.L, x, q), hits[i]))
  {
    NoArrivals(es, |hits|);
    EachProbe(p, strong, x, hits, TablesFor(es, Never, |hits|), i);
  }

  lemma QueueIsFull(p: Params, strong: Strong, x: seq<byte>, y: seq<byte>, hits: seq<Option<nat>>, ds: seq<Delta>)
    returns (tables: seq<seq<Entry>>)
    requires p.Valid() && p.indexed && p.copyAll == p.copyTail == 0 && x != []
    requires Ran(p, strong, x, hits, TablesFor(Entries(strong, y, p.L), Never, |hits|), Roll(|x|, []), ds)
    ensures FullTable(p, strong, x, y, hits, tables) && Produce(p, x, hits) == (Roll(|x|, []), ds)
  {
    NoArrivals(Entries(strong, y, p.L), |hits|);
    tables := TablesFor(Entries(strong, y, p.L), Never, |hits|);
  }

  /** The receiving thread and the checks after both threads have been joined. None of them can
      fire when the queue rebuilds a file of the size of x; a thread's status is not reported. */
  method Reconstruct(s: PushSession, L: nat, y: seq<byte>, total: nat, txErr: Error) returns (err: Error, z: seq<byte>, st: Stats)
    requires var (e, rx) := ProcessAll(L, y, EMPTY, s.queue);
             e == OK && |rx.z| == rx.st.byRef + rx.st.byRaw == total
    modifies s`queue
    ensures err == OK && ProcessAll(L, y, EMPTY, old(s.queue)) == (OK, Rx(z, st))
  {
    var rb := new Rebuilder(L);
    var rxErr, left := DeltaRxLocal(s, rb, y, total);
    if txErr != OK {
      err := DeltaTxThread;
    }
    if rxErr != OK {
      err := DeltaRxThread;
    }
    z, st := rb.file.content, rb.st;
    if |z| != total {
      return FileSize, z, st;
    }
    if |z| != st.byRef + st.byRaw {
      return FileSizeRecMismatch, z, st;
    }
    if s.queue != [] {
      return QueueNotEmpty, z, st;
    }
    err := OK;
  }

  /** The complete table of y, then the transmitting thread. */
  method Transmit(p: Params, x: seq<byte>, y: seq<byte>, strong: Strong, bucketOf: BucketOf, size: nat)
    returns (s: PushSession, txErr: Error, ghost hits: seq<Option<nat>>, ghost ds: seq<Delta>)
    requires |x| < TWO64 && p.Valid() && p.indexed && (forall c: Check :: bucketOf(c) < size)
    ensures fresh(s) && s.queue == ds
    ensures if x == [] then ds == []
            else Ran(p, strong, x, hits, TablesFor(Entries(strong, y, p.L), Never, |hits|), Roll(|x|, []), ds)
  {
    var h := new Hashtable(bucketOf, size);
    var e, blocks := InsertNonoverlapping(0, y, h, strong, p.L, null, BlockCount(|y|, p.L));
    assert [] + Entries(strong, y, p.L)[..blocks] == Entries(strong, y, p.L);
    s := new PushSession(p, false);
    txErr, hits, ds := RollingChProc(s, h, x, strong, Never);
    if x == [] {
      ds := [];
    }
    assert [] + ds == ds;
  }

  /** rm_tx_local_push on existing files, past the file-system plumbing. A failed thread only sets
      err, which the final return does not report: an empty x makes the roller refuse, and the
      push succeeds with an empty result. None of the size checks can fire. The counters are those
      of a run whose lookups saw the complete table of y: without thresholds an unchanged file
      costs no literal byte, and a changed one what its edits cost. */
  method Push(p: Params, x: seq<byte>, y: seq<byte>, strong: Strong, bucketOf: BucketOf, size: nat)
    returns (err: Error, z: seq<byte>, st: Stats, ghost hits: seq<Option<nat>>)
    requires |x| < TWO64 && p.indexed && (forall c: Check :: bucketOf(c) < size)
    requires p.L > 0 ==> NoCollision(strong, x, y, p.L)
    ensures err == if p.L == 0 || p.send == 0 then BadCall else OK
    ensures err == OK ==> |z| == |x| && st.byRef + st.byRaw == |x|
    ensures err == OK ==>
      (z == x <==> |x| < p.copyAll || |x| <= p.copyTail || |x| > p.L || x <= y || !IsSomeBlock(x, y, p.L))
    ensures err == OK && x != [] ==>
      && Produce(p, x, hits).0.pos == |x| && st == Tally(p.L, NOTHING, Produce(p, x, hits).1)
      && forall i | 0 <= i < |hits| ::
           var q := ProbeAt(p, x, hits, i);
           q < |x| && (|x| < p.copyAll || |x| - q <= p.copyTail
                       || Legit(strong, Entries(strong, y, p.L), Window(p.L, x, q), hits[i]))
    ensures err == OK && x != [] && p.copyAll == p.copyTail == 0 ==>
      && (|x| == |y| ==> st.byRaw <= Changed(x, y, p.L, BlockCount(|x|, p.L)) * p.L)
      && (forall e: Edit | e.X() == x && e.Y() == y :: st.byRaw <= |e.ins| + 2 * (p.L - 1))
      && (x == y ==> st.byRaw == st.rawN == 0 && st.refN == BlockCount(|x|, p.L))
  {
    z, st, hits := [], NOTHING, [];
    if p.L == 0 || p.send == 0 {
      return BadCall, z, st, hits;
    }
    var s, txErr;
    ghost var ds;
    s, txErr, hits, ds := Transmit(p, x, y, strong, bucketOf, size);
    QueueOutcome(p, strong, x, y, hits, ds);
    forall i | 0 <= i < |hits| && x != []
      ensures var q := ProbeAt(p, x, hits, i);
              q < |x| && (|x| < p.copyAll || |x| - q <= p.copyTail
                          || Legit(strong, Entries(strong, y, p.L), Window(p.L, x, q), hits[i]))
    {
      QueueLookups(p, strong, x, Entries(strong, y, p.L), hits, ds, i);
    }
    if x != [] && p.copyAll == p.copyTail == 0 {
      ghost var tables := QueueIsFull(p, strong, x, y, hits, ds);
      PushCosts(p, strong, x, y, hits, tables);
    }
    err, z, st := Reconstruct(s, p.L, y, |x|, txErr);
  }
}
