/** A remote push from the imperative code of both hosts: checksums over one socket, table and
    roller under any schedule of insertions, deltas over another, reconstruction. */
module RemotePush {
  import opened Machine
  import opened Checksum
  import opened Blocks
  import opened Roller
  import opened Rebuild
  import opened Receiver
  import opened Files
  import opened Table
  import opened Channel
  import opened RollingProc
  import opened Wire
  import opened Tcp
  import opened Streams
  import opened RemoteSafety
  import opened Costs
  import opened Shifts

  /** rm_session_delta_rx_f_local as the transmitter of a remote push, draining a queue that the
      producer has finished filling: elements in order, until all bytes are accounted for. */
  method DeltaTx(s: PushSession, sock: Socket, total: nat, st: Stats) returns (err: Error, left: int, st': Stats)
    modifies s`queue, sock`outgoing, sock`script
    ensures old(sock.Sound()) ==> err == OK && sock.Sound()
    ensures err == OK ==> st' == TallyTx(st, old(s.queue))
    ensures err == OK ==> s.queue == [] && left == total - Covered(old(s.queue))
    ensures err == OK ==> sock.outgoing == old(sock.outgoing) + EncodeAll(old(s.queue))
  {
    left, st' := total, st;
    err := OK;
    while s.queue != []
      invariant TallyTx(st', s.queue) == TallyTx(st, old(s.queue))
      invariant sock.outgoing + EncodeAll(s.queue) == old(sock.outgoing) + EncodeAll(old(s.queue))
      invariant left - Covered(s.queue) == total - Covered(old(s.queue)) && err == OK
      invariant old(sock.Sound()) ==> sock.Sound()
      decreases |s.queue|
    {
      var d := s.queue[0];
      Associate(sock.outgoing, Encode(d), EncodeAll(s.queue[1..]));
      s.queue := s.queue[1..];
      err, st' := TxDeltaElement(sock, d, st');
      if err != OK {
        return;
      }
      left := left - Size(d);
    }
    assert sock.outgoing + [] == sock.outgoing;
  }

  // ----- the schedule of insertions -----------------------------------------------------

  /** The entries inserted just before lookup i when `due(i)` are in the table by lookup i. */
  function Batch(es: seq<Entry>, due: nat -> nat, i: nat): seq<Entry> {
    var lo, hi := Min(due(i), |es|), Min(due(i + 1), |es|);
    if lo <= hi then es[lo..hi] else []
  }

  ghost predicate Schedule(due: nat -> nat) { due(0) == 0 && forall i: nat :: due(i) <= due(i + 1) }

  function Arrivals(es: seq<Entry>, due: nat -> nat): nat -> seq<Entry> { (i: nat) => Batch(es, due, i) }

  lemma {:induction false} ArrivedPrefix(es: seq<Entry>, due: nat -> nat, n: nat)
    requires Schedule(due)
    ensures Arrived(Arrivals(es, due), n) == es[..Min(due(n), |es|)]
  {
    if n > 0 {
      ArrivedPrefix(es, due, n - 1);
      assert due(n - 1) <= due(n - 1 + 1);
    }
  }

  /** The table lookup i sees. */
  lemma TableDue(es: seq<Entry>, due: nat -> nat, i: nat)
    requires Schedule(due)
    ensures TableAt([], Arrivals(es, due), i) == es[..Min(due(i + 1), |es|)]
  {
    ArrivedPrefix(es, due, i + 1);
  }

  lemma PrefixTables(es: seq<Entry>, due: nat -> nat, n: nat)
    requires Schedule(due)
    ensures forall i | 0 <= i < n :: TablesFor([], Arrivals(es, due), n)[i] <= es
  {
    forall i | 0 <= i < n
      ensures TablesFor([], Arrivals(es, due), n)[i] <= es
    {
      TableDue(es, due, i);
    }
  }

  lemma {:induction false} DueGrows(due: nat -> nat, i: nat)
    requires Schedule(due)
    ensures due(1) <= due(i + 1)
  {
    if i > 0 {
      DueGrows(due, i - 1);
    }
  }

  /** Everything arrives before the first lookup. */
  lemma CompleteTables(es: seq<Entry>, due: nat -> nat, n: nat)
    requires Schedule(due) && due(1) >= |es|
    ensures forall i | 0 <= i < n :: TablesFor([], Arrivals(es, due), n)[i] == es
  {
    forall i | 0 <= i < n
      ensures TablesFor([], Arrivals(es, due), n)[i] == es
    {
      TableDue(es, due, i);
      DueGrows(due, i);
    }
  }

  // ----- what the far end makes of the bytes --------------------------------------------

  lemma {:induction false} ArrivesPlain(ds: seq<Delta>)
    requires !HasZeroDiff(ds)
    ensures ArrivesAll(ds) == ds
  {
    if ds != [] {
      HasZeroDiffFirst(ds);
      ArrivesPlain(ds[1..]);
    }
  }

  /** The receiver on a stream that has fully arrived; None when it does not end well. */
  function FarEnd(L: nat, total: nat, y: seq<byte>, stream: seq<byte>): Option<Rx> {
    match DecodeAll(L, total, |y|, stream)
    case None => None
    case Some((ds, _)) =>
      var (err, rx) := ProcessAll(L, y, EMPTY, ds);
      if err == OK then Some(rx) else None
  }

  lemma NothingBehind(s: seq<byte>)
    ensures s + [] == s
  {
  }

  lemma PlainDecodes(L: nat, total: nat, ySize: nat, ds: seq<Delta>)
    requires L > 0 && 0 < total < TWO64 && !HasZeroDiff(ds)
    requires Chain(L, total, 0, ds) && Covered(ds) == total && AllEncodable(ds)
    ensures DecodeAll(L, total, ySize, EncodeAll(ds)) == Some((ds, []))
  {
    StreamRoundTrip(L, total, 0, ySize, ds, []);
    NothingBehind(EncodeAll(ds));
    ArrivesPlain(ds);
  }

  /** Processing the list itself leaves x and the tally of the list. */
  lemma PlainCounts(L: nat, x: seq<byte>, y: seq<byte>, ds: seq<Delta>)
    requires ProcessAll(L, y, EMPTY, ds) == (OK, Rx(x, Tally(L, NOTHING, ds)))
    requires DecodeAll(L, |x|, |y|, EncodeAll(ds)) == Some((ds, []))
    ensures FarEnd(L, |x|, y, EncodeAll(ds)) == Some(Rx(x, Tally(L, NOTHING, ds)))
  {
  }

  /** A complete, correctly spelled list of elements without ZERO_DIFF gives x. */
  lemma PlainOnWire(L: nat, x: seq<byte>, y: seq<byte>, ds: seq<Delta>)
    requires L > 0 && 0 < |x| < TWO64 && |y| < TWO64 && !HasZeroDiff(ds)
    requires Chain(L, |x|, 0, ds) && SpellsRange(y, L, ds, x, 0, |x|) && Covered(ds) == |x|
    ensures FarEnd(L, |x|, y, EncodeAll(ds)) == Some(Rx(x, Tally(L, NOTHING, ds)))
  {
    SpelledEncodable(y, L, ds, x[0..|x|]);
    PlainDecodes(L, |x|, |y|, ds);
    RebuildOutcome(L, x, y, ds);
    PlainCounts(L, x, y, ds);
  }

  lemma WholeCopy(L: nat, y: seq<byte>)
    ensures var got := ZeroDiff(0, |y|); ProcessAll(L, y, EMPTY, [got]) == (OK, Rx(y, Count(L, NOTHING, got)))
  {
    var got := ZeroDiff(0, |y|);
    assert y[0..|y|] == y;
    assert CopyRange(y, 0, |y|, [], 0) == y;
    assert [got][1..] == [];
  }

  /** A ZERO_DIFF gives y, whatever block was matched. */
  lemma ZeroDiffOnWire(L: nat, x: seq<byte>, y: seq<byte>, d: Delta)
    requires L > 0 && 0 < |x| < TWO64 && d.ZeroDiff? && Fits(L, |x|, 0, d)
    ensures FarEnd(L, |x|, y, EncodeAll([d])) == Some(Rx(y, Count(L, NOTHING, ZeroDiff(0, |y|))))
  {
    var e, got := Encode(d), ZeroDiff(0, |y|);
    assert e == [ZERO_DIFF] && Needed(e) == 1 && Parse(L, |x|, |y|, e) == Some(got);
    assert EncodeAll([d]) == e by { EncodeCons(d, []); assert [d] + [] == [d]; }
    assert DecodeAll(L, LeftAfter(|x|, got), |y|, []) == Some(([], []));
    assert [] + [] == e[1..] && e + [] + [] == e;
    DecodeStep(L, |x|, |y|, e, got, [], [], []);
    assert [got] + [] == [got];
    assert DecodeAll(L, |x|, |y|, e) == Some(([got], []));
    WholeCopy(L, y);
  }

  lemma MustHit(p: Params, x: seq<byte>, hits: seq<Option<nat>>)
    requires p.Valid() && x != [] && Produce(p, x, hits).0.pos == |x|
    ensures hits != []
  {
  }

  /** A ZERO_DIFF is only sent when x is one of y's blocks and nothing made the roller copy. */
  lemma ZeroDiffOnlyWhen(p: Params, strong: Strong, x: seq<byte>, y: seq<byte>, hits: seq<Option<nat>>, tables: seq<seq<Entry>>)
    requires FinishedPush(p, strong, x, y, hits, tables) && HasZeroDiff(Produce(p, x, hits).1)
    ensures |x| >= p.copyAll && p.indexed && |x| > p.copyTail && |x| <= p.L && IsSomeBlock(x, y, p.L)
  {
    MustHit(p, x, hits);
    ZeroDiffWhen(p, x, hits);
    FirstAnswer(p, strong, x, hits, tables);
    HitIsBlock(strong, x, y, p.L, 0, tables[0], hits[0].value);
    WholeWindow(p.L, x);
  }

  /** What a finished run has emitted: everything denotes x, and a ZERO_DIFF is all there is. */
  lemma RunFacts(p: Params, strong: Strong, x: seq<byte>, y: seq<byte>, hits: seq<Option<nat>>, tables: seq<seq<Entry>>)
    requires FinishedPush(p, strong, x, y, hits, tables)
    ensures var ds := Produce(p, x, hits).1;
            && Chain(p.L, |x|, 0, ds) && SpellsRange(y, p.L, ds, x, 0, |x|) && Covered(ds) == |x|
            && (HasZeroDiff(ds) ==> ds == [ds[0]] && ds[0].ZeroDiff? && ds[0].n == |x|)
  {
    ProduceShape(p, x, hits);
    ProduceSpells(p, strong, x, y, hits, tables);
    MustHit(p, x, hits);
    ZeroDiffWhen(p, x, hits);
  }

  /** What the bytes of such a run mean for the far end and for the counters of both. */
  lemma Outcome(L: nat, x: seq<byte>, y: seq<byte>, ds: seq<Delta>) returns (rx: Rx)
    requires L > 0 && 0 < |x| < TWO64 && |y| < TWO64
    requires Chain(L, |x|, 0, ds) && SpellsRange(y, L, ds, x, 0, |x|) && Covered(ds) == |x|
    requires HasZeroDiff(ds) ==> ds == [ds[0]] && ds[0].ZeroDiff? && ds[0].n == |x|
    ensures FarEnd(L, |x|, y, EncodeAll(ds)) == Some(rx) && rx.z == if HasZeroDiff(ds) then y else x
    ensures Tally(L, NOTHING, ds).byRef + Tally(L, NOTHING, ds).byRaw == |x|
    ensures rx.st == Tally(L, NOTHING, ds) <==> !HasZeroDiff(ds) || |x| == |y|
  {
    TallyAccounts(L, |x|, 0, NOTHING, ds);
    if HasZeroDiff(ds) {
      ZeroDiffOnWire(L, x, y, ds[0]);
      rx := Rx(y, Count(L, NOTHING, ZeroDiff(0, |y|)));
      ZeroDiffTally(L, ds);
    } else {
      PlainOnWire(L, x, y, ds);
      rx := Rx(x, Tally(L, NOTHING, ds));
    }
  }

  /** rm_session_ch_ch_tx_f, the checksum connection and rm_session_ch_ch_rx_f. */
  method SendChecksums(y: seq<byte>, strong: Strong, L: nat, write: seq<Event>, read: seq<Event>) returns (table: seq<Entry>)
    requires L > 0 && Sized(strong) && Broken !in write && Broken !in read
    ensures table == Entries(strong, y, L)
  {
    var out := new Socket([], write);
    var err, blocks := InsertNonoverlapping(0, y, null, strong, L, out, BlockCount(|y|, L));
    ghost var es := Entries(strong, y, L);
    assert es[..blocks] == es;
    ChannelRoundTrip(es, 0, []);
    assert [] + Frames(es) == Frames(es) && Frames(es) + [] == Frames(es);
    var sock := new Socket(out.outgoing, read);
    err, table := ChChRx(sock, blocks);
  }

  method ReceiveDeltas(L: nat, bytes: seq<byte>, y: seq<byte>, total: nat, script: seq<Event>) returns (z: seq<byte>, rx: Stats)
    requires Broken !in script && FarEnd(L, total, y, bytes).Some?
    ensures FarEnd(L, total, y, bytes) == Some(Rx(z, rx))
  {
    var sock := new Socket(bytes, script);
    var rb := new Rebuilder(L);
    var err := DeltaRxRemote(sock, rb, y, total);
    z, rx := rb.file.content, rb.st;
  }

  /** The delta connection between rm_session_delta_rx_f_local and rm_session_delta_rx_f_remote. */
  method SendDeltas(s: PushSession, x: seq<byte>, y: seq<byte>, write: seq<Event>, read: seq<Event>)
    returns (z: seq<byte>, rx: Stats, sent: Stats)
    requires Broken !in write && Broken !in read
    requires FarEnd(s.p.L, |x|, y, EncodeAll(s.queue)).Some?
    modifies s`queue
    ensures FarEnd(s.p.L, |x|, y, EncodeAll(old(s.queue))) == Some(Rx(z, rx))
    ensures sent == TallyTx(NOTHING, old(s.queue))
  {
    var out := new Socket([], write);
    ghost var bytes := EncodeAll(s.queue);
    var err, left;
    err, left, sent := DeltaTx(s, out, |x|, NOTHING);
    assert out.outgoing == bytes;
    z, rx := ReceiveDeltas(s.p.L, out.outgoing, y, |x|, read);
  }

  /** A finished run of the roller against a table that grows as scheduled. */
  ghost predicate Rolled(p: Params, strong: Strong, x: seq<byte>, es: seq<Entry>, due: nat -> nat,
                         hits: seq<Option<nat>>, ds: seq<Delta>) {
    Ran(p, strong, x, hits, TablesFor([], Arrivals(es, due), |hits|), Roll(|x|, []), ds)
  }

  /** Lookup i was answered from the entries due by then. */
  lemma RolledLookup(p: Params, strong: Strong, x: seq<byte>, es: seq<Entry>, due: nat -> nat,
                     hits: seq<Option<nat>>, ds: seq<Delta>, i: nat)
    requires Rolled(p, strong, x, es, due, hits, ds) && p.indexed && Schedule(due) && i < |hits|
    ensures var q := ProbeAt(p, x, hits, i);
            q < |x| && (|x| < p.copyAll || |x| - q <= p.copyTail
                        || Legit(strong, es[..Min(due(i + 1), |es|)], Window(p.L, x, q), hits[i]))
  {
    EachProbe(p, strong, x, hits, TablesFor([], Arrivals(es, due), |hits|), i);
    TableDue(es, due, i);
  }

  lemma RolledFull(p: Params, strong: Strong, x: seq<byte>, y: seq<byte>, due: nat -> nat,
                   hits: seq<Option<nat>>, ds: seq<Delta>) returns (tables: seq<seq<Entry>>)
    requires p.Valid() && p.indexed && p.copyAll == p.copyTail == 0 && x != []
    requires Rolled(p, strong, x, Entries(strong, y, p.L), due, hits, ds)
    requires Schedule(due) && due(1) >= BlockCount(|y|, p.L)
    ensures FullTable(p, strong, x, y, hits, tables) && Produce(p, x, hits) == (Roll(|x|, []), ds)
  {
    CompleteTables(Entries(strong, y, p.L), due, |hits|);
    tables := TablesFor([], Arrivals(Entries(strong, y, p.L), due), |hits|);
  }

  /** What a run means for the far end, and when that is x. */
  lemma RolledOutcome(p: Params, strong: Strong, x: seq<byte>, y: seq<byte>, due: nat -> nat,
                      hits: seq<Option<nat>>, ds: seq<Delta>) returns (rx: Rx)
    requires p.Valid() && p.indexed && 0 < |x| < TWO64 && |y| < TWO64 && NoCollision(strong, x, y, p.L)
    requires Rolled(p, strong, x, Entries(strong, y, p.L), due, hits, ds) && Schedule(due)
    ensures FarEnd(p.L, |x|, y, EncodeAll(ds)) == Some(rx) && rx.z == if HasZeroDiff(ds) then y else x
    ensures HasZeroDiff(ds) ==>
      |x| >= p.copyAll && |x| > p.copyTail && |x| <= p.L && IsSomeBlock(x, y, p.L)
    ensures Tally(p.L, NOTHING, ds).byRef + Tally(p.L, NOTHING, ds).byRaw == |x|
    ensures TallyTx(NOTHING, ds) == Tally(p.L, NOTHING, ds)
    ensures rx.st == Tally(p.L, NOTHING, ds) <==> !HasZeroDiff(ds) || |x| == |y|
  {
    var es := Entries(strong, y, p.L);
    var tables := TablesFor([], Arrivals(es, due), |hits|);
    PrefixTables(es, due, |hits|);
    RunFacts(p, strong, x, y, hits, tables);
    rx := Outcome(p.L, x, y, ds);
    if HasZeroDiff(ds) {
      ZeroDiffOnlyWhen(p, strong, x, y, hits, tables);
    }
    TallyTxAgrees(p.L, |x|, 0, NOTHING, ds);
  }

  /** The roller on the transmitting host, over a table filled from the checksums received. */
  method RollDeltas(p: Params, x: seq<byte>, strong: Strong, table: seq<Entry>, bucketOf: BucketOf, size: nat, due: nat -> nat)
    returns (s: PushSession, ghost hits: seq<Option<nat>>, ghost ds: seq<Delta>)
    requires p.Valid() && p.indexed && 0 < |x| < TWO64 && (forall c: Check :: bucketOf(c) < size)
    ensures fresh(s) && s.p == p && s.queue == ds && s.stats == Tally(p.L, NOTHING, ds)
    ensures Rolled(p, strong, x, table, due, hits, ds)
  {
    var h := new Hashtable(bucketOf, size);
    s := new PushSession(p, true);
    var err;
    err, hits, ds := RollingChProc(s, h, x, strong, Arrivals(table, due));
    assert [] + ds == ds;
  }

  /** Both hosts past the file-system plumbing, any schedule of insertions into the table, and
      sockets that cut transfers and interrupt calls at will but do not break. The result is x or,
      after a ZERO_DIFF, y; it is x whenever a copy threshold fires at once, x is longer than a
      block, y is x, or x is no block of y; and the two ends' counters agree unless a ZERO_DIFF
      stands for a y of another size. Every lookup is answered from the checksums received by then;
      when all are there before the first one, and there are no thresholds, an unchanged file costs
      no literal byte and a changed one what its edits cost. */
  method Push(p: Params, x: seq<byte>, y: seq<byte>, strong: Strong, bucketOf: BucketOf, size: nat, due: nat -> nat,
              ckWrite: seq<Event>, ckRead: seq<Event>, deltaWrite: seq<Event>, deltaRead: seq<Event>)
    returns (err: Error, z: seq<byte>, tx: Stats, sent: Stats, rx: Stats, ghost hits: seq<Option<nat>>, ghost ds: seq<Delta>)
    requires p.indexed && |x| < TWO64 && |y| < TWO64 && Sized(strong)
    requires p.L > 0 ==> NoCollision(strong, x, y, p.L)
    requires (forall c: Check :: bucketOf(c) < size) && Schedule(due)
    requires Broken !in ckWrite && Broken !in ckRead && Broken !in deltaWrite && Broken !in deltaRead
    ensures err == if p.L == 0 || p.send == 0 then BadCall else if x == [] then XZeroSize else OK
    ensures err == OK ==>
      && z == (if HasZeroDiff(ds) then y else x)
      && (|x| < p.copyAll || |x| <= p.copyTail || |x| > p.L || y == x || !IsSomeBlock(x, y, p.L) ==> z == x)
      && tx == sent == Tally(p.L, NOTHING, ds) && tx.byRef + tx.byRaw == |x|
      && (rx == tx <==> !HasZeroDiff(ds) || |x| == |y|)
    ensures err == OK ==>
      && Produce(p, x, hits).0.pos == |x| && ds == Produce(p, x, hits).1
      && forall i | 0 <= i < |hits| ::
           var q := ProbeAt(p, x, hits, i);
           q < |x| && (|x| < p.copyAll || |x| - q <= p.copyTail
                       || Legit(strong, Entries(strong, y, p.L)[..Min(due(i + 1), BlockCount(|y|, p.L))],
                                Window(p.L, x, q), hits[i]))
    ensures err == OK && p.copyAll == p.copyTail == 0 && due(1) >= BlockCount(|y|, p.L) ==>
      && (|x| == |y| ==> tx.byRaw <= Changed(x, y, p.L, BlockCount(|x|, p.L)) * p.L)
      && (forall e: Edit | e.X() == x && e.Y() == y :: tx.byRaw <= |e.ins| + 2 * (p.L - 1))
      && (x == y ==> tx.byRaw == tx.rawN == 0 && tx.refN == BlockCount(|x|, p.L))
  {
    z, tx, sent, rx, hits, ds := [], NOTHING, NOTHING, NOTHING, [], [];
    if p.L == 0 || p.send == 0 {
      return BadCall, z, tx, sent, rx, hits, ds;
    }
    if |x| == 0 {
      return XZeroSize, z, tx, sent, rx, hits, ds;
    }
    var table := SendChecksums(y, strong, p.L, ckWrite, ckRead);
    var s;
    s, hits, ds := RollDeltas(p, x, strong, table, bucketOf, size, due);
    ghost var end := RolledOutcome(p, strong, x, y, due, hits, ds);
    forall i | 0 <= i < |hits|
      ensures var q := ProbeAt(p, x, hits, i);
              q < |x| && (|x| < p.copyAll || |x| - q <= p.copyTail
                          || Legit(strong, table[..Min(due(i + 1), |table|)], Window(p.L, x, q), hits[i]))
    {
      RolledLookup(p, strong, x, table, due, hits, ds, i);
    }
    if p.copyAll == p.copyTail == 0 && due(1) >= BlockCount(|y|, p.L) {
      ghost var tables := RolledFull(p, strong, x, y, due, hits, ds);
      PushCosts(p, strong, x, y, hits, tables);
    }
    tx := s.stats;
    z, rx, sent := SendDeltas(s, x, y, deltaWrite, deltaRead);
    err := OK;
  }
}
