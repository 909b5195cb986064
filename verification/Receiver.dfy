/** The receiver of delta elements: rm_rx_process_delta_element, its counters, and exactly when
    the result file equals x in a local push. */
module Receiver {
  import opened Machine
  import opened Checksum
  import opened Blocks
  import opened Roller
  import opened Files
  import opened Rebuild

  /** The counters of struct rm_delta_reconstruct_ctx. */
  datatype Stats = Stats(byRef: nat, byRaw: nat, refN: nat, rawN: nat, byTail: nat, byZero: nat, tailN: nat, zeroN: nat)

  const NOTHING := Stats(0, 0, 0, 0, 0, 0, 0, 0)

  /** The update both rm_roll_proc_cb_1 and rm_rx_process_delta_element make. */
  function Count(L: nat, st: Stats, d: Delta): Stats {
    match d
    case Reference(_, n) => st.(byRef := st.byRef + L, refN := st.refN + 1)
    case Raw(bytes) => st.(byRaw := st.byRaw + |bytes|, rawN := st.rawN + 1)
    case ZeroDiff(_, n) =>
      st.(byRef := st.byRef + n, refN := st.refN + 1, byZero := st.byZero + n, zeroN := st.zeroN + 1)
    case Tail(_, n) => st.(byRef := st.byRef + n, refN := st.refN + 1, byTail := st.byTail + n, tailN := 1)
  }

  function Tally(L: nat, st: Stats, ds: seq<Delta>): Stats
    decreases |ds|
  {
    if ds == [] then st else Tally(L, Count(L, st, ds[0]), ds[1..])
  }

  lemma {:induction false} TallyConcat(L: nat, st: Stats, a: seq<Delta>, b: seq<Delta>)
    ensures Tally(L, st, a + b) == Tally(L, Tally(L, st, a), b)
    decreases |a|
  {
    if a == [] {
      assert a + b == b;
    } else {
      TallyConcat(L, Count(L, st, a[0]), a[1..], b);
      assert (a + b)[1..] == a[1..] + b;
    }
  }

  /** The counters of a chained delta list: every byte and every element is counted once, and
      tailN, which the code assigns rather than increments, is the number of TAIL elements. */
  lemma {:induction false} TallyAccounts(L: nat, total: nat, done: nat, st: Stats, ds: seq<Delta>)
    requires L > 0 && done <= total && Chain(L, total, done, ds)
    ensures var t := Tally(L, st, ds);
            && t.byRef + t.byRaw == st.byRef + st.byRaw + Covered(ds)
            && t.refN + t.rawN == st.refN + st.rawN + |ds|
            && (st.tailN == 0 ==> t.tailN == (if ds != [] && ds[|ds| - 1].Tail? then 1 else 0))
            && (t.tailN <= 1 || t.tailN == st.tailN)
    decreases |ds|
  {
    if ds != [] {
      TallyAccounts(L, total, done + Size(ds[0]), Count(L, st, ds[0]), ds[1..]);
      if ds[0].Tail? {
        ChainShape(L, total, done, ds, 0);
        assert ds[1..] == [];
      } else if |ds| > 1 {
        assert ds[1..][|ds| - 2] == ds[|ds| - 1];
      }
    }
  }

  /** The remaining counters: what the one possible TAIL, at the end, and the one possible
      ZERO_DIFF, alone, stand for. */
  lemma {:induction false} TallyEnds(L: nat, total: nat, done: nat, st: Stats, ds: seq<Delta>)
    requires L > 0 && done <= total && Chain(L, total, done, ds)
    ensures var t := Tally(L, st, ds);
            && t.byTail == st.byTail + (if ds != [] && ds[|ds| - 1].Tail? then ds[|ds| - 1].n else 0)
            && t.byZero == st.byZero + (if ds != [] && ds[0].ZeroDiff? then ds[0].n else 0)
            && t.zeroN == st.zeroN + (if ds != [] && ds[0].ZeroDiff? then 1 else 0)
    decreases |ds|
  {
    if ds != [] {
      TallyEnds(L, total, done + Size(ds[0]), Count(L, st, ds[0]), ds[1..]);
      ChainShape(L, total, done, ds, 0);
      if |ds| > 1 {
        assert ds[1..][|ds| - 2] == ds[|ds| - 1];
        ChainShape(L, total, done, ds, 1);
      } else {
        assert ds[1..] == [];
      }
    }
  }

  // ----- processing one element ---------------------------------------------------------

  /** The result file and the counters. */
  datatype Rx = Rx(z: seq<byte>, st: Stats)

  const EMPTY := Rx([], NOTHING)

  function Process(L: nat, y: seq<byte>, rx: Rx, d: Delta): (Error, Rx) {
    var to := rx.st.byRef + rx.st.byRaw;
    match d
    case Raw(bytes) =>
      if bytes == [] then (Write, rx) else (OK, Rx(WriteAt(rx.z, to, bytes), Count(L, rx.st, d)))
    case ZeroDiff(_, n) =>
      var z := CopyRange(y, 0, n, rx.z, 0);
      if n <= |y| then (OK, Rx(z, Count(L, rx.st, d))) else (CopyBuffered, rx.(z := z))
    case _ =>
      var z := CopyRange(y, Offset(d.ref, L), d.n, rx.z, to);
      if d.n <= Available(y, Offset(d.ref, L)) then (OK, Rx(z, Count(L, rx.st, d))) else (CopyOffset, rx.(z := z))
  }

  /** Exactly when an element cannot be processed: an empty literal, or bytes that y does not have
      at the place it names. Nothing is then counted. */
  lemma FailsExactlyWhen(L: nat, y: seq<byte>, rx: Rx, d: Delta)
    ensures var (err, rx') := Process(L, y, rx, d);
            && (err != OK ==> rx'.st == rx.st)
            && err == match d
                      case Raw(bytes) => if |bytes| == 0 then Error.Write else OK
                      case ZeroDiff(_, n) => if n > |y| then Error.CopyBuffered else OK
                      case Reference(ref, n) => if n > 0 && ref * L + n > |y| then Error.CopyOffset else OK
                      case Tail(ref, n) => if n > 0 && ref * L + n > |y| then Error.CopyOffset else OK
  {
    if !d.Raw? {
      OffsetIsProduct(d.ref, L);
    }
  }

  /** Element after element, until one fails. */
  function ProcessAll(L: nat, y: seq<byte>, rx: Rx, ds: seq<Delta>): (Error, Rx)
    decreases |ds|
  {
    if ds == [] then (OK, rx) else
    var (err, rx') := Process(L, y, rx, ds[0]);
    if err != OK then (err, rx') else ProcessAll(L, y, rx', ds[1..])
  }

  /** The receiving half of a session: the result file and the reconstruction context. */
  class Rebuilder {
    const L: nat
    const file: File
    var st: Stats

    ghost function State(): Rx
      reads this, file
    {
      Rx(file.content, st)
    }

    constructor (L: nat)
      ensures fresh(file) && State() == EMPTY && this.L == L
    {
      this.L := L;
      file := new File();
      st := NOTHING;
    }

    /** rm_rx_process_delta_element */
    method ProcessElement(y: seq<byte>, d: Delta) returns (err: Error)
      modifies this, file
      ensures (err, State()) == Process(L, y, old(State()), d)
    {
      var to := st.byRef + st.byRaw;
      match d {
        case Raw(bytes) =>
          if bytes == [] {
            return Error.Write;
          }
          file.Write(bytes, to);
          st := st.(byRaw := st.byRaw + |bytes|, rawN := st.rawN + 1);
        case ZeroDiff(_, n) =>
          err := Files.CopyBuffered(y, file, n);
          if err != OK {
            return Error.CopyBuffered;
          }
          st := st.(byRef := st.byRef + n, refN := st.refN + 1, byZero := st.byZero + n, zeroN := st.zeroN + 1);
        case Reference(ref, n) =>
          OffsetIsProduct(ref, L);
          err := CopyBufferedOffset(y, file, n, ref * L, to);
          if err != OK {
            return Error.CopyOffset;
          }
          st := st.(byRef := st.byRef + L, refN := st.refN + 1);
        case Tail(ref, n) =>
          OffsetIsProduct(ref, L);
          err := CopyBufferedOffset(y, file, n, ref * L, to);
          if err != OK {
            return Error.CopyOffset;
          }
          st := st.(byRef := st.byRef + n, refN := st.refN + 1, byTail := st.byTail + n, tailN := 1);
      }
      err := OK;
    }
  }

  // ----- rebuilding what the producer spelled -------------------------------------------

  predicate HasZeroDiff(ds: seq<Delta>) { exists i :: 0 <= i < |ds| && ds[i].ZeroDiff? }

  lemma HasZeroDiffConcat(a: seq<Delta>, b: seq<Delta>)
    ensures HasZeroDiff(a + b) <==> HasZeroDiff(a) || HasZeroDiff(b)
  {
    if i :| 0 <= i < |a| && a[i].ZeroDiff? { assert (a + b)[i].ZeroDiff?; }
    if i :| 0 <= i < |b| && b[i].ZeroDiff? { assert (a + b)[|a| + i].ZeroDiff?; }
  }

  lemma NoneInTail(ds: seq<Delta>)
    requires ds != [] && !HasZeroDiff(ds)
    ensures !ds[0].ZeroDiff? && !HasZeroDiff(ds[1..])
  {
    assert ds == [ds[0]] + ds[1..] && [ds[0]][0] == ds[0];
    HasZeroDiffConcat([ds[0]], ds[1..]);
  }

  /** A receiver that has rebuilt the first `done` bytes of x. */
  ghost predicate Rebuilt(x: seq<byte>, done: nat, rx: Rx) {
    done <= |x| && rx.z == x[..done] && rx.st.byRef + rx.st.byRaw == done
  }

  lemma ProcessSpelled(L: nat, x: seq<byte>, y: seq<byte>, done: nat, rx: Rx, d: Delta)
    requires Rebuilt(x, done, rx) && Fits(L, |x|, done, d) && !d.ZeroDiff?
    requires done + Size(d) <= |x| && Denotes(y, L, d, x[done..done + Size(d)])
    ensures var (err, rx') := Process(L, y, rx, d);
            err == OK && Rebuilt(x, done + Size(d), rx') && rx'.st == Count(L, rx.st, d)
  {
    var w := x[done..done + Size(d)];
    WriteAtEnd(rx.z, w);
    assert x[..done] + w == x[..done + Size(d)];
  }

  /** Taking the first element off a spelled range. */
  lemma SpellsSplit(y: seq<byte>, L: nat, ds: seq<Delta>, x: seq<byte>, from: nat)
    requires ds != [] && SpellsRange(y, L, ds, x, from, from + Covered(ds))
    ensures var n := Size(ds[0]);
            && from + n <= |x| && Denotes(y, L, ds[0], x[from..from + n])
            && SpellsRange(y, L, ds[1..], x, from + n, from + Covered(ds))
  {
    var n, w := Size(ds[0]), x[from..from + Covered(ds)];
    assert w[..n] == x[from..from + n];
    assert w[n..] == x[from + n..from + Covered(ds)];
  }

  /** An element that denotes w appends w. */
  lemma ProcessAppends(L: nat, y: seq<byte>, rx: Rx, d: Delta, w: seq<byte>) returns (rx': Rx)
    requires |rx.z| == rx.st.byRef + rx.st.byRaw && w != [] && Denotes(y, L, d, w)
    requires !d.ZeroDiff? && (d.Reference? ==> d.n == L)
    ensures Process(L, y, rx, d) == (OK, rx')
    ensures rx'.z == rx.z + w && rx'.st == Count(L, rx.st, d) && |rx'.z| == rx'.st.byRef + rx'.st.byRaw
  {
    WriteAtEnd(rx.z, w);
    rx' := Process(L, y, rx, d).1;
  }

  /** No error, w behind the file as it was, and the elements counted. */
  ghost predicate Appended(L: nat, rx: Rx, ds: seq<Delta>, w: seq<byte>, r: (Error, Rx)) {
    && r.0 == OK && r.1.z == rx.z + w && r.1.st == Tally(L, rx.st, ds)
    && |r.1.z| == r.1.st.byRef + r.1.st.byRaw
  }

  lemma ProcessFirst(L: nat, y: seq<byte>, rx: Rx, ds: seq<Delta>, rx': Rx)
    requires ds != [] && Process(L, y, rx, ds[0]) == (OK, rx')
    ensures ProcessAll(L, y, rx, ds) == ProcessAll(L, y, rx', ds[1..])
  {
  }

  lemma AppendsCons(L: nat, rx: Rx, ds: seq<Delta>, w: seq<byte>, rx': Rx, r: (Error, Rx))
    requires ds != [] && Size(ds[0]) <= |w|
    requires rx'.z == rx.z + w[..Size(ds[0])] && rx'.st == Count(L, rx.st, ds[0])
    requires Appended(L, rx', ds[1..], w[Size(ds[0])..], r)
    ensures Appended(L, rx, ds, w, r)
  {
    var n := Size(ds[0]);
    assert rx.z + w[..n] + w[n..] == rx.z + w;
  }

  lemma SpelledHead(L: nat, total: nat, done: nat, y: seq<byte>, ds: seq<Delta>, w: seq<byte>)
    requires ds != [] && Chain(L, total, done, ds) && Spells(y, L, ds, w) && L > 0
    ensures var n := Size(ds[0]);
            && 0 < n <= |w| && (ds[0].Reference? ==> ds[0].n == L) && Denotes(y, L, ds[0], w[..n])
            && Chain(L, total, done + n, ds[1..]) && Spells(y, L, ds[1..], w[n..])
  {
  }

  /** Elements that spell w append w, and are all counted. */
  lemma {:induction false} ProcessAllAppends(L: nat, total: nat, done: nat, y: seq<byte>, rx: Rx, ds: seq<Delta>, w: seq<byte>)
    requires L > 0 && Chain(L, total, done, ds) && !HasZeroDiff(ds) && Spells(y, L, ds, w)
    requires |rx.z| == rx.st.byRef + rx.st.byRaw
    ensures Appended(L, rx, ds, w, ProcessAll(L, y, rx, ds))
    decreases |ds|
  {
    if ds == [] {
      assert rx.z + w == rx.z;
    } else {
      var n := Size(ds[0]);
      SpelledHead(L, total, done, y, ds, w);
      NoneInTail(ds);
      var rx' := ProcessAppends(L, y, rx, ds[0], w[..n]);
      ProcessAllAppends(L, total, done + n, y, rx', ds[1..], w[n..]);
      AppendsCons(L, rx, ds, w, rx', ProcessAll(L, y, rx', ds[1..]));
      ProcessFirst(L, y, rx, ds, rx');
    }
  }

  /** Elements that spell the next bytes of x extend a prefix of x by them. */
  lemma ProcessAllSpelled(L: nat, x: seq<byte>, y: seq<byte>, done: nat, rx: Rx, ds: seq<Delta>)
    requires L > 0 && Rebuilt(x, done, rx) && Chain(L, |x|, done, ds) && !HasZeroDiff(ds)
    requires SpellsRange(y, L, ds, x, done, done + Covered(ds))
    ensures var (err, rx') := ProcessAll(L, y, rx, ds);
            err == OK && Rebuilt(x, done + Covered(ds), rx') && rx'.st == Tally(L, rx.st, ds)
  {
    var w := x[done..done + Covered(ds)];
    ProcessAllAppends(L, |x|, done, y, rx, ds, w);
    assert x[..done] + w == x[..done + Covered(ds)];
  }

  // ----- the one element whose reference is not used ------------------------------------

  /** Everything emitted is one ZERO_DIFF. */
  predicate IsZeroDiff(ds: seq<Delta>) { |ds| == 1 && ds[0].ZeroDiff? }

  /** The first window is all of x and the lookup hits. */
  predicate WholeFileHit(p: Params, x: seq<byte>, hit: Option<nat>) {
    |x| <= p.L && !CopiesRest(p, x, 0) && hit.Some?
  }

  /** Only the first lookup can produce a ZERO_DIFF, and then it is all there is. */
  lemma AdvanceZero(p: Params, x: seq<byte>, r: Roll, hit: Option<nat>)
    requires p.Valid() && Buffered(p, x, r) && r.pos < |x|
    ensures HasZeroDiff(Advance(p, x, r, hit).1) <==> r.pos == 0 && WholeFileHit(p, x, hit)
    ensures r.pos == 0 && WholeFileHit(p, x, hit) ==>
      Advance(p, x, r, hit) == (Roll(|x|, []), [ZeroDiff(hit.value, |x|)])
  {
    var es := Advance(p, x, r, hit).1;
    if r.pos == 0 && WholeFileHit(p, x, hit) {
      assert es == [ZeroDiff(hit.value, |x|)];
      assert es[0].ZeroDiff?;
    }
    if i :| 0 <= i < |es| && es[i].ZeroDiff? {
      assert !CopiesRest(p, x, r.pos) && hit.Some?;
      assert i == |Flush(r.raw)| && es[i] == Found(p, x, Window(p.L, x, r.pos), hit.value);
    }
  }

  lemma {:induction false} MovedOn(p: Params, x: seq<byte>, hits: seq<Option<nat>>)
    requires p.Valid() && x != [] && hits != []
    ensures Produce(p, x, hits).0.pos > 0
  {
    var n := |hits| - 1;
    ProduceShape(p, x, hits[..n]);
    var (r, ds) := Produce(p, x, hits[..n]);
    if r.pos < |x| {
      AdvanceShape(p, x, r, hits[n], ds);
    }
  }

  lemma {:induction false} ZeroDiffWhen(p: Params, x: seq<byte>, hits: seq<Option<nat>>)
    requires p.Valid() && x != [] && hits != []
    ensures HasZeroDiff(Produce(p, x, hits).1) <==> WholeFileHit(p, x, hits[0])
    ensures WholeFileHit(p, x, hits[0]) ==> Produce(p, x, hits).1 == [ZeroDiff(hits[0].value, |x|)]
  {
    var n := |hits| - 1;
    var (r, ds) := Produce(p, x, hits[..n]);
    ProduceShape(p, x, hits[..n]);
    if n == 0 {
      AdvanceZero(p, x, START, hits[0]);
    } else {
      ZeroDiffWhen(p, x, hits[..n]);
      MovedOn(p, x, hits[..n]);
      if r.pos < |x| {
        AdvanceZero(p, x, r, hits[n]);
        HasZeroDiffConcat(ds, Advance(p, x, r, hits[n]).1);
      }
    }
  }

  /** The counters after a single ZERO_DIFF. */
  lemma ZeroDiffTally(L: nat, log: seq<Delta>)
    requires IsZeroDiff(log)
    ensures Tally(L, NOTHING, log) == Count(L, NOTHING, ZeroDiff(0, log[0].n)) && Covered(log) == log[0].n
  {
    assert log[1..] == [];
  }

  // ----- local push ---------------------------------------------------------------------

  /** A finished run of the producer whose lookups saw blocks of y, all or some of them. */
  ghost predicate FinishedPush(p: Params, strong: Strong, x: seq<byte>, y: seq<byte>,
                               hits: seq<Option<nat>>, tables: seq<seq<Entry>>) {
    && p.Valid() && x != [] && NoCollision(strong, x, y, p.L)
    && Answered(p, strong, x, hits, tables)
    && (forall i | 0 <= i < |tables| :: tables[i] <= Entries(strong, y, p.L))
    && Produce(p, x, hits).0.pos == |x|
  }

  /** The local receiver copies from the start of y whatever block was matched. */
  lemma ZeroDiffRebuild(L: nat, x: seq<byte>, y: seq<byte>, ref: nat)
    requires SpellsRange(y, L, [ZeroDiff(ref, |x|)], x, 0, |x|)
    ensures |x| <= |y|
    ensures var d := ZeroDiff(ref, |x|);
            ProcessAll(L, y, EMPTY, [d]) == (OK, Rx(y[..|x|], Count(L, NOTHING, d)))
            && Tally(L, NOTHING, [d]) == Count(L, NOTHING, d)
  {
    var d := ZeroDiff(ref, |x|);
    assert [d][1..] == [];
    SpellsSplit(y, L, [d], x, 0);
    assert CopyRange(y, 0, |x|, [], 0) == y[..|x|];
  }

  /** Rebuilding from any complete, correctly spelled list of elements. */
  lemma RebuildOutcome(L: nat, x: seq<byte>, y: seq<byte>, ds: seq<Delta>)
    requires L > 0 && Chain(L, |x|, 0, ds) && SpellsRange(y, L, ds, x, 0, |x|)
    requires Covered(ds) == |x|
    requires HasZeroDiff(ds) ==> IsZeroDiff(ds) && ds[0].n == |x|
    ensures var (err, rx) := ProcessAll(L, y, EMPTY, ds);
            && err == OK && rx.st == Tally(L, NOTHING, ds) && |rx.z| == |x|
            && (rx.z == x <==> !HasZeroDiff(ds) || x <= y)
  {
    if HasZeroDiff(ds) {
      ZeroDiffRebuild(L, x, y, ds[0].ref);
    } else {
      ProcessAllSpelled(L, x, y, 0, EMPTY, ds);
    }
  }

  /** Applying the emitted elements in order never fails, accounts for every byte, and gives x
      back exactly when the first lookup did not match all of x or x is a prefix of y. */
  lemma LocalPushExact(p: Params, strong: Strong, x: seq<byte>, y: seq<byte>,
                       hits: seq<Option<nat>>, tables: seq<seq<Entry>>)
    requires FinishedPush(p, strong, x, y, hits, tables)
    ensures hits != []
    ensures var ds := Produce(p, x, hits).1;
            var (err, rx) := ProcessAll(p.L, y, EMPTY, ds);
            && err == OK && rx.st == Tally(p.L, NOTHING, ds) && |rx.z| == |x|
            && (rx.z == x <==> !WholeFileHit(p, x, hits[0]) || x <= y)
  {
    ProduceShape(p, x, hits);
    ProduceSpells(p, strong, x, y, hits, tables);
    ZeroDiffWhen(p, x, hits);
    RebuildOutcome(p.L, x, y, Produce(p, x, hits).1);
  }

  ghost predicate IsSomeBlock(x: seq<byte>, y: seq<byte>, L: nat)
    requires L > 0
  {
    exists k | 0 <= k < BlockCount(|y|, L) :: Block(y, L, k) == x
  }

  lemma FirstAnswer(p: Params, strong: Strong, x: seq<byte>, hits: seq<Option<nat>>, tables: seq<seq<Entry>>)
    requires p.Valid() && 0 < |x| <= p.L && hits != [] && !CopiesRest(p, x, 0)
    requires Answered(p, strong, x, hits, tables)
    ensures Legit(strong, tables[0], x, hits[0])
  {
    assert hits[..0] == [];
    assert Produce(p, x, hits[..0]) == (START, []);
    WholeWindow(p.L, x);
  }

  /** Looking up all of x in the complete table hits exactly when x is one of the blocks. */
  lemma WholeFileLookup(strong: Strong, x: seq<byte>, y: seq<byte>, L: nat, hit: Option<nat>)
    requires L > 0 && 0 < |x| <= L && NoCollision(strong, x, y, L)
    requires Legit(strong, Entries(strong, y, L), x, hit)
    ensures hit.Some? <==> IsSomeBlock(x, y, L)
  {
    var es := Entries(strong, y, L);
    WholeWindow(L, x);
    if hit.Some? {
      HitIsBlock(strong, x, y, L, 0, es, hit.value);
    }
    if k :| 0 <= k < BlockCount(|y|, L) && Block(y, L, k) == x {
      assert Matches(strong, es[k], x);
    }
  }

  /** The same condition in terms of the files, when the table is complete from the start. */
  lemma LocalPushCondition(p: Params, strong: Strong, x: seq<byte>, y: seq<byte>,
                           hits: seq<Option<nat>>, tables: seq<seq<Entry>>)
    requires FinishedPush(p, strong, x, y, hits, tables)
    requires forall i | 0 <= i < |tables| :: tables[i] == Entries(strong, y, p.L)
    ensures ProcessAll(p.L, y, EMPTY, Produce(p, x, hits).1).1.z == x
       <==> |x| < p.copyAll || !p.indexed || |x| <= p.copyTail || |x| > p.L || x <= y || !IsSomeBlock(x, y, p.L)
  {
    LocalPushExact(p, strong, x, y, hits, tables);
    if |x| <= p.L && !CopiesRest(p, x, 0) {
      FirstAnswer(p, strong, x, hits, tables);
      WholeFileLookup(strong, x, y, p.L, hits[0]);
    }
  }

  lemma ProduceOnce(p: Params, x: seq<byte>, hit: Option<nat>)
    requires p.Valid() && x != []
    ensures Produce(p, x, []) == (START, [])
    ensures Produce(p, x, [hit]) == Advance(p, x, START, hit)
  {
    assert [hit][..0] == [];
    assert [] + Advance(p, x, START, hit).1 == Advance(p, x, START, hit).1;
  }

  lemma AnsweredOnce(p: Params, strong: Strong, x: seq<byte>, hit: Option<nat>, table: seq<Entry>)
    requires p.Valid() && x != [] && Legit(strong, table, Window(p.L, x, 0), hit)
    ensures Answered(p, strong, x, [hit], [table])
  {
    ProduceOnce(p, x, hit);
    forall i | 0 <= i < |[hit]| ensures [hit][..i] == [] {}
  }

  lemma WholeWindowEntry(strong: Strong, x: seq<byte>, y: seq<byte>, L: nat, k: nat)
    requires L > 0 && 0 < |x| <= L && k < BlockCount(|y|, L) && Block(y, L, k) == x
    ensures Window(L, x, 0) == x && Legit(strong, Entries(strong, y, L), x, Some(k))
  {
    var es := Entries(strong, y, L);
    assert Matches(strong, es[k], x) && es[k].ref == k;
  }

  /** One lookup of a whole file that equals block k finishes the run. */
  lemma OneLookupPush(p: Params, strong: Strong, x: seq<byte>, y: seq<byte>, k: nat)
    requires p.Valid() && 0 < |x| <= p.L && !CopiesRest(p, x, 0) && NoCollision(strong, x, y, p.L)
    requires k < BlockCount(|y|, p.L) && Block(y, p.L, k) == x
    ensures FinishedPush(p, strong, x, y, [Some(k)], [Entries(strong, y, p.L)])
  {
    var es := Entries(strong, y, p.L);
    WholeWindowEntry(strong, x, y, p.L, k);
    ProduceOnce(p, x, Some(k));
    AdvanceZero(p, x, START, Some(k));
    AnsweredOnce(p, strong, x, Some(k), es);
    assert forall i | 0 <= i < |[es]| :: [es][i] <= es;
  }

  lemma TwoOneByteBlocks(strong: Strong)
    ensures var x: seq<byte>, y: seq<byte> := [2], [1, 2];
            NoCollision(strong, x, y, 1) && BlockCount(2, 1) == 2 && Block(y, 1, 1) == x
  {
    var x: seq<byte>, y: seq<byte> := [2], [1, 2];
    assert BlockCount(1, 1) == 1 && BlockCount(2, 1) == 2 && Offset(1, 1) == 1;
    assert Block(y, 1, 0) == [1] && Block(y, 1, 1) == [2];
    SumsFront([1]);
    SumsFront([2]);
    assert FastCheck([1]) != FastCheck([2]);
    assert Window(1, x, 0) == [2];
  }

  /** A file no larger than one block that equals a later block of y is rebuilt wrongly: the
      condition above does not follow from the absence of collisions. */
  lemma LocalPushCanFail(strong: Strong)
    ensures var p := Params(1, 0, 0, 1, true); var x, y := [2], [1, 2];
            exists hits, tables ::
              FinishedPush(p, strong, x, y, hits, tables)
              && ProcessAll(p.L, y, EMPTY, Produce(p, x, hits).1).1.z != x
  {
    var p := Params(1, 0, 0, 1, true);
    var x: seq<byte>, y: seq<byte> := [2], [1, 2];
    TwoOneByteBlocks(strong);
    OneLookupPush(p, strong, x, y, 1);
    LocalPushExact(p, strong, x, y, [Some(1)], [Entries(strong, y, 1)]);
    assert x[0] != y[0];
  }
}
