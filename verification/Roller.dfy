/** What rm_rolling_ch_proc computes, one loop iteration at a time: a cursor into x and the
    literal bytes buffered before it. The loop with all its cursors, buffers and rolled
    checksums is in RollingProc. */
module Roller {
  import opened Machine
  import opened Blocks

  /** The reconstruction context's parameters; indexed is false when the hashtable is NULL. */
  datatype Params = Params(L: nat, copyAll: nat, copyTail: nat, send: nat, indexed: bool) {
    predicate Valid() { L > 0 && send > 0 }
  }

  /** struct rm_delta_e. The reference of a raw element is declared unused and dropped. */
  datatype Delta =
    | Reference(ref: nat, n: nat)
    | Raw(bytes: seq<byte>)
    | ZeroDiff(ref: nat, n: nat)
    | Tail(ref: nat, n: nat)

  /** raw_bytes_n */
  function Size(d: Delta): nat { if d.Raw? then |d.bytes| else d.n }

  /** The state between iterations. */
  datatype Roll = Roll(pos: nat, raw: seq<byte>)

  const START := Roll(0, [])

  function Window(L: nat, x: seq<byte>, pos: nat): (w: seq<byte>)
    requires L > 0 && pos < |x|
    ensures 0 < |w| <= L
  {
    x[pos..Min(pos + L, |x|)]
  }

  /** The window of a file no larger than a block is the file. */
  lemma WholeWindow(L: nat, x: seq<byte>)
    requires 0 < |x| <= L
    ensures Window(L, x, 0) == x
  {
  }

  /** Both copy thresholds and the missing hashtable: what is left goes out as one element. */
  predicate CopiesRest(p: Params, x: seq<byte>, pos: nat)
    requires pos <= |x|
  {
    |x| < p.copyAll || !p.indexed || |x| - pos <= p.copyTail
  }

  function Flush(raw: seq<byte>): seq<Delta> { if raw == [] then [] else [Raw(raw)] }

  /** The element for a matched window w. */
  function Found(p: Params, x: seq<byte>, w: seq<byte>, ref: nat): Delta {
    if |w| == |x| then ZeroDiff(ref, |x|)
    else if |w| < p.L then Tail(ref, |w|)
    else Reference(ref, p.L)
  }

  /** One iteration, given the answer of the lookup. */
  function Advance(p: Params, x: seq<byte>, r: Roll, hit: Option<nat>): (Roll, seq<Delta>)
    requires p.Valid() && r.pos < |x|
  {
    if CopiesRest(p, x, r.pos) then
      (Roll(|x|, []), Flush(r.raw) + [Raw(x[r.pos..])])
    else
      var w := Window(p.L, x, r.pos);
      match hit
      case Some(ref) => (Roll(r.pos + |w|, []), Flush(r.raw) + [Found(p, x, w, ref)])
      case None =>
        var raw := r.raw + [x[r.pos]];
        if |raw| == p.send || r.pos + 1 == |x| then (Roll(r.pos + 1, []), [Raw(raw)])
        else (Roll(r.pos + 1, raw), [])
  }

  /** When the rest goes out as it is although the window would have matched. */
  lemma RestExactlyWhen(p: Params, x: seq<byte>, r: Roll, ref: nat)
    requires p.Valid() && r.pos < |x|
    ensures Advance(p, x, r, Some(ref)).1 == Flush(r.raw) + [Raw(x[r.pos..])]
       <==> |x| < p.copyAll || !p.indexed || |x| - r.pos <= p.copyTail
  {
    var found := Found(p, x, Window(p.L, x, r.pos), ref);
    assert (Flush(r.raw) + [found])[|Flush(r.raw)|] == found != Raw(x[r.pos..]);
    assert (Flush(r.raw) + [Raw(x[r.pos..])])[|Flush(r.raw)|] == Raw(x[r.pos..]);
  }

  /** The iterations up to |hits| lookups, and everything they emit. */
  function Produce(p: Params, x: seq<byte>, hits: seq<Option<nat>>): (Roll, seq<Delta>)
    requires p.Valid()
  {
    if hits == [] then (START, []) else
    var (r, ds) := Produce(p, x, hits[..|hits| - 1]);
    if r.pos >= |x| then (r, ds) else
    var (r', es) := Advance(p, x, r, hits[|hits| - 1]);
    (r', ds + es)
  }

  /** The position of lookup i. */
  function ProbeAt(p: Params, x: seq<byte>, hits: seq<Option<nat>>, i: nat): nat
    requires p.Valid() && i <= |hits|
  {
    Produce(p, x, hits[..i]).0.pos
  }

  lemma ProbeOfPrefix(p: Params, x: seq<byte>, hits: seq<Option<nat>>, n: nat, i: nat)
    requires p.Valid() && i <= n <= |hits|
    ensures ProbeAt(p, x, hits[..n], i) == ProbeAt(p, x, hits, i)
  {
    assert hits[..n][..i] == hits[..i];
  }

  /** Some iteration started where no more than the copy_tail threshold was left. */
  ghost predicate TailFired(p: Params, x: seq<byte>, hits: seq<Option<nat>>)
    requires p.Valid()
  {
    exists i | 0 <= i < |hits| :: |x| - ProbeAt(p, x, hits, i) <= p.copyTail
  }

  lemma TailFiredSnoc(p: Params, x: seq<byte>, hits: seq<Option<nat>>, hit: Option<nat>)
    requires p.Valid()
    ensures TailFired(p, x, hits + [hit])
       <==> TailFired(p, x, hits) || |x| - Produce(p, x, hits).0.pos <= p.copyTail
  {
    var all, n := hits + [hit], |hits|;
    assert all[..n] == hits;
    forall i | 0 <= i < n
      ensures ProbeAt(p, x, all, i) == ProbeAt(p, x, hits, i)
    {
      ProbeOfPrefix(p, x, all, n, i);
    }
    assert ProbeAt(p, x, all, n) == Produce(p, x, hits).0.pos;
  }

  /** Every lookup was answered correctly against what the table held at that moment. */
  ghost predicate Answered(p: Params, strong: Strong, x: seq<byte>, hits: seq<Option<nat>>, tables: seq<seq<Entry>>)
    requires p.Valid()
  {
    |tables| == |hits| &&
    forall i | 0 <= i < |hits| ::
      var pos := Produce(p, x, hits[..i]).0.pos;
      pos < |x| && (CopiesRest(p, x, pos) || Legit(strong, tables[i], Window(p.L, x, pos), hits[i]))
  }

  /** Each iteration of a finished run: the first one that starts in a short file, without a
      hashtable or within the copy_tail threshold of the end is the last and sends all that is
      left; every other one is a correctly answered lookup. */
  lemma EachProbe(p: Params, strong: Strong, x: seq<byte>, hits: seq<Option<nat>>, tables: seq<seq<Entry>>, i: nat)
    requires p.Valid() && Answered(p, strong, x, hits, tables) && Produce(p, x, hits).0.pos == |x| && i < |hits|
    ensures var q, ds := ProbeAt(p, x, hits, i), Produce(p, x, hits).1;
            q < |x| &&
            if |x| < p.copyAll || !p.indexed || |x| - q <= p.copyTail then
              i == |hits| - 1 && ds != [] && ds[|ds| - 1] == Raw(x[q..])
            else Legit(strong, tables[i], Window(p.L, x, q), hits[i])
  {
    var q := ProbeAt(p, x, hits, i);
    if CopiesRest(p, x, q) {
      assert hits[..i + 1][..i] == hits[..i];
      assert Produce(p, x, hits[..i + 1]).0.pos == |x|;
      assert i == |hits| - 1;
      assert hits[..i + 1] == hits;
    }
  }

  // ----- shape and conservation ---------------------------------------------------------

  function Covered(ds: seq<Delta>): nat { if ds == [] then 0 else Size(ds[0]) + Covered(ds[1..]) }

  /** What element may follow when `done` bytes of a file of `total` bytes are described. */
  predicate Fits(L: nat, total: nat, done: nat, d: Delta) {
    match d
    case Reference(_, n) => n == L && done + L <= total && L < total
    case Raw(bytes) => bytes != [] && done + |bytes| <= total
    case Tail(_, n) => 0 < n < L && done + n == total && n < total
    case ZeroDiff(_, n) => done == 0 && n == total && 0 < total <= L
  }

  predicate Chain(L: nat, total: nat, done: nat, ds: seq<Delta>)
    decreases |ds|
  {
    ds == [] || (Fits(L, total, done, ds[0]) && Chain(L, total, done + Size(ds[0]), ds[1..]))
  }

  lemma {:induction false} CoveredConcat(a: seq<Delta>, b: seq<Delta>)
    ensures Covered(a + b) == Covered(a) + Covered(b)
  {
    if a == [] {
      assert a + b == b;
    } else {
      CoveredConcat(a[1..], b);
      assert (a + b)[1..] == a[1..] + b;
    }
  }

  lemma {:induction false} ChainConcat(L: nat, total: nat, done: nat, a: seq<Delta>, b: seq<Delta>)
    ensures Chain(L, total, done, a + b)
       <==> Chain(L, total, done, a) && Chain(L, total, done + Covered(a), b)
    decreases |a|
  {
    if a == [] {
      assert a + b == b;
    } else {
      ChainConcat(L, total, done + Size(a[0]), a[1..], b);
      assert (a + b)[1..] == a[1..] + b;
    }
  }

  /** Every chained element describes at least one byte and stays inside the file. */
  lemma {:induction false} ChainGrows(L: nat, total: nat, done: nat, ds: seq<Delta>)
    requires L > 0 && Chain(L, total, done, ds) && done <= total
    ensures |ds| <= Covered(ds) && done + Covered(ds) <= total
    decreases |ds|
  {
    if ds != [] {
      ChainGrows(L, total, done + Size(ds[0]), ds[1..]);
    }
  }

  /** A TAIL can only be the last element and a ZERO_DIFF only the sole one. */
  lemma {:induction false} ChainShape(L: nat, total: nat, done: nat, ds: seq<Delta>, i: nat)
    requires L > 0 && Chain(L, total, done, ds) && i < |ds| && done <= total
    ensures ds[i].Tail? ==> i == |ds| - 1
    ensures ds[i].ZeroDiff? ==> done == 0 && |ds| == 1
    ensures Size(ds[i]) > 0
    decreases |ds|
  {
    ChainGrows(L, total, done, ds);
    ChainGrows(L, total, done + Size(ds[0]), ds[1..]);
    if i > 0 {
      ChainShape(L, total, done + Size(ds[0]), ds[1..], i - 1);
    }
  }

  /** The literal buffer holds the bytes just before the cursor and never fills up. */
  ghost predicate Buffered(p: Params, x: seq<byte>, r: Roll) {
    && r.pos <= |x| && |r.raw| < p.send && |r.raw| <= r.pos
    && (r.pos == |x| ==> r.raw == [])
    && r.raw == x[r.pos - |r.raw|..r.pos]
  }

  /** What holds of the cursor, the literal buffer and everything emitted so far. */
  ghost predicate Shape(p: Params, x: seq<byte>, r: Roll, ds: seq<Delta>) {
    p.Valid() && Buffered(p, x, r) && Chain(p.L, |x|, 0, ds) && Covered(ds) + |r.raw| == r.pos
  }

  lemma ChainOne(L: nat, total: nat, done: nat, d: Delta)
    ensures Chain(L, total, done, [d]) <==> Fits(L, total, done, d)
    ensures Covered([d]) == Size(d)
  {
    assert [d][1..] == [];
  }

  lemma ChainFlush(L: nat, total: nat, done: nat, raw: seq<byte>, d: Delta)
    requires done + |raw| <= total && Fits(L, total, done + |raw|, d)
    ensures Chain(L, total, done, Flush(raw) + [d])
    ensures Covered(Flush(raw) + [d]) == |raw| + Size(d)
  {
    ChainOne(L, total, done, Raw(raw));
    ChainOne(L, total, done + |raw|, d);
    ChainConcat(L, total, done, Flush(raw), [d]);
    CoveredConcat(Flush(raw), [d]);
  }

  /** The elements of one iteration fit after the bytes described so far. */
  lemma AdvanceFits(p: Params, x: seq<byte>, r: Roll, hit: Option<nat>, done: nat)
    requires p.Valid() && r.pos < |x| && done + |r.raw| == r.pos
    ensures var (r', es) := Advance(p, x, r, hit);
            && Chain(p.L, |x|, done, es) && |es| <= 2
            && r.pos < r'.pos <= |x|
            && done + Covered(es) + |r'.raw| == r'.pos
  {
    var (r', es) := Advance(p, x, r, hit);
    if CopiesRest(p, x, r.pos) {
      ChainFlush(p.L, |x|, done, r.raw, Raw(x[r.pos..]));
    } else if hit.Some? {
      ChainFlush(p.L, |x|, done, r.raw, Found(p, x, Window(p.L, x, r.pos), hit.value));
    } else if es != [] {
      ChainOne(p.L, |x|, done, es[0]);
    }
  }

  lemma AdvanceBuffered(p: Params, x: seq<byte>, r: Roll, hit: Option<nat>)
    requires p.Valid() && Buffered(p, x, r) && r.pos < |x|
    ensures Buffered(p, x, Advance(p, x, r, hit).0)
  {
    var raw := r.raw + [x[r.pos]];
    assert raw == x[r.pos + 1 - |raw|..r.pos + 1];
  }

  lemma ChainAppend(L: nat, total: nat, ds: seq<Delta>, es: seq<Delta>)
    requires Chain(L, total, 0, ds) && Chain(L, total, Covered(ds), es)
    ensures Chain(L, total, 0, ds + es) && Covered(ds + es) == Covered(ds) + Covered(es)
  {
    ChainConcat(L, total, 0, ds, es);
    CoveredConcat(ds, es);
  }

  /** One iteration keeps the shape and moves the cursor forward: send_left decreases. */
  lemma AdvanceShape(p: Params, x: seq<byte>, r: Roll, hit: Option<nat>, ds: seq<Delta>)
    requires Shape(p, x, r, ds) && r.pos < |x|
    ensures var (r', es) := Advance(p, x, r, hit);
            && Shape(p, x, r', ds + es) && r.pos < r'.pos <= |x|
            && Chain(p.L, |x|, Covered(ds), es) && |es| <= 2
  {
    var (r', es) := Advance(p, x, r, hit);
    AdvanceBuffered(p, x, r, hit);
    AdvanceFits(p, x, r, hit, Covered(ds));
    ChainAppend(p.L, |x|, ds, es);
  }

  /** Shape and conservation after any number of iterations, whatever the lookups answer. */
  lemma {:induction false} ProduceShape(p: Params, x: seq<byte>, hits: seq<Option<nat>>)
    requires p.Valid() && x != []
    ensures var (r, ds) := Produce(p, x, hits); Shape(p, x, r, ds)
  {
    if hits != [] {
      var (r, ds) := Produce(p, x, hits[..|hits| - 1]);
      ProduceShape(p, x, hits[..|hits| - 1]);
      if r.pos < |x| {
        AdvanceShape(p, x, r, hits[|hits| - 1], ds);
      }
    }
  }

  /** A finished run describes every byte of x exactly once; TAIL is last, ZERO_DIFF alone. */
  lemma FinishedRun(p: Params, x: seq<byte>, hits: seq<Option<nat>>, i: nat)
    requires p.Valid() && x != [] && Produce(p, x, hits).0.pos == |x|
    requires i < |Produce(p, x, hits).1|
    ensures var ds := Produce(p, x, hits).1;
            && Covered(ds) == |x| && Size(ds[i]) > 0
            && (ds[i].Tail? ==> i == |ds| - 1) && (ds[i].ZeroDiff? ==> |ds| == 1)
  {
    ProduceShape(p, x, hits);
    ChainShape(p.L, |x|, 0, Produce(p, x, hits).1, i);
  }
}
