/** What an edit in the middle of a file costs: where x is y with one piece replaced by another,
    blocks behind the edit are found again although they have moved. */
module Shifts {
  import opened Machine
  import opened Blocks
  import opened Roller
  import opened Rebuild
  import opened Receiver
  import opened Costs

  /** Between a common beginning a and a common end b, y has del where x has ins. */
  datatype Edit = Edit(a: seq<byte>, del: seq<byte>, ins: seq<byte>, b: seq<byte>) {
    function X(): seq<byte> { a + ins + b }
    function Y(): seq<byte> { a + del + b }
  }

  // ----- what a miss excludes -----------------------------------------------------------

  /** With the complete table a window that is a block of y is found. */
  lemma BlockIsFound(strong: Strong, y: seq<byte>, L: nat, k: nat, w: seq<byte>, hit: Option<nat>)
    requires L > 0 && k < BlockCount(|y|, L) && Block(y, L, k) == w
    requires Legit(strong, Entries(strong, y, L), w, hit)
    ensures hit.Some?
  {
    assert Matches(strong, Entries(strong, y, L)[k], w);
  }

  /** Block k lies in a: it is at the same place in x. */
  lemma BlockBefore(e: Edit, L: nat, k: nat)
    requires L > 0 && Offset(k, L) + L <= |e.a|
    ensures k < BlockCount(|e.Y()|, L) && Block(e.Y(), L, k) == Window(L, e.X(), Offset(k, L))
  {
    BlockNumber(|e.Y()|, L, k);
    var p := Offset(k, L);
    assert e.Y()[p..p + L] == e.a[p..p + L] == e.X()[p..p + L];
  }

  /** Where block k of y begins in x, if it begins in b; the end of x for the number behind the last. */
  function Moved(e: Edit, L: nat, k: nat): int { Min(Offset(k, L), |e.Y()|) - |e.del| + |e.ins| }

  lemma SliceOfEnd(front: seq<byte>, b: seq<byte>, from: nat, to: nat)
    requires from <= to <= |b|
    ensures (front + b)[|front| + from..|front| + to] == b[from..to]
  {
  }

  lemma BlockBehind(e: Edit, L: nat, k: nat)
    requires L > 0 && k < BlockCount(|e.Y()|, L) && Offset(k, L) >= |e.a| + |e.del|
    ensures 0 <= Moved(e, L, k) < |e.X()| && Block(e.Y(), L, k) == Window(L, e.X(), Moved(e, L, k))
  {
    BlockNumber(|e.Y()|, L, k);
    var from := Offset(k, L) - |e.a| - |e.del|;
    var to := from + Min(L, |e.b| - from);
    SliceOfEnd(e.a + e.del, e.b, from, to);
    SliceOfEnd(e.a + e.ins, e.b, from, to);
  }

  /** The first block boundary of y at or after v. */
  lemma {:induction false} NextBoundary(v: nat, size: nat, L: nat) returns (k: nat)
    requires L > 0 && v < size
    ensures v <= Offset(k, L) < v + L && k <= BlockCount(size, L)
  {
    if v == 0 {
      k := 0;
    } else {
      k := NextBoundary(v - 1, size, L);
      if Offset(k, L) < v {
        k := k + 1;
        BlockNumber(size, L, k - 1);
      }
    }
  }

  // ----- the three stretches of a run ---------------------------------------------------

  /** Before the edit: on a block boundary, with no literal yet. */
  ghost predicate Before(e: Edit, L: nat, pos: nat, raw: nat, k: nat) {
    raw == 0 && pos == Offset(k, L) && pos + L <= |e.a|
  }

  /** At the edit: at most the block that reaches into it is literal. */
  ghost predicate At(e: Edit, L: nat, pos: nat, raw: nat) {
    pos < |e.a| + |e.ins| && raw + |e.a| < pos + L
  }

  /** Behind the edit: the literals and the way to the next moved boundary are bounded. */
  ghost predicate Behind(e: Edit, L: nat, pos: nat, raw: nat, k: nat)
    requires L > 0
  {
    && k <= BlockCount(|e.Y()|, L) && (k < BlockCount(|e.Y()|, L) ==> Offset(k, L) >= |e.a| + |e.del|)
    && pos <= Moved(e, L, k) < pos + L && raw + Moved(e, L, k) - pos <= |e.ins| + 2 * (L - 1)
  }

  ghost predicate Located(e: Edit, L: nat, pos: nat, raw: nat, k: nat)
    requires L > 0
  {
    Before(e, L, pos, raw, k) || At(e, L, pos, raw) || Behind(e, L, pos, raw, k)
  }

  /** The number behind the last block stands for the end of x. */
  lemma LastBoundary(e: Edit, L: nat)
    requires L > 0
    ensures Moved(e, L, BlockCount(|e.Y()|, L)) == |e.X()|
  {
    BlockNumber(|e.Y()|, L, BlockCount(|e.Y()|, L));
  }

  /** Having passed the edit. */
  lemma Passed(e: Edit, L: nat, pos: nat, raw: nat) returns (k: nat)
    requires L > 0 && |e.a| + |e.ins| <= pos <= |e.X()| && raw < |e.ins| + L
    ensures Behind(e, L, pos, raw, k)
  {
    if pos == |e.X()| {
      k := BlockCount(|e.Y()|, L);
      LastBoundary(e, L);
    } else {
      k := NextBoundary(pos - |e.ins| + |e.del|, |e.Y()|, L);
      if k < BlockCount(|e.Y()|, L) {
        BlockNumber(|e.Y()|, L, k);
      } else {
        LastBoundary(e, L);
      }
    }
  }

  /** On a block boundary of a, before any literal. */
  lemma OnBoundary(e: Edit, L: nat, k: nat) returns (k': nat)
    requires L > 0 && Offset(k, L) <= |e.a|
    ensures Located(e, L, Offset(k, L), 0, k')
  {
    var pos := Offset(k, L);
    k' := k;
    if pos + L > |e.a| && pos >= |e.a| + |e.ins| {
      k' := Passed(e, L, pos, 0);
    }
  }

  lemma MissStep(strong: Strong, e: Edit, L: nat, pos: nat, raw: nat, k: nat, hit: Option<nat>) returns (k': nat)
    requires L > 0 && pos < |e.X()| && Located(e, L, pos, raw, k) && hit.None?
    requires Legit(strong, Entries(strong, e.Y(), L), Window(L, e.X(), pos), hit)
    ensures Located(e, L, pos + 1, raw + 1, k')
  {
    k' := k;
    if Before(e, L, pos, raw, k) {
      BlockBefore(e, L, k);
      BlockIsFound(strong, e.Y(), L, k, Window(L, e.X(), pos), hit);
    } else if At(e, L, pos, raw) {
      if pos + 1 == |e.a| + |e.ins| {
        k' := Passed(e, L, pos + 1, raw + 1);
      }
    } else {
      if k == BlockCount(|e.Y()|, L) {
        LastBoundary(e, L);
      } else if Moved(e, L, k) == pos {
        BlockBehind(e, L, k);
        BlockIsFound(strong, e.Y(), L, k, Window(L, e.X(), pos), hit);
      }
    }
  }

  /** The boundary behind the next one is one block further, or the end. */
  lemma FurtherBoundary(e: Edit, L: nat, k: nat)
    requires L > 0 && k < BlockCount(|e.Y()|, L)
    ensures k + 1 <= BlockCount(|e.Y()|, L) && Offset(k + 1, L) == Offset(k, L) + L
    ensures Moved(e, L, k + 1) == Min(Offset(k, L) + L, |e.Y()|) - |e.del| + |e.ins|
  {
  }

  lemma HitBehind(e: Edit, L: nat, pos: nat, raw: nat, k: nat) returns (k': nat)
    requires L > 0 && pos < |e.X()| && Behind(e, L, pos, raw, k)
    ensures Behind(e, L, pos + Min(L, |e.X()| - pos), raw, k')
  {
    if k == BlockCount(|e.Y()|, L) {
      LastBoundary(e, L);
      k' := k;
    } else {
      BlockNumber(|e.Y()|, L, k);
      FurtherBoundary(e, L, k);
      k' := k + 1;
    }
  }

  lemma HitStep(e: Edit, L: nat, pos: nat, raw: nat, k: nat) returns (k': nat)
    requires L > 0 && pos < |e.X()| && Located(e, L, pos, raw, k)
    ensures Located(e, L, pos + Min(L, |e.X()| - pos), raw, k')
  {
    var next := pos + Min(L, |e.X()| - pos);
    k' := k;
    if Before(e, L, pos, raw, k) {
      k' := OnBoundary(e, L, k + 1);
    } else if At(e, L, pos, raw) {
      if next >= |e.a| + |e.ins| {
        k' := Passed(e, L, next, raw);
      }
    } else {
      k' := HitBehind(e, L, pos, raw, k);
    }
  }

  lemma ShiftStep(p: Params, strong: Strong, e: Edit, r: Roll, ds: seq<Delta>, hit: Option<nat>, k: nat) returns (k': nat)
    requires p.Valid() && r.pos < |e.X()| && !CopiesRest(p, e.X(), r.pos)
    requires Located(e, p.L, r.pos, RawBytes(ds) + |r.raw|, k)
    requires Legit(strong, Entries(strong, e.Y(), p.L), Window(p.L, e.X(), r.pos), hit)
    ensures var (r', es) := Advance(p, e.X(), r, hit);
            r'.pos <= |e.X()| && Located(e, p.L, r'.pos, RawBytes(ds + es) + |r'.raw|, k')
  {
    RawAdvance(p, e.X(), r, ds, hit);
    if hit.None? {
      k' := MissStep(strong, e, p.L, r.pos, RawBytes(ds) + |r.raw|, k, hit);
    } else {
      k' := HitStep(e, p.L, r.pos, RawBytes(ds) + |r.raw|, k);
    }
  }

  lemma {:induction false} ShiftInvariant(p: Params, strong: Strong, e: Edit, hits: seq<Option<nat>>, tables: seq<seq<Entry>>)
    returns (k: nat)
    requires FullTable(p, strong, e.X(), e.Y(), hits, tables)
    ensures var (r, ds) := Produce(p, e.X(), hits);
            r.pos <= |e.X()| && Located(e, p.L, r.pos, RawBytes(ds) + |r.raw|, k)
  {
    if hits == [] {
      k := OnBoundary(e, p.L, 0);
    } else {
      var n := |hits| - 1;
      var (r, ds) := Produce(p, e.X(), hits[..n]);
      AnsweredPrefix(p, strong, e.X(), hits, tables);
      k := ShiftInvariant(p, strong, e, hits[..n], tables[..n]);
      k := ShiftStep(p, strong, e, r, ds, hits[n], k);
    }
  }

  /** One piece replaced by another costs the new piece and less than two blocks in literals,
      wherever it is and however far the rest of the file has moved, with no assumption about
      collisions. */
  lemma EditCost(p: Params, strong: Strong, e: Edit, hits: seq<Option<nat>>, tables: seq<seq<Entry>>)
    requires FullTable(p, strong, e.X(), e.Y(), hits, tables)
    ensures Tally(p.L, NOTHING, Produce(p, e.X(), hits).1).byRaw <= |e.ins| + 2 * (p.L - 1)
  {
    var k := ShiftInvariant(p, strong, e, hits, tables);
    CreditMeaning(p.send, p.L, NOTHING, Produce(p, e.X(), hits).1);
  }

  /** What a finished push with the complete table and no copy thresholds has cost, in the counters
      the program prints. */
  lemma PushCosts(p: Params, strong: Strong, x: seq<byte>, y: seq<byte>, hits: seq<Option<nat>>, tables: seq<seq<Entry>>)
    requires FullTable(p, strong, x, y, hits, tables) && Produce(p, x, hits).0.pos == |x|
    ensures var st := Tally(p.L, NOTHING, Produce(p, x, hits).1);
            && (|x| == |y| ==> st.byRaw <= Changed(x, y, p.L, BlockCount(|x|, p.L)) * p.L)
            && (forall e: Edit | e.X() == x && e.Y() == y :: st.byRaw <= |e.ins| + 2 * (p.L - 1))
            && (x == y ==> st.byRaw == st.rawN == 0 && st.refN == BlockCount(|x|, p.L))
  {
    forall e: Edit | e.X() == x && e.Y() == y
      ensures Tally(p.L, NOTHING, Produce(p, x, hits).1).byRaw <= |e.ins| + 2 * (p.L - 1)
    {
      EditCost(p, strong, e, hits, tables);
    }
    if |x| == |y| {
      EditLocality(p, strong, x, y, hits, tables);
    }
    if x == y {
      UnchangedCounters(p, strong, x, hits, tables);
    }
  }
}
