/** What a run of the roller costs: bounds on the number and size of literal elements. */
module Costs {
  import opened Machine
  import opened Blocks
  import opened Roller
  import opened Rebuild
  import opened Receiver

  function RawBytes(ds: seq<Delta>): nat {
    if ds == [] then 0 else (if ds[0].Raw? then |ds[0].bytes| else 0) + RawBytes(ds[1..])
  }

  function RawCount(ds: seq<Delta>): nat {
    if ds == [] then 0 else (if ds[0].Raw? then 1 else 0) + RawCount(ds[1..])
  }

  lemma {:induction false} RawConcat(a: seq<Delta>, b: seq<Delta>)
    ensures RawBytes(a + b) == RawBytes(a) + RawBytes(b)
    ensures RawCount(a + b) == RawCount(a) + RawCount(b)
  {
    if a == [] {
      assert a + b == b;
    } else {
      RawConcat(a[1..], b);
      assert (a + b)[1..] == a[1..] + b;
    }
  }

  lemma RawOfFlush(raw: seq<byte>, d: Delta)
    ensures RawBytes(Flush(raw) + [d]) == |raw| + (if d.Raw? then |d.bytes| else 0)
    ensures RawCount(Flush(raw) + [d]) == (if raw == [] then 0 else 1) + (if d.Raw? then 1 else 0)
  {
    assert [d][1..] == [];
    if raw != [] {
      assert [Raw(raw)][1..] == [];
    }
    RawConcat(Flush(raw), [d]);
  }

  // ----- how many literal elements ------------------------------------------------------

  /** send per element that is not literal, minus what each literal element falls short. */
  function Credit(send: nat, ds: seq<Delta>): int {
    if ds == [] then 0
    else (if ds[0].Raw? then |ds[0].bytes| - send else send) + Credit(send, ds[1..])
  }

  lemma {:induction false} CreditConcat(send: nat, a: seq<Delta>, b: seq<Delta>)
    ensures Credit(send, a + b) == Credit(send, a) + Credit(send, b)
  {
    if a == [] {
      assert a + b == b;
    } else {
      CreditConcat(send, a[1..], b);
      assert (a + b)[1..] == a[1..] + b;
    }
  }

  lemma CreditOfFlush(send: nat, raw: seq<byte>, d: Delta)
    ensures Credit(send, Flush(raw) + [d])
         == (if raw == [] then 0 else |raw| - send) + (if d.Raw? then |d.bytes| - send else send)
  {
    assert [d][1..] == [];
    if raw != [] {
      assert [Raw(raw)][1..] == [];
    }
    CreditConcat(send, Flush(raw), [d]);
  }

  lemma CreditStep(p: Params, x: seq<byte>, r: Roll, hit: Option<nat>)
    requires p.Valid() && Buffered(p, x, r) && r.pos < |x|
    ensures var (r', es) := Advance(p, x, r, hit);
            Credit(p.send, es) >= if r'.pos < |x| then 0 else -2 * p.send
  {
    if CopiesRest(p, x, r.pos) {
      CreditOfFlush(p.send, r.raw, Raw(x[r.pos..]));
    } else if hit.Some? {
      CreditOfFlush(p.send, r.raw, Found(p, x, Window(p.L, x, r.pos), hit.value));
    } else {
      var es := Advance(p, x, r, hit).1;
      assert es != [] ==> es[1..] == [];
    }
  }

  /** Before the end every short literal element is paid for by the match that flushed it; the
      final iteration adds at most two more short ones. */
  lemma {:induction false} CreditInvariant(p: Params, x: seq<byte>, hits: seq<Option<nat>>)
    requires p.Valid() && x != []
    ensures var (r, ds) := Produce(p, x, hits);
            Credit(p.send, ds) >= if r.pos < |x| then 0 else -2 * p.send
  {
    if hits != [] {
      var n := |hits| - 1;
      var (r, ds) := Produce(p, x, hits[..n]);
      CreditInvariant(p, x, hits[..n]);
      ProduceShape(p, x, hits[..n]);
      if r.pos < |x| {
        CreditStep(p, x, r, hits[n]);
        CreditConcat(p.send, ds, Advance(p, x, r, hits[n]).1);
      }
    }
  }

  lemma {:induction false} CreditMeaning(send: nat, L: nat, st: Stats, ds: seq<Delta>)
    ensures var t := Tally(L, st, ds);
            && t.byRaw == st.byRaw + RawBytes(ds) && t.rawN == st.rawN + RawCount(ds)
            && t.refN == st.refN + |ds| - RawCount(ds)
            && RawCount(ds) <= |ds|
            && Credit(send, ds) == RawBytes(ds) - Offset(RawCount(ds), send) + Offset(|ds| - RawCount(ds), send)
    decreases |ds|
  {
    if ds != [] {
      CreditMeaning(send, L, Count(L, st, ds[0]), ds[1..]);
    }
  }

  /** All eight counters of a finished run, from the list of its elements. */
  lemma CountersOfRun(p: Params, x: seq<byte>, hits: seq<Option<nat>>)
    requires p.Valid() && x != [] && Produce(p, x, hits).0.pos == |x|
    ensures var ds := Produce(p, x, hits).1;
            var t, last := Tally(p.L, NOTHING, ds), if ds == [] then Raw([]) else ds[|ds| - 1];
            && t.byRaw == RawBytes(ds) && t.byRef == |x| - RawBytes(ds)
            && t.rawN == RawCount(ds) && t.refN == |ds| - RawCount(ds)
            && t.byTail == (if last.Tail? then last.n else 0) && t.tailN == (if last.Tail? then 1 else 0)
            && t.byZero == (if HasZeroDiff(ds) then |x| else 0) && t.zeroN == (if HasZeroDiff(ds) then 1 else 0)
  {
    var ds := Produce(p, x, hits).1;
    ProduceShape(p, x, hits);
    TallyAccounts(p.L, |x|, 0, NOTHING, ds);
    TallyEnds(p.L, |x|, 0, NOTHING, ds);
    CreditMeaning(p.send, p.L, NOTHING, ds);
    if i :| 0 <= i < |ds| && ds[i].ZeroDiff? {
      ChainShape(p.L, |x|, 0, ds, i);
    }
  }

  lemma DivideOut(rawN: nat, bytes: nat, refN: nat, send: nat)
    requires send > 0 && bytes - rawN * send + refN * send >= -2 * send
    ensures rawN <= bytes / send + refN + 2
  {
    var q, k := bytes / send, rawN - refN - 2;
    MulDistributes(rawN - refN, 2, send);
    MulDistributes(rawN, refN, send);
    MulDistributes(k, q, send);
    if k > q { MulAtLeast(k - q, send); }
  }

  /** The number of literal elements of any run, in terms of the counters the program prints. */
  lemma RawCountBound(p: Params, x: seq<byte>, hits: seq<Option<nat>>)
    requires p.Valid() && x != []
    ensures var t := Tally(p.L, NOTHING, Produce(p, x, hits).1);
            t.rawN <= t.byRaw / p.send + t.refN + 2
  {
    var ds := Produce(p, x, hits).1;
    var t := Tally(p.L, NOTHING, ds);
    CreditInvariant(p, x, hits);
    CreditMeaning(p.send, p.L, NOTHING, ds);
    OffsetIsProduct(t.rawN, p.send);
    OffsetIsProduct(t.refN, p.send);
    DivideOut(t.rawN, t.byRaw, t.refN, p.send);
  }

  /** The element is the rest of x, sent whole because a copy threshold fired there. */
  predicate IsCopiedRest(p: Params, x: seq<byte>, bytes: seq<byte>) {
    |bytes| <= |x| && bytes == x[|x| - |bytes|..] && CopiesRest(p, x, |x| - |bytes|)
  }

  lemma RawSizeStep(p: Params, x: seq<byte>, r: Roll, hit: Option<nat>, i: nat)
    requires p.Valid() && Buffered(p, x, r) && r.pos < |x| && i < |Advance(p, x, r, hit).1|
    ensures var (r', es) := Advance(p, x, r, hit);
            es[i].Raw? && |es[i].bytes| > p.send ==>
              r'.pos == |x| && i == |es| - 1 && IsCopiedRest(p, x, es[i].bytes)
  {
  }

  /** No literal element exceeds the send threshold, except a copied rest at the very end. */
  lemma {:induction false} RawSizeBound(p: Params, x: seq<byte>, hits: seq<Option<nat>>, i: nat)
    requires p.Valid() && x != [] && i < |Produce(p, x, hits).1|
    ensures var (r, ds) := Produce(p, x, hits);
            ds[i].Raw? && |ds[i].bytes| > p.send ==>
              r.pos == |x| && i == |ds| - 1 && IsCopiedRest(p, x, ds[i].bytes)
  {
    var n := |hits| - 1;
    var (r, ds) := Produce(p, x, hits[..n]);
    ProduceShape(p, x, hits[..n]);
    if i < |ds| {
      RawSizeBound(p, x, hits[..n], i);
    }
    if r.pos < |x| && i >= |ds| {
      RawSizeStep(p, x, r, hits[n], i - |ds|);
    }
  }

  // ----- locality of edits --------------------------------------------------------------

  /** How many of the first m blocks of x differ from the same block of y. */
  function Changed(x: seq<byte>, y: seq<byte>, L: nat, m: nat): nat
    requires L > 0 && |x| == |y| && m <= BlockCount(|x|, L)
  {
    if m == 0 then 0
    else Changed(x, y, L, m - 1) + if Block(x, L, m - 1) != Block(y, L, m - 1) then 1 else 0
  }

  /** The cursor and the literal byte count are the same distance d short of a block boundary,
      and the literal bytes, rounded up to blocks, are paid for by changed blocks before it. */
  ghost predicate Aligned(x: seq<byte>, y: seq<byte>, L: nat, pos: nat, raw: nat, a: nat, b: nat, d: nat)
    requires L > 0 && |x| == |y|
  {
    && d < L && pos + d == Offset(a, L) && raw + d == Offset(b, L)
    && a <= BlockCount(|x|, L) && b <= Changed(x, y, L, a)
  }

  lemma {:induction false} ChangedMonotone(x: seq<byte>, y: seq<byte>, L: nat, m: nat, k: nat)
    requires L > 0 && |x| == |y| && m <= k <= BlockCount(|x|, L)
    ensures Changed(x, y, L, m) <= Changed(x, y, L, k)
    decreases k
  {
    if m < k {
      ChangedMonotone(x, y, L, m, k - 1);
    }
  }

  lemma {:induction false} OffsetMonotone(a: nat, b: nat, L: nat)
    requires a <= b
    ensures Offset(a, L) <= Offset(b, L)
    decreases b
  {
    if a < b {
      OffsetMonotone(a, b - 1, L);
    }
  }

  /** With the complete table an unchanged aligned block is always found. */
  lemma UnchangedIsFound(strong: Strong, x: seq<byte>, y: seq<byte>, L: nat, a: nat, hit: Option<nat>)
    requires L > 0 && |x| == |y| && a < BlockCount(|x|, L)
    requires Offset(a, L) < |x| && Legit(strong, Entries(strong, y, L), Window(L, x, Offset(a, L)), hit)
    requires hit.None?
    ensures Block(x, L, a) != Block(y, L, a)
  {
    var es := Entries(strong, y, L);
    assert Window(L, x, Offset(a, L)) == Block(x, L, a);
    assert es[a] == EntryOf(strong, y, L, a);
  }

  /** A missed aligned block is a changed one. */
  lemma BlockChanged(strong: Strong, x: seq<byte>, y: seq<byte>, L: nat, a: nat, hit: Option<nat>)
    requires L > 0 && |x| == |y| && Offset(a, L) < |x|
    requires Legit(strong, Entries(strong, y, L), Window(L, x, Offset(a, L)), hit) && hit.None?
    ensures a < BlockCount(|x|, L) && Changed(x, y, L, a + 1) == Changed(x, y, L, a) + 1
  {
    BlockNumber(|x|, L, a);
    UnchangedIsFound(strong, x, y, L, a, hit);
  }

  lemma MissAtBlock(strong: Strong, x: seq<byte>, y: seq<byte>, L: nat, raw: nat, a: nat, b: nat, hit: Option<nat>)
    requires L > 0 && |x| == |y| && Offset(a, L) < |x| && Aligned(x, y, L, Offset(a, L), raw, a, b, 0)
    requires Legit(strong, Entries(strong, y, L), Window(L, x, Offset(a, L)), hit) && hit.None?
    ensures Aligned(x, y, L, Offset(a, L) + 1, raw + 1, a + 1, b + 1, L - 1)
  {
    BlockChanged(strong, x, y, L, a, hit);
    OffsetGrows(a, L);
    OffsetGrows(b, L);
  }

  lemma MissAligned(strong: Strong, x: seq<byte>, y: seq<byte>, L: nat, pos: nat, raw: nat,
                    a: nat, b: nat, d: nat, hit: Option<nat>) returns (a': nat, b': nat, d': nat)
    requires L > 0 && |x| == |y| && pos < |x| && Aligned(x, y, L, pos, raw, a, b, d)
    requires Legit(strong, Entries(strong, y, L), Window(L, x, pos), hit) && hit.None?
    ensures Aligned(x, y, L, pos + 1, raw + 1, a', b', d')
  {
    if d > 0 {
      a', b', d' := a, b, d - 1;
    } else {
      MissAtBlock(strong, x, y, L, raw, a, b, hit);
      a', b', d' := a + 1, b + 1, L - 1;
    }
  }

  lemma HitAligned(x: seq<byte>, y: seq<byte>, L: nat, pos: nat, raw: nat, a: nat, b: nat, d: nat)
    requires L > 0 && |x| == |y| && Aligned(x, y, L, pos, raw, a, b, d) && pos + L <= |x|
    ensures Aligned(x, y, L, pos + L, raw, a + 1, b, d)
  {
    BlockNumber(|x|, L, a);
  }

  lemma AlignedBound(x: seq<byte>, y: seq<byte>, L: nat, pos: nat, raw: nat, a: nat, b: nat, d: nat)
    requires L > 0 && |x| == |y| && Aligned(x, y, L, pos, raw, a, b, d)
    ensures raw <= Offset(Changed(x, y, L, BlockCount(|x|, L)), L)
  {
    ChangedMonotone(x, y, L, a, BlockCount(|x|, L));
    OffsetMonotone(b, Changed(x, y, L, BlockCount(|x|, L)), L);
  }

  /** A push with the complete table and no copy thresholds. */
  ghost predicate FullTable(p: Params, strong: Strong, x: seq<byte>, y: seq<byte>,
                            hits: seq<Option<nat>>, tables: seq<seq<Entry>>) {
    && p.Valid() && p.indexed && p.copyAll == 0 && p.copyTail == 0 && x != []
    && Answered(p, strong, x, hits, tables)
    && forall i | 0 <= i < |tables| :: tables[i] == Entries(strong, y, p.L)
  }

  /** The same for a file of the same size. */
  ghost predicate FullTablePush(p: Params, strong: Strong, x: seq<byte>, y: seq<byte>,
                                hits: seq<Option<nat>>, tables: seq<seq<Entry>>) {
    |x| == |y| && FullTable(p, strong, x, y, hits, tables)
  }

  lemma LocalityStep(strong: Strong, x: seq<byte>, y: seq<byte>, L: nat, pos: nat, raw: nat,
                     a: nat, b: nat, d: nat, hit: Option<nat>) returns (a': nat, b': nat, d': nat)
    requires L > 0 && |x| == |y| && pos < |x| && Aligned(x, y, L, pos, raw, a, b, d)
    requires Legit(strong, Entries(strong, y, L), Window(L, x, pos), hit)
    ensures var pos' := pos + if hit.None? then 1 else Min(L, |x| - pos);
            var raw' := raw + if hit.None? then 1 else 0;
            && raw' <= Offset(Changed(x, y, L, BlockCount(|x|, L)), L)
            && (pos' < |x| ==> Aligned(x, y, L, pos', raw', a', b', d'))
  {
    a', b', d' := a, b, d;
    AlignedBound(x, y, L, pos, raw, a, b, d);
    if hit.None? {
      a', b', d' := MissAligned(strong, x, y, L, pos, raw, a, b, d, hit);
      AlignedBound(x, y, L, pos + 1, raw + 1, a', b', d');
    } else if pos + L <= |x| {
      HitAligned(x, y, L, pos, raw, a, b, d);
      a' := a + 1;
    }
  }

  /** Literal bytes emitted or buffered grow by one on a miss and not at all on a hit. */
  lemma RawAdvance(p: Params, x: seq<byte>, r: Roll, ds: seq<Delta>, hit: Option<nat>)
    requires p.Valid() && r.pos < |x| && !CopiesRest(p, x, r.pos)
    ensures var (r', es) := Advance(p, x, r, hit);
            && RawBytes(ds + es) + |r'.raw| == RawBytes(ds) + |r.raw| + (if hit.None? then 1 else 0)
            && r'.pos == r.pos + (if hit.None? then 1 else Min(p.L, |x| - r.pos))
  {
    var es := Advance(p, x, r, hit).1;
    RawConcat(ds, es);
    if hit.Some? {
      RawOfFlush(r.raw, Found(p, x, Window(p.L, x, r.pos), hit.value));
    } else {
      assert es != [] ==> es[1..] == [];
    }
  }

  lemma {:induction false} LocalityInvariant(p: Params, strong: Strong, x: seq<byte>, y: seq<byte>,
                                             hits: seq<Option<nat>>, tables: seq<seq<Entry>>)
    returns (a: nat, b: nat, d: nat)
    requires FullTablePush(p, strong, x, y, hits, tables)
    ensures var (r, ds) := Produce(p, x, hits);
            var raw := RawBytes(ds) + |r.raw|;
            && raw <= Offset(Changed(x, y, p.L, BlockCount(|x|, p.L)), p.L)
            && (r.pos < |x| ==> Aligned(x, y, p.L, r.pos, raw, a, b, d))
  {
    if hits == [] {
      a, b, d := 0, 0, 0;
      return;
    }
    var n := |hits| - 1;
    var (r, ds) := Produce(p, x, hits[..n]);
    AnsweredPrefix(p, strong, x, hits, tables);
    a, b, d := LocalityInvariant(p, strong, x, y, hits[..n], tables[..n]);
    RawAdvance(p, x, r, ds, hits[n]);
    a, b, d := LocalityStep(strong, x, y, p.L, r.pos, RawBytes(ds) + |r.raw|, a, b, d, hits[n]);
  }

  /** At most L literal bytes per changed block, with no assumption about collisions. */
  lemma EditLocality(p: Params, strong: Strong, x: seq<byte>, y: seq<byte>,
                     hits: seq<Option<nat>>, tables: seq<seq<Entry>>)
    requires FullTablePush(p, strong, x, y, hits, tables)
    ensures Tally(p.L, NOTHING, Produce(p, x, hits).1).byRaw
         <= Changed(x, y, p.L, BlockCount(|x|, p.L)) * p.L
  {
    var a, b, d := LocalityInvariant(p, strong, x, y, hits, tables);
    CreditMeaning(p.send, p.L, NOTHING, Produce(p, x, hits).1);
    OffsetIsProduct(Changed(x, y, p.L, BlockCount(|x|, p.L)), p.L);
  }

  lemma {:induction false} NothingChanged(x: seq<byte>, L: nat, m: nat)
    requires L > 0 && m <= BlockCount(|x|, L)
    ensures Changed(x, x, L, m) == 0
  {
    if m > 0 {
      NothingChanged(x, L, m - 1);
    }
  }

  lemma {:induction false} NoLiterals(L: nat, total: nat, done: nat, ds: seq<Delta>)
    requires L > 0 && done <= total && Chain(L, total, done, ds) && RawBytes(ds) == 0
    requires done + Covered(ds) == total
    ensures |ds| == BlockCount(total - done, L)
    ensures forall i :: 0 <= i < |ds| ==> !ds[i].Raw?
    decreases |ds|
  {
    if ds != [] {
      ChainGrows(L, total, done + Size(ds[0]), ds[1..]);
      NoLiterals(L, total, done + Size(ds[0]), ds[1..]);
      assert forall i :: 0 < i < |ds| ==> ds[i] == ds[1..][i - 1];
    }
  }

  lemma NoLiteralBytes(p: Params, strong: Strong, x: seq<byte>, hits: seq<Option<nat>>, tables: seq<seq<Entry>>)
    requires FullTablePush(p, strong, x, x, hits, tables)
    ensures RawBytes(Produce(p, x, hits).1) == 0
  {
    var a, b, d := LocalityInvariant(p, strong, x, x, hits, tables);
    NothingChanged(x, p.L, BlockCount(|x|, p.L));
    assert Offset(0, p.L) == 0;
  }

  lemma WholeOrBlocks(L: nat, total: nat, ds: seq<Delta>)
    requires L > 0 && total > 0 && Chain(L, total, 0, ds) && |ds| == BlockCount(total, L)
    requires forall i :: 0 <= i < |ds| ==> !ds[i].Raw?
    ensures HasZeroDiff(ds) <==> total <= L
  {
    if total <= L {
      assert BlockCount(0, L) == 0 && |ds| == 1 && !ds[0].Raw?;
      assert ds[0].ZeroDiff?;
    }
    if i :| 0 <= i < |ds| && ds[i].ZeroDiff? {
      ChainShape(L, total, 0, ds, i);
    }
  }

  /** Full references, then a TAIL when the rest is no whole number of blocks. */
  ghost predicate ReferencesThenTail(L: nat, rest: nat, ds: seq<Delta>)
    requires L > 0
  {
    && (forall i :: 0 <= i < |ds| - 1 ==> ds[i].Reference?)
    && (ds != [] ==> if rest % L == 0 then ds[|ds| - 1].Reference? else ds[|ds| - 1].Tail?)
  }

  lemma BlockEnds(L: nat, n: nat)
    requires L > 0
    ensures n < L ==> n % L == n
  {
    if n < L {
      QuotientUnique(n, 0, n, L);
    }
  }

  lemma {:induction false} OnlyReferences(L: nat, total: nat, done: nat, ds: seq<Delta>)
    requires 0 < L < total && done <= total && Chain(L, total, done, ds) && done + Covered(ds) == total
    requires forall i :: 0 <= i < |ds| ==> !ds[i].Raw?
    ensures ReferencesThenTail(L, total - done, ds)
    decreases |ds|
  {
    if ds != [] {
      var d, rest := ds[0], ds[1..];
      ChainGrows(L, total, done + Size(d), rest);
      OnlyReferences(L, total, done + Size(d), rest);
      if d.Reference? {
        ModCongruent(total - done, total - done - L, 1, L);
        BlockEnds(L, total - done - L);
        assert rest == [] ==> total == done + L;
      } else {
        assert rest == [];
        BlockEnds(L, total - done);
      }
      assert forall i :: 0 < i < |ds| ==> ds[i] == rest[i - 1];
    }
  }

  lemma WithoutLiterals(L: nat, total: nat, ds: seq<Delta>)
    requires L > 0 && total > 0 && Chain(L, total, 0, ds) && Covered(ds) == total && RawBytes(ds) == 0
    ensures |ds| == BlockCount(total, L) && forall i :: 0 <= i < |ds| ==> !ds[i].Raw?
    ensures if total <= L then IsZeroDiff(ds) else ReferencesThenTail(L, total, ds)
  {
    NoLiterals(L, total, 0, ds);
    WholeOrBlocks(L, total, ds);
    if total <= L {
      var i :| 0 <= i < |ds| && ds[i].ZeroDiff?;
      ChainShape(L, total, 0, ds, i);
    } else {
      OnlyReferences(L, total, 0, ds);
    }
  }

  /** Pushing an unchanged file sends one element per block and no literal byte: one ZERO_DIFF when
      it is no larger than a block, and else full references with a TAIL last exactly when L does
      not divide its size. */
  lemma UnchangedFile(p: Params, strong: Strong, x: seq<byte>, hits: seq<Option<nat>>, tables: seq<seq<Entry>>)
    requires FullTablePush(p, strong, x, x, hits, tables) && Produce(p, x, hits).0.pos == |x|
    ensures var ds := Produce(p, x, hits).1;
            && |ds| == |x| / p.L + (if |x| % p.L != 0 then 1 else 0)
            && (forall i :: 0 <= i < |ds| ==> !ds[i].Raw?)
            && (if |x| <= p.L then IsZeroDiff(ds) else ReferencesThenTail(p.L, |x|, ds))
  {
    var ds := Produce(p, x, hits).1;
    ProduceShape(p, x, hits);
    NoLiteralBytes(p, strong, x, hits, tables);
    WithoutLiterals(p.L, |x|, ds);
    BlockCountIsCeiling(|x|, p.L);
  }

  lemma {:induction false} NoneRaw(ds: seq<Delta>)
    requires forall i :: 0 <= i < |ds| ==> !ds[i].Raw?
    ensures RawCount(ds) == 0 && RawBytes(ds) == 0
  {
    if ds != [] {
      NoneRaw(ds[1..]);
    }
  }

  /** The counters after pushing an unchanged file. */
  lemma UnchangedCounters(p: Params, strong: Strong, x: seq<byte>, hits: seq<Option<nat>>, tables: seq<seq<Entry>>)
    requires FullTablePush(p, strong, x, x, hits, tables) && Produce(p, x, hits).0.pos == |x|
    ensures var st := Tally(p.L, NOTHING, Produce(p, x, hits).1);
            st.byRaw == st.rawN == 0 && st.refN == BlockCount(|x|, p.L)
  {
    var ds := Produce(p, x, hits).1;
    UnchangedFile(p, strong, x, hits, tables);
    NoneRaw(ds);
    CreditMeaning(p.send, p.L, NOTHING, ds);
    BlockCountIsCeiling(|x|, p.L);
  }
}
