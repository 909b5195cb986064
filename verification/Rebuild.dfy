/** Reconstruction: what delta elements denote over the reference file y, the receiver's
    element processing, and the condition under which the rebuilt file is x. */
module Rebuild {
  import opened Machine
  import opened Checksum
  import opened Blocks
  import opened Roller

  // ----- what a delta denotes -----------------------------------------------------------

  /** Element d stands for the bytes w. */
  ghost predicate Denotes(y: seq<byte>, L: nat, d: Delta, w: seq<byte>) {
    |w| == Size(d) &&
    match d
    case Raw(bytes) => bytes == w
    case Reference(ref, n) => Offset(ref, L) + n <= |y| && y[Offset(ref, L)..Offset(ref, L) + n] == w
    case Tail(ref, n) => Offset(ref, L) + n <= |y| && y[Offset(ref, L)..Offset(ref, L) + n] == w
    case ZeroDiff(ref, n) => Offset(ref, L) + n <= |y| && y[Offset(ref, L)..Offset(ref, L) + n] == w
  }

  /** The elements, in order, stand for consecutive pieces of w. */
  ghost predicate Spells(y: seq<byte>, L: nat, ds: seq<Delta>, w: seq<byte>)
    decreases |ds|
  {
    if ds == [] then w == []
    else Size(ds[0]) <= |w| && Denotes(y, L, ds[0], w[..Size(ds[0])]) && Spells(y, L, ds[1..], w[Size(ds[0])..])
  }

  lemma {:induction false} SpellsConcat(y: seq<byte>, L: nat, a: seq<Delta>, u: seq<byte>, b: seq<Delta>, v: seq<byte>)
    requires Spells(y, L, a, u) && Spells(y, L, b, v)
    ensures Spells(y, L, a + b, u + v)
    decreases |a|
  {
    if a == [] {
      assert a + b == b && u + v == v;
    } else {
      var n := Size(a[0]);
      SpellsConcat(y, L, a[1..], u[n..], b, v);
      assert (a + b)[1..] == a[1..] + b;
      assert (u + v)[..n] == u[..n] && (u + v)[n..] == u[n..] + v;
    }
  }

  lemma SpellsOne(y: seq<byte>, L: nat, d: Delta, w: seq<byte>)
    requires Denotes(y, L, d, w)
    ensures Spells(y, L, [d], w)
  {
    assert [d][1..] == [] && w[..|w|] == w && w[|w|..] == [];
  }

  lemma {:induction false} SpellsCovers(y: seq<byte>, L: nat, ds: seq<Delta>, w: seq<byte>)
    requires Spells(y, L, ds, w)
    ensures |w| == Covered(ds)
    decreases |ds|
  {
    if ds != [] {
      SpellsCovers(y, L, ds[1..], w[Size(ds[0])..]);
    }
  }

  // ----- soundness of the producer ------------------------------------------------------

  /** No probed window of x collides with a block of y in both checksums at once. */
  ghost predicate NoCollision(strong: Strong, x: seq<byte>, y: seq<byte>, L: nat)
    requires L > 0
  {
    forall pos, k | 0 <= pos < |x| && 0 <= k < BlockCount(|y|, L) ::
      Matches(strong, EntryOf(strong, y, L, k), Window(L, x, pos)) ==> Block(y, L, k) == Window(L, x, pos)
  }

  /** What is assumed, with nothing left open: where a block and a window have the same fast and
      the same strong checksum they are the same bytes. */
  lemma NoCollisionMeans(strong: Strong, x: seq<byte>, y: seq<byte>, L: nat)
    requires L > 0
    ensures NoCollision(strong, x, y, L) <==>
      forall pos, k | 0 <= pos < |x| && 0 <= k < BlockCount(|y|, L) ::
        var b, w := Block(y, L, k), Window(L, x, pos);
        FastCheck(b) == FastCheck(w) && strong(b) == strong(w) ==> b == w
  {
  }

  /** The window at pos against block k, without a collision. */
  lemma MatchIsBlock(strong: Strong, x: seq<byte>, y: seq<byte>, L: nat, pos: nat, k: nat)
    requires L > 0 && pos < |x| && k < BlockCount(|y|, L) && NoCollision(strong, x, y, L)
    requires Matches(strong, EntryOf(strong, y, L, k), Window(L, x, pos))
    ensures Block(y, L, k) == Window(L, x, pos)
  {
  }

  lemma BlockSlice(y: seq<byte>, L: nat, k: nat)
    requires L > 0 && k < BlockCount(|y|, L)
    ensures var b := Block(y, L, k); Offset(k, L) + |b| <= |y| && y[Offset(k, L)..Offset(k, L) + |b|] == b
  {
  }

  /** A hit in a table holding the first blocks of y names a block equal to the window. */
  lemma HitIsBlock(strong: Strong, x: seq<byte>, y: seq<byte>, L: nat, pos: nat, table: seq<Entry>, ref: nat)
    requires L > 0 && pos < |x| && NoCollision(strong, x, y, L)
    requires table <= Entries(strong, y, L) && Legit(strong, table, Window(L, x, pos), Some(ref))
    ensures ref < BlockCount(|y|, L) && Block(y, L, ref) == Window(L, x, pos)
    ensures var w := Window(L, x, pos); Offset(ref, L) + |w| <= |y| && y[Offset(ref, L)..Offset(ref, L) + |w|] == w
  {
    var i: nat :| i < |table| && Matches(strong, table[i], Window(L, x, pos)) && table[i].ref == ref;
    assert table[i] == EntryOf(strong, y, L, i);
    MatchIsBlock(strong, x, y, L, pos, i);
    BlockSlice(y, L, i);
  }

  /** The elements stand for x[from..to]. */
  ghost predicate SpellsRange(y: seq<byte>, L: nat, ds: seq<Delta>, x: seq<byte>, from: nat, to: nat) {
    from <= to <= |x| && Spells(y, L, ds, x[from..to])
  }

  /** The first position whose byte is neither emitted nor passed by the emitted elements. */
  function Emitted(r: Roll): int { r.pos - |r.raw| }

  lemma FlushSpells(y: seq<byte>, L: nat, raw: seq<byte>, d: Delta, w: seq<byte>)
    requires Denotes(y, L, d, w)
    ensures Spells(y, L, Flush(raw) + [d], raw + w)
  {
    SpellsOne(y, L, d, w);
    if raw == [] {
      assert Flush(raw) + [d] == [d] && raw + w == w;
    } else {
      SpellsOne(y, L, Raw(raw), raw);
      SpellsConcat(y, L, [Raw(raw)], raw, [d], w);
    }
  }

  lemma FoundSpells(p: Params, x: seq<byte>, y: seq<byte>, r: Roll, ref: nat, w: seq<byte>)
    requires p.Valid() && Buffered(p, x, r) && 0 < |w| <= p.L
    requires r.pos + |w| <= |x| && w == x[r.pos..r.pos + |w|]
    requires Offset(ref, p.L) + |w| <= |y| && y[Offset(ref, p.L)..Offset(ref, p.L) + |w|] == w
    ensures SpellsRange(y, p.L, Flush(r.raw) + [Found(p, x, w, ref)], x, Emitted(r), r.pos + |w|)
  {
    FlushSpells(y, p.L, r.raw, Found(p, x, w, ref), w);
    assert x[Emitted(r)..r.pos + |w|] == r.raw + w;
  }

  lemma MissSpells(p: Params, x: seq<byte>, y: seq<byte>, r: Roll)
    requires p.Valid() && r.pos < |x| && Buffered(p, x, r)
    ensures SpellsRange(y, p.L, [Raw(r.raw + [x[r.pos]])], x, Emitted(r), r.pos + 1)
    ensures SpellsRange(y, p.L, [], x, Emitted(r), Emitted(r))
  {
    var raw := r.raw + [x[r.pos]];
    SpellsOne(y, p.L, Raw(raw), raw);
    assert x[Emitted(r)..r.pos + 1] == raw;
  }

  lemma RestSpells(p: Params, x: seq<byte>, y: seq<byte>, r: Roll)
    requires p.Valid() && r.pos < |x| && Buffered(p, x, r)
    ensures SpellsRange(y, p.L, Flush(r.raw) + [Raw(x[r.pos..])], x, Emitted(r), |x|)
  {
    FlushSpells(y, p.L, r.raw, Raw(x[r.pos..]), x[r.pos..]);
    assert x[Emitted(r)..|x|] == r.raw + x[r.pos..];
  }

  /** A hit for the window at pos whose block really begins with the window's bytes. */
  ghost predicate TrueHit(p: Params, x: seq<byte>, y: seq<byte>, pos: nat, ref: nat)
    requires p.L > 0 && pos < |x|
  {
    var w, from := Window(p.L, x, pos), Offset(ref, p.L);
    from + |w| <= |y| && y[from..from + |w|] == w
  }

  /** The iteration at pos makes no false reference. */
  ghost predicate Honest(p: Params, x: seq<byte>, y: seq<byte>, pos: nat, hit: Option<nat>)
    requires p.L > 0
  {
    pos < |x| && !CopiesRest(p, x, pos) && hit.Some? ==> TrueHit(p, x, y, pos, hit.value)
  }

  /** Spelling a concatenation is spelling its parts. */
  lemma {:induction false} SpellsBoth(y: seq<byte>, L: nat, a: seq<Delta>, b: seq<Delta>, u: seq<byte>, v: seq<byte>)
    requires |u| == Covered(a)
    ensures Spells(y, L, a + b, u + v) <==> Spells(y, L, a, u) && Spells(y, L, b, v)
    decreases |a|
  {
    if a == [] {
      assert a + b == b && u + v == v;
    } else {
      var n := Size(a[0]);
      SpellsBoth(y, L, a[1..], b, u[n..], v);
      assert (a + b)[0] == a[0] && (a + b)[1..] == a[1..] + b;
      assert (u + v)[..n] == u[..n] && (u + v)[n..] == u[n..] + v;
    }
  }

  lemma CoveredOne(d: Delta)
    ensures Covered([d]) == Size(d)
  {
    assert [d][1..] == [];
  }

  lemma CoveredFlush(raw: seq<byte>)
    ensures Covered(Flush(raw)) == |raw|
  {
    CoveredOne(Raw(raw));
  }

  /** Spelling the buffered literals and one element is denoting the element. */
  lemma FlushHonest(y: seq<byte>, L: nat, raw: seq<byte>, d: Delta, w: seq<byte>)
    requires Spells(y, L, Flush(raw) + [d], raw + w)
    ensures Denotes(y, L, d, w)
  {
    CoveredFlush(raw);
    SpellsBoth(y, L, Flush(raw), [d], raw, w);
    assert Size(d) == |w| ==> w[..|w|] == w;
    SpellsCovers(y, L, [d], w);
    CoveredOne(d);
  }

  lemma FoundHonest(p: Params, x: seq<byte>, y: seq<byte>, pos: nat, ref: nat)
    requires p.Valid() && pos < |x| && Denotes(y, p.L, Found(p, x, Window(p.L, x, pos), ref), Window(p.L, x, pos))
    ensures TrueHit(p, x, y, pos, ref)
  {
  }

  lemma HitHonest(p: Params, x: seq<byte>, y: seq<byte>, r: Roll, ref: nat)
    requires p.Valid() && r.pos < |x| && Buffered(p, x, r)
    ensures var w := Window(p.L, x, r.pos);
            SpellsRange(y, p.L, Flush(r.raw) + [Found(p, x, w, ref)], x, Emitted(r), r.pos + |w|)
            <==> TrueHit(p, x, y, r.pos, ref)
  {
    var w := Window(p.L, x, r.pos);
    var d := Found(p, x, w, ref);
    var range := x[Emitted(r)..r.pos + |w|];
    assert range == r.raw + w;
    if TrueHit(p, x, y, r.pos, ref) {
      FoundSpells(p, x, y, r, ref, w);
    }
    if Spells(y, p.L, Flush(r.raw) + [d], range) {
      FlushHonest(y, p.L, r.raw, d, w);
      FoundHonest(p, x, y, r.pos, ref);
    }
  }

  /** One iteration emits elements that denote their bytes of x exactly when it is honest. */
  lemma AdvanceHonest(p: Params, x: seq<byte>, y: seq<byte>, r: Roll, hit: Option<nat>)
    requires p.Valid() && r.pos < |x| && Buffered(p, x, r)
    ensures var (r', es) := Advance(p, x, r, hit);
            Emitted(r') >= 0 && (SpellsRange(y, p.L, es, x, Emitted(r), Emitted(r')) <==> Honest(p, x, y, r.pos, hit))
  {
    if CopiesRest(p, x, r.pos) {
      RestSpells(p, x, y, r);
    } else if hit.Some? {
      HitHonest(p, x, y, r, hit.value);
    } else {
      MissSpells(p, x, y, r);
    }
  }

  /** Without a collision an answer from a part of y's table is true. */
  lemma NoFalseHit(p: Params, strong: Strong, x: seq<byte>, y: seq<byte>, pos: nat, hit: Option<nat>, table: seq<Entry>)
    requires p.Valid() && pos < |x| && NoCollision(strong, x, y, p.L) && table <= Entries(strong, y, p.L)
    requires CopiesRest(p, x, pos) || Legit(strong, table, Window(p.L, x, pos), hit)
    ensures Honest(p, x, y, pos, hit)
  {
    if !CopiesRest(p, x, pos) && hit.Some? {
      HitIsBlock(strong, x, y, p.L, pos, table, hit.value);
    }
  }

  /** The elements of one iteration stand for the literals before it and the bytes it passed,
      up to the literals still buffered. */
  lemma AdvanceSpells(p: Params, strong: Strong, x: seq<byte>, y: seq<byte>, r: Roll, hit: Option<nat>, table: seq<Entry>)
    requires p.Valid() && r.pos < |x| && Buffered(p, x, r)
    requires NoCollision(strong, x, y, p.L) && table <= Entries(strong, y, p.L)
    requires CopiesRest(p, x, r.pos) || Legit(strong, table, Window(p.L, x, r.pos), hit)
    ensures var (r', es) := Advance(p, x, r, hit);
            Emitted(r') >= 0 && SpellsRange(y, p.L, es, x, Emitted(r), Emitted(r'))
  {
    NoFalseHit(p, strong, x, y, r.pos, hit, table);
    AdvanceHonest(p, x, y, r, hit);
  }

  lemma AnsweredPrefix(p: Params, strong: Strong, x: seq<byte>, hits: seq<Option<nat>>, tables: seq<seq<Entry>>)
    requires p.Valid() && Answered(p, strong, x, hits, tables) && hits != []
    ensures var n := |hits| - 1;
            && Answered(p, strong, x, hits[..n], tables[..n])
            && (var pos := Produce(p, x, hits[..n]).0.pos;
                pos < |x| && (CopiesRest(p, x, pos) || Legit(strong, tables[n], Window(p.L, x, pos), hits[n])))
  {
    var n := |hits| - 1;
    forall i | 0 <= i < n
      ensures hits[..n][..i] == hits[..i]
    {
    }
  }

  /** Adjacent ranges join. */
  lemma SpellsStep(y: seq<byte>, L: nat, a: seq<Delta>, b: seq<Delta>, x: seq<byte>, from: nat, mid: nat, to: nat)
    requires SpellsRange(y, L, a, x, from, mid) && SpellsRange(y, L, b, x, mid, to)
    ensures SpellsRange(y, L, a + b, x, from, to)
  {
    SpellsConcat(y, L, a, x[from..mid], b, x[mid..to]);
    assert x[from..mid] + x[mid..to] == x[from..to];
  }

  /** Whatever prefix of y's table each lookup saw, what is emitted stands for the bytes of x
      before the buffered literals. */
  lemma {:induction false} ProduceSpells(p: Params, strong: Strong, x: seq<byte>, y: seq<byte>,
                                         hits: seq<Option<nat>>, tables: seq<seq<Entry>>)
    requires p.Valid() && x != [] && NoCollision(strong, x, y, p.L)
    requires Answered(p, strong, x, hits, tables)
    requires forall i | 0 <= i < |tables| :: tables[i] <= Entries(strong, y, p.L)
    ensures var (r, ds) := Produce(p, x, hits);
            Emitted(r) >= 0 && SpellsRange(y, p.L, ds, x, 0, Emitted(r))
  {
    if hits != [] {
      var n := |hits| - 1;
      var (r, ds) := Produce(p, x, hits[..n]);
      AnsweredPrefix(p, strong, x, hits, tables);
      ProduceSpells(p, strong, x, y, hits[..n], tables[..n]);
      ProduceShape(p, x, hits[..n]);
      AdvanceSpells(p, strong, x, y, r, hits[n], tables[n]);
      var (r', es) := Advance(p, x, r, hits[n]);
      SpellsStep(y, p.L, ds, es, x, 0, Emitted(r), Emitted(r'));
    }
  }
}
