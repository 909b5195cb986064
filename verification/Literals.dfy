/** Which bytes of x are sent as literals: exactly those whose window was looked up in vain, and
    those a copy threshold sent without a lookup. */
module Literals {
  import opened Machine
  import opened Checksum
  import opened Blocks
  import opened Roller
  import opened Rebuild

  /** Position q lies in a literal element of ds, whose first element starts at position done. */
  predicate IsLiteral(ds: seq<Delta>, done: nat, q: nat)
    decreases |ds|
  {
    ds != [] && ((ds[0].Raw? && done <= q < done + Size(ds[0])) || IsLiteral(ds[1..], done + Size(ds[0]), q))
  }

  lemma {:induction false} IsLiteralConcat(a: seq<Delta>, b: seq<Delta>, done: nat, q: nat)
    ensures IsLiteral(a + b, done, q) <==> IsLiteral(a, done, q) || IsLiteral(b, done + Covered(a), q)
    decreases |a|
  {
    if a == [] {
      assert a + b == b;
    } else {
      IsLiteralConcat(a[1..], b, done + Size(a[0]), q);
      assert (a + b)[0] == a[0] && (a + b)[1..] == a[1..] + b;
    }
  }

  lemma LiteralOne(d: Delta, done: nat, q: nat)
    ensures IsLiteral([d], done, q) <==> d.Raw? && done <= q < done + Size(d)
  {
    assert [d][1..] == [];
  }

  lemma LiteralFlush(raw: seq<byte>, d: Delta, done: nat, q: nat)
    ensures IsLiteral(Flush(raw) + [d], done, q)
       <==> done <= q < done + |raw| || (d.Raw? && done + |raw| <= q < done + |raw| + Size(d))
  {
    IsLiteralConcat(Flush(raw), [d], done, q);
    LiteralOne(d, done + |raw|, q);
    LiteralOne(Raw(raw), done, q);
    ChainOne(1, 0, 0, Raw(raw));
  }

  /** The iteration at position pos makes q a literal: by a miss at q, or by copying the rest. */
  ghost predicate MakesLiteral(p: Params, x: seq<byte>, pos: nat, hit: Option<nat>, q: nat) {
    pos <= q && pos < |x| && if CopiesRest(p, x, pos) then q < |x| else hit.None? && q == pos
  }

  /** One iteration, for the positions it emits or buffers. */
  lemma AdvanceLiterals(p: Params, x: seq<byte>, r: Roll, hit: Option<nat>, q: nat)
    requires p.Valid() && Buffered(p, x, r) && r.pos < |x|
    ensures var (r', es) := Advance(p, x, r, hit);
            IsLiteral(es, r.pos - |r.raw|, q) || Emitted(r') <= q < r'.pos
            <==> Emitted(r) <= q < r.pos || MakesLiteral(p, x, r.pos, hit, q)
  {
    var done := r.pos - |r.raw|;
    if CopiesRest(p, x, r.pos) {
      LiteralFlush(r.raw, Raw(x[r.pos..]), done, q);
    } else if hit.Some? {
      LiteralFlush(r.raw, Found(p, x, Window(p.L, x, r.pos), hit.value), done, q);
    } else {
      LiteralOne(Raw(r.raw + [x[r.pos]]), done, q);
    }
  }

  ghost predicate MadeBy(p: Params, x: seq<byte>, hits: seq<Option<nat>>, i: nat, q: nat)
    requires p.Valid() && i < |hits|
  {
    MakesLiteral(p, x, ProbeAt(p, x, hits, i), hits[i], q)
  }

  /** Some iteration of the run makes q a literal. */
  ghost predicate MadeLiteral(p: Params, x: seq<byte>, hits: seq<Option<nat>>, q: nat)
    requires p.Valid()
  {
    exists i | 0 <= i < |hits| :: MadeBy(p, x, hits, i, q)
  }

  lemma MadeLiteralSnoc(p: Params, x: seq<byte>, hits: seq<Option<nat>>, n: nat, q: nat)
    requires p.Valid() && |hits| == n + 1
    ensures MadeLiteral(p, x, hits, q) <==> MadeLiteral(p, x, hits[..n], q) || MadeBy(p, x, hits, n, q)
  {
    forall i | 0 <= i < n
      ensures MadeBy(p, x, hits[..n], i, q) <==> MadeBy(p, x, hits, i, q)
    {
      ProbeOfPrefix(p, x, hits, n, i);
    }
  }

  lemma StepExactly(p: Params, x: seq<byte>, r: Roll, ds: seq<Delta>, hit: Option<nat>, q: nat)
    requires Shape(p, x, r, ds) && r.pos < |x|
    ensures var (r', es) := Advance(p, x, r, hit);
            IsLiteral(ds + es, 0, q) || Emitted(r') <= q < r'.pos
            <==> IsLiteral(ds, 0, q) || Emitted(r) <= q < r.pos || MakesLiteral(p, x, r.pos, hit, q)
  {
    IsLiteralConcat(ds, Advance(p, x, r, hit).1, 0, q);
    AdvanceLiterals(p, x, r, hit, q);
  }

  /** A position is in a literal element or in the literal buffer exactly when some iteration made
      it one, whatever the lookups answered. */
  lemma {:induction false} LiteralsExactly(p: Params, x: seq<byte>, hits: seq<Option<nat>>, q: nat)
    requires p.Valid() && x != []
    ensures var (r, ds) := Produce(p, x, hits);
            IsLiteral(ds, 0, q) || Emitted(r) <= q < r.pos <==> MadeLiteral(p, x, hits, q)
  {
    if hits != [] {
      var n := |hits| - 1;
      var (r, ds) := Produce(p, x, hits[..n]);
      LiteralsExactly(p, x, hits[..n], q);
      MadeLiteralSnoc(p, x, hits, n, q);
      ProduceShape(p, x, hits[..n]);
      if r.pos < |x| {
        StepExactly(p, x, r, ds, hits[n], q);
      }
    }
  }

  /** Every literal byte, emitted or still buffered, was either sent without a lookup because of a
      copy threshold, or sits where a lookup of its window matched no entry then in the table. */
  lemma LiteralsUnmatched(p: Params, strong: Strong, x: seq<byte>, hits: seq<Option<nat>>, tables: seq<seq<Entry>>, q: nat)
    returns (i: nat)
    requires p.Valid() && x != [] && Answered(p, strong, x, hits, tables)
    requires var (r, ds) := Produce(p, x, hits); IsLiteral(ds, 0, q) || Emitted(r) <= q < r.pos
    ensures q < |x| && i < |hits|
    ensures |x| < p.copyAll || !p.indexed || |x| - q <= p.copyTail
         || (ProbeAt(p, x, hits, i) == q
             && var w := Window(p.L, x, q);
                forall e | e in tables[i] :: e.fch != FastCheck(w) || e.sch != strong(w))
  {
    LiteralsExactly(p, x, hits, q);
    i :| 0 <= i < |hits| && MadeBy(p, x, hits, i, q);
  }

  /** Conversely a lookup without a match makes its position a literal for good. */
  lemma MissIsLiteral(p: Params, strong: Strong, x: seq<byte>, hits: seq<Option<nat>>, tables: seq<seq<Entry>>, i: nat)
    requires p.Valid() && x != [] && Answered(p, strong, x, hits, tables) && i < |hits|
    requires var q := ProbeAt(p, x, hits, i);
             |x| >= p.copyAll && p.indexed && |x| - q > p.copyTail
             && var w := Window(p.L, x, q);
                forall e | e in tables[i] :: e.fch != FastCheck(w) || e.sch != strong(w)
    ensures var (r, ds) := Produce(p, x, hits); var q := ProbeAt(p, x, hits, i);
            IsLiteral(ds, 0, q) || Emitted(r) <= q < r.pos
  {
    var q := ProbeAt(p, x, hits, i);
    LiteralsExactly(p, x, hits, q);
    assert hits[i] == None;
    assert MadeBy(p, x, hits, i, q);
  }
}
