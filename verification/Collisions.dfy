/** What a push is worth when checksums do collide: exactly when the rebuilt file is x, whatever the
    lookups answered. */
module Collisions {
  import opened Machine
  import opened Blocks
  import opened Roller
  import opened Rebuild
  import opened Receiver
  import opened Files

  // ----- processing writes what the elements denote -------------------------------------

  /** An element that is processed without error extends the file by bytes it denotes. */
  lemma ProcessDenotes(L: nat, y: seq<byte>, rx: Rx, d: Delta) returns (rx': Rx)
    requires Process(L, y, rx, d).0 == OK && !d.ZeroDiff? && Size(d) > 0 && (d.Reference? ==> d.n == L)
    requires |rx.z| == rx.st.byRef + rx.st.byRaw
    ensures Process(L, y, rx, d) == (OK, rx') && |rx'.z| == rx'.st.byRef + rx'.st.byRaw
    ensures |rx'.z| == |rx.z| + Size(d) && rx'.z[..|rx.z|] == rx.z && Denotes(y, L, d, rx'.z[|rx.z|..])
  {
    rx' := Process(L, y, rx, d).1;
    if d.Raw? {
      WriteAtEnd(rx.z, d.bytes);
    } else {
      var from := Offset(d.ref, L);
      WriteAtEnd(rx.z, y[from..from + d.n]);
    }
  }

  lemma FirstPiece(z: seq<byte>, a: seq<byte>, b: seq<byte>)
    requires |a| <= |b| <= |z| && b[..|a|] == a && z[..|b|] == b
    ensures z[..|a|] == a && z[|a|..][..|b| - |a|] == b[|a|..] && z[|a|..][|b| - |a|..] == z[|b|..]
  {
    assert z[..|a|] == z[..|b|][..|a|];
  }

  /** What is behind the file as it was. */
  ghost predicate Extends(z: seq<byte>, before: seq<byte>, y: seq<byte>, L: nat, ds: seq<Delta>) {
    |z| >= |before| && z[..|before|] == before && Spells(y, L, ds, z[|before|..])
  }

  lemma ExtendsCons(z: seq<byte>, a: seq<byte>, b: seq<byte>, y: seq<byte>, L: nat, ds: seq<Delta>)
    requires ds != [] && |b| == |a| + Size(ds[0]) && b[..|a|] == a && Denotes(y, L, ds[0], b[|a|..])
    requires Extends(z, b, y, L, ds[1..])
    ensures Extends(z, a, y, L, ds)
  {
    FirstPiece(z, a, b);
  }

  lemma ProcessCons(L: nat, y: seq<byte>, rx: Rx, ds: seq<Delta>)
    requires ds != [] && ProcessAll(L, y, rx, ds).0 == OK
    ensures Process(L, y, rx, ds[0]).0 == OK
    ensures ProcessAll(L, y, rx, ds) == ProcessAll(L, y, Process(L, y, rx, ds[0]).1, ds[1..])
  {
  }

  /** And so does a list of elements. */
  lemma {:induction false} ProcessAllDenotes(L: nat, total: nat, y: seq<byte>, done: nat, rx: Rx, ds: seq<Delta>)
    requires L > 0 && done <= total && Chain(L, total, done, ds) && !HasZeroDiff(ds)
    requires |rx.z| == rx.st.byRef + rx.st.byRaw && ProcessAll(L, y, rx, ds).0 == OK
    ensures Extends(ProcessAll(L, y, rx, ds).1.z, rx.z, y, L, ds)
    decreases |ds|
  {
    if ds != [] {
      NoneInTail(ds);
      ProcessCons(L, y, rx, ds);
      var rx' := ProcessDenotes(L, y, rx, ds[0]);
      ProcessAllDenotes(L, total, y, done + Size(ds[0]), rx', ds[1..]);
      ExtendsCons(ProcessAll(L, y, rx', ds[1..]).1.z, rx.z, rx'.z, y, L, ds);
    }
  }

  /** Without a ZERO_DIFF processing succeeds with x exactly when the elements spell x. */
  lemma RebuildsExactly(L: nat, x: seq<byte>, y: seq<byte>, ds: seq<Delta>)
    requires L > 0 && Chain(L, |x|, 0, ds) && Covered(ds) == |x| && !HasZeroDiff(ds)
    ensures var (err, rx) := ProcessAll(L, y, EMPTY, ds);
            err == OK && rx.z == x <==> Spells(y, L, ds, x)
  {
    assert x[0..|x|] == x;
    if Spells(y, L, ds, x) {
      ProcessAllSpelled(L, x, y, 0, EMPTY, ds);
    }
    if ProcessAll(L, y, EMPTY, ds).0 == OK {
      ProcessAllDenotes(L, |x|, y, 0, EMPTY, ds);
      var z := ProcessAll(L, y, EMPTY, ds).1.z;
      assert z[0..] == z;
    }
  }

  // ----- what the elements of a run denote ----------------------------------------------

  lemma RangesBoth(y: seq<byte>, L: nat, a: seq<Delta>, b: seq<Delta>, x: seq<byte>, mid: nat, to: nat)
    requires mid == Covered(a) && mid <= to <= |x|
    ensures SpellsRange(y, L, a + b, x, 0, to) <==> SpellsRange(y, L, a, x, 0, mid) && SpellsRange(y, L, b, x, mid, to)
  {
    SpellsBoth(y, L, a, b, x[0..mid], x[mid..to]);
    assert x[0..mid] + x[mid..to] == x[0..to];
  }

  ghost predicate HonestAt(p: Params, x: seq<byte>, y: seq<byte>, hits: seq<Option<nat>>, i: nat)
    requires p.Valid() && i < |hits|
  {
    Honest(p, x, y, ProbeAt(p, x, hits, i), hits[i])
  }

  /** No iteration of the run made a false reference. */
  ghost predicate AllHonest(p: Params, x: seq<byte>, y: seq<byte>, hits: seq<Option<nat>>)
    requires p.Valid()
  {
    forall i | 0 <= i < |hits| :: HonestAt(p, x, y, hits, i)
  }

  lemma HonestOfPrefix(p: Params, x: seq<byte>, y: seq<byte>, hits: seq<Option<nat>>, n: nat, i: nat)
    requires p.Valid() && i < n <= |hits|
    ensures HonestAt(p, x, y, hits[..n], i) <==> HonestAt(p, x, y, hits, i)
  {
    ProbeOfPrefix(p, x, hits, n, i);
  }

  lemma AllHonestSnoc(p: Params, x: seq<byte>, y: seq<byte>, hits: seq<Option<nat>>, n: nat)
    requires p.Valid() && |hits| == n + 1
    ensures AllHonest(p, x, y, hits) <==> AllHonest(p, x, y, hits[..n]) && HonestAt(p, x, y, hits, n)
  {
    forall i | 0 <= i < n
      ensures HonestAt(p, x, y, hits[..n], i) <==> HonestAt(p, x, y, hits, i)
    {
      HonestOfPrefix(p, x, y, hits, n, i);
    }
  }

  /** Everything emitted denotes x up to the buffered literals exactly when every hit was true. */
  lemma {:induction false} SpellsExactly(p: Params, x: seq<byte>, y: seq<byte>, hits: seq<Option<nat>>)
    requires p.Valid() && x != []
    ensures var (r, ds) := Produce(p, x, hits);
            Emitted(r) >= 0 && (SpellsRange(y, p.L, ds, x, 0, Emitted(r)) <==> AllHonest(p, x, y, hits))
  {
    if hits != [] {
      var n := |hits| - 1;
      var (r, ds) := Produce(p, x, hits[..n]);
      SpellsExactly(p, x, y, hits[..n]);
      AllHonestSnoc(p, x, y, hits, n);
      ProduceShape(p, x, hits[..n]);
      if r.pos < |x| {
        var (r', es) := Advance(p, x, r, hits[n]);
        AdvanceShape(p, x, r, hits[n], ds);
        AdvanceHonest(p, x, y, r, hits[n]);
        RangesBoth(y, p.L, ds, es, x, Emitted(r), Emitted(r'));
      }
    }
  }

  lemma ZeroDiffGives(L: nat, x: seq<byte>, y: seq<byte>, ref: nat)
    requires x != []
    ensures var (err, rx) := ProcessAll(L, y, EMPTY, [ZeroDiff(ref, |x|)]);
            err == OK && rx.z == x <==> x <= y
  {
    var d := ZeroDiff(ref, |x|);
    assert [d][1..] == [];
    if |x| <= |y| {
      assert CopyRange(y, 0, |x|, [], 0) == y[..|x|];
    }
  }

  /** A finished local push, whatever collided: processing succeeds with x if and only if every
      reference was true, or, after a ZERO_DIFF, x is a prefix of y. */
  lemma PushExactly(p: Params, x: seq<byte>, y: seq<byte>, hits: seq<Option<nat>>)
    requires p.Valid() && x != [] && Produce(p, x, hits).0.pos == |x|
    ensures var ds := Produce(p, x, hits).1; var (err, rx) := ProcessAll(p.L, y, EMPTY, ds);
            err == OK && rx.z == x <==> if HasZeroDiff(ds) then x <= y else AllHonest(p, x, y, hits)
  {
    var ds := Produce(p, x, hits).1;
    ProduceShape(p, x, hits);
    SpellsExactly(p, x, y, hits);
    if HasZeroDiff(ds) {
      assert hits != [];
      ZeroDiffWhen(p, x, hits);
      ZeroDiffGives(p.L, x, y, ds[0].ref);
    } else {
      RebuildsExactly(p.L, x, y, ds);
      assert x[0..|x|] == x;
    }
  }

  /** Without a collision every reference is true. */
  lemma NoCollisionIsHonest(p: Params, strong: Strong, x: seq<byte>, y: seq<byte>, hits: seq<Option<nat>>, tables: seq<seq<Entry>>)
    requires FinishedPush(p, strong, x, y, hits, tables)
    ensures AllHonest(p, x, y, hits)
  {
    ProduceSpells(p, strong, x, y, hits, tables);
    SpellsExactly(p, x, y, hits);
  }
}
