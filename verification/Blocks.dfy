/** The non-overlapping blocks of the reference file y and their checksum entries. */
module Blocks {
  import opened Machine
  import opened Checksum

  /** rm_md5 seen as a function; the roller never looks inside it. */
  type Strong = seq<byte> -> seq<byte>

  /** struct rm_ch_ch_ref: both checksums of a block and its number. */
  datatype Entry = Entry(fch: Check, sch: seq<byte>, ref: nat)

  /** The byte offset of block k, k * L. */
  function Offset(k: nat, L: nat): nat { if k == 0 then 0 else Offset(k - 1, L) + L }

  lemma {:induction false} OffsetIsProduct(k: nat, L: nat)
    ensures Offset(k, L) == k * L
  {
    if k > 0 {
      OffsetIsProduct(k - 1, L);
      MulDistributes(k - 1, 1, L);
    }
  }

  /** How many blocks of L bytes, the last one possibly shorter, a file of n bytes has. */
  function BlockCount(n: nat, L: nat): nat
    requires L > 0
  {
    if n == 0 then 0 else 1 + BlockCount(n - Min(L, n), L)
  }

  lemma OneBlockMore(n: nat, L: nat)
    requires 0 < L <= n
    ensures n / L == (n - L) / L + 1 && n % L == (n - L) % L
  {
    var q, r := (n - L) / L, (n - L) % L;
    MulDistributes(q, 1, L);
    QuotientUnique(n, q + 1, r, L);
  }

  lemma OneShortBlock(n: nat, L: nat)
    requires 0 <= n < L
    ensures n / L == 0 && n % L == n && BlockCount(n, L) == if n != 0 then 1 else 0
  {
    QuotientUnique(n, 0, n, L);
    assert BlockCount(0, L) == 0;
  }

  /** The count both ends compute: y_sz / L + (y_sz % L ? 1 : 0). */
  lemma {:induction false} BlockCountIsCeiling(n: nat, L: nat)
    requires L > 0
    ensures BlockCount(n, L) == n / L + if n % L != 0 then 1 else 0
  {
    if n < L {
      OneShortBlock(n, L);
    } else {
      BlockCountIsCeiling(n - L, L);
      OneBlockMore(n, L);
    }
  }

  lemma {:induction false} OffsetGrows(k: nat, L: nat)
    ensures Offset(k + 1, L) == Offset(k, L) + L
  {
  }

  /** k is a block number exactly when the byte at its offset exists. */
  lemma {:induction false} BlockNumber(n: nat, L: nat, k: nat)
    requires L > 0
    ensures k < BlockCount(n, L) <==> Offset(k, L) < n
  {
    if k > 0 && n > 0 {
      BlockNumber(n - Min(L, n), L, k - 1);
      OffsetGrows(k - 1, L);
    }
  }

  function Block(y: seq<byte>, L: nat, k: nat): (b: seq<byte>)
    requires L > 0 && k < BlockCount(|y|, L)
    ensures Offset(k, L) < |y| && b == y[Offset(k, L)..Min(Offset(k, L) + L, |y|)] && 0 < |b| <= L
  {
    BlockNumber(|y|, L, k);
    y[Offset(k, L)..Min(Offset(k, L) + L, |y|)]
  }

  /** Bytes of a file of n bytes after its first k blocks. */
  function Remaining(n: nat, L: nat, k: nat): nat { n - Min(Offset(k, L), n) }

  /** Reading one more block: its length, what is left after it, and whether it was the last. */
  lemma ReadBlock(y: seq<byte>, L: nat, k: nat)
    requires L > 0 && k < BlockCount(|y|, L)
    ensures var left := Remaining(|y|, L, k);
            && |Block(y, L, k)| == Min(L, left)
            && Remaining(|y|, L, k + 1) == left - Min(L, left)
            && (Remaining(|y|, L, k + 1) == 0 <==> k + 1 == BlockCount(|y|, L))
  {
    BlockNumber(|y|, L, k);
    BlockNumber(|y|, L, k + 1);
  }

  function EntryOf(strong: Strong, y: seq<byte>, L: nat, k: nat): Entry
    requires L > 0 && k < BlockCount(|y|, L)
  {
    Entry(FastCheck(Block(y, L, k)), strong(Block(y, L, k)), k)
  }

  /** The whole checksum table of y, in block order. */
  function Entries(strong: Strong, y: seq<byte>, L: nat): (es: seq<Entry>)
    requires L > 0
    ensures |es| == BlockCount(|y|, L)
    ensures forall k :: 0 <= k < |es| ==> es[k] == EntryOf(strong, y, L, k)
  {
    seq(BlockCount(|y|, L), k requires 0 <= k < BlockCount(|y|, L) => EntryOf(strong, y, L, k))
  }

  function JoinBlocks(y: seq<byte>, L: nat, k: nat): seq<byte>
    requires L > 0 && k <= BlockCount(|y|, L)
  {
    if k == 0 then [] else JoinBlocks(y, L, k - 1) + Block(y, L, k - 1)
  }

  lemma SlicesMeet(y: seq<byte>, a: nat, b: nat)
    requires a <= b <= |y|
    ensures y[..a] + y[a..b] == y[..b]
  {
  }

  /** Where a block ends, the next boundary or the end of y follows. */
  lemma BlockEnd(y: seq<byte>, L: nat, k: nat)
    requires L > 0 && k < BlockCount(|y|, L)
    ensures Offset(k, L) <= Min(Offset(k + 1, L), |y|)
    ensures Block(y, L, k) == y[Offset(k, L)..Min(Offset(k + 1, L), |y|)]
  {
    BlockNumber(|y|, L, k);
    OffsetGrows(k, L);
  }

  lemma {:induction false} FirstBlocks(y: seq<byte>, L: nat, k: nat)
    requires L > 0 && k <= BlockCount(|y|, L)
    ensures JoinBlocks(y, L, k) == y[..Min(Offset(k, L), |y|)]
  {
    if k > 0 {
      FirstBlocks(y, L, k - 1);
      BlockNumber(|y|, L, k - 1);
      BlockEnd(y, L, k - 1);
      SlicesMeet(y, Offset(k - 1, L), Min(Offset(k, L), |y|));
    }
  }

  /** The blocks partition y: joined in order they give y back. */
  lemma BlocksPartition(y: seq<byte>, L: nat, k: nat)
    requires L > 0 && k <= BlockCount(|y|, L)
    ensures JoinBlocks(y, L, k) == y[..Min(Offset(k, L), |y|)]
    ensures k == BlockCount(|y|, L) ==> JoinBlocks(y, L, k) == y
  {
    FirstBlocks(y, L, k);
    BlockNumber(|y|, L, k);
    SlicesMeet(y, Min(Offset(k, L), |y|), |y|);
    assert y[..|y|] == y;
  }

  /** Whether an entry carries the checksums of the window w. */
  predicate Matches(strong: Strong, e: Entry, w: seq<byte>) {
    e.fch == FastCheck(w) && e.sch == strong(w)
  }

  /** A correct answer of the lookup: the number of some matching entry, or none when no
      entry of the table matches. Which of several matches is reported is left open. */
  predicate Legit(strong: Strong, table: seq<Entry>, w: seq<byte>, hit: Option<nat>) {
    match hit
    case None => forall i | 0 <= i < |table| :: !Matches(strong, table[i], w)
    case Some(ref) => exists i | 0 <= i < |table| :: Matches(strong, table[i], w) && table[i].ref == ref
  }

  /** The same, field by field: none when no entry has both checksums of the window, and else the
      number of one that has both. */
  lemma LegitMeans(strong: Strong, table: seq<Entry>, w: seq<byte>, hit: Option<nat>)
    ensures Legit(strong, table, w, hit) <==>
      match hit
      case None => forall e | e in table :: e.fch != FastCheck(w) || e.sch != strong(w)
      case Some(ref) => exists e | e in table :: e.fch == FastCheck(w) && e.sch == strong(w) && e.ref == ref
  {
    if hit.Some? {
      if e :| e in table && e.fch == FastCheck(w) && e.sch == strong(w) && e.ref == hit.value {
        var i :| 0 <= i < |table| && table[i] == e;
        assert Matches(strong, table[i], w);
      }
    } else {
      assert Legit(strong, table, w, hit) ==> forall e | e in table :: !Matches(strong, e, w);
    }
  }

  lemma LegitHitExists(strong: Strong, table: seq<Entry>, w: seq<byte>) returns (hit: Option<nat>)
    ensures Legit(strong, table, w, hit)
  {
    if i :| 0 <= i < |table| && Matches(strong, table[i], w) {
      hit := Some(table[i].ref);
    } else {
      hit := None;
    }
  }
}
