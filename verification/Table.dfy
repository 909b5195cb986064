/** The bucketed hashtable of block checksums, its construction from y, and the lookup. */
module Table {
  import opened Machine
  import opened Checksum
  import opened Blocks
  import opened Channel
  import opened Files
  import opened Tcp

  /** twhash_min on the fast checksum, for whatever function it is. */
  type BucketOf = Check -> nat

  class Hashtable {
    const buckets: array<seq<Entry>>
    const bucketOf: BucketOf
    ghost var entries: seq<Entry>   // everything inserted, in order

    ghost predicate Valid()
      reads this, buckets
    {
      && (forall c: Check :: bucketOf(c) < buckets.Length)
      && (forall b, e :: 0 <= b < buckets.Length ==>
            (e in buckets[b] <==> e in entries && bucketOf(e.fch) == b))
    }

    constructor (bucketOf: BucketOf, size: nat)
      requires forall c: Check :: bucketOf(c) < size
      ensures Valid() && fresh(buckets) && entries == [] && this.bucketOf == bucketOf
    {
      this.bucketOf := bucketOf;
      buckets := new seq<Entry>[size](i => []);
      entries := [];
    }

    /** twhash_add_bits */
    method Insert(e: Entry)
      requires Valid()
      modifies this, buckets
      ensures Valid() && entries == old(entries) + [e]
    {
      var b := bucketOf(e.fch);
      buckets[b] := [e] + buckets[b];
      entries := entries + [e];
    }

    /** Entries another thread inserts while the caller does not hold the table's mutex. */
    method InsertAll(es: seq<Entry>)
      requires Valid()
      modifies this, buckets
      ensures Valid() && entries == old(entries) + es
    {
      var i := 0;
      while i < |es|
        invariant 0 <= i <= |es| && Valid() && entries == old(entries) + es[..i]
      {
        Insert(es[i]);
        i := i + 1;
      }
      assert es[..i] == es;
    }
  }

  /** The lookup of one window: scan the bucket of its fast checksum, and only on a fast match
      read the window again into buf and compare strong checksums. The answer agrees with a
      scan of everything ever inserted. */
  method Probe(h: Hashtable, strong: Strong, fch: Check, x: seq<byte>, pos: nat, read: nat, buf: array<byte>)
    returns (hit: Option<nat>, reread: bool)
    requires h.Valid() && pos + read <= |x| && read <= buf.Length
    requires fch == FastCheck(x[pos..pos + read])
    modifies buf
    ensures Legit(strong, h.entries, x[pos..pos + read], hit)
    ensures var w := x[pos..pos + read];
            && (hit.None? <==> forall e | e in h.entries :: e.fch != FastCheck(w) || e.sch != strong(w))
            && (hit.Some? ==> exists e | e in h.entries ::
                  e.fch == FastCheck(w) && e.sch == strong(w) && e.ref == hit.value)
    ensures !reread ==> buf[..] == old(buf[..])
  {
    ghost var w := x[pos..pos + read];
    var bucket := h.buckets[h.bucketOf(fch)];
    hit, reread := None, false;
    var i := 0;
    while i < |bucket|
      invariant 0 <= i <= |bucket|
      invariant forall j :: 0 <= j < i ==> bucket[j].fch != fch || bucket[j].sch != strong(w)
      invariant hit == None && (!reread ==> buf[..] == old(buf[..]))
    {
      if bucket[i].fch == fch {
        var err := CopyBuffered2(x, pos, buf, read);
        reread := true;
        assert buf[..read] == w;
        if bucket[i].sch == strong(buf[..read]) {
          hit := Some(bucket[i].ref);
          LegitMeans(strong, h.entries, w, hit);
          return;
        }
      }
      i := i + 1;
    }
    forall e | e in h.entries
      ensures e.fch != fch || e.sch != strong(w)
    {
      if e.fch == fch {
        assert e in bucket;
      }
    }
    LegitMeans(strong, h.entries, w, None);
  }

  /** Both checksums of block k of y. */
  method Checksums(y: seq<byte>, strong: Strong, L: nat, k: nat, now: nat, buf: array<byte>) returns (e: Entry)
    requires L > 0 && k < BlockCount(|y|, L) && now == |Block(y, L, k)| <= buf.Length
    modifies buf
    ensures e == EntryOf(strong, y, L, k)
  {
    OffsetIsProduct(k, L);
    var read := Fpread(buf, now, L * k, y);
    assert buf[..read] == Block(y, L, k);
    var fch := FastCheckBlock(buf, read);
    e := Entry(fch, strong(buf[..read]), k);
  }

  lemma NextEntry(es: seq<Entry>, k: nat, e: Entry)
    requires k < |es| && e == es[k]
    ensures es[..k + 1] == es[..k] + [e]
    ensures Frames(es[..k + 1]) == Frames(es[..k]) + Frame(e)
  {
    assert es[..k + 1] == es[..k] + [e];
    FramesConcat(es[..k], [e]);
    FramesOne(e);
  }

  /** The table after n entries were inserted. */
  ghost predicate Indexed(h: Hashtable?, before: seq<Entry>, es: seq<Entry>, n: nat)
    reads h, if h == null then {} else {h.buckets}
  {
    h != null ==> n <= |es| && h.Valid() && h.entries == before + es[..n]
  }

  /** A proper beginning of the frame was sent. */
  ghost predicate SentPart(out: seq<byte>, before: seq<byte>, frame: seq<byte>) {
    exists k :: 0 <= k < |frame| && out == before + frame[..k]
  }

  /** The stream after n entries were sent, and when `part`, the next one in part. */
  ghost predicate Sent(out: seq<byte>, before: seq<byte>, es: seq<Entry>, n: nat, part: bool) {
    if n > |es| then false
    else if part then n < |es| && SentPart(out, before + Frames(es[..n]), Frame(es[n]))
    else out == before + Frames(es[..n])
  }

  /** One block: both checksums, onto the wire if there is one, then into the table if there is
      one. A failed transmission leaves the table as it was and part of the frame on the wire. */
  method InsertBlock(y: seq<byte>, h: Hashtable?, sock: Socket?, strong: Strong, L: nat, k: nat, now: nat, buf: array<byte>)
    returns (ok: bool)
    requires L > 0 && k < BlockCount(|y|, L) && now == |Block(y, L, k)| <= buf.Length
    requires h != null ==> h.Valid()
    requires sock != null ==> Sized(strong)
    modifies h, if h == null then {} else {h.buckets}, sock, buf
    ensures !ok ==> sock != null && !old(sock.Sound())
    ensures sock != null && old(sock.Sound()) ==> sock.Sound()
    ensures sock != null && ok ==> sock.outgoing == old(sock.outgoing) + Frame(EntryOf(strong, y, L, k))
    ensures !ok ==> SentPart(sock.outgoing, old(sock.outgoing), Frame(EntryOf(strong, y, L, k)))
    ensures h != null ==> h.Valid() && h.entries == old(h.entries) + if ok then [EntryOf(strong, y, L, k)] else []
  {
    var e := Checksums(y, strong, L, k, now, buf);
    ok := true;
    if sock != null {
      ok := TxChCh(sock, e);
    }
    if ok && h != null {
      h.Insert(e);
    }
  }

  lemma NextInserted(h: Hashtable?, before: seq<Entry>, es: seq<Entry>, n: nat)
    requires n < |es| && (h != null ==> h.Valid() && h.entries == before + es[..n] + [es[n]])
    ensures Indexed(h, before, es, n + 1)
  {
    assert es[..n + 1] == es[..n] + [es[n]];
  }

  lemma NextSent(out: seq<byte>, before: seq<byte>, es: seq<Entry>, n: nat)
    requires n < |es| && out == before + Frames(es[..n]) + Frame(es[n])
    ensures Sent(out, before, es, n + 1, false)
  {
    NextEntry(es, n, es[n]);
    Associate(before, Frames(es[..n]), Frame(es[n]));
  }

  /** What the loop has done to table and stream. */
  ghost predicate Inserted(h: Hashtable?, sock: Socket?, table: seq<Entry>, out: seq<byte>, es: seq<Entry>, n: nat, part: bool)
    reads h, if h == null then {} else {h.buckets}, sock
  {
    Indexed(h, table, es, n) && (sock != null ==> Sent(sock.outgoing, out, es, n, part))
  }

  /** One more block, seen from the beginning of the loop. */
  method InsertNext(y: seq<byte>, h: Hashtable?, sock: Socket?, strong: Strong, L: nat, k: nat, now: nat, buf: array<byte>,
                    ghost table: seq<Entry>, ghost out: seq<byte>)
    returns (ok: bool)
    requires L > 0 && k < BlockCount(|y|, L) && now == |Block(y, L, k)| <= buf.Length
    requires sock != null ==> Sized(strong)
    requires Inserted(h, sock, table, out, Entries(strong, y, L), k, false)
    modifies h, if h == null then {} else {h.buckets}, sock, buf
    ensures !ok ==> sock != null && !old(sock.Sound())
    ensures sock != null && old(sock.Sound()) ==> sock.Sound()
    ensures Inserted(h, sock, table, out, Entries(strong, y, L), if ok then k + 1 else k, !ok)
  {
    ok := InsertBlock(y, h, sock, strong, L, k, now, buf);
    if ok {
      NextInserted(h, table, Entries(strong, y, L), k);
      if sock != null {
        NextSent(sock.outgoing, out, Entries(strong, y, L), k);
      }
    }
  }

  /** The counters of the loop with n blocks done. */
  ghost predicate Counted(size: nat, L: nat, limit: nat, n: nat, left: nat, now: nat, more: bool)
    requires L > 0
  {
    && n <= BlockCount(size, L) && left == Remaining(size, L, n) && (left == 0 <==> n == BlockCount(size, L))
    && now == Min(L, left) && (more <==> n == 0 || (now > 0 && n < limit)) && (n > 0 ==> n <= Max(1, limit))
  }

  lemma CountedNext(size: nat, L: nat, limit: nat, n: nat, left: nat, now: nat)
    requires L > 0 && Counted(size, L, limit, n, left, now, true) && n < BlockCount(size, L)
    requires Remaining(size, L, n + 1) == left - now && (left == now <==> n + 1 == BlockCount(size, L))
    ensures var next := Min(L, left - now);
            next <= now && Counted(size, L, limit, n + 1, left - now, next, next > 0 && n + 1 < limit)
  {
  }

  /** One block read: its length is what the loop asks for, and the counters move on. */
  lemma CountedStep(y: seq<byte>, L: nat, limit: nat, n: nat, left: nat, now: nat)
    requires L > 0 && y != [] && Counted(|y|, L, limit, n, left, now, true)
    ensures n < BlockCount(|y|, L) && now == |Block(y, L, n)| <= left
    ensures var next := Min(L, left - now);
            next <= now && Counted(|y|, L, limit, n + 1, left - now, next, next > 0 && n + 1 < limit)
  {
    if n == 0 {
      BlockNumber(|y|, L, 0);
    }
    ReadBlock(y, L, n);
    CountedNext(|y|, L, limit, n, left, now);
  }

  /** The do/while loop: blocks counts those done, also when a transmission fails. */
  method InsertBlocks(y: seq<byte>, h: Hashtable?, strong: Strong, L: nat, sock: Socket?, limit: nat,
                      ghost table: seq<Entry>, ghost out: seq<byte>)
    returns (ok: bool, blocks: nat)
    requires L > 0 && y != []
    requires sock != null ==> Sized(strong)
    requires Inserted(h, sock, table, out, Entries(strong, y, L), 0, false)
    modifies h, if h == null then {} else {h.buckets}, sock
    ensures blocks <= BlockCount(|y|, L)
    ensures ok ==> blocks == Max(1, Min(limit, BlockCount(|y|, L)))
    ensures !ok ==> sock != null && !old(sock.Sound())
    ensures sock != null && old(sock.Sound()) ==> sock.Sound()
    ensures Inserted(h, sock, table, out, Entries(strong, y, L), blocks, !ok)
  {
    ghost var es := Entries(strong, y, L);
    blocks, ok := 0, true;
    var left: nat := |y|;
    var now: nat := Min(L, left);
    var buf := new byte[now](i => 0);
    var more := true;
    while more
      invariant Counted(|y|, L, limit, blocks, left, now, more) && now <= buf.Length && fresh(buf)
      invariant Inserted(h, sock, table, out, es, blocks, false)
      invariant sock != null && old(sock.Sound()) ==> sock.Sound()
      decreases left
    {
      CountedStep(y, L, limit, blocks, left, now);
      ok := InsertNext(y, h, sock, strong, L, blocks, now, buf, table, out);
      if !ok {
        return;
      }
      blocks := blocks + 1;
      left := left - now;
      now := Min(L, left);
      more := now > 0 && blocks < limit;
    }
  }

  /** rm_rx_insert_nonoverlapping_ch_ch_ref: checksums of the blocks of y into the table, onto
      the wire, or both. When a transmission fails the blocks before it are in both. */
  method InsertNonoverlapping(fd: int, y: seq<byte>, h: Hashtable?, strong: Strong, L: nat, sock: Socket?, limit: nat)
    returns (err: Error, blocks: nat)
    requires h != null ==> h.Valid()
    requires sock != null ==> Sized(strong)
    modifies h, if h == null then {} else {h.buckets}, sock
    ensures err == BadCall <==> L == 0 || fd < 0
    ensures err == OK || err == BadCall || (err == Tx && sock != null && !old(sock.Sound()))
    ensures sock != null && old(sock.Sound()) ==> sock.Sound()
    ensures err == BadCall ==> blocks == 0 && (h != null ==> h.Valid() && h.entries == old(h.entries))
                               && (sock != null ==> sock.outgoing == old(sock.outgoing))
    ensures err == OK ==> blocks == if y == [] then 0 else Max(1, Min(limit, BlockCount(|y|, L)))
    ensures err != BadCall ==> blocks <= BlockCount(|y|, L)
    ensures err != BadCall && h != null ==> Indexed(h, old(h.entries), Entries(strong, y, L), blocks)
    ensures err != BadCall && sock != null ==> Sent(sock.outgoing, old(sock.outgoing), Entries(strong, y, L), blocks, err == Tx)
  {
    blocks := 0;
    if L == 0 || fd < 0 {
      return BadCall, blocks;
    }
    ghost var table := if h == null then [] else h.entries;
    ghost var out := if sock == null then [] else sock.outgoing;
    assert Frames(Entries(strong, y, L)[..0]) == [];
    if |y| == 0 {
      return OK, blocks;
    }
    var ok;
    ok, blocks := InsertBlocks(y, h, strong, L, sock, limit, table, out);
    err := if ok then OK else Tx;
  }
}
