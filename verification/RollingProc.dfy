/** rm_rolling_ch_proc as written: cursors, the possibly stale block buffer, the literal buffer
    and the rolled checksum, proved to follow the roller of module Roller step by step. */
module RollingProc {
  import opened Machine
  import opened Checksum
  import opened Blocks
  import opened Roller
  import opened Receiver
  import opened Files
  import opened Table

  /** The parts of struct rm_session and its private push data that producing deltas touches. */
  class PushSession {
    const p: Params              // rec_ctx parameters; whether a table exists is told at the call
    const remote: bool           // RM_PUSH_TX rather than RM_PUSH_LOCAL
    var queue: seq<Delta>        // tx_delta_e_queue
    var stats: Stats             // rec_ctx counters of the transmitter
    var copyAllFired: bool
    var copyTailFired: bool

    constructor (p: Params, remote: bool)
      ensures this.p == p && this.remote == remote && queue == [] && stats == NOTHING
    {
      this.p, this.remote := p, remote;
      queue, stats := [], NOTHING;
      copyAllFired, copyTailFired := false, false;
    }

    /** rm_roll_proc_cb_1: count the element if this end is the real transmitter, enqueue it. */
    method Enqueue(d: Delta)
      modifies `queue, `stats
      ensures queue == old(queue) + [d]
      ensures stats == if remote then Count(p.L, old(stats), d) else old(stats)
    {
      if remote {
        match d {
          case Reference(_, _) => stats := stats.(byRef := stats.byRef + p.L, refN := stats.refN + 1);
          case Raw(bytes) => stats := stats.(byRaw := stats.byRaw + |bytes|, rawN := stats.rawN + 1);
          case ZeroDiff(_, n) =>
            stats := stats.(byRef := stats.byRef + n, refN := stats.refN + 1,
                            byZero := stats.byZero + n, zeroN := stats.zeroN + 1);
          case Tail(_, n) =>
            stats := stats.(byRef := stats.byRef + n, refN := stats.refN + 1, byTail := stats.byTail + n);
            stats := stats.(tailN := stats.tailN + 1);
            stats := stats.(tailN := 1);
        }
      }
      queue := queue + [d];
    }
  }

  // ----- the window ---------------------------------------------------------------------

  /** read, read_begin, beginning_bytes_in_buf, ch.f_ch, a_k_pos and a_kL_pos. */
  datatype Cursor = Cursor(read: nat, readBegin: nat, inBuf: bool, fch: Check, akPos: nat, akLPos: nat)

  /** What the cursors say once a window has been set up at `pos`. */
  ghost predicate AtWindow(L: nat, x: seq<byte>, pos: nat, c: Cursor)
    requires L > 0 && pos < |x|
  {
    && c.akPos == pos && c.akLPos == Min(|x| - 1, pos + L)
    && c.read == Min(L, |x| - pos) && c.fch == FastCheck(Window(L, x, pos))
  }

  /** The block buffer still holds the beginning of x whenever the flag claims so. */
  ghost predicate BufferOk(L: nat, x: seq<byte>, c: Cursor, buf: seq<byte>) {
    && |buf| == L && c.readBegin <= Min(L, |x|)
    && (c.inBuf ==> buf[..c.readBegin] == x[..c.readBegin])
  }

  /** Where the cursors are before an iteration that starts at `pos`. */
  ghost predicate Ready(L: nat, x: seq<byte>, pos: nat, matched: bool, c: Cursor, ak: byte)
    requires L > 0 && pos < |x|
  {
    if matched then c.akLPos == pos
    else pos > 0 && AtWindow(L, x, pos - 1, c) && ak == x[pos - 1]
  }

  lemma WindowShift(L: nat, x: seq<byte>, pos: nat)
    requires L > 0 && pos + 1 < |x|
    ensures pos + L < |x| ==> Window(L, x, pos + 1) == Window(L, x, pos)[1..] + [x[pos + L]]
    ensures pos + L >= |x| ==> Window(L, x, pos + 1) == Window(L, x, pos)[1..]
    ensures Window(L, x, pos)[0] == x[pos]
  {
  }

  /** The shifted checksum, by whichever of the two rolls applies. */
  lemma RolledCheck(L: nat, x: seq<byte>, pos: nat, fch: Check, ak: byte)
    requires 0 < L && |x| < TWO64 && pos + 1 < |x|
    requires fch == FastCheck(Window(L, x, pos)) && ak == x[pos]
    ensures pos + L < |x| ==> FastCheckRoll(fch, ak, x[pos + L], L) == FastCheck(Window(L, x, pos + 1))
    ensures pos + L >= |x| ==> FastCheckRollTail(fch, ak, |x| - pos) == FastCheck(Window(L, x, pos + 1))
  {
    var w := Window(L, x, pos);
    WindowShift(L, x, pos);
    if pos + L < |x| {
      FastCheckRollCorrect(w, x[pos + L]);
    } else {
      FastCheckRollTailCorrect(w);
    }
  }

  /** The byte rolled in, when the window does not yet touch the end of the file. */
  method RollWindow(L: nat, x: seq<byte>, ghost pos: nat, c: Cursor, ak: byte) returns (c': Cursor)
    requires 0 < L && |x| < TWO64 && 0 < pos < |x| && AtWindow(L, x, pos - 1, c) && ak == x[pos - 1]
    ensures AtWindow(L, x, pos, c') && c'.readBegin == c.readBegin && c'.inBuf == c.inBuf
  {
    RolledCheck(L, x, pos - 1, c.fch, ak);
    ghost var next := FastCheck(Window(L, x, pos));
    var read := Max(1, c.akLPos - c.akPos);
    if c.read == L && c.akLPos - c.akPos == L {
      var akL := x[c.akLPos];
      var fch := FastCheckRoll(c.fch, ak, akL, L);
      assert fch == next;
      c' := Cursor(read, c.readBegin, c.inBuf, fch, c.akPos + 1, Min(c.akLPos + 1, |x| - 1));
    } else {
      var fch := FastCheckRollTail(c.fch, ak, c.akLPos - c.akPos + 1);
      assert fch == next;
      c' := Cursor(read, c.readBegin, c.inBuf, fch, c.akPos + 1, c.akLPos);
    }
  }

  /** A fresh read after a match, a full roll, or a shrinking-tail roll: in every case the
      checksum is that of the window at `pos`. */
  method MoveWindow(L: nat, x: seq<byte>, ghost pos: nat, left: nat, matched: bool, c: Cursor, ak: byte, buf: array<byte>)
    returns (c': Cursor)
    requires 0 < L && |x| < TWO64 && pos < |x| && left == |x| - pos
    requires Ready(L, x, pos, matched, c, ak) && BufferOk(L, x, c, buf[..])
    requires c.readBegin == 0 ==> matched && pos == 0
    modifies buf
    ensures AtWindow(L, x, pos, c') && BufferOk(L, x, c', buf[..]) && c'.readBegin > 0
  {
    if matched {
      var read := Fpread(buf, Min(L, left), c.akLPos, x);
      var readBegin, inBuf := c.readBegin, false;
      if readBegin == 0 {
        readBegin, inBuf := read, true;
      }
      var fch := FastCheckBlock(buf, read);
      assert buf[..read] == Window(L, x, pos);
      c' := Cursor(read, readBegin, inBuf, fch, c.akLPos, Min(|x| - 1, c.akLPos + L));
    } else {
      c' := RollWindow(L, x, pos, c, ak);
    }
  }

  // ----- emitting -----------------------------------------------------------------------

  /** The counters after enqueueing es: only the transmitter of a remote push counts here. */
  function Counted(remote: bool, L: nat, st: Stats, es: seq<Delta>): Stats {
    if remote then Tally(L, st, es) else st
  }

  lemma CountedSnoc(remote: bool, L: nat, st: Stats, es: seq<Delta>, d: Delta)
    ensures Counted(remote, L, st, es + [d])
         == if remote then Count(L, Counted(remote, L, st, es), d) else st
    ensures Counted(remote, L, st, []) == st
  {
    TallyConcat(L, st, es, [d]);
    assert [d][1..] == [];
  }

  lemma CountedConcat(remote: bool, L: nat, st: Stats, a: seq<Delta>, b: seq<Delta>)
    ensures Counted(remote, L, st, a + b) == Counted(remote, L, Counted(remote, L, st, a), b)
  {
    TallyConcat(L, st, a, b);
  }

  /** The first rawN bytes of the literal buffer are what the roller has buffered. */
  ghost predicate Literals(raw: seq<byte>, rawBytes: array<byte>, rawN: nat, rawMax: nat)
    reads rawBytes
  {
    rawN == |raw| && (rawN > 0 ==> rawBytes.Length == rawMax && rawN <= rawMax && rawBytes[..rawN] == raw)
  }

  /** Flush the literals, then one more element. */
  method SendTwo(s: PushSession, rawBytes: array<byte>, rawN: nat, ghost raw: seq<byte>, d: Delta)
    requires rawN == |raw| && rawN <= rawBytes.Length && rawBytes[..rawN] == raw
    modifies s`queue, s`stats
    ensures s.queue == old(s.queue) + (Flush(raw) + [d])
    ensures s.stats == Counted(s.remote, s.p.L, old(s.stats), Flush(raw) + [d])
  {
    CountedSnoc(s.remote, s.p.L, s.stats, [], Raw(raw));
    CountedSnoc(s.remote, s.p.L, s.stats, Flush(raw), d);
    assert [] + [Raw(raw)] == [Raw(raw)];
    if rawN > 0 {
      s.Enqueue(Raw(rawBytes[..rawN]));
    }
    s.Enqueue(d);
  }

  /** The elements of a matched window. */
  method SendMatch(s: PushSession, p: Params, x: seq<byte>, read: nat, ref: nat,
                   rawBytes: array<byte>, rawN: nat, ghost raw: seq<byte>, ghost w: seq<byte>)
    requires p.L == s.p.L && read == |w|
    requires rawN == |raw| && rawN <= rawBytes.Length && rawBytes[..rawN] == raw
    modifies s`queue, s`stats
    ensures s.queue == old(s.queue) + (Flush(raw) + [Found(p, x, w, ref)])
    ensures s.stats == Counted(s.remote, s.p.L, old(s.stats), Flush(raw) + [Found(p, x, w, ref)])
  {
    if read == |x| {
      SendTwo(s, rawBytes, rawN, raw, ZeroDiff(ref, |x|));
    } else if read < p.L {
      SendTwo(s, rawBytes, rawN, raw, Tail(ref, read));
    } else {
      SendTwo(s, rawBytes, rawN, raw, Reference(ref, p.L));
    }
  }

  /** copy_tail: the buffered literals and everything from akPos on. */
  method SendRest(s: PushSession, x: seq<byte>, akPos: nat, left: nat, rawBytes: array<byte>, rawN: nat, ghost raw: seq<byte>)
    requires akPos + left == |x| && left > 0
    requires rawN == |raw| && rawN <= rawBytes.Length && rawBytes[..rawN] == raw
    modifies s`queue, s`stats
    ensures s.queue == old(s.queue) + (Flush(raw) + [Raw(x[akPos..])])
    ensures s.stats == Counted(s.remote, s.p.L, old(s.stats), Flush(raw) + [Raw(x[akPos..])])
  {
    var rest := new byte[left](i => 0);
    var err := CopyBuffered2(x, akPos, rest, left);
    assert rest[..left] == x[akPos..];
    SendTwo(s, rawBytes, rawN, raw, Raw(rest[..left]));
  }

  /** After a miss: buffer one literal byte, taken from the old block buffer while that holds it. */
  method BufferByte(s: PushSession, p: Params, x: seq<byte>, c: Cursor, ghost r: Roll, buf: array<byte>,
                    rawBytes: array<byte>, rawN: nat, left: nat)
    returns (rawBytes': array<byte>, rawN': nat, ak: byte)
    requires p.Valid() && p.L == s.p.L && r.pos < |x| && !CopiesRest(p, x, r.pos)
    requires AtWindow(p.L, x, r.pos, c) && BufferOk(p.L, x, c, buf[..])
    requires Literals(r.raw, rawBytes, rawN, Max(p.L, p.send)) && rawN < p.send && left == |x| - r.pos
    requires rawBytes != buf
    modifies s`queue, s`stats, rawBytes
    ensures var (r', es) := Advance(p, x, r, None);
            && s.queue == old(s.queue) + es
            && s.stats == Counted(s.remote, s.p.L, old(s.stats), es)
            && Literals(r'.raw, rawBytes', rawN', Max(p.L, p.send)) && rawN' < p.send
    ensures ak == x[r.pos]
    ensures rawBytes' == rawBytes || fresh(rawBytes')
  {
    rawBytes' := rawBytes;
    if rawN == 0 {
      rawBytes' := new byte[Max(p.L, p.send)](i => 0);
    }
    ak := if c.inBuf && c.akPos < c.readBegin then buf[c.akPos] else x[c.akPos];
    assert ak == x[r.pos] by { if c.inBuf && c.akPos < c.readBegin { assert buf[c.akPos] == buf[..][..c.readBegin][c.akPos]; } }
    rawBytes'[rawN] := ak;
    rawN' := rawN + 1;
    assert rawBytes'[..rawN'] == r.raw + [x[r.pos]];
    if rawN' == p.send || left == 1 {
      CountedSnoc(s.remote, s.p.L, s.stats, [], Raw(rawBytes'[..rawN']));
      assert [] + [Raw(rawBytes'[..rawN'])] == [Raw(rawBytes'[..rawN'])];
      s.Enqueue(Raw(rawBytes'[..rawN']));
      rawN' := 0;
    }
  }

  /** After the lookup: send the match, or buffer one literal byte. */
  method Settle(s: PushSession, p: Params, x: seq<byte>, c: Cursor, hit: Option<nat>, ghost r: Roll, buf: array<byte>,
                rawBytes: array<byte>, rawN: nat, left: nat)
    returns (rawBytes': array<byte>, rawN': nat, left': nat, ak: byte)
    requires p.Valid() && p.L == s.p.L && r.pos < |x| && !CopiesRest(p, x, r.pos)
    requires AtWindow(p.L, x, r.pos, c) && BufferOk(p.L, x, c, buf[..])
    requires Literals(r.raw, rawBytes, rawN, Max(p.L, p.send)) && rawN < p.send && left == |x| - r.pos
    requires rawBytes != buf
    modifies s`queue, s`stats, rawBytes
    ensures var (r', es) := Advance(p, x, r, hit);
            && s.queue == old(s.queue) + es
            && s.stats == Counted(s.remote, s.p.L, old(s.stats), es)
            && Literals(r'.raw, rawBytes', rawN', Max(p.L, p.send)) && rawN' < p.send
            && r'.pos <= |x| && left' == |x| - r'.pos
            && (left' > 0 ==> Ready(p.L, x, r'.pos, hit.Some?, c, ak))
    ensures rawBytes' == rawBytes || fresh(rawBytes')
  {
    if hit.Some? {
      rawBytes', ak := rawBytes, 0;
      if rawN == 0 {
        rawBytes' := new byte[0];
      }
      SendMatch(s, p, x, c.read, hit.value, rawBytes', rawN, r.raw, Window(p.L, x, r.pos));
      rawN', left' := 0, left - c.read;
    } else {
      rawBytes', rawN', ak := BufferByte(s, p, x, c, r, buf, rawBytes, rawN, left);
      left' := left - 1;
    }
  }

  // ----- the procedure ------------------------------------------------------------------

  /** What the checksum receiver has inserted before lookup n, for a given schedule. */
  function Arrived(arrivals: nat -> seq<Entry>, n: nat): seq<Entry> {
    if n == 0 then [] else Arrived(arrivals, n - 1) + arrivals(n - 1)
  }

  /** The table before and during lookup n. */
  function TableAt(before: seq<Entry>, arrivals: nat -> seq<Entry>, n: nat): seq<Entry> {
    before + Arrived(arrivals, n + 1)
  }

  lemma TableNow(before: seq<Entry>, arrivals: nat -> seq<Entry>, n: nat)
    ensures before + Arrived(arrivals, n) + arrivals(n) == TableAt(before, arrivals, n)
  {
    Associate(before, Arrived(arrivals, n), arrivals(n));
  }

  function TablesFor(before: seq<Entry>, arrivals: nat -> seq<Entry>, n: nat): (ts: seq<seq<Entry>>)
    ensures |ts| == n && forall i :: 0 <= i < n ==> ts[i] == TableAt(before, arrivals, i)
  {
    seq(n, i requires 0 <= i < n => TableAt(before, arrivals, i))
  }

  lemma AnsweredSnoc(p: Params, strong: Strong, x: seq<byte>, hits: seq<Option<nat>>, tables: seq<seq<Entry>>,
                     hit: Option<nat>, table: seq<Entry>)
    requires p.Valid() && Answered(p, strong, x, hits, tables)
    requires var pos := Produce(p, x, hits).0.pos;
             pos < |x| && (CopiesRest(p, x, pos) || Legit(strong, table, Window(p.L, x, pos), hit))
    ensures Answered(p, strong, x, hits + [hit], tables + [table])
    ensures var (r, ds) := Produce(p, x, hits); var (r', es) := Advance(p, x, r, hit);
            Produce(p, x, hits + [hit]) == (r', ds + es)
  {
    var all := hits + [hit];
    assert all[..|hits|] == hits;
    forall i | 0 <= i < |hits|
      ensures all[..i] == hits[..i]
    {
    }
  }

  /** The run so far: every lookup was answered from the table of its moment. */
  ghost predicate Ran(p: Params, strong: Strong, x: seq<byte>, hits: seq<Option<nat>>,
                      tables: seq<seq<Entry>>, r: Roll, ds: seq<Delta>) {
    p.Valid() && Answered(p, strong, x, hits, tables) && Produce(p, x, hits) == (r, ds)
  }

  lemma RanStep(p: Params, strong: Strong, x: seq<byte>, hits: seq<Option<nat>>, tables: seq<seq<Entry>>,
                r: Roll, ds: seq<Delta>, hit: Option<nat>, table: seq<Entry>)
    requires Ran(p, strong, x, hits, tables, r, ds)
    requires r.pos < |x| && (CopiesRest(p, x, r.pos) || Legit(strong, table, Window(p.L, x, r.pos), hit))
    ensures var (r', es) := Advance(p, x, r, hit);
            Ran(p, strong, x, hits + [hit], tables + [table], r', ds + es)
  {
    AnsweredSnoc(p, strong, x, hits, tables, hit, table);
  }

  /** Everything the roller emitted is in the queue and in the counters. */
  ghost predicate Sent(s: PushSession, ds: seq<Delta>, queue: seq<Delta>, stats: Stats)
    reads s
  {
    s.queue == queue + ds && s.stats == Counted(s.remote, s.p.L, stats, ds)
  }

  lemma SentStep(s: PushSession, ds: seq<Delta>, es: seq<Delta>, queue: seq<Delta>, stats: Stats)
    requires s.queue == queue + ds + es
    requires s.stats == Counted(s.remote, s.p.L, Counted(s.remote, s.p.L, stats, ds), es)
    ensures Sent(s, ds + es, queue, stats)
  {
    CountedConcat(s.remote, s.p.L, stats, ds, es);
    Associate(queue, ds, es);
  }

  lemma TablesForSnoc(before: seq<Entry>, arrivals: nat -> seq<Entry>, n: nat)
    ensures TablesFor(before, arrivals, n + 1) == TablesFor(before, arrivals, n) + [TableAt(before, arrivals, n)]
  {
  }

  /** The remaining locals of the loop. */
  datatype Locals = Locals(c: Cursor, matched: bool, ak: byte, rawBytes: array<byte>, rawN: nat, left: nat)

  /** How the locals represent the state r of the roller. */
  ghost predicate Represents(p: Params, x: seq<byte>, r: Roll, v: Locals, buf: array<byte>)
    requires p.Valid()
    reads v.rawBytes, buf
  {
    && r.pos <= |x| && v.left == |x| - r.pos && buf.Length == p.L && v.rawBytes != buf
    && Literals(r.raw, v.rawBytes, v.rawN, Max(p.L, p.send)) && v.rawN < p.send
    && (v.left > 0 ==> && Ready(p.L, x, r.pos, v.matched, v.c, v.ak) && BufferOk(p.L, x, v.c, buf[..])
                       && (v.c.readBegin == 0 ==> v.matched && r.pos == 0))
  }

  /** Move the window, then look it up; a second read of the window spoils the buffer. */
  method LookUp(h: Hashtable, L: nat, x: seq<byte>, strong: Strong, ghost pos: nat, v: Locals, buf: array<byte>)
    returns (c: Cursor, hit: Option<nat>)
    requires L > 0 && h.Valid() && |x| < TWO64 && pos < |x| && v.left == |x| - pos
    requires Ready(L, x, pos, v.matched, v.c, v.ak) && BufferOk(L, x, v.c, buf[..])
    requires v.c.readBegin == 0 ==> v.matched && pos == 0
    modifies buf
    ensures Legit(strong, h.entries, Window(L, x, pos), hit)
    ensures AtWindow(L, x, pos, c) && BufferOk(L, x, c, buf[..]) && c.readBegin > 0
  {
    c := MoveWindow(L, x, pos, v.left, v.matched, v.c, v.ak, buf);
    assert Window(L, x, pos) == x[c.akPos..c.akPos + c.read];
    var reread;
    hit, reread := Probe(h, strong, c.fch, x, c.akPos, c.read, buf);
    if reread {
      c := c.(inBuf := false);
    }
  }

  /** One iteration with a lookup. */
  method Look(s: PushSession, h: Hashtable, p: Params, x: seq<byte>, strong: Strong, ghost r: Roll, v: Locals, buf: array<byte>)
    returns (v': Locals, hit: Option<nat>)
    requires p.Valid() && p.L == s.p.L && h.Valid() && |x| < TWO64 && r.pos < |x| && !CopiesRest(p, x, r.pos)
    requires Represents(p, x, r, v, buf)
    modifies s`queue, s`stats, v.rawBytes, buf
    ensures Legit(strong, h.entries, Window(p.L, x, r.pos), hit)
    ensures var (r', es) := Advance(p, x, r, hit);
            && Represents(p, x, r', v', buf)
            && s.queue == old(s.queue) + es && s.stats == Counted(s.remote, s.p.L, old(s.stats), es)
    ensures v'.rawBytes == v.rawBytes || fresh(v'.rawBytes)
  {
    var c;
    c, hit := LookUp(h, p.L, x, strong, r.pos, v, buf);
    var rawBytes, rawN, left, ak := Settle(s, p, x, c, hit, r, buf, v.rawBytes, v.rawN, v.left);
    v' := Locals(c, hit.Some?, ak, rawBytes, rawN, left);
  }

  /** copy_tail reached from inside the loop, from a matched or an unmatched state. */
  method CopyTail(s: PushSession, p: Params, x: seq<byte>, ghost r: Roll, v: Locals, buf: array<byte>)
    requires p.Valid() && p.L == s.p.L && r.pos < |x| && CopiesRest(p, x, r.pos) && Represents(p, x, r, v, buf)
    modifies s`queue, s`stats
    ensures var es := Advance(p, x, r, None).1;
            s.queue == old(s.queue) + es && s.stats == Counted(s.remote, s.p.L, old(s.stats), es)
  {
    var akPos := if !v.matched then v.c.akPos + 1 else v.c.akLPos;
    var rawBytes := v.rawBytes;
    if v.rawN == 0 {
      rawBytes := new byte[0];
    }
    SendRest(s, x, akPos, v.left, rawBytes, v.rawN, r.raw);
  }

  /** One trip around the loop; the copy_tail exit leaves nothing to do. */
  method Iterate(s: PushSession, h: Hashtable, p: Params, x: seq<byte>, strong: Strong, ghost r: Roll, v: Locals, buf: array<byte>)
    returns (v': Locals, hit: Option<nat>, ghost r': Roll, ghost es: seq<Delta>)
    requires p == s.p.(indexed := true) && p.copyAll <= |x|
    requires p.Valid() && h.Valid() && |x| < TWO64 && r.pos < |x| && Represents(p, x, r, v, buf)
    modifies s`queue, s`stats, s`copyTailFired, v.rawBytes, buf
    ensures CopiesRest(p, x, r.pos) || Legit(strong, h.entries, Window(p.L, x, r.pos), hit)
    ensures Advance(p, x, r, hit) == (r', es) && Represents(p, x, r', v', buf)
    ensures s.queue == old(s.queue) + es && s.stats == Counted(s.remote, s.p.L, old(s.stats), es)
    ensures v'.left < v.left && (v'.left == 0 ==> r' == Roll(|x|, []))
    ensures v'.rawBytes == v.rawBytes || fresh(v'.rawBytes)
    ensures s.copyTailFired <==> old(s.copyTailFired) || |x| - r.pos <= p.copyTail
  {
    if v.left <= p.copyTail {
      s.copyTailFired := true;
      CopyTail(s, p, x, r, v, buf);
      v', hit := v.(rawN := 0, left := 0), None;
    } else {
      v', hit := Look(s, h, p, x, strong, r, v, buf);
    }
    r', es := Advance(p, x, r, hit).0, Advance(p, x, r, hit).1;
  }

  lemma RanOn(p: Params, strong: Strong, x: seq<byte>, before: seq<Entry>, arrivals: nat -> seq<Entry>,
              hits: seq<Option<nat>>, r: Roll, ds: seq<Delta>, hit: Option<nat>)
    requires Ran(p, strong, x, hits, TablesFor(before, arrivals, |hits|), r, ds) && r.pos < |x|
    requires CopiesRest(p, x, r.pos) || Legit(strong, TableAt(before, arrivals, |hits|), Window(p.L, x, r.pos), hit)
    ensures var (r', es) := Advance(p, x, r, hit);
            Ran(p, strong, x, hits + [hit], TablesFor(before, arrivals, |hits| + 1), r', ds + es)
  {
    TablesForSnoc(before, arrivals, |hits|);
    RanStep(p, strong, x, hits, TablesFor(before, arrivals, |hits|), r, ds, hit, TableAt(before, arrivals, |hits|));
  }

  lemma RestAdvance(p: Params, x: seq<byte>)
    requires p.Valid() && x != [] && CopiesRest(p, x, 0)
    ensures Advance(p, x, START, None) == (Roll(|x|, []), Flush([]) + [Raw(x[0..])])
  {
  }

  lemma RanNothing(p: Params, strong: Strong, x: seq<byte>, before: seq<Entry>, arrivals: nat -> seq<Entry>)
    requires p.Valid() && x != []
    ensures Ran(p, strong, x, [], TablesFor(before, arrivals, 0), START, [])
  {
  }

  lemma RanOnce(p: Params, strong: Strong, x: seq<byte>, before: seq<Entry>, arrivals: nat -> seq<Entry>)
    returns (hits: seq<Option<nat>>, ds: seq<Delta>)
    requires p.Valid() && x != [] && CopiesRest(p, x, 0)
    ensures |hits| == 1 && hits[0] == None && ds == Flush([]) + [Raw(x[0..])]
    ensures Ran(p, strong, x, hits, TablesFor(before, arrivals, |hits|), Roll(|x|, []), ds)
  {
    RestAdvance(p, x);
    RanNothing(p, strong, x, before, arrivals);
    RanOn(p, strong, x, before, arrivals, [], START, [], None);
    hits, ds := [] + [None], [] + (Flush([]) + [Raw(x[0..])]);
  }

  lemma FiredOnce(p: Params, x: seq<byte>, hits: seq<Option<nat>>)
    requires p.Valid() && |hits| == 1
    ensures TailFired(p, x, hits) <==> |x| <= p.copyTail
  {
    assert hits[..0] == [];
    assert ProbeAt(p, x, hits, 0) == 0;
  }

  /** copy_tail reached before the loop: all of x as one element. */
  method CopyAll(s: PushSession, p: Params, x: seq<byte>, strong: Strong, ghost before: seq<Entry>, arrivals: nat -> seq<Entry>)
    returns (ghost hits: seq<Option<nat>>, ghost ds: seq<Delta>)
    requires p == s.p.(indexed := p.indexed) && p.Valid() && x != [] && CopiesRest(p, x, 0)
    modifies s`queue, s`stats
    ensures Ran(p, strong, x, hits, TablesFor(before, arrivals, |hits|), Roll(|x|, []), ds)
    ensures Sent(s, ds, old(s.queue), old(s.stats)) && (TailFired(p, x, hits) <==> |x| <= p.copyTail)
  {
    var none := new byte[0];
    SendRest(s, x, 0, |x|, none, 0, []);
    hits, ds := RanOnce(p, strong, x, before, arrivals);
    FiredOnce(p, x, hits);
    CountedSnoc(s.remote, s.p.L, old(s.stats), [], Raw(x));
  }

  /** What holds between two trips around the loop. */
  ghost predicate Between(s: PushSession, h: Hashtable, p: Params, x: seq<byte>, strong: Strong, arrivals: nat -> seq<Entry>,
                          hits: seq<Option<nat>>, r: Roll, ds: seq<Delta>,
                          before: seq<Entry>, queue: seq<Delta>, stats: Stats)
    requires p.Valid()
    reads s, h
  {
    && h.entries == before + Arrived(arrivals, |hits|) && !s.copyAllFired && (s.copyTailFired <==> TailFired(p, x, hits))
    && Ran(p, strong, x, hits, TablesFor(before, arrivals, |hits|), r, ds) && Sent(s, ds, queue, stats)
  }

  /** What the checksum receiver inserts before this lookup takes the table's mutex. */
  method Interfere(h: Hashtable, arrivals: nat -> seq<Entry>, step: nat, ghost before: seq<Entry>)
    requires h.Valid() && h.entries == before + Arrived(arrivals, step)
    modifies h, h.buckets
    ensures h.Valid() && h.entries == TableAt(before, arrivals, step)
  {
    h.InsertAll(arrivals(step));
    TableNow(before, arrivals, step);
  }

  /** Let the table grow, then go round once. */
  method Turn(s: PushSession, h: Hashtable, p: Params, x: seq<byte>, strong: Strong, arrivals: nat -> seq<Entry>,
              step: nat, v: Locals, buf: array<byte>, ghost r: Roll, ghost before: seq<Entry>)
    returns (v': Locals, hit: Option<nat>, ghost r': Roll, ghost es: seq<Delta>)
    requires p == s.p.(indexed := true) && p.Valid() && p.copyAll <= |x| < TWO64 && r.pos < |x|
    requires h.Valid() && h.entries == before + Arrived(arrivals, step) && Represents(p, x, r, v, buf)
    modifies s`queue, s`stats, s`copyTailFired, h, h.buckets, v.rawBytes, buf
    ensures h.Valid() && h.entries == TableAt(before, arrivals, step)
    ensures CopiesRest(p, x, r.pos) || Legit(strong, h.entries, Window(p.L, x, r.pos), hit)
    ensures Advance(p, x, r, hit) == (r', es) && Represents(p, x, r', v', buf)
    ensures s.queue == old(s.queue) + es && s.stats == Counted(s.remote, s.p.L, old(s.stats), es)
    ensures v'.left < v.left && (v'.left == 0 ==> r' == Roll(|x|, []))
    ensures v'.rawBytes == v.rawBytes || fresh(v'.rawBytes)
    ensures s.copyTailFired <==> old(s.copyTailFired) || |x| - r.pos <= p.copyTail
  {
    Interfere(h, arrivals, step, before);
    v', hit, r', es := Iterate(s, h, p, x, strong, r, v, buf);
  }

  /** One trip, with the run extended by it. */
  method Trip(s: PushSession, h: Hashtable, p: Params, x: seq<byte>, strong: Strong, arrivals: nat -> seq<Entry>,
              step: nat, v: Locals, buf: array<byte>, ghost hits: seq<Option<nat>>, ghost r: Roll, ghost ds: seq<Delta>,
              ghost before: seq<Entry>, ghost queue: seq<Delta>, ghost stats: Stats)
    returns (v': Locals, ghost hits': seq<Option<nat>>, ghost r': Roll, ghost ds': seq<Delta>)
    requires p == s.p.(indexed := true) && p.Valid() && p.copyAll <= |x| < TWO64 && r.pos < |x|
    requires h.Valid() && step == |hits| && Between(s, h, p, x, strong, arrivals, hits, r, ds, before, queue, stats)
    requires Represents(p, x, r, v, buf)
    modifies s`queue, s`stats, s`copyTailFired, h, h.buckets, v.rawBytes, buf
    ensures h.Valid() && |hits'| == step + 1
    ensures Between(s, h, p, x, strong, arrivals, hits', r', ds', before, queue, stats)
    ensures Represents(p, x, r', v', buf) && v'.left < v.left && (v'.left == 0 ==> r' == Roll(|x|, []))
    ensures v'.rawBytes == v.rawBytes || fresh(v'.rawBytes)
  {
    var hit;
    ghost var es;
    v', hit, r', es := Turn(s, h, p, x, strong, arrivals, step, v, buf, r, before);
    hits', ds' := hits + [hit], ds + es;
    RanOn(p, strong, x, before, arrivals, hits, r, ds, hit);
    TailFiredSnoc(p, x, hits, hit);
    SentStep(s, ds, es, queue, stats);
  }

  /** The do/while loop with the copy_tail exit from inside it. */
  method Loop(s: PushSession, h: Hashtable, p: Params, x: seq<byte>, strong: Strong, arrivals: nat -> seq<Entry>)
    returns (ghost hits: seq<Option<nat>>, ghost ds: seq<Delta>)
    requires p == s.p.(indexed := true) && p.Valid() && h.Valid()
    requires p.copyAll <= |x| && 0 < |x| < TWO64
    modifies s, h, h.buckets
    ensures h.Valid() && !s.copyAllFired && (s.copyTailFired <==> TailFired(p, x, hits))
    ensures Ran(p, strong, x, hits, TablesFor(old(h.entries), arrivals, |hits|), Roll(|x|, []), ds)
    ensures Sent(s, ds, old(s.queue), old(s.stats))
  {
    var buf, rawBytes := new byte[p.L](i => 0), new byte[0];
    var v := Locals(Cursor(0, 0, false, Check(0, 0), 0, 0), true, 0, rawBytes, 0, |x|);
    var step := 0;
    ghost var before, queue, stats := h.entries, s.queue, s.stats;
    ghost var r: Roll := START;
    hits, ds := [], [];
    s.copyAllFired, s.copyTailFired := false, false;
    CountedSnoc(s.remote, p.L, stats, [], Raw([]));
    while v.left > 0
      invariant fresh(buf) && fresh(v.rawBytes) && h.Valid() && step == |hits|
      invariant Between(s, h, p, x, strong, arrivals, hits, r, ds, before, queue, stats)
      invariant Represents(p, x, r, v, buf) && (v.left == 0 ==> r == Roll(|x|, []))
    {
      v, hits, r, ds := Trip(s, h, p, x, strong, arrivals, step, v, buf, hits, r, ds, before, queue, stats);
      step := step + 1;
    }
  }

  lemma EveryProbe(p: Params, strong: Strong, x: seq<byte>, hits: seq<Option<nat>>, tables: seq<seq<Entry>>, ds: seq<Delta>)
    requires Ran(p, strong, x, hits, tables, Roll(|x|, []), ds)
    ensures forall i | 0 <= i < |hits| ::
              var q := ProbeAt(p, x, hits, i);
              q < |x| &&
              if |x| < p.copyAll || !p.indexed || |x| - q <= p.copyTail then
                i == |hits| - 1 && ds != [] && ds[|ds| - 1] == Raw(x[q..])
              else Legit(strong, tables[i], Window(p.L, x, q), hits[i])
  {
    forall i | 0 <= i < |hits|
      ensures var q := ProbeAt(p, x, hits, i);
              q < |x| &&
              if |x| < p.copyAll || !p.indexed || |x| - q <= p.copyTail then
                i == |hits| - 1 && ds != [] && ds[|ds| - 1] == Raw(x[q..])
              else Legit(strong, tables[i], Window(p.L, x, q), hits[i])
    {
      EachProbe(p, strong, x, hits, tables, i);
    }
  }

  /** Past the checks: copy all of x, for either threshold or without a table, or enter the loop. */
  method CopyOrLoop(s: PushSession, h: Hashtable?, x: seq<byte>, strong: Strong, arrivals: nat -> seq<Entry>)
    returns (ghost hits: seq<Option<nat>>, ghost ds: seq<Delta>)
    requires s.p.Valid() && 0 < |x| < TWO64 && (h != null ==> h.Valid())
    modifies s, h, if h == null then {} else {h.buckets}
    ensures h != null ==> h.Valid()
    ensures var p := s.p.(indexed := h != null);
            && Ran(p, strong, x, hits, TablesFor(if h == null then [] else old(h.entries), arrivals, |hits|), Roll(|x|, []), ds)
            && Sent(s, ds, old(s.queue), old(s.stats))
            && (s.copyAllFired <==> |x| < p.copyAll || h == null)
            && (s.copyTailFired <==> !s.copyAllFired && TailFired(p, x, hits))
  {
    if |x| < s.p.copyAll || h == null {
      s.copyAllFired, s.copyTailFired := true, false;
      hits, ds := CopyAll(s, s.p.(indexed := h != null), x, strong, if h == null then [] else h.entries, arrivals);
    } else if |x| <= s.p.copyTail {
      s.copyAllFired, s.copyTailFired := false, true;
      hits, ds := CopyAll(s, s.p.(indexed := true), x, strong, h.entries, arrivals);
    } else {
      hits, ds := Loop(s, h, s.p.(indexed := true), x, strong, arrivals);
    }
  }

  /** rm_rolling_ch_proc started at offset 0, under any schedule of concurrent insertions into
      the table: it enqueues what the roller emits, to the end of x. Every window is looked up and
      correctly answered, until one starts in a short file, without a table or within the copy_tail
      threshold of the end; there the rest goes out as one element. */
  method RollingChProc(s: PushSession, h: Hashtable?, x: seq<byte>, strong: Strong, arrivals: nat -> seq<Entry>)
    returns (err: Error, ghost hits: seq<Option<nat>>, ghost ds: seq<Delta>)
    requires |x| < TWO64 && (h != null ==> h.Valid())
    modifies s, h, if h == null then {} else {h.buckets}
    ensures err == if s.p.L == 0 || s.p.send == 0 then BadCall else if x == [] then TooMuchRequested else OK
    ensures err != OK ==> s.queue == old(s.queue) && s.stats == old(s.stats)
    ensures h != null ==> h.Valid()
    ensures err == OK ==>
      var p := s.p.(indexed := h != null);
      var tables := TablesFor(if h == null then [] else old(h.entries), arrivals, |hits|);
      && Ran(p, strong, x, hits, tables, Roll(|x|, []), ds) && Sent(s, ds, old(s.queue), old(s.stats))
      && (s.copyAllFired <==> |x| < p.copyAll || h == null)
      && (s.copyTailFired <==> !s.copyAllFired && exists i | 0 <= i < |hits| :: |x| - ProbeAt(p, x, hits, i) <= p.copyTail)
      && forall i | 0 <= i < |hits| ::
           var q := ProbeAt(p, x, hits, i);
           q < |x| &&
           if |x| < p.copyAll || h == null || |x| - q <= p.copyTail then
             i == |hits| - 1 && ds != [] && ds[|ds| - 1] == Raw(x[q..])
           else Legit(strong, tables[i], Window(p.L, x, q), hits[i])
  {
    hits, ds := [], [];
    if s.p.L == 0 || s.p.send == 0 {
      return BadCall, hits, ds;
    }
    if |x| == 0 {
      return TooMuchRequested, hits, ds;
    }
    hits, ds := CopyOrLoop(s, h, x, strong, arrivals);
    EveryProbe(s.p.(indexed := h != null), strong, x, hits,
               TablesFor(if h == null then [] else old(h.entries), arrivals, |hits|), ds);
    err := OK;
  }
}
