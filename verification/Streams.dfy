/** Delta elements and checksum frames over sockets: the code that writes them piece by piece and
    the loops that read them back, proved against the formats. */
module Streams {
  import opened Machine
  import opened Checksum
  import opened Blocks
  import opened Roller
  import opened Receiver
  import opened Channel
  import opened Wire
  import opened Serialize
  import opened Tcp

  const TYPE: nat := 1

  // ----- delta elements -----------------------------------------------------------------

  function TypeOf(d: Delta): byte {
    match d
    case Reference(_, _) => REFERENCE
    case Raw(_) => RAW_BYTES
    case ZeroDiff(_, _) => ZERO_DIFF
    case Tail(_, _) => TAIL
  }

  lemma ThreeWrites(out: seq<byte>, a: seq<byte>, b: seq<byte>, c: seq<byte>)
    ensures out + a + b + c == out + (a + b + c)
  {
  }

  /** The transmitter's own counters: the sizes sent, and every TAIL counted. */
  function CountTx(st: Stats, d: Delta): Stats {
    match d
    case Reference(_, n) => st.(byRef := st.byRef + n, refN := st.refN + 1)
    case Raw(bytes) => st.(byRaw := st.byRaw + |bytes|, rawN := st.rawN + 1)
    case ZeroDiff(_, n) =>
      st.(byRef := st.byRef + n, refN := st.refN + 1, byZero := st.byZero + n, zeroN := st.zeroN + 1)
    case Tail(_, n) =>
      st.(byRef := st.byRef + n, refN := st.refN + 1, byTail := st.byTail + n, tailN := st.tailN + 1)
  }

  function TallyTx(st: Stats, ds: seq<Delta>): Stats
    decreases |ds|
  {
    if ds == [] then st else TallyTx(CountTx(st, ds[0]), ds[1..])
  }

  /** On what the roller emits they agree with the counters kept at both ends. */
  lemma {:induction false} TallyTxAgrees(L: nat, total: nat, done: nat, st: Stats, ds: seq<Delta>)
    requires L > 0 && done <= total && Chain(L, total, done, ds) && st.tailN == 0
    ensures TallyTx(st, ds) == Tally(L, st, ds)
    decreases |ds|
  {
    if ds != [] {
      if ds[0].Tail? {
        ChainShape(L, total, done, ds, 0);
        assert ds[1..] == [];
      } else {
        TallyTxAgrees(L, total, done + Size(ds[0]), Count(L, st, ds[0]), ds[1..]);
      }
    }
  }

  /** rm_rx_tx_delta_element: type, then what the type calls for, then the counters. */
  method TxDeltaElement(sock: Socket, d: Delta, st: Stats) returns (err: Error, st': Stats)
    modifies sock`outgoing, sock`script
    ensures old(sock.Sound()) ==> err == OK && sock.Sound()
    ensures err == OK ==> sock.outgoing == old(sock.outgoing) + Encode(d)
    ensures err == OK || err == Write
    ensures st' == if err == OK then CountTx(st, d) else st
  {
    ghost var out := sock.outgoing;
    st' := st;
    err := TcpTx(sock, [TypeOf(d)]);
    if err != OK {
      return Error.Write, st;
    }
    match d {
      case Raw(bytes) =>
        err := TcpTx(sock, LittleEndian(|bytes|, FIELD));
        if err != OK {
          return Error.Write, st;
        }
        err := TcpTx(sock, bytes);
        if err != OK {
          return Error.Write, st;
        }
        ThreeWrites(out, [RAW_BYTES], LittleEndian(|bytes|, FIELD), bytes);
        st' := st.(byRaw := st.byRaw + |bytes|, rawN := st.rawN + 1);
      case ZeroDiff(_, n) =>
        st' := st.(byRef := st.byRef + n, refN := st.refN + 1, byZero := st.byZero + n, zeroN := st.zeroN + 1);
      case Reference(ref, n) =>
        err := TcpTx(sock, LittleEndian(ref, FIELD));
        if err != OK {
          return Error.Write, st;
        }
        Associate(out, [REFERENCE], LittleEndian(ref, FIELD));
        st' := st.(byRef := st.byRef + n, refN := st.refN + 1);
      case Tail(ref, n) =>
        err := TcpTx(sock, LittleEndian(ref, FIELD));
        if err != OK {
          return Error.Write, st;
        }
        Associate(out, [TAIL], LittleEndian(ref, FIELD));
        st' := st.(byRef := st.byRef + n, refN := st.refN + 1, byTail := st.byTail + n, tailN := st.tailN + 1);
    }
  }

  ghost predicate HasElement(L: nat, left: nat, ySize: nat, s: seq<byte>, d: Delta) {
    s != [] && |s| >= Needed(s) && Parse(L, left, ySize, s) == Some(d)
  }

  ghost predicate NoElement(L: nat, left: nat, ySize: nat, s: seq<byte>) {
    s == [] || |s| < Needed(s) || Parse(L, left, ySize, s) == None
  }

  /** One element off the stream, read field by field. */
  method RxDeltaElement(sock: Socket, L: nat, left: nat, ySize: nat) returns (err: Error, d: Delta)
    modifies sock`incoming, sock`script
    ensures old(sock.Sound()) ==> sock.Sound()
    ensures err == OK ==> HasElement(L, left, ySize, old(sock.incoming), d)
                          && sock.incoming == old(sock.incoming)[Needed(old(sock.incoming))..]
    ensures err != OK && old(sock.Sound()) ==> NoElement(L, left, ySize, old(sock.incoming))
  {
    ghost var s := sock.incoming;
    d := Raw([]);
    var head := new byte[TYPE];
    err := TcpRx(sock, head, TYPE);
    if err != OK {
      return;
    }
    var kind := head[0];
    assert kind == s[0] by { assert head[..TYPE][0] == s[..TYPE][0]; }
    if kind == ZERO_DIFF {
      return OK, ZeroDiff(0, ySize);
    }
    if kind != REFERENCE && kind != TAIL && kind != RAW_BYTES {
      return Fail, d;
    }
    var field := new byte[FIELD];
    err := TcpRx(sock, field, FIELD);
    if err != OK {
      return;
    }
    assert field[..] == field[..FIELD] == s[TYPE..][..FIELD] == s[1..1 + FIELD];
    var v := FromLittleEndian(field[..]);
    if kind == REFERENCE {
      d := Reference(v, L);
    } else if kind == TAIL {
      d := Tail(v, left);
    } else {
      var bytes := new byte[v];
      err := TcpRx(sock, bytes, v);
      if err != OK {
        return;
      }
      assert s[TYPE..][FIELD..] == s[1 + FIELD..];
      assert bytes[..] == bytes[..v] == s[1 + FIELD..][..v] == s[1 + FIELD..Needed(s)];
      d := Raw(bytes[..]);
    }
  }

  /** The result of decoding, with elements decoded before put in front. */
  function Behind(got: seq<Delta>, r: Option<(seq<Delta>, seq<byte>)>): Option<(seq<Delta>, seq<byte>)> {
    match r
    case None => None
    case Some((ds, rest)) => Some((got + ds, rest))
  }

  lemma BehindNone(r: Option<(seq<Delta>, seq<byte>)>)
    ensures Behind([], r) == r
  {
    if r.Some? {
      assert [] + r.value.0 == r.value.0;
    }
  }

  lemma BehindOne(got: seq<Delta>, d: Delta, r: Option<(seq<Delta>, seq<byte>)>)
    ensures Behind(got, Behind([d], r)) == Behind(got + [d], r)
  {
    if r.Some? {
      Associate(got, [d], r.value.0);
    }
  }

  lemma {:induction false} ProcessSnoc(L: nat, y: seq<byte>, rx0: Rx, got: seq<Delta>, rx: Rx, d: Delta)
    requires ProcessAll(L, y, rx0, got) == (OK, rx)
    ensures ProcessAll(L, y, rx0, got + [d]) == Process(L, y, rx, d)
    decreases |got|
  {
    if got == [] {
      assert got + [d] == [d] && [d][1..] == [];
    } else {
      ProcessSnoc(L, y, Process(L, y, rx0, got[0]).1, got[1..], rx, d);
      assert (got + [d])[1..] == got[1..] + [d] && (got + [d])[0] == got[0];
    }
  }

  lemma {:induction false} ProcessFails(L: nat, y: seq<byte>, rx0: Rx, a: seq<Delta>, b: seq<Delta>)
    requires ProcessAll(L, y, rx0, a).0 != OK
    ensures ProcessAll(L, y, rx0, a + b).0 != OK
    decreases |a|
  {
    assert (a + b)[0] == a[0] && (a + b)[1..] == a[1..] + b;
    if Process(L, y, rx0, a[0]).0 == OK {
      ProcessFails(L, y, Process(L, y, rx0, a[0]).1, a[1..], b);
    }
  }

  /** rm_session_delta_rx_f_remote: elements until all expected bytes are accounted for. It
      succeeds exactly when the stream decodes and every element can be processed, however the
      stream is cut into reads, and has then done what processing the decoded list does. */
  method DeltaRxRemote(sock: Socket, rb: Rebuilder, y: seq<byte>, total: nat) returns (err: Error)
    modifies sock`incoming, sock`script, rb, rb.file
    ensures err == OK ==>
      var r := DecodeAll(rb.L, total, |y|, old(sock.incoming));
      && r.Some? && (OK, rb.State()) == ProcessAll(rb.L, y, old(rb.State()), r.value.0)
      && sock.incoming == r.value.1
    ensures err != OK && old(sock.Sound()) ==>
      var r := DecodeAll(rb.L, total, |y|, old(sock.incoming));
      r.None? || ProcessAll(rb.L, y, old(rb.State()), r.value.0).0 != OK
  {
    ghost var s0, rx0 := sock.incoming, rb.State();
    ghost var got: seq<Delta> := [];
    BehindNone(DecodeAll(rb.L, total, |y|, s0));
    var left: nat := total;
    err := OK;
    while left > 0
      invariant err == OK && ProcessAll(rb.L, y, rx0, got) == (OK, rb.State())
      invariant DecodeAll(rb.L, total, |y|, s0) == Behind(got, DecodeAll(rb.L, left, |y|, sock.incoming))
      invariant old(sock.Sound()) ==> sock.Sound()
      decreases |sock.incoming|
    {
      ghost var s, rx := sock.incoming, rb.State();
      var d;
      err, d := RxDeltaElement(sock, rb.L, left, |y|);
      if err != OK {
        return;
      }
      err := rb.ProcessElement(y, d);
      ghost var later := DecodeAll(rb.L, LeftAfter(left, d), |y|, sock.incoming);
      BehindOne(got, d, later);
      ProcessSnoc(rb.L, y, rx0, got, rx, d);
      if err != OK {
        if later.Some? {
          ProcessFails(rb.L, y, rx0, got + [d], later.value.0);
        }
        return;
      }
      got := got + [d];
      left := LeftAfter(left, d);
    }
    assert got + [] == got;
  }

  // ----- checksum frames ----------------------------------------------------------------

  lemma FramePieces(s: seq<byte>, fch: seq<byte>, sch: seq<byte>)
    requires |s| >= FRAME && fch == s[..FAST_BYTES] && sch == s[FAST_BYTES..][..FRAME - FAST_BYTES]
    ensures s[..FRAME][..FAST_BYTES] == fch && s[..FRAME][FAST_BYTES..] == sch
    ensures s[FAST_BYTES..][FRAME - FAST_BYTES..] == s[FRAME..]
  {
  }

  /** The entries parsed so far and the rest of the stream give what the whole stream gives. */
  ghost predicate Resumes(all: seq<byte>, entries: seq<Entry>, rest: seq<byte>) {
    && |rest| + FRAME * |entries| == |all|
    && forall k: nat | FRAME * k <= |rest| ::
         entries + ParseFrames(rest, |entries|, k) == ParseFrames(all, 0, |entries| + k)
  }

  lemma ResumesAtStart(all: seq<byte>)
    ensures Resumes(all, [], all)
  {
    forall k: nat | FRAME * k <= |all|
      ensures [] + ParseFrames(all, 0, k) == ParseFrames(all, 0, k)
    {
    }
  }

  lemma NextFrame(stream: seq<byte>, entries: seq<Entry>, left: nat, e: Entry)
    requires left > 0 && FRAME * left <= |stream| && e == ParseFrame(stream[..FRAME], |entries|)
    ensures entries + [e] + ParseFrames(stream[FRAME..], |entries| + 1, left - 1)
         == entries + ParseFrames(stream, |entries|, left)
  {
    Associate(entries, [e], ParseFrames(stream[FRAME..], |entries| + 1, left - 1));
  }

  lemma ResumesNext(all: seq<byte>, entries: seq<Entry>, rest: seq<byte>, e: Entry)
    requires Resumes(all, entries, rest) && |rest| >= FRAME && e == ParseFrame(rest[..FRAME], |entries|)
    ensures Resumes(all, entries + [e], rest[FRAME..])
  {
    forall k: nat | FRAME * k <= |rest[FRAME..]|
      ensures entries + [e] + ParseFrames(rest[FRAME..], |entries| + 1, k) == ParseFrames(all, 0, |entries| + 1 + k)
    {
      NextFrame(rest, entries, k + 1, e);
    }
  }

  lemma ResumesNow(all: seq<byte>, entries: seq<Entry>, rest: seq<byte>)
    requires Resumes(all, entries, rest)
    ensures FRAME * |entries| <= |all| && entries == ParseFrames(all, 0, |entries|)
  {
    assert entries + ParseFrames(rest, |entries|, 0) == ParseFrames(all, 0, |entries| + 0);
  }

  /** One frame: the fast checksum, then the strong one. */
  method RxChCh(sock: Socket, ref: nat) returns (err: Error, e: Entry)
    modifies sock`incoming, sock`script
    ensures old(sock.Sound()) ==> sock.Sound() && (err == OK <==> FRAME <= |old(sock.incoming)|)
    ensures err == OK ==> FRAME <= |old(sock.incoming)| && e == ParseFrame(old(sock.incoming)[..FRAME], ref)
                          && sock.incoming == old(sock.incoming)[FRAME..]
  {
    ghost var s := sock.incoming;
    e := Entry(Check(0, 0), [], ref);
    var fch := new byte[FAST_BYTES];
    err := TcpRx(sock, fch, FAST_BYTES);
    if err != OK {
      return;
    }
    var word, _ := DeserializeU32(fch, 0);
    var sch := new byte[FRAME - FAST_BYTES];
    err := TcpRx(sock, sch, FRAME - FAST_BYTES);
    if err != OK {
      return;
    }
    FramePieces(s, fch[..], sch[..]);
    e := Entry(FromWord(word), sch[..], ref);
  }

  /** rm_session_ch_ch_rx_f: up to n frames, in order of arrival and numbered by it; on a stream
      that ends early or breaks, the entries of the frames before. */
  method ChChRx(sock: Socket, n: nat) returns (err: Error, entries: seq<Entry>)
    modifies sock`incoming, sock`script
    ensures FRAME * |entries| <= |old(sock.incoming)| && entries == ParseFrames(old(sock.incoming), 0, |entries|)
    ensures |entries| <= n && (err == OK <==> |entries| == n)
    ensures err == OK ==> sock.incoming == old(sock.incoming)[FRAME * n..]
    ensures old(sock.Sound()) ==> sock.Sound() && (err == OK <==> FRAME * n <= |old(sock.incoming)|)
  {
    ghost var s0 := sock.incoming;
    entries := [];
    var left: nat := n;
    err := OK;
    ResumesAtStart(s0);
    while left > 0
      invariant left <= n && |entries| == n - left && err == OK
      invariant FRAME * |entries| <= |s0| && sock.incoming == s0[FRAME * |entries|..]
      invariant Resumes(s0, entries, sock.incoming)
      invariant old(sock.Sound()) ==> sock.Sound()
    {
      ghost var s := sock.incoming;
      ResumesNow(s0, entries, s);
      var e;
      err, e := RxChCh(sock, |entries|);
      if err != OK {
        return;
      }
      ResumesNext(s0, entries, s, e);
      entries := entries + [e];
      left := left - 1;
    }
    ResumesNow(s0, entries, sock.incoming);
  }
}
