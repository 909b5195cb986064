/** The checksum channel: 20-byte frames that carry both checksums of a block but not its
    number, which the far end recovers from arrival order. */
module Channel {
  import opened Machine
  import opened Checksum
  import opened Blocks

  /** RM_CH_CH_SIZE, of which the strong checksum takes RM_STRONG_CHECK_BYTES. */
  const FRAME := 20
  const FAST_BYTES := 4

  /** rm_md5 always produces 16 bytes. */
  ghost predicate Sized(strong: Strong) { forall d :: |strong(d)| == 16 }

  /** rm_tcp_tx_ch_ch: the fast checksum in network order, then the strong one. */
  function Frame(e: Entry): seq<byte>
  {
    BigEndian(Word(e.fch), FAST_BYTES) + e.sch
  }

  /** rm_session_ch_ch_rx_f on one frame; the reference is the number of frames before it. */
  function ParseFrame(f: seq<byte>, ref: nat): Entry
    requires |f| == FRAME
  {
    Entry(FromWord(FromBigEndian(f[..FAST_BYTES])), f[FAST_BYTES..], ref)
  }

  function Frames(es: seq<Entry>): seq<byte> {
    if es == [] then [] else Frame(es[0]) + Frames(es[1..])
  }

  /** The 20 bytes of one frame: the second half of the fast checksum, then the first, each most
      significant byte first, then the strong checksum as it is. */
  lemma FrameBytes(e: Entry)
    ensures Frame(e) == [e.fch.r2 / 0x100, e.fch.r2 % 0x100, e.fch.r1 / 0x100, e.fch.r1 % 0x100] + e.sch
  {
    var r1, r2 := e.fch.r1, e.fch.r2;
    WordBytes(Word(e.fch), FAST_BYTES, r1 % 0x100, r1 / 0x100, r2 % 0x100, r2 / 0x100);
  }

  lemma WordOfBytes(c: Check, n: nat)
    requires TWO32 <= Pow256(n)
    ensures FromWord(FromBigEndian(BigEndian(Word(c), n))) == c
  {
    BigEndianRoundTrip(Word(c), n);
    WordRoundTrip(c, Word(c));
  }

  lemma FrameRoundTrip(e: Entry)
    requires |e.sch| == 16
    ensures |Frame(e)| == FRAME && ParseFrame(Frame(e), e.ref) == e
  {
    var head := BigEndian(Word(e.fch), FAST_BYTES);
    assert Frame(e)[..FAST_BYTES] == head && Frame(e)[FAST_BYTES..] == e.sch;
    Pow256Values();
    WordOfBytes(e.fch, FAST_BYTES);
  }

  lemma {:induction false} FramesConcat(a: seq<Entry>, b: seq<Entry>)
    ensures Frames(a + b) == Frames(a) + Frames(b)
  {
    if a == [] {
      assert a + b == b;
    } else {
      FramesConcat(a[1..], b);
      assert (a + b)[1..] == a[1..] + b;
      Associate(Frame(a[0]), Frames(a[1..]), Frames(b));
    }
  }

  lemma FramesOne(e: Entry)
    ensures Frames([e]) == Frame(e)
  {
    assert [e][1..] == [] && Frame(e) + [] == Frame(e);
  }

  /** The n entries a receiver reads off the stream, numbered from `ref`. */
  function ParseFrames(stream: seq<byte>, ref: nat, n: nat): seq<Entry>
    requires |stream| >= 20 * n
  {
    if n == 0 then []
    else [ParseFrame(stream[..FRAME], ref)] + ParseFrames(stream[FRAME..], ref + 1, n - 1)
  }

  lemma Front(a: seq<byte>, b: seq<byte>)
    ensures (a + b)[..|a|] == a && (a + b)[|a|..] == b
  {
  }

  lemma FirstFrame(es: seq<Entry>, rest: seq<byte>)
    requires es != [] && |Frame(es[0])| == FRAME
    ensures var s := Frames(es) + rest;
            |s| >= FRAME && s[..FRAME] == Frame(es[0]) && s[FRAME..] == Frames(es[1..]) + rest
  {
    var a, b := Frame(es[0]), Frames(es[1..]);
    Associate(a, b, rest);
    Front(a, b + rest);
  }

  /** The receiver of the checksums rebuilds the sender's entries, numbers included. */
  lemma {:induction false} ChannelRoundTrip(es: seq<Entry>, ref: nat, rest: seq<byte>)
    requires forall i :: 0 <= i < |es| ==> es[i].ref == ref + i && |es[i].sch| == 16
    ensures |Frames(es)| == 20 * |es|
    ensures ParseFrames(Frames(es) + rest, ref, |es|) == es
  {
    if es != [] {
      FrameRoundTrip(es[0]);
      ChannelRoundTrip(es[1..], ref + 1, rest);
      FirstFrame(es, rest);
      var s := Frames(es) + rest;
      assert ParseFrames(s, ref, |es|)
          == [ParseFrame(s[..FRAME], ref)] + ParseFrames(s[FRAME..], ref + 1, |es[1..]|);
    }
  }

  /** The table of the transmitter is, entry for entry, the one the receiver of the file would
      build from y itself, and both ends count the same number of blocks. */
  lemma ChannelCarriesTable(strong: Strong, y: seq<byte>, L: nat, rest: seq<byte>)
    requires L > 0 && Sized(strong)
    ensures var es := Entries(strong, y, L); var n := |y| / L + if |y| % L != 0 then 1 else 0;
            && |es| == n && |Frames(es)| == 20 * n
            && ParseFrames(Frames(es) + rest, 0, n) == es
  {
    BlockCountIsCeiling(|y|, L);
    ChannelRoundTrip(Entries(strong, y, L), 0, rest);
  }
}
