/** Reading and writing a stream socket: loops over partial transfers, and the checksum frame. */
module Tcp {
  import opened Machine
  import opened Checksum
  import opened Blocks
  import opened Channel
  import opened Serialize

  /** What one read or write system call meets: a signal, an error, or at most n bytes moving. */
  datatype Event = Interrupted | Broken | Moves(n: nat)

  /** The result of a system call: a count, or -1 with errno EINTR or another. */
  datatype Call = Bytes(n: nat) | Eintr | Errno

  /** A call uses up one event, if any is left, and fails only as that event says. */
  ghost predicate Taken(r: Call, most: nat, before: seq<Event>, after: seq<Event>) {
    && after == (if before == [] then [] else before[1..])
    && (r.Bytes? ==> r.n <= most)
    && (r == Eintr ==> before != [] && before[0] == Interrupted)
    && (r == Errno ==> before != [] && before[0] == Broken)
  }

  /** One end of a connection. The script decides how calls go until it is used up; from then on
      they move as much as they can. */
  class Socket {
    var incoming: seq<byte>   // what the peer sends before it closes, as far as not read yet
    var outgoing: seq<byte>
    var script: seq<Event>

    constructor (incoming: seq<byte>, script: seq<Event>)
      ensures this.incoming == incoming && outgoing == [] && this.script == script
    {
      this.incoming, this.outgoing, this.script := incoming, [], script;
    }

    ghost predicate Sound()
      reads this
    {
      Broken !in script
    }

    /** read(2) of at most n bytes into dst; 0 means the stream has ended. */
    method Read(dst: array<byte>, at: nat, n: nat) returns (r: Call)
      requires n > 0 && at + n <= dst.Length
      modifies this`incoming, this`script, dst
      ensures dst[..at] == old(dst[..at]) && dst[at + n..] == old(dst[at + n..])
      ensures Taken(r, n, old(script), script)
      ensures r.Bytes? ==>
        && r.n <= |old(incoming)| && (r.n == 0 <==> old(incoming) == [])
        && incoming == old(incoming)[r.n..]
        && dst[..] == old(dst[..at]) + old(incoming)[..r.n] + old(dst[at + r.n..])
      ensures !r.Bytes? ==> incoming == old(incoming) && dst[..] == old(dst[..])
    {
      var most := n;
      if script != [] {
        var e := script[0];
        script := script[1..];
        match e {
          case Interrupted => return Eintr;
          case Broken => return Errno;
          case Moves(m) => most := Min(n, Max(m, 1));
        }
      }
      var k := Min(most, |incoming|);
      forall i | 0 <= i < k {
        dst[at + i] := incoming[i];
      }
      incoming := incoming[k..];
      return Bytes(k);
    }

    /** write(2) of at most n bytes. */
    method Write(src: seq<byte>) returns (r: Call)
      requires src != []
      modifies this`outgoing, this`script
      ensures Taken(r, |src|, old(script), script)
      ensures r.Bytes? ==> 0 < r.n && outgoing == old(outgoing) + src[..r.n]
      ensures !r.Bytes? ==> outgoing == old(outgoing)
    {
      var k := |src|;
      if script != [] {
        var e := script[0];
        script := script[1..];
        match e {
          case Interrupted => return Eintr;
          case Broken => return Errno;
          case Moves(m) => k := Min(|src|, Max(m, 1));
        }
      }
      outgoing := outgoing + src[..k];
      return Bytes(k);
    }
  }

  /** One read, repeated as long as a signal interrupts it. */
  method ReadOn(sock: Socket, dst: array<byte>, at: nat, n: nat) returns (r: Call)
    requires n > 0 && at + n <= dst.Length
    modifies sock`incoming, sock`script, dst
    ensures r != Eintr && |sock.script| <= |old(sock.script)| && (old(sock.Sound()) ==> sock.Sound())
    ensures r == Errno ==> !old(sock.Sound())
    ensures dst[..at] == old(dst[..at]) && dst[at + n..] == old(dst[at + n..])
    ensures r.Bytes? ==>
      && r.n <= n && r.n <= |old(sock.incoming)| && (r.n == 0 <==> old(sock.incoming) == [])
      && sock.incoming == old(sock.incoming)[r.n..]
      && dst[at..at + r.n] == old(sock.incoming)[..r.n]
  {
    r := sock.Read(dst, at, n);
    while r == Eintr
      invariant r.Bytes? ==>
        && r.n <= n && r.n <= |old(sock.incoming)| && (r.n == 0 <==> old(sock.incoming) == [])
        && sock.incoming == old(sock.incoming)[r.n..]
        && dst[at..at + r.n] == old(sock.incoming)[..r.n]
      invariant !r.Bytes? ==> sock.incoming == old(sock.incoming)
      invariant r == Errno ==> !old(sock.Sound())
      invariant dst[..at] == old(dst[..at]) && dst[at + n..] == old(dst[at + n..])
      invariant |sock.script| <= |old(sock.script)| && (old(sock.Sound()) ==> sock.Sound())
      decreases |sock.script|, r == Eintr
    {
      r := sock.Read(dst, at, n);
    }
  }

  lemma NextBytes(all: seq<byte>, total: nat, n: nat)
    requires total + n <= |all|
    ensures all[total..][n..] == all[total + n..] && all[..total] + all[total..][..n] == all[..total + n]
  {
  }

  /** Receives exactly n bytes, however the stream delivers them: they are the next n of the
      stream. Fails only when the stream ends too early or breaks, and then has taken fewer. */
  method TcpRx(sock: Socket, dst: array<byte>, n: nat) returns (err: Error)
    requires n <= dst.Length
    modifies sock`incoming, sock`script, dst
    ensures |sock.script| <= |old(sock.script)| && (old(sock.Sound()) ==> sock.Sound())
    ensures err == OK ==>
      && n <= |old(sock.incoming)| && sock.incoming == old(sock.incoming)[n..]
      && dst[..n] == old(sock.incoming)[..n] && dst[n..] == old(dst[n..])
    ensures err == OK || err == Eof || err == Read
    ensures err == Eof ==> |old(sock.incoming)| < n && sock.incoming == []
    ensures err == Read ==> !old(sock.Sound())
    ensures old(sock.Sound()) ==> (err == OK <==> n <= |old(sock.incoming)|)
  {
    ghost var all := sock.incoming;
    var total := 0;
    if n == 0 {
      return OK;
    }
    while total != n
      invariant 0 <= total <= n && total <= |all| && sock.incoming == all[total..]
      invariant dst[..total] == all[..total] && dst[n..] == old(dst[n..])
      invariant |sock.script| <= |old(sock.script)| && (old(sock.Sound()) ==> sock.Sound())
      decreases n - total
    {
      var r := ReadOn(sock, dst, total, n - total);
      if r == Errno {
        return Error.Read;
      }
      if r.n == 0 {
        return Eof;
      }
      NextBytes(all, total, r.n);
      assert dst[..total + r.n] == dst[..total] + dst[total..total + r.n];
      total := total + r.n;
    }
    err := OK;
  }

  /** Sends all of src, however the stream accepts it, or breaks having sent a proper prefix. */
  method TcpTx(sock: Socket, src: seq<byte>) returns (err: Error)
    modifies sock`outgoing, sock`script
    ensures |sock.script| <= |old(sock.script)| && (old(sock.Sound()) ==> sock.Sound())
    ensures err == OK ==> sock.outgoing == old(sock.outgoing) + src
    ensures err != OK ==> err == Write && !old(sock.Sound())
                          && exists k :: 0 <= k < |src| && sock.outgoing == old(sock.outgoing) + src[..k]
  {
    var total := 0;
    while total != |src|
      invariant 0 <= total <= |src| && sock.outgoing == old(sock.outgoing) + src[..total]
      invariant |sock.script| <= |old(sock.script)| && (old(sock.Sound()) ==> sock.Sound())
      decreases |src| - total, |sock.script|
    {
      ghost var before := sock.script;
      var r := sock.Write(src[total..]);
      while r == Eintr
        invariant r.Bytes? ==> 0 < r.n <= |src| - total && sock.outgoing == old(sock.outgoing) + src[..total + r.n]
        invariant !r.Bytes? ==> sock.outgoing == old(sock.outgoing) + src[..total]
        invariant r == Errno ==> !old(sock.Sound())
        invariant |sock.script| <= |before| && (old(sock.Sound()) ==> sock.Sound())
        decreases |sock.script|, r == Eintr
      {
        r := sock.Write(src[total..]);
        assert r.Bytes? ==> src[..total] + src[total..][..r.n] == src[..total + r.n];
      }
      if r == Errno {
        return Error.Write;
      }
      total := total + r.n;
    }
    assert src[..total] == src;
    err := OK;
  }

  /** rm_tcp_tx_ch_ch: fill a local buffer, send it. */
  method TxChCh(sock: Socket, e: Entry) returns (ok: bool)
    requires |e.sch| == 16
    modifies sock`outgoing, sock`script
    ensures old(sock.Sound()) ==> ok && sock.Sound()
    ensures ok ==> sock.outgoing == old(sock.outgoing) + Frame(e)
    ensures !ok ==> exists k :: 0 <= k < FRAME && sock.outgoing == old(sock.outgoing) + Frame(e)[..k]
  {
    var buf := new byte[FRAME];
    var next := SerializeU32(buf, 0, Word(e.fch));
    next := SerializeMem(buf, next, e.sch);
    assert buf[..] == Frame(e);
    var err := TcpTx(sock, buf[..]);
    ok := err == OK;
  }
}
