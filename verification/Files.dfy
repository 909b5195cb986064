/** Files as byte sequences and the buffered copy loops of src/rm.c. */
module Files {
  import opened Machine

  /** RM_L1_CACHE_RECOMMENDED */
  const CHUNK := 8192

  function Written(z: seq<byte>, to: nat, bytes: seq<byte>, i: nat): byte {
    if to <= i < to + |bytes| then bytes[i - to] else if i < |z| then z[i] else 0
  }

  /** The content of a file after bytes are written at an offset: the new bytes in their range,
      zeros in a gap before it, everything else as it was. Writing nothing changes nothing. */
  function WriteAt(z: seq<byte>, to: nat, bytes: seq<byte>): (r: seq<byte>)
    ensures bytes == [] ==> r == z
  {
    if bytes == [] then z
    else seq(Max(|z|, to + |bytes|), i requires i >= 0 => Written(z, to, bytes, i))
  }

  lemma WriteAtEnd(z: seq<byte>, bytes: seq<byte>)
    ensures WriteAt(z, |z|, bytes) == z + bytes
  {
  }

  lemma WriteAtTwice(z: seq<byte>, to: nat, a: seq<byte>, b: seq<byte>)
    ensures WriteAt(WriteAt(z, to, a), to + |a|, b) == WriteAt(z, to, a + b)
  {
    if a == [] {
      assert a + b == b;
    } else if b == [] {
      assert a + b == a;
    }
  }

  /** How many bytes a chunked copy of n bytes moves when only `avail` can be read: all of them
      or, when the source is short, just the whole chunks. */
  function Moved(avail: nat, n: nat): (m: nat)
    ensures m <= avail && m <= n && (m == n <==> n <= avail)
  {
    if n <= avail then n else avail / CHUNK * CHUNK
  }

  /** Where a source ends too early, the copy has moved whole chunks of 8192 bytes. */
  lemma MovedMeans(avail: nat, n: nat)
    requires avail < n
    ensures Moved(avail, n) % 8192 == 0 && avail - 8192 < Moved(avail, n) <= avail
  {
  }

  function Available(x: seq<byte>, from: nat): nat { if from <= |x| then |x| - from else 0 }

  /** The target after a chunked copy of x[from..from + n] to offset `to`. */
  function CopyRange(x: seq<byte>, from: nat, n: nat, z: seq<byte>, to: nat): seq<byte> {
    if from > |x| then z else WriteAt(z, to, x[from..from + Moved(|x| - from, n)])
  }

  class File {
    var content: seq<byte>

    constructor ()
      ensures content == []
    {
      content := [];
    }

    /** rm_fpwrite of a whole buffer */
    method Write(bytes: seq<byte>, to: nat)
      modifies this
      ensures content == WriteAt(old(content), to, bytes)
    {
      content := WriteAt(content, to, bytes);
    }
  }

  /** rm_fpread: up to n bytes at an offset into the front of dst. */
  method Fpread(dst: array<byte>, n: nat, from: nat, x: seq<byte>) returns (read: nat)
    requires n <= dst.Length
    modifies dst
    ensures read == Min(n, Available(x, from))
    ensures from <= |x| ==> dst[..read] == x[from..from + read]
    ensures dst[read..] == old(dst[read..])
  {
    read := Min(n, Available(x, from));
    forall i | 0 <= i < read { dst[i] := x[from + i]; }
  }

  /** rm_copy_buffered_2: n bytes of a file into memory, chunk by chunk. */
  method CopyBuffered2(x: seq<byte>, from: nat, dst: array<byte>, n: nat) returns (err: Error)
    requires n <= dst.Length
    modifies dst
    ensures err == OK <==> n <= Available(x, from) || n == 0
    ensures err == OK && n > 0 ==> dst[..n] == x[from..from + n]
    ensures err == OK || err == TooMuchRequested
    ensures dst[n..] == old(dst[n..])
  {
    var done: nat, left: nat := 0, n;
    var expected := Min(CHUNK, left);
    while left > 0 && Available(x, from + done) >= expected
      invariant done + left == n && expected == Min(CHUNK, left)
      invariant done > 0 ==> from + done <= |x|
      invariant forall i :: 0 <= i < done ==> dst[i] == x[from + i]
      invariant dst[n..] == old(dst[n..])
    {
      forall i | 0 <= i < expected { dst[done + i] := x[from + done + i]; }
      done, left := done + expected, left - expected;
      expected := Min(CHUNK, left);
    }
    err := if left == 0 then OK else TooMuchRequested;
  }

  /** Writing b right behind a, which was written at `to`. */
  lemma WriteAtNext(z: seq<byte>, to: nat, a: seq<byte>, b: seq<byte>, at: nat, both: seq<byte>)
    requires at == to + |a| && both == a + b
    ensures WriteAt(WriteAt(z, to, a), at, b) == WriteAt(z, to, both)
  {
    WriteAtTwice(z, to, a, b);
  }

  function Taken(x: seq<byte>, from: nat, n: nat): (t: seq<byte>)
    requires from + n <= |x|
    ensures |t| == n
  {
    x[from..from + n]
  }

  lemma TakenTwice(x: seq<byte>, from: nat, n: nat, more: nat)
    requires from + n + more <= |x|
    ensures Taken(x, from, n) + Taken(x, from + n, more) == Taken(x, from, n + more)
  {
  }

  lemma ChunkNext(x: seq<byte>, from: nat, offset: nat, chunk: nat, to: nat, before: seq<byte>)
    requires from + offset + chunk <= |x|
    ensures WriteAt(WriteAt(before, to, Taken(x, from, offset)), to + offset, Taken(x, from + offset, chunk))
         == WriteAt(before, to, Taken(x, from, offset + chunk))
  {
    TakenTwice(x, from, offset, chunk);
    WriteAtNext(before, to, Taken(x, from, offset), Taken(x, from + offset, chunk), to + offset, Taken(x, from, offset + chunk));
  }

  /** One fread and fwrite of the copy loop. */
  method CopyChunk(x: seq<byte>, z: File, from: nat, offset: nat, chunk: nat, to: nat, ghost before: seq<byte>)
    requires from + offset + chunk <= |x| && z.content == WriteAt(before, to, Taken(x, from, offset))
    modifies z
    ensures z.content == WriteAt(before, to, Taken(x, from, offset + chunk))
  {
    ChunkNext(x, from, offset, chunk, to, before);
    z.Write(Taken(x, from + offset, chunk), to + offset);
  }

  lemma RangeCopied(x: seq<byte>, from: nat, n: nat, before: seq<byte>, to: nat, offset: nat)
    requires from <= |x| && Moved(|x| - from, n) == offset
    ensures CopyRange(x, from, n, before, to) == WriteAt(before, to, Taken(x, from, offset))
  {
  }

  lemma WholeChunks(chunks: nat, offset: nat, left: nat, avail: nat)
    requires offset <= avail
    requires left > 0 ==> offset == chunks * CHUNK && avail - offset < Min(CHUNK, left)
    ensures Moved(avail, offset + left) == offset
    ensures left == 0 <==> offset + left <= avail
  {
  }

  /** rm_copy_buffered_offset: copy between files at independent offsets. On a short source the
      whole chunks before the end have already been written. */
  method CopyBufferedOffset(x: seq<byte>, z: File, n: nat, from: nat, to: nat) returns (err: Error)
    modifies z
    ensures err == (if n <= Available(x, from) then OK else TooMuchRequested)
    ensures z.content == CopyRange(x, from, n, old(z.content), to)
  {
    if from > |x| {
      err := if n == 0 then OK else TooMuchRequested;   // the first read already fails
      return;
    }
    ghost var before, chunks := z.content, 0;
    var offset: nat, left: nat := 0, n;
    var expected := Min(CHUNK, left);
    while left > 0 && Available(x, from + offset) >= expected
      invariant offset + left == n && expected == Min(CHUNK, left) && from + offset <= |x|
      invariant left == 0 || offset == chunks * CHUNK
      invariant z.content == WriteAt(before, to, Taken(x, from, offset))
    {
      CopyChunk(x, z, from, offset, expected, to, before);
      left, offset, chunks := left - expected, offset + expected, chunks + 1;
      expected := Min(CHUNK, left);
    }
    err := if left == 0 then OK else TooMuchRequested;
    WholeChunks(chunks, offset, left, |x| - from);
    RangeCopied(x, from, n, before, to, offset);
  }

  /** rm_copy_buffered: both files are rewound first. */
  method CopyBuffered(x: seq<byte>, z: File, n: nat) returns (err: Error)
    modifies z
    ensures err == (if n <= |x| then OK else TooMuchRequested)
    ensures z.content == CopyRange(x, 0, n, old(z.content), 0)
  {
    err := CopyBufferedOffset(x, z, n, 0, 0);
  }
}
