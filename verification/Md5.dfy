/** MD5 buffering and padding of src/md5.c, for any compression function. The 64 steps of
    md5_transform are a parameter: nothing below depends on what they compute. */
module Md5 {
  import opened Machine

  /** The four 32-bit state words. */
  datatype Regs = Regs(a: u32, b: u32, c: u32, d: u32)

  /** md5_transform as a function of the state and one 64-byte block. */
  type Transform = (Regs, seq<byte>) -> Regs

  /** The sizes in bytes of the length field and of a state word. */
  const LENGTH: nat := 8
  const WORD: nat := 4
  const INITIAL := Regs(0x67452301, 0xEFCDAB89, 0x98BADCFE, 0x10325476)

  /** The compression function folded over the 64-byte blocks of m. */
  function Fold(t: Transform, m: seq<byte>): Regs {
    if |m| < 64 then INITIAL else t(Fold(t, m[..|m| - 64]), m[|m| - 64..])
  }

  lemma FoldBlock(t: Transform, m: seq<byte>, block: seq<byte>)
    requires |block| == 64
    ensures Fold(t, m + block) == t(Fold(t, m), block)
  {
    assert (m + block)[..|m|] == m;
    assert (m + block)[|m|..] == block;
  }

  /** Zero bytes between the 0x80 marker and the length, section 3.1 of RFC 1321: the fewest
      that complete a block. */
  function ZeroCount(n: nat): (k: nat)
    ensures (n + 1 + k + 8) % 64 == 0 && k < 64
  {
    (119 - n % 64) % 64
  }

  function PadWith(m: seq<byte>, length: seq<byte>): (p: seq<byte>)
    ensures |p| == |m| + 1 + ZeroCount(|m|) + |length|
  {
    m + [0x80] + Zeros(ZeroCount(|m|)) + length
  }

  /** The padded message of sections 3.1 and 3.2 of RFC 1321; the length field holds the low
      64 bits of the bit count. */
  function Pad(m: seq<byte>): (p: seq<byte>)
    ensures |p| % 64 == 0
  {
    PadWith(m, LittleEndian(Wrap64(8 * |m|), LENGTH))
  }

  lemma PadParts(m: seq<byte>)
    ensures |Pad(m)| >= |m| + 9 && Pad(m)[..|m|] == m
    ensures Pad(m)[|Pad(m)| - 8..] == LittleEndian(Wrap64(8 * |m|), LENGTH)
  {
    var front, length := m + [0x80] + Zeros(ZeroCount(|m|)), LittleEndian(Wrap64(8 * |m|), LENGTH);
    assert Pad(m) == front + length;
    assert (front + length)[|front|..] == length;
  }

  lemma SameLength(n1: nat, n2: nat, bytes: nat)
    requires 8 * n1 < TWO64 && 8 * n2 < TWO64 && TWO64 <= Pow256(bytes)
    requires LittleEndian(Wrap64(8 * n1), bytes) == LittleEndian(Wrap64(8 * n2), bytes)
    ensures n1 == n2
  {
    LittleEndianRoundTrip(Wrap64(8 * n1), bytes);
    LittleEndianRoundTrip(Wrap64(8 * n2), bytes);
  }

  /** Padding is injective for messages of fewer than 2^64 bits. */
  lemma PadInjective(m1: seq<byte>, m2: seq<byte>)
    requires 8 * |m1| < TWO64 && 8 * |m2| < TWO64
    requires Pad(m1) == Pad(m2)
    ensures m1 == m2
  {
    PadParts(m1);
    PadParts(m2);
    Pow256Values();
    SameLength(|m1|, |m2|, 8);
  }

  function RegsBytes(r: Regs): (s: seq<byte>)
    ensures |s| == 16
  {
    LittleEndian(r.a, WORD) + LittleEndian(r.b, WORD) + LittleEndian(r.c, WORD) + LittleEndian(r.d, WORD)
  }

  /** The 16-byte digest: RFC 1321 sections 3.1 to 3.5 with the block step left abstract. */
  function Digest(t: Transform, m: seq<byte>): (s: seq<byte>)
    ensures |s| == 16
  {
    RegsBytes(Fold(t, Pad(m)))
  }

  function Idle(r: Regs, block: seq<byte>): Regs { r }

  lemma {:induction false} FoldIdle(m: seq<byte>)
    ensures Fold(Idle, m) == INITIAL
  {
    if |m| >= 64 {
      FoldIdle(m[..|m| - 64]);
    }
  }

  lemma InitialBytes(r: Regs)
    requires r == INITIAL
    ensures RegsBytes(r) == [0x01, 0x23, 0x45, 0x67] + [0x89, 0xab, 0xcd, 0xef]
                          + [0xfe, 0xdc, 0xba, 0x98] + [0x76, 0x54, 0x32, 0x10]
  {
    WordBytes(r.a, WORD, 0x01, 0x23, 0x45, 0x67);
    WordBytes(r.b, WORD, 0x89, 0xab, 0xcd, 0xef);
    WordBytes(r.c, WORD, 0xfe, 0xdc, 0xba, 0x98);
    WordBytes(r.d, WORD, 0x76, 0x54, 0x32, 0x10);
  }

  /** With steps that change nothing the digest is the initial state of section 3.3 of RFC 1321,
      byte by byte, whatever the message. */
  lemma InitialStateShows(m: seq<byte>)
    ensures Digest(Idle, m) == [0x01, 0x23, 0x45, 0x67] + [0x89, 0xab, 0xcd, 0xef]
                             + [0xfe, 0xdc, 0xba, 0x98] + [0x76, 0x54, 0x32, 0x10]
  {
    FoldIdle(Pad(m));
    InitialBytes(INITIAL);
  }

  lemma LengthBytes(v: nat, n: nat, a: byte, b: byte)
    requires n == LENGTH && v == b * 0x100 + a
    ensures LittleEndian(v, n) == [a, b, 0, 0, 0, 0, 0, 0]
  {
    LongBytes(v, n, a, b, 0, 0, 0);
    WordBytes(0, n - 4, 0, 0, 0, 0);
  }

  /** The padded form of a short message, and of one whose length field needs a second block. */
  lemma PadKnown(m: seq<byte>)
    requires |m| == 3 || |m| == 56
    ensures |m| == 3 ==> Pad(m) == m + [0x80] + Zeros(52) + [24, 0, 0, 0, 0, 0, 0, 0]
    ensures |m| == 56 ==> Pad(m) == m + [0x80] + Zeros(63) + [0xc0, 1, 0, 0, 0, 0, 0, 0]
  {
    var n := 8 * |m|;
    LengthBytes(n, LENGTH, if |m| == 3 then 24 else 0xc0, if |m| == 3 then 0 else 1);
    assert Wrap64(8 * |m|) == n;
  }

  lemma LastBlock(t: Transform, m: seq<byte>, head: seq<byte>, last: seq<byte>, state: Regs)
    requires |last| == 64 && head + last == PadWith(m, last[56..])
    requires last[56..] == LittleEndian(Wrap64(8 * |m|), LENGTH) && state == t(Fold(t, head), last)
    ensures RegsBytes(state) == Digest(t, m)
  {
    FoldBlock(t, head, last);
  }

  lemma Quarters(s: seq<byte>, a: seq<byte>, b: seq<byte>, c: seq<byte>, d: seq<byte>)
    requires |s| == 16 && |a| == |b| == |c| == |d| == 4
    requires forall k :: 0 <= k < 4 ==> s[k] == a[k]
    requires forall k :: 0 <= k < 4 ==> s[4 + k] == b[k]
    requires forall k :: 0 <= k < 4 ==> s[8 + k] == c[k]
    requires forall k :: 0 <= k < 4 ==> s[12 + k] == d[k]
    ensures s == a + b + c + d
  {
    assert s[..4] == a && s[4..8] == b && s[8..12] == c && s[12..] == d;
    assert s == s[..4] + s[4..8] + s[8..12] + s[12..];
  }

  lemma AppendNext(m: seq<byte>, bytes: seq<byte>, i: nat)
    requires i < |bytes|
    ensures m + bytes[..i] + [bytes[i]] == m + bytes[..i + 1]
  {
  }

  lemma BitCount(whole: nat, datalen: nat)
    ensures Wrap64(Wrap64(8 * whole) + datalen * 8) == Wrap64(8 * (whole + datalen))
  {
  }

  lemma BlockAbsorbed(whole: nat)
    ensures whole % 64 == 0 ==> (whole + 64) % 64 == 0
    ensures Wrap64(Wrap64(8 * whole) + 512) == Wrap64(8 * (whole + 64))
  {
    BitCount(whole, 64);
  }

  lemma ZeroCases(whole: nat, datalen: nat)
    requires datalen < 64 && whole % 64 == 0
    ensures ZeroCount(whole + datalen) == if datalen < 56 then 55 - datalen else 119 - datalen
  {
  }

  lemma Assembled(whole: seq<byte>, rest: seq<byte>, last: seq<byte>, length: seq<byte>)
    requires |rest| < 64 && |last| == 64 && last[56..] == length
    ensures |rest| < 56 && last[..56] == rest + [0x80] + Zeros(55 - |rest|) ==>
      whole + last == whole + rest + [0x80] + Zeros(55 - |rest|) + length
    ensures |rest| >= 56 && last[..56] == Zeros(56) ==>
      whole + (rest + [0x80] + Zeros(63 - |rest|) + last)
        == whole + rest + [0x80] + Zeros(119 - |rest|) + length
  {
    assert last == last[..56] + last[56..];
    if |rest| >= 56 && last[..56] == Zeros(56) {
      assert Zeros(119 - |rest|) == Zeros(63 - |rest|) + Zeros(56);
    }
  }

  /** One or two final blocks, depending on whether the length still fits after the marker. */
  lemma PaddingCases(m: seq<byte>, rest: seq<byte>, whole: nat, head: seq<byte>, last: seq<byte>)
    requires whole + |rest| == |m| && |rest| < 64 && whole % 64 == 0 && m == m[..whole] + rest
    requires |last| == 64
    requires if |rest| < 56 then head == m[..whole] && last[..56] == rest + [0x80] + Zeros(55 - |rest|)
             else head == m[..whole] + (rest + [0x80] + Zeros(63 - |rest|)) && last[..56] == Zeros(56)
    ensures head + last == PadWith(m, last[56..])
  {
    ZeroCases(whole, |rest|);
    Assembled(m[..whole], rest, last, last[56..]);
    if |rest| >= 56 {
      assert head + last == m[..whole] + (rest + [0x80] + Zeros(63 - |rest|) + last);
    }
  }

  /** MD5_CTX. The ghost field is the message absorbed so far, so Valid says that the buffer
      and state depend only on the bytes, not on how they were split between calls. */
  class Context {
    const transform: Transform
    const data: array<byte>
    var datalen: nat
    var bitlen: u64
    var state: Regs
    ghost var message: seq<byte>

    ghost predicate Valid()
      reads this, data
    {
      var whole := |message| - datalen;
      && data.Length == 64 && datalen < 64 && datalen <= |message| && whole % 64 == 0
      && data[..datalen] == message[whole..]
      && bitlen == Wrap64(8 * whole)
      && state == Fold(transform, message[..whole])
    }

    /** md5_init */
    constructor (transform: Transform)
      ensures Valid() && fresh(data) && message == [] && this.transform == transform
    {
      this.transform := transform;
      data := new byte[64](i => 0);
      datalen, bitlen, state, message := 0, 0, INITIAL, [];
    }

    /** The buffer holds the last 64 bytes of the message: compress it. */
    method Compress(ghost whole: nat)
      requires data.Length == datalen == 64 && whole + 64 == |message| && whole % 64 == 0
      requires message == message[..whole] + data[..]
      requires bitlen == Wrap64(8 * whole) && state == Fold(transform, message[..whole])
      modifies this`state, this`bitlen, this`datalen
      ensures Valid()
    {
      FoldBlock(transform, message[..whole], data[..]);
      state := transform(state, data[..]);
      bitlen := Wrap64(bitlen + 512);
      datalen := 0;
      BlockAbsorbed(whole);
      assert message[..|message|] == message;
    }

    /** The body of the md5_update loop. */
    method Absorb(b: byte)
      requires Valid()
      modifies this, data
      ensures Valid() && message == old(message) + [b]
    {
      ghost var whole := |message| - datalen;
      data[datalen] := b;
      datalen := datalen + 1;
      message := message + [b];
      assert data[..datalen] == message[whole..];
      assert message[..whole] == old(message[..whole]);
      if datalen == 64 {
        assert data[..] == data[..64];
        assert message == message[..whole] + data[..];
        Compress(whole);
      }
    }

    /** md5_update */
    method Update(bytes: seq<byte>)
      requires Valid()
      modifies this, data
      ensures Valid() && message == old(message) + bytes
    {
      var i := 0;
      while i < |bytes|
        invariant 0 <= i <= |bytes|
        invariant Valid() && message == old(message) + bytes[..i]
      {
        AppendNext(old(message), bytes, i);
        Absorb(bytes[i]);
        i := i + 1;
      }
      assert bytes[..i] == bytes;
    }

    /** The 0x80 marker and zeros up to `upto`. */
    method Mark(upto: nat)
      requires data.Length == 64 && datalen < upto <= 64
      modifies data
      ensures data[..upto] == old(data[..datalen]) + [0x80] + Zeros(upto - datalen - 1)
      ensures upto == 64 ==> data[..] == data[..upto]
    {
      var i := datalen;
      data[i] := 0x80;
      i := i + 1;
      while i < upto
        invariant datalen < i <= upto
        invariant data[..i] == old(data[..datalen]) + [0x80] + Zeros(i - datalen - 1)
      {
        data[i] := 0;
        i := i + 1;
      }
    }

    /** data[56..63] = bitlen, least significant byte first. */
    method StoreLength()
      requires data.Length == 64
      modifies data
      ensures data[..56] == old(data[..56]) && data[56..] == LittleEndian(bitlen, LENGTH)
    {
      ghost var length := LittleEndian(bitlen, LENGTH);
      var i := 0;
      while i < 8
        invariant 0 <= i <= 8
        invariant forall k :: 0 <= k < 56 ==> data[k] == old(data[k])
        invariant forall k :: 0 <= k < i ==> data[56 + k] == length[k]
      {
        LittleEndianDigit(bitlen, LENGTH, i);
        data[56 + i] := Shr8(bitlen, i) % 256;
        i := i + 1;
      }
    }

    method Output(hash: array<byte>)
      requires hash.Length == 16
      modifies hash
      ensures hash[..] == RegsBytes(state)
    {
      ghost var a, b, c, d := LittleEndian(state.a, WORD), LittleEndian(state.b, WORD),
                              LittleEndian(state.c, WORD), LittleEndian(state.d, WORD);
      var i := 0;
      while i < 4
        invariant 0 <= i <= 4
        invariant forall k :: 0 <= k < i ==> hash[k] == a[k]
        invariant forall k :: 0 <= k < i ==> hash[4 + k] == b[k]
        invariant forall k :: 0 <= k < i ==> hash[8 + k] == c[k]
        invariant forall k :: 0 <= k < i ==> hash[12 + k] == d[k]
      {
        LittleEndianDigit(state.a, WORD, i);
        LittleEndianDigit(state.b, WORD, i);
        LittleEndianDigit(state.c, WORD, i);
        LittleEndianDigit(state.d, WORD, i);
        hash[i] := Shr8(state.a, i) % 256;
        hash[i + 4] := Shr8(state.b, i) % 256;
        hash[i + 8] := Shr8(state.c, i) % 256;
        hash[i + 12] := Shr8(state.d, i) % 256;
        i := i + 1;
      }
      Quarters(hash[..], a, b, c, d);
    }

    /** memset of the bytes before the length field. */
    method Clear()
      requires data.Length == 64
      modifies data
      ensures data[..56] == Zeros(56)
    {
      forall j | 0 <= j < 56 { data[j] := 0; }
    }

    method ExtraBlock(ghost head: seq<byte>) returns (ghost head': seq<byte>)
      requires data.Length == 64 && state == Fold(transform, head)
      modifies this`state, data
      ensures state == Fold(transform, head') && head' == head + old(data[..]) && data[..56] == Zeros(56)
    {
      FoldBlock(transform, head, data[..]);
      head' := head + data[..];
      state := transform(state, data[..]);
      Clear();
    }

    /** The marker and zeros, and the extra block when the length does not fit behind them; head
        is what has been compressed then. */
    method PadData() returns (ghost head: seq<byte>)
      requires Valid()
      modifies this`state, data
      ensures var whole, rest := |message| - datalen, old(data[..datalen]);
              && state == Fold(transform, head)
              && (if datalen < 56 then head == message[..whole] && data[..56] == rest + [0x80] + Zeros(55 - datalen)
                  else head == message[..whole] + (rest + [0x80] + Zeros(63 - datalen)) && data[..56] == Zeros(56))
    {
      head := message[..|message| - datalen];
      if datalen < 56 {
        Mark(56);
      } else {
        Mark(64);
        head := ExtraBlock(head);
      }
    }

    /** md5_final: the digest of everything absorbed, in both padding cases. */
    method Final(hash: array<byte>)
      requires Valid() && hash.Length == 16 && hash != data
      modifies this, data, hash
      ensures hash[..] == Digest(transform, old(message))
    {
      ghost var whole, rest := |message| - datalen, data[..datalen];
      assert message == message[..whole] + rest;
      ghost var head := PadData();
      bitlen := Wrap64(bitlen + datalen * 8);
      BitCount(whole, datalen);
      StoreLength();
      PaddingCases(message, rest, whole, head, data[..]);
      state := transform(state, data[..]);
      LastBlock(transform, message, head, data[..], state);
      Output(hash);
    }
  }

  function Flatten(pieces: seq<seq<byte>>): seq<byte> {
    if pieces == [] then [] else Flatten(pieces[..|pieces| - 1]) + pieces[|pieces| - 1]
  }

  lemma FlattenSnoc(pieces: seq<seq<byte>>, i: nat)
    requires i < |pieces|
    ensures Flatten(pieces[..i + 1]) == Flatten(pieces[..i]) + pieces[i]
  {
    assert pieces[..i + 1][..i] == pieces[..i];
  }

  /** However a message is split into updates, the digest is that of the whole message. */
  method StreamMd5(transform: Transform, pieces: seq<seq<byte>>) returns (digest: seq<byte>)
    ensures digest == Digest(transform, Flatten(pieces))
  {
    var hash := new byte[16](i => 0);
    var ctx := new Context(transform);
    var i := 0;
    while i < |pieces|
      invariant 0 <= i <= |pieces|
      invariant ctx.Valid() && fresh(ctx) && fresh(ctx.data) && ctx.transform == transform
      invariant ctx.message == Flatten(pieces[..i])
    {
      ctx.Update(pieces[i]);
      FlattenSnoc(pieces, i);
      i := i + 1;
    }
    assert pieces[..i] == pieces;
    ctx.Final(hash);
    digest := hash[..];
  }

  /** rm_md5: one shot over a whole buffer. */
  method RmMd5(transform: Transform, bytes: seq<byte>) returns (digest: seq<byte>)
    ensures digest == Digest(transform, bytes)
  {
    digest := StreamMd5(transform, [bytes]);
    assert Flatten([bytes]) == bytes;
  }
}
