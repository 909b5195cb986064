/** Big-endian integers written into and read from a byte buffer. A position in the buffer stands
    for the advancing pointer. */
module Serialize {
  import opened Machine

  const W16: nat := 2
  const W32: nat := 4
  const W64: nat := 8

  /** b with the bytes from position at on replaced by s. */
  function Put(b: seq<byte>, at: nat, s: seq<byte>): (r: seq<byte>)
    requires at + |s| <= |b|
    ensures |r| == |b|
  {
    b[..at] + s + b[at + |s|..]
  }

  lemma PutPut(b: seq<byte>, at: nat, s: seq<byte>, t: seq<byte>)
    requires at + |s| + |t| <= |b|
    ensures Put(Put(b, at, s), at + |s|, t) == Put(b, at, s + t)
  {
  }

  /** A buffer that agrees with b except for s at position at is Put(b, at, s). */
  lemma IsPut(c: seq<byte>, b: seq<byte>, at: nat, s: seq<byte>)
    requires at + |s| <= |b| == |c|
    requires forall i | 0 <= i < |b| :: c[i] == if at <= i < at + |s| then s[i - at] else b[i]
    ensures c == Put(b, at, s)
  {
  }

  lemma {:induction false} BigEndianDigit(v: nat, n: nat, i: nat)
    requires i < n
    ensures BigEndian(v, n)[i] == Shr8(v, n - 1 - i) % 256
  {
    if i < n - 1 {
      BigEndianDigit(v / 256, n - 1, i);
    }
  }

  lemma {:induction false} FromBigEndianBound(s: seq<byte>)
    ensures FromBigEndian(s) < Pow256(|s|)
  {
    if s != [] {
      FromBigEndianBound(s[..|s| - 1]);
    }
  }

  lemma {:induction false} BigEndianInverse(s: seq<byte>)
    ensures BigEndian(FromBigEndian(s), |s|) == s
  {
    if s != [] {
      var front, last := s[..|s| - 1], s[|s| - 1];
      BigEndianInverse(front);
      assert FromBigEndian(s) / 256 == FromBigEndian(front) && FromBigEndian(s) % 256 == last;
      assert s == front + [last];
    }
  }

  // ----- writing ------------------------------------------------------------------------

  method SerializeU8(buf: array<byte>, at: nat, v: byte) returns (next: nat)
    requires at + 1 <= buf.Length
    modifies buf
    ensures next == at + 1 && buf[..] == Put(old(buf[..]), at, [v])
  {
    buf[at] := v;
    IsPut(buf[..], old(buf[..]), at, [v]);
    return at + 1;
  }

  lemma Digits(v: nat, n: nat)
    ensures forall i | 0 <= i < n :: BigEndian(v, n)[i] == Shr8(v, n - 1 - i) % 256
  {
    forall i | 0 <= i < n
      ensures BigEndian(v, n)[i] == Shr8(v, n - 1 - i) % 256
    {
      BigEndianDigit(v, n, i);
    }
  }

  method SerializeU16(buf: array<byte>, at: nat, v: u16) returns (next: nat)
    requires at + W16 <= buf.Length
    modifies buf
    ensures next == at + W16 && buf[..] == Put(old(buf[..]), at, BigEndian(v, W16))
  {
    buf[at] := Shr8(v, 1) % 256;
    buf[at + 1] := Shr8(v, 0) % 256;
    Digits(v, W16);
    IsPut(buf[..], old(buf[..]), at, BigEndian(v, W16));
    return at + W16;
  }

  method SerializeU32(buf: array<byte>, at: nat, v: u32) returns (next: nat)
    requires at + W32 <= buf.Length
    modifies buf
    ensures next == at + W32 && buf[..] == Put(old(buf[..]), at, BigEndian(v, W32))
  {
    buf[at] := Shr8(v, 3) % 256;
    buf[at + 1] := Shr8(v, 2) % 256;
    buf[at + 2] := Shr8(v, 1) % 256;
    buf[at + 3] := Shr8(v, 0) % 256;
    Digits(v, W32);
    IsPut(buf[..], old(buf[..]), at, BigEndian(v, W32));
    return at + W32;
  }

  method SerializeU64(buf: array<byte>, at: nat, v: u64) returns (next: nat)
    requires at + W64 <= buf.Length
    modifies buf
    ensures next == at + W64 && buf[..] == Put(old(buf[..]), at, BigEndian(v, W64))
  {
    buf[at] := Shr8(v, 7) % 256;
    buf[at + 1] := Shr8(v, 6) % 256;
    buf[at + 2] := Shr8(v, 5) % 256;
    buf[at + 3] := Shr8(v, 4) % 256;
    buf[at + 4] := Shr8(v, 3) % 256;
    buf[at + 5] := Shr8(v, 2) % 256;
    buf[at + 6] := Shr8(v, 1) % 256;
    buf[at + 7] := Shr8(v, 0) % 256;
    Digits(v, W64);
    IsPut(buf[..], old(buf[..]), at, BigEndian(v, W64));
    return at + W64;
  }

  method SerializeMem(buf: array<byte>, at: nat, src: seq<byte>) returns (next: nat)
    requires at + |src| <= buf.Length
    modifies buf
    ensures next == at + |src| && buf[..] == Put(old(buf[..]), at, src)
  {
    forall i | 0 <= i < |src| {
      buf[at + i] := src[i];
    }
    IsPut(buf[..], old(buf[..]), at, src);
    return at + |src|;
  }

  /** Writes n bytes of src and replaces the last by the terminator. With n = 0 nothing is copied,
      but the byte before the position is still set to zero. */
  method SerializeString(buf: array<byte>, at: nat, src: seq<byte>, n: nat) returns (next: nat)
    requires n <= |src| && at + n <= buf.Length && (n == 0 ==> 0 < at <= buf.Length)
    modifies buf
    ensures next == at + n
    ensures n == 0 ==> buf[..] == old(buf[..])[at - 1 := 0]
    ensures n > 0 ==> buf[..] == Put(old(buf[..]), at, src[..n - 1] + [0])
  {
    forall i | 0 <= i < n {
      buf[at + i] := src[i];
    }
    buf[at + n - 1] := 0;
    if n > 0 {
      IsPut(buf[..], old(buf[..]), at, src[..n - 1] + [0]);
    }
    return at + n;
  }

  // ----- reading ------------------------------------------------------------------------

  /** Splits w bytes off s and reads them as a big-endian number. */
  function TakeInt(s: seq<byte>, w: nat): (r: Option<(nat, seq<byte>)>) {
    if |s| < w then None else Some((FromBigEndian(s[..w]), s[w..]))
  }

  lemma TakeWritten(v: nat, w: nat, rest: seq<byte>)
    requires v < Pow256(w)
    ensures TakeInt(BigEndian(v, w) + rest, w) == Some((v, rest))
  {
    BigEndianRoundTrip(v, w);
    assert (BigEndian(v, w) + rest)[..w] == BigEndian(v, w);
    assert (BigEndian(v, w) + rest)[w..] == rest;
  }

  function TakeU16(s: seq<byte>): (r: Option<(u16, seq<byte>)>) {
    if |s| < W16 then None
    else
      FromBigEndianBound(s[..W16]);
      Pow256Values();
      Some((FromBigEndian(s[..W16]), s[W16..]))
  }

  function TakeU64(s: seq<byte>): (r: Option<(u64, seq<byte>)>) {
    if |s| < W64 then None
    else
      FromBigEndianBound(s[..W64]);
      Pow256Values();
      Some((FromBigEndian(s[..W64]), s[W64..]))
  }

  lemma TakeWrittenU16(v: u16, rest: seq<byte>)
    ensures TakeU16(BigEndian(v, W16) + rest) == Some((v, rest))
  {
    Pow256Values();
    TakeWritten(v, W16, rest);
  }

  lemma TakeWrittenU64(v: u64, rest: seq<byte>)
    ensures TakeU64(BigEndian(v, W64) + rest) == Some((v, rest))
  {
    Pow256Values();
    TakeWritten(v, W64, rest);
  }

  lemma Horner(s: seq<byte>, k: nat)
    requires k < |s|
    ensures FromBigEndian(s[..k + 1]) == 256 * FromBigEndian(s[..k]) + s[k]
  {
    assert s[..k + 1][..k] == s[..k];
  }

  lemma Value16(s: seq<byte>)
    requires |s| == W16
    ensures FromBigEndian(s) == (s[0] as int) * 0x100 + s[1]
  {
    Horner(s, 0);
    Horner(s, 1);
    assert s[..W16] == s;
  }

  lemma Value32(s: seq<byte>)
    requires |s| == W32
    ensures FromBigEndian(s) == (s[0] as int) * 0x100_0000 + (s[1] as int) * 0x1_0000 + (s[2] as int) * 0x100 + s[3]
  {
    Value16(s[..W16]);
    Horner(s, 2);
    Horner(s, 3);
    assert s[..W32] == s;
  }

  lemma Value64(s: seq<byte>)
    requires |s| == W64
    ensures FromBigEndian(s)
         == (s[0] as int) * 0x100_0000_0000_0000 + (s[1] as int) * 0x1_0000_0000_0000 + (s[2] as int) * 0x100_0000_0000 + (s[3] as int) * 0x1_0000_0000
          + (s[4] as int) * 0x100_0000 + (s[5] as int) * 0x1_0000 + (s[6] as int) * 0x100 + s[7]
  {
    Value32(s[..W32]);
    Horner(s, 4);
    Horner(s, 5);
    Horner(s, 6);
    Horner(s, 7);
    assert s[..W64] == s;
  }

  method DeserializeU16(buf: array<byte>, at: nat) returns (v: u16, next: nat)
    requires at + W16 <= buf.Length
    ensures next == at + W16 && TakeU16(buf[at..]) == Some((v, buf[next..]))
  {
    v := (buf[at] as int) * 0x100;
    v := v + buf[at + 1];
    next := at + W16;
    Value16(buf[at..next]);
    assert buf[at..][..W16] == buf[at..next];
  }

  method DeserializeU32(buf: array<byte>, at: nat) returns (v: u32, next: nat)
    requires at + W32 <= buf.Length
    ensures next == at + W32 && v == FromBigEndian(buf[at..next])
  {
    v := (buf[at] as int) * 0x100_0000;
    v := v + (buf[at + 1] as int) * 0x1_0000;
    v := v + (buf[at + 2] as int) * 0x100;
    v := v + buf[at + 3];
    next := at + W32;
    Value32(buf[at..next]);
  }

  method DeserializeU64(buf: array<byte>, at: nat) returns (v: u64, next: nat)
    requires at + W64 <= buf.Length
    ensures next == at + W64 && TakeU64(buf[at..]) == Some((v, buf[next..]))
  {
    v := (buf[at] as int) * 0x100_0000_0000_0000;
    v := v + (buf[at + 1] as int) * 0x1_0000_0000_0000;
    v := v + (buf[at + 2] as int) * 0x100_0000_0000;
    v := v + (buf[at + 3] as int) * 0x1_0000_0000;
    v := v + (buf[at + 4] as int) * 0x100_0000;
    v := v + (buf[at + 5] as int) * 0x1_0000;
    v := v + (buf[at + 6] as int) * 0x100;
    v := v + buf[at + 7];
    next := at + W64;
    Value64(buf[at..next]);
    assert buf[at..][..W64] == buf[at..next];
  }

  /** strncpy: the bytes up to the first terminator, then zeros. */
  function StrNCpy(s: seq<byte>): (r: seq<byte>)
    ensures |r| == |s|
  {
    if s == [] then [] else if s[0] == 0 then Zeros(|s|) else [s[0]] + StrNCpy(s[1..])
  }

  lemma {:induction false} StrNCpyAt(s: seq<byte>, i: nat)
    requires i < |s|
    ensures StrNCpy(s)[i] == if exists j :: 0 <= j < i && s[j] == 0 then 0 else s[i]
  {
    if s[0] != 0 && i > 0 {
      StrNCpyAt(s[1..], i - 1);
      if j :| 0 <= j < i && s[j] == 0 {
        assert s[1..][j - 1] == 0;
      }
    }
  }

  /** What rm_deserialize_string leaves in n bytes of destination. */
  function Received(s: seq<byte>): (r: seq<byte>)
    ensures |r| == |s|
  {
    if s == [] then [] else StrNCpy(s)[|s| - 1 := 0]
  }

  /** A string survives exactly when it ends in a terminator and holds nothing after the first. */
  ghost predicate CString(s: seq<byte>) {
    && (s != [] ==> s[|s| - 1] == 0)
    && forall i, j | 0 <= i < j < |s| :: s[i] == 0 ==> s[j] == 0
  }

  /** Byte i of what is received. */
  lemma ReceivedAt(s: seq<byte>, i: nat)
    requires i < |s|
    ensures Received(s)[i] == if i == |s| - 1 || exists j :: 0 <= j < i && s[j] == 0 then 0 else s[i]
  {
    StrNCpyAt(s, i);
  }

  lemma CStringReceived(s: seq<byte>)
    requires CString(s)
    ensures Received(s) == s
  {
    forall i | 0 <= i < |s|
      ensures Received(s)[i] == s[i]
    {
      ReceivedAt(s, i);
    }
  }

  lemma ReceivedCString(s: seq<byte>)
    ensures CString(Received(s))
  {
    var r := Received(s);
    forall i, j | 0 <= i < j < |r| && r[i] == 0
      ensures r[j] == 0
    {
      ReceivedAt(s, i);
      ReceivedAt(s, j);
    }
  }

  lemma ReceivedExactly(s: seq<byte>)
    ensures Received(s) == s <==> CString(s)
  {
    ReceivedCString(s);
    if CString(s) {
      CStringReceived(s);
    }
  }
}
