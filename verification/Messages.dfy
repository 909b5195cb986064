/** Control messages: headers, push requests and their acknowledgements, from the sender's
    structure to bytes and back. */
module Messages {
  import opened Machine
  import opened Serialize

  const NAME_MAX: nat := 1000
  const SSID: nat := 16
  const HDR_LEN: nat := 8

  // the members of enum rm_pt_type
  const PUSH: byte := 0
  const PUSH_ACK: byte := 1
  const PULL: byte := 2
  const PULL_ACK: byte := 3
  const ACK: byte := 4
  const BYE: byte := 5

  datatype Header = Header(hash: u32, pt: byte, flags: byte, len: u16)

  /** A size field and the fixed-size character array it belongs to. */
  datatype Name = Name(sz: u16, chars: seq<byte>) {
    predicate Valid() { |chars| == NAME_MAX && sz <= NAME_MAX }
  }

  datatype Names = Names(x: Name, y: Name, z: Name) {
    predicate Valid() { x.Valid() && y.Valid() && z.Valid() }
  }

  datatype Push = Push(
    hdr: Header, ssid: seq<byte>, L: u64, names: Names, port: u16, bytes: u64
  ) {
    predicate Valid() { |ssid| == SSID && names.Valid() }
  }

  datatype PushAck = PushAck(hdr: Header, port: u16, chChN: u64)

  // ----- the header hash ----------------------------------------------------------------

  function Challenge(h: Header): u32 { h.pt as int * 0x100_0000 + h.flags as int * 0x1_0000 + h.len }

  /** Two headers pose the same challenge exactly when type, flags and length agree. */
  lemma ChallengeIs(h: Header, g: Header)
    ensures Challenge(h) == Challenge(g) <==> h.pt == g.pt && h.flags == g.flags && h.len == g.len
    ensures Challenge(Header(0, 1, 2, 0x0304)) == 0x0102_0304
  {
    var a, b := h.flags as int * 0x1_0000 + h.len, g.flags as int * 0x1_0000 + g.len;
    if Challenge(h) == Challenge(g) {
      SameQuotient(h.pt, a, g.pt, b, 0x100_0000);
      SameQuotient(h.flags, h.len, g.flags, g.len, 0x1_0000);
    }
  }

  function HdrHash(hash32: u32 -> u32, h: Header): u32 { hash32(Challenge(h)) }

  /** Byte swap of a 32-bit load on a little-endian host. */
  function Ntohl(v: nat): nat { FromBigEndian(LittleEndian(v, W32)) }

  lemma {:induction false} LittleEndianInverse(s: seq<byte>)
    ensures LittleEndian(FromLittleEndian(s), |s|) == s
  {
    if s != [] {
      LittleEndianInverse(s[1..]);
      assert FromLittleEndian(s) / 256 == FromLittleEndian(s[1..]) && FromLittleEndian(s) % 256 == s[0];
    }
  }

  function HeaderBytes(h: Header): (s: seq<byte>)
    ensures |s| == HDR_LEN
  {
    BigEndian(h.hash, W32) + [h.pt] + [h.flags] + BigEndian(h.len, W16)
  }

  function ParseHeader(s: seq<byte>): (h: Header)
    requires |s| == HDR_LEN
  {
    FromBigEndianBound(s[..4]);
    FromBigEndianBound(s[6..]);
    Pow256Values();
    Header(FromBigEndian(s[..4]), s[4], s[5], FromBigEndian(s[6..]))
  }

  lemma HeaderRoundTrip(h: Header)
    ensures ParseHeader(HeaderBytes(h)) == h
  {
    var s := HeaderBytes(h);
    assert s[..4] == BigEndian(h.hash, W32) && s[6..] == BigEndian(h.len, W16);
    Pow256Values();
    BigEndianRoundTrip(h.hash, W32);
    BigEndianRoundTrip(h.len, W16);
  }

  /** Where the eight bytes of a header stand. */
  lemma HeaderLayout(h: Header, a: byte, b: byte, c: byte, d: byte)
    requires h.hash == a * 0x100_0000 + b * 0x1_0000 + c * 0x100 + d
    ensures HeaderBytes(h) == [a, b, c, d] + [h.pt, h.flags] + [h.len / 0x100, h.len % 0x100]
  {
    WordBytes(h.hash, W32, d, c, b, a);
    ShortBytes(h.len, W16);
  }

  predicate KnownPt(pt: byte) { pt == PUSH || pt == PUSH_ACK || pt == PULL || pt == PULL_ACK || pt == BYE }

  method SerializeHdr(buf: array<byte>, at: nat, h: Header) returns (next: nat)
    requires at + HDR_LEN <= buf.Length
    modifies buf
    ensures next == at + HDR_LEN && buf[..] == Put(old(buf[..]), at, HeaderBytes(h))
  {
    ghost var b0, w := buf[..], BigEndian(h.hash, W32);
    next := SerializeU32(buf, at, h.hash);
    next := SerializeU8(buf, next, h.pt);
    PutPut(b0, at, w, [h.pt]);
    next := SerializeU8(buf, next, h.flags);
    PutPut(b0, at, w + [h.pt], [h.flags]);
    next := SerializeU16(buf, next, h.len);
    PutPut(b0, at, w + [h.pt] + [h.flags], BigEndian(h.len, W16));
  }

  lemma HeaderSlices(b: seq<byte>, at: nat, next: nat)
    requires next == at + HDR_LEN <= |b|
    ensures b[at..next][..4] == b[at..at + 4]
    ensures b[at..next][6..] == b[at + 6..next] == b[at + 6..][..W16]
  {
  }

  method DeserializeHdr(buf: array<byte>, at: nat) returns (h: Header, next: nat)
    requires at + HDR_LEN <= buf.Length
    ensures next == at + HDR_LEN && h == ParseHeader(buf[at..next])
  {
    var hash, len;
    hash, next := DeserializeU32(buf, at);
    var pt, flags := buf[next], buf[next + 1];
    len, next := DeserializeU16(buf, next + 2);
    h := Header(hash, pt, flags, len);
    HeaderSlices(buf[..], at, next);
  }

  /** Accepts the first bytes of a message exactly when they are a whole header whose hash is that
      of its other fields and whose type is known; the acknowledgement type ACK is not. */
  method ValidateHdr(hash32: u32 -> u32, buf: array<byte>, readN: nat) returns (err: Error)
    requires readN >= HDR_LEN ==> buf.Length >= HDR_LEN
    ensures readN < HDR_LEN ==> err == Fail
    ensures readN >= HDR_LEN ==>
      var h := ParseHeader(buf[..HDR_LEN]);
      err == if h.hash != HdrHash(hash32, h) then Fail else if h.pt <= 3 || h.pt == 5 then OK else PtUnknown
  {
    if readN < HDR_LEN {
      return Fail;
    }
    var hash := Ntohl(FromLittleEndian(buf[0..4]));
    LittleEndianInverse(buf[0..4]);
    var pt, flags := buf[4], buf[5];
    var len, _ := DeserializeU16(buf, 6);
    HeaderSlices(buf[..], 0, HDR_LEN);
    var challenge := hash32(pt as int * 0x100_0000 + flags as int * 0x1_0000 + len);
    if hash != challenge {
      return Fail;
    }
    if KnownPt(pt) {
      return OK;
    }
    return PtUnknown;
  }

  // ----- names --------------------------------------------------------------------------

  function NameBytes(n: Name): seq<byte>
    requires n.Valid()
  {
    BigEndian(n.sz, W16) + if n.sz == 0 then [] else n.chars[..n.sz - 1] + [0]
  }

  /** What the receiver makes of a name: a longer one than fits is cut, the rest is zero. */
  function ParseName(s: seq<byte>): Option<(Name, seq<byte>)> {
    match TakeU16(s)
    case None => None
    case Some((sz, rest)) =>
      var n := Min(sz, NAME_MAX);
      if |rest| < n then None
      else Some((Name(sz, Received(rest[..n]) + Zeros(NAME_MAX - n)), rest[n..]))
  }

  /** Absent, or one terminated string that fills its size field, in an array otherwise zero. */
  ghost predicate Clean(n: Name)
    requires n.Valid()
  {
    CString(n.chars[..n.sz]) && forall i | n.sz <= i < NAME_MAX :: n.chars[i] == 0
  }

  /** The name as received. */
  function Arrived(n: Name): Name
    requires n.Valid()
  {
    Name(n.sz, Received(NameBytes(n)[W16..]) + Zeros(NAME_MAX - n.sz))
  }

  lemma NameTravels(n: Name, rest: seq<byte>)
    requires n.Valid()
    ensures |NameBytes(n)| == W16 + n.sz && ParseName(NameBytes(n) + rest) == Some((Arrived(n), rest))
  {
    var t := NameBytes(n)[W16..];
    assert NameBytes(n) == BigEndian(n.sz, W16) + t;
    Associate(BigEndian(n.sz, W16), t, rest);
    TakeWrittenU16(n.sz, t + rest);
    assert (t + rest)[..n.sz] == t && (t + rest)[n.sz..] == rest;
  }

  lemma TerminatedExactly(s: seq<byte>, t: seq<byte>)
    requires |t| == |s| && (s != [] ==> t == s[..|s| - 1] + [0])
    ensures Received(t) == s <==> CString(s)
  {
    ReceivedExactly(t);
    ReceivedCString(t);
    if CString(s) {
      assert t == s;
    }
  }

  lemma PaddedExactly(r: seq<byte>, zeros: seq<byte>, s: seq<byte>, w: seq<byte>)
    requires |r| == |s| && zeros == Zeros(|w|)
    ensures r + zeros == s + w <==> r == s && forall i | 0 <= i < |w| :: w[i] == 0
  {
    assert (r + zeros)[..|r|] == r && (r + zeros)[|r|..] == zeros;
    assert (s + w)[..|r|] == s && (s + w)[|r|..] == w;
    if forall i | 0 <= i < |w| :: w[i] == 0 {
      assert w == zeros;
    }
  }

  /** A name arrives as it was exactly when it is clean. */
  lemma ArrivesExactly(n: Name)
    requires n.Valid()
    ensures Arrived(n) == n <==> Clean(n)
  {
    var s, t, w := n.chars[..n.sz], NameBytes(n)[W16..], n.chars[n.sz..];
    assert n.sz > 0 ==> t == s[..n.sz - 1] + [0];
    TerminatedExactly(s, t);
    PaddedExactly(Received(t), Zeros(NAME_MAX - n.sz), s, w);
    assert n.chars == s + w;
    assert forall i | n.sz <= i < NAME_MAX :: n.chars[i] == w[i - n.sz];
  }

  /** Writes a size field and its string. The absent string's stray zero lands on the low byte of
      its own size field, which is zero already. */
  method SerializeName(buf: array<byte>, at: nat, n: Name) returns (next: nat)
    requires n.Valid() && at + |NameBytes(n)| <= buf.Length
    modifies buf
    ensures next == at + |NameBytes(n)| && buf[..] == Put(old(buf[..]), at, NameBytes(n))
  {
    ghost var b0 := buf[..];
    next := SerializeU16(buf, at, n.sz);
    ghost var b1 := buf[..];
    next := SerializeString(buf, next, n.chars, n.sz);
    if n.sz == 0 {
      assert BigEndian(0, W16)[1] == 0;
      assert b1[at + 1] == 0;
      assert buf[..] == b1;
      assert NameBytes(n) == BigEndian(0, W16);
    } else {
      PutPut(b0, at, BigEndian(n.sz, W16), n.chars[..n.sz - 1] + [0]);
    }
  }

  method DeserializeName(buf: array<byte>, at: nat) returns (n: Name, next: nat)
    requires at <= buf.Length && ParseName(buf[at..]).Some?
    ensures at <= next <= buf.Length && ParseName(buf[at..]) == Some((n, buf[next..]))
  {
    var sz;
    sz, next := DeserializeU16(buf, at);
    var chars := Zeros(NAME_MAX);
    if sz > 0 {
      var k := Min(sz, NAME_MAX);
      assert buf[next..][..k] == buf[next..next + k] && buf[next..][k..] == buf[next + k..];
      chars := Received(buf[next..next + k]) + Zeros(NAME_MAX - k);
      next := next + k;
    } else {
      assert buf[next..][..0] == [] && buf[next..][0..] == buf[next..];
      assert Received([]) + Zeros(NAME_MAX) == chars;
    }
    n := Name(sz, chars);
  }

  // ----- push ---------------------------------------------------------------------------

  function NamesBytes(n: Names): seq<byte>
    requires n.Valid()
  {
    NameBytes(n.x) + NameBytes(n.y) + NameBytes(n.z)
  }

  function BodyBytes(m: Push): seq<byte>
    requires m.Valid()
  {
    m.ssid + BigEndian(m.L, W64) + NamesBytes(m.names) + BigEndian(m.port, W16) + BigEndian(m.bytes, W64)
  }

  function PushBytes(m: Push): seq<byte>
    requires m.Valid()
  {
    HeaderBytes(m.hdr) + BodyBytes(m)
  }

  function ParseNames(s: seq<byte>): Option<(Names, seq<byte>)> {
    match ParseName(s) case None => None case Some((x, s1)) =>
    match ParseName(s1) case None => None case Some((y, s2)) =>
    match ParseName(s2) case None => None case Some((z, s3)) =>
      Some((Names(x, y, z), s3))
  }

  /** What stands behind the fixed beginning of a body. */
  function ParseRest(hdr: Header, ssid: seq<byte>, s0: seq<byte>): Option<(Push, seq<byte>)> {
    match TakeU64(s0) case None => None case Some((L, s1)) =>
    match ParseNames(s1) case None => None case Some((names, s2)) =>
    match TakeU16(s2) case None => None case Some((port, s3)) =>
    match TakeU64(s3) case None => None case Some((bytes, s4)) =>
      Some((Push(hdr, ssid, L, names, port, bytes), s4))
  }

  /** The body of a push message at the front of s, with the bytes behind it. */
  function ParseBody(hdr: Header, s: seq<byte>): Option<(Push, seq<byte>)> {
    if |s| < SSID then None else ParseRest(hdr, s[..SSID], s[SSID..])
  }

  function NamesArrived(n: Names): Names
    requires n.Valid()
  {
    Names(Arrived(n.x), Arrived(n.y), Arrived(n.z))
  }

  lemma NamesTravel(n: Names, rest: seq<byte>)
    requires n.Valid()
    ensures ParseNames(NamesBytes(n) + rest) == Some((NamesArrived(n), rest))
  {
    var a, b, c := NameBytes(n.x), NameBytes(n.y), NameBytes(n.z);
    assert a + b + c + rest == a + (b + (c + rest));
    NameTravels(n.x, b + (c + rest));
    NameTravels(n.y, c + rest);
    NameTravels(n.z, rest);
  }

  lemma Slices(a: seq<byte>, b: seq<byte>, c: seq<byte>, d: seq<byte>, e: seq<byte>, f: seq<byte>)
    ensures var s := a + (b + c + d + e + f);
            var i, j, k, l, m := |a|, |a| + |b|, |a| + |b| + |c|, |a| + |b| + |c| + |d|, |a| + |b| + |c| + |d| + |e|;
            && |s| == m + |f| && s[..i] == a && s[i..j] == b && s[j..k] == c && s[k..l] == d && s[l..m] == e && s[m..] == f
  {
  }

  lemma FiveParts(s: seq<byte>, a: seq<byte>, b: seq<byte>, c: seq<byte>, d: seq<byte>, e: seq<byte>)
    ensures s + a + b + c + d + e == s + (a + (b + (c + (d + e))))
  {
  }

  /** Reading what was written consumes exactly the bytes written. */
  lemma BodyTravels(m: Push, rest: seq<byte>)
    requires m.Valid()
    ensures ParseBody(m.hdr, BodyBytes(m) + rest) == Some((m.(names := NamesArrived(m.names)), rest))
  {
    var a, b, c, d := BigEndian(m.L, W64), NamesBytes(m.names), BigEndian(m.port, W16), BigEndian(m.bytes, W64);
    FiveParts(m.ssid, a, b, c, d, rest);
    assert (m.ssid + (a + (b + (c + (d + rest)))))[..SSID] == m.ssid;
    assert (m.ssid + (a + (b + (c + (d + rest)))))[SSID..] == a + (b + (c + (d + rest)));
    TakeWrittenU64(m.L, b + (c + (d + rest)));
    NamesTravel(m.names, c + (d + rest));
    TakeWrittenU16(m.port, d + rest);
    TakeWrittenU64(m.bytes, rest);
  }

  /** A push message survives the round trip exactly when its three names are clean. */
  lemma PushRoundTrip(m: Push, rest: seq<byte>)
    requires m.Valid()
    ensures ParseBody(m.hdr, BodyBytes(m) + rest) == Some((m, rest))
       <==> Clean(m.names.x) && Clean(m.names.y) && Clean(m.names.z)
  {
    BodyTravels(m, rest);
    ArrivesExactly(m.names.x);
    ArrivesExactly(m.names.y);
    ArrivesExactly(m.names.z);
  }

  /** The length field a message of type pt is given: a sum of 16-bit additions. For a push it is
      taken over the sizes of the message's own names. */
  function CalcMsgLen(pt: byte, x: u16, y: u16, z: u16): u16 {
    if pt == PUSH then
      (HDR_LEN + SSID + W64 + (2 + x) + (if y > 0 then 2 + y else 2) + (if z > 0 then 2 + z else 2) + W16 + W64) % 0x1_0000
    else if pt == PUSH_ACK then HDR_LEN + W16 + W64
    else if pt == PULL_ACK || pt == ACK then HDR_LEN
    else 0
  }

  /** The sizes fit their types: what each type of message is given. */
  lemma LengthValues(x: u16, y: u16, z: u16)
    ensures CalcMsgLen(0, x, y, z) == (48 + x + y + z) % 0x1_0000 && CalcMsgLen(1, x, y, z) == 18
    ensures CalcMsgLen(2, x, y, z) == 0 && CalcMsgLen(3, x, y, z) == CalcMsgLen(4, x, y, z) == 8
  {
  }

  lemma NamesLength(n: Names)
    requires n.Valid()
    ensures |NamesBytes(n)| == 6 + n.x.sz + n.y.sz + n.z.sz
  {
  }

  lemma LengthIsExact(x: u16, y: u16, z: u16)
    requires x <= NAME_MAX && y <= NAME_MAX && z <= NAME_MAX
    ensures CalcMsgLen(PUSH, x, y, z) == 48 + x + y + z
  {
  }

  /** The length field is the number of bytes written. */
  lemma LengthIsWritten(m: Push)
    requires m.Valid()
    ensures var n := m.names;
            |PushBytes(m)| == CalcMsgLen(PUSH, n.x.sz, n.y.sz, n.z.sz) == 48 + n.x.sz + n.y.sz + n.z.sz
  {
    NamesLength(m.names);
    LengthIsExact(m.names.x.sz, m.names.y.sz, m.names.z.sz);
  }

  /** Where the fields of a push request stand: the fixed ones at fixed offsets, the names behind
      them each after its size, port and size of x at the end. */
  lemma PushLayout(m: Push)
    requires m.Valid()
    ensures var s, x, y, z, end := PushBytes(m), m.names.x, m.names.y, m.names.z, |PushBytes(m)|;
            && end == 48 + x.sz + y.sz + z.sz
            && s[..8] == HeaderBytes(m.hdr) && s[8..24] == m.ssid && s[24..32] == BigEndian(m.L, 8)
            && s[32..38 + x.sz + y.sz + z.sz] == NameBytes(x) + NameBytes(y) + NameBytes(z)
            && s[end - 10..end - 8] == BigEndian(m.port, 2) && s[end - 8..] == BigEndian(m.bytes, 8)
  {
    NamesLength(m.names);
    Slices(HeaderBytes(m.hdr), m.ssid, BigEndian(m.L, W64), NamesBytes(m.names), BigEndian(m.port, W16), BigEndian(m.bytes, W64));
  }

  /** What the executed cast reads as the type of a push message is a byte of the header's address:
      the length comes out right exactly when that byte happens to be the type PUSH. */
  lemma LengthExactlyWhen(read: byte, m: Push)
    requires m.Valid()
    ensures var n := m.names;
            CalcMsgLen(read, n.x.sz, n.y.sz, n.z.sz) == |PushBytes(m)| <==> read == PUSH
  {
    LengthIsWritten(m);
  }

  lemma BodyParts(m: Push)
    requires m.Valid()
    ensures BodyBytes(m)
         == m.ssid + BigEndian(m.L, W64) + NamesBytes(m.names) + (BigEndian(m.port, W16) + BigEndian(m.bytes, W64))
  {
    var front := m.ssid + BigEndian(m.L, W64) + NamesBytes(m.names);
    Associate(front, BigEndian(m.port, W16), BigEndian(m.bytes, W64));
  }

  lemma PutFour(b: seq<byte>, at: nat, s: seq<byte>, t: seq<byte>, u: seq<byte>, v: seq<byte>)
    requires at + |s| + |t| + |u| + |v| <= |b|
    ensures Put(Put(Put(Put(b, at, s), at + |s|, t), at + |s| + |t|, u), at + |s| + |t| + |u|, v)
         == Put(b, at, s + t + u + v)
  {
    PutPut(b, at, s, t);
    PutPut(b, at, s + t, u);
    PutPut(b, at, s + t + u, v);
  }

  method SerializeEnd(buf: array<byte>, at: nat, port: u16, bytes: u64) returns (next: nat)
    requires at + W16 + W64 <= buf.Length
    modifies buf
    ensures next == at + W16 + W64
    ensures buf[..] == Put(old(buf[..]), at, BigEndian(port, W16) + BigEndian(bytes, W64))
  {
    next := SerializeU16(buf, at, port);
    next := SerializeU64(buf, next, bytes);
    PutPut(old(buf[..]), at, BigEndian(port, W16), BigEndian(bytes, W64));
  }

  lemma PutThree(b: seq<byte>, at: nat, s: seq<byte>, t: seq<byte>, u: seq<byte>)
    requires at + |s| + |t| + |u| <= |b|
    ensures Put(Put(Put(b, at, s), at + |s|, t), at + |s| + |t|, u) == Put(b, at, s + t + u)
  {
    PutPut(b, at, s, t);
    PutPut(b, at, s + t, u);
  }

  method SerializeNames(buf: array<byte>, at: nat, n: Names) returns (next: nat)
    requires n.Valid() && at + |NamesBytes(n)| <= buf.Length
    modifies buf
    ensures next == at + |NamesBytes(n)| && buf[..] == Put(old(buf[..]), at, NamesBytes(n))
  {
    PutThree(buf[..], at, NameBytes(n.x), NameBytes(n.y), NameBytes(n.z));
    next := SerializeName(buf, at, n.x);
    next := SerializeName(buf, next, n.y);
    next := SerializeName(buf, next, n.z);
  }

  method SerializeBody(buf: array<byte>, at: nat, m: Push) returns (next: nat)
    requires m.Valid() && at + |BodyBytes(m)| <= buf.Length
    modifies buf
    ensures next == at + |BodyBytes(m)| && buf[..] == Put(old(buf[..]), at, BodyBytes(m))
  {
    ghost var names, end := NamesBytes(m.names), BigEndian(m.port, W16) + BigEndian(m.bytes, W64);
    BodyParts(m);
    PutFour(buf[..], at, m.ssid, BigEndian(m.L, W64), names, end);
    next := SerializeMem(buf, at, m.ssid);
    next := SerializeU64(buf, next, m.L);
    next := SerializeNames(buf, next, m.names);
    next := SerializeEnd(buf, next, m.port, m.bytes);
  }

  method SerializePush(buf: array<byte>, at: nat, m: Push) returns (next: nat)
    requires m.Valid() && at + |PushBytes(m)| <= buf.Length
    modifies buf
    ensures next == at + |PushBytes(m)| && buf[..] == Put(old(buf[..]), at, PushBytes(m))
  {
    next := SerializeHdr(buf, at, m.hdr);
    next := SerializeBody(buf, next, m);
    PutPut(old(buf[..]), at, HeaderBytes(m.hdr), BodyBytes(m));
  }

  method DeserializeNames(buf: array<byte>, at: nat) returns (n: Names, next: nat)
    requires at <= buf.Length && ParseNames(buf[at..]).Some?
    ensures at <= next <= buf.Length && ParseNames(buf[at..]) == Some((n, buf[next..]))
  {
    var x, y, z;
    x, next := DeserializeName(buf, at);
    y, next := DeserializeName(buf, next);
    z, next := DeserializeName(buf, next);
    n := Names(x, y, z);
  }

  method DeserializeRest(buf: array<byte>, at: nat, hdr: Header, ssid: seq<byte>) returns (m: Push, next: nat)
    requires at <= buf.Length && ParseRest(hdr, ssid, buf[at..]).Some?
    ensures at <= next <= buf.Length && ParseRest(hdr, ssid, buf[at..]) == Some((m, buf[next..]))
  {
    var L, names, port, bytes;
    L, next := DeserializeU64(buf, at);
    names, next := DeserializeNames(buf, next);
    port, next := DeserializeU16(buf, next);
    bytes, next := DeserializeU64(buf, next);
    m := Push(hdr, ssid, L, names, port, bytes);
  }

  method DeserializeBody(buf: array<byte>, at: nat, hdr: Header) returns (m: Push, next: nat)
    requires at <= buf.Length && ParseBody(hdr, buf[at..]).Some?
    ensures at <= next <= buf.Length && ParseBody(hdr, buf[at..]) == Some((m, buf[next..]))
  {
    var ssid := buf[at..at + SSID];
    assert buf[at..][..SSID] == ssid && buf[at..][SSID..] == buf[at + SSID..];
    m, next := DeserializeRest(buf, at + SSID, hdr, ssid);
  }

  /** The sender of a push request: fill in length and hash, allocate that many bytes, serialize. */
  method TransmitPush(hash32: u32 -> u32, m0: Push) returns (m: Push, raw: array<byte>)
    requires m0.Valid() && m0.hdr.pt == PUSH
    ensures m == m0.(hdr := Header(HdrHash(hash32, m.hdr), PUSH, m0.hdr.flags, m.hdr.len))
    ensures fresh(raw) && m.hdr.len == raw.Length && raw[..] == PushBytes(m)
  {
    var n := m0.names;
    var hdr := m0.hdr.(len := CalcMsgLen(m0.hdr.pt, n.x.sz, n.y.sz, n.z.sz));
    hdr := hdr.(hash := HdrHash(hash32, hdr));
    m := m0.(hdr := hdr);
    LengthIsWritten(m);
    raw := new byte[hdr.len];
    var end := SerializePush(raw, 0, m);
  }

  /** A push request on its way: the receiver validates the header, takes the bytes behind it and
      deserializes. The header is always accepted, and the message is the sender's exactly when
      the names are clean. */
  method PushExchange(hash32: u32 -> u32, m0: Push) returns (m: Push, err: Error, r: Push)
    requires m0.Valid() && m0.hdr.pt == PUSH
    ensures m == m0.(hdr := Header(HdrHash(hash32, m.hdr), PUSH, m0.hdr.flags, m.hdr.len))
    ensures err == OK
    ensures r == m <==> Clean(m.names.x) && Clean(m.names.y) && Clean(m.names.z)
  {
    var raw;
    m, raw := TransmitPush(hash32, m0);
    assert raw[..HDR_LEN] == HeaderBytes(m.hdr) && raw[HDR_LEN..] == BodyBytes(m) + [];
    HeaderRoundTrip(m.hdr);
    err := ValidateHdr(hash32, raw, HDR_LEN);
    var hdr, next := DeserializeHdr(raw, 0);
    BodyTravels(m, []);
    PushRoundTrip(m, []);
    r, next := DeserializeBody(raw, next, hdr);
  }

  // ----- push acknowledgement -----------------------------------------------------------

  function PushAckBytes(a: PushAck): seq<byte> {
    HeaderBytes(a.hdr) + BigEndian(a.port, W16) + BigEndian(a.chChN, W64)
  }

  /** Where the fields of an acknowledgement stand. */
  lemma PushAckLayout(a: PushAck)
    ensures var s := PushAckBytes(a);
            && |s| == 18 && s[..8] == HeaderBytes(a.hdr)
            && s[8..10] == BigEndian(a.port, 2) && s[10..] == BigEndian(a.chChN, 8)
  {
  }

  method SerializePushAck(buf: array<byte>, at: nat, a: PushAck) returns (next: nat)
    requires at + CalcMsgLen(PUSH_ACK, 0, 0, 0) <= buf.Length
    modifies buf
    ensures next == at + CalcMsgLen(PUSH_ACK, 0, 0, 0) && buf[..] == Put(old(buf[..]), at, PushAckBytes(a))
  {
    ghost var b0, w := buf[..], HeaderBytes(a.hdr);
    next := SerializeHdr(buf, at, a.hdr);
    next := SerializeU16(buf, next, a.port);
    PutPut(b0, at, w, BigEndian(a.port, W16));
    next := SerializeU64(buf, next, a.chChN);
    PutPut(b0, at, w + BigEndian(a.port, W16), BigEndian(a.chChN, W64));
  }

  /** Inverts SerializePushAck. */
  method DeserializePushAck(buf: array<byte>, at: nat) returns (a: PushAck, next: nat)
    requires at + CalcMsgLen(PUSH_ACK, 0, 0, 0) <= buf.Length
    ensures next == at + CalcMsgLen(PUSH_ACK, 0, 0, 0)
    ensures forall sent | buf[at..next] == PushAckBytes(sent) :: a == sent
  {
    var h, port, n;
    h, next := DeserializeHdr(buf, at);
    port, next := DeserializeU16(buf, next);
    n, next := DeserializeU64(buf, next);
    a := PushAck(h, port, n);
    forall sent | buf[at..next] == PushAckBytes(sent)
      ensures a == sent
    {
      var tail := buf[next..];
      var last := BigEndian(sent.chChN, W64) + tail;
      assert buf[at..] == buf[at..next] + tail;
      assert buf[at..] == HeaderBytes(sent.hdr) + (BigEndian(sent.port, W16) + last);
      assert buf[at..at + HDR_LEN] == HeaderBytes(sent.hdr);
      assert buf[at + HDR_LEN..] == BigEndian(sent.port, W16) + last;
      HeaderRoundTrip(sent.hdr);
      TakeWrittenU16(sent.port, last);
      TakeWrittenU64(sent.chChN, tail);
    }
  }
}
