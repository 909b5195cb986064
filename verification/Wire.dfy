/** The delta protocol on the TCP stream: a type byte, then a reference, or a length and bytes,
    or nothing. Fields are in host order; lengths other than a literal's are not sent. */
module Wire {
  import opened Machine
  import opened Roller
  import opened Receiver

  /** RM_DELTA_ELEMENT_REF_FIELD_SIZE and RM_DELTA_ELEMENT_BYTES_FIELD_SIZE */
  const FIELD := 8

  /** The values of enum RM_DELTA_ELEMENT_TYPE. */
  const REFERENCE: byte := 0
  const RAW_BYTES: byte := 1
  const ZERO_DIFF: byte := 2
  const TAIL: byte := 3

  /** rm_rx_tx_delta_element */
  function Encode(d: Delta): (s: seq<byte>)
    ensures |s| > 0
  {
    match d
    case Reference(ref, _) => [REFERENCE] + LittleEndian(ref, FIELD)
    case Raw(bytes) => [RAW_BYTES] + LittleEndian(|bytes|, FIELD) + bytes
    case ZeroDiff(_, _) => [ZERO_DIFF]
    case Tail(ref, _) => [TAIL] + LittleEndian(ref, FIELD)
  }

  lemma EightBytes(b: seq<byte>)
    requires |b| == 8
    ensures b == [b[0], b[1], b[2], b[3]] + [b[4], b[5], b[6], b[7]]
  {
  }

  lemma FieldBytes(v: nat, w: nat, low: nat, high: nat, a: seq<byte>, b: seq<byte>)
    requires w == 8 && |a| == |b| == 4 && v == high * TWO32 + low
    requires low == a[3] as int * 0x100_0000 + a[2] as int * 0x1_0000 + a[1] as int * 0x100 + a[0]
    requires high == b[3] as int * 0x100_0000 + b[2] as int * 0x1_0000 + b[1] as int * 0x100 + b[0]
    ensures LittleEndian(v, w) == [a[0], a[1], a[2], a[3]] + [b[0], b[1], b[2], b[3]]
  {
    LongBytes(v, w, a[0], a[1], a[2], a[3], high);
    WordBytes(high, w - 4, b[0], b[1], b[2], b[3]);
  }

  /** The bytes of one element of each kind; b is the reference, or the number of literal bytes,
      least significant byte first. */
  lemma ElementBytes(low: nat, high: nat, b: seq<byte>, n: nat, bytes: seq<byte>)
    requires |b| == 8
    requires low == b[3] as int * 0x100_0000 + b[2] as int * 0x1_0000 + b[1] as int * 0x100 + b[0]
    requires high == b[7] as int * 0x100_0000 + b[6] as int * 0x1_0000 + b[5] as int * 0x100 + b[4]
    ensures var v := high * 0x1_0000_0000 + low;
            && Encode(Reference(v, n)) == [0] + b && Encode(Tail(v, n)) == [3] + b && Encode(ZeroDiff(v, n)) == [2]
            && (|bytes| == v ==> Encode(Raw(bytes)) == [1] + b + bytes)
  {
    EightBytes(b);
    FieldBytes(high * TWO32 + low, FIELD, low, high, b[..4], b[4..]);
  }

  function EncodeAll(ds: seq<Delta>): seq<byte> {
    if ds == [] then [] else Encode(ds[0]) + EncodeAll(ds[1..])
  }

  /** References and sizes fit a size_t. */
  predicate Encodable(d: Delta) {
    Size(d) < TWO64 && (d.Raw? || d.ref < TWO64)
  }

  /** How many bytes the receiver is after, given the beginning of an element: first the type,
      then the fixed field, then the literal bytes whose number the field told. */
  function Needed(buf: seq<byte>): (n: nat)
    ensures n > 0
  {
    if buf == [] then 1
    else if buf[0] == REFERENCE || buf[0] == TAIL then 1 + FIELD
    else if buf[0] == RAW_BYTES then
      if |buf| < 1 + FIELD then 1 + FIELD else 1 + FIELD + FromLittleEndian(buf[1..1 + FIELD])
    else 1
  }

  /** rm_session_delta_rx_f_remote: the element, with the lengths that were not sent derived
      from L, the bytes still expected and the size of y. None is an unknown type. */
  function Parse(L: nat, left: nat, ySize: nat, buf: seq<byte>): Option<Delta>
    requires buf != [] && |buf| >= Needed(buf)
  {
    if buf[0] == REFERENCE then Some(Reference(FromLittleEndian(buf[1..1 + FIELD]), L))
    else if buf[0] == TAIL then Some(Tail(FromLittleEndian(buf[1..1 + FIELD]), left))
    else if buf[0] == RAW_BYTES then Some(Raw(buf[1 + FIELD..Needed(buf)]))
    else if buf[0] == ZERO_DIFF then Some(ZeroDiff(0, ySize))
    else None
  }

  /** bytes_to_rx after the element; a size_t subtraction wraps. */
  function LeftAfter(left: nat, d: Delta): nat {
    match d
    case Reference(_, n) => Wrap64(left - n)
    case Raw(bytes) => Wrap64(left - |bytes|)
    case _ => 0
  }

  /** What arrives of an element: everything but the reference of a ZERO_DIFF. */
  function Arrives(d: Delta): Delta { if d.ZeroDiff? then ZeroDiff(0, d.n) else d }

  // ----- one element --------------------------------------------------------------------

  lemma FieldOfPrefix(kind: byte, field: seq<byte>, rest: seq<byte>, k: nat)
    requires |field| == FIELD && 1 + FIELD <= k <= 1 + FIELD + |rest|
    ensures ([kind] + field + rest)[..k][1..1 + FIELD] == field
  {
    assert ([kind] + field + rest)[..k][1..1 + FIELD] == ([kind] + field)[1..1 + FIELD];
  }

  lemma FieldRoundTrip(v: nat)
    requires v < TWO64
    ensures FromLittleEndian(LittleEndian(v, FIELD)) == v
  {
    Pow256Values();
    LittleEndianRoundTrip(v, FIELD);
  }

  /** While an element arrives the receiver never asks for a byte beyond it, and stops asking
      exactly when it has all of it. */
  lemma NeededOfPrefix(d: Delta, k: nat)
    requires Encodable(d) && k <= |Encode(d)|
    ensures Needed(Encode(d)[..k]) <= |Encode(d)|
    ensures k == 0 || k < Needed(Encode(d)[..k]) || k == |Encode(d)|
    ensures k == |Encode(d)| ==> Needed(Encode(d)[..k]) == k
  {
    var s, buf := Encode(d), Encode(d)[..k];
    if k > 0 {
      assert buf[0] == s[0];
      if d.Raw? && k >= 1 + FIELD {
        FieldOfPrefix(RAW_BYTES, LittleEndian(|d.bytes|, FIELD), d.bytes, k);
        FieldRoundTrip(|d.bytes|);
      }
    }
  }

  lemma ParseEncoded(L: nat, total: nat, done: nat, ySize: nat, d: Delta)
    requires Encodable(d) && Fits(L, total, done, d) && done + Size(d) <= total
    ensures Needed(Encode(d)) == |Encode(d)|
    ensures Parse(L, total - done, ySize, Encode(d))
         == Some(if d.ZeroDiff? then ZeroDiff(0, ySize) else d)
  {
    var s := Encode(d);
    NeededOfPrefix(d, |s|);
    assert s[..|s|] == s;
    match d {
      case Reference(ref, _) =>
        assert s[1..1 + FIELD] == LittleEndian(ref, FIELD);
        FieldRoundTrip(ref);
      case Tail(ref, _) =>
        assert s[1..1 + FIELD] == LittleEndian(ref, FIELD);
        FieldRoundTrip(ref);
      case Raw(bytes) =>
        assert s[1 + FIELD..] == bytes;
      case ZeroDiff(_, _) =>
    }
  }

  lemma EncodeCons(d: Delta, ds: seq<Delta>)
    ensures EncodeAll([d] + ds) == Encode(d) + EncodeAll(ds)
  {
    assert ([d] + ds)[1..] == ds;
  }

  lemma {:induction false} EncodeConcat(a: seq<Delta>, b: seq<Delta>)
    ensures EncodeAll(a + b) == EncodeAll(a) + EncodeAll(b)
  {
    if a == [] {
      assert a + b == b && EncodeAll(a) == [];
    } else {
      assert a + b == [a[0]] + (a[1..] + b);
      EncodeCons(a[0], a[1..] + b);
      EncodeConcat(a[1..], b);
      Associate(Encode(a[0]), EncodeAll(a[1..]), EncodeAll(b));
    }
  }

  // ----- the whole stream ---------------------------------------------------------------

  /** The receiver's loop on a stream that has fully arrived: None when it ends inside an
      element or holds an unknown type. */
  function DecodeAll(L: nat, left: nat, ySize: nat, stream: seq<byte>): Option<(seq<Delta>, seq<byte>)>
    decreases |stream|
  {
    if left == 0 then Some(([], stream))
    else if stream == [] || |stream| < Needed(stream) then None
    else
      match Parse(L, left, ySize, stream)
      case None => None
      case Some(d) =>
        match DecodeAll(L, LeftAfter(left, d), ySize, stream[Needed(stream)..])
        case None => None
        case Some((ds, rest)) => Some(([d] + ds, rest))
  }

  /** Only the first bytes of a stream matter to what is needed and parsed. */
  lemma FirstElement(L: nat, left: nat, ySize: nat, e: seq<byte>, rest: seq<byte>)
    requires e != [] && Needed(e) == |e|
    ensures var s := e + rest;
            && Needed(s) == |e| && Parse(L, left, ySize, s) == Parse(L, left, ySize, e)
            && s[Needed(s)..] == rest
  {
    var s := e + rest;
    assert s[0] == e[0] && s[|e|..] == rest;
    if e[0] == REFERENCE || e[0] == TAIL {
      assert s[1..1 + FIELD] == e[1..1 + FIELD];
    } else if e[0] == RAW_BYTES {
      assert |e| >= 1 + FIELD;
      assert s[1..1 + FIELD] == e[1..1 + FIELD];
      assert Needed(s) == |e|;
      assert s[1 + FIELD..|e|] == e[1 + FIELD..|e|];
    }
  }

  lemma DecodeStep(L: nat, left: nat, ySize: nat, e: seq<byte>, d: Delta, more: seq<byte>, ds: seq<Delta>, rest: seq<byte>)
    requires left > 0 && e != [] && Needed(e) == |e| && Parse(L, left, ySize, e) == Some(d)
    requires DecodeAll(L, LeftAfter(left, d), ySize, more + rest) == Some((ds, rest))
    ensures DecodeAll(L, left, ySize, e + more + rest) == Some(([d] + ds, rest))
  {
    Associate(e, more, rest);
    FirstElement(L, left, ySize, e, more + rest);
  }

  function ArrivesAll(ds: seq<Delta>): seq<Delta> {
    if ds == [] then [] else [Arrives(ds[0])] + ArrivesAll(ds[1..])
  }

  lemma HasZeroDiffFirst(ds: seq<Delta>)
    requires ds != []
    ensures HasZeroDiff(ds) <==> ds[0].ZeroDiff? || HasZeroDiff(ds[1..])
  {
    assert ds == [ds[0]] + ds[1..];
    HasZeroDiffConcat([ds[0]], ds[1..]);
    assert HasZeroDiff([ds[0]]) <==> ds[0].ZeroDiff? by { assert [ds[0]][0] == ds[0]; }
  }

  lemma LeftIsExact(L: nat, total: nat, done: nat, d: Delta)
    requires done <= total < TWO64 && Fits(L, total, done, d)
    ensures done + Size(d) <= total && LeftAfter(total - done, d) == total - done - Size(d)
  {
  }

  predicate AllEncodable(ds: seq<Delta>) { forall i :: 0 <= i < |ds| ==> Encodable(ds[i]) }

  lemma NothingSent(L: nat, ySize: nat, rest: seq<byte>)
    ensures DecodeAll(L, 0, ySize, EncodeAll([]) + rest) == Some((ArrivesAll([]), rest))
  {
    assert EncodeAll([]) + rest == rest;
  }

  lemma EncodableTail(ds: seq<Delta>)
    requires ds != [] && AllEncodable(ds)
    ensures AllEncodable(ds[1..])
  {
  }

  /** What is left of a complete list behind its first element. */
  lemma CompleteTail(L: nat, total: nat, done: nat, ySize: nat, ds: seq<Delta>)
    requires L > 0 && done <= total && Chain(L, total, done, ds) && done + Covered(ds) == total && ds != []
    requires HasZeroDiff(ds) ==> ySize == total
    ensures var next := done + Size(ds[0]);
            && Fits(L, total, done, ds[0]) && (ds[0].ZeroDiff? ==> ySize == total)
            && next <= total && Chain(L, total, next, ds[1..]) && next + Covered(ds[1..]) == total
            && (HasZeroDiff(ds[1..]) ==> ySize == total)
  {
    HasZeroDiffFirst(ds);
  }

  lemma EncodeHead(ds: seq<Delta>)
    requires ds != []
    ensures EncodeAll(ds) == Encode(ds[0]) + EncodeAll(ds[1..]) && ArrivesAll(ds) == [Arrives(ds[0])] + ArrivesAll(ds[1..])
  {
  }

  /** One element in front of the decoded rest. */
  lemma StreamCons(L: nat, total: nat, done: nat, ySize: nat, d: Delta, more: seq<byte>, tail: seq<Delta>, rest: seq<byte>)
    requires L > 0 && done <= total < TWO64 && Fits(L, total, done, d) && Encodable(d) && (d.ZeroDiff? ==> ySize == total)
    requires done + Size(d) <= total && DecodeAll(L, total - (done + Size(d)), ySize, more + rest) == Some((tail, rest))
    ensures DecodeAll(L, total - done, ySize, Encode(d) + more + rest) == Some(([Arrives(d)] + tail, rest))
  {
    LeftIsExact(L, total, done, d);
    ParseEncoded(L, total, done, ySize, d);
    DecodeStep(L, total - done, ySize, Encode(d), Arrives(d), more, tail, rest);
  }

  /** Decoding the encoding of any complete element list recovers every element and length and
      leaves exactly the bytes that follow; a ZERO_DIFF needs y to be as long as x. */
  lemma {:induction false} StreamRoundTrip(L: nat, total: nat, done: nat, ySize: nat, ds: seq<Delta>, rest: seq<byte>)
    requires L > 0 && done <= total < TWO64 && Chain(L, total, done, ds) && done + Covered(ds) == total
    requires AllEncodable(ds) && (HasZeroDiff(ds) ==> ySize == total)
    ensures DecodeAll(L, total - done, ySize, EncodeAll(ds) + rest) == Some((ArrivesAll(ds), rest))
    decreases |ds|
  {
    if ds == [] {
      NothingSent(L, ySize, rest);
    } else {
      CompleteTail(L, total, done, ySize, ds);
      EncodableTail(ds);
      StreamRoundTrip(L, total, done + Size(ds[0]), ySize, ds[1..], rest);
      StreamCons(L, total, done, ySize, ds[0], EncodeAll(ds[1..]), ArrivesAll(ds[1..]), rest);
      EncodeHead(ds);
    }
  }

  /** Exactly when the stream of a whole push decodes to what was sent. */
  lemma StreamExactlyWhen(L: nat, total: nat, ySize: nat, ds: seq<Delta>, rest: seq<byte>)
    requires L > 0 && 0 < total < TWO64 && Chain(L, total, 0, ds) && Covered(ds) == total && AllEncodable(ds)
    ensures DecodeAll(L, total, ySize, EncodeAll(ds) + rest) == Some((ArrivesAll(ds), rest))
       <==> !HasZeroDiff(ds) || ySize == total
  {
    if !HasZeroDiff(ds) || ySize == total {
      StreamRoundTrip(L, total, 0, ySize, ds, rest);
    } else {
      var i :| 0 <= i < |ds| && ds[i].ZeroDiff?;
      ChainShape(L, total, 0, ds, i);
      var d := ds[0];
      assert ds == [d] && d.n == total;
      EncodeCons(d, []);
      ParseEncoded(L, total, 0, ySize, d);
      assert [] + rest == rest;
      DecodeStep(L, total, ySize, Encode(d), ZeroDiff(0, ySize), [], [], rest);
      assert ArrivesAll(ds)[0] == ZeroDiff(0, total);
    }
  }
}
