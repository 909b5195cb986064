/** Machine integers, byte order and the small wrappers every other module uses.
    The host is 64-bit and little-endian, as both ends of a session must be. */
module Machine {
  type byte = x: int | 0 <= x < 0x100
  type u16 = x: int | 0 <= x < 0x1_0000
  type u32 = x: int | 0 <= x < 0x1_0000_0000
  type u64 = x: int | 0 <= x < 0x1_0000_0000_0000_0000

  const TWO32 := 0x1_0000_0000
  const TWO64 := 0x1_0000_0000_0000_0000

  datatype Option<+T> = None | Some(value: T)

  /** The members of `enum rm_error` that the modelled code returns. */
  datatype Error =
    | OK | BadCall | Read | Write | Tx | TooMuchRequested | CopyBuffered | CopyOffset | Eof | Fail | PtUnknown
    | XZeroSize | FileSize | FileSizeRecMismatch | QueueNotEmpty | DeltaTxThread | DeltaRxThread

  function Wrap32(v: int): u32 { v % TWO32 }

  function Wrap64(v: int): u64 { v % TWO64 }

  function Min(a: nat, b: nat): nat { if a > b then b else a }

  function Max(a: nat, b: nat): nat { if a > b then a else b }

  function Zeros(n: nat): (z: seq<byte>)
    ensures |z| == n && forall i :: 0 <= i < n ==> z[i] == 0
  {
    seq(n, i => 0)
  }

  function Pow256(n: nat): (p: nat)
    ensures p >= 1
  {
    if n == 0 then 1 else 256 * Pow256(n - 1)
  }

  lemma Pow256Values()
    ensures Pow256(1) == 0x100 && Pow256(2) == 0x1_0000
    ensures Pow256(4) == TWO32 && Pow256(8) == TWO64
  {
    assert Pow256(3) == 0x100_0000;
    assert Pow256(5) == 0x100_0000_0000;
    assert Pow256(6) == 0x1_0000_0000_0000;
    assert Pow256(7) == 0x100_0000_0000_0000;
  }

  /** The n low-order bytes of v, least significant first. */
  function LittleEndian(v: nat, n: nat): (s: seq<byte>)
    ensures |s| == n
  {
    if n == 0 then [] else [v % 256] + LittleEndian(v / 256, n - 1)
  }

  function FromLittleEndian(s: seq<byte>): nat {
    if s == [] then 0 else s[0] + 256 * FromLittleEndian(s[1..])
  }

  lemma {:induction false} LittleEndianRoundTrip(v: nat, n: nat)
    requires v < Pow256(n)
    ensures FromLittleEndian(LittleEndian(v, n)) == v
  {
    if n > 0 {
      LittleEndianRoundTrip(v / 256, n - 1);
      assert LittleEndian(v, n)[1..] == LittleEndian(v / 256, n - 1);
    }
  }

  /** v shifted right by i bytes. */
  function Shr8(v: nat, i: nat): (r: nat)
  {
    if i == 0 then v else Shr8(v / 256, i - 1)
  }

  lemma {:induction false} LittleEndianDigit(v: nat, n: nat, i: nat)
    requires i < n
    ensures LittleEndian(v, n)[i] == Shr8(v, i) % 256
  {
    if i > 0 {
      LittleEndianDigit(v / 256, n - 1, i - 1);
    }
  }

  /** The n low-order bytes of v, most significant first. */
  function BigEndian(v: nat, n: nat): (s: seq<byte>)
    ensures |s| == n
  {
    if n == 0 then [] else BigEndian(v / 256, n - 1) + [v % 256]
  }

  function FromBigEndian(s: seq<byte>): nat {
    if s == [] then 0 else 256 * FromBigEndian(s[..|s| - 1]) + s[|s| - 1]
  }

  lemma {:induction false} BigEndianRoundTrip(v: nat, n: nat)
    requires v < Pow256(n)
    ensures FromBigEndian(BigEndian(v, n)) == v
  {
    if n > 0 {
      BigEndianRoundTrip(v / 256, n - 1);
      assert BigEndian(v, n)[..n - 1] == BigEndian(v / 256, n - 1);
    }
  }

  lemma FirstDigit(v: nat, w: nat, a: byte, rest: nat)
    requires w > 0 && v == rest * 0x100 + a
    ensures LittleEndian(v, w) == [a] + LittleEndian(rest, w - 1)
    ensures BigEndian(v, w) == BigEndian(rest, w - 1) + [a]
  {
    assert v / 256 == rest && v % 256 == a;
  }

  /** The two byte orders of a 32-bit word. */
  lemma WordBytes(v: nat, w: nat, a: byte, b: byte, c: byte, d: byte)
    requires w == 4 && v == d * 0x100_0000 + c * 0x1_0000 + b * 0x100 + a
    ensures LittleEndian(v, w) == [a, b, c, d] && BigEndian(v, w) == [d, c, b, a]
  {
    var v1, v2, v3: nat := d * 0x1_0000 + c * 0x100 + b, d * 0x100 + c, d;
    FirstDigit(v, w, a, v1);
    FirstDigit(v1, w - 1, b, v2);
    FirstDigit(v2, w - 2, c, v3);
    FirstDigit(v3, w - 3, d, 0);
    assert LittleEndian(0, w - 4) == [] == BigEndian(0, w - 4);
  }

  /** Of a 16-bit word the most significant byte first. */
  lemma ShortBytes(v: u16, w: nat)
    requires w == 2
    ensures BigEndian(v, w) == [v / 0x100, v % 0x100]
  {
    FirstDigit(v, w, v % 0x100, v / 0x100);
    FirstDigit(v / 0x100, w - 1, v / 0x100, 0);
    assert BigEndian(0, w - 2) == [];
  }

  /** A 64-bit word, the byte at its end first. */
  lemma LongBytes(v: nat, w: nat, a: byte, b: byte, c: byte, d: byte, high: nat)
    requires w >= 4 && v == high * TWO32 + d * 0x100_0000 + c * 0x1_0000 + b * 0x100 + a
    ensures LittleEndian(v, w) == [a, b, c, d] + LittleEndian(high, w - 4)
  {
    var v1: nat := high * 0x100_0000 + d * 0x1_0000 + c * 0x100 + b;
    var v2: nat := high * 0x1_0000 + d * 0x100 + c;
    var v3: nat := high * 0x100 + d;
    FirstDigit(v, w, a, v1);
    FirstDigit(v1, w - 1, b, v2);
    FirstDigit(v2, w - 2, c, v3);
    FirstDigit(v3, w - 3, d, high);
  }

  lemma Associate<T>(a: seq<T>, b: seq<T>, c: seq<T>)
    ensures a + b + c == a + (b + c)
  {
  }

  lemma MulAtLeast(k: int, m: int)
    requires k >= 1 && m > 0
    ensures k * m >= m
  {
  }

  lemma MulDistributes(a: int, b: int, m: int)
    ensures (a + b) * m == a * m + b * m
    ensures (a - b) * m == a * m - b * m
  {
  }

  lemma SameQuotient(q: int, r: int, q': int, r': int, m: int)
    requires m > 0 && 0 <= r < m && 0 <= r' < m && q * m + r == q' * m + r'
    ensures q == q' && r == r'
  {
    MulDistributes(q, q', m);
    MulDistributes(q', q, m);
    if q > q' { MulAtLeast(q - q', m); }
    if q < q' { MulAtLeast(q' - q, m); }
  }

  /** A value written as q * m + r with r in range has quotient q and remainder r. */
  lemma QuotientUnique(a: int, q: int, r: int, m: int)
    requires m > 0 && 0 <= r < m && a == q * m + r
    ensures a / m == q && a % m == r
  {
    var q', r' := a / m, a % m;
    assert a == q' * m + r';
    SameQuotient(q, r, q', r', m);
  }

  /** Two integers that differ by a multiple of m have the same remainder. */
  lemma ModCongruent(a: int, b: int, k: int, m: int)
    requires m > 0 && a == b + k * m
    ensures a % m == b % m
  {
    var q := b / m;
    MulDistributes(q, k, m);
    QuotientUnique(a, q + k, b % m, m);
  }

  lemma ModAdd(a: int, b: int, m: int)
    requires m > 0
    ensures (a % m + b) % m == (a + b) % m
  {
    ModCongruent(a + b, a % m + b, a / m, m);
  }

  lemma MulCommutes(k: int, q: int, m: int, r: int)
    ensures k * (q * m + r) == (k * q) * m + k * r
  {
  }

  lemma ModMul(a: int, k: int, m: int)
    requires m > 0
    ensures (k * (a % m)) % m == (k * a) % m
  {
    var q, r := a / m, a % m;
    MulCommutes(k, q, m, r);
    ModCongruent(k * a, k * r, k * q, m);
  }

  /** The value of a remainder modulo a multiple of m is the value itself modulo m. */
  lemma ModOfMod(v: int, word: int, q: int, m: int)
    requires m > 0 && word > 0 && q * m == word
    ensures v % word % m == v % m
  {
    var k := v / word;
    assert v == k * word + v % word;
    MulCommutes(k, q, m, 0);
    ModCongruent(v, v % word, k * q, m);
  }
}
