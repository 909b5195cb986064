/** The fast rolling checksum and Adler-32 of src/rm.c. */
module Checksum {
  import opened Machine

  const FASTCHECK_MODULUS := 65536
  const ADLER32_MODULUS := 65521
  const ADLER32_NMAX := 5552

  /** Sum of the bytes. */
  function Sum(d: seq<byte>): nat {
    if d == [] then 0 else Sum(d[..|d| - 1]) + d[|d| - 1]
  }

  /** Sum of all prefix sums: byte i counts |d| - i times. */
  function Weighted(d: seq<byte>): nat {
    if d == [] then 0 else Weighted(d[..|d| - 1]) + Sum(d)
  }

  /** The halves of the 32-bit checksum `(r2 << 16) | r1`, which every function below packs
      on return and unpacks with a mask and a shift on entry. */
  datatype Check = Check(r1: u16, r2: u16)

  function Word(c: Check): u32 { c.r2 * 0x1_0000 + c.r1 }

  function FromWord(w: nat): Check { Check(w % 0x1_0000, w / 0x1_0000 % 0x1_0000) }

  lemma WordRoundTrip(c: Check, w: u32)
    ensures FromWord(Word(c)) == c && Word(FromWord(w)) == w
  {
    QuotientUnique(Word(c), c.r2, c.r1, 0x1_0000);
  }

  /** The two sums started at (s1, s2) and reduced modulo m once, at the end. */
  function CheckMod(m: nat, s1: nat, s2: nat, d: seq<byte>): Check
    requires 0 < m <= 0x1_0000
  {
    Check((s1 + Sum(d)) % m, (s2 + |d| * s1 + Weighted(d)) % m)
  }

  function FastCheck(d: seq<byte>): Check { CheckMod(FASTCHECK_MODULUS, 0, 0, d) }

  function Adler32(d: seq<byte>): Check { CheckMod(ADLER32_MODULUS, 1, 0, d) }

  /** One byte at the end of the block. */
  lemma SumsSnoc(d: seq<byte>, b: byte)
    ensures Sum(d + [b]) == Sum(d) + b
    ensures Weighted(d + [b]) == Weighted(d) + Sum(d) + b
  {
    assert (d + [b])[..|d|] == d;
  }

  /** One byte at the front of the block: it counts once in Sum and |d| times in Weighted. */
  lemma {:induction false} SumsFront(d: seq<byte>)
    requires d != []
    ensures Sum(d) == d[0] + Sum(d[1..])
    ensures Weighted(d) == |d| * d[0] + Weighted(d[1..])
  {
    var init := d[..|d| - 1];
    if init == [] {
      assert d[1..] == [];
    } else {
      SumsFront(init);
      assert d[1..][..|d| - 2] == init[1..];
      assert |d| * d[0] == |init| * d[0] + d[0];
    }
  }

  lemma {:induction false} SumsConcat(a: seq<byte>, b: seq<byte>)
    ensures Sum(a + b) == Sum(a) + Sum(b)
    ensures Weighted(a + b) == Weighted(a) + |b| * Sum(a) + Weighted(b)
  {
    if b == [] {
      assert a + b == a;
    } else {
      var init := b[..|b| - 1];
      SumsConcat(a, init);
      assert (a + b)[..|a + b| - 1] == a + init;
      MulDistributes(|init|, 1, Sum(a));
    }
  }

  lemma {:induction false} SumsOfZeros(n: nat)
    ensures Sum(Zeros(n)) == 0 && Weighted(Zeros(n)) == 0
  {
    if n > 0 {
      SumsOfZeros(n - 1);
      assert Zeros(n)[..n - 1] == Zeros(n - 1);
    }
  }

  // ----- the per-byte loops -------------------------------------------------------------

  lemma AdlerModAdd(a: int, b: int)
    ensures (a % ADLER32_MODULUS + b) % ADLER32_MODULUS == (a + b) % ADLER32_MODULUS
  {
    ModAdd(a, b, ADLER32_MODULUS);
  }

  lemma TwoRemainders(a: int, b: int, m: nat)
    requires m > 0
    ensures (a % m + b % m) % m == (a + b) % m
  {
    ModAdd(a, b % m, m);
    ModAdd(b, a, m);
  }

  lemma FastCheckSnoc(d: seq<byte>, b: byte)
    ensures var c := FastCheck(d); var r1 := (c.r1 + b) % 0x1_0000;
            FastCheck(d + [b]) == Check(r1, (c.r2 + r1) % 0x1_0000)
  {
    SumsSnoc(d, b);
    ModAdd(Sum(d), b, FASTCHECK_MODULUS);
    TwoRemainders(Weighted(d), Sum(d) + b, FASTCHECK_MODULUS);
  }

  lemma Adler32Snoc(d: seq<byte>, b: byte)
    ensures var m, c := ADLER32_MODULUS, Adler32(d);
            Adler32(d + [b]) == Check((c.r1 + b) % m, (c.r2 + (c.r1 + b) % m) % m)
  {
    SumsSnoc(d, b);
    ModAdd(1 + Sum(d), b, ADLER32_MODULUS);
    TwoRemainders(|d| + Weighted(d), 1 + Sum(d) + b, ADLER32_MODULUS);
  }

  /** What Adler-32 is, with nothing left open: of no byte 1 and 0, and after one more byte the
      first half grows by it and the second by the new first. */
  lemma Adler32Is(d: seq<byte>, b: byte)
    ensures Adler32([]) == Check(1, 0)
    ensures var c := Adler32(d); var r1 := (c.r1 + b) % 65521;
            Adler32(d + [b]) == Check(r1, (c.r2 + r1) % 65521)
  {
    Adler32Snoc(d, b);
  }

  lemma TwoProducts(n: nat, v: nat, w1: nat, w2: nat, m: nat)
    requires m > 0
    ensures (w1 % m + n * (v % m) + w2 % m) % m == (w1 + n * v + w2) % m
  {
    ModAdd(w1, n * (v % m) + w2 % m, m);
    ModMul(v, n, m);
    ModAdd(n * (v % m), w1 + w2 % m, m);
    ModAdd(n * v, w1 + w2 % m, m);
    ModAdd(w2, n * v + w1, m);
  }

  lemma AddedHalves(n: nat, v1: nat, v2: nat, u1: nat, u2: nat, s1: nat, s2: nat)
    requires s1 == v1 + u1 && s2 == v2 + n * v1 + u2
    ensures var m := FASTCHECK_MODULUS;
            && (v1 % m + u1 % m) % m == s1 % m
            && (v2 % m + n * (v1 % m) + u2 % m) % m == s2 % m
  {
    TwoRemainders(v1, u1, FASTCHECK_MODULUS);
    TwoProducts(n, v1, v2, u2, FASTCHECK_MODULUS);
  }

  lemma FastCheckSmall(c: byte)
    ensures FastCheck([]) == Check(0, 0) && FastCheck([c]) == Check(c, c)
  {
    SumsSnoc([], c);
    assert [] + [c] == [c];
  }

  /** What the fast checksum is, with nothing left open: of no byte zero, of one byte that byte
      twice, and of two pieces the halves added, the first piece once more for every byte behind. */
  lemma FastCheckIs(a: seq<byte>, b: seq<byte>, c: byte)
    ensures FastCheck([]) == Check(0, 0) && FastCheck([c]) == Check(c, c)
    ensures var A, B := FastCheck(a), FastCheck(b);
            FastCheck(a + b) == Check((A.r1 + B.r1) % 0x1_0000, (A.r2 + |b| * A.r1 + B.r2) % 0x1_0000)
  {
    FastCheckSmall(c);
    SumsConcat(a, b);
    AddedHalves(|b|, Sum(a), Weighted(a), Sum(b), Weighted(b), Sum(a + b), Weighted(a + b));
  }

  method FastCheckBlock(data: array<byte>, len: nat) returns (c: Check)
    requires len <= data.Length
    ensures c == FastCheck(data[..len])
  {
    var r1: u32, r2: u32 := 0, 0;
    var i := 0;
    while i < len
      invariant 0 <= i <= len
      invariant r1 <= 65535 && r2 <= 65535 && Check(r1, r2) == FastCheck(data[..i])
    {
      assert data[..i + 1] == data[..i] + [data[i]];
      FastCheckSnoc(data[..i], data[i]);
      r1 := (r1 + data[i]) % FASTCHECK_MODULUS;
      r2 := (r2 + r1) % FASTCHECK_MODULUS;
      i := i + 1;
    }
    c := Check(r1, r2);
  }

  method Adler32_1(data: array<byte>, len: nat) returns (c: Check)
    requires len <= data.Length
    ensures c == Adler32(data[..len])
  {
    var r1: u32, r2: u32 := 1, 0;
    var i := 0;
    while i < len
      invariant 0 <= i <= len
      invariant r1 <= 65535 && r2 <= 65535 && Check(r1, r2) == Adler32(data[..i])
    {
      assert data[..i + 1] == data[..i] + [data[i]];
      Adler32Snoc(data[..i], data[i]);
      r1 := (r1 + data[i]) % ADLER32_MODULUS;
      r2 := (r2 + r1) % ADLER32_MODULUS;
      i := i + 1;
    }
    c := Check(r1, r2);
  }

  // ----- rolling under machine wrap-around ----------------------------------------------

  function RolledMod(m: nat, c: Check, out: byte, inn: byte, lost: nat): Check
    requires 0 < m <= 0x1_0000
  {
    var r1 := Wrap32(c.r1 - out + inn) % m;
    var r2 := Wrap64(Wrap32(c.r2 + r1) - Wrap64(lost)) % m;
    Check(r1, r2)
  }

  /** The roll of rm_fast_check_roll for any modulus: r1 is computed in 32-bit unsigned
      arithmetic, L * out and the r2 difference in 64-bit unsigned arithmetic. */
  function RollMod(m: nat, c: Check, out: byte, inn: byte, L: u64): Check
    requires 0 < m <= 0x1_0000
  {
    RolledMod(m, c, out, inn, L * out)
  }

  function FastCheckRoll(c: Check, out: byte, inn: byte, L: u64): Check {
    RollMod(FASTCHECK_MODULUS, c, out, inn, L)
  }

  /** The roll of rm_fast_check_roll_tail for any modulus. */
  function RollTailMod(m: nat, c: Check, out: byte, L: u64): Check
    requires 0 < m <= 0x1_0000
  {
    var r1 := Wrap32(c.r1 - out) % m;
    var r2 := Wrap64(c.r2 - Wrap64(L * out)) % m;
    Check(r1, r2)
  }

  function FastCheckRollTail(c: Check, out: byte, L: u64): Check {
    RollTailMod(FASTCHECK_MODULUS, c, out, L)
  }

  function Adler32Rolled(c: Check, out: byte, inn: byte, lost: nat): Check {
    var r1 := Wrap32(c.r1 - out + inn) % ADLER32_MODULUS;
    var r2 := Wrap64(Wrap32(c.r2 + r1) - Wrap64(lost) - 1) % ADLER32_MODULUS;
    Check(r1, r2)
  }

  function Adler32Roll(c: Check, out: byte, inn: byte, L: u64): Check {
    Adler32Rolled(c, out, inn, L * out)
  }

  /** The outer wrap of r2 does not see the inner wrap of L * out. */
  lemma WrapInside(a: int, v: int)
    ensures Wrap64(a - Wrap64(v)) == Wrap64(a - v)
  {
  }

  lemma RollLow(m: nat, q: nat, v: nat, change: int)
    requires m > 0 && q * m == TWO32
    ensures Wrap32(v % m + change) % m == (v + change) % m
  {
    ModOfMod(v % m + change, TWO32, q, m);
    ModAdd(v, change, m);
  }

  lemma NoWrap(a: nat)
    requires a < TWO32
    ensures Wrap32(a) == a
  {
  }

  lemma WideQuotient(m: nat, q: nat)
    requires q * m == TWO32
    ensures TWO32 * q * m == TWO64
  {
    MulCommutes(TWO32, q, m, 0);
  }

  lemma RollHigh(m: nat, q: nat, v: nat, r1: nat, lost: nat)
    requires 0 < m <= 0x1_0000 && q * m == TWO32 && r1 < m
    ensures Wrap64(Wrap32(v % m + r1) - Wrap64(lost)) % m == (v + r1 - lost) % m
  {
    var a := v % m + r1;
    NoWrap(a);
    WrapInside(a, lost);
    WideQuotient(m, q);
    ModOfMod(a - lost, TWO64, TWO32 * q, m);
    ModAdd(v, r1 - lost, m);
  }

  lemma RolledSums(m: nat, q: nat, v1: nat, v2: nat, w1: nat, w2: nat, out: byte, inn: byte, lost: nat)
    requires 0 < m <= 0x1_0000 && q * m == TWO32
    requires w1 == v1 - out + inn && w2 == v2 + w1 - lost
    ensures Wrap32(v1 % m - out + inn) % m == w1 % m
    ensures Wrap64(Wrap32(v2 % m + w1 % m) - Wrap64(lost)) % m == w2 % m
  {
    RollLow(m, q, v1, inn - out);
    RollHigh(m, q, v2, w1 % m, lost);
    ModAdd(w1, v2 - lost, m);
  }

  lemma RollOfSums(m: nat, q: nat, d: seq<byte>, e: seq<byte>, out: byte, inn: byte, lost: nat)
    requires 0 < m <= 0x1_0000 && q * m == TWO32
    requires Sum(e) == Sum(d) - out + inn && Weighted(e) == Weighted(d) + Sum(e) - lost
    ensures RolledMod(m, CheckMod(m, 0, 0, d), out, inn, lost) == CheckMod(m, 0, 0, e)
  {
    RolledSums(m, q, Sum(d), Weighted(d), Sum(e), Weighted(e), out, inn, lost);
  }

  /** Rolling works for every modulus that divides the 32-bit word, for every block. */
  lemma RollModCorrect(m: nat, q: nat, d: seq<byte>, inn: byte)
    requires 0 < m <= 0x1_0000 && q * m == TWO32
    requires 0 < |d| < TWO64
    ensures RollMod(m, CheckMod(m, 0, 0, d), d[0], inn, |d|) == CheckMod(m, 0, 0, d[1..] + [inn])
  {
    SumsFront(d);
    SumsSnoc(d[1..], inn);
    RollOfSums(m, q, d, d[1..] + [inn], d[0], inn, |d| * d[0]);
  }

  lemma TailHigh(m: nat, q: nat, v: nat, lost: nat)
    requires 0 < m <= 0x1_0000 && q * m == TWO32
    ensures Wrap64(v % m - Wrap64(lost)) % m == (v - lost) % m
  {
    WrapInside(v % m, lost);
    WideQuotient(m, q);
    ModOfMod(v % m - lost, TWO64, TWO32 * q, m);
    ModAdd(v, -(lost as int), m);
  }

  /** So does dropping the first byte, for every modulus and every block again. */
  lemma RollTailModCorrect(m: nat, q: nat, d: seq<byte>)
    requires 0 < m <= 0x1_0000 && q * m == TWO32
    requires 0 < |d| < TWO64
    ensures RollTailMod(m, CheckMod(m, 0, 0, d), d[0], |d|) == CheckMod(m, 0, 0, d[1..])
  {
    SumsFront(d);
    RollLow(m, q, Sum(d), -(d[0] as int));
    TailHigh(m, q, Weighted(d), |d| * d[0]);
  }

  // ----- for which moduli rolling works at all ------------------------------------------

  /** Bytes that add up to n. */
  function Adding(n: nat): (d: seq<byte>)
    ensures |d| <= n
  {
    if n == 0 then [] else if n <= 255 then [n] else Adding(n - 255) + [255]
  }

  lemma {:induction false} AddingSum(n: nat)
    ensures Sum(Adding(n)) == n
  {
    if n > 255 {
      AddingSum(n - 255);
      SumsSnoc(Adding(n - 255), 255);
    } else if n > 0 {
      SumsSnoc([], n);
      assert [] + [n as byte] == [n as byte];
    }
  }

  ghost predicate RollsRight(m: nat, d: seq<byte>, inn: byte)
    requires 0 < m <= 0x1_0000 && 0 < |d| < TWO64
  {
    RollMod(m, CheckMod(m, 0, 0, d), d[0], inn, |d|) == CheckMod(m, 0, 0, d[1..] + [inn])
  }

  ghost predicate TailRollsRight(m: nat, d: seq<byte>)
    requires 0 < m <= 0x1_0000 && 0 < |d| < TWO64
  {
    RollTailMod(m, CheckMod(m, 0, 0, d), d[0], |d|) == CheckMod(m, 0, 0, d[1..])
  }

  /** A block with byte sum m: its checksum's first half is 0, and taking its first byte away wraps
      round the word and not round m. */
  function Wrapping(m: nat): (d: seq<byte>)
    requires 0 < m <= 0x1_0000
    ensures 0 < |d| < TWO64 && d[0] == Min(m, 255)
  {
    [Min(m, 255)] + Adding(m - Min(m, 255))
  }

  lemma WrappingSum(m: nat)
    requires 0 < m <= 0x1_0000
    ensures Sum(Wrapping(m)) == m && Sum(Wrapping(m)[1..]) == m - Min(m, 255)
  {
    var d := Wrapping(m);
    AddingSum(m - Min(m, 255));
    assert d[1..] == Adding(m - Min(m, 255));
    SumsFront(d);
  }

  lemma WrapBelow(out: nat)
    requires 0 < out <= TWO32
    ensures Wrap32(-(out as int)) == TWO32 - out
  {
  }

  lemma RemaindersDiffer(a: nat, b: nat, c: nat, m: nat)
    requires m > 0 && (a + c) % m != (b + c) % m
    ensures a % m != b % m
  {
    ModAdd(a, c, m);
    ModAdd(b, c, m);
  }

  lemma WordShows(m: nat, out: nat)
    requires 0 < m <= 0x1_0000 && 0 < out <= m && out <= 255 && TWO32 % m != 0
    ensures Wrap32(-(out as int)) % m != (m - out) % m
  {
    WrapBelow(out);
    QuotientUnique(m, 1, 0, m);
    RemaindersDiffer(TWO32 - out, m - out, out, m);
  }

  lemma FirstHalves(m: nat, d: seq<byte>)
    requires 0 < m <= 0x1_0000 && 0 < |d| < TWO64 && Sum(d) == m
    ensures RollMod(m, CheckMod(m, 0, 0, d), d[0], 0, |d|).r1 == Wrap32(-(d[0] as int)) % m
    ensures RollTailMod(m, CheckMod(m, 0, 0, d), d[0], |d|).r1 == Wrap32(-(d[0] as int)) % m
  {
    QuotientUnique(m, 1, 0, m);
  }

  /** For any other modulus both rolls are wrong on that block. */
  lemma OtherModuliFail(m: nat)
    requires 0 < m <= 0x1_0000 && TWO32 % m != 0
    ensures !RollsRight(m, Wrapping(m), 0) && !TailRollsRight(m, Wrapping(m))
  {
    var d := Wrapping(m);
    WrappingSum(m);
    FirstHalves(m, d);
    WordShows(m, d[0]);
    SumsSnoc(d[1..], 0);
    assert CheckMod(m, 0, 0, d[1..] + [0]).r1 == (m - d[0]) % m;
  }

  /** The moduli for which the full roll is right on every block are those that divide the word. */
  lemma RollsExactlyWhen(m: nat)
    requires 0 < m <= 0x1_0000
    ensures (forall d: seq<byte>, inn: byte | 0 < |d| < TWO64 :: RollsRight(m, d, inn)) <==> TWO32 % m == 0
  {
    if TWO32 % m == 0 {
      forall d: seq<byte>, inn: byte | 0 < |d| < TWO64
        ensures RollsRight(m, d, inn)
      {
        RollModCorrect(m, TWO32 / m, d, inn);
      }
    } else {
      OtherModuliFail(m);
    }
  }

  /** And so it is for the tail roll. */
  lemma TailRollsExactlyWhen(m: nat)
    requires 0 < m <= 0x1_0000
    ensures (forall d: seq<byte> | 0 < |d| < TWO64 :: TailRollsRight(m, d)) <==> TWO32 % m == 0
  {
    if TWO32 % m == 0 {
      forall d: seq<byte> | 0 < |d| < TWO64
        ensures TailRollsRight(m, d)
      {
        RollTailModCorrect(m, TWO32 / m, d);
      }
    } else {
      OtherModuliFail(m);
    }
  }

  // ----- the rolls of the program -------------------------------------------------------

  lemma FastCheckRollCorrect(d: seq<byte>, inn: byte)
    requires 0 < |d| < TWO64
    ensures FastCheckRoll(FastCheck(d), d[0], inn, |d|) == FastCheck(d[1..] + [inn])
  {
    RollModCorrect(FASTCHECK_MODULUS, 0x1_0000, d, inn);
  }

  lemma FastCheckRollTailCorrect(d: seq<byte>)
    requires 0 < |d| < TWO64
    ensures FastCheckRollTail(FastCheck(d), d[0], |d|) == FastCheck(d[1..])
  {
    RollTailModCorrect(FASTCHECK_MODULUS, 0x1_0000, d);
  }

  lemma ShiftHalves(v1: nat, v2: nat, w1: nat, w2: nat, out: byte, inn: byte, lost: nat)
    requires w1 == v1 - out + inn && w2 == v2 + w1 - lost - 1
    ensures var m := ADLER32_MODULUS;
            && w1 % m == (v1 % m - out + inn) % m
            && w2 % m == (v2 % m + w1 % m - lost - 1) % m
  {
    AdlerModAdd(v1, inn - out);
    AdlerModAdd(v2, w1 % ADLER32_MODULUS - lost - 1);
    AdlerModAdd(w1, v2 - lost - 1);
  }

  /** What Adler-32 of the shifted block is, without any wrap-around; lost is what the first
      byte contributed to the weighted sum. */
  lemma AdlerOfShifted(d: seq<byte>, e: seq<byte>, out: byte, inn: byte, lost: nat)
    requires |e| == |d| && Sum(d) == out + Sum(e) - inn
    requires Weighted(d) == lost + Weighted(e) - Sum(e)
    ensures var m := ADLER32_MODULUS; var c := Adler32(d); var c' := Adler32(e);
            && c'.r1 == (c.r1 - out + inn) % m
            && c'.r2 == (c.r2 + c'.r1 - lost - 1) % m
  {
    ShiftHalves(1 + Sum(d), |d| + Weighted(d), 1 + Sum(e), |e| + Weighted(e), out, inn, lost);
  }

  lemma AdlerAdd(v: int, w: int)
    ensures (v + w) % ADLER32_MODULUS == v % ADLER32_MODULUS <==> w % ADLER32_MODULUS == 0
  {
  }

  lemma InverseApplies(k: nat, word: int, inverse: int, c: int, j: int)
    requires inverse * word == c * ADLER32_MODULUS + 1 && k * word == j * ADLER32_MODULUS && k < ADLER32_MODULUS
    ensures k == 0
  {
    var t := inverse * j - k * c;
    assert k == t * ADLER32_MODULUS by {
      assert inverse * (k * word) == k * (inverse * word);
      assert k * (c * ADLER32_MODULUS + 1) == k * c * ADLER32_MODULUS + k;
      assert inverse * (j * ADLER32_MODULUS) == inverse * j * ADLER32_MODULUS;
    }
  }

  /** 225 and 50625 are the word sizes modulo 65521; 12813 and 42864 are their inverses. */
  lemma WrapRemainder(k: nat, word: int)
    requires (word == TWO32 || word == TWO64) && k <= 256
    ensures k * word % ADLER32_MODULUS == 0 <==> k == 0
  {
    var inverse := if word == TWO32 then 12813 else 42864;
    var c := inverse * word / ADLER32_MODULUS;
    assert inverse * word == c * ADLER32_MODULUS + 1;
    if k * word % ADLER32_MODULUS == 0 {
      var j := k * word / ADLER32_MODULUS;
      assert k * word == j * ADLER32_MODULUS;
      InverseApplies(k, word, inverse, c, j);
    }
  }

  /** Any number of wraps up to 256 shifts the remainder modulo 65521 of a negative value, because
      the prime 65521 divides no such multiple of the word size. */
  lemma AdlerWrapVisible(v: int, word: int)
    requires word == TWO32 || word == TWO64
    requires -256 * word <= v < word
    ensures v % word % ADLER32_MODULUS == v % ADLER32_MODULUS <==> v >= 0
  {
    var k := -(v / word);
    assert v % word == v + k * word && 0 <= k <= 256;
    AdlerAdd(v, k * word);
    WrapRemainder(k, word);
  }

  /** The rolled halves, as integers: right exactly when neither difference is negative. */
  lemma RolledHalves(l: u16, h: u16, out: byte, inn: byte, lost: nat)
    requires lost <= 255 * TWO64
    ensures var m := ADLER32_MODULUS;
            var t1 := (l - out + inn) % m;
            var p1 := Wrap32(l - out + inn) % m;
            && (p1 == t1 <==> l + inn >= out)
            && (p1 == t1 ==> (Wrap64(Wrap32(h + p1) - Wrap64(lost) - 1) % m == (h + t1 - lost - 1) % m
                              <==> h + t1 >= lost + 1))
  {
    var m := ADLER32_MODULUS;
    AdlerWrapVisible(l - out + inn, TWO32);
    var p1 := Wrap32(l - out + inn) % m;
    var w := h + p1 - lost - 1;
    WrapInside(h + p1 - 1, lost);
    AdlerWrapVisible(w, TWO64);
  }

  lemma RollIsExact(c: Check, e: Check, out: byte, inn: byte, lost: nat)
    requires lost <= 255 * TWO64
    requires e.r1 == (c.r1 - out + inn) % ADLER32_MODULUS
    requires e.r2 == (c.r2 + e.r1 - lost - 1) % ADLER32_MODULUS
    ensures Adler32Rolled(c, out, inn, lost) == e <==> c.r1 + inn >= out && c.r2 + e.r1 >= lost + 1
  {
    RolledHalves(c.r1, c.r2, out, inn, lost);
  }

  lemma LostBound(n: nat, b: byte)
    requires n <= TWO64
    ensures n * b <= 255 * TWO64
  {
    assert n * 255 == n * b + n * (255 - b);
  }

  /** rm_adler32_roll is exact precisely when neither difference goes below zero. */
  lemma Adler32RollExactlyWhen(d: seq<byte>, inn: byte)
    requires 0 < |d| < TWO64
    ensures var c := Adler32(d);
            Adler32Roll(c, d[0], inn, |d|) == Adler32(d[1..] + [inn])
            <==> c.r1 + inn >= d[0]
                 && c.r2 + (c.r1 - d[0] + inn) % ADLER32_MODULUS >= |d| * d[0] + 1
  {
    LostBound(|d|, d[0]);
    SumsFront(d);
    SumsSnoc(d[1..], inn);
    AdlerOfShifted(d, d[1..] + [inn], d[0], inn, |d| * d[0]);
    RollIsExact(Adler32(d), Adler32(d[1..] + [inn]), d[0], inn, |d| * d[0]);
  }

  /** A block on which the rolled Adler-32 is wrong: 255 followed by 255 zeros. */
  lemma Adler32RollFails()
    ensures var d: seq<byte> := [255] + Zeros(255);
            Adler32Roll(Adler32(d), 255, 0, 256) != Adler32(d[1..] + [0])
  {
    var d: seq<byte> := [255] + Zeros(255);
    SumsOfZeros(255);
    SumsFront(d);
    assert d[1..] == Zeros(255);
    Adler32RollExactlyWhen(d, 0);
  }

  // ----- Adler-32 with the modulo deferred ----------------------------------------------

  /** r2 after the bytes of d, before any reduction. */
  function DeferredR2(s1: nat, s2: nat, d: seq<byte>): nat {
    if d == [] then s2 else DeferredR2(s1, s2, d[..|d| - 1]) + s1 + Sum(d)
  }

  lemma {:induction false} DeferredR2Closed(s1: nat, s2: nat, d: seq<byte>)
    ensures DeferredR2(s1, s2, d) == s2 + |d| * s1 + Weighted(d)
  {
    if d != [] {
      DeferredR2Closed(s1, s2, d[..|d| - 1]);
      assert |d| * s1 == |d[..|d| - 1]| * s1 + s1;
    }
  }

  /** The largest value r2 can reach after k bytes from halves <= 65535. */
  function Worst(k: nat): nat { 65535 * (k + 1) + 255 * (k * (k + 1) / 2) }

  lemma WorstSnoc(k: nat)
    ensures Worst(k + 1) == Worst(k) + 65535 + 255 * (k + 1)
  {
    assert (k + 1) * (k + 2) == k * (k + 1) + 2 * (k + 1);
  }

  lemma {:induction false} WorstMonotone(j: nat, k: nat)
    requires j <= k
    ensures Worst(j) <= Worst(k)
    decreases k - j
  {
    if j < k {
      WorstSnoc(j);
      WorstMonotone(j + 1, k);
    }
  }

  lemma {:induction false} DeferredBound(s1: nat, s2: nat, d: seq<byte>)
    requires s1 <= 65535 && s2 <= 65535
    ensures s1 + Sum(d) <= 65535 + 255 * |d|
    ensures DeferredR2(s1, s2, d) <= Worst(|d|)
  {
    if d != [] {
      DeferredBound(s1, s2, d[..|d| - 1]);
      WorstSnoc(|d| - 1);
    }
  }

  lemma {:induction false} DeferredBoundReached(d: seq<byte>)
    requires forall i :: 0 <= i < |d| ==> d[i] == 255
    ensures Sum(d) == 255 * |d|
    ensures DeferredR2(65535, 65535, d) == Worst(|d|)
  {
    if d != [] {
      DeferredBoundReached(d[..|d| - 1]);
      WorstSnoc(|d| - 1);
    }
  }

  /** The fast checksum of 129 bytes of 255. */
  lemma FastCheckKnown(d: seq<byte>)
    requires |d| == 129 && forall i :: 0 <= i < |d| ==> d[i] == 255
    ensures FastCheck(d) == Check(32895, 41023)
  {
    DeferredBoundReached(d);
    DeferredR2Closed(65535, 65535, d);
  }

  /** The Adler-32 of 300 bytes of 255. */
  lemma Adler32Known(d: seq<byte>)
    requires |d| == 300 && forall i :: 0 <= i < |d| ==> d[i] == 255
    ensures Adler32(d) == Check(10980, 47375)
  {
    DeferredBoundReached(d);
    DeferredR2Closed(65535, 65535, d);
  }

  /** 5552 is the largest block length for which no 32-bit overflow is possible, and the
      worst case at that length is 4294773495. */
  lemma NmaxIsExact(n: nat)
    ensures Worst(5552) == 4294773495
    ensures (forall s1: u16, s2: u16, d: seq<byte> | |d| == n :: DeferredR2(s1, s2, d) < 0x1_0000_0000)
            <==> n <= 5552
  {
    assert Worst(5552) == 4294773495 && Worst(5553) == 4296255045;
    if n <= ADLER32_NMAX {
      forall s1: u16, s2: u16, d: seq<byte> | |d| == n
        ensures DeferredR2(s1, s2, d) < TWO32
      {
        DeferredBound(s1, s2, d);
        WorstMonotone(n, ADLER32_NMAX);
      }
    } else {
      var s: u16 := 65535;
      var d: seq<byte> := seq(n, i => 255);
      DeferredBoundReached(d);
      WorstMonotone(5553, n);
      assert DeferredR2(s, s, d) >= TWO32;
    }
  }

  /** What rm_adler32_2 computes: unreduced seeds come back untouched for an empty block. */
  function Adler32From(adler: Check, d: seq<byte>): Check {
    if d == [] then adler else CheckMod(ADLER32_MODULUS, adler.r1, adler.r2, d)
  }

  lemma ThreeSummands(v2: nat, a: nat, a': nat, w: nat)
    requires a % ADLER32_MODULUS == a' % ADLER32_MODULUS
    ensures (v2 % ADLER32_MODULUS + a + w) % ADLER32_MODULUS == (v2 + a' + w) % ADLER32_MODULUS
  {
  }

  lemma ResumeHigh(v1: nat, v2: nat, n: nat, w: nat)
    ensures var m := ADLER32_MODULUS; (v2 % m + n * (v1 % m) + w) % m == (v2 + n * v1 + w) % m
  {
    ModMul(v1, n, ADLER32_MODULUS);
    ThreeSummands(v2, n * (v1 % ADLER32_MODULUS), n * v1, w);
  }

  lemma ResumeProducts(a: nat, b: nat, s: nat, sum: nat)
    ensures b * (s + sum) == b * s + b * sum && (a + b) * s == a * s + b * s
  {
  }

  lemma ResumeHalves(s1: nat, s2: nat, n1: nat, n2: nat, sum1: nat, sum2: nat, w1: nat, w2: nat)
    ensures var m, v1, v2 := ADLER32_MODULUS, s1 + sum1, s2 + n1 * s1 + w1;
            && (v1 % m + sum2) % m == (s1 + (sum1 + sum2)) % m
            && (v2 % m + n2 * (v1 % m) + w2) % m == (s2 + (n1 + n2) * s1 + (w1 + n2 * sum1 + w2)) % m
  {
    AdlerModAdd(s1 + sum1, sum2);
    ResumeHigh(s1 + sum1, s2 + n1 * s1 + w1, n2, w2);
    ResumeProducts(n1, n2, s1, sum1);
  }

  lemma ResumeNumbers(s1: nat, s2: nat, n1: nat, n2: nat, sum1: nat, sum2: nat, w1: nat, w2: nat,
                      n: nat, sum: nat, w: nat)
    requires n == n1 + n2 && sum == sum1 + sum2 && w == w1 + n2 * sum1 + w2
    ensures var m, v1, v2 := ADLER32_MODULUS, s1 + sum1, s2 + n1 * s1 + w1;
            && (v1 % m + sum2) % m == (s1 + sum) % m
            && (v2 % m + n2 * (v1 % m) + w2) % m == (s2 + n * s1 + w) % m
  {
    ResumeHalves(s1, s2, n1, n2, sum1, sum2, w1, w2);
  }

  lemma ResumeSums(m: nat, s1: nat, s2: nat, c: Check, a: seq<byte>, b: seq<byte>, all: seq<byte>)
    requires 0 < m <= 0x1_0000 && c == CheckMod(m, s1, s2, a)
    requires (c.r1 + Sum(b)) % m == (s1 + Sum(all)) % m
    requires (c.r2 + |b| * c.r1 + Weighted(b)) % m == (s2 + |all| * s1 + Weighted(all)) % m
    ensures CheckMod(m, c.r1, c.r2, b) == CheckMod(m, s1, s2, all)
  {
  }

  /** Reducing both sums after a prefix does not change the final remainders. */
  lemma CheckModResume(s1: nat, s2: nat, a: seq<byte>, b: seq<byte>)
    ensures var m := ADLER32_MODULUS;
            var c := CheckMod(m, s1, s2, a);
            CheckMod(m, c.r1, c.r2, b) == CheckMod(m, s1, s2, a + b)
  {
    SumsConcat(a, b);
    ResumeNumbers(s1, s2, |a|, |b|, Sum(a), Sum(b), Weighted(a), Weighted(b), |a + b|, Sum(a + b), Weighted(a + b));
    ResumeSums(ADLER32_MODULUS, s1, s2, CheckMod(ADLER32_MODULUS, s1, s2, a), a, b, a + b);
  }

  /** On reduced seeds, d1 then d2 is the same as d1 ++ d2. */
  lemma Adler32FromConcat(adler: Check, d1: seq<byte>, d2: seq<byte>)
    ensures Adler32From(Adler32From(adler, d1), d2) == Adler32From(adler, d1 + d2)
  {
    if d1 == [] {
      assert d1 + d2 == d2;
    } else if d2 == [] {
      assert d1 + d2 == d1;
    } else {
      CheckModResume(adler.r1, adler.r2, d1, d2);
    }
  }

  /** RM_DO1: one byte added to both sums. */
  method DoOne(data: array<byte>, ghost from: nat, at: nat, ghost s1: u16, ghost s2: u16, r1: u32, r2: u32)
    returns (r1': u32, r2': u32)
    requires from <= at < data.Length && at - from < ADLER32_NMAX
    requires r1 == s1 + Sum(data[from..at]) && r2 == DeferredR2(s1, s2, data[from..at])
    ensures r1' == s1 + Sum(data[from..at + 1])
    ensures r2' == DeferredR2(s1, s2, data[from..at + 1])
  {
    ghost var d := data[from..at + 1];
    assert d[..|d| - 1] == data[from..at];
    DeferredBound(s1, s2, d);
    WorstMonotone(|d|, ADLER32_NMAX);
    assert Worst(5552) == 4294773495;
    r1' := r1 + data[at];
    r2' := r2 + r1';
  }

  /** One block of at most 5552 bytes without reduction: sixteen bytes at a time, then the
      remainder. */
  method Deferred(data: array<byte>, from: nat, n: nat, s1: u16, s2: u16) returns (r1: u32, r2: u32)
    requires from + n <= data.Length && n <= ADLER32_NMAX
    ensures r1 == s1 + Sum(data[from..from + n])
    ensures r2 == DeferredR2(s1, s2, data[from..from + n])
  {
    r1, r2 := s1, s2;
    var at, k := from, n;
    while k >= 16
      invariant from <= at && at + k == from + n && k >= 0
      invariant r1 == s1 + Sum(data[from..at]) && r2 == DeferredR2(s1, s2, data[from..at])
    {
      var j := 0;
      while j < 16
        invariant 0 <= j <= 16 && from <= at && at + (k - j) == from + n && k >= 16
        invariant r1 == s1 + Sum(data[from..at]) && r2 == DeferredR2(s1, s2, data[from..at])
      {
        r1, r2 := DoOne(data, from, at, s1, s2, r1, r2);
        at, j := at + 1, j + 1;
      }
      k := k - 16;
    }
    while k > 0
      invariant from <= at && at + k == from + n && k >= 0
      invariant r1 == s1 + Sum(data[from..at]) && r2 == DeferredR2(s1, s2, data[from..at])
    {
      r1, r2 := DoOne(data, from, at, s1, s2, r1, r2);
      at, k := at + 1, k - 1;
    }
  }

  lemma ReducedBlock(s1: u16, s2: u16, d: seq<byte>)
    requires d != []
    ensures var m := ADLER32_MODULUS;
            Adler32From(Check(s1, s2), d) == Check((s1 + Sum(d)) % m, DeferredR2(s1, s2, d) % m)
  {
    DeferredR2Closed(s1, s2, d);
  }

  /** Reducing after a block continues the checksum of what came before it. */
  lemma NextBlock(adler: Check, d: seq<byte>, from: nat, s1: u16, s2: u16)
    requires from < |d| && Check(s1, s2) == Adler32From(adler, d[..from])
    ensures var m, block := ADLER32_MODULUS, d[from..];
            Check((s1 + Sum(block)) % m, DeferredR2(s1, s2, block) % m) == Adler32From(adler, d)
  {
    ReducedBlock(s1, s2, d[from..]);
    assert d == d[..from] + d[from..];
    Adler32FromConcat(adler, d[..from], d[from..]);
  }

  /** Deferred modulo: r1 and r2 are u32 variables, so every assignment below also proves
      that the machine addition does not overflow. */
  method Adler32_2(adler: Check, data: array<byte>, len: nat) returns (c: Check)
    requires len <= data.Length
    ensures c == Adler32From(adler, data[..len])
    ensures adler == Check(1, 0) ==> c == Adler32(data[..len])
  {
    var r1: u32, r2: u32 := adler.r1, adler.r2;
    assert data[..0] == [];
    var left, at := len, 0;
    while left > 0
      invariant at + left == len && left >= 0
      invariant r1 <= 65535 && r2 <= 65535
      invariant Check(r1, r2) == Adler32From(adler, data[..at])
    {
      var k := if left < ADLER32_NMAX then left else ADLER32_NMAX;
      left := left - k;
      ghost var d := data[..at + k];
      assert d[..at] == data[..at] && d[at..] == data[at..at + k];
      NextBlock(adler, d, at, r1, r2);
      r1, r2 := Deferred(data, at, k, r1, r2);
      r1 := r1 % ADLER32_MODULUS;
      r2 := r2 % ADLER32_MODULUS;
      at := at + k;
    }
    c := Check(r1, r2);
  }
}
