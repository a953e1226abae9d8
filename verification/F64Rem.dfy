/** f64_rem: the IEEE 754 remainder, 62 quotient bits at a time. */
module F64Rem {
  import opened Powers
  import opened Rounding
  import opened Ieee754
  import opened RoundTheory
  import opened Words
  import opened Primitives
  import opened RoundPack
  import opened Unpack
  import opened Align
  import opened Wide128
  import opened EstimateDiv
  import opened RemTheory
  import opened MulAddTheory

  // --- What the loop keeps ---

  /** n is k divisors plus s * 2^e; the bits of k still to come start above its lowest. */
  ghost predicate Reduced(n: int, b: int, k: int, s: int, e: nat) {
    && n == k * b + s * Exp2(e) && 0 <= s < b && s % 4 == 0 && k % 2 == 0
    && 0x8000_0000_0000_0000 <= b < 0x1_0000_0000_0000_0000 && b % 16 == 0
  }

  lemma ReducedIs(n: int, b: int, k: int, s: int, e: nat)
    requires Reduced(n, b, k, s, e)
    ensures n == k * b + s * Exp2(e) && 0 <= s < b && s % 4 == 0 && k % 2 == 0
    ensures 0x8000_0000_0000_0000 <= b < 0x1_0000_0000_0000_0000 && b % 16 == 0
  {
  }

  /** A digit at most 2 below the exact one leaves less than three divisors. */
  ghost predicate LowDigit(s: int, b: int, q: int) {
    0 <= q && 0 <= s * 0x1_0000_0000_0000_0000 - q * b < 3 * b
  }

  function LessTwo(est: u64): u64 {
    if 2 < est then est - 2 else 0
  }

  lemma EstimateIsLow(s: u64, b: u64, est: u64)
    requires b > 0 && Value128(s, 0) / b <= est <= Value128(s, 0) / b + 2
    ensures LowDigit(s, b, LessTwo(est))
  {
    var n, d: int := Value128(s, 0), b;
    var q, r := n / d, n % d;
    assert n == q * d + r;
    QuotientNonnegative(n, d);
    var z: int := LessTwo(est);
    hide *;
    ProductMono(z, q, d);
    ProductMono(q, z + 2, d);
    Distribute(z, 2, d);
    NumeratorIs(s);
  }

  /** One pass of the loop, dropping 62 bits of the exponent difference. */
  lemma LoopStep(n: int, b: int, k: int, s: int, e: nat, q: int, next: int)
    requires Reduced(n, b, k, s, e) && e >= 65 && LowDigit(s, b, q)
    requires next == Wrap64(-(b / 4 * q))
    ensures Reduced(n, b, k + q * Exp2(e - 64), next, e - 62)
  {
    ReducedIs(n, b, k, s, e);
    QuarterProduct(b, q);
    hide *;
    DigitReduces(n, b, k, s, e, q, b / 4 * q, q * b, next);
  }

  lemma DigitReduces(n: int, b: int, k: int, s: int, e: nat, q: int, m: int, qb: int, next: int)
    requires Reduced(n, b, k, s, e) && e >= 65 && LowDigit(s, b, q)
    requires next == Wrap64(-m) && 4 * m == qb && m % 4 == 0 && qb == q * b
    ensures Reduced(n, b, k + q * Exp2(e - 64), next, e - 62)
  {
    hide *;
    var t := s * 0x4000_0000_0000_0000 - m;
    ReducedIs(n, b, k, s, e);
    LowDigitIs(s, b, q);
    QuarterDigit(s, b, qb, m, t);
    WrapsTo(s, m, t);
    var p := Exp2(e - 64);
    Exp2Add(e - 64, 64);
    Exp2Add(e - 64, 2);
    SmallPowers();
    StepIdentity(n, b, k, s, p, Exp2(e), Exp2(e - 62), q, t);
    Exp2Double(e - 65);
    EvenQuotient(q, Exp2(e - 65), p, k);
    ReducedAgain(n, b, k + q * p, t, e - 62);
  }

  lemma QuarterDigit(s: int, b: int, qb: int, m: int, t: int)
    requires 4 * m == qb && t == s * 0x4000_0000_0000_0000 - m && 0 <= s * 0x1_0000_0000_0000_0000 - qb < 3 * b
    requires m % 4 == 0
    ensures 4 * t == s * 0x1_0000_0000_0000_0000 - qb && 0 <= t < b && t % 4 == 0
  {
  }

  lemma SmallPowers()
    ensures Exp2(2) == 4 && Exp2(64) == 0x1_0000_0000_0000_0000
  {
    Exp2Constants();
  }

  lemma LowDigitIs(s: int, b: int, q: int)
    requires LowDigit(s, b, q)
    ensures 0 <= q && 0 <= s * 0x1_0000_0000_0000_0000 - q * b < 3 * b
  {
  }

  lemma ReducedAgain(n: int, b: int, k: int, s: int, e: nat)
    requires n == k * b + s * Exp2(e) && 0 <= s < b && s % 4 == 0 && k % 2 == 0
    requires 0x8000_0000_0000_0000 <= b < 0x1_0000_0000_0000_0000 && b % 16 == 0
    ensures Reduced(n, b, k, s, e)
  {
  }

  lemma QuarterProduct(b: int, q: int)
    requires b % 16 == 0
    ensures 4 * (b / 4 * q) == q * b && b / 4 * q % 4 == 0
  {
    var c := b / 16;
    assert b / 4 == 4 * c;
    assert b / 4 * q == 4 * (c * q);
  }

  lemma WrapsTo(s: int, m: int, t: int)
    requires s % 4 == 0 && t == s * 0x4000_0000_0000_0000 - m && 0 <= t < 0x1_0000_0000_0000_0000
    ensures Wrap64(-m) == t
  {
    hide Wrap64;
    WrapModulo(t, s / 4);
  }

  lemma WrapModulo(t: int, k: int)
    requires 0 <= t < 0x1_0000_0000_0000_0000
    ensures Wrap64(t - k * 0x1_0000_0000_0000_0000) == t
  {
  }

  lemma StepIdentity(n: int, b: int, k: int, s: int, p: int, p64: int, p2: int, q: int, t: int)
    requires n == k * b + s * p64 && p64 == p * 0x1_0000_0000_0000_0000 && p2 == p * 4
    requires 4 * t == s * 0x1_0000_0000_0000_0000 - q * b
    ensures n == (k + q * p) * b + t * p2
  {
    assert t * p2 == (4 * t) * p;
    assert (4 * t) * p == (s * 0x1_0000_0000_0000_0000 - q * b) * p;
  }

  lemma EvenQuotient(q: int, h: int, p: int, k: int)
    requires p == 2 * h && k % 2 == 0
    ensures (k + q * p) % 2 == 0
  {
    assert q * p == 2 * (q * h);
  }

  // --- The last, partial digit ---

  /** n is k divisors plus r, k having q's parity, with r in quarters as the code keeps it. */
  ghost predicate Left(n: int, b4: int, k: int, q: int, r: int) {
    n == k * (4 * b4) + 4 * r && 0 <= r && k % 2 == q % 2
  }

  lemma LeftIs(n: int, b4: int, k: int, q: int, r: int)
    ensures Left(n, b4, k, q, r) <==> n == k * (4 * b4) + 4 * r && 0 <= r && k % 2 == q % 2
  {
  }

  lemma LastStep(n: int, b: int, k: int, s: int, e: nat, q: int, q': int, next: int)
    requires Reduced(n, b, k, s, e) && 1 <= e <= 64 && LowDigit(s, b, q)
    requires q' == q / Exp2(64 - e) && next == Wrap64(s / 2 * Exp2(e - 1) - b / 4 * q')
    ensures Left(n, b / 4, k + q', q', next) && next < 3 * (b / 4)
  {
    QuarterProduct(b, q');
    hide *;
    ReducedIs(n, b, k, s, e);
    LowDigitIs(s, b, q);
    var p, r := Exp2(64 - e), Exp2(e - 1);
    SplitPower(e, p, r);
    var l := q % p;
    DivideDigit(q, p);
    var t := s / 2 * r - b / 4 * q';
    FourQuarters(b);
    Halves(s);
    LastQuarter(s, s / 2, r, b, b / 4, q', t);
    ScaledRest(s, b, q, q', l, p, r, 4 * t);
    NoWrap(t);
    LastIdentity(n, k, b, s, Exp2(e), r, q', t);
    LeftIs(n, b / 4, k + q', q', t);
    SameParity(k, q');
  }

  lemma SplitPower(e: nat, p: int, r: int)
    requires 1 <= e <= 64 && p == Exp2(64 - e) && r == Exp2(e - 1)
    ensures p * (2 * r) == 0x1_0000_0000_0000_0000 && Exp2(e) == 2 * r
  {
    hide *;
    Exp2Add(64 - e, e);
    Exp2Double(e - 1);
    SmallPowers();
  }

  lemma DivideDigit(q: int, p: int)
    requires p > 0 && q >= 0
    ensures q == q / p * p + q % p && 0 <= q % p < p && q / p >= 0
  {
    hide *;
    QuotientNonnegative(q, p);
  }

  lemma Halves(s: int)
    requires s % 4 == 0
    ensures s == 2 * (s / 2)
  {
    var k := s / 4;
    assert s == 2 * (2 * k);
    hide *;
    Euclid(s, 2, 2 * k, 0);
  }

  lemma FourQuarters(b: int)
    requires b % 16 == 0
    ensures b == 4 * (b / 4)
  {
  }

  lemma LastQuarter(s: int, s2: int, r: int, b: int, b4: int, q: int, t: int)
    requires s == 2 * s2 && b == 4 * b4 && t == s2 * r - b4 * q
    ensures s * (2 * r) - q * b == 4 * t
  {
    hide *;
    FourTimes(s2, r, b4, q);
  }

  lemma FourTimes(x: int, r: int, y: int, q: int)
    ensures 2 * x * (2 * r) == 4 * (x * r)
    ensures q * (4 * y) == 4 * (y * q)
  {
  }

  lemma LastIdentity(n: int, k: int, b: int, s: int, p: int, r: int, q: int, t: int)
    requires n == k * b + s * p && p == 2 * r && s * (2 * r) - q * b == 4 * t
    ensures n == (k + q) * b + 4 * t
  {
  }

  lemma SameParity(k: int, q: int)
    requires k % 2 == 0
    ensures (k + q) % 2 == q % 2
  {
  }

  lemma NoWrap(t: int)
    ensures 0 <= t < 0x1_0000_0000_0000_0000 ==> Wrap64(t) == t
  {
  }

  /** Truncating the digit to its top bits costs less than a divisor more. */
  lemma ScaledRest(s: int, b: int, q: int, q': int, l: int, p: int, r: int, u: int)
    requires 0 <= s * 0x1_0000_0000_0000_0000 - q * b < 3 * b && q == q' * p + l && 0 <= l < p && b > 0
    requires p * (2 * r) == 0x1_0000_0000_0000_0000 && u == s * (2 * r) - q' * b
    ensures 0 <= u < 3 * b
  {
    assert s * 0x1_0000_0000_0000_0000 == s * (2 * r) * p;
    assert q * b == q' * b * p + l * b;
    assert u * p == s * 0x1_0000_0000_0000_0000 - q * b + l * b;
    hide *;
    ProductMono(0, l, b);
    ProductMono(l, p - 1, b);
    Distribute(p, -1, b);
    if u < 0 {
      ProductMono(u, -1, p);
    } else if u >= 3 * b {
      ProductMono(3 * b, u, p);
      Factors(b, p);
    }
  }

  lemma Factors(b: int, p: int)
    requires p >= 1 && b > 0
    ensures 3 * b * p >= p * b + 2 * b
  {
    assert b * (p - 1) >= 0;
  }

  // --- The nearest multiple ---

  /** The multiple below and the one above, at the loop's test. */
  ghost predicate Between(n: int, b4: int, k: int, q: int, alternate: int, r: int) {
    && Left(n, b4, k, q + 1, alternate) && alternate < 3 * b4
    && 0x2000_0000_0000_0000 <= b4 < 0x4000_0000_0000_0000 && r == Wrap64(alternate - b4)
  }

  lemma BetweenIs(n: int, b4: int, k: int, q: int, alternate: int, r: int)
    requires Between(n, b4, k, q, alternate, r)
    ensures Left(n, b4, k, q + 1, alternate) && 0 <= alternate < 3 * b4
    ensures 0x2000_0000_0000_0000 <= b4 < 0x4000_0000_0000_0000
    ensures if alternate < b4 then r == alternate - b4 + 0x1_0000_0000_0000_0000 else r == alternate - b4
    ensures r < 0x8000_0000_0000_0000 <==> alternate >= b4
  {
  }

  lemma BetweenStart(n: int, b4: int, k: int, q: u64, alternate: int)
    requires Left(n, b4, k, q, alternate) && alternate < 3 * b4
    requires 0x2000_0000_0000_0000 <= b4 < 0x4000_0000_0000_0000
    ensures Between(n, b4, k, Wrap64(q + 1), alternate, Wrap64(alternate - b4))
  {
  }

  lemma BetweenStep(n: int, b4: int, k: int, q: u64, alternate: int, r: u64)
    requires Between(n, b4, k, q, alternate, r) && alternate >= b4
    ensures Between(n, b4, k + 1, Wrap64(q + 1), r, Wrap64(r - b4))
  {
    BetweenIs(n, b4, k, q, alternate, r);
    LeftIs(n, b4, k, q + 1, alternate);
    hide *;
    Distribute(k, 1, 4 * b4);
    NextParity(q, k);
    LeftIs(n, b4, k + 1, Wrap64(q + 1), r);
    BetweenNext(n, b4, k + 1, Wrap64(q + 1), r);
  }

  lemma NextParity(q: u64, k: int)
    requires k % 2 == (q + 1) % 2
    ensures (k + 1) % 2 == (Wrap64(q + 1) + 1) % 2
  {
  }

  lemma BetweenNext(n: int, b4: int, k: int, q: u64, r: int)
    requires n == k * (4 * b4) + 4 * r && 0 <= r && k % 2 == (q + 1) % 2
    requires r < 3 * b4 && 0x2000_0000_0000_0000 <= b4 < 0x4000_0000_0000_0000
    ensures Between(n, b4, k, q, r, Wrap64(r - b4))
  {
  }

  /** The word the loop leaves in sigA: all arithmetic is modulo 2^64. */
  function NextDividend(sigB: u64, q: u64): u64 {
    Wrap64(-(sigB / 4 * q))
  }

  function LastDividend(sigA: u64, sigB: u64, q: u64, expDiff: nat): u64
    requires expDiff > 0
  {
    Wrap64(sigA / 2 * Exp2(expDiff - 1) - sigB * q)
  }

  lemma DividendWords(sigA: u64, sigB: u64, q: u64, e: nat)
    requires 1 <= e <= 64
    ensures NextDividend(sigB, q) == Wrap64(-(sigB / 4 * q))
    ensures LastDividend(sigA, sigB / 4, q, e) == Wrap64(sigA / 2 * Exp2(e - 1) - sigB / 4 * q)
  {
    hide Exp2;
  }

  lemma ShiftDown(q: u64, n: nat)
    ensures Shr(q, n) == q / Exp2(n) && 0 <= Shr(q, n) < 0x1_0000_0000_0000_0000
  {
    hide Exp2;
    var p := Exp2(n);
    hide *;
    DivideDigit(q, p);
    ShrIs(q, n);
    Quotients(q, p);
  }

  lemma ShrIs(q: nat, n: nat)
    ensures Shr(q, n) == q / Exp2(n)
  {
    hide Exp2;
  }

  lemma Quotients(q: int, p: int)
    requires q >= 0 && p >= 1
    ensures q / p <= q
  {
    hide *;
    var z := q / p;
    DivideDigit(q, p);
    ProductMono(1, p, z);
  }

  /** The dividend, scaled so that the divisor is mB * 2^11. */
  function Dividend(mA: nat, d: int): int {
    if d < 0 then mA * 0x400 else mA * 0x800 * Exp2(d)
  }

  ghost predicate Normalised(m: int) {
    0x10_0000_0000_0000 <= m < 0x20_0000_0000_0000
  }

  lemma ReduceStart(mA: int, mB: int, d: int, q: int, s: int) returns (k: int)
    requires Normalised(mA) && Normalised(mB) && d >= -1
    requires var sA := if d < 0 then mA * 0x400 else mA * 0x800;
             if mB * 0x800 <= sA then q == 1 && s == sA - mB * 0x800 else q == 0 && s == sA
    ensures if d < 1 then k == q && Left(Dividend(mA, d), mB * 0x200, k, q, s / 4) && s / 4 < 3 * (mB * 0x200)
            else Reduced(Dividend(mA, d), mB * 0x800, k, s, d)
  {
    hide *;
    NormalisedIs(mA);
    NormalisedIs(mB);
    DividendIs(mA, d);
    if d < 1 {
      k := q;
      Exp2Zero();
      StartLeft(mB, q, if d < 0 then mA else 2 * mA, s);
    } else {
      k := q * Exp2(d);
      Exp2Double(d - 1);
      EvenQuotient(q, Exp2(d - 1), Exp2(d), 0);
      StartIdentity(mA * 0x800, mB * 0x800, q, Exp2(d));
      StartAligned(mA, mB, q, s);
      ReducedAgain(Dividend(mA, d), mB * 0x800, k, s, d);
    }
  }

  lemma DividendIs(mA: nat, d: int)
    ensures d < 0 ==> Dividend(mA, d) == mA * 0x400
    ensures d >= 0 ==> Dividend(mA, d) == mA * 0x800 * Exp2(d)
  {
    hide Exp2;
  }

  lemma StartLeft(y: int, q: int, x: int, s: int)
    requires 0 < x < 4 * y
    requires if y * 0x800 <= x * 0x400 then q == 1 && s == x * 0x400 - y * 0x800 else q == 0 && s == x * 0x400
    ensures Left(x * 0x400, y * 0x200, q, q, s / 4) && s / 4 < 3 * (y * 0x200)
  {
    hide *;
    if q == 0 {
      assert s / 4 == x * 0x100;
      LeftIs(x * 0x400, y * 0x200, 0, 0, x * 0x100);
    } else {
      assert s / 4 == x * 0x100 - y * 0x200;
      LeftIs(x * 0x400, y * 0x200, 1, 1, x * 0x100 - y * 0x200);
    }
  }

  lemma StartAligned(mA: int, mB: int, q: int, s: int)
    requires Normalised(mA) && Normalised(mB)
    requires if mB * 0x800 <= mA * 0x800 then q == 1 && s == mA * 0x800 - mB * 0x800 else q == 0 && s == mA * 0x800
    ensures 0 <= s < mB * 0x800 && s % 4 == 0 && mB * 0x800 % 16 == 0
    ensures 0x8000_0000_0000_0000 <= mB * 0x800 < 0x1_0000_0000_0000_0000
  {
    NormalisedIs(mA);
    NormalisedIs(mB);
    hide *;
    if q == 0 {
      Euclid(s, 4, 0x200 * mA, 0);
    } else {
      Euclid(s, 4, 0x200 * (mA - mB), 0);
    }
    Euclid(mB * 0x800, 16, 0x80 * mB, 0);
  }

  lemma StartIdentity(x: int, b: int, q: int, p: int)
    requires 0 <= q <= 1
    ensures x * p == q * p * b + (if q == 0 then x else x - b) * p
  {
  }

  method PartialRemainder(mA: u64, mB: u64, d: int) returns (q: u64, r: u64, ghost k: int)
    requires Normalised(mA) && Normalised(mB) && d >= -1
    ensures Left(Dividend(mA, d), mB * 0x200, k, q, r) && r < 3 * (mB * 0x200)
  {
    hide *;
    NormalisedIs(mA);
    NormalisedIs(mB);
    var expDiff: int := d;
    var sigA: u64, sigB: u64 := mA * 0x800, mB * 0x800;
    if expDiff < 0 {
      sigA := sigA / 2;
    }
    BitIs(sigB <= sigA);
    q := Bit(sigB <= sigA);
    if q != 0 {
      sigA := sigA - sigB;
    }
    ghost var n := Dividend(mA, d);
    k := ReduceStart(mA, mB, d, q, sigA);
    expDiff := expDiff - 64;
    while 0 < expDiff
      invariant d < 1 ==> expDiff == d - 64 && Left(n, mB * 0x200, k, q, sigA / 4) && sigA / 4 < 3 * (mB * 0x200)
      invariant d >= 1 ==> expDiff + 64 >= 1 && Reduced(n, sigB, k, sigA, expDiff + 64)
    {
      ghost var e := expDiff + 64;
      ReducedIs(n, sigB, k, sigA, e);
      var est;
      ghost var steps;
      est, steps := EstimateDiv128To64(sigA, 0, sigB);
      EstimateIsLow(sigA, sigB, est);
      q := LessTwo(est);
      DividendWords(sigA, sigB, q, 1);
      LoopStep(n, sigB, k, sigA, e, q, NextDividend(sigB, q));
      k := k + q * Exp2(e - 64);
      sigA := NextDividend(sigB, q);
      expDiff := expDiff - 62;
    }
    expDiff := expDiff + 64;
    if 0 < expDiff {
      ReducedIs(n, sigB, k, sigA, expDiff);
      var est;
      ghost var steps;
      est, steps := EstimateDiv128To64(sigA, 0, sigB);
      EstimateIsLow(sigA, sigB, est);
      q := LessTwo(est);
      ghost var whole: int := q;
      ShiftDown(q, 64 - expDiff);
      q := Shr(q, 64 - expDiff);
      DividendWords(sigA, sigB, q, expDiff);
      LastStep(n, sigB, k, sigA, expDiff, whole, q, LastDividend(sigA, sigB / 4, q, expDiff));
      k := k + q;
      r := LastDividend(sigA, sigB / 4, q, expDiff);
      assert sigB / 4 == mB * 0x200;
    } else {
      r := sigA / 4;
    }
  }

  lemma NormalisedIs(m: int)
    ensures Normalised(m) <==> 0x10_0000_0000_0000 <= m < 0x20_0000_0000_0000
  {
  }

  /** k is the integer nearest n / (4 * b4), ties to even, and four times sig what remains. */
  ghost predicate Nearest(n: int, b4: int, k: int, neg: bool, sig: int) {
    && n == k * (4 * b4) + (if neg then -4 * sig else 4 * sig)
    && 0 <= 2 * sig <= b4 && (2 * sig == b4 ==> k % 2 == 0) && (neg ==> sig > 0)
  }

  lemma Select(n: int, b4: int, k: int, q: int, alternate: int, r: int, mean: int) returns (nearest: int)
    requires Between(n, b4, k, q, alternate, r) && r >= 0x8000_0000_0000_0000
    requires mean == Wrap64(r + alternate)
    ensures if mean >= 0x8000_0000_0000_0000 || (mean == 0 && q % 2 == 1)
            then nearest == k && Nearest(n, b4, nearest, false, alternate) && alternate < 0x8000_0000_0000_0000
            else nearest == k + 1 && Nearest(n, b4, nearest, true, 0x1_0000_0000_0000_0000 - r)
  {
    hide *;
    BetweenIs(n, b4, k, q, alternate, r);
    LeftIs(n, b4, k, q + 1, alternate);
    MeanIs(b4, alternate, r, mean);
    OtherParity(k, q);
    if mean >= 0x8000_0000_0000_0000 || (mean == 0 && q % 2 == 1) {
      nearest := k;
      NearestWhen(n, b4, k, false, alternate);
    } else {
      nearest := k + 1;
      Distribute(k, 1, 4 * b4);
      NearestWhen(n, b4, k + 1, true, 0x1_0000_0000_0000_0000 - r);
    }
  }

  /** The mean's sign tells which of the two remainders is the smaller. */
  lemma MeanIs(b4: int, alternate: int, r: int, mean: int)
    requires 0 <= alternate < b4 < 0x4000_0000_0000_0000 && r == alternate - b4 + 0x1_0000_0000_0000_0000
    requires mean == Wrap64(r + alternate)
    ensures mean >= 0x8000_0000_0000_0000 <==> 2 * alternate < b4
    ensures mean == 0 <==> 2 * alternate == b4
  {
  }

  lemma OtherParity(k: int, q: int)
    ensures k % 2 == (q + 1) % 2 ==> (q % 2 == 1 <==> k % 2 == 0) && (q % 2 == 0 <==> (k + 1) % 2 == 0)
  {
  }

  lemma NearestWhen(n: int, b4: int, k: int, neg: bool, sig: int)
    requires n == k * (4 * b4) + (if neg then -4 * sig else 4 * sig)
    requires 0 <= 2 * sig <= b4 && (2 * sig == b4 ==> k % 2 == 0) && (neg ==> sig > 0)
    ensures Nearest(n, b4, k, neg, sig)
  {
  }

  method NearestMultiple(q0: u64, r0: u64, b4: u64, ghost n: int, ghost k0: int)
    returns (signZ: bool, sig: u64)
    requires Left(n, b4, k0, q0, r0) && r0 < 3 * b4 && 0x2000_0000_0000_0000 <= b4 < 0x4000_0000_0000_0000
    ensures exists k :: Nearest(n, b4, k, signZ, sig)
  {
    hide *;
    ghost var k := k0;
    BetweenStart(n, b4, k, q0, r0);
    var alternate: u64 := r0;
    var q := Wrap64(q0 as int + 1);
    var sigA := Wrap64(r0 as int - b4 as int);
    while sigA < 0x8000_0000_0000_0000
      invariant Between(n, b4, k, q, alternate, sigA)
      decreases alternate
    {
      BetweenIs(n, b4, k, q, alternate, sigA);
      BetweenStep(n, b4, k, q, alternate, sigA);
      k := k + 1;
      alternate := sigA;
      q := Wrap64(q as int + 1);
      sigA := Wrap64(sigA as int - b4 as int);
    }
    BetweenIs(n, b4, k, q, alternate, sigA);
    var sigMean := Wrap64(sigA + alternate);
    k := Select(n, b4, k, q, alternate, sigA, sigMean);
    if 0x8000_0000_0000_0000 <= sigMean || (sigMean == 0 && q % 2 == 1) {
      sigA := alternate;
    }
    signZ := 0x8000_0000_0000_0000 <= sigA;
    sig := sigA;
    if signZ {
      sig := 0x1_0000_0000_0000_0000 - sigA;
    }
    assert Nearest(n, b4, k, signZ, sig);
  }

  // --- Back to the exact remainder ---

  /** Both operands over the exponent the loop works at. */
  lemma ScaledOperands(a: nat, b: nat, expA: int, expB: int, mA: int, mB: int, w: int)
    requires Normal(F64, a, expA, mA) && Normal(F64, b, expB, mB) && expA - expB >= -1
    requires w == expB - 1086
    ensures Magnitude(F64, a) == Dyadic(Dividend(mA, expA - expB) as real, w)
    ensures Magnitude(F64, b) == Dyadic((mB * 0x800) as real, w)
  {
    hide *;
    FormatConstants();
    NormalIs(F64, a, expA, mA);
    NormalIs(F64, b, expB, mB);
    Exp2Constants();
    var d := expA - expB;
    DividendIs(mA, d);
    ToReal(mB, Exp2(11));
    DyadicShift(mB as real, (mB * 0x800) as real, w, 11);
    if d < 0 {
      ToReal(mA, Exp2(10));
      DyadicShift(mA as real, Dividend(mA, d) as real, w, 10);
    } else {
      Exp2Add(11, d);
      Associate(mA, Exp2(11), Exp2(d));
      ToReal(mA, Exp2(11 + d));
      DyadicShift(mA as real, Dividend(mA, d) as real, w, 11 + d);
    }
  }

  lemma SameScale(x: real, y: real, w: int)
    requires y != 0.0
    ensures Dyadic(y, w) != 0.0 && Dyadic(x, w) / Dyadic(y, w) == x / y
  {
    hide *;
    DyadicDivide(x, w, y, w);
    DyadicIs(x / y, 0);
    Pow2Zero();
  }

  lemma DyadicRemainder(n: int, k: int, s: int, r: int, w: int)
    requires n == k * s + r
    ensures Dyadic(n as real, w) - k as real * Dyadic(s as real, w) == Dyadic(r as real, w)
  {
    hide *;
    DyadicIs(n as real, w);
    DyadicIs(s as real, w);
    DyadicIs(r as real, w);
    ToReal(k, s);
    RemainderTimes(n as real, k as real, s as real, r as real, Pow2(w));
  }

  lemma RemainderTimes(n: real, k: real, s: real, r: real, p: real)
    requires n == k * s + r
    ensures n * p - k * (s * p) == r * p
  {
  }

  lemma NearestIsExact(n: int, b4: int, k: int, neg: bool, sig: int)
    requires Nearest(n, b4, k, neg, sig) && b4 > 0
    ensures RoundInt(NearEven, false, n as real / (4 * b4) as real) == k
    ensures n == k * (4 * b4) + (if neg then -4 * sig else 4 * sig)
    ensures sig >= 0 && (neg ==> sig > 0)
  {
    var r: int := if neg then -4 * sig else 4 * sig;
    var s: nat := 4 * b4;
    assert n == k * s + r;
    hide *;
    NearestOf(n, s, k, r);
  }

  lemma FourTimesDyadic(sig: int, w: int, neg: bool)
    requires sig >= 0
    ensures var d := Dyadic((if neg then -4 * sig else 4 * sig) as real, w);
            && Dyadic(sig as real, w + 2) == (if neg then -d else d)
            && (sig > 0 ==> (d < 0.0 <==> neg) && d != 0.0) && (sig == 0 ==> d == 0.0)
  {
    hide *;
    SmallPowers();
    DyadicShift(sig as real, (4 * sig) as real, w, 2);
    DyadicIs((4 * sig) as real, w);
    DyadicIs((-4 * sig) as real, w);
    SignedProduct((4 * sig) as real, Pow2(w));
    DyadicPositive((4 * sig) as real, w);
  }

  lemma RemPacks(mode: Mode, a: nat, b: nat, expA: int, expB: int, mA: int, mB: int, k: int, neg: bool, sig: int)
    requires IsFinite(F64, a) && IsFinite(F64, b) && !IsZero(F64, a) && !IsZero(F64, b)
    requires Normal(F64, a, expA, mA) && Normal(F64, b, expB, mB) && expA - expB >= -1
    requires Nearest(Dividend(mA, expA - expB), mB * 0x200, k, neg, sig)
    ensures Packed(F64, sig as real, expB) >= 0.0
    ensures Rem(F64, mode, a, b) == RoundUnits(F64, mode, Neg(F64, a) != neg, Packed(F64, sig as real, expB))
  {
    hide *;
    FormatConstants();
    var w := expB - 1086;
    NormalBounds(F64, a, expA, mA);
    NormalBounds(F64, b, expB, mB);
    var n: int, s: int := Dividend(mA, expA - expB), mB * 0x800;
    ScaledOperands(a, b, expA, expB, mA, mB, w);
    NearestIsExact(n, mB * 0x200, k, neg, sig);
    var r := if neg then -4 * sig else 4 * sig;
    SameScale(n as real, s as real, w);
    NearestIs(Magnitude(F64, a), Magnitude(F64, b));
    DyadicRemainder(n, k, s, r, w);
    FourTimesDyadic(sig, w, neg);
    var mag := Dyadic(sig as real, w + 2);
    RemFinite(F64, mode, a, b, k, Dyadic(r as real, w), mag);
    PackedNonnegative(sig, expB);
    if sig == 0 {
      ZeroOutcome(F64, mode, Neg(F64, a), expB);
      OutcomeIs(F64, Neg(F64, a), 0);
      assert sig as real == 0.0 && !neg && mag == 0.0;
    } else {
      RoundsAsPacked(F64, mode, Neg(F64, a) != neg, sig as real, expB, mag);
      SignedIs(F64, mode, Neg(F64, a) != neg, mag);
    }
  }

  lemma PackedNonnegative(sig: int, exp: int)
    requires sig >= 0
    ensures Packed(F64, sig as real, exp) >= 0.0
  {
    hide Pow2;
  }

  /** Below half a divisor the quotient rounds to zero. */
  lemma RemSmall(mode: Mode, a: nat, b: nat, expA: int, expB: int, mA: int, mB: int)
    requires IsBits(F64, a) && IsFinite(F64, a) && IsFinite(F64, b) && !IsZero(F64, a) && !IsZero(F64, b)
    requires Normal(F64, a, expA, mA) && Normal(F64, b, expB, mB) && expA - expB < -1
    ensures Rem(F64, mode, a, b) == Outcome(a, {})
  {
    hide *;
    FormatConstants();
    NormalIs(F64, a, expA, mA);
    NormalIs(F64, b, expB, mB);
    NormalBounds(F64, a, expA, mA);
    NormalBounds(F64, b, expB, mB);
    var x, y := Magnitude(F64, a), Magnitude(F64, b);
    var e := expA - 1075;
    Exp2Mono(2, expB - expA);
    SmallPowers();
    var p := Exp2(expB - expA);
    ToReal(mB, p);
    DyadicShift(mB as real, (mB * p) as real, e, expB - expA);
    ProductMono(4, p, mB);
    DyadicDivide(mA as real, e, (mB * p) as real, e);
    SameScale(mA as real, (mB * p) as real, e);
    BelowHalf(mA as real, (mB * p) as real);
    NearestIs(x, y);
    ValSign(F64, a);
    NoMultiple(y);
    RemFinite(F64, mode, a, b, 0, x, x);
    RoundsToItself(F64, mode, a);
  }

  lemma NoMultiple(y: real)
    ensures 0 as real * y == 0.0
  {
  }

  lemma BelowHalf(x: real, y: real)
    requires 0.0 <= 2.0 * x < y
    ensures RoundInt(NearEven, false, x / y) == 0
  {
    var z := x / y;
    assert x == z * y;
    CancelLess(z, 0.5, y);
    CancelLess(z, 0.0, y);
    NearestAround(0, z);
  }

  method F64RemFinite(st: FloatState, a: u64, b: u64) returns (z: u64)
    requires IsFinite(F64, a) && IsFinite(F64, b) && !IsZero(F64, a) && !IsZero(F64, b)
    modifies st`exceptionFlags
    ensures var o := Rem(F64, st.roundingMode, a, b);
            z == o.bits && st.exceptionFlags == old(st.exceptionFlags) + o.flags
  {
    hide *;
    FormatConstants();
    BitsOfWords(a);
    BitsOfWords(b);
    Fields(F64, a);
    var expA, mA := NormaliseF64(a);
    var expB, mB := NormaliseF64(b);
    if expA - expB < -1 {
      RemSmall(st.roundingMode, a, b, expA, expB, mA, mB);
      return a;
    }
    NormalisedIs(mA);
    NormalisedIs(mB);
    var q, sigA;
    ghost var k;
    q, sigA, k := PartialRemainder(mA, mB, expA - expB);
    var signZ, sig;
    ghost var n := Dividend(mA, expA - expB);
    signZ, sig := NearestMultiple(q, sigA, mB * 0x200, n, k);
    k :| Nearest(n, mB * 0x200, k, signZ, sig);
    RemPacks(st.roundingMode, a, b, expA, expB, mA, mB, k, signZ, sig);
    NearestBound(n, mB * 0x200, k, signZ, sig);
    NormPackedIs(F64, st.roundingMode, SignUI(F64, a) != signZ, expB, sig);
    z := NormRoundPackToF64(st, SignUI(F64, a) != signZ, expB, sig);
  }

  lemma NearestBound(n: int, b4: int, k: int, neg: bool, sig: int)
    requires Nearest(n, b4, k, neg, sig) && b4 < 0x4000_0000_0000_0000
    ensures sig < 0x4000_0000_0000_0000
  {
  }

  method F64Rem(st: FloatState, a: u64, b: u64) returns (z: u64)
    modifies st`exceptionFlags
    ensures var o := Rem(F64, st.roundingMode, a, b);
            z == o.bits && st.exceptionFlags == old(st.exceptionFlags) + o.flags
  {
    hide *;
    FormatConstants();
    BitsOfWords(a);
    BitsOfWords(b);
    RemCases(F64, st.roundingMode, a, b);
    Fields(F64, a);
    Fields(F64, b);
    var expA, sigA := ExpUI(F64, a), FracUI(F64, a);
    var expB, sigB := ExpUI(F64, b), FracUI(F64, b);
    SpecialBits(false, true);
    SpecialBits(false, IsSignalling(F64, a) || IsSignalling(F64, b));
    if expA == 0x7FF {
      if sigA != 0 || (expB == 0x7FF && sigB != 0) {
        z := PropagateNaNF64UI(st, a, b);
      } else {
        st.exceptionFlags := st.exceptionFlags + {Invalid};
        z := 0xFFFF_FFFF_FFFF_FFFF;
      }
    } else if expB == 0x7FF {
      if sigB != 0 {
        z := PropagateNaNF64UI(st, a, b);
      } else {
        z := a;
      }
    } else if expB == 0 && sigB == 0 {
      st.exceptionFlags := st.exceptionFlags + {Invalid};
      z := 0xFFFF_FFFF_FFFF_FFFF;
    } else if expA == 0 && sigA == 0 {
      z := a;
    } else {
      z := F64RemFinite(st, a, b);
    }
  }
}
