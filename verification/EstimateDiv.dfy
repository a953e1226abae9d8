/** softfloat_estimateDiv128To64: a quotient from two 32-bit digits, never low and at most 2 high. */
module EstimateDiv {
  import opened Powers
  import opened Words
  import opened Primitives
  import opened Wide128

  /** A digit estimated from leading parts: hi over b32 in place of u over b. */
  lemma DigitBound(u: nat, b: nat, hi: nat, b32: nat, low: nat, z: nat)
    requires b == b32 * 0x1_0000_0000 + low && low < 0x1_0000_0000 && b >= 0x8000_0000_0000_0000
    requires hi * 0x1_0000_0000 <= u < hi * 0x1_0000_0000 + 0x1_0000_0000
    requires z < 0x1_0000_0000 && z * b32 <= hi
    requires hi < (z + 1) * b32 || (z == 0xFFFF_FFFF && u < b * 0x1_0000_0000)
    ensures u / b <= z <= u / b + 2
  {
    hide *;
    var q := u / b;
    assert u == q * b + u % b;
    if hi < (z + 1) * b32 {
      NotLow(u, b, hi, b32, z);
    }
    if q > z {
      ProductMono(z + 1, q, b);
      assert false;
    }
    NotHigh(u, b, hi, b32, low, z);
    if z > q + 2 {
      ProductMono(q + 3, z, b);
      assert false;
    }
  }

  lemma NotLow(u: nat, b: nat, hi: nat, b32: nat, z: nat)
    requires b32 * 0x1_0000_0000 <= b && u < hi * 0x1_0000_0000 + 0x1_0000_0000 && hi < (z + 1) * b32
    ensures u < (z + 1) * b
  {
    ProductMono(b32 * 0x1_0000_0000, b, z + 1);
    Associate(z + 1, b32, 0x1_0000_0000);
  }

  lemma NotHigh(u: nat, b: nat, hi: nat, b32: nat, low: nat, z: nat)
    requires b == b32 * 0x1_0000_0000 + low && low < 0x1_0000_0000 && b >= 0x8000_0000_0000_0000
    requires hi * 0x1_0000_0000 <= u && z < 0x1_0000_0000 && z * b32 <= hi
    ensures z * b < u + 2 * b
  {
    hide *;
    ProductMono(low, 0xFFFF_FFFF, z);
    ProductMono(z, 0xFFFF_FFFF, 0xFFFF_FFFF);
    ProductSplit(z, b32, low);
  }

  lemma ProductSplit(z: nat, b32: nat, low: nat)
    ensures z * (b32 * 0x1_0000_0000 + low) == z * b32 * 0x1_0000_0000 + z * low
  {
  }

  /** The digit the code picks from hi and b32. */
  function Digit(hi: nat, b32: nat): nat
    requires b32 > 0
  {
    if b32 * 0x1_0000_0000 <= hi then 0xFFFF_FFFF else QuotientNonnegative(hi, b32); hi / b32
  }

  lemma DigitIs(u: nat, b: nat, hi: nat, b32: nat, low: nat)
    requires b == b32 * 0x1_0000_0000 + low && low < 0x1_0000_0000 && b >= 0x8000_0000_0000_0000 && b32 > 0
    requires hi * 0x1_0000_0000 <= u < hi * 0x1_0000_0000 + 0x1_0000_0000
    requires u < b * 0x1_0000_0000
    ensures Digit(hi, b32) < 0x1_0000_0000
    ensures u / b <= Digit(hi, b32) <= u / b + 2
  {
    var z := Digit(hi, b32);
    if b32 * 0x1_0000_0000 <= hi {
      ProductMono(0xFFFF_FFFF, 0x1_0000_0000, b32);
    } else {
      assert hi == z * b32 + hi % b32;
      SmallQuotient(hi, b32, z);
    }
    hide *;
    DigitBound(u, b, hi, b32, low, z);
  }

  lemma SmallQuotient(hi: nat, b32: nat, z: nat)
    requires b32 > 0 && z * b32 <= hi < b32 * 0x1_0000_0000
    ensures z < 0x1_0000_0000
  {
    if z >= 0x1_0000_0000 {
      ProductMono(0x1_0000_0000, z, b32);
    }
  }

  // --- The high digit and its remainder ---

  /** q is the exact high digit of a / b. */
  ghost predicate HighDigit(a: int, b: int, q: int) {
    && 0x8000_0000_0000_0000 <= b < 0x1_0000_0000_0000_0000 && 0 <= q
    && 0 <= Rest(a, b, q) < b * 0x1_0000_0000
  }

  /** What is left of a after taking the digit at the high position. */
  function Rest(a: int, b: int, digit: int): int {
    a - b * (digit * 0x1_0000_0000)
  }

  lemma RestStep(a: int, b: int, digit: int, more: int)
    ensures Rest(a, b, digit + more) == Rest(a, b, digit) - more * (b * 0x1_0000_0000)
  {
  }

  /** The remainder limbs hold the rest, negative exactly while the digit is too high. */
  ghost predicate Remaining(a: int, b: int, q: int, digit: int, rem: U128) {
    HighDigit(a, b, q) && q <= digit <= q + 2 && rem.V() == Wrap128(Rest(a, b, digit))
  }

  lemma RemainingSign(a: int, b: int, q: int, digit: int, rem: U128)
    requires Remaining(a, b, q, digit, rem)
    ensures 0x8000_0000_0000_0000 <= rem.v64 <==> digit > q
    ensures digit == q ==> rem.V() == Rest(a, b, q) < b * 0x1_0000_0000
  {
    hide Rest;
    RestStep(a, b, q, digit - q);
    if digit == q + 1 {
      assert Rest(a, b, digit) == Rest(a, b, q) - b * 0x1_0000_0000;
    } else if digit == q + 2 {
      assert Rest(a, b, digit) == Rest(a, b, q) - 2 * (b * 0x1_0000_0000);
    }
    SignedLimbs(rem, Rest(a, b, digit));
  }

  lemma SignedLimbs(z: U128, x: int)
    requires z.V() == Wrap128(x)
    requires -0x1_0000_0000_0000_0000_0000_0000_0000 <= x < 0x1_0000_0000_0000_0000_0000_0000_0000
    ensures 0x8000_0000_0000_0000 <= z.v64 <==> x < 0
    ensures x >= 0 ==> z.V() == x
  {
  }

  lemma StepRemaining(a: int, b: int, q: int, digit: int, rem: U128, next: U128)
    requires Remaining(a, b, q, digit, rem) && digit > q
    requires next.V() == Wrap128(rem.V() + b * 0x1_0000_0000)
    ensures Remaining(a, b, q, digit - 1, next)
  {
    hide Rest, Wrap128, U128.V;
    RestStep(a, b, digit, -1);
    WrapAgain(Rest(a, b, digit), b * 0x1_0000_0000);
  }

  lemma WrapAgain(x: int, y: int)
    ensures Wrap128(Wrap128(x) + y) == Wrap128(x + y)
    ensures Wrap128(y - Wrap128(x)) == Wrap128(y - x)
  {
    var m := 0x1_0000_0000_0000_0000_0000_0000_0000_0000;
    var k := x / m;
    assert x == k * m + Wrap128(x);
    WrapMultiple(Wrap128(x) + y, k);
    WrapMultiple(y - Wrap128(x), -k);
  }

  lemma WrapMultiple(x: int, k: int)
    ensures Wrap128(x + k * 0x1_0000_0000_0000_0000_0000_0000_0000_0000) == Wrap128(x)
  {
  }

  /** The first estimate: at most 2 above the exact high digit. */
  lemma FirstDigit(a64: u64, a0: u64, b: u64, b32: nat) returns (q: nat)
    requires b >= 0x8000_0000_0000_0000 && a64 < b && b32 == b / 0x1_0000_0000
    ensures b32 > 0 && Digit(a64, b32) < 0x1_0000_0000
    ensures q <= Digit(a64, b32) <= q + 2 && HighDigit(Value128(a64, a0), b, q)
  {
    hide Digit, Rest;
    var u: nat := a64 * 0x1_0000_0000 + a0 / 0x1_0000_0000;
    DigitIs(u, b, a64, b32, b % 0x1_0000_0000);
    QuotientNonnegative(u, b);
    q := u / b;
    assert u == q * b + u % b;
    RestOfLeading(a64, a0, b, q, u);
  }

  lemma RestOfLeading(a64: u64, a0: u64, b: u64, q: nat, u: nat)
    requires u == a64 * 0x1_0000_0000 + a0 / 0x1_0000_0000 && q * b <= u < q * b + b
    ensures 0 <= Rest(Value128(a64, a0), b, q) < b * 0x1_0000_0000
  {
    var p := q * b;
    assert b * (q * 0x1_0000_0000) == p * 0x1_0000_0000;
  }

  /** The two middle words of a remainder below 2^96, as one 64-bit word. */
  method JoinHalves(rem: U128) returns (r: u64)
    requires rem.v64 < 0x1_0000_0000
    ensures r == rem.V() / 0x1_0000_0000
  {
    hide BitOr, Exp2;
    Exp2Constants();
    OrDisjoint(rem.v64, rem.v0 / 0x1_0000_0000, 32);
    r := BitOr(Wrap64(rem.v64 as int * 0x1_0000_0000), rem.v0 / 0x1_0000_0000);
  }

  /** The low digit completes the estimate. */
  lemma SecondDigit(a: int, b: int, b32: int, q: int, rest: int, rem32: int)
    requires HighDigit(a, b, q) && rest == Rest(a, b, q) && b32 == b / 0x1_0000_0000 && rem32 == rest / 0x1_0000_0000
    ensures b32 > 0 && rem32 >= 0 && Digit(rem32, b32) < 0x1_0000_0000
    ensures a / b <= q * 0x1_0000_0000 + Digit(rem32, b32) <= a / b + 2
  {
    hide Digit;
    DigitIs(rest, b, rem32, b32, b % 0x1_0000_0000);
    var low := rest / b;
    assert rest == low * b + rest % b;
    assert (q * 0x1_0000_0000 + low) * b == b * (q * 0x1_0000_0000) + low * b;
    Euclid(a, b, q * 0x1_0000_0000 + low, rest % b);
  }

  lemma RemainingStart(a64: u64, a0: u64, b: u64, q: int, digit: int, z: int, term: U128, rem: U128)
    requires HighDigit(Value128(a64, a0), b, q) && q <= digit <= q + 2 && z == digit * 0x1_0000_0000
    requires term.V() == b * z && rem.V() == Wrap128(Value128(a64, a0) - Value128(term.v64, term.v0))
    ensures Remaining(Value128(a64, a0), b, q, digit, rem)
  {
    hide HighDigit, Rest;
    RestIs(Value128(a64, a0), b, digit, z);
    ValueOf(term);
  }

  lemma RestIs(a: int, b: int, digit: int, z: int)
    requires z == digit * 0x1_0000_0000
    ensures Rest(a, b, digit) == a - b * z
  {
  }

  lemma ShiftedDivisor(b: u64, b32: nat)
    requires b32 == b / 0x1_0000_0000
    ensures Value128(b32, Wrap64(b * 0x1_0000_0000)) == b * 0x1_0000_0000
    ensures b32 < 0x1_0000_0000
  {
  }

  lemma RemainderHigh(rem: U128, b: u64)
    requires rem.V() < b * 0x1_0000_0000
    ensures rem.v64 < 0x1_0000_0000
  {
  }

  method EstimateDiv128To64(a64: u64, a0: u64, b: u64) returns (z: u64, ghost steps: nat)
    requires b >= 0x8000_0000_0000_0000
    ensures b <= a64 ==> z == 0xFFFF_FFFF_FFFF_FFFF
    ensures a64 < b ==> Value128(a64, a0) / b <= z <= Value128(a64, a0) / b + 2
    ensures steps <= 2
  {
    hide *;
    steps := 0;
    if b <= a64 {
      return 0xFFFF_FFFF_FFFF_FFFF, 0;
    }
    var b32 := b / 0x1_0000_0000;
    ghost var a := Value128(a64, a0);
    ghost var q := FirstDigit(a64, a0, b, b32);
    ghost var digit: int := Digit(a64, b32);
    z := Digit(a64, b32) * 0x1_0000_0000;
    var term := Mul64To128(b, z);
    var rem := Sub128(a64, a0, term.v64, term.v0);
    RemainingStart(a64, a0, b, q, digit, z, term, rem);
    ShiftedDivisor(b, b32);
    while 0x8000_0000_0000_0000 <= rem.v64
      invariant q <= digit <= q + 2 && z == digit * 0x1_0000_0000
      invariant Remaining(a, b, q, digit, rem)
      invariant steps + (digit - q) <= 2
      decreases digit - q
    {
      RemainingSign(a, b, q, digit, rem);
      z := z - 0x1_0000_0000;
      ghost var was := rem;
      ValueIs(rem);
      ValueOf(rem);
      rem := Add128(rem.v64, rem.v0, b32, Wrap64(b as int * 0x1_0000_0000));
      StepRemaining(a, b, q, digit, was, rem);
      digit := digit - 1;
      steps := steps + 1;
    }
    RemainingSign(a, b, q, digit, rem);
    RemainderHigh(rem, b);
    var rem32 := JoinHalves(rem);
    RemainingIs(a, b, q, digit, rem);
    SecondDigit(a, b, b32, q, rem.V(), rem32);
    Exp2Constants();
    OrDisjoint(q, Digit(rem32, b32), 32);
    z := BitOr(z, Digit(rem32, b32));
  }

  lemma ValueOf(z: U128)
    ensures Value128(z.v64, z.v0) == z.V()
  {
  }

  lemma RemainingIs(a: int, b: int, q: int, digit: int, rem: U128)
    requires Remaining(a, b, q, digit, rem)
    ensures HighDigit(a, b, q)
  {
    hide HighDigit, Rest;
  }
}
