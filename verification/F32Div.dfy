/** f32_div: single-precision division. */
module F32Div {
  import opened Powers
  import opened Rounding
  import opened Ieee754
  import opened RoundTheory
  import opened Words
  import opened Primitives
  import opened RoundPack
  import opened Unpack
  import opened F32Mul

  lemma DivOfFinite(f: Format, mode: Mode, a: nat, b: nat)
    requires !IsNaN(f, a) && !IsNaN(f, b) && !IsInf(f, a) && !IsInf(f, b) && !IsZero(f, a) && !IsZero(f, b)
    ensures Val(f, b) != 0.0 && Div(f, mode, a, b) == Round(f, mode, Val(f, a) / Val(f, b))
  {
    hide Round, IsNaN, IsInf, IsZero, Magnitude;
    Magnitudes(f, b);
  }

  lemma DivFinite(f: Format, mode: Mode, a: nat, b: nat)
    requires IsFinite(f, a) && IsFinite(f, b) && !IsZero(f, a) && !IsZero(f, b)
    ensures Magnitude(f, b) != 0.0 && Magnitude(f, a) / Magnitude(f, b) > 0.0
    ensures var mag := Magnitude(f, a) / Magnitude(f, b);
            Div(f, mode, a, b) == Signed(f, mode, Neg(f, a) != Neg(f, b), mag)
  {
    hide *;
    FiniteIsNoNaN(f, a);
    FiniteIsNoNaN(f, b);
    ValSign(f, a);
    ValSign(f, b);
    DivOfFinite(f, mode, a, b);
    SignedQuotient(Magnitude(f, a), Magnitude(f, b));
    var mag := Magnitude(f, a) / Magnitude(f, b);
    SignedAt(f, mode, Val(f, a) / Val(f, b), Neg(f, a) != Neg(f, b), mag);
  }

  lemma SignedQuotient(x: real, y: real)
    requires y > 0.0
    ensures -x / y == -(x / y) && x / -y == -(x / y) && -x / -y == x / y
    ensures x > 0.0 ==> x / y > 0.0
  {
    var z := x / y;
    assert x == z * y;
  }

  /** The quotient of two normal magnitudes, scaled by 2^k. */
  lemma QuotientMagnitude(f: Format, a: nat, b: nat, expA: int, expB: int, sigA: int, sigB: int, n: nat, d: nat, k: nat)
    requires Normal(f, a, expA, sigA) && Normal(f, b, expB, sigB)
    requires d > 0 && n * sigB == sigA * d * Exp2(k)
    ensures Magnitude(f, b) != 0.0
    ensures Magnitude(f, a) / Magnitude(f, b) == Dyadic(n as real / d as real, expA - expB - k)
  {
    hide *;
    FormatConstants();
    NormalIs(f, a, expA, sigA);
    NormalIs(f, b, expB, sigB);
    var u := f.UnitExp();
    DyadicDivide(sigA as real, expA - 1 + u, sigB as real, expB - 1 + u);
    ScaledQuotient(n, d, sigA, sigB, Exp2(k));
    DyadicShift(sigA as real / sigB as real, n as real / d as real, expA - expB - k, k);
  }

  lemma ScaledQuotient(n: nat, d: nat, x: int, y: int, p: nat)
    requires d > 0 && y > 0 && n * y == x * d * p
    ensures n as real / d as real == x as real / y as real * p as real
  {
    var q, r := n as real / d as real, x as real / y as real;
    assert q * d as real == n as real;
    assert r * y as real == x as real;
    ToReal(n, y);
    ToReal(x, d);
    ToReal(x * d, p);
    var dy := d as real * y as real;
    assert q * dy == n as real * y as real;
    assert r * p as real * dy == x as real * d as real * p as real;
    CancelLess(q, r * p as real, dy);
  }

  lemma WordQuotientBounds(n: nat, d: nat, full: nat)
    requires 0 < d && full * d <= n < 2 * full * d
    ensures full <= n / d < 2 * full
  {
    hide *;
    var q, r := n / d, n % d;
    assert n == q * d + r;
    if q < full {
      ProductMono(q + 1, full, d);
    } else if q >= 2 * full {
      ProductMono(2 * full, q, d);
    }
  }

  /** The quotient, its last bit set when it is inexact and its low six bits are all zero. */
  function StickyDiv(n: nat, d: nat): int
    requires d > 0
  {
    if n / d % 0x40 == 0 && n % d != 0 then n / d + 1 else n / d
  }

  /** A quotient word standing for n / d packs to the outcome of the division. */
  lemma QuotientPacks(f: Format, mode: Mode, a: nat, b: nat, expA: int, expB: int, sigA: int, sigB: int, n: nat,
      d: nat, k: nat, z: int)
    requires IsFinite(f, a) && IsFinite(f, b) && !IsZero(f, a) && !IsZero(f, b)
    requires Normal(f, a, expA, sigA) && Normal(f, b, expB, sigB)
    requires 0 < d && n * sigB == sigA * d * Exp2(k)
    requires f.Full() <= z < 2 * f.Full() && StandsFor(f, z, n as real / d as real)
    ensures Packs(f, mode, Neg(f, a) != Neg(f, b), Div(f, mode, a, b), z, expA - expB - k + f.StepBits() - f.UnitExp())
  {
    hide *;
    DivFinite(f, mode, a, b);
    QuotientMagnitude(f, a, b, expA, expB, sigA, sigB, n, d, k);
    FinishPacks(f, mode, Neg(f, a) != Neg(f, b), n as real / d as real, z, expA - expB - k + f.StepBits() - f.UnitExp(),
                Magnitude(f, a) / Magnitude(f, b));
  }

  /** The quotient word, sticky only where its low six bits are zero, and its exponent. */
  lemma QuotientRounds(mode: Mode, a: nat, b: nat, expA: int, expB: int, sigA: int, sigB: int, n: nat, d: nat, k: nat,
      z: int)
    requires IsFinite(F32, a) && IsFinite(F32, b) && !IsZero(F32, a) && !IsZero(F32, b)
    requires Normal(F32, a, expA, sigA) && Normal(F32, b, expB, sigB)
    requires 0 < d && n * sigB == sigA * d * Exp2(k)
    requires 0x4000_0000 * d <= n < 0x8000_0000 * d
    requires z == StickyDiv(n, d)
    ensures Packs(F32, mode, Neg(F32, a) != Neg(F32, b), Div(F32, mode, a, b), z, expA - expB - k + 156)
  {
    hide *;
    FormatConstants();
    WordQuotientBounds(n, d, 0x4000_0000);
    StickyDivIs(n, d);
    StickyDigit(n / d, z);
    QuotientStands(F32, n, d, z);
    QuotientPacks(F32, mode, a, b, expA, expB, sigA, sigB, n, d, k, z);
  }

  lemma StickyDivIs(n: nat, d: nat)
    requires d > 0
    ensures StickyDiv(n, d) == if n / d % 0x40 == 0 && n % d != 0 then n / d + 1 else n / d
  {
  }

  lemma StickyDigit(q: nat, z: int)
    requires q < 0x8000_0000 && (z == q || (z == q + 1 && q % 0x40 == 0))
    ensures z / 0x40 == q / 0x40 && (z == q + 1 ==> z % 0x40 == 1)
    ensures 0x4000_0000 <= q ==> 0x4000_0000 <= z < 0x8000_0000
  {
  }

  method StickyQuotient(n: nat, d: nat) returns (z: nat)
    requires d > 0
    ensures z == StickyDiv(n, d)
  {
    hide *;
    QuotientProduct(n, d);
    StickyDivIs(n, d);
    z := n / d;
    if z % 0x40 == 0 {
      OrBit(z, d * z != n);
      z := BitOr(z, Bit(d * z != n));
    }
  }

  lemma DivRounds(mode: Mode, a: nat, b: nat, expA: int, expB: int, mA: int, mB: int, expZ: int, sigA: int, sigB: int,
      z: int)
    requires IsFinite(F32, a) && IsFinite(F32, b) && !IsZero(F32, a) && !IsZero(F32, b)
    requires Normal(F32, a, expA, mA) && Normal(F32, b, expB, mB)
    requires sigB == mB * 0x100 && sigB > 0 && sigA >= 0
    requires if sigB <= mA * 0x100 then expZ == expA - expB + 0x7E && sigA == mA * 0x40
             else expZ == expA - expB + 0x7D && sigA == mA * 0x80
    requires z == StickyDiv(sigA * 0x1_0000_0000, sigB)
    ensures Packs(F32, mode, Neg(F32, a) != Neg(F32, b), Div(F32, mode, a, b), z, expZ)
  {
    hide *;
    FormatConstants();
    NormalBounds(F32, a, expA, mA);
    NormalBounds(F32, b, expB, mB);
    var k := if sigB <= mA * 0x100 then 30 else 31;
    DividendBounds(mA, mB, sigA, sigB, k);
    QuotientRounds(mode, a, b, expA, expB, mA, mB, sigA * 0x1_0000_0000, sigB, k, z);
  }

  method F32DivFinite(st: FloatState, a: u32, b: u32) returns (z: u32)
    requires IsFinite(F32, a) && IsFinite(F32, b) && !IsZero(F32, a) && !IsZero(F32, b)
    modifies st`exceptionFlags
    ensures var o := Div(F32, st.roundingMode, a, b);
            z == o.bits && st.exceptionFlags == old(st.exceptionFlags) + o.flags
  {
    hide *;
    BitsOfWords(a);
    BitsOfWords(b);
    Fields(F32, a);
    Fields(F32, b);
    var signZ := SignUI(F32, a) != SignUI(F32, b);
    var expA, mA: int := NormaliseF32(a);
    var expB, mB: int := NormaliseF32(b);
    var expZ := expA - expB + 0x7D;
    var sigA: int, sigB: int := mA * 0x80, mB * 0x100;
    if sigB <= sigA + sigA {
      expZ := expZ + 1;
      sigA := sigA / 2;
    }
    var sigZ := StickyQuotient(sigA * 0x1_0000_0000, sigB);
    DivRounds(st.roundingMode, a, b, expA, expB, mA, mB, expZ, sigA, sigB, sigZ);
    FormatConstants();
    PacksIs(F32, st.roundingMode, signZ, Div(F32, st.roundingMode, a, b), sigZ, expZ);
    z := RoundPackToF32(st, signZ, expZ, sigZ);
  }

  lemma DividendBounds(mA: int, mB: int, sigA: int, sigB: int, k: nat)
    requires 0x80_0000 <= mA < 0x100_0000 && 0x80_0000 <= mB < 0x100_0000 && sigB == mB * 0x100
    requires if sigB <= mA * 0x100 then k == 30 && sigA == mA * 0x40 else k == 31 && sigA == mA * 0x80
    ensures 0x4000_0000 * sigB <= sigA * 0x1_0000_0000 < 0x8000_0000 * sigB
    ensures sigA * 0x1_0000_0000 * mB == mA * sigB * Exp2(k)
  {
    Exp2Constants();
    hide Exp2;
    assert mA * sigB == mA * mB * 0x100;
    if k == 30 {
      assert sigA * 0x1_0000_0000 * mB == mA * mB * 0x40_0000_0000;
    } else {
      assert sigA * 0x1_0000_0000 * mB == mA * mB * 0x80_0000_0000;
    }
  }

  lemma QuotientProduct(n: nat, d: nat)
    requires d > 0
    ensures n / d >= 0 && (d * (n / d) != n <==> n % d != 0)
  {
    QuotientNonnegative(n, d);
    assert n == d * (n / d) + n % d;
  }

  /** The results that need no arithmetic. */
  lemma DivCases(f: Format, mode: Mode, a: nat, b: nat)
    ensures var neg := Neg(f, a) != Neg(f, b);
            && (IsNaN(f, a) || IsNaN(f, b) ==>
                  Div(f, mode, a, b) == Quiet(f, IsSignalling(f, a) || IsSignalling(f, b)))
            && (!IsNaN(f, a) && !IsNaN(f, b) ==>
                && (IsInf(f, a) && IsInf(f, b) ==> Div(f, mode, a, b) == Quiet(f, true))
                && (IsZero(f, a) && IsZero(f, b) ==> Div(f, mode, a, b) == Quiet(f, true))
                && (IsInf(f, a) && !IsInf(f, b) ==> Div(f, mode, a, b) == Inf(f, neg))
                && (IsFinite(f, a) && !IsZero(f, a) && IsZero(f, b) ==>
                      Div(f, mode, a, b) == Outcome(Inf(f, neg).bits, {Infinite}))
                && (IsFinite(f, a) && IsInf(f, b) ==> Div(f, mode, a, b) == Zero(f, neg))
                && (IsZero(f, a) && IsFinite(f, b) && !IsZero(f, b) ==> Div(f, mode, a, b) == Zero(f, neg)))
  {
    hide Round, IsSignalling, Magnitude, Neg;
  }

  method F32Div(st: FloatState, a: u32, b: u32) returns (z: u32)
    modifies st`exceptionFlags
    ensures var o := Div(F32, st.roundingMode, a, b);
            z == o.bits && st.exceptionFlags == old(st.exceptionFlags) + o.flags
  {
    hide *;
    FormatConstants();
    DivCases(F32, st.roundingMode, a, b);
    BitsOfWords(a);
    BitsOfWords(b);
    Fields(F32, a);
    Fields(F32, b);
    var expA, sigA := ExpUI(F32, a), FracUI(F32, a);
    var expB, sigB := ExpUI(F32, b), FracUI(F32, b);
    var signZ := SignUI(F32, a) != SignUI(F32, b);
    SpecialBits(signZ, true);
    SpecialBits(signZ, IsSignalling(F32, a) || IsSignalling(F32, b));
    if expA == 0xFF {
      if sigA != 0 || (expB == 0xFF && sigB != 0) {
        z := PropagateNaNF32UI(st, a, b);
      } else if expB == 0xFF {
        st.exceptionFlags := st.exceptionFlags + {Invalid};
        z := 0xFFFF_FFFF;
      } else {
        z := PackToF32UI(signZ, 0xFF, 0);
      }
    } else if expB == 0xFF {
      if sigB != 0 {
        z := PropagateNaNF32UI(st, a, b);
      } else {
        z := PackToF32UI(signZ, 0, 0);
      }
    } else if expB == 0 && sigB == 0 {
      OrZero(expA, sigA);
      if BitOr(expA, sigA) == 0 {
        st.exceptionFlags := st.exceptionFlags + {Invalid};
        z := 0xFFFF_FFFF;
      } else {
        st.exceptionFlags := st.exceptionFlags + {Infinite};
        z := PackToF32UI(signZ, 0xFF, 0);
      }
    } else if expA == 0 && sigA == 0 {
      z := PackToF32UI(signZ, 0, 0);
    } else {
      z := F32DivFinite(st, a, b);
    }
  }
}
