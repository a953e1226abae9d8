/** Conversions between the formats and from 32-bit integers, and the round trips they complete. */
module Convert {
  import opened Powers
  import opened Rounding
  import opened Ieee754
  import opened RoundTheory
  import opened Words
  import opened Primitives
  import opened RoundPack
  import opened Unpack
  import opened Align
  import opened RemTheory
  import opened MulAddTheory
  import opened Shift128
  import opened FloatToInt

  // --- The specification, by cases ---

  lemma ConvertCases(from: Format, to: Format, mode: Mode, a: nat)
    ensures IsNaN(from, a) ==>
      Convert(from, to, mode, a)
        == Outcome(WithSign(to, Neg(from, a), to.SignBit() - 1), if IsSignalling(from, a) then {Invalid} else {})
    ensures IsInf(from, a) ==> Convert(from, to, mode, a) == Inf(to, Neg(from, a))
    ensures IsZero(from, a) ==> Convert(from, to, mode, a) == Zero(to, Neg(from, a))
  {
    ValSign(from, a);
    hide Round, IsSignalling, Val, Neg, WithSign, Magnitude;
  }

  lemma ConvertFinite(from: Format, to: Format, mode: Mode, a: nat)
    requires IsFinite(from, a) && !IsZero(from, a)
    ensures Convert(from, to, mode, a) == Signed(to, mode, Neg(from, a), Magnitude(from, a))
    ensures Magnitude(from, a) > 0.0
  {
    hide *;
    FiniteIsNoNaN(from, a);
    ValSign(from, a);
    ConvertExact(from, to, mode, a);
    ExactSigned(to, mode, Neg(from, a), Val(from, a), Neg(from, a), Magnitude(from, a));
  }

  lemma ConvertExact(from: Format, to: Format, mode: Mode, a: nat)
    requires !IsNaN(from, a) && !IsInf(from, a)
    ensures Convert(from, to, mode, a) == Exact(to, mode, Neg(from, a), Val(from, a))
  {
    hide Exact, Neg, Val, IsNaN, IsInf;
  }

  /** softfloat_commonNaNToF32UI and F64UI of the canonical NaN of either format. */
  lemma CommonNaN(neg: bool)
    ensures WithSign(F32, neg, F32.SignBit() - 1) == Bit(neg) * 0x8000_0000 + 0x7FFF_FFFF < 0x1_0000_0000
    ensures WithSign(F64, neg, F64.SignBit() - 1)
         == Bit(neg) * 0x8000_0000_0000_0000 + 0x7FFF_FFFF_FFFF_FFFF < 0x1_0000_0000_0000_0000
  {
  }

  // --- Widening ---

  /** The double whose significand is m at exponent field exp, as the widening packs it. */
  lemma WidePack(sign: bool, exp: nat, m: nat)
    requires exp > 0 && 0x10_0000_0000_0000 <= m < 0x20_0000_0000_0000 && exp < 0x7FE
    ensures var z := PackToF64UI(sign, exp - 1, m);
            && 0 <= z < 0x1_0000_0000_0000_0000 && IsFinite(F64, z) && !IsZero(F64, z) && Neg(F64, z) == sign
            && Magnitude(F64, z) == Dyadic(m as real, exp - 1075)
  {
    hide *;
    FormatConstants();
    PackIsWithSign(sign, exp - 1, m);
    var code := (exp - 1) * F64.Frac() + m;
    ValOfCode(F64, sign, code);
    UnitsAt(F64, exp - 1, m);
    var z := PackToF64UI(sign, exp - 1, m);
    MagnitudeIs(F64, z);
    DyadicTwice(m as real, exp - 1, -1074);
    ZeroIs(F64, z);
  }

  lemma DyadicTwice(x: real, e: int, d: int)
    ensures x * Pow2(e) * Pow2(d) == Dyadic(x, e + d)
  {
    hide *;
    Pow2Add(e, d);
    DyadicIs(x, e + d);
    Associate3(x, Pow2(e), Pow2(d));
  }

  lemma ZeroIs(f: Format, a: nat)
    ensures IsZero(f, a) <==> Code(f, a) == 0
  {
  }

  /** A value both formats hold converts to itself, in every mode and without a flag. */
  lemma ConvertSame(from: Format, to: Format, mode: Mode, a: nat, z: nat)
    requires IsFinite(from, a) && !IsZero(from, a) && IsBits(to, z) && IsFinite(to, z) && !IsZero(to, z)
    requires Neg(to, z) == Neg(from, a) && Magnitude(to, z) == Magnitude(from, a)
    ensures Convert(from, to, mode, a) == Outcome(z, {})
  {
    hide *;
    ConvertFinite(from, to, mode, a);
    RoundsToItself(to, mode, z);
  }

  lemma WidenNormal(mode: Mode, a: nat, exp: int, m: int)
    requires IsFinite(F32, a) && !IsZero(F32, a)
    requires Normal(F32, a, exp, m) && -22 <= exp <= 254
    ensures var z := PackToF64UI(Neg(F32, a), exp + 0x37F, m * 0x2000_0000);
            && 0 <= z < 0x1_0000_0000_0000_0000 && IsFinite(F64, z)
            && Convert(F32, F64, mode, a) == Outcome(z, {})
  {
    hide *;
    FormatConstants();
    NormalBounds(F32, a, exp, m);
    NormalIs(F32, a, exp, m);
    Exp2Constants();
    ToReal(m, Exp2(29));
    DyadicShift(m as real, (m * 0x2000_0000) as real, exp - 179, 29);
    WidePack(Neg(F32, a), exp + 0x380, m * 0x2000_0000);
    var z := PackToF64UI(Neg(F32, a), exp + 0x37F, m * 0x2000_0000);
    BitsOfWords(z);
    ConvertSame(F32, F64, mode, a, z);
  }

  lemma PackCarry(sign: bool, exp: int, sig: int, m: int)
    requires m == sig + 0x80_0000
    ensures PackToF64UI(sign, exp + 0x380, sig * 0x2000_0000) == PackToF64UI(sign, exp + 0x37F, m * 0x2000_0000)
  {
  }

  method F32ToF64(st: FloatState, a: u32) returns (z: u64)
    modifies st`exceptionFlags
    ensures forall mode :: var o := Convert(F32, F64, mode, a);
              z == o.bits && st.exceptionFlags == old(st.exceptionFlags) + o.flags
  {
    hide *;
    FormatConstants();
    BitsOfWords(a);
    Fields(F32, a);
    SigNaN32(a);
    CommonNaN(Neg(F32, a));
    SpecialBits(Neg(F32, a), false);
    forall mode ensures Convert(F32, F64, mode, a) == Convert(F32, F64, NearEven, a) {
      WidenEveryMode(mode, a);
    }
    ConvertCases(F32, F64, NearEven, a);
    var sign := SignUI(F32, a);
    var exp: int, sig: u32 := ExpUI(F32, a), FracUI(F32, a);
    if exp == 0xFF {
      if sig != 0 {
        if IsSigNaNF32UI(a) {
          st.exceptionFlags := st.exceptionFlags + {Invalid};
        }
        z := Bit(sign) * 0x8000_0000_0000_0000 + 0x7FFF_FFFF_FFFF_FFFF;
      } else {
        z := PackToF64UI(sign, 0x7FF, 0);
      }
      return;
    }
    if exp == 0 {
      if sig == 0 {
        z := PackToF64UI(sign, 0, 0);
        return;
      }
      exp, sig := NormSubnormalF32Sig(sig);
      SubnormalField(F32, a, exp, sig);
      WidenNormal(NearEven, a, exp, sig);
      exp := exp - 1;
    } else {
      NormalField(F32, a);
      WidenNormal(NearEven, a, exp, sig as int + 0x80_0000);
      PackCarry(sign, exp, sig, sig as int + 0x80_0000);
    }
    z := PackToF64UI(sign, exp + 0x380, sig as int * 0x2000_0000);
  }

  /** The double that holds a single's value. */
  lemma Widened(a: u32) returns (z: nat)
    requires IsFinite(F32, a) && !IsZero(F32, a)
    ensures IsBits(F64, z) && IsFinite(F64, z) && !IsZero(F64, z)
    ensures Neg(F64, z) == Neg(F32, a) && Magnitude(F64, z) == Magnitude(F32, a)
  {
    hide *;
    FormatConstants();
    var m, p := UnitsSplit(F32, Code(F32, a));
    ExponentInRange(F32, a, p, m);
    var code := Representable(F64, m, p + 925);
    ValOfCode(F64, Neg(F32, a), code);
    z := WithSign(F64, Neg(F32, a), code);
    MagnitudeIs(F64, z);
    MagnitudeIs(F32, a);
    ToReal(m, Exp2(p));
    ToReal(m, Exp2(p + 925));
    Pow2IsExp2(p);
    Pow2IsExp2(p + 925);
    DyadicTwice(m as real, p, -149);
    DyadicTwice(m as real, p + 925, -1074);
    ValSign(F32, a);
    ValSign(F64, z);
  }

  /** Widening is exact: the same value, no flag, in every mode. */
  lemma WidenIsExact(mode: Mode, a: u32)
    requires IsFinite(F32, a)
    ensures var o := Convert(F32, F64, mode, a);
            && o.flags == {} && IsBits(F64, o.bits) && IsFinite(F64, o.bits)
            && Val(F64, o.bits) == Val(F32, a) && Neg(F64, o.bits) == Neg(F32, a)
  {
    hide *;
    FormatConstants();
    BitsOfWords(a);
    var z;
    if IsZero(F32, a) {
      ConvertCases(F32, F64, mode, a);
      z := WithSign(F64, Neg(F32, a), 0);
      ValOfCode(F64, Neg(F32, a), 0);
      OutcomeIs(F64, Neg(F32, a), z);
    } else {
      z := Widened(a);
      ConvertSame(F32, F64, mode, a, z);
    }
    ValSign(F32, a);
    ValSign(F64, z);
  }

  lemma WidenEveryMode(mode: Mode, a: u32)
    ensures Convert(F32, F64, mode, a) == Convert(F32, F64, NearEven, a)
  {
    hide *;
    ConvertCases(F32, F64, mode, a);
    ConvertCases(F32, F64, NearEven, a);
    BitsOfWords(a);
    Fields(F32, a);
    if IsFinite(F32, a) && !IsZero(F32, a) {
      var z := Widened(a);
      ConvertSame(F32, F64, mode, a, z);
      ConvertSame(F32, F64, NearEven, a, z);
    }
  }

  // --- Narrowing ---

  /** Below half the smallest value only the sign and the mode matter. */
  lemma TinyRounds(f: Format, mode: Mode, neg: bool, x: real, y: real)
    requires 0.0 < x < 0.5 && 0.0 < y < 0.5
    ensures RoundUnits(f, mode, neg, x) == RoundUnits(f, mode, neg, y)
  {
    hide *;
    TinyCode(f, mode, neg, x);
    TinyCode(f, mode, neg, y);
    TinyAgree(x, y);
    AgreeRoundsAlike(mode, neg, x, y);
    var r := RoundInt(mode, neg, x);
    RoundIntBounds(mode, neg, x);
    TinyWithin(f, x);
    TinyWithin(f, y);
    TinyUnits(f, r);
    RoundCodeNonnegative(f, mode, neg, x);
    RoundsAlike(f, mode, neg, x, y, RoundCode(f, mode, neg, x));
  }

  lemma TinyWithin(f: Format, x: real)
    requires 0.0 < x < 0.5
    ensures x < f.Frac() as real && x.Floor == 0
  {
  }

  lemma TinyCode(f: Format, mode: Mode, neg: bool, x: real)
    requires 0.0 < x < 0.5
    ensures RoundCode(f, mode, neg, x) == RoundInt(mode, neg, x)
  {
    hide RoundInt;
    Pow2Zero();
    RoundCodeAt(f, mode, neg, x, x, 0);
  }

  lemma TinyUnits(f: Format, r: int)
    requires 0 <= r <= 1
    ensures Units(f, r) == r
  {
    hide Exp2;
  }

  lemma TinyNarrow(mode: Mode, a: u64)
    requires IsFinite(F64, a) && !IsZero(F64, a) && ExpUI(F64, a) == 0
    ensures 0.0 < Magnitude(F64, a) / Pow2(-149) < 0.5
  {
    hide *;
    BitsOfWords(a);
    FormatConstants();
    Fields(F64, a);
    ValSign(F64, a);
    var m := FracUI(F64, a);
    UnitsOf(F64, 0, m);
    MagnitudeIs(F64, a);
    Pow2Add(-925, -149);
    var p := Pow2(-925);
    TinyTimes(m, 925, p);
    TinyScaled(m as real, p, Pow2(-149), Magnitude(F64, a), m as real * p);
  }

  lemma TinyTimes(m: nat, k: int, p: real)
    requires m < 0x10_0000_0000_0000 && k >= 55 && p == Pow2(-k)
    ensures 0.0 <= m as real * p < 0.5
  {
    hide *;
    Pow2Inverse(1.0, k);
    Exp2Constants();
    Exp2Mono(53, k);
    TinyReciprocal(m as real, p, Exp2(k) as real);
  }

  lemma TinyReciprocal(m: real, p: real, e: real)
    requires 0.0 <= 2.0 * m < e && 1.0 * p == 1.0 / e
    ensures 0.0 <= m * p < 0.5
  {
    TinyRatio(m, e);
    assert p * e == 1.0;
    assert m * p * e == m;
    hide *;
    CancelDivide(m * p, e);
  }

  lemma TinyScaled(m: real, p: real, u: real, z: real, y: real)
    requires u > 0.0 && z == m * (p * u) && y == m * p && 0.0 <= y < 0.5 && z > 0.0
    ensures 0.0 < z / u < 0.5
  {
    assert z == y * u;
    hide *;
    CancelDivide(y, u);
  }

  lemma TinyPacked(sig: nat)
    requires 0x4000_0000 <= sig < 0x8000_0000
    ensures 0.0 < Packed(F32, sig as real, -0x381) < 0.5
  {
    hide *;
    FormatConstants();
    PackedIs(F32, sig as real, sig as real / 128.0, -0x381);
    Pow2Inverse(sig as real / 128.0, 0x381);
    Exp2Constants();
    Exp2Mono(53, 0x381);
    TinyRatio(sig as real / 128.0, Exp2(0x381) as real);
  }

  /** The word the narrowing hands to round-and-pack. */
  lemma NarrowPacks(mode: Mode, a: u64, exp: nat, sig32: nat)
    requires IsFinite(F64, a) && !IsZero(F64, a) && exp == ExpUI(F64, a)
    requires sig32 == Jam(FracUI(F64, a), 22)
    ensures Packs(F32, mode, Neg(F64, a), Convert(F64, F32, mode, a), sig32 + 0x4000_0000, exp - 0x381)
  {
    hide *;
    BitsOfWords(a);
    FormatConstants();
    Fields(F64, a);
    ConvertFinite(F64, F32, mode, a);
    var m, neg := FracUI(F64, a), Neg(F64, a);
    LeadingJam(m, sig32);
    if exp == 0 {
      TinyNarrow(mode, a);
      TinyPacked(sig32 + 0x4000_0000);
      SignedIs(F32, mode, neg, Magnitude(F64, a));
      RoundSigned(F32, mode, neg, Magnitude(F64, a));
      TinyRounds(F32, mode, neg, Magnitude(F64, a) / Pow2(-149), Packed(F32, (sig32 + 0x4000_0000) as real, -0x381));
      ShiftedIsPackable(F32, -0x381, sig32 + 0x4000_0000);
      PacksWhen(F32, mode, neg, Convert(F64, F32, mode, a), sig32 + 0x4000_0000, -0x381);
    } else {
      NormalField(F64, a);
      NormalIs(F64, a, exp, F64.Frac() + m);
      var x := (F64.Frac() + m) as real / Exp2(22) as real;
      JamAgrees(F64.Frac() + m, 22);
      NearStands(F32, sig32 + 0x4000_0000, x);
      DyadicQuotient((F64.Frac() + m) as real, exp - 1075, 22);
      FinishPacks(F32, mode, neg, x, sig32 + 0x4000_0000, exp - 0x381, Magnitude(F64, a));
    }
  }

  lemma PacksWhen(f: Format, mode: Mode, neg: bool, o: Outcome, sig: int, exp: int)
    requires Packable(f, exp, sig) && Packed(f, sig as real, exp) >= 0.0
    requires o == RoundUnits(f, mode, neg, Packed(f, sig as real, exp))
    ensures Packs(f, mode, neg, o, sig, exp)
  {
    hide RoundUnits, Packed, Packable;
  }

  lemma LeadingJam(m: nat, j: nat)
    requires m < 0x10_0000_0000_0000 && j == Jam(m, 22)
    ensures 0 <= j < 0x4000_0000 && (j == 0 <==> m == 0)
    ensures Jam(0x10_0000_0000_0000 + m, 22) == j + 0x4000_0000
  {
    hide *;
    TwentyTwo();
    var q, r := Split(m, 22);
    JamParts(m, 22, q, r);
    JamParts(0x10_0000_0000_0000 + m, 22, q + 0x4000_0000, r);
  }

  lemma TwentyTwo()
    ensures Exp2(22) == 0x40_0000
  {
    Exp2Add(11, 11);
    Exp2Constants();
    hide Exp2;
  }

  method F64ToF32(st: FloatState, a: u64) returns (z: u32)
    modifies st`exceptionFlags
    ensures var o := Convert(F64, F32, st.roundingMode, a);
            z == o.bits && st.exceptionFlags == old(st.exceptionFlags) + o.flags
  {
    hide *;
    FormatConstants();
    BitsOfWords(a);
    Fields(F64, a);
    SigNaN64(a);
    CommonNaN(Neg(F64, a));
    SpecialBits(Neg(F64, a), false);
    ConvertCases(F64, F32, st.roundingMode, a);
    var sign := SignUI(F64, a);
    var exp, sig := ExpUI(F64, a), FracUI(F64, a);
    if exp == 0x7FF {
      if sig != 0 {
        if IsSigNaNF64UI(a) {
          st.exceptionFlags := st.exceptionFlags + {Invalid};
        }
        z := Bit(sign) * 0x8000_0000 + 0x7FFF_FFFF;
      } else {
        z := PackToF32UI(sign, 0xFF, 0);
      }
      return;
    }
    ShortShiftIsOr(sig, 22);
    JamIsOr(sig, 22);
    LeadingJam(sig, Jam(sig, 22));
    var sig32 := ShortShift64RightJam(sig, 22);
    OrZero(exp, sig32);
    if BitOr(exp, sig32) == 0 {
      z := PackToF32UI(sign, 0, 0);
      return;
    }
    NarrowPacks(st.roundingMode, a, exp, sig32);
    ghost var o := Convert(F64, F32, st.roundingMode, a);
    Exp2Constants();
    OrImplicit(sig32, 30);
    PacksIs(F32, st.roundingMode, sign, o, sig32 as int + 0x4000_0000, exp as int - 0x381);
    z := RoundPackToF32(st, sign, exp as int - 0x381, BitOr(sig32, 0x4000_0000));
  }

  // --- From a 32-bit integer ---

  type i32 = x: int | -0x8000_0000 <= x < 0x8000_0000

  lemma IntPack(sign: bool, abs: nat, sc: nat)
    requires 21 <= sc <= 52 && 0x10_0000_0000_0000 <= abs * Exp2(sc) < 0x20_0000_0000_0000
    ensures var z := PackToF64UI(sign, 0x432 - sc, abs * Exp2(sc));
            && 0 <= z < 0x1_0000_0000_0000_0000 && IsFinite(F64, z) && !IsZero(F64, z) && Neg(F64, z) == sign
            && Magnitude(F64, z) == abs as real
  {
    hide *;
    WidePack(sign, 0x433 - sc, abs * Exp2(sc));
    ToReal(abs, Exp2(sc));
    DyadicShift(abs as real, (abs * Exp2(sc)) as real, -(sc as int), sc);
    DyadicIs(abs as real, 0);
    Pow2Zero();
  }

  lemma IntPlaces(abs: nat, clz: nat)
    requires 0 < abs < 0x1_0000_0000 && LeadingZeros(abs, 32, clz)
    ensures clz < 32 && 0x10_0000_0000_0000 <= abs * Exp2(clz + 21) < 0x20_0000_0000_0000
  {
    hide *;
    LeadingZerosBound(abs, 32, clz);
    LeadingZerosIs(abs, 32, clz);
    Exp2Constants();
    Exp2Add(clz, 21);
    Exp2Add(10, 11);
    Associate(abs, Exp2(clz), Exp2(21));
  }

  method I32ToF64(a: i32) returns (z: u64)
    ensures IsFinite(F64, z) && Val(F64, z) == a as real && Neg(F64, z) == (a < 0)
  {
    hide *;
    if a == 0 {
      z := 0;
      ZeroDouble();
    } else {
      var sign := a < 0;
      var absA: int := if sign then -(a as int) else a;
      var clz := CountLeadingZeros32(absA);
      IntPlaces(absA, clz);
      var shiftCount: int := clz as int + 21;
      IntPack(sign, absA, shiftCount);
      ShlIs(absA, shiftCount);
      z := PackToF64UI(sign, 0x432 - shiftCount, Shl(absA, shiftCount));
      ValSign(F64, z);
    }
  }

  lemma ZeroDouble()
    ensures IsFinite(F64, 0) && Val(F64, 0) == 0.0 && !Neg(F64, 0)
  {
    ValSign(F64, 0);
    hide Magnitude;
  }

  // --- Round trips ---

  /** Narrowing a widened single gives it back, in every pair of modes and without a flag. */
  lemma NarrowWidened(widen: Mode, narrow: Mode, a: u32)
    requires !IsNaN(F32, a)
    ensures var o := Convert(F32, F64, widen, a);
            o.bits >= 0 && o.flags == {} && Convert(F64, F32, narrow, o.bits) == Outcome(a, {})
  {
    hide *;
    FormatConstants();
    BitsOfWords(a);
    Fields(F32, a);
    ConvertCases(F32, F64, widen, a);
    if IsInf(F32, a) {
      InfBits(F32, a);
      InfWord(F64, Neg(F32, a));
      ConvertCases(F64, F32, narrow, Inf(F64, Neg(F32, a)).bits);
    } else if IsZero(F32, a) {
      ZeroIsFinite(F32, a);
      var b := WithSign(F64, Neg(F32, a), 0);
      ValOfCode(F64, Neg(F32, a), 0);
      OutcomeIs(F64, Neg(F32, a), b);
      ConvertCases(F64, F32, narrow, b);
    } else {
      var z := Widened(a);
      ConvertSame(F32, F64, widen, a, z);
      ConvertSame(F64, F32, narrow, z, a);
    }
  }

  lemma InfWord(f: Format, neg: bool)
    ensures Inf(f, neg).bits >= 0 && IsInf(f, Inf(f, neg).bits) && Neg(f, Inf(f, neg).bits) == neg
        && Inf(f, neg).flags == {}
  {
  }

  /** An integer converted to double and back is itself, in every mode and without a flag. */
  lemma IntegerRoundTrip(mode: Mode, exact: bool, x: i32, z: u64)
    requires IsFinite(F64, z) && Val(F64, z) == x as real && Neg(F64, z) == (x < 0)
    ensures ToInteger(F64, mode, exact, 0x8000_0000, z) == IntOutcome(x, {})
  {
    hide *;
    ToIntegerIs(mode, exact, 0x8000_0000, z);
    ValSign(F64, z);
    var n: nat := if x < 0 then -(x as int) else x;
    IntIsInt(n);
    RoundIntBounds(mode, x < 0, n as real);
    RoundedIntegerIs(mode, exact, 0x8000_0000, x < 0, n as real, n, false);
  }
}
