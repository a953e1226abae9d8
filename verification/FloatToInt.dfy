/** Conversions from double precision to integers, and the rounding routines they end in. */
module FloatToInt {
  import opened Powers
  import opened Rounding
  import opened Ieee754
  import opened RoundTheory
  import opened Words
  import opened Primitives
  import opened RoundPack
  import opened Unpack
  import opened Shift128

  function AsI32(ui: u32): int {
    if ui >= 0x8000_0000 then ui - 0x1_0000_0000 else ui
  }

  function AsI64(ui: u64): int {
    if ui >= 0x8000_0000_0000_0000 then ui - 0x1_0000_0000_0000_0000 else ui
  }

  /** What the rounding routines do with the truncated magnitude. */
  lemma SignedWord32(mag: u32, sign: bool)
    ensures var z := AsI32(if sign then Wrap32(-(mag as int)) else mag);
            (z != 0 && (z < 0) != sign) == !(-0x8000_0000 <= (if sign then -(mag as int) else mag) < 0x8000_0000)
            && (-0x8000_0000 <= (if sign then -(mag as int) else mag) < 0x8000_0000 ==>
                  z == if sign then -(mag as int) else mag)
  {
  }

  lemma SignedWord64(mag: u64, sign: bool)
    ensures var z := AsI64(if sign then Wrap64(-(mag as int)) else mag);
            (z != 0 && (z < 0) != sign)
              == !(-0x8000_0000_0000_0000 <= (if sign then -(mag as int) else mag) < 0x8000_0000_0000_0000)
            && (-0x8000_0000_0000_0000 <= (if sign then -(mag as int) else mag) < 0x8000_0000_0000_0000 ==>
                  z == if sign then -(mag as int) else mag)
  {
  }

  lemma RoundedIntegerIs(mode: Mode, exact: bool, half: int, neg: bool, x: real, r: int, inexact: bool)
    requires r == RoundInt(mode, neg, x) && (inexact <==> !IsInt(x))
    ensures RoundedInteger(mode, exact, half, neg, x) ==
      if -half <= (if neg then -r else r) && (if neg then -r else r) < half
      then IntOutcome(if neg then -r else r, if exact && inexact then {Inexact} else {})
      else Saturated(half, neg)
  {
    RoundIntBounds(mode, neg, x);
    hide RoundInt, Saturated, IsInt;
  }

  lemma SaturatedIs(half: int, neg: bool)
    ensures Saturated(half, neg) == IntOutcome(if neg then -half else half - 1, {Invalid})
  {
  }

  /** Truncation in steps of 128 is rounding of sig / 128. */
  lemma TruncateIsRounding(mode: Mode, sign: bool, sig: nat)
    ensures RoundInt(mode, sign, sig as real / 128.0) == Truncate(F32, mode, sign, sig)
    ensures IsInt(sig as real / 128.0) <==> sig % 0x80 == 0
    ensures Truncate(F32, mode, sign, sig)
         == (var r := (sig + Increment(F32, mode, sign)) / 0x80;
             if sig % 0x80 == 0x40 && mode == NearEven then r - r % 2 else r)
    ensures Increment(F32, mode, sign) < 0x80
  {
    hide *;
    FormatConstants();
    IncrementBelowStep(mode, sign);
    TruncateRounds(F32, mode, sign, sig);
    TruncateIs(F32, mode, sign, sig);
    SameDivisor(sig as real, F32.Step() as real, 128.0);
    RoundsSame(mode, sign, sig as real / F32.Step() as real, sig as real / 128.0);
  }

  lemma RoundsSame(mode: Mode, neg: bool, x: real, y: real)
    requires x == y
    ensures RoundInt(mode, neg, x) == RoundInt(mode, neg, y) && (IsInt(x) <==> IsInt(y))
  {
  }

  lemma IncrementBelowStep(mode: Mode, sign: bool)
    ensures Increment(F32, mode, sign) < 0x80
  {
  }

  lemma SameDivisor(x: real, y: real, z: real)
    requires y == z && y > 0.0
    ensures x / y == x / z
  {
  }

  /** Adding the increment stays inside 64 bits, as it does for every caller. */
  predicate IncrementFits(mode: Mode, sign: bool, sig: u64) {
    sig + Increment(F32, mode, sign) < 0x1_0000_0000_0000_0000
  }

  /** What the routine answers: if the increment wraps around, zero comes out. */
  function I32Answer(mode: Mode, exact: bool, sign: bool, sig: u64): IntOutcome {
    if IncrementFits(mode, sign, sig) then RoundedInteger(mode, exact, 0x8000_0000, sign, sig as real / 128.0)
    else IntOutcome(0, if exact && sig % 0x80 != 0 then {Inexact} else {})
  }

  lemma I32AnswerIs(mode: Mode, exact: bool, sign: bool, sig: u64)
    ensures I32Answer(mode, exact, sign, sig) ==
      if IncrementFits(mode, sign, sig) then RoundedInteger(mode, exact, 0x8000_0000, sign, sig as real / 128.0)
      else IntOutcome(0, if exact && sig % 0x80 != 0 then {Inexact} else {})
  {
    hide IncrementFits, RoundedInteger;
  }

  /** sig carries seven bits below the integer. If adding the increment wraps around, zero comes out. */
  method RoundPackToI32(st: FloatState, sign: bool, sig: u64, roundingMode: Mode, exact: bool) returns (z: int)
    modifies st`exceptionFlags
    ensures var o := I32Answer(roundingMode, exact, sign, sig);
            z == o.value && st.exceptionFlags == old(st.exceptionFlags) + o.flags
  {
    hide *;
    TruncateIsRounding(roundingMode, sign, sig);
    ghost var r := Truncate(F32, roundingMode, sign, sig);
    RoundedIntegerIs(roundingMode, exact, 0x8000_0000, sign, sig as real / 128.0, r, sig % 0x80 != 0);
    SaturatedIs(0x8000_0000, sign);
    var roundIncrement := Increment(F32, roundingMode, sign);
    var roundBits := sig % 0x80;
    WrapsOver(sig, roundIncrement);
    FitsIs(roundingMode, sign, sig);
    I32AnswerIs(roundingMode, exact, sign, sig);
    var sum: u64 := Wrap64(sig as int + roundIncrement as int);
    var invalid := sum >= 0x80_0000_0000;
    if !invalid {
      var sig32: u32 := sum / 0x80;
      if roundBits == 0x40 && roundingMode == NearEven {
        sig32 := sig32 - sig32 % 2;
      }
      SignedWord32(sig32, sign);
      z := AsI32(if sign then Wrap32(-(sig32 as int)) else sig32);
      invalid := z != 0 && (z < 0) != sign;
    }
    if invalid {
      st.exceptionFlags := st.exceptionFlags + {Invalid};
      z := if sign then -0x8000_0000 else 0x7FFF_FFFF;
    } else if exact && roundBits != 0 {
      st.exceptionFlags := st.exceptionFlags + {Inexact};
    }
  }

  lemma WrapsOver(x: u64, y: nat)
    requires y < 0x80
    ensures Wrap64(x as int + y) == if x + y < 0x1_0000_0000_0000_0000 then x + y else x + y - 0x1_0000_0000_0000_0000
  {
  }

  lemma FitsIs(mode: Mode, sign: bool, sig: u64)
    ensures IncrementFits(mode, sign, sig) <==> sig + Increment(F32, mode, sign) < 0x1_0000_0000_0000_0000
  {
    hide Increment;
  }

  /** Past the wrap the integer asked for does not fit. */
  lemma WrapSaturates(mode: Mode, sign: bool, sig: u64, exact: bool)
    requires !IncrementFits(mode, sign, sig)
    ensures RoundedInteger(mode, exact, 0x8000_0000, sign, sig as real / 128.0)
         == IntOutcome(if sign then -0x8000_0000 else 0x7FFF_FFFF, {Invalid})
  {
    hide *;
    FitsIs(mode, sign, sig);
    TruncateIsRounding(mode, sign, sig);
    LargeQuotient(sig);
    RoundedTooBig(mode, exact, 0x8000_0000, sign, sig as real / 128.0);
    SaturatedIs(0x8000_0000, sign);
  }

  /** The answer is the integer the mode selects exactly when adding the increment does not wrap. */
  lemma RightIffFits(mode: Mode, exact: bool, sign: bool, sig: u64)
    ensures I32Answer(mode, exact, sign, sig) == RoundedInteger(mode, exact, 0x8000_0000, sign, sig as real / 128.0)
      <==> IncrementFits(mode, sign, sig)
  {
    hide IncrementFits, RoundedInteger;
    if !IncrementFits(mode, sign, sig) {
      WrapSaturates(mode, sign, sig, exact);
    }
  }

  /** An input that wraps, though no conversion here passes one. */
  lemma WrappingInput()
    ensures I32Answer(NearEven, true, false, 0xFFFF_FFFF_FFFF_FFFF) == IntOutcome(0, {Inexact})
    ensures RoundedInteger(NearEven, true, 0x8000_0000, false, 0xFFFF_FFFF_FFFF_FFFF as real / 128.0)
         == IntOutcome(0x7FFF_FFFF, {Invalid})
  {
    hide RoundedInteger;
    WrapSaturates(NearEven, false, 0xFFFF_FFFF_FFFF_FFFF, true);
  }

  lemma LargeQuotient(sig: nat)
    requires sig >= 0xFFFF_FFFF_FFFF_FF00
    ensures sig as real / 128.0 >= 0x8000_0000 as real + 1.0
  {
  }

  /** An integer part and 64 fraction bits. */
  ghost function Fixed(sig64: u64, sig0: u64): real {
    sig64 as real + sig0 as real / 0x1_0000_0000_0000_0000 as real
  }

  function Rounds64(mode: Mode, sign: bool, sig0: u64): bool {
    if mode == NearEven || mode == NearMaxMag then 0x8000_0000_0000_0000 <= sig0
    else mode != MinMag && mode == (if sign then Min else Max) && sig0 != 0
  }

  lemma FixedRounds(mode: Mode, sign: bool, sig64: u64, sig0: u64)
    ensures RoundInt(mode, sign, Fixed(sig64, sig0)) ==
      if Rounds64(mode, sign, sig0)
      then (if sig0 == 0x8000_0000_0000_0000 && mode == NearEven then sig64 + 1 - (sig64 + 1) % 2 else sig64 + 1)
      else sig64
    ensures IsInt(Fixed(sig64, sig0)) <==> sig0 == 0
  {
    var x := Fixed(sig64, sig0);
    assert x.Floor == sig64;
  }

  method RoundPackToI64(st: FloatState, sign: bool, sig0: u64, extra: u64, roundingMode: Mode, exact: bool)
      returns (z: int)
    modifies st`exceptionFlags
    ensures var o := RoundedInteger(roundingMode, exact, 0x8000_0000_0000_0000, sign, Fixed(sig0, extra));
            z == o.value && st.exceptionFlags == old(st.exceptionFlags) + o.flags
  {
    hide *;
    FixedRounds(roundingMode, sign, sig0, extra);
    ghost var r := RoundInt(roundingMode, sign, Fixed(sig0, extra));
    RoundedIntegerIs(roundingMode, exact, 0x8000_0000_0000_0000, sign, Fixed(sig0, extra), r, extra != 0);
    SaturatedIs(0x8000_0000_0000_0000, sign);
    var sig64 := sig0;
    var invalid := false;
    if Rounds64(roundingMode, sign, extra) {
      WrapsTop(sig0);
      sig64 := Wrap64(sig64 as int + 1);
      invalid := sig64 == 0;
      if extra % 0x8000_0000_0000_0000 == 0 && roundingMode == NearEven {
        EvenTie(roundingMode, sign, extra);
        sig64 := sig64 - sig64 % 2;
      }
    }
    if !invalid {
      SignedWord64(sig64, sign);
      z := AsI64(if sign then Wrap64(-(sig64 as int)) else sig64);
      invalid := z != 0 && (z < 0) != sign;
    }
    if invalid {
      st.exceptionFlags := st.exceptionFlags + {Invalid};
      z := if sign then -0x8000_0000_0000_0000 else 0x7FFF_FFFF_FFFF_FFFF;
    } else if exact && extra != 0 {
      st.exceptionFlags := st.exceptionFlags + {Inexact};
    }
  }

  lemma WrapsTop(x: u64)
    ensures Wrap64(x as int + 1) == if x == 0xFFFF_FFFF_FFFF_FFFF then 0 else x as int + 1
  {
  }

  lemma EvenTie(mode: Mode, sign: bool, extra: u64)
    requires Rounds64(mode, sign, extra) && extra % 0x8000_0000_0000_0000 == 0
    ensures extra == 0x8000_0000_0000_0000
  {
  }

  // --- From an encoding to the significand the routines round ---

  /** The fraction field, with the leading bit of a normal number. */
  function Significand(exp: nat, frac: nat): nat {
    if exp != 0 then BitOr(frac, 0x10_0000_0000_0000) else frac
  }

  lemma SignificandIs(exp: nat, frac: nat)
    requires frac < 0x10_0000_0000_0000
    ensures Significand(exp, frac) == if exp != 0 then frac + 0x10_0000_0000_0000 else frac
  {
    hide BitOr;
    Exp2Constants();
    OrImplicit(frac, 52);
  }

  lemma MagnitudeParts(a: nat, exp: nat, m: nat)
    requires IsBits(F64, a) && IsFinite(F64, a) && exp == ExpUI(F64, a)
    requires m == (if exp != 0 then FracUI(F64, a) + 0x10_0000_0000_0000 else FracUI(F64, a))
    ensures 0 < exp <= 1075 ==> Magnitude(F64, a) == m as real / Exp2(1075 - exp) as real
    ensures exp > 1075 ==> Magnitude(F64, a) == (m * Exp2(exp - 1075)) as real
    ensures exp == 0 ==> 0.0 <= Magnitude(F64, a) < 0.5 && (Magnitude(F64, a) == 0.0 <==> m == 0)
    ensures m < 0x20_0000_0000_0000 && (exp > 0 ==> m >= 0x10_0000_0000_0000)
  {
    hide *;
    FormatConstants();
    Fields(F64, a);
    Pow2Zero();
    if exp == 0 {
      UnitsOf(F64, 0, m);
      MagnitudeIs(F64, a);
      Pow2Inverse(m as real, 1074);
      TinyQuotient(m, 1074);
    } else {
      NormalField(F64, a);
      NormalIs(F64, a, exp, m);
      if exp <= 1075 {
        var y := m as real / Exp2(1075 - exp) as real;
        DyadicQuotient(m as real, exp - 1075, 1075 - exp);
        DyadicIs(y, 0);
      } else {
        var y := m * Exp2(exp - 1075);
        ToReal(m, Exp2(exp - 1075));
        DyadicShift(m as real, y as real, 0, exp - 1075);
        DyadicIs(y as real, 0);
      }
    }
  }

  lemma TinyQuotient(m: nat, k: nat)
    requires m < 0x20_0000_0000_0000 && k >= 55
    ensures 0.0 <= m as real / Exp2(k) as real < 0.5 && (m as real / Exp2(k) as real == 0.0 <==> m == 0)
  {
    hide *;
    Exp2Constants();
    Exp2Mono(53, k);
    TinyRatio(m as real, Exp2(k) as real);
  }

  lemma TinyRatio(x: real, y: real)
    requires 0.0 <= 2.0 * x < y
    ensures 0.0 <= x / y < 0.5 && (x / y == 0.0 <==> x == 0.0)
  {
    var z := x / y;
    assert x == z * y;
    CancelLess(z, 0.5, y);
    CancelLess(z, 0.0, y);
  }

  /** Rounding depends only on the place among the half integers. */
  lemma RoundedAlike(mode: Mode, exact: bool, half: int, neg: bool, x: real, y: real)
    requires Agree(2.0 * x, 2.0 * y)
    ensures RoundedInteger(mode, exact, half, neg, x) == RoundedInteger(mode, exact, half, neg, y)
  {
    AgreeRoundsAlike(mode, neg, x, y);
    hide RoundInt, Saturated, Agree;
  }

  lemma TinyAgree(x: real, y: real)
    requires 0.0 <= x < 0.5 && 0.0 <= y < 0.5 && (x == 0.0 <==> y == 0.0)
    ensures Agree(2.0 * x, 2.0 * y)
  {
  }

  lemma RoundedTooBig(mode: Mode, exact: bool, half: int, neg: bool, x: real)
    requires x >= half as real + 1.0 && half > 0
    ensures RoundedInteger(mode, exact, half, neg, x) == Saturated(half, neg)
  {
    RoundIntBounds(mode, neg, x);
    hide RoundInt, Saturated;
  }

  /** The word handed to the 32-bit routine rounds as a does. */
  lemma WordFor32(mode: Mode, exact: bool, a: nat, exp: nat, m: nat, sig: nat)
    requires IsBits(F64, a) && exp == ExpUI(F64, a)
    requires m == (if exp != 0 then FracUI(F64, a) + 0x10_0000_0000_0000 else FracUI(F64, a))
    requires sig == if exp < 0x42C then Jam(m, 0x42C - exp) else m
    ensures sig < 0x20_0000_0000_0000
    ensures RoundedInteger(mode, exact, 0x8000_0000, Neg(F64, a), sig as real / 128.0)
         == ToInteger(F64, mode, exact, 0x8000_0000, a)
  {
    hide *;
    FormatConstants();
    Fields(F64, a);
    var neg := Neg(F64, a);
    ToIntegerIs(mode, exact, 0x8000_0000, a);
    if exp >= 0x42C {
      LargeWord(m);
      RoundedTooBig(mode, exact, 0x8000_0000, neg, sig as real / 128.0);
      if exp < 0x7FF {
        MagnitudeParts(a, exp, m);
        LargeMagnitude(exp, m);
        RoundedTooBig(mode, exact, 0x8000_0000, neg, Magnitude(F64, a));
      }
    } else {
      MagnitudeParts(a, exp, m);
      JamSmall(m, 0x42C - exp);
      if exp == 0 {
        TinyJam(m, 0x42C);
        TinyAgree(Magnitude(F64, a), sig as real / 128.0);
      } else {
        JamAgrees(m, 0x42C - exp);
        SevenBits(m, 0x42C - exp, sig);
      }
      RoundedAlike(mode, exact, 0x8000_0000, neg, Magnitude(F64, a), sig as real / 128.0);
    }
  }

  lemma ToIntegerIs(mode: Mode, exact: bool, half: int, a: nat)
    ensures IsFinite(F64, a) ==>
              ToInteger(F64, mode, exact, half, a) == RoundedInteger(mode, exact, half, Neg(F64, a), Magnitude(F64, a))
    ensures !IsFinite(F64, a) ==> ToInteger(F64, mode, exact, half, a) == Saturated(half, Neg(F64, a))
  {
    hide RoundedInteger, Saturated, IsFinite, Neg, Magnitude;
  }

  lemma LargeWord(m: nat)
    requires m >= 0x10_0000_0000_0000
    ensures m as real / 128.0 >= 0x8000_0000 as real + 1.0
  {
  }

  /** From 2^45 up no 32-bit integer is near. */
  lemma LargeMagnitude(exp: nat, m: nat)
    requires exp >= 0x42C && m >= 0x10_0000_0000_0000
    ensures exp <= 1075 ==> m as real / Exp2(1075 - exp) as real >= 0x8000_0000 as real + 1.0
    ensures exp > 1075 ==> (m * Exp2(exp - 1075)) as real >= 0x8000_0000 as real + 1.0
  {
    hide *;
    if exp <= 1075 {
      SmallExp2();
      Exp2Mono(1075 - exp, 7);
      Exp2Constants();
      BigRatio(m, Exp2(1075 - exp));
    } else {
      ProductMono(1, Exp2(exp - 1075), m);
    }
  }

  lemma BigRatio(m: nat, p: nat)
    requires 1 <= p <= 128 && m >= 0x10_0000_0000_0000
    ensures m as real / p as real >= 0x8000_0000 as real + 1.0
  {
    var z, y := m as real / p as real, p as real;
    assert m as real == z * y;
    CancelLess(z, 0x8000_0001 as real, y);
  }

  lemma JamSmall(m: nat, count: nat)
    requires m < 0x20_0000_0000_0000 && count > 0
    ensures Jam(m, count) < 0x20_0000_0000_0000
  {
    hide *;
    var q, r := Split(m, count);
    JamParts(m, count, q, r);
    SmallExp2();
    Exp2Mono(1, count);
    ProductMono(2, Exp2(count), q);
  }

  lemma TinyJam(m: nat, count: nat)
    requires m < 0x20_0000_0000_0000 && count >= 53
    ensures Jam(m, count) == if m == 0 then 0 else 1
  {
    hide *;
    Exp2Constants();
    Exp2Mono(53, count);
    JamParts(m, count, 0, m);
  }

  lemma SevenBits(m: nat, k: nat, sig: nat)
    requires Agree(m as real / Exp2(k) as real / 2.0, sig as real / 2.0)
    ensures Agree(2.0 * (m as real / Exp2(k + 7) as real), 2.0 * (sig as real / 128.0))
  {
    hide *;
    Exp2Add(k, 7);
    Exp2Constants();
    var x := m as real / Exp2(k) as real;
    AgreeCoarser(x / 2.0, sig as real / 2.0, 32);
    SevenQuotient(m as real, Exp2(k) as real, Exp2(k + 7) as real, x);
    assert sig as real / 2.0 / 32.0 == 2.0 * (sig as real / 128.0);
    assert x / 2.0 / 32.0 == 2.0 * (m as real / Exp2(k + 7) as real);
  }

  lemma SevenQuotient(m: real, p: real, p7: real, x: real)
    requires p > 0.0 && p7 == p * 128.0 && x == m / p
    ensures m / p7 == x / 128.0
  {
    assert m == x * p;
    assert m == x / 128.0 * p7;
  }

  lemma SmallFits(mode: Mode, sign: bool, sig: u64)
    requires sig < 0x20_0000_0000_0000
    ensures IncrementFits(mode, sign, sig)
  {
    hide *;
    IncrementBelowStep(mode, sign);
    FitsIs(mode, sign, sig);
  }

  method F64ToI32(st: FloatState, a: u64, roundingMode: Mode, exact: bool) returns (z: int)
    modifies st`exceptionFlags
    ensures var o := ToInteger(F64, roundingMode, exact, 0x8000_0000, a);
            z == o.value && st.exceptionFlags == old(st.exceptionFlags) + o.flags
  {
    hide *;
    FormatConstants();
    BitsOfWords(a);
    Fields(F64, a);
    var sign := SignUI(F64, a);
    var exp, frac := ExpUI(F64, a), FracUI(F64, a);
    SignificandIs(exp, frac);
    var sig: u64 := Significand(exp, frac);
    ghost var m := sig;
    var shiftCount: int := 0x42C - exp as int;
    if 0 < shiftCount {
      JamSmall(sig, shiftCount);
      Shift64RightJamIsJam(sig, shiftCount);
      sig := Shift64RightJam(sig, shiftCount);
    }
    WordFor32(roundingMode, exact, a, exp, m, sig);
    SmallFits(roundingMode, sign, sig);
    I32AnswerIs(roundingMode, exact, sign, sig);
    z := RoundPackToI32(st, sign, sig, roundingMode, exact);
  }

  // --- 64-bit integers ---

  /** A right shift that keeps the lost bits in a second word. */
  function Shift64ExtraRightJam(a: u64, extra: u64, count: nat): (nat, nat) {
    if count < 64 then (Shr(a, count), BitOr(Wrap64(Shl(a, (64 - count) % 64)), Bit(extra != 0)))
    else (0, BitOr(if count == 64 then a else Bit(a != 0), Bit(extra != 0)))
  }

  /** What was lost before sets the last bit of the fraction word, and nothing else. */
  lemma ExtraCarries(a: u64, extra: u64, count: nat)
    ensures var (z, fraction) := Shift64ExtraRightJam(a, extra, count);
            var (z0, fraction0) := Shift64ExtraRightJam(a, 0, count);
            z == z0 && fraction == if extra == 0 then fraction0 else fraction0 - fraction0 % 2 + 1
  {
    hide BitOr;
    OrBit(Wrap64(Shl(a, (64 - count) % 64)), false);
    OrBit(Wrap64(Shl(a, (64 - count) % 64)), true);
    OrBit(a, false);
    OrBit(a, true);
    OrBit(Bit(a != 0), false);
    OrBit(Bit(a != 0), true);
  }

  lemma ExtraIs(a: u64, count: nat)
    ensures count < 64 ==> Shift64ExtraRightJam(a, 0, count) == (Shr(a, count), Wrap64(Shl(a, (64 - count) % 64)))
    ensures count == 64 ==> Shift64ExtraRightJam(a, 0, count) == (0, a)
    ensures count > 64 ==> Shift64ExtraRightJam(a, 0, count) == (0, Bit(a != 0))
  {
    hide Shr, Wrap64, Shl;
  }

  lemma ExtraShift(m: u64, count: nat)
    requires m < 0x20_0000_0000_0000 && count > 0
    ensures var (v, extra) := Shift64ExtraRightJam(m, 0, count);
            && v < 0x1_0000_0000_0000_0000 && extra < 0x1_0000_0000_0000_0000
            && (count <= 64 ==> Fixed(v, extra) == m as real / Exp2(count) as real)
            && (count > 64 ==> 0.0 <= Fixed(v, extra) < 0.5 && (Fixed(v, extra) == 0.0 <==> m == 0))
  {
    hide *;
    ExtraIs(m, count);
    Exp2Constants();
    if count < 64 {
      var q, r := Split(m, count);
      WrapsLow(m, count, q, r);
      var p, s := Exp2(count), Exp2(64 - count);
      ProductNonnegative(r, s);
      ProductMono(r + 1, p, s);
      Exp2Add(count, 64 - count);
      Regrouped(0, 0, r, s);
      ProductMono(1, p, q);
      FixedIs(q, r * s);
      FixedQuotient(m, q, r, p, s);
    } else if count == 64 {
      FixedIs(0, m);
    } else {
      BitIs(m != 0);
      FixedIs(0, Bit(m != 0));
    }
  }

  lemma FixedIs(sig64: u64, sig0: u64)
    ensures Fixed(sig64, sig0) == sig64 as real + sig0 as real / 0x1_0000_0000_0000_0000 as real
  {
  }

  lemma FixedQuotient(m: nat, q: nat, r: nat, p: nat, s: nat)
    requires m == q * p + r && p * s == 0x1_0000_0000_0000_0000 && p > 0
    ensures q as real + (r * s) as real / 0x1_0000_0000_0000_0000 as real == m as real / p as real
  {
    hide *;
    ToReal(q, p);
    ToReal(r, s);
    ToReal(p, s);
    FixedRatio(m as real, q as real, r as real, p as real, s as real, (r * s) as real, 0x1_0000_0000_0000_0000 as real);
  }

  lemma FixedRatio(m: real, q: real, r: real, p: real, s: real, rs: real, w: real)
    requires m == q * p + r && p * s == w && rs == r * s && p > 0.0 && w > 0.0
    ensures q + rs / w == m / p
  {
    var y := m / p;
    assert m == y * p;
    assert r == (y - q) * p;
    assert rs == (y - q) * w;
    hide *;
    CancelDivide(y - q, w);
  }

  lemma WordFor64(mode: Mode, exact: bool, a: nat, exp: nat, m: nat, v: u64, extra: u64)
    requires IsBits(F64, a) && exp == ExpUI(F64, a) <= 0x43E
    requires m == (if exp != 0 then FracUI(F64, a) + 0x10_0000_0000_0000 else FracUI(F64, a))
    requires exp >= 0x433 ==> v == m * Exp2(exp - 0x433) && extra == 0
    requires exp < 0x433 ==> m < 0x1_0000_0000_0000_0000 && (v, extra) == Shift64ExtraRightJam(m, 0, 0x433 - exp)
    ensures RoundedInteger(mode, exact, 0x8000_0000_0000_0000, Neg(F64, a), Fixed(v, extra))
         == ToInteger(F64, mode, exact, 0x8000_0000_0000_0000, a)
  {
    hide *;
    FormatConstants();
    Fields(F64, a);
    ToIntegerIs(mode, exact, 0x8000_0000_0000_0000, a);
    MagnitudeParts(a, exp, m);
    FixedIs(v, extra);
    if exp >= 0x433 {
      Exp2Zero();
    } else {
      ExtraShift(m, 0x433 - exp);
      if 0x433 - exp > 64 {
        if exp > 0 {
          TinyQuotient(m, 0x433 - exp);
        }
        TinyAgree(Magnitude(F64, a), Fixed(v, extra));
        RoundedAlike(mode, exact, 0x8000_0000_0000_0000, Neg(F64, a), Magnitude(F64, a), Fixed(v, extra));
      }
    }
  }

  lemma OutOfRange64(mode: Mode, exact: bool, a: nat)
    requires IsBits(F64, a) && ExpUI(F64, a) > 0x43E
    ensures ToInteger(F64, mode, exact, 0x8000_0000_0000_0000, a) == Saturated(0x8000_0000_0000_0000, Neg(F64, a))
  {
    hide *;
    FormatConstants();
    Fields(F64, a);
    ToIntegerIs(mode, exact, 0x8000_0000_0000_0000, a);
    var exp, m := ExpUI(F64, a), FracUI(F64, a) + 0x10_0000_0000_0000;
    if exp < 0x7FF {
      MagnitudeParts(a, exp, m);
      Exp2Mono(12, exp - 1075);
      TwelveBits();
      ProductMono(0x1000, Exp2(exp - 1075), m);
      RoundedTooBig(mode, exact, 0x8000_0000_0000_0000, Neg(F64, a), Magnitude(F64, a));
    }
  }

  lemma TwelveBits()
    ensures Exp2(12) == 0x1000
  {
    Exp2Constants();
  }

  lemma ElevenPlaces(m: nat, k: nat)
    requires m < 0x20_0000_0000_0000 && k <= 11
    ensures 0 <= m * Exp2(k) < 0x1_0000_0000_0000_0000
  {
    hide *;
    Exp2Constants();
    Exp2Mono(k, 11);
    ProductMono(Exp2(k), 0x800, m);
    ProductNonnegative(m, Exp2(k));
  }

  method F64ToI64(st: FloatState, a: u64, roundingMode: Mode, exact: bool) returns (z: int)
    modifies st`exceptionFlags
    ensures var o := ToInteger(F64, roundingMode, exact, 0x8000_0000_0000_0000, a);
            z == o.value && st.exceptionFlags == old(st.exceptionFlags) + o.flags
  {
    hide *;
    FormatConstants();
    BitsOfWords(a);
    Fields(F64, a);
    SaturatedIs(0x8000_0000_0000_0000, Neg(F64, a));
    var sign := SignUI(F64, a);
    var exp, frac := ExpUI(F64, a), FracUI(F64, a);
    SignificandIs(exp, frac);
    var sig: u64 := Significand(exp, frac);
    var shiftCount: int := 0x433 - exp as int;
    var v: u64, extra: u64;
    if shiftCount <= 0 {
      if 0x43E < exp {
        OutOfRange64(roundingMode, exact, a);
        st.exceptionFlags := st.exceptionFlags + {Invalid};
        return if !sign then 0x7FFF_FFFF_FFFF_FFFF else -0x8000_0000_0000_0000;
      }
      ElevenPlaces(sig, -shiftCount);
      ShlIs(sig, -shiftCount);
      v, extra := Shl(sig, -shiftCount), 0;
    } else {
      ExtraShift(sig, shiftCount);
      var (v', extra') := Shift64ExtraRightJam(sig, 0, shiftCount);
      v, extra := v', extra';
    }
    WordFor64(roundingMode, exact, a, exp, sig, v, extra);
    z := RoundPackToI64(st, sign, v, extra, roundingMode, exact);
  }
}
