/** f32_add: single-precision addition through addMags and subMags. */
module F32Add {
  import opened Powers
  import opened Rounding
  import opened Ieee754
  import opened RoundTheory
  import opened Words
  import opened Primitives
  import opened RoundPack
  import opened Unpack
  import opened F32Mul
  import opened Align
  import MulAddTheory

  lemma AddCases(f: Format, mode: Mode, a: nat, b: nat)
    ensures IsNaN(f, a) || IsNaN(f, b) ==>
              Add(f, mode, a, b) == Quiet(f, IsSignalling(f, a) || IsSignalling(f, b))
    ensures !IsNaN(f, a) && !IsNaN(f, b) ==>
              && (IsInf(f, a) && IsInf(f, b) && Neg(f, a) != Neg(f, b) ==> Add(f, mode, a, b) == Quiet(f, true))
              && (IsInf(f, a) && !(IsInf(f, b) && Neg(f, a) != Neg(f, b)) ==> Add(f, mode, a, b) == Inf(f, Neg(f, a)))
              && (IsInf(f, b) && !IsInf(f, a) ==> Add(f, mode, a, b) == Inf(f, Neg(f, b)))
  {
    hide Exact, IsSignalling, Val, Neg, Quiet, Inf;
  }

  lemma AddExact(f: Format, mode: Mode, a: nat, b: nat, x: real)
    requires IsFinite(f, a) && IsFinite(f, b) && x == Val(f, a) + Val(f, b)
    ensures Add(f, mode, a, b) == Exact(f, mode, if Neg(f, a) == Neg(f, b) then Neg(f, a) else mode == Min, x)
  {
    hide Exact, Val, Neg;
  }

  /** The exact sum, by signs and by which magnitude is larger. */
  lemma AddFinite(f: Format, mode: Mode, a: nat, b: nat)
    requires IsFinite(f, a) && IsFinite(f, b)
    ensures var ma, mb := Magnitude(f, a), Magnitude(f, b);
            var neg := Neg(f, a);
            && ma >= 0.0 && mb >= 0.0
            && (neg == Neg(f, b) ==>
                Add(f, mode, a, b) == if ma + mb == 0.0 then Zero(f, neg)
                  else Signed(f, mode, neg, ma + mb))
            && (neg != Neg(f, b) ==>
                && (ma == mb ==> Add(f, mode, a, b) == Zero(f, mode == Min))
                && (ma > mb ==> Add(f, mode, a, b) == Signed(f, mode, neg, ma - mb))
                && (mb > ma ==> Add(f, mode, a, b) == Signed(f, mode, !neg, mb - ma)))
  {
    hide *;
    ValSign(f, a);
    ValSign(f, b);
    var neg, ma, mb := Neg(f, a), Magnitude(f, a), Magnitude(f, b);
    var zeroNeg := if neg == Neg(f, b) then neg else mode == Min;
    var x := Val(f, a) + Val(f, b);
    AddExact(f, mode, a, b, x);
    if neg == Neg(f, b) {
      ExactSigned(f, mode, zeroNeg, x, neg, ma + mb);
    } else if ma >= mb {
      ExactSigned(f, mode, zeroNeg, x, neg, ma - mb);
    } else {
      ExactSigned(f, mode, zeroNeg, x, !neg, mb - ma);
    }
  }

  /** A significand with room for k extra bits below; a subnormal one counts from exponent 0. */
  function Wide(f: Format, a: nat, k: nat): nat {
    if ExpUI(f, a) == 0 then 2 * FracUI(f, a) * Exp2(k) else (f.Frac() + FracUI(f, a)) * Exp2(k)
  }

  lemma WideMagnitude(f: Format, a: nat, k: nat)
    requires IsBits(f, a) && ExpUI(f, a) < f.Top()
    ensures Magnitude(f, a) == Dyadic(Wide(f, a, k) as real, ExpUI(f, a) - 1 + f.UnitExp() - k)
  {
    hide *;
    var e, m := ExpUI(f, a), FracUI(f, a);
    WideIs(f, a, k);
    if e == 0 {
      Fields(f, a);
      UnitsOf(f, 0, m);
      MagnitudeIs(f, a);
      DyadicIs(m as real, f.UnitExp());
      SmallExp2();
      DyadicShift(m as real, (2 * m) as real, f.UnitExp() - 1, 1);
      ToReal(2 * m, Exp2(k));
      DyadicShift((2 * m) as real, Wide(f, a, k) as real, f.UnitExp() - 1 - k, k);
    } else {
      NormalField(f, a);
      NormalIs(f, a, e, f.Frac() + m);
      ToReal(f.Frac() + m, Exp2(k));
      DyadicShift((f.Frac() + m) as real, Wide(f, a, k) as real, e - 1 + f.UnitExp() - k, k);
    }
  }

  lemma WideIs(f: Format, a: nat, k: nat)
    ensures Wide(f, a, k) == if ExpUI(f, a) == 0 then 2 * FracUI(f, a) * Exp2(k)
        else (f.Frac() + FracUI(f, a)) * Exp2(k)
  {
    hide Exp2, ExpUI, FracUI;
  }

  /** The magnitude sum once the exponents are aligned, with x the exact aligned sum. */
  lemma AlignedAddRounds(mode: Mode, a: nat, b: nat, sum: real, big: int, small: nat, e: int, d: nat, sigZ: int)
    requires IsFinite(F32, a) && IsFinite(F32, b) && Neg(F32, a) == Neg(F32, b)
    requires sum == Magnitude(F32, a) + Magnitude(F32, b)
    requires sum == Dyadic(big as real, e - 156) + Dyadic(small as real, e - 156 - d)
    requires 0x2000_0000 <= big < 0x4000_0000 && big % 2 == 0 && small < 0x4000_0000 && d > 0
    requires sigZ == big + Jam(small, d)
    ensures Renormalises(F32, mode, Neg(F32, a), Add(F32, mode, a, b), sigZ, e)
  {
    hide *;
    FormatConstants();
    AddFinite(F32, mode, a, b);
    AlignedSum(big, small, d);
    DyadicAligned(big as real, small as real, e - 156, d);
    JamHalves(small, d);
    DyadicPositive(big as real, e - 156);
    DyadicPositive(small as real, e - 156 - d);
    RenormaliseRounds(F32, mode, Neg(F32, a), big as real + small as real / Exp2(d) as real, sigZ, e, sum);
  }

  /** Two subnormals or zeros: the sum is representable. */
  lemma SubnormalSum(mode: Mode, a: nat, b: nat)
    requires IsBits(F32, a) && IsBits(F32, b) && ExpUI(F32, a) == 0 && ExpUI(F32, b) == 0
    requires Neg(F32, a) == Neg(F32, b)
    ensures Add(F32, mode, a, b) == Outcome(WithSign(F32, Neg(F32, a), FracUI(F32, a) + FracUI(F32, b)), {})
  {
    hide *;
    FormatConstants();
    Fields(F32, a);
    Fields(F32, b);
    AddFinite(F32, mode, a, b);
    var m, n := FracUI(F32, a), FracUI(F32, b);
    SubnormalMagnitude(a);
    SubnormalMagnitude(b);
    DistributeReal(m as real, n as real, Pow2(-149));
    DyadicIs((m + n) as real, -149);
    DyadicPositive((m + n) as real, -149);
    if m + n == 0 {
      SpecialZero(F32, Neg(F32, a));
    } else {
      var sum := Magnitude(F32, a) + Magnitude(F32, b);
      RoundSigned(F32, mode, Neg(F32, a), sum);
      SignedIs(F32, mode, Neg(F32, a), sum);
      CancelDivide((m + n) as real, Pow2(-149));
      SmallUnits(m + n);
      assert Units(F32, m + n) as real == sum / Pow2(F32.UnitExp());
      ExactRounds(F32, mode, Neg(F32, a), m + n);
    }
  }

  lemma SubnormalMagnitude(a: nat)
    requires IsBits(F32, a) && ExpUI(F32, a) == 0
    ensures Magnitude(F32, a) == FracUI(F32, a) as real * Pow2(-149)
  {
    hide *;
    FormatConstants();
    Fields(F32, a);
    SmallUnits(FracUI(F32, a));
    MagnitudeIs(F32, a);
  }

  lemma SmallUnits(m: nat)
    requires m < 0x100_0000
    ensures Units(F32, m) == m
  {
    SmallExp2();
  }

  lemma SpecialZero(f: Format, neg: bool)
    ensures Zero(f, neg) == Outcome(WithSign(f, neg, 0), {})
  {
  }

  method AddMagsF32(st: FloatState, a: u32, b: u32, signZ: bool) returns (z: u32)
    requires Neg(F32, a) == signZ && Neg(F32, b) == signZ
    modifies st`exceptionFlags
    ensures var o := Add(F32, st.roundingMode, a, b);
            z == o.bits && st.exceptionFlags == old(st.exceptionFlags) + o.flags
  {
    hide *;
    FormatConstants();
    BitsOfWords(a);
    BitsOfWords(b);
    Fields(F32, a);
    Fields(F32, b);
    ByteExp2();
    ghost var o := Add(F32, st.roundingMode, a, b);
    AddCases(F32, st.roundingMode, a, b);
    SpecialBits(signZ, IsSignalling(F32, a) || IsSignalling(F32, b));
    InfBits(F32, a);
    var expA: int, sigA: int := ExpUI(F32, a), FracUI(F32, a);
    var expB: int, sigB: int := ExpUI(F32, b), FracUI(F32, b);
    var expDiff: int := expA - expB;
    sigA, sigB := sigA * 0x40, sigB * 0x40;
    var expZ, sigZ: int;
    if expDiff == 0 {
      if expA == 0xFF {
        if sigA != 0 || sigB != 0 {
          z := PropagateNaNF32UI(st, a, b);
        } else {
          z := a;
        }
        return;
      }
      if expA == 0 {
        SubnormalSum(st.roundingMode, a, b);
        SumFields(a, b);
        PackIsWithSign(signZ, 0, FracUI(F32, a) + FracUI(F32, b));
        z := PackToF32UI(signZ, 0, (a as int + b as int) % 0x8000_0000);
        return;
      }
      expZ := expA;
      sigZ := 0x4000_0000 + sigA + sigB;
      SameExponentRounds(st.roundingMode, a, b, sigZ);
    } else {
      if expDiff < 0 {
        if expB == 0xFF {
          if sigB != 0 {
            z := PropagateNaNF32UI(st, a, b);
          } else {
            z := PackToF32UI(signZ, 0xFF, 0);
          }
          return;
        }
        expZ := expB;
        sigA := sigA + if expA != 0 then 0x2000_0000 else sigA;
        Shift32RightJamIsJam(sigA, -expDiff);
        AlignOperands(st.roundingMode, b, a, sigA, 0x2000_0000 + sigB);
        RenormalisesIs(F32, st.roundingMode, signZ, o, 0x2000_0000 + sigB + Jam(sigA, -expDiff), expB);
        sigA := Shift32RightJam(sigA, -expDiff);
      } else {
        if expA == 0xFF {
          if sigA != 0 {
            z := PropagateNaNF32UI(st, a, b);
          } else {
            z := a;
          }
          return;
        }
        expZ := expA;
        sigB := sigB + if expB != 0 then 0x2000_0000 else sigB;
        Shift32RightJamIsJam(sigB, expDiff);
        AlignOperands(st.roundingMode, a, b, sigB, 0x2000_0000 + sigA);
        RenormalisesIs(F32, st.roundingMode, signZ, o, 0x2000_0000 + sigA + Jam(sigB, expDiff), expA);
        sigB := Shift32RightJam(sigB, expDiff);
      }
      sigZ := 0x2000_0000 + sigA + sigB;
      if sigZ < 0x4000_0000 {
        expZ := expZ - 1;
        sigZ := 2 * sigZ;
      }
    }
    PacksIs(F32, st.roundingMode, signZ, o, sigZ, expZ);
    z := RoundPackToF32(st, signZ, expZ, sigZ);
  }

  /** The branches that shift the operand with the smaller exponent. */
  lemma AlignOperands(mode: Mode, a: nat, b: nat, small: int, big: int)
    requires IsBits(F32, a) && IsBits(F32, b) && Neg(F32, a) == Neg(F32, b)
    requires ExpUI(F32, b) < ExpUI(F32, a) < 0xFF
    requires big == (0x80_0000 + FracUI(F32, a)) * 0x40
    requires small == if ExpUI(F32, b) != 0 then (0x80_0000 + FracUI(F32, b)) * 0x40 else FracUI(F32, b) * 0x80
    ensures var sigZ := big + Jam(small, ExpUI(F32, a) - ExpUI(F32, b));
            && Renormalises(F32, mode, Neg(F32, a), Add(F32, mode, a, b), sigZ, ExpUI(F32, a))
            && Renormalises(F32, mode, Neg(F32, a), Add(F32, mode, b, a), sigZ, ExpUI(F32, a))
  {
    hide *;
    FormatConstants();
    ByteExp2();
    SmallExp2();
    Fields(F32, a);
    Fields(F32, b);
    var e: int, d: int := ExpUI(F32, a), ExpUI(F32, a) - ExpUI(F32, b);
    WideIs(F32, a, 6);
    WideIs(F32, b, 6);
    WideMagnitude(F32, a, 6);
    WideMagnitude(F32, b, 6);
    var sum := Magnitude(F32, a) + Magnitude(F32, b);
    AlignedAddRounds(mode, a, b, sum, big, small, e, d, big + Jam(small, d));
    AlignedAddRounds(mode, b, a, sum, big, small, e, d, big + Jam(small, d));
  }

  lemma SameExponentRounds(mode: Mode, a: nat, b: nat, sigZ: int)
    requires IsBits(F32, a) && IsBits(F32, b) && Neg(F32, a) == Neg(F32, b)
    requires 0 < ExpUI(F32, a) == ExpUI(F32, b) < 0xFF
    requires sigZ == 0x4000_0000 + FracUI(F32, a) * 0x40 + FracUI(F32, b) * 0x40
    ensures Packs(F32, mode, Neg(F32, a), Add(F32, mode, a, b), sigZ, ExpUI(F32, a))
  {
    hide *;
    FormatConstants();
    SmallExp2();
    Fields(F32, a);
    Fields(F32, b);
    var e: int := ExpUI(F32, a);
    WideIs(F32, a, 6);
    WideIs(F32, b, 6);
    WideMagnitude(F32, a, 6);
    WideMagnitude(F32, b, 6);
    var x, y := Wide(F32, a, 6), Wide(F32, b, 6);
    DistributeReal(x as real, y as real, Pow2(e - 156));
    DyadicIs(x as real, e - 156);
    DyadicIs(y as real, e - 156);
    DyadicIs(sigZ as real, e - 156);
    DyadicPositive(sigZ as real, e - 156);
    AddFinite(F32, mode, a, b);
    StandsForItself(F32, sigZ);
    FinishPacks(F32, mode, Neg(F32, a), sigZ as real, sigZ, e, Magnitude(F32, a) + Magnitude(F32, b));
  }

  lemma SumFields(a: u32, b: u32)
    requires Neg(F32, a) == Neg(F32, b) && ExpUI(F32, a) == 0 && ExpUI(F32, b) == 0
    ensures (a as int + b as int) % 0x8000_0000 == FracUI(F32, a) + FracUI(F32, b)
  {
    BitsOfWords(a);
    BitsOfWords(b);
    Fields(F32, a);
    Fields(F32, b);
    hide ExpUI, FracUI;
  }

  /** Distinct magnitudes over one exponent: the difference is exact. */
  lemma SingleDifferenceRounds(mode: Mode, a: nat, b: nat, e: int, x: real, sigZ: int)
    requires IsFinite(F32, a) && IsFinite(F32, b) && Neg(F32, a) != Neg(F32, b)
    requires Magnitude(F32, a) - Magnitude(F32, b) == Dyadic(x, e - 157) && x > 0.0
    requires Magnitude(F32, b) - Magnitude(F32, a) == -Dyadic(x, e - 157)
    requires x == sigZ as real || (Agree(x / 2.0, sigZ as real / 2.0) && 0x2000_0000 <= sigZ < 0x8000_0000)
    ensures sigZ > 0 && Packed(F32, sigZ as real, e - 1) >= 0.0
    ensures Add(F32, mode, a, b) == RoundUnits(F32, mode, Neg(F32, a), Packed(F32, sigZ as real, e - 1))
    ensures Add(F32, mode, b, a) == RoundUnits(F32, mode, Neg(F32, a), Packed(F32, sigZ as real, e - 1))
  {
    hide *;
    FormatConstants();
    AddFinite(F32, mode, a, b);
    AddFinite(F32, mode, b, a);
    DyadicPositive(x, e - 157);
    var mag := Magnitude(F32, a) - Magnitude(F32, b);
    RoundsAsPacked(F32, mode, Neg(F32, a), x, e - 1, mag);
    SignedIs(F32, mode, Neg(F32, a), mag);
    if x != sigZ as real {
      NearRounds(F32, mode, Neg(F32, a), x, sigZ, e - 1);
    }
  }

  /** The branches that shift the operand with the smaller exponent and subtract. */
  lemma SubtractOperands(mode: Mode, a: nat, b: nat, small: int, big: int)
    requires IsBits(F32, a) && IsBits(F32, b) && Neg(F32, a) != Neg(F32, b)
    requires ExpUI(F32, b) < ExpUI(F32, a) < 0xFF
    requires big == (0x80_0000 + FracUI(F32, a)) * 0x80
    requires small == if ExpUI(F32, b) != 0 then (0x80_0000 + FracUI(F32, b)) * 0x80 else FracUI(F32, b) * 0x100
    ensures var e := ExpUI(F32, a);
            var sigZ := big - Jam(small, e - ExpUI(F32, b));
            && 0 < sigZ < 0x8000_0000 && Packed(F32, sigZ as real, e - 1) >= 0.0
            && Add(F32, mode, a, b) == RoundUnits(F32, mode, Neg(F32, a), Packed(F32, sigZ as real, e - 1))
            && Add(F32, mode, b, a) == RoundUnits(F32, mode, Neg(F32, a), Packed(F32, sigZ as real, e - 1))
  {
    hide *;
    FormatConstants();
    ByteExp2();
    SmallExp2();
    Fields(F32, a);
    Fields(F32, b);
    var e: int, d: int := ExpUI(F32, a), ExpUI(F32, a) - ExpUI(F32, b);
    WideIs(F32, a, 7);
    WideIs(F32, b, 7);
    WideMagnitude(F32, a, 7);
    WideMagnitude(F32, b, 7);
    DyadicAligned(big as real, small as real, e - 157, d);
    StickyDifference(big, small, d);
    SingleDifferenceRounds(mode, a, b, e, big as real - small as real / Exp2(d) as real, big - Jam(small, d));
  }

  lemma StickyDifference(big: int, small: nat, d: nat)
    requires 0x4000_0000 <= big < 0x8000_0000 && big % 2 == 0 && small < 0x8000_0000 && small % 2 == 0 && d > 0
    ensures var x, sig := big as real - small as real / Exp2(d) as real, big - Jam(small, d);
            && x > 0.0 && 0 < sig < 0x8000_0000
            && (x == sig as real || (Agree(x / 2.0, sig as real / 2.0) && 0x2000_0000 <= sig))
  {
    hide *;
    MulAddTheory.ShiftedDifference(0x4000_0000, big, small, d);
    MulAddTheory.DifferenceIs(0x4000_0000, big as real - small as real / Exp2(d) as real, big - Jam(small, d));
  }

  /** Equal exponents: subtract the fractions. */
  lemma SubtractFractions(mode: Mode, a: nat, b: nat, e: int)
    requires IsBits(F32, a) && IsBits(F32, b) && Neg(F32, a) != Neg(F32, b)
    requires ExpUI(F32, a) == ExpUI(F32, b) < 0xFF && e == if ExpUI(F32, a) == 0 then 1 else ExpUI(F32, a)
    ensures FracUI(F32, a) == FracUI(F32, b) ==> Add(F32, mode, a, b) == Zero(F32, mode == Min)
    ensures FracUI(F32, a) > FracUI(F32, b) ==>
              var sigZ := (FracUI(F32, a) - FracUI(F32, b)) * 0x80;
              && Packed(F32, sigZ as real, e - 1) >= 0.0
              && Add(F32, mode, a, b) == RoundUnits(F32, mode, Neg(F32, a), Packed(F32, sigZ as real, e - 1))
              && Add(F32, mode, b, a) == RoundUnits(F32, mode, Neg(F32, a), Packed(F32, sigZ as real, e - 1))
  {
    hide *;
    FormatConstants();
    SmallExp2();
    Fields(F32, a);
    Fields(F32, b);
    WideIs(F32, a, 7);
    WideIs(F32, b, 7);
    WideMagnitude(F32, a, 7);
    WideMagnitude(F32, b, 7);
    var x: int, y: int := Wide(F32, a, 7), Wide(F32, b, 7);
    var d: int := ExpUI(F32, a) - 157;
    DistributeReal(x as real, y as real, Pow2(d));
    DyadicIs(x as real, d);
    DyadicIs(y as real, d);
    DyadicIs((x - y) as real, d);
    AddFinite(F32, mode, a, b);
    var sigZ := (FracUI(F32, a) - FracUI(F32, b)) * 0x80;
    if FracUI(F32, a) > FracUI(F32, b) {
      if ExpUI(F32, a) == 0 {
        DyadicShift(sigZ as real, (x - y) as real, d, 1);
      }
      SingleDifferenceRounds(mode, a, b, e, sigZ as real, sigZ);
    }
  }

  method SubMagsF32(st: FloatState, a: u32, b: u32, sign: bool) returns (z: u32)
    requires Neg(F32, a) == sign != Neg(F32, b)
    modifies st`exceptionFlags
    ensures var o := Add(F32, st.roundingMode, a, b);
            z == o.bits && st.exceptionFlags == old(st.exceptionFlags) + o.flags
  {
    hide *;
    FormatConstants();
    BitsOfWords(a);
    BitsOfWords(b);
    Fields(F32, a);
    Fields(F32, b);
    Exp2Constants();
    AddCases(F32, st.roundingMode, a, b);
    SpecialBits(!sign, IsSignalling(F32, a) || IsSignalling(F32, b));
    SpecialBits(st.roundingMode == Min, true);
    InfBits(F32, a);
    var signZ := sign;
    var expA: int, sigA: int := ExpUI(F32, a), FracUI(F32, a);
    var expB: int, sigB: int := ExpUI(F32, b), FracUI(F32, b);
    var expDiff: int := expA - expB;
    sigA, sigB := sigA * 0x80, sigB * 0x80;
    var expZ, sigZ: int;
    if 0 < expDiff {
      if expA == 0xFF {
        if sigA != 0 {
          z := PropagateNaNF32UI(st, a, b);
        } else {
          z := a;
        }
        return;
      }
      sigB := sigB + if expB != 0 then 0x4000_0000 else sigB;
      Shift32RightJamIsJam(sigB, expDiff);
      OrImplicit(sigA, 30);
      SubtractOperands(st.roundingMode, a, b, sigB, 0x4000_0000 + sigA);
      sigB := Shift32RightJam(sigB, expDiff);
      sigA := BitOr(sigA, 0x4000_0000);
      expZ, sigZ := expA, sigA - sigB;
    } else if expDiff < 0 {
      if expB == 0xFF {
        if sigB != 0 {
          z := PropagateNaNF32UI(st, a, b);
        } else {
          z := PackToF32UI(!signZ, 0xFF, 0);
        }
        return;
      }
      sigA := sigA + if expA != 0 then 0x4000_0000 else sigA;
      Shift32RightJamIsJam(sigA, -expDiff);
      OrImplicit(sigB, 30);
      SubtractOperands(st.roundingMode, b, a, sigA, 0x4000_0000 + sigB);
      sigA := Shift32RightJam(sigA, -expDiff);
      sigB := BitOr(sigB, 0x4000_0000);
      signZ := !signZ;
      expZ, sigZ := expB, sigB - sigA;
    } else {
      if expA == 0xFF {
        if sigA != 0 || sigB != 0 {
          z := PropagateNaNF32UI(st, a, b);
        } else {
          st.exceptionFlags := st.exceptionFlags + {Invalid};
          z := 0xFFFF_FFFF;
        }
        return;
      }
      if expA == 0 {
        expA, expB := 1, 1;
      }
      SubtractFractions(st.roundingMode, a, b, expA);
      SubtractFractions(st.roundingMode, b, a, expA);
      if sigB < sigA {
        expZ, sigZ := expA, sigA - sigB;
      } else if sigA < sigB {
        signZ := !signZ;
        expZ, sigZ := expB, sigB - sigA;
      } else {
        z := PackToF32UI(st.roundingMode == Min, 0, 0);
        return;
      }
    }
    NormPackedIs(F32, st.roundingMode, signZ, expZ - 1, sigZ);
    z := NormRoundPackToF32(st, signZ, expZ - 1, sigZ);
  }

  method F32Add(st: FloatState, a: u32, b: u32) returns (z: u32)
    modifies st`exceptionFlags
    ensures var o := Add(F32, st.roundingMode, a, b);
            z == o.bits && st.exceptionFlags == old(st.exceptionFlags) + o.flags
  {
    hide *;
    BitsOfWords(a);
    BitsOfWords(b);
    Fields(F32, a);
    Fields(F32, b);
    var signA, signB := SignUI(F32, a), SignUI(F32, b);
    if signA == signB {
      z := AddMagsF32(st, a, b, signA);
    } else {
      z := SubMagsF32(st, a, b, signA);
    }
  }
}
