/** Taking encodings apart, normalising subnormals, NaN propagation, and putting exact values back. */
module Unpack {
  import opened Powers
  import opened Rounding
  import opened Ieee754
  import opened RoundTheory
  import opened Words
  import opened Primitives
  import opened RoundPack

  // --- Fields ---

  predicate SignUI(f: Format, a: nat) {
    a / f.SignBit() % 2 != 0
  }

  function ExpUI(f: Format, a: nat): nat {
    a / f.Frac() % (f.Top() + 1)
  }

  function FracUI(f: Format, a: nat): nat {
    a % f.Frac()
  }

  lemma Fields(f: Format, a: nat)
    requires IsBits(f, a)
    ensures SignUI(f, a) == Neg(f, a)
    ensures ExpUI(f, a) <= f.Top() && FracUI(f, a) < f.Frac()
    ensures Code(f, a) == ExpUI(f, a) * f.Frac() + FracUI(f, a)
    ensures IsNaN(f, a) <==> ExpUI(f, a) == f.Top() && FracUI(f, a) != 0
    ensures IsInf(f, a) <==> ExpUI(f, a) == f.Top() && FracUI(f, a) == 0
    ensures IsFinite(f, a) <==> ExpUI(f, a) < f.Top()
    ensures IsZero(f, a) <==> ExpUI(f, a) == 0 && FracUI(f, a) == 0
  {
    hide IsNaN, IsInf, IsFinite, IsZero;
    SplitWord(f, a);
    Classes(f, a, ExpUI(f, a), FracUI(f, a));
  }

  lemma SplitWord(f: Format, a: nat)
    requires IsBits(f, a)
    ensures SignUI(f, a) == Neg(f, a)
    ensures ExpUI(f, a) <= f.Top() && FracUI(f, a) < f.Frac()
    ensures Code(f, a) == ExpUI(f, a) * f.Frac() + FracUI(f, a)
  {
    hide *;
    FormatConstants();
    FieldsAre(f, a);
    CodeIs(f, a);
    match f {
      case F32 => SplitSingle(a);
      case F64 => SplitDouble(a);
    }
  }

  lemma FieldsAre(f: Format, a: nat)
    requires IsBits(f, a)
    ensures SignUI(f, a) == (a / f.SignBit() % 2 != 0) && a < 2 * f.SignBit()
    ensures ExpUI(f, a) == a / f.Frac() % (f.Top() + 1) && FracUI(f, a) == a % f.Frac()
  {
  }

  /** A sign bit, eight exponent bits, then the fraction. */
  lemma SplitSingle(a: nat)
    requires a < 0x1_0000_0000
    ensures a / 0x8000_0000 % 2 != 0 <==> a >= 0x8000_0000
    ensures 0 <= a / 0x80_0000 % 0x100 < 0x100 && 0 <= a % 0x80_0000 < 0x80_0000
    ensures (if a >= 0x8000_0000 then a - 0x8000_0000 else a) == a / 0x80_0000 % 0x100 * 0x80_0000 + a % 0x80_0000
  {
    hide *;
    var s := if a >= 0x8000_0000 then 1 else 0;
    var low := a - s * 0x8000_0000;
    var e, m := low / 0x80_0000, low % 0x80_0000;
    assert low == e * 0x80_0000 + m && 0 <= e < 0x100;
    Euclid(a, 0x8000_0000, s, low);
    Euclid(a, 0x80_0000, s * 0x100 + e, m);
    Euclid(s * 0x100 + e, 0x100, s, e);
  }

  lemma SplitDouble(a: nat)
    requires a < 0x1_0000_0000_0000_0000
    ensures a / 0x8000_0000_0000_0000 % 2 != 0 <==> a >= 0x8000_0000_0000_0000
    ensures 0 <= a / 0x10_0000_0000_0000 % 0x800 < 0x800 && 0 <= a % 0x10_0000_0000_0000 < 0x10_0000_0000_0000
    ensures (if a >= 0x8000_0000_0000_0000 then a - 0x8000_0000_0000_0000 else a)
         == a / 0x10_0000_0000_0000 % 0x800 * 0x10_0000_0000_0000 + a % 0x10_0000_0000_0000
  {
    hide *;
    var s := if a >= 0x8000_0000_0000_0000 then 1 else 0;
    var low := a - s * 0x8000_0000_0000_0000;
    var e, m := low / 0x10_0000_0000_0000, low % 0x10_0000_0000_0000;
    assert low == e * 0x10_0000_0000_0000 + m && 0 <= e < 0x800;
    Euclid(a, 0x8000_0000_0000_0000, s, low);
    Euclid(a, 0x10_0000_0000_0000, s * 0x800 + e, m);
    Euclid(s * 0x800 + e, 0x800, s, e);
  }

  lemma Classes(f: Format, a: nat, e: nat, m: nat)
    requires Code(f, a) == e * f.Frac() + m && e <= f.Top() && m < f.Frac()
    ensures IsNaN(f, a) <==> e == f.Top() && m != 0
    ensures IsInf(f, a) <==> e == f.Top() && m == 0
    ensures IsFinite(f, a) <==> e < f.Top()
    ensures IsZero(f, a) <==> e == 0 && m == 0
  {
    hide Code;
    match f case F32 => case F64 =>
  }

  // --- Values as significand times power of two ---

  function Dyadic(x: real, e: int): real {
    x * Pow2(e)
  }

  /** a's magnitude is sig * 2^(exp - 1) units, with sig a full significand. */
  ghost predicate Normal(f: Format, a: nat, exp: int, sig: int) {
    f.Frac() <= sig < 2 * f.Frac() && Magnitude(f, a) == Dyadic(sig as real, exp - 1 + f.UnitExp())
  }

  lemma DyadicShift(x: real, y: real, e: int, k: nat)
    requires y == x * Exp2(k) as real
    ensures Dyadic(y, e) == Dyadic(x, e + k)
  {
    hide Exp2, Pow2;
    Pow2Add(e, k);
    Pow2IsExp2(k);
    Regroup(x, Exp2(k) as real, Pow2(e));
  }

  lemma Regroup(x: real, r: real, p: real)
    ensures x * r * p == x * (p * r)
  {
  }

  lemma DyadicTimes(x: real, e: int, y: real, d: int, z: real)
    requires z == x * y
    ensures Dyadic(x, e) * Dyadic(y, d) == Dyadic(z, e + d)
  {
    hide Pow2;
    Pow2Add(e, d);
    Regroup4(x, Pow2(e), y, Pow2(d));
  }

  lemma Regroup4(x: real, p: real, y: real, q: real)
    ensures x * p * (y * q) == x * y * (p * q)
  {
  }

  lemma UnitsNormal(f: Format, a: nat, exp: int, sig: int)
    requires Units(f, Code(f, a)) as real == Dyadic(sig as real, exp - 1)
    requires f.Frac() <= sig < 2 * f.Frac()
    ensures Normal(f, a, exp, sig)
  {
    hide Pow2, Units;
    var u := f.UnitExp();
    Pow2Add(exp - 1, u);
    Regroup(sig as real, Pow2(u), Pow2(exp - 1));
    Regroup(sig as real, Pow2(exp - 1), Pow2(u));
  }

  /** A normal number carries its leading bit implicitly. */
  lemma NormalField(f: Format, a: nat)
    requires IsBits(f, a) && 0 < ExpUI(f, a) < f.Top()
    ensures Normal(f, a, ExpUI(f, a), f.Frac() + FracUI(f, a))
  {
    hide *;
    var e, m := ExpUI(f, a), FracUI(f, a);
    Fields(f, a);
    UnitsOf(f, e, m);
    Pow2IsExp2(e - 1);
    ToReal(f.Frac() + m, Exp2(e - 1));
    DyadicIs((f.Frac() + m) as real, e - 1);
    UnitsNormal(f, a, e, f.Frac() + m);
  }

  lemma DyadicIs(x: real, e: int)
    ensures Dyadic(x, e) == x * Pow2(e)
  {
    hide Pow2;
  }

  lemma SubnormalField(f: Format, a: nat, exp: int, sig: int)
    requires IsBits(f, a) && ExpUI(f, a) == 0 && exp <= 1
    requires sig == FracUI(f, a) * Exp2(1 - exp) && f.Frac() <= sig < 2 * f.Frac()
    ensures Normal(f, a, exp, sig)
  {
    hide *;
    var m := FracUI(f, a);
    Fields(f, a);
    UnitsOf(f, 0, m);
    ToReal(m, Exp2(1 - exp));
    DyadicShift(m as real, sig as real, exp - 1, 1 - exp);
    DyadicIs(m as real, 0);
    Pow2Zero();
    UnitsNormal(f, a, exp, sig);
  }

  method NormSubnormalF32Sig(sig: u32) returns (exp: int, z: u32)
    requires 0 < sig < F32.Frac()
    ensures -22 <= exp <= 0 && z == sig * Exp2(1 - exp) && F32.Frac() <= z < 2 * F32.Frac()
  {
    hide Exp2, LeadingZeros;
    var clz := CountLeadingZeros32(sig);
    LeadingZerosBound(sig, 32, clz);
    LeadingZerosIs(sig, 32, clz);
    Exp2Constants();
    if clz < 9 {
      Exp2Mono(clz, 8);
      ProductMono(Exp2(clz), 0x100, sig);
    }
    var shiftCount: int := clz - 8;
    Exp2Add(shiftCount, 8);
    Associate(sig, Exp2(shiftCount), 0x100);
    exp, z := 1 - shiftCount, sig * Exp2(shiftCount);
  }

  method NormSubnormalF64Sig(sig: u64) returns (exp: int, z: u64)
    requires 0 < sig < F64.Frac()
    ensures -51 <= exp <= 0 && z == sig * Exp2(1 - exp) && F64.Frac() <= z < 2 * F64.Frac()
  {
    hide Exp2, LeadingZeros;
    var clz := CountLeadingZeros64(sig);
    LeadingZerosBound(sig, 64, clz);
    LeadingZerosIs(sig, 64, clz);
    Exp2Constants();
    if clz < 12 {
      Exp2Mono(clz, 11);
      ProductMono(Exp2(clz), 0x800, sig);
    }
    var shiftCount: int := clz - 11;
    Exp2Add(shiftCount, 11);
    Associate(sig, Exp2(shiftCount), 0x800);
    exp, z := 1 - shiftCount, sig * Exp2(shiftCount);
  }

  /** The steps each operation applies to a finite non-zero operand: normalise it when it is
      subnormal, then set the leading bit. */
  method NormaliseF32(a: u32) returns (exp: int, sig: u32)
    requires IsFinite(F32, a) && !IsZero(F32, a)
    ensures Normal(F32, a, exp, sig) && -22 <= exp <= 254 && 0x80_0000 <= sig < 0x100_0000
  {
    hide *;
    FormatConstants();
    BitsOfWords(a);
    Fields(F32, a);
    exp, sig := ExpUI(F32, a), FracUI(F32, a);
    if exp == 0 {
      exp, sig := NormSubnormalF32Sig(sig);
      SubnormalField(F32, a, exp, sig);
    } else {
      NormalField(F32, a);
    }
    Exp2Constants();
    OrImplicit(sig, 23);
    sig := BitOr(sig, 0x80_0000);
  }

  method NormaliseF64(a: u64) returns (exp: int, sig: u64)
    requires IsFinite(F64, a) && !IsZero(F64, a)
    ensures Normal(F64, a, exp, sig) && -51 <= exp <= 2046
    ensures 0x10_0000_0000_0000 <= sig < 0x20_0000_0000_0000
  {
    hide *;
    FormatConstants();
    BitsOfWords(a);
    Fields(F64, a);
    exp, sig := ExpUI(F64, a), FracUI(F64, a);
    if exp == 0 {
      exp, sig := NormSubnormalF64Sig(sig);
      SubnormalField(F64, a, exp, sig);
    } else {
      NormalField(F64, a);
    }
    Exp2Constants();
    OrImplicit(sig, 52);
    sig := BitOr(sig, 0x10_0000_0000_0000);
  }

  lemma BitsOfWords(a: nat)
    ensures a < 0x1_0000_0000 ==> IsBits(F32, a)
    ensures a < 0x1_0000_0000_0000_0000 ==> IsBits(F64, a)
  {
  }

  // --- NaNs ---

  predicate IsSigNaNF32UI(ui: u32) {
    ui / 0x40_0000 % 0x200 == 0x1FE && ui % 0x40_0000 != 0
  }

  predicate IsSigNaNF64UI(ui: u64) {
    ui / 0x8_0000_0000_0000 % 0x1000 == 0xFFE && ui % 0x8_0000_0000_0000 != 0
  }

  lemma SigNaN32(ui: u32)
    ensures IsSigNaNF32UI(ui) <==> IsSignalling(F32, ui)
  {
    var h, low := ui / 0x40_0000, ui % 0x40_0000;
    assert FracField(F32, ui) == h % 2 * 0x40_0000 + low;
    assert Code(F32, ui) == h % 0x200 * 0x40_0000 + low;
  }

  lemma SigNaN64(ui: u64)
    ensures IsSigNaNF64UI(ui) <==> IsSignalling(F64, ui)
  {
    var h, low := ui / 0x8_0000_0000_0000, ui % 0x8_0000_0000_0000;
    SplitNaN64(ui, h, low);
    hide *;
    SigNaN64Parts(ui, h, low);
  }

  lemma SplitNaN64(ui: u64, h: nat, low: nat)
    requires h == ui / 0x8_0000_0000_0000 && low == ui % 0x8_0000_0000_0000
    ensures FracField(F64, ui) == h % 2 * 0x8_0000_0000_0000 + low
    ensures Code(F64, ui) == h % 0x1000 * 0x8_0000_0000_0000 + low
    ensures IsSigNaNF64UI(ui) <==> h % 0x1000 == 0xFFE && low != 0
  {
    hide *;
    FormatConstants();
    SigNaNTest(ui, h, low);
    assert ui == h * 0x8_0000_0000_0000 + low;
    var s, g := h / 0x1000, h % 0x1000;
    assert h == 0x1000 * s + g;
    FracFieldIs(ui);
    Euclid(ui, 0x10_0000_0000_0000, h / 2, h % 2 * 0x8_0000_0000_0000 + low);
    CodeIs(F64, ui);
    assert g * 0x8_0000_0000_0000 + low < 0x8000_0000_0000_0000;
    assert s == 0 || s == 1;
  }

  lemma SigNaNTest(ui: u64, h: nat, low: nat)
    requires h == ui / 0x8_0000_0000_0000 && low == ui % 0x8_0000_0000_0000
    ensures IsSigNaNF64UI(ui) <==> h % 0x1000 == 0xFFE && low != 0
  {
  }

  lemma FracFieldIs(ui: nat)
    ensures FracField(F64, ui) == ui % 0x10_0000_0000_0000
  {
  }

  lemma CodeIs(f: Format, a: nat)
    ensures Code(f, a) == (if a >= f.SignBit() then a - f.SignBit() else a) && (Neg(f, a) <==> a >= f.SignBit())
  {
  }

  lemma SigNaN64Parts(ui: u64, h: nat, low: nat)
    requires low < 0x8_0000_0000_0000
    requires FracField(F64, ui) == h % 2 * 0x8_0000_0000_0000 + low
    requires Code(F64, ui) == h % 0x1000 * 0x8_0000_0000_0000 + low
    ensures IsSignalling(F64, ui) <==> h % 0x1000 == 0xFFE && low != 0
  {
    hide *;
    SignallingIs(ui);
    var g := h % 0x1000;
    assert h % 2 == g % 2;
    QuietBit(g, low);
  }

  lemma SignallingIs(ui: nat)
    ensures IsSignalling(F64, ui) <==>
      Code(F64, ui) > 0x7FF0_0000_0000_0000 && FracField(F64, ui) < 0x8_0000_0000_0000
  {
    hide FracField, Code;
  }

  lemma QuietBit(g: nat, low: nat)
    requires g < 0x1000 && low < 0x8_0000_0000_0000
    ensures g * 0x8_0000_0000_0000 + low > 0x7FF0_0000_0000_0000
        && g % 2 * 0x8_0000_0000_0000 + low < 0x8_0000_0000_0000
       <==> g == 0xFFE && low != 0
  {
  }

  method PropagateNaNF32UI(st: FloatState, a: u32, b: u32) returns (z: u32)
    modifies st`exceptionFlags
    ensures z == 0xFFFF_FFFF
    ensures st.exceptionFlags == old(st.exceptionFlags)
              + if IsSignalling(F32, a) || IsSignalling(F32, b) then {Invalid} else {}
  {
    SigNaN32(a);
    SigNaN32(b);
    if IsSigNaNF32UI(a) || IsSigNaNF32UI(b) {
      st.exceptionFlags := st.exceptionFlags + {Invalid};
    }
    z := 0xFFFF_FFFF;
  }

  method PropagateNaNF64UI(st: FloatState, a: u64, b: u64) returns (z: u64)
    modifies st`exceptionFlags
    ensures z == 0xFFFF_FFFF_FFFF_FFFF
    ensures st.exceptionFlags == old(st.exceptionFlags)
              + if IsSignalling(F64, a) || IsSignalling(F64, b) then {Invalid} else {}
  {
    SigNaN64(a);
    SigNaN64(b);
    if IsSigNaNF64UI(a) || IsSigNaNF64UI(b) {
      st.exceptionFlags := st.exceptionFlags + {Invalid};
    }
    z := 0xFFFF_FFFF_FFFF_FFFF;
  }

  /** The special results, as each routine packs them. */
  lemma SpecialBits(neg: bool, signalling: bool)
    ensures Quiet(F32, signalling) == Outcome(0xFFFF_FFFF, if signalling then {Invalid} else {})
    ensures Inf(F32, neg) == Outcome(PackToF32UI(neg, 0xFF, 0), {}) && 0 <= PackToF32UI(neg, 0xFF, 0) < 0x1_0000_0000
    ensures Zero(F32, neg) == Outcome(PackToF32UI(neg, 0, 0), {}) && 0 <= PackToF32UI(neg, 0, 0) < 0x1_0000_0000
    ensures Quiet(F64, signalling) == Outcome(0xFFFF_FFFF_FFFF_FFFF, if signalling then {Invalid} else {})
    ensures Inf(F64, neg) == Outcome(PackToF64UI(neg, 0x7FF, 0), {})
    ensures Zero(F64, neg) == Outcome(PackToF64UI(neg, 0, 0), {})
    ensures 0 <= PackToF64UI(neg, 0x7FF, 0) < 0x1_0000_0000_0000_0000
    ensures 0 <= PackToF64UI(neg, 0, 0) < 0x1_0000_0000_0000_0000
  {
  }

  lemma InfBits(f: Format, a: nat)
    ensures IsInf(f, a) ==> Inf(f, Neg(f, a)) == Outcome(a, {})
  {
  }

  lemma MagnitudeIs(f: Format, a: nat)
    ensures Magnitude(f, a) == Units(f, Code(f, a)) as real * Pow2(f.UnitExp())
  {
    hide Units, Pow2;
  }

  // --- From a sticky significand back to the exact result ---

  lemma RoundSigned(f: Format, mode: Mode, neg: bool, mag: real)
    requires mag > 0.0
    ensures mag / Pow2(f.UnitExp()) >= 0.0
    ensures Round(f, mode, if neg then -mag else mag) == RoundUnits(f, mode, neg, mag / Pow2(f.UnitExp()))
  {
    hide Pow2, RoundUnits;
  }

  lemma PackedIsDyadic(f: Format, x: real, exp: int)
    ensures Packed(f, x, exp) == Dyadic(x, exp - f.StepBits() + f.UnitExp()) / Pow2(f.UnitExp())
  {
    hide *;
    var s: int, u: int := f.StepBits(), f.UnitExp();
    PackedIs(f, x, x / f.Step() as real, exp);
    StepIsExp2(f);
    Pow2Inverse(x, s);
    Pow2Add(exp - s, u);
    Pow2Add(exp, -s);
    DyadicIs(x, exp - s + u);
    CancelDivide(x * Pow2(exp - s), Pow2(u));
    Regroup(x, Pow2(exp), Pow2(-s));
    assert Pow2(exp - s) == Pow2(exp) * Pow2(-s);
    Associate3(x, Pow2(exp - s), Pow2(u));
    Associate3(x, Pow2(exp), Pow2(-s));
    Associate3(x, Pow2(-s), Pow2(exp));
  }

  lemma Associate3(x: real, y: real, z: real)
    ensures x * (y * z) == x * y * z
    ensures x * y * z == x * z * y
  {
  }

  /** sig, standing for x, at exponent exp rounds like the magnitude x denotes. */
  lemma FinishRound(f: Format, mode: Mode, neg: bool, x: real, sig: int, exp: int, mag: real)
    requires StandsFor(f, sig, x) && f.Full() <= sig < 2 * f.Full()
    requires mag > 0.0 && mag == Dyadic(x, exp - f.StepBits() + f.UnitExp())
    ensures Packed(f, sig as real, exp) >= 0.0
    ensures Round(f, mode, if neg then -mag else mag) == RoundUnits(f, mode, neg, Packed(f, sig as real, exp))
  {
    hide *;
    RoundSigned(f, mode, neg, mag);
    PackedIsDyadic(f, x, exp);
    StickyRound(f, mode, neg, x, sig, exp);
    FullPositive(f);
  }

  lemma FullPositive(f: Format)
    ensures f.Full() > 0
  {
  }

  lemma DyadicQuotient(x: real, e: int, k: nat)
    ensures Dyadic(x / Exp2(k) as real, e + k) == Dyadic(x, e)
  {
    hide *;
    DyadicShift(x / Exp2(k) as real, x, e, k);
  }

  /** Agreement in even integers is far more than a rounding step needs. */
  lemma NearStands(f: Format, sig: int, x: real)
    requires Agree(x / 2.0, sig as real / 2.0)
    ensures StandsFor(f, sig, x)
  {
    hide Agree;
    AgreeCoarser(x / 2.0, sig as real / 2.0, f.Step() / 4);
    Quarter(f, x);
    Quarter(f, sig as real);
  }

  lemma NearStandsDoubled(f: Format, sig: int, x: real)
    requires Agree(x / 2.0, sig as real / 2.0)
    ensures StandsFor(f, 2 * sig, 2.0 * x)
  {
    hide *;
    StepEighth(f);
    AgreeCoarser(x / 2.0, sig as real / 2.0, f.Step() / 8);
    var k := (f.Step() / 8) as real;
    DoubledQuotient(x, k);
    DoubledQuotient(sig as real, k);
    AgreeSame(x / 2.0 / k, sig as real / 2.0 / k, 2.0 * x / (4.0 * k), 2.0 * sig as real / (4.0 * k));
    StandsWhen(f, 2 * sig, 2.0 * x, 4.0 * k, 2.0 * sig as real);
  }

  lemma StepEighth(f: Format)
    ensures f.Step() / 8 > 0 && (f.Step() / 2) as real == 4.0 * (f.Step() / 8) as real
  {
    match f case F32 => case F64 =>
  }

  lemma DoubledQuotient(x: real, k: real)
    requires k > 0.0
    ensures x / 2.0 / k == 2.0 * x / (4.0 * k)
  {
    var y := x / 2.0 / k;
    assert y * k == x / 2.0;
    assert 2.0 * x == y * (4.0 * k);
    hide *;
    CancelDivide(y, 4.0 * k);
  }

  lemma AgreeSame(x: real, y: real, x': real, y': real)
    requires x == x' && y == y' && Agree(x, y)
    ensures Agree(x', y')
  {
  }

  lemma StandsWhen(f: Format, sig: int, x: real, h: real, y: real)
    requires h > 0.0 && h == (f.Step() / 2) as real && y == sig as real && Agree(x / h, y / h)
    ensures StandsFor(f, sig, x)
  {
    hide Agree;
  }

  /** The step "if the significand lost its leading bit, shift it back in". */
  lemma NearRenormalised(f: Format, sig: int, x: real, e: int)
    requires Agree(x / 2.0, sig as real / 2.0)
    ensures StandsFor(f, sig, x) && StandsFor(f, 2 * sig, 2.0 * x)
    ensures Dyadic(2.0 * x, e - 1) == Dyadic(x, e)
  {
    hide *;
    NearStands(f, sig, x);
    NearStandsDoubled(f, sig, x);
    Pow2Step(e - 1);
    DyadicIs(2.0 * x, e - 1);
    DyadicIs(x, e);
    Associate3(x, 2.0, Pow2(e - 1));
  }

  /** Packing sig at exponent exp yields the outcome o. */
  ghost predicate Packs(f: Format, mode: Mode, neg: bool, o: Outcome, sig: int, exp: int) {
    && Packable(f, exp, sig) && Packed(f, sig as real, exp) >= 0.0
    && o == RoundUnits(f, mode, neg, Packed(f, sig as real, exp))
  }

  lemma PacksIs(f: Format, mode: Mode, neg: bool, o: Outcome, sig: int, exp: int)
    requires Packs(f, mode, neg, o, sig, exp)
    ensures 0 <= sig < 2 * f.Full()
    ensures Packable(f, exp, sig) && Packed(f, sig as real, exp) >= 0.0
    ensures o == RoundUnits(f, mode, neg, Packed(f, sig as real, exp))
  {
    hide RoundUnits, Packed;
  }

  /** The same once sig, which may have lost its leading bit, is shifted back to full length. */
  ghost predicate Renormalises(f: Format, mode: Mode, neg: bool, o: Outcome, sig: int, exp: int) {
    && f.Half() <= sig < 2 * f.Full()
    && if sig < f.Full() then Packs(f, mode, neg, o, 2 * sig, exp - 1) else Packs(f, mode, neg, o, sig, exp)
  }

  lemma RenormalisesIs(f: Format, mode: Mode, neg: bool, o: Outcome, sig: int, exp: int)
    requires Renormalises(f, mode, neg, o, sig, exp)
    ensures f.Half() <= sig < 2 * f.Full()
    ensures if sig < f.Full() then Packs(f, mode, neg, o, 2 * sig, exp - 1) else Packs(f, mode, neg, o, sig, exp)
  {
    hide Packs;
  }

  /** The outcome for an exact magnitude mag of the given sign. */
  ghost function Signed(f: Format, mode: Mode, neg: bool, mag: real): Outcome {
    Round(f, mode, if neg then -mag else mag)
  }

  lemma SignedIs(f: Format, mode: Mode, neg: bool, mag: real)
    ensures Signed(f, mode, neg, mag) == Round(f, mode, if neg then -mag else mag)
  {
    hide Round;
  }

  lemma FinishPacks(f: Format, mode: Mode, neg: bool, x: real, sig: int, exp: int, mag: real)
    requires StandsFor(f, sig, x) && f.Full() <= sig < 2 * f.Full()
    requires mag > 0.0 && mag == Dyadic(x, exp - f.StepBits() + f.UnitExp())
    ensures Packs(f, mode, neg, Signed(f, mode, neg, mag), sig, exp)
  {
    hide Round, RoundUnits, Packed, Packable, Dyadic, StandsFor;
    FinishRound(f, mode, neg, x, sig, exp, mag);
    ShiftedIsPackable(f, exp, sig);
  }

  /** From a significand that may have lost its leading bit to the rounded result. */
  lemma RenormaliseRounds(f: Format, mode: Mode, neg: bool, x: real, sig: int, exp: int, mag: real)
    requires Agree(x / 2.0, sig as real / 2.0) && f.Half() <= sig < 2 * f.Full()
    requires mag > 0.0 && mag == Dyadic(x, exp - f.StepBits() + f.UnitExp())
    ensures Renormalises(f, mode, neg, Signed(f, mode, neg, mag), sig, exp)
  {
    hide Packs, Dyadic, StandsFor, Agree, Signed;
    NearRenormalised(f, sig, x, exp - f.StepBits() + f.UnitExp());
    if sig < f.Full() {
      FinishPacks(f, mode, neg, 2.0 * x, 2 * sig, exp - 1, mag);
    } else {
      FinishPacks(f, mode, neg, x, sig, exp, mag);
    }
  }

  lemma DyadicDivide(x: real, e: int, y: real, d: int)
    requires y != 0.0
    ensures Dyadic(y, d) != 0.0 && Dyadic(x, e) / Dyadic(y, d) == Dyadic(x / y, e - d)
  {
    hide *;
    Pow2Add(e - d, d);
    DyadicIs(x, e);
    DyadicIs(y, d);
    DyadicIs(x / y, e - d);
    DivideCross(x, Pow2(e), y, Pow2(d), Pow2(e - d));
  }

  lemma DivideCross(x: real, p: real, y: real, q: real, r: real)
    requires y != 0.0 && q > 0.0 && p == r * q
    ensures y * q != 0.0 && x * p / (y * q) == x / y * r
  {
    NonzeroProduct(y, q);
    var z := x / y;
    assert x == z * y;
    assert x * p == z * r * (y * q) by {
      assert z * y * (r * q) == z * r * (y * q);
    }
    CancelDivide(z * r, y * q);
  }

  lemma NonzeroProduct(x: real, y: real)
    requires x != 0.0 && y != 0.0
    ensures x * y != 0.0
  {
  }

  /** A quotient digit string stands for n / d as soon as its part below half a step is zero
      exactly when n / d's is. */
  lemma QuotientStands(f: Format, n: nat, d: nat, z: nat)
    requires d > 0
    requires var h := f.Step() / 2; z / h == n / d / h && (z % h == 0 <==> n / d % h == 0 && n % d == 0)
    ensures StandsFor(f, z, n as real / d as real)
  {
    hide Pow2, Exp2;
    FloorDiv(n as real, d);
    IntIsInt(n);
    IntIsInt(z);
    FloorDiv(n as real / d as real, f.Step() / 2);
    FloorDiv(z as real, f.Step() / 2);
  }

  // --- Operands of the specification ---

  lemma ExactSigned(f: Format, mode: Mode, zeroNeg: bool, x: real, neg: bool, mag: real)
    requires x == if neg then -mag else mag
    ensures Exact(f, mode, zeroNeg, x) == if mag == 0.0 then Zero(f, zeroNeg) else Signed(f, mode, neg, mag)
  {
    hide Round, Zero;
  }

  lemma SignedAt(f: Format, mode: Mode, x: real, neg: bool, mag: real)
    requires x == if neg then -mag else mag
    ensures Round(f, mode, x) == Signed(f, mode, neg, mag)
  {
  }

  lemma ValSign(f: Format, a: nat)
    ensures Val(f, a) == if Neg(f, a) then -Magnitude(f, a) else Magnitude(f, a)
    ensures Magnitude(f, a) >= 0.0 && (IsZero(f, a) <==> Magnitude(f, a) == 0.0)
  {
    Magnitudes(f, a);
    hide Magnitude;
  }

  lemma NormalBounds(f: Format, a: nat, exp: int, sig: int)
    requires Normal(f, a, exp, sig)
    ensures f.Frac() <= sig < 2 * f.Frac()
  {
  }

  lemma NormalIs(f: Format, a: nat, exp: int, sig: int)
    requires Normal(f, a, exp, sig)
    ensures sig > 0 && Magnitude(f, a) == Dyadic(sig as real, exp - 1 + f.UnitExp())
  {
    hide Magnitude, Dyadic;
  }

  lemma SignedProduct(x: real, y: real)
    ensures -x * y == -(x * y) && x * -y == -(x * y) && -x * -y == x * y
    ensures x > 0.0 && y > 0.0 ==> x * y > 0.0
  {
  }

  lemma FiniteIsNoNaN(f: Format, a: nat)
    requires IsFinite(f, a)
    ensures !IsNaN(f, a) && !IsInf(f, a)
  {
  }
}
