/** The shared round-and-pack routines and the state they read and write. */
module RoundPack {
  import opened Powers
  import opened Rounding
  import opened Ieee754
  import opened RoundTheory
  import opened Words
  import opened Primitives

  datatype Tininess = BeforeRounding | AfterRounding

  const DETECT_TININESS := BeforeRounding

  /** softfloat_roundingMode and softfloat_exceptionFlags, the flag word as a set. */
  class FloatState {
    var roundingMode: Mode
    var exceptionFlags: set<Flag>

    constructor ()
      ensures roundingMode == NearEven && exceptionFlags == {}
    {
      roundingMode, exceptionFlags := NearEven, {};
    }
  }

  /** (uint16_t) exp */
  function Cast16(exp: int): nat {
    exp % 0x1_0000
  }

  lemma Cast16Is(exp: int)
    requires -0x8000 <= exp < 0x8000
    ensures Cast16(exp) == if exp < 0 then exp + 0x1_0000 else exp
  {
  }

  function PackToF32UI(sign: bool, exp: int, sig: int): int {
    Bit(sign) * 0x8000_0000 + exp * 0x80_0000 + sig
  }

  function PackToF64UI(sign: bool, exp: int, sig: int): int {
    Bit(sign) * 0x8000_0000_0000_0000 + exp * 0x10_0000_0000_0000 + sig
  }

  lemma PackIsWithSign(sign: bool, exp: int, sig: int)
    requires exp >= 0 && sig >= 0
    ensures exp * 0x80_0000 + sig < 0x8000_0000 ==>
              PackToF32UI(sign, exp, sig) == WithSign(F32, sign, exp * F32.Frac() + sig) < 0x1_0000_0000
    ensures exp * 0x10_0000_0000_0000 + sig < 0x8000_0000_0000_0000 ==>
              PackToF64UI(sign, exp, sig) == WithSign(F64, sign, exp * F64.Frac() + sig) < 0x1_0000_0000_0000_0000
  {
  }

  lemma PackTop(sign: bool, below: bool)
    ensures PackToF32UI(sign, 0xFF, 0) - Bit(below)
        == WithSign(F32, sign, F32.Top() * F32.Frac() - Bit(below)) < 0x1_0000_0000
    ensures PackToF64UI(sign, 0x7FF, 0) - Bit(below)
        == WithSign(F64, sign, F64.Top() * F64.Frac() - Bit(below)) < 0x1_0000_0000_0000_0000
  {
  }

  // --- Rounding by adding an increment and truncating ---

  /** roundIncrement: half a step, nothing, or one less than a step. */
  function Increment(f: Format, mode: Mode, neg: bool): (r: nat)
    ensures r < f.Step()
    ensures r == 0 <==> !OverflowsToInfinity(mode, neg)
  {
    if mode == NearEven || mode == NearMaxMag then f.Step() / 2
    else if mode == MinMag || mode == (if neg then Max else Min) then 0
    else f.Step() - 1
  }

  function Truncate(f: Format, mode: Mode, neg: bool, sig: nat): nat {
    var r := (sig + Increment(f, mode, neg)) / f.Step();
    if sig % f.Step() == f.Step() / 2 && mode == NearEven then r - r % 2 else r
  }

  lemma TruncateIs(f: Format, mode: Mode, neg: bool, sig: nat)
    ensures Truncate(f, mode, neg, sig)
         == (var r := (sig + Increment(f, mode, neg)) / f.Step();
             if sig % f.Step() == f.Step() / 2 && mode == NearEven then r - r % 2 else r)
  {
  }

  /** A normalised significand truncates to a full significand, or carries out of it. */
  lemma TruncateBounds(f: Format, mode: Mode, neg: bool, sig: nat)
    ensures var full := f.Full();
            && (full <= sig < 2 * full ==>
                && f.Frac() <= Truncate(f, mode, neg, sig) <= 2 * f.Frac()
                && (Truncate(f, mode, neg, sig) == 2 * f.Frac() <==> sig + Increment(f, mode, neg) >= 2 * full))
            && (sig <= full ==> 0 <= Truncate(f, mode, neg, sig) <= f.Frac())
  {
    hide OverflowsToInfinity, Increment, Truncate;
    TruncateIs(f, mode, neg, sig);
    var inc := Increment(f, mode, neg);
    match f {
      case F32 => QuotientBounds32(sig + inc);
      case F64 => QuotientBounds64(sig + inc);
    }
  }

  lemma QuotientBounds32(s: nat)
    ensures s < 0x4000_0080 ==> s / 0x80 <= 0x80_0000
    ensures s >= 0x4000_0000 ==> s / 0x80 >= 0x80_0000
    ensures s >= 0x8000_0000 <==> s / 0x80 >= 0x100_0000
    ensures s < 0x8000_0080 ==> s / 0x80 <= 0x100_0000
  {
  }

  lemma QuotientBounds64(s: nat)
    ensures s < 0x4000_0000_0000_0400 ==> s / 0x400 <= 0x10_0000_0000_0000
    ensures s >= 0x4000_0000_0000_0000 ==> s / 0x400 >= 0x10_0000_0000_0000
    ensures s >= 0x8000_0000_0000_0000 <==> s / 0x400 >= 0x20_0000_0000_0000
    ensures s < 0x8000_0000_0000_0400 ==> s / 0x400 <= 0x20_0000_0000_0000
  {
  }

  lemma TruncateRounds(f: Format, mode: Mode, neg: bool, sig: nat)
    ensures Truncate(f, mode, neg, sig) == RoundInt(mode, neg, sig as real / f.Step() as real)
    ensures IsInt(sig as real / f.Step() as real) <==> sig % f.Step() == 0
  {
    hide Truncate, RoundInt;
    FloorDiv(sig as real, f.Step());
    StepParts(f, sig);
    TruncateParts(f, mode, neg, sig);
    RoundIntParts(f, mode, neg, sig as real / f.Step() as real, sig % f.Step());
  }

  lemma StepParts(f: Format, sig: nat)
    ensures sig as real / f.Step() as real - (sig / f.Step()) as real == (sig % f.Step()) as real / f.Step() as real
  {
    match f case F32 => case F64 =>
  }

  /** Whether a remainder of r steps out of f.Step() rounds the quotient q up. */
  predicate RoundsUp(f: Format, mode: Mode, neg: bool, q: int, r: nat) {
    match mode
    case NearEven => 2 * r > f.Step() || (2 * r == f.Step() && q % 2 == 1)
    case NearMaxMag => 2 * r >= f.Step()
    case MinMag => false
    case Min => r > 0 && neg
    case Max => r > 0 && !neg
  }

  lemma TruncateParts(f: Format, mode: Mode, neg: bool, sig: nat)
    ensures Truncate(f, mode, neg, sig)
         == sig / f.Step() + Bit(RoundsUp(f, mode, neg, sig / f.Step(), sig % f.Step()))
  {
    hide *;
    FormatConstants();
    TruncateIs(f, mode, neg, sig);
    var q, r, inc := sig / f.Step(), sig % f.Step(), Increment(f, mode, neg);
    RoundsUpIs(f, mode, neg, q, r);
    if f == F32 {
      Carry32(sig, inc);
    } else {
      Carry64(sig, inc);
    }
    ParityStep(q, Bit(r + inc >= f.Step()), r == f.Step() / 2 && mode == NearEven, RoundsUp(f, mode, neg, q, r));
  }

  lemma ParityStep(q: nat, carry: nat, tie: bool, up: bool)
    requires if tie then carry == 1 && (up <==> q % 2 == 1) else carry == Bit(up)
    ensures (if tie then q + carry - (q + carry) % 2 else q + carry) == q + Bit(up)
  {
  }

  lemma RoundsUpIs(f: Format, mode: Mode, neg: bool, q: int, r: nat)
    requires r < f.Step()
    ensures var carry := r + Increment(f, mode, neg) >= f.Step();
            if r == f.Step() / 2 && mode == NearEven
            then Bit(carry) == 1 && (RoundsUp(f, mode, neg, q, r) <==> q % 2 == 1)
            else Bit(carry) == Bit(RoundsUp(f, mode, neg, q, r))
  {
    match f case F32 => case F64 =>
  }

  lemma Carry32(sig: nat, inc: nat)
    requires inc < 0x80
    ensures (sig + inc) / 0x80 == sig / 0x80 + Bit(sig % 0x80 + inc >= 0x80)
  {
  }

  lemma Carry64(sig: nat, inc: nat)
    requires inc < 0x400
    ensures (sig + inc) / 0x400 == sig / 0x400 + Bit(sig % 0x400 + inc >= 0x400)
  {
  }

  lemma RoundIntParts(f: Format, mode: Mode, neg: bool, y: real, r: nat)
    requires r < f.Step() && y - y.Floor as real == r as real / f.Step() as real
    ensures RoundInt(mode, neg, y) == y.Floor + Bit(RoundsUp(f, mode, neg, y.Floor, r))
  {
    match f case F32 => case F64 =>
  }

  // --- What packing a significand yields ---

  ghost predicate Packable(f: Format, exp: int, sig: int) {
    && 0 <= sig < 2 * f.Full()
    && (f.Full() <= sig || exp < 0 || (exp == 0 && sig % f.Step() == 0))
  }

  lemma StepBounds(f: Format, sig: nat)
    ensures sig < 2 * f.Full() <==> sig as real / f.Step() as real < 2.0 * f.Frac() as real
    ensures sig >= f.Full() <==> sig as real / f.Step() as real >= f.Frac() as real
  {
    match f case F32 => case F64 =>
  }

  lemma PackNormal(f: Format, mode: Mode, neg: bool, exp: nat, sig: nat)
    requires Packable(f, exp, sig)
    ensures var code := exp * f.Frac() + Truncate(f, mode, neg, sig);
            && RoundCode(f, mode, neg, Packed(f, sig as real, exp)) == code
            && (Units(f, code) as real == Packed(f, sig as real, exp) <==> sig % f.Step() == 0)
            && Packed(f, sig as real, exp) >= 0.0
    ensures sig % f.Step() != 0 ==> Packed(f, sig as real, exp) >= f.Frac() as real
  {
    hide Units, RoundCode, Packed, Truncate, RoundInt, IsInt;
    StepBounds(f, sig);
    TruncateRounds(f, mode, neg, sig);
    RoundPackedNormal(f, mode, neg, sig as real, exp);
  }

  lemma JamStands(f: Format, sig: nat, exp: int)
    requires exp < 0
    ensures Agree(2.0 * Packed(f, sig as real, exp), 2.0 * (Jam(sig, -exp) as real / f.Step() as real))
  {
    hide *;
    var d := Exp2(-exp) as real;
    var j := Jam(sig, -exp);
    PackedHalfSteps(f, sig as real, exp);
    JamAgrees(sig, -exp);
    AgreeCoarser(sig as real / d / 2.0, j as real / 2.0, f.Step() / 4);
    Quarter(f, sig as real / d);
    Quarter(f, j as real);
    HalfStep(f, j as real);
    CrossDivide(sig as real, d, (f.Step() / 2) as real);
  }

  lemma Quarter(f: Format, y: real)
    ensures y / 2.0 / (f.Step() / 4) as real == y / (f.Step() / 2) as real
  {
    var k := f.Step() / 4;
    assert f.Step() / 2 == 2 * k by { match f case F32 => case F64 => }
    assert y / 2.0 / k as real * (2.0 * k as real) == y;
    assert y / (2.0 * k as real) * (2.0 * k as real) == y;
    CancelLess(y / 2.0 / k as real, y / (2.0 * k as real), 2.0 * k as real);
  }

  lemma CrossDivide(x: real, d: real, s: real)
    requires d > 0.0 && s > 0.0
    ensures x / s / d == x / d / s
  {
    assert x / s / d * (s * d) == x;
    assert x / d / s * (s * d) == x;
    CancelLess(x / s / d, x / d / s, s * d);
  }

  lemma PackSmall(f: Format, mode: Mode, neg: bool, exp: int, sig: nat)
    requires Packable(f, exp, sig) && exp < 0
    ensures var x, j := Packed(f, sig as real, exp), Jam(sig, -exp);
            && RoundCode(f, mode, neg, x) == Truncate(f, mode, neg, j)
            && (Units(f, RoundCode(f, mode, neg, x)) as real == x <==> j % f.Step() == 0)
            && 0.0 <= x < f.Frac() as real
  {
    hide *;
    var x, j := Packed(f, sig as real, exp), Jam(sig, -exp);
    PackableIs(f, exp, sig);
    StepBounds(f, sig);
    RoundPackedSmall(f, mode, neg, sig as real, exp);
    JamStands(f, sig, exp);
    AgreeRoundsAlike(mode, neg, x, j as real / f.Step() as real);
    TruncateRounds(f, mode, neg, j);
    RoundIntBounds(mode, neg, x);
    RoundIntBounds(mode, neg, j as real / f.Step() as real);
  }

  /** Whether the guard of the overflow branch holds. */
  predicate Overflows(f: Format, mode: Mode, neg: bool, exp: int, sig: nat) {
    exp > f.Top() - 2 || (exp == f.Top() - 2 && sig + Increment(f, mode, neg) >= 2 * f.Full())
  }

  lemma OverflowOutcome(f: Format, mode: Mode, neg: bool, exp: int, sig: nat)
    requires Packable(f, exp, sig) && Overflows(f, mode, neg, exp, sig)
    ensures RoundUnits(f, mode, neg, Packed(f, sig as real, exp))
         == Outcome(WithSign(f, neg, f.Top() * f.Frac() - Bit(Increment(f, mode, neg) == 0)), {Overflow, Inexact})
  {
    hide Units, RoundCode, Packed, Truncate, Increment, OverflowsToInfinity;
    PackNormal(f, mode, neg, exp, sig);
    TruncateBounds(f, mode, neg, sig);
    match f case F32 => case F64 =>
  }

  lemma InRangeOutcome(f: Format, mode: Mode, neg: bool, exp: int, sig: nat)
    requires Packable(f, exp, sig) && exp >= 0 && !Overflows(f, mode, neg, exp, sig)
    ensures RoundUnits(f, mode, neg, Packed(f, sig as real, exp))
         == Outcome(WithSign(f, neg, exp * f.Frac() + Truncate(f, mode, neg, sig)),
                    if sig % f.Step() == 0 then {} else {Inexact})
    ensures Truncate(f, mode, neg, sig) == 0 ==> exp == 0
    ensures exp * f.Frac() + Truncate(f, mode, neg, sig) < f.Top() * f.Frac()
  {
    hide Units, RoundCode, Packed, Truncate, Increment, OverflowsToInfinity;
    PackNormal(f, mode, neg, exp, sig);
    TruncateBounds(f, mode, neg, sig);
    match f case F32 => case F64 =>
  }

  lemma SmallOutcome(f: Format, mode: Mode, neg: bool, exp: int, sig: nat)
    requires Packable(f, exp, sig) && exp < 0
    ensures RoundUnits(f, mode, neg, Packed(f, sig as real, exp))
         == Outcome(WithSign(f, neg, Truncate(f, mode, neg, Jam(sig, -exp))),
                    if Jam(sig, -exp) % f.Step() == 0 then {} else {Inexact, Underflow})
  {
    hide Units, RoundCode, Packed, Truncate, Jam, Packable;
    PackSmall(f, mode, neg, exp, sig);
    SmallTruncate(f, mode, neg, exp, sig);
  }

  lemma PackableIs(f: Format, exp: int, sig: int)
    requires Packable(f, exp, sig)
    ensures 0 <= sig < 2 * f.Full()
  {
  }

  lemma OverflowsIs(f: Format, mode: Mode, neg: bool, exp: int, sig: nat)
    ensures Overflows(f, mode, neg, exp, sig)
       <==> exp > f.Top() - 2 || (exp == f.Top() - 2 && sig + Increment(f, mode, neg) >= 2 * f.Full())
  {
    hide Increment;
  }

  lemma SmallTruncate(f: Format, mode: Mode, neg: bool, exp: int, sig: nat)
    requires Packable(f, exp, sig) && exp < 0
    ensures 0 <= Jam(sig, -exp) <= f.Full()
    ensures Truncate(f, mode, neg, Jam(sig, -exp)) <= f.Frac() < f.Top() * f.Frac()
  {
    JamHalves(sig, -exp);
    match f case F32 => case F64 =>
  }

  lemma JamHalves(a: nat, count: nat)
    requires count > 0
    ensures 2 * Jam(a, count) <= a + 2
  {
    hide *;
    Exp2Mono(1, count);
    SmallExp2();
    var q := a / Exp2(count);
    Quotients(a, Exp2(count), q);
    ProductMono(2, Exp2(count), q);
    JamIs(a, count, q);
  }

  lemma Quotients(a: nat, p: int, q: int)
    requires p > 0 && q == a / p
    ensures q >= 0 && q * p <= a
  {
    assert a == q * p + a % p;
  }

  lemma ZeroOutcome(f: Format, mode: Mode, neg: bool, exp: int)
    ensures RoundUnits(f, mode, neg, Packed(f, 0.0, exp)) == Outcome(WithSign(f, neg, 0), {})
  {
    hide Pow2;
    assert Packed(f, 0.0, exp) == 0.0;
    Pow2Zero();
  }

  /** What comes of a zero significand with an exponent past the top. */
  function OverflowedZero(f: Format, mode: Mode, neg: bool): Outcome {
    Outcome(WithSign(f, neg, f.Top() * f.Frac() - Bit(Increment(f, mode, neg) == 0)), {Overflow, Inexact})
  }

  lemma ZeroPacks(f: Format, mode: Mode, neg: bool, exp: int, sig: nat)
    requires sig == 0 || Packable(f, exp, sig)
    ensures sig < 2 * f.Full() && Truncate(f, mode, neg, 0) == 0
    ensures sig == 0 ==> RoundUnits(f, mode, neg, Packed(f, sig as real, exp)) == Outcome(WithSign(f, neg, 0), {})
    ensures sig == 0 ==> (Packable(f, exp, sig) <==> exp <= 0)
    ensures OverflowedZero(f, mode, neg)
         == Outcome(WithSign(f, neg, f.Top() * f.Frac() - Bit(Increment(f, mode, neg) == 0)), {Overflow, Inexact})
  {
    hide RoundUnits, Packed, WithSign, OverflowsToInfinity;
    ZeroOutcome(f, mode, neg, exp);
    match f case F32 => case F64 =>
  }

  /** The shared tail: round off the low bits and assemble the fields. */
  method RoundAndPackF32(st: FloatState, sign: bool, exp: int, sig0: u32) returns (z: u32)
    requires 0 <= exp && exp * F32.Frac() + Truncate(F32, st.roundingMode, sign, sig0) < F32.SignBit()
    modifies st`exceptionFlags
    ensures var m := Truncate(F32, st.roundingMode, sign, sig0);
            z == WithSign(F32, sign, if m == 0 then 0 else exp * F32.Frac() + m)
    ensures st.exceptionFlags == old(st.exceptionFlags) + if sig0 % 0x80 == 0 then {} else {Inexact}
  {
    hide Increment, OverflowsToInfinity, Truncate, WithSign, PackToF32UI;
    var roundNearestEven := st.roundingMode == NearEven;
    var roundIncrement := Increment(F32, st.roundingMode, sign);
    var roundBits := sig0 % 0x80;
    if roundBits != 0 {
      st.exceptionFlags := st.exceptionFlags + {Inexact};
    }
    TruncateIs(F32, st.roundingMode, sign, sig0);
    TruncateBounds(F32, st.roundingMode, sign, sig0);
    var sig := (sig0 + roundIncrement) / 0x80;
    if roundBits == 0x40 && roundNearestEven {
      sig := sig - sig % 2;
    }
    PackIsWithSign(sign, if sig != 0 then exp else 0, sig);
    z := PackToF32UI(sign, if sig != 0 then exp else 0, sig);
  }

  method RoundPackToF32(st: FloatState, sign: bool, exp0: int, sig0: u32) returns (z: u32)
    requires -0x8000 <= exp0 < 0x8000 && (sig0 == 0 || Packable(F32, exp0, sig0))
    modifies st`exceptionFlags
    ensures Packable(F32, exp0, sig0) || exp0 <= 0xFD ==>
      var o := RoundUnits(F32, st.roundingMode, sign, Packed(F32, sig0 as real, exp0));
      z == o.bits && st.exceptionFlags == old(st.exceptionFlags) + o.flags
    ensures sig0 == 0 && exp0 > 0xFD ==>
      var o := OverflowedZero(F32, st.roundingMode, sign);
      z == o.bits && st.exceptionFlags == old(st.exceptionFlags) + o.flags
  {
    hide RoundUnits, Packed, Jam, Shift32RightJam, Shift64RightJam, Increment, OverflowsToInfinity, Truncate;
    hide WithSign, PackToF32UI, PackToF64UI, Packable, Overflows, Cast16;
    ZeroPacks(F32, st.roundingMode, sign, exp0, sig0);
    OverflowsIs(F32, st.roundingMode, sign, exp0, sig0);
    var mode := st.roundingMode;
    var exp, sig: int := exp0, sig0;
    var roundIncrement := Increment(F32, mode, sign);
    Cast16Is(exp);
    if 0xFD <= Cast16(exp) {
      if exp < 0 {
        var isTiny := DETECT_TININESS == BeforeRounding || exp < -1 || sig + roundIncrement < 0x8000_0000;
        Shift32RightJamIsJam(sig0, -exp);
        SmallOutcome(F32, mode, sign, exp0, sig0);
        SmallTruncate(F32, mode, sign, exp0, sig0);
        sig := Shift32RightJam(sig, -exp);
        exp := 0;
        var roundBits := sig % 0x80;
        if isTiny && roundBits != 0 {
          st.exceptionFlags := st.exceptionFlags + {Underflow};
        }
      } else if 0xFD < exp || 0x8000_0000 <= sig + roundIncrement {
        if sig0 != 0 {
          OverflowOutcome(F32, mode, sign, exp0, sig0);
        }
        st.exceptionFlags := st.exceptionFlags + {Overflow, Inexact};
        PackTop(sign, roundIncrement == 0);
        z := PackToF32UI(sign, 0xFF, 0) - Bit(roundIncrement == 0);
        return;
      }
    }
    if exp0 >= 0 && sig0 != 0 {
      InRangeOutcome(F32, mode, sign, exp0, sig0);
    }
    z := RoundAndPackF32(st, sign, exp, sig);
  }

  /** The shared tail: round off the low bits and assemble the fields. */
  method RoundAndPackF64(st: FloatState, sign: bool, exp: int, sig0: u64) returns (z: u64)
    requires 0 <= exp && exp * F64.Frac() + Truncate(F64, st.roundingMode, sign, sig0) < F64.SignBit()
    modifies st`exceptionFlags
    ensures var m := Truncate(F64, st.roundingMode, sign, sig0);
            z == WithSign(F64, sign, if m == 0 then 0 else exp * F64.Frac() + m)
    ensures st.exceptionFlags == old(st.exceptionFlags) + if sig0 % 0x400 == 0 then {} else {Inexact}
  {
    hide Increment, OverflowsToInfinity, Truncate, WithSign, PackToF64UI;
    var roundNearestEven := st.roundingMode == NearEven;
    var roundIncrement := Increment(F64, st.roundingMode, sign);
    var roundBits := sig0 % 0x400;
    if roundBits != 0 {
      st.exceptionFlags := st.exceptionFlags + {Inexact};
    }
    TruncateIs(F64, st.roundingMode, sign, sig0);
    TruncateBounds(F64, st.roundingMode, sign, sig0);
    var sig := (sig0 + roundIncrement) / 0x400;
    if roundBits == 0x200 && roundNearestEven {
      sig := sig - sig % 2;
    }
    PackIsWithSign(sign, if sig != 0 then exp else 0, sig);
    z := PackToF64UI(sign, if sig != 0 then exp else 0, sig);
  }

  method RoundPackToF64(st: FloatState, sign: bool, exp0: int, sig0: u64) returns (z: u64)
    requires -0x8000 <= exp0 < 0x8000 && (sig0 == 0 || Packable(F64, exp0, sig0))
    modifies st`exceptionFlags
    ensures Packable(F64, exp0, sig0) || exp0 <= 0x7FD ==>
      var o := RoundUnits(F64, st.roundingMode, sign, Packed(F64, sig0 as real, exp0));
      z == o.bits && st.exceptionFlags == old(st.exceptionFlags) + o.flags
    ensures sig0 == 0 && exp0 > 0x7FD ==>
      var o := OverflowedZero(F64, st.roundingMode, sign);
      z == o.bits && st.exceptionFlags == old(st.exceptionFlags) + o.flags
  {
    hide RoundUnits, Packed, Jam, Shift32RightJam, Shift64RightJam, Increment, OverflowsToInfinity, Truncate;
    hide WithSign, PackToF32UI, PackToF64UI, Packable, Overflows, Cast16;
    ZeroPacks(F64, st.roundingMode, sign, exp0, sig0);
    OverflowsIs(F64, st.roundingMode, sign, exp0, sig0);
    var mode := st.roundingMode;
    var exp, sig: int := exp0, sig0;
    var roundIncrement := Increment(F64, mode, sign);
    Cast16Is(exp);
    if 0x7FD <= Cast16(exp) {
      if exp < 0 {
        var isTiny := DETECT_TININESS == BeforeRounding || exp < -1 || sig + roundIncrement < 0x8000_0000_0000_0000;
        Shift64RightJamIsJam(sig0, -exp);
        SmallOutcome(F64, mode, sign, exp0, sig0);
        SmallTruncate(F64, mode, sign, exp0, sig0);
        sig := Shift64RightJam(sig, -exp);
        exp := 0;
        var roundBits := sig % 0x400;
        if isTiny && roundBits != 0 {
          st.exceptionFlags := st.exceptionFlags + {Underflow};
        }
      } else if 0x7FD < exp || 0x8000_0000_0000_0000 <= sig + roundIncrement {
        if sig0 != 0 {
          OverflowOutcome(F64, mode, sign, exp0, sig0);
        }
        st.exceptionFlags := st.exceptionFlags + {Overflow, Inexact};
        PackTop(sign, roundIncrement == 0);
        z := PackToF64UI(sign, 0x7FF, 0) - Bit(roundIncrement == 0);
        return;
      }
    }
    if exp0 >= 0 && sig0 != 0 {
      InRangeOutcome(F64, mode, sign, exp0, sig0);
    }
    z := RoundAndPackF64(st, sign, exp, sig);
  }

  // --- Normalising first ---

  lemma ExactTruncate(f: Format, mode: Mode, neg: bool, m: nat)
    ensures Truncate(f, mode, neg, m * f.Step()) == m && (m * f.Step()) % f.Step() == 0
  {
    hide *;
    TruncateParts(f, mode, neg, m * f.Step());
    Euclid(m * f.Step(), f.Step(), m, 0);
    NothingToRound(f, mode, neg, m);
  }

  lemma NothingToRound(f: Format, mode: Mode, neg: bool, q: int)
    ensures Bit(RoundsUp(f, mode, neg, q, 0)) == 0
  {
  }

  /** A significand with at least Step() of room below needs no rounding. */
  lemma ExactPack(f: Format, mode: Mode, neg: bool, exp: int, sig: nat, k: nat)
    requires f.Frac() <= sig * Exp2(k) < 2 * f.Frac()
    requires 0 <= exp - k - f.StepBits() < f.Top() - 2
    ensures RoundUnits(f, mode, neg, Packed(f, sig as real, exp))
         == Outcome(WithSign(f, neg, (exp - k - f.StepBits()) * f.Frac() + sig * Exp2(k)), {})
  {
    hide *;
    var m := sig * Exp2(k);
    ShiftToStep(f, exp, sig, k);
    ExactTruncate(f, mode, neg, m);
    NormalIsPackable(f, mode, neg, exp - k - f.StepBits(), m);
    InRangeOutcome(f, mode, neg, exp - k - f.StepBits(), m * f.Step());
  }

  lemma ShiftToStep(f: Format, exp: int, sig: nat, k: nat)
    ensures Packed(f, (sig * Exp2(k) * f.Step()) as real, exp - k - f.StepBits()) == Packed(f, sig as real, exp)
  {
    hide *;
    var shift := k + f.StepBits();
    Exp2Add(k, f.StepBits());
    StepIsExp2(f);
    Associate(sig, Exp2(k), f.Step());
    ToReal(sig, Exp2(shift));
    PackedShift(f, sig as real, (sig * Exp2(k) * f.Step()) as real, exp, shift);
  }

  lemma StepIsExp2(f: Format)
    ensures Exp2(f.StepBits()) == f.Step()
  {
    Exp2Constants();
  }

  lemma NormalIsPackable(f: Format, mode: Mode, neg: bool, exp: int, m: nat)
    requires f.Frac() <= m < 2 * f.Frac() && 0 <= exp < f.Top() - 2
    ensures Packable(f, exp, m * f.Step()) && !Overflows(f, mode, neg, exp, m * f.Step())
  {
    hide Increment;
    match f case F32 => case F64 =>
  }

  lemma ShiftedIsPackable(f: Format, exp: int, sig: int)
    requires f.Full() <= sig < 2 * f.Full()
    ensures Packable(f, exp, sig)
  {
  }

  /** The largest exponent at which normalising a zero significand leaves it below the overflow guard. */
  function ZeroLimit(f: Format): int {
    f.Top() - 2 + (match f case F32 => 31 case F64 => 63)
  }

  /** What normalising, rounding and packing answers, for every significand. */
  ghost function NormPacked(f: Format, mode: Mode, neg: bool, exp: int, sig: nat): Outcome {
    if sig == 0 && exp > ZeroLimit(f) then OverflowedZero(f, mode, neg)
        else RoundUnits(f, mode, neg, Packed(f, sig as real, exp))
  }

  lemma NormPackedIs(f: Format, mode: Mode, neg: bool, exp: int, sig: nat)
    ensures NormPacked(f, mode, neg, exp, sig) ==
      if sig == 0 && exp > ZeroLimit(f) then OverflowedZero(f, mode, neg)
          else RoundUnits(f, mode, neg, Packed(f, sig as real, exp))
    ensures ZeroLimit(F32) == 0xFD + 31 && ZeroLimit(F64) == 0x7FD + 63
  {
    hide RoundUnits, Packed, OverflowedZero;
  }

  /** The answer is the value rounded for every significand but zero, and for zero up to a limit. */
  lemma NormPackedRounds(f: Format, mode: Mode, neg: bool, exp: int, sig: nat)
    ensures NormPacked(f, mode, neg, exp, sig) == RoundUnits(f, mode, neg, Packed(f, sig as real, exp))
      <==> (sig == 0 ==> exp <= ZeroLimit(f))
  {
    hide RoundUnits, Packed, ZeroLimit, WithSign;
    ZeroOutcome(f, mode, neg, exp);
  }

  method NormRoundPackToF32(st: FloatState, sign: bool, exp0: int, sig: u32) returns (z: u32)
    requires sig < 2 * F32.Full() && -0x7F00 <= exp0 < 0x8000
    modifies st`exceptionFlags
    ensures var o := NormPacked(F32, st.roundingMode, sign, exp0, sig);
            z == o.bits && st.exceptionFlags == old(st.exceptionFlags) + o.flags
  {
    hide *;
    FormatConstants();
    var clz := CountLeadingZeros32(sig);
    NormShift32(sig, clz);
    NormPackedIs(F32, st.roundingMode, sign, exp0, sig);
    var shiftCount := clz - 1;
    var exp := exp0 - shiftCount;
    Cast16Is(exp);
    if 7 <= shiftCount && Cast16(exp) < 0xFD {
      ShortPack32(st.roundingMode, sign, exp0, sig, shiftCount);
      z := PackToF32UI(sign, if sig != 0 then exp else 0, sig * Exp2(shiftCount - 7));
    } else {
      LongPack(F32, exp0, sig, shiftCount);
      z := RoundPackToF32(st, sign, exp, sig * Exp2(shiftCount));
    }
  }

  lemma ShortPack32(mode: Mode, neg: bool, exp0: int, sig: u32, shiftCount: nat)
    requires shiftCount >= 7 && 0 <= exp0 - shiftCount < 0xFD
    requires sig > 0 ==> F32.Frac() <= sig * Exp2(shiftCount - 7) < 2 * F32.Frac()
    ensures var z := PackToF32UI(neg, if sig != 0 then exp0 - shiftCount else 0, sig * Exp2(shiftCount - 7));
            0 <= z < 0x1_0000_0000 && RoundUnits(F32, mode, neg, Packed(F32, sig as real, exp0)) == Outcome(z, {})
  {
    hide RoundUnits, Packed, WithSign, PackToF32UI, Exp2;
    var m := sig * Exp2(shiftCount - 7);
    if sig == 0 {
      ZeroOutcome(F32, mode, neg, exp0);
      PackIsWithSign(neg, 0, 0);
    } else {
      ExactPack(F32, mode, neg, exp0, sig, shiftCount - 7);
      PackIsWithSign(neg, exp0 - shiftCount, m);
    }
  }

  lemma NormShift32(sig: u32, clz: nat)
    requires sig < 2 * F32.Full() && LeadingZeros(sig, 32, clz)
    ensures sig == 0 ==> clz == 32
    ensures sig > 0 ==> 1 <= clz < 32 && F32.Full() <= sig * Exp2(clz - 1) < 2 * F32.Full()
    ensures sig > 0 && clz > 7 ==> F32.Frac() <= sig * Exp2(clz - 1 - 7) < 2 * F32.Frac()
  {
    hide Exp2, LeadingZeros;
    Exp2Constants();
    if sig == 0 {
      LeadingZerosOfZero(32, clz);
    } else {
      LeadingZerosBound(sig, 32, clz);
      LeadingZerosIs(sig, 32, clz);
      if clz == 0 {
        Exp2Zero();
      } else {
        Exp2Double(clz - 1);
        Doubling(sig, Exp2(clz - 1));
        if clz > 7 {
          Exp2Add(clz - 1 - 7, 7);
          Associate(sig, Exp2(clz - 1 - 7), Exp2(7));
        }
      }
    }
  }

  method NormRoundPackToF64(st: FloatState, sign: bool, exp0: int, sig: u64) returns (z: u64)
    requires sig < 2 * F64.Full() && -0x7F00 <= exp0 < 0x8000
    modifies st`exceptionFlags
    ensures var o := NormPacked(F64, st.roundingMode, sign, exp0, sig);
            z == o.bits && st.exceptionFlags == old(st.exceptionFlags) + o.flags
  {
    hide *;
    FormatConstants();
    var clz := CountLeadingZeros64(sig);
    NormShift64(sig, clz);
    NormPackedIs(F64, st.roundingMode, sign, exp0, sig);
    var shiftCount := clz - 1;
    var exp := exp0 - shiftCount;
    Cast16Is(exp);
    if 10 <= shiftCount && Cast16(exp) < 0x7FD {
      ShortPack64(st.roundingMode, sign, exp0, sig, shiftCount);
      z := PackToF64UI(sign, if sig != 0 then exp else 0, sig * Exp2(shiftCount - 10));
    } else {
      LongPack(F64, exp0, sig, shiftCount);
      z := RoundPackToF64(st, sign, exp, sig * Exp2(shiftCount));
    }
  }

  lemma ShortPack64(mode: Mode, neg: bool, exp0: int, sig: u64, shiftCount: nat)
    requires shiftCount >= 10 && 0 <= exp0 - shiftCount < 0x7FD
    requires sig > 0 ==> F64.Frac() <= sig * Exp2(shiftCount - 10) < 2 * F64.Frac()
    ensures var z := PackToF64UI(neg, if sig != 0 then exp0 - shiftCount else 0, sig * Exp2(shiftCount - 10));
            0 <= z < 0x1_0000_0000_0000_0000 && RoundUnits(F64, mode, neg, Packed(F64, sig as real, exp0))
                == Outcome(z, {})
  {
    hide RoundUnits, Packed, WithSign, PackToF64UI, Exp2;
    var m := sig * Exp2(shiftCount - 10);
    if sig == 0 {
      ZeroOutcome(F64, mode, neg, exp0);
      PackIsWithSign(neg, 0, 0);
    } else {
      ExactPack(F64, mode, neg, exp0, sig, shiftCount - 10);
      PackIsWithSign(neg, exp0 - shiftCount, m);
    }
  }

  lemma NormShift64(sig: u64, clz: nat)
    requires sig < 2 * F64.Full() && LeadingZeros(sig, 64, clz)
    ensures sig == 0 ==> clz == 64
    ensures sig > 0 ==> 1 <= clz < 64 && F64.Full() <= sig * Exp2(clz - 1) < 2 * F64.Full()
    ensures sig > 0 && clz > 10 ==> F64.Frac() <= sig * Exp2(clz - 1 - 10) < 2 * F64.Frac()
  {
    hide Exp2, LeadingZeros;
    Exp2Constants();
    if sig == 0 {
      LeadingZerosOfZero(64, clz);
    } else {
      LeadingZerosBound(sig, 64, clz);
      LeadingZerosIs(sig, 64, clz);
      if clz == 0 {
        Exp2Zero();
      } else {
        Exp2Double(clz - 1);
        Doubling(sig, Exp2(clz - 1));
        if clz > 10 {
          Exp2Add(clz - 1 - 10, 10);
          Associate(sig, Exp2(clz - 1 - 10), Exp2(10));
        }
      }
    }
  }

  lemma LongPack(f: Format, exp0: int, sig: nat, shiftCount: nat)
    requires sig > 0 ==> f.Full() <= sig * Exp2(shiftCount) < 2 * f.Full()
    ensures if sig == 0 then sig * Exp2(shiftCount) == 0 else Packable(f, exp0 - shiftCount, sig * Exp2(shiftCount))
    ensures Packed(f, (sig * Exp2(shiftCount)) as real, exp0 - shiftCount) == Packed(f, sig as real, exp0)
  {
    hide *;
    ToReal(sig, Exp2(shiftCount));
    PackedShift(f, sig as real, (sig * Exp2(shiftCount)) as real, exp0, shiftCount);
    if sig != 0 {
      ShiftedIsPackable(f, exp0 - shiftCount, sig * Exp2(shiftCount));
    }
  }
}
