/** Binary floating-point formats and the result IEEE 754-2008 asks for, stated over exact reals. */
module Ieee754 {
  import opened Powers
  import opened Rounding

  datatype Flag = Inexact | Underflow | Overflow | Infinite | Invalid

  datatype Format = F32 | F64 {
    /** Size of the fraction field: 2^23 or 2^52. */
    function Frac(): (r: nat)
      ensures r >= 0x80_0000 && r % 2 == 0
    {
      match this case F32 => 0x80_0000 case F64 => 0x10_0000_0000_0000
    }

    /** The all-ones exponent field. */
    function Top(): nat {
      match this case F32 => 0xFF case F64 => 0x7FF
    }

    /** One unit in the last place of a significand handed to the round-and-pack routine. */
    function Step(): (r: nat)
      ensures r >= 128 && r % 2 == 0
    {
      match this case F32 => 0x80 case F64 => 0x400
    }

    /** A significand with only its leading bit, in steps: 2^30 or 2^62. */
    function Full(): (r: nat)
      ensures r == Frac() * Step()
    {
      match this case F32 => 0x4000_0000 case F64 => 0x4000_0000_0000_0000
    }

    /** Step() is 2^StepBits(). */
    function StepBits(): nat {
      match this case F32 => 7 case F64 => 10
    }

    function Half(): (r: nat)
      ensures 2 * r == Full() && r % 2 == 0 && r > 0
    {
      match this case F32 => 0x2000_0000 case F64 => 0x2000_0000_0000_0000
    }

    function SignBit(): nat {
      match this case F32 => 0x8000_0000 case F64 => 0x8000_0000_0000_0000
    }

    /** The smallest positive value is 2^UnitExp(). */
    function UnitExp(): int {
      match this case F32 => -149 case F64 => -1074
    }

    /** A default NaN: every bit set. */
    function DefaultNaN(): nat {
      2 * SignBit() - 1
    }
  }

  lemma FormatConstants()
    ensures F32.Frac() == 0x80_0000 && F32.Step() == 0x80 && F32.Top() == 0xFF
    ensures F64.Frac() == 0x10_0000_0000_0000 && F64.Step() == 0x400 && F64.Top() == 0x7FF
    ensures F32.StepBits() == 7 && F64.StepBits() == 10 && F32.UnitExp() == -149 && F64.UnitExp() == -1074
    ensures F32.Full() == 0x4000_0000 && F64.Full() == 0x4000_0000_0000_0000
    ensures F32.Half() == 0x2000_0000 && F64.Half() == 0x2000_0000_0000_0000
    ensures F32.SignBit() == 0x8000_0000 && F64.SignBit() == 0x8000_0000_0000_0000
  {
  }

  // --- Encodings. A code is an encoding without its sign bit. ---

  predicate IsBits(f: Format, a: int) {
    0 <= a < 2 * f.SignBit()
  }

  function Neg(f: Format, a: nat): bool {
    a >= f.SignBit()
  }

  function Code(f: Format, a: nat): nat {
    if a >= f.SignBit() then a - f.SignBit() else a
  }

  function WithSign(f: Format, neg: bool, code: nat): nat {
    if neg then f.SignBit() + code else code
  }

  function FracField(f: Format, a: nat): nat {
    a % f.Frac()
  }

  predicate IsNaN(f: Format, a: nat) {
    Code(f, a) > f.Top() * f.Frac()
  }

  predicate IsSignalling(f: Format, a: nat) {
    IsNaN(f, a) && FracField(f, a) < f.Frac() / 2
  }

  predicate IsInf(f: Format, a: nat) {
    Code(f, a) == f.Top() * f.Frac()
  }

  predicate IsFinite(f: Format, a: nat) {
    Code(f, a) < f.Top() * f.Frac()
  }

  predicate IsZero(f: Format, a: nat) {
    Code(f, a) == 0
  }

  /** The magnitude of a code in units of the smallest positive value. Codes past the format's
      largest finite one continue the same pattern, as if the exponent range were unbounded. */
  function Units(f: Format, code: nat): nat {
    if code / f.Frac() == 0 then code % f.Frac()
    else (f.Frac() + code % f.Frac()) * Exp2(code / f.Frac() - 1)
  }

  function Magnitude(f: Format, a: nat): real {
    Units(f, Code(f, a)) as real * Pow2(f.UnitExp())
  }

  /** The exact value of a finite encoding. */
  function Val(f: Format, a: nat): real {
    if Neg(f, a) then -Magnitude(f, a) else Magnitude(f, a)
  }

  // --- Rounding once (sections 4.3, 7.4, 7.5, 7.6). x is a magnitude in units. ---

  /** The exponent, in units, of the last place of x. */
  function Quantum(f: Format, x: real): nat
    decreases x.Floor
  {
    if x < 2.0 * f.Frac() as real then 0 else 1 + Quantum(f, x / 2.0)
  }

  function RoundCode(f: Format, mode: Mode, neg: bool, x: real): int {
    var q := Quantum(f, x);
    q * f.Frac() + RoundInt(mode, neg, x / Pow2(q))
  }

  predicate OverflowsToInfinity(mode: Mode, neg: bool) {
    match mode
    case NearEven => true
    case NearMaxMag => true
    case MinMag => false
    case Min => neg
    case Max => !neg
  }

  datatype Outcome = Outcome(bits: int, flags: set<Flag>)

  function RoundUnits(f: Format, mode: Mode, neg: bool, x: real): Outcome
    requires x >= 0.0
  {
    var code := RoundCode(f, mode, neg, x);
    RoundCodeNonnegative(f, mode, neg, x);
    if code >= f.Top() * f.Frac() then
      var top := f.Top() * f.Frac();
      Outcome(WithSign(f, neg, if OverflowsToInfinity(mode, neg) then top else top - 1), {Overflow, Inexact})
    else if Units(f, code) as real == x then
      Outcome(WithSign(f, neg, code), {})
    else
      Outcome(WithSign(f, neg, code), if x < f.Frac() as real then {Inexact, Underflow} else {Inexact})
  }

  lemma RoundCodeNonnegative(f: Format, mode: Mode, neg: bool, x: real)
    requires x >= 0.0
    ensures RoundCode(f, mode, neg, x) >= 0
  {
    var q := Quantum(f, x);
    var y := x / Pow2(q);
    assert y >= 0.0;
  }

  /** A non-zero exact value, rounded once. */
  function Round(f: Format, mode: Mode, x: real): Outcome {
    if x < 0.0 then RoundUnits(f, mode, true, -x / Pow2(f.UnitExp()))
    else RoundUnits(f, mode, false, x / Pow2(f.UnitExp()))
  }

  // --- Operations (sections 5.4.1, 6.2, 6.3, 7.2, 7.3). ---

  function Quiet(f: Format, signalling: bool): Outcome {
    Outcome(f.DefaultNaN(), if signalling then {Invalid} else {})
  }

  function Inf(f: Format, neg: bool): Outcome {
    Outcome(WithSign(f, neg, f.Top() * f.Frac()), {})
  }

  function Zero(f: Format, neg: bool): Outcome {
    Outcome(WithSign(f, neg, 0), {})
  }

  /** An exact result: rounded once, unless it is zero and its sign is a matter of convention. */
  function Exact(f: Format, mode: Mode, zeroNeg: bool, x: real): Outcome {
    if x == 0.0 then Zero(f, zeroNeg) else Round(f, mode, x)
  }

  function Add(f: Format, mode: Mode, a: nat, b: nat): Outcome {
    if IsNaN(f, a) || IsNaN(f, b) then Quiet(f, IsSignalling(f, a) || IsSignalling(f, b))
    else if IsInf(f, a) && IsInf(f, b) && Neg(f, a) != Neg(f, b) then Quiet(f, true)
    else if IsInf(f, a) then Inf(f, Neg(f, a))
    else if IsInf(f, b) then Inf(f, Neg(f, b))
    else Exact(f, mode, if Neg(f, a) == Neg(f, b) then Neg(f, a) else mode == Min, Val(f, a) + Val(f, b))
  }

  function Sub(f: Format, mode: Mode, a: nat, b: nat): Outcome {
    if IsNaN(f, a) || IsNaN(f, b) then Quiet(f, IsSignalling(f, a) || IsSignalling(f, b))
    else if IsInf(f, a) && IsInf(f, b) && Neg(f, a) == Neg(f, b) then Quiet(f, true)
    else if IsInf(f, a) then Inf(f, Neg(f, a))
    else if IsInf(f, b) then Inf(f, !Neg(f, b))
    else Exact(f, mode, if Neg(f, a) != Neg(f, b) then Neg(f, a) else mode == Min, Val(f, a) - Val(f, b))
  }

  function Mul(f: Format, mode: Mode, a: nat, b: nat): Outcome {
    var neg := Neg(f, a) != Neg(f, b);
    if IsNaN(f, a) || IsNaN(f, b) then Quiet(f, IsSignalling(f, a) || IsSignalling(f, b))
    else if (IsInf(f, a) && IsZero(f, b)) || (IsZero(f, a) && IsInf(f, b)) then Quiet(f, true)
    else if IsInf(f, a) || IsInf(f, b) then Inf(f, neg)
    else if IsZero(f, a) || IsZero(f, b) then Zero(f, neg)
    else Round(f, mode, Val(f, a) * Val(f, b))
  }

  function Div(f: Format, mode: Mode, a: nat, b: nat): Outcome {
    var neg := Neg(f, a) != Neg(f, b);
    if IsNaN(f, a) || IsNaN(f, b) then Quiet(f, IsSignalling(f, a) || IsSignalling(f, b))
    else if (IsInf(f, a) && IsInf(f, b)) || (IsZero(f, a) && IsZero(f, b)) then Quiet(f, true)
    else if IsInf(f, a) then Inf(f, neg)
    else if IsZero(f, b) then Outcome(Inf(f, neg).bits, {Infinite})
    else if IsInf(f, b) || IsZero(f, a) then Zero(f, neg)
    else Magnitudes(f, b); Round(f, mode, Val(f, a) / Val(f, b))
  }

  lemma UnitsZero(f: Format, code: nat)
    ensures Units(f, code) == 0 <==> code == 0
  {
    if code / f.Frac() > 0 {
      Positive(f.Frac() + code % f.Frac(), Exp2(code / f.Frac() - 1));
    }
  }

  lemma Positive(x: int, y: int)
    requires x > 0 && y > 0
    ensures x * y > 0
  {
  }

  lemma Magnitudes(f: Format, a: nat)
    ensures IsZero(f, a) <==> Magnitude(f, a) == 0.0
    ensures Magnitude(f, a) >= 0.0
  {
    UnitsZero(f, Code(f, a));
    hide Units, Pow2;
  }

  /** a * b + c. Infinity times zero is invalid even when c is a quiet NaN. */
  function MulAdd(f: Format, mode: Mode, a: nat, b: nat, c: nat): Outcome {
    var neg := Neg(f, a) != Neg(f, b);
    if IsNaN(f, a) || IsNaN(f, b) then
      Quiet(f, IsSignalling(f, a) || IsSignalling(f, b) || IsSignalling(f, c))
    else if (IsInf(f, a) && IsZero(f, b)) || (IsZero(f, a) && IsInf(f, b)) then Quiet(f, true)
    else if IsNaN(f, c) then Quiet(f, IsSignalling(f, c))
    else if IsInf(f, a) || IsInf(f, b) then
      if IsInf(f, c) && Neg(f, c) != neg then Quiet(f, true) else Inf(f, neg)
    else if IsInf(f, c) then Inf(f, Neg(f, c))
    else Exact(f, mode, if neg == Neg(f, c) then neg else mode == Min, Val(f, a) * Val(f, b) + Val(f, c))
  }

  /** The product of a and b or its negation, plus or minus c. */
  function Fused(f: Format, mode: Mode, negProd: bool, subC: bool, a: nat, b: nat, c: nat): Outcome {
    var neg, negC := (Neg(f, a) != Neg(f, b)) != negProd, Neg(f, c) != subC;
    var p := Val(f, a) * Val(f, b);
    if IsNaN(f, a) || IsNaN(f, b) then
      Quiet(f, IsSignalling(f, a) || IsSignalling(f, b) || IsSignalling(f, c))
    else if (IsInf(f, a) && IsZero(f, b)) || (IsZero(f, a) && IsInf(f, b)) then Quiet(f, true)
    else if IsNaN(f, c) then Quiet(f, IsSignalling(f, c))
    else if IsInf(f, a) || IsInf(f, b) then
      if IsInf(f, c) && negC != neg then Quiet(f, true) else Inf(f, neg)
    else if IsInf(f, c) then Inf(f, negC)
    else
      Exact(f, mode, if neg == negC then neg else mode == Min,
            (if negProd then -p else p) + (if subC then -Val(f, c) else Val(f, c)))
  }

  /** The integer nearest a / b, ties to even. */
  function NearestQuotient(x: real, y: real): int
    requires y != 0.0
  {
    RoundInt(NearEven, false, x / y)
  }

  /** a - n * b with n the integer nearest a / b (section 5.3.1); a zero result takes a's sign. */
  function Rem(f: Format, mode: Mode, a: nat, b: nat): Outcome {
    if IsNaN(f, a) || IsNaN(f, b) then Quiet(f, IsSignalling(f, a) || IsSignalling(f, b))
    else if IsInf(f, a) || IsZero(f, b) then Quiet(f, true)
    else if IsInf(f, b) then Outcome(a, {})
    else
      Magnitudes(f, b);
      Exact(f, mode, Neg(f, a), Val(f, a) - NearestQuotient(Val(f, a), Val(f, b)) as real * Val(f, b))
  }

  // --- Conversions (sections 5.4.2 and 5.8). ---

  /** Between formats. A NaN becomes the all-ones NaN of its own sign. */
  function Convert(from: Format, to: Format, mode: Mode, a: nat): Outcome {
    if IsNaN(from, a) then
      Outcome(WithSign(to, Neg(from, a), to.SignBit() - 1), if IsSignalling(from, a) then {Invalid} else {})
    else if IsInf(from, a) then Inf(to, Neg(from, a))
    else Exact(to, mode, Neg(from, a), Val(from, a))
  }

  datatype IntOutcome = IntOutcome(value: int, flags: set<Flag>)

  function Saturated(half: int, neg: bool): IntOutcome {
    IntOutcome(if neg then -half else half - 1, {Invalid})
  }

  /** The integer nearest the magnitude x in the given mode, if it lies in [-half, half). */
  function RoundedInteger(mode: Mode, exact: bool, half: int, neg: bool, x: real): IntOutcome {
    var r := RoundInt(mode, neg, x);
    var n := if neg then -r else r;
    if -half <= n < half then IntOutcome(n, if exact && r as real != x then {Inexact} else {})
    else Saturated(half, neg)
  }

  function ToInteger(f: Format, mode: Mode, exact: bool, half: int, a: nat): IntOutcome {
    if IsFinite(f, a) then RoundedInteger(mode, exact, half, Neg(f, a), Magnitude(f, a))
    else Saturated(half, Neg(f, a))
  }
}
