/** What an arithmetic instruction leaves in its destination, told over exact reals: of all finite values
    the one its rounding-mode field selects. */
module FpMeaning {
  import opened Powers
  import opened Rounding
  import opened Ieee754
  import opened RoundTheory
  import opened RoundMeaning
  import opened Words
  import opened RoundPack
  import opened Unpack
  import opened MulAddTheory
  import opened F32Add
  import opened F32Mul
  import opened F32Div
  import opened FpInstructions

  function Abs(x: real): real {
    if x < 0.0 then -x else x
  }

  ghost predicate IsValue(f: Format, d: nat) {
    IsBits(f, d) && IsFinite(f, d)
  }

  /** b is the value the mode numbered rm selects for x: to nearest, ties to even; toward zero; down; up;
      to nearest, ties away from zero. */
  ghost predicate Chosen(f: Format, rm: nat, x: real, b: nat) {
    IsValue(f, b) &&
    match rm
    case 0 =>
      && (forall d: nat :: IsValue(f, d) ==> Abs(Val(f, b) - x) <= Abs(Val(f, d) - x))
      && (forall d: nat :: IsValue(f, d) && Abs(Val(f, d) - x) == Abs(Val(f, b) - x) && Val(f, d) != Val(f, b) ==>
            b % 2 == 0)
    case 1 =>
      && Abs(Val(f, b)) <= Abs(x) && (x >= 0.0 ==> Val(f, b) >= 0.0) && (x <= 0.0 ==> Val(f, b) <= 0.0)
      && (forall d: nat :: IsValue(f, d) && Abs(Val(f, d)) <= Abs(x) ==> Abs(Val(f, d)) <= Abs(Val(f, b)))
    case 2 => Val(f, b) <= x && forall d: nat :: IsValue(f, d) && Val(f, d) <= x ==> Val(f, d) <= Val(f, b)
    case 3 => Val(f, b) >= x && forall d: nat :: IsValue(f, d) && Val(f, d) >= x ==> Val(f, d) >= Val(f, b)
    case 4 =>
      && (forall d: nat :: IsValue(f, d) ==> Abs(Val(f, b) - x) <= Abs(Val(f, d) - x))
      && (forall d: nat :: IsValue(f, d) && Abs(Val(f, d) - x) == Abs(Val(f, b) - x) ==>
            Abs(Val(f, d)) <= Abs(Val(f, b)))
    case _ => false
  }

  /** The modes as the library numbers them. */
  function Number(mode: Mode): nat {
    match mode case NearEven => 0 case MinMag => 1 case Min => 2 case Max => 3 case NearMaxMag => 4
  }

  // --- In units of the smallest value ---

  ghost function InUnits(f: Format, d: nat): real {
    if Neg(f, d) then -(Units(f, Code(f, d)) as real) else Units(f, Code(f, d)) as real
  }

  lemma ValInUnits(f: Format, d: nat)
    ensures Val(f, d) == InUnits(f, d) * Pow2(f.UnitExp())
  {
    MagnitudeIs(f, d);
    hide Units, Pow2, Magnitude;
  }

  /** Val of the given encoding compares with x as the units with y. */
  lemma Compares(f: Format, d: nat, b: nat, y: real, x: real)
    requires x == y * Pow2(f.UnitExp())
    ensures Val(f, d) <= x <==> InUnits(f, d) <= y
    ensures Val(f, d) >= x <==> InUnits(f, d) >= y
    ensures Abs(Val(f, d)) <= Abs(x) <==> Abs(InUnits(f, d)) <= Abs(y)
    ensures Val(f, d) <= Val(f, b) <==> InUnits(f, d) <= InUnits(f, b)
    ensures Abs(Val(f, d)) <= Abs(Val(f, b)) <==> Abs(InUnits(f, d)) <= Abs(InUnits(f, b))
    ensures Abs(Val(f, b) - x) <= Abs(Val(f, d) - x) <==> Abs(InUnits(f, b) - y) <= Abs(InUnits(f, d) - y)
    ensures Abs(Val(f, b) - x) >= Abs(Val(f, d) - x) <==> Abs(InUnits(f, b) - y) >= Abs(InUnits(f, d) - y)
    ensures (x >= 0.0 <==> y >= 0.0) && (x <= 0.0 <==> y <= 0.0)
    ensures (Val(f, d) >= 0.0 <==> InUnits(f, d) >= 0.0) && (Val(f, d) <= 0.0 <==> InUnits(f, d) <= 0.0)
  {
    hide *;
    ValInUnits(f, d);
    ValInUnits(f, b);
    var p := Pow2(f.UnitExp());
    var i, j, v, w := InUnits(f, d), InUnits(f, b), Val(f, d), Val(f, b);
    ScaledOrder(i, y, p, v, x);
    ScaledOrder(y, i, p, x, v);
    ScaledOrder(i, j, p, v, w);
    ScaledOrder(0.0, y, p, 0.0, x);
    ScaledOrder(y, 0.0, p, x, 0.0);
    ScaledOrder(0.0, i, p, 0.0, v);
    ScaledOrder(i, 0.0, p, v, 0.0);
    ScaledAbs(i, p, v);
    ScaledAbs(j, p, w);
    ScaledAbs(y, p, x);
    ScaledOrder(Abs(i), Abs(y), p, Abs(v), Abs(x));
    ScaledOrder(Abs(i), Abs(j), p, Abs(v), Abs(w));
    ScaledGap(i, y, p, v, x);
    ScaledGap(j, y, p, w, x);
    ScaledOrder(Abs(i - y), Abs(j - y), p, Abs(v - x), Abs(w - x));
    ScaledOrder(Abs(j - y), Abs(i - y), p, Abs(w - x), Abs(v - x));
  }

  lemma ScaledOrder(a: real, b: real, p: real, v: real, w: real)
    requires p > 0.0 && v == a * p && w == b * p
    ensures a <= b <==> v <= w
  {
    if a <= b {
      assert (b - a) * p >= 0.0;
    } else {
      assert (a - b) * p > 0.0;
    }
  }

  lemma ScaledAbs(a: real, p: real, v: real)
    requires p > 0.0 && v == a * p
    ensures Abs(v) == Abs(a) * p
  {
    if a < 0.0 {
      assert (-a) * p > 0.0;
    } else {
      assert a * p >= 0.0;
    }
  }

  lemma ScaledGap(a: real, y: real, p: real, v: real, x: real)
    requires p > 0.0 && v == a * p && x == y * p
    ensures Abs(v - x) == Abs(a - y) * p
  {
    assert v - x == (a - y) * p;
    ScaledAbs(a - y, p, v - x);
  }

  /** The same choice among values counted in units. */
  ghost predicate ChosenUnits(f: Format, rm: nat, y: real, b: nat) {
    IsValue(f, b) &&
    match rm
    case 0 =>
      && (forall d: nat :: IsValue(f, d) ==> Abs(InUnits(f, b) - y) <= Abs(InUnits(f, d) - y))
      && (forall d: nat ::
            IsValue(f, d) && Abs(InUnits(f, d) - y) == Abs(InUnits(f, b) - y) && InUnits(f, d) != InUnits(f, b) ==>
              b % 2 == 0)
    case 1 =>
      && Abs(InUnits(f, b)) <= Abs(y) && (y >= 0.0 ==> InUnits(f, b) >= 0.0) && (y <= 0.0 ==> InUnits(f, b) <= 0.0)
      && (forall d: nat :: IsValue(f, d) && Abs(InUnits(f, d)) <= Abs(y) ==> Abs(InUnits(f, d)) <= Abs(InUnits(f, b)))
    case 2 =>
      && InUnits(f, b) <= y
      && forall d: nat :: IsValue(f, d) && InUnits(f, d) <= y ==> InUnits(f, d) <= InUnits(f, b)
    case 3 =>
      && InUnits(f, b) >= y
      && forall d: nat :: IsValue(f, d) && InUnits(f, d) >= y ==> InUnits(f, d) >= InUnits(f, b)
    case 4 =>
      && (forall d: nat :: IsValue(f, d) ==> Abs(InUnits(f, b) - y) <= Abs(InUnits(f, d) - y))
      && (forall d: nat :: IsValue(f, d) && Abs(InUnits(f, d) - y) == Abs(InUnits(f, b) - y) ==>
            Abs(InUnits(f, d)) <= Abs(InUnits(f, b)))
    case _ => false
  }

  lemma ChosenScales(f: Format, rm: nat, y: real, x: real, b: nat)
    requires ChosenUnits(f, rm, y, b) && x == y * Pow2(f.UnitExp())
    ensures Chosen(f, rm, x, b)
  {
    hide InUnits, Val, IsValue, Abs, Pow2;
    Compares(f, b, b, y, x);
    match rm {
      case 0 =>
        forall d: nat | IsValue(f, d) ensures Abs(Val(f, b) - x) <= Abs(Val(f, d) - x) {
          Compares(f, d, b, y, x);
        }
        forall d: nat | IsValue(f, d) && Abs(Val(f, d) - x) == Abs(Val(f, b) - x) && Val(f, d) != Val(f, b)
          ensures b % 2 == 0
        {
          Compares(f, d, b, y, x);
          Compares(f, b, d, y, x);
        }
      case 1 =>
        forall d: nat | IsValue(f, d) && Abs(Val(f, d)) <= Abs(x) ensures Abs(Val(f, d)) <= Abs(Val(f, b)) {
          Compares(f, d, b, y, x);
        }
      case 2 =>
        forall d: nat | IsValue(f, d) && Val(f, d) <= x ensures Val(f, d) <= Val(f, b) {
          Compares(f, d, b, y, x);
        }
      case 3 =>
        forall d: nat | IsValue(f, d) && Val(f, d) >= x ensures Val(f, d) >= Val(f, b) {
          Compares(f, d, b, y, x);
          Compares(f, b, d, y, x);
        }
      case 4 =>
        forall d: nat | IsValue(f, d) ensures Abs(Val(f, b) - x) <= Abs(Val(f, d) - x) {
          Compares(f, d, b, y, x);
        }
        forall d: nat | IsValue(f, d) && Abs(Val(f, d) - x) == Abs(Val(f, b) - x)
          ensures Abs(Val(f, d)) <= Abs(Val(f, b))
        {
          Compares(f, d, b, y, x);
          Compares(f, b, d, y, x);
        }
      case _ =>
    }
  }

  // --- From magnitudes to signed values ---

  /** The code selected for a magnitude, with its sign, is the value selected for the signed number. */
  lemma RoundingChooses(f: Format, mode: Mode, neg: bool, u: real, c: nat)
    requires u >= 0.0 && IsRounding(f, mode, neg, u, c) && c < f.Top() * f.Frac() && (neg ==> u > 0.0)
    ensures ChosenUnits(f, Number(mode), if neg then -u else u, WithSign(f, neg, c))
  {
    hide *;
    var b, y := WithSign(f, neg, c), if neg then -u else u;
    SignedValue(f, neg, c);
    forall d: nat | IsValue(f, d) ensures Loses(f, mode, y, b, d) {
      OtherLoses(f, mode, neg, u, c, d);
    }
    AllLose(f, mode, y, b);
  }

  lemma AllLose(f: Format, mode: Mode, y: real, b: nat)
    requires IsValue(f, b) && forall d: nat :: IsValue(f, d) ==> Loses(f, mode, y, b, d)
    ensures ChosenUnits(f, Number(mode), y, b)
  {
    hide IsValue, InUnits;
    assert Loses(f, mode, y, b, b);
  }

  lemma SignedValue(f: Format, neg: bool, c: nat)
    requires c < f.Top() * f.Frac()
    ensures var b := WithSign(f, neg, c);
            && IsValue(f, b) && InUnits(f, b) == (if neg then -(Units(f, c) as real) else Units(f, c) as real)
            && b % 2 == c % 2
  {
    hide Units;
    match f case F32 => case F64 =>
  }

  /** How d fares against the selected b. */
  ghost predicate Loses(f: Format, mode: Mode, y: real, b: nat, d: nat) {
    var v, w := InUnits(f, b), InUnits(f, d);
    match mode
    case NearEven => Abs(v - y) <= Abs(w - y) && (Abs(v - y) == Abs(w - y) && v != w ==> b % 2 == 0)
    case NearMaxMag => Abs(v - y) <= Abs(w - y) && (Abs(v - y) == Abs(w - y) ==> Abs(w) <= Abs(v))
    case MinMag =>
      && Abs(v) <= Abs(y) && (y >= 0.0 ==> v >= 0.0) && (y <= 0.0 ==> v <= 0.0)
      && (Abs(w) <= Abs(y) ==> Abs(w) <= Abs(v))
    case Min => v <= y && (w <= y ==> w <= v)
    case Max => v >= y && (w >= y ==> w >= v)
  }

  lemma OtherLoses(f: Format, mode: Mode, neg: bool, u: real, c: nat, d: nat)
    requires u >= 0.0 && IsRounding(f, mode, neg, u, c) && c < f.Top() * f.Frac() && (neg ==> u > 0.0)
    ensures Loses(f, mode, if neg then -u else u, WithSign(f, neg, c), d)
  {
    hide *;
    match mode {
      case NearEven => EvenLoses(f, neg, u, c, d);
      case NearMaxMag => AwayLoses(f, neg, u, c, d);
      case _ => DirectedSigned(f, mode, neg, u, c, d);
    }
  }

  lemma EvenLoses(f: Format, neg: bool, u: real, c: nat, d: nat)
    requires u >= 0.0 && IsRounding(f, NearEven, neg, u, c) && c < f.Top() * f.Frac() && (neg ==> u > 0.0)
    ensures Loses(f, NearEven, if neg then -u else u, WithSign(f, neg, c), d)
  {
    SignedValue(f, neg, c);
    InUnitsIs(f, d);
    var v, w := Units(f, c) as real, Units(f, Code(f, d)) as real;
    NearestDistances(f, NearEven, neg, u, c, Code(f, d));
    TieIsEven(f, neg, u, c, 0);
    TieIsEven(f, neg, u, c, Code(f, d));
    UnitsZero(f, 0);
    hide Units, IsRounding, InUnits, WithSign, IsValue, Distance;
    NearestSigned(u, v, w, neg, Neg(f, d));
  }

  lemma AwayLoses(f: Format, neg: bool, u: real, c: nat, d: nat)
    requires u >= 0.0 && IsRounding(f, NearMaxMag, neg, u, c) && c < f.Top() * f.Frac() && (neg ==> u > 0.0)
    ensures Loses(f, NearMaxMag, if neg then -u else u, WithSign(f, neg, c), d)
  {
    SignedValue(f, neg, c);
    InUnitsIs(f, d);
    var v, w := Units(f, c) as real, Units(f, Code(f, d)) as real;
    NearestDistances(f, NearMaxMag, neg, u, c, Code(f, d));
    TieIsLarge(f, neg, u, c, Code(f, d));
    hide Units, IsRounding, InUnits, WithSign, IsValue, Distance;
    NearestSigned(u, v, w, neg, Neg(f, d));
  }

  lemma NearestDistances(f: Format, mode: Mode, neg: bool, u: real, c: nat, e: nat)
    requires u >= 0.0 && IsRounding(f, mode, neg, u, c) && (mode == NearEven || mode == NearMaxMag)
    ensures Abs(Units(f, c) as real - u) <= u && Abs(Units(f, c) as real - u) <= Abs(Units(f, e) as real - u)
  {
    UnitsZero(f, 0);
    hide Units;
    assert Distance(f, c, u) <= Distance(f, 0, u) && Distance(f, c, u) <= Distance(f, e, u);
  }

  lemma NearestSigned(u: real, v: real, w: real, neg: bool, other: bool)
    requires u >= 0.0 && v >= 0.0 && w >= 0.0 && (neg ==> u > 0.0)
    requires Abs(v - u) <= u && Abs(v - u) <= Abs(w - u)
    ensures var y, v', w' := if neg then -u else u, if neg then -v else v, if other then -w else w;
            && Abs(v' - y) == Abs(v - u) && Abs(v' - y) <= Abs(w' - y)
            && (other == neg ==> Abs(w' - y) == Abs(w - u))
            && (other != neg && Abs(v' - y) == Abs(w' - y) ==> w == 0.0 && Abs(v - u) == u)
  {
  }

  lemma TieIsEven(f: Format, neg: bool, u: real, c: nat, e: nat)
    requires IsRounding(f, NearEven, neg, u, c)
    ensures Abs(Units(f, e) as real - u) == Abs(Units(f, c) as real - u) ==> c % 2 == 0 || c == e
  {
    hide Units;
    assert Distance(f, c, u) == Abs(Units(f, c) as real - u) && Distance(f, e, u) == Abs(Units(f, e) as real - u);
  }

  lemma TieIsLarge(f: Format, neg: bool, u: real, c: nat, e: nat)
    requires IsRounding(f, NearMaxMag, neg, u, c)
    ensures Abs(Units(f, e) as real - u) == Abs(Units(f, c) as real - u) ==> Units(f, e) <= Units(f, c)
  {
    hide Units;
    assert Distance(f, c, u) == Abs(Units(f, c) as real - u) && Distance(f, e, u) == Abs(Units(f, e) as real - u);
  }

  lemma InUnitsIs(f: Format, d: nat)
    ensures InUnits(f, d) == if Neg(f, d) then -(Units(f, Code(f, d)) as real) else Units(f, Code(f, d)) as real
  {
    hide Units;
  }

  lemma DirectedSigned(f: Format, mode: Mode, neg: bool, u: real, c: nat, d: nat)
    requires u >= 0.0 && IsRounding(f, mode, neg, u, c) && c < f.Top() * f.Frac() && (neg ==> u > 0.0)
    requires mode == MinMag || mode == Min || mode == Max
    ensures Loses(f, mode, if neg then -u else u, WithSign(f, neg, c), d)
  {
    SignedValue(f, neg, c);
    InUnitsIs(f, d);
    hide Units, InUnits, WithSign, IsValue;
    var e := Code(f, d);
    UnitsZero(f, 0);
    if mode == MinMag || (mode == Min) == !neg {
      assert IsBelow(f, u, c);
    } else {
      assert IsAbove(f, u, c);
    }
    assert Units(f, e) as real <= u || Units(f, e) as real >= u;
  }

  lemma ZeroChosen(f: Format, mode: Mode, neg: bool)
    ensures ChosenUnits(f, Number(mode), 0.0, WithSign(f, neg, 0))
  {
    UnitsZero(f, 0);
    hide Units;
    assert 0 < f.Top() * f.Frac() by { FormatConstants(); }
    SignedValue(f, neg, 0);
  }

  /** Inexact when b is not x, underflow when moreover x lies below the normal range, and nothing else. */
  ghost predicate FlagsTell(f: Format, x: real, b: nat, flags: set<Flag>) {
    && (Inexact in flags <==> Val(f, b) != x)
    && (Underflow in flags <==> Val(f, b) != x && Abs(x) < f.Frac() as real * Pow2(f.UnitExp()))
    && flags <= {Inexact, Underflow}
  }

  lemma RoundedFlags(f: Format, neg: bool, u: real, c: nat, x: real, flags: set<Flag>)
    requires u > 0.0 && c < f.Top() * f.Frac() && x == (if neg then -u else u) * Pow2(f.UnitExp())
    requires Inexact in flags <==> Units(f, c) as real != u
    requires Underflow in flags <==> Units(f, c) as real != u && u < f.Frac() as real
    requires flags <= {Inexact, Underflow}
    ensures FlagsTell(f, x, WithSign(f, neg, c), flags)
  {
    hide *;
    var y, b := if neg then -u else u, WithSign(f, neg, c);
    SignedValue(f, neg, c);
    Compares(f, b, b, y, x);
    var p := Pow2(f.UnitExp());
    ScaledAbs(y, p, x);
    AbsIs(y, u, neg);
    ScaledOrder(f.Frac() as real, u, p, f.Frac() as real * p, Abs(x));
    FlagsTellIs(f, x, b, flags);
  }

  lemma AbsIs(y: real, u: real, neg: bool)
    requires u > 0.0 && y == if neg then -u else u
    ensures Abs(y) == u
  {
  }

  lemma FlagsTellIs(f: Format, x: real, b: nat, flags: set<Flag>)
    ensures FlagsTell(f, x, b, flags) <==>
      && (Inexact in flags <==> Val(f, b) != x)
      && (Underflow in flags <==> Val(f, b) != x && Abs(x) < f.Frac() as real * Pow2(f.UnitExp()))
      && flags <= {Inexact, Underflow}
  {
    hide Val, Abs, Pow2;
  }

  /** An exact result rounded once is the value its mode selects, as long as it does not overflow. */
  lemma ExactChooses(f: Format, mode: Mode, zeroNeg: bool, x: real)
    requires Overflow !in Exact(f, mode, zeroNeg, x).flags
    ensures var o := Exact(f, mode, zeroNeg, x);
            o.bits >= 0 && Chosen(f, Number(mode), x, o.bits) && FlagsTell(f, x, o.bits, o.flags)
  {
    hide *;
    ExactCases(f, mode, zeroNeg, x);
    var p := Pow2(f.UnitExp());
    if x == 0.0 {
      ZeroChosen(f, mode, zeroNeg);
      ZeroIs(f, zeroNeg);
      ChosenScales(f, Number(mode), 0.0, 0.0, WithSign(f, zeroNeg, 0));
      ZeroFlags(f, zeroNeg);
    } else {
      var neg, mag := x < 0.0, if x < 0.0 then -x else x;
      RoundSigned(f, mode, neg, mag);
      var u := mag / p;
      Unscaled(mag, p, u);
      RoundCodeNonnegative(f, mode, neg, u);
      var c: nat := RoundCode(f, mode, neg, u);
      RoundCodeIsRounding(f, mode, neg, u, c);
      RoundUnitsMeaning(f, mode, neg, u, c);
      BelowTop(f, c);
      RoundingChooses(f, mode, neg, u, c);
      SignedTimes(u, if neg then -u else u, p, neg);
      RoundedFlags(f, neg, u, c, x, Exact(f, mode, zeroNeg, x).flags);
      ChosenScales(f, Number(mode), if neg then -u else u, x, WithSign(f, neg, c));
    }
  }

  lemma ZeroIs(f: Format, neg: bool)
    ensures Zero(f, neg).bits == WithSign(f, neg, 0)
  {
  }

  lemma ZeroFlags(f: Format, neg: bool)
    ensures FlagsTell(f, 0.0, WithSign(f, neg, 0), Zero(f, neg).flags)
  {
    hide *;
    FormatConstants();
    SignedValue(f, neg, 0);
    UnitsZero(f, 0);
    ValInUnits(f, WithSign(f, neg, 0));
    ZeroIs(f, neg);
    NoFlags(f, neg);
    FlagsTellIs(f, 0.0, WithSign(f, neg, 0), Zero(f, neg).flags);
  }

  lemma NoFlags(f: Format, neg: bool)
    ensures Zero(f, neg).flags == {}
  {
  }

  lemma Unscaled(mag: real, p: real, u: real)
    requires mag > 0.0 && p > 0.0 && u == mag / p
    ensures u > 0.0 && u * p == mag
  {
  }

  lemma BelowTop(f: Format, c: nat)
    requires Units(f, c) <= Units(f, f.Top() * f.Frac() - 1)
    ensures c < f.Top() * f.Frac()
  {
    var top := f.Top() * f.Frac();
    if c > top - 1 {
      UnitsMono(f, top - 1, c);
    }
  }

  // --- The operations on finite operands ---

  /** What each instruction computes, exactly. */
  ghost function ExactResult(op: FpOp, x: real, y: real, z: real): real
    requires op == Fdiv ==> y != 0.0
  {
    match op
    case Fadd => x + y
    case Fsub => x - y
    case Fmul => x * y
    case Fdiv => x / y
    case Fmadd => x * y + z
    case Fmsub => x * y - z
    case Fnmsub => -(x * y) + z
    case Fnmadd => -(x * y) - z
  }

  lemma ResultChooses(f: Format, mode: Mode, op: FpOp, a: nat, b: nat, c: nat)
    requires IsValue(f, a) && IsValue(f, b) && (op in {Fmadd, Fmsub, Fnmsub, Fnmadd} ==> IsValue(f, c))
    requires op == Fdiv ==> Val(f, b) != 0.0
    requires Overflow !in Result(f, mode, op, a, b, c).flags
    ensures var o, x := Result(f, mode, op, a, b, c), ExactResult(op, Val(f, a), Val(f, b), Val(f, c));
            o.bits >= 0 && Chosen(f, Number(mode), x, o.bits) && FlagsTell(f, x, o.bits, o.flags)
  {
    ResultIs(f, mode, op, a, b, c);
    hide *;
    ClassesOf(f, a);
    ClassesOf(f, b);
    ClassesOf(f, c);
    ValueIs(f, a);
    ValueIs(f, b);
    ValueIs(f, c);
    var x, y, z := Val(f, a), Val(f, b), Val(f, c);
    var exact := ExactResult(op, x, y, z);
    ExactResultIs(op, x, y, z);
    match op {
      case Fadd =>
        AddExact(f, mode, a, b, exact);
        ExactChooses(f, mode, if Neg(f, a) == Neg(f, b) then Neg(f, a) else mode == Min, exact);
      case Fsub =>
        SubCases(f, mode, a, b);
        ExactChooses(f, mode, if Neg(f, a) != Neg(f, b) then Neg(f, a) else mode == Min, exact);
      case Fmul =>
        MulExact(f, mode, a, b, exact);
        ExactChooses(f, mode, Neg(f, a) != Neg(f, b), exact);
      case Fdiv =>
        DivExact(f, mode, a, b, exact);
        ExactChooses(f, mode, Neg(f, a) != Neg(f, b), exact);
      case Fmadd => FusedChooses(f, mode, false, false, a, b, c, exact);
      case Fmsub => FusedChooses(f, mode, false, true, a, b, c, exact);
      case Fnmsub => FusedChooses(f, mode, true, false, a, b, c, exact);
      case Fnmadd => FusedChooses(f, mode, true, true, a, b, c, exact);
    }
  }

  lemma ValueIs(f: Format, a: nat)
    ensures IsValue(f, a) <==> IsBits(f, a) && IsFinite(f, a)
  {
  }

  lemma ResultIs(f: Format, mode: Mode, op: FpOp, a: nat, b: nat, c: nat)
    ensures Result(f, mode, op, a, b, c) ==
      match op
      case Fadd => Add(f, mode, a, b)
      case Fsub => Sub(f, mode, a, b)
      case Fmul => Mul(f, mode, a, b)
      case Fdiv => Div(f, mode, a, b)
      case Fmadd => Fused(f, mode, false, false, a, b, c)
      case Fmsub => Fused(f, mode, false, true, a, b, c)
      case Fnmsub => Fused(f, mode, true, false, a, b, c)
      case Fnmadd => Fused(f, mode, true, true, a, b, c)
  {
    hide Add, Sub, Mul, Div, Fused;
  }

  lemma ExactResultIs(op: FpOp, x: real, y: real, z: real)
    requires op == Fdiv ==> y != 0.0
    ensures op == Fadd ==> ExactResult(op, x, y, z) == x + y
    ensures op == Fsub ==> ExactResult(op, x, y, z) == x - y
    ensures op == Fmul ==> ExactResult(op, x, y, z) == x * y
    ensures op == Fdiv ==> ExactResult(op, x, y, z) == x / y
    ensures op == Fmadd ==> ExactResult(op, x, y, z) == x * y + z
    ensures op == Fmsub ==> ExactResult(op, x, y, z) == x * y - z
    ensures op == Fnmsub ==> ExactResult(op, x, y, z) == -(x * y) + z
    ensures op == Fnmadd ==> ExactResult(op, x, y, z) == -(x * y) - z
  {
  }

  lemma MulExact(f: Format, mode: Mode, a: nat, b: nat, x: real)
    requires IsValue(f, a) && IsValue(f, b) && x == Val(f, a) * Val(f, b)
    ensures Mul(f, mode, a, b) == Exact(f, mode, Neg(f, a) != Neg(f, b), x)
  {
    hide *;
    ValueIs(f, a);
    ValueIs(f, b);
    ClassesOf(f, a);
    ClassesOf(f, b);
    ValSign(f, a);
    ValSign(f, b);
    ZeroProduct(Val(f, a), Val(f, b));
    MulCases(f, mode, a, b);
    ExactCases(f, mode, Neg(f, a) != Neg(f, b), x);
    if !IsZero(f, a) && !IsZero(f, b) {
      MulOfFinite(f, mode, a, b, x);
    }
  }

  lemma DivExact(f: Format, mode: Mode, a: nat, b: nat, x: real)
    requires IsValue(f, a) && IsValue(f, b) && Val(f, b) != 0.0 && x == Val(f, a) / Val(f, b)
    ensures Div(f, mode, a, b) == Exact(f, mode, Neg(f, a) != Neg(f, b), x)
  {
    hide *;
    ValueIs(f, a);
    ValueIs(f, b);
    ClassesOf(f, a);
    ClassesOf(f, b);
    ValSign(f, a);
    ValSign(f, b);
    ZeroQuotient(Val(f, a), Val(f, b));
    DivCases(f, mode, a, b);
    ExactCases(f, mode, Neg(f, a) != Neg(f, b), x);
    if !IsZero(f, a) {
      DivOfFinite(f, mode, a, b);
    }
  }

  lemma ZeroQuotient(x: real, y: real)
    requires y != 0.0
    ensures x / y == 0.0 <==> x == 0.0
  {
    var q := x / y;
    assert x == q * y;
  }

  lemma FusedChooses(f: Format, mode: Mode, negProd: bool, subC: bool, a: nat, b: nat, c: nat, x: real)
    requires IsValue(f, a) && IsValue(f, b) && IsValue(f, c)
    requires var p := Val(f, a) * Val(f, b); x == (if negProd then -p else p) + if subC then -Val(f, c) else Val(f, c)
    requires Overflow !in Fused(f, mode, negProd, subC, a, b, c).flags
    ensures var o := Fused(f, mode, negProd, subC, a, b, c);
            o.bits >= 0 && Chosen(f, Number(mode), x, o.bits) && FlagsTell(f, x, o.bits, o.flags)
  {
    hide *;
    ValueIs(f, a);
    ValueIs(f, b);
    ValueIs(f, c);
    FusedExact(f, mode, negProd, subC, a, b, c, Val(f, a) * Val(f, b));
    var neg := ((Neg(f, a) != Neg(f, b)) != negProd) == (Neg(f, c) != subC);
    ExactChooses(f, mode, if neg then Neg(f, c) != subC else mode == Min, x);
  }

  // --- Instructions ---

  /** What a register holds for a format. */
  function OperandBits(f: Format, x: u64): nat {
    if f == F32 then x % 0x1_0000_0000 else x
  }

  /** An instruction on finite operands a, b and c that raises no overflow leaves in its destination, and
      nowhere else, the value its mode field selects for the exact result: the field's own number, or for 7
      that in frm. It raises inexact and underflow as that value differs from the exact result. */
  lemma ExecutedChooses(i: FpInsn, r: FpRegs, r': FpRegs, a: nat, b: nat, c: nat)
    requires Executed(i, true, r, r') && Overflow !in r'.fflags && (if i.rm == 7 then r.frm else i.rm) <= 4
    requires a == OperandBits(i.format, r.fpr[i.rs1]) && b == OperandBits(i.format, r.fpr[i.rs2])
    requires c == OperandBits(i.format, r.fpr[i.rs3])
    requires IsValue(i.format, a) && IsValue(i.format, b)
    requires i.op in {Fmadd, Fmsub, Fnmsub, Fnmadd} ==> IsValue(i.format, c)
    requires i.op == Fdiv ==> Val(i.format, b) != 0.0
    ensures var x := ExactResult(i.op, Val(i.format, a), Val(i.format, b), Val(i.format, c));
            && Chosen(i.format, if i.rm == 7 then r.frm else i.rm, x, r'.fpr[i.rd])
            && exists flags :: r'.fflags == r.fflags + flags && FlagsTell(i.format, x, r'.fpr[i.rd], flags)
    ensures forall k :: 0 <= k < 32 && k != i.rd ==> r'.fpr[k] == r.fpr[k]
  {
    hide Result, Chosen, IsValue, Val, ExactResult, OperandBits, FlagsTell;
    OperandBitsIs(i.format, r.fpr[i.rs1]);
    OperandBitsIs(i.format, r.fpr[i.rs2]);
    OperandBitsIs(i.format, r.fpr[i.rs3]);
    var mode := ModeOf(SelectedMode(i.rm, r.frm));
    assert Number(mode) == if i.rm == 7 then r.frm else i.rm;
    ResultChooses(i.format, mode, i.op, a, b, c);
  }

  lemma OperandBitsIs(f: Format, x: u64)
    ensures OperandBits(f, x) == Operand(f, x)
  {
  }
}
