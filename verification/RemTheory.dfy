/** The IEEE 754 remainder: when it is reached, and why it is always exact. */
module RemTheory {
  import opened Powers
  import opened Rounding
  import opened Ieee754
  import opened RoundTheory
  import opened Words
  import opened Primitives
  import opened RoundPack
  import opened Unpack
  import opened Align
  import opened F32Div

  /** The results that need no arithmetic. */
  lemma RemCases(f: Format, mode: Mode, a: nat, b: nat)
    requires IsBits(f, a)
    ensures IsNaN(f, a) || IsNaN(f, b) ==> Rem(f, mode, a, b) == Quiet(f, IsSignalling(f, a) || IsSignalling(f, b))
    ensures IsInf(f, a) && !IsNaN(f, b) ==> Rem(f, mode, a, b) == Quiet(f, true)
    ensures IsFinite(f, a) && IsZero(f, b) ==> Rem(f, mode, a, b) == Quiet(f, true)
    ensures IsFinite(f, a) && IsInf(f, b) ==> Rem(f, mode, a, b) == Outcome(a, {})
    ensures IsZero(f, a) && IsFinite(f, b) && !IsZero(f, b) ==> Rem(f, mode, a, b) == Outcome(a, {})
  {
    hide Round, IsSignalling, Magnitude, Neg, NearestQuotient;
    if IsZero(f, a) && IsFinite(f, b) && !IsZero(f, b) {
      ZeroRemainder(f, mode, a, b);
    }
  }

  lemma ZeroRemainder(f: Format, mode: Mode, a: nat, b: nat)
    requires IsBits(f, a) && IsZero(f, a) && IsFinite(f, b) && !IsZero(f, b)
    ensures Rem(f, mode, a, b) == Outcome(a, {})
  {
    hide *;
    ValSign(f, a);
    ValSign(f, b);
    var y := Magnitude(f, b);
    NearestIs(0.0, y);
    NearestOfZero(y);
    ZeroIsFinite(f, a);
    RemFinite(f, mode, a, b, 0, 0.0, 0.0);
  }

  lemma NearestOfZero(y: real)
    requires y != 0.0
    ensures RoundInt(NearEven, false, 0.0 / y) == 0 && 0.0 as real * y == 0.0
  {
    assert 0.0 / y == 0.0;
  }

  lemma ZeroIsFinite(f: Format, a: nat)
    requires IsBits(f, a) && IsZero(f, a)
    ensures IsFinite(f, a) && Zero(f, Neg(f, a)) == Outcome(a, {})
  {
  }

  /** Rounding to the nearest integer, ties to even, is symmetric. */
  lemma NearestNegated(x: real)
    ensures RoundInt(NearEven, false, -x) == -RoundInt(NearEven, false, x)
  {
    FloorNegate(x);
  }

  /** The remainder of the magnitudes, signed by a. */
  lemma RemFinite(f: Format, mode: Mode, a: nat, b: nat, n: int, d: real, mag: real)
    requires IsFinite(f, a) && IsFinite(f, b) && !IsZero(f, b)
    requires Magnitude(f, b) != 0.0 ==> n == NearestQuotient(Magnitude(f, a), Magnitude(f, b))
    requires d == Magnitude(f, a) - n as real * Magnitude(f, b) && mag == if d < 0.0 then -d else d
    ensures Magnitude(f, b) > 0.0 && Val(f, b) != 0.0
    ensures Val(f, a) - NearestQuotient(Val(f, a), Val(f, b)) as real * Val(f, b) == if Neg(f, a) then -d else d
    ensures Rem(f, mode, a, b) == if mag == 0.0 then Zero(f, Neg(f, a))
        else Signed(f, mode, Neg(f, a) != (d < 0.0), mag)
  {
    hide *;
    FiniteIsNoNaN(f, a);
    FiniteIsNoNaN(f, b);
    ValSign(f, a);
    ValSign(f, b);
    var x, y := Magnitude(f, a), Magnitude(f, b);
    SignedQuotient(x, y);
    NearestIs(x, y);
    NearestIs(Val(f, a), Val(f, b));
    NearestNegated(x / y);
    var n' := NearestQuotient(Val(f, a), Val(f, b));
    SameProduct(n, y, n', Val(f, b), Neg(f, a));
    var r := Val(f, a) - n' as real * Val(f, b);
    RemIs(f, mode, a, b, r);
    ExactSigned(f, mode, Neg(f, a), r, Neg(f, a) != (d < 0.0), mag);
  }

  lemma SameProduct(n: int, y: real, m: int, v: real, neg: bool)
    requires (v == y && m == if neg then -n else n) || (v == -y && m == if neg then n else -n)
    ensures m as real * v == if neg then -(n as real * y) else n as real * y
  {
    SignedProduct(n as real, y);
  }

  lemma NearestIs(x: real, y: real)
    requires y != 0.0
    ensures NearestQuotient(x, y) == RoundInt(NearEven, false, x / y)
  {
    hide RoundInt;
  }

  lemma RemIs(f: Format, mode: Mode, a: nat, b: nat, r: real)
    requires !IsNaN(f, a) && !IsNaN(f, b) && !IsInf(f, a) && !IsInf(f, b) && !IsZero(f, b) && Val(f, b) != 0.0
    requires r == Val(f, a) - NearestQuotient(Val(f, a), Val(f, b)) as real * Val(f, b)
    ensures Rem(f, mode, a, b) == Exact(f, mode, Neg(f, a), r)
  {
    hide IsNaN, IsInf, IsZero, Val, Exact, NearestQuotient;
  }

  // --- The nearest integer to a quotient of naturals ---

  lemma NearestOf(n: int, s: nat, k: int, d: int)
    requires s > 0 && n == k * s + d && -2 * d <= s && 2 * d <= s
    requires 2 * d == s || -2 * d == s ==> k % 2 == 0
    ensures RoundInt(NearEven, false, n as real / s as real) == k
  {
    var x := d as real / s as real;
    assert x * s as real == d as real;
    ToReal(k, s);
    hide *;
    QuotientSplit(n as real, k as real, s as real, d as real, x);
    HalfBounds(x, s as real, d as real);
    NearestAround(k, x);
  }

  lemma QuotientSplit(n: real, k: real, s: real, d: real, x: real)
    requires s > 0.0 && n == k * s + d && d == x * s
    ensures n / s == k + x
  {
    assert n == (k + x) * s;
    hide *;
    CancelDivide(k + x, s);
  }

  lemma HalfBounds(x: real, s: real, d: real)
    requires s > 0.0 && d == x * s && -s <= 2.0 * d <= s
    ensures -0.5 <= x <= 0.5 && (x == 0.5 <==> 2.0 * d == s) && (x == -0.5 <==> 2.0 * d == -s)
  {
    CancelLess(x, 0.5, s);
    CancelLess(x, -0.5, s);
    CancelLess(-0.5, x, s);
    CancelLess(0.5, x, s);
  }

  lemma NearestAround(k: int, x: real)
    requires -0.5 <= x <= 0.5 && (x == 0.5 || x == -0.5 ==> k % 2 == 0)
    ensures RoundInt(NearEven, false, k as real + x) == k
  {
    var f := (k as real + x).Floor;
    assert f == k || f == k - 1;
  }

  // --- The remainder is representable ---

  lemma NearestHalf(x: real, y: real)
    requires x >= 0.0 && y > 0.0
    ensures var d := x - NearestQuotient(x, y) as real * y;
            -(y / 2.0) <= d <= y / 2.0 && -x <= d <= x
  {
    hide *;
    NearestIs(x, y);
    var z := x / y;
    assert x == z * y;
    NearestWithin(z);
    var n := NearestQuotient(x, y);
    HalfOf(x, y, z, n as real, z - n as real);
    if n == 0 {
      assert n as real * y == 0.0;
    } else {
      assert z >= 0.0;
      AtLeastHalf(z, y);
    }
  }

  lemma NearestWithin(z: real)
    ensures -0.5 <= z - RoundInt(NearEven, false, z) as real <= 0.5
    ensures z >= 0.0 && RoundInt(NearEven, false, z) != 0 ==> z >= 0.5
  {
  }

  lemma HalfOf(x: real, y: real, z: real, n: real, e: real)
    requires x == z * y && y > 0.0 && -0.5 <= e <= 0.5 && e == z - n
    ensures -(y / 2.0) <= x - n * y <= y / 2.0
  {
    hide *;
    TimesDifference(x, y, z, n, e);
    HalfTimes(e, y);
  }

  lemma TimesDifference(x: real, y: real, z: real, n: real, e: real)
    requires x == z * y && e == z - n
    ensures x - n * y == e * y
  {
  }

  lemma HalfTimes(e: real, y: real)
    requires y > 0.0 && -0.5 <= e <= 0.5
    ensures -(y / 2.0) <= e * y <= y / 2.0
  {
    AtMostTimes(e, 0.5, y);
    AtMostTimes(-0.5, e, y);
  }

  lemma AtMostTimes(x: real, z: real, y: real)
    requires x <= z && y >= 0.0
    ensures x * y <= z * y
  {
  }

  lemma AtLeastHalf(z: real, y: real)
    requires z >= 0.5 && y > 0.0
    ensures z * y >= y / 2.0
  {
    assert (z - 0.5) * y >= 0.0;
  }

  /** A code's magnitude in units as a significand times a power of two. */
  lemma UnitsSplit(f: Format, code: nat) returns (m: nat, p: nat)
    ensures Units(f, code) == m * Exp2(p) && m < 2 * f.Frac()
    ensures p * f.Frac() + m == code && (p > 0 ==> m >= f.Frac())
  {
    hide Exp2;
    var e := code / f.Frac();
    if e == 0 {
      m, p := code, 0;
      Exp2Zero();
    } else {
      m, p := f.Frac() + code % f.Frac(), e - 1;
      Distribute(p, 1, f.Frac());
    }
  }

  /** Every multiple of a unit that fits the significand has a code. */
  lemma {:induction false} Representable(f: Format, m: nat, p: nat) returns (code: nat)
    requires m < 2 * f.Frac()
    ensures Units(f, code) == m * Exp2(p) && code <= p * f.Frac() + m
    decreases p
  {
    hide *;
    if p > 0 && m < f.Frac() {
      code := Representable(f, 2 * m, p - 1);
      Exp2Double(p - 1);
      Doubling(m, Exp2(p - 1));
      Distribute(p - 1, 1, f.Frac());
    } else {
      code := p * f.Frac() + m;
      ProductNonnegative(p, f.Frac());
      UnitsAt(f, p, m);
    }
  }

  lemma Multiple(x: int, y: int, n: int, mx: int, my: int, px: nat, py: nat) returns (j: int)
    requires x == mx * Exp2(px) && y == my * Exp2(py) && px <= py
    ensures x - n * y == j * Exp2(px)
  {
    hide *;
    Exp2Add(px, py - px);
    var r, s := Exp2(px), Exp2(py - px);
    assert y == my * s * r;
    j := mx - n * (my * s);
    assert n * y == n * (my * s) * r;
  }

  /** a - n * b over naturals with significands mx and my: small enough to have a code. */
  lemma DifferenceFits(f: Format, x: nat, y: nat, n: int, mx: nat, my: nat, px: nat, py: nat) returns (code: nat)
    requires x == mx * Exp2(px) && y == my * Exp2(py) && mx < 2 * f.Frac() && my < 2 * f.Frac()
    requires var d := x - n * y; 0 <= d + x <= 2 * x && 0 <= d + y <= 2 * y
    ensures var d := x - n * y; Units(f, code) == if d < 0 then -d else d
    ensures code < (px + 2) * f.Frac()
  {
    hide *;
    var d := x - n * y;
    var j: int, p: nat;
    if px <= py {
      j := Multiple(x, y, n, mx, my, px, py);
      p := px;
      MultipleWithin(j, mx, Exp2(p), d, x);
    } else {
      j := ScaledDifference(x, y, n, mx, my, px, py);
      p := py;
      MultipleWithin(j, my, Exp2(p), d, y);
    }
    var m: nat := if j < 0 then -j else j;
    NegatedMultiple(j, Exp2(p), d);
    code := Representable(f, m, p);
    ProductMono(p, px, f.Frac());
    Distribute(px, 2, f.Frac());
  }

  lemma ScaledDifference(x: int, y: int, n: int, mx: int, my: int, px: nat, py: nat) returns (j: int)
    requires x == mx * Exp2(px) && y == my * Exp2(py) && py <= px
    ensures x - n * y == j * Exp2(py)
  {
    hide *;
    Exp2Add(py, px - py);
    var r, s := Exp2(py), Exp2(px - py);
    assert x == mx * s * r;
    j := mx * s - n * my;
    assert n * y == n * my * r;
  }

  lemma MultipleWithin(j: int, m: nat, r: nat, d: int, x: int)
    requires r > 0 && d == j * r && x == m * r && 0 <= d + x <= 2 * x
    ensures 0 <= j + m <= 2 * m
  {
    hide *;
    if j > m {
      ProductMono(m + 1, j, r);
      Distribute(m, 1, r);
    } else if j < -(m as int) {
      ProductMono(j, -(m as int) - 1, r);
      Distribute(-(m as int), -1, r);
      NegatedMultiple(m, r, x);
    }
  }

  lemma NegatedMultiple(j: int, r: int, d: int)
    requires d == j * r
    ensures -d == -j * r
    ensures r > 0 ==> (d < 0 <==> j < 0)
  {
  }

  lemma DifferenceScaled(x: nat, y: nat, n: int, u: real, mx: real, my: real)
    requires u > 0.0 && mx == x as real * u && my == y as real * u
    requires var d := mx - n as real * my; -(my / 2.0) <= d <= my / 2.0 && -mx <= d <= mx
    ensures mx - n as real * my == (x - n * y) as real * u
    ensures 0 <= x - n * y + x <= 2 * x && 0 <= x - n * y + y <= 2 * y
  {
    hide *;
    UnitsDifference(x, y, n, u, mx, my);
    DifferenceWithin(x - n * y, x, y, u, mx, my, mx - n as real * my);
  }

  lemma UnitsDifference(x: int, y: int, n: int, u: real, mx: real, my: real)
    requires mx == x as real * u && my == y as real * u
    ensures mx - n as real * my == (x - n * y) as real * u
  {
    hide *;
    ToReal(n, y);
    Associate3(n as real, y as real, u);
    DistributeReal(x as real, (n * y) as real, u);
  }

  lemma DifferenceWithin(d: int, x: nat, y: nat, u: real, mx: real, my: real, r: real)
    requires u > 0.0 && mx == x as real * u && my == y as real * u && r == d as real * u
    requires -(my / 2.0) <= r <= my / 2.0 && -mx <= r <= mx
    ensures 0 <= d + x <= 2 * x && 0 <= d + y <= 2 * y
  {
    hide *;
    assert -my <= r <= my;
    CancelWithin(d, x, u, r, mx);
    CancelWithin(d, y, u, r, my);
  }

  lemma CancelWithin(d: int, x: nat, u: real, r: real, m: real)
    requires u > 0.0 && r == d as real * u && m == x as real * u && -m <= r <= m
    ensures 0 <= d + x <= 2 * x
  {
    hide *;
    if d > x {
      ScaledLess(x as real, d as real, u, m, r);
    } else if d < -(x as int) {
      ScaledNegation(x as real, u, m);
      ScaledLess(d as real, -(x as real), u, r, -m);
    }
  }

  lemma ScaledLess(x: real, y: real, u: real, xu: real, yu: real)
    requires u > 0.0 && x < y && xu == x * u && yu == y * u
    ensures xu < yu
  {
    CancelLess(x, y, u);
  }

  lemma ScaledNegation(x: real, u: real, m: real)
    requires m == x * u
    ensures -m == -x * u
  {
  }

  lemma ScaledSign(diff: int, u: real)
    requires u > 0.0
    ensures diff < 0 <==> diff as real * u < 0.0
    ensures diff == 0 <==> diff as real * u == 0.0
    ensures (-diff) as real * u == -(diff as real * u)
  {
  }

  lemma ExponentInRange(f: Format, a: nat, px: nat, mx: nat)
    requires IsFinite(f, a) && px * f.Frac() + mx == Code(f, a) && (px > 0 ==> mx >= f.Frac())
    ensures (px + 2) * f.Frac() <= f.Top() * f.Frac()
  {
    hide Code;
  }

  lemma ValOfCode(f: Format, neg: bool, code: nat)
    requires code < f.Top() * f.Frac()
    ensures var a := WithSign(f, neg, code);
            && IsBits(f, a) && IsFinite(f, a) && Neg(f, a) == neg && Code(f, a) == code
            && Val(f, a) == (if neg then -(Units(f, code) as real * Pow2(f.UnitExp()))
               else Units(f, code) as real * Pow2(f.UnitExp()))
  {
    hide Units, Pow2;
    match f case F32 => case F64 =>
  }

  lemma OutcomeIs(f: Format, neg: bool, code: nat)
    ensures Zero(f, neg) == Outcome(WithSign(f, neg, 0), {})
    ensures IsZero(f, code) <==> Code(f, code) == 0
  {
  }

  /** The code of the remainder's magnitude. */
  lemma RemainderUnits(f: Format, a: nat, b: nat) returns (code: nat, d: real)
    requires IsFinite(f, a) && Magnitude(f, a) >= 0.0 && Magnitude(f, b) > 0.0
    ensures d == Magnitude(f, a) - NearestQuotient(Magnitude(f, a), Magnitude(f, b)) as real * Magnitude(f, b)
    ensures (if d < 0.0 then -d else d) == Units(f, code) as real * Pow2(f.UnitExp())
    ensures code < f.Top() * f.Frac()
  {
    hide *;
    var n := NearestQuotient(Magnitude(f, a), Magnitude(f, b));
    d := Magnitude(f, a) - n as real * Magnitude(f, b);
    code := DifferenceCode(f, a, b, n, d);
  }

  lemma DifferenceCode(f: Format, a: nat, b: nat, n: int, d: real) returns (code: nat)
    requires IsFinite(f, a) && Magnitude(f, a) >= 0.0 && Magnitude(f, b) > 0.0
    requires n == NearestQuotient(Magnitude(f, a), Magnitude(f, b))
        && d == Magnitude(f, a) - n as real * Magnitude(f, b)
    ensures (if d < 0.0 then -d else d) == Units(f, code) as real * Pow2(f.UnitExp())
    ensures code < f.Top() * f.Frac()
  {
    hide *;
    var x, y, u := Units(f, Code(f, a)), Units(f, Code(f, b)), Pow2(f.UnitExp());
    MagnitudeIs(f, a);
    MagnitudeIs(f, b);
    var diff := DifferenceInUnits(x, y, n, u, Magnitude(f, a), Magnitude(f, b), d);
    code := IntegerCode(f, a, b, n, diff);
    ScaledMagnitude(diff, u, d, Units(f, code));
  }

  lemma DifferenceInUnits(x: nat, y: nat, n: int, u: real, mx: real, my: real, d: real) returns (diff: int)
    requires u > 0.0 && mx == x as real * u && my == y as real * u && mx >= 0.0 && my > 0.0
    requires n == NearestQuotient(mx, my) && d == mx - n as real * my
    ensures diff == x - n * y && d == diff as real * u
    ensures 0 <= diff + x <= 2 * x && 0 <= diff + y <= 2 * y
  {
    hide *;
    NearestHalf(mx, my);
    DifferenceScaled(x, y, n, u, mx, my);
    diff := x - n * y;
  }

  /** The same in units. */
  lemma IntegerCode(f: Format, a: nat, b: nat, n: int, diff: int) returns (code: nat)
    requires IsFinite(f, a) && diff == Units(f, Code(f, a)) - n * Units(f, Code(f, b))
    requires 0 <= diff + Units(f, Code(f, a)) <= 2 * Units(f, Code(f, a))
    requires 0 <= diff + Units(f, Code(f, b)) <= 2 * Units(f, Code(f, b))
    ensures Units(f, code) == (if diff < 0 then -diff else diff) && code < f.Top() * f.Frac()
  {
    hide *;
    var mx, px := UnitsSplit(f, Code(f, a));
    var my, py := UnitsSplit(f, Code(f, b));
    code := DifferenceFits(f, Units(f, Code(f, a)), Units(f, Code(f, b)), n, mx, my, px, py);
    ExponentInRange(f, a, px, mx);
  }

  lemma ScaledMagnitude(diff: int, u: real, d: real, units: nat)
    requires u > 0.0 && d == diff as real * u && units == if diff < 0 then -diff else diff
    ensures (if d < 0.0 then -d else d) == units as real * u
  {
    ScaledSign(diff, u);
  }

  /** Section 5.3.1: the remainder is always exact, in every rounding mode. */
  lemma RemIsExact(f: Format, mode: Mode, a: nat, b: nat)
    requires IsBits(f, a) && IsFinite(f, a) && IsFinite(f, b) && !IsZero(f, b)
    ensures Val(f, b) != 0.0
    ensures var o := Rem(f, mode, a, b);
            && o.flags == {} && IsBits(f, o.bits) && IsFinite(f, o.bits)
            && Val(f, o.bits) == Val(f, a) - NearestQuotient(Val(f, a), Val(f, b)) as real * Val(f, b)
            && (IsZero(f, o.bits) ==> Neg(f, o.bits) == Neg(f, a))
  {
    hide *;
    ValSign(f, a);
    ValSign(f, b);
    var code, d := RemainderUnits(f, a, b);
    RemFinite(f, mode, a, b, NearestQuotient(Magnitude(f, a), Magnitude(f, b)), d, if d < 0.0 then -d else d);
    RemainderCode(f, mode, a, b, d, code);
  }

  lemma UnscaledIs(x: real, u: real, z: real)
    requires u > 0.0 && z == x * u
    ensures z / u == x
  {
    CancelDivide(x, u);
  }

  lemma RemainderCode(f: Format, mode: Mode, a: nat, b: nat, d: real, code: nat)
    requires var mag := if d < 0.0 then -d else d;
             && mag == Units(f, code) as real * Pow2(f.UnitExp()) && code < f.Top() * f.Frac()
             && Rem(f, mode, a, b) == if mag == 0.0 then Zero(f, Neg(f, a))
                else Signed(f, mode, Neg(f, a) != (d < 0.0), mag)
    ensures var o := Rem(f, mode, a, b);
            && o.flags == {} && IsBits(f, o.bits) && IsFinite(f, o.bits)
            && Val(f, o.bits) == (if Neg(f, a) then -d else d)
            && (IsZero(f, o.bits) ==> Neg(f, o.bits) == Neg(f, a))
  {
    hide *;
    var u, mag := Pow2(f.UnitExp()), if d < 0.0 then -d else d;
    ScaledSign(Units(f, code), u);
    UnitsZero(f, code);
    if d == 0.0 {
      ValOfCode(f, Neg(f, a), 0);
      OutcomeIs(f, Neg(f, a), 0);
    } else {
      var neg := Neg(f, a) != (d < 0.0);
      ValOfCode(f, neg, code);
      SignedIs(f, mode, neg, mag);
      RoundSigned(f, mode, neg, mag);
      UnscaledIs(Units(f, code) as real, u, mag);
      ExactRounds(f, mode, neg, code);
      OutcomeIs(f, neg, WithSign(f, neg, code));
    }
  }
}
