/** What rounding a magnitude to a code means, independently of how it is computed: the code is the
    one and only value of the format that the mode's definition in section 4.3 selects. */
module RoundMeaning {
  import opened Powers
  import opened Rounding
  import opened Ieee754
  import opened RoundTheory
  import opened Words
  import opened Align
  import opened RemTheory

  function Distance(f: Format, code: nat, x: real): real {
    if Units(f, code) as real >= x then Units(f, code) as real - x else x - Units(f, code) as real
  }

  /** The largest value not above x, over all codes. */
  ghost predicate IsBelow(f: Format, x: real, c: nat) {
    Units(f, c) as real <= x && forall d: nat :: Units(f, d) as real <= x ==> Units(f, d) <= Units(f, c)
  }

  ghost predicate IsAbove(f: Format, x: real, c: nat) {
    Units(f, c) as real >= x && forall d: nat :: Units(f, d) as real >= x ==> Units(f, d) >= Units(f, c)
  }

  ghost predicate IsNearest(f: Format, x: real, c: nat) {
    forall d: nat :: Distance(f, c, x) <= Distance(f, d, x)
  }

  ghost predicate IsRounding(f: Format, mode: Mode, neg: bool, x: real, c: nat) {
    match mode
    case NearEven =>
      IsNearest(f, x, c) && forall d: nat :: d != c && Distance(f, d, x) == Distance(f, c, x) ==> c % 2 == 0
    case NearMaxMag =>
      IsNearest(f, x, c) && forall d: nat :: Distance(f, d, x) == Distance(f, c, x) ==> Units(f, d) <= Units(f, c)
    case MinMag => IsBelow(f, x, c)
    case Min => if neg then IsAbove(f, x, c) else IsBelow(f, x, c)
    case Max => if neg then IsBelow(f, x, c) else IsAbove(f, x, c)
  }

  // --- Codes are ordered as the values they stand for ---

  lemma UnitsNext(f: Format, c: nat) returns (m: nat, p: nat)
    ensures Units(f, c) == m * Exp2(p) && Units(f, c + 1) == (m + 1) * Exp2(p)
    ensures Units(f, c) < Units(f, c + 1)
  {
    hide *;
    m, p := UnitsSplit(f, c);
    UnitsAt(f, p, m + 1);
    Distribute(m, 1, Exp2(p));
  }

  lemma {:induction false} UnitsMono(f: Format, c: nat, d: nat)
    requires c < d
    ensures Units(f, c) < Units(f, d)
    decreases d
  {
    hide *;
    var m, p := UnitsNext(f, d - 1);
    if c < d - 1 {
      UnitsMono(f, c, d - 1);
    }
  }

  // --- The two codes around x ---

  lemma {:induction false} QuantumRange(f: Format, x: real)
    requires x >= 0.0
    ensures var q := Quantum(f, x); x < 2.0 * f.Frac() as real * Pow2(q) && (q > 0 ==> f.Frac() as real * Pow2(q) <= x)
    decreases x.Floor
  {
    if x < 2.0 * f.Frac() as real {
      Pow2Zero();
    } else {
      QuantumRange(f, x / 2.0);
      var q := Quantum(f, x / 2.0);
      assert Quantum(f, x) == 1 + q;
      hide *;
      Pow2Step(q);
      Scale(f.Frac() as real, Pow2(q));
      if q == 0 {
        Pow2Zero();
      }
    }
  }

  /** x lies rest of the way from lo to the next code. */
  ghost predicate Around(f: Format, x: real, lo: nat, rest: real) {
    && 0.0 <= rest < 1.0
    && var w := Units(f, lo + 1) - Units(f, lo); w > 0 && x == Units(f, lo) as real + rest * w as real
  }

  lemma Bracket(f: Format, mode: Mode, neg: bool, x: real) returns (lo: nat, rest: real)
    requires x >= 0.0
    ensures Around(f, x, lo, rest)
    ensures RoundCode(f, mode, neg, x) == lo + RoundInt(mode, neg, (lo % 2) as real + rest) - lo % 2
  {
    hide *;
    var q, y, m;
    q, y, m, rest := Leading(f, x);
    ProductNonnegative(q, f.Frac());
    lo := q * f.Frac() + m;
    UnitsAt(f, q, m);
    UnitsAt(f, q, m + 1);
    Distribute(m, 1, Exp2(q));
    AroundIs(f, x, lo, rest, Exp2(q));
    RoundCodeAt(f, mode, neg, x, y, q);
    EvenFraction(f, q);
    RoundParity(mode, neg, y, m, rest, lo, q * f.Frac());
  }

  /** x as m + rest last places, at its quantum. */
  lemma Leading(f: Format, x: real) returns (q: nat, y: real, m: nat, rest: real)
    requires x >= 0.0
    ensures x == y * Pow2(q) && 0.0 <= y < 2.0 * f.Frac() as real && (q > 0 ==> y >= f.Frac() as real)
    ensures m == y.Floor && rest == y - m as real && 0.0 <= rest < 1.0
    ensures m < 2 * f.Frac() && (q > 0 ==> m >= f.Frac())
    ensures x == (m * Exp2(q)) as real + rest * Exp2(q) as real
  {
    hide *;
    q := Quantum(f, x);
    QuantumRange(f, x);
    y := Scaled(x, f.Frac() as real, Pow2(q), q > 0);
    FloorWithin(y, f.Frac(), q > 0);
    m := y.Floor;
    rest := y - m as real;
    Pow2IsExp2(q);
    SplitTimes(y, m as real, rest, Pow2(q));
    ToReal(m, Exp2(q));
  }

  lemma Scaled(x: real, frac: real, p: real, normal: bool) returns (y: real)
    requires p > 0.0 && 0.0 <= x < 2.0 * frac * p && (normal ==> frac * p <= x)
    ensures x == y * p && 0.0 <= y < 2.0 * frac && (normal ==> frac <= y)
  {
    hide *;
    y := x / p;
    assert x == y * p;
    CancelLess(y, 2.0 * frac, p);
    CancelLess(y, frac, p);
    CancelLess(y, 0.0, p);
  }

  lemma FloorWithin(y: real, frac: nat, normal: bool)
    requires 0.0 <= y < 2.0 * frac as real && (normal ==> frac as real <= y)
    ensures 0 <= y.Floor < 2 * frac && (normal ==> y.Floor >= frac) && 0.0 <= y - y.Floor as real < 1.0
  {
  }

  lemma SplitTimes(y: real, m: real, rest: real, p: real)
    requires rest == y - m
    ensures y * p == m * p + rest * p
  {
  }

  lemma AroundIs(f: Format, x: real, lo: nat, rest: real, p: nat)
    requires 0.0 <= rest < 1.0 && p > 0 && Units(f, lo + 1) == Units(f, lo) + p
    requires x == Units(f, lo) as real + rest * p as real
    ensures Around(f, x, lo, rest)
  {
    hide Units;
  }

  lemma EvenFraction(f: Format, q: nat)
    ensures q * f.Frac() % 2 == 0
  {
    match f case F32 => case F64 =>
  }

  /** Rounding looks at an integer's parity and at what follows it, no more. */
  lemma RoundParity(mode: Mode, neg: bool, y: real, m: int, rest: real, lo: int, even: int)
    requires m == y.Floor && rest == y - m as real && lo == even + m && even % 2 == 0
    ensures RoundInt(mode, neg, y) == m + RoundInt(mode, neg, (lo % 2) as real + rest) - lo % 2
  {
    var z := (lo % 2) as real + rest;
    assert z.Floor == lo % 2 == m % 2;
  }

  // --- Distances ---

  lemma Distances(f: Format, x: real, lo: nat, rest: real)
    requires Around(f, x, lo, rest)
    ensures Units(f, lo) as real <= x < Units(f, lo + 1) as real
    ensures rest == 0.0 <==> Units(f, lo) as real == x
    ensures rest < 0.5 <==> Distance(f, lo, x) < Distance(f, lo + 1, x)
    ensures rest == 0.5 <==> Distance(f, lo, x) == Distance(f, lo + 1, x)
  {
    hide Units;
    var w := Units(f, lo + 1) - Units(f, lo);
    Fraction(rest, w as real, rest * w as real);
  }

  lemma Fraction(rest: real, w: real, rw: real)
    requires w > 0.0 && 0.0 <= rest < 1.0 && rw == rest * w
    ensures 0.0 <= rw < w
    ensures (rest == 0.0 <==> rw == 0.0) && (rest < 0.5 <==> 2.0 * rw < w) && (rest == 0.5 <==> 2.0 * rw == w)
  {
    hide *;
    ScaledLess(rest, 1.0, w, rw, w);
    if rest > 0.0 {
      ScaledLess(0.0, rest, w, 0.0, rw);
    }
    if rest < 0.5 {
      ScaledLess(rest, 0.5, w, rw, 0.5 * w);
    } else if rest > 0.5 {
      ScaledLess(0.5, rest, w, 0.5 * w, rw);
    }
  }

  /** Every other code is farther from x than one of the two around it. */
  lemma Farther(f: Format, x: real, lo: nat, rest: real, d: nat)
    requires Around(f, x, lo, rest)
    ensures d < lo ==> Distance(f, d, x) > Distance(f, lo, x) && Units(f, d) < Units(f, lo)
    ensures d > lo + 1 ==> Distance(f, d, x) > Distance(f, lo + 1, x) && Units(f, d) > Units(f, lo + 1)
  {
    hide Units, Around;
    Distances(f, x, lo, rest);
    if d < lo {
      UnitsMono(f, d, lo);
    } else if d > lo + 1 {
      UnitsMono(f, lo + 1, d);
    }
  }

  /** Which of the two codes the mode selects. */
  lemma Selected(mode: Mode, neg: bool, lo: nat, rest: real)
    requires 0.0 <= rest < 1.0
    ensures var c := lo + RoundInt(mode, neg, (lo % 2) as real + rest) - lo % 2;
            c == if rest == 0.0 then lo else match mode
              case NearEven => if rest < 0.5 || (rest == 0.5 && lo % 2 == 0) then lo else lo + 1
              case NearMaxMag => if rest < 0.5 then lo else lo + 1
              case MinMag => lo
              case Min => if neg then lo + 1 else lo
              case Max => if neg then lo else lo + 1
  {
    var z := (lo % 2) as real + rest;
    assert z.Floor == lo % 2;
  }

  lemma SelectedIsRounding(f: Format, mode: Mode, neg: bool, x: real, lo: nat, rest: real, c: nat)
    requires Around(f, x, lo, rest)
    requires c == if rest == 0.0 then lo else match mode
               case NearEven => if rest < 0.5 || (rest == 0.5 && lo % 2 == 0) then lo else lo + 1
               case NearMaxMag => if rest < 0.5 then lo else lo + 1
               case MinMag => lo
               case Min => if neg then lo + 1 else lo
               case Max => if neg then lo else lo + 1
    ensures IsRounding(f, mode, neg, x, c)
  {
    hide Units, Distance, Around;
    Distances(f, x, lo, rest);
    AroundRest(f, x, lo, rest);
    forall d: nat
      ensures d < lo ==> Distance(f, d, x) > Distance(f, lo, x) && Units(f, d) < Units(f, lo)
      ensures d > lo + 1 ==> Distance(f, d, x) > Distance(f, lo + 1, x) && Units(f, d) > Units(f, lo + 1)
    {
      Farther(f, x, lo, rest, d);
    }
  }

  lemma AroundRest(f: Format, x: real, lo: nat, rest: real)
    requires Around(f, x, lo, rest)
    ensures 0.0 <= rest < 1.0
  {
  }

  /** At most one code is the rounding of x. */
  lemma RoundingUnique(f: Format, mode: Mode, neg: bool, x: real, lo: nat, rest: real, c: nat, d: nat)
    requires Around(f, x, lo, rest) && IsRounding(f, mode, neg, x, c) && IsRounding(f, mode, neg, x, d)
    ensures c == d
  {
    hide Units, Distance, Around;
    Farther(f, x, lo, rest, c);
    Farther(f, x, lo, rest, d);
    if c < d {
      UnitsMono(f, c, d);
    } else if d < c {
      UnitsMono(f, d, c);
    }
    Distances(f, x, lo, rest);
  }

  /** The computed code is the rounding of x, and the only one. */
  lemma RoundCodeIsRounding(f: Format, mode: Mode, neg: bool, x: real, c: nat)
    requires x >= 0.0
    ensures c == RoundCode(f, mode, neg, x) <==> IsRounding(f, mode, neg, x, c)
  {
    hide *;
    var lo, rest := Bracket(f, mode, neg, x);
    AroundRest(f, x, lo, rest);
    Selected(mode, neg, lo, rest);
    var r := RoundCode(f, mode, neg, x);
    SelectedIsRounding(f, mode, neg, x, lo, rest, r);
    if IsRounding(f, mode, neg, x, c) {
      RoundingUnique(f, mode, neg, x, lo, rest, c, r);
    }
  }

  /** The outcome in terms of that one code c: overflow when c's value exceeds every finite one,
      inexact when it is not x, underflow when moreover x lies below the smallest normal value. */
  lemma RoundUnitsMeaning(f: Format, mode: Mode, neg: bool, x: real, c: nat)
    requires x >= 0.0 && IsRounding(f, mode, neg, x, c)
    ensures var o := RoundUnits(f, mode, neg, x);
            && (Overflow in o.flags <==> Units(f, c) > Units(f, f.Top() * f.Frac() - 1))
            && (Overflow !in o.flags ==> o.bits == WithSign(f, neg, c))
            && (Inexact in o.flags <==> Overflow in o.flags || Units(f, c) as real != x)
            && (Underflow in o.flags <==> Units(f, c) as real != x && x < f.Frac() as real && Overflow !in o.flags)
            && o.flags <= {Inexact, Overflow, Underflow}
  {
    RoundCodeIsRounding(f, mode, neg, x, c);
    var top := f.Top() * f.Frac();
    if c > top - 1 {
      UnitsMono(f, top - 1, c);
    } else if c < top - 1 {
      UnitsMono(f, c, top - 1);
    }
    hide Units, RoundCode, IsRounding;
  }
}
