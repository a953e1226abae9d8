/** Fused multiply-add over exact values: the product and the addend as wide significands. */
module MulAddTheory {
  import opened Powers
  import opened Rounding
  import opened Ieee754
  import opened RoundTheory
  import opened Words
  import opened Primitives
  import opened RoundPack
  import opened Unpack
  import opened F32Mul
  import opened Align

  // --- The specification, by cases ---

  lemma MulAddCases(f: Format, mode: Mode, a: nat, b: nat, c: nat)
    ensures var neg := Neg(f, a) != Neg(f, b);
            var r := MulAdd(f, mode, a, b, c);
            && (IsNaN(f, a) || IsNaN(f, b) ==>
                  r == Quiet(f, IsSignalling(f, a) || IsSignalling(f, b) || IsSignalling(f, c)))
            && (!IsNaN(f, a) && !IsNaN(f, b) ==>
                && ((IsInf(f, a) && IsZero(f, b)) || (IsZero(f, a) && IsInf(f, b)) ==> r == Quiet(f, true))
                && (IsNaN(f, c) && !((IsInf(f, a) && IsZero(f, b)) || (IsZero(f, a) && IsInf(f, b))) ==>
                      r == Quiet(f, IsSignalling(f, c)))
                && (!IsNaN(f, c) && ((IsInf(f, a) && !IsZero(f, b)) || (IsInf(f, b) && !IsZero(f, a))) ==>
                      r == if IsInf(f, c) && Neg(f, c) != neg then Quiet(f, true) else Inf(f, neg))
                && (IsFinite(f, a) && IsFinite(f, b) && IsInf(f, c) ==> r == Inf(f, Neg(f, c))))
  {
    hide Exact, IsSignalling, Val, Neg, Quiet, Inf;
  }

  lemma MulAddExact(f: Format, mode: Mode, a: nat, b: nat, c: nat, x: real)
    requires IsFinite(f, a) && IsFinite(f, b) && IsFinite(f, c)
    requires x == Val(f, a) * Val(f, b) + Val(f, c)
    ensures MulAdd(f, mode, a, b, c)
         == Exact(f, mode, if (Neg(f, a) != Neg(f, b)) == Neg(f, c) then Neg(f, c) else mode == Min, x)
  {
    hide Exact, Val, Neg;
  }

  /** The exact result of finite operands, by signs and by which term is larger. */
  lemma MulAddFinite(f: Format, mode: Mode, a: nat, b: nat, c: nat, p: real)
    requires IsFinite(f, a) && IsFinite(f, b) && IsFinite(f, c)
    requires p == Magnitude(f, a) * Magnitude(f, b)
    ensures var mc := Magnitude(f, c);
            var neg := Neg(f, a) != Neg(f, b);
            var r := MulAdd(f, mode, a, b, c);
            && p >= 0.0 && mc >= 0.0
            && (p == 0.0 <==> IsZero(f, a) || IsZero(f, b)) && (mc == 0.0 <==> IsZero(f, c))
            && (neg == Neg(f, c) ==>
                r == if p + mc == 0.0 then Zero(f, neg) else Signed(f, mode, neg, p + mc))
            && (neg != Neg(f, c) ==>
                && (p == mc ==> r == Zero(f, mode == Min))
                && (p > mc ==> r == Signed(f, mode, neg, p - mc))
                && (mc > p ==> r == Signed(f, mode, !neg, mc - p)))
  {
    hide *;
    ValSign(f, a);
    ValSign(f, b);
    ValSign(f, c);
    var neg := Neg(f, a) != Neg(f, b);
    SignedProduct(Magnitude(f, a), Magnitude(f, b));
    ZeroProduct(Magnitude(f, a), Magnitude(f, b));
    var x := (if neg then -p else p) + Val(f, c);
    MulAddExact(f, mode, a, b, c, x);
    var zeroNeg := if neg == Neg(f, c) then neg else mode == Min;
    var mc := Magnitude(f, c);
    if neg == Neg(f, c) {
      ExactSigned(f, mode, zeroNeg, x, neg, p + mc);
    } else if p >= mc {
      ExactSigned(f, mode, zeroNeg, x, neg, p - mc);
    } else {
      ExactSigned(f, mode, zeroNeg, x, !neg, mc - p);
    }
  }

  lemma ZeroProduct(x: real, y: real)
    ensures x * y == 0.0 <==> x == 0.0 || y == 0.0
  {
    if x != 0.0 && y != 0.0 {
      NonzeroProduct(x, y);
    }
  }

  // --- Wide significands: w extra bits below a significand of half the full size or more ---

  /** A sticky shift of a value that is itself sticky. */
  lemma JamTwice(y: real, s: nat, k: nat)
    requires Agree(y / 2.0, s as real / 2.0)
    ensures Agree(y / Exp2(k) as real / 2.0, Jam(s, k) as real / 2.0)
  {
    hide *;
    var c := Exp2(k) as real;
    AgreeCoarser(y / 2.0, s as real / 2.0, Exp2(k));
    JamAgrees(s, k);
    CrossDivide(y, 2.0, c);
    CrossDivide(s as real, 2.0, c);
    AgreeTrans(y / c / 2.0, s as real / c / 2.0, Jam(s, k) as real / 2.0);
  }

  lemma AgreeTrans(x: real, y: real, z: real)
    requires Agree(x, y) && Agree(y, z)
    ensures Agree(x, z)
  {
    hide IsInt;
  }

  lemma JamBounds(s: nat, k: nat, lo: nat, hi: nat)
    requires lo * Exp2(k) <= s < hi * Exp2(k) && hi % 2 == 0
    ensures lo <= Jam(s, k) < hi
  {
    hide *;
    var q := s / Exp2(k);
    assert s == q * Exp2(k) + s % Exp2(k);
    JamIs(s, k, q);
    if q < lo {
      ProductMono(q + 1, lo, Exp2(k));
    }
    if q >= hi {
      ProductMono(hi, q, Exp2(k));
    }
  }

  /** From the exact value y of a wide result to the rounded outcome, when the sticky word z keeps
      all but w of y's bits. */
  lemma WideRounds(f: Format, mode: Mode, neg: bool, w: nat, y: real, s: nat, exp: int, mag: real)
    requires Agree(y / 2.0, s as real / 2.0)
    requires f.Half() * Exp2(w) <= s < 4 * f.Half() * Exp2(w)
    requires mag > 0.0 && mag == Dyadic(y, exp - f.StepBits() + f.UnitExp() - w)
    ensures Renormalises(f, mode, neg, Signed(f, mode, neg, mag), Jam(s, w), exp)
  {
    hide *;
    JamTwice(y, s, w);
    JamBounds(s, w, f.Half(), 4 * f.Half());
    DyadicQuotient(y, exp - f.StepBits() + f.UnitExp() - w, w);
    RenormaliseRounds(f, mode, neg, y / Exp2(w) as real, Jam(s, w), exp, mag);
  }

  // --- Same signs ---

  /** The product's exponent is at most the addend's: shift the product down to it. */
  lemma SumLow(f: Format, mode: Mode, neg: bool, w: nat, sigC: nat, wide: nat, expC: int, d: nat, mag: real)
    requires f.Half() <= sigC < 2 * f.Half() && sigC % 2 == 0 && 0 <= Jam(wide, w + d) < 2 * f.Half()
    requires var e := expC - f.StepBits() + f.UnitExp();
             mag == Dyadic(sigC as real, e) + Dyadic(wide as real, e - (w + d))
    ensures Renormalises(f, mode, neg, Signed(f, mode, neg, mag), sigC + Jam(wide, w + d), expC)
  {
    hide *;
    var e := expC - f.StepBits() + f.UnitExp();
    AlignedSum(sigC, wide, w + d);
    DyadicAligned(sigC as real, wide as real, e, w + d);
    DyadicPositive(sigC as real, e);
    DyadicPositive(wide as real, e - (w + d));
    RenormaliseRounds(f, mode, neg, sigC as real + wide as real / Exp2(w + d) as real,
                      sigC + Jam(wide, w + d), expC, mag);
  }

  lemma ShiftedBelow(wide: nat, w: nat, d: nat, hi: nat)
    requires wide < hi * Exp2(w) && hi % 2 == 0
    ensures 0 <= Jam(wide, w + d) < hi
  {
    hide *;
    Exp2Mono(w, w + d);
    ProductMono(Exp2(w), Exp2(w + d), hi);
    JamBounds(wide, w + d, 0, hi);
  }

  /** The product's exponent is the larger: shift the addend down to it. */
  lemma SumHigh(f: Format, mode: Mode, neg: bool, w: nat, unit: nat, wide: nat, wideC: nat, expProd: int, d: nat,
      mag: real)
    requires unit == f.Half() * Exp2(w) && unit <= wide < 2 * unit && wideC < 2 * unit && wide % 2 == 0 && d > 0
    requires var e := expProd - f.StepBits() + f.UnitExp() - w;
             mag == Dyadic(wide as real, e) + Dyadic(wideC as real, e - d)
    ensures wide + Jam(wideC, d) < 4 * unit
    ensures Renormalises(f, mode, neg, Signed(f, mode, neg, mag), Jam(wide + Jam(wideC, d), w), expProd)
  {
    hide *;
    var e := expProd - f.StepBits() + f.UnitExp() - w;
    JamHalves(wideC, d);
    AlignedSum(wide, wideC, d);
    DyadicAligned(wide as real, wideC as real, e, d);
    DyadicPositive(wide as real, e);
    DyadicPositive(wideC as real, e - d);
    Multiples(f.Half(), Exp2(w), unit);
    HalfIsLarge(f, w, unit);
    WideRounds(f, mode, neg, w, wide as real + wideC as real / Exp2(d) as real, wide + Jam(wideC, d), expProd, mag);
  }

  lemma HalfIsLarge(f: Format, w: nat, unit: nat)
    requires unit == f.Half() * Exp2(w)
    ensures unit >= 8 && unit % 4 == 0
  {
    hide Exp2;
    match f {
      case F32 =>
      case F64 =>
    }
  }

  // --- Different signs ---

  /** y is the exact difference, diff the wide word holding it, sticky unless short. */
  ghost predicate Difference(unit: nat, y: real, diff: int) {
    0 < diff < 2 * unit && y > 0.0 && (y == diff as real || (Agree(y / 2.0, diff as real / 2.0) && unit <= 2 * diff))
  }

  lemma ShiftedDifference(unit: nat, big: nat, small: nat, d: nat)
    requires unit <= big < 2 * unit && small < 2 * unit && big % 2 == 0 && small % 2 == 0 && d > 0
    requires unit % 4 == 0
    ensures Difference(unit, big as real - small as real / Exp2(d) as real, big - Jam(small, d))
  {
    hide *;
    if d == 1 {
      ShiftedOnce(unit, big, small, small as real / Exp2(1) as real);
    } else {
      ShiftedFar(unit, big, small, d, small as real / Exp2(d) as real);
    }
  }

  lemma ShiftedOnce(unit: nat, big: nat, small: nat, t: real)
    requires unit <= big < 2 * unit && small < 2 * unit && small % 2 == 0 && t == small as real / Exp2(1) as real
    ensures Difference(unit, big as real - t, big - Jam(small, 1))
  {
    hide *;
    OneShiftExact(small);
    JamHalves(small, 1);
    QuotientBelow(small, 1, unit);
    ExactDifference(unit, big, t, Jam(small, 1));
  }

  lemma ShiftedFar(unit: nat, big: nat, small: nat, d: nat, t: real)
    requires unit <= big < 2 * unit && small < 2 * unit && big % 2 == 0 && small % 2 == 0 && d > 1
    requires unit % 4 == 0 && t == small as real / Exp2(d) as real
    ensures Difference(unit, big as real - t, big - Jam(small, d))
  {
    hide *;
    FarBelow(unit, small, d, t);
    FarWord(unit, small, d);
    FarAgrees(big, small, d, t);
    LossyDifference(unit, big, t, Jam(small, d));
  }

  lemma FarBelow(unit: nat, small: nat, d: nat, t: real)
    requires small < 2 * unit && d > 0 && t == small as real / Exp2(d) as real
    ensures t < unit as real
  {
    hide *;
    QuotientBelow(small, d, unit);
  }

  lemma FarWord(unit: nat, small: nat, d: nat)
    requires small < 2 * unit && d > 1 && unit % 4 == 0
    ensures 0 <= Jam(small, d) < unit / 2
  {
    hide *;
    QuarterBelow(small, d, unit / 2);
  }

  lemma FarAgrees(big: nat, small: nat, d: nat, t: real)
    requires big % 2 == 0 && small % 2 == 0 && d > 0 && t == small as real / Exp2(d) as real
    ensures Agree((big as real - t) / 2.0, (big - Jam(small, d)) as real / 2.0)
  {
    hide *;
    AlignedSum(big, small, d);
  }

  lemma ExactDifference(unit: nat, big: nat, t: real, j: nat)
    requires unit <= big < 2 * unit && j < unit && t == j as real
    ensures Difference(unit, big as real - t, big - j)
  {
    hide Agree;
  }

  /** What the shift kept is less than half a unit, so the difference keeps at least half of one. */
  lemma LossyDifference(unit: nat, big: nat, t: real, j: nat)
    requires unit <= big < 2 * unit && j < unit / 2 && t < unit as real
    requires Agree((big as real - t) / 2.0, (big - j) as real / 2.0)
    ensures Difference(unit, big as real - t, big - j)
  {
    hide *;
    assert 0 < big - j < 2 * unit && unit <= 2 * (big - j);
    assert big as real - t > 0.0;
    DifferenceIs(unit, big as real - t, big - j);
  }

  lemma QuarterBelow(small: nat, d: nat, h: nat)
    requires small < 4 * h && d >= 2 && h % 2 == 0
    ensures 0 <= Jam(small, d) < h
  {
    hide *;
    Exp2Mono(2, d);
    SmallExp2();
    var p := Exp2(d);
    ProductMono(4, p, h);
    JamBounds(small, d, 0, h);
  }

  lemma DifferenceIs(unit: nat, y: real, diff: int)
    ensures Difference(unit, y, diff) <==>
      0 < diff < 2 * unit && y > 0.0 && (y == diff as real || (Agree(y / 2.0, diff as real / 2.0) && unit <= 2 * diff))
  {
    hide Agree;
  }

  lemma QuotientBelow(small: nat, d: nat, unit: nat)
    requires small < 2 * unit && d > 0
    ensures small as real / Exp2(d) as real < unit as real
  {
    hide Exp2;
    Exp2Mono(1, d);
    SmallExp2();
    ProductMono(2, Exp2(d), unit);
    ToReal(unit, Exp2(d));
    DivideLess(small as real, unit as real, Exp2(d) as real);
  }

  /** Normalising the difference by sc places and dropping w bits, sticky. */
  lemma DifferenceRounds(f: Format, mode: Mode, neg: bool, w: nat, unit: nat, y: real, diff: nat, sc: nat, exp: int,
      mag: real)
    requires unit == f.Half() * Exp2(w) && w >= 4
    requires Difference(unit, y, diff)
    requires 2 * unit <= diff * Exp2(sc) < 4 * unit
    requires mag == Dyadic(y, exp - f.StepBits() + f.UnitExp() - w)
    ensures var z := if sc < w then Jam(diff, w - sc) else diff * Exp2(sc - w);
            f.Full() <= z < 2 * f.Full() && Packs(f, mode, neg, Signed(f, mode, neg, mag), z, exp - sc)
  {
    hide *;
    DifferenceIs(unit, y, diff);
    DyadicPositive(y, exp - f.StepBits() + f.UnitExp() - w);
    if sc < w {
      DifferenceAgrees(unit, y, diff);
      ShortShiftBounds(f, w, unit, diff, sc);
      WideRounds(f, mode, neg, w - sc, y, diff, exp - sc, mag);
      RenormalisesIs(f, mode, neg, Signed(f, mode, neg, mag), Jam(diff, w - sc), exp - sc);
    } else {
      LongShiftExact(unit, diff, sc, w);
      LongShiftBounds(f, w, unit, diff, sc);
      LongShiftRounds(f, mode, neg, w, diff, sc, exp, mag);
    }
  }

  lemma DifferenceAgrees(unit: nat, y: real, diff: int)
    requires Difference(unit, y, diff)
    ensures Agree(y / 2.0, diff as real / 2.0)
  {
    hide IsInt;
  }

  lemma LongShiftRounds(f: Format, mode: Mode, neg: bool, w: nat, diff: nat, sc: nat, exp: int, mag: real)
    requires sc >= w && mag > 0.0 && mag == Dyadic(diff as real, exp - f.StepBits() + f.UnitExp() - w)
    requires f.Full() <= diff * Exp2(sc - w) < 2 * f.Full()
    ensures Packs(f, mode, neg, Signed(f, mode, neg, mag), diff * Exp2(sc - w), exp - sc)
  {
    hide *;
    var z := diff * Exp2(sc - w);
    ToReal(diff, Exp2(sc - w));
    DyadicShift(diff as real, z as real, exp - sc - f.StepBits() + f.UnitExp(), sc - w);
    StandsForItself(f, z);
    FinishPacks(f, mode, neg, z as real, z, exp - sc, mag);
  }

  lemma Multiples(h: nat, e: nat, unit: nat)
    requires unit == h * e
    ensures 2 * unit == (2 * h) * e && 4 * unit == (4 * h) * e
  {
  }

  lemma ShortShiftBounds(f: Format, w: nat, unit: nat, diff: nat, sc: nat)
    requires unit == f.Half() * Exp2(w) && sc < w
    requires 2 * unit <= diff * Exp2(sc) < 4 * unit
    ensures f.Half() * Exp2(w - sc) <= diff < 4 * f.Half() * Exp2(w - sc)
    ensures f.Full() <= Jam(diff, w - sc) < 2 * f.Full()
  {
    hide *;
    Exp2Add(w - sc, sc);
    Multiples(f.Half(), Exp2(w), unit);
    CancelFactor(2 * f.Half(), Exp2(w - sc), Exp2(sc), diff, 2 * unit);
    CancelFactor(4 * f.Half(), Exp2(w - sc), Exp2(sc), diff, 4 * unit);
    ProductMono(f.Half(), 2 * f.Half(), Exp2(w - sc));
    JamBounds(diff, w - sc, 2 * f.Half(), 4 * f.Half());
  }

  lemma LongShiftBounds(f: Format, w: nat, unit: nat, diff: nat, sc: nat)
    requires unit == f.Half() * Exp2(w) && sc >= w
    requires 2 * unit <= diff * Exp2(sc) < 4 * unit
    ensures f.Full() <= diff * Exp2(sc - w) < 2 * f.Full()
  {
    hide *;
    var z := diff * Exp2(sc - w);
    Exp2Add(sc - w, w);
    Associate(diff, Exp2(sc - w), Exp2(w));
    Multiples(f.Half(), Exp2(w), unit);
    CancelFactor(2 * f.Half(), 1, Exp2(w), z, 2 * unit);
    CancelFactor(4 * f.Half(), 1, Exp2(w), z, 4 * unit);
  }

  /** h * e * p and x * p compare as h * e and x do. */
  lemma CancelFactor(h: nat, e: nat, p: nat, x: nat, hep: nat)
    requires p > 0 && hep == h * (e * p)
    ensures hep <= x * p <==> h * e <= x
    ensures x * p < hep <==> x < h * e
  {
    Associate(h, e, p);
    if h * e <= x {
      ProductMono(h * e, x, p);
    } else {
      ProductMono(x + 1, h * e, p);
    }
  }

  /** A shift of w places or more means cancellation, and cancellation means no bit was lost. */
  lemma LongShiftExact(unit: nat, diff: nat, sc: nat, w: nat)
    requires diff * Exp2(sc) < 4 * unit && sc >= w >= 4
    ensures 4 * diff < unit
  {
    hide *;
    Exp2Mono(4, sc);
    SmallExp2();
    ProductMono(16, Exp2(sc), diff);
  }

  // --- The operands: a product with w spare bits, and an addend ---

  ghost predicate ProductOf(f: Format, w: nat, a: nat, b: nat, exp: int, wide: nat) {
    && f.Half() * Exp2(w) <= wide < 2 * (f.Half() * Exp2(w)) && wide % 2 == 0
    && Magnitude(f, a) * Magnitude(f, b) == Dyadic(wide as real, exp - f.StepBits() + f.UnitExp() - w)
  }

  ghost predicate AddendOf(f: Format, c: nat, exp: int, sig: nat) {
    && f.Half() <= sig < 2 * f.Half() && sig % 2 == 0
    && Magnitude(f, c) == Dyadic(sig as real, exp - f.StepBits() + f.UnitExp())
  }

  /** Finite operands with a non-zero product. */
  ghost predicate Regular(f: Format, a: nat, b: nat, c: nat) {
    IsFinite(f, a) && IsFinite(f, b) && IsFinite(f, c) && !IsZero(f, a) && !IsZero(f, b)
  }

  lemma ProductIs(f: Format, w: nat, a: nat, b: nat, exp: int, wide: nat)
    requires ProductOf(f, w, a, b, exp, wide)
    ensures f.Half() * Exp2(w) <= wide < 2 * (f.Half() * Exp2(w)) && wide % 2 == 0
    ensures Magnitude(f, a) * Magnitude(f, b) == Dyadic(wide as real, exp - f.StepBits() + f.UnitExp() - w)
  {
    hide Magnitude, Dyadic, Exp2;
  }

  lemma AddendIs(f: Format, c: nat, exp: int, sig: nat)
    requires AddendOf(f, c, exp, sig)
    ensures f.Half() <= sig < 2 * f.Half() && sig % 2 == 0
    ensures Magnitude(f, c) == Dyadic(sig as real, exp - f.StepBits() + f.UnitExp())
  {
    hide Magnitude, Dyadic;
  }

  lemma RegularFinite(f: Format, mode: Mode, a: nat, b: nat, c: nat, p: real)
    requires Regular(f, a, b, c) && p == Magnitude(f, a) * Magnitude(f, b)
    ensures var mc := Magnitude(f, c);
            var neg := Neg(f, a) != Neg(f, b);
            var r := MulAdd(f, mode, a, b, c);
            && p > 0.0 && mc >= 0.0 && (mc == 0.0 <==> IsZero(f, c))
            && (neg == Neg(f, c) || mc == 0.0 ==> r == Signed(f, mode, neg, p + mc))
            && (neg != Neg(f, c) ==>
                && (p == mc ==> r == Zero(f, mode == Min))
                && (p > mc ==> r == Signed(f, mode, neg, p - mc))
                && (mc > p ==> r == Signed(f, mode, !neg, mc - p)))
  {
    hide IsFinite, IsZero, Magnitude, Signed, MulAdd, Zero;
    MulAddFinite(f, mode, a, b, c, p);
    var mc := Magnitude(f, c);
    if mc == 0.0 {
      SameSigned(f, mode, Neg(f, a) != Neg(f, b), p - mc, p + mc);
    }
  }

  lemma SameSigned(f: Format, mode: Mode, neg: bool, x: real, y: real)
    requires x == y
    ensures Signed(f, mode, neg, x) == Signed(f, mode, neg, y)
  {
  }

  /** The addend moved up to the product's extra bits. */
  lemma WideAddend(f: Format, w: nat, c: nat, exp: int, sig: nat, wideC: nat)
    requires AddendOf(f, c, exp, sig) && wideC == sig * Exp2(w)
    ensures f.Half() * Exp2(w) <= wideC < 2 * (f.Half() * Exp2(w)) && wideC % 2 == 0
    ensures Magnitude(f, c) == Dyadic(wideC as real, exp - f.StepBits() + f.UnitExp() - w)
  {
    hide *;
    AddendIs(f, c, exp, sig);
    ProductMono(f.Half(), sig, Exp2(w));
    ProductMono(sig + 1, 2 * f.Half(), Exp2(w));
    Multiples(f.Half(), Exp2(w), f.Half() * Exp2(w));
    EvenProduct(sig, Exp2(w));
    ToReal(sig, Exp2(w));
    DyadicShift(sig as real, wideC as real, exp - f.StepBits() + f.UnitExp() - w, w);
  }

  lemma EvenProduct(x: nat, y: nat)
    requires x % 2 == 0
    ensures (x * y) % 2 == 0
  {
    var h := x / 2;
    assert x * y == 2 * (h * y) by { assert x == 2 * h; }
  }

  lemma MulAddNoAddend(f: Format, mode: Mode, a: nat, b: nat, c: nat, w: nat, exp: int, wide: nat)
    requires Regular(f, a, b, c) && IsZero(f, c) && ProductOf(f, w, a, b, exp, wide) && w > 0
    ensures Packs(f, mode, Neg(f, a) != Neg(f, b), MulAdd(f, mode, a, b, c), Jam(wide, w - 1), exp - 1)
  {
    hide *;
    var neg, p := Neg(f, a) != Neg(f, b), Magnitude(f, a) * Magnitude(f, b);
    var unit := f.Half() * Exp2(w);
    ProductIs(f, w, a, b, exp, wide);
    RegularFinite(f, mode, a, b, c, p);
    SameSigned(f, mode, neg, p, p + Magnitude(f, c));
    HalfIsLarge(f, w, unit);
    SmallExp2();
    Exp2Double(w - 1);
    AgreeItself(wide);
    NoAddendBounds(f, w, unit, wide);
    WideRounds(f, mode, neg, w - 1, wide as real, wide, exp - 1, p);
    RenormalisesIs(f, mode, neg, Signed(f, mode, neg, p), Jam(wide, w - 1), exp - 1);
  }

  lemma NoAddendBounds(f: Format, w: nat, unit: nat, wide: nat)
    requires w > 0 && unit == f.Half() * Exp2(w) && unit <= wide < 2 * unit
    ensures f.Half() * Exp2(w - 1) <= wide < 4 * f.Half() * Exp2(w - 1)
    ensures f.Full() <= Jam(wide, w - 1)
  {
    hide *;
    Exp2Double(w - 1);
    var e := Exp2(w - 1);
    assert unit == 2 * (f.Half() * e) by { Doubling(f.Half(), e); }
    Multiples(f.Half(), e, f.Half() * e);
    JamBounds(wide, w - 1, 2 * f.Half(), 4 * f.Half());
  }

  lemma AgreeItself(s: nat)
    ensures Agree(s as real / 2.0, s as real / 2.0)
  {
    hide IsInt;
  }

  lemma MulAddSumLow(f: Format, mode: Mode, a: nat, b: nat, c: nat, w: nat, expP: int, wide: nat, expC: int, sigC: nat)
    requires Regular(f, a, b, c) && ProductOf(f, w, a, b, expP, wide) && AddendOf(f, c, expC, sigC)
    requires (Neg(f, a) != Neg(f, b)) == Neg(f, c) && expP <= expC
    ensures Renormalises(f, mode, Neg(f, c), MulAdd(f, mode, a, b, c), sigC + Jam(wide, w + (expC - expP)), expC)
  {
    hide *;
    var p := Magnitude(f, a) * Magnitude(f, b);
    AddendIs(f, c, expC, sigC);
    RegularFinite(f, mode, a, b, c, p);
    ProductBelow(f, w, a, b, expP, wide, expC - expP, p);
    SumLow(f, mode, Neg(f, c), w, sigC, wide, expC, expC - expP, p + Magnitude(f, c));
  }

  lemma ProductBelow(f: Format, w: nat, a: nat, b: nat, expP: int, wide: nat, d: nat, p: real)
    requires ProductOf(f, w, a, b, expP, wide) && p == Magnitude(f, a) * Magnitude(f, b)
    ensures 0 <= Jam(wide, w + d) < 2 * f.Half()
    ensures p == Dyadic(wide as real, expP - f.StepBits() + f.UnitExp() - w)
  {
    hide *;
    ProductIs(f, w, a, b, expP, wide);
    var unit := f.Half() * Exp2(w);
    Multiples(f.Half(), Exp2(w), unit);
    ShiftedBelow(wide, w, d, 2 * f.Half());
  }

  lemma MulAddSumHigh(f: Format, mode: Mode, a: nat, b: nat, c: nat, w: nat, expP: int, wide: nat, expC: int,
      sigC: nat, wideC: nat)
    requires Regular(f, a, b, c) && ProductOf(f, w, a, b, expP, wide) && AddendOf(f, c, expC, sigC)
    requires (Neg(f, a) != Neg(f, b)) == Neg(f, c) && expP > expC && wideC == sigC * Exp2(w)
    ensures wide + Jam(wideC, expP - expC) < 4 * (f.Half() * Exp2(w))
    ensures Renormalises(f, mode, Neg(f, c), MulAdd(f, mode, a, b, c), Jam(wide + Jam(wideC, expP - expC), w), expP)
  {
    hide *;
    var p := Magnitude(f, a) * Magnitude(f, b);
    ProductIs(f, w, a, b, expP, wide);
    WideAddend(f, w, c, expC, sigC, wideC);
    RegularFinite(f, mode, a, b, c, p);
    SumHigh(f, mode, Neg(f, c), w, f.Half() * Exp2(w), wide, wideC, expP, expP - expC, p + Magnitude(f, c));
  }

  /** The sign and exponent of the difference, and the wide word that holds it. */
  lemma MulAddDifference(f: Format, mode: Mode, a: nat, b: nat, c: nat, w: nat, expP: int, wide: nat, expC: int,
      sigC: nat, wideC: nat)
    returns (y: real)
    requires Regular(f, a, b, c) && ProductOf(f, w, a, b, expP, wide) && AddendOf(f, c, expC, sigC)
    requires (Neg(f, a) != Neg(f, b)) != Neg(f, c) && wideC == sigC * Exp2(w)
    ensures var unit := f.Half() * Exp2(w);
            var o := MulAdd(f, mode, a, b, c);
            var shift := w + f.StepBits() - f.UnitExp();
            && (expP < expC ==>
                  && Difference(unit, y, wideC - Jam(wide, expC - expP))
                  && o == Signed(f, mode, Neg(f, c), Dyadic(y, expC - shift)))
            && (expP > expC ==>
                  && Difference(unit, y, wide - Jam(wideC, expP - expC))
                  && o == Signed(f, mode, !Neg(f, c), Dyadic(y, expP - shift)))
            && (expP == expC ==>
                  && (wide == wideC ==> o == Zero(f, mode == Min))
                  && (wide < wideC ==> Difference(unit, y, wideC - wide))
                  && (wide < wideC ==> o == Signed(f, mode, Neg(f, c), Dyadic(y, expP - shift)))
                  && (wide > wideC ==> Difference(unit, y, wide - wideC))
                  && (wide > wideC ==> o == Signed(f, mode, !Neg(f, c), Dyadic(y, expP - shift))))
  {
    hide *;
    var unit, p := f.Half() * Exp2(w), Magnitude(f, a) * Magnitude(f, b);
    var shift := w + f.StepBits() - f.UnitExp();
    ProductIs(f, w, a, b, expP, wide);
    WideAddend(f, w, c, expC, sigC, wideC);
    RegularFinite(f, mode, a, b, c, p);
    HalfIsLarge(f, w, unit);
    if expP < expC {
      var d := expC - expP;
      ShiftedDifference(unit, wideC, wide, d);
      DyadicAligned(wideC as real, wide as real, expC - shift, d);
      y := wideC as real - wide as real / Exp2(d) as real;
      DifferenceIs(unit, y, wideC - Jam(wide, d));
      DyadicPositive(y, expC - shift);
    } else if expP > expC {
      var d := expP - expC;
      ShiftedDifference(unit, wide, wideC, d);
      DyadicAligned(wide as real, wideC as real, expP - shift, d);
      y := wide as real - wideC as real / Exp2(d) as real;
      DifferenceIs(unit, y, wide - Jam(wideC, d));
      DyadicPositive(y, expP - shift);
    } else {
      DyadicDifference(wide as real, wideC as real, expP - shift);
      y := if wide < wideC then (wideC - wide) as real else (wide - wideC) as real;
      DyadicPositive(y, expP - shift);
      DifferenceIs(unit, y, wideC - wide);
      DifferenceIs(unit, y, wide - wideC);
    }
  }

  lemma DyadicDifference(x: real, y: real, e: int)
    ensures Dyadic(x, e) - Dyadic(y, e) == Dyadic(x - y, e)
    ensures Dyadic(y, e) - Dyadic(x, e) == Dyadic(y - x, e)
  {
    hide *;
    DyadicIs(x, e);
    DyadicIs(y, e);
    DyadicIs(x - y, e);
    DyadicIs(y - x, e);
    DistributeReal(x, y, Pow2(e));
    DistributeReal(y, x, Pow2(e));
  }

  // --- A zero product ---

  /** A representable value of either sign rounds to itself. */
  lemma RoundsToItself(f: Format, mode: Mode, c: nat)
    requires IsBits(f, c) && IsFinite(f, c) && !IsZero(f, c)
    ensures Signed(f, mode, Neg(f, c), Magnitude(f, c)) == Outcome(c, {})
  {
    hide *;
    var mc := Magnitude(f, c);
    ValSign(f, c);
    SignedIs(f, mode, Neg(f, c), mc);
    RoundSigned(f, mode, Neg(f, c), mc);
    MagnitudeIs(f, c);
    CancelDivide(Units(f, Code(f, c)) as real, Pow2(f.UnitExp()));
    assert mc / Pow2(f.UnitExp()) == Units(f, Code(f, c)) as real;
    CodeInRange(f, c);
    ExactRounds(f, mode, Neg(f, c), Code(f, c));
  }

  lemma CodeInRange(f: Format, c: nat)
    requires IsBits(f, c)
    ensures IsFinite(f, c) ==> Code(f, c) < f.Top() * f.Frac()
    ensures WithSign(f, Neg(f, c), Code(f, c)) == c
  {
  }

  lemma ZeroProductOutcome(f: Format, mode: Mode, a: nat, b: nat, c: nat)
    requires IsFinite(f, a) && IsFinite(f, b) && IsFinite(f, c) && IsBits(f, c) && (IsZero(f, a) || IsZero(f, b))
    ensures MulAdd(f, mode, a, b, c)
         == if IsZero(f, c) && (Neg(f, a) != Neg(f, b)) != Neg(f, c) then Zero(f, mode == Min) else Outcome(c, {})
  {
    hide *;
    MulAddFinite(f, mode, a, b, c, Magnitude(f, a) * Magnitude(f, b));
    var neg := Neg(f, a) != Neg(f, b);
    if IsZero(f, c) {
      ZeroItself(f, c);
    } else {
      RoundsToItself(f, mode, c);
      var p, mc := Magnitude(f, a) * Magnitude(f, b), Magnitude(f, c);
      SameSigned(f, mode, Neg(f, c), p + mc, mc);
      SameSigned(f, mode, Neg(f, c), mc - p, mc);
    }
  }

  lemma ZeroItself(f: Format, c: nat)
    requires IsBits(f, c) && IsZero(f, c)
    ensures Zero(f, Neg(f, c)) == Outcome(c, {})
  {
  }

  // --- The operation argument ---

  /** a * b + c, a * b - c and c - a * b: the values 0, 1 and 2 of op. */
  datatype MulAddOp = AddC | SubC | SubProd

  /** The encoding with its sign bit flipped. */
  function Negated(f: Format, a: nat): nat
    requires IsBits(f, a)
  {
    if Neg(f, a) then a - f.SignBit() else a + f.SignBit()
  }

  lemma NegatedIs(f: Format, a: nat)
    requires IsBits(f, a)
    ensures var n := Negated(f, a);
            && IsBits(f, n) && Neg(f, n) != Neg(f, a) && Code(f, n) == Code(f, a) && n != a
            && IsNaN(f, n) == IsNaN(f, a) && IsInf(f, n) == IsInf(f, a) && IsFinite(f, n) == IsFinite(f, a)
            && IsZero(f, n) == IsZero(f, a) && Magnitude(f, n) == Magnitude(f, a) && Val(f, n) == -Val(f, a)
            && Negated(f, n) == a
  {
    hide Units, Pow2;
  }

  lemma NegatedSignals(f: Format, a: nat)
    requires IsBits(f, a)
    ensures IsSignalling(f, Negated(f, a)) == IsSignalling(f, a)
  {
    NegatedIs(f, a);
    FlippedField(f, a);
    hide IsNaN, FracField, Negated, IsBits;
  }

  lemma FlippedField(f: Format, a: nat)
    requires IsBits(f, a)
    ensures FracField(f, Negated(f, a)) == FracField(f, a)
  {
    match f {
      case F32 =>
        FieldOfSum(if Neg(F32, a) then a - 0x8000_0000 else a, 0x80_0000, 0x100);
      case F64 =>
        FieldOfSum(if Neg(F64, a) then a - 0x8000_0000_0000_0000 else a, 0x10_0000_0000_0000, 0x800);
    }
  }

  lemma FieldOfSum(x: nat, m: nat, k: nat)
    requires m > 0
    ensures (x + k * m) % m == x % m
  {
    hide *;
    var q := x / m;
    assert x + k * m == (q + k) * m + x % m;
    Euclid(x + k * m, m, q + k, x % m);
  }

  function OpA(f: Format, op: MulAddOp, a: nat): nat
    requires IsBits(f, a)
  {
    if op == SubProd then Negated(f, a) else a
  }

  function OpC(f: Format, op: MulAddOp, c: nat): nat
    requires IsBits(f, c)
  {
    if op == SubC then Negated(f, c) else c
  }

  /** The operands the operation is about: each like the one given, but perhaps for its sign. */
  lemma OpIs(f: Format, op: MulAddOp, a: nat, c: nat)
    requires IsBits(f, a) && IsBits(f, c)
    ensures Like(f, a, OpA(f, op, a)) && Neg(f, OpA(f, op, a)) == (Neg(f, a) != (op == SubProd))
    ensures Like(f, c, OpC(f, op, c)) && Neg(f, OpC(f, op, c)) == (Neg(f, c) != (op == SubC))
    ensures op != SubC ==> OpC(f, op, c) == c
    ensures op != SubProd ==> OpA(f, op, a) == a
    ensures op == SubC ==> OpC(f, op, c) == Negated(f, c)
  {
    hide *;
    NegatedIs(f, a);
    NegatedIs(f, c);
    NegatedSignals(f, a);
    NegatedSignals(f, c);
    LikeIs(f, a, OpA(f, op, a));
    LikeIs(f, c, OpC(f, op, c));
    OpCases(f, op, a, c);
  }

  lemma OpCases(f: Format, op: MulAddOp, a: nat, c: nat)
    requires IsBits(f, a) && IsBits(f, c)
    ensures OpA(f, op, a) == if op == SubProd then Negated(f, a) else a
    ensures OpC(f, op, c) == if op == SubC then Negated(f, c) else c
  {
  }

  /** Of the same magnitude and class. */
  ghost predicate Like(f: Format, x: nat, y: nat) {
    && IsBits(f, y) && IsNaN(f, y) == IsNaN(f, x) && IsInf(f, y) == IsInf(f, x) && IsFinite(f, y) == IsFinite(f, x)
    && IsZero(f, y) == IsZero(f, x) && IsSignalling(f, y) == IsSignalling(f, x) && Magnitude(f, y) == Magnitude(f, x)
  }

  lemma LikeIs(f: Format, x: nat, y: nat)
    ensures Like(f, x, y) <==>
      && IsBits(f, y) && IsNaN(f, y) == IsNaN(f, x) && IsInf(f, y) == IsInf(f, x) && IsFinite(f, y) == IsFinite(f, x)
      && IsZero(f, y) == IsZero(f, x) && IsSignalling(f, y) == IsSignalling(f, x) && Magnitude(f, y) == Magnitude(f, x)
  {
    hide IsBits, IsNaN, IsInf, IsFinite, IsZero, IsSignalling, Magnitude;
  }

  /** Where subtracting c returns c itself, its sign not flipped. */
  predicate Unflipped(f: Format, op: MulAddOp, a: nat, b: nat, c: nat) {
    && op == SubC && IsFinite(f, a) && IsFinite(f, b)
    && (IsInf(f, c)
        || ((IsZero(f, a) || IsZero(f, b)) && IsFinite(f, c)
            && !(IsZero(f, c) && (Neg(f, a) != Neg(f, b)) == Neg(f, c))))
  }

  lemma UnflippedIs(f: Format, op: MulAddOp, a: nat, b: nat, c: nat)
    ensures Unflipped(f, op, a, b, c) <==>
      && op == SubC && IsFinite(f, a) && IsFinite(f, b)
      && (IsInf(f, c)
          || ((IsZero(f, a) || IsZero(f, b)) && IsFinite(f, c)
              && !(IsZero(f, c) && (Neg(f, a) != Neg(f, b)) == Neg(f, c))))
  {
    hide IsInf, IsFinite, IsZero, Neg;
  }

  /** What the routine answers for each operation. */
  function MulAddAnswer(f: Format, mode: Mode, op: MulAddOp, a: nat, b: nat, c: nat): Outcome
    requires IsBits(f, a) && IsBits(f, c)
  {
    if Unflipped(f, op, a, b, c) then Outcome(c, {}) else MulAdd(f, mode, OpA(f, op, a), b, OpC(f, op, c))
  }

  lemma MulAddAnswerIs(f: Format, mode: Mode, op: MulAddOp, a: nat, b: nat, c: nat)
    requires IsBits(f, a) && IsBits(f, c)
    ensures MulAddAnswer(f, mode, op, a, b, c) ==
      if Unflipped(f, op, a, b, c) then Outcome(c, {}) else MulAdd(f, mode, OpA(f, op, a), b, OpC(f, op, c))
    ensures op != SubC ==> MulAddAnswer(f, mode, op, a, b, c) == MulAdd(f, mode, OpA(f, op, a), b, c)
    ensures op == AddC ==> MulAddAnswer(f, mode, op, a, b, c) == MulAdd(f, mode, a, b, c)
  {
    hide MulAdd;
  }

  /** Flipping signs beforehand asks for the signed combination of the product and the addend. */
  lemma FusedIs(f: Format, mode: Mode, negProd: bool, subC: bool, a: nat, b: nat, c: nat)
    requires IsBits(f, a) && IsBits(f, c)
    ensures Fused(f, mode, negProd, subC, a, b, c)
         == MulAdd(f, mode, if negProd then Negated(f, a) else a, b, if subC then Negated(f, c) else c)
  {
    hide *;
    NegatedIs(f, a);
    NegatedIs(f, c);
    NegatedSignals(f, a);
    NegatedSignals(f, c);
    ClassesOf(f, a);
    ClassesOf(f, b);
    ClassesOf(f, c);
    var a', c' := if negProd then Negated(f, a) else a, if subC then Negated(f, c) else c;
    FusedCases(f, mode, negProd, subC, a, b, c);
    MulAddCases(f, mode, a', b, c');
    if IsFinite(f, a) && IsFinite(f, b) && IsFinite(f, c) {
      var p := Val(f, a) * Val(f, b);
      SignedTimes(Val(f, a), Val(f, a'), Val(f, b), negProd);
      MulAddExact(f, mode, a', b, c', (if negProd then -p else p) + Val(f, c'));
      FusedExact(f, mode, negProd, subC, a, b, c, p);
    }
  }

  lemma SignedTimes(x: real, x': real, y: real, neg: bool)
    requires x' == if neg then -x else x
    ensures x' * y == if neg then -(x * y) else x * y
  {
  }

  lemma FusedCases(f: Format, mode: Mode, negProd: bool, subC: bool, a: nat, b: nat, c: nat)
    ensures var neg, negC := (Neg(f, a) != Neg(f, b)) != negProd, Neg(f, c) != subC;
            var r := Fused(f, mode, negProd, subC, a, b, c);
            && (IsNaN(f, a) || IsNaN(f, b) ==>
                  r == Quiet(f, IsSignalling(f, a) || IsSignalling(f, b) || IsSignalling(f, c)))
            && (!IsNaN(f, a) && !IsNaN(f, b) ==>
                && ((IsInf(f, a) && IsZero(f, b)) || (IsZero(f, a) && IsInf(f, b)) ==> r == Quiet(f, true))
                && (IsNaN(f, c) && !((IsInf(f, a) && IsZero(f, b)) || (IsZero(f, a) && IsInf(f, b))) ==>
                      r == Quiet(f, IsSignalling(f, c)))
                && (!IsNaN(f, c) && ((IsInf(f, a) && !IsZero(f, b)) || (IsInf(f, b) && !IsZero(f, a))) ==>
                      r == if IsInf(f, c) && negC != neg then Quiet(f, true) else Inf(f, neg))
                && (IsFinite(f, a) && IsFinite(f, b) && IsInf(f, c) ==> r == Inf(f, negC)))
  {
    hide Exact, IsSignalling, Val, Neg, Quiet, Inf;
  }

  lemma FusedExact(f: Format, mode: Mode, negProd: bool, subC: bool, a: nat, b: nat, c: nat, p: real)
    requires IsFinite(f, a) && IsFinite(f, b) && IsFinite(f, c) && p == Val(f, a) * Val(f, b)
    ensures Fused(f, mode, negProd, subC, a, b, c)
         == Exact(f, mode,
                  if ((Neg(f, a) != Neg(f, b)) != negProd) == (Neg(f, c) != subC)
                  then Neg(f, c) != subC else mode == Min,
                  (if negProd then -p else p) + (if subC then -Val(f, c) else Val(f, c)))
  {
    hide Exact, Val, Neg;
  }

  /** Subtracting c is wrong exactly where c comes back unflipped; the other operations never are. */
  lemma AnswerIsFused(f: Format, mode: Mode, op: MulAddOp, a: nat, b: nat, c: nat)
    requires IsBits(f, a) && IsBits(f, b) && IsBits(f, c)
    ensures MulAddAnswer(f, mode, op, a, b, c) == Fused(f, mode, op == SubProd, op == SubC, a, b, c)
      <==> !Unflipped(f, op, a, b, c)
  {
    hide *;
    MulAddAnswerIs(f, mode, op, a, b, c);
    FusedIs(f, mode, op == SubProd, op == SubC, a, b, c);
    OpCases(f, op, a, c);
    UnflippedIs(f, op, a, b, c);
    if Unflipped(f, op, a, b, c) {
      var n := Negated(f, c);
      NegatedIs(f, c);
      ClassesOf(f, a);
      ClassesOf(f, b);
      ClassesOf(f, c);
      if IsInf(f, c) {
        MulAddCases(f, mode, a, b, n);
        InfItself(f, n);
      } else {
        ZeroProductOutcome(f, mode, a, b, n);
      }
    }
  }

  lemma InfItself(f: Format, c: nat)
    requires IsBits(f, c) && IsInf(f, c)
    ensures Inf(f, Neg(f, c)) == Outcome(c, {})
  {
  }

  lemma ClassesOf(f: Format, a: nat)
    ensures IsNaN(f, a) || IsInf(f, a) || IsFinite(f, a)
    ensures !(IsNaN(f, a) && IsInf(f, a)) && !(IsNaN(f, a) && IsFinite(f, a)) && !(IsInf(f, a) && IsFinite(f, a))
    ensures IsZero(f, a) ==> IsFinite(f, a)
    ensures IsSignalling(f, a) ==> IsNaN(f, a)
  {
  }

  /** Subtracting an infinity from zero answers that infinity. */
  lemma UnflippedInput()
    ensures MulAddAnswer(F32, NearEven, SubC, 0, 0, 0x7F80_0000) == Outcome(0x7F80_0000, {})
    ensures Fused(F32, NearEven, false, true, 0, 0, 0x7F80_0000) == Outcome(0xFF80_0000, {})
  {
    hide Exact, Val;
  }

  /** Operands of the product and the addend, told from others of their magnitude by ghosts alone. */
  lemma LikeOperands(f: Format, w: nat, a: nat, a': nat, b: nat, c: nat, c': nat, expProd: int, wide: nat)
    requires Like(f, a, a') && Like(f, c, c')
    ensures Regular(f, a', b, c') == Regular(f, a, b, c)
    ensures ProductOf(f, w, a', b, expProd, wide) == ProductOf(f, w, a, b, expProd, wide)
  {
    hide Exp2, Dyadic, Magnitude, IsFinite, IsZero, IsNaN, IsInf, IsSignalling;
  }

  lemma LikeAddend(f: Format, c: nat, c': nat, expC: int, sigC: nat)
    requires Like(f, c, c')
    ensures AddendOf(f, c', expC, sigC) == AddendOf(f, c, expC, sigC)
  {
    hide Dyadic, Magnitude, IsFinite, IsZero, IsNaN, IsInf, IsSignalling;
  }
}
