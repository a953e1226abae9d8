/** Sums and differences of significands after one of them is shifted right, sticky. */
module Align {
  import opened Powers
  import opened Rounding
  import opened Ieee754
  import opened RoundTheory
  import opened Words
  import opened Primitives
  import opened RoundPack
  import opened Unpack

  lemma AlignedSum(big: int, small: nat, d: nat)
    requires big % 2 == 0
    ensures Agree((big as real + small as real / Exp2(d) as real) / 2.0, (big + Jam(small, d)) as real / 2.0)
    ensures Agree((big as real - small as real / Exp2(d) as real) / 2.0, (big - Jam(small, d)) as real / 2.0)
  {
    hide *;
    var x, y := small as real / Exp2(d) as real / 2.0, Jam(small, d) as real / 2.0;
    JamAgrees(small, d);
    AgreeShift(x, y, big / 2);
    HalfSum(big, small as real / Exp2(d) as real);
    HalfSum(big, Jam(small, d) as real);
  }

  lemma HalfSum(big: int, y: real)
    requires big % 2 == 0
    ensures (big as real + y) / 2.0 == (big / 2) as real + y / 2.0
    ensures (big as real - y) / 2.0 == (big / 2) as real - y / 2.0
  {
  }

  /** The larger magnitude plus or minus the smaller, over the larger one's exponent. */
  lemma DyadicAligned(big: real, small: real, e: int, d: nat)
    ensures Dyadic(big, e) + Dyadic(small, e - d) == Dyadic(big + small / Exp2(d) as real, e)
    ensures Dyadic(big, e) - Dyadic(small, e - d) == Dyadic(big - small / Exp2(d) as real, e)
  {
    hide *;
    var s := small / Exp2(d) as real;
    DyadicQuotient(small, e - d, d);
    DyadicIs(big, e);
    DyadicIs(s, e);
    DyadicIs(big + s, e);
    DyadicIs(big - s, e);
    DistributeReal(big, s, Pow2(e));
  }

  lemma DistributeReal(x: real, y: real, p: real)
    ensures (x + y) * p == x * p + y * p
    ensures (x - y) * p == x * p - y * p
  {
  }

  lemma DyadicPositive(x: real, e: int)
    ensures x > 0.0 ==> Dyadic(x, e) > 0.0
    ensures x == 0.0 ==> Dyadic(x, e) == 0.0
    ensures x < 0.0 ==> Dyadic(x, e) < 0.0
  {
    hide Pow2;
    SignedProduct(x, Pow2(e));
    if x < 0.0 {
      SignedProduct(-x, Pow2(e));
    }
  }

  lemma OneShiftExact(small: nat)
    requires small % 2 == 0
    ensures Jam(small, 1) as real == small as real / Exp2(1) as real
  {
    hide Exp2;
    SmallExp2();
  }

  /** The nearly normalised case of the central lemma, stated for values rather than words. */
  lemma NearRounds(f: Format, mode: Mode, neg: bool, x: real, sig: nat, exp: int)
    requires Agree(x / 2.0, sig as real / 2.0) && f.Full() <= 2 * sig < 4 * f.Full()
    ensures x >= 0.0
    ensures RoundUnits(f, mode, neg, Packed(f, x, exp)) == RoundUnits(f, mode, neg, Packed(f, sig as real, exp))
  {
    hide *;
    SmallExp2();
    if sig < f.Full() {
      NearStandsDoubled(f, sig, x);
      StickyRound(f, mode, neg, 2.0 * x, 2 * sig, exp - 1);
      PackedShift(f, x, 2.0 * x, exp, 1);
      PackedShift(f, sig as real, (2 * sig) as real, exp, 1);
    } else {
      NearStands(f, sig, x);
      StickyRound(f, mode, neg, x, sig, exp);
    }
  }

  lemma RoundsAsPacked(f: Format, mode: Mode, neg: bool, x: real, exp: int, mag: real)
    requires mag > 0.0 && mag == Dyadic(x, exp - f.StepBits() + f.UnitExp()) && x >= 0.0
    ensures Round(f, mode, if neg then -mag else mag) == RoundUnits(f, mode, neg, Packed(f, x, exp))
  {
    hide *;
    RoundSigned(f, mode, neg, mag);
    PackedIsDyadic(f, x, exp);
  }

  /** A representable value rounds to itself. */
  lemma ExactRounds(f: Format, mode: Mode, neg: bool, code: nat)
    requires code < f.Top() * f.Frac()
    ensures RoundUnits(f, mode, neg, Units(f, code) as real) == Outcome(WithSign(f, neg, code), {})
  {
    hide *;
    var e, m := code / f.Frac(), code % f.Frac();
    assert code == e * f.Frac() + m;
    QuotientNonnegative(code, f.Frac());
    if e == 0 {
      ExactCode(f, mode, neg, code, 0, code);
    } else {
      Distribute(e - 1, 1, f.Frac());
      ExactCode(f, mode, neg, code, e - 1, f.Frac() + m);
    }
    ExactOutcome(f, mode, neg, code);
  }

  lemma ExactCode(f: Format, mode: Mode, neg: bool, code: nat, q: nat, m: nat)
    requires code == q * f.Frac() + m && m < 2 * f.Frac() && (q > 0 ==> m >= f.Frac())
    ensures RoundCode(f, mode, neg, Units(f, code) as real) == code
  {
    hide *;
    UnitsAt(f, q, m);
    RoundCodeAt(f, mode, neg, Units(f, code) as real, m as real, q);
    IntIsInt(m);
    RoundIntBounds(mode, neg, m as real);
  }

  lemma ExactOutcome(f: Format, mode: Mode, neg: bool, code: nat)
    requires code < f.Top() * f.Frac() && RoundCode(f, mode, neg, Units(f, code) as real) == code
    ensures RoundUnits(f, mode, neg, Units(f, code) as real) == Outcome(WithSign(f, neg, code), {})
  {
    hide RoundCode, Units;
  }
}
