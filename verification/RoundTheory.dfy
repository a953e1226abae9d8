/** What the rounding specification means, and which significands may stand in for an exact value. */
module RoundTheory {
  import opened Powers
  import opened Rounding
  import opened Ieee754

  // --- The code of m * 2^q ---

  lemma CodeParts(f: Format, e: nat, m: nat)
    requires m < f.Frac()
    ensures (e * f.Frac() + m) / f.Frac() == e && (e * f.Frac() + m) % f.Frac() == m
  {
    match f case F32 => case F64 =>
  }

  lemma UnitsOf(f: Format, e: nat, m: nat)
    requires m < f.Frac()
    ensures Units(f, e * f.Frac() + m) == if e == 0 then m else (f.Frac() + m) * Exp2(e - 1)
  {
    hide Exp2;
    CodeParts(f, e, m);
  }

  lemma UnitsAt(f: Format, q: nat, m: nat)
    requires m <= 2 * f.Frac()
    requires q > 0 ==> m >= f.Frac()
    ensures Units(f, q * f.Frac() + m) == m * Exp2(q)
    ensures Units(f, q * f.Frac() + m) as real == m as real * Pow2(q)
  {
    hide *;
    Pow2IsExp2(q);
    ToReal(m, Exp2(q));
    if m < f.Frac() {
      UnitsOf(f, q, m);
      Exp2Zero();
    } else if m < 2 * f.Frac() {
      UnitsWithin(f, q, m);
    } else {
      UnitsCarried(f, q);
    }
  }

  lemma UnitsWithin(f: Format, q: nat, m: nat)
    requires f.Frac() <= m < 2 * f.Frac()
    ensures Units(f, q * f.Frac() + m) == m * Exp2(q)
  {
    hide *;
    Distribute(q, 1, f.Frac());
    UnitsOf(f, q + 1, m - f.Frac());
  }

  lemma UnitsCarried(f: Format, q: nat)
    ensures Units(f, q * f.Frac() + 2 * f.Frac()) == 2 * f.Frac() * Exp2(q)
  {
    hide *;
    Distribute(q, 2, f.Frac());
    UnitsOf(f, q + 2, 0);
    Exp2Double(q);
    Doubling(f.Frac(), Exp2(q));
  }

  lemma Distribute(x: int, y: int, z: int)
    ensures (x + y) * z == x * z + y * z
  {
  }

  lemma ToReal(x: int, y: int)
    ensures (x * y) as real == x as real * y as real
  {
  }

  lemma Doubling(x: int, y: int)
    ensures x * (2 * y) == (2 * x) * y
  {
  }

  // --- The last place of a scaled value ---

  lemma {:induction false} QuantumAt(f: Format, x: real, q: nat)
    requires x < 2.0 * f.Frac() as real * Pow2(q)
    requires q > 0 ==> f.Frac() as real * Pow2(q) <= x
    ensures Quantum(f, x) == q
    decreases q
  {
    if q > 0 {
      var p, r := Pow2(q), Pow2(q - 1);
      assert p == 2.0 * r;
      Scale(f.Frac() as real, r);
      assert r >= 1.0 by { Pow2IsExp2(q - 1); }
      AtLeast(f.Frac() as real, r);
      QuantumAt(f, x / 2.0, q - 1);
    }
  }

  lemma Scale(x: real, r: real)
    ensures x * (2.0 * r) == 2.0 * (x * r)
    ensures 2.0 * x * r == 2.0 * (x * r)
    ensures 2.0 * x * (2.0 * r) == 2.0 * (2.0 * x * r)
  {
  }

  lemma AtLeast(x: real, r: real)
    requires x >= 0.0 && r >= 1.0
    ensures x * r >= x
  {
    assert x * (r - 1.0) >= 0.0;
  }

  lemma Shrink(x: real, r: real)
    requires x >= 0.0 && 0.0 < r <= 0.5
    ensures 0.0 <= x * r <= 0.5 * x
  {
    assert x * (0.5 - r) >= 0.0;
  }

  lemma RoundIntBounds(mode: Mode, neg: bool, x: real)
    ensures x.Floor <= RoundInt(mode, neg, x) <= x.Floor + 1
    ensures IsInt(x) <==> RoundInt(mode, neg, x) as real == x
  {
  }

  lemma QuantumOf(f: Format, x: real, y: real, q: nat)
    requires x == y * Pow2(q)
    requires 0.0 <= y < 2.0 * f.Frac() as real
    requires q > 0 ==> y >= f.Frac() as real
    ensures Quantum(f, x) == q
  {
    hide *;
    CancelLess(y, 2.0 * f.Frac() as real, Pow2(q));
    CancelLess(y, f.Frac() as real, Pow2(q));
    QuantumAt(f, x, q);
  }

  /** x = y * 2^q, with y holding the whole significand, rounds in the last place of y. */
  lemma RoundCodeAt(f: Format, mode: Mode, neg: bool, x: real, y: real, q: nat)
    requires x == y * Pow2(q)
    requires 0.0 <= y < 2.0 * f.Frac() as real
    requires q > 0 ==> y >= f.Frac() as real
    ensures RoundCode(f, mode, neg, x) == q * f.Frac() + RoundInt(mode, neg, y)
    ensures y.Floor <= RoundInt(mode, neg, y) <= y.Floor + 1
    ensures Units(f, q * f.Frac() + RoundInt(mode, neg, y)) as real == x <==> IsInt(y)
  {
    hide *;
    QuantumOf(f, x, y, q);
    CancelDivide(y, Pow2(q));
    assert x / Pow2(Quantum(f, x)) == y;
    RoundCodeUnfold(f, mode, neg, x);
    assert Quantum(f, x) * f.Frac() == q * f.Frac();
    RoundIntBounds(mode, neg, y);
    var m := RoundInt(mode, neg, y);
    assert 0 <= m <= 2 * f.Frac();
    UnitsAt(f, q, m);
    ExactWhenInt(f, q, m, x, y);
  }

  lemma ExactWhenInt(f: Format, q: nat, m: nat, x: real, y: real)
    requires x == y * Pow2(q) && Units(f, q * f.Frac() + m) as real == m as real * Pow2(q)
    ensures Units(f, q * f.Frac() + m) as real == x <==> m as real == y
  {
    hide *;
    CancelLess(m as real, y, Pow2(q));
  }

  lemma RoundCodeUnfold(f: Format, mode: Mode, neg: bool, x: real)
    ensures RoundCode(f, mode, neg, x)
         == Quantum(f, x) * f.Frac() + RoundInt(mode, neg, x / Pow2(Quantum(f, x)))
  {
    hide Quantum, Pow2, RoundInt;
  }

  lemma CancelDivide(y: real, p: real)
    requires p != 0.0
    ensures (y * p) / p == y
  {
  }

  // --- Significands that stand in for an exact value ---

  /** The magnitude, in units, of the significand x at exponent exp as round-and-pack reads it. */
  function Packed(f: Format, x: real, exp: int): (r: real)
    ensures x >= 0.0 ==> r >= 0.0
  {
    NonnegativeProduct(x, f.Step() as real, Pow2(exp));
    x / f.Step() as real * Pow2(exp)
  }

  lemma NonnegativeProduct(x: real, d: real, p: real)
    requires d > 0.0 && p > 0.0
    ensures x >= 0.0 ==> x / d * p >= 0.0
  {
    if x >= 0.0 {
      assert x / d >= 0.0;
    }
  }

  /** The sticky significand sig tells apart what rounding the exact x needs told apart. */
  ghost predicate StandsFor(f: Format, sig: int, x: real) {
    Agree(x / (f.Step() / 2) as real, sig as real / (f.Step() / 2) as real)
  }

  lemma RoundsAlike(f: Format, mode: Mode, neg: bool, x: real, y: real, code: nat)
    requires x >= 0.0 && y >= 0.0 && RoundCode(f, mode, neg, x) == code && RoundCode(f, mode, neg, y) == code
    requires Units(f, code) as real == x <==> Units(f, code) as real == y
    requires x < f.Frac() as real <==> y < f.Frac() as real
    ensures RoundUnits(f, mode, neg, x) == RoundUnits(f, mode, neg, y)
  {
    hide Units, RoundCode;
  }

  lemma HalfStep(f: Format, x: real)
    ensures 2.0 * (x / f.Step() as real) == x / (f.Step() / 2) as real
  {
    match f case F32 => case F64 =>
  }

  lemma DivideLess(x: real, y: real, c: real)
    requires c > 0.0
    ensures x < y * c <==> x / c < y
  {
    CancelLess(x / c, y, c);
  }

  /** A normalised significand bounds the exact value it stands for. */
  lemma StandsForBounds(f: Format, sig: int, x: real)
    requires StandsFor(f, sig, x)
    requires f.Full() <= sig < 2 * f.Full()
    ensures f.Frac() as real <= x / f.Step() as real < 2.0 * f.Frac() as real
  {
    match f case F32 => case F64 =>
  }

  lemma RoundPackedNormal(f: Format, mode: Mode, neg: bool, x: real, exp: nat)
    requires 0.0 <= x / f.Step() as real < 2.0 * f.Frac() as real
    requires exp > 0 ==> f.Frac() as real <= x / f.Step() as real
    ensures var r := RoundInt(mode, neg, x / f.Step() as real);
            && RoundCode(f, mode, neg, Packed(f, x, exp)) == exp * f.Frac() + r
            && (Units(f, exp * f.Frac() + r) as real == Packed(f, x, exp) <==> IsInt(x / f.Step() as real))
    ensures Packed(f, x, exp) >= x / f.Step() as real
  {
    hide *;
    var y := x / f.Step() as real;
    PackedIs(f, x, y, exp);
    RoundCodeAt(f, mode, neg, Packed(f, x, exp), y, exp);
    PackedAtLeast(f, x, y, exp);
  }

  lemma PackedAtLeast(f: Format, x: real, y: real, exp: nat)
    requires y == x / f.Step() as real && y >= 0.0
    ensures Packed(f, x, exp) >= y
  {
    hide *;
    PackedIs(f, x, y, exp);
    Pow2AtLeast1(exp);
    AtLeast(y, Pow2(exp));
  }

  lemma PackedIs(f: Format, x: real, y: real, exp: int)
    requires y == x / f.Step() as real
    ensures Packed(f, x, exp) == y * Pow2(exp)
  {
    hide Pow2;
  }

  lemma PackedSmallBounds(f: Format, x: real, y: real, exp: int)
    requires y == x / f.Step() as real
    requires exp < 0 && 0.0 <= y < 2.0 * f.Frac() as real
    ensures 0.0 <= Packed(f, x, exp) < f.Frac() as real
  {
    hide *;
    PackedIs(f, x, y, exp);
    Pow2Below1(exp);
    Shrink(y, Pow2(exp));
  }

  lemma RoundPackedSmall(f: Format, mode: Mode, neg: bool, x: real, exp: int)
    requires exp < 0 && 0.0 <= x / f.Step() as real < 2.0 * f.Frac() as real
    ensures var z := Packed(f, x, exp);
            && 0.0 <= z < f.Frac() as real
            && RoundCode(f, mode, neg, z) == RoundInt(mode, neg, z)
            && (Units(f, RoundInt(mode, neg, z)) as real == z <==> IsInt(z))
  {
    hide *;
    var z := Packed(f, x, exp);
    PackedSmallBounds(f, x, x / f.Step() as real, exp);
    Pow2Zero();
    RoundCodeAt(f, mode, neg, z, z, 0);
  }

  lemma PackedHalfSteps(f: Format, x: real, exp: int)
    requires exp < 0
    ensures 2.0 * Packed(f, x, exp) == x / (f.Step() / 2) as real / Exp2(-exp) as real
  {
    hide *;
    PackedIs(f, x, x / f.Step() as real, exp);
    HalfStep(f, x);
    var h := x / (f.Step() / 2) as real;
    Pow2Inverse(h, -exp);
    Scale2(x / f.Step() as real, Pow2(exp));
  }

  lemma Scale2(x: real, r: real)
    ensures 2.0 * (x * r) == 2.0 * x * r
  {
  }

  /** The central lemma: a sticky significand rounds, with the same flags, like the exact value. */
  lemma StickyRound(f: Format, mode: Mode, neg: bool, x: real, sig: int, exp: int)
    requires StandsFor(f, sig, x)
    requires f.Full() <= sig < 2 * f.Full()
    ensures x >= 0.0
    ensures RoundUnits(f, mode, neg, Packed(f, x, exp)) == RoundUnits(f, mode, neg, Packed(f, sig as real, exp))
  {
    hide *;
    var y := sig as real;
    StandsForBounds(f, sig, x);
    StandsForItself(f, sig);
    StandsForBounds(f, sig, y);
    if exp >= 0 {
      StandsForHalves(f, sig, x);
      AgreeRoundsAlike(mode, neg, x / f.Step() as real, y / f.Step() as real);
      RoundPackedNormal(f, mode, neg, x, exp);
      RoundPackedNormal(f, mode, neg, y, exp);
      RoundIntBounds(mode, neg, x / f.Step() as real);
      RoundIntBounds(mode, neg, y / f.Step() as real);
    } else {
      RoundPackedSmall(f, mode, neg, x, exp);
      RoundPackedSmall(f, mode, neg, y, exp);
      StandsForSmall(f, sig, x, exp);
      AgreeRoundsAlike(mode, neg, Packed(f, x, exp), Packed(f, y, exp));
      RoundIntBounds(mode, neg, Packed(f, x, exp));
      RoundIntBounds(mode, neg, Packed(f, y, exp));
    }
    RoundCodeNonnegative(f, mode, neg, Packed(f, x, exp));
    RoundsAlike(f, mode, neg, Packed(f, x, exp), Packed(f, y, exp), RoundCode(f, mode, neg, Packed(f, x, exp)));
  }

  lemma StandsForItself(f: Format, sig: int)
    ensures StandsFor(f, sig, sig as real)
  {
  }

  lemma StandsForHalves(f: Format, sig: int, x: real)
    requires StandsFor(f, sig, x)
    ensures Agree(2.0 * (x / f.Step() as real), 2.0 * (sig as real / f.Step() as real))
  {
    hide Agree;
    HalfStep(f, x);
    HalfStep(f, sig as real);
  }

  lemma StandsForSmall(f: Format, sig: int, x: real, exp: int)
    requires StandsFor(f, sig, x) && exp < 0
    ensures Agree(2.0 * Packed(f, x, exp), 2.0 * Packed(f, sig as real, exp))
  {
    hide Agree, Packed, Exp2;
    PackedHalfSteps(f, x, exp);
    PackedHalfSteps(f, sig as real, exp);
    AgreeCoarser(x / (f.Step() / 2) as real, sig as real / (f.Step() / 2) as real, Exp2(-exp));
  }

  /** Shifting the significand left and lowering the exponent names the same value. */
  lemma PackedShift(f: Format, x: real, y: real, exp: int, k: nat)
    requires y == x * Exp2(k) as real
    ensures Packed(f, y, exp - k) == Packed(f, x, exp)
  {
    hide *;
    var s, r, p := f.Step() as real, Exp2(k) as real, Pow2(exp - k);
    PackedIs(f, x, x / s, exp);
    PackedIs(f, y, y / s, exp - k);
    Pow2Add(exp - k, k);
    Pow2IsExp2(k);
    MoveFactor(x, y, s, r, p, Pow2(exp));
  }

  lemma MoveFactor(x: real, y: real, s: real, r: real, p: real, pr: real)
    requires s > 0.0 && y == x * r && pr == p * r
    ensures y / s * p == x / s * pr
  {
    var z := x / s;
    assert x == z * s;
    assert y == z * r * s;
    CancelDivide(z * r, s);
    assert y / s == z * r;
  }
}
