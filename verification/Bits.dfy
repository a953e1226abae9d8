/** What bitwise or and and mean, bit by bit. */
module Bits {
  import opened Powers
  import opened Words
  import opened Decoder

  predicate BitAt(x: nat, k: nat) {
    x / Exp2(k) % 2 == 1
  }

  lemma BitAtZero(x: nat)
    ensures BitAt(x, 0) <==> x % 2 == 1
  {
    Exp2Zero();
  }

  lemma BitAtHalf(x: nat, k: nat)
    ensures BitAt(x, k + 1) <==> BitAt(x / 2, k)
  {
    hide *;
    Exp2Double(k);
    HalfFirst(x, Exp2(k));
    BitAtIs(x, k + 1);
    BitAtIs(x / 2, k);
  }

  lemma BitAtIs(x: nat, k: nat)
    ensures BitAt(x, k) <==> x / Exp2(k) % 2 == 1
  {
  }

  lemma HalfFirst(x: nat, p: nat)
    requires p > 0
    ensures x / (2 * p) == x / 2 / p
  {
    hide *;
    var h, q := x / 2, x / 2 / p;
    var r := h % p;
    assert h == q * p + r;
    assert x == q * (2 * p) + (2 * r + x % 2);
    Euclid(x, 2 * p, q, 2 * r + x % 2);
  }

  lemma {:induction false} OrAt(a: nat, b: nat, k: nat)
    ensures BitAt(BitOr(a, b), k) <==> BitAt(a, k) || BitAt(b, k)
    decreases k
  {
    OrHalves(a, b);
    hide BitOr, BitAt;
    if k == 0 {
      BitAtZero(a);
      BitAtZero(b);
      BitAtZero(BitOr(a, b));
    } else {
      BitAtHalf(a, k - 1);
      BitAtHalf(b, k - 1);
      BitAtHalf(BitOr(a, b), k - 1);
      OrAt(a / 2, b / 2, k - 1);
    }
  }

  lemma OrHalves(a: nat, b: nat)
    ensures BitOr(a, b) / 2 == BitOr(a / 2, b / 2)
    ensures BitOr(a, b) % 2 == 1 <==> a % 2 == 1 || b % 2 == 1
  {
  }

  lemma {:induction false} AndAt(a: nat, b: nat, k: nat)
    ensures BitAt(BitAnd(a, b), k) <==> BitAt(a, k) && BitAt(b, k)
    decreases k
  {
    AndHalves(a, b);
    hide BitAnd, BitAt;
    if k == 0 {
      BitAtZero(a);
      BitAtZero(b);
      BitAtZero(BitAnd(a, b));
    } else {
      BitAtHalf(a, k - 1);
      BitAtHalf(b, k - 1);
      BitAtHalf(BitAnd(a, b), k - 1);
      AndAt(a / 2, b / 2, k - 1);
    }
  }

  lemma AndHalves(a: nat, b: nat)
    ensures BitAnd(a, b) / 2 == BitAnd(a / 2, b / 2)
    ensures BitAnd(a, b) % 2 == 1 <==> a % 2 == 1 && b % 2 == 1
  {
  }

  lemma {:induction false} SameBits(a: nat, b: nat)
    requires forall k: nat :: BitAt(a, k) == BitAt(b, k)
    ensures a == b
    decreases a + b
  {
    hide BitAt;
    if a + b > 0 {
      assert BitAt(a, 0) == BitAt(b, 0);
      BitAtZero(a);
      BitAtZero(b);
      forall k: nat ensures BitAt(a / 2, k) == BitAt(b / 2, k) {
        assert BitAt(a, k + 1) == BitAt(b, k + 1);
        BitAtHalf(a, k);
        BitAtHalf(b, k);
      }
      SameBits(a / 2, b / 2);
    }
  }

  /** A descriptor matches when the instruction has its bits wherever the mask asks, and asks for no others. */
  lemma MatchesMeans<F>(d: Desc<F>, insn: u64)
    ensures Matches(d, insn) <==>
      forall k: nat :: if BitAt(d.mask, k) then BitAt(insn, k) == BitAt(d.bits, k) else !BitAt(d.bits, k)
  {
    hide BitAnd, BitAt;
    forall k: nat ensures BitAt(BitAnd(insn, d.mask), k) <==> BitAt(insn, k) && BitAt(d.mask, k) {
      AndAt(insn, d.mask, k);
    }
    if forall k: nat :: if BitAt(d.mask, k) then BitAt(insn, k) == BitAt(d.bits, k) else !BitAt(d.bits, k) {
      forall k: nat ensures BitAt(BitAnd(insn, d.mask), k) == BitAt(d.bits, k) {
      }
      SameBits(BitAnd(insn, d.mask), d.bits);
    }
  }

  /** Or of words shifted alike, with something below the one. */
  lemma {:induction false} OrShifted(x: nat, y: nat, r: nat, k: nat)
    requires r < Exp2(k)
    ensures BitOr(x * Exp2(k) + r, y * Exp2(k)) == BitOr(x, y) * Exp2(k) + r
  {
    hide *;
    if k == 0 {
      Exp2Zero();
    } else {
      Exp2Double(k - 1);
      OrShifted(x, y, r / 2, k - 1);
      Twice(x, Exp2(k - 1), Exp2(k), r);
      Twice(y, Exp2(k - 1), Exp2(k), 0);
      Twice(BitOr(x, y), Exp2(k - 1), Exp2(k), r);
      OrStep(x * Exp2(k) + r, y * Exp2(k), x * Exp2(k - 1) + r / 2, y * Exp2(k - 1), r % 2);
    }
  }

  lemma Twice(x: nat, p: nat, q: nat, r: nat)
    requires q == 2 * p
    ensures 0 <= x * p && x * q + r == 2 * (x * p + r / 2) + r % 2
  {
  }

  lemma OrStep(a: nat, b: nat, h: nat, g: nat, r: nat)
    requires a == 2 * h + r && b == 2 * g && r < 2
    ensures BitOr(a, b) == 2 * BitOr(h, g) + r
  {
  }
}
