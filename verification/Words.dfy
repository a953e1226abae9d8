/** Fixed-width unsigned words over unbounded integers; wrap-around is written out. */
module Words {
  import opened Powers

  const TWO32: nat := 0x1_0000_0000
  const TWO64: nat := 0x1_0000_0000_0000_0000

  type u32 = x: int | 0 <= x < 0x1_0000_0000
  type u64 = x: int | 0 <= x < 0x1_0000_0000_0000_0000

  function Wrap32(x: int): u32 {
    x % TWO32
  }

  function Wrap64(x: int): u64 {
    x % TWO64
  }

  function Bit(b: bool): nat {
    if b then 1 else 0
  }

  lemma BitIs(b: bool)
    ensures Bit(b) == if b then 1 else 0
  {
  }

  function Shr(a: nat, n: nat): (r: nat) {
    QuotientNonnegative(a, Exp2(n));
    a / Exp2(n)
  }

  function Shl(a: nat, n: nat): (r: nat) {
    ProductNonnegative(a, Exp2(n));
    a * Exp2(n)
  }

  /** The low n bits. */
  function Low(a: nat, n: nat): nat {
    a % Exp2(n)
  }

  lemma ProductNonnegative(x: int, y: int)
    requires x >= 0 && y >= 0
    ensures x * y >= 0
  {
  }

  lemma QuotientNonnegative(x: int, m: int)
    requires x >= 0 && m > 0
    ensures x / m >= 0
  {
  }

  lemma NegativeProduct(q: int, m: int)
    requires q < 0 && m > 0
    ensures q * m <= -m
  {
  }

  lemma SameQuotient(q1: int, r1: int, q2: int, r2: int, m: int)
    requires 0 <= r1 < m && 0 <= r2 < m
    requires q1 * m + r1 == q2 * m + r2
    ensures q1 == q2 && r1 == r2
  {
    if q1 < q2 {
      NegativeProduct(q1 - q2, m);
    } else if q2 < q1 {
      NegativeProduct(q2 - q1, m);
    }
  }

  /** Quotient and remainder are the only ones there are. */
  lemma Euclid(x: int, m: int, q: int, r: int)
    requires m > 0 && x == q * m + r && 0 <= r < m
    ensures x / m == q && x % m == r
  {
    SameQuotient(x / m, x % m, q, r, m);
  }

  /** Bitwise or. Masks of the form 2^k - 1 are written as remainders, shifts as quotients. */
  function BitOr(a: nat, b: nat): nat
    decreases a + b
  {
    if a == 0 then b else if b == 0 then a
    else 2 * BitOr(a / 2, b / 2) + (if a % 2 == 1 || b % 2 == 1 then 1 else 0)
  }

  lemma OrBit(a: nat, b: bool)
    ensures BitOr(a, Bit(b)) == if b then a - a % 2 + 1 else a
  {
  }

  lemma {:induction false} OrDisjoint(a: nat, b: nat, k: nat)
    requires b < Exp2(k)
    ensures BitOr(a * Exp2(k), b) == a * Exp2(k) + b
  {
    if k > 0 && a > 0 && b > 0 {
      OrDisjoint(a, b / 2, k - 1);
      hide BitOr;
      DoubledProduct(a, Exp2(k - 1), Exp2(k));
      OrDisjointStep(a * Exp2(k), a * Exp2(k - 1), b);
    }
  }

  lemma DoubledProduct(a: int, h: int, p: int)
    requires p == 2 * h && a > 0 && h > 0
    ensures a * p == 2 * (a * h) && a * p > 0
  {
  }

  lemma OrDisjointStep(x: nat, y: nat, b: nat)
    requires x == 2 * y && x > 0 && b > 0 && BitOr(y, b / 2) == y + b / 2
    ensures BitOr(x, b) == x + b
  {
  }

  /** Setting the leading bit of a word that already has it. */
  lemma {:induction false} OrLeading(a: nat, k: nat)
    requires Exp2(k) <= a < 2 * Exp2(k)
    ensures BitOr(a, Exp2(k)) == a
  {
    if k > 0 {
      OrLeading(a / 2, k - 1);
    }
  }

  lemma {:induction false} OrCommutes(a: nat, b: nat)
    ensures BitOr(a, b) == BitOr(b, a)
    decreases a + b
  {
    if a > 0 && b > 0 {
      OrCommutes(a / 2, b / 2);
    }
  }

  /** Setting the leading bit, whether it is there already or not. */
  lemma OrImplicit(a: nat, k: nat)
    requires a < 2 * Exp2(k)
    ensures BitOr(a, Exp2(k)) == if a < Exp2(k) then a + Exp2(k) else a
  {
    hide Exp2, BitOr;
    if a < Exp2(k) {
      OrDisjoint(1, a, k);
      OrCommutes(a, Exp2(k));
    } else {
      OrLeading(a, k);
    }
  }

  lemma {:induction false} OrZero(a: nat, b: nat)
    ensures BitOr(a, b) == 0 <==> a == 0 && b == 0
    decreases a + b
  {
    if a > 0 && b > 0 {
      OrZero(a / 2, b / 2);
    }
  }
}
