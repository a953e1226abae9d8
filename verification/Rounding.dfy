/** Rounding a non-negative real to an integer, and when two reals round alike. */
module Rounding {
  import opened Powers

  /** softfloat_roundingMode: IEEE 754-2008 section 4.3. */
  datatype Mode = NearEven | MinMag | Min | Max | NearMaxMag

  /** The integer chosen for magnitude x of a number whose sign is neg. */
  function RoundInt(mode: Mode, neg: bool, x: real): (r: int)
  {
    var f := x.Floor;
    var rest := x - f as real;
    if rest == 0.0 then f else
    match mode
    case NearEven => if rest < 0.5 || (rest == 0.5 && f % 2 == 0) then f else f + 1
    case NearMaxMag => if rest < 0.5 then f else f + 1
    case MinMag => f
    case Min => if neg then f + 1 else f
    case Max => if neg then f else f + 1
  }

  ghost predicate IsInt(x: real) {
    x == x.Floor as real
  }

  /** x and y lie on the same side of every integer. */
  ghost predicate Agree(x: real, y: real) {
    x.Floor == y.Floor && (IsInt(x) <==> IsInt(y))
  }

  /** The central fact about sticky bits: agreeing in half units is enough to round alike. */
  lemma AgreeRoundsAlike(mode: Mode, neg: bool, x: real, y: real)
    requires Agree(2.0 * x, 2.0 * y)
    ensures RoundInt(mode, neg, x) == RoundInt(mode, neg, y)
    ensures RoundInt(mode, neg, x) as real == x <==> RoundInt(mode, neg, y) as real == y
  {
    HalfFloor(x);
    HalfFloor(y);
  }

  lemma HalfFloor(x: real)
    ensures (2.0 * x).Floor == 2 * x.Floor || (2.0 * x).Floor == 2 * x.Floor + 1
    ensures IsInt(x) <==> IsInt(2.0 * x) && (2.0 * x).Floor == 2 * x.Floor
    ensures x - x.Floor as real < 0.5 <==> (2.0 * x).Floor == 2 * x.Floor
    ensures x - x.Floor as real == 0.5 <==> IsInt(2.0 * x) && (2.0 * x).Floor == 2 * x.Floor + 1
  {
  }

  lemma FloorShift(x: real, k: int)
    ensures (k as real + x).Floor == k + x.Floor
    ensures IsInt(k as real + x) <==> IsInt(x)
  {
  }

  lemma FloorNegate(x: real)
    ensures (-x).Floor == if IsInt(x) then -x.Floor else -x.Floor - 1
    ensures IsInt(-x) <==> IsInt(x)
  {
  }

  lemma AgreeShift(x: real, y: real, k: int)
    requires Agree(x, y)
    ensures Agree(k as real + x, k as real + y)
    ensures Agree(k as real - x, k as real - y)
  {
    FloorShift(x, k);
    FloorShift(y, k);
    FloorNegate(x);
    FloorNegate(y);
    FloorShift(-x, k);
    FloorShift(-y, k);
    assert k as real - x == k as real + (-x);
    assert k as real - y == k as real + (-y);
  }

  lemma AgreeCoarser(x: real, y: real, k: nat)
    requires Agree(x, y) && k > 0
    ensures Agree(x / k as real, y / k as real)
  {
    FloorDiv(x, k);
    FloorDiv(y, k);
  }

  lemma CancelLess(x: real, y: real, c: real)
    requires c > 0.0
    ensures x * c < y * c <==> x < y
    ensures x * c == y * c <==> x == y
  {
    assert (y - x) * c == y * c - x * c;
  }

  lemma FloorDiv(x: real, k: nat)
    requires k > 0
    ensures (x / k as real).Floor == x.Floor / k
    ensures IsInt(x / k as real) <==> IsInt(x) && x.Floor % k == 0
  {
    var q := x.Floor / k;
    var y := x / k as real;
    assert y * k as real == x;
    QuotientBounds(x.Floor, k, q);
    CancelLess(y, q as real, k as real);
    CancelLess(y, (q + 1) as real, k as real);
  }

  lemma QuotientBounds(f: int, k: nat, q: int)
    requires k > 0 && q == f / k
    ensures q as real * k as real <= f as real <= (q + 1) as real * k as real - 1.0
    ensures q as real * k as real == f as real <==> f % k == 0
  {
    assert f == q * k + f % k;
    assert (q * k) as real == q as real * k as real;
    assert ((q + 1) * k) as real == (q + 1) as real * k as real;
  }
}
