/** The high word of a 128-bit product, for the MULHU, MULH and MULHSU instructions. */
module Mulhi {
  import opened Powers
  import opened Words
  import opened Primitives
  import opened FloatToInt
  import opened Wide128

  type i64 = x: int | -0x8000_0000_0000_0000 <= x < 0x8000_0000_0000_0000

  /** The high word of the exact product: its floor over 2^64. */
  function HighWordOf(p: int): int {
    p / 0x1_0000_0000_0000_0000
  }

  /** Carrying the cross products through two 32-bit columns. */
  lemma Columns(hh: nat, hl: nat, lh: nat, ll: nat, t1: nat, t2: nat, t3: nat)
    requires t1 == hl + ll / 0x1_0000_0000 && t2 == lh + t1 % 0x1_0000_0000
    requires t3 == hh + t1 / 0x1_0000_0000 + t2 / 0x1_0000_0000
    ensures HighWordOf(hh * 0x1_0000_0000_0000_0000 + (hl + lh) * 0x1_0000_0000 + ll) == t3
  {
    var r, w := ll % 0x1_0000_0000, t2 % 0x1_0000_0000;
    hide *;
    HighWordIs(hh * 0x1_0000_0000_0000_0000 + (hl + lh) * 0x1_0000_0000 + ll, t3, w * 0x1_0000_0000 + r);
  }

  lemma HighWordIs(p: int, q: int, r: int)
    requires p == q * 0x1_0000_0000_0000_0000 + r && 0 <= r < 0x1_0000_0000_0000_0000
    ensures HighWordOf(p) == q
  {
  }

  lemma WordHalves(a: u64)
    ensures var a1, a0 := a / 0x1_0000_0000, a % 0x1_0000_0000;
            a == a1 * 0x1_0000_0000 + a0 && 0 <= a1 < 0x1_0000_0000 && 0 <= a0 < 0x1_0000_0000
  {
  }

  lemma SchoolBook(a: int, b: int, a1: int, a0: int, b1: int, b0: int)
    requires a == a1 * 0x1_0000_0000 + a0 && b == b1 * 0x1_0000_0000 + b0
    ensures a * b == a1 * b1 * 0x1_0000_0000_0000_0000 + (a1 * b0 + a0 * b1) * 0x1_0000_0000 + a0 * b0
  {
  }

  method Mulhu(a: u64, b: u64) returns (r: u64)
    ensures r == HighWordOf(a * b)
  {
    hide *;
    WordHalves(a);
    WordHalves(b);
    var a0: int, a1: int := a % 0x1_0000_0000, a / 0x1_0000_0000;
    var b0: int, b1: int := b % 0x1_0000_0000, b / 0x1_0000_0000;
    SmallProduct(a1, b0);
    SmallProduct(a0, b0);
    SmallProduct(a0, b1);
    SmallProduct(a1, b1);
    SchoolBook(a, b, a1, a0, b1, b0);
    var t: u64 := Product(a1, b0) + Product(a0, b0) / 0x1_0000_0000;
    ghost var t1 := t;
    var y1, y2 := t % 0x1_0000_0000, t / 0x1_0000_0000;
    t := Product(a0, b1) + y1;
    ghost var t2 := t;
    y1 := t % 0x1_0000_0000;
    Columns(Product(a1, b1), Product(a1, b0), Product(a0, b1), Product(a0, b0), t1, t2,
            Product(a1, b1) + y2 + t / 0x1_0000_0000);
    HighBound(a, b);
    t := Product(a1, b1) + y2 + t / 0x1_0000_0000;
    y2 := t % 0x1_0000_0000;
    var y3 := t / 0x1_0000_0000;
    JoinHalves32(y3, y2);
    r := BitOr(y3 * 0x1_0000_0000, y2);
  }

  function Product(x: int, y: int): int {
    x * y
  }

  lemma SmallProduct(x: int, y: int)
    requires 0 <= x < 0x1_0000_0000 && 0 <= y < 0x1_0000_0000
    ensures 0 <= Product(x, y) <= 0xFFFF_FFFE_0000_0001 && Product(x, y) == x * y
  {
    ProductMono(x, 0xFFFF_FFFF, y);
    ProductMono(y, 0xFFFF_FFFF, 0xFFFF_FFFF);
  }

  lemma HighBound(a: u64, b: u64)
    ensures 0 <= HighWordOf(a * b) < 0x1_0000_0000_0000_0000
  {
    ProductMono(a, 0xFFFF_FFFF_FFFF_FFFF, b);
    ProductMono(b, 0xFFFF_FFFF_FFFF_FFFF, 0xFFFF_FFFF_FFFF_FFFF);
    HighWithin(a * b);
  }

  lemma HighWithin(p: int)
    requires 0 <= p < 0x1_0000_0000_0000_0000_0000_0000_0000_0000
    ensures 0 <= HighWordOf(p) < 0x1_0000_0000_0000_0000
  {
  }

  lemma JoinHalves32(hi: nat, lo: nat)
    requires lo < 0x1_0000_0000
    ensures BitOr(hi * 0x1_0000_0000, lo) == hi * 0x1_0000_0000 + lo
  {
    hide *;
    Exp2Constants();
    OrDisjoint(hi, lo, 32);
  }

  // --- Signs ---

  /** -a in 64 bits, read unsigned: right even for the most negative a. */
  function Magnitude64(a: i64): u64 {
    if a < 0 then Wrap64(-(a as int)) else a
  }

  lemma Magnitude64Is(a: i64)
    ensures Magnitude64(a) == if a < 0 then -(a as int) else a
  {
  }

  /** ~res, plus one when the low word of the product is zero. */
  function NegateHigh(res: u64, low: u64): u64 {
    Wrap64(0xFFFF_FFFF_FFFF_FFFF - res + Bit(low == 0))
  }

  lemma NegatedHigh(p: int, low: u64)
    requires 0 <= p <= 0x7FFF_FFFF_FFFF_FFFF_8000_0000_0000_0000 && low == Wrap64(-p)
    ensures 0 <= HighWordOf(p) < 0x8000_0000_0000_0000
    ensures AsI64(NegateHigh(HighWordOf(p), low)) == HighWordOf(-p)
  {
    var q, r := p / 0x1_0000_0000_0000_0000, p % 0x1_0000_0000_0000_0000;
    assert p == q * 0x1_0000_0000_0000_0000 + r;
    NegatedLow(p, q, r);
    assert 0 <= q < 0x8000_0000_0000_0000;
    HighWordIs(p, q, r);
    if r == 0 {
      HighWordIs(-p, -q, 0);
    } else {
      HighWordIs(-p, -q - 1, 0x1_0000_0000_0000_0000 - r);
    }
    hide *;
    NegateHighIs(q, low);
  }

  lemma NegatedLow(p: int, q: int, r: int)
    requires p == q * 0x1_0000_0000_0000_0000 + r && 0 <= r < 0x1_0000_0000_0000_0000
    ensures Wrap64(-p) == 0 <==> r == 0
  {
  }

  lemma NegateHighIs(q: u64, low: u64)
    requires q < 0x8000_0000_0000_0000
    ensures AsI64(NegateHigh(q, low)) == if low == 0 then -(q as int) else -(q as int) - 1
  {
  }

  lemma SignedBounds(x: u64, y: u64)
    requires x <= 0x8000_0000_0000_0000
    ensures 0 <= x * y <= 0x7FFF_FFFF_FFFF_FFFF_8000_0000_0000_0000
  {
    ProductMono(x, 0x8000_0000_0000_0000, y);
    ProductMono(y, 0xFFFF_FFFF_FFFF_FFFF, 0x8000_0000_0000_0000);
    ProductNonnegative(x, y);
  }

  lemma PositiveHigh(p: int)
    requires 0 <= p <= 0x7FFF_FFFF_FFFF_FFFF_8000_0000_0000_0000
    ensures 0 <= HighWordOf(p) < 0x8000_0000_0000_0000
  {
  }

  lemma ProductSigns(a: int, b: int)
    ensures -a * b == -(a * b) && a * -b == -(a * b) && -a * -b == a * b
  {
  }

  method Mulh(a: i64, b: i64) returns (r: i64)
    ensures r == HighWordOf(a * b)
  {
    hide *;
    var negate := (a < 0) != (b < 0);
    Magnitude64Is(a);
    Magnitude64Is(b);
    ghost var p := Magnitude64(a) as int * Magnitude64(b) as int;
    SignedBounds(Magnitude64(a), Magnitude64(b));
    ProductSigns(a, b);
    var res := Mulhu(Magnitude64(a), Magnitude64(b));
    PositiveHigh(p);
    var low := Wrap64(Product(a, b));
    WordProductIs(a, b);
    if negate {
      NegatedHigh(p, low);
      AsI64Small(NegateHigh(res, low));
      r := AsI64(NegateHigh(res, low));
    } else {
      AsI64Small(res);
      r := AsI64(res);
    }
  }

  lemma WordProductIs(x: int, y: int)
    ensures Product(x, y) == x * y
  {
  }

  lemma AsI64Small(x: u64)
    ensures x < 0x8000_0000_0000_0000 ==> AsI64(x) == x
    ensures -0x8000_0000_0000_0000 <= AsI64(x) < 0x8000_0000_0000_0000
  {
  }

  method Mulhsu(a: i64, b: u64) returns (r: i64)
    ensures r == HighWordOf(a * b)
  {
    hide *;
    var negate := a < 0;
    Magnitude64Is(a);
    ghost var p := Magnitude64(a) as int * b as int;
    SignedBounds(Magnitude64(a), b);
    ProductSigns(a, b);
    var res := Mulhu(Magnitude64(a), b);
    PositiveHigh(p);
    var low := Wrap64(Product(a, b));
    WordProductIs(a, b);
    if negate {
      NegatedHigh(p, low);
      AsI64Small(NegateHigh(res, low));
      r := AsI64(NegateHigh(res, low));
    } else {
      AsI64Small(res);
      r := AsI64(res);
    }
  }
}
