/** Shifts of two-limb words. */
module Shift128 {
  import opened Powers
  import opened Words
  import opened Primitives
  import opened Wide128

  /** The limbs of a sticky right shift of a64:a0. */
  function Shift128RightJam(a64: u64, a0: u64, count: nat): (nat, nat) {
    if count < 64 then
      (Shr(a64, count),
       BitOr(BitOr(Wrap64(Shl(a64, (64 - count) % 64)), Shr(a0, count)), Bit(Wrap64(Shl(a0, (64 - count) % 64)) != 0)))
    else if count < 128 then
      (0, BitOr(Shr(a64, count - 64), Bit(BitOr(Low(a64, count - 64), a0) != 0)))
    else
      (0, Bit(BitOr(a64, a0) != 0))
  }

  function ShortShift128Left(a64: u64, a0: u64, count: nat): (nat, nat) {
    (BitOr(Wrap64(Shl(a64, count)), if count == 0 then a0 else Shr(a0, (64 - count) % 64)), Wrap64(Shl(a0, count)))
  }

  lemma JamParts(a: nat, count: nat, q: nat, r: nat)
    requires a == q * Exp2(count) + r && r < Exp2(count)
    ensures Jam(a, count) == if r == 0 then q else q - q % 2 + 1
    ensures Shr(a, count) == q && Low(a, count) == r
  {
    hide Exp2;
    Euclid(a, Exp2(count), q, r);
  }

  lemma Split(a: nat, count: nat) returns (q: nat, r: nat)
    ensures a == q * Exp2(count) + r && r < Exp2(count)
    ensures Shr(a, count) == q && Low(a, count) == r
  {
    hide Exp2;
    q, r := a / Exp2(count), a % Exp2(count);
    QuotientNonnegative(a, Exp2(count));
    JamParts(a, count, q, r);
  }

  /** What a left shift within a word keeps. */
  lemma WrapsLow(a: nat, count: nat, q: nat, r: nat)
    requires 0 < count < 64 && a == q * Exp2(count) + r && r < Exp2(count)
    ensures Wrap64(Shl(a, (64 - count) % 64)) == r * Exp2(64 - count)
  {
    hide *;
    var p, s := Exp2(count), Exp2(64 - count);
    Exp2Add(count, 64 - count);
    Exp2Constants();
    SameShift(count);
    ShlIs(a, 64 - count);
    Regrouped(q, p, r, s);
    ProductNonnegative(r, s);
    ProductMono(r + 1, p, s);
    WrapIs(a * s, q, r * s);
  }

  lemma SameShift(count: nat)
    requires 0 < count < 64
    ensures (64 - count) % 64 == 64 - count
  {
  }

  lemma ShlIs(a: nat, n: nat)
    ensures Shl(a, n) == a * Exp2(n)
  {
    hide Exp2;
  }

  lemma Regrouped(q: int, p: int, r: int, s: int)
    ensures (q * p + r) * s == q * (p * s) + r * s
    ensures (r + 1) * s == r * s + s
  {
  }

  lemma WrapIs(x: int, k: int, r: int)
    requires x == k * 0x1_0000_0000_0000_0000 + r && 0 <= r < 0x1_0000_0000_0000_0000
    ensures Wrap64(x) == r
  {
  }

  lemma StickyLimb(q: nat, hi: nat, lo: nat, sticky: bool)
    requires q == hi * 0x1_0000_0000_0000_0000 + lo
    ensures BitOr(lo, Bit(sticky)) == (if sticky then lo - lo % 2 + 1 else lo)
    ensures hi * 0x1_0000_0000_0000_0000 + BitOr(lo, Bit(sticky)) == (if sticky then q - q % 2 + 1 else q)
  {
    OrBit(lo, sticky);
    hide BitOr;
  }

  /** The limbs of a shift by less than a word: h, then l above g. */
  lemma ShortParts(a64: u64, a0: u64, count: nat, h: nat, l: nat, g: nat, m: nat)
    requires 0 < count < 64
    requires a64 == h * Exp2(count) + l && l < Exp2(count) && a0 == g * Exp2(count) + m && m < Exp2(count)
    ensures var q := h * 0x1_0000_0000_0000_0000 + (l * Exp2(64 - count) + g);
            Value128(a64, a0) == q * Exp2(count) + m
    ensures g < Exp2(64 - count) && h < 0x1_0000_0000_0000_0000
    ensures 0 <= l * Exp2(64 - count) && l * Exp2(64 - count) + g < 0x1_0000_0000_0000_0000
    ensures Value128(a64, a0) >= 0
  {
    hide *;
    var p, s := Exp2(count), Exp2(64 - count);
    Exp2Add(count, 64 - count);
    Exp2Constants();
    Value128Is(a64, a0);
    ShortIdentity(a64, a0, h, l, g, m, p, s);
    if g >= s {
      ProductMono(s, g, p);
      Swap2(s, p);
    }
    if h >= 0x1_0000_0000_0000_0000 {
      ProductMono(1, p, h);
    }
    ProductMono(l + 1, p, s);
    ProductNonnegative(l, s);
    Regrouped(0, p, l, s);
  }

  lemma Swap2(x: int, y: int)
    ensures x * y == y * x
  {
  }

  lemma Value128Is(v64: int, v0: int)
    ensures Value128(v64, v0) == v64 * 0x1_0000_0000_0000_0000 + v0
  {
  }

  lemma ShortIdentity(a64: int, a0: int, h: int, l: int, g: int, m: int, p: int, s: int)
    requires p * s == 0x1_0000_0000_0000_0000 && a64 == h * p + l && a0 == g * p + m
    ensures a64 * 0x1_0000_0000_0000_0000 + a0 == (h * 0x1_0000_0000_0000_0000 + (l * s + g)) * p + m
  {
    assert (l * s + g) * p == l * (p * s) + g * p;
  }

  lemma LongIdentity(a64: int, a0: int, h: int, l: int, p: int, w: int)
    requires a64 == h * p + l
    ensures a64 * w + a0 == h * (p * w) + (l * w + a0)
  {
  }

  lemma Shift128RightJamIsJam(a64: u64, a0: u64, count: nat)
    requires count > 0
    ensures var (hi, lo) := Shift128RightJam(a64, a0, count);
            && hi < 0x1_0000_0000_0000_0000 && lo < 0x1_0000_0000_0000_0000
            && Value128(hi, lo) == Jam(Value128(a64, a0), count)
  {
    hide *;
    Value128Is(a64, a0);
    var (hi, lo) := Shift128RightJam(a64, a0, count);
    Value128Is(hi, lo);
    if count < 64 {
      ShortJam(a64, a0, count);
    } else if count < 128 {
      LongJam(a64, a0, count);
    } else {
      AllJam(a64, a0, count);
    }
  }

  lemma ShortLimbs(a64: u64, a0: u64, count: nat)
    requires 0 < count < 64
    ensures Shift128RightJam(a64, a0, count) ==
      (Shr(a64, count),
       BitOr(BitOr(Wrap64(Shl(a64, (64 - count) % 64)), Shr(a0, count)), Bit(Wrap64(Shl(a0, (64 - count) % 64)) != 0)))
  {
    hide Shr, Shl, BitOr, Wrap64, Bit;
  }

  lemma LeftLimbs(a64: u64, a0: u64, count: nat)
    requires count < 64
    ensures ShortShift128Left(a64, a0, count) ==
      (BitOr(Wrap64(a64 * Exp2(count)), if count == 0 then a0 else Shr(a0, 64 - count)), Wrap64(a0 * Exp2(count)))
  {
    hide Shr, BitOr, Wrap64, Exp2;
  }

  lemma ShortJam(a64: u64, a0: u64, count: nat)
    requires 0 < count < 64
    ensures var (hi, lo) := Shift128RightJam(a64, a0, count);
            && hi < 0x1_0000_0000_0000_0000 && lo < 0x1_0000_0000_0000_0000
            && hi * 0x1_0000_0000_0000_0000 + lo == Jam(Value128(a64, a0), count)
  {
    hide *;
    ShortLimbs(a64, a0, count);
    var h, l := Split(a64, count);
    var g, m := Split(a0, count);
    WrapsLow(a64, count, h, l);
    WrapsLow(a0, count, g, m);
    ShortParts(a64, a0, count, h, l, g, m);
    OrDisjoint(l, g, 64 - count);
    var lo := l * Exp2(64 - count) + g;
    var q := h * 0x1_0000_0000_0000_0000 + lo;
    JamParts(Value128(a64, a0), count, q, m);
    ProductIsZero(m, Exp2(64 - count));
    StickyLimb(q, h, lo, m != 0);
  }

  lemma LongJam(a64: u64, a0: u64, count: nat)
    requires 64 <= count < 128
    ensures var (hi, lo) := Shift128RightJam(a64, a0, count);
            && hi == 0 && lo < 0x1_0000_0000_0000_0000 && lo == Jam(Value128(a64, a0), count)
  {
    hide Exp2, BitOr, Shr, Shl, Wrap64, Low, Jam, Value128, Bit;
    var c := count - 64;
    var h, l := Split(a64, c);
    Exp2Add(c, 64);
    Exp2Constants();
    Value128Is(a64, a0);
    LongIdentity(a64, a0, h, l, Exp2(c), 0x1_0000_0000_0000_0000);
    JamParts(Value128(a64, a0), count, h, l * 0x1_0000_0000_0000_0000 + a0);
    OrZero(l, a0);
    ProductMono(1, Exp2(c), h);
    StickyLimb(h, 0, h, !(l == 0 && a0 == 0));
  }

  lemma AllJam(a64: u64, a0: u64, count: nat)
    requires count >= 128
    ensures var (hi, lo) := Shift128RightJam(a64, a0, count);
            && hi == 0 && lo <= 1 && lo == Jam(Value128(a64, a0), count)
  {
    hide Exp2, BitOr, Shr, Shl, Wrap64, Low, Jam, Value128;
    Value128Is(a64, a0);
    Exp2Constants();
    Exp2Add(64, 64);
    Exp2Mono(128, count);
    SmallJam(Value128(a64, a0), count);
    OrZero(a64, a0);
  }

  lemma ShortShift128LeftIsProduct(a64: u64, a0: u64, count: nat)
    requires count < 64 && (count == 0 ==> a0 == 0)
    requires Value128(a64, a0) * Exp2(count) < 0x1_0000_0000_0000_0000_0000_0000_0000_0000
    ensures var (hi, lo) := ShortShift128Left(a64, a0, count);
            && hi < 0x1_0000_0000_0000_0000 && lo < 0x1_0000_0000_0000_0000
            && Value128(hi, lo) == Value128(a64, a0) * Exp2(count)
  {
    hide *;
    LeftLimbs(a64, a0, count);
    Value128Is(a64, a0);
    var (hi, lo) := ShortShift128Left(a64, a0, count);
    Value128Is(hi, lo);
    var p := Exp2(count);
    if count == 0 {
      Exp2Zero();
      WrapIs(a64, 0, a64);
      WrapIs(0, 0, 0);
      OrDisjoint(a64, 0, 0);
    } else {
      var g, m := Split(a0, 64 - count);
      WrapsLow(a0, 64 - count, g, m);
      ShlIs(a0, count);
      LeftParts(a64, a0, count, g, m);
      WrapIs(a64 * p, 0, a64 * p);
      OrDisjoint(a64, g, count);
    }
  }

  lemma LeftParts(a64: u64, a0: u64, count: nat, g: nat, m: nat)
    requires 0 < count < 64 && a0 == g * Exp2(64 - count) + m && m < Exp2(64 - count)
    requires Value128(a64, a0) * Exp2(count) < 0x1_0000_0000_0000_0000_0000_0000_0000_0000
    ensures g < Exp2(count) && 0 <= a64 * Exp2(count) && a64 * Exp2(count) + g < 0x1_0000_0000_0000_0000
    ensures 0 <= m * Exp2(count) < 0x1_0000_0000_0000_0000
    ensures Value128(a64 * Exp2(count) + g, m * Exp2(count)) == Value128(a64, a0) * Exp2(count)
  {
    hide *;
    var p, s := Exp2(count), Exp2(64 - count);
    Exp2Add(64 - count, count);
    Exp2Constants();
    Value128Is(a64, a0);
    Value128Is(a64 * p + g, m * p);
    LeftIdentity(a64, a0, g, m, p, s);
    ProductNonnegative(a64, p);
    ProductNonnegative(m, p);
    ProductMono(m + 1, s, p);
    Regrouped(0, 0, m, p);
    if g >= p {
      ProductMono(p, g, s);
      Swap2(p, s);
    }
  }

  lemma LeftIdentity(a64: int, a0: int, g: int, m: int, p: int, s: int)
    requires s * p == 0x1_0000_0000_0000_0000 && a0 == g * s + m
    ensures (a64 * 0x1_0000_0000_0000_0000 + a0) * p == (a64 * p + g) * 0x1_0000_0000_0000_0000 + m * p
  {
    assert (g * s) * p == g * (s * p);
  }

  /** A word with a sticky last bit for the limb below it. */
  lemma HighLimb(v64: u64, v0: u64)
    ensures Jam(Value128(v64, v0), 64) == BitOr(v64, Bit(v0 != 0)) == if v0 == 0 then v64 else v64 - v64 % 2 + 1
  {
    hide Exp2, BitOr;
    Exp2Constants();
    JamParts(Value128(v64, v0), 64, v64, v0);
    OrBit(v64, v0 != 0);
  }
}
