/** SoftFloat's shift, count and multi-word helpers. */
module Primitives {
  import opened Powers
  import opened Rounding
  import opened Words

  // --- Sticky right shifts ---

  /** What a sticky right shift means: the quotient, its last bit set when a remainder is lost. */
  function Jam(a: nat, count: nat): nat {
    var q := Shr(a, count);
    if Low(a, count) == 0 then q else q - q % 2 + 1
  }

  function Shift32RightJam(a: u32, count: nat): nat {
    if count < 32 then BitOr(Shr(a, count), Bit(Wrap32(Shl(a, (32 - count) % 32)) != 0))
    else Bit(a != 0)
  }

  function Shift64RightJam(a: u64, count: nat): nat {
    if count < 64 then BitOr(Shr(a, count), Bit(Wrap64(Shl(a, (64 - count) % 64)) != 0))
    else Bit(a != 0)
  }

  function ShortShift64RightJam(a: u64, count: nat): nat {
    BitOr(Shr(a, count), Bit(Low(a, count) != 0))
  }

  lemma JamIsOr(a: nat, count: nat)
    ensures BitOr(Shr(a, count), Bit(Low(a, count) != 0)) == Jam(a, count)
  {
    hide BitOr, Shr, Low;
    OrBit(Shr(a, count), Low(a, count) != 0);
  }

  lemma ShortShiftIsOr(a: u64, count: nat)
    ensures ShortShift64RightJam(a, count) == BitOr(Shr(a, count), Bit(Low(a, count) != 0))
  {
    hide BitOr, Shr, Low;
  }

  /** A sticky shift is within one of the quotient and keeps even bounds. */
  lemma JamIs(a: nat, count: nat, q: nat)
    requires q == a / Exp2(count)
    ensures Jam(a, count) == q || (q % 2 == 0 && Jam(a, count) == q + 1)
  {
    hide Exp2;
  }

  /** The bits pushed out to the left of a word are the remainder of the right shift. */
  lemma LostBits(a: nat, count: nat, width: nat)
    requires 0 < count < width
    ensures Shl(a, width - count) % Exp2(width) == 0 <==> Low(a, count) == 0
  {
    hide Exp2;
    Exp2Add(width - count, count);
    ScaledRemainder(a, Exp2(count), Exp2(width - count));
    ProductIsZero(Exp2(width - count), Low(a, count));
  }

  lemma ProductIsZero(x: int, y: int)
    ensures x * y == 0 <==> x == 0 || y == 0
  {
  }

  lemma ScaledRemainder(a: nat, m: nat, s: nat)
    requires m > 0 && s > 0
    ensures (a * s) % (s * m) == s * (a % m)
  {
    var q, r := a / m, a % m;
    assert a * s == q * (s * m) + s * r by {
      assert a == q * m + r;
    }
    ProductLess(s, r, m);
    Euclid(a * s, s * m, q, s * r);
  }

  lemma ProductLess(s: int, r: int, m: int)
    requires s > 0 && 0 <= r < m
    ensures 0 <= s * r < s * m
  {
    assert s * (m - r) > 0;
  }

  lemma SmallJam(a: nat, count: nat)
    requires a < Exp2(count)
    ensures Jam(a, count) == Bit(a != 0)
  {
    hide Exp2;
    Euclid(a, Exp2(count), 0, a);
  }

  lemma Shift32RightJamIsJam(a: u32, count: nat)
    requires count > 0
    ensures Shift32RightJam(a, count) == Jam(a, count)
  {
    hide Exp2, Jam, BitOr, Shl, Shr, Low;
    Exp2Constants();
    if count < 32 {
      LostBits(a, count, 32);
      JamIsOr(a, count);
    } else {
      Exp2Mono(32, count);
      SmallJam(a, count);
    }
  }

  lemma Shift64RightJamIsJam(a: u64, count: nat)
    requires count > 0
    ensures Shift64RightJam(a, count) == Jam(a, count)
  {
    hide Exp2, Jam, BitOr, Shl, Shr, Low;
    Exp2Constants();
    if count < 64 {
      LostBits(a, count, 64);
      JamIsOr(a, count);
    } else {
      Exp2Mono(64, count);
      SmallJam(a, count);
    }
  }

  /** A sticky shift keeps the shifted value's place among the even integers. */
  lemma JamAgrees(a: nat, count: nat)
    ensures Agree(a as real / Exp2(count) as real / 2.0, Jam(a, count) as real / 2.0)
  {
    hide Exp2, Agree, IsInt;
    FloorDiv(a as real, Exp2(count));
    IntIsInt(a);
    JamHalf(a as real / Exp2(count) as real, Jam(a, count));
  }

  lemma IntIsInt(a: int)
    ensures IsInt(a as real) && (a as real).Floor == a
  {
  }

  lemma JamHalf(y: real, j: nat)
    requires j == if IsInt(y) then y.Floor else y.Floor - y.Floor % 2 + 1
    ensures Agree(y / 2.0, j as real / 2.0)
  {
    hide IsInt;
    IntIsInt(j);
    FloorHalf(y);
    FloorHalf(j as real);
  }

  lemma FloorHalf(x: real)
    ensures (x / 2.0).Floor == x.Floor / 2
    ensures IsInt(x / 2.0) <==> IsInt(x) && x.Floor % 2 == 0
  {
    FloorDiv(x, 2);
  }

  // --- Leading zeros ---

  /** The lookup table, by its runs of equal entries. */
  function CountLeadingZeros8(a: nat): nat {
    if a < 1 then 8 else if a < 2 then 7 else if a < 4 then 6 else if a < 8 then 5
    else if a < 16 then 4 else if a < 32 then 3 else if a < 64 then 2 else if a < 128 then 1 else 0
  }

  /** count is the shift that brings the leading one of a to the top of a word of the given width. */
  ghost predicate LeadingZeros(a: nat, width: nat, count: nat) {
    if a == 0 then count == width
    else count < width && Exp2(width - 1) <= Shl(a, count) < Exp2(width)
  }

  lemma TableEntry(a: nat)
    requires 0x100_0000 <= a < TWO32
    ensures LeadingZeros(a, 32, CountLeadingZeros8(a / 0x100_0000))
  {
    var t := a / 0x100_0000;
    TableRow(t);
    hide *;
    Exp2Constants();
    var e := Exp2(CountLeadingZeros8(t));
    LeadingZerosIs(a, 32, CountLeadingZeros8(t));
    TableRange(a, t, e);
  }

  lemma TableRow(t: nat)
    requires 1 <= t < 0x100
    ensures CountLeadingZeros8(t) < 8
    ensures 0x80 <= t * Exp2(CountLeadingZeros8(t)) && (t + 1) * Exp2(CountLeadingZeros8(t)) <= 0x100
  {
    SmallExp2();
    hide Exp2;
  }

  lemma NextTimes(x: int, y: int)
    ensures (x + 1) * y == x * y + y
  {
  }

  lemma TableRange(a: nat, t: nat, e: nat)
    requires t * 0x100_0000 <= a < (t + 1) * 0x100_0000
    requires 0x80 <= t * e && (t + 1) * e <= 0x100 && e > 0
    ensures 0x8000_0000 <= a * e < 0x1_0000_0000
  {
    hide *;
    ProductMono(t * 0x100_0000, a, e);
    Swap(t, 0x100_0000, e);
    ProductMono(a + 1, (t + 1) * 0x100_0000, e);
    Swap(t + 1, 0x100_0000, e);
    NextTimes(a, e);
  }

  lemma LeadingZerosIs(a: nat, width: nat, count: nat)
    requires a > 0 && count < width
    ensures LeadingZeros(a, width, count) <==> Exp2(width - 1) <= a * Exp2(count) < Exp2(width)
  {
  }

  lemma SmallExp2()
    ensures Exp2(0) == 1 && Exp2(1) == 2 && Exp2(2) == 4 && Exp2(3) == 8
    ensures Exp2(4) == 0x10 && Exp2(5) == 0x20 && Exp2(6) == 0x40 && Exp2(7) == 0x80
  {
  }

  /** Shifting first and counting the rest adds up. */
  lemma LeadingZerosShift(a: nat, width: nat, moved: nat, count: nat)
    requires a > 0 && LeadingZeros(a * Exp2(moved), width, count) && a * Exp2(moved) > 0
    requires moved + count < width
    ensures LeadingZeros(a, width, moved + count)
  {
    hide Exp2, LeadingZeros;
    LeadingZerosIs(a * Exp2(moved), width, count);
    LeadingZerosIs(a, width, moved + count);
    Exp2Add(moved, count);
    Associate(a, Exp2(moved), Exp2(count));
  }

  lemma Associate(x: int, y: int, z: int)
    ensures x * y * z == x * (y * z)
  {
  }

  method CountLeadingZeros32(a0: u32) returns (count: nat)
    ensures LeadingZeros(a0, 32, count) && count <= 32
  {
    hide Exp2, LeadingZeros, Wrap32;
    var a: u32 := a0;
    count := 0;
    if a < 0x1_0000 {
      FitsWord(a, 0x1_0000);
      count := 16;
      a := Wrap32(a * 0x1_0000);
    }
    if a < 0x100_0000 {
      FitsWord(a, 0x100);
      count := count + 8;
      a := Wrap32(a * 0x100);
    }
    ghost var before := count;
    count := count + CountLeadingZeros8(a / 0x100_0000);
    if a0 == 0 {
      ZeroLeadingZeros(32);
    } else {
      ScaledByte(a0, a, before);
      TableEntry(a);
      LeadingZerosMoved(a0, a, 32, before, count - before);
    }
  }

  lemma FitsWord(a: u32, m: u32)
    requires m == 0x100 || m == 0x1_0000
    ensures m == 0x100 && a < 0x100_0000 ==> Wrap32(a * 0x100) == a * 0x100
    ensures m == 0x1_0000 && a < 0x1_0000 ==> Wrap32(a * 0x1_0000) == a * 0x1_0000
  {
  }

  /** What the whole bytes shifted out amount to. */
  lemma ScaledByte(a0: u32, a: u32, before: nat)
    requires (before == 0 && a == a0) || (before == 8 && a == a0 * 0x100)
          || (before == 16 && a == a0 * 0x1_0000) || (before == 24 && a == a0 * 0x1_0000 * 0x100)
    ensures a == a0 * Exp2(before)
  {
    hide *;
    ByteExp2();
  }

  lemma ByteExp2()
    ensures Exp2(0) == 1 && Exp2(8) == 0x100 && Exp2(16) == 0x1_0000 && Exp2(24) == 0x100_0000
  {
    Exp2Constants();
    Exp2Add(8, 8);
  }

  lemma LeadingZerosMoved(a0: nat, a: nat, width: nat, moved: nat, count: nat)
    requires a0 > 0 && a == a0 * Exp2(moved) && a > 0 && LeadingZeros(a, width, count) && moved + count < width
    ensures LeadingZeros(a0, width, moved + count)
  {
    hide *;
    LeadingZerosShift(a0, width, moved, count);
  }

  lemma ZeroLeadingZeros(width: nat)
    ensures LeadingZeros(0, width, width)
  {
  }

  /** The upper or lower word decides; from there the count is that of a 32-bit word. */
  method CountLeadingZeros64(a: u64) returns (count: nat)
    ensures LeadingZeros(a, 64, count) && count <= 64
  {
    hide *;
    Words32();
    WrapSmall(a);
    var high := 32;
    var a32 := Wrap32(a);
    if 0x1_0000_0000 <= a {
      high := 0;
      a32 := Wrap32(a / 0x1_0000_0000);
    }
    count := CountLeadingZeros32(a32);
    if a == 0 {
      LeadingZerosOfZero(32, count);
      ZeroLeadingZeros(64);
    } else {
      LeadingZerosWide(a, a32, high, count);
    }
    count := high + count;
  }

  lemma WrapSmall(a: u64)
    ensures a < 0x1_0000_0000 ==> Wrap32(a) == a
    ensures Wrap32(a / 0x1_0000_0000) == a / 0x1_0000_0000
  {
  }

  lemma LeadingZerosOfZero(width: nat, count: nat)
    requires LeadingZeros(0, width, count)
    ensures count == width
  {
  }

  lemma LeadingZerosWide(a: u64, top: u32, high: nat, count: nat)
    requires a > 0 && LeadingZeros(top, 32, count)
    requires if TWO32 <= a then high == 0 && top == a / TWO32 else high == 32 && top == a
    requires top > 0
    ensures LeadingZeros(a, 64, high + count)
  {
    hide Exp2, LeadingZeros;
    Exp2Constants();
    LeadingZerosBound(top, 32, count);
    LeadingZerosIs(top, 32, count);
    LeadingZerosIs(a, 64, high + count);
    if TWO32 <= a {
      var e := Exp2(count);
      assert top * TWO32 <= a < top * TWO32 + TWO32;
      Exp2Add(count, 32 - count);
      WideProduct(a, top, e, Exp2(32 - count));
    } else {
      Exp2Add(32, count);
      Associate(a, TWO32, Exp2(count));
      assert a * TWO32 * Exp2(count) == a * Exp2(count) * TWO32;
    }
  }

  lemma LeadingZerosBound(a: nat, width: nat, count: nat)
    requires a > 0 && LeadingZeros(a, width, count)
    ensures count < width
  {
  }

  lemma WideProduct(a: nat, top: nat, e: nat, k: nat)
    requires top * TWO32 <= a < top * TWO32 + TWO32
    requires 0x8000_0000 <= top * e < TWO32 && e * k == TWO32
    ensures 0x8000_0000_0000_0000 <= a * e < TWO64
  {
    hide *;
    Words32();
    if top >= k {
      ProductMono(k, top, e);
    }
    ProductMono(top + 1, k, e);
    assert (top + 1) * e == top * e + e;
    ProductMono(top * TWO32, a, e);
    ProductMono(a, (top + 1) * TWO32, e);
    Swap(top, TWO32, e);
    Swap(top + 1, TWO32, e);
    if a * e == (top + 1) * TWO32 * e {
      ProductMono(a + 1, (top + 1) * TWO32, e);
    }
  }

  lemma Words32()
    ensures TWO32 == 0x1_0000_0000 && TWO64 == 0x1_0000_0000_0000_0000
  {
  }

  lemma Swap(x: int, y: int, z: int)
    ensures x * y * z == x * z * y
  {
  }

  lemma ProductMono(x: int, y: int, z: int)
    requires x <= y && z >= 0
    ensures x * z <= y * z && z * x <= z * y
  {
  }
}
