/** Double-precision fused multiply-add, on two-limb words. */
module F64MulAdd {
  import opened Powers
  import opened Rounding
  import opened Ieee754
  import opened RoundTheory
  import opened Words
  import opened Primitives
  import opened RoundPack
  import opened Unpack
  import opened Align
  import opened Wide128
  import opened EstimateDiv
  import opened Shift128
  import opened MulAddTheory
  import opened F32MulAdd

  // --- The product ---

  lemma SigProduct64(m: int, n: int, q: int, p: int)
    requires 0x10_0000_0000_0000 <= m < 0x20_0000_0000_0000 && 0x10_0000_0000_0000 <= n < 0x20_0000_0000_0000
    requires q == m * n && p == m * 0x400 * (n * 0x400)
    ensures p == q * Exp2(20) && p % 2 == 0
    ensures 0x1000_0000_0000_0000_0000_0000_0000_0000 <= p < 0x4000_0000_0000_0000_0000_0000_0000_0000
  {
    hide *;
    ProductMono(0x10_0000_0000_0000, m, 0x10_0000_0000_0000);
    ProductMono(0x10_0000_0000_0000, n, m);
    ProductMono(m, 0x1F_FFFF_FFFF_FFFF, 0x1F_FFFF_FFFF_FFFF);
    ProductMono(n, 0x1F_FFFF_FFFF_FFFF, m);
    Exp2Constants();
    Exp2Add(10, 10);
    assert p == q * 0x10_0000;
  }

  lemma ProductWide64(a: nat, b: nat, expA: int, expB: int, m: int, n: int, q: int, p: int)
    requires Normal(F64, a, expA, m) && Normal(F64, b, expB, n)
    requires q == m * n && p == q * Exp2(20)
    ensures Magnitude(F64, a) * Magnitude(F64, b) == Dyadic(p as real, expA + expB - 2170)
    ensures Magnitude(F64, a) * Magnitude(F64, b) == Dyadic((2 * p) as real, expA + expB - 2171)
  {
    hide *;
    FormatConstants();
    SmallExp2();
    NormalIs(F64, a, expA, m);
    NormalIs(F64, b, expB, n);
    ToReal(m, n);
    ToReal(q, Exp2(20));
    DyadicTimes(m as real, expA - 1075, n as real, expB - 1075, q as real);
    DyadicShift(q as real, p as real, expA + expB - 2170, 20);
    DyadicShift(p as real, (2 * p) as real, expA + expB - 2171, 1);
  }

  lemma UnitF64()
    ensures F64.Half() * Exp2(64) == 0x2000_0000_0000_0000_0000_0000_0000_0000
  {
    Exp2Constants();
    hide Exp2;
  }

  lemma ProductOfF64(a: nat, b: nat, expA: int, expB: int, m: int, n: int, p: int)
    requires Normal(F64, a, expA, m) && Normal(F64, b, expB, n) && p == m * 0x400 * (n * 0x400)
    ensures 0x1000_0000_0000_0000_0000_0000_0000_0000 <= p < 0x4000_0000_0000_0000_0000_0000_0000_0000
    ensures p < 0x2000_0000_0000_0000_0000_0000_0000_0000 ==> ProductOf(F64, 64, a, b, expA + expB - 0x3FF, 2 * p)
    ensures p >= 0x2000_0000_0000_0000_0000_0000_0000_0000 ==> ProductOf(F64, 64, a, b, expA + expB - 0x3FE, p)
  {
    hide *;
    FormatConstants();
    NormalBounds(F64, a, expA, m);
    NormalBounds(F64, b, expB, n);
    SigProduct64(m, n, m * n, p);
    ProductWide64(a, b, expA, expB, m, n, m * n, p);
    UnitF64();
    IsProductOf(F64, 64, a, b, expA + expB - 0x3FF, 2 * p);
    IsProductOf(F64, 64, a, b, expA + expB - 0x3FE, p);
  }

  lemma AddendOfF64(c: nat, exp: int, m: int)
    requires Normal(F64, c, exp, m)
    ensures AddendOf(F64, c, exp, m * 0x200)
  {
    NormalBounds(F64, c, exp, m);
    NormalIs(F64, c, exp, m);
    NinePlaces();
    DyadicShift(m as real, (m * 0x200) as real, exp - 1084, 9);
    hide Exp2, Dyadic, Magnitude, Normal;
  }

  lemma NinePlaces()
    ensures Exp2(9) == 0x200
  {
  }

  method ProductF64(a: u64, b: u64) returns (expProd: int, sigProd: U128)
    requires IsFinite(F64, a) && IsFinite(F64, b) && !IsZero(F64, a) && !IsZero(F64, b)
    ensures ProductOf(F64, 64, a, b, expProd, sigProd.V()) && -0x2000 <= expProd < 0x2000
    ensures sigProd.v64 < 0x4000_0000_0000_0000
    ensures 0x2000_0000_0000_0000_0000_0000_0000_0000 <= sigProd.V() < 0x4000_0000_0000_0000_0000_0000_0000_0000
  {
    hide *;
    var expA, mA: int := NormaliseF64(a);
    var expB, mB: int := NormaliseF64(b);
    expProd := expA + expB - 0x3FE;
    var sigA: u64, sigB: u64 := mA * 0x400, mB * 0x400;
    sigProd := Mul64To128(sigA, sigB);
    ghost var p := sigProd.V();
    ProductOfF64(a, b, expA, expB, mA, mB, p);
    ValueIs(sigProd);
    if sigProd.v64 < 0x2000_0000_0000_0000 {
      expProd := expProd - 1;
      ValueOf(sigProd);
      SmallExp2();
      ShortShift128LeftIsProduct(sigProd.v64, sigProd.v0, 1);
      var (hi, lo) := ShortShift128Left(sigProd.v64, sigProd.v0, 1);
      sigProd := U128(hi, lo);
      ValueIs(sigProd);
      ValueOf(sigProd);
    }
  }

  // --- No addend ---

  lemma NoAddendWord(v64: u64, v0: u64)
    ensures BitOr(2 * v64, Bit(v0 != 0)) == Jam(Value128(v64, v0), 63)
  {
    hide *;
    var b, r := v0 / 0x8000_0000_0000_0000, v0 % 0x8000_0000_0000_0000;
    Exp2Constants();
    Value128Is(v64, v0);
    JamParts(Value128(v64, v0), 63, 2 * v64 + b, r);
    OrBit(2 * v64, v0 != 0);
  }

  method MulAddNoAddendF64(st: FloatState, ghost a: u64, ghost b: u64, ghost c: u64, signZ: bool, expProd: int,
      sigProd: U128) returns (z: u64)
    requires Regular(F64, a, b, c) && IsZero(F64, c) && signZ == (Neg(F64, a) != Neg(F64, b))
    requires ProductOf(F64, 64, a, b, expProd, sigProd.V()) && -0x2000 <= expProd < 0x2000
    modifies st`exceptionFlags
    ensures var o := MulAdd(F64, st.roundingMode, a, b, c);
            z == o.bits && st.exceptionFlags == old(st.exceptionFlags) + o.flags
  {
    hide *;
    FormatConstants();
    ghost var o := MulAdd(F64, st.roundingMode, a, b, c);
    var expZ := expProd - 1;
    NoAddendWord(sigProd.v64, sigProd.v0);
    ValueOf(sigProd);
    var sigZ := BitOr(2 * sigProd.v64, Bit(sigProd.v0 != 0));
    MulAddNoAddend(F64, st.roundingMode, a, b, c, 64, expProd, sigProd.V());
    PacksIs(F64, st.roundingMode, signZ, o, sigZ, expZ);
    z := RoundPackToF64(st, signZ, expZ, sigZ);
  }

  // --- One sign ---

  /** The high limb shifted, with the low limb folded into its last bit. */
  function AlignedProduct(v64: u64, d: nat): nat {
    if d == 0 then v64 else Shift64RightJam(v64, d)
  }

  lemma SumWord(sigC: nat, v64: u64, v0: u64, d: nat)
    requires sigC % 2 == 0
    ensures BitOr(sigC + AlignedProduct(v64, d), Bit(v0 != 0)) == sigC + Jam(Value128(v64, v0), 64 + d)
  {
    hide *;
    var q, r := Split(v64, d);
    NestedJam(v64, v0, d, q, r);
    JamParts(v64, d, q, r);
    AlignedIs(v64, d);
    if d == 0 {
      Exp2Zero();
    } else {
      Shift64RightJamIsJam(v64, d);
    }
    OrBit(sigC + AlignedProduct(v64, d), v0 != 0);
  }

  lemma NestedJam(v64: u64, v0: u64, d: nat, q: nat, r: nat)
    requires v64 == q * Exp2(d) + r && r < Exp2(d)
    ensures Jam(Value128(v64, v0), 64 + d) == if r == 0 && v0 == 0 then q else q - q % 2 + 1
  {
    hide *;
    Value128Is(v64, v0);
    Exp2Add(d, 64);
    Exp2Constants();
    LongIdentity(v64, v0, q, r, Exp2(d), 0x1_0000_0000_0000_0000);
    JamParts(Value128(v64, v0), 64 + d, q, r * 0x1_0000_0000_0000_0000 + v0);
  }

  lemma AlignedIs(v64: u64, d: nat)
    ensures AlignedProduct(v64, d) == if d == 0 then v64 else Shift64RightJam(v64, d)
  {
    hide Shift64RightJam;
  }

  lemma NoWrap128(x: int)
    ensures 0 <= x < 0x1_0000_0000_0000_0000_0000_0000_0000_0000 ==> Wrap128(x) == x
  {
  }

  method MulAddSumF64(st: FloatState, ghost a: u64, ghost b: u64, ghost c: u64, signZ: bool, expProd: int,
      sigProd: U128, expC: int, sigC: u64)
    returns (z: u64)
    requires Regular(F64, a, b, c) && signZ == (Neg(F64, a) != Neg(F64, b)) == Neg(F64, c)
    requires ProductOf(F64, 64, a, b, expProd, sigProd.V()) && AddendOf(F64, c, expC, sigC)
    requires -0x2000 <= expProd < 0x2000 && -0x2000 <= expC < 0x2000
    requires sigC < 0x4000_0000_0000_0000
    modifies st`exceptionFlags
    ensures var o := MulAdd(F64, st.roundingMode, a, b, c);
            z == o.bits && st.exceptionFlags == old(st.exceptionFlags) + o.flags
  {
    hide *;
    FormatConstants();
    UnitF64();
    Exp2Constants();
    ValueOf(sigProd);
    AddendIs(F64, c, expC, sigC);
    ghost var o := MulAdd(F64, st.roundingMode, a, b, c);
    var expDiff := expProd - expC;
    var expZ, sigZ: int;
    if expDiff <= 0 {
      expZ := expC;
      SumWord(sigC, sigProd.v64, sigProd.v0, -expDiff);
      MulAddSumLow(F64, st.roundingMode, a, b, c, 64, expProd, sigProd.V(), expC, sigC);
      sigZ := BitOr(sigC as int + AlignedProduct(sigProd.v64, -expDiff) as int, Bit(sigProd.v0 != 0));
    } else {
      expZ := expProd;
      Value128Is(sigC, 0);
      Shift128RightJamIsJam(sigC, 0, expDiff);
      var (hi, lo) := Shift128RightJam(sigC, 0, expDiff);
      MulAddSumHigh(F64, st.roundingMode, a, b, c, 64, expProd, sigProd.V(), expC, sigC, Value128(sigC, 0));
      NoWrap128(sigProd.V() as int + Jam(Value128(sigC, 0), expDiff) as int);
      var sum := Add128(sigProd.v64, sigProd.v0, hi, lo);
      ValueOf(sum);
      HighLimb(sum.v64, sum.v0);
      sigZ := BitOr(sum.v64, Bit(sum.v0 != 0));
    }
    RenormalisesIs(F64, st.roundingMode, signZ, o, sigZ, expZ);
    if sigZ < 0x4000_0000_0000_0000 {
      expZ := expZ - 1;
      sigZ := 2 * sigZ;
    }
    PacksIs(F64, st.roundingMode, signZ, o, sigZ, expZ);
    z := RoundPackToF64(st, signZ, expZ, sigZ);
  }

  // --- Opposite signs ---

  lemma JamScaled(x: nat, s: nat)
    requires s <= 64
    ensures Jam(x * Exp2(s), 64) == Jam(x, 64 - s)
  {
    hide *;
    var q, r := Split(x, 64 - s);
    JamParts(x, 64 - s, q, r);
    Exp2Add(64 - s, s);
    Regrouped(q, Exp2(64 - s), r, Exp2(s));
    ProductMono(r + 1, Exp2(64 - s), Exp2(s));
    ProductIsZero(r, Exp2(s));
    ProductNonnegative(r, Exp2(s));
    JamParts(x * Exp2(s), 64, q, r * Exp2(s));
  }

  /** The places the difference moves, by its high limb or, once that is empty, by its low one. */
  lemma DifferencePlaces(v64: u64, v0: u64, clz: nat) returns (sc: nat)
    requires 0 < Value128(v64, v0) < 0x4000_0000_0000_0000_0000_0000_0000_0000
    requires LeadingZeros(if v64 == 0 then v0 else v64, 64, clz)
    ensures clz < 64 && sc == (if v64 == 0 then 64 + clz - 1 else clz - 1) && (v64 != 0 ==> clz >= 2)
    ensures 0x4000_0000_0000_0000_0000_0000_0000_0000 <= Value128(v64, v0) * Exp2(sc)
    ensures Value128(v64, v0) * Exp2(sc) < 0x8000_0000_0000_0000_0000_0000_0000_0000
  {
    hide *;
    Value128Is(v64, v0);
    var top := if v64 == 0 then v0 else v64;
    LeadingZerosBound(top, 64, clz);
    LeadingZerosIs(top, 64, clz);
    Exp2Constants();
    SmallExp2();
    if v64 == 0 {
      sc := 64 + clz - 1;
      Exp2Add(clz, 63);
      Associate(v0, Exp2(clz), Exp2(63));
    } else {
      if clz < 2 {
        Exp2Mono(clz, 1);
        ProductMono(Exp2(clz), 2, v64);
      }
      sc := clz - 1;
      Exp2Double(sc);
      Doubling(v64, Exp2(sc));
      Exp2Add(sc, 63 - sc);
      TwoLimbs(v64, v0, Exp2(sc), Exp2(63 - sc));
    }
  }

  lemma TwoLimbs(v64: u64, v0: u64, p: int, s: int)
    requires p >= 1 && p * s == 0x8000_0000_0000_0000
    requires 0x8000_0000_0000_0000 <= 2 * v64 * p < 0x1_0000_0000_0000_0000
    ensures var x := (v64 * 0x1_0000_0000_0000_0000 + v0) * p;
            0x4000_0000_0000_0000_0000_0000_0000_0000 <= x < 0x8000_0000_0000_0000_0000_0000_0000_0000
  {
    hide *;
    var w, x := v64 as int, (v64 * 0x1_0000_0000_0000_0000 + v0) * p;
    Associate(2, w, p);
    if w >= s {
      ProductMono(s, w, p);
      Swap2(s, p);
    }
    ProductMono(w + 1, s, p);
    Swap2(s, p);
    ProductMono(v0, 0xFFFF_FFFF_FFFF_FFFF, p);
    ProductNonnegative(v0, p);
    LimbsTimes(w, v0, p);
    assert x == w * p * 0x1_0000_0000_0000_0000 + v0 * p;
  }

  lemma LimbsTimes(w: int, v0: int, p: int)
    ensures (w * 0x1_0000_0000_0000_0000 + v0) * p == w * p * 0x1_0000_0000_0000_0000 + v0 * p
    ensures (w + 1) * p == w * p + p
  {
  }

  method MulAddNormaliseF64(st: FloatState, signZ: bool, exp: int, sigZ128: U128, ghost y: real, ghost o: Outcome)
      returns (z: u64)
    requires -0x2000 <= exp < 0x2000
    requires Difference(0x2000_0000_0000_0000_0000_0000_0000_0000, y, sigZ128.V())
    requires o == Signed(F64, st.roundingMode, signZ, Dyadic(y, exp - 1148))
    modifies st`exceptionFlags
    ensures z == o.bits && st.exceptionFlags == old(st.exceptionFlags) + o.flags
  {
    hide *;
    FormatConstants();
    UnitF64();
    ghost var unit := 0x2000_0000_0000_0000_0000_0000_0000_0000;
    DifferenceIs(unit, y, sigZ128.V());
    ValueOf(sigZ128);
    Value128Is(sigZ128.v64, sigZ128.v0);
    ghost var diff := sigZ128.V();
    var expZ, hi: u64, lo: u64 := exp, sigZ128.v64, sigZ128.v0;
    if hi == 0 {
      expZ := expZ - 64;
      hi, lo := lo, 0;
    }
    Value128Is(hi, lo);
    var clz := CountLeadingZeros64(hi);
    ghost var sc := DifferencePlaces(sigZ128.v64, sigZ128.v0, clz);
    var shiftCount: int := clz as int - 1;
    expZ := expZ - shiftCount;
    var sigZ: int;
    if shiftCount < 0 {
      SmallExp2();
      ShortShiftIsOr(hi, 1);
      JamIsOr(hi, 1);
      sigZ := ShortShift64RightJam(hi, 1);
    } else {
      ScaledLimbs(sigZ128.v64, sigZ128.v0, hi, lo, shiftCount, sc);
      ShortShift128LeftIsProduct(hi, lo, shiftCount);
      var (hi', lo') := ShortShift128Left(hi, lo, shiftCount);
      HighLimb(hi', lo');
      sigZ, lo := hi', lo';
    }
    OrBit(sigZ, lo != 0);
    sigZ := BitOr(sigZ, Bit(lo != 0));
    DifferenceRounds(F64, st.roundingMode, signZ, 64, unit, y, diff, sc, exp, Dyadic(y, exp - 1148));
    PacksIs(F64, st.roundingMode, signZ, o, sigZ, expZ);
    z := RoundPackToF64(st, signZ, expZ, sigZ);
  }

  /** Shifting the limbs, one of them perhaps empty, by the places still to go. */
  lemma ScaledLimbs(v64: u64, v0: u64, hi: u64, lo: u64, s: nat, sc: nat)
    requires if v64 == 0 then hi == v0 && lo == 0 && sc == 64 + s else hi == v64 && lo == v0 && sc == s
    requires s < 64 && Value128(v64, v0) * Exp2(sc) < 0x8000_0000_0000_0000_0000_0000_0000_0000
    ensures Value128(hi, lo) * Exp2(s) == Value128(v64, v0) * Exp2(sc)
    ensures Jam(Value128(hi, lo) * Exp2(s), 64)
         == if sc < 64 then Jam(Value128(v64, v0), 64 - sc) else Value128(v64, v0) * Exp2(sc - 64)
  {
    hide *;
    Value128Is(v64, v0);
    Value128Is(hi, lo);
    if v64 == 0 {
      Exp2Add(s, 64);
      Exp2Constants();
      Associate(v0, Exp2(s), 0x1_0000_0000_0000_0000);
      Swap(v0, 0x1_0000_0000_0000_0000, Exp2(s));
      ProductNonnegative(v0, Exp2(s));
      JamParts(Value128(hi, lo) * Exp2(s), 64, v0 * Exp2(s), 0);
    } else {
      JamScaled(Value128(v64, v0), s);
    }
  }

  /** Subtraction in 128 bits, read back through its top bit. */
  lemma WrapDifference128(x: nat, y: nat, z: U128)
    requires x < 0x4000_0000_0000_0000_0000_0000_0000_0000 && y < 0x4000_0000_0000_0000_0000_0000_0000_0000
    requires z.V() == Wrap128(x - y)
    ensures z.v64 == 0 && z.v0 == 0 <==> x == y
    ensures z.v64 >= 0x8000_0000_0000_0000 <==> x < y
    ensures x >= y ==> z.V() == x - y
    ensures x < y ==> Wrap128(-(z.V() as int)) == y - x
  {
    WrapsOnce(x - y);
    hide Wrap128, U128.V;
    ValueIs(z);
    if x < y {
      WrapsOnce(-(z.V() as int));
    }
  }

  lemma WrapsOnce(x: int)
    requires -0x1_0000_0000_0000_0000_0000_0000_0000_0000 <= x < 0x1_0000_0000_0000_0000_0000_0000_0000_0000
    ensures Wrap128(x) == if x < 0 then x + 0x1_0000_0000_0000_0000_0000_0000_0000_0000 else x
  {
  }

  method MulAddDifferenceF64(st: FloatState, ghost a: u64, ghost b: u64, ghost c: u64, signProd: bool, expProd: int,
      sigProd: U128, expC: int, sigC: u64)
    returns (z: u64)
    requires Regular(F64, a, b, c) && signProd == (Neg(F64, a) != Neg(F64, b)) && signProd != Neg(F64, c)
    requires ProductOf(F64, 64, a, b, expProd, sigProd.V()) && AddendOf(F64, c, expC, sigC)
    requires -0x2000 <= expProd < 0x2000 && -0x2000 <= expC < 0x2000
    requires sigProd.V() < 0x4000_0000_0000_0000_0000_0000_0000_0000 && sigC < 0x4000_0000_0000_0000
    modifies st`exceptionFlags
    ensures var o := MulAdd(F64, st.roundingMode, a, b, c);
            z == o.bits && st.exceptionFlags == old(st.exceptionFlags) + o.flags
  {
    hide *;
    FormatConstants();
    UnitF64();
    Exp2Constants();
    ghost var o := MulAdd(F64, st.roundingMode, a, b, c);
    var signZ := signProd;
    ghost var unit := 0x2000_0000_0000_0000_0000_0000_0000_0000;
    ghost var wideC: nat := sigC * 0x1_0000_0000_0000_0000;
    Value128Is(sigC, 0);
    ValueOf(sigProd);
    ghost var y := MulAddDifference(F64, st.roundingMode, a, b, c, 64, expProd, sigProd.V(), expC, sigC, wideC);
    var expDiff := expProd - expC;
    var expZ: int;
    var sigZ128: U128;
    if expDiff < 0 {
      signZ := !signZ;
      expZ := expC;
      Shift128RightJamIsJam(sigProd.v64, sigProd.v0, -expDiff);
      var (hi, lo) := Shift128RightJam(sigProd.v64, sigProd.v0, -expDiff);
      ghost var diff := wideC as int - Jam(sigProd.V(), -expDiff) as int;
      DifferenceIs(unit, y, diff);
      NoWrap128(diff);
      sigZ128 := Sub128(sigC, 0, hi, lo);
    } else if expDiff == 0 {
      expZ := expProd;
      sigZ128 := Sub128(sigProd.v64, sigProd.v0, sigC, 0);
      WrapDifference128(sigProd.V(), wideC, sigZ128);
      OrZero(sigZ128.v64, sigZ128.v0);
      if BitOr(sigZ128.v64, sigZ128.v0) == 0 {
        SpecialBits(st.roundingMode == Min, true);
        z := PackToF64UI(st.roundingMode == Min, 0, 0);
        return;
      }
      if sigZ128.v64 >= 0x8000_0000_0000_0000 {
        signZ := !signZ;
        ValueOf(sigZ128);
        Value128Is(0, 0);
        sigZ128 := Sub128(0, 0, sigZ128.v64, sigZ128.v0);
      }
    } else {
      expZ := expProd;
      Shift128RightJamIsJam(sigC, 0, expDiff);
      var (hi, lo) := Shift128RightJam(sigC, 0, expDiff);
      ghost var diff := sigProd.V() as int - Jam(wideC, expDiff) as int;
      DifferenceIs(unit, y, diff);
      NoWrap128(diff);
      sigZ128 := Sub128(sigProd.v64, sigProd.v0, hi, lo);
    }
    z := MulAddNormaliseF64(st, signZ, expZ, sigZ128, y, o);
  }

  method MulAddFiniteF64(st: FloatState, op: MulAddOp, a: u64, b: u64, c: u64) returns (z: u64)
    requires Regular(F64, a, b, c)
    modifies st`exceptionFlags
    ensures var o := MulAdd(F64, st.roundingMode, OpA(F64, op, a), b, OpC(F64, op, c));
            z == o.bits && st.exceptionFlags == old(st.exceptionFlags) + o.flags
  {
    hide *;
    IsRegular(F64, a, b, c);
    BitsOfWords(a);
    BitsOfWords(b);
    BitsOfWords(c);
    Fields(F64, a);
    Fields(F64, b);
    Fields(F64, c);
    ghost var a', c' := OpA(F64, op, a), OpC(F64, op, c);
    OpIs(F64, op, a, c);
    OpWords(F64, op, a, c);
    LikeIs(F64, c, c');
    var signProd := (SignUI(F64, a) != SignUI(F64, b)) != (op == SubProd);
    var signC := SignUI(F64, c) != (op == SubC);
    var expProd, sigProd := ProductF64(a, b);
    LikeOperands(F64, 64, a, a', b, c, c', expProd, sigProd.V());
    if ExpUI(F64, c) == 0 && FracUI(F64, c) == 0 {
      z := MulAddNoAddendF64(st, a', b, c', signProd, expProd, sigProd);
    } else {
      var expC, mC: int := NormaliseF64(c);
      AddendOfF64(c, expC, mC);
      LikeAddend(F64, c, c', expC, mC * 0x200);
      var sigC: u64 := mC * 0x200;
      if signProd == signC {
        z := MulAddSumF64(st, a', b, c', signProd, expProd, sigProd, expC, sigC);
      } else {
        z := MulAddDifferenceF64(st, a', b, c', signProd, expProd, sigProd, expC, sigC);
      }
    }
  }

  /** The product of an infinity, magBits being zero when its other factor is. */
  method InfProductF64(st: FloatState, signProd: bool, signC: bool, magBits: nat, c: u64, ghost a': nat, ghost b: nat,
      ghost c': nat)
    returns (z: u64)
    requires !IsNaN(F64, a') && !IsNaN(F64, b) && (IsInf(F64, a') || IsInf(F64, b))
    requires (magBits == 0 <==> IsZero(F64, a') || IsZero(F64, b)) && Like(F64, c, c')
    requires signProd == (Neg(F64, a') != Neg(F64, b)) && signC == Neg(F64, c')
    modifies st`exceptionFlags
    ensures var o := MulAdd(F64, st.roundingMode, a', b, c');
            z == o.bits && st.exceptionFlags == old(st.exceptionFlags) + o.flags
  {
    hide *;
    FormatConstants();
    BitsOfWords(c);
    Fields(F64, c);
    LikeIs(F64, c, c');
    ClassesOf(F64, a');
    ClassesOf(F64, b);
    MulAddCases(F64, st.roundingMode, a', b, c');
    SpecialBits(signProd, true);
    SpecialBits(signProd, IsSignalling(F64, c));
    DefaultIsQuiet();
    var expC, sigC := ExpUI(F64, c), FracUI(F64, c);
    if magBits != 0 {
      z := PackToF64UI(signProd, 0x7FF, 0);
      if expC != 0x7FF {
        return;
      }
      if sigC != 0 {
        InfIsQuiet(signProd);
        z := PropagateNaNF64UI(st, z, c);
        return;
      }
      if signProd == signC {
        return;
      }
    }
    st.exceptionFlags := st.exceptionFlags + {Invalid};
    z := PropagateNaNF64UI(st, 0xFFFF_FFFF_FFFF_FFFF, c);
  }

  /** softfloat_mulAddF64 */
  method MulAddF64(st: FloatState, op: MulAddOp, a: u64, b: u64, c: u64) returns (z: u64)
    modifies st`exceptionFlags
    ensures var o := MulAddAnswer(F64, st.roundingMode, op, a, b, c);
            z == o.bits && st.exceptionFlags == old(st.exceptionFlags) + o.flags
  {
    hide *;
    FormatConstants();
    BitsOfWords(a);
    BitsOfWords(b);
    BitsOfWords(c);
    Fields(F64, a);
    Fields(F64, b);
    Fields(F64, c);
    IsRegular(F64, a, b, c);
    ghost var a', c' := OpA(F64, op, a), OpC(F64, op, c);
    OpIs(F64, op, a, c);
    LikeIs(F64, a, a');
    LikeIs(F64, c, c');
    UnflippedIs(F64, op, a, b, c);
    MulAddAnswerIs(F64, st.roundingMode, op, a, b, c);
    MulAddCases(F64, st.roundingMode, a', b, c');
    InfBits(F64, c);
    var expA, sigA := ExpUI(F64, a), FracUI(F64, a);
    var expB, sigB := ExpUI(F64, b), FracUI(F64, b);
    var expC, sigC := ExpUI(F64, c), FracUI(F64, c);
    var signProd := (SignUI(F64, a) != SignUI(F64, b)) != (op == SubProd);
    var signC := SignUI(F64, c) != (op == SubC);
    SpecialBits(signProd, true);
    SpecialBits(signProd, IsSignalling(F64, a) || IsSignalling(F64, b) || IsSignalling(F64, c));
    SpecialBits(st.roundingMode == Min, IsSignalling(F64, c));
    DefaultIsQuiet();
    if expA == 0x7FF || expB == 0x7FF {
      var magBits;
      if expA == 0x7FF {
        if sigA != 0 || (expB == 0x7FF && sigB != 0) {
          z := PropagateNaNF64UI(st, a, b);
          z := PropagateNaNF64UI(st, z, c);
          return;
        }
        OrZero(expB, sigB);
        magBits := BitOr(expB, sigB);
      } else {
        if sigB != 0 {
          z := PropagateNaNF64UI(st, a, b);
          z := PropagateNaNF64UI(st, z, c);
          return;
        }
        OrZero(expA, sigA);
        magBits := BitOr(expA, sigA);
      }
      z := InfProductF64(st, signProd, signC, magBits, c, a', b, c');
    } else if expC == 0x7FF {
      if sigC != 0 {
        z := PropagateNaNF64UI(st, 0, c);
      } else {
        z := c;
      }
    } else if (expA == 0 && sigA == 0) || (expB == 0 && sigB == 0) {
      ZeroProductOutcome(F64, st.roundingMode, a', b, c');
      OrZero(expC, sigC);
      z := c;
      if BitOr(expC, sigC) == 0 && signProd != signC {
        z := PackToF64UI(st.roundingMode == Min, 0, 0);
      }
    } else {
      z := MulAddFiniteF64(st, op, a, b, c);
    }
  }

  /** f64_mulAdd */
  method F64MulAdd(st: FloatState, a: u64, b: u64, c: u64) returns (z: u64)
    modifies st`exceptionFlags
    ensures var o := MulAdd(F64, st.roundingMode, a, b, c);
            z == o.bits && st.exceptionFlags == old(st.exceptionFlags) + o.flags
  {
    hide *;
    BitsOfWords(a);
    BitsOfWords(c);
    MulAddAnswerIs(F64, st.roundingMode, AddC, a, b, c);
    z := MulAddF64(st, AddC, a, b, c);
  }
}
