/** Single-precision fused multiply-add. */
module F32MulAdd {
  import opened Powers
  import opened Rounding
  import opened Ieee754
  import opened RoundTheory
  import opened Words
  import opened Primitives
  import opened RoundPack
  import opened Unpack
  import opened Align
  import opened MulAddTheory

  lemma SigProduct(m: int, n: int, q: int, p: int)
    requires 0x80_0000 <= m < 0x100_0000 && 0x80_0000 <= n < 0x100_0000
    requires q == m * n && p == m * 0x80 * (n * 0x80)
    ensures p == q * Exp2(14) && p % 2 == 0
    ensures 0x1000_0000_0000_0000 <= p < 0x4000_0000_0000_0000
  {
    hide *;
    ProductMono(0x80_0000, m, 0x80_0000);
    ProductMono(0x80_0000, n, m);
    ProductMono(m, 0xFF_FFFF, 0xFF_FFFF);
    ProductMono(n, 0xFF_FFFF, m);
    Exp2Constants();
    Exp2Add(7, 7);
    assert p == q * 0x4000;
  }

  lemma ProductWide(a: nat, b: nat, expA: int, expB: int, m: int, n: int, q: int, p: int)
    requires Normal(F32, a, expA, m) && Normal(F32, b, expB, n)
    requires q == m * n && p == q * Exp2(14)
    ensures Magnitude(F32, a) * Magnitude(F32, b) == Dyadic(p as real, expA + expB - 314)
    ensures Magnitude(F32, a) * Magnitude(F32, b) == Dyadic((2 * p) as real, expA + expB - 315)
  {
    hide *;
    FormatConstants();
    SmallExp2();
    NormalIs(F32, a, expA, m);
    NormalIs(F32, b, expB, n);
    ToReal(m, n);
    ToReal(q, Exp2(14));
    DyadicTimes(m as real, expA - 150, n as real, expB - 150, q as real);
    DyadicShift(q as real, p as real, expA + expB - 314, 14);
    DyadicShift(p as real, (2 * p) as real, expA + expB - 315, 1);
  }

  lemma UnitF32()
    ensures F32.Half() * Exp2(32) == 0x2000_0000_0000_0000
  {
    Exp2Constants();
    hide Exp2;
  }

  /** The scaled product and its exponent, with its leading bit in place. */
  lemma ProductOfF32(a: nat, b: nat, expA: int, expB: int, m: int, n: int, p: int)
    requires Normal(F32, a, expA, m) && Normal(F32, b, expB, n) && p == m * 0x80 * (n * 0x80)
    ensures 0x1000_0000_0000_0000 <= p < 0x4000_0000_0000_0000
    ensures p < 0x2000_0000_0000_0000 ==> ProductOf(F32, 32, a, b, expA + expB - 0x7F, 2 * p)
    ensures p >= 0x2000_0000_0000_0000 ==> ProductOf(F32, 32, a, b, expA + expB - 0x7E, p)
  {
    hide *;
    FormatConstants();
    NormalBounds(F32, a, expA, m);
    NormalBounds(F32, b, expB, n);
    SigProduct(m, n, m * n, p);
    ProductWide(a, b, expA, expB, m, n, m * n, p);
    UnitF32();
    IsProductOf(F32, 32, a, b, expA + expB - 0x7F, 2 * p);
    IsProductOf(F32, 32, a, b, expA + expB - 0x7E, p);
  }

  lemma IsProductOf(f: Format, w: nat, a: nat, b: nat, exp: int, wide: nat)
    ensures ProductOf(f, w, a, b, exp, wide) <==>
      && f.Half() * Exp2(w) <= wide < 2 * (f.Half() * Exp2(w)) && wide % 2 == 0
      && Magnitude(f, a) * Magnitude(f, b) == Dyadic(wide as real, exp - f.StepBits() + f.UnitExp() - w)
  {
    hide Magnitude, Dyadic, Exp2;
  }

  lemma AddendOfF32(c: nat, exp: int, m: int)
    requires Normal(F32, c, exp, m)
    ensures AddendOf(F32, c, exp, m * 0x40)
  {
    NormalBounds(F32, c, exp, m);
    NormalIs(F32, c, exp, m);
    SmallExp2();
    DyadicShift(m as real, (m * 0x40) as real, exp - 156, 6);
    hide Exp2, Dyadic, Magnitude, Normal;
  }

  method ProductF32(a: u32, b: u32) returns (expProd: int, sigProd: u64)
    requires IsFinite(F32, a) && IsFinite(F32, b) && !IsZero(F32, a) && !IsZero(F32, b)
    ensures ProductOf(F32, 32, a, b, expProd, sigProd) && -0x200 <= expProd < 0x200
    ensures 0x2000_0000_0000_0000 <= sigProd < 0x4000_0000_0000_0000
  {
    hide *;
    var expA, mA: int := NormaliseF32(a);
    var expB, mB: int := NormaliseF32(b);
    expProd := expA + expB - 0x7E;
    var sigA: u32, sigB: u32 := mA * 0x80, mB * 0x80;
    var p := (sigA as int) * (sigB as int);
    ProductOfF32(a, b, expA, expB, mA, mB, p);
    if p < 0x2000_0000_0000_0000 {
      expProd := expProd - 1;
      p := 2 * p;
    }
    sigProd := p;
  }

  /** The addend is zero: round the product. */
  method MulAddNoAddendF32(st: FloatState, ghost a: u32, ghost b: u32, ghost c: u32, signZ: bool, expProd: int,
      sigProd: u64) returns (z: u32)
    requires Regular(F32, a, b, c) && IsZero(F32, c) && signZ == (Neg(F32, a) != Neg(F32, b))
    requires ProductOf(F32, 32, a, b, expProd, sigProd) && -0x200 <= expProd < 0x200
    modifies st`exceptionFlags
    ensures var o := MulAdd(F32, st.roundingMode, a, b, c);
            z == o.bits && st.exceptionFlags == old(st.exceptionFlags) + o.flags
  {
    hide *;
    FormatConstants();
    ghost var o := MulAdd(F32, st.roundingMode, a, b, c);
    var expZ := expProd - 1;
    ShortShiftIsOr(sigProd, 31);
    JamIsOr(sigProd, 31);
    var sigZ := ShortShift64RightJam(sigProd, 31);
    MulAddNoAddend(F32, st.roundingMode, a, b, c, 32, expProd, sigProd);
    PacksIs(F32, st.roundingMode, signZ, o, sigZ, expZ);
    z := RoundPackToF32(st, signZ, expZ, sigZ);
  }

  /** Product and addend of one sign. */
  method MulAddSumF32(st: FloatState, ghost a: u32, ghost b: u32, ghost c: u32, signZ: bool, expProd: int,
      sigProd: u64, expC: int, sigC: u32)
    returns (z: u32)
    requires Regular(F32, a, b, c) && signZ == (Neg(F32, a) != Neg(F32, b)) == Neg(F32, c)
    requires ProductOf(F32, 32, a, b, expProd, sigProd) && AddendOf(F32, c, expC, sigC)
    requires -0x200 <= expProd < 0x200 && -0x200 <= expC < 0x200
    requires sigProd < 0x4000_0000_0000_0000 && sigC < 0x4000_0000
    modifies st`exceptionFlags
    ensures var o := MulAdd(F32, st.roundingMode, a, b, c);
            z == o.bits && st.exceptionFlags == old(st.exceptionFlags) + o.flags
  {
    hide *;
    FormatConstants();
    UnitF32();
    Exp2Constants();
    ghost var o := MulAdd(F32, st.roundingMode, a, b, c);
    var expDiff := expProd - expC;
    var expZ, sigZ: int;
    if expDiff <= 0 {
      expZ := expC;
      Shift64RightJamIsJam(sigProd, 32 - expDiff);
      MulAddSumLow(F32, st.roundingMode, a, b, c, 32, expProd, sigProd, expC, sigC);
      sigZ := sigC as int + Shift64RightJam(sigProd, 32 - expDiff) as int;
    } else {
      expZ := expProd;
      Shift64RightJamIsJam(sigC as int * 0x1_0000_0000, expDiff);
      MulAddSumHigh(F32, st.roundingMode, a, b, c, 32, expProd, sigProd, expC, sigC, sigC as int * 0x1_0000_0000);
      var sigZ64 := sigProd as int + Shift64RightJam(sigC as int * 0x1_0000_0000, expDiff) as int;
      ShortShiftIsOr(sigZ64, 32);
      JamIsOr(sigZ64, 32);
      sigZ := ShortShift64RightJam(sigZ64, 32);
    }
    RenormalisesIs(F32, st.roundingMode, signZ, o, sigZ, expZ);
    if sigZ < 0x4000_0000 {
      expZ := expZ - 1;
      sigZ := 2 * sigZ;
    }
    PacksIs(F32, st.roundingMode, signZ, o, sigZ, expZ);
    z := RoundPackToF32(st, signZ, expZ, sigZ);
  }

  /** Normalising the difference, then rounding it. */
  method MulAddNormaliseF32(st: FloatState, signZ: bool, exp: int, sigZ64: u64, ghost y: real, ghost o: Outcome)
      returns (z: u32)
    requires -0x200 <= exp < 0x200
    requires Difference(0x2000_0000_0000_0000, y, sigZ64)
    requires o == Signed(F32, st.roundingMode, signZ, Dyadic(y, exp - 188))
    modifies st`exceptionFlags
    ensures z == o.bits && st.exceptionFlags == old(st.exceptionFlags) + o.flags
  {
    hide *;
    FormatConstants();
    UnitF32();
    DifferenceIs(0x2000_0000_0000_0000, y, sigZ64);
    var clz := CountLeadingZeros64(sigZ64);
    ShiftOfDifference(sigZ64, clz);
    var shiftCount: int := clz - 1;
    var expZ := exp - shiftCount;
    DifferenceRounds(F32, st.roundingMode, signZ, 32, 0x2000_0000_0000_0000, y, sigZ64, shiftCount, exp,
        Dyadic(y, exp - 188));
    shiftCount := shiftCount - 32;
    var sigZ: int;
    if shiftCount < 0 {
      ShortShiftIsOr(sigZ64, -shiftCount);
      JamIsOr(sigZ64, -shiftCount);
      sigZ := ShortShift64RightJam(sigZ64, -shiftCount);
    } else {
      ProductNonnegative(sigZ64, Exp2(shiftCount));
      sigZ := sigZ64 * Exp2(shiftCount);
    }
    PacksIs(F32, st.roundingMode, signZ, o, sigZ, expZ);
    z := RoundPackToF32(st, signZ, expZ, sigZ);
  }

  lemma ShiftOfDifference(diff: nat, clz: nat)
    requires 0 < diff < 0x4000_0000_0000_0000 && LeadingZeros(diff, 64, clz)
    ensures 2 <= clz < 64
    ensures 0x4000_0000_0000_0000 <= diff * Exp2(clz - 1) < 0x8000_0000_0000_0000
  {
    hide Exp2, LeadingZeros;
    Exp2Constants();
    SmallExp2();
    LeadingZerosBound(diff, 64, clz);
    LeadingZerosIs(diff, 64, clz);
    if clz < 2 {
      Exp2Mono(clz, 1);
      ProductMono(Exp2(clz), 2, diff);
    }
    Exp2Double(clz - 1);
    Doubling(diff, Exp2(clz - 1));
  }

  /** Product and addend of opposite signs. */
  method MulAddDifferenceF32(st: FloatState, ghost a: u32, ghost b: u32, ghost c: u32, signProd: bool, expProd: int,
      sigProd: u64, expC: int, sigC: u32)
    returns (z: u32)
    requires Regular(F32, a, b, c) && signProd == (Neg(F32, a) != Neg(F32, b)) && signProd != Neg(F32, c)
    requires ProductOf(F32, 32, a, b, expProd, sigProd) && AddendOf(F32, c, expC, sigC)
    requires -0x200 <= expProd < 0x200 && -0x200 <= expC < 0x200
    requires sigProd < 0x4000_0000_0000_0000 && sigC < 0x4000_0000
    modifies st`exceptionFlags
    ensures var o := MulAdd(F32, st.roundingMode, a, b, c);
            z == o.bits && st.exceptionFlags == old(st.exceptionFlags) + o.flags
  {
    hide *;
    FormatConstants();
    UnitF32();
    Exp2Constants();
    ghost var o := MulAdd(F32, st.roundingMode, a, b, c);
    var signZ := signProd;
    var sigC64: u64 := sigC as int * 0x1_0000_0000;
    ghost var y := MulAddDifference(F32, st.roundingMode, a, b, c, 32, expProd, sigProd, expC, sigC, sigC64);
    var expDiff := expProd - expC;
    var expZ: int;
    var sigZ64: u64;
    if expDiff < 0 {
      signZ := !signZ;
      expZ := expC;
      Shift64RightJamIsJam(sigProd, -expDiff);
      DifferenceIs(0x2000_0000_0000_0000, y, sigC64 as int - Jam(sigProd, -expDiff) as int);
      sigZ64 := sigC64 as int - Shift64RightJam(sigProd, -expDiff) as int;
    } else if expDiff == 0 {
      expZ := expProd;
      WrapDifference(sigProd, sigC64);
      sigZ64 := Wrap64(sigProd as int - sigC64 as int);
      if sigZ64 == 0 {
        SpecialBits(st.roundingMode == Min, true);
        z := PackToF32UI(st.roundingMode == Min, 0, 0);
        return;
      }
      if sigZ64 >= 0x8000_0000_0000_0000 {
        signZ := !signZ;
        sigZ64 := Wrap64(-(sigZ64 as int));
      }
    } else {
      expZ := expProd;
      Shift64RightJamIsJam(sigC64, expDiff);
      DifferenceIs(0x2000_0000_0000_0000, y, sigProd as int - Jam(sigC64, expDiff) as int);
      sigZ64 := sigProd as int - Shift64RightJam(sigC64, expDiff) as int;
    }
    z := MulAddNormaliseF32(st, signZ, expZ, sigZ64, y, o);
  }

  /** Subtraction in 64 bits, read back through its top bit. */
  lemma WrapDifference(x: nat, y: nat)
    requires x < 0x4000_0000_0000_0000 && y < 0x4000_0000_0000_0000
    ensures var r := Wrap64(x - y) as int;
            && (r == 0 <==> x == y)
            && (r >= 0x8000_0000_0000_0000 <==> x < y)
            && (x >= y ==> r == x - y)
            && (x < y ==> Wrap64(-r) == y - x)
  {
  }

  lemma IsRegular(f: Format, a: nat, b: nat, c: nat)
    ensures Regular(f, a, b, c) <==>
      IsFinite(f, a) && IsFinite(f, b) && IsFinite(f, c) && !IsZero(f, a) && !IsZero(f, b)
  {
  }

  lemma OpWords(f: Format, op: MulAddOp, a: nat, c: nat)
    requires IsBits(f, a) && IsBits(f, c)
    ensures f == F32 ==> OpA(f, op, a) < 0x1_0000_0000 && OpC(f, op, c) < 0x1_0000_0000
    ensures f == F64 ==> OpA(f, op, a) < 0x1_0000_0000_0000_0000 && OpC(f, op, c) < 0x1_0000_0000_0000_0000
  {
  }

  method MulAddFiniteF32(st: FloatState, op: MulAddOp, a: u32, b: u32, c: u32) returns (z: u32)
    requires Regular(F32, a, b, c)
    modifies st`exceptionFlags
    ensures var o := MulAdd(F32, st.roundingMode, OpA(F32, op, a), b, OpC(F32, op, c));
            z == o.bits && st.exceptionFlags == old(st.exceptionFlags) + o.flags
  {
    hide *;
    IsRegular(F32, a, b, c);
    BitsOfWords(a);
    BitsOfWords(b);
    BitsOfWords(c);
    Fields(F32, a);
    Fields(F32, b);
    Fields(F32, c);
    ghost var a', c' := OpA(F32, op, a), OpC(F32, op, c);
    OpIs(F32, op, a, c);
    OpWords(F32, op, a, c);
    LikeIs(F32, c, c');
    var signProd := (SignUI(F32, a) != SignUI(F32, b)) != (op == SubProd);
    var signC := SignUI(F32, c) != (op == SubC);
    var expProd, sigProd := ProductF32(a, b);
    LikeOperands(F32, 32, a, a', b, c, c', expProd, sigProd);
    if ExpUI(F32, c) == 0 && FracUI(F32, c) == 0 {
      z := MulAddNoAddendF32(st, a', b, c', signProd, expProd, sigProd);
    } else {
      var expC, mC: int := NormaliseF32(c);
      AddendOfF32(c, expC, mC);
      LikeAddend(F32, c, c', expC, mC * 0x40);
      var sigC: u32 := mC * 0x40;
      if signProd == signC {
        z := MulAddSumF32(st, a', b, c', signProd, expProd, sigProd, expC, sigC);
      } else {
        z := MulAddDifferenceF32(st, a', b, c', signProd, expProd, sigProd, expC, sigC);
      }
    }
  }

  /** The product of an infinity, magBits being zero when its other factor is. */
  method InfProductF32(st: FloatState, signProd: bool, signC: bool, magBits: nat, c: u32, ghost a': nat, ghost b: nat,
      ghost c': nat)
    returns (z: u32)
    requires !IsNaN(F32, a') && !IsNaN(F32, b) && (IsInf(F32, a') || IsInf(F32, b))
    requires (magBits == 0 <==> IsZero(F32, a') || IsZero(F32, b)) && Like(F32, c, c')
    requires signProd == (Neg(F32, a') != Neg(F32, b)) && signC == Neg(F32, c')
    modifies st`exceptionFlags
    ensures var o := MulAdd(F32, st.roundingMode, a', b, c');
            z == o.bits && st.exceptionFlags == old(st.exceptionFlags) + o.flags
  {
    hide *;
    FormatConstants();
    BitsOfWords(c);
    Fields(F32, c);
    LikeIs(F32, c, c');
    ClassesOf(F32, a');
    ClassesOf(F32, b);
    MulAddCases(F32, st.roundingMode, a', b, c');
    SpecialBits(signProd, true);
    SpecialBits(signProd, IsSignalling(F32, c));
    DefaultIsQuiet();
    var expC, sigC := ExpUI(F32, c), FracUI(F32, c);
    if magBits != 0 {
      z := PackToF32UI(signProd, 0xFF, 0);
      if expC != 0xFF {
        return;
      }
      if sigC != 0 {
        InfIsQuiet(signProd);
        z := PropagateNaNF32UI(st, z, c);
        return;
      }
      if signProd == signC {
        return;
      }
    }
    st.exceptionFlags := st.exceptionFlags + {Invalid};
    z := PropagateNaNF32UI(st, 0xFFFF_FFFF, c);
  }

  /** softfloat_mulAddF32 */
  method MulAddF32(st: FloatState, op: MulAddOp, a: u32, b: u32, c: u32) returns (z: u32)
    modifies st`exceptionFlags
    ensures var o := MulAddAnswer(F32, st.roundingMode, op, a, b, c);
            z == o.bits && st.exceptionFlags == old(st.exceptionFlags) + o.flags
  {
    hide *;
    FormatConstants();
    BitsOfWords(a);
    BitsOfWords(b);
    BitsOfWords(c);
    Fields(F32, a);
    Fields(F32, b);
    Fields(F32, c);
    IsRegular(F32, a, b, c);
    ghost var a', c' := OpA(F32, op, a), OpC(F32, op, c);
    OpIs(F32, op, a, c);
    LikeIs(F32, a, a');
    LikeIs(F32, c, c');
    UnflippedIs(F32, op, a, b, c);
    MulAddAnswerIs(F32, st.roundingMode, op, a, b, c);
    MulAddCases(F32, st.roundingMode, a', b, c');
    InfBits(F32, c);
    var expA, sigA := ExpUI(F32, a), FracUI(F32, a);
    var expB, sigB := ExpUI(F32, b), FracUI(F32, b);
    var expC, sigC := ExpUI(F32, c), FracUI(F32, c);
    var signProd := (SignUI(F32, a) != SignUI(F32, b)) != (op == SubProd);
    var signC := SignUI(F32, c) != (op == SubC);
    SpecialBits(signProd, true);
    SpecialBits(signProd, IsSignalling(F32, a) || IsSignalling(F32, b) || IsSignalling(F32, c));
    SpecialBits(st.roundingMode == Min, IsSignalling(F32, c));
    DefaultIsQuiet();
    if expA == 0xFF || expB == 0xFF {
      var magBits;
      if expA == 0xFF {
        if sigA != 0 || (expB == 0xFF && sigB != 0) {
          z := PropagateNaNF32UI(st, a, b);
          z := PropagateNaNF32UI(st, z, c);
          return;
        }
        OrZero(expB, sigB);
        magBits := BitOr(expB, sigB);
      } else {
        if sigB != 0 {
          z := PropagateNaNF32UI(st, a, b);
          z := PropagateNaNF32UI(st, z, c);
          return;
        }
        OrZero(expA, sigA);
        magBits := BitOr(expA, sigA);
      }
      z := InfProductF32(st, signProd, signC, magBits, c, a', b, c');
    } else if expC == 0xFF {
      if sigC != 0 {
        z := PropagateNaNF32UI(st, 0, c);
      } else {
        z := c;
      }
    } else if (expA == 0 && sigA == 0) || (expB == 0 && sigB == 0) {
      ZeroProductOutcome(F32, st.roundingMode, a', b, c');
      OrZero(expC, sigC);
      z := c;
      if BitOr(expC, sigC) == 0 && signProd != signC {
        z := PackToF32UI(st.roundingMode == Min, 0, 0);
      }
    } else {
      z := MulAddFiniteF32(st, op, a, b, c);
    }
  }

  /** f32_mulAdd */
  method F32MulAdd(st: FloatState, a: u32, b: u32, c: u32) returns (z: u32)
    modifies st`exceptionFlags
    ensures var o := MulAdd(F32, st.roundingMode, a, b, c);
            z == o.bits && st.exceptionFlags == old(st.exceptionFlags) + o.flags
  {
    hide *;
    BitsOfWords(a);
    BitsOfWords(c);
    MulAddAnswerIs(F32, st.roundingMode, AddC, a, b, c);
    z := MulAddF32(st, AddC, a, b, c);
  }

  lemma DefaultIsQuiet()
    ensures !IsSignalling(F32, 0xFFFF_FFFF) && !IsSignalling(F32, 0)
    ensures !IsSignalling(F64, 0xFFFF_FFFF_FFFF_FFFF) && !IsSignalling(F64, 0)
  {
  }

  lemma InfIsQuiet(neg: bool)
    ensures !IsSignalling(F32, PackToF32UI(neg, 0xFF, 0)) && !IsSignalling(F64, PackToF64UI(neg, 0x7FF, 0))
  {
  }
}
