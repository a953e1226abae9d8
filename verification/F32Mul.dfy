/** f32_mul: single-precision multiplication. */
module F32Mul {
  import opened Powers
  import opened Rounding
  import opened Ieee754
  import opened RoundTheory
  import opened Words
  import opened Primitives
  import opened RoundPack
  import opened Unpack

  lemma MulFinite(f: Format, mode: Mode, a: nat, b: nat)
    requires IsFinite(f, a) && IsFinite(f, b) && !IsZero(f, a) && !IsZero(f, b)
    ensures Magnitude(f, a) * Magnitude(f, b) > 0.0
    ensures var mag := Magnitude(f, a) * Magnitude(f, b);
            Mul(f, mode, a, b) == Signed(f, mode, Neg(f, a) != Neg(f, b), mag)
  {
    hide *;
    FiniteIsNoNaN(f, a);
    FiniteIsNoNaN(f, b);
    ValSign(f, a);
    ValSign(f, b);
    SignedProduct(Magnitude(f, a), Magnitude(f, b));
    var mag := Magnitude(f, a) * Magnitude(f, b);
    SignedAt(f, mode, Val(f, a) * Val(f, b), Neg(f, a) != Neg(f, b), mag);
    MulOfFinite(f, mode, a, b, Val(f, a) * Val(f, b));
  }

  lemma MulOfFinite(f: Format, mode: Mode, a: nat, b: nat, x: real)
    requires x == Val(f, a) * Val(f, b)
    requires !IsNaN(f, a) && !IsNaN(f, b) && !IsInf(f, a) && !IsInf(f, b) && !IsZero(f, a) && !IsZero(f, b)
    ensures Mul(f, mode, a, b) == Round(f, mode, x)
  {
    hide Round, IsNaN, IsInf, IsZero, Val;
  }

  lemma ProductBounds(m: int, n: int)
    requires 0x80_0000 <= m < 0x100_0000 && 0x80_0000 <= n < 0x100_0000
    ensures 0x2000_0000_0000_0000 <= m * 0x80 * (n * 0x100) < 0x8000_0000_0000_0000
    ensures m * 0x80 * (n * 0x100) == m * n * Exp2(15)
  {
    hide *;
    ProductMono(0x80_0000, m, 0x80_0000);
    ProductMono(0x80_0000, n, m);
    ProductMono(m, 0xFF_FFFF, 0xFF_FFFF);
    ProductMono(n, 0xFF_FFFF, m);
    Exp2Constants();
    Exp2Add(7, 8);
    assert m * 0x80 * (n * 0x100) == m * n * 0x8000;
  }

  lemma JamWordBounds(p: nat)
    requires 0x2000_0000_0000_0000 <= p < 0x8000_0000_0000_0000
    ensures 0x2000_0000 <= Jam(p, 32) < 0x8000_0000
    ensures ShortShift64RightJam(p, 32) == Jam(p, 32)
  {
    JamIsOr(p, 32);
    ShortShiftIsOr(p, 32);
    hide *;
    Exp2Constants();
    JamIs(p, 32, p / 0x1_0000_0000);
  }

  /** The product's significand, as the exact rational the sticky word stands for. */
  lemma ProductMagnitude(a: nat, b: nat, expA: int, expB: int, sigA: int, sigB: int, q: int, p: int)
    requires Normal(F32, a, expA, sigA) && Normal(F32, b, expB, sigB)
    requires q == sigA * sigB && p == q * Exp2(15)
    ensures Magnitude(F32, a) * Magnitude(F32, b) == Dyadic(p as real / Exp2(32) as real, expA + expB - 0x7F - 7 - 149)
  {
    hide *;
    FormatConstants();
    NormalIs(F32, a, expA, sigA);
    NormalIs(F32, b, expB, sigB);
    ToReal(sigA, sigB);
    ToReal(q, Exp2(15));
    DyadicTimes(sigA as real, expA - 150, sigB as real, expB - 150, q as real);
    DyadicShift(q as real, p as real, expA + expB - 315, 15);
    DyadicQuotient(p as real, expA + expB - 315, 32);
  }

  lemma ProductRounds(mode: Mode, a: nat, b: nat, expA: int, expB: int, sigA: int, sigB: int, sigProd: int)
    requires IsFinite(F32, a) && IsFinite(F32, b) && !IsZero(F32, a) && !IsZero(F32, b)
    requires Normal(F32, a, expA, sigA) && Normal(F32, b, expB, sigB)
    requires sigProd == sigA * 0x80 * (sigB * 0x100)
    ensures 0 <= sigProd < 0x8000_0000_0000_0000
    ensures 0 <= ShortShift64RightJam(sigProd, 32) < 0x8000_0000
    ensures Renormalises(F32, mode, Neg(F32, a) != Neg(F32, b), Mul(F32, mode, a, b),
                         ShortShift64RightJam(sigProd, 32), expA + expB - 0x7F)
  {
    hide *;
    FormatConstants();
    MulFinite(F32, mode, a, b);
    NormalBounds(F32, a, expA, sigA);
    NormalBounds(F32, b, expB, sigB);
    ProductBounds(sigA, sigB);
    ProductMagnitude(a, b, expA, expB, sigA, sigB, sigA * sigB, sigProd);
    JamWordBounds(sigProd);
    JamAgrees(sigProd, 32);
    RenormaliseRounds(F32, mode, Neg(F32, a) != Neg(F32, b), sigProd as real / Exp2(32) as real,
                      ShortShift64RightJam(sigProd, 32), expA + expB - 0x7F, Magnitude(F32, a) * Magnitude(F32, b));
  }

  method F32MulFinite(st: FloatState, a: u32, b: u32) returns (z: u32)
    requires IsFinite(F32, a) && IsFinite(F32, b) && !IsZero(F32, a) && !IsZero(F32, b)
    modifies st`exceptionFlags
    ensures var o := Mul(F32, st.roundingMode, a, b);
            z == o.bits && st.exceptionFlags == old(st.exceptionFlags) + o.flags
  {
    hide *;
    BitsOfWords(a);
    BitsOfWords(b);
    Fields(F32, a);
    Fields(F32, b);
    var signZ := SignUI(F32, a) != SignUI(F32, b);
    var expA, mA: int := NormaliseF32(a);
    var expB, mB: int := NormaliseF32(b);
    var expZ := expA + expB - 0x7F;
    var sigA: u32, sigB: u32 := mA * 0x80, mB * 0x100;
    var sigProd: int := (sigA as int) * (sigB as int);
    ProductRounds(st.roundingMode, a, b, expA, expB, mA, mB, sigProd);
    var sigZ: int := ShortShift64RightJam(sigProd, 32);
    ghost var o := Mul(F32, st.roundingMode, a, b);
    FormatConstants();
    RenormalisesIs(F32, st.roundingMode, signZ, o, sigZ, expZ);
    if sigZ < 0x4000_0000 {
      expZ := expZ - 1;
      sigZ := 2 * sigZ;
    }
    PacksIs(F32, st.roundingMode, signZ, o, sigZ, expZ);
    z := RoundPackToF32(st, signZ, expZ, sigZ);
  }

  method F32Mul(st: FloatState, a: u32, b: u32) returns (z: u32)
    modifies st`exceptionFlags
    ensures var o := Mul(F32, st.roundingMode, a, b);
            z == o.bits && st.exceptionFlags == old(st.exceptionFlags) + o.flags
  {
    hide Round, IsNaN, IsInf, IsZero, IsFinite, IsSignalling, Val, BitOr, Neg, SignUI, ExpUI, FracUI, PackToF32UI,
        WithSign;
    BitsOfWords(a);
    BitsOfWords(b);
    Fields(F32, a);
    Fields(F32, b);
    var expA, sigA := ExpUI(F32, a), FracUI(F32, a);
    var expB, sigB := ExpUI(F32, b), FracUI(F32, b);
    var signZ := SignUI(F32, a) != SignUI(F32, b);
    var magBits: nat;
    if expA == 0xFF || expB == 0xFF {
      if expA == 0xFF {
        if sigA != 0 || (expB == 0xFF && sigB != 0) {
          z := PropagateNaNF32UI(st, a, b);
          return;
        }
        magBits := BitOr(expB, sigB);
        OrZero(expB, sigB);
      } else {
        if sigB != 0 {
          z := PropagateNaNF32UI(st, a, b);
          return;
        }
        magBits := BitOr(expA, sigA);
        OrZero(expA, sigA);
      }
      if magBits == 0 {
        st.exceptionFlags := st.exceptionFlags + {Invalid};
        z := 0xFFFF_FFFF;
      } else {
        PackTop(signZ, false);
        z := PackToF32UI(signZ, 0xFF, 0);
      }
    } else if (expA == 0 && sigA == 0) || (expB == 0 && sigB == 0) {
      PackIsWithSign(signZ, 0, 0);
      z := PackToF32UI(signZ, 0, 0);
    } else {
      z := F32MulFinite(st, a, b);
    }
  }
}
