/** f64_div: double-precision division from an estimated quotient. */
module F64Div {
  import opened Powers
  import opened Rounding
  import opened Ieee754
  import opened RoundTheory
  import opened Words
  import opened Primitives
  import opened RoundPack
  import opened Unpack
  import opened Wide128
  import opened EstimateDiv
  import opened F32Div

  /** z may stand for n / d where nothing below half a step is looked at. */
  ghost predicate QuotientWord(n: nat, d: nat, z: nat) {
    d > 0 && z / 0x200 == n / d / 0x200 && (z % 0x200 == 0 <==> n / d % 0x200 == 0 && n % d == 0)
  }

  /** An estimate at most 2 high whose low nine bits exceed 2 needs no correction. */
  lemma EstimateSuffices(n: nat, d: nat, z: nat)
    requires d > 0 && n / d <= z <= n / d + 2 && z % 0x200 > 2
    ensures QuotientWord(n, d, z)
  {
    LowBits(n / d, z);
    hide *;
    QuotientWordIs(n, d, z, n / d, n % d);
  }

  lemma LowBits(q: int, z: int)
    requires q <= z <= q + 2 && z % 0x200 > 2
    ensures z / 0x200 == q / 0x200 && z % 0x200 != 0 && q % 0x200 != 0
  {
  }

  lemma QuotientWordIs(n: nat, d: nat, z: nat, q: int, r: int)
    requires d > 0 && q == n / d && r == n % d
    ensures QuotientWord(n, d, z) <==> z / 0x200 == q / 0x200 && (z % 0x200 == 0 <==> q % 0x200 == 0 && r == 0)
  {
  }

  /** The corrected quotient with the remainder jammed into its last bit. */
  lemma CorrectedSuffices(n: nat, d: nat, q: nat, r: nat)
    requires d > 0 && n == q * d + r && r < d
    ensures QuotientWord(n, d, BitOr(q, Bit(r != 0)))
  {
    hide *;
    OrBit(q, r != 0);
    Euclid(n, d, q, r);
    if r != 0 {
      StickyLow(q);
    }
    QuotientWordIs(n, d, BitOr(q, Bit(r != 0)), q, r);
  }

  lemma StickyLow(q: nat)
    ensures var z := q - q % 2 + 1; z / 0x200 == q / 0x200 && z % 0x200 != 0
  {
    var h := q / 2;
    assert q - q % 2 + 1 == 2 * h + 1;
  }

  // --- The remainder of an estimate, negative while the estimate is too high ---

  function Left(n: int, d: int, z: int): int {
    n - d * z
  }

  lemma LeftStep(n: int, d: int, z: int, more: int)
    ensures Left(n, d, z + more) == Left(n, d, z) - more * d
  {
  }

  /** q is the quotient, z an estimate of it, and rem the wrapped remainder of the estimate. */
  ghost predicate Correcting(n: int, d: int, q: int, z: int, rem: U128) {
    && 0 < d < 0x1_0000_0000_0000_0000 && 0 <= Left(n, d, q) < d && 0 <= q <= z <= q + 2
    && rem.V() == Wrap128(Left(n, d, z))
  }

  lemma CorrectingSign(n: int, d: int, q: int, z: int, rem: U128)
    requires Correcting(n, d, q, z, rem)
    ensures 0x8000_0000_0000_0000 <= rem.v64 <==> z > q
    ensures 0 <= q <= z <= q + 2
    ensures z == q ==> rem.v0 == Left(n, d, q)
  {
    hide Left;
    LeftStep(n, d, q, z - q);
    if z == q + 1 {
      assert Left(n, d, z) == Left(n, d, q) - d;
    } else if z == q + 2 {
      assert Left(n, d, z) == Left(n, d, q) - 2 * d;
    }
    SignedLimbs(rem, Left(n, d, z));
  }

  lemma CorrectingStep(n: int, d: int, q: int, z: int, rem: U128, next: U128)
    requires Correcting(n, d, q, z, rem) && z > q && next.V() == Wrap128(rem.V() + d)
    ensures Correcting(n, d, q, z - 1, next)
  {
    hide Left, Wrap128, U128.V;
    LeftStep(n, d, z, -1);
    WrapAgain(Left(n, d, z), d);
  }

  lemma CorrectingStart(n: int, sigA: u64, d: u64, z: u64, term: U128, rem: U128)
    requires n == Value128(sigA, 0) && d > 0 && n / d <= z <= n / d + 2
    requires term.V() == d * z && rem.V() == Wrap128(Value128(sigA, 0) - Value128(term.v64, term.v0))
    ensures Correcting(n, d, n / d, z, rem)
  {
    hide *;
    ValueOf(term);
    NumeratorIs(sigA);
    QuotientNonnegative(n, d);
    var q := n / d;
    assert n == q * d + n % d;
    QuotientLeft(n, d, q);
    QuotientLeft(n, d, z);
    WordIs(d);
    CorrectingIs(n, d, q, z, rem);
  }

  lemma WordIs(d: u64)
    ensures 0 <= d < 0x1_0000_0000_0000_0000
  {
  }

  lemma QuotientLeft(n: int, d: int, z: int)
    ensures Left(n, d, z) == n - d * z
  {
  }

  lemma CorrectingIs(n: int, d: int, q: int, z: int, rem: U128)
    requires 0 < d < 0x1_0000_0000_0000_0000 && 0 <= Left(n, d, q) < d && 0 <= q <= z <= q + 2
    requires rem.V() == Wrap128(Left(n, d, z))
    ensures Correcting(n, d, q, z, rem)
  {
    hide Left;
  }

  /** The estimate, corrected only when its low nine bits are at most 2. */
  method EstimatedQuotient(sigA: u64, sigB: u64) returns (sigZ: u64)
    requires sigA < sigB && sigB >= 0x8000_0000_0000_0000
    ensures QuotientWord(Value128(sigA, 0), sigB, sigZ)
  {
    hide *;
    ghost var n := Value128(sigA, 0);
    NumeratorIs(sigA);
    ghost var steps;
    sigZ, steps := EstimateDiv128To64(sigA, 0, sigB);
    if sigZ % 0x200 <= 2 {
      var term := Mul64To128(sigB, sigZ);
      var rem := Sub128(sigA, 0, term.v64, term.v0);
      ghost var q := n / sigB;
      CorrectingStart(n, sigA, sigB, sigZ, term, rem);
      while 0x8000_0000_0000_0000 <= rem.v64
        invariant Correcting(n, sigB, q, sigZ, rem)
        decreases sigZ
      {
        CorrectingSign(n, sigB, q, sigZ, rem);
        ghost var was := rem;
        ValueOf(rem);
        ValueOfLow(sigB);
        sigZ := sigZ - 1;
        rem := Add128(rem.v64, rem.v0, 0, sigB);
        CorrectingStep(n, sigB, q, sigZ + 1, was, rem);
      }
      CorrectingSign(n, sigB, q, sigZ, rem);
      QuotientLeft(n, sigB, q);
      LastLeft(n, sigB, q, rem);
      CorrectedSuffices(n, sigB, q, rem.v0);
      OrBit(sigZ, rem.v0 != 0);
      sigZ := BitOr(sigZ, Bit(rem.v0 != 0));
    } else {
      EstimateSuffices(n, sigB, sigZ);
    }
  }

  lemma LastLeft(n: int, d: int, q: int, rem: U128)
    requires Correcting(n, d, q, q, rem)
    ensures 0 <= Left(n, d, q) < d
  {
    hide Left;
  }

  lemma ValueOfLow(d: u64)
    ensures Value128(0, d) == d
  {
  }

  lemma DividendBounds64(mA: int, mB: int, sigA: int, sigB: int, k: nat)
    requires 0x10_0000_0000_0000 <= mA < 0x20_0000_0000_0000 && 0x10_0000_0000_0000 <= mB < 0x20_0000_0000_0000
    requires sigB == mB * 0x800
    requires if sigB <= mA * 0x800 then k == 62 && sigA == mA * 0x200 else k == 63 && sigA == mA * 0x400
    ensures 0x4000_0000_0000_0000 * sigB <= Value128(sigA, 0) < 2 * 0x4000_0000_0000_0000 * sigB
    ensures Value128(sigA, 0) * mB == mA * sigB * Exp2(k)
  {
    Exp2Constants();
    hide Exp2;
    assert mA * sigB == mA * mB * 0x800;
    if k == 62 {
      assert Value128(sigA, 0) * mB == mA * mB * 0x2_0000_0000_0000_0000_00;
    } else {
      assert Value128(sigA, 0) * mB == mA * mB * 0x4_0000_0000_0000_0000_00;
    }
  }

  lemma DivPacks64(mode: Mode, a: nat, b: nat, expA: int, expB: int, mA: int, mB: int, expZ: int, sigA: int,
      sigB: int, z: int)
    requires IsFinite(F64, a) && IsFinite(F64, b) && !IsZero(F64, a) && !IsZero(F64, b)
    requires Normal(F64, a, expA, mA) && Normal(F64, b, expB, mB)
    requires sigB == mB * 0x800 && sigA >= 0
    requires if sigB <= mA * 0x800 then expZ == expA - expB + 0x3FE && sigA == mA * 0x200
             else expZ == expA - expB + 0x3FD && sigA == mA * 0x400
    requires z >= 0 && QuotientWord(Value128(sigA, 0), sigB, z)
    ensures Packs(F64, mode, Neg(F64, a) != Neg(F64, b), Div(F64, mode, a, b), z, expZ)
  {
    hide *;
    FormatConstants();
    NormalBounds(F64, a, expA, mA);
    NormalBounds(F64, b, expB, mB);
    var k := if sigB <= mA * 0x800 then 62 else 63;
    DividendBounds64(mA, mB, sigA, sigB, k);
    var n: nat, d: nat := Value128(sigA, 0), sigB;
    WordQuotientBounds(n, d, 0x4000_0000_0000_0000);
    QuotientWordIs(n, d, z, n / d, n % d);
    WordBounds(n / d, z);
    QuotientStands(F64, n, d, z);
    QuotientPacks(F64, mode, a, b, expA, expB, mA, mB, n, d, k, z);
  }

  lemma WordBounds(q: int, z: int)
    requires 0x4000_0000_0000_0000 <= q < 0x8000_0000_0000_0000 && z / 0x200 == q / 0x200
    ensures 0x4000_0000_0000_0000 <= z < 0x8000_0000_0000_0000
  {
  }

  method F64DivFinite(st: FloatState, a: u64, b: u64) returns (z: u64)
    requires IsFinite(F64, a) && IsFinite(F64, b) && !IsZero(F64, a) && !IsZero(F64, b)
    modifies st`exceptionFlags
    ensures var o := Div(F64, st.roundingMode, a, b);
            z == o.bits && st.exceptionFlags == old(st.exceptionFlags) + o.flags
  {
    hide *;
    FormatConstants();
    BitsOfWords(a);
    BitsOfWords(b);
    Fields(F64, a);
    Fields(F64, b);
    var signZ := SignUI(F64, a) != SignUI(F64, b);
    var expA, mA: int := NormaliseF64(a);
    var expB, mB: int := NormaliseF64(b);
    var expZ := expA - expB + 0x3FD;
    var sigA: u64, sigB: u64 := mA * 0x400, mB * 0x800;
    if sigB as int <= sigA as int + sigA as int {
      expZ := expZ + 1;
      sigA := sigA / 2;
    }
    var sigZ := EstimatedQuotient(sigA, sigB);
    DivPacks64(st.roundingMode, a, b, expA, expB, mA, mB, expZ, sigA, sigB, sigZ);
    PacksIs(F64, st.roundingMode, signZ, Div(F64, st.roundingMode, a, b), sigZ, expZ);
    z := RoundPackToF64(st, signZ, expZ, sigZ);
  }

  method F64Div(st: FloatState, a: u64, b: u64) returns (z: u64)
    modifies st`exceptionFlags
    ensures var o := Div(F64, st.roundingMode, a, b);
            z == o.bits && st.exceptionFlags == old(st.exceptionFlags) + o.flags
  {
    hide *;
    FormatConstants();
    DivCases(F64, st.roundingMode, a, b);
    BitsOfWords(a);
    BitsOfWords(b);
    Fields(F64, a);
    Fields(F64, b);
    var expA, sigA := ExpUI(F64, a), FracUI(F64, a);
    var expB, sigB := ExpUI(F64, b), FracUI(F64, b);
    var signZ := SignUI(F64, a) != SignUI(F64, b);
    SpecialBits(signZ, true);
    SpecialBits(signZ, IsSignalling(F64, a) || IsSignalling(F64, b));
    if expA == 0x7FF {
      if sigA != 0 || (expB == 0x7FF && sigB != 0) {
        z := PropagateNaNF64UI(st, a, b);
      } else if expB == 0x7FF {
        st.exceptionFlags := st.exceptionFlags + {Invalid};
        z := 0xFFFF_FFFF_FFFF_FFFF;
      } else {
        z := PackToF64UI(signZ, 0x7FF, 0);
      }
    } else if expB == 0x7FF {
      if sigB != 0 {
        z := PropagateNaNF64UI(st, a, b);
      } else {
        z := PackToF64UI(signZ, 0, 0);
      }
    } else if expB == 0 && sigB == 0 {
      OrZero(expA, sigA);
      if BitOr(expA, sigA) == 0 {
        st.exceptionFlags := st.exceptionFlags + {Invalid};
        z := 0xFFFF_FFFF_FFFF_FFFF;
      } else {
        st.exceptionFlags := st.exceptionFlags + {Infinite};
        z := PackToF64UI(signZ, 0x7FF, 0);
      }
    } else if expA == 0 && sigA == 0 {
      z := PackToF64UI(signZ, 0, 0);
    } else {
      z := F64DivFinite(st, a, b);
    }
  }
}
