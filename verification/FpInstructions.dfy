/** The floating-point arithmetic instructions: addition, subtraction and multiplication go through fused
    multiply-add, behind the checks of a register file and its control state. */
module FpInstructions {
  import opened Powers
  import opened Rounding
  import opened Ieee754
  import opened RoundTheory
  import opened Words
  import opened RoundPack
  import opened Unpack
  import opened MulAddTheory
  import opened F32Add
  import opened F32Mul
  import opened F32Div
  import opened F64Div
  import opened F32MulAdd
  import opened F64MulAdd

  function One(f: Format): nat {
    match f case F32 => 0x3F80_0000 case F64 => 0x3FF0_0000_0000_0000
  }

  lemma OneIs(f: Format)
    ensures IsBits(f, One(f)) && IsFinite(f, One(f)) && !IsZero(f, One(f)) && !Neg(f, One(f))
    ensures !IsNaN(f, One(f)) && !IsInf(f, One(f)) && !IsSignalling(f, One(f))
    ensures Val(f, One(f)) == 1.0
  {
    OneCode(f);
    OneVal(f);
    hide Units, Pow2;
  }

  lemma OneCode(f: Format)
    ensures Units(f, Code(f, One(f))) == f.Frac() * Exp2(-f.UnitExp() - (match f case F32 => 23 case F64 => 52))
  {
    hide Exp2;
    match f case F32 => case F64 =>
  }

  lemma OneVal(f: Format)
    ensures Units(f, Code(f, One(f))) as real * Pow2(f.UnitExp()) == 1.0
  {
    hide *;
    FormatConstants();
    OneCode(f);
    Exp2Constants();
    var k: nat := match f case F32 => 23 case F64 => 52;
    var u := -f.UnitExp();
    Exp2Add(k, u - k);
    Pow2IsExp2(u);
    Pow2Add(u, -u);
    Pow2Zero();
  }

  /** FADD, for every pair of encodings: NaNs, infinities, signed zeros and subnormals included. */
  lemma FaddIsAdd(f: Format, mode: Mode, a: nat, b: nat)
    requires IsBits(f, a) && IsBits(f, b)
    ensures MulAdd(f, mode, a, One(f), b) == Add(f, mode, a, b)
  {
    hide *;
    OneIs(f);
    MulAddCases(f, mode, a, One(f), b);
    AddCases(f, mode, a, b);
    ClassesOf(f, a);
    ClassesOf(f, b);
    if IsFinite(f, a) && IsFinite(f, b) {
      var x := Val(f, a) + Val(f, b);
      assert Val(f, a) * Val(f, One(f)) == Val(f, a);
      MulAddExact(f, mode, a, One(f), b, x);
      AddExact(f, mode, a, b, x);
    }
  }

  /** The addend FMUL supplies: a zero with the sign of the product. */
  function ProductZero(f: Format, a: nat, b: nat): nat {
    WithSign(f, Neg(f, a) != Neg(f, b), 0)
  }

  lemma ProductZeroIs(f: Format, a: nat, b: nat)
    ensures var c := ProductZero(f, a, b);
            && IsBits(f, c) && IsZero(f, c) && IsFinite(f, c) && !IsNaN(f, c) && !IsInf(f, c)
            && Neg(f, c) == (Neg(f, a) != Neg(f, b)) && Val(f, c) == 0.0
  {
    hide Pow2;
  }

  lemma FmulIsMul(f: Format, mode: Mode, a: nat, b: nat)
    requires IsBits(f, a) && IsBits(f, b)
    ensures MulAdd(f, mode, a, b, ProductZero(f, a, b)) == Mul(f, mode, a, b)
  {
    hide *;
    var c := ProductZero(f, a, b);
    ProductZeroIs(f, a, b);
    MulAddCases(f, mode, a, b, c);
    MulCases(f, mode, a, b);
    ClassesOf(f, a);
    ClassesOf(f, b);
    ClassesOf(f, c);
    if IsFinite(f, a) && IsFinite(f, b) {
      var x := Val(f, a) * Val(f, b);
      ValSign(f, a);
      ValSign(f, b);
      ZeroProduct(Val(f, a), Val(f, b));
      MulAddExact(f, mode, a, b, c, x);
      ExactCases(f, mode, Neg(f, a) != Neg(f, b), x);
      if !IsZero(f, a) && !IsZero(f, b) {
        MulOfFinite(f, mode, a, b, x);
      }
    }
  }

  lemma ExactCases(f: Format, mode: Mode, zeroNeg: bool, x: real)
    ensures Exact(f, mode, zeroNeg, x) == if x == 0.0 then Zero(f, zeroNeg) else Round(f, mode, x)
  {
    hide Round, Zero;
  }

  lemma MulCases(f: Format, mode: Mode, a: nat, b: nat)
    ensures var neg := Neg(f, a) != Neg(f, b);
            var r := Mul(f, mode, a, b);
            && (IsNaN(f, a) || IsNaN(f, b) ==> r == Quiet(f, IsSignalling(f, a) || IsSignalling(f, b)))
            && (!IsNaN(f, a) && !IsNaN(f, b) ==>
                && ((IsInf(f, a) && IsZero(f, b)) || (IsZero(f, a) && IsInf(f, b)) ==> r == Quiet(f, true))
                && ((IsInf(f, a) && !IsZero(f, b)) || (IsInf(f, b) && !IsZero(f, a)) ==> r == Inf(f, neg))
                && (IsFinite(f, a) && IsFinite(f, b) && (IsZero(f, a) || IsZero(f, b)) ==> r == Zero(f, neg)))
  {
    hide Round, IsSignalling, Val, Neg, Quiet, Inf, Zero;
  }

  /** FSUB flips the sign of what it adds. */
  lemma FsubIsSub(f: Format, mode: Mode, a: nat, b: nat)
    requires IsBits(f, a) && IsBits(f, b)
    ensures MulAdd(f, mode, a, One(f), Negated(f, b)) == Sub(f, mode, a, b)
  {
    hide *;
    NegatedIs(f, b);
    NegatedSignals(f, b);
    FaddIsAdd(f, mode, a, Negated(f, b));
    SubCases(f, mode, a, b);
    AddCases(f, mode, a, Negated(f, b));
    ClassesOf(f, a);
    ClassesOf(f, b);
    if IsFinite(f, a) && IsFinite(f, b) {
      AddExact(f, mode, a, Negated(f, b), Val(f, a) - Val(f, b));
    }
  }

  lemma SubCases(f: Format, mode: Mode, a: nat, b: nat)
    ensures var r := Sub(f, mode, a, b);
            && (IsNaN(f, a) || IsNaN(f, b) ==> r == Quiet(f, IsSignalling(f, a) || IsSignalling(f, b)))
            && (!IsNaN(f, a) && !IsNaN(f, b) ==>
                && (IsInf(f, a) && IsInf(f, b) && Neg(f, a) == Neg(f, b) ==> r == Quiet(f, true))
                && (IsInf(f, a) && !(IsInf(f, b) && Neg(f, a) == Neg(f, b)) ==> r == Inf(f, Neg(f, a)))
                && (IsInf(f, b) && !IsInf(f, a) ==> r == Inf(f, !Neg(f, b)))
                && (IsFinite(f, a) && IsFinite(f, b) ==>
                      r == Exact(f, mode, if Neg(f, a) != Neg(f, b) then Neg(f, a) else mode == Min,
                                 Val(f, a) - Val(f, b))))
  {
    hide Exact, IsSignalling, Val, Neg, Quiet, Inf;
  }

  /** FADD.S, given a legal rounding mode. */
  method FaddS(st: FloatState, rm: Mode, frs1: u32, frs2: u32) returns (frd: u32)
    modifies st
    ensures st.roundingMode == rm
    ensures var o := Add(F32, rm, frs1, frs2);
            frd == o.bits && st.exceptionFlags == old(st.exceptionFlags) + o.flags
  {
    hide *;
    BitsOfWords(frs1);
    BitsOfWords(frs2);
    OneIsWord();
    FaddIsAdd(F32, rm, frs1, frs2);
    st.roundingMode := rm;
    frd := F32MulAdd.F32MulAdd(st, frs1, 0x3F80_0000, frs2);
  }

  lemma OneIsWord()
    ensures One(F32) == 0x3F80_0000 && One(F64) == 0x3FF0_0000_0000_0000
  {
  }

  /** FMUL.S, given a legal rounding mode. */
  method FmulS(st: FloatState, rm: Mode, frs1: u32, frs2: u32) returns (frd: u32)
    modifies st
    ensures st.roundingMode == rm
    ensures var o := Mul(F32, rm, frs1, frs2);
            frd == o.bits && st.exceptionFlags == old(st.exceptionFlags) + o.flags
  {
    hide *;
    BitsOfWords(frs1);
    BitsOfWords(frs2);
    FmulIsMul(F32, rm, frs1, frs2);
    SignOfXor(frs1, frs2);
    st.roundingMode := rm;
    frd := F32MulAdd.F32MulAdd(st, frs1, frs2, (frs1 / 0x8000_0000 + frs2 / 0x8000_0000) % 2 * 0x8000_0000);
  }

  /** The exclusive or of two words, masked to the sign bit. */
  lemma SignOfXor(a: u32, b: u32)
    ensures (a / 0x8000_0000 + b / 0x8000_0000) % 2 * 0x8000_0000 == ProductZero(F32, a, b)
  {
  }

  lemma SignOfXor64(a: u64, b: u64)
    ensures (a / 0x8000_0000_0000_0000 + b / 0x8000_0000_0000_0000) % 2 * 0x8000_0000_0000_0000
        == ProductZero(F64, a, b)
  {
  }

  /** FADD.D, given a legal rounding mode. */
  method FaddD(st: FloatState, rm: Mode, frs1: u64, frs2: u64) returns (frd: u64)
    modifies st
    ensures st.roundingMode == rm
    ensures var o := Add(F64, rm, frs1, frs2);
            frd == o.bits && st.exceptionFlags == old(st.exceptionFlags) + o.flags
  {
    hide *;
    BitsOfWords(frs1);
    BitsOfWords(frs2);
    OneIsWord();
    FaddIsAdd(F64, rm, frs1, frs2);
    st.roundingMode := rm;
    frd := F64MulAdd.F64MulAdd(st, frs1, 0x3FF0_0000_0000_0000, frs2);
  }

  /** FMUL.D, given a legal rounding mode. */
  method FmulD(st: FloatState, rm: Mode, frs1: u64, frs2: u64) returns (frd: u64)
    modifies st
    ensures st.roundingMode == rm
    ensures var o := Mul(F64, rm, frs1, frs2);
            frd == o.bits && st.exceptionFlags == old(st.exceptionFlags) + o.flags
  {
    hide *;
    BitsOfWords(frs1);
    BitsOfWords(frs2);
    FmulIsMul(F64, rm, frs1, frs2);
    SignOfXor64(frs1, frs2);
    st.roundingMode := rm;
    frd := F64MulAdd.F64MulAdd(st, frs1, frs2,
                     (frs1 / 0x8000_0000_0000_0000 + frs2 / 0x8000_0000_0000_0000) % 2 * 0x8000_0000_0000_0000);
  }

  // --- The other instructions ---

  /** A word with its sign bit flipped: adding the bit without its carry. */
  lemma SignFlipped(a: u32)
    ensures Wrap32(a as int + 0x8000_0000) == Negated(F32, a)
  {
  }

  lemma SignFlipped64(a: u64)
    ensures Wrap64(a as int + 0x8000_0000_0000_0000) == Negated(F64, a)
  {
  }

  /** FSUB.S, given a legal rounding mode. */
  method FsubS(st: FloatState, rm: Mode, frs1: u32, frs2: u32) returns (frd: u32)
    modifies st
    ensures st.roundingMode == rm
    ensures var o := Sub(F32, rm, frs1, frs2);
            frd == o.bits && st.exceptionFlags == old(st.exceptionFlags) + o.flags
  {
    hide *;
    BitsOfWords(frs1);
    BitsOfWords(frs2);
    OneIsWord();
    SignFlipped(frs2);
    FsubIsSub(F32, rm, frs1, frs2);
    st.roundingMode := rm;
    frd := F32MulAdd.F32MulAdd(st, frs1, 0x3F80_0000, Wrap32(frs2 as int + 0x8000_0000));
  }

  /** FDIV.S, given a legal rounding mode. */
  method FdivS(st: FloatState, rm: Mode, frs1: u32, frs2: u32) returns (frd: u32)
    modifies st
    ensures st.roundingMode == rm
    ensures var o := Div(F32, rm, frs1, frs2);
            frd == o.bits && st.exceptionFlags == old(st.exceptionFlags) + o.flags
  {
    hide *;
    st.roundingMode := rm;
    frd := F32Div.F32Div(st, frs1, frs2);
  }

  /** FMADD.S, FMSUB.S, FNMSUB.S and FNMADD.S, given a legal rounding mode. */
  method FusedS(st: FloatState, rm: Mode, negProd: bool, subC: bool, frs1: u32, frs2: u32, frs3: u32) returns (frd: u32)
    modifies st
    ensures st.roundingMode == rm
    ensures var o := Fused(F32, rm, negProd, subC, frs1, frs2, frs3);
            frd == o.bits && st.exceptionFlags == old(st.exceptionFlags) + o.flags
  {
    hide *;
    BitsOfWords(frs1);
    BitsOfWords(frs3);
    SignFlipped(frs1);
    SignFlipped(frs3);
    FusedIs(F32, rm, negProd, subC, frs1, frs2, frs3);
    st.roundingMode := rm;
    frd := F32MulAdd.F32MulAdd(st, if negProd then Wrap32(frs1 as int + 0x8000_0000) else frs1, frs2,
                             if subC then Wrap32(frs3 as int + 0x8000_0000) else frs3);
  }

  /** FSUB.D, given a legal rounding mode. */
  method FsubD(st: FloatState, rm: Mode, frs1: u64, frs2: u64) returns (frd: u64)
    modifies st
    ensures st.roundingMode == rm
    ensures var o := Sub(F64, rm, frs1, frs2);
            frd == o.bits && st.exceptionFlags == old(st.exceptionFlags) + o.flags
  {
    hide *;
    BitsOfWords(frs1);
    BitsOfWords(frs2);
    OneIsWord();
    SignFlipped64(frs2);
    FsubIsSub(F64, rm, frs1, frs2);
    st.roundingMode := rm;
    frd := F64MulAdd.F64MulAdd(st, frs1, 0x3FF0_0000_0000_0000, Wrap64(frs2 as int + 0x8000_0000_0000_0000));
  }

  /** FDIV.D, given a legal rounding mode. */
  method FdivD(st: FloatState, rm: Mode, frs1: u64, frs2: u64) returns (frd: u64)
    modifies st
    ensures st.roundingMode == rm
    ensures var o := Div(F64, rm, frs1, frs2);
            frd == o.bits && st.exceptionFlags == old(st.exceptionFlags) + o.flags
  {
    hide *;
    st.roundingMode := rm;
    frd := F64Div.F64Div(st, frs1, frs2);
  }

  /** FMADD.D, FMSUB.D, FNMSUB.D and FNMADD.D, given a legal rounding mode. */
  method FusedD(st: FloatState, rm: Mode, negProd: bool, subC: bool, frs1: u64, frs2: u64, frs3: u64) returns (frd: u64)
    modifies st
    ensures st.roundingMode == rm
    ensures var o := Fused(F64, rm, negProd, subC, frs1, frs2, frs3);
            frd == o.bits && st.exceptionFlags == old(st.exceptionFlags) + o.flags
  {
    hide *;
    BitsOfWords(frs1);
    BitsOfWords(frs3);
    SignFlipped64(frs1);
    SignFlipped64(frs3);
    FusedIs(F64, rm, negProd, subC, frs1, frs2, frs3);
    st.roundingMode := rm;
    frd := F64MulAdd.F64MulAdd(st, if negProd then Wrap64(frs1 as int + 0x8000_0000_0000_0000) else frs1, frs2,
                             if subC then Wrap64(frs3 as int + 0x8000_0000_0000_0000) else frs3);
  }

  // --- Instructions on the register file ---

  datatype FpOp = Fadd | Fsub | Fmul | Fdiv | Fmadd | Fmsub | Fnmsub | Fnmadd

  type Reg = x: nat | x < 32

  type Rm = x: nat | x < 8

  datatype FpInsn = FpInsn(op: FpOp, format: Format, rd: Reg, rs1: Reg, rs2: Reg, rs3: Reg, rm: Rm)

  datatype FpStop = Done | FpDisabled | IllegalInstruction

  /** The registers, the dynamic rounding mode and the flags raised so far. */
  datatype FpRegs = FpRegs(fpr: seq<u64>, frm: Rm, fflags: set<Flag>)

  function ModeOf(rm: nat): Mode
    requires rm <= 4
  {
    match rm case 0 => NearEven case 1 => MinMag case 2 => Min case 3 => Max case _ => NearMaxMag
  }

  /** The mode an instruction selects, 7 meaning the dynamic one. */
  function SelectedMode(rm: Rm, frm: Rm): Rm {
    if rm == 7 then frm else rm
  }

  /** A register as an operand: a single is its low half. */
  function Operand(f: Format, x: u64): nat {
    match f case F32 => x % 0x1_0000_0000 case F64 => x
  }

  /** What the operation asks for. */
  function Result(f: Format, mode: Mode, op: FpOp, a: nat, b: nat, c: nat): Outcome {
    match op
    case Fadd => Add(f, mode, a, b)
    case Fsub => Sub(f, mode, a, b)
    case Fmul => Mul(f, mode, a, b)
    case Fdiv => Div(f, mode, a, b)
    case Fmadd => Fused(f, mode, false, false, a, b, c)
    case Fmsub => Fused(f, mode, false, true, a, b, c)
    case Fnmsub => Fused(f, mode, true, false, a, b, c)
    case Fnmadd => Fused(f, mode, true, true, a, b, c)
  }

  function Asked(i: FpInsn, r: FpRegs): Outcome
    requires |r.fpr| == 32 && SelectedMode(i.rm, r.frm) <= 4
  {
    Result(i.format, ModeOf(SelectedMode(i.rm, r.frm)), i.op,
           Operand(i.format, r.fpr[i.rs1]), Operand(i.format, r.fpr[i.rs2]), Operand(i.format, r.fpr[i.rs3]))
  }

  /** How an instruction ends: disabled comes before a bad rounding mode. */
  function StopOf(i: FpInsn, enabled: bool, frm: Rm): FpStop {
    if !enabled then FpDisabled else if SelectedMode(i.rm, frm) > 4 then IllegalInstruction else Done
  }

  /** r after the instruction: the destination and the flags change, or nothing does. */
  ghost predicate Executed(i: FpInsn, enabled: bool, r: FpRegs, r': FpRegs) {
    && |r.fpr| == |r'.fpr| == 32 && r'.frm == r.frm
    && (StopOf(i, enabled, r.frm) != Done ==> r' == r)
    && (StopOf(i, enabled, r.frm) == Done ==>
          var o := Asked(i, r);
          && r'.fpr[i.rd] as int == o.bits && r'.fflags == r.fflags + o.flags
          && forall k :: 0 <= k < 32 && k != i.rd ==> r'.fpr[k] == r.fpr[k])
  }

  /** The instructions up to the first that traps; run lists the states passed through. */
  ghost predicate Ran(program: seq<FpInsn>, enabled: bool, run: seq<FpRegs>, n: nat, stop: FpStop) {
    && n <= |program| && |run| == n + 1
    && (forall k :: 0 <= k < n ==> Executed(program[k], enabled, run[k], run[k + 1]))
    && (forall k :: 0 <= k < n ==> StopOf(program[k], enabled, run[0].frm) == Done)
    && (if n == |program| then stop == Done else stop == StopOf(program[n], enabled, run[0].frm) != Done)
  }

  /** The mode register stays as it was, so whether an instruction traps can be told beforehand. */
  lemma {:induction false} RanModes(program: seq<FpInsn>, enabled: bool, run: seq<FpRegs>, n: nat, stop: FpStop, k: nat)
    requires Ran(program, enabled, run, n, stop) && k <= n && |run[0].fpr| == 32
    ensures run[k].frm == run[0].frm && |run[k].fpr| == 32
  {
    hide Result, StopOf;
    if k > 0 {
      RanModes(program, enabled, run, n, stop, k - 1);
      assert Executed(program[k - 1], enabled, run[k - 1], run[k]);
    }
  }

  /** A flag is up after k instructions iff it was before or one of them asked for it. */
  lemma {:induction false} FlagsAccumulate(program: seq<FpInsn>, enabled: bool, run: seq<FpRegs>, n: nat, stop: FpStop,
                                           k: nat, flag: Flag)
    requires Ran(program, enabled, run, n, stop) && k <= n && |run[0].fpr| == 32
    ensures flag in run[k].fflags <==>
      flag in run[0].fflags || exists j :: 0 <= j < k && Raises(program, enabled, run, j, flag)
  {
    hide Asked, Ran, SelectedMode;
    if k > 0 {
      FlagsAccumulate(program, enabled, run, n, stop, k - 1, flag);
      RanStep(program, enabled, run, n, stop, k - 1);
      RaisesIs(program, enabled, run, k - 1, flag);
    }
  }

  ghost predicate Raises(program: seq<FpInsn>, enabled: bool, run: seq<FpRegs>, j: nat, flag: Flag) {
    && j < |program| && j < |run| && |run[j].fpr| == 32
    && StopOf(program[j], enabled, run[j].frm) == Done && flag in Asked(program[j], run[j]).flags
  }

  lemma RaisesIs(program: seq<FpInsn>, enabled: bool, run: seq<FpRegs>, j: nat, flag: Flag)
    requires j < |program| && j + 1 < |run| && Executed(program[j], enabled, run[j], run[j + 1])
    requires StopOf(program[j], enabled, run[j].frm) == Done
    ensures flag in run[j + 1].fflags <==> flag in run[j].fflags || Raises(program, enabled, run, j, flag)
  {
    hide Asked;
  }

  lemma RanStep(program: seq<FpInsn>, enabled: bool, run: seq<FpRegs>, n: nat, stop: FpStop, k: nat)
    requires Ran(program, enabled, run, n, stop) && k < n && |run[0].fpr| == 32
    ensures |run| == n + 1 && n <= |program| && |run[k].fpr| == 32 && Executed(program[k], enabled, run[k], run[k + 1])
    ensures StopOf(program[k], enabled, run[k].frm) == Done
  {
    hide Executed;
    RanModes(program, enabled, run, n, stop, k);
  }

  class FpUnit {
    const fpr: array<u64>
    const float: FloatState
    var enabled: bool
    var frm: Rm
    var fflags: set<Flag>

    /** Between instructions the library's own flags are clear. */
    ghost predicate Valid()
      reads this, float
    {
      fpr.Length == 32 && float.exceptionFlags == {}
    }

    ghost function Regs(): FpRegs
      reads this, fpr
    {
      FpRegs(fpr[..], frm, fflags)
    }

    constructor ()
      ensures Valid() && fresh(fpr) && fresh(float) && !enabled && frm == 0 && fflags == {}
      ensures forall k :: 0 <= k < 32 ==> fpr[k] == 0
    {
      fpr := new u64[32](_ => 0);
      float := new FloatState();
      enabled, frm, fflags := false, 0, {};
    }

    /** One instruction, its micro-architectural record apart. */
    method Execute(i: FpInsn) returns (stop: FpStop)
      requires Valid()
      modifies this`fflags, fpr, float
      ensures Valid() && stop == StopOf(i, enabled, frm)
      ensures stop == FpDisabled <==> !enabled
      ensures stop == IllegalInstruction <==> enabled && (if i.rm == 7 then frm else i.rm) > 4
      ensures stop != Done ==> Regs() == old(Regs())
      ensures Executed(i, enabled, old(Regs()), Regs())
    {
      if !enabled {
        return FpDisabled;
      }
      var rm := if i.rm == 7 then frm else i.rm;
      if rm > 4 {
        return IllegalInstruction;
      }
      hide Result;
      var frd := Compute(i.format, ModeOf(rm), i.op, fpr[i.rs1], fpr[i.rs2], fpr[i.rs3]);
      fpr[i.rd] := frd;
      fflags := fflags + float.exceptionFlags;
      float.exceptionFlags := {};
      stop := Done;
    }

    method Compute(f: Format, mode: Mode, op: FpOp, x: u64, y: u64, w: u64) returns (frd: u64)
      modifies float
      ensures float.roundingMode == mode
      ensures var o := Result(f, mode, op, Operand(f, x), Operand(f, y), Operand(f, w));
              frd == o.bits && float.exceptionFlags == old(float.exceptionFlags) + o.flags
    {
      hide Add, Sub, Mul, Div, Fused;
      match f {
        case F32 =>
          var a: u32, b: u32, c: u32 := x % 0x1_0000_0000, y % 0x1_0000_0000, w % 0x1_0000_0000;
          match op {
            case Fadd => frd := FaddS(float, mode, a, b);
            case Fsub => frd := FsubS(float, mode, a, b);
            case Fmul => frd := FmulS(float, mode, a, b);
            case Fdiv => frd := FdivS(float, mode, a, b);
            case Fmadd => frd := FusedS(float, mode, false, false, a, b, c);
            case Fmsub => frd := FusedS(float, mode, false, true, a, b, c);
            case Fnmsub => frd := FusedS(float, mode, true, false, a, b, c);
            case Fnmadd => frd := FusedS(float, mode, true, true, a, b, c);
          }
        case F64 =>
          match op {
            case Fadd => frd := FaddD(float, mode, x, y);
            case Fsub => frd := FsubD(float, mode, x, y);
            case Fmul => frd := FmulD(float, mode, x, y);
            case Fdiv => frd := FdivD(float, mode, x, y);
            case Fmadd => frd := FusedD(float, mode, false, false, x, y, w);
            case Fmsub => frd := FusedD(float, mode, false, true, x, y, w);
            case Fnmsub => frd := FusedD(float, mode, true, false, x, y, w);
            case Fnmadd => frd := FusedD(float, mode, true, true, x, y, w);
          }
      }
    }

    /** Any program runs as its operations ask, to its end or to the first trap, which changes nothing. */
    method Run(program: seq<FpInsn>) returns (n: nat, stop: FpStop, ghost run: seq<FpRegs>)
      requires Valid()
      modifies this`fflags, fpr, float
      ensures Valid() && Ran(program, enabled, run, n, stop)
      ensures run[0] == old(Regs()) && run[n] == Regs()
    {
      hide Executed, StopOf;
      n, stop, run := 0, Done, [Regs()];
      while n < |program|
        invariant 0 <= n <= |program| && |run| == n + 1 && Valid()
        invariant run[0] == old(Regs()) && run[n] == Regs()
        invariant forall k :: 0 <= k < n ==> Executed(program[k], enabled, run[k], run[k + 1])
        invariant forall k :: 0 <= k < n ==> StopOf(program[k], enabled, frm) == Done
      {
        stop := Execute(program[n]);
        if stop != Done {
          ExecutedNothing(program[n], enabled, run[n], Regs());
          return;
        }
        run := run + [Regs()];
        n := n + 1;
      }
      stop := Done;
    }
  }

  lemma ExecutedNothing(i: FpInsn, enabled: bool, r: FpRegs, r': FpRegs)
    requires Executed(i, enabled, r, r') && StopOf(i, enabled, r.frm) != Done
    ensures r' == r
  {
    hide StopOf;
  }
}
