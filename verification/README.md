# A verified model of the simulator's arithmetic, translation, caches and lockstep checker

The repository drives an RTL RISC-V core from C++: a functional simulator, a ring of checked
instructions, and SoftFloat underneath. This project models its difficult parts in Dafny and proves
what they compute. `dafny verify dfyconfig.toml` checks everything.

**Floating point.** `Ieee754` says what IEEE 754-2008 asks for, over exact reals: a result is the exact
real result rounded once (section 4.3), with the flags of sections 7.2 to 7.6. `RoundMeaning` shows that
its rounding function is not just a formula: the code it gives is the one and only value of the format
that the mode's definition selects (nearest with ties to even or away, largest not above, smallest not
below). Against that specification every routine is proved for every pair or triple of encodings,
subnormals, signed zeros, infinities and NaNs included, in all five modes: addition, multiplication,
division, fused multiply-add and remainder, conversions between formats and to integers.

- `RoundTheory.StickyRound` is the centre. A significand whose last bit has absorbed whatever a shift
  lost rounds, with the same flags, like the exact value it stands for. All it needs is agreement about
  which half step the value lies in, so one lemma serves shifts, quotients and normalisation.
- `RoundPack` is the shared round-and-pack routine and its normalising shortcut. `FloatState` holds
  the rounding mode and the flags.
- `Wide128`, `Shift128` and `EstimateDiv` are the two-limb arithmetic below double precision,
  including the quotient estimate that is at most 2 high.
- `MulAddTheory` is stated for either format; `F32MulAdd` uses it on 64-bit words with 32 spare bits,
  `F64MulAdd` on two limbs with 64. For the operation argument `softfloat_mulAdd_subC`, which nothing in
  the repository passes, the code is wrong where it returns the addend as it came: `AnswerIsFused` says
  exactly when, `UnflippedInput` gives an input.
- `FpInstructions` executes the arithmetic instructions on a register file: checks, rounding mode,
  operation, and the flags gathered into `fflags`, for whole programs. `FpMeaning` says what that leaves in
  the destination without naming any rounding function: of all finite values the one that the instruction's
  mode field selects for the exact result, with the flags that tell how it differs.
- `RemTheory` proves that the remainder is exact in every mode, for either format; `F64Rem` that the
  loop, taking 62 quotient bits at a time, reaches it.

**Address translation.** `Tlb` proves that over every run of translations, flushes, STATUS writes, PTBR
writes and stores, each translation made while nothing is stale answers exactly as a fresh page walk and
permission check, and stays inside memory. A PTBR write or a store makes entries stale exactly when the
tables before and after disagree: `KeptExactly` and `HitsExactly` show that condition to be necessary and
sufficient, `StaysFresh` that a store outside the page tables never meets it. `StaleHit` is a run in
supervisor mode in which a load after a PTBR write still hits the old entry where the new tables make it
fault. `PageMap` says where translation leads by address arithmetic instead of by a walk: the three indices
and the offset are the address, an entry of any level sends each byte of its span to the byte as far into its
page or superpage, and everything else faults.

**Interpreter loops.** `StepLoop` proves that the threaded loop, which falls from one instruction-cache
entry into the next, ends in the same state as the loop that fetches one instruction at a time, cache
contents included, even when instructions flush the cache or trap. It also says how the two count an
instruction that traps, which is where they differ, and that neither retires more than it was asked for.
They part only where the threaded loop falls into an entry at the all-ones pc, which marks empty entries:
`FallThroughHits` says exactly which such falls are right, `ThreadedIffRight` that the runs agree if and
only if all of them are. `OnlySret` and `JumpsAreSane` turn that into something to check beforehand: of
all jumps only SRET gets there, and only when EPC is all ones. `EmptyTagMisleads` is such a run, in which
the loops execute different instructions. `UncachedLoop` compares both with an interpreter that has no cache
and fetches every instruction at its pc: as long as what a fetch yields changes only when an instruction
flushes, they end alike if and only if no access hits an empty entry at that same pc.

**Decoder.** `Decoder` proves the bucketed, sorted index against a linear scan of the registered
descriptors, for any descriptors; `Bits` says bit by bit what a match is. With none registered the bucket count wraps to zero and there is no
index to decode from.

**Cache simulator.** `CacheSim` proves both variants against sets of resident and dirty lines. Either
calls a next level on a miss, and over any run that level's own counters show one read per miss and one
write per write-back. A line is `addr >> idx_shift`; the code makes `idx_shift` one more than the
logarithm of the line size, so a line covers two blocks of `linesz` bytes. A miss reads the aligned block
around its address; a write-back, of `linesz` bytes at the line's start, reaches an address of the line
exactly when it is in the lower block.

**Lockstep checker.** `DebugRing` proves the ring against a queue of what the functional simulator did,
the destination each instruction wrote and the state it left included. Over any sequence of checks
`arch_pc` follows it, and each check compares pc, destination, value and control registers with the next
entry drained. An interrupt writes into the youngest entry: `HarmlessTracks` says that filling stays on
track throughout if and only if each interrupt finds that entry to be for the interrupted pc, or none and
its handler there. Without interrupts the records checked are, in order, exactly those the simulator
produces. Pushing a destination marks the first source as pushed instead of the destination:
`FitsIffOneDest` and `FirstSourceRecorded` say for which operand sequences that matters, two destinations
or a destination before the first source. No instruction of the simulator pushes either, since each writes
at most one register and reads before it writes.

**Scheduler.** `Scheduler` proves that quanta and idle counts stay in range and bounds how long any
core core waits, whatever the cores do, as long as they retire no more than asked for; that `StepLoop`'s do
not is `ProcessorObeys`.

Integers are unbounded and every wrap-around is written out: words are `u32` and `u64`, `uint_fast32_t`
values are taken modulo 2^32. Bit masks of the form 2^k - 1 are remainders, shifts are products and
quotients by `Exp2`, and bitwise or is `Words.BitOr`. Flags are a set instead of a word.

## Model

| member | source | states |
|---|---|---|
| Rounding.AgreeRoundsAlike | softfloat_dpi/s_roundPackToF32.c:23-57 | two magnitudes in the same half step round to the same integer, and are exact together, in every mode |
| RoundTheory.StickyRound | softfloat_dpi/s_roundPackToF32.c:19-62 | a sticky significand rounds, flags included, like the exact value it stands for, at every exponent, subnormal and overflowing ones too |
| RoundMeaning.RoundCodeIsRounding | softfloat_dpi/softfloat.h:57-63 | the code the specification rounds to is the value the mode's definition selects, and the only one |
| RoundMeaning.RoundUnitsMeaning | softfloat_dpi/s_roundPackToF32.c:33-62 | overflow iff the rounded value exceeds every finite one, inexact iff the value changed, underflow iff it did and lies below the normal range |
| RoundMeaning.UnitsMono | softfloat_dpi/s_roundPackToF32.c:59-63 | encodings of one sign are ordered as their values |
| RoundPack.TruncateRounds | softfloat_dpi/s_roundPackToF32.c:54-57 | adding the mode's increment, truncating and clearing the last bit on a tie is rounding to an integer |
| RoundPack.RoundPackToF32 | softfloat_dpi/s_roundPackToF32.c:19-63 | the float the mode selects for sig * 2^(exp - 156), with exactly its flags, for any exponent that fits 16 bits and any significand that is normalised, zero or below an exponent of 0; a zero significand overflows above 0xFD |
| RoundPack.RoundPackToF64 | softfloat_dpi/s_roundPackToF64.c:19-64 | the same for double precision |
| RoundPack.NormRoundPackToF32 | softfloat_dpi/s_normRoundPackToF32.c:12-22 | for any significand and exponent the value rounded, but for zero at an exponent above 0xFD + 31, which overflows |
| RoundPack.NormRoundPackToF64 | softfloat_dpi/s_normRoundPackToF64.c:12-22 | the same for double precision, zero overflowing above 0x7FD + 63 |
| RoundPack.NormPackedRounds | softfloat_dpi/s_normRoundPackToF32.c:15-21 | that answer is the value rounded iff the significand is not zero or the exponent is at most that limit |
| Primitives.Shift32RightJamIsJam | softfloat_dpi/s_shift32RightJam.c:7-14 | the quotient, its last bit set iff a remainder was lost, for every non-zero count |
| Primitives.Shift64RightJamIsJam | softfloat_dpi/s_shift64RightJam.c:7-14 | the same on 64 bits |
| Primitives.JamAgrees | softfloat_dpi/s_shift64RightJam.c:10-13 | the shifted word lies where the exact quotient does among the even integers |
| Primitives.CountLeadingZeros32 | softfloat_dpi/s_countLeadingZeros32.c:6-21 | the count that shifts the leading bit to the top, 32 for zero |
| Primitives.CountLeadingZeros64 | softfloat_dpi/s_countLeadingZeros64.c:7-31 | the same on 64 bits |
| Unpack.NormSubnormalF32Sig | softfloat_dpi/s_normSubnormalF32Sig.c:8-17 | a full significand and an exponent denoting the same value |
| Unpack.NormSubnormalF64Sig | softfloat_dpi/s_normSubnormalF64Sig.c:8-17 | the same for double precision |
| Unpack.NormaliseF32 | softfloat_dpi/f32_mul.c:50-64 | every finite non-zero operand becomes a full significand at an exponent with the same magnitude |
| Unpack.NormaliseF64 | softfloat_dpi/f64_div.c:53-71 | the same for double precision |
| Unpack.SigNaN32 | softfloat_dpi/s_isSigNaNF32UI.c:8-12 | the bit test recognises exactly the signalling NaNs |
| Unpack.SigNaN64 | softfloat_dpi/s_isSigNaNF64UI.c:8-14 | the same for double precision |
| Unpack.PropagateNaNF32UI | softfloat_dpi/s_propagateNaNF32UI.c:19-24 | the default NaN, invalid iff an operand signals |
| Unpack.PropagateNaNF64UI | softfloat_dpi/s_propagateNaNF64UI.c:19-24 | the same for double precision |
| Unpack.QuotientStands | softfloat_dpi/f32_div.c:74-77 | a quotient word may be wrong below half a step as long as that part is zero exactly when the quotient's is |
| Align.AlignedSum | softfloat_dpi/s_addMagsF32.c:45-66 | a sum or difference with one term shifted, sticky, stands for the exact one |
| F32Add.AddMagsF32 | softfloat_dpi/s_addMagsF32.c:11-74 | operands of one sign: the exact sum rounded once, with its flags |
| F32Add.SubMagsF32 | softfloat_dpi/s_subMagsF32.c:12-80 | operands of opposite signs: the exact difference rounded once, through any cancellation, and the sign of a zero result |
| F32Add.F32Add | softfloat_dpi/f32_add.c:9-28 | addition of any two encodings meets the specification |
| F32Mul.F32Mul | softfloat_dpi/f32_mul.c:11-88 | multiplication of any two encodings meets the specification |
| F32Div.QuotientRounds | softfloat_dpi/f32_div.c:74-78 | testing for a remainder only where the low six bits are zero still rounds the exact quotient |
| F32Div.F32Div | softfloat_dpi/f32_div.c:10-95 | division of any two encodings meets the specification |
| MulAddTheory.MulAddFinite | softfloat_dpi/s_mulAddF32.c:97-131 | the specification by signs and by which term is larger |
| MulAddTheory.MulAddNoAddend | softfloat_dpi/s_mulAddF32.c:85-89 | with a zero addend the shifted product packs to the result, in either format |
| MulAddTheory.MulAddSumLow | softfloat_dpi/s_mulAddF32.c:98-100 | equal signs, addend's exponent the larger: the aligned sum packs to a * b + c rounded once |
| MulAddTheory.MulAddSumHigh | softfloat_dpi/s_mulAddF32.c:101-108 | equal signs, product's exponent the larger |
| MulAddTheory.MulAddDifference | softfloat_dpi/s_mulAddF32.c:115-131 | opposite signs: the sign, the exponent and a word that is exact unless it is long |
| MulAddTheory.DifferenceRounds | softfloat_dpi/s_mulAddF32.c:132-139 | normalising that word by any shift and packing it rounds the exact difference |
| MulAddTheory.ZeroProductOutcome | softfloat_dpi/s_mulAddF32.c:159-165 | a zero product gives the addend, or the mode's zero when both vanish with opposite signs |
| MulAddTheory.FusedIs | isa_sim_dpi/insns/fnmadd_s.h:3 | flipping the signs of a and c first asks for the negated product or the subtracted addend, NaNs and zeros included |
| MulAddTheory.AnswerIsFused | softfloat_dpi/s_mulAddF32.c:42-165 | for each op the answer is the combination asked for iff not (op subtracts c, a and b are finite, and c is infinite or the product is zero and c is not a zero of its sign) |
| MulAddTheory.UnflippedInput | softfloat_dpi/s_mulAddF32.c:56-63 | 0 * 0 minus infinity: the code answers plus infinity where minus infinity is meant |
| F32MulAdd.MulAddF32 | softfloat_dpi/s_mulAddF32.c:13-170 | for each op and any three encodings what AnswerIsFused judges: the combination rounded once, with its flags and the right sign of zero, except where c comes back unflipped |
| F32MulAdd.F32MulAdd | softfloat_dpi/f32_mulAdd.c:7-24 | a * b + c of any three encodings, exactly, rounded once |
| F64MulAdd.ProductF64 | softfloat_dpi/s_mulAddF64.c:76-83 | the two-limb product, with its leading bit in place, is the exact product |
| F64MulAdd.SumWord | softfloat_dpi/s_mulAddF64.c:98-104 | shifting only the high limb and folding the low one into its last bit is a sticky shift of both |
| F64MulAdd.MulAddNormaliseF64 | softfloat_dpi/s_mulAddF64.c:139-155 | normalising the two-limb difference, moving the low limb up when the high one is empty, rounds it once |
| F64MulAdd.MulAddF64 | softfloat_dpi/s_mulAddF64.c:13-187 | the same in double precision, for each op and any three encodings |
| F64MulAdd.F64MulAdd | softfloat_dpi/f64_mulAdd.c:7-24 | double-precision a * b + c of any three encodings meets the specification |
| FpInstructions.FaddIsAdd | isa_sim_dpi/insns/fadd_s.h:3 | a * 1 + b has the bits and flags of a + b for every pair of encodings and every mode, in either format |
| FpInstructions.FmulIsMul | isa_sim_dpi/insns/fmul_s.h:3 | a * b plus a zero of the product's sign has the bits and flags of a * b, in either format |
| FpInstructions.FsubIsSub | isa_sim_dpi/insns/fsub_s.h:3 | a * 1 plus b with its sign bit flipped is a - b, in either format |
| FpInstructions.FaddS | isa_sim_dpi/insns/fadd_s.h:2-3 | FADD.S under the selected mode adds |
| FpInstructions.FmulS | isa_sim_dpi/insns/fmul_s.h:2-3 | FMUL.S under the selected mode multiplies |
| FpInstructions.FaddD | isa_sim_dpi/insns/fadd_d.h:2-3 | FADD.D under the selected mode adds |
| FpInstructions.FmulD | isa_sim_dpi/insns/fmul_d.h:2-3 | FMUL.D under the selected mode multiplies |
| FpInstructions.FusedS | isa_sim_dpi/insns/fnmadd_s.h:2-3 | FMADD.S, FMSUB.S, FNMSUB.S and FNMADD.S combine product and addend with the signs they name |
| FpInstructions.FusedD | isa_sim_dpi/insns/fnmadd_d.h:2-3 | the same in double precision |
| FpInstructions.FpUnit.Execute | isa_sim_dpi/decode.h:213-232 | traps when disabled, then for a bad static or dynamic mode, changing nothing; else only the destination changes, to the bits asked for, and fflags gains exactly the flags |
| FpInstructions.FpUnit.Run | isa_sim_dpi/decode.h:213-232 | a program of add, subtract, multiply, divide and fused instructions passes through the states the operations ask for, to its end or its first trap |
| FpInstructions.RanModes | isa_sim_dpi/decode.h:213-216 | no instruction of a run changes the dynamic mode, so which of them traps is known beforehand |
| FpInstructions.FlagsAccumulate | isa_sim_dpi/decode.h:231-232 | a flag is in fflags after k instructions iff it was before or one of them raised it |
| FpMeaning.ExactChooses | softfloat_dpi/softfloat.h:57-63 | an exact result rounded once without overflow is the finite value the mode selects among all of them, ties included, inexact iff it is not the result and underflow iff moreover below the normal range |
| FpMeaning.ExecutedChooses | isa_sim_dpi/decode.h:213-216 | after add, subtract, multiply, divide or a fused instruction on finite operands the destination holds the value that mode 0 to 4, from the field or for 7 from frm, selects for the operation's exact result, and fflags gains the flags that say so |
| Wide128.Add128 | softfloat_dpi/s_add128.c:8-16 | the sum modulo 2^128 |
| Wide128.Sub128 | softfloat_dpi/s_sub128.c:8-16 | the difference modulo 2^128 |
| Wide128.Mul64To128 | softfloat_dpi/s_mul64To128.c:7-27 | the exact 128-bit product |
| Wide128.Mul128To256 | softfloat_dpi/s_mul128To256.c:8-27 | the exact 256-bit product, through the carry chain |
| Shift128.Shift128RightJamIsJam | softfloat_dpi/s_shift128RightJam.c:8-30 | a sticky right shift of both limbs, for every non-zero count |
| Shift128.ShortShift128LeftIsProduct | softfloat_dpi/s_shortShift128Left.c:8-15 | the product by 2^count when it fits |
| EstimateDiv.EstimateDiv128To64 | softfloat_dpi/s_estimateDiv128To64.c:7-27 | q <= z <= q + 2 for the exact floor quotient q, all ones when q does not fit, and at most two corrections |
| EstimateDiv.DigitBound | softfloat_dpi/s_estimateDiv128To64.c:15-25 | dividing by the divisor's high half gives a digit at most 2 high |
| F64Div.EstimateSuffices | softfloat_dpi/f64_div.c:76-77 | an estimate whose low nine bits exceed 2 needs no correction |
| F64Div.EstimatedQuotient | softfloat_dpi/f64_div.c:76-85 | estimate and conditional correction give a word that rounds like the exact quotient |
| F64Div.F64Div | softfloat_dpi/f64_div.c:11-103 | double-precision division of any two encodings meets the specification |
| RemTheory.RemIsExact | softfloat_dpi/f64_rem.c:87-101 | a - n * b with n the nearest integer to a / b is representable: no mode changes it and no flag is raised, and a zero takes a's sign |
| RemTheory.NearestNegated | softfloat_dpi/f64_rem.c:99-101 | the nearest integer, ties to even, is symmetric, so magnitudes decide |
| F64Rem.LoopStep | softfloat_dpi/f64_rem.c:70-75 | a pass keeps the dividend congruent, the partial remainder below the divisor, and the parity of the quotient so far even |
| F64Rem.LastStep | softfloat_dpi/f64_rem.c:77-82 | the last, partial digit leaves less than three divisors and the quotient's parity in q |
| F64Rem.PartialRemainder | softfloat_dpi/f64_rem.c:60-86 | the scaled dividend is a multiple of the divisor plus what is returned, for every exponent difference |
| F64Rem.NearestMultiple | softfloat_dpi/f64_rem.c:87-100 | the nearest multiple, ties to the even quotient, and the sign and size of what remains |
| F64Rem.RemSmall | softfloat_dpi/f64_rem.c:63-64 | a dividend below half the divisor is its own remainder |
| F64Rem.F64Rem | softfloat_dpi/f64_rem.c:11-112 | the remainder of any two encodings meets the specification |
| FloatToInt.RoundPackToI32 | softfloat_dpi/s_roundPackToI32.c:11-47 | the integer the mode selects for sig / 128 if it fits, inexact iff asked for and not an integer, otherwise invalid and saturated by sign; zero when adding the increment wraps 64 bits |
| FloatToInt.RightIffFits | softfloat_dpi/s_roundPackToI32.c:32-33 | that answer is the integer asked for iff the increment does not wrap |
| FloatToInt.WrapSaturates | softfloat_dpi/s_roundPackToI32.c:32-33 | where it wraps the answer should be saturated and invalid |
| FloatToInt.WrappingInput | softfloat_dpi/s_roundPackToI32.c:32-33 | all ones, to nearest, answers zero; no conversion passes a word that large |
| FloatToInt.RoundPackToI64 | softfloat_dpi/s_roundPackToI64.c:16-51 | the same for an integer part and 64 fraction bits, for every pair of words |
| FloatToInt.F64ToI32 | softfloat_dpi/f64_to_i32.c:10-28 | conversion of any double, NaN and infinity included, in any mode |
| FloatToInt.F64ToI64 | softfloat_dpi/f64_to_i64.c:10-43 | the same to 64 bits |
| FloatToInt.ExtraCarries | softfloat_dpi/s_shift64ExtraRightJam.c:9-22 | what was lost before sets the last bit of the fraction word and nothing else |
| FloatToInt.ExtraShift | softfloat_dpi/s_shift64ExtraRightJam.c:9-22 | integer part and fraction word hold the quotient exactly up to 64 places, and tell zero from non-zero beyond |
| Convert.F32ToF64 | softfloat_dpi/f32_to_f64.c:10-46 | widening of any single gives the specified double whatever the mode |
| Convert.WidenIsExact | softfloat_dpi/f32_to_f64.c:34-44 | the widened value is the value itself, without a flag |
| Convert.F64ToF32 | softfloat_dpi/f64_to_f32.c:11-42 | narrowing of any double meets the specification, although subnormal doubles are packed as if normal |
| Convert.TinyRounds | softfloat_dpi/f64_to_f32.c:32-37 | below half the smallest float, values of one sign round alike, which is why that is harmless |
| Convert.I32ToF64 | softfloat_dpi/i32_to_f64.c:10-30 | the double equal to the integer |
| Convert.NarrowWidened | softfloat_dpi/f32_to_f64.c:22-44 | narrowing a widened float gives it back for every non-NaN float and pair of modes, without a flag |
| Convert.IntegerRoundTrip | softfloat_dpi/i32_to_f64.c:17-28 | an int32 converted to double and back is itself in every mode, without a flag |
| Mulhi.Mulhu | isa_sim_dpi/mulhi.h:6-25 | the floor of the exact product over 2^64 |
| Mulhi.Mulh | isa_sim_dpi/mulhi.h:27-32 | the same for signed operands, the most negative one included |
| Mulhi.Mulhsu | isa_sim_dpi/mulhi.h:34-39 | the same for a signed and an unsigned operand |
| Tlb.WalkSamePage | isa_sim_dpi/mmu.cc:81-130 | the walk gives one entry for all addresses of a page, which is what lets a TLB keep it |
| Tlb.StoreFrames | isa_sim_dpi/mmu.cc:93-127 | a store outside the page-table words changes no walk |
| Tlb.PermissionIs | isa_sim_dpi/mmu.cc:45-54 | the shifted and masked permission bits decide as the privilege's own bits do |
| Tlb.UncachedInMemory | isa_sim_dpi/mmu.cc:117-120 | every access a walk allows lies inside memory, all its bytes |
| PageMap.IndicesRecompose | isa_sim_dpi/mmu.cc:97 | the low 43 bits of an address are its three table indices and its offset in a page |
| PageMap.EntryTranslates | isa_sim_dpi/mmu.cc:93-127 | an access whose path through the tables ends at an entry is allowed iff the entry's bits for its kind and privilege say so and the frame, the entry's page number or-ed with the address's within the span, is in memory; it reaches that byte of the frame |
| PageMap.SuperpageTranslates | isa_sim_dpi/mmu.cc:113-120 | an entry aligned to its span sends every byte of the span to the byte as far into it |
| PageMap.NoPathFaults | isa_sim_dpi/mmu.cc:85-127 | without a path to an entry, or off the sign-extended range, the access faults |
| PageMap.IdentityTranslates | isa_sim_dpi/mmu.cc:89-92 | with translation off addresses in memory are their own and all others fault |
| PageMap.FaultTells | isa_sim_dpi/mmu.cc:56-63 | each fault names the address and the kind of access, misalignment first |
| PageMap.StatusBits | isa_sim_dpi/processor.cc:454-465 | pending interrupts stay, writable bits are as written, EA needs an accelerator, the rest is zero |
| PageMap.NoConflict | isa_sim_dpi/mmu.cc:42 | 256 consecutive pages have TLB entries of their own |
| Tlb.HitIsUncached | isa_sim_dpi/mmu.h:222-223 | a hit on a good entry is what a walk and a permission check would answer |
| Tlb.WalkJustifies | isa_sim_dpi/mmu.cc:72-75 | a permitted walk makes its entry good for the whole page |
| Tlb.Mmu.WalkTables | isa_sim_dpi/mmu.cc:81-130 | the loop over levels computes the walk |
| Tlb.Mmu.RefillTlb | isa_sim_dpi/mmu.cc:40-79 | answers as an uncached translation, fills exactly the page's entry with what its permissions allow, unless a tracer asked for the page, and keeps every entry good |
| Tlb.Mmu.Translate | isa_sim_dpi/mmu.h:208-226 | a hit answers from its entry and changes nothing, a miss walks and refills; with good entries both answer as an uncached translation and entries stay good |
| Tlb.Mmu.FlushTlb | isa_sim_dpi/mmu.cc:25-38 | every tag of the TLB and of the instruction cache is invalid, so nothing hits |
| Tlb.Mmu.WriteStatus | isa_sim_dpi/processor.cc:454-467 | the new privilege, width and translation bits, and an empty TLB and instruction cache |
| Tlb.KeptExactly | isa_sim_dpi/processor.cc:485-487 | every entry good before a change is good after it iff each access the old tables permit is permitted by the new ones at the same place |
| Tlb.HitsExactly | isa_sim_dpi/mmu.h:222-223 | the same condition holds iff every hit on entries filled before the change answers as a walk after it |
| Tlb.FilledHits | isa_sim_dpi/mmu.cc:72-75 | after a refill accesses to that page hit iff its entry permits them |
| Tlb.StaysFresh | isa_sim_dpi/mmu.cc:93-127 | neither a PTBR write of the same base nor a store outside the page tables makes a run stale |
| Tlb.Mmu.WritePtbr | isa_sim_dpi/processor.cc:485-487 | entries stay; good ones stay good, and all hits on such entries right, iff the tables agree |
| Tlb.Mmu.StoreWord | isa_sim_dpi/mmu.h:84-89 | good entries stay good if the tables still agree, which a store to no page-table word ensures |
| Tlb.Run | isa_sim_dpi/mmu.h:208-226 | over any run, each translation made while no change since the last flush made the tables disagree equals an uncached one and lies inside memory |
| Tlb.StaleHit | isa_sim_dpi/processor.cc:485-487 | in supervisor mode, a load, a PTBR write and the load again: it still hits where the new tables make it fault |
| StepLoop.AccessKeepsCache | isa_sim_dpi/mmu.h:129-168 | an access keeps every tag at the position it maps to |
| StepLoop.FallThroughHits | isa_sim_dpi/processor.cc:322-336 | the entry fallen into is the one an access would hit iff the pc is not all ones, or that pc's own entry is empty and holds the same instruction |
| StepLoop.EmptyTagMisleads | isa_sim_dpi/mmu.cc:25-29 | a run of two instructions, a flush with a jump to the all-ones pc first, for which ThreadedIffRight's condition fails and the loops execute different instructions |
| StepLoop.ThreadedIsOne | isa_sim_dpi/processor.cc:315-357 | a threaded run whose every fall is such a hit is the one-at-a-time run |
| StepLoop.ThreadedIffRight | isa_sim_dpi/processor.cc:315-357 | the two runs are equal iff every fall is such a hit, for any core whose world tells which instructions were executed and whose fetch faults at the all-ones pc |
| StepLoop.SaneFallsRight | isa_sim_dpi/processor.cc:322-336 | that holds of every run without a jump to the all-ones pc |
| StepLoop.OnlySret | isa_sim_dpi/insns/sret.h:1-5 | from an aligned pc falling through, branches, JAL and JALR never reach the all-ones pc, and SRET does iff EPC is all ones in its width |
| StepLoop.JumpsAreSane | isa_sim_dpi/mmu.h:217-220 | with fetches that fault when misaligned, the two loops agree on every run in which SRET never finds EPC all ones |
| StepLoop.RunOneBound | isa_sim_dpi/processor.cc:287-314 | no run completes more instructions than asked for, and fewer when one traps |
| UncachedLoop.AccessFetches | isa_sim_dpi/mmu.h:129-160 | with entries that hold what fetches at their tags yield, an access gives what a fetch at the pc gives and keeps them so, except that it hits an empty entry at the all-ones pc |
| UncachedLoop.CachedIsUncached | isa_sim_dpi/processor.cc:287-314 | world, pc, count and stop are those of a loop without a cache iff no access hits an empty entry; a trap leaves its instruction's pc |
| UncachedLoop.SaneIsUncached | isa_sim_dpi/processor.cc:315-357 | the same for both loops when nothing jumps to the all-ones pc |
| UncachedLoop.NextEntry | isa_sim_dpi/mmu.h:122-126 | the next instruction's entry is the next one, where the threaded loop looks |
| UncachedLoop.EntriesApart | isa_sim_dpi/mmu.h:122-126 | 1024 consecutive instructions have entries of their own |
| StepLoop.Processor.AccessIcache | isa_sim_dpi/mmu.h:129-168 | a hit changes nothing, a miss fills the entry the pc maps to, a fault fills none |
| StepLoop.Processor.StepDebug | isa_sim_dpi/processor.cc:287-314 | the one-at-a-time loop computes the reference run, counts a trapping instruction, and retires at most n |
| StepLoop.Processor.StepThreaded | isa_sim_dpi/processor.cc:315-357 | the threaded loop, for every run, with at most n retired; a trapping instruction counts only once it executes and only with the checker on; state, cache and stop are the one-at-a-time run's if, and for cores that record their instructions only if, every fall is a hit |
| Decoder.MatchInBucket | isa_sim_dpi/processor.cc:618-621 | a matching descriptor lies in the instruction's bucket |
| Decoder.AndOnes | isa_sim_dpi/processor.cc:618-619 | masking with k ones keeps the low k bits |
| Bits.MatchesMeans | isa_sim_dpi/processor.cc:621 | a descriptor matches iff the instruction has its bits wherever the mask asks and it asks for no others |
| Decoder.FirstIsLeast | isa_sim_dpi/processor.cc:621-622 | scanning from the bucket's start to the sentinel misses nothing and meets the least match first |
| Decoder.SortedTail | isa_sim_dpi/processor.cc:655-660 | the first descriptor past a bucket ends it |
| Decoder.Decoder.CountBuckets | isa_sim_dpi/processor.cc:635-639 | a power of two, at most 2^32, whose low bits every mask covers; zero when nothing is registered |
| Decoder.Decoder.BuildOpcodeMap | isa_sim_dpi/processor.cc:633-667 | the index is complete and sorted, the last assertion holds, no descriptor is lost; with nothing registered only the sentinel is stored |
| Decoder.Decoder.DecodeInsn | isa_sim_dpi/processor.cc:616-625 | terminates with the function of a registered matching descriptor, the least of them, iff a linear scan finds one; else the illegal-instruction one |
| CacheSim.NonZero | isa_sim_dpi/cachesim.h:17 | the shift register never reaches zero |
| CacheSim.NextIsInjective | isa_sim_dpi/cachesim.h:17 | no two states of the register lead to the same one |
| CacheSim.Taps | isa_sim_dpi/cachesim.h:17 | the bit shifted out is fed back into bits 31, 30, 28 and 0 |
| CacheSim.TagOf | isa_sim_dpi/cachesim.cc:103-113 | comparing with the dirty bit masked finds exactly the valid tags of the line |
| CacheSim.Conservation | isa_sim_dpi/cachesim.cc:137-144 | dirty lines plus write-backs equal the times a line became dirty, over one access |
| CacheSim.Marked | isa_sim_dpi/cachesim.cc:131-132 | setting a dirty bit adds the line to the dirty ones and changes nothing else |
| CacheSim.Replaced | isa_sim_dpi/cachesim.cc:115-122 | replacing a tag exchanges one line for another and keeps lines distinct and in their sets |
| CacheSim.MissesMean | isa_sim_dpi/cachesim.cc:141-150 | a miss's last request reads the aligned block around the address; one before it, iff the victim was dirty, writes at the start of the victim's line |
| CacheSim.WriteBackReaches | isa_sim_dpi/cachesim.cc:141-146 | that write reaches an address of the line iff it lies in the lower of the two blocks a line spans |
| CacheSim.Cache.LineSpans | isa_sim_dpi/cachesim.cc:105-106 | an address is of a line iff it lies in the two blocks from the line's start |
| CacheSim.Cache.constructor | isa_sim_dpi/cachesim.cc:40-61 | an empty cache whose idx_shift is one more than the logarithm of linesz |
| CacheSim.Cache.CheckTag | isa_sim_dpi/cachesim.cc:103-113 | finds the line iff it is held anywhere |
| CacheSim.Cache.Victimize | isa_sim_dpi/cachesim.cc:115-122 | the way of the line's set that the register picks now holds the line, clean, and its old tag is returned |
| CacheSim.Cache.Access | isa_sim_dpi/cachesim.cc:124-154 | the line is resident after; at most one line gave way; the next level saw nothing on a hit, and on a miss a write at the start of the victim's line iff it was dirty, then a read of the aligned block around the address |
| CacheSim.Cache.Run | isa_sim_dpi/cachesim.cc:124-154 | over any accesses the next level, fed by this cache alone, has served one read per miss and one write per write-back, and no dirty line was lost |
| CacheSim.FullyAssociativeCache.Victimize | isa_sim_dpi/cachesim.cc:167-179 | while there is room nothing is evicted, then the key at the position the register picks |
| CacheSim.PositionsFollowKeys | isa_sim_dpi/cachesim.cc:172-173 | positions, as an iterator advanced from the first key takes them, follow the order of the keys |
| CacheSim.FullyAssociativeCache.Access | isa_sim_dpi/cachesim.cc:124-179 | the fully associative variant makes the same transitions, requests to its next level included |
| CacheSim.FullyAssociativeCache.Run | isa_sim_dpi/cachesim.cc:124-179 | over any accesses its next level has served one read per miss and one write per write-back, no dirty line was lost, and no more lines are held than ways |
| DebugRing.InterruptTracks | isa_sim_dpi/processor.cc:285-297 | an interrupt keeps the pc chain iff the youngest entry was for the interrupted pc, or there is none and the handler is that pc |
| DebugRing.HarmlessTracks | isa_sim_dpi/processor.cc:283-387 | every state passed through while filling keeps the pc chain iff every interrupt met is harmless |
| DebugRing.FedTracks | dpi_sim/debug.cc:77-80 | without interrupts, filling only appends and each a_next_pc is the next a_pc |
| DebugRing.HappensMeans | isa_sim_dpi/processor.cc:283-387 | each event leaves the simulator at its next pc, handler or own pc, and at the young end an entry for the pc it began at that continues there |
| DebugRing.CalmDrains | dpi_sim/debug.cc:301-330 | without interrupts, what is drained and what is still to come are together all the simulator produces, in order |
| DebugRing.FedFits | dpi_sim/debug.cc:315-318 | filling never overflows and stops only when full or when the simulator ended |
| DebugRing.PushFits | dpi_sim/debug.cc:128-174 | one push: the bound asserted holds for every source, and for a destination when none was pushed before |
| DebugRing.FitsIffOneDest | dpi_sim/debug.cc:122-187 | all the bounds of an instruction's operands hold iff at most one of them is a destination |
| DebugRing.FirstSourceRecorded | dpi_sim/debug.cc:129-150 | the first source is recorded iff no destination was pushed before it, else the entry keeps its last use's |
| DebugRing.LaterSourceRecorded | dpi_sim/debug.cc:153-174 | the second and third source are recorded as they were first pushed |
| DebugRing.PushCounts | dpi_sim/debug.cc:129-174 | a push counts a destination, or the source it makes valid |
| DebugRing.DestMeans | dpi_sim/debug.cc:129-138 | the destination recorded is the register first written, if one is |
| DebugRing.DebugBuffer.Start | dpi_sim/debug.cc:96-120 | one more entry at the young end, its operands cleared, no other entry's record changed |
| DebugRing.DebugBuffer.PushOperandActual | dpi_sim/debug.cc:122-187 | one operand into the youngest entry and nothing else changed; the bound holds |
| DebugRing.DebugBuffer.PushInstrActual | dpi_sim/debug.cc:225-239 | fills in the youngest entry, flags and latency included, if there is one |
| DebugRing.DebugBuffer.PushStateActual | dpi_sim/debug.cc:246-300 | the simulator's state goes to the youngest entry and nothing else changes |
| DebugRing.DebugBuffer.Drop | dpi_sim/debug.cc:320-330 | the oldest entry leaves, its contents still in place |
| DebugRing.Checker.Step | isa_sim_dpi/processor.cc:283-387 | each way a step can end, on the ring and on the queue |
| DebugRing.Checker.Feed | dpi_sim/debug.cc:68-83 | the filling loop computes the fed queue; start's assertion holds at each call |
| DebugRing.Checker.Pop | dpi_sim/debug.cc:301-330 | first in, first out, with the entry's contents intact after the refill |
| DebugRing.Checker.CheckInstruction | riscv_dpi/riscv_dpi.cc:446-511 | the verdict on the oldest entry as refilled, by pc, destination, value and the seven control registers compared; arch_pc is at the head's pc again afterwards; a fission micro-op passes and pops nothing |
| DebugRing.FieldDecides | dpi_sim/checker.cc:43-60 | a check with the record's own pc, destination, value and state passes; another value in one field of the state makes it fail iff the field is one of the seven compared |
| DebugRing.PassesOnly | riscv_dpi/riscv_dpi.cc:470-507 | what passes has the record's pc, its destination and value if it has one, and its seven fields |
| DebugRing.PassesWhenever | riscv_dpi/riscv_dpi.cc:470-507 | and whatever has those passes |
| DebugRing.Checker.CheckAll | riscv_dpi/riscv_dpi.cc:446-511 | over any sequence of checks with only harmless interrupts, the records checked are those drained, in order, each judged as its own check asks, and arch_pc follows them; with none, they are the next of all the simulator produces |
| Scheduler.AfterInRange | dpi_sim/sim.cc:151-191 | the quantum and the idle count stay below 50, and no core passes its quantum, if it retires no more than asked for |
| Scheduler.ProcessorObeys | isa_sim_dpi/processor.cc:287-357 | a processor retires no more than asked for, in either loop and in any state |
| Scheduler.TurnShrinks | dpi_sim/sim.cc:166-182 | every call ends the turn, with one tick, or shrinks a measure of quantum left and idling left |
| Scheduler.TurnPasses | dpi_sim/sim.cc:177-192 | the turn passes to the next core, with exactly one tick, within 2500 calls whatever the cores do within what they were asked for |
| Scheduler.EveryCoreRuns | dpi_sim/sim.cc:148-199 | every core gets a turn within 2500 calls for each core before it |
| Scheduler.StepIsIterate | dpi_sim/sim.cc:148-163 | step(n) is between 1 and n such calls, unless n is zero, so every bound on calls reaches it |
| Scheduler.StepsPassTurn | dpi_sim/sim.cc:148-192 | whatever each step asks for, the turn has passed after at most 2500 steps |
| Scheduler.BusyCores | dpi_sim/sim.cc:148-199 | cores that always retire what they are asked for share n instructions in quanta of 50, one call each: turn, quantum, ticks and calls follow from n |
| Scheduler.IdleCores | dpi_sim/sim.cc:166-182 | a core that retires nothing gives its turn up at its fiftieth call, not before |
| Scheduler.Sim.Step | dpi_sim/sim.cc:148-199 | step(n) makes those calls and terminates; of several ticks it returns the last one's answer |

## Left out

- DebugRing.Checker.CheckAll: a run in which an interrupt breaks the chain, where `HarmlessTracks` shows that tracking is lost and `first` asserts; a chain a second interrupt happens to mend is not followed.
- UncachedLoop.CachedIsUncached: for worlds in which what a fetch yields changes only when an instruction flushes; code stored to and run without one is stale in the source too.
- FpMeaning.ExecutedChooses: for finite operands and results that do not overflow; the rest is what `Executed` states of NaNs, infinities and overflow.
- Tlb.Run: says nothing of a translation made while the tables disagree, since `HitsExactly` shows no such promise can hold.
- FpInstructions.FpUnit.Run: half precision, square roots, comparisons, moves and conversions are not among the instructions; a trap ends the run, its handler is not part of this model.
- Square roots, unsigned conversions and NaN payloads; f32_sub, which is f32_add with a flipped sign.
- The 256-entry leading-zero table is written as its runs of equal entries; tininess is detected before rounding, as configured.
- What the instruction cache holds is `StepLoop`'s and only its tags are in `Tlb`; instruction semantics are a parameter of `StepLoop`.
- Memory is read and written by words in `Tlb`; the width of an access matters there only for alignment and bounds.
- A memory tracer's interest in a page is a parameter, and what it records is not modelled.
- Instruction-cache fetches of lengths other than one entry, and instructions that straddle pages, are part of the fetch parameter.
- Clipping of step counts to the next timer event, interrupts before the loops, and the trap handlers after them.
- Printing of cache statistics, copying of caches, parsing of cache configurations; counters do not wrap. The next level of either cache is a set-associative one.
- The flat tag array is indexed set by set as in the source; std::sort is an insertion sort of which only order and permutation are used.
- Memory addresses, load and store data and the register files copied into the ring's entries, none of which is compared; `find` and `check_next`.
- The micro-architectural branch of the scheduler, fast skipping, HTIF itself, and what cores do in a step.
