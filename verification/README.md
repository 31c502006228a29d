# BLS12-381 base-field Montgomery arithmetic, modelled in Dafny

This project models the field-arithmetic kernels of the `mont1` and `mont2`
crates and the Python script that derives their Montgomery constant. The
kernels work modulo the 381-bit BLS12-381 prime N, held as six
little-endian 64-bit limbs (`W6x64`). They are modular addition and
subtraction, conversion into and out of the Montgomery domain (R = 2^384),
and Montgomery multiplication a·b·R^-1 mod N. The second crate has three
multiplication tiers: a loop-based reference (`fe_mont_mul`), a hand-unrolled
register version (`fe_mont_mul_raw`) and a version built on the `mulx`,
`addcarryx` and `subborrow` intrinsics (`fe_mont_mul_intrinsics`). The
script runs the extended Euclidean algorithm on (R, N) and derives
`Np1 = -N^-1 mod R`, whose low word is the kernels' `N_PRIME`.

Machine words are `int` subset types (`u64`, `u8`). Every wrapping,
overflowing or carrying primitive of Rust is written out explicitly in
`Words`. A limb vector denotes `Val(s) = Σ s[i]·2^(64i)`. Each `&mut` result
parameter of the source becomes a returned value.

The layout is bottom-up. `Words` holds the u64 primitives and the intrinsics.
`Limbs` holds `Val` and the carry-chain arithmetic. `Constants` holds N,
`CORRECTION`, R² mod N, `ONE` and `N_PRIME`. It also holds R^-1 mod N and
-N^-1 mod R, the two values the derivation script prints. `Field` holds the
element type and the modular specifications. `Cios` defines one CIOS round
on numbers, the reference all tiers are proved against. `Chains` holds the
loops the loop-based kernels share. `Registers` holds the register-file view
of the unrolled tiers. Then come the kernels (`Mont2Arith`, `Mont1Arith`,
`Mont2Raw`, `Mont2Intrinsics`), `Tiers`, which relates them, and
`ConstantDerivation`.

The unrolled tiers are proved round by round. Each multiply-accumulate row
and each reduction row of `fe_mont_mul_raw` and `fe_mont_mul_intrinsics` is
shown to produce `Cios.Acc(a, b, i + 1)` from `Cios.Acc(a, b, i)`. So all
tiers compute the same sequence of CIOS accumulators, and their six-word
outputs coincide (`Tiers.MulTiersAgree`).

## Model

| member | source | states |
|---|---|---|
| Words.OverflowingAdd | mont2/src/arith.rs:18-19 | the wrapped sum plus the carry flag times 2^64 is the exact sum |
| Words.OverflowingSub | mont2/src/arith.rs:28-30 | the wrapped difference minus the borrow flag times 2^64 is the exact difference |
| Words.FromBool | mont2/src/arith.rs:33 | `u64::from(flag)`: the word is at most 1 and is 1 exactly when the flag is set, so it denotes the same word as the first crate's `if carry { 1 } else { 0 }` and as `u8::from(flag)` |
| Words.WrappingAdd | mont2/src/arith.rs:118 | the result is the sum modulo 2^64; hence the exact sum when it fits and the sum minus 2^64 otherwise |
| Words.WrappingMul | mont2/src/arith.rs:120 | the result is the product modulo 2^64 (the product is a multiple of 2^64 plus the result) |
| Words.WrappingNeg | mont2/src/arith.rs:33 | the result is the additive inverse modulo 2^64 |
| Words.FlagMask | mont2/src/arith.rs:33 | negating a flag gives the all-ones mask when it is set and zero otherwise |
| Words.Not64 | mont2/src/arith.rs:35 | `!x` flips each of the 64 bits of x, and x + !x = 2^64 - 1 |
| Words.And64 | mont2/src/arith.rs:35 | bit k of `x & y` is set exactly when bit k is set in both x and y |
| Words.Or64 | mont2/src/arith.rs:35 | bit k of `x \| y` is set exactly when bit k is set in x or in y |
| Words.MaskSelect | mont2/src/arith.rs:33-36 | `(!m & x) \| (m & y)` and `(m & y) \| (!m & x)` with m from a flag return exactly y when the flag is set and exactly x otherwise |
| Words.MulWide | mont2/src/arith.rs:174-180 | `mulx` splits the 128-bit product into high and low words exactly, and the high word is at most 2^64 - 2 |
| Words.MulAddBound | mont2/src/arith.rs:112-114 | a·b + t + carry of 64-bit words stays below 2^128, so `hilo` never overflows |
| Words.FullAdd | mont2/src/arith.rs:146-153 | the `full_add` macro: sum plus carry-out times 2^64 equals a + b + carry-in |
| Words.FullSub | mont2/src/arith.rs:165-172 | the `full_sub` macro: difference minus borrow-out times 2^64 equals a - b - borrow-in |
| Words.AddCarryX | mont2/src/arith.rs:311 | `_addcarryx_u64`: carry-out is 0 or 1, and sum plus carry-out times 2^64 is a + b + carry-in, a nonzero carry-in counting as 1 |
| Words.SubBorrow | mont2/src/arith.rs:399-403 | `_subborrow_u64`: borrow-out is 0 or 1, and difference minus borrow-out times 2^64 is a - b - borrow-in, a nonzero borrow-in counting as 1 |
| Constants.ModulusFacts | mont2/src/arith.rs:7-10 | the six limbs of N denote the modulus, which is odd, whose low word is `N[0]`, and with 3N < 2^384 |
| Constants.CorrectionFacts | mont2/src/arith.rs:40-44 | `CORRECTION` denotes 2^384 - N |
| Constants.NoLimbAllOnes | mont1/src/arith.rs:29 | no limb of N or of `CORRECTION` is 2^64 - 1, so `N[i] + borrow` and `CORRECTION[i] + borrow` never overflow a word |
| Constants.RSquaredFacts | mont2/src/arith.rs:70-74 | `R_SQUARED` denotes R² mod N |
| Constants.OneFacts | mont2/src/arith.rs:83-87 | `ONE` denotes 1 |
| Constants.NPrimeFacts | mont2/src/arith.rs:102 | `N_PRIME·N[0] + 1` is a multiple of 2^64, i.e. N' = -N^-1 mod 2^64 |
| Constants.InverseFacts | mont1/constant.py:17-20 | R·Rp1 - N·Np1 = 1 with 0 < Rp1 < N and 0 < Np1 < R; N·Np1 mod R = R - 1; Np1 mod 2^64 = `N_PRIME` |
| Field.NormOfMont | mont2/src/arith.rs:76-94 | converting a reduced value into the Montgomery domain and back returns it |
| Field.MontOfNorm | mont2/src/arith.rs:76-94 | converting a reduced Montgomery value out and back in returns it |
| Field.MontMulByRSquared | mont2/src/arith.rs:76-80 | the Montgomery product with R² mod N is x·R mod N |
| Field.MontMulByOne | mont2/src/arith.rs:89-94 | the Montgomery product with 1 is x·R^-1 mod N |
| Field.AddInMontDomain | mont2/src/arith.rs:13-37 | modular addition commutes with the Montgomery mapping |
| Field.SubInMontDomain | mont2/src/arith.rs:47-67 | modular subtraction commutes with the Montgomery mapping |
| Field.MulInMontDomain | mont2/src/arith.rs:105-106 | the Montgomery product of two Montgomery forms maps back to the ordinary product mod N |
| Cios.Digit | mont2/src/arith.rs:120 | the digit `low.wrapping_mul(N_PRIME)` makes low + m·N divisible by 2^64, so the low word of `temp[i]` becomes zero |
| Cios.RoundFacts | mont2/src/arith.rs:109-129 | one round's sum is an exact multiple of 2^64 below 2N·2^64, and the new accumulator is below 2N |
| Cios.AccInvariant | mont2/src/arith.rs:109-130 | after k rounds, accumulator·2^(64k) = a·(low k limbs of b) + Q·N |
| Cios.CiosIsMontProduct | mont2/src/arith.rs:106-138 | after six rounds the accumulator is below 2N and congruent to a·b·R^-1 mod N |
| Chains.AddLimbs | mont2/src/arith.rs:15-22 | the carry chain's sum plus the final carry times 2^(64n) is Val(x) + Val(y) |
| Chains.SubLimbs | mont2/src/arith.rs:49-56 | the borrow chain's difference minus the final borrow times 2^(64n) is Val(x) - Val(y) |
| Chains.SubFoldedBorrow | mont2/src/arith.rs:24-31 | subtracting `y[i] + borrow` with one `overflowing_sub` is exact when no limb of y is all ones |
| Chains.MaskLimbs | mont2/src/arith.rs:58-63 | `mask & CORRECTION[i]` is the whole vector under an all-ones mask and zeros under a zero mask |
| Chains.SelectLimbs | mont2/src/arith.rs:33-36 | the select `(!m & x) \| (m & y)` returns y when the mask is set and x otherwise, limb for limb |
| Chains.SelectLimbsSwapped | mont2/src/arith.rs:140-143 | the select `(m & y) \| (!m & x)` returns y when the mask is set and x otherwise |
| Chains.SumFits | mont2/src/arith.rs:17-23 | for reduced operands the final carry of the sum chain is never set |
| Chains.CondSubtract | mont2/src/arith.rs:132-143 | the trial subtraction of N borrows exactly when t < N, and the selected words are t mod N |
| Chains.CorrectedDifference | mont2/src/arith.rs:58-66 | subtracting the masked `CORRECTION` yields (a - b) mod N, and `borrow_fix` never leaves the chain set |
| Chains.MulAccumulate | mont2/src/arith.rs:110-117 | the inner loop adds x·y·2^(64i) to temp, touching only words i..i+5, with the carry-out above |
| Chains.FirstHalf | mont2/src/arith.rs:109-120 | after adding a·b[i], temp holds (Acc + a·b[i])·2^(64i), the carry word did not wrap, and the digit is the CIOS digit |
| Chains.SecondHalf | mont2/src/arith.rs:120-129 | after adding m·N, the second `wrapping_add` does not wrap and temp holds Acc(i + 1)·2^(64(i+1)) |
| Chains.TopHalf | mont2/src/arith.rs:130-138 | after six rounds `temp[6..12]` is the final accumulator, below 2N and congruent to the Montgomery product |
| Mont2Arith.FeAdd | mont2/src/arith.rs:14-37 | for reduced a, b the result is (a + b) mod N and is reduced |
| Mont2Arith.FeSub | mont2/src/arith.rs:48-67 | for reduced a, b the result is (a - b) mod N and is reduced |
| Mont2Arith.MontRound | mont2/src/arith.rs:109-129 | one outer iteration takes temp from Acc(i)·2^(64i) to Acc(i + 1)·2^(64(i+1)), with all words above i+6 zero |
| Mont2Arith.FeMontMul | mont2/src/arith.rs:106-144 | for reduced a the result is a·b·R^-1 mod N and is reduced |
| Mont2Arith.FeToMont | mont2/src/arith.rs:77-80 | for a below N the result is a·R mod N and is reduced |
| Mont2Arith.FeToNorm | mont2/src/arith.rs:90-94 | for reduced a the result is a·R^-1 mod N, below N |
| Mont1Arith.FeAdd | mont1/src/arith.rs:16-38 | for reduced a, b the result is (a + b) mod N and is reduced |
| Mont1Arith.FeSub | mont1/src/arith.rs:49-67 | for reduced a, b the result is (a - b) mod N and is reduced |
| Mont1Arith.MontRound | mont1/src/arith.rs:101-121 | one outer iteration takes temp from Acc(i)·2^(64i) to Acc(i + 1)·2^(64(i+1)); its two checked `temp[i + 6] += carry` additions are modelled as u64 additions, so the result exists only because neither overflows |
| Mont1Arith.SubWordBorrow | mont1/src/arith.rs:126-131 | the borrow chain with a word-valued borrow is exact: difference minus borrow times 2^(64n) is Val(x) - Val(y) |
| Mont1Arith.FeMontMul | mont1/src/arith.rs:98-136 | for reduced a the result is a·b·R^-1 mod N and is reduced |
| Mont1Arith.FeToMont | mont1/src/arith.rs:76-79 | for a below N the result is a·R mod N and is reduced |
| Mont1Arith.FeToNorm | mont1/src/arith.rs:88-92 | for reduced a the result is a·R^-1 mod N, below N |
| Registers.SplitProducts | mont2/src/arith.rs:187-192 | the six high and low product words of a `mulx` row sum to a·b[i] |
| Registers.ShiftedChain | mont2/src/arith.rs:194-199 | the high-word chain adds the high words one word up, and the last high word plus carry is the top word |
| Registers.AddChain | mont2/src/arith.rs:217-223 | a six-word `full_add` chain is exact up to its carry-out |
| Registers.SubChain | mont2/src/arith.rs:280-287 | a six-word `full_sub` chain is exact up to its borrow-out |
| Mont2Raw.MulRow | mont2/src/arith.rs:226-231 | a row of six `mulx` products denotes a·b[i], with a top high word below 2^64 - 1 |
| Mont2Raw.MulRow0 | mont2/src/arith.rs:187-199 | round 0's products and high chain leave the seven registers equal to a·b[0] |
| Mont2Raw.AddHigh | mont2/src/arith.rs:233-240 | the cf chain adds the high product words one word up without losing a carry |
| Mont2Raw.AddLow | mont2/src/arith.rs:242-249 | the of chain adds the low product words, up to its carry-out |
| Mont2Raw.AddRow | mont2/src/arith.rs:233-250 | both chains together add the row's product to the accumulator exactly, and `r16` does not wrap |
| Mont2Raw.MulAddRow | mont2/src/arith.rs:226-250 | a multiply-accumulate row leaves t + a·b[i] in the seven registers |
| Mont2Raw.MulRowN | mont2/src/arith.rs:203-208 | the six `mulx` products by the digit denote N·rdx |
| Mont2Raw.DigitCommutes | mont2/src/arith.rs:201 | `N_PRIME.wrapping_mul(r10)` is the CIOS digit of r10 |
| Mont2Raw.ReduceRow | mont2/src/arith.rs:252-277 | a reduction row computes (x + m·N)/2^64 with the CIOS digit m, below 2N |
| Mont2Raw.ReduceChains | mont2/src/arith.rs:261-277 | the reduction chains drop the zeroed low word exactly, and the `r16`/`r15` wrapping adds do not wrap |
| Mont2Raw.ReduceIsRound | mont2/src/arith.rs:225-277 | a multiply-accumulate row followed by a reduction row is one CIOS round |
| Mont2Raw.SubtractN | mont2/src/arith.rs:280-287 | the final `full_sub` chain computes t - N up to the borrow-out |
| Mont2Raw.FinalSubtract | mont2/src/arith.rs:280-297 | the conditional restore on `bor5` yields t mod N |
| Mont2Raw.RawRound | mont2/src/arith.rs:225-277 | one pass of the `for i in 1..6` loop takes the registers from the CIOS accumulator after i rounds to the accumulator after i + 1 |
| Mont2Raw.RawFinish | mont2/src/arith.rs:280-297 | after six rounds, the subtraction and restore store a·b·R^-1 mod N, reduced |
| Mont2Raw.FeMontMulRaw | mont2/src/arith.rs:184-298 | for reduced a the result is a·b·R^-1 mod N and is reduced |
| Mont2Intrinsics.IxShiftRow | mont2/src/arith.rs:307-318 | the round-0 carry chain (`overflowing_add`, four `_addcarryx_u64`, then `wrapping_add` of the last carry into r16) leaves exactly the sum of the six products a[j]·b[0] shifted into place, so r16 does not wrap |
| Mont2Intrinsics.IxMulRow0 | mont2/src/arith.rs:305-318 | round 0 with `_mulx_u64` and the carry chain leaves a·b[0] in the registers |
| Mont2Intrinsics.IxHighChain | mont2/src/arith.rs:351-368 | the overflow-flag chain adds the high words one word up, with flag-out 0 or 1 |
| Mont2Intrinsics.IxLowChain | mont2/src/arith.rs:348-367 | the carry-flag chain adds the low words, with flag-out 0 or 1 |
| Mont2Intrinsics.IxAddRow | mont2/src/arith.rs:346-369 | both flag chains add the row's product exactly, and the discarded `_of2_f` is zero |
| Mont2Intrinsics.IxTopFits | mont2/src/arith.rs:368-369 | the overflow flag `_of2_f` that the loop discards is always zero, and adding the last carry into r16 keeps the row sum exact |
| Mont2Intrinsics.IxMulAddRow | mont2/src/arith.rs:346-369 | a multiply-accumulate row leaves t + a·b[i] in the registers |
| Mont2Intrinsics.IxReduceRow | mont2/src/arith.rs:371-394 | a reduction row computes (x + m·N)/2^64 with the CIOS digit m, below 2N |
| Mont2Intrinsics.IxReduceChains | mont2/src/arith.rs:373-394 | the interleaved reduction chains are exact; `_of3_f` is discarded without loss and `r15` does not wrap |
| Mont2Intrinsics.TopNoWrap | mont2/src/arith.rs:342-343 | in a reduction block the discarded flag `_of1_f` (`_of3_f` in the loop, lines 393-394) is always zero, and r15 is the exact top-word sum, so neither `wrapping_add` nor `_addcarryx_u64` wraps |
| Mont2Intrinsics.IxSubtractN | mont2/src/arith.rs:397-403 | the `_subborrow_u64` chain computes t - N up to the borrow-out, which is 0 or 1 |
| Mont2Intrinsics.IxFinalSubtract | mont2/src/arith.rs:397-413 | the restore on `bor5 != 0` yields t mod N |
| Mont2Intrinsics.IxRound | mont2/src/arith.rs:345-395 | one pass of the `for i in 1..6` loop takes the registers from the CIOS accumulator after i rounds to the accumulator after i + 1 |
| Mont2Intrinsics.IxFinish | mont2/src/arith.rs:397-413 | after six rounds, the borrow chain and restore store a·b·R^-1 mod N, reduced |
| Mont2Intrinsics.FeMontMulIntrinsics | mont2/src/arith.rs:301-415 | for reduced a the result is a·b·R^-1 mod N and is reduced |
| Tiers.MontMulTimesR | mont2/src/arith.rs:105 | the Montgomery product times R is congruent to a·b modulo N |
| Tiers.MulTiersAgree | mont2/src/arith.rs:106-415 | the reference, raw and intrinsics tiers and the first crate's `fe_mont_mul` return the same six words, which times R are congruent to a·b |
| Tiers.AddSubAgree | mont1/src/arith.rs:16-67 | the two crates' `fe_add` and `fe_sub` return the same words: (a + b) mod N and (a - b + N) mod N |
| Tiers.ConversionRoundTrip | mont1/src/arith.rs:69-92 | both crates' `fe_to_mont` agree on a·R mod N, and `fe_to_norm(fe_to_mont(a))` returns the original limbs |
| ConstantDerivation.FloorMod | mont1/constant.py:10-13 | Python's `a % b` and `a // b` recompose a, the remainder taking the divisor's sign and being smaller in magnitude |
| ConstantDerivation.ExtendedEuclidean | mont1/constant.py:6-14 | the returned g satisfies the Bezout identity a·x + b·y = g and divides both inputs; for a > b > 0, g > 0 and 2g·\|x\| ≤ b |
| ConstantDerivation.BezoutStep | mont1/constant.py:10-13 | a loop step keeps `previous_x·a₀ + previous_y·b₀ == a` and `x·a₀ + y·b₀ == b` |
| ConstantDerivation.DeterminantStep | mont1/constant.py:11-12 | a loop step negates the determinant of the coefficient matrix, so it stays ±1 |
| ConstantDerivation.BoundsStep | mont1/constant.py:9-13 | a loop step keeps the remainders decreasing, the coefficients of alternating sign and a·\|x\| + b·\|px\| = b₀ |
| ConstantDerivation.GcdAtEnd | mont1/constant.py:8-14 | when the remainder reaches zero, the returned value divides both inputs |
| ConstantDerivation.GcdIsGreatest | mont1/constant.py:6-14 | every common divisor of the inputs divides the returned value |
| ConstantDerivation.Coprime | mont1/constant.py:16-18 | the only positive common divisor of R and N is 1 |
| ConstantDerivation.Coefficients | mont1/constant.py:16-17 | Bezout coefficients of (R, N) with the first at most N/2 in size are R^-1 - N and R - Np1 |
| ConstantDerivation.DeriveConstants | mont1/constant.py:16-20 | a = 1, 0 < Rp1 < N, 0 < Np1 < R, R·Rp1 - N·Np1 = 1, N·Np1 mod R = R - 1, Np1 equals -N^-1 mod R and its low word is `N_PRIME` |

## Left out

- `fe_mont_mul_asm` and the build script that assembles it: the assembly file is not part of this model.
- The benchmark harnesses, the expected-result vectors and the randomized big-integer tests. They need I/O, randomness and an external big-integer library.
- Constant-time behaviour: the model covers functional results only. The source itself disclaims constant time for its conditional corrections.
- Behaviour on unreduced inputs, which the source leaves unspecified. Each kernel requires reduced operands.
- Mont2Arith.FeMontMul, Mont1Arith.FeMontMul, Mont2Raw.FeMontMulRaw, Mont2Intrinsics.FeMontMulIntrinsics: each requires only the first operand below N, because the CIOS bound needs no more. The second operand may be any six words.
- Mont2Arith.FeToMont, Mont1Arith.FeToMont: require the input below N. The source accepts any six words, but passes them as the first operand of `fe_mont_mul`, whose reduced-input assumption then applies.
- `&mut` result parameters become returned values. Fixed arrays become sequences of the same length.
- Register allocation and instruction scheduling of the intrinsics tier. The model computes a row's six `mulx` products first. It then runs the overflow-flag chain before the carry-flag chain. In the source the carry chain reads each register only after the overflow chain has written it, so both orders produce the same words.
- The hexadecimal printing in the derivation script. Its printed comparisons are stated as postconditions of `ConstantDerivation.DeriveConstants`.
