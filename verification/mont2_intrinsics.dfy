/** `fe_mont_mul_intrinsics` of the `mont2` crate: the same flattened CIOS
    multiplication written with the x86 intrinsics `_mulx_u64`,
    `_addcarryx_u64` and `_subborrow_u64`. Each row runs two interleaved
    carry chains, one through the carry flag (`cf`) and one through the
    overflow flag (`of`), on the registers r10..r16 and the scratch words
    rax and rbx. */
module Mont2Intrinsics {
  import opened Words
  import opened Limbs
  import opened Constants
  import opened Field
  import opened Cios
  import opened Chains
  import opened Registers
  import opened Mont2Raw

  // The six `_mulx_u64` products of a row are computed up front by
  // `Mont2Raw.MulRow`; the intrinsics interleave them with the additions,
  // which changes no value. `_mulx_u64` returns the low word and writes the
  // high word through its pointer argument.

  /** Round 0, first block: the product a·b[0]. */
  method IxMulRow0(a: Regs6, b0: u64) returns (w: Regs7)
    ensures Regs7Value(w) == Regs6Value(a) * b0
  {
    var p := MulRow(a, b0);
    w := IxShiftRow(p);
  }

  /** The carry-flag chain of round 0: the low word of each product a[j]·b[0]
      (in rax) is added into the high word of the previous one; the last
      carry is added to r16 by `wrapping_add`. */
  method IxShiftRow(p: Products) returns (w: Regs7)
    requires p.hi.r15 < MAX
    ensures Regs7Value(w) == ProductsValue(p)
  {
    var (r11a, tmp0) := OverflowingAdd(p.hi.r10, p.lo.r11);
    var cf0A := FromBool(tmp0);
    var (cf0B, r12a) := AddCarryX(cf0A, p.hi.r11, p.lo.r12);
    var (cf0C, r13a) := AddCarryX(cf0B, p.hi.r12, p.lo.r13);
    var (cf0D, r14a) := AddCarryX(cf0C, p.hi.r13, p.lo.r14);
    var (cf0E, r15a) := AddCarryX(cf0D, p.hi.r14, p.lo.r15);
    var r16a := WrappingAdd(p.hi.r15, cf0E);
    ShiftedChain(p.lo.r11, p.lo.r12, p.lo.r13, p.lo.r14, p.lo.r15,
                 p.hi.r10, p.hi.r11, p.hi.r12, p.hi.r13, p.hi.r14, p.hi.r15,
                 r11a, r12a, r13a, r14a, r15a, r16a, cf0A, cf0B, cf0C, cf0D, cf0E);
    w := Regs7(Regs6(p.lo.r10, r11a, r12a, r13a, r14a, r15a), r16a);
  }

  /** The multiply-accumulate block of the loop: the accumulator plus a·bi. */
  method IxMulAddRow(t: Regs6, a: Regs6, bi: u64) returns (w: Regs7)
    requires Regs6Value(t) < 2 * MODULUS && Regs6Value(a) < MODULUS
    ensures Regs7Value(w) == Regs6Value(t) + Regs6Value(a) * bi
  {
    var p := MulRow(a, bi);
    RowBound(Regs6Value(t), Regs6Value(a), bi);
    w := IxAddRow(t, p);
  }

  // A row of the loop runs two flag chains. The overflow-flag chain adds the
  // high words (rbx) one word up into r11..r15; the carry-flag chain adds the
  // low words (rax) into the registers the overflow chain has just written.
  // The overflow chain reads nothing the carry chain writes, so running it
  // to the end first, as the functions below do, gives the same words.

  /** The overflow-flag chain: `overflowing_add` and four `_addcarryx_u64`s
      add hi[0..4] one word up into r11..r15; the last high word and the
      last overflow make the top word. */
  method IxHighChain(t: Regs6, hi: Regs6) returns (mid: Regs6, ofE: u8)
    requires hi.r15 < MAX
    ensures ofE <= 1 && mid.r10 == t.r10
    ensures Regs6Value(mid) + R * (hi.r15 + ofE) == Regs6Value(t) + BASE * Regs6Value(hi)
  {
    var (r11, tmp) := OverflowingAdd(t.r11, hi.r10);
    var ofA := FromBool(tmp);
    var (ofB, r12) := AddCarryX(ofA, t.r12, hi.r11);
    var (ofC, r13) := AddCarryX(ofB, t.r13, hi.r12);
    var (ofD, r14) := AddCarryX(ofC, t.r14, hi.r13);
    var (of5, r15) := AddCarryX(ofD, t.r15, hi.r14);
    ShiftedChain(t.r11, t.r12, t.r13, t.r14, t.r15,
                 hi.r10, hi.r11, hi.r12, hi.r13, hi.r14, hi.r15,
                 r11, r12, r13, r14, r15, hi.r15 + of5, ofA, ofB, ofC, ofD, of5);
    mid, ofE := Regs6(t.r10, r11, r12, r13, r14, r15), of5;
    HighSplit(t, hi, mid, hi.r15 + ofE);
  }

  /** The carry-flag chain: `overflowing_add` and five `_addcarryx_u64`s add
      lo[0..5] into r10..r15; the last carry is returned. */
  method IxLowChain(t: Regs6, lo: Regs6) returns (out: Regs6, cfF: u8)
    ensures cfF <= 1
    ensures Regs6Value(out) + cfF * R == Regs6Value(t) + Regs6Value(lo)
  {
    var (r10, tmp) := OverflowingAdd(t.r10, lo.r10);
    var cfA := FromBool(tmp);
    var (cfB, r11) := AddCarryX(cfA, t.r11, lo.r11);
    var (cfC, r12) := AddCarryX(cfB, t.r12, lo.r12);
    var (cfD, r13) := AddCarryX(cfC, t.r13, lo.r13);
    var (cfE, r14) := AddCarryX(cfD, t.r14, lo.r14);
    var (cf6, r15) := AddCarryX(cfE, t.r15, lo.r15);
    AddChain(t.r10, t.r11, t.r12, t.r13, t.r14, t.r15,
             lo.r10, lo.r11, lo.r12, lo.r13, lo.r14, lo.r15,
             r10, r11, r12, r13, r14, r15, 0, cfA, cfB, cfC, cfD, cfE, cf6);
    out, cfF := Regs6(r10, r11, r12, r13, r14, r15), cf6;
  }

  /** The multiply-accumulate row on a row of products: r16 starts at zero,
      the last overflow lands in it by `_addcarryx_u64` and the last carry by
      `wrapping_add`. Below 2^448 neither wraps. */
  method IxAddRow(t: Regs6, p: Products) returns (w: Regs7)
    requires p.hi.r15 < MAX
    requires Regs6Value(t) + ProductsValue(p) < R * BASE
    ensures Regs7Value(w) == Regs6Value(t) + ProductsValue(p)
  {
    var mid, ofE := IxHighChain(t, p.hi);
    var (of2F, r16) := AddCarryX(ofE, p.hi.r15, 0);
    var out, cfF := IxLowChain(mid, p.lo);
    w := Regs7(out, WrappingAdd(r16, cfF));
    IxTopFits(t, p, mid, ofE, of2F, r16, out, cfF, w);
  }

  /** The arithmetic of IxAddRow: the high-word chain gives the middle
      registers mid and their top word, the low-word chain gives out and its
      carry, and the carry added to the top word fits. */
  lemma IxTopFits(t: Regs6, p: Products, mid: Regs6, ofE: u8, of2F: u8, r16: u64, out: Regs6, cfF: u8, w: Regs7)
    requires p.hi.r15 < MAX
    requires Regs6Value(t) + ProductsValue(p) < R * BASE
    requires ofE <= 1
    requires Regs6Value(mid) + R * (p.hi.r15 + ofE) == Regs6Value(t) + BASE * Regs6Value(p.hi)
    requires (of2F, r16) == AddCarryX(ofE, p.hi.r15, 0)
    requires Regs6Value(out) + cfF * R == Regs6Value(mid) + Regs6Value(p.lo)
    requires w == Regs7(out, WrappingAdd(r16, cfF))
    ensures of2F == 0
    ensures Regs7Value(w) == Regs6Value(t) + ProductsValue(p)
  {
    assert r16 == p.hi.r15 + ofE;
    assert Regs6Value(out) + R * (r16 + cfF) == Regs6Value(t) + ProductsValue(p);
  }

  /** The reduction block (round 0 and every loop round): rdx is
      `N_PRIME.wrapping_mul(r10)`, then the row rdx·N is added. */
  method IxReduceRow(x: Regs7) returns (r: Regs6)
    requires Regs7Value(x) < (BASE + 1) * MODULUS
    ensures Regs6Value(r) * BASE == Regs7Value(x) + Digit(x.low.r10) * MODULUS
    ensures Regs6Value(r) < 2 * MODULUS
  {
    var rdx := WrappingMul(N_PRIME, x.low.r10);
    DigitCommutes(x.low.r10, rdx);
    var p := MulRowN(rdx);
    r := IxReduceChains(x, rdx, p);
  }

  /** The two chains of the reduction block. The carry chain writes its sums
      one register down (the first sum is discarded); the old r16 plus the
      last carry goes to r15 by `wrapping_add`, and the last high word and
      the last overflow are added on top by `_addcarryx_u64`. */
  method IxReduceChains(x: Regs7, rdx: u64, p: Products) returns (r: Regs6)
    requires Regs7Value(x) < (BASE + 1) * MODULUS
    requires (x.low.r10 + rdx * MODULUS) % BASE == 0
    requires ProductsValue(p) == MODULUS * rdx && p.hi.r15 < MAX
    ensures Regs6Value(r) * BASE == Regs7Value(x) + rdx * MODULUS
    ensures Regs6Value(r) < 2 * MODULUS
  {
    var mid, ofE := IxHighChain(x.low, p.hi);
    var out, cfF := IxLowChain(mid, p.lo);
    var r15a := WrappingAdd(x.r16, cfF);
    var (of1F, r15b) := AddCarryX(ofE, p.hi.r15, r15a);
    r := Regs6(out.r11, out.r12, out.r13, out.r14, out.r15, r15b);
    IxReduceFits(x, rdx, p, mid, ofE, out, cfF, r15a, of1F, r15b, r);
  }

  /** The arithmetic of a reduction block: the same sums as the reduction
      row of `fe_mont_mul_raw`, whose top word fits, so neither
      `wrapping_add` nor the last `_addcarryx_u64` wraps. */
  lemma IxReduceFits(x: Regs7, rdx: u64, p: Products, mid: Regs6, ofE: u8, out: Regs6, cfF: u8,
                     r15a: u64, of1F: u8, r15b: u64, r: Regs6)
    requires Regs7Value(x) < (BASE + 1) * MODULUS
    requires (x.low.r10 + rdx * MODULUS) % BASE == 0
    requires ProductsValue(p) == MODULUS * rdx && p.hi.r15 < MAX
    requires ofE <= 1
    requires Regs6Value(mid) + R * (p.hi.r15 + ofE) == Regs6Value(x.low) + BASE * Regs6Value(p.hi)
    requires cfF <= 1
    requires Regs6Value(out) + cfF * R == Regs6Value(mid) + Regs6Value(p.lo)
    requires r15a == WrappingAdd(x.r16, cfF)
    requires (of1F, r15b) == AddCarryX(ofE, p.hi.r15, r15a)
    requires r == Regs6(out.r11, out.r12, out.r13, out.r14, out.r15, r15b)
    ensures Regs6Value(r) * BASE == Regs7Value(x) + rdx * MODULUS
    ensures Regs6Value(r) < 2 * MODULUS
  {
    ReduceValue(x, rdx, p, mid, p.hi.r15 + ofE, out, cfF);
    TopNoWrap(x.r16, cfF, r15a, ofE, p.hi.r15, of1F, r15b);
  }

  /** The top word of a reduction block: r16 plus the last carry by
      `wrapping_add`, then the last overflow and the last high word by
      `_addcarryx_u64`; when the exact sum fits neither wraps. */
  lemma TopNoWrap(x16: u64, cfF: u8, r15a: u64, ofE: u8, h5: u64, of1F: u8, r15b: u64)
    requires ofE <= 1 && h5 + ofE + x16 + cfF < BASE
    requires r15a == WrappingAdd(x16, cfF)
    requires (of1F, r15b) == AddCarryX(ofE, h5, r15a)
    ensures of1F == 0
    ensures r15b == h5 + ofE + x16 + cfF
  {
  }

  /** The final subtraction chain: an `overflowing_sub` whose borrow enters a
      chain of five `_subborrow_u64`s. */
  method IxSubtractN(t: Regs6) returns (d: Regs6, bor5: u8)
    ensures bor5 <= 1
    ensures Regs6Value(d) - bor5 * R == Regs6Value(t) - MODULUS
  {
    var (d0, res1) := OverflowingSub(t.r10, N[0]);
    var bor0 := FromBool(res1);
    var (bor1, d1) := SubBorrow(bor0, t.r11, N[1]);
    var (bor2, d2) := SubBorrow(bor1, t.r12, N[2]);
    var (bor3, d3) := SubBorrow(bor2, t.r13, N[3]);
    var (bor4, d4) := SubBorrow(bor3, t.r14, N[4]);
    var (b5, d5) := SubBorrow(bor4, t.r15, N[5]);
    SubChain(t.r10, t.r11, t.r12, t.r13, t.r14, t.r15, N[0], N[1], N[2], N[3], N[4], N[5],
             d0, d1, d2, d3, d4, d5, bor0, bor1, bor2, bor3, bor4, b5);
    ModulusWords();
    d, bor5 := Regs6(d0, d1, d2, d3, d4, d5), b5;
  }

  /** The final step: when `bor5 != 0` the registers themselves are the
      result. On an accumulator below 2N this reduces modulo N. */
  method IxFinalSubtract(t: Regs6) returns (r: Regs6)
    requires Regs6Value(t) < 2 * MODULUS
    ensures Regs6Value(r) == Regs6Value(t) % MODULUS
  {
    var d, bor5 := IxSubtractN(t);
    CondSubtract(Regs6Value(t), Regs6Value(d), bor5 != 0);
    r := if bor5 != 0 then t else d;
  }

  /** One iteration of the `for i in 1..6` loop of
      `fe_mont_mul_intrinsics`: a multiply-accumulate row and a reduction
      row take the registers from the CIOS accumulator after i rounds to the
      one after i + 1. */
  method IxRound(a: W6x64, b: W6x64, av: Regs6, i: nat, t: Regs6) returns (next: Regs6)
    requires Reduced(a) && 1 <= i < 6 && Regs6Value(av) == Value(a)
    requires Regs6Value(t) == Acc(a, b, i)
    ensures Regs6Value(next) == Acc(a, b, i + 1)
  {
    AccBound(a, b, i);
    var w := IxMulAddRow(t, av, b.v[i]);
    RoundInput(a, b, i);
    next := IxReduceRow(w);
    ReduceIsRound(a, b, i, w, next);
  }

  /** The `_subborrow_u64` chain and restore, applied to the accumulator
      after six rounds, store the Montgomery product. */
  method IxFinish(a: W6x64, b: W6x64, t: Regs6) returns (result: W6x64)
    requires Reduced(a) && Regs6Value(t) == Acc(a, b, 6)
    ensures Value(result) == MontMul(Value(a), Value(b))
    ensures Reduced(result)
  {
    CiosIsMontProduct(a, b);
    var r := IxFinalSubtract(t);
    result := Store(r);
  }

  /** `fe_mont_mul_intrinsics`: the Montgomery product a·b·R^-1 mod N, for a
      below N and any b. */
  method FeMontMulIntrinsics(a: W6x64, b: W6x64) returns (result: W6x64)
    requires Reduced(a)
    ensures Value(result) == MontMul(Value(a), Value(b))
    ensures Reduced(result)
  {
    var av := Load(a);
    var w := IxMulRow0(av, b.v[0]);
    RoundInput(a, b, 0);
    var t := IxReduceRow(w);
    ReduceIsRound(a, b, 0, w, t);
    for i := 1 to 6
      invariant Regs6Value(t) == Acc(a, b, i)
    {
      t := IxRound(a, b, av, i, t);
    }
    result := IxFinish(a, b, t);
  }
}
