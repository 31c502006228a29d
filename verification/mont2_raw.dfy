/** `fe_mont_mul_raw` of the `mont2` crate: the CIOS multiplication flattened
    into straight-line word operations on the registers r10..r16, with the
    `mulx!`, `full_add!`, `full_add2!` and `full_sub!` macros. Round 0 is a
    plain multiply row, rounds 1..5 are multiply-accumulate rows, and every
    round ends with the same reduction row; the carries that the code drops
    or lets wrap are proved to be zero. */
module Mont2Raw {
  import opened Words
  import opened Limbs
  import opened Constants
  import opened Field
  import opened Cios
  import opened Chains
  import opened Registers

  /** The high and the low words of the six products of one row. */
  datatype Products = Products(hi: Regs6, lo: Regs6)

  /** Six `mulx!` lines: every limb of a times the word y, each 128-bit
      product split into its high and low word. */
  method MulRow(a: Regs6, y: u64) returns (p: Products)
    ensures Regs6Value(p.lo) + BASE * Regs6Value(p.hi) == Regs6Value(a) * y
    ensures p.hi.r15 < MAX
  {
    var (h0, l0) := MulWide(a.r10, y);
    var (h1, l1) := MulWide(a.r11, y);
    var (h2, l2) := MulWide(a.r12, y);
    var (h3, l3) := MulWide(a.r13, y);
    var (h4, l4) := MulWide(a.r14, y);
    var (h5, l5) := MulWide(a.r15, y);
    SplitProducts(a.r10, a.r11, a.r12, a.r13, a.r14, a.r15, y, h0, h1, h2, h3, h4, h5, l0, l1, l2, l3, l4, l5);
    p := Products(Regs6(h0, h1, h2, h3, h4, h5), Regs6(l0, l1, l2, l3, l4, l5));
  }

  /** The first chain of a row: an `overflowing_add` and four `full_add!`s
      add the high words one word up into r11..r15, and the last high word
      plus the final carry, by `wrapping_add`, becomes the top word. The
      last high word is never all ones, so the top never wraps. */
  method AddHigh(t: Regs6, hi: Regs6) returns (w: Regs7)
    requires hi.r15 < MAX
    ensures Regs7Value(w) == Regs6Value(t) + BASE * Regs6Value(hi)
    ensures w.low.r10 == t.r10
  {
    var (s1, c1) := OverflowingAdd(t.r11, hi.r10);
    var (s2, c2) := FullAdd(c1, t.r12, hi.r11);
    var (s3, c3) := FullAdd(c2, t.r13, hi.r12);
    var (s4, c4) := FullAdd(c3, t.r14, hi.r13);
    var (s5, c5) := FullAdd(c4, t.r15, hi.r14);
    var top := WrappingAdd(hi.r15, FromBool(c5));
    ShiftedChain(t.r11, t.r12, t.r13, t.r14, t.r15, hi.r10, hi.r11, hi.r12, hi.r13, hi.r14, hi.r15,
                 s1, s2, s3, s4, s5, top,
                 FromBool(c1), FromBool(c2), FromBool(c3), FromBool(c4), FromBool(c5));
    w := Regs7(Regs6(t.r10, s1, s2, s3, s4, s5), top);
    HighSplit(t, hi, w.low, top);
  }

  /** The second chain of a row: an `overflowing_add` and five `full_add!`s
      (or `full_add2!`s) add the low words in place; the carry out is
      returned. */
  method AddLow(t: Regs6, lo: Regs6) returns (u: Regs6, carry: bool)
    ensures Regs6Value(u) + FromBool(carry) * R == Regs6Value(t) + Regs6Value(lo)
  {
    var (s0, c1) := OverflowingAdd(t.r10, lo.r10);
    var (s1, c2) := FullAdd(c1, t.r11, lo.r11);
    var (s2, c3) := FullAdd(c2, t.r12, lo.r12);
    var (s3, c4) := FullAdd(c3, t.r13, lo.r13);
    var (s4, c5) := FullAdd(c4, t.r14, lo.r14);
    var (s5, c6) := FullAdd(c5, t.r15, lo.r15);
    AddChain(t.r10, t.r11, t.r12, t.r13, t.r14, t.r15, lo.r10, lo.r11, lo.r12, lo.r13, lo.r14, lo.r15,
             s0, s1, s2, s3, s4, s5,
             0, FromBool(c1), FromBool(c2), FromBool(c3), FromBool(c4), FromBool(c5), FromBool(c6));
    u, carry := Regs6(s0, s1, s2, s3, s4, s5), c6;
  }

  /** The number a row of products stands for. */
  function ProductsValue(p: Products): nat
  {
    Regs6Value(p.lo) + BASE * Regs6Value(p.hi)
  }

  /** Round 0 multiply row: a·b[0] into r10a..r15b and r16a. */
  method MulRow0(a: Regs6, b0: u64) returns (w: Regs7)
    ensures Regs7Value(w) == Regs6Value(a) * b0
  {
    var p := MulRow(a, b0);
    w := AddHigh(p.lo, p.hi);
  }

  /** The two chains of a multiply-accumulate row: the high words added one
      word up, then the low words in place, and the final carry added to the
      top word by `wrapping_add`. Below 2^448 the top word never wraps. */
  method AddRow(t: Regs6, p: Products) returns (w: Regs7)
    requires p.hi.r15 < MAX
    requires Regs6Value(t) + ProductsValue(p) < R * BASE
    ensures Regs7Value(w) == Regs6Value(t) + ProductsValue(p)
  {
    var s := AddHigh(t, p.hi);
    var u, carry := AddLow(s.low, p.lo);
    w := Regs7(u, WrappingAdd(s.r16, FromBool(carry)));
    TopFits(t, p, s, u, carry, w);
  }

  /** Adding the two chains' results: the carries land in the top word,
      which fits when the total is below 2^448. */
  lemma TopFits(t: Regs6, p: Products, s: Regs7, u: Regs6, carry: bool, w: Regs7)
    requires Regs6Value(t) + ProductsValue(p) < R * BASE
    requires Regs7Value(s) == Regs6Value(t) + BASE * Regs6Value(p.hi)
    requires Regs6Value(u) + FromBool(carry) * R == Regs6Value(s.low) + Regs6Value(p.lo)
    requires w == Regs7(u, WrappingAdd(s.r16, FromBool(carry)))
    ensures Regs7Value(w) == Regs6Value(t) + ProductsValue(p)
  {
    TopArith(Regs6Value(u), Regs6Value(s.low), s.r16, FromBool(carry), Regs6Value(t), Regs6Value(p.lo), Regs6Value(p.hi));
  }

  /** TopFits on numbers. */
  lemma TopArith(vu: nat, sl: int, s16: int, c: int, vt: int, lo: int, hi: int)
    requires sl + R * s16 == vt + BASE * hi
    requires vu + c * R == sl + lo
    requires vt + (lo + BASE * hi) < R * BASE
    ensures vu + R * (s16 + c) == vt + (lo + BASE * hi)
    ensures s16 + c < BASE
  {
  }

  /** The multiply-accumulate row of rounds 1..5: the accumulator plus a·bi.
      With the accumulator below 2N and a below N the sum stays below
      (2^64 + 1)·N < 2^448. */
  method MulAddRow(t: Regs6, a: Regs6, bi: u64) returns (w: Regs7)
    requires Regs6Value(t) < 2 * MODULUS && Regs6Value(a) < MODULUS
    ensures Regs7Value(w) == Regs6Value(t) + Regs6Value(a) * bi
  {
    var p := MulRow(a, bi);
    RowBound(Regs6Value(t), Regs6Value(a), bi);
    w := AddRow(t, p);
  }

  /** t + x·y < (2^64 + 1)·N for an accumulator t below 2N, x below N and
      one word y. */
  lemma RowBound(t: int, x: int, y: u64)
    requires 0 <= t < 2 * MODULUS && 0 <= x < MODULUS
    ensures t + x * y < (BASE + 1) * MODULUS
  {
    MulMonotone(y, x, MODULUS - 1);
    MulMonotone(MODULUS - 1, y, MAX);
  }

  /** The prime N in registers (the `N[j]` operands of the reduction rows). */
  const Modulus6: Regs6 := Regs6(N[0], N[1], N[2], N[3], N[4], N[5])

  /** The six `mulx!`s of N by the digit rdx. */
  method MulRowN(rdx: u64) returns (p: Products)
    ensures ProductsValue(p) == MODULUS * rdx
    ensures p.hi.r15 < MAX
  {
    assert Regs6Value(Modulus6) == MODULUS;
    p := MulRow(Modulus6, rdx);
  }

  /** The reduction row: rdx = N'·r10 (`N_PRIME.wrapping_mul(r10a)`), six
      `mulx!`s of N by rdx, and the two chains that add rdx·N and drop the
      low word. The result is the input plus rdx·N, divided by 2^64. */
  method ReduceRow(x: Regs7) returns (r: Regs6)
    requires Regs7Value(x) < (BASE + 1) * MODULUS
    ensures Regs6Value(r) * BASE == Regs7Value(x) + Digit(x.low.r10) * MODULUS
    ensures Regs6Value(r) < 2 * MODULUS
  {
    var rdx := WrappingMul(N_PRIME, x.low.r10);
    DigitCommutes(x.low.r10, rdx);
    var p := MulRowN(rdx);
    r := ReduceChains(x, rdx, p);
  }

  /** `N_PRIME.wrapping_mul(r10)` is the CIOS digit of r10, so adding that
      multiple of N clears the low word. */
  lemma DigitCommutes(low: u64, rdx: u64)
    requires rdx == WrappingMul(N_PRIME, low)
    ensures rdx == Digit(low)
    ensures (low + rdx * MODULUS) % BASE == 0
  {
  }

  /** The two chains of a reduction row: the high words of rdx·N added one
      word up with the old top word added by `wrapping_add`, then the low
      words, whose first sum is discarded, and the last carry added to the
      top word. */
  method ReduceChains(x: Regs7, rdx: u64, p: Products) returns (r: Regs6)
    requires Regs7Value(x) < (BASE + 1) * MODULUS
    requires (x.low.r10 + rdx * MODULUS) % BASE == 0
    requires ProductsValue(p) == MODULUS * rdx && p.hi.r15 < MAX
    ensures Regs6Value(r) * BASE == Regs7Value(x) + rdx * MODULUS
    ensures Regs6Value(r) < 2 * MODULUS
  {
    var s := AddHigh(x.low, p.hi);
    var r16b := WrappingAdd(s.r16, x.r16);
    var u, carry := AddLow(s.low, p.lo);
    r := Regs6(u.r11, u.r12, u.r13, u.r14, u.r15, WrappingAdd(r16b, FromBool(carry)));
    ReduceFits(x, rdx, p, s, u, carry, r16b, r);
  }

  /** The arithmetic of a reduction row: the discarded low word is zero, so
      the five kept words and the summed top word are the input plus rdx·N
      divided by 2^64, below 2N, and the top word fits. */
  lemma ReduceFits(x: Regs7, rdx: u64, p: Products, s: Regs7, u: Regs6, carry: bool, r16b: u64, r: Regs6)
    requires Regs7Value(x) < (BASE + 1) * MODULUS
    requires (x.low.r10 + rdx * MODULUS) % BASE == 0
    requires ProductsValue(p) == MODULUS * rdx
    requires Regs7Value(s) == Regs6Value(x.low) + BASE * Regs6Value(p.hi)
    requires Regs6Value(u) + FromBool(carry) * R == Regs6Value(s.low) + Regs6Value(p.lo)
    requires r16b == WrappingAdd(s.r16, x.r16)
    requires r == Regs6(u.r11, u.r12, u.r13, u.r14, u.r15, WrappingAdd(r16b, FromBool(carry)))
    ensures Regs6Value(r) * BASE == Regs7Value(x) + rdx * MODULUS
    ensures Regs6Value(r) < 2 * MODULUS
  {
    var top := s.r16 + x.r16 + FromBool(carry);
    ReduceValue(x, rdx, p, s.low, s.r16, u, FromBool(carry));
    NoWrap2(s.r16, x.r16, FromBool(carry), r16b, r.r15);
  }

  /** Two `wrapping_add`s whose exact sum fits do not wrap. */
  lemma NoWrap2(x: u64, y: u64, c: u64, xy: u64, r: u64)
    requires x + y + c < BASE
    requires xy == WrappingAdd(x, y) && r == WrappingAdd(xy, c)
    ensures r == x + y + c
  {
  }

  /** The value of a reduction row before its top word is placed: with the
      high chain's registers sl and top word s16, and the low chain's words u
      and carry c, the words u[1..5] under the top word s16 + x16 + c are
      the input plus rdx·N divided by 2^64; they are below 2N and the top
      word fits. */
  lemma ReduceValue(x: Regs7, rdx: u64, p: Products, sl: Regs6, s16: nat, u: Regs6, c: nat)
    requires Regs7Value(x) < (BASE + 1) * MODULUS
    requires (x.low.r10 + rdx * MODULUS) % BASE == 0
    requires ProductsValue(p) == MODULUS * rdx
    requires Regs6Value(sl) + R * s16 == Regs6Value(x.low) + BASE * Regs6Value(p.hi)
    requires Regs6Value(u) + c * R == Regs6Value(sl) + Regs6Value(p.lo)
    ensures s16 + x.r16 + c < BASE
    ensures H6(u.r11, u.r12, u.r13, u.r14, u.r15, s16 + x.r16 + c) * BASE == Regs7Value(x) + rdx * MODULUS
    ensures H6(u.r11, u.r12, u.r13, u.r14, u.r15, s16 + x.r16 + c) < 2 * MODULUS
  {
    var top := s16 + x.r16 + c;
    var xr := H6(x.low.r11, x.low.r12, x.low.r13, x.low.r14, x.low.r15, 0);
    var ur := H6(u.r11, u.r12, u.r13, u.r14, u.r15, 0);
    ReduceSplit(x, u, top);
    ReduceArith(Regs7Value(x), x.low.r10, xr, rdx, Regs6Value(p.hi), Regs6Value(p.lo),
                Regs6Value(sl), s16, x.r16, c, u.r10, ur, H6(u.r11, u.r12, u.r13, u.r14, u.r15, top));
  }

  /** The input registers split at the low word, the output registers at the
      low and the top word. */
  lemma ReduceSplit(x: Regs7, u: Regs6, top: int)
    ensures Regs6Value(x.low) == x.low.r10 + BASE * H6(x.low.r11, x.low.r12, x.low.r13, x.low.r14, x.low.r15, 0)
    ensures Regs7Value(x) == x.low.r10 + BASE * H6(x.low.r11, x.low.r12, x.low.r13, x.low.r14, x.low.r15, 0) + R * x.r16
    ensures Regs6Value(u) == u.r10 + BASE * H6(u.r11, u.r12, u.r13, u.r14, u.r15, 0)
    ensures H6(u.r11, u.r12, u.r13, u.r14, u.r15, top) == H6(u.r11, u.r12, u.r13, u.r14, u.r15, 0) + W5 * top
  {
    H6Low(x.low.r10, x.low.r11, x.low.r12, x.low.r13, x.low.r14, x.low.r15);
    H6Low(u.r10, u.r11, u.r12, u.r13, u.r14, u.r15);
    H6Top(u.r11, u.r12, u.r13, u.r14, u.r15, top);
  }

  /** ReduceFits on numbers. */
  lemma ReduceArith(v: int, x0: u64, xr: int, d: u64, hi: int, lo: int,
                    sl: int, s16: nat, x16: u64, c: int, u0: u64, ur: int, q: int)
    requires v < (BASE + 1) * MODULUS && 0 <= sl
    requires (x0 + d * MODULUS) % BASE == 0
    requires v == x0 + BASE * xr + R * x16
    requires lo + BASE * hi == MODULUS * d
    requires sl + R * s16 == x0 + BASE * xr + BASE * hi
    requires u0 + BASE * ur + c * R == sl + lo && 0 <= c && 0 <= ur
    requires q == ur + W5 * (s16 + x16 + c)
    ensures u0 == 0 && q * BASE == v + d * MODULUS
    ensures q < 2 * MODULUS && s16 + x16 + c < BASE
  {
    var k := (x0 + d * MODULUS) / BASE;
    assert x0 + d * MODULUS == k * BASE;
    assert u0 == BASE * (k + xr - ur - W5 * (s16 + c));
  }

  /** The subtraction chain of the final step: an `overflowing_sub` and five
      `full_sub!`s take N from the registers. */
  method SubtractN(t: Regs6) returns (d: Regs6, bor5: bool)
    ensures Regs6Value(d) - FromBool(bor5) * R == Regs6Value(t) - MODULUS
  {
    var (d0, bor0) := OverflowingSub(t.r10, N[0]);
    var (d1, bor1) := FullSub(bor0, t.r11, N[1]);
    var (d2, bor2) := FullSub(bor1, t.r12, N[2]);
    var (d3, bor3) := FullSub(bor2, t.r13, N[3]);
    var (d4, bor4) := FullSub(bor3, t.r14, N[4]);
    var (d5, b5) := FullSub(bor4, t.r15, N[5]);
    SubChain(t.r10, t.r11, t.r12, t.r13, t.r14, t.r15, N[0], N[1], N[2], N[3], N[4], N[5],
             d0, d1, d2, d3, d4, d5,
             FromBool(bor0), FromBool(bor1), FromBool(bor2), FromBool(bor3), FromBool(bor4), FromBool(b5));
    ModulusWords();
    d, bor5 := Regs6(d0, d1, d2, d3, d4, d5), b5;
  }

  /** The final step: when the last borrow of the subtraction is set the
      registers themselves are the result (the `if bor5` copy). On an
      accumulator below 2N this reduces modulo N. */
  method FinalSubtract(t: Regs6) returns (r: Regs6)
    requires Regs6Value(t) < 2 * MODULUS
    ensures Regs6Value(r) == Regs6Value(t) % MODULUS
  {
    var d, bor5 := SubtractN(t);
    CondSubtract(Regs6Value(t), Regs6Value(d), bor5);
    r := if bor5 then t else d;
  }

  /** The bound a reduction row needs holds for every round's input. */
  lemma RoundInput(a: W6x64, b: W6x64, i: nat)
    requires Reduced(a) && i < 6
    ensures Acc(a, b, i) + Value(a) * b.v[i] < (BASE + 1) * MODULUS
  {
    AccBound(a, b, i);
    RowBound(Acc(a, b, i), Value(a), b.v[i]);
  }

  /** A multiply row followed by a reduction row is one CIOS round: the
      register r10 is the low word of the row, so `N_PRIME.wrapping_mul(r10)`
      is the round's digit. */
  lemma ReduceIsRound(a: W6x64, b: W6x64, i: nat, w: Regs7, t: Regs6)
    requires Reduced(a) && i < 6
    requires Regs7Value(w) == Acc(a, b, i) + Value(a) * b.v[i]
    requires Regs6Value(t) * BASE == Regs7Value(w) + Digit(w.low.r10) * MODULUS
    ensures Regs6Value(t) == Acc(a, b, i + 1)
  {
    LowWord(w);
    AccBound(a, b, i);
    RoundFacts(Acc(a, b, i), Value(a), b.v[i]);
  }

  /** r10 is the low word of the seven registers. */
  lemma LowWord(w: Regs7)
    ensures w.low.r10 == Regs7Value(w) % BASE
  {
    var x := w.low;
    H6Low(x.r10, x.r11, x.r12, x.r13, x.r14, x.r15);
    var q := H6(x.r11, x.r12, x.r13, x.r14, x.r15, 0) + W5 * w.r16;
    assert Regs7Value(w) == x.r10 + BASE * q;
    DivModUnique(Regs7Value(w), BASE, q, x.r10);
  }

  /** One iteration of the `for i in 1..6` loop of `fe_mont_mul_raw`: a
      multiply-accumulate row and a reduction row take the registers from
      the CIOS accumulator after i rounds to the one after i + 1. */
  method RawRound(a: W6x64, b: W6x64, av: Regs6, i: nat, t: Regs6) returns (next: Regs6)
    requires Reduced(a) && 1 <= i < 6 && Regs6Value(av) == Value(a)
    requires Regs6Value(t) == Acc(a, b, i)
    ensures Regs6Value(next) == Acc(a, b, i + 1)
  {
    AccBound(a, b, i);
    var w := MulAddRow(t, av, b.v[i]);
    RoundInput(a, b, i);
    next := ReduceRow(w);
    ReduceIsRound(a, b, i, w, next);
  }

  /** The final subtraction and restore of `fe_mont_mul_raw`, applied to the
      accumulator after six rounds, stores the Montgomery product. */
  method RawFinish(a: W6x64, b: W6x64, t: Regs6) returns (result: W6x64)
    requires Reduced(a) && Regs6Value(t) == Acc(a, b, 6)
    ensures Value(result) == MontMul(Value(a), Value(b))
    ensures Reduced(result)
  {
    CiosIsMontProduct(a, b);
    var r := FinalSubtract(t);
    result := Store(r);
  }

  /** `fe_mont_mul_raw`: round 0 (a multiply row and a reduction row), the
      `for i in 1..6` loop of multiply-accumulate and reduction rows, and the
      final subtraction. Every round keeps the registers equal to the CIOS
      accumulator, so the result is the Montgomery product. */
  method FeMontMulRaw(a: W6x64, b: W6x64) returns (result: W6x64)
    requires Reduced(a)
    ensures Value(result) == MontMul(Value(a), Value(b))
    ensures Reduced(result)
  {
    var av := Load(a);
    var w := MulRow0(av, b.v[0]);
    RoundInput(a, b, 0);
    var t := ReduceRow(w);
    ReduceIsRound(a, b, 0, w, t);
    for i := 1 to 6
      invariant Regs6Value(t) == Acc(a, b, i)
    {
      t := RawRound(a, b, av, i, t);
    }
    result := RawFinish(a, b, t);
  }
}
