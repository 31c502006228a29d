/** The kernel of the first crate (`mont1/src/arith.rs`). Addition and
    subtraction are the loops of the second crate spelled with
    `if carry { 1 } else { 0 }` for `u64::from(carry)`, which is the same
    word, so they share its chain loops. Multiplication differs in two
    places: the carries are added into word i+6 with a checked `+=`, and the
    final borrow is kept as a `u64` whose negation is the select mask. */
module Mont1Arith {
  import opened Words
  import opened Limbs
  import opened Constants
  import opened Field
  import opened Cios
  import opened Chains

  /** `fe_add`: sum, trial subtraction of N, masked select. */
  method FeAdd(a: W6x64, b: W6x64) returns (result: W6x64)
    requires Reduced(a) && Reduced(b)
    ensures Value(result) == AddMod(Value(a), Value(b))
    ensures Reduced(result)
  {
    var sum, carry := AddLimbs(a.v, b.v);
    SumFits(Val(sum), carry, Value(a), Value(b));
    NoLimbAllOnes();
    var trial, borrow := SubFoldedBorrow(sum, N);
    ModulusFacts();
    RIsPow6();
    CondSubtract(Val(sum), Val(trial), borrow);
    var selectSum := WrappingNeg(FromBool(borrow));
    FlagMask(borrow);
    var res := SelectLimbs(selectSum, trial, sum);
    result := W6x64(res);
  }

  /** `fe_sub`: difference, then subtraction of the masked 2^384 - N. */
  method FeSub(a: W6x64, b: W6x64) returns (result: W6x64)
    requires Reduced(a) && Reduced(b)
    ensures Value(result) == SubMod(Value(a), Value(b))
    ensures Reduced(result)
  {
    var diff, borrowDiff := SubLimbs(a.v, b.v);
    var mask := WrappingNeg(FromBool(borrowDiff));
    FlagMask(borrowDiff);
    CorrectionFacts();
    NoLimbAllOnes();
    var masked := MaskLimbs(mask, CORRECTION);
    ValZeros(6);
    var res, borrowFix := SubFoldedBorrow(diff, masked);
    RIsPow6();
    CorrectedDifference(Value(a), Value(b), Val(diff), borrowDiff, Val(masked), Val(res), borrowFix);
    result := W6x64(res);
  }

  /** `fe_mont_mul`: the same six CIOS rounds as the second crate, with the
      round carries added by a checked `+=`, then the final subtraction with
      a `u64` borrow. */
  method FeMontMul(a: W6x64, b: W6x64) returns (result: W6x64)
    requires Reduced(a)
    ensures Value(result) == MontMul(Value(a), Value(b))
    ensures Reduced(result)
  {
    var temp: seq<u64> := seq(12, _ => 0);
    ZeroTemp(temp, a, b);
    for i := 0 to 6
      invariant |temp| == 12 && TempHolds(temp, a, b, i)
    {
      temp := MontRound(temp, a, b, i);
    }
    var hi := temp[6..];
    TopHalf(temp, a, b, hi);
    NoLimbAllOnes();
    var dec, borrow := SubWordBorrow(hi, N);
    ModulusFacts();
    RIsPow6();
    CondSubtract(Val(hi), Val(dec), borrow == 1);
    var selectTemp := WrappingNeg(borrow);
    FlagMask(borrow == 1);
    var res := SelectLimbsSwapped(selectTemp, dec, hi);
    result := W6x64(res);
  }

  /** One iteration of the outer loop of `fe_mont_mul`. Each `temp[i + 6] +=
      carry` is a checked addition, so the model must show it never exceeds
      a word: the first lands in an empty word, the second stays below 2^64
      because the round value is below 2N·2^64. */
  method MontRound(temp: seq<u64>, a: W6x64, b: W6x64, i: nat) returns (next: seq<u64>)
    requires Reduced(a) && i < 6 && i + 6 < |temp| && TempHolds(temp, a, b, i)
    ensures |next| == |temp| && TempHolds(next, a, b, i + 1)
  {
    var t1, carry1 := MulAccumulate(temp, i, a.v, b.v[i]);
    CarrySlotEmpty(temp, a, b, i, t1);
    var t2 := t1[i + 6 := t1[i + 6] + carry1];
    assert t2 == t1[i + 6 := WrappingAdd(t1[i + 6], carry1)];
    FirstHalf(temp, a, b, i, t1, carry1, t2);

    var m := WrappingMul(t2[i], N_PRIME);

    var t3, carry2 := MulAccumulate(t2, i, N, m);
    SecondHalf(t2, a, b, i, t3, carry2);
    next := t3[i + 6 := t3[i + 6] + carry2];
    assert next == t3[i + 6 := WrappingAdd(t3[i + 6], carry2)];
  }

  /** The final borrow chain of `fe_mont_mul` with the borrow held as a word:
      `overflowing_sub(y[j] + borrow)` then `borrow = u64::from(flag)`. */
  method SubWordBorrow(x: seq<u64>, y: seq<u64>) returns (diff: seq<u64>, borrow: u64)
    requires |x| == |y|
    requires forall i :: 0 <= i < |y| ==> y[i] < MAX
    ensures |diff| == |x| && borrow <= 1
    ensures Val(diff) - borrow * Pow(|x|) == Val(x) - Val(y)
  {
    diff := seq(|x|, _ => 0);
    borrow := 0;
    for j := 0 to |x|
      invariant |diff| == |x| && borrow <= 1
      invariant Val(diff[..j]) - borrow * Pow(j) == Val(x[..j]) - Val(y[..j])
    {
      var (d, borrowT0) := OverflowingSub(x[j], y[j] + borrow);
      SubStep(diff, x, y, j, borrow, d, FromBool(borrowT0));
      diff := diff[j := d];
      borrow := FromBool(borrowT0);
    }
    assert diff[..|x|] == diff && x[..|x|] == x && y[..|x|] == y;
  }

  /** `fe_to_mont`: Montgomery multiplication by R^2 mod N. */
  method FeToMont(a: Limbs6) returns (result: W6x64)
    requires Val(a) < MODULUS
    ensures Value(result) == ToMont(Val(a))
    ensures Reduced(result)
  {
    RSquaredFacts();
    result := FeMontMul(W6x64(a), W6x64(R_SQUARED));
    MontMulByRSquared(Val(a));
  }

  /** `fe_to_norm`: Montgomery multiplication by one. */
  method FeToNorm(a: W6x64) returns (result: Limbs6)
    requires Reduced(a)
    ensures Val(result) == ToNorm(Value(a))
    ensures Val(result) < MODULUS
  {
    OneFacts();
    var w6x64Result := FeMontMul(a, W6x64(ONE));
    MontMulByOne(Value(a));
    result := w6x64Result.v;
  }
}
