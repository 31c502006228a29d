/** The portable kernel of the second crate (`mont2/src/arith.rs`): addition,
    subtraction, conversion into and out of the Montgomery domain, and the
    loop-based Montgomery multiplication `fe_mont_mul`. Each `&mut` result
    parameter is modelled as a returned value; fixed arrays are sequences of
    the same length. */
module Mont2Arith {
  import opened Words
  import opened Limbs
  import opened Constants
  import opened Field
  import opened Cios
  import opened Chains

  /** `fe_add`: a carry chain producing the sum, a borrow chain subtracting
      N from it, and a masked select of the sum when that subtraction
      borrowed. */
  method FeAdd(a: W6x64, b: W6x64) returns (result: W6x64)
    requires Reduced(a) && Reduced(b)
    ensures Value(result) == AddMod(Value(a), Value(b))
    ensures Reduced(result)
  {
    var sum, carry := AddLimbs(a.v, b.v);
    SumFits(Val(sum), carry, Value(a), Value(b));
    NoLimbAllOnes();
    var trial, borrow := SubFoldedBorrow(sum, N);
    ModulusFacts();
    RIsPow6();
    CondSubtract(Val(sum), Val(trial), borrow);
    var selectSum := WrappingNeg(FromBool(borrow));
    FlagMask(borrow);
    var res := SelectLimbs(selectSum, trial, sum);
    result := W6x64(res);
  }

  /** `fe_sub`: a borrow chain producing the difference, then a second chain
      subtracting 2^384 - N masked by the first chain's borrow, which adds N
      modulo 2^384 exactly when the difference went negative. The second
      chain's final borrow is discarded, and is never set. */
  method FeSub(a: W6x64, b: W6x64) returns (result: W6x64)
    requires Reduced(a) && Reduced(b)
    ensures Value(result) == SubMod(Value(a), Value(b))
    ensures Reduced(result)
  {
    var diff, borrowSub := SubLimbs(a.v, b.v);
    var mask := WrappingNeg(FromBool(borrowSub));
    FlagMask(borrowSub);
    CorrectionFacts();
    NoLimbAllOnes();
    var masked := MaskLimbs(mask, CORRECTION);
    ValZeros(6);
    var res, borrowFix := SubFoldedBorrow(diff, masked);
    RIsPow6();
    CorrectedDifference(Value(a), Value(b), Val(diff), borrowSub, Val(masked), Val(res), borrowFix);
    result := W6x64(res);
  }

  /** `fe_mont_mul`: six CIOS rounds over a twelve-word `temp` array, then a
      borrow chain subtracting N from the upper six words and a masked
      select of those words when it borrowed. */
  method FeMontMul(a: W6x64, b: W6x64) returns (result: W6x64)
    requires Reduced(a)
    ensures Value(result) == MontMul(Value(a), Value(b))
    ensures Reduced(result)
  {
    var temp: seq<u64> := seq(12, _ => 0);
    ZeroTemp(temp, a, b);
    for i := 0 to 6
      invariant |temp| == 12 && TempHolds(temp, a, b, i)
    {
      temp := MontRound(temp, a, b, i);
    }
    var hi := temp[6..];
    TopHalf(temp, a, b, hi);
    NoLimbAllOnes();
    var dec, borrow := SubFoldedBorrow(hi, N);
    ModulusFacts();
    RIsPow6();
    CondSubtract(Val(hi), Val(dec), borrow);
    var selectTemp := WrappingNeg(FromBool(borrow));
    FlagMask(borrow);
    var res := SelectLimbsSwapped(selectTemp, dec, hi);
    result := W6x64(res);
  }

  /** One iteration of the outer `for i in 0..6` loop of `fe_mont_mul`:
      accumulate a·b[i] and wrap-add its carry into word i+6, choose
      m = temp[i]·N' mod 2^64, accumulate m·N and wrap-add that carry too.
      Neither wrapping add wraps, and the array moves on to the next CIOS
      accumulator. */
  method MontRound(temp: seq<u64>, a: W6x64, b: W6x64, i: nat) returns (next: seq<u64>)
    requires Reduced(a) && i < 6 && i + 6 < |temp| && TempHolds(temp, a, b, i)
    ensures |next| == |temp| && TempHolds(next, a, b, i + 1)
  {
    var t1, carry1 := MulAccumulate(temp, i, a.v, b.v[i]);
    var t2 := t1[i + 6 := WrappingAdd(t1[i + 6], carry1)];
    FirstHalf(temp, a, b, i, t1, carry1, t2);

    var m := WrappingMul(t2[i], N_PRIME);

    var t3, carry2 := MulAccumulate(t2, i, N, m);
    SecondHalf(t2, a, b, i, t3, carry2);
    next := t3[i + 6 := WrappingAdd(t3[i + 6], carry2)];
  }

  /** `fe_to_mont`: Montgomery multiplication by R^2 mod N. */
  method FeToMont(a: Limbs6) returns (result: W6x64)
    requires Val(a) < MODULUS
    ensures Value(result) == ToMont(Val(a))
    ensures Reduced(result)
  {
    RSquaredFacts();
    result := FeMontMul(W6x64(a), W6x64(R_SQUARED));
    MontMulByRSquared(Val(a));
  }

  /** `fe_to_norm`: Montgomery multiplication by one. */
  method FeToNorm(a: W6x64) returns (result: Limbs6)
    requires Reduced(a)
    ensures Val(result) == ToNorm(Value(a))
    ensures Val(result) < MODULUS
  {
    OneFacts();
    var resultW6x64 := FeMontMul(a, W6x64(ONE));
    MontMulByOne(Value(a));
    result := resultW6x64.v;
  }
}
