/** The kernels side by side: the three multiplication tiers of the second
    crate and the loop-based multiplication of the first produce the same six
    words for every pair of reduced operands, the two crates' additions,
    subtractions and conversions agree word for word, and conversion into the
    Montgomery domain and back returns the original limbs. */
module Tiers {
  import opened Words
  import opened Limbs
  import opened Constants
  import opened Field
  import Mont1Arith
  import Mont2Arith
  import Mont2Raw
  import Mont2Intrinsics

  /** The Montgomery product undoes one factor of R: result·R ≡ a·b (mod N). */
  lemma MontMulTimesR(x: nat, y: nat)
    ensures (MontMul(x, y) * R) % MODULUS == (x * y) % MODULUS
  {
    RInverse();
    ModMulLeft(x * y * R_INV, R, MODULUS);
    CancelInverse(x * y, MODULUS, R, R_INV, N_INV_NEG);
  }

  /** All four multiplication kernels return the same words, and that
      result times R is congruent to a·b modulo N. */
  method MulTiersAgree(a: W6x64, b: W6x64)
    returns (reference: W6x64, raw: W6x64, intrinsics: W6x64, first: W6x64)
    requires Reduced(a) && Reduced(b)
    ensures raw == reference && intrinsics == reference && first == reference
    ensures (Value(reference) * R) % MODULUS == (Value(a) * Value(b)) % MODULUS
    ensures Reduced(reference)
  {
    reference := Mont2Arith.FeMontMul(a, b);
    raw := Mont2Raw.FeMontMulRaw(a, b);
    intrinsics := Mont2Intrinsics.FeMontMulIntrinsics(a, b);
    first := Mont1Arith.FeMontMul(a, b);
    ValueInjective(raw, reference);
    ValueInjective(intrinsics, reference);
    ValueInjective(first, reference);
    MontMulTimesR(Value(a), Value(b));
  }

  /** The first crate's addition and subtraction return the same words as
      the second's. */
  method AddSubAgree(a: W6x64, b: W6x64)
    returns (sum1: W6x64, sum2: W6x64, diff1: W6x64, diff2: W6x64)
    requires Reduced(a) && Reduced(b)
    ensures sum1 == sum2 && diff1 == diff2
    ensures Value(sum2) == (Value(a) + Value(b)) % MODULUS
    ensures Value(diff2) == (Value(a) + MODULUS - Value(b)) % MODULUS
  {
    sum1 := Mont1Arith.FeAdd(a, b);
    sum2 := Mont2Arith.FeAdd(a, b);
    diff1 := Mont1Arith.FeSub(a, b);
    diff2 := Mont2Arith.FeSub(a, b);
    ValueInjective(sum1, sum2);
    ValueInjective(diff1, diff2);
    ModAddMultiple(Value(a) - Value(b), 1, MODULUS);
  }

  /** Converting a reduced number into the Montgomery domain and back
      returns the same six limbs, in both crates, and the two crates'
      conversions agree. */
  method ConversionRoundTrip(x: Limbs6)
    returns (mont1: W6x64, mont2: W6x64, back1: Limbs6, back2: Limbs6)
    requires Val(x) < MODULUS
    ensures mont1 == mont2
    ensures Value(mont2) == (Val(x) * R) % MODULUS
    ensures back1 == x && back2 == x
  {
    mont1 := Mont1Arith.FeToMont(x);
    mont2 := Mont2Arith.FeToMont(x);
    back1 := Mont1Arith.FeToNorm(mont1);
    back2 := Mont2Arith.FeToNorm(mont2);
    ValueInjective(mont1, mont2);
    NormOfMont(Val(x));
    ValInjective(back1, x);
    ValInjective(back2, x);
  }
}
