/** The fixed constants of the BLS12-381 base field kernel (identical in both
    crates), least significant limb first, together with the numeric facts
    they are meant to satisfy. */
module Constants {
  import opened Words
  import opened Limbs

  /** The field prime N, as six limbs. */
  const N: seq<u64> := [
    0xb9fe_ffff_ffff_aaab, 0x1eab_fffe_b153_ffff, 0x6730_d2a0_f6b0_f624,
    0x6477_4b84_f385_12bf, 0x4b1b_a7b6_434b_acd7, 0x1a01_11ea_397f_e69a]

  /** The field prime N as a number. */
  const MODULUS: nat := 0x1a0111ea397fe69a4b1ba7b6434bacd764774b84f38512bf6730d2a0f6b0f6241eabfffeb153ffffb9feffffffffaaab

  /** The Montgomery radix R = 2^384. */
  const R: nat := 0x1_000000000000000000000000000000000000000000000000000000000000000000000000000000000000000000000000

  /** 2^384 - N, as six limbs. */
  const CORRECTION: seq<u64> := [
    0x4601_0000_0000_5555, 0xe154_0001_4eac_0000, 0x98cf_2d5f_094f_09db,
    0x9b88_b47b_0c7a_ed40, 0xb4e4_5849_bcb4_5328, 0xe5fe_ee15_c680_1965]

  /** R^2 mod N, as six limbs. */
  const R_SQUARED: seq<u64> := [
    0xf4df_1f34_1c34_1746, 0x0a76_e6a6_09d1_04f1, 0x8de5_476c_4c95_b6d5,
    0x67eb_88a9_939d_83c0, 0x9a79_3e85_b519_952d, 0x1198_8fe5_92ca_e3aa]

  /** One, as six limbs. */
  const ONE: seq<u64> := [1, 0, 0, 0, 0, 0]

  /** The per-limb reduction constant N' = -N^-1 mod 2^64. */
  const N_PRIME: u64 := 0x89f3_fffc_fffc_fffd

  /** R^-1 mod N, the value `Rp1` that the constant derivation produces. */
  const R_INV: nat := 0x14fec701e8fb0ce9ed5e64273c4f538b1797ab1458a88de9343ea97914956dc87fe11274d898fafbf4d38259380b4820

  /** -N^-1 mod R, the value `Np1` that the constant derivation produces. */
  const N_INV_NEG: nat := 0xceb06106feaafc9468b316fee268cf5819ecca0e8eb2db4c16ef2ef0c8e30b48286adb92d9d113e889f3fffcfffcfffd

  lemma RIsPow6()
    ensures R == Pow(6)
  {
    PowValues();
  }

  /** The limb table N denotes the prime, which is odd, 381 bits long and
      leaves room for 2N below R. */
  lemma ModulusFacts()
    ensures |N| == 6 && Val(N) == MODULUS
    ensures 3 * MODULUS < R && MODULUS % 2 == 1
    ensures MODULUS % BASE == N[0]
  {
    ValOf6(N);
  }

  /** The limb table CORRECTION denotes 2^384 - N, so subtracting it modulo
      2^384 is adding N. */
  lemma CorrectionFacts()
    ensures |CORRECTION| == 6 && Val(CORRECTION) == R - MODULUS
  {
    ValOf6(CORRECTION);
  }

  /** No limb of N or of CORRECTION is all ones, so adding an incoming borrow
      to a limb, as the folded borrow chains do, never overflows. */
  lemma NoLimbAllOnes()
    ensures forall i :: 0 <= i < |N| ==> N[i] < MAX
    ensures forall i :: 0 <= i < |CORRECTION| ==> CORRECTION[i] < MAX
  {
  }

  /** ONE holds 1. */
  lemma OneFacts()
    ensures |ONE| == 6 && Val(ONE) == 1
  {
    ValOf6(ONE);
  }

  /** R_SQUARED holds R^2 mod N. */
  lemma RSquaredFacts()
    ensures |R_SQUARED| == 6 && Val(R_SQUARED) == (R * R) % MODULUS
  {
    ValOf6(R_SQUARED);
    var q := 0x9d835d2f3cc9e45ce28101b0cc7a6ba291b82741ff6a0a94bdf4771e0286779d3997167a058f1c07b13e207f56591ba2e;
    assert R * R == q * MODULUS + Val(R_SQUARED);
    DivModUnique(R * R, MODULUS, q, Val(R_SQUARED));
  }

  /** N' makes the low limb of N vanish: N[0]·N' ≡ -1 (mod 2^64). */
  lemma NPrimeFacts()
    ensures N_PRIME * N[0] + 1 == 0x643abe09d200a405 * BASE
  {
  }

  /** R_INV is the inverse of R modulo N and N_INV_NEG the negated inverse of
      N modulo R, linked by one Bezout identity; the low limb of N_INV_NEG is N'. */
  lemma InverseFacts()
    ensures R * R_INV - MODULUS * N_INV_NEG == 1
    ensures 0 < R_INV < MODULUS && 0 < N_INV_NEG < R
    ensures (MODULUS * N_INV_NEG) % R == R - 1
    ensures N_INV_NEG % BASE == N_PRIME
  {
    assert MODULUS * N_INV_NEG == (R_INV - 1) * R + (R - 1);
    DivModUnique(MODULUS * N_INV_NEG, R, R_INV - 1, R - 1);
    var h := 0xceb06106feaafc9468b316fee268cf5819ecca0e8eb2db4c16ef2ef0c8e30b48286adb92d9d113e8;
    assert N_INV_NEG == h * BASE + N_PRIME;
    DivModUnique(N_INV_NEG, BASE, h, N_PRIME);
  }
}
