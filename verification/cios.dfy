/** Word-by-word Montgomery multiplication (coarsely integrated operand
    scanning, CIOS) on numbers: the algorithm every multiplication tier of
    both crates implements. Round i adds a·b[i] to the accumulator, picks the
    digit m that makes the low word vanish, adds m·N and drops that word.
    After six rounds the accumulator is below 2N and congruent to
    a·b·R^-1, so one conditional subtraction of N finishes the job. */
module Cios {
  import opened Words
  import opened Limbs
  import opened Constants
  import opened Field

  /** The reduction digit chosen from the low word of the accumulator:
      `low.wrapping_mul(N_PRIME)`. */
  function Digit(low: u64): (m: u64)
    ensures (low + m * MODULUS) % BASE == 0
  {
    var m := WrappingMul(low, N_PRIME);
    DigitCancels(low, m);
    m
  }

  lemma DigitCancels(low: u64, m: u64)
    requires m == WrappingMul(low, N_PRIME)
    ensures (low + m * MODULUS) % BASE == 0
  {
    var q :| low * N_PRIME == q * BASE + m;
    var nhi := MODULUS / BASE;
    ModulusFacts();
    assert MODULUS == N[0] + nhi * BASE;
    NPrimeFacts();
    var k := 0x643abe09d200a405;
    var w := low * k + m * nhi - q * N[0];
    DigitAlgebra(low, m, q, N_PRIME, N[0], nhi, k, BASE);
    assert low + m * MODULUS == w * BASE;
    DivModUnique(low + m * MODULUS, BASE, w, 0);
  }

  lemma DigitAlgebra(low: int, m: int, q: int, np: int, n0: int, nhi: int, k: int, base: int)
    requires low * np == q * base + m
    requires np * n0 + 1 == k * base
    ensures low + m * (n0 + nhi * base) == (low * k + m * nhi - q * n0) * base
  {
    assert m * n0 == low * np * n0 - q * base * n0;
    assert low * np * n0 == low * (k * base - 1);
  }

  /** The digit chosen in a round that adds a·bi to the accumulator t. */
  function DigitOf(t: nat, a: nat, bi: u64): u64
  {
    Digit((t + a * bi) % BASE)
  }

  /** One CIOS round on numbers: (t + a·bi + m·N) / 2^64 with m the digit of
      the low word of t + a·bi. */
  function Round(t: nat, a: nat, bi: u64): nat
  {
    (t + a * bi + DigitOf(t, a, bi) * MODULUS) / BASE
  }

  /** The accumulator after the first k rounds. */
  function Acc(a: W6x64, b: W6x64, k: nat): nat
    requires k <= 6
  {
    if k == 0 then 0 else Round(Acc(a, b, k - 1), Value(a), b.v[k - 1])
  }

  /** The digit chosen in round k (counting from zero). */
  function RoundDigit(a: W6x64, b: W6x64, k: nat): u64
    requires k < 6
  {
    DigitOf(Acc(a, b, k), Value(a), b.v[k])
  }

  /** The division in a round is exact, and a round keeps the accumulator
      below 2N: before dividing, the sum stays below 2N·2^64. */
  lemma RoundFacts(t: nat, a: nat, bi: u64)
    requires t < 2 * MODULUS && a < MODULUS
    ensures var v := t + a * bi + DigitOf(t, a, bi) * MODULUS;
            v == Round(t, a, bi) * BASE && v < 2 * MODULUS * BASE
    ensures Round(t, a, bi) < 2 * MODULUS
  {
    var s := t + a * bi;
    var d := DigitOf(t, a, bi);
    ExactDivision(s, d * MODULUS, BASE);
    RoundBound(t, a, bi, d, MODULUS, BASE);
    MulStrictCancel(Round(t, a, bi), 2 * MODULUS, BASE);
  }

  lemma ExactDivision(s: int, e: int, base: int)
    requires base > 0 && (s % base + e) % base == 0
    ensures s + e == ((s + e) / base) * base
  {
    var q := s / base;
    assert s == q * base + s % base;
    var w := (s % base + e) / base;
    assert s % base + e == w * base;
    assert s + e == (w + q) * base;
    DivModUnique(s + e, base, w + q, 0);
  }

  lemma RoundBound(t: int, a: int, bi: int, d: int, n: int, base: int)
    requires 0 <= t < 2 * n && 0 <= a < n && 0 <= bi < base && 0 <= d < base
    ensures t + a * bi + d * n < 2 * n * base
  {
    MulMonotone(bi, a, n - 1);
    MulMonotone(n - 1, bi, base - 1);
    MulMonotone(n, d, base - 1);
    assert (n - 1) * (base - 1) == n * base - n - base + 1;
  }

  /** The accumulator stays below 2N when a is reduced. */
  lemma {:induction false} AccBound(a: W6x64, b: W6x64, k: nat)
    requires Reduced(a) && k <= 6
    ensures Acc(a, b, k) < 2 * MODULUS
  {
    if k > 0 {
      AccBound(a, b, k - 1);
      RoundFacts(Acc(a, b, k - 1), Value(a), b.v[k - 1]);
    }
  }

  /** The digits chosen so far, as one number: what has been added in
      multiples of N. */
  function Quotient(a: W6x64, b: W6x64, k: nat): int
    requires k <= 6
  {
    if k == 0 then 0 else Quotient(a, b, k - 1) + RoundDigit(a, b, k - 1) * Pow(k - 1)
  }

  /** The CIOS invariant: after k rounds, Acc·2^(64k) = a·(b mod 2^(64k)) + Q·N. */
  lemma {:induction false} AccInvariant(a: W6x64, b: W6x64, k: nat)
    requires Reduced(a) && k <= 6
    ensures Acc(a, b, k) * Pow(k) == Value(a) * Val(b.v[..k]) + Quotient(a, b, k) * MODULUS
  {
    if k == 0 {
      assert b.v[..0] == [];
      assert Val(b.v[..0]) == 0;
    } else {
      AccInvariant(a, b, k - 1);
      AccInvariantStep(a, b, k - 1);
    }
  }

  /** One round on the accumulator, as an exact equation. */
  lemma AccStep(a: W6x64, b: W6x64, j: nat)
    requires Reduced(a) && j < 6
    ensures Acc(a, b, j + 1) * BASE == Acc(a, b, j) + Value(a) * b.v[j] + RoundDigit(a, b, j) * MODULUS
  {
    AccBound(a, b, j);
    RoundFacts(Acc(a, b, j), Value(a), b.v[j]);
  }

  lemma AccInvariantStep(a: W6x64, b: W6x64, j: nat)
    requires Reduced(a) && j < 6
    requires Acc(a, b, j) * Pow(j) == Value(a) * Val(b.v[..j]) + Quotient(a, b, j) * MODULUS
    ensures Acc(a, b, j + 1) * Pow(j + 1) == Value(a) * Val(b.v[..j + 1]) + Quotient(a, b, j + 1) * MODULUS
  {
    AccStep(a, b, j);
    ValPrefix(b.v, j);
    InvariantStep(Acc(a, b, j + 1), Acc(a, b, j), Value(a), b.v[j], RoundDigit(a, b, j), Pow(j),
                  Val(b.v[..j]), Quotient(a, b, j), MODULUS,
                  Pow(j + 1), Val(b.v[..j + 1]), Quotient(a, b, j + 1));
  }

  lemma InvariantStep(u: int, t: int, x: int, y: int, d: int, p: int, vb: int, q: int, n: int,
                      p1: int, vb1: int, q1: int)
    requires u * BASE == t + x * y + d * n
    requires t * p == x * vb + q * n
    requires p1 == BASE * p && vb1 == vb + y * p && q1 == q + d * p
    ensures u * p1 == x * vb1 + q1 * n
  {
    assert u * (BASE * p) == (u * BASE) * p;
    assert (t + x * y + d * n) * p == t * p + x * y * p + d * n * p;
  }

  /** Six CIOS rounds leave a value below 2N congruent to the Montgomery
      product a·b·R^-1, so one conditional subtraction of N finishes. */
  lemma CiosIsMontProduct(a: W6x64, b: W6x64)
    requires Reduced(a)
    ensures Acc(a, b, 6) < 2 * MODULUS
    ensures Acc(a, b, 6) % MODULUS == MontMul(Value(a), Value(b))
  {
    AccBound(a, b, 6);
    AccInvariant(a, b, 6);
    assert b.v[..6] == b.v;
    RIsPow6();
    InverseFacts();
    var t := Acc(a, b, 6);
    var q := Quotient(a, b, 6);
    assert t * R == Value(a) * Value(b) + q * MODULUS;
    RemoveRadix(t, Value(a) * Value(b), q, MODULUS, R, R_INV, N_INV_NEG);
  }

  /** From t·r = x + q·m and r·ri = 1 + k·m: t ≡ x·ri (mod m). */
  lemma RemoveRadix(t: int, x: int, q: int, m: int, r: int, ri: int, k: int)
    requires m > 0 && t * r == x + q * m && r * ri == 1 + k * m
    ensures t % m == (x * ri) % m
  {
    CancelInverse(t, m, r, ri, k);
    assert t * r * ri == x * ri + (q * ri) * m;
    ModAddMultiple(x * ri, q * ri, m);
  }
}
