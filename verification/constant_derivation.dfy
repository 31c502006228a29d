/** The derivation of the Montgomery constants from the modulus and the
    radix: the extended Euclidean algorithm run on (R, N), and the shift of
    its Bezout coefficients into the positive values Rp1 = R^-1 mod N and
    Np1 = -N^-1 mod R whose low word is N'. */
module ConstantDerivation {
  import opened Words
  import opened Limbs
  import opened Constants

  function Abs(x: int): nat
  {
    if x < 0 then -x else x
  }

  /** Floor division, the `//` of the derivation script. Dafny's `/` is
      Euclidean, which agrees with floor division for a positive divisor;
      for a negative divisor the quotient is taken on the negated operands. */
  function FloorDiv(a: int, b: int): int
    requires b != 0
  {
    if b > 0 then a / b else (-a) / (-b)
  }

  /** The remainder that goes with `FloorDiv`, the script's `%`: it takes
      the divisor's sign and is smaller than the divisor in magnitude. */
  function FloorMod(a: int, b: int): (r: int)
    requires b != 0
    ensures a == b * FloorDiv(a, b) + r
    ensures b > 0 ==> 0 <= r < b
    ensures b < 0 ==> b < r <= 0
  {
    FloorModFacts(a, b);
    a - b * FloorDiv(a, b)
  }

  lemma FloorModFacts(a: int, b: int)
    requires b != 0
    ensures b > 0 ==> 0 <= a - b * FloorDiv(a, b) < b
    ensures b < 0 ==> b < a - b * FloorDiv(a, b) <= 0
  {
    if b < 0 {
      assert -a == (-b) * ((-a) / (-b)) + (-a) % (-b);
    }
  }

  /** d divides n. */
  predicate Divides(d: int, n: int)
  {
    if d == 0 then n == 0 else n % Abs(d) == 0
  }

  /** A multiple of d is divisible by d. */
  lemma MultipleDivides(d: int, k: int, n: int)
    requires n == k * d
    ensures Divides(d, n)
  {
    if d > 0 {
      DivModUnique(n, d, k, 0);
    } else if d < 0 {
      assert n == (-k) * Abs(d);
      DivModUnique(n, Abs(d), -k, 0);
    }
  }

  /** A number divisible by d is a multiple of d. */
  lemma DividesMultiple(d: int, n: int) returns (k: int)
    requires Divides(d, n)
    ensures n == k * d
  {
    if d == 0 {
      k := 0;
    } else {
      var e := Abs(d);
      assert n == (n / e) * e + n % e;
      k := if d > 0 then n / e else -(n / e);
    }
  }

  /** The extended Euclidean algorithm as the derivation script writes it:
      returns the last nonzero remainder g together with the coefficients of
      the Bezout identity a0·x + b0·y = g. g divides both inputs, so with
      `GcdIsGreatest` it is a greatest common divisor (up to sign). For
      a0 > b0 > 0 the remainder is positive and the first coefficient is at
      most b0 / (2g) in magnitude, which is what pins it down uniquely. */
  method ExtendedEuclidean(a0: int, b0: int) returns (g: int, x0: int, y0: int)
    ensures a0 * x0 + b0 * y0 == g
    ensures Divides(g, a0) && Divides(g, b0)
    ensures a0 > b0 > 0 ==> g > 0 && 2 * g * Abs(x0) <= b0
  {
    var a, b := a0, b0;
    var px, x := 1, 0;
    var py, y := 0, 1;
    while b != 0
      invariant a0 * px + b0 * py == a && a0 * x + b0 * y == b
      invariant px * y - py * x == 1 || px * y - py * x == -1
      invariant a0 > b0 > 0 ==> EuclidBounds(b0, a, b, px, x)
      decreases Abs(b)
    {
      var q := FloorDiv(a, b);
      var r := FloorMod(a, b);
      BezoutStep(a0, b0, a, b, px, py, x, y, q, r);
      DeterminantStep(px, py, x, y, q);
      if a0 > b0 > 0 {
        BoundsStep(b0, a, b, px, x, q, r);
      }
      x, px := px - q * x, x;
      y, py := py - q * y, y;
      a, b := b, r;
    }
    g, x0, y0 := a, px, py;
    GcdAtEnd(a0, b0, g, px, py, x, y);
  }

  /** The bookkeeping that bounds the coefficients when a0 > b0 > 0, for the
      current pair (a, b), the previous coefficient px and the current one x:
      the remainders decrease, the coefficients alternate in sign, and
      a·|x| + b·|px| = b0 throughout. After the first step |px|·(a + b) is
      at most b0, and once b reaches zero even 2a·|px| is. */
  ghost predicate EuclidBounds(b0: int, a: int, b: int, px: int, x: int)
  {
    a > b >= 0 && px * x <= 0 && a * Abs(x) + b * Abs(px) == b0 &&
    (x == 0 ==> px == 1) &&
    (x != 0 ==> Abs(px) * (a + b) <= b0 && (b == 0 ==> 2 * a * Abs(px) <= b0))
  }

  /** Both Bezout identities carry over to the next remainder pair. */
  lemma BezoutStep(a0: int, b0: int, a: int, b: int, px: int, py: int, x: int, y: int, q: int, r: int)
    requires a0 * px + b0 * py == a && a0 * x + b0 * y == b
    requires a == b * q + r
    ensures a0 * (px - q * x) + b0 * (py - q * y) == r
  {
    assert a0 * (px - q * x) + b0 * (py - q * y) == (a0 * px + b0 * py) - q * (a0 * x + b0 * y);
  }

  /** A step negates the determinant of the coefficient matrix. */
  lemma DeterminantStep(px: int, py: int, x: int, y: int, q: int)
    ensures x * (py - q * y) - y * (px - q * x) == -(px * y - py * x)
  {
    assert x * (py - q * y) == x * py - q * (x * y);
    assert y * (px - q * x) == y * px - q * (x * y);
  }

  /** Coefficients of opposite sign: subtracting a nonnegative multiple of
      one from the other adds their magnitudes. */
  lemma AbsCombine(px: int, x: int, q: int)
    requires px * x <= 0 && q >= 0
    ensures Abs(px - q * x) == Abs(px) + q * Abs(x)
    ensures x * (px - q * x) <= 0
  {
    SignOfProduct(px, x);
    SignOfProduct(q, x);
    SignOfProduct(q, x * x);
    SignOfProduct(x, x);
    assert x * (px - q * x) == px * x - q * (x * x);
  }

  lemma SignOfProduct(u: int, v: int)
    ensures u > 0 && v > 0 ==> u * v > 0
    ensures u < 0 && v < 0 ==> u * v > 0
    ensures u >= 0 && v >= 0 ==> u * v >= 0
    ensures u >= 0 && v <= 0 ==> u * v <= 0
    ensures u * Abs(v) == Abs(u * v) || u < 0
  {
  }

  /** One division step keeps the coefficient bookkeeping. */
  lemma BoundsStep(b0: int, a: int, b: int, px: int, x: int, q: int, r: int)
    requires EuclidBounds(b0, a, b, px, x) && b > 0
    requires a == b * q + r && 0 <= r < b
    ensures EuclidBounds(b0, b, r, x, px - q * x)
  {
    QuotientPositive(a, b, q, r);
    AbsCombine(px, x, q);
    var ax, apx := Abs(x), Abs(px);
    var anx := Abs(px - q * x);
    StepSum(b0, a, b, q, r, ax, apx, anx);
    if x != 0 {
      StepPrevious(b0, a, b, q, r, ax, apx);
    }
  }

  /** The quotient of a division with a > b > 0 is at least one, and at
      least two when the division is exact. */
  lemma QuotientPositive(a: int, b: int, q: int, r: int)
    requires a > b > 0 && a == b * q + r && 0 <= r < b
    ensures q >= 1 && (r == 0 ==> q >= 2)
  {
    if q <= 0 {
      SignOfProduct(b, q);
    }
  }

  /** The weighted sum a·|x| + b·|px| = b0 carries over to (b, r). */
  lemma StepSum(b0: int, a: int, b: int, q: int, r: int, ax: nat, apx: nat, anx: nat)
    requires a * ax + b * apx == b0 && a == b * q + r
    requires anx == apx + q * ax
    ensures b * anx + r * ax == b0
  {
    assert b * anx == b * apx + (b * q) * ax;
    assert a * ax == (b * q) * ax + r * ax;
  }

  /** After a step from a nonzero coefficient x, the new previous
      coefficient x satisfies |x|·(b + r) <= b0, and 2b·|x| <= b0 when the
      division was exact. */
  lemma StepPrevious(b0: int, a: int, b: int, q: int, r: int, ax: nat, apx: nat)
    requires a * ax + b * apx == b0 && a == b * q + r && b > 0 && 0 <= r < b
    requires q >= 1 && (r == 0 ==> q >= 2)
    ensures ax * (b + r) <= b0
    ensures r == 0 ==> 2 * b * ax <= b0
  {
    SignOfProduct(b, apx);
    MulMonotone(ax, b + r, a);
    if r == 0 {
      MulMonotone(b * ax, 2, q);
      assert a * ax == (b * ax) * q;
    }
  }

  /** When the remainder reaches zero, the last nonzero remainder divides
      both inputs: the determinant of the coefficient matrix is a unit, so
      the inputs are recovered from (g, 0) exactly. */
  lemma GcdAtEnd(a0: int, b0: int, g: int, px: int, py: int, x: int, y: int)
    requires a0 * px + b0 * py == g && a0 * x + b0 * y == 0
    requires px * y - py * x == 1 || px * y - py * x == -1
    ensures Divides(g, a0) && Divides(g, b0)
  {
    var s := px * y - py * x;
    Recover(a0, b0, g, px, py, x, y);
    Recover(b0, a0, g, py, px, y, x);
    UnitScale(s, y * g, a0);
    UnitScale(s, x * g, -b0);
    assert a0 == (s * y) * g;
    assert b0 == (-(s * x)) * g;
    MultipleDivides(g, s * y, a0);
    MultipleDivides(g, -(s * x), b0);
  }

  /** y·g = (px·y - py·x)·a0 when a0·px + b0·py = g and a0·x + b0·y = 0. */
  lemma Recover(a0: int, b0: int, g: int, px: int, py: int, x: int, y: int)
    requires a0 * px + b0 * py == g && a0 * x + b0 * y == 0
    ensures y * g == (px * y - py * x) * a0
  {
    var u := b0 * y;
    assert u == -(a0 * x);
    assert y * g == (a0 * px) * y + py * u;
    assert py * u == -(py * x) * a0;
  }

  /** Multiplying by a unit twice is the identity. */
  lemma UnitScale(s: int, v: int, w: int)
    requires s == 1 || s == -1
    requires v == s * w
    ensures w == s * v
  {
  }

  /** Every common divisor of the inputs divides the returned remainder,
      by the Bezout identity. */
  lemma GcdIsGreatest(a0: int, b0: int, g: int, x0: int, y0: int, d: int)
    requires a0 * x0 + b0 * y0 == g
    requires Divides(d, a0) && Divides(d, b0)
    ensures Divides(d, g)
  {
    var s := DividesMultiple(d, a0);
    var t := DividesMultiple(d, b0);
    assert g == (s * x0 + t * y0) * d by {
      assert a0 * x0 == (s * x0) * d;
      assert b0 * y0 == (t * y0) * d;
    }
    MultipleDivides(d, s * x0 + t * y0, g);
  }

  /** The derivation script: run the algorithm on (R, N) and shift the
      coefficients by N and R into the positive Rp1 and Np1. The results are
      exactly the inverse constants the multiplication tiers use: R·Rp1 ≡ 1
      (mod N), N·Np1 ≡ -1 (mod R), and the low word of Np1 is N'. */
  method DeriveConstants() returns (a: int, rp1: int, np1: int)
    ensures a == 1
    ensures 0 < rp1 < MODULUS && 0 < np1 < R
    ensures R * rp1 - MODULUS * np1 == 1
    ensures MODULUS * np1 == R * rp1 - 1 && (MODULUS * np1) % R == R - 1
    ensures rp1 == R_INV && np1 == N_INV_NEG
    ensures np1 % BASE == N_PRIME
  {
    var rp, np;
    a, rp, np := ExtendedEuclidean(R, MODULUS);
    rp1 := rp + MODULUS;
    np1 := -1 * (np - R);
    InverseFacts();
    Coprime(a);
    Coefficients(rp, np);
  }

  /** The only positive common divisor of R and N is 1, as R·R^-1 - N·Np1 = 1. */
  lemma Coprime(g: int)
    requires g > 0 && Divides(g, R) && Divides(g, MODULUS)
    ensures g == 1
  {
    InverseFacts();
    var s := DividesMultiple(g, R);
    var t := DividesMultiple(g, MODULUS);
    var m := s * R_INV - t * N_INV_NEG;
    assert g * m == 1 by {
      assert R * R_INV == g * (s * R_INV);
      assert MODULUS * N_INV_NEG == g * (t * N_INV_NEG);
    }
    SignOfProduct(g, m);
    MulMonotone(g, 1, m);
  }

  /** Bezout coefficients for (R, N) with the first one at most N/2 in
      magnitude are R^-1 - N and R - Np1: the coefficient is congruent to
      R^-1 modulo N, and R^-1 lies above N/2. */
  lemma Coefficients(rp: int, np: int)
    requires R * rp + MODULUS * np == 1
    requires 2 * Abs(rp) <= MODULUS
    ensures rp == R_INV - MODULUS && np == R - N_INV_NEG
  {
    InverseFacts();
    var m := R_INV * np + N_INV_NEG * rp;
    assert rp == R_INV - MODULUS * m by {
      assert rp * (R * R_INV - MODULUS * N_INV_NEG) == rp;
      assert rp * (R * R_INV) == R_INV * (R * rp);
      assert R_INV * (R * rp) == R_INV - R_INV * (MODULUS * np);
    }
    assert 0 < MODULUS * m < 2 * MODULUS;
    MulStrictCancel(0, m, MODULUS);
    MulStrictCancel(m, 2, MODULUS);
    assert m == 1;
    assert MODULUS * np == MODULUS * (R - N_INV_NEG) by {
      assert MODULUS * np == 1 - R * rp;
      assert R * rp == R * R_INV - R * MODULUS;
    }
    CancelLeft(MODULUS, np, R - N_INV_NEG);
  }

  lemma CancelLeft(m: int, x: int, y: int)
    requires m > 0 && m * x == m * y
    ensures x == y
  {
    if x < y {
      MulStrictCancelLeft(m, x, y);
    } else if y < x {
      MulStrictCancelLeft(m, y, x);
    }
  }

  lemma MulStrictCancelLeft(m: int, x: int, y: int)
    requires m > 0 && x < y
    ensures m * x < m * y
  {
    assert m * y - m * x == m * (y - x);
  }
}
