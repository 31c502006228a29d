/** Field elements of the BLS12-381 base field as six-limb vectors (`W6x64`),
    and the mathematical meaning of every kernel operation: what the words of
    the result must be, stated on numbers modulo N. */
module Field {
  import opened Words
  import opened Limbs
  import opened Constants

  type Limbs6 = s: seq<u64> | |s| == 6 witness [0, 0, 0, 0, 0, 0]

  /** The six-limb element type, least significant limb first. */
  datatype W6x64 = W6x64(v: Limbs6)

  function Value(w: W6x64): nat
  {
    Val(w.v)
  }

  /** Every operation expects, and every operation returns, a value below N. */
  predicate Reduced(w: W6x64)
  {
    Value(w) < MODULUS
  }

  /** An element is determined by its value. */
  lemma ValueInjective(u: W6x64, w: W6x64)
    requires Value(u) == Value(w)
    ensures u == w
  {
    ValInjective(u.v, w.v);
  }

  // The meaning of each kernel operation, on the numbers the limbs denote.

  /** `fe_add`: a + b mod N. */
  function AddMod(x: nat, y: nat): nat
  {
    (x + y) % MODULUS
  }

  /** `fe_sub`: a - b mod N. */
  function SubMod(x: nat, y: nat): nat
  {
    (x - y) % MODULUS
  }

  /** `fe_mont_mul`: a·b·R^-1 mod N. */
  function MontMul(x: nat, y: nat): nat
  {
    (x * y * R_INV) % MODULUS
  }

  /** `fe_to_mont`: a·R mod N. */
  function ToMont(x: nat): nat
  {
    (x * R) % MODULUS
  }

  /** `fe_to_norm`: a·R^-1 mod N. */
  function ToNorm(x: nat): nat
  {
    (x * R_INV) % MODULUS
  }

  // Modular arithmetic helpers.

  lemma ModAddMultiple(x: int, k: int, m: int)
    requires m > 0
    ensures (x + k * m) % m == x % m
  {
    assert x == (x / m) * m + x % m;
    assert x + k * m == (x / m + k) * m + x % m;
    DivModUnique(x + k * m, m, x / m + k, x % m);
  }

  lemma ModMulLeft(x: int, y: int, m: int)
    requires m > 0
    ensures ((x % m) * y) % m == (x * y) % m
  {
    var q := x / m;
    assert x == q * m + x % m;
    assert x * y == (x % m) * y + (q * y) * m;
    ModAddMultiple((x % m) * y, q * y, m);
  }

  lemma ModMulRight(x: int, y: int, m: int)
    requires m > 0
    ensures (x * (y % m)) % m == (x * y) % m
  {
    ModMulLeft(y, x, m);
    assert x * (y % m) == (y % m) * x;
    assert x * y == y * x;
  }

  lemma ModAddBoth(x: int, y: int, m: int)
    requires m > 0
    ensures (x % m + y % m) % m == (x + y) % m
  {
    assert x == (x / m) * m + x % m;
    assert y == (y / m) * m + y % m;
    assert x + y == (x % m + y % m) + (x / m + y / m) * m;
    ModAddMultiple(x % m + y % m, x / m + y / m, m);
  }

  lemma ModSmall(x: int, m: int)
    requires 0 <= x < m
    ensures x % m == x
  {
    DivModUnique(x, m, 0, x);
  }

  /** Multiplying by r and then by its inverse ri is the identity modulo m. */
  lemma CancelInverse(x: int, m: int, r: int, ri: int, k: int)
    requires m > 0 && r * ri == 1 + k * m
    ensures (x * r * ri) % m == x % m
    ensures (x * ri * r) % m == x % m
  {
    assert x * r * ri == x * (r * ri);
    assert x * ri * r == x * (r * ri);
    assert x * (1 + k * m) == x + (x * k) * m;
    ModAddMultiple(x, x * k, m);
  }

  /** Reducing after scaling by r and then by ri returns any reduced x. */
  lemma ScaleRoundTrip(x: int, m: int, r: int, ri: int, k: int)
    requires 0 <= x < m && r * ri == 1 + k * m
    ensures (((x * r) % m) * ri) % m == x
  {
    ModMulLeft(x * r, ri, m);
    CancelInverse(x, m, r, ri, k);
    ModSmall(x, m);
  }

  lemma ScaleAdd(x: int, y: int, m: int, r: int, ri: int, k: int)
    requires m > 0 && r * ri == 1 + k * m
    ensures ((((x * r) % m + (y * r) % m) % m) * ri) % m == (x + y) % m
  {
    ModAddBoth(x * r, y * r, m);
    assert x * r + y * r == (x + y) * r;
    ModMulLeft((x + y) * r, ri, m);
    CancelInverse(x + y, m, r, ri, k);
  }

  lemma ScaleSub(x: int, y: int, m: int, r: int, ri: int, k: int)
    requires m > 0 && r * ri == 1 + k * m
    ensures ((((x * r) % m - (y * r) % m) % m) * ri) % m == (x - y) % m
  {
    var qx, qy := (x * r) / m, (y * r) / m;
    assert x * r == qx * m + (x * r) % m;
    assert y * r == qy * m + (y * r) % m;
    var d := (x * r) % m - (y * r) % m;
    assert d * ri == (x - y) * r * ri + ((qy - qx) * ri) * m;
    ModMulLeft(d, ri, m);
    ModAddMultiple((x - y) * r * ri, (qy - qx) * ri, m);
    CancelInverse(x - y, m, r, ri, k);
  }

  lemma ScaleMul(x: int, y: int, m: int, r: int, ri: int, k: int)
    requires m > 0 && r * ri == 1 + k * m
    ensures ((((((x * r) % m) * ((y * r) % m)) * ri) % m) * ri) % m == (x * y) % m
  {
    var xm, ym := (x * r) % m, (y * r) % m;
    ModMulLeft(x * r, ym, m);
    ModMulRight(x * r, y * r, m);
    assert (x * r) * (y * r) == (x * y * r) * r;
    ModMulLeft(xm * ym, ri, m);
    ModMulLeft((x * y * r) * r, ri, m);
    CancelInverse(x * y * r, m, r, ri, k);
    ModMulLeft(x * y * r, ri, m);
    CancelInverse(x * y, m, r, ri, k);
  }

  lemma ScaleBySquare(x: int, m: int, r: int, ri: int, k: int)
    requires m > 0 && r * ri == 1 + k * m
    ensures ((x * ((r * r) % m)) * ri) % m == (x * r) % m
  {
    var s := r * r;
    var u := x * (s % m);
    var v := x * s;
    ModMulRight(x, s, m);
    assert u % m == v % m;
    ModMulLeft(u, ri, m);
    ModMulLeft(v, ri, m);
    assert (u * ri) % m == (v * ri) % m;
    assert v == (x * r) * r;
    CancelInverse(x * r, m, r, ri, k);
  }

  /** The Bezout identity of R and N, in the form the generic lemmas take. */
  lemma RInverse()
    ensures R * R_INV == 1 + N_INV_NEG * MODULUS
  {
    InverseFacts();
  }

  /** Converting to the Montgomery domain and back returns the input. */
  lemma NormOfMont(x: nat)
    requires x < MODULUS
    ensures ToNorm(ToMont(x)) == x
  {
    RInverse();
    ScaleRoundTrip(x, MODULUS, R, R_INV, N_INV_NEG);
  }

  /** Converting out of the Montgomery domain and back returns the input. */
  lemma MontOfNorm(x: nat)
    requires x < MODULUS
    ensures ToMont(ToNorm(x)) == x
  {
    RInverse();
    ScaleRoundTrip(x, MODULUS, R_INV, R, N_INV_NEG);
  }

  /** Montgomery multiplication by R^2 mod N converts into the Montgomery
      domain, which is how `fe_to_mont` is built. */
  lemma MontMulByRSquared(x: nat)
    ensures MontMul(x, Val(R_SQUARED)) == ToMont(x)
  {
    RSquaredFacts();
    RInverse();
    ScaleBySquare(x, MODULUS, R, R_INV, N_INV_NEG);
  }

  /** Montgomery multiplication by one converts out of the Montgomery domain,
      which is how `fe_to_norm` is built. */
  lemma MontMulByOne(x: nat)
    ensures MontMul(x, Val(ONE)) == ToNorm(x)
  {
    OneFacts();
  }

  /** Addition in the Montgomery domain is addition of the normal values: the
      property the randomized addition test checks. */
  lemma AddInMontDomain(x: nat, y: nat)
    ensures ToNorm(AddMod(ToMont(x), ToMont(y))) == AddMod(x, y)
  {
    RInverse();
    ScaleAdd(x, y, MODULUS, R, R_INV, N_INV_NEG);
  }

  /** Subtraction in the Montgomery domain is subtraction of the normal
      values: the property the randomized subtraction test checks. */
  lemma SubInMontDomain(x: nat, y: nat)
    ensures ToNorm(SubMod(ToMont(x), ToMont(y))) == SubMod(x, y)
  {
    RInverse();
    ScaleSub(x, y, MODULUS, R, R_INV, N_INV_NEG);
  }

  /** Montgomery multiplication of two converted values, converted back, is the
      product modulo N: the property the randomized multiplication tests check. */
  lemma MulInMontDomain(x: nat, y: nat)
    ensures ToNorm(MontMul(ToMont(x), ToMont(y))) == (x * y) % MODULUS
  {
    RInverse();
    ScaleMul(x, y, MODULUS, R, R_INV, N_INV_NEG);
  }
}
