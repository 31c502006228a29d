/** Machine-word primitives used by the field kernel: unsigned 64-bit words,
    Rust's overflowing/wrapping integer methods, the 64x64->128 widening
    product, the x86 add-with-carry and subtract-with-borrow intrinsics, and
    the bitwise operators used to build selection masks.

    Words are unbounded integers restricted to their range; every wrap-around
    of the source is written out explicitly. */
module Words {

  const BASE: int := 0x1_0000_0000_0000_0000
  const MAX: int := BASE - 1

  type u64 = x: int | 0 <= x < 0x1_0000_0000_0000_0000
  type u128 = x: int | 0 <= x < 0x1_0000_0000_0000_0000_0000_0000_0000_0000
  type u8 = x: int | 0 <= x < 0x100

  /** `u64::from(flag)`: 1 for true, 0 for false. */
  function FromBool(c: bool): (r: u64)
    ensures r <= 1
    ensures r == 1 <==> c
  {
    if c then 1 else 0
  }

  /** `x.overflowing_add(y)`: the wrapped sum and whether it wrapped. */
  function OverflowingAdd(x: u64, y: u64): (r: (u64, bool))
    ensures r.0 + FromBool(r.1) * BASE == x + y
  {
    if x + y < BASE then (x + y, false) else (x + y - BASE, true)
  }

  /** `x.overflowing_sub(y)`: the wrapped difference and whether it borrowed. */
  function OverflowingSub(x: u64, y: u64): (r: (u64, bool))
    ensures r.0 - FromBool(r.1) * BASE == x - y
  {
    if y <= x then (x - y, false) else (x - y + BASE, true)
  }

  /** `x.wrapping_add(y)`: the sum modulo 2^64. */
  function WrappingAdd(x: u64, y: u64): (r: u64)
    ensures r == (x + y) % BASE
    ensures x + y < BASE ==> r == x + y
    ensures x + y >= BASE ==> r == x + y - BASE
  {
    if x + y < BASE then x + y else x + y - BASE
  }

  /** `x.wrapping_mul(y)`: the product modulo 2^64. */
  function WrappingMul(x: u64, y: u64): (r: u64)
    ensures exists q: int :: x * y == q * BASE + r
  {
    var p := x * y;
    assert p == (p / BASE) * BASE + p % BASE;
    p % BASE
  }

  /** `x.wrapping_neg()`: the two's complement negation modulo 2^64. */
  function WrappingNeg(x: u64): (r: u64)
    ensures (x + r) % BASE == 0
  {
    if x == 0 then 0 else BASE - x
  }

  lemma MulMonotone(x: nat, y: nat, z: nat)
    requires y <= z
    ensures x * y <= x * z
  {
    assert x * z - x * y == x * (z - y);
  }

  lemma MulBound(x: u64, y: u64)
    ensures x * y <= MAX * MAX
  {
    MulMonotone(x, y, MAX);
    MulMonotone(MAX, x, MAX);
    assert x * MAX == MAX * x;
  }

  /** The 128-bit `hilo` of a multiply-accumulate step cannot overflow:
      (2^64-1)·(2^64-1) + 2·(2^64-1) = 2^128-1. */
  lemma MulAddBound(x: u64, y: u64, t: u64, c: u64)
    ensures 0 <= x * y + t + c < 0x1_0000_0000_0000_0000_0000_0000_0000_0000
  {
    MulBound(x, y);
  }

  /** The 64x64->128 widening product split into its high and low words: the
      `mulx!` macro of the flattened tier and the `_mulx_u64` intrinsic. */
  function MulWide(x: u64, y: u64): (r: (u64, u64))
    ensures r.0 * BASE + r.1 == x * y
    ensures r.0 <= MAX - 1
  {
    MulBound(x, y);
    var p: u128 := x * y;
    ((p / BASE) as u64, (p % BASE) as u64)
  }

  /** The `full_add!` macro, also the body of the addition loops: two
      overflowing additions whose carries are ORed. At most one of them can
      be set, so the pair is the exact three-operand sum. */
  function FullAdd(carry: bool, x: u64, y: u64): (r: (u64, bool))
    ensures r.0 + FromBool(r.1) * BASE == x + y + FromBool(carry)
  {
    var (s0, c0) := OverflowingAdd(x, y);
    var (s1, c1) := OverflowingAdd(s0, FromBool(carry));
    (s1, c0 || c1)
  }

  /** The `full_sub!` macro, also the body of the subtraction loops. */
  function FullSub(borrow: bool, x: u64, y: u64): (r: (u64, bool))
    ensures r.0 - FromBool(r.1) * BASE == x - y - FromBool(borrow)
  {
    var (d0, b0) := OverflowingSub(x, y);
    var (d1, b1) := OverflowingSub(d0, FromBool(borrow));
    (d1, b0 || b1)
  }

  /** `_addcarryx_u64(c_in, a, b, &mut out)`: returns the carry-out and the
      word written to `out`. Any non-zero carry-in counts as one. */
  function AddCarryX(cIn: u8, x: u64, y: u64): (r: (u8, u64))
    ensures r.0 <= 1
    ensures cIn <= 1 ==> r.1 + r.0 * BASE == x + y + cIn
    ensures cIn > 1 ==> r.1 + r.0 * BASE == x + y + 1
  {
    var t := x + y + (if cIn > 0 then 1 else 0);
    if t < BASE then (0, t) else (1, t - BASE)
  }

  /** `_subborrow_u64(b_in, a, b, &mut out)`: returns the borrow-out and the
      word written to `out`. Any non-zero borrow-in counts as one. */
  function SubBorrow(bIn: u8, x: u64, y: u64): (r: (u8, u64))
    ensures r.0 <= 1
    ensures bIn <= 1 ==> r.1 - r.0 * BASE == x - y - bIn
    ensures bIn > 1 ==> r.1 - r.0 * BASE == x - y - 1
  {
    var t := x - (y + (if bIn > 0 then 1 else 0));
    if 0 <= t then (0, t) else (1, t + BASE)
  }

  // Bitwise operators, defined bit by bit on naturals.

  /** Bit k of x (bit 0 is the least significant). */
  function Bit(x: nat, k: nat): bool
  {
    if k == 0 then x % 2 == 1 else Bit(x / 2, k - 1)
  }

  lemma {:induction false} BitOfZero(k: nat)
    ensures !Bit(0, k)
  {
    if k > 0 {
      BitOfZero(k - 1);
    }
  }

  /** Splitting off the lowest bit: bit 0 of 2h + b is b, and the higher bits
      are those of h. */
  lemma BitOfDouble(h: nat, b: nat, k: nat)
    requires b <= 1
    ensures Bit(2 * h + b, k) == if k == 0 then b == 1 else Bit(h, k - 1)
  {
    assert (2 * h + b) / 2 == h;
    assert (2 * h + b) % 2 == b;
  }

  function Pow2(k: nat): (r: nat)
    ensures r >= 1
  {
    if k == 0 then 1 else 2 * Pow2(k - 1)
  }

  lemma {:induction false} Pow2Add(i: nat, j: nat)
    ensures Pow2(i + j) == Pow2(i) * Pow2(j)
    decreases i
  {
    if i > 0 {
      Pow2Add(i - 1, j);
      assert Pow2(i + j) == 2 * Pow2(i - 1 + j);
    }
  }

  lemma Pow2Double(k: nat, v: nat)
    requires Pow2(k) == v
    ensures Pow2(k + k) == v * v
  {
    Pow2Add(k, k);
  }

  lemma Pow2Is2To64()
    ensures Pow2(64) == BASE
  {
    assert Pow2(2) == 4;
    Pow2Double(2, 4);
    Pow2Double(4, 16);
    Pow2Double(8, 256);
    Pow2Double(16, 0x1_0000);
    Pow2Double(32, 0x1_0000_0000);
  }

  /** `x & y` */
  function BitAnd(x: nat, y: nat): (r: nat)
    ensures r <= x && r <= y
  {
    if x == 0 || y == 0 then 0
    else 2 * BitAnd(x / 2, y / 2) + (if x % 2 == 1 && y % 2 == 1 then 1 else 0)
  }

  /** `x | y` */
  function BitOr(x: nat, y: nat): (r: nat)
    ensures x <= r && y <= r
  {
    if x == 0 then y
    else if y == 0 then x
    else 2 * BitOr(x / 2, y / 2) + (if x % 2 == 1 || y % 2 == 1 then 1 else 0)
  }

  /** Every bit of BitAnd(x, y) is the conjunction of the operands' bits. */
  lemma {:induction false} BitAndBits(x: nat, y: nat, k: nat)
    ensures Bit(BitAnd(x, y), k) == (Bit(x, k) && Bit(y, k))
    decreases k
  {
    if x == 0 || y == 0 {
      BitOfZero(k);
    } else {
      var b := if x % 2 == 1 && y % 2 == 1 then 1 else 0;
      BitOfDouble(BitAnd(x / 2, y / 2), b, k);
      if k > 0 {
        BitAndBits(x / 2, y / 2, k - 1);
      }
    }
  }

  /** Every bit of BitOr(x, y) is the disjunction of the operands' bits. */
  lemma {:induction false} BitOrBits(x: nat, y: nat, k: nat)
    ensures Bit(BitOr(x, y), k) == (Bit(x, k) || Bit(y, k))
    decreases k
  {
    if x == 0 || y == 0 {
      BitOfZero(k);
    } else {
      var b := if x % 2 == 1 || y % 2 == 1 then 1 else 0;
      BitOfDouble(BitOr(x / 2, y / 2), b, k);
      if k > 0 {
        BitOrBits(x / 2, y / 2, k - 1);
      }
    }
  }

  /** Below bit n, Pow2(n) - 1 - x has exactly the bits x lacks. */
  lemma {:induction false} ComplementBits(x: nat, n: nat, k: nat)
    requires x < Pow2(n) && k < n
    ensures Bit(Pow2(n) - 1 - x, k) == !Bit(x, k)
    decreases n
  {
    var h := Pow2(n - 1) - 1 - x / 2;
    assert Pow2(n) - 1 - x == 2 * h + (1 - x % 2);
    BitOfDouble(h, 1 - x % 2, k);
    if k > 0 {
      ComplementBits(x / 2, n - 1, k - 1);
    }
  }

  lemma {:induction false} BitOrBelow(x: nat, y: nat, k: nat)
    requires x < Pow2(k) && y < Pow2(k)
    ensures BitOr(x, y) < Pow2(k)
    decreases k
  {
    if x != 0 && y != 0 {
      BitOrBelow(x / 2, y / 2, k - 1);
    }
  }

  lemma {:induction false} BitAndLowOnes(x: nat, k: nat)
    requires x < Pow2(k)
    ensures BitAnd(Pow2(k) - 1, x) == x
    ensures BitAnd(x, Pow2(k) - 1) == x
    decreases k
  {
    if k > 0 && x != 0 {
      BitAndLowOnes(x / 2, k - 1);
    }
  }

  /** `!x` on a 64-bit word: each of the 64 bits flipped. */
  function Not64(x: u64): (r: u64)
    ensures forall k: nat :: k < 64 ==> Bit(r, k) == !Bit(x, k)
    ensures x + r == MAX
  {
    Pow2Is2To64();
    forall k: nat | k < 64
      ensures Bit(MAX - x, k) == !Bit(x, k)
    {
      ComplementBits(x, 64, k);
    }
    MAX - x
  }

  /** `x & y` on 64-bit words: bit k is set exactly when it is set in both
      operands. */
  function And64(x: u64, y: u64): (r: u64)
    ensures forall k: nat :: Bit(r, k) == (Bit(x, k) && Bit(y, k))
    ensures r <= x && r <= y
  {
    forall k: nat
      ensures Bit(BitAnd(x, y), k) == (Bit(x, k) && Bit(y, k))
    {
      BitAndBits(x, y, k);
    }
    BitAnd(x, y)
  }

  /** `x | y` on 64-bit words: bit k is set exactly when it is set in either
      operand. */
  function Or64(x: u64, y: u64): (r: u64)
    ensures forall k: nat :: Bit(r, k) == (Bit(x, k) || Bit(y, k))
    ensures x <= r && y <= r
  {
    Pow2Is2To64();
    BitOrBelow(x, y, 64);
    forall k: nat
      ensures Bit(BitOr(x, y), k) == (Bit(x, k) || Bit(y, k))
    {
      BitOrBits(x, y, k);
    }
    BitOr(x, y)
  }

  /** The all-ones mask absorbs under `&`, the zero mask annihilates, and
      zero is neutral for `|`. */
  lemma MaskLaws(x: u64)
    ensures And64(MAX, x) == x && And64(x, MAX) == x
    ensures And64(0, x) == 0 && And64(x, 0) == 0
    ensures Or64(0, x) == x && Or64(x, 0) == x
  {
    Pow2Is2To64();
    BitAndLowOnes(x, 64);
  }

  /** `u64::from(flag).wrapping_neg()` is all ones for a set flag and zero
      otherwise. */
  lemma FlagMask(flag: bool)
    ensures WrappingNeg(FromBool(flag)) == if flag then MAX else 0
  {
  }

  /** A mask made from a flag by `u64::from(flag).wrapping_neg()` is all ones
      when the flag is set and zero otherwise, so both masked-select shapes
      used by the kernel return exactly one of the two words, never a blend. */
  lemma MaskSelect(flag: bool, x: u64, y: u64)
    ensures Or64(And64(Not64(WrappingNeg(FromBool(flag))), x),
                 And64(WrappingNeg(FromBool(flag)), y)) == if flag then y else x
    ensures Or64(And64(WrappingNeg(FromBool(flag)), y),
                 And64(Not64(WrappingNeg(FromBool(flag))), x)) == if flag then y else x
  {
    MaskLaws(x);
    MaskLaws(y);
  }
}
