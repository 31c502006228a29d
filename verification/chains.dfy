/** Word-level carry and borrow chains shared by the loop-based kernels of
    both crates: one step of an addition or subtraction chain, the inner
    multiply-accumulate loop, the two halves of a loop-based CIOS round and
    the final conditional subtraction with its masked select. */
module Chains {
  import opened Words
  import opened Limbs
  import opened Constants
  import opened Field
  import opened Cios

  /** Writing limb i of an addition chain extends the invariant
      sum[..i] + carry·2^(64i) = x[..i] + y[..i] by one limb. */
  lemma AddStep(sum: seq<u64>, x: seq<u64>, y: seq<u64>, i: nat, c: int, s: u64, c2: int)
    requires i < |sum| && i < |x| && i < |y|
    requires Val(sum[..i]) + c * Pow(i) == Val(x[..i]) + Val(y[..i])
    requires s + c2 * BASE == x[i] + y[i] + c
    ensures Val(sum[i := s][..i + 1]) + c2 * Pow(i + 1) == Val(x[..i + 1]) + Val(y[..i + 1])
  {
    assert sum[i := s][..i] == sum[..i];
    ValPrefix(sum[i := s], i);
    ValPrefix(x, i);
    ValPrefix(y, i);
    AddChainStep(Val(sum[..i]), Val(x[..i]), Val(y[..i]), c, Pow(i), s, x[i], y[i], c2,
                 Val(sum[i := s][..i + 1]), Val(x[..i + 1]), Val(y[..i + 1]), Pow(i + 1));
  }

  /** Writing limb i of a subtraction chain extends the invariant
      diff[..i] - borrow·2^(64i) = x[..i] - y[..i] by one limb. */
  lemma SubStep(diff: seq<u64>, x: seq<u64>, y: seq<u64>, i: nat, c: int, d: u64, c2: int)
    requires i < |diff| && i < |x| && i < |y|
    requires Val(diff[..i]) - c * Pow(i) == Val(x[..i]) - Val(y[..i])
    requires d - c2 * BASE == x[i] - y[i] - c
    ensures Val(diff[i := d][..i + 1]) - c2 * Pow(i + 1) == Val(x[..i + 1]) - Val(y[..i + 1])
  {
    assert diff[i := d][..i] == diff[..i];
    ValPrefix(diff[i := d], i);
    ValPrefix(x, i);
    ValPrefix(y, i);
    SubChainStep(Val(diff[..i]), Val(x[..i]), Val(y[..i]), c, Pow(i), d, x[i], y[i], c2,
                 Val(diff[i := d][..i + 1]), Val(x[..i + 1]), Val(y[..i + 1]), Pow(i + 1));
  }

  /** The `for i in 0..6` addition loop of `fe_add`: per limb, the two
      `overflowing_add`s of `FullAdd` (the limbs, then the incoming carry),
      the outgoing carry the or of the two flags. The sum starts as the
      all-zero default. */
  method AddLimbs(x: seq<u64>, y: seq<u64>) returns (sum: seq<u64>, carry: bool)
    requires |x| == |y|
    ensures |sum| == |x|
    ensures Val(sum) + FromBool(carry) * Pow(|x|) == Val(x) + Val(y)
  {
    sum := seq(|x|, _ => 0);
    carry := false;
    for i := 0 to |x|
      invariant |sum| == |x|
      invariant Val(sum[..i]) + FromBool(carry) * Pow(i) == Val(x[..i]) + Val(y[..i])
    {
      var (s, c) := FullAdd(carry, x[i], y[i]);
      AddStep(sum, x, y, i, FromBool(carry), s, FromBool(c));
      sum := sum[i := s];
      carry := c;
    }
    assert sum[..|x|] == sum && x[..|x|] == x && y[..|x|] == y;
  }

  /** The first `for i in 0..6` loop of `fe_sub`: per limb, the two
      `overflowing_sub`s of `FullSub` (the limbs, then the incoming borrow),
      the outgoing borrow the or of the two flags. */
  method SubLimbs(x: seq<u64>, y: seq<u64>) returns (diff: seq<u64>, borrow: bool)
    requires |x| == |y|
    ensures |diff| == |x|
    ensures Val(diff) - FromBool(borrow) * Pow(|x|) == Val(x) - Val(y)
  {
    diff := seq(|x|, _ => 0);
    borrow := false;
    for i := 0 to |x|
      invariant |diff| == |x|
      invariant Val(diff[..i]) - FromBool(borrow) * Pow(i) == Val(x[..i]) - Val(y[..i])
    {
      var (d, b) := FullSub(borrow, x[i], y[i]);
      SubStep(diff, x, y, i, FromBool(borrow), d, FromBool(b));
      diff := diff[i := d];
      borrow := b;
    }
    assert diff[..|x|] == diff && x[..|x|] == x && y[..|x|] == y;
  }

  /** A borrow chain with a single `overflowing_sub` per limb, of y[i] plus
      the incoming borrow: sound because no limb of y is all ones, so that
      sum never overflows. It is the trial subtraction of N in `fe_add`, the
      correction step of `fe_sub` and the final subtraction of N in
      `fe_mont_mul`. */
  method SubFoldedBorrow(x: seq<u64>, y: seq<u64>) returns (diff: seq<u64>, borrow: bool)
    requires |x| == |y|
    requires forall i :: 0 <= i < |y| ==> y[i] < MAX
    ensures |diff| == |x|
    ensures Val(diff) - FromBool(borrow) * Pow(|x|) == Val(x) - Val(y)
  {
    diff := seq(|x|, _ => 0);
    borrow := false;
    for i := 0 to |x|
      invariant |diff| == |x|
      invariant Val(diff[..i]) - FromBool(borrow) * Pow(i) == Val(x[..i]) - Val(y[..i])
    {
      var difBor := OverflowingSub(x[i], y[i] + FromBool(borrow));
      SubStep(diff, x, y, i, FromBool(borrow), difBor.0, FromBool(difBor.1));
      diff := diff[i := difBor.0];
      borrow := difBor.1;
    }
    assert diff[..|x|] == diff && x[..|x|] == x && y[..|x|] == y;
  }

  /** `mask & s[i]` for every limb. */
  function MaskLimbs(mask: u64, s: seq<u64>): (r: seq<u64>)
    requires mask == 0 || mask == MAX
    ensures |r| == |s|
    ensures r == if mask == MAX then s else seq(|s|, _ => 0)
  {
    MaskAll(mask, s);
    seq(|s|, i requires 0 <= i < |s| => And64(mask, s[i]))
  }

  lemma MaskAll(mask: u64, s: seq<u64>)
    requires mask == 0 || mask == MAX
    ensures seq(|s|, i requires 0 <= i < |s| => And64(mask, s[i]))
            == if mask == MAX then s else seq(|s|, _ => 0)
  {
    forall i | 0 <= i < |s|
      ensures And64(mask, s[i]) == if mask == MAX then s[i] else 0
    {
      MaskLaws(s[i]);
    }
  }

  /** The masked select `(!mask & x[i]) | (mask & y[i])` over all limbs: y
      when the mask is all ones, x when it is zero. */
  method SelectLimbs(mask: u64, x: seq<u64>, y: seq<u64>) returns (r: seq<u64>)
    requires |x| == |y| && (mask == 0 || mask == MAX)
    ensures r == if mask == MAX then y else x
  {
    r := seq(|x|, _ => 0);
    for i := 0 to |x|
      invariant |r| == |x|
      invariant forall k :: 0 <= k < i ==> r[k] == if mask == MAX then y[k] else x[k]
    {
      MaskLaws(x[i]);
      MaskLaws(y[i]);
      r := r[i := Or64(And64(Not64(mask), x[i]), And64(mask, y[i]))];
    }
  }

  /** The same select written `(mask & y[i]) | (!mask & x[i])`, as
      `fe_mont_mul` does. */
  method SelectLimbsSwapped(mask: u64, x: seq<u64>, y: seq<u64>) returns (r: seq<u64>)
    requires |x| == |y| && (mask == 0 || mask == MAX)
    ensures r == if mask == MAX then y else x
  {
    r := seq(|x|, _ => 0);
    for i := 0 to |x|
      invariant |r| == |x|
      invariant forall k :: 0 <= k < i ==> r[k] == if mask == MAX then y[k] else x[k]
    {
      MaskLaws(x[i]);
      MaskLaws(y[i]);
      r := r[i := Or64(And64(mask, y[i]), And64(Not64(mask), x[i]))];
    }
  }

  /** The final step of addition and multiplication: t below 2N, and
      vd - borrow·R = t - N from subtracting N limb by limb. The borrow is set
      exactly when t is already below N, and selecting t on a borrow and the
      difference otherwise yields t mod N. */
  lemma CondSubtract(t: int, vd: int, borrow: bool)
    requires 0 <= t < 2 * MODULUS && 0 <= vd < R
    requires vd - FromBool(borrow) * R == t - MODULUS
    ensures borrow <==> t < MODULUS
    ensures (if borrow then t else vd) == t % MODULUS
  {
    ModulusFacts();
    if t >= MODULUS {
      ModAddMultiple(t - MODULUS, 1, MODULUS);
      ModSmall(t - MODULUS, MODULUS);
    } else {
      ModSmall(t, MODULUS);
    }
  }

  /** The final step of subtraction: d - bs·R = x - y from the first chain,
      then the masked correction c (2^384 - N on a borrow, zero otherwise)
      is subtracted modulo R. The result is (x - y) mod N and the second
      chain's final borrow, which the kernel discards, is never set. */
  lemma CorrectedDifference(x: int, y: int, d: int, bs: bool, c: int, r: int, bf: bool)
    requires 0 <= x < MODULUS && 0 <= y < MODULUS && 0 <= d < R && 0 <= r < R
    requires d - FromBool(bs) * R == x - y
    requires c == if bs then R - MODULUS else 0
    requires r - FromBool(bf) * R == d - c
    ensures r == (x - y) % MODULUS && !bf
  {
    ModulusFacts();
    if bs {
      ModAddMultiple(x - y, 1, MODULUS);
      ModSmall(x - y + MODULUS, MODULUS);
    } else {
      ModSmall(x - y, MODULUS);
    }
  }

  /** The inner `for j in 0..6` loop of every loop-based multiplication:
      adds x·y·2^(64i) into temp through a 128-bit `hilo` per limb, writing
      only temp[i..i+6], and returns the final carry. */
  method MulAccumulate(temp: seq<u64>, i: nat, x: seq<u64>, y: u64) returns (out: seq<u64>, carry: u64)
    requires |x| == 6 && i + 6 <= |temp|
    ensures |out| == |temp|
    ensures out[..i] == temp[..i] && out[i + 6..] == temp[i + 6..]
    ensures Val(out) + carry * Pow(i + 6) == Val(temp) + Val(x) * y * Pow(i)
  {
    out := temp;
    carry := 0;
    for j := 0 to 6
      invariant |out| == |temp|
      invariant out[..i] == temp[..i] && out[i + j..] == temp[i + j..]
      invariant Val(out) + carry * Pow(i + j) == Val(temp) + Val(x[..j]) * y * Pow(i)
    {
      MulAddBound(x[j], y, out[i + j], carry);
      var hilo: u128 := x[j] * y + out[i + j] + carry;
      var lo: u64 := hilo % BASE;
      var hi: u64 := hilo / BASE;
      AccumulateStep(out, temp, i, j, x, y, carry, lo, hi);
      out := out[i + j := lo];
      carry := hi;
    }
    assert x[..6] == x;
  }

  /** One iteration of `MulAccumulate`: the word written at i+j extends the
      accumulated prefix of x by one limb. */
  lemma AccumulateStep(out: seq<u64>, temp: seq<u64>, i: nat, j: nat,
                       x: seq<u64>, y: u64, carry: int, lo: u64, hi: int)
    requires |x| == 6 && j < 6 && i + 6 <= |temp| && |out| == |temp|
    requires out[..i] == temp[..i] && out[i + j..] == temp[i + j..]
    requires Val(out) + carry * Pow(i + j) == Val(temp) + Val(x[..j]) * y * Pow(i)
    requires lo + hi * BASE == x[j] * y + out[i + j] + carry
    ensures out[i + j := lo][..i] == temp[..i] && out[i + j := lo][i + j + 1..] == temp[i + j + 1..]
    ensures Val(out[i + j := lo]) + hi * Pow(i + j + 1) == Val(temp) + Val(x[..j + 1]) * y * Pow(i)
  {
    assert out[i + j] == temp[i + j];
    ValUpdate(out, i + j, lo);
    ValPrefix(x, j);
    PowAdd(i, j);
    MulAccStep(Val(out), Val(temp), Val(x[..j]), y, carry, Pow(i), Pow(j), Pow(i + j),
               lo, hi, out[i + j], x[j], Val(out[i + j := lo]), Val(x[..j + 1]), Pow(i + j + 1));
    assert out[i + j := lo][i + j + 1..] == out[i + j + 1..];
  }

  /** The loop invariant of the twelve-word `temp` array at the start of round
      i: it holds the accumulator of the first i rounds shifted up by i words,
      and the words from i+6 on are still zero. (The length is left open so
      that proofs about it never unfold `Val` over a fixed number of words.) */
  ghost predicate TempHolds(temp: seq<u64>, a: W6x64, b: W6x64, i: nat)
    requires i <= 6
  {
    i + 6 <= |temp| && Val(temp) == Acc(a, b, i) * Pow(i) && ZerosFrom(temp, i + 6)
  }

  /** Every word from position k on is zero. */
  ghost predicate ZerosFrom(s: seq<u64>, k: nat)
  {
    forall j :: k <= j < |s| ==> s[j] == 0
  }

  /** A vector that agrees with another from position k on inherits the
      other's zero tail from any z >= k. */
  lemma TailKept(old_: seq<u64>, new_: seq<u64>, k: nat, z: nat)
    requires k <= z <= |old_| == |new_| && new_[k..] == old_[k..] && ZerosFrom(old_, z)
    ensures ZerosFrom(new_, z)
  {
    forall j | z <= j < |new_|
      ensures new_[j] == 0
    {
      assert new_[j] == new_[k..][j - k];
    }
  }

  /** Writing word k leaves the zero tail above it in place. */
  lemma UpdateKeepsZeros(s: seq<u64>, k: nat, v: u64)
    requires k < |s| && ZerosFrom(s, k + 1)
    ensures ZerosFrom(s[k := v], k + 1)
  {
  }

  lemma DistribPow(x: int, y: int, p: int)
    ensures x * p + y * p == (x + y) * p
  {
  }

  /** Before the first carry of round i is added, word i+6 is still zero. */
  lemma CarrySlotEmpty(temp: seq<u64>, a: W6x64, b: W6x64, i: nat, t1: seq<u64>)
    requires i < 6 && TempHolds(temp, a, b, i) && |t1| == |temp| > i + 6
    requires t1[i + 6..] == temp[i + 6..]
    ensures t1[i + 6] == 0
  {
    TailKept(temp, t1, i + 6, i + 6);
  }

  /** The first half of a loop-based round: after accumulating a·b[i] the
      carry lands in the still-empty word i+6 (so the wrapping add cannot
      wrap), and the word at i is the low word the digit is chosen from. */
  lemma FirstHalf(temp: seq<u64>, a: W6x64, b: W6x64, i: nat, t1: seq<u64>, c1: u64, t2: seq<u64>)
    requires i < 6 && TempHolds(temp, a, b, i) && |t1| == |temp| > i + 6
    requires t1[i + 6..] == temp[i + 6..]
    requires Val(t1) + c1 * Pow(i + 6) == Val(temp) + Value(a) * b.v[i] * Pow(i)
    requires t2 == t1[i + 6 := WrappingAdd(t1[i + 6], c1)]
    ensures Val(t2) == (Acc(a, b, i) + Value(a) * b.v[i]) * Pow(i)
    ensures WrappingMul(t2[i], N_PRIME) == RoundDigit(a, b, i)
    ensures ZerosFrom(t2, i + 7)
  {
    MulNonneg(Value(a), b.v[i]);
    var s := Acc(a, b, i) + Value(a) * b.v[i];
    HalfRoundAdd(temp, t1, c1, i, Acc(a, b, i), Value(a) * b.v[i], t2);
    DigitOfLow(Acc(a, b, i), Value(a), b.v[i], s, t2[i]);
  }

  lemma DigitOfLow(t: nat, x: nat, bi: u64, s: int, low: u64)
    requires s == t + x * bi && low == s % BASE
    ensures WrappingMul(low, N_PRIME) == DigitOf(t, x, bi)
  {
  }

  /** Adding prod·2^(64i) into a vector holding acc·2^(64i) whose words from
      i+6 on are zero, then storing the carry at i+6. */
  lemma HalfRoundAdd(temp: seq<u64>, t1: seq<u64>, c1: u64, i: nat, acc: nat, prod: nat, t2: seq<u64>)
    requires i + 6 < |temp| == |t1|
    requires Val(temp) == acc * Pow(i) && ZerosFrom(temp, i + 6)
    requires t1[i + 6..] == temp[i + 6..]
    requires Val(t1) + c1 * Pow(i + 6) == Val(temp) + prod * Pow(i)
    requires t2 == t1[i + 6 := WrappingAdd(t1[i + 6], c1)]
    ensures Val(t2) == (acc + prod) * Pow(i)
    ensures t2[i] == (acc + prod) % BASE
    ensures ZerosFrom(t2, i + 7)
  {
    TailKept(temp, t1, i + 6, i + 6);
    assert t1[i + 6] == 0;
    assert t2 == t1[i + 6 := c1];
    UpdateKeepsZeros(t1, i + 6, c1);
    StoreCarry(Val(temp), t1, c1, i, acc, prod);
  }

  lemma StoreCarry(vt: int, t1: seq<u64>, c1: u64, i: nat, acc: nat, prod: nat)
    requires i + 6 < |t1| && t1[i + 6] == 0
    requires vt == acc * Pow(i)
    requires Val(t1) + c1 * Pow(i + 6) == vt + prod * Pow(i)
    ensures Val(t1[i + 6 := c1]) == (acc + prod) * Pow(i)
    ensures t1[i + 6 := c1][i] == (acc + prod) % BASE
  {
    var t2 := t1[i + 6 := c1];
    ValUpdate(t1, i + 6, c1);
    HalfAddArith(vt, Val(t1), Val(t2), c1, t1[i + 6], Pow(i + 6), acc, prod, Pow(i));
    ValShifted(t2, i, acc + prod);
  }

  lemma HalfAddArith(vt: int, vt1: int, vt2: int, c1: int, top: int, p6: int, acc: int, prod: int, p: int)
    requires top == 0 && vt2 == vt1 + (c1 - top) * p6
    requires vt1 + c1 * p6 == vt + prod * p && vt == acc * p
    ensures vt2 == (acc + prod) * p
  {
  }

  /** The second half of a loop-based round: after accumulating m·N the two
      carries added into word i+6 stay below 2^64 (the round value is below
      2N·2^64), and `temp` holds the next accumulator. */
  lemma SecondHalf(t2: seq<u64>, a: W6x64, b: W6x64, i: nat, t3: seq<u64>, c2: u64)
    requires i < 6 && Reduced(a) && |t2| == |t3| > i + 6
    requires Val(t2) == (Acc(a, b, i) + Value(a) * b.v[i]) * Pow(i)
    requires ZerosFrom(t2, i + 7)
    requires t3[i + 6..] == t2[i + 6..]
    requires Val(t3) + c2 * Pow(i + 6) == Val(t2) + Val(N) * RoundDigit(a, b, i) * Pow(i)
    ensures t3[i + 6] + c2 < BASE
    ensures TempHolds(t3[i + 6 := WrappingAdd(t3[i + 6], c2)], a, b, i + 1)
  {
    ModulusFacts();
    AccBound(a, b, i);
    MulNonneg(Value(a), b.v[i]);
    var s := Acc(a, b, i) + Value(a) * b.v[i];
    RoundFacts(Acc(a, b, i), Value(a), b.v[i]);
    MulNonneg(RoundDigit(a, b, i), MODULUS);
    HalfRoundReduce(t2, t3, c2, i, s, RoundDigit(a, b, i) * MODULUS, Acc(a, b, i + 1));
  }

  /** Adding d·2^(64i) into a vector holding s·2^(64i) whose words from i+7
      on are zero, where s + d is below 2N·2^64 and equals acc·2^64, then
      adding the carry into word i+6. */
  lemma HalfRoundReduce(t2: seq<u64>, t3: seq<u64>, c2: u64, i: nat, s: nat, d: nat, acc: nat)
    requires i + 6 < |t2| == |t3|
    requires Val(t2) == s * Pow(i) && ZerosFrom(t2, i + 7)
    requires t3[i + 6..] == t2[i + 6..]
    requires Val(t3) + c2 * Pow(i + 6) == Val(t2) + d * Pow(i)
    requires s + d == acc * BASE && s + d < 2 * MODULUS * BASE
    ensures t3[i + 6] + c2 < BASE
    ensures Val(t3[i + 6 := WrappingAdd(t3[i + 6], c2)]) == acc * Pow(i + 1)
    ensures ZerosFrom(t3[i + 6 := WrappingAdd(t3[i + 6], c2)], i + 7)
  {
    var v := s + d;
    DistribPow(s, d, Pow(i));
    LimbBelowVal(t3, i + 6);
    var w := t3[i + 6] + c2;
    PowAdd(i, 6);
    RIsPow6();
    TopWordBound(w, Val(t3), c2, v, Pow(i), Pow(i + 6));
    MulStrictCancel(w, BASE, R);
    ValUpdate(t3, i + 6, w);
    PowAdd(i, 1);
    assert Pow(1) == BASE;
    MulAssoc(acc, BASE, Pow(i));
    TailKept(t2, t3, i + 6, i + 7);
    UpdateKeepsZeros(t3, i + 6, w);
  }

  lemma MulNonneg(x: nat, y: nat)
    ensures x * y >= 0
  {
  }

  /** The arithmetic behind the top-word bound of `SecondHalf`. */
  lemma TopWordBound(w: int, vt: int, c: int, v: int, pi: int, p: int)
    requires pi > 0 && p == pi * R && v < 2 * MODULUS * BASE
    requires (w - c) * p <= vt && vt + c * p == v * pi
    ensures w * R < BASE * R
  {
    ModulusFacts();
    assert w * p <= v * pi;
    MulAssoc(w, R, pi);
    assert w * R * pi <= v * pi;
    assert w * R <= v by {
      if w * R > v {
        MulStrictCancelRev(v, w * R, pi);
      }
    }
  }

  lemma MulStrictCancelRev(x: int, y: int, p: int)
    requires p > 0 && x < y
    ensures x * p < y * p
  {
  }

  /** The sum of two reduced values fits in six limbs, so the final carry of
      the addition chain, which `fe_add` ignores, is never set. */
  lemma SumFits(vs: int, carry: bool, x: nat, y: nat)
    requires 0 <= vs && x < MODULUS && y < MODULUS
    requires vs + FromBool(carry) * Pow(6) == x + y
    ensures !carry && vs == x + y
  {
    RIsPow6();
    ModulusFacts();
  }

  /** The zeroed `temp` array satisfies the round invariant before round 0. */
  lemma ZeroTemp(temp: seq<u64>, a: W6x64, b: W6x64)
    requires |temp| >= 6 && temp == seq(|temp|, _ => 0)
    ensures TempHolds(temp, a, b, 0)
  {
    ValZeros(|temp|);
  }

  /** After six rounds the upper six words of `temp` hold the accumulator,
      which is below 2N and congruent to the Montgomery product. */
  lemma TopHalf(temp: seq<u64>, a: W6x64, b: W6x64, hi: seq<u64>)
    requires Reduced(a) && |temp| == 12 && TempHolds(temp, a, b, 6) && hi == temp[6..]
    ensures |hi| == 6 && Val(hi) == Acc(a, b, 6) && Acc(a, b, 6) < 2 * MODULUS
    ensures Val(hi) % MODULUS == MontMul(Value(a), Value(b))
  {
    ValShifted(temp, 6, Acc(a, b, 6));
    CiosIsMontProduct(a, b);
  }
}
