/** Little-endian limb vectors and the natural number they denote:
    Val(s) = s[0] + s[1]·2^64 + ... + s[n-1]·2^(64·(n-1)). */
module Limbs {
  import opened Words

  /** 2^(64·n) */
  function Pow(n: nat): (r: nat)
    ensures r >= 1
  {
    if n == 0 then 1 else BASE * Pow(n - 1)
  }

  /** The value of a limb vector, least significant limb first. */
  function Val(s: seq<u64>): (r: nat)
    ensures r < Pow(|s|)
  {
    if |s| == 0 then 0
    else
      var n := |s| - 1;
      MulMonotone(Pow(n), s[n], MAX);
      Val(s[..n]) + s[n] * Pow(n)
  }

  // Small facts of integer arithmetic, kept apart so that each proof that
  // needs one sees only the multiplication it is about.

  lemma MulAssoc(a: int, b: int, c: int)
    ensures a * (b * c) == (a * b) * c
  {
  }

  lemma MulSubDistrib(a: int, b: int, c: int)
    ensures (a - b) * c == a * c - b * c
  {
  }

  lemma MulStrictCancel(a: int, b: int, p: int)
    requires p > 0 && a * p < b * p
    ensures a < b
  {
    if a >= b {
      assert a * p - b * p == p * (a - b);
      MulMonotone(p, 0, a - b);
    }
  }

  lemma DivModUnique(x: int, p: int, q: int, r: int)
    requires p > 0 && 0 <= r < p && x == q * p + r
    ensures q == x / p && r == x % p
  {
    var d, e := x / p, x % p;
    assert x == d * p + e;
    assert (q - d) * p == e - r;
    assert (d - q) * p == r - e;
    MulStrictCancel(q - d, 1, p);
    MulStrictCancel(d - q, 1, p);
  }

  lemma PowValues()
    ensures Pow(1) == BASE
    ensures Pow(2) == BASE * BASE
    ensures Pow(3) == BASE * BASE * BASE
    ensures Pow(4) == BASE * BASE * BASE * BASE
    ensures Pow(5) == BASE * BASE * BASE * BASE * BASE
    ensures Pow(6) == BASE * BASE * BASE * BASE * BASE * BASE
    ensures Pow(7) == BASE * BASE * BASE * BASE * BASE * BASE * BASE
  {
  }

  lemma {:induction false} PowAdd(i: nat, j: nat)
    ensures Pow(i + j) == Pow(i) * Pow(j)
    decreases i
  {
    if i > 0 {
      PowAdd(i - 1, j);
      MulAssoc(BASE, Pow(i - 1), Pow(j));
    }
  }

  lemma ValPrefix(s: seq<u64>, j: nat)
    requires j < |s|
    ensures Val(s[..j + 1]) == Val(s[..j]) + s[j] * Pow(j)
  {
    assert s[..j + 1][..j] == s[..j];
  }

  lemma HeadArith(whole: int, pre: int, x0: int, restPre: int, rest: int, top: int, p1: int, p: int)
    requires whole == pre + top * p && pre == x0 + BASE * restPre
    requires rest == restPre + top * p1 && p == BASE * p1
    ensures whole == x0 + BASE * rest
  {
    MulAssoc(top, BASE, p1);
  }

  /** The head/tail view of Val, dual to its definition. */
  lemma {:induction false} ValHead(s: seq<u64>)
    requires |s| > 0
    ensures Val(s) == s[0] + BASE * Val(s[1..])
    decreases |s|
  {
    var n := |s| - 1;
    if n > 0 {
      ValHead(s[..n]);
      assert s[..n][1..] == s[1..][..n - 1];
      assert s[1..][n - 1] == s[n];
      HeadArith(Val(s), Val(s[..n]), s[0], Val(s[1..][..n - 1]), Val(s[1..]), s[n], Pow(n - 1), Pow(n));
    } else {
      assert s[1..] == [];
    }
  }

  lemma ValOf6(s: seq<u64>)
    requires |s| == 6
    ensures Val(s) == s[0] + BASE * (s[1] + BASE * (s[2] + BASE * (s[3] + BASE * (s[4] + BASE * s[5]))))
  {
    var s1, s2, s3, s4, s5 := s[1..], s[2..], s[3..], s[4..], s[5..];
    ValHead(s);
    ValHead(s1);
    assert s1[1..] == s2;
    ValHead(s2);
    assert s2[1..] == s3;
    ValHead(s3);
    assert s3[1..] == s4;
    ValHead(s4);
    assert s4[1..] == s5;
    ValHead(s5);
    assert s5[1..] == [];
  }

  lemma ValZeros(n: nat)
    ensures Val(seq(n, _ => 0)) == 0
  {
    if n > 0 {
      assert seq(n, _ => 0)[..n - 1] == seq(n - 1, _ => 0);
      ValZeros(n - 1);
    }
  }

  /** Limb vectors of the same length are equal exactly when their values are:
      the representation of a number below 2^(64·n) is unique. */
  lemma {:induction false} ValInjective(s: seq<u64>, t: seq<u64>)
    requires |s| == |t| && Val(s) == Val(t)
    ensures s == t
    decreases |s|
  {
    if |s| > 0 {
      ValHead(s);
      ValHead(t);
      DivModUnique(Val(s), BASE, Val(s[1..]), s[0]);
      DivModUnique(Val(t), BASE, Val(t[1..]), t[0]);
      ValInjective(s[1..], t[1..]);
      assert s == [s[0]] + s[1..];
      assert t == [t[0]] + t[1..];
    }
  }

  lemma UpdateArith(vt: int, vs: int, vtPre: int, vsPre: int, v: int, sk: int, top: int, pk: int, pn: int)
    requires vt == vtPre + top * pn && vs == vsPre + top * pn
    requires vtPre == vsPre + (v - sk) * pk
    ensures vt == vs + (v - sk) * pk
  {
  }

  /** Overwriting limb k changes the value by (v - s[k])·2^(64k). */
  lemma {:induction false} ValUpdate(s: seq<u64>, k: nat, v: u64)
    requires k < |s|
    ensures Val(s[k := v]) == Val(s) + (v - s[k]) * Pow(k)
    decreases |s|
  {
    var n := |s| - 1;
    var t := s[k := v];
    if k == n {
      assert t[..n] == s[..n];
      MulSubDistrib(v, s[k], Pow(k));
    } else {
      assert t[..n] == s[..n][k := v];
      ValUpdate(s[..n], k, v);
      UpdateArith(Val(t), Val(s), Val(t[..n]), Val(s[..n]), v, s[k], s[n], Pow(k), Pow(n));
    }
  }

  lemma SplitArith(whole: int, x0: int, rest: int, pre: int, restPre: int, p: int, tail: int)
    requires whole == x0 + BASE * rest && rest == restPre + p * tail
    requires pre == x0 + BASE * restPre
    ensures whole == pre + (BASE * p) * tail
  {
    MulAssoc(BASE, p, tail);
  }

  /** Splitting a vector at limb k splits its value. */
  lemma {:induction false} ValSplit(s: seq<u64>, k: nat)
    requires k <= |s|
    ensures Val(s) == Val(s[..k]) + Pow(k) * Val(s[k..])
    decreases k
  {
    if k == 0 {
      assert s[..0] == [] && s[0..] == s;
    } else {
      ValSplit(s[1..], k - 1);
      ValHead(s);
      ValHead(s[..k]);
      assert s[..k][1..] == s[1..][..k - 1];
      assert s[1..][k - 1..] == s[k..];
      SplitArith(Val(s), s[0], Val(s[1..]), Val(s[..k]), Val(s[1..][..k - 1]), Pow(k - 1), Val(s[k..]));
    }
  }

  lemma ShiftArith(v: int, low: int, high: int, x: int, p: int)
    requires p > 0 && 0 <= low < p
    requires v == low + p * high && v == x * p
    ensures high == x && low == 0
  {
    DivModUnique(v, p, high, low);
    DivModUnique(v, p, x, 0);
  }

  /** A vector whose value is x·2^(64k) has zeros below limb k and x from limb
      k on; its limb k is x mod 2^64. */
  lemma ValShifted(s: seq<u64>, k: nat, x: nat)
    requires k < |s| && Val(s) == x * Pow(k)
    ensures Val(s[k..]) == x && s[k] == x % BASE
  {
    ValSplit(s, k);
    ShiftArith(Val(s), Val(s[..k]), Val(s[k..]), x, Pow(k));
    ValHeadMod(s[k..]);
  }

  lemma ValHeadMod(s: seq<u64>)
    requires |s| > 0
    ensures s[0] == Val(s) % BASE
  {
    ValHead(s);
    DivModUnique(Val(s), BASE, Val(s[1..]), s[0]);
  }

  /** A single limb never outweighs the whole vector. */
  lemma LimbBelowVal(s: seq<u64>, k: nat)
    requires k < |s|
    ensures s[k] * Pow(k) <= Val(s)
  {
    ValSplit(s, k);
    ValHead(s[k..]);
    MulMonotone(Pow(k), s[k], Val(s[k..]));
  }

  /** One step of an addition carry chain at limb position j: with
      p = 2^(64j), the primed values are the unprimed ones extended by one limb. */
  lemma AddChainStep(vs: int, va: int, vb: int, c: int, p: int, s: int, a: int, b: int, c2: int,
                     vs1: int, va1: int, vb1: int, p1: int)
    requires vs + c * p == va + vb
    requires s + c2 * BASE == a + b + c
    requires vs1 == vs + s * p && va1 == va + a * p && vb1 == vb + b * p && p1 == BASE * p
    ensures vs1 + c2 * p1 == va1 + vb1
  {
    assert (s + c2 * BASE) * p == (a + b + c) * p;
    MulAssoc(c2, BASE, p);
  }

  /** One step of a subtraction borrow chain at limb position j. */
  lemma SubChainStep(vd: int, va: int, vb: int, c: int, p: int, d: int, a: int, b: int, c2: int,
                     vd1: int, va1: int, vb1: int, p1: int)
    requires vd - c * p == va - vb
    requires d - c2 * BASE == a - b - c
    requires vd1 == vd + d * p && va1 == va + a * p && vb1 == vb + b * p && p1 == BASE * p
    ensures vd1 - c2 * p1 == va1 - vb1
  {
    assert (d - c2 * BASE) * p == (a - b - c) * p;
    MulAssoc(c2, BASE, p);
  }

  /** One step of the multiply-accumulate loop on a whole vector: writing the
      low word lo over t at limb i+j and carrying hi keeps
      Val(out) + carry·2^(64(i+j)) = Val(temp) + x[..j]·y·2^(64i). */
  lemma MulAccStep(vo: int, vt: int, vx: int, y: int, c: int, pi: int, pj: int, pij: int,
                   lo: int, hi: int, t: int, xj: int, vo1: int, vx1: int, pij1: int)
    requires vo + c * pij == vt + vx * y * pi
    requires lo + hi * BASE == xj * y + t + c
    requires vo1 == vo + (lo - t) * pij && vx1 == vx + xj * pj
    requires pij == pi * pj && pij1 == BASE * pij
    ensures vo1 + hi * pij1 == vt + vx1 * y * pi
  {
    MulAssoc(hi, BASE, pij);
    assert (lo - t) * pij + hi * BASE * pij == (lo + hi * BASE - t) * pij;
    assert (xj * y + c) * pij == xj * y * pij + c * pij;
    assert xj * y * pij == xj * pj * y * pi;
    assert vx1 * y * pi == vx * y * pi + xj * pj * y * pi;
  }
}
