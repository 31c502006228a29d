/** The register file of the two unrolled multiplication tiers: the six
    accumulator words r10..r15 that survive from round to round, the extra
    top word r16 a multiply-accumulate row produces, and the linear carry
    algebra of the add chains the tiers run over them. Values are written in
    Horner form with the literal radix 2^64, which keeps every chain fact
    linear. */
module Registers {
  import opened Words
  import opened Limbs
  import opened Constants
  import opened Field

  /** 2^320, the weight of the top accumulator word. */
  const W5: int := 0x1_0000_0000_0000_0000_0000_0000_0000_0000_0000_0000_0000_0000_0000_0000_0000_0000_0000_0000_0000_0000

  /** x0 + x1·2^64 + ... + x5·2^320. */
  function H6(x0: int, x1: int, x2: int, x3: int, x4: int, x5: int): int
  {
    x0 + BASE * (x1 + BASE * (x2 + BASE * (x3 + BASE * (x4 + BASE * x5))))
  }

  /** Splitting off the low word. */
  lemma H6Low(x0: int, x1: int, x2: int, x3: int, x4: int, x5: int)
    ensures H6(x0, x1, x2, x3, x4, x5) == x0 + BASE * H6(x1, x2, x3, x4, x5, 0)
  {
  }

  /** Splitting off the top word. */
  lemma H6Top(x0: int, x1: int, x2: int, x3: int, x4: int, x5: int)
    ensures H6(x0, x1, x2, x3, x4, x5) == H6(x0, x1, x2, x3, x4, 0) + W5 * x5
  {
  }

  /** The six accumulator registers between rounds, r10 least significant. */
  datatype Regs6 = Regs6(r10: u64, r11: u64, r12: u64, r13: u64, r14: u64, r15: u64)

  /** The seven registers after a multiply-accumulate row: the six
      accumulator words and the top word r16. */
  datatype Regs7 = Regs7(low: Regs6, r16: u64)

  function Regs6Value(r: Regs6): nat
  {
    H6(r.r10, r.r11, r.r12, r.r13, r.r14, r.r15)
  }

  function Regs7Value(w: Regs7): nat
  {
    Regs6Value(w.low) + R * w.r16
  }

  /** The words of an element loaded into registers. */
  function Load(w: W6x64): (r: Regs6)
    ensures Regs6Value(r) == Value(w)
  {
    ValOf6(w.v);
    Regs6(w.v[0], w.v[1], w.v[2], w.v[3], w.v[4], w.v[5])
  }

  /** The registers stored into the words of a result. */
  function Store(r: Regs6): (w: W6x64)
    ensures Value(w) == Regs6Value(r)
  {
    var s := [r.r10, r.r11, r.r12, r.r13, r.r14, r.r15];
    ValOf6(s);
    W6x64(s)
  }

  /** (a0 + 2^64·x)·y = a0·y + 2^64·(x·y). */
  lemma ScaleStep(a0: int, x: int, y: int)
    ensures (a0 + BASE * x) * y == a0 * y + BASE * (x * y)
  {
  }

  /** A row of six 64x64 products, each split into high and low words, sums
      to the product of the whole number: Σ lo_j·2^(64j) + 2^64·Σ hi_j·2^(64j)
      = (Σ a_j·2^(64j))·y. */
  lemma SplitProducts(a0: int, a1: int, a2: int, a3: int, a4: int, a5: int, y: int,
                      h0: int, h1: int, h2: int, h3: int, h4: int, h5: int,
                      l0: int, l1: int, l2: int, l3: int, l4: int, l5: int)
    requires h0 * BASE + l0 == a0 * y && h1 * BASE + l1 == a1 * y
    requires h2 * BASE + l2 == a2 * y && h3 * BASE + l3 == a3 * y
    requires h4 * BASE + l4 == a4 * y && h5 * BASE + l5 == a5 * y
    ensures H6(l0, l1, l2, l3, l4, l5) + BASE * H6(h0, h1, h2, h3, h4, h5) == H6(a0, a1, a2, a3, a4, a5) * y
  {
    var x4 := a4 + BASE * a5;
    var x3 := a3 + BASE * x4;
    var x2 := a2 + BASE * x3;
    var x1 := a1 + BASE * x2;
    ScaleStep(a4, a5, y);
    ScaleStep(a3, x4, y);
    ScaleStep(a2, x3, y);
    ScaleStep(a1, x2, y);
    ScaleStep(a0, x1, y);
  }

  /** The high-word chain of a row: the high words h0..h4 are added one word
      up into x1..x5 with a rippling carry, and the last high word plus the
      final carry becomes the new top word. */
  lemma ShiftedChain(x1: int, x2: int, x3: int, x4: int, x5: int,
                     h0: int, h1: int, h2: int, h3: int, h4: int, h5: int,
                     s1: int, s2: int, s3: int, s4: int, s5: int, top: int,
                     c1: int, c2: int, c3: int, c4: int, c5: int)
    requires s1 + c1 * BASE == x1 + h0
    requires s2 + c2 * BASE == x2 + h1 + c1
    requires s3 + c3 * BASE == x3 + h2 + c2
    requires s4 + c4 * BASE == x4 + h3 + c3
    requires s5 + c5 * BASE == x5 + h4 + c4
    requires top == h5 + c5
    ensures H6(s1, s2, s3, s4, s5, top) == H6(x1, x2, x3, x4, x5, 0) + H6(h0, h1, h2, h3, h4, h5)
  {
  }

  /** The high-word chain's equation on whole registers: mid is t with
      hi added one word up, and top is the word above r15. */
  lemma HighSplit(t: Regs6, hi: Regs6, mid: Regs6, top: int)
    requires mid.r10 == t.r10
    requires H6(mid.r11, mid.r12, mid.r13, mid.r14, mid.r15, top)
             == H6(t.r11, t.r12, t.r13, t.r14, t.r15, 0) + Regs6Value(hi)
    ensures Regs6Value(mid) + R * top == Regs6Value(t) + BASE * Regs6Value(hi)
  {
    H6Low(t.r10, t.r11, t.r12, t.r13, t.r14, t.r15);
    H6Low(mid.r10, mid.r11, mid.r12, mid.r13, mid.r14, mid.r15);
    H6Top(mid.r11, mid.r12, mid.r13, mid.r14, mid.r15, top);
  }

  /** A full six-word addition chain with carry-in c0 and carry-out c6. */
  lemma AddChain(x0: int, x1: int, x2: int, x3: int, x4: int, x5: int,
                 y0: int, y1: int, y2: int, y3: int, y4: int, y5: int,
                 s0: int, s1: int, s2: int, s3: int, s4: int, s5: int,
                 c0: int, c1: int, c2: int, c3: int, c4: int, c5: int, c6: int)
    requires s0 + c1 * BASE == x0 + y0 + c0
    requires s1 + c2 * BASE == x1 + y1 + c1
    requires s2 + c3 * BASE == x2 + y2 + c2
    requires s3 + c4 * BASE == x3 + y3 + c3
    requires s4 + c5 * BASE == x4 + y4 + c4
    requires s5 + c6 * BASE == x5 + y5 + c5
    ensures H6(s0, s1, s2, s3, s4, s5) + c6 * R == H6(x0, x1, x2, x3, x4, x5) + H6(y0, y1, y2, y3, y4, y5) + c0
  {
  }

  /** A full six-word subtraction chain with borrow-out b6. */
  lemma SubChain(x0: int, x1: int, x2: int, x3: int, x4: int, x5: int,
                 y0: int, y1: int, y2: int, y3: int, y4: int, y5: int,
                 d0: int, d1: int, d2: int, d3: int, d4: int, d5: int,
                 b1: int, b2: int, b3: int, b4: int, b5: int, b6: int)
    requires d0 - b1 * BASE == x0 - y0
    requires d1 - b2 * BASE == x1 - y1 - b1
    requires d2 - b3 * BASE == x2 - y2 - b2
    requires d3 - b4 * BASE == x3 - y3 - b3
    requires d4 - b5 * BASE == x4 - y4 - b4
    requires d5 - b6 * BASE == x5 - y5 - b5
    ensures H6(d0, d1, d2, d3, d4, d5) - b6 * R == H6(x0, x1, x2, x3, x4, x5) - H6(y0, y1, y2, y3, y4, y5)
  {
  }

  /** The prime's limbs in Horner form. */
  lemma ModulusWords()
    ensures H6(N[0], N[1], N[2], N[3], N[4], N[5]) == MODULUS
  {
  }
}
