/** The bit arithmetic behind the bitmap macros and the two index computations
    (hagen/src/malloc.c:1938-2080): on 32-bit words, the branch-free forms and the masks compute what
    module BinMaps says in terms of single bits. */
module BitTricks {
  import opened Words
  import opened BinMaps

  const WORD32: nat := 0x1_0000_0000

  /* ---------------- word operations; `>>` is ShiftDown ---------------- */

  /** `x & y` */
  function And(x: nat, y: nat): nat {
    if x == 0 || y == 0 then 0 else (if x % 2 == 1 && y % 2 == 1 then 1 else 0) + 2 * And(x / 2, y / 2)
  }

  /** `x | y` */
  function Or(x: nat, y: nat): nat
    decreases x + y
  {
    if x == 0 then y else if y == 0 then x
    else (if x % 2 == 1 || y % 2 == 1 then 1 else 0) + 2 * Or(x / 2, y / 2)
  }

  function Sub32(x: nat, y: nat): nat
    requires x < WORD32 && y < WORD32
  {
    if x >= y then x - y else WORD32 + x - y
  }

  /** `-x` */
  function Neg32(x: nat): nat
    requires x < WORD32
  {
    Sub32(0, x)
  }

  function Shl32(x: nat, n: nat): nat { ShiftUp(x, n) % WORD32 }

  lemma {:induction false} AndBit(x: nat, n: nat)
    ensures And(x, Pow2(n)) == if Marked(x, n) then Pow2(n) else 0
    decreases n
  {
    if x == 0 {
      ZeroUnmarked(n);
    } else if n > 0 {
      AndBit(x / 2, n - 1);
    }
  }

  lemma {:induction false} ShiftIs(z: nat, n: nat, q: nat)
    requires q * Pow2(n) <= z < q * Pow2(n) + Pow2(n)
    ensures ShiftDown(z, n) == q
    decreases n
  {
    if n > 0 {
      assert q * Pow2(n) == 2 * (q * Pow2(n - 1));
      ShiftIs(z / 2, n - 1, q);
    }
  }

  lemma Pow2At32()
    ensures Pow2(2) == 4 && Pow2(3) == 8 && Pow2(4) == 16 && Pow2(8) == 0x100 && Pow2(12) == 0x1000
    ensures Pow2(14) == 0x4000 && Pow2(15) == 0x8000 && Pow2(16) == 0x1_0000 && Pow2(32) == WORD32
  {
    assert Pow2(4) == 2 * Pow2(3) == 4 * Pow2(2) == 8 * Pow2(1) == 16;
    assert Pow2(2) == 2 * Pow2(1) == 4;
    Pow2Add(4, 4);
    Pow2Add(8, 4);
    Pow2Add(12, 2);
    Pow2Add(16, 16);
  }

  lemma Pow2At1()
    ensures Pow2(0) == 1 && Pow2(1) == 2
  {
  }

  /* ---------------- the masks ---------------- */

  lemma {:induction false} AndComplement(x: nat, w: nat)
    requires x < Pow2(w)
    ensures And(x, Pow2(w) - 1 - x) == 0
    decreases w
  {
    if w > 0 { AndComplement(x / 2, w - 1); }
  }

  lemma {:induction false} AndNegation(x: nat, w: nat)
    requires 0 < x < Pow2(w)
    ensures And(x, Pow2(w) - x) == LeastBit(x)
    decreases w
  {
    if x % 2 == 1 {
      assert (Pow2(w) - x) / 2 == Pow2(w - 1) - 1 - x / 2;
      AndComplement(x / 2, w - 1);
    } else {
      assert (Pow2(w) - x) / 2 == Pow2(w - 1) - x / 2;
      AndNegation(x / 2, w - 1);
    }
  }

  /** `x & -x` is the least bit of x. */
  lemma LeastBitByNegation(x: nat)
    requires x < WORD32
    ensures And(x, Neg32(x)) == LeastBit(x)
  {
    Pow2At32();
    if x > 0 { AndNegation(x, 32); }
  }

  lemma {:induction false} OrOwnBit(k: nat, w: nat)
    requires k < w
    ensures Pow2(k) <= Pow2(w) && Or(Pow2(k), Pow2(w) - Pow2(k)) == Pow2(w) - Pow2(k)
    decreases k
  {
    Pow2Mono(k, w);
    if k == 0 {
      assert (Pow2(w) - 1) % 2 == 1;
    } else {
      assert (Pow2(w) - Pow2(k)) / 2 == Pow2(w - 1) - Pow2(k - 1);
      OrOwnBit(k - 1, w - 1);
    }
  }

  lemma {:induction false} AndHigh(k: nat, w: nat, m: nat)
    requires k < w && m < Pow2(w)
    ensures Pow2(k + 1) <= Pow2(w) && And(Pow2(w) - Pow2(k + 1), m) == BitsAbove(m, k)
    decreases k
  {
    Pow2Mono(k + 1, w);
    var h := Pow2(w) - Pow2(k + 1);
    if k == 0 {
      assert Pow2(1) == 2;
      assert h / 2 == Pow2(w - 1) - 1;
      AndOnes(m / 2, w - 1);
    } else {
      assert h / 2 == Pow2(w - 1) - Pow2(k);
      AndHigh(k - 1, w - 1, m / 2);
      if m == 0 { NoBitsAbove(k); }
      if h == 0 { SmallAbove(m, k); }
    }
  }

  lemma {:induction false} AndOnes(m: nat, w: nat)
    requires m < Pow2(w)
    ensures And(Pow2(w) - 1, m) == m
    decreases w
  {
    if w > 0 { AndOnes(m / 2, w - 1); }
  }

  lemma {:induction false} NoBitsAbove(k: nat)
    ensures BitsAbove(0, k) == 0
  {
    if k > 0 { NoBitsAbove(k - 1); }
  }

  lemma {:induction false} SmallAbove(m: nat, k: nat)
    requires m < Pow2(k + 1)
    ensures BitsAbove(m, k) == 0
    decreases k
  {
    if k > 0 { SmallAbove(m / 2, k - 1); }
  }

  lemma {:induction false} ShiftUpIs(x: nat, n: nat)
    ensures ShiftUp(x, n) == x * Pow2(n)
  {
    if n > 0 {
      ShiftUpIs(x, n - 1);
      TwiceProduct(Pow2(n - 1), x);
    }
  }

  /** `left_bits(idx2bit(i)) & m` keeps exactly the marks above i. */
  lemma LeftBitsMask(m: nat, i: nat)
    requires m < WORD32 && i < 32
    ensures var x := Shl32(Pow2(i), 1); And(Or(x, Neg32(x)), m) == BitsAbove(m, i)
  {
    Pow2At32();
    var x := Shl32(Pow2(i), 1);
    assert ShiftUp(Pow2(i), 1) == 2 * ShiftUp(Pow2(i), 0) == Pow2(i + 1);
    if i == 31 {
      assert x == 0;
      SmallAbove(m, 31);
    } else {
      Pow2Mono(i + 1, 31);
      Pow2Mono(31, 32);
      assert x == Pow2(i + 1);
      OrOwnBit(i + 1, 32);
      AndHigh(i, 32, m);
    }
  }

  /* ---------------- compute_bit2idx ---------------- */

  /** One stage of the branch-free form: `K = Y >> (s-b) & s`. */
  function StageOf(y: nat, s: nat, b: nat): nat
    requires b <= s
  {
    And(ShiftDown(y, s - b), s)
  }

  /** The stages of the branch-free form for 4, 2 and 1, and the rest. */
  function FastTail(y4: nat): nat {
    var k4 := StageOf(y4, 4, 2);
    var y2 := ShiftDown(y4, k4);
    var k2 := StageOf(y2, 2, 1);
    var y1 := ShiftDown(y2, k2);
    var k1 := StageOf(y1, 1, 0);
    k4 + k2 + k1 + ShiftDown(y1, k1)
  }

  /** The branch-free form. */
  function FastBit2Idx(x: nat): nat
    requires x > 0
  {
    var y := x - 1;
    var k16 := StageOf(y, 16, 4);
    var y8 := ShiftDown(y, k16);
    var k8 := StageOf(y8, 8, 3);
    k16 + k8 + FastTail(ShiftDown(y8, k8))
  }

  lemma {:induction false} OnesMarked(j: nat, b: nat)
    ensures Marked(Pow2(j) - 1, b) <==> b < j
    decreases b
  {
    if j == 0 {
      ZeroUnmarked(b);
    } else if b > 0 {
      assert (Pow2(j) - 1) / 2 == Pow2(j - 1) - 1;
      OnesMarked(j - 1, b - 1);
    }
  }

  lemma {:induction false} OnesShifted(j: nat, a: nat)
    ensures ShiftDown(Pow2(j) - 1, a) == Pow2(if j >= a then j - a else 0) - 1
    decreases a
  {
    if a > 0 && j > 0 {
      assert (Pow2(j) - 1) / 2 == Pow2(j - 1) - 1;
      OnesShifted(j - 1, a - 1);
    } else if a > 0 {
      OnesShifted(0, a - 1);
    }
  }

  /** One stage: of j ones, take away s = 2^b if there are more than that. */
  lemma OnesStage(j: nat, s: nat, b: nat)
    requires s == Pow2(b) && b <= s
    ensures var k := StageOf(Pow2(j) - 1, s, b);
            k == (if j > s then s else 0) && ShiftDown(Pow2(j) - 1, k) == Pow2(j - k) - 1
  {
    OnesShifted(j, s - b);
    var i := if j >= s - b then j - (s - b) else 0;
    AndBit(Pow2(i) - 1, b);
    OnesMarked(i, b);
    OnesShifted(j, s);
  }

  lemma {:induction false} IdxOfBit(i: nat)
    ensures Bit2Idx(Pow2(i)) == i
  {
    if i > 0 { IdxOfBit(i - 1); }
  }

  lemma FastTailOfOnes(j: nat)
    requires j <= 8
    ensures FastTail(Pow2(j) - 1) == j
  {
    hide StageOf, ShiftDown, Pow2;
    Pow2At32();
    Pow2At1();
    OnesStage(j, 4, 2);
    var j2 := if j > 4 then j - 4 else j;
    OnesStage(j2, 2, 1);
    OnesStage(if j2 > 2 then j2 - 2 else j2, 1, 0);
  }

  /** On its domain, a single bit of a word, it counts the trailing zeros. */
  lemma FastBit2IdxIsBit2Idx(i: nat)
    requires i < 32
    ensures FastBit2Idx(Pow2(i)) == i == Bit2Idx(Pow2(i))
  {
    hide StageOf, ShiftDown, Pow2, Bit2Idx, FastTail;
    Pow2At32();
    IdxOfBit(i);
    OnesStage(i, 16, 4);
    var j := if i > 16 then i - 16 else i;
    OnesStage(j, 8, 3);
    FastTailOfOnes(if j > 8 then j - 8 else j);
  }

  /* ---------------- compute_tree_index ---------------- */

  /** The branch-free binary logarithm. */
  function FastLog2(x: nat): int
    requires x < WORD32
  {
    var n8 := And(ShiftDown(Sub32(x, 0x100), 16), 8);
    var y8 := Shl32(x, n8);
    var n4 := And(ShiftDown(Sub32(y8, 0x1000), 16), 4);
    var y4 := Shl32(y8, n4);
    var n2 := And(ShiftDown(Sub32(y4, 0x4000), 16), 2);
    14 - (n8 + n4 + n2) + ShiftDown(Shl32(y4, n2), 15)
  }

  lemma {:induction false} LogShifted(x: nat, n: nat)
    requires x > 0
    ensures ShiftUp(x, n) >= x && FloorLog2(ShiftUp(x, n)) == FloorLog2(x) + n
  {
    if n > 0 { LogShifted(x, n - 1); }
  }

  lemma LogIs(x: nat, k: nat)
    requires Pow2(k) <= x < 2 * Pow2(k)
    ensures FloorLog2(x) == k
  {
    Log2Below(FloorLog2(x), k + 1, x);
    Log2Below(k, FloorLog2(x) + 1, x);
  }

  /** One stage: a word below t is shifted up by s = 2^b. */
  lemma LogStage(y: nat, t: nat, s: nat, b: nat)
    requires 0 < y < 0x1_0000 && t <= 0x4000 && s == Pow2(b) && b < 16
    requires y < t ==> y * Pow2(s) < 0x1_0000
    ensures var n := And(ShiftDown(Sub32(y, t), 16), s);
            && n == (if y < t then s else 0)
            && Shl32(y, n) == (if y < t then y * Pow2(s) else y)
            && FloorLog2(Shl32(y, n)) == FloorLog2(y) + n
  {
    hide And, ShiftDown, ShiftUp, FloorLog2, Pow2, Marked;
    Pow2At32();
    var z := Sub32(y, t);
    ShiftIs(z, 16, if y < t then 0xFFFF else 0);
    AndBit(ShiftDown(z, 16), b);
    if y < t {
      OnesMarked(16, b);
      LogShifted(y, s);
      ShiftUpIs(y, s);
    } else {
      ZeroUnmarked(b);
      ShiftUpNone(y);
    }
  }

  lemma ShiftUpNone(y: nat)
    ensures ShiftUp(y, 0) == y
  {
  }

  lemma FastLog2IsFloorLog2(x: nat)
    requires 0 < x <= 0xFFFF
    ensures FastLog2(x) == FloorLog2(x)
  {
    hide And, ShiftDown, FloorLog2, Sub32, Shl32, Pow2;
    Pow2At32();
    Pow2At1();
    LogStage(x, 0x100, 8, 3);
    var y8 := if x < 0x100 then x * 0x100 else x;
    LogStage(y8, 0x1000, 4, 2);
    var y4 := if y8 < 0x1000 then y8 * 16 else y8;
    LogStage(y4, 0x4000, 2, 1);
    var y2 := if y4 < 0x4000 then y4 * 4 else y4;
    ShiftIs(y2, 15, if y2 >= 0x8000 then 1 else 0);
    LogIs(y2, if y2 >= 0x8000 then 15 else 14);
  }

  /** The branch-free form of `compute_tree_index`, which does not narrow the shifted size. */
  function FastTreeIndex(s: nat): int {
    var x := s / 0x100;
    if x == 0 then 0 else if x > 0xFFFF then 31
    else var k := FastLog2(x); 2 * k + if k + 7 >= 0 && Marked(s, k + 7) then 1 else 0
  }

  lemma FastTreeIndexIsTreeIndex(s: nat)
    requires s < 0x100_0000_0000
    ensures FastTreeIndex(s) == TreeIndex(s)
  {
    hide FastLog2, FloorLog2, Marked;
    var x := s / 0x100;
    if 0 < x <= 0xFFFF { FastLog2IsFloorLog2(x); }
  }
}
