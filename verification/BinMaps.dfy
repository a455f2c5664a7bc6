/** Bin bitmaps and bin numbers (hagen/src/malloc.c, "Indexing Bins" and
    "Operations on bin maps").  A `binmap_t` is the number below 2^32 held in the
    32-bit word; the macros are given by what they do to that number. */
module BinMaps {
  import opened Words

  /* ---------------- bitmaps ---------------- */

  predicate Marked(m: nat, i: nat) {
    if i == 0 then m % 2 == 1 else Marked(m / 2, i - 1)
  }

  /** `m | idx2bit(i)` */
  function Mark(m: nat, i: nat): nat {
    if Marked(m, i) then m else m + Pow2(i)
  }

  /** `m & ~idx2bit(i)` */
  function Unmark(m: nat, i: nat): nat {
    if Marked(m, i) then UnmarkRoom(m, i); m - Pow2(i) else m
  }

  /** `least_bit(x)`, the value of `x & -x` */
  function LeastBit(x: nat): nat {
    if x == 0 then 0 else if x % 2 == 1 then 1 else 2 * LeastBit(x / 2)
  }

  /** `left_bits(idx2bit(i)) & m` */
  function BitsAbove(m: nat, i: nat): nat {
    if i == 0 then m - m % 2 else 2 * BitsAbove(m / 2, i - 1)
  }

  /** `m >> i` */
  function ShiftDown(m: nat, i: nat): nat {
    if i == 0 then m else ShiftDown(m / 2, i - 1)
  }

  /** `m << i`, for a map whose bits stay below 2^32 */
  function ShiftUp(m: nat, i: nat): nat {
    if i == 0 then m else 2 * ShiftUp(m, i - 1)
  }

  /** `compute_bit2idx`: the count of trailing zeros */
  function Bit2Idx(x: nat): nat
    requires x > 0
  {
    if x % 2 == 1 then 0 else 1 + Bit2Idx(x / 2)
  }

  lemma {:induction false} UnmarkRoom(m: nat, i: nat)
    requires Marked(m, i)
    ensures Pow2(i) <= m
  {
    if i > 0 { UnmarkRoom(m / 2, i - 1); }
  }

  lemma {:induction false} MarkBits(m: nat, i: nat, j: nat)
    ensures Marked(Mark(m, i), j) <==> Marked(m, j) || i == j
    ensures Marked(Unmark(m, i), j) <==> Marked(m, j) && i != j
    decreases i
  {
    if i > 0 {
      assert Mark(m, i) / 2 == Mark(m / 2, i - 1) && Mark(m, i) % 2 == m % 2;
      assert Unmark(m, i) / 2 == Unmark(m / 2, i - 1) && Unmark(m, i) % 2 == m % 2;
      if j > 0 { MarkBits(m / 2, i - 1, j - 1); }
    } else {
      assert j > 0 ==> Mark(m, 0) / 2 == m / 2 && Unmark(m, 0) / 2 == m / 2;
    }
  }

  lemma {:induction false} NoMarks(m: nat)
    requires m > 0
    ensures Marked(m, Bit2Idx(m)) && forall j: nat | j < Bit2Idx(m) :: !Marked(m, j)
  {
    if m % 2 == 0 {
      NoMarks(m / 2);
      forall j: nat | j < Bit2Idx(m) ensures !Marked(m, j) {
        if j > 0 { assert !Marked(m / 2, j - 1); }
      }
    }
  }

  lemma {:induction false} ZeroUnmarked(i: nat)
    ensures !Marked(0, i)
  {
    if i > 0 { ZeroUnmarked(i - 1); }
  }

  lemma {:induction false} LeastBitIdx(x: nat)
    requires x > 0
    ensures LeastBit(x) > 0 && Bit2Idx(LeastBit(x)) == Bit2Idx(x)
  {
    if x % 2 == 0 { LeastBitIdx(x / 2); }
  }

  lemma {:induction false} ShiftBits(m: nat, i: nat, j: nat)
    ensures Marked(ShiftDown(m, i), j) <==> Marked(m, i + j)
    decreases i
  {
    if i > 0 {
      ShiftBits(m / 2, i - 1, j);
    }
  }

  lemma {:induction false} ShiftUpBits(m: nat, i: nat, j: nat)
    ensures Marked(ShiftUp(m, i), j) <==> i <= j && Marked(m, j - i)
    decreases i
  {
    if i > 0 {
      assert ShiftUp(m, i) / 2 == ShiftUp(m, i - 1) && ShiftUp(m, i) % 2 == 0;
      if j > 0 { ShiftUpBits(m, i - 1, j - 1); }
    }
  }

  lemma {:induction false} AboveBits(m: nat, i: nat, j: nat)
    ensures Marked(BitsAbove(m, i), j) <==> i < j && Marked(m, j)
    decreases i
  {
    var a := BitsAbove(m, i);
    if i == 0 {
      assert a % 2 == 0 && a / 2 == m / 2;
    } else if j > 0 {
      assert a / 2 == BitsAbove(m / 2, i - 1);
      AboveBits(m / 2, i - 1, j - 1);
    }
  }

  /** The next marked bin above `i`, as the three macros together find it. */
  lemma NextMarked(m: nat, i: nat)
    ensures BitsAbove(m, i) == 0 ==> forall j: nat | i < j :: !Marked(m, j)
    ensures BitsAbove(m, i) != 0 ==>
              var k := (LeastBitIdx(BitsAbove(m, i)); Bit2Idx(LeastBit(BitsAbove(m, i))));
              i < k && Marked(m, k) && forall j: nat | i < j < k :: !Marked(m, j)
  {
    var a := BitsAbove(m, i);
    forall j: nat ensures Marked(a, j) <==> i < j && Marked(m, j) { AboveBits(m, i, j); }
    if a == 0 {
      forall j: nat | i < j ensures !Marked(m, j) { ZeroUnmarked(j); }
    } else {
      LeastBitIdx(a); NoMarks(a);
    }
  }

  /* ---------------- treebin numbers ---------------- */

  /** `31 - __builtin_clz(x)` */
  function FloorLog2(x: nat): (k: nat)
    requires x > 0
    ensures Pow2(k) <= x < 2 * Pow2(k)
  {
    if x == 1 then 0 else 1 + FloorLog2(x / 2)
  }

  /** `compute_tree_index`: the shifted size is narrowed to `unsigned int`. */
  function TreeIndex(s: nat): nat {
    var x := (s / 0x100) % 0x1_0000_0000;
    if x == 0 then 0
    else if x > 0xFFFF then 31
    else var k := FloorLog2(x); 2 * k + if Marked(s, k + 7) then 1 else 0
  }

  /** `minsize_for_tree_index` */
  function MinSizeForIndex(i: nat): nat {
    Pow2(i / 2 + 8) + if i % 2 == 1 then Pow2(i / 2 + 7) else 0
  }

  lemma {:induction false} BitBelowTop(s: nat, n: nat)
    requires n > 0 && Pow2(n) <= s < 2 * Pow2(n)
    ensures Marked(s, n - 1) <==> s >= Pow2(n) + Pow2(n - 1)
  {
    if n > 1 { BitBelowTop(s / 2, n - 1); }
  }

  lemma Log2Below(k: nat, n: nat, x: nat)
    requires Pow2(k) <= x < Pow2(n)
    ensures k < n
  {
    if k >= n { Pow2Mono(n, k); }
  }

  lemma {:induction false} Pow2Shift8(k: nat)
    ensures Pow2(k + 8) == 256 * Pow2(k)
  {
    if k > 0 { Pow2Shift8(k - 1); } else { assert Pow2(8) == 2 * Pow2(7) == 4 * Pow2(6) == 8 * Pow2(5) == 16 * Pow2(4); }
  }

  lemma HalfBin(k: nat, odd: bool, s: nat)
    requires Pow2(k + 8) <= s < 2 * Pow2(k + 8)
    requires odd <==> s >= Pow2(k + 8) + Pow2(k + 7)
    ensures var i := 2 * k + if odd then 1 else 0; MinSizeForIndex(i) <= s < MinSizeForIndex(i + 1)
  {
    var i := 2 * k + if odd then 1 else 0;
    assert i / 2 == k;
    assert (i + 1) / 2 == if odd then k + 1 else k;
  }

  lemma LogOfSize(s: nat, k: nat)
    requires 256 <= s && k == FloorLog2(s / 256)
    ensures Pow2(k + 8) <= s < 2 * Pow2(k + 8)
  {
    Pow2Shift8(k);
  }

  lemma LogAtMost15(x: nat)
    requires 0 < x <= 0xFFFF
    ensures FloorLog2(x) < 16
  {
    Pow2At16(); Log2Below(FloorLog2(x), 16, x);
  }

  lemma TreeIndexLow(s: nat)
    requires 256 <= s < 0x100_0000
    ensures TreeIndex(s) <= 31
    ensures MinSizeForIndex(TreeIndex(s)) <= s < MinSizeForIndex(TreeIndex(s) + 1)
  {
    hide MinSizeForIndex, Pow2, Marked, FloorLog2;
    var k := FloorLog2(s / 256);
    LogAtMost15(s / 256);
    LogOfSize(s, k);
    BitBelowTop(s, k + 8);
    HalfBin(k, Marked(s, k + 7), s);
  }

  lemma TreeIndexHigh(s: nat)
    requires 0x100_0000 <= s < 0x100_0000_0000
    ensures TreeIndex(s) == 31 && MinSizeForIndex(31) == 0xC0_0000
  {
    Pow2At16(); Pow2Shift8(15); Pow2Shift8(14);
  }

  /** Bin `i` holds exactly the sizes from its own minimum up to the next bin's;
      the last bin is unbounded. */
  lemma TreeIndexRange(s: nat)
    requires 256 <= s < 0x100_0000_0000
    ensures TreeIndex(s) <= 31
    ensures MinSizeForIndex(TreeIndex(s)) <= s
    ensures TreeIndex(s) < 31 ==> s < MinSizeForIndex(TreeIndex(s) + 1)
  {
    if s < 0x100_0000 { TreeIndexLow(s); } else { TreeIndexHigh(s); }
  }

  lemma Pow2At16()
    ensures Pow2(14) == 0x4000 && Pow2(15) == 0x8000 && Pow2(16) == 0x1_0000
  {
    assert Pow2(4) == 2 * Pow2(3) == 4 * Pow2(2) == 8 * Pow2(1) == 16;
    Pow2Add(4, 4); Pow2Add(8, 4); Pow2Add(12, 2);
    assert Pow2(2) == 2 * Pow2(1) == 4;
  }

  /** Minimum sizes increase with the bin number, so the map from sizes to bins does too. */
  lemma MinSizeIncreasing(i: nat, j: nat)
    requires i < j
    ensures MinSizeForIndex(i) < MinSizeForIndex(j)
    decreases j
  {
    if i + 1 < j { MinSizeIncreasing(i, j - 1); }
    if j % 2 == 0 { assert (j - 1) / 2 + 8 == j / 2 + 7; }
  }

  lemma TreeIndexMonotone(s: nat, t: nat)
    requires 256 <= s <= t < 0x100_0000_0000
    ensures TreeIndex(s) <= TreeIndex(t)
  {
    TreeIndexRange(s); TreeIndexRange(t);
    var i, j := TreeIndex(s), TreeIndex(t);
    if j < i {
      if j + 1 < i { MinSizeIncreasing(j + 1, i); }
    }
  }

  /** A size belongs in bin `i` if and only if it is in the bin's range. */
  lemma InBinIff(s: nat, i: nat)
    requires 256 <= s < 0x100_0000_0000 && i <= 31
    ensures TreeIndex(s) == i <==> MinSizeForIndex(i) <= s && (i < 31 ==> s < MinSizeForIndex(i + 1))
  {
    hide MinSizeForIndex, TreeIndex;
    TreeIndexRange(s);
    var j := TreeIndex(s);
    if j < i {
      if j + 1 < i { MinSizeIncreasing(j + 1, i); }
    } else if i < j {
      if i + 1 < j { MinSizeIncreasing(i + 1, j); }
    }
  }
}
