/** Walking a trie by the bits of a size, and why one path, one remembered subtree and one
    bitmap lookup find the best fit (hagen/src/malloc.c:3536-3604). */
module TrieSearch {
  import opened Words
  import opened BinMaps
  import opened Chunks
  import opened Trie
  import opened TrieLinks
  import opened Bins
  import opened TreeBins
  import opened Tags

  /** `leftshift_for_tree_index` */
  function LeftShift(i: nat): nat { if i >= 31 then 0 else 63 - (i / 2 + 6) }

  /** `s << n` on a 64-bit word. */
  function Shl64(s: nat, n: nat): nat { s * Pow2(n) % WORD_LIMIT }

  /** `(key >> 63) & 1` */
  predicate TopBit(key: nat) { key / 0x8000_0000_0000_0000 % 2 == 1 }

  /** `key <<= 1` */
  function Next(key: nat): nat { key * 2 % WORD_LIMIT }

  /** The top bits of `key` are the bits of `s` still to be consumed below a node that covers
      lo .. lo + 2^k. */
  ghost predicate KeyBits(key: nat, s: nat, lo: nat, k: nat) {
    k <= 64 && lo <= s && key == (s - lo) * Pow2(64 - k)
  }

  lemma ScaleLess(a: nat, b: nat, p: nat)
    requires a < b && p > 0
    ensures a * p + p <= b * p
  {
    Distribute(a, b - a, p);
    Distribute(b - a - 1, 1, p);
    NonNegative(b - a - 1, p);
    assert a + (b - a) == b && (b - a - 1) + 1 == b - a;
  }

  lemma NonNegative(a: nat, b: nat)
    ensures a * b >= 0
  {
  }

  // One step of the key, on plain numbers: d < 2 * half and half * p == 2^63.
  lemma KeyStepNumbers(key: nat, d: nat, half: nat, p: nat)
    requires key == d * p && d < 2 * half && half * p == 0x8000_0000_0000_0000 && p > 0
    ensures key < WORD_LIMIT && (TopBit(key) <==> d >= half)
    ensures Next(key) == (if d >= half then d - half else d) * (2 * p)
  {
    ScaleLess(d, 2 * half, p);
    MulAssoc(2, half, p);
    MulAssoc(d, 2, p);
    assert d * (2 * p) == 2 * key by { MulSwap(d, p); }
    if d >= half {
      if d > half { ScaleLess(half, d, p); }
      Distribute(half, d - half, p);
      assert half + (d - half) == d;
      assert (d - half) * p == key - 0x8000_0000_0000_0000;
      MulSwap(d - half, p);
      Wraps(key * 2, 1, 2 * key - WORD_LIMIT);
    } else {
      ScaleLess(d, half, p);
    }
  }

  lemma MulSwap(a: nat, p: nat)
    ensures a * (2 * p) == 2 * (a * p)
  {
  }

  lemma KeyStep(key: nat, s: nat, lo: nat, k: nat)
    requires KeyBits(key, s, lo, k) && InRange(s, lo, k) && k > 0
    ensures TopBit(key) <==> GoRight(s, lo, k)
    ensures KeyBits(Next(key), s, LoBelow(s, lo, k), k - 1)
  {
    Limit64();
    var d, p, half := s - lo, Pow2(64 - k), Pow2(k - 1);
    Pow2Add(k - 1, 64 - k);
    assert k - 1 + (64 - k) == 63;
    KeyStepNumbers(key, d, half, p);
    assert 64 - (k - 1) == (64 - k) + 1;
    assert Pow2(64 - (k - 1)) == 2 * p;
    hide Next, TopBit;
  }

  // The first key, on plain numbers: the bin starts at q times its width.
  lemma KeyStartNumbers(s: nat, lo: nat, q: nat, width: nat, p: nat)
    requires lo == q * width && lo <= s < lo + width && width * p == WORD_LIMIT && p > 0
    ensures s * p % WORD_LIMIT == (s - lo) * p
  {
    ScaleLess(s - lo, width, p);
    MulAssoc(q, width, p);
    Distribute(lo, s - lo, p);
    assert lo + (s - lo) == s;
    Wraps(s * p, q, (s - lo) * p);
  }

  lemma KeyStart(s: nat, i: nat)
    requires i < 32 && InRange(s, BinLo(i), BinBits(i))
    ensures KeyBits(Shl64(s, LeftShift(i)), s, BinLo(i), BinBits(i))
  {
    Limit64();
    if i == 31 {
      assert Pow2(0) == 1;
    } else {
      var k, n := BinBits(i), LeftShift(i);
      assert n == 64 - k;
      Pow2Add(k, n);
      BinIsMultiple(i);
      KeyStartNumbers(s, BinLo(i), if i % 2 == 1 then 3 else 2, Pow2(k), Pow2(n));
    }
  }

  lemma BinIsMultiple(i: nat)
    requires i < 31
    ensures BinLo(i) == (if i % 2 == 1 then 3 else 2) * Pow2(BinBits(i))
  {
    assert Pow2(i / 2 + 8) == 2 * Pow2(i / 2 + 7);
  }

  lemma MulAssoc(a: nat, b: nat, c: nat)
    ensures (a * b) * c == a * (b * c)
  {
  }

  lemma Distribute(a: nat, b: nat, c: nat)
    ensures (a + b) * c == a * c + b * c
  {
  }

  lemma Wraps(x: nat, q: nat, r: nat)
    requires x == q * WORD_LIMIT + r && r < WORD_LIMIT
    ensures x % WORD_LIMIT == r
  {
  }

  /* ---------------- the running best ---------------- */

  /** The remainder of the chosen size, as the code keeps it in `rsize`; `-nb` when nothing
      has been chosen yet (`best` is 0). */
  function Remainder(best: nat, nb: nat): nat
    requires best < SIZE_LIMIT && 0 < nb < WORD_LIMIT
  {
    if best == 0 then SubWrap(0, nb) else SubWrap(best, nb)
  }

  function Better(best: nat, size: nat, nb: nat): nat {
    if size >= nb && (best == 0 || size < best) then size else best
  }

  /** The unsigned comparison takes a chunk exactly if it is large enough and smaller than the
      best so far: a wrapped remainder never wins. */
  lemma UnsignedCompare(best: nat, size: nat, nb: nat)
    requires best < SIZE_LIMIT && 0 < size < SIZE_LIMIT && 0 < nb < WORD_LIMIT && (best == 0 || best >= nb)
    ensures SubWrap(size, nb) < Remainder(best, nb) <==> size >= nb && (best == 0 || size < best)
    ensures Remainder(Better(best, size, nb), nb)
         == if SubWrap(size, nb) < Remainder(best, nb) then SubWrap(size, nb) else Remainder(best, nb)
    ensures SubWrap(size, nb) == 0 <==> size == nb
  {
  }

  /** Against the designated victim: it wins if it is large enough and at least as tight. */
  lemma AgainstDv(best: nat, dvsize: nat, nb: nat)
    requires nb <= best < SIZE_LIMIT && dvsize < SIZE_LIMIT && 0 < nb < WORD_LIMIT
    ensures best - nb < SubWrap(dvsize, nb) <==> dvsize < nb || best < dvsize
  {
  }

  ghost predicate AllAbove(t: Tree, x: nat) { forall y | y in Sizes(t) :: x < y }
  ghost predicate NoneAbove(t: Tree, x: nat) { forall y | y in Sizes(t) :: y <= x }

  /* ---------------- first walk: along the bits of nb ---------------- */

  /** Every size of the bin that fits is at least `best`, or still ahead in `cur`, or in the
      deepest untaken right subtree `rst`, or no smaller than what is in there. */
  ghost predicate Pending(all: set<nat>, nb: nat, best: nat, cur: Tree, rst: Tree) {
    && (forall x | x in all && x >= nb ::
          (best != 0 && best <= x) || x in Sizes(cur) || (rst.Node? && (x in Sizes(rst) || NoneAbove(rst, x))))
    && (forall x | x in Sizes(cur) :: AllAbove(rst, x))
    && AllAbove(rst, nb)
  }

  lemma WalkStep(all: set<nat>, nb: nat, best: nat, cur: Tree, rst: Tree, lo: nat, k: nat)
    requires Pending(all, nb, best, cur, rst) && cur.Node? && TrieOk(cur, lo, k) && InRange(nb, lo, k)
    requires k > 0 && cur.size > 0
    ensures var next := Child(cur, GoRight(nb, lo, k));
            var rst' := if cur.right.Node? && !GoRight(nb, lo, k) then cur.right else rst;
            Pending(all, nb, Better(best, cur.size, nb), next, rst')
  {
    hide Sizes, TrieOk, Pow2, AllAbove, NoneAbove, Better, GoRight;
    var right := GoRight(nb, lo, k);
    var next := Child(cur, right);
    var rst' := if cur.right.Node? && !right then cur.right else rst;
    var best' := Better(best, cur.size, nb);
    ChildSizes(cur, nb, lo, k);
    forall x | x in all && x >= nb
      ensures (best' != 0 && best' <= x) || x in Sizes(next)
              || (rst'.Node? && (x in Sizes(rst') || NoneAbove(rst', x)))
    {
      BetterBelow(best, cur.size, nb, x);
      if !(best != 0 && best <= x) && x !in Sizes(cur) && rst'.Node? && rst' != rst {
        RightBelow(cur, rst, x);
      }
    }
    StillAbove(cur, rst, next, rst', nb);
  }

  /** Where the sizes below a node lie, seen from nb. */
  lemma ChildSizes(cur: Tree, nb: nat, lo: nat, k: nat)
    requires cur.Node? && TrieOk(cur, lo, k) && InRange(nb, lo, k) && k > 0
    ensures Sizes(cur) == {cur.size} + Sizes(cur.left) + Sizes(cur.right)
    ensures cur.right.Nil? ==> Sizes(cur.right) == {}
    ensures AllBelow(Sizes(cur.left), Sizes(cur.right))
    ensures if GoRight(nb, lo, k) then forall x | x in Sizes(cur.left) :: x < nb else AllAbove(cur.right, nb)
  {
    SizesInRange(cur.left, lo, k - 1);
    SizesInRange(cur.right, lo + Pow2(k - 1), k - 1);
  }

  lemma BetterBelow(best: nat, size: nat, nb: nat, x: nat)
    requires x >= nb && size > 0
    ensures (best != 0 && best <= x) || x == size ==> Better(best, size, nb) != 0 && Better(best, size, nb) <= x
  {
  }

  /** The remembered subtree lies above `cur`, hence above its right subtree. */
  lemma RightBelow(cur: Tree, rst: Tree, x: nat)
    requires cur.Node? && rst.Node? && (x in Sizes(rst) || NoneAbove(rst, x))
    requires forall y | y in Sizes(cur) :: AllAbove(rst, y)
    ensures NoneAbove(cur.right, x)
  {
    assert rst.size in Sizes(rst);
    forall y | y in Sizes(cur.right) ensures y <= x { assert y in Sizes(cur); }
  }

  ghost predicate AllBelow(a: set<nat>, b: set<nat>) { forall x, y | x in a && y in b :: x < y }

  lemma StillAbove(cur: Tree, rst: Tree, next: Tree, rst': Tree, nb: nat)
    requires cur.Node? && (next == cur.left || next == cur.right)
    requires forall x | x in Sizes(cur) :: AllAbove(rst, x)
    requires rst' == rst || (rst' == cur.right && next == cur.left && AllBelow(Sizes(cur.left), Sizes(cur.right)))
    ensures forall x | x in Sizes(next) :: AllAbove(rst', x)
  {
    assert Sizes(next) <= Sizes(cur);
    if rst' != rst {
      forall x | x in Sizes(next) ensures AllAbove(rst', x) { AboveOf(Sizes(cur.left), rst', x); }
    }
  }

  lemma AboveOf(a: set<nat>, t: Tree, x: nat)
    requires x in a && AllBelow(a, Sizes(t))
    ensures AllAbove(t, x)
  {
  }

  /* ---------------- second walk: to the leftmost leaf ---------------- */

  ghost predicate PendingLeft(all: set<nat>, best: nat, cur: Tree) {
    forall x | x in all :: (best != 0 && best <= x) || (cur.Node? && (x in Sizes(cur) || NoneAbove(cur, x)))
  }

  /** `leftmost_child` */
  function LeftmostChild(t: Tree): Tree
    requires t.Node?
  {
    if t.left.Node? then t.left else t.right
  }

  lemma LeftStep(all: set<nat>, nb: nat, best: nat, cur: Tree, lo: nat, k: nat)
    requires PendingLeft(all, best, cur) && cur.Node? && TrieOk(cur, lo, k) && cur.size >= nb > 0
    ensures PendingLeft(all, Better(best, cur.size, nb), LeftmostChild(cur))
    ensures k > 0 ==> TrieOk(LeftmostChild(cur), if cur.left.Node? then lo else lo + Pow2(k - 1), k - 1)
    ensures LeftmostChild(cur).Node? ==> k > 0
  {
    var next, best' := LeftmostChild(cur), Better(best, cur.size, nb);
    if k > 0 {
      SizesInRange(cur.left, lo, k - 1);
      SizesInRange(cur.right, lo + Pow2(k - 1), k - 1);
    }
    assert cur.size in Sizes(cur);
    forall x | x in all
      ensures (best' != 0 && best' <= x) || (next.Node? && (x in Sizes(next) || NoneAbove(next, x)))
    {
      assert NoneAbove(cur, x) ==> cur.size <= x;
    }
  }

  /* ---------------- over all bins ---------------- */

  /** `v`, a tree member, is a best fit for nb among all chunks in treebins, or null if there is none. */
  ghost predicate IsBestFit(m: Mem, trees: seq<Tree>, nb: nat, v: nat) {
    if v == 0 then forall i, x | 0 <= i < |trees| && x in Sizes(trees[i]) :: x < nb
    else && SizeOf(m, v) >= nb && (exists i :: 0 <= i < |trees| && v in Addrs(trees[i]) && v in Heads(trees[i]))
         && forall i, x | 0 <= i < |trees| && x in Sizes(trees[i]) && x >= nb :: SizeOf(m, v) <= x
  }

  /** What one bin says of its sizes. */
  lemma BinSizes(m: Mem, treemap: nat, i: nat, t: Tree)
    requires TreeBinOk(m, treemap, i, t) && i < 32
    ensures forall x | x in Sizes(t) ::
              256 <= x < SIZE_LIMIT && MinSizeForIndex(i) <= x && (i < 31 ==> x < MinSizeForIndex(i + 1))
  {
    forall x | x in Sizes(t)
      ensures 256 <= x < SIZE_LIMIT && MinSizeForIndex(i) <= x && (i < 31 ==> x < MinSizeForIndex(i + 1))
    {
      TreeIndexRange(x);
    }
  }

  /** Sizes in a lower bin are smaller. */
  lemma BinOrder(m: Mem, treemap: nat, trees: seq<Tree>, i: nat, j: nat, x: nat, y: nat)
    requires |trees| == 32 && i < j < 32
    requires TreeBinOk(m, treemap, i, trees[i]) && TreeBinOk(m, treemap, j, trees[j])
    requires x in Sizes(trees[i]) && y in Sizes(trees[j])
    ensures x < y
  {
    BinSizes(m, treemap, i, trees[i]);
    BinSizes(m, treemap, j, trees[j]);
    if i + 1 < j { MinSizeIncreasing(i + 1, j); }
  }

  /* ---------------- the walk of insert_large_chunk ---------------- */

  /** The insertion walk stands at the node `cur` of bin `i`'s tree `t`. */
  ghost predicate InsertWalk(m: Mem, t: Tree, i: nat, s: nat, cur: Tree, par: nat, lo: nat, k: nat, key: nat) {
    && i < 32 && InRange(s, BinLo(i), BinBits(i)) && TrieOk(t, BinLo(i), BinBits(i))
    && cur.Node? && |cur.ring| > 0 && Rep(m, cur, par, i) && Addrs(cur) <= Addrs(t)
    && TrieOk(cur, lo, k) && InRange(s, lo, k) && KeyBits(key, s, lo, k)
    && SlotIn(t, s, i) == FindSlot(cur, s, lo, k)
  }

  lemma InsertWalkStart(m: Mem, treemap: nat, t: Tree, i: nat, s: nat)
    requires TreeBinOk(m, treemap, i, t) && i < 32 && InRange(s, BinLo(i), BinBits(i)) && t.Node?
    ensures InsertWalk(m, t, i, s, t, TreeBinAt(i), BinLo(i), BinBits(i), Shl64(s, LeftShift(i)))
    ensures Root(t) in Addrs(t)
  {
    KeyStart(s, i);
    RootIsNull(m, t, TreeBinAt(i), i);
  }

  lemma InsertWalkStep(m: Mem, t: Tree, i: nat, s: nat, cur: Tree, par: nat, lo: nat, k: nat, key: nat)
    requires InsertWalk(m, t, i, s, cur, par, lo, k, key)
    ensures var at := Root(cur);
            && at in Addrs(t) && SizeOf(m, at) == cur.size
            && Child0(m, at) == Root(cur.left) && Child1(m, at) == Root(cur.right)
    ensures cur.size == s ==> SlotIn(t, s, i) == Same(Root(cur)) && Fd(m, Root(cur)) in Addrs(t)
    ensures cur.size != s ==>
              var right := TopBit(key);
              var c := Child(cur, right);
              && k > 0 && (c.Node? <==> Root(c) != 0)
              && (c.Node? ==> InsertWalk(m, t, i, s, c, Root(cur), LoBelow(s, lo, k), k - 1, Next(key)))
              && (c.Nil? ==> SlotIn(t, s, i) == Empty(Root(cur), right))
  {
    RootIsNull(m, cur, par, i);
    RootIsNull(m, cur.left, cur.ring[0], i);
    RootIsNull(m, cur.right, cur.ring[0], i);
    SlotInTree(m, cur, par, i, s, lo, k);
    assert cur.ring[0] in cur.ring;
    if cur.size != s {
      StepDown(cur, s, lo, k);
      KeyStep(key, s, lo, k);
      hide KeyBits, TopBit, Next, InRange;
      var c := Child(cur, GoRight(s, lo, k));
      if c.Node? { NodeHasRing(m, c, cur.ring[0], i); }
    }
  }

  /** The first three writes of an insertion leave the tree's nodes alone. */
  lemma InitKeeps(m: Mem, c: set<nat>, x: nat, i: nat, y: nat)
    requires Layout(m, c) && x in c && y in c && x != y && SizeOf(m, x) >= 256 && SizeOf(m, y) >= 256
    ensures var m0 := m[x + 56 := i][x + 32 := 0][x + 40 := 0];
            SizeOf(m0, y) == SizeOf(m, y) && Child0(m0, y) == Child0(m, y) && Child1(m0, y) == Child1(m, y)
  {
    var m0 := m[x + 56 := i][x + 32 := 0][x + 40 := 0];
    hide Aligned;
    assert x + SizeOf(m, x) <= y || y + SizeOf(m, y) <= x;
    hide SizeOf;
    assert Head(m0, y) == Head(m, y);
    SameHead(m, m0, y);
  }

  /* ---------------- the first loop of tmalloc_large ---------------- */

  /** The size of the chosen chunk, 0 for none. */
  function BestSize(m: Mem, v: nat): nat { if v == 0 then 0 else SizeOf(m, v) }

  /** A chosen chunk is a tree member of a treebin and fits; `rsize` is its remainder. */
  ghost predicate Chosen(m: Mem, trees: seq<Tree>, nb: nat, v: nat, rsize: nat) {
    && 0 < nb < WORD_LIMIT && BestSize(m, v) < SIZE_LIMIT
    && (v != 0 ==> SizeOf(m, v) >= nb && exists i :: 0 <= i < |trees| && v in Addrs(trees[i]) && v in Heads(trees[i]))
    && rsize == Remainder(BestSize(m, v), nb)
  }

  /** A subtree of bin `i`'s tree, with the range of sizes it covers. */
  ghost predicate Within(m: Mem, t: Tree, i: nat, cur: Tree, par: nat, lo: nat, k: nat) {
    && Rep(m, cur, par, i) && Distinct(cur) && TrieOk(cur, lo, k)
    && Addrs(cur) <= Addrs(t) && Sizes(cur) <= Sizes(t) && Heads(cur) <= Heads(t)
  }

  /** The walk along nb's bits stands at `cur`, which may be empty, with `rst` remembered.
      For nb beyond every chunk size the path is arbitrary but nothing is ever chosen. */
  ghost predicate FitWalk(m: Mem, t: Tree, i: nat, nb: nat, best: nat, cur: Tree, lo: nat, k: nat, key: nat, rst: Tree) {
    if nb < SIZE_LIMIT
    then Pending(Sizes(t), nb, best, cur, rst) && (cur.Node? ==> InRange(nb, lo, k) && KeyBits(key, nb, lo, k))
    else best == 0
  }

  lemma FitWalkStart(m: Mem, treemap: nat, t: Tree, i: nat, nb: nat)
    requires TreeBinOk(m, treemap, i, t) && i == TreeIndex(nb) < 32 && 256 <= nb < WORD_LIMIT
    ensures Within(m, t, i, t, TreeBinAt(i), BinLo(i), BinBits(i))
    ensures FitWalk(m, t, i, nb, 0, t, BinLo(i), BinBits(i), Shl64(nb, LeftShift(i)), Nil)
  {
    if nb < SIZE_LIMIT {
      BinRange(nb);
      KeyStart(nb, i);
    }
  }

  lemma FitWalkStep(m: Mem, t: Tree, i: nat, nb: nat, best: nat, cur: Tree, par: nat, lo: nat, k: nat, key: nat, rst: Tree)
    requires FitWalk(m, t, i, nb, best, cur, lo, k, key, rst) && cur.Node? && 0 < nb
    requires Within(m, t, i, cur, par, lo, k) && cur.size != nb && 0 < cur.size < SIZE_LIMIT
    ensures var right := TopBit(key);
            var next := Child(cur, right);
            var rst' := if cur.right.Node? && !right then cur.right else rst;
            var k' := if k > 0 then k - 1 else 0;
            && FitWalk(m, t, i, nb, Better(best, cur.size, nb), next, if right && k > 0 then lo + Pow2(k - 1) else lo, k', Next(key), rst')
  {
    if nb < SIZE_LIMIT {
      StepDown(cur, nb, lo, k);
      KeyStep(key, nb, lo, k);
      WalkStep(Sizes(t), nb, best, cur, rst, lo, k);
    }
  }

  lemma WithinChild(m: Mem, t: Tree, i: nat, cur: Tree, par: nat, lo: nat, k: nat, right: bool)
    requires Within(m, t, i, cur, par, lo, k) && cur.Node?
    ensures Within(m, t, i, Child(cur, right), Root(cur), if right && k > 0 then lo + Pow2(k - 1) else lo, if k > 0 then k - 1 else 0)
    ensures Root(cur) in Addrs(t) && Root(cur) in Heads(t) && SizeOf(m, Root(cur)) == cur.size && cur.size in Sizes(t)
    ensures Child0(m, Root(cur)) == Root(cur.left) && Child1(m, Root(cur)) == Root(cur.right)
    ensures (Root(cur.left) != 0 <==> cur.left.Node?) && (Root(cur.right) != 0 <==> cur.right.Node?)
    ensures cur.left.Node? ==> Root(cur.left) != Root(cur.right)
  {
    RootIsNull(m, cur, par, i);
    RootIsNull(m, cur.left, cur.ring[0], i);
    RootIsNull(m, cur.right, cur.ring[0], i);
    assert cur.ring[0] in cur.ring;
  }

  /** One comparison of the code: it takes the node exactly if it is a better fit. */
  lemma ChooseStep(m: Mem, trees: seq<Tree>, nb: nat, v: nat, rsize: nat, n: nat, i: nat)
    requires Chosen(m, trees, nb, v, rsize) && 0 < SizeOf(m, n) < SIZE_LIMIT && n != 0
    requires 0 <= i < |trees| && n in Addrs(trees[i]) && n in Heads(trees[i])
    ensures var trem := SubWrap(SizeOf(m, n), nb);
            var v' := if trem < rsize then n else v;
            && Chosen(m, trees, nb, v', if trem < rsize then trem else rsize)
            && BestSize(m, v') == Better(BestSize(m, v), SizeOf(m, n), nb)
            && (trem == 0 <==> SizeOf(m, n) == nb)
  {
    UnsignedCompare(BestSize(m, v), SizeOf(m, n), nb);
  }

  /* ---------------- the second loop ---------------- */

  /** Either the best fit is exact, or nothing can fit, or all of `cur` fits and everything in
      `all` is at least the best or no smaller than what is left in `cur`. */
  ghost predicate LeftWalk(all: set<nat>, nb: nat, best: nat, cur: Tree) {
    || best == nb
    || (nb >= SIZE_LIMIT && best == 0)
    || ((forall x | x in Sizes(cur) :: x >= nb) && PendingLeft(all, best, cur))
  }

  lemma LeftWalkStep(all: set<nat>, nb: nat, best: nat, cur: Tree, lo: nat, k: nat)
    requires LeftWalk(all, nb, best, cur) && cur.Node? && TrieOk(cur, lo, k) && 0 < nb && 0 < cur.size < SIZE_LIMIT
    ensures LeftWalk(all, nb, Better(best, cur.size, nb), LeftmostChild(cur))
  {
    if best != nb && !(nb >= SIZE_LIMIT && best == 0) {
      assert cur.size in Sizes(cur);
      LeftStep(all, nb, best, cur, lo, k);
    }
  }

  /* ---------------- why the result is the best fit of all bins ---------------- */

  ghost predicate AllBins(m: Mem, treemap: nat, trees: seq<Tree>) {
    |trees| == 32 && MapOk(treemap) && forall i | 0 <= i < 32 :: TreeBinOk(m, treemap, i, trees[i])
  }

  /** Sizes in bins below nb's own are smaller than nb. */
  lemma LowerBins(m: Mem, treemap: nat, trees: seq<Tree>, nb: nat, j: nat, x: nat)
    requires AllBins(m, treemap, trees) && 256 <= nb < WORD_LIMIT && j < 32 && x in Sizes(trees[j])
    requires nb < SIZE_LIMIT ==> j < TreeIndex(nb)
    ensures x < nb
  {
    BinSizes(m, treemap, j, trees[j]);
    if nb < SIZE_LIMIT {
      TreeIndexRange(nb);
      if j + 1 < TreeIndex(nb) { MinSizeIncreasing(j + 1, TreeIndex(nb)); }
    }
  }

  /** A best fit within nb's own bin. */
  lemma BestInOwnBin(m: Mem, treemap: nat, trees: seq<Tree>, nb: nat, v: nat, rsize: nat)
    requires AllBins(m, treemap, trees) && 256 <= nb < SIZE_LIMIT && TreeIndex(nb) < 32
    requires Chosen(m, trees, nb, v, rsize) && v != 0 && SizeOf(m, v) in Sizes(trees[TreeIndex(nb)])
    requires forall x | x in Sizes(trees[TreeIndex(nb)]) && x >= nb :: SizeOf(m, v) <= x
    ensures IsBestFit(m, trees, nb, v)
  {
    var i := TreeIndex(nb);
    forall j, x | 0 <= j < |trees| && x in Sizes(trees[j]) && x >= nb ensures SizeOf(m, v) <= x {
      if j < i { LowerBins(m, treemap, trees, nb, j, x); }
      if j > i { BinOrder(m, treemap, trees, i, j, SizeOf(m, v), x); }
    }
  }

  /** Nothing fits in nb's own bin: the best fit is the least size of the next marked bin. */
  lemma BestInNextBin(m: Mem, treemap: nat, trees: seq<Tree>, nb: nat, v: nat, rsize: nat, j: nat)
    requires AllBins(m, treemap, trees) && 256 <= nb < SIZE_LIMIT && TreeIndex(nb) < j < 32
    requires forall x | x in Sizes(trees[TreeIndex(nb)]) :: x < nb
    requires forall l | TreeIndex(nb) < l < j :: !Marked(treemap, l)
    requires Chosen(m, trees, nb, v, rsize) && v != 0 && SizeOf(m, v) in Sizes(trees[j])
    requires forall x | x in Sizes(trees[j]) :: SizeOf(m, v) <= x
    ensures IsBestFit(m, trees, nb, v)
  {
    var i := TreeIndex(nb);
    forall l, x | 0 <= l < |trees| && x in Sizes(trees[l]) && x >= nb ensures SizeOf(m, v) <= x {
      assert TreeBinOk(m, treemap, l, trees[l]);
      if l < i { LowerBins(m, treemap, trees, nb, l, x); }
      if l > j { BinOrder(m, treemap, trees, j, l, SizeOf(m, v), x); }
    }
  }

  lemma NothingFits(m: Mem, treemap: nat, trees: seq<Tree>, nb: nat)
    requires AllBins(m, treemap, trees) && 256 <= nb < WORD_LIMIT
    requires nb < SIZE_LIMIT ==> && TreeIndex(nb) < 32
                                 && (forall x | x in Sizes(trees[TreeIndex(nb)]) :: x < nb)
                                 && forall l | TreeIndex(nb) < l < 32 :: !Marked(treemap, l)
    ensures IsBestFit(m, trees, nb, 0)
  {
    forall l, x | 0 <= l < |trees| && x in Sizes(trees[l]) ensures x < nb {
      assert TreeBinOk(m, treemap, l, trees[l]);
      if nb >= SIZE_LIMIT || l < TreeIndex(nb) { LowerBins(m, treemap, trees, nb, l, x); }
    }
  }

  /** The sizes of a bin that fit. */
  ghost function Fitting(t: Tree, nb: nat): set<nat> { set x | x in Sizes(t) && x >= nb }

  lemma TreeIndexBound(s: nat)
    ensures TreeIndex(s) < 32
  {
    var x := (s / 0x100) % 0x1_0000_0000;
    if 0 < x <= 0xFFFF { LogAtMost15(x); }
  }

  /** The first loop ends with `cur` empty: what is left is the remembered subtree. */
  lemma FirstLoopDone(m: Mem, t: Tree, i: nat, nb: nat, best: nat, lo: nat, k: nat, key: nat, rst: Tree)
    requires FitWalk(m, t, i, nb, best, Nil, lo, k, key, rst)
    ensures LeftWalk(Fitting(t, nb), nb, best, rst)
  {
    if nb < SIZE_LIMIT {
      forall x | x in Sizes(rst) ensures x >= nb { assert AllAbove(rst, nb); }
    }
  }

  lemma NoTree(nb: nat)
    ensures LeftWalk(Fitting(Nil, nb), nb, 0, Nil)
  {
  }

  /** All of the next marked bin fits. */
  lemma NextBinFits(m: Mem, treemap: nat, trees: seq<Tree>, nb: nat, j: nat)
    requires AllBins(m, treemap, trees) && 256 <= nb < WORD_LIMIT && TreeIndex(nb) < j < 32 && trees[j].Node?
    ensures LeftWalk(Sizes(trees[j]), nb, 0, trees[j])
    ensures Within(m, trees[j], j, trees[j], TreeBinAt(j), BinLo(j), BinBits(j))
  {
    hide TreeIndex, MinSizeForIndex, Sizes, Rep, TrieOk, Distinct, BinLo, BinBits, Marked;
    assert TreeBinOk(m, treemap, j, trees[j]);
    if nb < SIZE_LIMIT {
      BinSizes(m, treemap, j, trees[j]);
      BelowNextBin(nb, j);
    }
  }

  lemma BelowNextBin(nb: nat, j: nat)
    requires 256 <= nb < SIZE_LIMIT && TreeIndex(nb) < j < 32
    ensures nb < MinSizeForIndex(j)
  {
    hide MinSizeForIndex, TreeIndex;
    TreeIndexRange(nb);
    if TreeIndex(nb) + 1 < j { MinSizeIncreasing(TreeIndex(nb) + 1, j); }
  }

  /** Where the second loop searches: nb's own bin, or the next marked one if nothing in nb's
      own bin fits. */
  ghost predicate SearchedBin(treemap: nat, trees: seq<Tree>, nb: nat, j: nat) {
    && |trees| == 32 && j < 32 && TreeIndex(nb) < 32
    && (j == TreeIndex(nb)
        || (nb < SIZE_LIMIT ==>
              && TreeIndex(nb) < j && (forall x | x in Sizes(trees[TreeIndex(nb)]) :: x < nb)
              && (forall l | TreeIndex(nb) < l < j :: !Marked(treemap, l))))
  }

  lemma NoneChosen(m: Mem, trees: seq<Tree>, nb: nat, v: nat, rsize: nat)
    requires Chosen(m, trees, nb, v, rsize) && nb >= SIZE_LIMIT
    ensures v == 0
  {
  }

  lemma LeastFitting(m: Mem, t: Tree, nb: nat, v: nat)
    requires LeftWalk(Fitting(t, nb), nb, BestSize(m, v), Nil) && nb < SIZE_LIMIT && v != 0
    ensures forall x | x in Sizes(t) && x >= nb :: SizeOf(m, v) <= x
  {
    forall x | x in Sizes(t) && x >= nb ensures SizeOf(m, v) <= x { assert x in Fitting(t, nb); }
  }

  lemma SearchDoneBelow(m: Mem, treemap: nat, trees: seq<Tree>, nb: nat, j: nat, v: nat, rsize: nat)
    requires AllBins(m, treemap, trees) && 256 <= nb < SIZE_LIMIT && Chosen(m, trees, nb, v, rsize) && v != 0
    requires SearchedBin(treemap, trees, nb, j) && SizeOf(m, v) in Sizes(trees[j])
    requires LeftWalk(Fitting(trees[j], nb), nb, BestSize(m, v), Nil)
    ensures IsBestFit(m, trees, nb, v)
  {
    hide TreeIndex, MinSizeForIndex, Marked, Chosen, IsBestFit, LeftWalk, TreeBinOk;
    LeastFitting(m, trees[j], nb, v);
    if j == TreeIndex(nb) {
      BestInOwnBin(m, treemap, trees, nb, v, rsize);
    } else {
      BinSizes(m, treemap, j, trees[j]);
      TreeIndexRange(nb);
      if TreeIndex(nb) + 1 < j { MinSizeIncreasing(TreeIndex(nb) + 1, j); }
      BestInNextBin(m, treemap, trees, nb, v, rsize, j);
    }
  }

  lemma SearchDone(m: Mem, treemap: nat, trees: seq<Tree>, nb: nat, j: nat, v: nat, rsize: nat)
    requires AllBins(m, treemap, trees) && 256 <= nb < WORD_LIMIT && Chosen(m, trees, nb, v, rsize)
    requires SearchedBin(treemap, trees, nb, j)
    requires LeftWalk(Fitting(trees[j], nb), nb, BestSize(m, v), Nil)
    requires nb < SIZE_LIMIT ==> v != 0
    requires v != 0 ==> SizeOf(m, v) in Sizes(trees[j])
    ensures IsBestFit(m, trees, nb, v)
  {
    hide AllBins, TreeIndex, MinSizeForIndex, Marked, Chosen, SearchedBin, IsBestFit, LeftWalk;
    if nb >= SIZE_LIMIT {
      NoneChosen(m, trees, nb, v, rsize);
      NothingFits(m, treemap, trees, nb);
    } else {
      SearchDoneBelow(m, treemap, trees, nb, j, v, rsize);
    }
  }

  lemma FittingAll(t: Tree, nb: nat, best: nat, cur: Tree)
    requires LeftWalk(Sizes(t), nb, best, cur)
    ensures LeftWalk(Fitting(t, nb), nb, best, cur)
  {
  }

  lemma EmptyOwnBin(t: Tree, nb: nat)
    requires LeftWalk(Fitting(t, nb), nb, 0, Nil) && 0 < nb < SIZE_LIMIT
    ensures forall x | x in Sizes(t) :: x < nb
  {
    forall x | x in Sizes(t) ensures x < nb { assert x >= nb ==> x in Fitting(t, nb); }
  }

  /* ---------------- tmalloc_small ---------------- */

  /** The first marked treebin: all its chunks fit a small request, and there are none below. */
  lemma FirstBin(m: Mem, treemap: nat, trees: seq<Tree>, nb: nat)
    requires AllBins(m, treemap, trees) && treemap != 0 && 0 < nb < 256
    ensures LeastBit(treemap) > 0
    ensures var i := Bit2Idx(LeastBit(treemap));
            && i < 32 && trees[i].Node? && LeftWalk(Sizes(trees[i]), nb, 0, trees[i])
            && Within(m, trees[i], i, trees[i], TreeBinAt(i), BinLo(i), BinBits(i))
            && forall l | 0 <= l < i :: trees[l].Nil?
  {
    hide LeastBit, Bit2Idx, Rep, TrieOk, Distinct, TreeIndex, BinLo, BinBits, Sizes;
    LeastBitIdx(treemap);
    NoMarks(treemap);
    var i := Bit2Idx(LeastBit(treemap));
    forall l | 0 <= l <= i ensures l < 32 && TreeBinOk(m, treemap, l, trees[l]) { }
    FirstBinFits(trees[i], nb);
  }

  lemma FirstBinFits(t: Tree, nb: nat)
    requires nb < 256 && forall x | x in Sizes(t) :: 256 <= x
    ensures t.Node? ==> LeftWalk(Sizes(t), nb, 0, t)
  {
  }

  /** The least size of the first marked bin is the least of all. */
  lemma LeastOfAll(m: Mem, treemap: nat, trees: seq<Tree>, nb: nat, i: nat, v: nat, rsize: nat)
    requires AllBins(m, treemap, trees) && 0 < nb < 256 && i < 32 && forall l | 0 <= l < i :: trees[l].Nil?
    requires Chosen(m, trees, nb, v, rsize) && v in Addrs(trees[i]) && v != 0
    requires LeftWalk(Sizes(trees[i]), nb, BestSize(m, v), Nil)
    ensures IsBestFit(m, trees, nb, v) && SizeOf(m, v) >= 256 && rsize == SizeOf(m, v) - nb
  {
    assert TreeBinOk(m, treemap, i, trees[i]);
    StoredSize(m, trees[i], TreeBinAt(i), i, v);
    forall j, x | 0 <= j < |trees| && x in Sizes(trees[j]) && x >= nb ensures SizeOf(m, v) <= x {
      if j > i { BinOrder(m, treemap, trees, i, j, SizeOf(m, v), x); }
    }
  }
}
