/** The word writes of `insert_large_chunk` and `unlink_large_chunk`
    (hagen/src/malloc.c:2750-2887), and the treebins they leave. */
module TreeBins {
  import opened Lists
  import opened Words
  import opened BinMaps
  import opened Chunks
  import opened Tags
  import opened Trie
  import opened TrieLinks
  import opened Bins

  /** The word writes of an insertion; in an empty bin the parent is the bin slot. */
  function InsertWrites(m: Mem, x: nat, i: nat, slot: Slot): Mem {
    var m0 := m[x + 56 := i][x + 32 := 0][x + 40 := 0];
    match slot
    case Empty(at, right) =>
      var c := if at == TreeBinAt(i) then at else if right then at + 40 else at + 32;
      m0[c := x][x + 48 := at][x + 16 := x][x + 24 := x]
    case Same(at) =>
      var f := Fd(m0, at);
      m0[f + 24 := x][at + 16 := x][x + 16 := f][x + 24 := at][x + 48 := 0]
  }

  /** Tree chunks at different addresses are at least 256 bytes apart. */
  predicate Clear(a: nat, b: nat) { a + 256 <= b || b + 256 <= a }

  lemma EmptyReads(m: Mem, x: nat, i: nat, at: nat, right: bool)
    requires Clear(x, at) && at != TreeBinAt(i)
    ensures var m', c := InsertWrites(m, x, i, Empty(at, right)), if right then at + 40 else at + 32;
            && (forall w: nat {:trigger Rd(m', w)} | w !in {c, x + 16, x + 24, x + 32, x + 40, x + 48, x + 56} ::
                  Rd(m', w) == Rd(m, w))
            && Rd(m', c) == x && Rd(m', x + 56) == i && Rd(m', x + 32) == 0 && Rd(m', x + 40) == 0
            && Rd(m', x + 48) == at && Rd(m', x + 16) == x && Rd(m', x + 24) == x
  {
  }

  lemma EmptyWrites(m: Mem, x: nat, i: nat, at: nat, right: bool, y: nat)
    requires Clear(x, at) && Clear(x, y) && (at == y || Clear(at, y)) && at != TreeBinAt(i)
    ensures var m' := InsertWrites(m, x, i, Empty(at, right));
            && Head(m', y) == Head(m, y) && Index(m', y) == Index(m, y) && Parent(m', y) == Parent(m, y)
            && Fd(m', y) == Fd(m, y) && Bk(m', y) == Bk(m, y)
            && Child0(m', y) == (if y == at && !right then x else Child0(m, y))
            && Child1(m', y) == (if y == at && right then x else Child1(m, y))
            && Head(m', x) == Head(m, x) && Index(m', x) == i && Child0(m', x) == 0 && Child1(m', x) == 0
            && Parent(m', x) == at && Fd(m', x) == x && Bk(m', x) == x
  {
    EmptyReads(m, x, i, at, right);
    hide InsertWrites, Rd;
  }

  lemma SameReads(m: Mem, x: nat, i: nat, at: nat)
    requires var f := Fd(m, at); Clear(x, at) && Clear(x, f) && (at == f || Clear(at, f))
    ensures var m', f := InsertWrites(m, x, i, Same(at)), Fd(m, at);
            && (forall w: nat {:trigger Rd(m', w)} |
                  w !in {f + 24, at + 16, x + 16, x + 24, x + 32, x + 40, x + 48, x + 56} :: Rd(m', w) == Rd(m, w))
            && Rd(m', f + 24) == x && Rd(m', at + 16) == x
            && Rd(m', x + 56) == i && Rd(m', x + 32) == 0 && Rd(m', x + 40) == 0
            && Rd(m', x + 48) == 0 && Rd(m', x + 16) == f && Rd(m', x + 24) == at
  {
  }

  lemma SameWrites(m: Mem, x: nat, i: nat, at: nat, y: nat)
    requires var f := Fd(m, at);
             && Clear(x, at) && Clear(x, f) && Clear(x, y) && (at == y || Clear(at, y)) && (f == y || Clear(f, y))
             && (at == f || Clear(at, f))
    ensures var m' := InsertWrites(m, x, i, Same(at));
            && Head(m', y) == Head(m, y) && Index(m', y) == Index(m, y) && Parent(m', y) == Parent(m, y)
            && Fd(m', y) == (if y == at then x else Fd(m, y))
            && Bk(m', y) == (if y == Fd(m, at) then x else Bk(m, y))
            && Child0(m', y) == Child0(m, y) && Child1(m', y) == Child1(m, y)
            && Head(m', x) == Head(m, x) && Index(m', x) == i && Child0(m', x) == 0 && Child1(m', x) == 0
            && Parent(m', x) == 0 && Fd(m', x) == Fd(m, at) && Bk(m', x) == at
  {
    SameReads(m, x, i, at);
    hide InsertWrites, Rd;
  }

  lemma InsertedByWrites(m: Mem, ys: set<nat>, x: nat, i: nat, slot: Slot)
    requires Spaced(ys + {x}, 256) && x !in ys && x != 0 && TreeBinAt(i) !in ys
    requires slot.at in ys && (slot.Same? ==> Fd(m, slot.at) in ys)
    ensures Inserted(m, InsertWrites(m, x, i, slot), ys, x, SizeOf(m, x), i, slot)
  {
    hide InsertWrites, Rd;
    var m' := InsertWrites(m, x, i, slot);
    forall a, b | a in ys + {x} && b in ys + {x} && a != b ensures Clear(a, b) { }
    assert slot.at in ys + {x} && x in ys + {x} && (slot.Same? ==> Fd(m, slot.at) in ys + {x});
    hide Clear;
    if slot.Same? {
      SameWrites(m, x, i, slot.at, slot.at);
      forall y | y in ys ensures SameWritten(m, m', x, slot.at, y) {
        assert y in ys + {x};
        SameWrites(m, x, i, slot.at, y);
        SameHead(m, m', y);
      }
    } else {
      EmptyWrites(m, x, i, slot.at, slot.right, slot.at);
      forall y | y in ys ensures EmptyWritten(m, m', x, slot.at, slot.right, y) {
        assert y in ys + {x};
        EmptyWrites(m, x, i, slot.at, slot.right, y);
        SameHead(m, m', y);
      }
    }
    SameHead(m, m', x);
  }

  ghost predicate SameWritten(m: Mem, m': Mem, x: nat, at: nat, y: nat) {
    && SizeOf(m', y) == SizeOf(m, y) && Index(m', y) == Index(m, y) && Parent(m', y) == Parent(m, y)
    && Fd(m', y) == (if y == at then x else Fd(m, y)) && Bk(m', y) == (if y == Fd(m, at) then x else Bk(m, y))
    && Child0(m', y) == Child0(m, y) && Child1(m', y) == Child1(m, y)
  }

  ghost predicate EmptyWritten(m: Mem, m': Mem, x: nat, at: nat, right: bool, y: nat) {
    && SizeOf(m', y) == SizeOf(m, y) && Index(m', y) == Index(m, y) && Parent(m', y) == Parent(m, y)
    && Fd(m', y) == Fd(m, y) && Bk(m', y) == Bk(m, y)
    && Child0(m', y) == (if y == at && !right then x else Child0(m, y))
    && Child1(m', y) == (if y == at && right then x else Child1(m, y))
  }

  /* ---------------- insertion into a treebin ---------------- */

  lemma BinWidth(i: nat)
    requires i < 31
    ensures MinSizeForIndex(i + 1) == MinSizeForIndex(i) + Pow2(BinBits(i))
  {
    if i % 2 == 0 { assert (i + 1) / 2 == i / 2; } else { assert (i + 1) / 2 == i / 2 + 1; }
  }

  lemma BinRange(s: nat)
    requires 256 <= s < SIZE_LIMIT
    ensures var i := TreeIndex(s); i < 32 && InRange(s, BinLo(i), BinBits(i))
  {
    TreeIndexRange(s);
    if TreeIndex(s) < 31 { BinWidth(TreeIndex(s)); } else { Limit64(); }
  }

  lemma Limit64()
    ensures Pow2(64) == WORD_LIMIT && Pow2(63) * 2 == WORD_LIMIT
  {
    Pow2At16(); Pow2Add(16, 16); Pow2Add(32, 32);
  }

  function SlotIn(t: Tree, s: nat, i: nat): Slot
    requires i < 32 && InRange(s, BinLo(i), BinBits(i)) && TrieOk(t, BinLo(i), BinBits(i))
  {
    if t.Node? && |t.ring| > 0 then FindSlot(t, s, BinLo(i), BinBits(i)) else Empty(TreeBinAt(i), false)
  }

  ghost predicate TreeChunk(m: Mem, x: nat, i: nat) {
    256 <= SizeOf(m, x) < SIZE_LIMIT && TreeIndex(SizeOf(m, x)) == i
  }

  lemma InsertLargeWords(m: Mem, c: set<nat>, x: nat, i: nat, slot: Slot, w: set<nat>)
    requires Layout(m, c) && x in w && w <= c && i < 32
    requires slot.at in w || slot == Empty(TreeBinAt(i), false)
    requires slot.Same? ==> Fd(m, slot.at) in w && x != slot.at
    requires forall a | a in w :: SizeOf(m, a) >= 256
    ensures LinksOnly(m, InsertWrites(m, x, i, slot), w, TreeHeader(i))
  {
    var m' := InsertWrites(m, x, i, slot);
    if slot.Same? { SameNot16(m, c, x, i, slot.at); }
    assert x + 16 <= x + 56 < x + SizeOf(m, x);
    if slot.at in w { assert slot.at + 16 <= slot.at + 40 < slot.at + SizeOf(m, slot.at); }
    if slot.Same? { var f := Fd(m, slot.at); assert f + 16 <= f + 24 < f + SizeOf(m, f); }
    forall v: nat {:trigger Rd(m', v)}
      ensures Rd(m', v) == Rd(m, v) || v in TreeHeader(i) || exists a :: a in w && a + 16 <= v < a + SizeOf(m, a)
    {
    }
  }

  // The fd field read by the insertion is not one of the words written before it.
  lemma SameNot16(m: Mem, c: set<nat>, x: nat, i: nat, at: nat)
    requires Layout(m, c) && x in c && at in c && x != at && SizeOf(m, x) >= 256 && SizeOf(m, at) >= 256
    ensures Fd(m[x + 56 := i][x + 32 := 0][x + 40 := 0], at) == Fd(m, at)
  {
    hide SizeOf, Aligned;
    assert x + SizeOf(m, x) <= at || at + SizeOf(m, at) <= x;
  }

  lemma TreeSpaced(m: Mem, c: set<nat>, ys: set<nat>)
    requires Layout(m, c) && ys <= c && forall a | a in ys :: SizeOf(m, a) >= 256
    ensures Spaced(ys, 256)
  {
    hide SizeOf, Aligned;
  }

  lemma TreeSizes(m: Mem, c: set<nat>, treemap: nat, i: nat, t: Tree)
    requires TreeBinOk(m, treemap, i, t)
    ensures forall a | a in Addrs(t) :: TreeChunk(m, a, i)
  {
    forall a | a in Addrs(t) ensures TreeChunk(m, a, i) { StoredSize(m, t, TreeBinAt(i), i, a); }
  }

  lemma InsertEmptyBin(m: Mem, x: nat, i: nat)
    requires x >= FLOOR && i < 32
    ensures var m' := InsertWrites(m, x, i, Empty(TreeBinAt(i), false));
            && Rep(m', Node([x], SizeOf(m, x), Nil, Nil), TreeBinAt(i), i)
            && Rd(m', TreeBinAt(i)) == x
  {
    var m' := InsertWrites(m, x, i, Empty(TreeBinAt(i), false));
    assert Fd(m', x) == x && Bk(m', x) == x;
    RingSingle(m', x);
  }

  /** What an insertion leaves of the bin's tree. */
  ghost predicate InsertedIn(m: Mem, m': Mem, i: nat, t: Tree, x: nat, slot: Slot)
    requires i < 32 && InRange(SizeOf(m, x), BinLo(i), BinBits(i)) && TrieOk(t, BinLo(i), BinBits(i))
  {
    && Rep(m', InsertT(t, x, SizeOf(m, x), BinLo(i), BinBits(i)), TreeBinAt(i), i)
    && (slot.at in Addrs(t) || slot == Empty(TreeBinAt(i), false))
    && (slot.Same? ==> Fd(m, slot.at) in Addrs(t))
    && Rd(m', TreeBinAt(i)) == if t.Nil? then x else Rd(m, TreeBinAt(i))
  }

  lemma InsertLargeRep(m: Mem, c: set<nat>, treemap: nat, i: nat, t: Tree, x: nat)
    requires Layout(m, c) && Addrs(t) <= c && x in c && x !in Addrs(t) && i < 32
    requires TreeBinOk(m, treemap, i, t) && TreeChunk(m, x, i)
    requires InRange(SizeOf(m, x), BinLo(i), BinBits(i))
    ensures var slot := SlotIn(t, SizeOf(m, x), i);
            InsertedIn(m, InsertWrites(m, x, i, slot), i, t, x, slot)
  {
    var s, lo, k := SizeOf(m, x), BinLo(i), BinBits(i);
    assert x >= FLOOR && x != 0;
    assert forall a | a in Addrs(t) :: a >= FLOOR;
    var slot := SlotIn(t, s, i);
    var m' := InsertWrites(m, x, i, slot);
    TreeSizes(m, c, treemap, i, t);
    if t.Nil? {
      InsertEmptyBin(m, x, i);
    } else {
      hide InsertWrites, Layout, FindSlot, InsertT, Rd, SizeOf, TreeIndex, Addrs, Distinct, MinSizeForIndex;
      NodeHasRing(m, t, TreeBinAt(i), i);
      SlotInTree(m, t, TreeBinAt(i), i, s, lo, k);
      TreeSpaced(m, c, Addrs(t) + {x});
      InsertedByWrites(m, Addrs(t), x, i, slot);
      InsertRep(m, m', t, TreeBinAt(i), i, x, s, lo, k);
      if slot.Same? { SameNot16(m, c, x, i, slot.at); }
      BinSlotKept(m, m', i, slot, x);
    }
  }

  lemma NodeHasRing(m: Mem, t: Tree, par: nat, idx: nat)
    requires t.Node? && Rep(m, t, par, idx)
    ensures |t.ring| > 0
  {
  }

  lemma BinSlotKept(m: Mem, m': Mem, i: nat, slot: Slot, x: nat)
    requires m' == InsertWrites(m, x, i, slot) && i < 32 && slot.at >= FLOOR && x >= FLOOR
    requires slot.Same? ==> Fd(m[x + 56 := i][x + 32 := 0][x + 40 := 0], slot.at) >= FLOOR
    ensures Rd(m', TreeBinAt(i)) == Rd(m, TreeBinAt(i))
  {
  }

  lemma BinnedWithTree(smalls: seq<seq<nat>>, trees: seq<Tree>, i: nat, t: Tree, add: set<nat>, sub: set<nat>)
    requires i < |trees| && Addrs(t) == Addrs(trees[i]) - sub + add
    requires forall j | 0 <= j < |smalls| :: sub !! Elems(smalls[j])
    requires forall j | 0 <= j < |trees| && j != i :: sub !! Addrs(trees[j])
    ensures Binned(smalls, trees[i := t]) == Binned(smalls, trees) - sub + add
  {
    var t' := trees[i := t];
    forall a ensures a in Binned(smalls, t') <==> a in Binned(smalls, trees) - sub + add {
      if a in Addrs(t) { assert a in Addrs(t'[i]); }
      if j :| 0 <= j < |trees| && a in Addrs(trees[j]) { if j != i { assert a in Addrs(t'[j]); } }
      if j :| 0 <= j < |t'| && a in Addrs(t'[j]) { if j != i { assert a in Addrs(trees[j]); } }
      if j :| 0 <= j < |smalls| && a in smalls[j] { assert a in Elems(smalls[j]); }
    }
  }

  lemma TreeIsBinned(smalls: seq<seq<nat>>, trees: seq<Tree>, i: nat)
    requires i < |trees|
    ensures Addrs(trees[i]) <= Binned(smalls, trees)
  {
  }

  lemma InsertedTreeBin(m: Mem, m': Mem, treemap: nat, i: nat, t: Tree, x: nat, slot: Slot)
    requires TreeBinOk(m, treemap, i, t) && TreeChunk(m, x, i) && i < 32 && x !in Addrs(t) && MapOk(treemap) && x != 0
    requires InRange(SizeOf(m, x), BinLo(i), BinBits(i))
    requires InsertedIn(m, m', i, t, x, slot)
    ensures TreeBinOk(m', Mark(treemap, i), i, InsertT(t, x, SizeOf(m, x), BinLo(i), BinBits(i)))
  {
    var s, lo, k := SizeOf(m, x), BinLo(i), BinBits(i);
    hide Rep, Distinct, TrieOk, InsertT, Rd, SizeOf, Addrs, MinSizeForIndex, TreeIndex;
    MarkElsewhere(treemap, i);
    InsertTrie(t, x, s, lo, k);
    InsertAddrs(t, x, s, lo, k);
    InsertIsNode(t, x, s, lo, k);
  }

  lemma InsertIsNode(t: Tree, x: nat, s: nat, lo: nat, k: nat)
    requires InRange(s, lo, k) && TrieOk(t, lo, k)
    ensures InsertT(t, x, s, lo, k).Node?
  {
  }

  lemma BinAt(m: Mem, smallmap: nat, treemap: nat, smalls: seq<seq<nat>>, trees: seq<Tree>, i: nat)
    requires BinsOk(m, smallmap, treemap, smalls, trees) && i < 32
    ensures |smalls| == 32 && |trees| == 32
    ensures TreeBinOk(m, treemap, i, trees[i]) && SmallBinOk(m, smallmap, i, smalls[i])
    ensures MapOk(smallmap) && MapOk(treemap)
  {
  }

  lemma InsertLargeBin(m: Mem, c: set<nat>, treemap: nat, i: nat, t: Tree, x: nat, w: set<nat>)
    requires Layout(m, c) && Addrs(t) <= c && x in c && x !in Addrs(t) && i < 32 && MapOk(treemap)
    requires TreeBinOk(m, treemap, i, t) && TreeChunk(m, x, i)
    requires InRange(SizeOf(m, x), BinLo(i), BinBits(i)) && TrieOk(t, BinLo(i), BinBits(i))
    requires w == InsertTouches(m, x, i, SlotIn(t, SizeOf(m, x), i))
    ensures var s := SizeOf(m, x);
            var m', t' := InsertWrites(m, x, i, SlotIn(t, s, i)), InsertT(t, x, s, BinLo(i), BinBits(i));
            && TreeBinOk(m', Mark(treemap, i), i, t')
            && Addrs(t') == Addrs(t) + {x} && w <= Addrs(t) + {x} && w <= c
            && LinksOnly(m, m', w, TreeHeader(i))
  {
    hide *;
    var s := SizeOf(m, x);
    var slot := SlotIn(t, s, i);
    DistinctOf(m, treemap, i, t);
    AtFloor(m, c, x);
    InsertLargeRep(m, c, treemap, i, t, x);
    ShowInsertedIn(m, InsertWrites(m, x, i, slot), i, t, x, slot);
    InsertedTreeBin(m, InsertWrites(m, x, i, slot), treemap, i, t, x, slot);
    InsertAddrs(t, x, s, BinLo(i), BinBits(i));
    InsertTouchesIn(m, c, treemap, i, t, x, slot, w);
    InsertLargeWords(m, c, x, i, slot, w);
  }

  lemma ShowInsertedIn(m: Mem, m': Mem, i: nat, t: Tree, x: nat, slot: Slot)
    requires i < 32 && InRange(SizeOf(m, x), BinLo(i), BinBits(i)) && TrieOk(t, BinLo(i), BinBits(i))
    requires InsertedIn(m, m', i, t, x, slot)
    ensures slot.at in Addrs(t) || slot == Empty(TreeBinAt(i), false)
    ensures slot.Same? ==> Fd(m, slot.at) in Addrs(t)
  {
  }

  /** `insert_large_chunk` */
  lemma InsertLarge(m: Mem, smallmap: nat, treemap: nat, smalls: seq<seq<nat>>, trees: seq<Tree>, c: set<nat>, x: nat)
    requires BinsOk(m, smallmap, treemap, smalls, trees) && Layout(m, c) && Binned(smalls, trees) <= c
    requires x in c && x !in Binned(smalls, trees) && 256 <= SizeOf(m, x) < SIZE_LIMIT
    ensures var s, i := SizeOf(m, x), TreeIndex(SizeOf(m, x));
            && i < 32 && InRange(s, BinLo(i), BinBits(i)) && TrieOk(trees[i], BinLo(i), BinBits(i))
            && var m' := InsertWrites(m, x, i, SlotIn(trees[i], s, i));
               var trees' := trees[i := InsertT(trees[i], x, s, BinLo(i), BinBits(i))];
               && BinsOk(m', smallmap, Mark(treemap, i), smalls, trees')
               && Binned(smalls, trees') == Binned(smalls, trees) + {x}
               && LinksOnly(m, m', Binned(smalls, trees) + {x}, TreeHeader(i))
  {
    var i := TreeIndex(SizeOf(m, x));
    BinRange(SizeOf(m, x));
    BinAt(m, smallmap, treemap, smalls, trees, i);
    DistinctOf(m, treemap, i, trees[i]);
    InsertLargeAt(m, smallmap, treemap, smalls, trees, c, x, i);
  }

  lemma InsertLargeAt(m: Mem, smallmap: nat, treemap: nat, smalls: seq<seq<nat>>, trees: seq<Tree>, c: set<nat>, x: nat, i: nat)
    requires BinsOk(m, smallmap, treemap, smalls, trees) && Layout(m, c) && Binned(smalls, trees) <= c
    requires x in c && x !in Binned(smalls, trees) && i < 32 && TreeChunk(m, x, i)
    requires InRange(SizeOf(m, x), BinLo(i), BinBits(i)) && TrieOk(trees[i], BinLo(i), BinBits(i))
    ensures var s := SizeOf(m, x);
            var m' := InsertWrites(m, x, i, SlotIn(trees[i], s, i));
            var trees' := trees[i := InsertT(trees[i], x, s, BinLo(i), BinBits(i))];
            && BinsOk(m', smallmap, Mark(treemap, i), smalls, trees')
            && Binned(smalls, trees') == Binned(smalls, trees) + {x}
            && LinksOnly(m, m', Binned(smalls, trees) + {x}, TreeHeader(i))
  {
    hide Rep, Distinct, TrieOk, InsertT, Rd, Addrs, InsertWrites, TreeBinOk, SmallBinOk, SlotIn, InsertTouches, BinsOk,
         Binned, TreeChunk, InRange, BinLo, BinBits, Mark, Marked, SizeOf, Layout;
    BinAt(m, smallmap, treemap, smalls, trees, i);
    var t, s := trees[i], SizeOf(m, x);
    var slot := SlotIn(t, s, i);
    var m' := InsertWrites(m, x, i, slot);
    var t' := InsertT(t, x, s, BinLo(i), BinBits(i));
    var w := InsertTouches(m, x, i, slot);
    TreeIsBinned(smalls, trees, i);
    InsertLargeBin(m, c, treemap, i, t, x, w);
    BinnedWithTree(smalls, trees, i, t', {x}, {});
    MarkElsewhere(treemap, i);
    TreeBinChanged(m, m', smallmap, treemap, Mark(treemap, i), smalls, trees, c, w, i, t');
  }

  lemma AtFloor(m: Mem, c: set<nat>, x: nat)
    requires Layout(m, c) && x in c
    ensures x >= FLOOR && x != 0
  {
  }

  lemma DistinctOf(m: Mem, treemap: nat, i: nat, t: Tree)
    requires TreeBinOk(m, treemap, i, t)
    ensures Distinct(t) && TrieOk(t, BinLo(i), BinBits(i)) && Rep(m, t, TreeBinAt(i), i)
    ensures Rd(m, TreeBinAt(i)) == Root(t) && (Marked(treemap, i) <==> t.Node?)
  {
  }

  /** The chunks an insertion writes to. */
  ghost function InsertTouches(m: Mem, x: nat, i: nat, slot: Slot): set<nat> {
    if slot == Empty(TreeBinAt(i), false) then {x}
    else if slot.Same? then {x, slot.at, Fd(m, slot.at)} else {x, slot.at}
  }

  lemma InsertTouchesIn(m: Mem, c: set<nat>, treemap: nat, i: nat, t: Tree, x: nat, slot: Slot, w: set<nat>)
    requires TreeBinOk(m, treemap, i, t) && TreeChunk(m, x, i) && Layout(m, c) && Addrs(t) <= c && x in c
    requires slot.at in Addrs(t) || slot == Empty(TreeBinAt(i), false)
    requires slot.Same? ==> Fd(m, slot.at) in Addrs(t)
    requires w == InsertTouches(m, x, i, slot) && i < 32 && x !in Addrs(t)
    ensures w <= Addrs(t) + {x} && w <= c && x in w && (slot.at in w || slot == Empty(TreeBinAt(i), false))
    ensures slot.Same? ==> Fd(m, slot.at) in w && x != slot.at
    ensures forall a | a in w :: SizeOf(m, a) >= 256
  {
    TreeSizes(m, c, treemap, i, t);
  }

  /** `insert_large_chunk`, with all bins. */
  lemma InsertLargeStep(m: Mem, smallmap: nat, treemap: nat, smalls: seq<seq<nat>>, trees: seq<Tree>, c: set<nat>, x: nat)
    requires BinsInv(m, smallmap, treemap, smalls, trees, c)
    requires x in c && x !in Binned(smalls, trees) && 256 <= SizeOf(m, x) < SIZE_LIMIT
    ensures var s, i := SizeOf(m, x), TreeIndex(SizeOf(m, x));
            && i < 32 && |trees| == 32 && InRange(s, BinLo(i), BinBits(i)) && TreeBinOk(m, treemap, i, trees[i])
            && TrieOk(trees[i], BinLo(i), BinBits(i))
            && var m' := InsertWrites(m, x, i, SlotIn(trees[i], s, i));
               var trees' := trees[i := InsertT(trees[i], x, s, BinLo(i), BinBits(i))];
               && BinsInv(m', smallmap, Mark(treemap, i), smalls, trees', c)
               && Binned(smalls, trees') == Binned(smalls, trees) + {x}
               && BinWrites(m, m', Binned(smalls, trees) + {x})
    ensures Addrs(trees[TreeIndex(SizeOf(m, x))]) <= c - {x}
    ensures forall y | y in Addrs(trees[TreeIndex(SizeOf(m, x))]) :: SizeOf(m, y) >= 256
  {
    hide SizeOf, SmallBinOk, TreeBinOk, Layout, Mark, Marked, InsertWrites, InsertT, Binned, LinksOnly, TreeIndex, Rep, TrieOk,
         InRange, SlotIn, BinLo, BinBits, Addrs;
    InsertLarge(m, smallmap, treemap, smalls, trees, c, x);
    var s, i := SizeOf(m, x), TreeIndex(SizeOf(m, x));
    BinAt(m, smallmap, treemap, smalls, trees, i);
    TreeIsBinned(smalls, trees, i);
    TreeSizes(m, c, treemap, i, trees[i]);
    SmallHeadersStatic(i);
    BinsInvAfter(m, InsertWrites(m, x, i, SlotIn(trees[i], s, i)), smallmap, Mark(treemap, i), smalls,
                 trees[i := InsertT(trees[i], x, s, BinLo(i), BinBits(i))], c, Binned(smalls, trees) + {x}, TreeHeader(i));
  }

  lemma SmallHeadersStatic(i: nat)
    requires i < 32
    ensures Static(TreeHeader(i))
  {
  }
}
