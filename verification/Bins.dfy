/** The small bins and treebins over the chunks of a segment (hagen/src/malloc.c,
    `malloc_state`), and what leaves them intact. */
module Bins {
  import opened Lists
  import opened Words
  import opened BinMaps
  import opened Chunks
  import opened Tags
  import opened Trie
  import opened TrieLinks

  const GM: nat := 0x1000          // address of the static malloc_state, below FLOOR
  const SIZE_LIMIT: nat := 0x100_0000_0000

  /** `smallbin_at`: the bin header, laid over the array so that its fd and bk are words
      2i+2 and 2i+3 of `smallbins`. */
  function SmallBinAt(i: nat): nat { GM + 72 + 16 * i }

  /** `treebin_at` */
  function TreeBinAt(i: nat): nat { GM + 600 + 8 * i }

  /** The range of sizes that bin `i`'s trie divides. */
  function BinLo(i: nat): nat { if i == 31 then 0 else MinSizeForIndex(i) }
  function BinBits(i: nat): nat { if i == 31 then 64 else i / 2 + 7 }

  ghost predicate SmallBinOk(m: Mem, smallmap: nat, i: nat, list: seq<nat>) {
    && (Marked(smallmap, i) <==> list != [])
    && (list != [] ==> RingOk(m, [SmallBinAt(i)] + list))
    && NoDup(list)
    && forall a | a in list :: SizeOf(m, a) == 8 * i
  }

  ghost predicate TreeBinOk(m: Mem, treemap: nat, i: nat, t: Tree) {
    && (Marked(treemap, i) <==> t.Node?)
    && Rd(m, TreeBinAt(i)) == Root(t)
    && Rep(m, t, TreeBinAt(i), i) && Distinct(t) && TrieOk(t, BinLo(i), BinBits(i))
    && forall s | s in Sizes(t) :: 256 <= s < SIZE_LIMIT && TreeIndex(s) == i
  }

  ghost predicate MapOk(map_: nat) { forall j: nat | j >= 32 :: !Marked(map_, j) }

  ghost predicate BinsOk(m: Mem, smallmap: nat, treemap: nat, smalls: seq<seq<nat>>, trees: seq<Tree>) {
    && |smalls| == 32 && |trees| == 32 && MapOk(smallmap) && MapOk(treemap)
    && (forall i | 0 <= i < 32 :: SmallBinOk(m, smallmap, i, smalls[i]))
    && (forall i | 0 <= i < 32 :: TreeBinOk(m, treemap, i, trees[i]))
  }

  /** All chunks held in bins. */
  ghost function Binned(smalls: seq<seq<nat>>, trees: seq<Tree>): set<nat> {
    (set i, a | 0 <= i < |smalls| && a in smalls[i] :: a)
    + (set i, a | 0 <= i < |trees| && a in Addrs(trees[i]) :: a)
  }

  /** The chunks `c` lie above the static state, aligned and without overlap. */
  ghost predicate Layout(m: Mem, c: set<nat>) {
    && Apart(m, c)
    && forall a | a in c :: Aligned(a) && a >= FLOOR && SizeOf(m, a) >= MIN_CHUNK
  }

  /** Only link words of the chunks `b` and the static words `h` have been written. */
  ghost predicate LinksOnly(m: Mem, m': Mem, b: set<nat>, h: set<nat>) {
    forall w: nat {:trigger Rd(m', w)} ::
      Rd(m', w) == Rd(m, w) || w in h || exists a :: a in b && a + 16 <= w < a + SizeOf(m, a)
  }

  ghost predicate Static(h: set<nat>) { forall w | w in h :: w < FLOOR }

  /** A chunk that was not written keeps every word from its head to its foot. */
  lemma Untouched(m: Mem, m': Mem, c: set<nat>, b: set<nat>, h: set<nat>, y: nat, w: nat)
    requires Layout(m, c) && b <= c && Static(h) && LinksOnly(m, m', b, h)
    requires y in c && y + 8 <= w <= y + SizeOf(m, y) && (y !in b || w == y + 8 || w == y + SizeOf(m, y))
    ensures Rd(m', w) == Rd(m, w)
  {
    hide SizeOf, Rd, Aligned;
  }

  lemma UntouchedTags(m: Mem, m': Mem, c: set<nat>, b: set<nat>, h: set<nat>, y: nat)
    requires Layout(m, c) && b <= c && Static(h) && LinksOnly(m, m', b, h) && y in c
    ensures Head(m', y) == Head(m, y) && SizeOf(m', y) == SizeOf(m, y)
    ensures Foot(m', y + SizeOf(m, y)) == Foot(m, y + SizeOf(m, y))
  {
    Untouched(m, m', c, b, h, y, y + 8);
    Untouched(m, m', c, b, h, y, y + SizeOf(m, y));
  }

  lemma UntouchedNode(m: Mem, m': Mem, c: set<nat>, b: set<nat>, h: set<nat>, y: nat)
    requires Layout(m, c) && b <= c && Static(h) && LinksOnly(m, m', b, h) && y in c && y !in b
    ensures SizeOf(m', y) == SizeOf(m, y) && Fd(m', y) == Fd(m, y) && Bk(m', y) == Bk(m, y)
    ensures SizeOf(m, y) >= 256 ==> SameNode(m, m', y)
  {
    UntouchedTags(m, m', c, b, h, y);
    Untouched(m, m', c, b, h, y, y + 16);
    Untouched(m, m', c, b, h, y, y + 24);
    if SizeOf(m, y) >= 256 {
      Untouched(m, m', c, b, h, y, y + 32);
      Untouched(m, m', c, b, h, y, y + 40);
      Untouched(m, m', c, b, h, y, y + 48);
      Untouched(m, m', c, b, h, y, y + 56);
    }
  }

  /** Static words outside `h` are not written either. */
  lemma UntouchedStatic(m: Mem, m': Mem, c: set<nat>, b: set<nat>, h: set<nat>, w: nat)
    requires Layout(m, c) && b <= c && LinksOnly(m, m', b, h) && w < FLOOR && w !in h
    ensures Rd(m', w) == Rd(m, w)
  {
    hide SizeOf, Rd, Aligned;
  }

  lemma SmallBinFrame(m: Mem, m': Mem, map_: nat, map': nat, i: nat, list: seq<nat>)
    requires SmallBinOk(m, map_, i, list) && (Marked(map', i) <==> Marked(map_, i))
    requires forall a | a in list :: SizeOf(m', a) == SizeOf(m, a) && Fd(m', a) == Fd(m, a) && Bk(m', a) == Bk(m, a)
    requires Fd(m', SmallBinAt(i)) == Fd(m, SmallBinAt(i)) && Bk(m', SmallBinAt(i)) == Bk(m, SmallBinAt(i))
    ensures SmallBinOk(m', map', i, list)
  {
    if list != [] { RingFrame(m, m', [SmallBinAt(i)] + list); }
  }

  lemma TreeBinFrame(m: Mem, m': Mem, map_: nat, map': nat, i: nat, t: Tree)
    requires TreeBinOk(m, map_, i, t) && (Marked(map', i) <==> Marked(map_, i))
    requires forall a | a in Addrs(t) :: SameNode(m, m', a)
    requires Rd(m', TreeBinAt(i)) == Rd(m, TreeBinAt(i))
    ensures TreeBinOk(m', map', i, t)
  {
    RepFrame(m, m', t, TreeBinAt(i), i);
  }

  lemma {:induction false} StoredSize(m: Mem, t: Tree, par: nat, idx: nat, a: nat)
    requires Rep(m, t, par, idx) && a in Addrs(t)
    ensures SizeOf(m, a) in Sizes(t)
    decreases t
  {
    if a in t.ring {
    } else if a in Addrs(t.left) {
      StoredSize(m, t.left, t.ring[0], idx, a);
    } else {
      StoredSize(m, t.right, t.ring[0], idx, a);
    }
  }

  /** The bin that holds a chunk is determined by its size. */
  lemma BinOfChunk(m: Mem, smallmap: nat, treemap: nat, smalls: seq<seq<nat>>, trees: seq<Tree>, a: nat)
    requires BinsOk(m, smallmap, treemap, smalls, trees)
    ensures forall i | 0 <= i < 32 && a in smalls[i] :: SizeOf(m, a) == 8 * i < 256
    ensures forall i | 0 <= i < 32 && a in Addrs(trees[i]) ::
              256 <= SizeOf(m, a) < SIZE_LIMIT && TreeIndex(SizeOf(m, a)) == i
  {
    forall i | 0 <= i < 32 && a in Addrs(trees[i])
      ensures 256 <= SizeOf(m, a) < SIZE_LIMIT && TreeIndex(SizeOf(m, a)) == i
    {
      assert TreeBinOk(m, treemap, i, trees[i]);
      StoredSize(m, trees[i], TreeBinAt(i), i, a);
    }
    forall i | 0 <= i < 32 && a in smalls[i] ensures SizeOf(m, a) == 8 * i < 256 {
      assert SmallBinOk(m, smallmap, i, smalls[i]);
    }
  }

  /* ---------------- one bin changes ---------------- */

  ghost predicate MarkedElsewhere(map_: nat, map': nat, i: nat) {
    MapOk(map') && forall j: nat | j != i :: Marked(map', j) <==> Marked(map_, j)
  }

  lemma MarkElsewhere(map_: nat, i: nat)
    requires MapOk(map_) && i < 32
    ensures MarkedElsewhere(map_, Mark(map_, i), i) && Marked(Mark(map_, i), i)
    ensures MarkedElsewhere(map_, Unmark(map_, i), i) && !Marked(Unmark(map_, i), i)
  {
    forall j: nat
      ensures Marked(Mark(map_, i), j) <==> Marked(map_, j) || i == j
      ensures Marked(Unmark(map_, i), j) <==> Marked(map_, j) && i != j
    {
      MarkBits(map_, i, j);
    }
  }

  /** The link words of other bins, seen from bin headers. */
  function SmallHeader(i: nat): set<nat> { {SmallBinAt(i) + 16, SmallBinAt(i) + 24} }
  function TreeHeader(i: nat): set<nat> { {TreeBinAt(i)} }

  lemma SmallBinKept(m: Mem, m': Mem, smallmap: nat, smallmap': nat, treemap: nat,
                     smalls: seq<seq<nat>>, trees: seq<Tree>, c: set<nat>, b: set<nat>, h: set<nat>, j: nat)
    requires BinsOk(m, smallmap, treemap, smalls, trees) && Layout(m, c) && Binned(smalls, trees) <= c
    requires b <= c && Static(h) && LinksOnly(m, m', b, h) && j < 32
    requires forall a | a in b :: a !in smalls[j]
    requires SmallHeader(j) !! h && (Marked(smallmap', j) <==> Marked(smallmap, j))
    ensures SmallBinOk(m', smallmap', j, smalls[j])
  {
    forall a | a in smalls[j]
      ensures SizeOf(m', a) == SizeOf(m, a) && Fd(m', a) == Fd(m, a) && Bk(m', a) == Bk(m, a)
    {
      assert a in Binned(smalls, trees);
      UntouchedNode(m, m', c, b, h, a);
    }
    assert SmallBinAt(j) + 16 in SmallHeader(j) && SmallBinAt(j) + 24 in SmallHeader(j);
    UntouchedStatic(m, m', c, b, h, SmallBinAt(j) + 16);
    UntouchedStatic(m, m', c, b, h, SmallBinAt(j) + 24);
    SmallBinFrame(m, m', smallmap, smallmap', j, smalls[j]);
  }

  lemma TreeBinKept(m: Mem, m': Mem, smallmap: nat, treemap: nat, treemap': nat,
                    smalls: seq<seq<nat>>, trees: seq<Tree>, c: set<nat>, b: set<nat>, h: set<nat>, j: nat)
    requires BinsOk(m, smallmap, treemap, smalls, trees) && Layout(m, c) && Binned(smalls, trees) <= c
    requires b <= c && Static(h) && LinksOnly(m, m', b, h) && j < 32
    requires b !! Addrs(trees[j])
    requires TreeBinAt(j) !in h && (Marked(treemap', j) <==> Marked(treemap, j))
    ensures TreeBinOk(m', treemap', j, trees[j])
  {
    forall a | a in Addrs(trees[j]) ensures SameNode(m, m', a) {
      assert a in Binned(smalls, trees);
      BinOfChunk(m, smallmap, treemap, smalls, trees, a);
      UntouchedNode(m, m', c, b, h, a);
    }
    UntouchedStatic(m, m', c, b, h, TreeBinAt(j));
    assert TreeBinOk(m, treemap, j, trees[j]);
    TreeBinFrame(m, m', treemap, treemap', j, trees[j]);
  }

  /** Writes confined to small bin `i` and a chunk not in any bin. */
  lemma SmallBinChanged(m: Mem, m': Mem, smallmap: nat, smallmap': nat, treemap: nat,
                        smalls: seq<seq<nat>>, trees: seq<Tree>, c: set<nat>, b: set<nat>, i: nat, list: seq<nat>)
    requires BinsOk(m, smallmap, treemap, smalls, trees) && Layout(m, c) && Binned(smalls, trees) <= c
    requires b <= c && LinksOnly(m, m', b, SmallHeader(i)) && i < 32
    requires forall a | a in b :: a in smalls[i] || a !in Binned(smalls, trees)
    requires SmallBinOk(m', smallmap', i, list) && MarkedElsewhere(smallmap, smallmap', i)
    ensures BinsOk(m', smallmap', treemap, smalls[i := list], trees)
  {
    var smalls' := smalls[i := list];
    forall j | 0 <= j < 32 ensures SmallBinOk(m', smallmap', j, smalls'[j]) {
      if j != i {
        forall a | a in b ensures a !in smalls[j] { OtherBin(m, smallmap, treemap, smalls, trees, a, j); }
        SmallBinKept(m, m', smallmap, smallmap', treemap, smalls, trees, c, b, SmallHeader(i), j);
      }
    }
    forall j | 0 <= j < 32 ensures TreeBinOk(m', treemap, j, trees[j]) {
      forall a | a in b ensures a !in Addrs(trees[j]) { OtherBin(m, smallmap, treemap, smalls, trees, a, j); }
      TreeBinKept(m, m', smallmap, treemap, treemap, smalls, trees, c, b, SmallHeader(i), j);
    }
  }

  /** A chunk is in no second bin. */
  lemma OtherBin(m: Mem, smallmap: nat, treemap: nat, smalls: seq<seq<nat>>, trees: seq<Tree>, a: nat, j: nat)
    requires BinsOk(m, smallmap, treemap, smalls, trees) && j < 32
    ensures a in smalls[j] || a in Addrs(trees[j]) ==> a in Binned(smalls, trees)
    ensures forall i | 0 <= i < 32 && a in smalls[i] :: a !in Addrs(trees[j]) && (i != j ==> a !in smalls[j])
    ensures forall i | 0 <= i < 32 && a in Addrs(trees[i]) :: a !in smalls[j] && (i != j ==> a !in Addrs(trees[j]))
  {
    BinOfChunk(m, smallmap, treemap, smalls, trees, a);
  }

  /** Writes confined to treebin `i` and a chunk not in any bin. */
  lemma TreeBinChanged(m: Mem, m': Mem, smallmap: nat, treemap: nat, treemap': nat,
                       smalls: seq<seq<nat>>, trees: seq<Tree>, c: set<nat>, b: set<nat>, i: nat, t: Tree)
    requires BinsOk(m, smallmap, treemap, smalls, trees) && Layout(m, c) && Binned(smalls, trees) <= c
    requires b <= c && LinksOnly(m, m', b, TreeHeader(i)) && i < 32
    requires forall a | a in b :: a in Addrs(trees[i]) || a !in Binned(smalls, trees)
    requires TreeBinOk(m', treemap', i, t) && MarkedElsewhere(treemap, treemap', i)
    ensures BinsOk(m', smallmap, treemap', smalls, trees[i := t])
  {
    forall j | 0 <= j < 32 ensures SmallBinOk(m', smallmap, j, smalls[j]) {
      forall a | a in b ensures a !in smalls[j] { OtherBin(m, smallmap, treemap, smalls, trees, a, j); }
      SmallBinKept(m, m', smallmap, smallmap, treemap, smalls, trees, c, b, TreeHeader(i), j);
    }
    var trees' := trees[i := t];
    forall j | 0 <= j < 32 ensures TreeBinOk(m', treemap', j, trees'[j]) {
      if j != i {
        forall a | a in b ensures a !in Addrs(trees[j]) { OtherBin(m, smallmap, treemap, smalls, trees, a, j); }
        TreeBinKept(m, m', smallmap, treemap, treemap', smalls, trees, c, b, TreeHeader(i), j);
      }
    }
  }

  /* ---------------- sequences of link writes ---------------- */

  lemma LayoutKept(m: Mem, m': Mem, c: set<nat>, w: set<nat>, h: set<nat>)
    requires Layout(m, c) && w <= c && Static(h) && LinksOnly(m, m', w, h)
    ensures Layout(m', c) && forall a | a in c :: SizeOf(m', a) == SizeOf(m, a)
  {
    hide SizeOf, Aligned, LinksOnly;
    forall a | a in c ensures SizeOf(m', a) == SizeOf(m, a) { UntouchedTags(m, m', c, w, h, a); }
  }

  lemma LinksThen(m: Mem, m1: Mem, m2: Mem, c: set<nat>, w: set<nat>, h: set<nat>)
    requires Layout(m, c) && w <= c && Static(h) && LinksOnly(m, m1, w, h) && LinksOnly(m1, m2, w, h)
    ensures LinksOnly(m, m2, w, h) && Layout(m1, c)
    ensures forall a | a in c :: SizeOf(m1, a) == SizeOf(m, a)
  {
    LayoutKept(m, m1, c, w, h);
    hide SizeOf, Layout;
    assert forall a | a in w :: a in c;
  }

  lemma LinkWrite(m: Mem, w: set<nat>, h: set<nat>, a: nat, v: nat, o: nat)
    requires a in w && 16 <= o < SizeOf(m, a)
    ensures LinksOnly(m, m[a + o := v], w, h)
  {
    assert a + 16 <= a + o < a + SizeOf(m, a);
  }

  lemma HeaderWrite(m: Mem, w: set<nat>, h: set<nat>, a: nat, v: nat)
    requires a in h
    ensures LinksOnly(m, m[a := v], w, h)
  {
  }

  lemma NoWrite(m: Mem, w: set<nat>, h: set<nat>)
    ensures LinksOnly(m, m, w, h)
  {
  }

  /* ---------------- what callers see of a bin operation ---------------- */

  /** Above the static state, only link words of the chunks `b` have been written. */
  ghost predicate BinWrites(m: Mem, m': Mem, b: set<nat>) {
    forall w: nat {:trigger Rd(m', w)} ::
      Rd(m', w) == Rd(m, w) || w < FLOOR || exists a :: a in b && a + 16 <= w < a + SizeOf(m, a)
  }

  lemma AsBinWrites(m: Mem, m': Mem, b: set<nat>, b': set<nat>, h: set<nat>)
    requires LinksOnly(m, m', b, h) && Static(h) && b <= b'
    ensures BinWrites(m, m', b')
  {
    hide SizeOf;
  }

  lemma BinWritesKeep(m: Mem, m': Mem, c: set<nat>, b: set<nat>, y: nat, w: nat)
    requires Layout(m, c) && b <= c && BinWrites(m, m', b)
    requires y in c && y + 8 <= w <= y + SizeOf(m, y) && (y !in b || w == y + 8 || w == y + SizeOf(m, y))
    ensures Rd(m', w) == Rd(m, w)
  {
    hide SizeOf, Rd, Aligned;
  }

  /** The bins, and the chunks they are kept over. */
  ghost predicate BinsInv(m: Mem, smallmap: nat, treemap: nat, smalls: seq<seq<nat>>, trees: seq<Tree>, c: set<nat>) {
    BinsOk(m, smallmap, treemap, smalls, trees) && Layout(m, c) && Binned(smalls, trees) <= c
  }

  lemma BinsInvAfter(m: Mem, m': Mem, smallmap: nat, treemap: nat, smalls: seq<seq<nat>>, trees: seq<Tree>,
                     c: set<nat>, w: set<nat>, h: set<nat>)
    requires Layout(m, c) && w <= c && Static(h) && LinksOnly(m, m', w, h)
    requires BinsOk(m', smallmap, treemap, smalls, trees) && Binned(smalls, trees) <= c
    ensures BinsInv(m', smallmap, treemap, smalls, trees, c) && BinWrites(m, m', w)
  {
    LayoutKept(m, m', c, w, h);
    AsBinWrites(m, m', w, w, h);
  }
}
