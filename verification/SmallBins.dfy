/** The link writes of the small-bin macros (hagen/src/malloc.c:2671-2732). */
module SmallBins {
  import opened Lists
  import opened Words
  import opened BinMaps
  import opened Chunks
  import opened Trie
  import opened TrieLinks
  import opened Bins

  /** The four link writes that put `p` between `a` and `f`. */
  function LinkBetween(m: Mem, a: nat, f: nat, p: nat): Mem {
    m[a + 16 := p][f + 24 := p][p + 16 := f][p + 24 := a]
  }

  /** The two link writes that take out the node between `b` and `f`. */
  function Bypass(m: Mem, b: nat, f: nat): Mem {
    m[f + 24 := b][b + 16 := f]
  }

  lemma LinkBetweenLinks(m: Mem, a: nat, f: nat, p: nat, ys: set<nat>)
    requires Spaced(ys + {p}, 16) && a in ys && f in ys && p !in ys
    ensures LinkedIn(m, LinkBetween(m, a, f, p), ys, a, f, p)
  {
    var m' := LinkBetween(m, a, f, p);
    forall y | y in ys
      ensures Fd(m', y) == (if y == a then p else Fd(m, y))
      ensures Bk(m', y) == (if y == f then p else Bk(m, y))
    {
      assert y in ys + {p} && a in ys + {p} && f in ys + {p} && p in ys + {p};
    }
  }

  lemma BypassLinks(m: Mem, b: nat, f: nat, ys: set<nat>)
    requires Spaced(ys, 16) && b in ys && f in ys
    ensures Bypassed(m, Bypass(m, b, f), ys, b, f)
  {
  }

  /** A header and the chunks of its list are far enough apart. */
  lemma RingSpaced(m: Mem, c: set<nat>, i: nat, ys: set<nat>)
    requires Layout(m, c) && ys <= c && i < 32
    ensures Spaced(ys + {SmallBinAt(i)}, 16) && SmallBinAt(i) !in c
  {
  }

  lemma ListIsBinned(smalls: seq<seq<nat>>, trees: seq<Tree>, i: nat)
    requires i < |smalls|
    ensures Elems(smalls[i]) <= Binned(smalls, trees)
  {
  }

  lemma BinnedWithList(smalls: seq<seq<nat>>, trees: seq<Tree>, i: nat, list: seq<nat>, add: set<nat>, sub: set<nat>)
    requires i < |smalls| && Elems(list) == Elems(smalls[i]) - sub + add
    requires forall a, j | a in sub && 0 <= j < |smalls| && j != i :: a !in smalls[j]
    requires forall a, j | a in sub && 0 <= j < |trees| :: a !in Addrs(trees[j])
    ensures Binned(smalls[i := list], trees) == Binned(smalls, trees) - sub + add
  {
    var s' := smalls[i := list];
    forall a ensures a in Binned(s', trees) <==> a in Binned(smalls, trees) - sub + add {
      assert a in list <==> a in Elems(list);
      assert a in smalls[i] <==> a in Elems(smalls[i]);
      if a in list { assert a in s'[i]; }
      if j :| 0 <= j < |smalls| && a in smalls[j] { if j != i { assert a in s'[j]; } }
      if j :| 0 <= j < |s'| && a in s'[j] { if j != i { assert a in smalls[j]; } }
    }
  }

  lemma InsertSmallRing(m: Mem, c: set<nat>, smallmap: nat, i: nat, list: seq<nat>, p: nat, f: nat)
    requires Layout(m, c) && Elems(list) <= c && p in c && p !in list && i < 32
    requires SmallBinOk(m, smallmap, i, list)
    requires f == if Marked(smallmap, i) then Fd(m, SmallBinAt(i)) else SmallBinAt(i)
    ensures f == SmallBinAt(i) || f in list
    ensures RingOk(LinkBetween(m, SmallBinAt(i), f, p), [SmallBinAt(i)] + ([p] + list))
    ensures NoDup([p] + list)
  {
    var b := SmallBinAt(i);
    var m' := LinkBetween(m, b, f, p);
    var ring := [b] + list;
    assert Elems(ring) == {b} + Elems(list);
    RingSpaced(m, c, i, Elems(list) + {p});
    assert Elems(ring) + {p} == Elems(list) + {p} + {b};
    assert p !in Elems(list);
    assert [ring[0], p] + ring[1..] == [b] + ([p] + list);
    if list != [] {
      assert LinkedAt(m, ring, 0);
      LinkBetweenLinks(m, b, f, p, Elems(ring));
      assert b !in list by { assert b in list <==> b in Elems(list); }
      RingInsert(m, m', ring, p);
    } else {
      LinkBetweenLinks(m, b, f, p, Elems(ring));
      assert forall k | 0 <= k < 2 :: LinkedAt(m', [b, p], k);
      assert [b] + ([p] + list) == [b, p];
    }
  }

  /** `insert_small_chunk` */
  lemma InsertSmall(m: Mem, smallmap: nat, treemap: nat, smalls: seq<seq<nat>>, trees: seq<Tree>,
                    c: set<nat>, p: nat, i: nat, f: nat)
    requires BinsOk(m, smallmap, treemap, smalls, trees) && Layout(m, c) && Binned(smalls, trees) <= c
    requires p in c && p !in Binned(smalls, trees) && i < 32 && SizeOf(m, p) == 8 * i
    requires f == if Marked(smallmap, i) then Fd(m, SmallBinAt(i)) else SmallBinAt(i)
    ensures var m' := LinkBetween(m, SmallBinAt(i), f, p);
            && BinsOk(m', Mark(smallmap, i), treemap, smalls[i := [p] + smalls[i]], trees)
            && LinksOnly(m, m', Binned(smalls, trees) + {p}, SmallHeader(i))
    ensures Binned(smalls[i := [p] + smalls[i]], trees) == Binned(smalls, trees) + {p}
  {
    hide Rep, RingOk, Fd, Bk, LinkBetween, Rd, TrieOk, Distinct;
    var list := smalls[i];
    var list' := [p] + list;
    var m' := LinkBetween(m, SmallBinAt(i), f, p);
    ListIsBinned(smalls, trees, i);
    assert p !in Elems(list);
    assert Elems(list') == Elems(list) - {} + {p};
    BinnedWithList(smalls, trees, i, list', {p}, {});
    InsertSmallRing(m, c, smallmap, i, list, p, f);
    var w := if f == SmallBinAt(i) then {p} else {p, f};
    assert f in list ==> f in Elems(list);
    InsertSmallWords(m, c, p, i, f, w);
    MarkElsewhere(smallmap, i);
    InsertedSmallBin(m, m', c, smallmap, i, list, p, w);
    SmallBinChanged(m, m', smallmap, Mark(smallmap, i), treemap, smalls, trees, c, w, i, list');
    assert w <= Binned(smalls, trees) + {p};
  }

  lemma InsertedSmallBin(m: Mem, m': Mem, c: set<nat>, smallmap: nat, i: nat, list: seq<nat>, p: nat, w: set<nat>)
    requires Layout(m, c) && w <= c && LinksOnly(m, m', w, SmallHeader(i)) && i < 32 && MapOk(smallmap)
    requires SmallBinOk(m, smallmap, i, list) && Elems(list) <= c && p in c && SizeOf(m, p) == 8 * i
    requires RingOk(m', [SmallBinAt(i)] + ([p] + list)) && NoDup([p] + list)
    ensures SmallBinOk(m', Mark(smallmap, i), i, [p] + list)
  {
    MarkElsewhere(smallmap, i);
    forall a | a in [p] + list ensures SizeOf(m', a) == 8 * i {
      if a != p { assert a in Elems(list); }
      UntouchedTags(m, m', c, w, SmallHeader(i), a);
    }
  }

  lemma InsertSmallWords(m: Mem, c: set<nat>, p: nat, i: nat, f: nat, w: set<nat>)
    requires Layout(m, c) && p in c && (f == SmallBinAt(i) || f in c)
    requires p in w && (f == SmallBinAt(i) || f in w)
    ensures LinksOnly(m, LinkBetween(m, SmallBinAt(i), f, p), w, SmallHeader(i))
  {
    assert p + 16 <= p + 24 < p + SizeOf(m, p);
    if f in c { assert f + 16 <= f + 24 < f + SizeOf(m, f); }
  }

  /** `unlink_small_chunk`: when fd and bk agree, the chunk is the only one and just the map
      changes; the header keeps its stale links. */
  lemma UnlinkSmall(m: Mem, smallmap: nat, treemap: nat, smalls: seq<seq<nat>>, trees: seq<Tree>,
                    c: set<nat>, p: nat, i: nat)
    requires BinsOk(m, smallmap, treemap, smalls, trees) && Layout(m, c) && Binned(smalls, trees) <= c
    requires i < 32 && p in smalls[i]
    ensures var f, b := Fd(m, p), Bk(m, p);
            var m' := if b == f then m else Bypass(m, b, f);
            var smallmap' := if b == f then Unmark(smallmap, i) else smallmap;
            var smalls' := smalls[i := Without(smalls[i], p)];
            && BinsOk(m', smallmap', treemap, smalls', trees)
            && LinksOnly(m, m', Binned(smalls, trees), SmallHeader(i))
            && Binned(smalls', trees) == Binned(smalls, trees) - {p}
    ensures (Fd(m, p) == SmallBinAt(i) || Fd(m, p) in c) && Bk(m, Fd(m, p)) == p
    ensures (Bk(m, p) == SmallBinAt(i) || Bk(m, p) in c) && Fd(m, Bk(m, p)) == p
  {
    hide Rep, TrieOk, Distinct, Rd;
    var list := smalls[i];
    var list' := Without(list, p);
    ListIsBinned(smalls, trees, i);
    assert SmallBinOk(m, smallmap, i, list);
    WithoutElems(list, p);
    forall j ensures 0 <= j < 32 && j != i ==> p !in smalls[j] { if 0 <= j < 32 { OtherBin(m, smallmap, treemap, smalls, trees, p, j); } }
    forall j ensures 0 <= j < 32 ==> p !in Addrs(trees[j]) { if 0 <= j < 32 { OtherBin(m, smallmap, treemap, smalls, trees, p, j); } }
    BinnedWithList(smalls, trees, i, list', {}, {p});
    UnlinkSmallRing(m, c, i, list, p);
    var f, b := Fd(m, p), Bk(m, p);
    var m' := if b == f then m else Bypass(m, b, f);
    var smallmap' := if b == f then Unmark(smallmap, i) else smallmap;
    MarkElsewhere(smallmap, i);
    var w := Elems(list);
    UnlinkSmallWords(m, c, i, f, b, w);
    UnlinkedSmallBin(m, m', c, smallmap, smallmap', i, list, p, w);
    SmallBinChanged(m, m', smallmap, smallmap', treemap, smalls, trees, c, w, i, list');
  }

  lemma UnlinkSmallRing(m: Mem, c: set<nat>, i: nat, list: seq<nat>, p: nat)
    requires Layout(m, c) && Elems(list) <= c && p in list && NoDup(list) && i < 32
    requires RingOk(m, [SmallBinAt(i)] + list)
    ensures var f, b := Fd(m, p), Bk(m, p);
            && (f == SmallBinAt(i) || f in list) && (b == SmallBinAt(i) || b in list)
            && Bk(m, f) == p && Fd(m, b) == p
            && (b == f <==> |list| == 1)
            && (b != f ==> RingOk(Bypass(m, b, f), [SmallBinAt(i)] + Without(list, p)))
  {
    hide RingOk, NoDup, Layout, Elems, Bypass, Without, Position;
    var h := SmallBinAt(i);
    var ring := [h] + list;
    var k := Position(list, p) + 1;
    RingSpaced(m, c, i, Elems(list));
    RingElems(h, list, c);
    assert ring[k] == p;
    RingNeighbours(m, ring, k);
    var f, b := Fd(m, p), Bk(m, p);
    if b != f {
      BypassLinks(m, b, f, Elems(ring));
      BypassedLess(m, Bypass(m, b, f), Elems(ring), p, b, f);
      RingRemove(m, Bypass(m, b, f), ring, k);
      assert ring[..k] + ring[k + 1..] == [h] + Without(list, p) by { WithoutIs(list, p); }
    }
  }

  lemma WithoutIs(list: seq<nat>, p: nat)
    requires p in list
    ensures Without(list, p) == list[..Position(list, p)] + list[Position(list, p) + 1..]
  {
  }

  lemma BypassedLess(m: Mem, m': Mem, s: set<nat>, p: nat, b: nat, f: nat)
    requires Bypassed(m, m', s, b, f)
    ensures Bypassed(m, m', s - {p}, b, f)
  {
  }

  lemma RingElems(h: nat, list: seq<nat>, c: set<nat>)
    requires Elems(list) <= c && h !in c && NoDup(list)
    ensures NoDup([h] + list) && Elems([h] + list) == Elems(list) + {h} && forall a :: a in [h] + list <==> a == h || a in list
  {
    assert forall a | a in list :: a in Elems(list);
  }

  /** The neighbours of a ring's member point to it, and are one only in a ring of two. */
  lemma RingNeighbours(m: Mem, ring: seq<nat>, k: nat)
    requires RingOk(m, ring) && NoDup(ring) && 0 < k < |ring|
    ensures var f, b := Fd(m, ring[k]), Bk(m, ring[k]);
            && f in ring && b in ring && f != ring[k] && b != ring[k] && Bk(m, f) == ring[k] && Fd(m, b) == ring[k]
            && (b == f <==> |ring| == 2) && f in Elems(ring) && b in Elems(ring)
  {
    var l := if k + 1 < |ring| then k + 1 else 0;
    hide Rd;
    assert LinkedAt(m, ring, k) && LinkedAt(m, ring, l) && LinkedAt(m, ring, k - 1);
  }

  lemma UnlinkSmallWords(m: Mem, c: set<nat>, i: nat, f: nat, b: nat, w: set<nat>)
    requires Layout(m, c) && w <= c && (f == SmallBinAt(i) || f in w) && (b == SmallBinAt(i) || b in w)
    ensures LinksOnly(m, Bypass(m, b, f), w, SmallHeader(i)) && LinksOnly(m, m, w, SmallHeader(i))
  {
    if f in w { assert f + 16 <= f + 24 < f + SizeOf(m, f); }
    if b in w { assert b + 16 < b + SizeOf(m, b); }
  }

  lemma UnlinkedSmallBin(m: Mem, m': Mem, c: set<nat>, smallmap: nat, smallmap': nat, i: nat, list: seq<nat>, p: nat, w: set<nat>)
    requires Layout(m, c) && w <= c && LinksOnly(m, m', w, SmallHeader(i)) && i < 32
    requires SmallBinOk(m, smallmap, i, list) && Elems(list) <= c && p in list
    requires if |list| == 1 then !Marked(smallmap', i)
             else smallmap' == smallmap && RingOk(m', [SmallBinAt(i)] + Without(list, p))
    ensures SmallBinOk(m', smallmap', i, Without(list, p))
  {
    WithoutElems(list, p);
    assert |Without(list, p)| == |list| - 1;
    forall a | a in Without(list, p) ensures SizeOf(m', a) == 8 * i {
      assert a in Elems(Without(list, p)); assert a in Elems(list);
      UntouchedTags(m, m', c, w, SmallHeader(i), a);
    }
  }

  /* ---------------- the three macros, with all bins ---------------- */

  lemma HeadersAreStatic(i: nat)
    requires i < 32
    ensures Static(SmallHeader(i)) && Static({TreeBinAt(i)})
  {
  }

  lemma InsertSmallStep(m: Mem, smallmap: nat, treemap: nat, smalls: seq<seq<nat>>, trees: seq<Tree>, c: set<nat>, p: nat, f: nat)
    requires BinsInv(m, smallmap, treemap, smalls, trees, c)
    requires p in c && p !in Binned(smalls, trees) && SizeOf(m, p) < 256 && Aligned(SizeOf(m, p))
    requires var i := SizeOf(m, p) / 8; f == if Marked(smallmap, i) then Fd(m, SmallBinAt(i)) else SmallBinAt(i)
    ensures var i := SizeOf(m, p) / 8;
            var m', smalls' := LinkBetween(m, SmallBinAt(i), f, p), smalls[i := [p] + smalls[i]];
            && BinsInv(m', Mark(smallmap, i), treemap, smalls', trees, c)
            && Binned(smalls', trees) == Binned(smalls, trees) + {p}
            && BinWrites(m, m', Binned(smalls, trees) + {p})
  {
    hide SmallBinOk, TreeBinOk, Layout, Fd, Mark, Marked, LinkBetween, Binned, LinksOnly, SizeOf;
    var i := SizeOf(m, p) / 8;
    assert SizeOf(m, p) == 8 * i;
    InsertSmall(m, smallmap, treemap, smalls, trees, c, p, i, f);
    HeadersAreStatic(i);
    BinsInvAfter(m, LinkBetween(m, SmallBinAt(i), f, p), Mark(smallmap, i), treemap, smalls[i := [p] + smalls[i]], trees,
                 c, Binned(smalls, trees) + {p}, SmallHeader(i));
  }

  lemma UnlinkSmallStep(m: Mem, smallmap: nat, treemap: nat, smalls: seq<seq<nat>>, trees: seq<Tree>, c: set<nat>, p: nat, i: nat)
    requires BinsInv(m, smallmap, treemap, smalls, trees, c) && i < 32 && p in smalls[i]
    ensures var f, b := Fd(m, p), Bk(m, p);
            var m' := if b == f then m else Bypass(m, b, f);
            var smallmap' := if b == f then Unmark(smallmap, i) else smallmap;
            var smalls' := smalls[i := Without(smalls[i], p)];
            && BinsInv(m', smallmap', treemap, smalls', trees, c)
            && Binned(smalls', trees) == Binned(smalls, trees) - {p}
            && BinWrites(m, m', Binned(smalls, trees))
    ensures Bk(m, Fd(m, p)) == p && Fd(m, Bk(m, p)) == p
  {
    hide SmallBinOk, TreeBinOk, Layout, Fd, Bk, Unmark, Marked, Bypass, Binned, LinksOnly, Without;
    UnlinkSmall(m, smallmap, treemap, smalls, trees, c, p, i);
    HeadersAreStatic(i);
    var f, b := Fd(m, p), Bk(m, p);
    BinsInvAfter(m, if b == f then m else Bypass(m, b, f), if b == f then Unmark(smallmap, i) else smallmap, treemap,
                 smalls[i := Without(smalls[i], p)], trees, c, Binned(smalls, trees), SmallHeader(i));
  }

  /** A binned chunk is in the bin of its size. */
  lemma BinOf(m: Mem, smallmap: nat, treemap: nat, smalls: seq<seq<nat>>, trees: seq<Tree>, p: nat)
    requires BinsOk(m, smallmap, treemap, smalls, trees) && p in Binned(smalls, trees)
    ensures if SizeOf(m, p) < 256 then var i := SizeOf(m, p) / 8; i < 32 && p in smalls[i] && SizeOf(m, p) == 8 * i
            else var i := TreeIndex(SizeOf(m, p)); i < 32 && p in Addrs(trees[i]) && SizeOf(m, p) < SIZE_LIMIT
  {
    hide TreeIndex, SizeOf, SmallBinOk, TreeBinOk, Addrs;
    BinOfChunk(m, smallmap, treemap, smalls, trees, p);
  }

  lemma FirstOfBin(m: Mem, smallmap: nat, treemap: nat, smalls: seq<seq<nat>>, trees: seq<Tree>, i: nat)
    requires BinsOk(m, smallmap, treemap, smalls, trees) && i < 32 && Marked(smallmap, i)
    ensures var p := Fd(m, SmallBinAt(i));
            p in smalls[i] && p in Binned(smalls, trees) && SizeOf(m, p) == 8 * i && Bk(m, p) == SmallBinAt(i)
            && p == smalls[i][0] && Without(smalls[i], p) == smalls[i][1..]
  {
    assert SmallBinOk(m, smallmap, i, smalls[i]);
    var ring := [SmallBinAt(i)] + smalls[i];
    assert LinkedAt(m, ring, 0) && LinkedAt(m, ring, 1);
    assert ring[1] in smalls[i];
  }
}
