/** The userspace allocator of hagen/src/malloc.c over one segment, in the configuration the
    repository builds: 64-bit, 16-byte alignment, no footers, no locks. */
module Malloc {
  import opened Lists
  import opened Words
  import opened BinMaps
  import opened Chunks
  import opened Tags
  import opened TagOps
  import opened Trie
  import opened TrieLinks
  import opened TrieUnlink
  import opened Bins
  import opened SmallBins
  import opened TreeBins
  import opened TreeUnlinkBins
  import opened TrieSearch
  import opened Heap
  import opened HeapSteps
  import opened HeapOps
  import opened Victim
  import opened FreeSteps
  import opened ReallocSteps
  import opened BulkSteps
  import opened IallocSteps
  import opened IallocTotals
  import opened IallocLoop
  import opened Policy
  import opened Alignment

  class MallocState {
    // the words of the segment and of the bin arrays
    var mem: Mem
    var smallmap: nat
    var treemap: nat
    var dv: nat
    var dvsize: nat
    var top: nat
    var topsize: nat
    const base: nat
    // what the words mean
    ghost var chunks: set<nat>        // all chunks below top
    ghost var smalls: seq<seq<nat>>   // the list of each small bin, in fd order
    ghost var trees: seq<Tree>        // the tree of each treebin

    ghost predicate BinsValid()
      reads this
    {
      BinsInv(mem, smallmap, treemap, smalls, trees, chunks)
    }

    ghost function InBins(): set<nat>
      reads this
    {
      Binned(smalls, trees)
    }

    ghost function Whole(): Shape
      reads this
    {
      Shape(mem, smallmap, treemap, smalls, trees, chunks, base, top, top + topsize, dv, dvsize)
    }

    /** The whole-heap invariant, while the operation has the free chunks `loose` in its hands. */
    ghost predicate Keeps(loose: set<nat>)
      reads this
    {
      HeapInv(Whole(), loose)
    }

    ghost predicate Valid()
      reads this
    {
      Keeps({})
    }

    /* ------------------------- operations on smallbins ------------------------- */

    /** `insert_small_chunk` */
    method InsertSmallChunk(p: nat, s: nat)
      requires BinsValid() && p in chunks && p !in InBins()
      requires SizeOf(mem, p) == s < 256 && Aligned(s)
      modifies this`mem, this`smallmap, this`smalls
      ensures BinsValid() && InBins() == old(InBins()) + {p} && BinWrites(old(mem), mem, InBins())
      ensures |old(smalls)| == 32 && smalls == old(smalls)[s / 8 := [p] + old(smalls)[s / 8]]
    {
      hide BinsOk, BinsInv, Layout, Binned, Mark, Marked, Rd, SizeOf, BinWrites;
      var i := s / 8;
      var b := SmallBinAt(i);
      var f := b;
      InsertSmallStep(mem, smallmap, treemap, smalls, trees, chunks, p, if Marked(smallmap, i) then Fd(mem, b) else b);
      MarkTwice(smallmap, i);
      if !Marked(smallmap, i) {
        smallmap := Mark(smallmap, i);
      } else {
        f := Fd(mem, b);
      }
      mem := mem[b + 16 := p][f + 24 := p][p + 16 := f][p + 24 := b];
      BinCount(old(mem), old(smallmap), treemap, smalls, trees, chunks);
      smalls := smalls[i := [p] + smalls[i]];
    }

    /** `unlink_small_chunk`; the links that it checks at run time are always intact. */
    method UnlinkSmallChunk(p: nat, s: nat)
      requires BinsValid() && p in InBins() && SizeOf(mem, p) == s < 256
      modifies this`mem, this`smallmap, this`smalls
      ensures BinsValid() && InBins() == old(InBins()) - {p} && BinWrites(old(mem), mem, old(InBins()))
      ensures |old(smalls)| == 32 && p in old(smalls)[s / 8] && smalls == old(smalls)[s / 8 := Without(old(smalls)[s / 8], p)]
    {
      hide BinsOk, Layout, Binned, Unmark, Rd, SizeOf, BinWrites;
      var f := Fd(mem, p);
      var b := Bk(mem, p);
      var i := s / 8;
      BinCount(mem, smallmap, treemap, smalls, trees, chunks);
      BinOf(mem, smallmap, treemap, smalls, trees, p);
      UnlinkSmallStep(mem, smallmap, treemap, smalls, trees, chunks, p, i);
      assert Bk(mem, f) == p;
      if b == f {
        smallmap := Unmark(smallmap, i);
      } else {
        assert Fd(mem, b) == p;
        mem := mem[f + 24 := b][b + 16 := f];
      }
      smalls := smalls[i := Without(smalls[i], p)];
    }

    /** `unlink_first_small_chunk`: takes the chunk that the bin header's fd leads to. */
    method UnlinkFirstSmallChunk(b: nat, p: nat, i: nat)
      requires BinsValid() && i < 32 && Marked(smallmap, i) && b == SmallBinAt(i) && p == Fd(mem, b)
      modifies this`mem, this`smallmap, this`smalls
      ensures BinsValid() && InBins() == old(InBins()) - {p} && BinWrites(old(mem), mem, old(InBins()))
      ensures p in old(InBins()) && old(SizeOf(mem, p)) == 8 * i
      ensures smalls == Popped(old(smalls), 8 * i) && FirstOfSize(old(smalls), 8 * i, p)
    {
      hide BinsOk, Layout, Binned, Unmark, Rd, SizeOf, BinWrites, Marked;
      var f := Fd(mem, p);
      BinCount(mem, smallmap, treemap, smalls, trees, chunks);
      FirstOfBin(mem, smallmap, treemap, smalls, trees, i);
      UnlinkSmallStep(mem, smallmap, treemap, smalls, trees, chunks, p, i);
      if b == f {
        smallmap := Unmark(smallmap, i);
      } else {
        assert Bk(mem, f) == p;
        mem := mem[f + 24 := b][b + 16 := f];
      }
      smalls := smalls[i := Without(smalls[i], p)];
    }
  
    /* ------------------------- operations on trees ------------------------- */

    /** `insert_large_chunk` */
    method InsertLargeChunk(x: nat, s: nat)
      requires BinsValid() && x in chunks && x !in InBins()
      requires 256 <= SizeOf(mem, x) == s < SIZE_LIMIT
      modifies this`mem, this`treemap, this`trees
      ensures BinsValid() && InBins() == old(InBins()) + {x} && BinWrites(old(mem), mem, InBins())
      ensures trees == Planted(old(trees), s, x)
    {
      hide BinsOk, BinsInv, Layout, Binned, Mark, Marked, Rd, SizeOf, BinWrites, InsertWalk, TopBit, Next, TreeIndex, Shl64,
           LeftShift, Rep, InsertT, SlotIn, TrieOk, InRange, BinLo, BinBits, Addrs, TreeBinAt, TreeBinOk;
      ghost var m := mem;
      InsertLargeStep(m, smallmap, treemap, smalls, trees, chunks, x);
      var i := TreeIndex(s);
      var h := TreeBinAt(i);
      ghost var t := trees[i];
      TreeBinFacts(m, treemap, i, t);
      BinCount(m, smallmap, treemap, smalls, trees, chunks);
      AtFloor(m, chunks, x);
      MarkTwice(treemap, i);
      HeaderPlace(i);
      mem := mem[x + 56 := i][x + 32 := 0][x + 40 := 0];
      if !Marked(treemap, i) {
        treemap := Mark(treemap, i);
        mem := mem[h := x][x + 48 := h][x + 16 := x][x + 24 := x];
        EmptyBinWrites(m, x, i, s, t);
      } else {
        var n := Rd(mem, h);
        BinSlotRead(m, x, i);
        InsertWalkStart(m, treemap, t, i, s);
        var key := Shl64(s, LeftShift(i));
        ghost var cur, par: nat, lo: nat, k: nat := t, h, BinLo(i), BinBits(i);
        while true
          invariant mem == Initialised(m, x, i)
          invariant InsertWalk(m, t, i, s, cur, par, lo, k, key) && n == Root(cur)
          modifies this`mem
          decreases cur
        {
          InsertWalkStep(m, t, i, s, cur, par, lo, k, key);
          AtFloor(m, chunks, n);
          InitKeeps(m, chunks, x, i, n);
          if SizeOf(mem, n) != s {
            var right := TopBit(key);
            var c := if right then n + 40 else n + 32;
            var next := if right then Child1(mem, n) else Child0(mem, n);
            key := Next(key);
            if next != 0 {
              cur, par, lo, k := Child(cur, right), n, LoBelow(s, lo, k), k - 1;
              n := next;
            } else {
              mem := mem[c := x][x + 48 := n][x + 16 := x][x + 24 := x];
              EmptySlotWrites(m, x, i, n, right, c);
              break;
            }
          } else {
            var f := Fd(mem, n);
            mem := mem[f + 24 := x][n + 16 := x][x + 16 := f][x + 24 := n][x + 48 := 0];
            break;
          }
        }
      }
      trees := trees[i := InsertT(t, x, s, BinLo(i), BinBits(i))];
    }

    /** Step 3 of `unlink_large_chunk`: `r`, or null, takes the place of `x` below its parent. */
    method RelinkReplacement(x: nat, xp: nat, r: nat)
      modifies this`mem, this`treemap
      ensures mem == Relink(old(mem), x, xp, r, TreeBinAt(Index(old(mem), x)))
      ensures treemap == if x == Rd(old(mem), TreeBinAt(Index(old(mem), x))) && r == 0
                         then Unmark(old(treemap), Index(old(mem), x)) else old(treemap)
    {
      hide Rd, Unmark, Index, TreeBinAt;
      var idx := Index(mem, x);
      var h := TreeBinAt(idx);
      if x == Rd(mem, h) {
        mem := mem[h := r];
        if r == 0 { treemap := Unmark(treemap, idx); }
      } else if Child0(mem, xp) == x {
        mem := mem[xp + 32 := r];
      } else {
        mem := mem[xp + 40 := r];
      }
      if r != 0 {
        mem := mem[r + 48 := xp];
        var c0 := Child0(mem, x);
        if c0 != 0 { mem := mem[r + 32 := c0][c0 + 48 := r]; }
        var c1 := Child1(mem, x);
        if c1 != 0 { mem := mem[r + 40 := c1][c1 + 48 := r]; }
      }
    }

    /** `unlink_large_chunk`; the links that it checks at run time are always intact. */
    method UnlinkLargeChunk(x: nat)
      requires BinsValid() && x in InBins() && SizeOf(mem, x) >= 256
      modifies this`mem, this`treemap, this`trees
      ensures BinsValid() && InBins() == old(InBins()) - {x} && BinWrites(old(mem), mem, old(InBins()))
      ensures trees == Uprooted(old(trees), old(SizeOf(mem, x)), x)
    {
      hide BinsOk, BinsInv, InTree, DetachedStep, LeafWalk, Detached, HoldsLeaf, Layout, Binned, Unmark, Rd, SizeOf, BinWrites,
           TreeIndex, Rep, Addrs, Members, TreeBinAt, TreeBinOk, SubAt, Distinct, RemoveT, Bypass;
      ghost var m := mem;
      ghost var i := TreeIndex(SizeOf(m, x));
      UnlinkStart(m, smallmap, treemap, smalls, trees, chunks, x);
      BinCount(m, smallmap, treemap, smalls, trees, chunks);
      InTreeIndex(m, smallmap, treemap, smalls, trees, chunks, x, i);
      var xp := Parent(mem, x);
      var r: nat := 0;
      if Bk(mem, x) != x {
        var f := Fd(mem, x);
        r := Bk(mem, x);
        if xp != 0 { RingStep(m, smallmap, treemap, smalls, trees, chunks, x, i); }
        else { ChainedStep(m, smallmap, treemap, smalls, trees, chunks, x, i); }
        assert Bk(mem, f) == x && Fd(mem, r) == x;
        mem := mem[f + 24 := r][r + 16 := f];
        AsBypass(m, r, f);
      } else {
        NotChained(m, smallmap, treemap, smalls, trees, chunks, x, i);
        var rp: nat := x + 40;
        r := Child1(mem, x);
        if r == 0 {
          rp := x + 32;
          r := Child0(mem, x);
        }
        if r != 0 {
          LeafWalkStart(m, smallmap, treemap, smalls, trees, chunks, x, i);
          ghost var right := Child1(m, x) != 0;
          ghost var cur, q: nat := Child(SubAt(trees[i], x), right), x;
          while Child1(mem, r) != 0 || Child0(mem, r) != 0
            invariant LeafWalk(m, trees[i], i, x, cur, q, right, r, rp)
            modifies {}
            decreases cur
          {
            LeafWalkStep(m, trees[i], i, x, cur, q, right, r, rp);
            LeafWalkNode(m, trees[i], i, x, cur, q, right, r, rp);
            if Child1(mem, r) != 0 {
              cur, q, right := cur.right, r, true;
              rp := r + 40;
              r := Child1(mem, r);
            } else {
              cur, q, right := cur.left, r, false;
              rp := r + 32;
              r := Child0(mem, r);
            }
          }
          LeafStep(m, smallmap, treemap, smalls, trees, chunks, x, i, cur, q, right, r, rp);
          mem := mem[rp := 0];
        } else {
          NoneStep(m, smallmap, treemap, smalls, trees, chunks, x, i);
        }
      }
      if xp != 0 {
        ghost var m1 := mem;
        FinishStep(m, m1, smallmap, treemap, smalls, trees, chunks, x, i, r);
        DetachedIndex(m, m1, trees[i], i, x, r);
        RelinkReplacement(x, xp, r);
      }
      trees := trees[i := RemoveT(trees[i], x)];
    }

    /* ------------------------- best fit ------------------------- */

    /** The first loop of `tmalloc_large`: along nb's bits down its own bin.  `t` is where the
        search for a smaller fit goes on. */
    method WalkToFit(nb: nat, idx: nat) returns (v: nat, rsize: nat, t: nat, ghost src: Tree, ghost spar: nat, ghost slo: nat, ghost sk: nat)
      requires BinsValid() && 256 <= nb < WORD_LIMIT && idx == TreeIndex(nb) < 32
      ensures |trees| == 32 && Chosen(mem, trees, nb, v, rsize) && t == Root(src)
      ensures Within(mem, trees[idx], idx, src, spar, slo, sk)
      ensures LeftWalk(Fitting(trees[idx], nb), nb, BestSize(mem, v), src)
      ensures v != 0 ==> SizeOf(mem, v) in Sizes(trees[idx])
    {
      hide BinsOk, BinsInv, Layout, Rd, SizeOf, TreeIndex, Rep, Addrs, Heads, Sizes, TreeBinAt, TreeBinOk, Distinct, TrieOk, Shl64,
           LeftShift, TopBit, Next, Within, FitWalk, LeftWalk, Marked, BinLo, BinBits, Pow2, AllBins, Chosen, Fitting, Better,
           Remainder;
      ToAllBins(mem, smallmap, treemap, smalls, trees, chunks);
      NothingChosen(mem, trees, nb);
      v, rsize := 0, SubWrap(0, nb);
      t := Rd(mem, TreeBinAt(idx));
      RootOfBin(mem, treemap, trees, idx);
      FitWalkStart(mem, treemap, trees[idx], idx, nb);
      src, spar, slo, sk := trees[idx], TreeBinAt(idx), BinLo(idx), BinBits(idx);
      if t != 0 {
        var sizebits := Shl64(nb, LeftShift(idx));
        var rst: nat := 0;  // the deepest untaken right subtree
        ghost var rtree, rpar: nat, rlo: nat, rk: nat := Nil, 0, 0, 0;
        WithinNil(mem, trees[idx], idx);
        while true
          invariant src.Node? && t == Root(src) && Within(mem, trees[idx], idx, src, spar, slo, sk)
          invariant rst == Root(rtree) && Within(mem, trees[idx], idx, rtree, rpar, rlo, rk)
          invariant FitWalk(mem, trees[idx], idx, nb, BestSize(mem, v), src, slo, sk, sizebits, rtree)
          invariant Chosen(mem, trees, nb, v, rsize) && rsize != 0
          invariant v != 0 ==> SizeOf(mem, v) in Sizes(trees[idx])
          decreases src
        {
          ghost var right := TopBit(sizebits);
          WithinChild(mem, trees[idx], idx, src, spar, slo, sk, right);
          WithinChild(mem, trees[idx], idx, src, spar, slo, sk, true);
          WithinRoot(mem, trees[idx], idx, src, spar, slo, sk);
          NodeSize(mem, treemap, trees, idx, t);
          ChooseStep(mem, trees, nb, v, rsize, t, idx);
          ghost var best := BestSize(mem, v);
          var trem := SubWrap(SizeOf(mem, t), nb);
          if trem < rsize {
            v, rsize := t, trem;
            if rsize == 0 {
              ExactFit(Fitting(trees[idx], nb), nb, src);
              break;
            }
          }
          FitWalkStep(mem, trees[idx], idx, nb, best, src, spar, slo, sk, sizebits, rtree);
          var rt := Child1(mem, t);
          t := if TopBit(sizebits) then Child1(mem, t) else Child0(mem, t);
          if rt != 0 && rt != t { rst := rt; }
          if src.right.Node? && !right {
            rtree, rpar, rlo, rk := src.right, Root(src), if sk > 0 then slo + Pow2(sk - 1) else slo, if sk > 0 then sk - 1 else 0;
          }
          src, spar, slo, sk := Child(src, right), Root(src), if right && sk > 0 then slo + Pow2(sk - 1) else slo, if sk > 0 then sk - 1 else 0;
          sizebits := Next(sizebits);
          if t == 0 {
            FirstLoopDone(mem, trees[idx], idx, nb, BestSize(mem, v), slo, sk, sizebits, rtree);
            t := rst;  // the least subtree holding sizes above nb
            src, spar, slo, sk := rtree, rpar, rlo, rk;
            break;
          }
        }
      } else {
        NoTree(nb);
      }
    }

    /** The search of `tmalloc_large`: `v` is the chosen chunk or null and `rsize` its remainder. */
    method FindBestFit(nb: nat) returns (v: nat, rsize: nat)
      requires BinsValid() && 256 <= nb < WORD_LIMIT
      ensures IsBestFit(mem, trees, nb, v) && Chosen(mem, trees, nb, v, rsize)
    {
      hide BinsOk, BinsInv, Layout, Rd, SizeOf, TreeIndex, Rep, Addrs, Heads, Sizes, TreeBinAt, TreeBinOk, Distinct, TrieOk,
           Within, LeftWalk, Marked, BinLo, BinBits, Pow2, AllBins, Chosen, Fitting, Better, IsBestFit, SearchedBin, BitsAbove,
           LeastBit, Bit2Idx, Child0, Child1;
      ToAllBins(mem, smallmap, treemap, smalls, trees, chunks);
      var idx := TreeIndex(nb);
      TreeIndexBound(nb);
      var t: nat;
      ghost var cur: Tree, par: nat, lo: nat, k: nat;
      v, rsize, t, cur, par, lo, k := WalkToFit(nb, idx);
      WithinRoot(mem, trees[idx], idx, cur, par, lo, k);
      ghost var bin := idx;
      OwnBin(treemap, trees, nb);
      if t == 0 && v == 0 {  // to the root of the next marked treebin
        var leftbits := BitsAbove(treemap, idx);
        NextMarkedBin(mem, treemap, trees, nb, idx, cur);
        if leftbits != 0 {
          var i := Bit2Idx(LeastBit(leftbits));
          t := Rd(mem, TreeBinAt(i));
          RootOfBin(mem, treemap, trees, i);
          NextBinFits(mem, treemap, trees, nb, i);
          FittingAll(trees[i], nb, 0, trees[i]);
          cur, par, lo, k, bin := trees[i], TreeBinAt(i), BinLo(i), BinBits(i), i;
        } else {
          return;
        }
      }
      WithinRoot(mem, trees[bin], bin, cur, par, lo, k);
      while t != 0  // to the smallest of the tree or subtree
        invariant t == Root(cur) && Within(mem, trees[bin], bin, cur, par, lo, k) && (t == 0 <==> cur.Nil?)
        invariant LeftWalk(Fitting(trees[bin], nb), nb, BestSize(mem, v), cur)
        invariant Chosen(mem, trees, nb, v, rsize)
        invariant nb < SIZE_LIMIT ==> v != 0 || cur.Node?
        invariant v != 0 ==> SizeOf(mem, v) in Sizes(trees[bin])
        decreases cur
      {
        FirstOneFits(Fitting(trees[bin], nb), nb, BestSize(mem, v), cur);
        WithinChild(mem, trees[bin], bin, cur, par, lo, k, !cur.left.Node?);
        NodeSize(mem, treemap, trees, bin, t);
        ChooseStep(mem, trees, nb, v, rsize, t, bin);
        WithinTrie(mem, trees[bin], bin, cur, par, lo, k);
        LeftWalkStep(Fitting(trees[bin], nb), nb, BestSize(mem, v), cur, lo, k);
        var trem := SubWrap(SizeOf(mem, t), nb);
        if trem < rsize { v, rsize := t, trem; }
        t := if Child0(mem, t) != 0 then Child0(mem, t) else Child1(mem, t);
        ghost var right := !cur.left.Node?;
        cur, par, lo, k := Child(cur, right), Root(cur), if right && k > 0 then lo + Pow2(k - 1) else lo, if k > 0 then k - 1 else 0;
      }
      SearchDone(mem, treemap, trees, nb, bin, v, rsize);
    }

    /** The search of `tmalloc_small`. */
    method FindLeast(nb: nat) returns (v: nat, rsize: nat)
      requires BinsValid() && treemap != 0 && 0 < nb < 256
      ensures v != 0 && IsBestFit(mem, trees, nb, v) && Chosen(mem, trees, nb, v, rsize) && SizeOf(mem, v) >= 256
    {
      hide BinsOk, BinsInv, Layout, Rd, SizeOf, TreeIndex, Rep, Addrs, Heads, Sizes, TreeBinAt, TreeBinOk, Distinct, TrieOk,
           Within, LeftWalk, Marked, BinLo, BinBits, Pow2, AllBins, Chosen, Better, IsBestFit, LeastBit, Bit2Idx, Child0, Child1;
      ToAllBins(mem, smallmap, treemap, smalls, trees, chunks);
      FirstBin(mem, treemap, trees, nb);
      var i := Bit2Idx(LeastBit(treemap));
      RootOfBin(mem, treemap, trees, i);
      ghost var all := Sizes(trees[i]);
      ghost var cur, par: nat, lo: nat, k: nat := trees[i], TreeBinAt(i), BinLo(i), BinBits(i);
      var t := Rd(mem, TreeBinAt(i));
      WithinChild(mem, trees[i], i, cur, par, lo, k, !cur.left.Node?);
      WithinTrie(mem, trees[i], i, cur, par, lo, k);
      NodeSize(mem, treemap, trees, i, t);
      NothingChosen(mem, trees, nb);
      ChooseStep(mem, trees, nb, 0, SubWrap(0, nb), t, i);
      LeftWalkStep(all, nb, 0, cur, lo, k);
      FirstTaken(mem, t, nb);
      v := t;
      rsize := SubWrap(SizeOf(mem, t), nb);
      t := if Child0(mem, t) != 0 then Child0(mem, t) else Child1(mem, t);
      ghost var right := !cur.left.Node?;
      cur, par, lo, k := Child(cur, right), Root(cur), if right && k > 0 then lo + Pow2(k - 1) else lo, if k > 0 then k - 1 else 0;
      WithinRoot(mem, trees[i], i, cur, par, lo, k);
      while t != 0
        invariant t == Root(cur) && Within(mem, trees[i], i, cur, par, lo, k) && (t == 0 <==> cur.Nil?)
        invariant LeftWalk(all, nb, BestSize(mem, v), cur)
        invariant Chosen(mem, trees, nb, v, rsize) && v != 0 && v in Addrs(trees[i])
        decreases cur
      {
        WithinChild(mem, trees[i], i, cur, par, lo, k, !cur.left.Node?);
        NodeSize(mem, treemap, trees, i, t);
        ChooseStep(mem, trees, nb, v, rsize, t, i);
        WithinTrie(mem, trees[i], i, cur, par, lo, k);
        LeftWalkStep(all, nb, BestSize(mem, v), cur, lo, k);
        var trem := SubWrap(SizeOf(mem, t), nb);
        if trem < rsize { v, rsize := t, trem; }
        t := if Child0(mem, t) != 0 then Child0(mem, t) else Child1(mem, t);
        right := !cur.left.Node?;
        cur, par, lo, k := Child(cur, right), Root(cur), if right && k > 0 then lo + Pow2(k - 1) else lo, if k > 0 then k - 1 else 0;
      }
      LeastOfAll(mem, treemap, trees, nb, i, v, rsize);
    }

    /* ------------------------- relays ------------------------- */

    /** `insert_chunk` */
    method InsertChunk(p: nat, s: nat, ghost loose: set<nat>)
      requires Keeps(loose) && p in loose && s == SizeOf(mem, p)
      modifies this`mem, this`smallmap, this`treemap, this`smalls, this`trees
      ensures Keeps(loose - {p}) && InBins() == old(InBins()) + {p}
      ensures Moved(old(Whole()), Whole(), {}, {}) && TagsKept(old(mem), mem, chunks)
      ensures smalls == Pushed(old(smalls), s, p) && trees == Planted(old(trees), s, p)
    {
      hide HeapInv, BinsOk, BinsInv, Layout, Binned, SizeOf, BinWrites, LiveKept, Live, TagsKept, Cinuse;
      ghost var h := Whole();
      BinsOf(h, loose);
      BinCount(mem, smallmap, treemap, smalls, trees, chunks);
      ChunkOf(h, loose, p);
      if s < 256 { InsertSmallChunk(p, s); } else { InsertLargeChunk(p, s); }
      BinMoved(h, Whole(), loose, loose - {p}, InBins());
    }

    /** `unlink_chunk` */
    method UnlinkChunk(p: nat, s: nat, ghost loose: set<nat>)
      requires Keeps(loose) && p in InBins() && s == SizeOf(mem, p)
      modifies this`mem, this`smallmap, this`treemap, this`smalls, this`trees
      ensures Keeps(loose + {p}) && InBins() == old(InBins()) - {p} && p in chunks && p != dv && p !in loose
      ensures Moved(old(Whole()), Whole(), {}, {}) && TagsKept(old(mem), mem, chunks)
    {
      hide HeapInv, BinsOk, BinsInv, Layout, Binned, SizeOf, BinWrites, LiveKept, Live, TagsKept, Cinuse;
      ghost var h := Whole();
      BinsOf(h, loose);
      if s < 256 { UnlinkSmallChunk(p, s); } else { UnlinkLargeChunk(p); }
      BinMoved(h, Whole(), loose, loose + {p}, BinSet(h));
    }

    /** `replace_dv`: the old victim is binned and `p` takes its place. */
    method ReplaceDv(p: nat, s: nat)
      requires Keeps({p}) && s == SizeOf(mem, p) && dvsize < 256
      modifies this`mem, this`smallmap, this`smalls, this`dv, this`dvsize
      ensures Valid() && dv == p && dvsize == s
      ensures smalls == if old(dvsize) == 0 then old(smalls) else Pushed(old(smalls), old(dvsize), old(dv))
      ensures Moved(old(Whole()), Whole(), {}, {}) && TagsKept(old(mem), mem, chunks)
    {
      hide HeapInv, BinsOk, BinsInv, Layout, Binned, SizeOf, BinWrites, LiveKept, Live, TagsKept, Cinuse;
      ghost var h := Whole();
      ghost var h0 := h.(dv := 0, dvsize := 0);
      BinsOf(h, {p});
      DvLoose(h, {p});
      DvFacts(h, {p});
      var dvs := dvsize;
      if dvs != 0 {
        ChunkOf(h, {p}, dv);
        InsertSmallChunk(dv, dvs);
        BinMoved(h0, Whole().(dv := 0, dvsize := 0), {p} + DvSet(dv), {p}, InBins());
        assert SizeOf(mem, p) == s by { KeptSize(h.mem, mem, chunks, p); }
      } else {
        NothingMoved(h0);
      }
      DvChosen(Whole().(dv := 0, dvsize := 0), {p}, p);
      ghost var h1 := Whole();
      dvsize := s;
      dv := p;
      assert {p} - {p} == {};
      MovedBetween(h0, h1.(dv := 0, dvsize := 0), h, Whole(), {}, {});
    }

    /* ------------------------- malloc ------------------------- */

    /** `tmalloc_large` */
    method TmallocLarge(nb: nat) returns (ptr: nat)
      requires Valid() && 256 <= nb < WORD_LIMIT && Aligned(nb)
      modifies this`mem, this`smallmap, this`treemap, this`smalls, this`trees, this`chunks
      ensures Valid()
      ensures ptr == 0 ==> Whole() == old(Whole()) && (Fit(Whole(), nb) == {} || DvServes(Whole(), nb))
      ensures ptr != 0 ==> ptr >= 16 && Allocated(old(Whole()), Whole(), nb, ptr - 16) && Serves(old(Whole()), nb, ptr - 16)
      ensures ptr != 0 ==> ptr - 16 in Fit(old(Whole()), nb)
    {
      hide ListsAfter, TreesAfter, Pushed, Popped, Planted, Uprooted, FirstOfSize, MemberOfSize, HeapInv, BinsOk, BinsInv, Layout, Binned, SizeOf, BinWrites, LiveKept, Live, TagsKept,
           Cinuse, Moved, Chosen, IsBestFit, SetInuseAndPinuse, SetSizeOfFree, SetSizeOfInuse, Serves, DvServes, Fit, Aligned, Tiled, Sorted;
      ghost var h := Whole();
      BinsOf(h, {});
      DvFacts(h, {});
      DvBelowLimit(h);
      var v, rsize := FindBestFit(nb);
      LargeChoice(h, nb, v, rsize);
      if v != 0 && rsize < SubWrap(dvsize, nb) {
        FoundIsBinned(h, nb, v, rsize);
        BinnedOff(h, v);
        NoList(h, v);
        var r := v + nb;
        UnlinkLargeChunk(v);
        ghost var h1 := Whole();
        BinMoved(h, h1, {}, {v}, BinSet(h));
        KeptSize(h.mem, mem, chunks, v);
        if rsize < MIN_CHUNK {
          TakeWhole(h1, v);
          mem := SetInuseAndPinuse(mem, v, rsize + nb);
          CarvedWhole(h, Whole(), nb, v);
          Taken(h, h1, Whole(), nb, v);
        } else {
          mem := SetSizeOfFree(SetSizeOfInuse(mem, v, nb), r, rsize);
          TakeFront(h1, mem, v, nb);
          chunks := chunks + {r};
          ghost var h2 := Whole();
          InsertChunk(r, rsize, {r});
          assert {r} - {r} == {};
          ListsSplit(h, nb, v);
          TakenThen(h, h1, h2, Whole(), nb, v);
        }
        return v + 16;
      }
      return 0;
    }

    /** `tmalloc_small` */
    method TmallocSmall(nb: nat) returns (ptr: nat)
      requires Valid() && MIN_CHUNK <= nb < 256 && Aligned(nb) && treemap != 0
      requires dvsize < nb && forall a | a in Fit(Whole(), nb) :: SizeOf(mem, a) >= 256
      modifies this`mem, this`smallmap, this`treemap, this`smalls, this`trees, this`chunks, this`dv, this`dvsize
      ensures Valid() && ptr >= 16
      ensures Allocated(old(Whole()), Whole(), nb, ptr - 16) && Serves(old(Whole()), nb, ptr - 16)
      ensures ptr - 16 in Fit(old(Whole()), nb)
    {
      hide ListsAfter, TreesAfter, Pushed, Popped, Planted, Uprooted, FirstOfSize, MemberOfSize, HeapInv, BinsOk, BinsInv, Layout, Binned, SizeOf, BinWrites, LiveKept, Live, TagsKept,
           Cinuse, Moved, Chosen, IsBestFit, SetInuseAndPinuse, SetSizeOfFree, SetSizeOfInuse, Serves, Fit, Aligned, Tiled, Sorted;
      ghost var h := Whole();
      BinsOf(h, {});
      var v, rsize := FindLeast(nb);
      FoundIsBinned(h, nb, v, rsize);
      SmallTreeChoice(h, nb, v, rsize);
      BinnedOff(h, v);
      NoList(h, v);
      var r := v + nb;
      UnlinkLargeChunk(v);
      ghost var h1 := Whole();
      BinMoved(h, h1, {}, {v}, BinSet(h));
      KeptSize(h.mem, mem, chunks, v);
      if rsize < MIN_CHUNK {
        TakeWhole(h1, v);
        mem := SetInuseAndPinuse(mem, v, rsize + nb);
        CarvedWhole(h, Whole(), nb, v);
        Taken(h, h1, Whole(), nb, v);
      } else {
        mem := SetSizeOfFree(SetSizeOfInuse(mem, v, nb), r, rsize);
        TakeFront(h1, mem, v, nb);
        chunks := chunks + {r};
        ghost var h2 := Whole();
        ReplaceDv(r, rsize);
        ListsSplit(h, nb, v);
        TakenThen(h, h1, h2, Whole(), nb, v);
      }
      return v + 16;
    }

    /** The front of top is handed out. */
    method SplitTop(nb: nat) returns (ptr: nat)
      requires Valid() && MIN_CHUNK <= nb < topsize && Aligned(nb)
      modifies this`mem, this`top, this`topsize, this`chunks
      ensures Valid() && ptr == old(top) + 16 && SizeOf(mem, old(top)) == nb && Pinuse(mem, old(top))
      ensures Moved(old(Whole()), Whole(), {}, {old(top)}) && old(top) !in old(chunks) && top == old(top) + nb
      ensures top + topsize == old(top + topsize)
    {
      hide ListsAfter, TreesAfter, Pushed, Popped, Planted, Uprooted, FirstOfSize, MemberOfSize, HeapInv, LiveKept, Live, Moved, SetSizeOfInuse, SizeOf, Aligned;
      TakeTop(Whole(), nb);
      var rsize := topsize - nb;
      topsize := rsize;
      var p := top;
      var r := p + nb;
      top := r;
      mem := mem[r + 8 := rsize + 1];
      mem := SetSizeOfInuse(mem, p, nb);
      chunks := chunks + {p};
      return p + 16;
    }

    /** The part of `sys_alloc` that extends the segment in place: the system's next region of
        whole granules lies right behind the segment (`adjacent`), or the request fails. */
    method SysAlloc(nb: nat, adjacent: bool) returns (ptr: nat)
      requires Valid() && MIN_CHUNK <= nb < WORD_LIMIT && (nb < SIZE_LIMIT ==> Aligned(nb))
      modifies this`mem, this`top, this`topsize, this`chunks
      ensures Valid()
      ensures ptr == 0 <==> !SystemGrants(old(Whole()), nb, adjacent)
      ensures ptr == 0 ==> Whole() == old(Whole())
      ensures ptr != 0 ==> ptr == old(top) + 16 && Allocated(old(Whole()), Whole(), nb, old(top))
      ensures ptr != 0 ==> top + topsize == old(top + topsize) + SystemSize(nb)
    {
      hide ListsAfter, TreesAfter, Pushed, Popped, Planted, Uprooted, FirstOfSize, MemberOfSize, HeapInv, LiveKept, Live, Moved, SetSizeOfInuse, Tiled, SizeOf, SystemSize, Aligned;
      ghost var h := Whole();
      var asize := SystemSize(nb);
      if asize <= nb { return 0; }  // wraparound
      if !adjacent || top + topsize + asize > SIZE_LIMIT { return 0; }
      SystemSizeFits(nb);
      BinsOf(h, {});
      TopBeforeEnd(h);
      GrowSegment(h, h.end + asize, TOP_FOOT_SIZE);
      // append: init_top
      topsize := topsize + asize;
      mem := mem[top + 8 := topsize + 1][top + topsize + 8 := TOP_FOOT_SIZE];
      ghost var h1 := Whole();
      assert nb < topsize;
      ptr := SplitTop(nb);
      TopTaken(h, h1, Whole(), nb);
    }

    /** A remainderless fit: the first chunk of small bin `idx`. */
    method UseSmallBin(nb: nat, idx: nat) returns (ptr: nat)
      requires Valid() && idx < 32 && Marked(smallmap, idx) && nb <= 8 * idx < nb + MIN_CHUNK
      modifies this`mem, this`smallmap, this`smalls
      ensures Valid() && ptr >= 16 && Allocated(old(Whole()), Whole(), nb, ptr - 16)
      ensures ptr - 16 in old(InBins()) && old(SizeOf(mem, ptr - 16)) == 8 * idx
    {
      hide ListsAfter, TreesAfter, Pushed, Popped, Planted, Uprooted, FirstOfSize, MemberOfSize, HeapInv, BinsOk, BinsInv, Layout, Binned, SizeOf, BinWrites, LiveKept, Live, TagsKept,
           Cinuse, Moved, SetInuseAndPinuse, Aligned, Tiled, Sorted, Marked;
      ghost var h := Whole();
      BinsOf(h, {});
      var b := SmallBinAt(idx);
      var p := Fd(mem, b);
      UnlinkFirstSmallChunk(b, p, idx);
      ghost var h1 := Whole();
      BinMoved(h, h1, {}, {p}, BinSet(h));
      KeptSize(h.mem, mem, chunks, p);
      TakeWhole(h1, p);
      mem := SetInuseAndPinuse(mem, p, 8 * idx);
      NoTrie(h, 8 * idx, p);
      CarvedWhole(h, Whole(), nb, p);
      Taken(h, h1, Whole(), nb, p);
      return p + 16;
    }

    /** The first chunk of a later small bin is split, and the rest becomes the designated victim. */
    method SplitSmallBin(nb: nat, i: nat) returns (ptr: nat)
      requires Valid() && i < 32 && Marked(smallmap, i) && MIN_CHUNK <= nb <= 8 * i && Aligned(nb) && dvsize < 256
      modifies this`mem, this`smallmap, this`smalls, this`chunks, this`dv, this`dvsize
      ensures Valid() && ptr >= 16 && Allocated(old(Whole()), Whole(), nb, ptr - 16)
      ensures ptr - 16 in old(InBins()) && old(SizeOf(mem, ptr - 16)) == 8 * i
    {
      hide ListsAfter, TreesAfter, Pushed, Popped, Planted, Uprooted, FirstOfSize, MemberOfSize, HeapInv, BinsOk, BinsInv, Layout, Binned, SizeOf, BinWrites, LiveKept, Live, TagsKept,
           Cinuse, Moved, SetInuseAndPinuse, SetSizeOfFree, SetSizeOfInuse, Aligned, Tiled, Sorted, Marked;
      ghost var h := Whole();
      BinsOf(h, {});
      var b := SmallBinAt(i);
      var p := Fd(mem, b);
      UnlinkFirstSmallChunk(b, p, i);
      ghost var h1 := Whole();
      BinMoved(h, h1, {}, {p}, BinSet(h));
      KeptSize(h.mem, mem, chunks, p);
      var rsize := 8 * i - nb;
      if rsize < MIN_CHUNK {
        TakeWhole(h1, p);
        mem := SetInuseAndPinuse(mem, p, 8 * i);
        NoTrie(h, 8 * i, p);
        CarvedWhole(h, Whole(), nb, p);
        Taken(h, h1, Whole(), nb, p);
      } else {
        BinnedOff(h, p);
        mem := SetSizeOfInuse(mem, p, nb);
        var r := p + nb;
        mem := SetSizeOfFree(mem, r, rsize);
        TakeFront(h1, mem, p, nb);
        chunks := chunks + {r};
        ghost var h2 := Whole();
        ReplaceDv(r, rsize);
        ListsSplit(h, nb, p);
        NoTrie(h, 8 * i, p);
        TakenThen(h, h1, h2, Whole(), nb, p);
      }
      return p + 16;
    }

    /** The designated victim is split or used up. */
    method UseDv(nb: nat) returns (ptr: nat)
      requires Valid() && MIN_CHUNK <= nb <= dvsize && Aligned(nb)
      modifies this`mem, this`chunks, this`dv, this`dvsize
      ensures Valid() && old(dv) != 0 && ptr == old(dv) + 16 && Allocated(old(Whole()), Whole(), nb, old(dv))
    {
      hide ListsAfter, TreesAfter, Pushed, Popped, Planted, Uprooted, FirstOfSize, MemberOfSize, HeapInv, SizeOf, LiveKept, Live, Moved, SetInuseAndPinuse, SetSizeOfFree,
           SetSizeOfInuse, Aligned, Tiled, Sorted;
      ghost var h := Whole();
      ghost var h0 := h.(dv := 0, dvsize := 0);
      DvFacts(h, {});
      DvLoose(h, {});
      assert {} + DvSet(dv) == {dv};
      NothingMoved(h);
      MovedBetween(h, h, h, h0, {}, {});
      var rsize := dvsize - nb;
      var p := dv;
      if rsize >= MIN_CHUNK {  // split dv
        var r := p + nb;
        dv := r;
        dvsize := rsize;
        mem := SetSizeOfFree(mem, r, rsize);
        mem := SetSizeOfInuse(mem, p, nb);
        TakeFront(h0, mem, p, nb);
        chunks := chunks + {r};
        ghost var h1 := Whole().(dv := 0, dvsize := 0);
        DvChosen(h1, {r}, r);
        assert {r} - {r} == {};
        MovedBetween(h0, h1, h0, Whole(), {}, {p});
      } else {                 // exhaust dv
        var dvs := dvsize;
        dvsize := 0;
        dv := 0;
        TakeWhole(h0, p);
        mem := SetInuseAndPinuse(mem, p, dvs);
      }
      CarvedDv(h, Whole(), nb);
      Taken(h, h0, Whole(), nb, p);
      return p + 16;
    }

    /** The part of `dlmalloc` that looks for a binned chunk for a small request; null if the
        request goes on to the designated victim or top. */
    method MallocSmall(nb: nat) returns (ptr: nat)
      requires Valid() && MIN_CHUNK <= nb <= 240 && Aligned(nb)
      modifies this`mem, this`smallmap, this`treemap, this`smalls, this`trees, this`chunks, this`dv, this`dvsize
      ensures Valid()
      ensures ptr != 0 ==> ptr >= 16 && Allocated(old(Whole()), Whole(), nb, ptr - 16) && Serves(old(Whole()), nb, ptr - 16)
      ensures ptr != 0 ==> ptr - 16 in Fit(old(Whole()), nb) && !NothingFree(old(Whole()), nb)
      ensures ptr == 0 ==> Whole() == old(Whole()) && DvOrTop(Whole(), nb)
    {
      hide HeapInv, SizeOf, LiveKept, Live, Moved, Aligned, Tiled, Sorted, Binned, BinsOk, ShiftUp, ShiftDown, LeastBit, Bit2Idx,
           BitsAbove, Marked, Serves, BinsIntact, Fit, NothingFree, DvServes, BinsInv, SystemGrants, Allocated, DvOrTop;
      ghost var h := Whole();
      BinsOf(h, {});
      SmallEighth(nb);
      var idx := nb / 8;
      var smallbits := ShiftDown(smallmap, idx);
      LowBits(smallmap, idx);
      if smallbits % 4 != 0 {          // remainderless fit
        idx := idx + (1 - smallbits % 2);
        MarkedBelow32(h, idx);
        ptr := UseSmallBin(nb, idx);
        FromSmallBin(h, nb, idx, ptr - 16);
      } else if nb > dvsize {
        if smallbits != 0 {            // next nonempty small bin
          MapFits(h);
          DvFacts(h, {});
          NextSmallBin(smallmap, idx);
          var leftbits := BitsAbove(ShiftUp(smallbits, idx), idx);
          var i := Bit2Idx(LeastBit(leftbits));
          ptr := SplitSmallBin(nb, i);
          FromSmallBin(h, nb, i, ptr - 16);
        } else {
          NoBits(smallmap, idx);
          NoSmallFit(h, nb);
          if treemap != 0 {
            ptr := TmallocSmall(nb);
            NotNothing(h, nb, ptr - 16);
          } else {
            NoneForSmall(h, nb);
            ptr := 0;
          }
        }
      } else {
        DvForSmall(h, nb);
        DvTakes(h, nb);
        ptr := 0;
      }
    }

    /** The tail of `dlmalloc`: the designated victim, top, or the system. */
    method MallocRest(nb: nat, adjacent: bool) returns (ptr: nat)
      requires Valid() && MIN_CHUNK <= nb < WORD_LIMIT && (nb < SIZE_LIMIT ==> Aligned(nb)) && DvOrTop(Whole(), nb)
      modifies this`mem, this`top, this`topsize, this`chunks, this`dv, this`dvsize
      ensures Valid()
      ensures ptr != 0 ==> ptr >= 16 && Allocated(old(Whole()), Whole(), nb, ptr - 16) && Serves(old(Whole()), nb, ptr - 16)
      ensures ptr == 0 ==> Whole() == old(Whole())
      ensures ptr == 0 <==> NothingFree(old(Whole()), nb) && old(topsize) <= nb && !SystemGrants(old(Whole()), nb, adjacent)
      ensures top + topsize == EndAfter(old(Whole()), old(topsize), nb, adjacent)
    {
      hide HeapInv, SizeOf, LiveKept, Live, Moved, Aligned, Tiled, Sorted, Binned, BinsOk, ShiftUp, ShiftDown, LeastBit, Bit2Idx,
           BitsAbove, Marked, Serves, BinsIntact, Fit, NothingFree, DvServes, BinsInv, SystemGrants, Allocated;
      ghost var h := Whole();
      BinsOf(h, {});
      DvBelowLimit(h);
      TopBeforeEnd(h);
      if nb <= dvsize {
        ptr := UseDv(nb);
      } else {
        TopServes(h, nb);
        if nb < topsize {
          ptr := SplitTop(nb);
          NothingMoved(h);
          TopTaken(h, h, Whole(), nb);
        } else {
          ptr := SysAlloc(nb, adjacent);
        }
      }
    }

    /** `dlmalloc`.  `adjacent` says whether the system would extend the segment in place. */
    method Malloc(bytes: nat, adjacent: bool) returns (ptr: nat)
      requires Valid() && bytes < WORD_LIMIT
      modifies this
      ensures Valid()
      ensures ptr != 0 ==> ptr >= 16 && Allocated(old(Whole()), Whole(), RequestSize(bytes), ptr - 16)
      ensures ptr != 0 ==> Serves(old(Whole()), RequestSize(bytes), ptr - 16)
      ensures ptr == 0 ==> Whole() == old(Whole())
      ensures ptr == 0 <==> NothingFree(old(Whole()), RequestSize(bytes)) && old(topsize) <= RequestSize(bytes)
                            && !SystemGrants(old(Whole()), RequestSize(bytes), adjacent)
      ensures top + topsize == EndAfter(old(Whole()), old(topsize), RequestSize(bytes), adjacent)
    {
      hide HeapInv, SizeOf, LiveKept, Live, Moved, Aligned, Tiled, Sorted, Binned, BinsOk, ShiftUp, ShiftDown, LeastBit, Bit2Idx,
           BitsAbove, Marked, Serves, BinsIntact, Fit, NothingFree, DvServes, BinsInv, SystemGrants, Allocated, RequestSize;
      ghost var h := Whole();
      BinsOf(h, {});
      DvBelowLimit(h);
      var nb: nat;
      if bytes <= MAX_SMALL_REQUEST {
        nb := if bytes < MIN_REQUEST then MIN_CHUNK else PadRequest(bytes);
        SmallSize(bytes);
        ptr := MallocSmall(nb);
        if ptr != 0 { return; }
      } else if bytes >= MAX_REQUEST {
        nb := WORD_LIMIT - 1;
        HugeSize(h, bytes);
      } else {
        nb := PadRequest(bytes);
        LargeSize(bytes);
        if treemap != 0 {
          ptr := TmallocLarge(nb);
          if ptr != 0 { NotNothing(h, nb, ptr - 16); return; }
        } else {
          NoTreeFits(h, nb);
        }
        DvForLarge(h, nb);
      }
      ptr := MallocRest(nb, adjacent);
    }

    /* ------------------------- free ------------------------- */

    /** The second half of `dispose_chunk`: a run of free space with `chunk` in it is joined
        with the free space behind it, if any, and put away. */
    method DisposeForward(p: nat, size: nat, ghost gone: set<nat>, ghost chunk: nat)
      requires RunInHand(Whole(), p, size, gone, chunk) && (p == dv ==> !Cinuse(mem, p + size))
      modifies this
      ensures Valid() && Moved(old(Whole()), Whole(), {chunk}, {}) && top + topsize == old(top + topsize)
      ensures VictimGrows(old(Whole()), Whole())
    {
      hide VictimGrows, Beside, HeapInv, SizeOf, LiveKept, Live, Moved, SetFreeWithPinuse, SetSizeOfFree, Aligned, Tiled, Sorted, Binned, BinsOk,
           Cinuse, Pinuse, TagsKept, FreeOf, LiveOf, Run, Freeing, Foot;
      ghost var h := Whole();
      ghost var loose := FreeOf(mem, gone) - DvSet(dv);
      VictimPlace(h, p, size, gone, chunk);
      var psize := size;
      var next := p + psize;
      if !Cinuse(mem, next) {
        if next == top {
          FreeIntoTop(h, p, psize, gone, chunk);
          var tsize := topsize + psize;
          topsize := tsize;
          top := p;
          mem := mem[p + 8 := tsize + 1];
          chunks := chunks - gone;
          if p == dv {
            dv := 0;
            dvsize := 0;
          }
          GrowsBeside(h, Whole(), p, size);
          return;
        } else if next == dv {
          NextDv(h, p, psize, gone, chunk);
          FreeIntoDv(h, p, psize, gone, chunk);
          var dsize := dvsize + psize;
          dvsize := dsize;
          dv := p;
          mem := SetSizeOfFree(mem, p, dsize);
          chunks := chunks - (gone + {next}) + {p};
          GrowsBeside(h, Whole(), p, size);
          return;
        } else {
          NextBinned(h, p, psize, gone, chunk);
          var nsize := SizeOf(mem, next);
          UnlinkChunk(next, nsize, loose);
          FreeWithNext(h, Whole(), p, psize, gone, chunk, next, psize + nsize);
          psize := psize + nsize;
          mem := SetSizeOfFree(mem, p, psize);
          chunks := chunks - (gone + {next}) + {p};
          if p == dv {
            dvsize := psize;
            GrowsBeside(h, Whole(), p, size);
            return;
          }
        }
      } else {
        UsedIsNotTop(h, next, loose);
        FreeBeforeUsed(h, p, psize, gone, chunk);
        mem := SetFreeWithPinuse(mem, p, psize, next);
        chunks := chunks - gone + {p};
      }
      ghost var h2 := Whole();
      InsertChunk(p, psize, {p});
      assert {p} - {p} == {};
      MovedLast(h, h2, Whole(), {chunk}, {});
      GrowsBeside(h, Whole(), p, size);
    }

    /** `dispose_chunk`, and what `dlfree` does: the chunk is joined with the free space before
        and behind it and put away. */
    method DisposeChunk(chunk: nat, size: nat)
      requires Valid() && chunk in Live(Whole()) && size == SizeOf(mem, chunk)
      modifies this
      ensures Valid() && Moved(old(Whole()), Whole(), {chunk}, {}) && top + topsize == old(top + topsize)
      ensures VictimGrows(old(Whole()), Whole())
    {
      hide VictimGrows, HeapInv, SizeOf, LiveKept, Live, Moved, SetFreeWithPinuse, SetSizeOfFree, Aligned, Tiled, Sorted, Binned, BinsOk,
           Cinuse, Pinuse, TagsKept, FreeOf, LiveOf, Run, Freeing, Foot, RunInHand;
      ghost var h := Whole();
      var p, psize := chunk, size;
      var next := p + psize;
      ghost var gone := {chunk};
      NothingMoved(h);
      if !Pinuse(mem, p) {  // consolidate backward
        BehindReady(h, p);
        var prevsize := Foot(mem, p);
        psize := psize + prevsize;
        p := p - prevsize;
        gone := {p, chunk};
        if p != dv {
          UnlinkChunk(p, prevsize, {});
          StillReady(h, Whole(), p, psize, gone, chunk);
          BehindInHand(h, Whole(), p, psize, gone, chunk);
        } else {
          DvInHand(h, p, psize, gone, chunk);
          VictimPlace(h, p, psize, gone, chunk);
          if Cinuse(mem, next) && Pinuse(mem, next) {
            UsedIsNotTop(h, next, {});
            FreeBeforeUsed(h, p, psize, gone, chunk);
            dvsize := psize;
            mem := SetFreeWithPinuse(mem, p, psize, next);
            chunks := chunks - gone + {p};
            GrowsBeside(h, Whole(), p, psize);
            return;
          }
        }
      } else {
        AloneReady(h, p);
        AloneInHand(h, p, psize);
      }
      ghost var h1 := Whole();
      DisposeForward(p, psize, gone, chunk);
      MovedFirst(h, h1, Whole(), {chunk}, {});
      GrowsFirst(h, h1, Whole());
    }

    /** `dlfree` of a non-null pointer that malloc has returned. */
    method Free(ptr: nat)
      requires Valid() && (ptr != 0 ==> ptr >= 16 && ptr - 16 in Live(Whole()))
      modifies this
      ensures Valid() && top + topsize == old(top + topsize)
      ensures ptr == 0 ==> Whole() == old(Whole())
      ensures ptr != 0 ==> Moved(old(Whole()), Whole(), {ptr - 16}, {}) && VictimGrows(old(Whole()), Whole())
    {
      hide HeapInv, SizeOf, Live, Moved, VictimGrows;
      if ptr != 0 {
        var p := ptr - 16;
        DisposeChunk(p, SizeOf(mem, p));
      }
    }

    /* ------------------------- realloc ------------------------- */

    /** A chunk in use of `len` bytes, counting what has been joined to it, is cut to nb bytes
        and the rest is freed. */
    method CutInuse(p: nat, nb: nat, len: nat, ghost gone: set<nat>)
      requires Keeps(FreeOf(mem, gone)) && Run(chunks, p, len, gone) && Border(chunks, top, p, len)
      requires p in Live(Whole()) && LiveOf(mem, gone) == {p} && SizeOf(mem, p) <= len
      requires MIN_CHUNK <= nb && nb + MIN_CHUNK <= len && Aligned(nb) && Aligned(len)
      modifies this
      ensures Valid() && Resized(old(Whole()), Whole(), p, nb) && SizeOf(mem, p) == nb && top + topsize == old(top + topsize)
      ensures VictimGrows(old(Whole()), Whole())
    {
      hide HeapInv, SizeOf, LiveKept, Live, Moved, SetInuse, Aligned, Binned, Cinuse, Pinuse, FreeOf, LiveOf, Run, Border, Resized,
           PrefixKept;
      ghost var h := Whole();
      LiveIsUsed(h, p);
      InsideNotLive(h, p, nb, len, gone);
      SplitRun(h, p, nb, len, gone);
      var r, rsize := p + nb, len - nb;
      mem := SetInuse(mem, p, nb);
      mem := SetInuse(mem, r, rsize);
      chunks := chunks - gone + {p, r};
      ghost var h1 := Whole();
      DisposeChunk(r, rsize);
      GrowsFirst(h, h1, Whole());
      ResizedBySplit(h, h1, Whole(), p, nb);
      CutSize(h1, Whole(), p, r);
    }

    /** `try_realloc_chunk`, where the designated victim follows. */
    method GrowIntoDv(p: nat, nb: nat)
      requires Valid() && p in Live(Whole()) && Aligned(nb) && MIN_CHUNK <= nb && SizeOf(mem, p) <= nb
      requires p + SizeOf(mem, p) == dv != top && SizeOf(mem, p) + dvsize >= nb
      modifies this`mem, this`chunks, this`dv, this`dvsize
      ensures Valid() && Resized(old(Whole()), Whole(), p, nb) && SizeOf(mem, p) == Trimmed(old(SizeOf(mem, p) + dvsize), nb)
      ensures if old(SizeOf(mem, p) + dvsize) >= nb + MIN_CHUNK then dv == p + nb && dvsize + nb == old(SizeOf(mem, p) + dvsize)
              else dv == dvsize == 0
    {
      hide HeapInv, SizeOf, LiveKept, Live, Moved, SetInuse, SetSizeOfFree, ClearPinuse, Aligned, Binned, Cinuse, Pinuse,
           FreeOf, LiveOf, Run, Border, Resized, PrefixKept, TagsKept, Tiled, Sorted, BinsIntact;
      ghost var h := Whole();
      DvRun(h, p);
      var dsize := SizeOf(mem, p) + dvsize - nb;
      if dsize >= MIN_CHUNK {
        ResizedIntoDv(h, p, nb);
        var r := p + nb;
        var n := r + dsize;
        mem := SetInuse(mem, p, nb);
        mem := SetSizeOfFree(mem, r, dsize);
        mem := ClearPinuse(mem, n);
        chunks := chunks - {p, dv} + {p, r};
        dvsize := dsize;
        dv := r;
      } else {  // exhaust dv
        ghost var w := h.(dv := 0, dvsize := 0);
        var newsize := SizeOf(mem, p) + dvsize;
        ResizedWhole(w, p, nb, newsize, {p, dv});
        mem := SetInuse(mem, p, newsize);
        chunks := chunks - {p, dv} + {p};
        dvsize := 0;
        dv := 0;
        ResizedBetween(w, Whole(), h, p, nb);
      }
    }

    /** `try_realloc_chunk`, where a binned chunk follows. */
    method GrowIntoNext(p: nat, nb: nat, next: nat)
      requires Valid() && p in Live(Whole()) && Aligned(nb) && MIN_CHUNK <= nb && SizeOf(mem, p) <= nb
      requires p + SizeOf(mem, p) == next && next in InBins() && SizeOf(mem, p) + SizeOf(mem, next) >= nb
      modifies this
      ensures Valid() && Resized(old(Whole()), Whole(), p, nb) && top + topsize == old(top + topsize)
      ensures SizeOf(mem, p) == Trimmed(old(SizeOf(mem, p) + SizeOf(mem, next)), nb) && VictimGrows(old(Whole()), Whole())
    {
      hide VictimGrows, HeapInv, SizeOf, LiveKept, Live, Moved, SetInuse, SetSizeOfFree, ClearPinuse, Aligned, Binned, Cinuse, Pinuse,
           FreeOf, LiveOf, Run, Border, Resized, PrefixKept, TagsKept, Tiled, Sorted, BinsIntact;
      ghost var h := Whole();
      var oldsize, nextsize := SizeOf(mem, p), SizeOf(mem, next);
      var rsize := oldsize + nextsize - nb;
      UnlinkChunk(next, nextsize, {});
      assert {} + {next} == {next};
      ghost var h1 := Whole();
      NextRun(h, h1, p, next);
      if rsize < MIN_CHUNK {
        var newsize := oldsize + nextsize;
        ResizedWhole(h1, p, nb, newsize, {p, next});
        mem := SetInuse(mem, p, newsize);
        chunks := chunks - {p, next} + {p};
        GrowsNot(h, {}, Whole());
      } else {
        StillLive(h, h1, p);
        CutInuse(p, nb, oldsize + nextsize, {p, next});
        GrowsFirst(h, h1, Whole());
      }
      ResizedThen(h, h1, Whole(), p, nb);
    }

    /** `try_realloc_chunk` */
    method TryReallocChunk(p: nat, nb: nat) returns (newp: nat)
      requires Valid() && p in Live(Whole()) && Aligned(nb) && nb >= MIN_CHUNK
      modifies this
      ensures Valid() && top + topsize == old(top + topsize)
      ensures if old(FitsInPlace(Whole(), p, nb)) then newp == p && Resized(old(Whole()), Whole(), p, nb) && Refits(old(Whole()), Whole(), p, nb)
              else newp == 0 && Whole() == old(Whole())
    {
      hide VictimGrows, HeapInv, SizeOf, LiveKept, Live, Moved, SetInuse, SetSizeOfFree, ClearPinuse, Aligned, Binned, Cinuse, Pinuse,
           FreeOf, LiveOf, Run, Border, Resized, PrefixKept, TagsKept, Tiled, Sorted, BinsIntact;
      ghost var h := Whole();
      LiveChunk(h, p);
      AfterLive(h, p);
      newp := 0;
      var oldsize := SizeOf(mem, p);
      var next := p + oldsize;
      if oldsize >= nb {             // already big enough
        var rsize := oldsize - nb;
        if rsize >= MIN_CHUNK {      // split off remainder
          CutInuse(p, nb, oldsize, {p});
        } else {
          ResizedAsIs(h, p, nb);
          GrowsNot(h, {}, h);
        }
        newp := p;
      } else if next == top {        // extend into top
        if oldsize + topsize > nb {
          ResizedIntoTop(h, p, nb);
          var newsize := oldsize + topsize;
          var newtopsize := newsize - nb;
          var newtop := p + nb;
          mem := SetInuse(mem, p, nb);
          mem := mem[newtop + 8 := newtopsize + 1];
          top := newtop;
          topsize := newtopsize;
          newp := p;
        }
      } else if next == dv {         // extend into dv
        if oldsize + dvsize >= nb {
          GrowIntoDv(p, nb);
          newp := p;
        }
      } else if !Cinuse(mem, next) { // extend into next free chunk
        if oldsize + SizeOf(mem, next) >= nb {
          GrowIntoNext(p, nb, next);
          newp := p;
        }
      }
    }

    /** The `memcpy` of `dlrealloc`, between two live blocks; the count is a multiple of the word size. */
    method CopyWords(dst: nat, src: nat, n: nat)
      requires Valid() && dst >= 16 && src >= 16 && dst != src && dst - 16 in Live(Whole()) && src - 16 in Live(Whole())
      requires n % 8 == 0 && n + 8 <= SizeOf(mem, dst - 16) && n + 8 <= SizeOf(mem, src - 16)
      modifies this`mem
      ensures Valid() && Moved(old(Whole()), Whole(), {dst - 16}, {dst - 16}) && SizeOf(mem, dst - 16) == old(SizeOf(mem, dst - 16))
      ensures SameWords(old(mem), src, mem, dst, n)
    {
      hide HeapInv, SizeOf, Live, Moved, TagsSame, LiveKept, Rd, SameWords;
      ghost var h := Whole();
      ghost var p, q: nat := src - 16, dst - 16;
      MovedToItself(h, q);
      NoWords(mem, src, dst);
      var i := 0;
      while i < n / 8
        invariant 0 <= i <= n / 8
        invariant Valid() && Moved(h, Whole(), {q}, {q}) && SizeOf(mem, q) == SizeOf(h.mem, q)
        invariant SameWords(h.mem, src, mem, dst, 8 * i)
      {
        ghost var h1 := Whole();
        StillThere(h, h1, q);
        KeptWords(h, h1, {q}, {q}, p);
        WordAt(h.mem, mem, src, i, SizeOf(h.mem, p) - 8);
        PayloadWrite(h1, q, dst + 8 * i, Rd(mem, src + 8 * i));
        mem := mem[dst + 8 * i := Rd(mem, src + 8 * i)];
        MovedTwice(h, h1, Whole(), q);
        OneMoreWord(h.mem, h1.mem, src, dst, i);
        i := i + 1;
      }
    }

    /** `dlrealloc` */
    method Realloc(oldmem: nat, bytes: nat, adjacent: bool) returns (ptr: nat)
      requires Valid() && bytes < WORD_LIMIT && (oldmem != 0 ==> oldmem >= 16 && oldmem - 16 in Live(Whole()))
      modifies this
      ensures Valid()
      ensures ptr == 0 ==> Whole() == old(Whole())
      ensures ptr != 0 && oldmem == 0 ==> ptr >= 16 && Allocated(old(Whole()), Whole(), RequestSize(bytes), ptr - 16)
      ensures ptr != 0 && oldmem == 0 ==> Serves(old(Whole()), RequestSize(bytes), ptr - 16)
      ensures ptr != 0 && oldmem != 0 ==> ptr >= 16 && Reallocated(old(Whole()), Whole(), oldmem - 16, ptr - 16, RequestSize(bytes))
      ensures ptr != 0 && oldmem != 0 ==>
                if old(FitsInPlace(Whole(), oldmem - 16, RequestSize(bytes))) then Refits(old(Whole()), Whole(), oldmem - 16, RequestSize(bytes))
                else Relocated(old(Whole()), Whole(), RequestSize(bytes), ptr - 16)
      ensures ptr == 0 <==>
                if oldmem == 0 then Refused(old(Whole()), old(topsize), RequestSize(bytes), adjacent)
                else || bytes >= MAX_REQUEST
                     || (!old(FitsInPlace(Whole(), oldmem - 16, RequestSize(bytes)))
                         && Refused(old(Whole()), old(topsize), RequestSize(bytes), adjacent))
      ensures oldmem != 0 && bytes < MAX_REQUEST && old(FitsInPlace(Whole(), oldmem - 16, RequestSize(bytes))) ==> ptr == oldmem
      ensures top + topsize ==
                if oldmem != 0 && (bytes >= MAX_REQUEST || old(FitsInPlace(Whole(), oldmem - 16, RequestSize(bytes))))
                then old(top + topsize) else EndAfter(old(Whole()), old(topsize), RequestSize(bytes), adjacent)
    {
      hide HeapInv, SizeOf, Live, Moved, TagsSame, LiveKept, Rd, SameWords, Allocated, Resized, FitsInPlace, RequestSize,
           RequestToSize, Serves, NothingFree, SystemGrants, Reallocated, Refits, VictimGrows, Relocated;
      ghost var h := Whole();
      ptr := 0;
      if oldmem == 0 {
        ptr := Malloc(bytes, adjacent);
      } else if bytes >= MAX_REQUEST {
      } else {
        var nb := RequestToSize(bytes);
        UsualSize(bytes);
        var oldp := oldmem - 16;
        LiveChunk(h, oldp);
        var newp := TryReallocChunk(oldp, nb);
        if newp != 0 {
          ptr := newp + 16;
          InPlaceIsRealloc(h, Whole(), oldp, nb);
        } else {
          ptr := Malloc(bytes, adjacent);
          if ptr != 0 {
            ghost var h1 := Whole();
            var oc := SizeOf(mem, oldp) - 8;
            MovingRealloc(h, h1, oldp, ptr - 16, bytes);
            CopyWords(ptr, oldmem, if oc < bytes then oc else bytes);
            ghost var h2 := Whole();
            CopiedStillLive(h, h1, h2, oldp, ptr - 16, nb);
            Free(oldmem);
            GrowsFirst(h1, h2, Whole());
            RelocatedSo(h, h1, Whole(), nb, ptr - 16);
            ReallocatedByMoving(h, h1, h2, Whole(), oldp, ptr - 16, nb);
          }
        }
      }
    }

    /* ------------------------- memalign ------------------------- */

    /** The leader of a misaligned block is given back. */
    method GiveBackLeader(p: nat, newp: nat)
      requires Valid() && p in Live(Whole()) && p + MIN_CHUNK <= newp && newp + MIN_CHUNK <= p + SizeOf(mem, p) && Aligned(newp - p)
      modifies this
      ensures Valid() && top + topsize == old(top + topsize) && Moved(old(Whole()), Whole(), {p}, {newp})
      ensures newp !in old(Live(Whole())) && SizeOf(mem, newp) == old(SizeOf(mem, p)) - (newp - p) && VictimGrows(old(Whole()), Whole())
    {
      hide HeapInv, SizeOf, LiveKept, Live, Moved, SetInuse, Aligned, Binned, Cinuse, Pinuse, FreeOf, LiveOf, Run, Border;
      ghost var h := Whole();
      LiveChunk(h, p);
      ghost var size := SizeOf(mem, p);
      var leadsize := newp - p;
      var newsize := SizeOf(mem, p) - leadsize;
      InsideNotLive(h, p, leadsize, size, {p});
      mem := SetInuse(mem, newp, newsize);
      mem := SetInuse(mem, p, leadsize);
      InuseSplit(h, mem, p, leadsize, size, {p});
      chunks := chunks - {p} + {p, newp};
      ghost var h1 := Whole();
      MovedNew(h, h1, {p}, {p, newp});
      DisposeChunk(p, leadsize);
      GrowsFirst(h, h1, Whole());
      CutSize(h1, Whole(), newp, p);
      LeaderGone(h, h1, Whole(), p, newp);
    }

    /** The power of two that is used as the alignment. */
    method RoundAlignment(alignment: nat) returns (a: nat)
      requires alignment <= 0x8000_0000_0000_0000
      ensures a == AlignmentFor(alignment)
    {
      a := if alignment < MIN_CHUNK then MIN_CHUNK else alignment;
      if !PowerOfTwo(a) {
        var b := MIN_CHUNK;
        while b < a
          invariant b > 0 && Doubled(a, b) == Doubled(a, MIN_CHUNK)
          decreases a - b
        {
          b := 2 * b;
        }
        a := b;
      }
    }

    /** An aligned chunk of nb bytes is cut out of the chunk `chunk`; the rest is given back at
        both ends. */
    method AlignWithin(chunk: nat, nb: nat, a: nat) returns (p: nat)
      requires Valid() && chunk in Live(Whole()) && Aligned(nb) && nb >= MIN_CHUNK && Aligned(a) && a >= MIN_CHUNK
      requires SizeOf(mem, chunk) >= nb + a + MIN_CHUNK
      modifies this
      ensures Valid() && (p + 16) % a == 0 && p !in old(Live(Whole())) - {chunk} && top + topsize == old(top + topsize)
      ensures Moved(old(Whole()), Whole(), {chunk}, {p}) && nb <= SizeOf(mem, p) <= nb + MIN_CHUNK
      ensures p == AlignedPlace(chunk, a) && VictimGrows(old(Whole()), Whole())
      ensures var room := chunk + old(SizeOf(mem, chunk)) - p; SizeOf(mem, p) == if room > nb + MIN_CHUNK then nb else room
    {
      hide VictimGrows, HeapInv, SizeOf, LiveKept, Live, Moved, Aligned, Binned, Cinuse, Pinuse, FreeOf, LiveOf, Run, Border, Resized, AlignUp;
      ghost var h := Whole();
      p := chunk;
      LiveChunk(h, p);
      MovedToItself(h, p);
      if (p + 16) % a != 0 {  // misaligned
        AlignedSpot(p, SizeOf(mem, p), nb, a);
        var br := AlignUp(p + 16, a) - 16;
        var pos := if br - p >= MIN_CHUNK then br else br + a;
        GiveBackLeader(p, pos);
        p := pos;
      } else {
        GrowsNot(h, {}, h);
      }
      ghost var h2 := Whole();
      StillLiveNew(h, h2, chunk, p);
      LiveChunk(h2, p);
      if SizeOf(mem, p) > nb + MIN_CHUNK {
        CutInuse(p, nb, SizeOf(mem, p), {p});
        GrowsThen(h, h2, Whole());
        ResizedMoved(h, h2, Whole(), chunk, p, nb);
      }
    }

    /** `internal_memalign`.  For an alignment above 2^63 that is not a power of two the doubling
        loop of the code would wrap to 0 and not end. */
    method Memalign(alignment: nat, bytes: nat, adjacent: bool) returns (ptr: nat)
      requires Valid() && bytes < WORD_LIMIT && alignment <= 0x8000_0000_0000_0000
      modifies this
      ensures Valid()
      ensures ptr == 0 ==> Whole() == old(Whole())
      ensures ptr == 0 <==> var a := AlignmentFor(alignment);
                            || bytes + a >= MAX_REQUEST
                            || Refused(old(Whole()), old(topsize), RequestSize(RequestToSize(bytes) + a + MIN_CHUNK - 8), adjacent)
      ensures ptr != 0 ==> ptr >= 16 && AlignedFor(old(Whole()), Whole(), ptr - 16, AlignmentFor(alignment), RequestToSize(bytes))
      ensures ptr != 0 ==> CutAligned(old(Whole()), Whole(), ptr - 16, AlignmentFor(alignment), RequestToSize(bytes))
      ensures top + topsize ==
                var a := AlignmentFor(alignment);
                if bytes + a >= MAX_REQUEST then old(top + topsize)
                else EndAfter(old(Whole()), old(topsize), RequestSize(RequestToSize(bytes) + a + MIN_CHUNK - 8), adjacent)
    {
      hide HeapInv, SizeOf, LiveKept, Live, Moved, Aligned, Binned, Serves, NothingFree, SystemGrants, RequestSize, RequestToSize,
           PowerOfTwo, AlignmentFor, Doubled, Allocated, AlignedFor, CutAligned, VictimGrows;
      ghost var h := Whole();
      AlignmentBounds(alignment);
      var a := RoundAlignment(alignment);
      ptr := 0;
      if bytes + a < MAX_REQUEST {
        AlignedRequest(bytes, a);
        var nb := RequestToSize(bytes);
        var req := nb + a + MIN_CHUNK - 8;
        ptr := Malloc(req, adjacent);
        if ptr != 0 {
          ghost var h1 := Whole();
          NewChunk(h, h1, RequestSize(req), ptr - 16);
          ghost var chunk: nat := ptr - 16;
          var p := AlignWithin(ptr - 16, nb, a);
          NewAligned(h, h1, Whole(), chunk, p, a, nb);
          CutAlignedSo(h, h1, Whole(), chunk, p, a, nb);
          ptr := p + 16;
        }
      }
    }

    /* ------------------------- bulk free ------------------------- */

    /** `internal_bulk_free`: the same chunks cease to be live as if each were freed by itself. */
    method BulkFree(ptrs: array<nat>)
      requires Valid() && PtrsOk(ptrs[..]) && PtrChunks(ptrs[..]) <= Live(Whole())
      modifies this, ptrs
      ensures Valid() && Moved(old(Whole()), Whole(), PtrChunks(old(ptrs[..])), {}) && top + topsize == old(top + topsize)
      ensures VictimGrows(old(Whole()), Whole())
      ensures forall i | 0 <= i < ptrs.Length :: ptrs[i] == 0
    {
      hide VictimGrows, HeapInv, SizeOf, LiveKept, Live, Moved, SetInuse, Aligned, Binned, Cinuse, FreeOf, LiveOf, Run, Border, PtrChunks, PtrsOk;
      ghost var h := Whole();
      GrowsNot(h, {}, h);
      ghost var all := PtrChunks(ptrs[..]);
      BulkStart(h, all);
      var a := 0;
      assert ptrs[0..] == ptrs[..];
      while a != ptrs.Length
        invariant 0 <= a <= ptrs.Length && Valid() && top + topsize == old(top + topsize)
        invariant PtrsOk(ptrs[a..]) && PtrChunks(ptrs[a..]) <= all && Moved(h, Whole(), all, PtrChunks(ptrs[a..]))
        invariant VictimGrows(h, Whole())
        invariant forall i | 0 <= i < a :: ptrs[i] == 0
        decreases ptrs.Length - a
      {
        ghost var s := ptrs[a..];
        ghost var h1 := Whole();
        assert s[1..] == ptrs[a + 1..];
        RestIsLive(h, h1, all, PtrChunks(s));
        var ptr := ptrs[a];
        if ptr != 0 {
          FirstFreed(s);
          var p := ptr - 16;
          var psize := SizeOf(mem, p);
          ptrs[a] := 0;
          var next := p + psize;
          if a + 1 != ptrs.Length && ptrs[a + 1] == next + 16 {  // merge with next chunk
            FirstJoined(s);
            Neighbours(h1, p, next);
            var newsize := SizeOf(mem, next) + psize;
            InuseRun(h1, p, newsize, {p, next});
            mem := SetInuse(mem, p, newsize);
            chunks := chunks - {p, next} + {p};
            ptrs[a + 1] := ptr;
            GrowsLast(h, h1, Whole());
            assert ptrs[a + 1..] == s[1..][0 := s[0]];
            BulkMoved(h, h1, Whole(), all, PtrChunks(s), {p, next}, {p});
            assert PtrChunks(s) - {p, next} + {p} == PtrChunks(ptrs[a + 1..]);
          } else {
            DisposeChunk(p, psize);
            GrowsThen(h, h1, Whole());
            assert ptrs[a + 1..] == s[1..];
            BulkMoved(h, h1, Whole(), all, PtrChunks(s), {p}, {});
            assert PtrChunks(s) - {p} + {} == PtrChunks(ptrs[a + 1..]);
          }
        } else {
          NullFirst(s);
        }
        a := a + 1;
      }
      assert ptrs[a..] == [];
      NoPtrs();
    }

    /* ------------------------- ialloc ------------------------- */

    /** The loop of `ialloc`: the `room` bytes at `first` are split into n elements, and the
        pointers to them stored in `given` or, without that, in the array at `marray`.  Sizes and
        addresses are words; `fits` says that the elements fit in the room.  A common size that has
        wrapped to 0 makes the code read sizes that it was not given. */
    method SplitOut(first: nat, room: nat, n: nat, sizes: seq<nat>, same: bool, elementSize: nat, given: array?<nat>, marray: nat,
                    ghost h: Shape, ghost arr: set<nat>, ghost fence: nat, ghost fits: bool)
      requires n > 0 && (if same then |sizes| > 0 else |sizes| >= n) && (given != null ==> given.Length >= n)
      requires elementSize == if same then WordSize(sizes[0]) else 0
      requires first < WORD_LIMIT && room < WORD_LIMIT
      requires fits ==> Halfway(h, Whole(), first, room, ElementSizes(n, sizes, same), 0, 0, first, room, arr, marray, fence, given == null)
      modifies this`mem, this`chunks, if given == null then {} else {given}
      ensures fits ==> Valid() && AllSplit(h, Whole(), first, ElementSizes(n, sizes, same), first + room, arr)
      ensures fits && given == null ==> OwnArray(mem, first, ElementSizes(n, sizes, same), n, arr, marray, fence)
      ensures given != null ==> Pointers(given[..], first, n, sizes, same)
    {
      hide HeapInv, Halfway, OwnArray, ElementAt, SumTo, RequestToSize, WordSize, SetSizeOfInuse, ElementSizes, AllSplit, Laid, Live,
           PointersTo, Pointers;
      ghost var s := ElementSizes(n, sizes, same);
      ghost var own, regular := given == null, same ==> elementSize != 0;
      ElementFacts(s, n, sizes, same);
      FirstLaid(first, s);
      var p: nat, remainder: nat, i: nat := first, room, 0;
      if given != null { NoPointersYet(given[..], first, s, regular); }
      while true
        invariant i < n && p < WORD_LIMIT && remainder < WORD_LIMIT
        invariant fits ==> Halfway(h, Whole(), first, room, s, i, i, p, remainder, arr, marray, fence, own)
        invariant (i == 0 ==> p == first) && (regular ==> p == Laid(first, s, i))
        invariant given != null ==> PointersTo(given[..], first, s, i, regular)
        decreases n - i
      {
        StorePointer(i, p, n, given, marray, h, first, room, s, remainder, arr, fence, fits, regular);
        if i != n - 1 {
          var size := elementSize;
          if elementSize == 0 {
            var bytes: nat := *;
            if i < |sizes| { bytes := sizes[i]; }
            size := WordSize(bytes);
          }
          WordOfSize(s, i, n, sizes, same);
          if fits { HalfwayCut(h, Whole(), first, room, s, i, p, remainder, arr, marray, fence, own); }
          NextLaid(first, s, i);
          remainder := SubWrap(remainder, size);
          mem := SetSizeOfInuse(mem, p, size);
          chunks := chunks + {p + size};
          p := (p + size) % WORD_LIMIT;
          i := i + 1;
        } else {
          if fits { HalfwayDone(h, Whole(), first, room, s, p, remainder, arr, marray, fence, own); }
          mem := SetSizeOfInuse(mem, p, remainder);
          break;
        }
      }
      if given != null { AllPointers(given[..], first, n, sizes, same, regular); }
    }

    /** `marray[i] = chunk2mem(p)`, in the array that was given or in the allocator's own. */
    method StorePointer(i: nat, p: nat, n: nat, given: array?<nat>, marray: nat, ghost h: Shape, ghost first: nat, ghost room: nat,
                        ghost s: seq<nat>, ghost remainder: nat, ghost arr: set<nat>, ghost fence: nat, ghost fits: bool,
                        ghost regular: bool)
      requires i < n == |s| && p < WORD_LIMIT && (given != null ==> given.Length >= n)
      requires (i == 0 ==> p == first) && (regular ==> p == Laid(first, s, i))
      requires fits ==> Halfway(h, Whole(), first, room, s, i, i, p, remainder, arr, marray, fence, given == null)
      requires given != null ==> PointersTo(given[..], first, s, i, regular)
      modifies this`mem, if given == null then {} else {given}
      ensures fits ==> Halfway(h, Whole(), first, room, s, i, i + 1, p, remainder, arr, marray, fence, given == null)
      ensures fits ==> s[i] <= remainder && p + remainder < WORD_LIMIT
      ensures given != null ==> PointersTo(given[..], first, s, i + 1, regular)
    {
      hide HeapInv, Halfway, Laid, PointersTo;
      if fits { HalfwayRoom(h, Whole(), first, room, s, i, i, p, remainder, arr, marray, fence, given == null); }
      var x := (p + 16) % WORD_LIMIT;
      if given != null {
        if fits { HalfwayGiven(h, Whole(), first, room, s, i, p, remainder, arr, marray, fence); }
        ghost var before := given[..];
        given[i] := x;
        PointerStored(before, given[..], first, s, i, regular, x);
      } else {
        if fits { HalfwayStored(h, Whole(), first, room, s, i, p, remainder, arr, marray, fence); }
        mem := mem[marray + 8 * i := x];
      }
    }

    /** `ialloc`, without the clearing of the elements, for all sizes.  The code does not check the
        total: `got` is the heap with the chunk `p` that malloc has returned. */
    method Ialloc(n: nat, sizes: seq<nat>, same: bool, given: array?<nat>, adjacent: bool)
      returns (ok: bool, marray: nat, ghost got: Shape, ghost p: nat)
      requires Valid() && (n > 0 ==> if same then |sizes| > 0 else |sizes| >= n) && (given != null ==> given.Length >= n)
      modifies this, if given == null then {} else {given}
      ensures !ok ==> Whole() == old(Whole())
      ensures n == 0 && given != null ==> ok && Whole() == old(Whole())
      ensures n == 0 && given == null ==>
                && (ok <==> !Refused(old(Whole()), old(topsize), MIN_CHUNK, adjacent))
                && (ok ==> && Valid() && marray >= 16 && Allocated(old(Whole()), Whole(), MIN_CHUNK, marray - 16)
                           && Serves(old(Whole()), MIN_CHUNK, marray - 16))
      ensures n > 0 ==> (ok <==> !Refused(old(Whole()), old(topsize), RequestSize(AskedWord(n, sizes, same, given == null)), adjacent))
      ensures ok && n > 0 ==>
                && Allocated(old(Whole()), got, RequestSize(AskedWord(n, sizes, same, given == null)), p)
                && Serves(old(Whole()), RequestSize(AskedWord(n, sizes, same, given == null)), p)
                && Got(got, p, n, sizes, same, given == null)
                && Whole() == got.(mem := mem, chunks := chunks)
      ensures ok && n > 0 && given != null ==> Pointers(given[..], p, n, sizes, same)
      ensures n > 0 ==>
                top + topsize == EndAfter(old(Whole()), old(topsize), RequestSize(AskedWord(n, sizes, same, given == null)), adjacent)
      ensures ok && n > 0 && Total(n, sizes, same, given == null) < WORD_LIMIT ==>
                AllDelivered(old(Whole()), got, p, Whole(), n, sizes, same, given == null, marray)
    {
      hide HeapInv, Live, Moved, RequestSize, AskedWord, Allocated, Serves, NothingFree, SystemGrants, Got, Pointers, AllDelivered, Total;
      ok, marray, got, p := true, 0, Whole(), 0;
      if n == 0 {
        if given == null {
          marray := Malloc(0, adjacent);
          SmallestRequest();
          ok := marray != 0;
        }
        return;
      }
      ok, marray, got, p := SplitAggregate(n, sizes, same, given, adjacent);
    }

    /** The part of `ialloc` for at least one element. */
    method SplitAggregate(n: nat, sizes: seq<nat>, same: bool, given: array?<nat>, adjacent: bool)
      returns (ok: bool, marray: nat, ghost got: Shape, ghost p: nat)
      requires n > 0 && Valid() && (if same then |sizes| > 0 else |sizes| >= n) && (given != null ==> given.Length >= n)
      modifies this, if given == null then {} else {given}
      ensures !ok ==> Whole() == old(Whole())
      ensures ok <==> !Refused(old(Whole()), old(topsize), RequestSize(AskedWord(n, sizes, same, given == null)), adjacent)
      ensures ok ==> Allocated(old(Whole()), got, RequestSize(AskedWord(n, sizes, same, given == null)), p)
      ensures ok ==> Serves(old(Whole()), RequestSize(AskedWord(n, sizes, same, given == null)), p)
      ensures ok ==> Got(got, p, n, sizes, same, given == null) && Whole() == got.(mem := mem, chunks := chunks)
      ensures ok && given != null ==> Pointers(given[..], p, n, sizes, same)
      ensures top + topsize == EndAfter(old(Whole()), old(topsize), RequestSize(AskedWord(n, sizes, same, given == null)), adjacent)
      ensures ok && Total(n, sizes, same, given == null) < WORD_LIMIT ==>
                AllDelivered(old(Whole()), got, p, Whole(), n, sizes, same, given == null, marray)
    {
      hide HeapInv, SizeOf, Live, Moved, Aligned, Cinuse, Pinuse, Cut, SumTo, SystemGrants, RequestToSize, RequestSize, SetSizeOfInuse,
           ElementSizes, AllSplit, Allocated, Serves, NothingFree, Halfway, OwnArray, Got, Pointers, AllDelivered, Total, WordSize;
      ghost var h := Whole();
      ghost var own := given == null;
      ok, marray, got, p := true, 0, h, 0;
      var arraySize := if given != null then 0 else WordSize(8 * n % WORD_LIMIT);
      var elementSize, contents := AddUp(n, sizes, same);
      var size := (contents + arraySize) % WORD_LIMIT;
      var ptr := Malloc(SubWrap(size, 8), adjacent);
      if ptr == 0 { return false, 0, h, 0; }
      got, p := Whole(), ptr - 16;
      FreshChunk(h, got, RequestSize(AskedWord(n, sizes, same, own)), p);
      GotIt(h, got, p, n, sizes, same, own);
      marray := SplitChunk(ptr - 16, n, sizes, same, elementSize, contents, given, h);
    }

    /** And once malloc has returned the chunk for all of it. */
    method SplitChunk(first: nat, n: nat, sizes: seq<nat>, same: bool, elementSize: nat, contents: nat, given: array?<nat>, ghost h: Shape)
      returns (marray: nat)
      requires n > 0 && Valid() && (if same then |sizes| > 0 else |sizes| >= n) && (given != null ==> given.Length >= n)
      requires elementSize == if same then WordSize(sizes[0]) else 0
      requires contents == SumTo(ElementSizes(n, sizes, same), n) % WORD_LIMIT
      requires first !in Live(h) && Moved(h, Whole(), {}, {first}) && Pinuse(mem, first) && first + SizeOf(mem, first) < WORD_LIMIT
      requires SizeOf(mem, first) >= RequestSize(AskedWord(n, sizes, same, given == null))
      modifies this`mem, this`chunks, if given == null then {} else {given}
      ensures given != null ==> Pointers(given[..], first, n, sizes, same)
      ensures Total(n, sizes, same, given == null) < WORD_LIMIT ==>
                AllDelivered(h, old(Whole()), first, Whole(), n, sizes, same, given == null, marray)
    {
      hide HeapInv, SizeOf, Live, Moved, Pinuse, SumTo, RequestSize, SetSizeOfInuse, ElementSizes, AllSplit, Halfway, OwnArray, Pointers,
           AllDelivered, Total, WordSize, AskedWord;
      marray := 0;
      ghost var got := Whole();
      var remainder := SizeOf(mem, first);
      ghost var fits := Total(n, sizes, same, given == null) < WORD_LIMIT;
      if given == null {
        var a := (first + contents) % WORD_LIMIT;
        var rest := SubWrap(remainder, contents);
        if fits { OwnStarts(h, got, first, n, sizes, same, a, contents, rest); }
        mem := SetSizeOfInuse(mem, a, rest);
        chunks := chunks + {a};
        marray := a + 16;
        SplitOut(first, contents, n, sizes, same, elementSize, null, marray, h, {a}, first + SizeOf(got.mem, first), fits);
        if fits { Delivered(h, got, first, Whole(), n, sizes, same, true, marray); }
      } else {
        if fits { GivenStarts(h, got, first, n, sizes, same); }
        SplitOut(first, remainder, n, sizes, same, elementSize, given, 0, h, {}, 0, fits);
        if fits { Delivered(h, got, first, Whole(), n, sizes, same, false, 0); }
      }
    }

    /** The size of all elements, in words, and of each one if they have a common size. */
    method AddUp(n: nat, sizes: seq<nat>, same: bool) returns (elementSize: nat, contents: nat)
      requires n > 0 && if same then |sizes| > 0 else |sizes| >= n
      ensures elementSize == if same then WordSize(sizes[0]) else 0
      ensures contents == SumTo(ElementSizes(n, sizes, same), n) % WORD_LIMIT
    {
      hide SumTo, RequestToSize, ElementSizes;
      ghost var s := ElementSizes(n, sizes, same);
      ElementFacts(s, n, sizes, same);
      elementSize, contents := 0, 0;
      if same {  // all-same-size
        elementSize := WordSize(sizes[0]);
        contents := n * elementSize % WORD_LIMIT;
        SumSame(s, RequestToSize(sizes[0]), n);
        MulMod(n, RequestToSize(sizes[0]));
      } else {   // add up all the sizes
        var i: nat := 0;
        SumNone(s);
        while i != n
          invariant i <= n && contents == SumTo(s, i) % WORD_LIMIT
          decreases n - i
        {
          AddSize(s, i);
          contents := (contents + WordSize(sizes[i])) % WORD_LIMIT;
          i := i + 1;
        }
      }
    }

    /** A wrapped total: for two elements of 2^63 bytes malloc is asked for 24 bytes and serves them,
        and the elements do not lie in what it returns. */
    method WrappedIalloc(given: array<nat>) returns (ghost got: Shape, ghost p: nat)
      requires Valid() && given.Length == 2 && topsize > MIN_CHUNK
      modifies this, given
      ensures HeapInv(got, {}) && Allocated(old(Whole()), got, MIN_CHUNK, p) && given[0] == (p + 16) % WORD_LIMIT
      ensures !AllInside(got, p, ElementSizes(2, [0x8000_0000_0000_0000, 0x8000_0000_0000_0000], false))
    {
      hide HeapInv, AllInside, Allocated, ElementSizes, AskedWord, Total, NothingFree, SystemGrants, AllDelivered, Live;
      TwoHalves(false);
      var ok, marray;
      ok, marray, got, p := Ialloc(2, [0x8000_0000_0000_0000, 0x8000_0000_0000_0000], false, given, false);
      InsideIfFits(got, p, 2, [0x8000_0000_0000_0000, 0x8000_0000_0000_0000], false, false);
    }

    /* ------------------------- initialization, traversal, use ------------------------- */

    /** First-time initialization in `sys_alloc`: `init_bins` and `init_top` over the region that
        the system has handed out, whole granules at a page border. */
    constructor (tbase: nat, tsize: nat)
      requires FLOOR <= tbase && Aligned(tbase) && tsize > 0 && tsize % GRANULARITY == 0 && tbase + tsize <= SIZE_LIMIT
      ensures Valid() && Live(Whole()) == {} && top == base == tbase && topsize == tsize - TOP_FOOT_SIZE
    {
      base := tbase;
      smallmap, treemap := 0, 0;
      dv, dvsize := 0, 0;
      chunks := {};
      smalls, trees := NoLists(), NoTrees();
      mem := map[];
      top, topsize := 0, 0;
      new;
      hide HeapInv, Live, Aligned, Rd, NoLists, NoTrees;
      InitBins();
      RegionAligned(tsize);
      InitTop(tbase, tsize - TOP_FOOT_SIZE);
      assert Whole().end - Whole().base == tsize - TOP_FOOT_SIZE;
      EmptyHeap(Whole());
    }

    /** `init_top`: top takes the whole region, with the fixed overhead behind it. */
    method InitTop(p: nat, psize: nat)
      requires p >= FLOOR && Aligned(p) && psize > 0 && forall w | w in mem :: w < GM + 600
      modifies this`top, this`topsize, this`mem
      ensures top == p && topsize == psize && Head(mem, p) == psize + 1
      ensures forall i | 0 <= i < 32 :: Rd(mem, TreeBinAt(i)) == 0
    {
      NoTreeHeads(mem, p + 8, psize + 1, p + psize + 8, TOP_FOOT_SIZE);
      top, topsize := p, psize;
      mem := mem[p + 8 := psize + 1];
      mem := mem[p + psize + 8 := TOP_FOOT_SIZE];
    }

    /** `init_bins`: every smallbin is a ring of its header alone, and nothing else is written. */
    method InitBins()
      requires mem == map[]
      modifies this`mem
      ensures forall w | w in mem :: w < GM + 600
      ensures forall j {:trigger SmallBinAt(j)} | 0 <= j < 32 :: Fd(mem, SmallBinAt(j)) == SmallBinAt(j) == Bk(mem, SmallBinAt(j))
    {
      var i := 0;
      while i < 32
        invariant i <= 32
        invariant forall w | w in mem :: w < GM + 600
        invariant forall j {:trigger SmallBinAt(j)} | 0 <= j < i :: Fd(mem, SmallBinAt(j)) == SmallBinAt(j) == Bk(mem, SmallBinAt(j))
      {
        mem := mem[SmallBinAt(i) + 16 := SmallBinAt(i)][SmallBinAt(i) + 24 := SmallBinAt(i)];
        i := i + 1;
      }
    }

    /** A store by the owner of a live block. */
    method StoreWord(ptr: nat, i: nat, x: nat)
      requires Valid() && ptr >= 16 && ptr - 16 in Live(Whole()) && 8 * i + 16 <= SizeOf(mem, ptr - 16)
      modifies this`mem
      ensures Valid() && Moved(old(Whole()), Whole(), {ptr - 16}, {ptr - 16}) && SizeOf(mem, ptr - 16) == old(SizeOf(mem, ptr - 16))
      ensures Whole() == old(Whole()).(mem := old(mem)[ptr + 8 * i := x])
      ensures forall j :: Word(mem, ptr, j) == if j == i then x else old(Word(mem, ptr, j))
    {
      hide HeapInv, SizeOf, Live, Moved, TagsSame;
      PayloadWrite(Whole(), ptr - 16, ptr + 8 * i, x);
      mem := mem[ptr + 8 * i := x];
    }

    /** `traverse_and_check`: it visits every chunk of the segment once and accounts for every
        byte.  Its assertions hold. */
    method TraverseAndCheck() returns (sum: nat, ghost visited: seq<nat>)
      requires Valid()
      ensures sum == top + topsize + TOP_FOOT_SIZE - base
      ensures NoDup(visited) && Elems(visited) == chunks
      ensures forall k | 0 <= k < |visited| :: visited[k] == base + Before(mem, visited, k)
    {
      hide HeapInv, SizeOf, Cinuse, Pinuse, Before, NoDup;
      sum := topsize + TOP_FOOT_SIZE;
      var q := base;
      var lastq: nat := 0;
      visited := [];
      TraversalStart(Whole());
      while q != top
        invariant base <= q <= top && (q in chunks || q == top) && sum == topsize + TOP_FOOT_SIZE + (q - base)
        invariant Elems(visited) == Below(chunks, q) && NoDup(visited)
        invariant q == base + Before(mem, visited, |visited|)
        invariant forall k | 0 <= k < |visited| :: visited[k] == base + Before(mem, visited, k)
        invariant lastq != 0 && q != top ==> lastq in chunks && lastq + SizeOf(mem, lastq) == q
        decreases top - q
      {
        Traversal(Whole(), visited, q);
        var next := q + SizeOf(mem, q);
        if Cinuse(mem, q) {
          assert q !in InBins() && Pinuse(mem, next);
        } else {
          assert q == dv || q in InBins();
          if lastq != 0 {
            FreeNeighbours(Whole(), lastq);
            assert Cinuse(mem, lastq);
          }
          assert !Pinuse(mem, next) && next != top && Cinuse(mem, next) && Foot(mem, next) == SizeOf(mem, q);
        }
        sum := sum + SizeOf(mem, q);
        visited := visited + [q];
        lastq := q;
        q := next;
      }
      AllBelowTop(Whole());
    }
  }

  lemma RegionAligned(tsize: nat)
    requires tsize > 0 && tsize % GRANULARITY == 0
    ensures tsize > TOP_FOOT_SIZE && Aligned(tsize - TOP_FOOT_SIZE)
  {
    hide Aligned;
    var q := tsize / GRANULARITY;
    assert tsize == GRANULARITY * q && q > 0;
    MultipleAligned(4096 * q - 5);
    assert 16 * (4096 * q - 5) == tsize - TOP_FOOT_SIZE;
  }

  function NoLists(): (r: seq<seq<nat>>)
    ensures |r| == 32 && forall i | 0 <= i < 32 :: r[i] == []
  {
    seq(32, _ => [])
  }

  function NoTrees(): (r: seq<Tree>)
    ensures |r| == 32 && forall i | 0 <= i < 32 :: r[i] == Nil
  {
    seq(32, _ => Nil)
  }

  /** The treebin headers are still null once top has its tags. */
  lemma NoTreeHeads(m: Mem, a: nat, x: nat, b: nat, y: nat)
    requires (forall w | w in m :: w < GM + 600) && a >= FLOOR && b >= FLOOR
    ensures forall i | 0 <= i < 32 :: Rd(m[a := x][b := y], TreeBinAt(i)) == 0
  {
  }

  /** No chunk below top, all bins empty. */
  lemma EmptyHeap(h: Shape)
    requires h.chunks == {} && h.base == h.top && FLOOR <= h.base && Aligned(h.base) && h.base < h.end <= SIZE_LIMIT
    requires Aligned(h.end - h.base) && Head(h.mem, h.top) == h.end - h.top + 1
    requires h.smallmap == 0 && h.treemap == 0 && h.dv == 0 && h.dvsize == 0
    requires |h.smalls| == |h.trees| == 32 && forall i | 0 <= i < 32 :: h.smalls[i] == [] && h.trees[i] == Nil
    requires forall i | 0 <= i < 32 :: Rd(h.mem, TreeBinAt(i)) == 0
    ensures HeapInv(h, {}) && Live(h) == {}
  {
    forall j: nat ensures !Marked(0, j) { ZeroUnmarked(j); }
    hide Marked, TreeIndex;
    assert BinSet(h) == {};
  }

  /** The sizes of the chunks before position k. */
  ghost function Before(m: Mem, s: seq<nat>, k: nat): nat
    requires k <= |s|
  {
    if k == 0 then 0 else Before(m, s, k - 1) + SizeOf(m, s[k - 1])
  }

  lemma TraversalStart(h: Shape)
    requires HeapInv(h, {})
    ensures h.base in h.chunks || h.base == h.top
    ensures Elems([]) == Below(h.chunks, h.base) && h.base <= h.top && NoDup([]) && Before(h.mem, [], 0) == 0
  {
    forall a | a in h.chunks ensures a >= h.base { ChunkOkOf(h, a); }
  }

  lemma {:induction false} BeforeAppend(m: Mem, s: seq<nat>, x: nat, k: nat)
    requires k <= |s|
    ensures Before(m, s + [x], k) == Before(m, s, k)
  {
    if k > 0 { BeforeAppend(m, s, x, k - 1); }
  }

  /** One step of the traversal. */
  lemma Traversal(h: Shape, visited: seq<nat>, q: nat)
    requires HeapInv(h, {}) && q in h.chunks && Elems(visited) == Below(h.chunks, q) && NoDup(visited)
    ensures var next := q + SizeOf(h.mem, q); q < next <= h.top && (next in h.chunks || next == h.top)
    ensures Elems(visited + [q]) == Below(h.chunks, q + SizeOf(h.mem, q)) && NoDup(visited + [q])
    ensures if Cinuse(h.mem, q) then q !in BinSet(h) && Pinuse(h.mem, q + SizeOf(h.mem, q))
            else (q == h.dv || q in BinSet(h))
                 && var next := q + SizeOf(h.mem, q);
                    !Pinuse(h.mem, next) && next != h.top && Cinuse(h.mem, next) && Foot(h.mem, next) == SizeOf(h.mem, q)
    ensures Before(h.mem, visited + [q], |visited| + 1) == Before(h.mem, visited, |visited|) + SizeOf(h.mem, q)
    ensures forall k: nat | k <= |visited| :: Before(h.mem, visited + [q], k) == Before(h.mem, visited, k)
  {
    ChunkFacts(h.mem, h.chunks, h.base, h.top, h.end, q);
    TraversalSets(h, visited, q);
    ChunkOkOf(h, q);
    TopBeforeEnd(h);
    forall k: nat | k <= |visited| ensures Before(h.mem, visited + [q], k) == Before(h.mem, visited, k) {
      BeforeAppend(h.mem, visited, q, k);
    }
    hide Tiled, BinsIntact, SizeOf, Cinuse, Pinuse, Binned;
    assert !Cinuse(h.mem, q) ==> q in Free(h);
  }

  lemma TraversalSets(h: Shape, visited: seq<nat>, q: nat)
    requires Tiled(h) && q in h.chunks && Elems(visited) == Below(h.chunks, q) && NoDup(visited)
    ensures Elems(visited + [q]) == Below(h.chunks, q + SizeOf(h.mem, q)) && NoDup(visited + [q])
  {
    ChunkOkOf(h, q);
    hide SizeOf;
    assert forall a | a in visited :: a in Elems(visited) && a < q;
    NoDupAppend(visited, q);
    forall a | a in Below(h.chunks, q + SizeOf(h.mem, q)) ensures a in Elems(visited + [q]) {
      if a != q { assert a in Elems(visited); }
    }
  }

  lemma NoDupAppend(s: seq<nat>, x: nat)
    requires NoDup(s) && x !in s
    ensures NoDup(s + [x])
  {
  }

  /** No two free chunks are neighbours. */
  lemma FreeNeighbours(h: Shape, a: nat)
    requires HeapInv(h, {}) && a in h.chunks
    ensures !Cinuse(h.mem, a) ==> Cinuse(h.mem, a + SizeOf(h.mem, a))
  {
    ChunkFacts(h.mem, h.chunks, h.base, h.top, h.end, a);
  }

  lemma AllBelowTop(h: Shape)
    requires HeapInv(h, {})
    ensures Below(h.chunks, h.top) == h.chunks
  {
    forall a | a in h.chunks ensures a < h.top { ChunkNotTop(h.mem, h.chunks, h.base, h.top, h.end, a); }
  }

  lemma SmallestRequest()
    ensures RequestSize(0) == MIN_CHUNK
  {
  }

  lemma SumNone(s: seq<nat>)
    ensures SumTo(s, 0) == 0
  {
  }

  lemma FreshChunk(h: Shape, h1: Shape, nb: nat, p: nat)
    requires Allocated(h, h1, nb, p)
    ensures p !in Live(h) && Moved(h, h1, {}, {p}) && Pinuse(h1.mem, p) && SizeOf(h1.mem, p) >= nb
  {
  }

  /** `p` is a new live chunk for nb bytes whose payload is aligned to `a`. */
  ghost predicate AlignedFor(h: Shape, h': Shape, p: nat, a: nat, nb: nat)
    requires a > 0
  {
    (p + 16) % a == 0 && p !in Live(h) && Moved(h, h', {}, {p}) && nb <= SizeOf(h'.mem, p) <= nb + MIN_CHUNK
  }

  /** Where `memalign` puts the block within the chunk: at an aligned payload that leaves nothing or a whole
      chunk in front. */
  function AlignedPlace(chunk: nat, a: nat): int
    requires a > 0
  {
    if (chunk + 16) % a == 0 then chunk
    else
      var br := AlignUp(chunk + 16, a) - 16;
      if br - chunk >= MIN_CHUNK then br else br + a
  }

  /** Malloc has served `chunk`, larger by the alignment and a minimal chunk; the block has been cut out of it and
      the rest freed. */
  ghost predicate CutAlignedBy(h: Shape, h1: Shape, h': Shape, chunk: nat, p: nat, a: nat, nb: nat)
    requires a > 0
  {
    var asked := RequestSize(nb + a + MIN_CHUNK - 8);
    && HeapInv(h1, {}) && Allocated(h, h1, asked, chunk) && Serves(h, asked, chunk) && p == AlignedPlace(chunk, a)
    && (var room := chunk + SizeOf(h1.mem, chunk) - p; SizeOf(h'.mem, p) == if room > nb + MIN_CHUNK then nb else room)
    && VictimGrows(h1, h')
  }

  ghost predicate CutAligned(h: Shape, h': Shape, p: nat, a: nat, nb: nat)
    requires a > 0
  {
    exists h1, chunk :: CutAlignedBy(h, h1, h', chunk, p, a, nb)
  }

  lemma CutAlignedSo(h: Shape, h1: Shape, h': Shape, chunk: nat, p: nat, a: nat, nb: nat)
    requires a > 0 && CutAlignedBy(h, h1, h', chunk, p, a, nb)
    ensures CutAligned(h, h', p, a, nb)
  {
  }

  lemma NoPtrs()
    ensures PtrChunks([]) == {}
  {
  }

  /** malloc has nothing for a request of chunk size nb. */
  ghost predicate Refused(h: Shape, topsize: nat, nb: nat, adjacent: bool) {
    NothingFree(h, nb) && topsize <= nb && !SystemGrants(h, nb, adjacent)
  }

  /** A total of `ialloc` that wraps to 0 is always refused. */
  lemma ZeroTotalRefused(h: Shape, topsize: nat, n: nat, sizes: seq<nat>, same: bool, own: bool, adjacent: bool)
    requires (if same then |sizes| > 0 else |sizes| >= n) && TotalWord(n, sizes, same, own) == 0
    requires HeapInv(h, {}) && h.top + topsize == h.end
    ensures Refused(h, topsize, RequestSize(AskedWord(n, sizes, same, own)), adjacent)
  {
    NothingAsked(n, sizes, same, own);
    DvBelowLimit(h);
    BinsOf(h, {});
    hide AskedWord, TotalWord, NothingFree, BinsIntact, Live;
    HugeSize(h, WORD_LIMIT - 1);
  }

  lemma LeaderGone(h: Shape, h1: Shape, h2: Shape, p: nat, newp: nat)
    requires p in Live(h) && newp !in Live(h) && Moved(h, h1, {p}, {p, newp}) && Moved(h1, h2, {p}, {})
    ensures Moved(h, h2, {p}, {newp})
  {
    hide LiveKept, Cinuse;
    MovedThen(h, h1, h2, {p}, {p, newp}, {p}, {});
    assert {p} + ({p} - {p, newp}) == {p} && {p, newp} - {p} + {} == {newp};
  }

  lemma AlignmentBounds(alignment: nat)
    requires alignment <= 0x8000_0000_0000_0000
    ensures Aligned(AlignmentFor(alignment)) && MIN_CHUNK <= AlignmentFor(alignment) <= 0x8000_0000_0000_0000
  {
    AlignmentIsLeast(alignment);
    PowerAligned(AlignmentFor(alignment));
    TwoTo63();
  }

  lemma StillLiveNew(h: Shape, h2: Shape, chunk: nat, p: nat)
    requires Moved(h, h2, {chunk}, {p})
    ensures p in Live(h2)
  {
  }

  lemma ResizedMoved(h: Shape, h2: Shape, h3: Shape, chunk: nat, p: nat, nb: nat)
    requires chunk in Live(h) && p !in Live(h) - {chunk} && Moved(h, h2, {chunk}, {p}) && Resized(h2, h3, p, nb)
    ensures Moved(h, h3, {chunk}, {p})
  {
    hide LiveKept, Cinuse;
    MovedThen(h, h2, h3, {chunk}, {p}, {p}, {p});
    assert {chunk} + ({p} - {p}) == {chunk} && {p} - {p} + {p} == {p};
  }

  lemma NewChunk(h: Shape, h1: Shape, nb: nat, p: nat)
    requires HeapInv(h1, {}) && Allocated(h, h1, nb, p)
    ensures p in Live(h1) && p !in Live(h) && Moved(h, h1, {}, {p}) && SizeOf(h1.mem, p) >= nb
  {
  }

  lemma NewAligned(h: Shape, h1: Shape, h2: Shape, chunk: nat, p: nat, a: nat, nb: nat)
    requires chunk !in Live(h) && Moved(h, h1, {}, {chunk}) && Moved(h1, h2, {chunk}, {p}) && p !in Live(h1) - {chunk}
    requires a > 0 && (p + 16) % a == 0 && nb <= SizeOf(h2.mem, p) <= nb + MIN_CHUNK
    ensures AlignedFor(h, h2, p, a, nb)
  {
    hide LiveKept, Cinuse, SizeOf;
    MovedThen(h, h1, h2, {}, {chunk}, {chunk}, {p});
    assert {} + ({chunk} - {chunk}) == {} && {chunk} - {chunk} + {p} == {p};
  }

  /** The block at `p` has become the block at `q` (perhaps the same), large enough for nb, with
      the words that both have room for; all other live blocks are as they were. */
  ghost predicate Reallocated(h: Shape, h': Shape, p: nat, q: nat, nb: nat) {
    && p in Live(h) && q !in Live(h) - {p} && Moved(h, h', {p}, {q})
    && nb <= SizeOf(h'.mem, q) < nb + MIN_CHUNK
    && 8 <= Min(SizeOf(h.mem, p), SizeOf(h'.mem, q))
    && SameWords(h.mem, p + 16, h'.mem, q + 16, Min(SizeOf(h.mem, p), SizeOf(h'.mem, q)) - 8)
  }

  /** Malloc has served the chunk `q`, and freeing has followed. */
  ghost predicate RelocatedBy(h: Shape, h1: Shape, h': Shape, nb: nat, q: nat) {
    HeapInv(h1, {}) && Allocated(h, h1, nb, q) && Serves(h, nb, q) && VictimGrows(h1, h')
  }

  ghost predicate Relocated(h: Shape, h': Shape, nb: nat, q: nat) { exists h1 :: RelocatedBy(h, h1, h', nb, q) }

  lemma RelocatedSo(h: Shape, h1: Shape, h': Shape, nb: nat, q: nat)
    requires RelocatedBy(h, h1, h', nb, q)
    ensures Relocated(h, h', nb, q)
  {
  }

  lemma UsualSize(bytes: nat)
    requires bytes < MAX_REQUEST
    ensures RequestSize(bytes) == RequestToSize(bytes) && Aligned(RequestToSize(bytes)) && RequestToSize(bytes) >= MIN_CHUNK
  {
  }

  lemma InPlaceIsRealloc(h: Shape, h': Shape, p: nat, nb: nat)
    requires HeapInv(h, {}) && p in Live(h) && Resized(h, h', p, nb) && nb >= MIN_CHUNK
    ensures Reallocated(h, h', p, p, nb)
  {
    hide HeapInv, SizeOf, Moved, Live;
    LiveChunk(h, p);
    PrefixWords(h.mem, h'.mem, p, Min(SizeOf(h.mem, p), SizeOf(h'.mem, p)));
  }

  /** The old block is smaller than the request, so all of it is copied. */
  lemma MovingRealloc(h: Shape, h1: Shape, p: nat, q: nat, bytes: nat)
    requires HeapInv(h, {}) && p in Live(h) && bytes < MAX_REQUEST && Allocated(h, h1, RequestSize(bytes), q)
    requires !FitsInPlace(h, p, RequestSize(bytes))
    ensures q in Live(h1) && p in Live(h1) && p != q && SizeOf(h1.mem, p) == SizeOf(h.mem, p) && SizeOf(h1.mem, p) >= MIN_CHUNK
    ensures var oc: int := SizeOf(h.mem, p) - 8; oc < bytes && oc % 8 == 0 && oc + 8 <= SizeOf(h1.mem, q)
  {
    LiveChunk(h, p);
    hide HeapInv, SizeOf, Cinuse, Rd;
    assert p in Live(h) - {} && PayloadKept(h.mem, h1.mem, p);
    var s := SizeOf(h.mem, p);
    assert s < RequestSize(bytes);
    SmallerThanRequest(s, bytes);
  }

  lemma SmallerThanRequest(s: nat, bytes: nat)
    requires Aligned(s) && s >= MIN_CHUNK && s < RequestToSize(bytes)
    ensures s - 8 < bytes && (s - 8) % 8 == 0
  {
    hide RequestToSize;
    var nb := RequestToSize(bytes);
    assert s == 16 * (s / 16) && nb == 16 * (nb / 16);
  }

  lemma CopiedStillLive(h: Shape, h1: Shape, h2: Shape, p: nat, q: nat, nb: nat)
    requires p in Live(h) && Allocated(h, h1, nb, q) && Moved(h1, h2, {q}, {q})
    ensures p in Live(h2) && q in Live(h2) && p != q
  {
  }

  lemma ReallocatedByMoving(h: Shape, h1: Shape, h2: Shape, h3: Shape, p: nat, q: nat, nb: nat)
    requires HeapInv(h, {}) && p in Live(h) && Allocated(h, h1, nb, q) && Moved(h1, h2, {q}, {q}) && Moved(h2, h3, {p}, {})
    requires SizeOf(h2.mem, q) == SizeOf(h1.mem, q) && SizeOf(h1.mem, p) == SizeOf(h.mem, p) && SizeOf(h.mem, p) < nb
    requires SizeOf(h.mem, p) >= MIN_CHUNK && SameWords(h1.mem, p + 16, h2.mem, q + 16, SizeOf(h.mem, p) - 8)
    ensures Reallocated(h, h3, p, q, nb)
  {
    CopiedStillLive(h, h1, h2, p, q, nb);
    hide HeapInv, SizeOf, Moved, Live, Rd;
    MovedChain(h, h1, h2, h3, p, q);
    KeptWords(h, h1, {}, {q}, p);
    KeptWords(h2, h3, {p}, {}, q);
  }

  lemma MovedChain(h: Shape, h1: Shape, h2: Shape, h3: Shape, p: nat, q: nat)
    requires p in Live(h) && q !in Live(h) && Moved(h, h1, {}, {q}) && Moved(h1, h2, {q}, {q}) && Moved(h2, h3, {p}, {})
    ensures Moved(h, h3, {p}, {q})
  {
    hide LiveKept, Cinuse;
    MovedThen(h, h1, h2, {}, {q}, {q}, {q});
    assert {} + ({q} - {q}) == {} && {q} - {q} + {q} == {q};
    MovedThen(h, h2, h3, {}, {q}, {p}, {});
    assert {} + ({p} - {q}) == {p} && {q} - {p} + {} == {q};
  }

  lemma MovedToItself(h: Shape, q: nat)
    requires q in Live(h)
    ensures Moved(h, h, {q}, {q})
  {
    assert Live(h) - {q} + {q} == Live(h);
  }

  lemma StillThere(h: Shape, h1: Shape, q: nat)
    requires Moved(h, h1, {q}, {q})
    ensures q in Live(h1)
  {
  }

  lemma MovedTwice(h: Shape, h1: Shape, h2: Shape, q: nat)
    requires q in Live(h) && Moved(h, h1, {q}, {q}) && Moved(h1, h2, {q}, {q})
    ensures Moved(h, h2, {q}, {q})
  {
    hide LiveKept, Cinuse;
    MovedThen(h, h1, h2, {q}, {q}, {q}, {q});
    assert {q} + ({q} - {q}) == {q} && {q} - {q} + {q} == {q};
  }

  lemma NoWords(m: Mem, src: nat, dst: nat)
    ensures SameWords(m, src, m, dst, 0)
  {
  }

  lemma WordAt(m: Mem, m': Mem, src: nat, i: nat, bytes: nat)
    requires SameWords(m, src, m', src, bytes) && 8 * i + 8 <= bytes
    ensures Rd(m', src + 8 * i) == Rd(m, src + 8 * i)
  {
    assert Word(m', src, i) == Word(m, src, i);
  }

  lemma OneMoreWord(m: Mem, m1: Mem, src: nat, dst: nat, i: nat)
    requires SameWords(m, src, m1, dst, 8 * i) && Rd(m1, src + 8 * i) == Rd(m, src + 8 * i)
    ensures SameWords(m, src, m1[dst + 8 * i := Rd(m1, src + 8 * i)], dst, 8 * (i + 1))
  {
    var m' := m1[dst + 8 * i := Rd(m1, src + 8 * i)];
    forall j: nat {:trigger Word(m', dst, j)} | 8 * j + 8 <= 8 * (i + 1) ensures Word(m', dst, j) == Word(m, src, j) {
      if j < i { assert Word(m1, dst, j) == Word(m, src, j); }
    }
  }

  lemma LiveIsUsed(h: Shape, p: nat)
    requires p in Live(h)
    ensures Cinuse(h.mem, p) && p in h.chunks
  {
  }

  lemma StillLive(h: Shape, h1: Shape, p: nat)
    requires p in Live(h) && Moved(h, h1, {}, {})
    ensures p in Live(h1)
  {
  }

  lemma CutSize(h1: Shape, h2: Shape, p: nat, r: nat)
    requires p in Live(h1) && p != r && Moved(h1, h2, {r}, {})
    ensures SizeOf(h2.mem, p) == SizeOf(h1.mem, p)
  {
    assert p in Live(h1) - {r} && PayloadKept(h1.mem, h2.mem, p);
  }

  lemma ResizedBetween(w: Shape, w': Shape, h: Shape, p: nat, nb: nat)
    requires Resized(w, w', p, nb) && h.mem == w.mem && h.chunks == w.chunks
    ensures Resized(h, w', p, nb)
  {
    MovedBetween(w, w', h, w', {p}, {p});
  }

  /** Where the victim is, seen from a run that is about to be freed. */
  ghost predicate Beside(h: Shape, p: nat, len: nat) {
    && 0 < p && p + len <= h.top && (h.dv == p ==> h.dvsize <= len)
    && if h.dv == 0 then h.dvsize == 0 else h.dvsize > 0 && h.dv < h.top && (h.dv <= p || h.dv >= p + len)
  }

  lemma VictimPlace(h: Shape, p: nat, psize: nat, gone: set<nat>, chunk: nat)
    requires RunInHand(h, p, psize, gone, chunk)
    ensures Beside(h, p, psize)
  {
    var loose := FreeOf(h.mem, gone) - DvSet(h.dv);
    VictimIs(h, loose);
    RunEnds(h, loose, p, psize);
    hide HeapInv, SizeOf, FreeOf, LiveOf, Aligned, Pinuse;
  }

  /** The four ways to put a run away, as the victim sees them. */
  lemma GrowsBeside(h: Shape, h': Shape, p: nat, len: nat)
    requires Beside(h, p, len)
    requires || (h'.top == p && p + len == h.top && HasVictim(h', if h.dv == p then 0 else h.dv, if h.dv == p then 0 else h.dvsize))
             || (h'.top == h.top && p + len == h.dv && HasVictim(h', p, h.dvsize + len))
             || (h'.top == h.top && p == h.dv == h'.dv && h'.dvsize >= len)
             || SameVictim(h, h')
    ensures VictimGrows(h, h')
  {
  }

  lemma RunEnds(h: Shape, loose: set<nat>, p: nat, len: nat)
    requires HeapInv(h, loose) && Border(h.chunks, h.top, p, len) && len > 0
    ensures 0 < p && SizeOf(h.mem, p) <= len && p + len <= h.top
  {
    ChunkOf(h, loose, p);
    if p + len in h.chunks { ChunkOf(h, loose, p + len); }
    hide SizeOf, ChunkOk, Sorted, BinsIntact;
  }

  lemma BehindInHand(h: Shape, h1: Shape, p: nat, psize: nat, gone: set<nat>, chunk: nat)
    requires Freeing(h1, p, psize, gone, chunk) && FreeOf(h1.mem, gone) == {p} && HeapInv(h1, {} + {p}) && p != h1.dv
    requires h1.dv == h.dv && HeapInv(h, {}) && chunk in Live(h) && gone == {p, chunk}
    ensures RunInHand(h1, p, psize, gone, chunk)
  {
    hide HeapInv, Cinuse, Freeing;
    DvFactsOf(h, {});
    assert FreeOf(h1.mem, gone) - DvSet(h1.dv) == {} + {p};
    assert h.dv !in gone;
  }

  lemma DvInHand(h: Shape, p: nat, psize: nat, gone: set<nat>, chunk: nat)
    requires Freeing(h, p, psize, gone, chunk) && FreeOf(h.mem, gone) == {p} && HeapInv(h, {}) && p == h.dv && h.dv in Free(h)
    ensures RunInHand(h, p, psize, gone, chunk)
  {
    hide HeapInv, Cinuse, Freeing;
    DvFactsOf(h, {});
    assert FreeOf(h.mem, gone) - DvSet(h.dv) == {};
  }

  lemma AloneInHand(h: Shape, p: nat, psize: nat)
    requires Freeing(h, p, psize, {p}, p) && FreeOf(h.mem, {p}) == {} && HeapInv(h, {}) && p != h.dv
    ensures RunInHand(h, p, psize, {p}, p)
  {
    hide HeapInv, Cinuse, Freeing;
    assert FreeOf(h.mem, {p}) - DvSet(h.dv) == {};
  }

  lemma UsedIsNotTop(h: Shape, next: nat, loose: set<nat>)
    requires HeapInv(h, loose)
    ensures Cinuse(h.mem, next) ==> next != h.top
  {
    TopBeforeEnd(h);
  }

  lemma NextDv(h: Shape, q: nat, len: nat, gone: set<nat>, p: nat)
    requires RunInHand(h, q, len, gone, p) && q + len == h.dv && q + len != h.top
    ensures h.dv !in gone
  {
  }

  lemma NextBinned(h: Shape, q: nat, len: nat, gone: set<nat>, p: nat)
    requires RunInHand(h, q, len, gone, p) && q + len != h.dv && q + len != h.top && !Cinuse(h.mem, q + len)
    ensures q + len in BinSet(h)
  {
    hide HeapInv, Freeing, Cinuse;
    FreeWithin(h, gone);
    AfterRun(h, q, len, gone, p, FreeOf(h.mem, gone) - DvSet(h.dv));
  }

  /** With the bins looked through, the designated victim serves the request or nothing free
      does. */
  ghost predicate DvOrTop(h: Shape, nb: nat) {
    if nb <= h.dvsize then Serves(h, nb, h.dv) && !NothingFree(h, nb) else NothingFree(h, nb)
  }

  lemma SmallEighth(nb: nat)
    requires Aligned(nb)
    ensures nb == 8 * (nb / 8)
  {
  }

  lemma DvTakes(h: Shape, nb: nat)
    requires nb <= h.dvsize && Serves(h, nb, h.dv) && !NothingFree(h, nb)
    ensures DvOrTop(h, nb)
  {
  }

  lemma NoneForSmall(h: Shape, nb: nat)
    requires Fit(h, nb) == {} && h.dvsize < nb
    ensures NothingFree(h, nb) && DvOrTop(h, nb)
  {
  }

  lemma MapFits(h: Shape)
    requires BinsIntact(h)
    ensures MapOk(h.smallmap)
  {
  }

  const TOP_FOOT_SIZE: nat := 80
  const GRANULARITY: nat := 65536

  /** `granularity_align(nb + SYS_ALLOC_PADDING)`, in wrapping arithmetic. */
  function SystemSize(nb: nat): nat {
    ((nb + 96) % WORD_LIMIT + GRANULARITY - 1) % WORD_LIMIT / GRANULARITY * GRANULARITY
  }

  lemma SystemSizeFits(nb: nat)
    requires nb < SystemSize(nb) <= SIZE_LIMIT
    ensures nb + 96 <= SystemSize(nb) && Aligned(SystemSize(nb))
  {
    SmallSystemSize(nb);
    var q := (nb + 96 + GRANULARITY - 1) / GRANULARITY;
    hide SystemSize;
    assert q * GRANULARITY == 16 * (4096 * q);
    MultipleAligned(4096 * q);
  }

  lemma MultipleAligned(q: nat)
    ensures Aligned(16 * q)
  {
  }

  lemma SmallSystemSize(nb: nat)
    requires nb < SIZE_LIMIT
    ensures SystemSize(nb) == (nb + 96 + GRANULARITY - 1) / GRANULARITY * GRANULARITY >= nb + 96
  {
    SmallMod(nb + 96);
    SmallMod(nb + 96 + GRANULARITY - 1);
    GranulesCover(nb + 96);
  }

  lemma GranulesCover(x: nat)
    ensures (x + GRANULARITY - 1) / GRANULARITY * GRANULARITY >= x
  {
  }

  /** The system can extend the segment for a request. */
  predicate SystemGrants(h: Shape, nb: nat, adjacent: bool) {
    adjacent && nb < SystemSize(nb) && h.end + SystemSize(nb) <= SIZE_LIMIT
  }

  /** Where the segment ends after a request: it grows exactly when nothing below its end can serve
      and the system extends it. */
  ghost function EndAfter(h: Shape, topsize: nat, nb: nat, adjacent: bool): nat {
    h.end + if NothingFree(h, nb) && topsize <= nb && SystemGrants(h, nb, adjacent) then SystemSize(nb) else 0
  }

  lemma TopTaken(h: Shape, h1: Shape, h2: Shape, nb: nat)
    requires Tiled(h) && h1.chunks == h.chunks && h1.top == h.top && h2.top == h.top + nb && HasVictim(h2, h.dv, h.dvsize)
    requires h2.smalls == h.smalls && h2.trees == h.trees
    requires Moved(h, h1, {}, {}) && Moved(h1, h2, {}, {h.top}) && SizeOf(h2.mem, h.top) == nb && Pinuse(h2.mem, h.top)
    ensures Allocated(h, h2, nb, h.top)
  {
    MovedFirst(h, h1, h2, {}, {h.top});
  }

  /** Chunk `p`, not live before, is live now with at least nb and less than a minimal chunk
      more, cut from what was free there; nothing else changes for other live chunks. */
  ghost predicate Allocated(h: Shape, h': Shape, nb: nat, p: nat) {
    && p !in Live(h) && nb <= SizeOf(h'.mem, p) < nb + MIN_CHUNK && Pinuse(h'.mem, p) && Moved(h, h', {}, {p})
    && Carved(h, h', nb, p)
  }

  lemma BinnedOff(h: Shape, p: nat)
    requires HeapInv(h, {}) && p in BinSet(h)
    ensures p != h.dv && p != h.top
  {
    assert p in Free(h);
    ChunkNotTop(h.mem, h.chunks, h.base, h.top, h.end, p);
  }

  /** Large chunks are in no list. */
  lemma NoList(h: Shape, p: nat)
    requires BinsIntact(h) && SizeOf(h.mem, p) >= 256
    ensures Popped(h.smalls, SizeOf(h.mem, p)) == h.smalls && FirstOfSize(h.smalls, SizeOf(h.mem, p), p)
  {
    hide SizeOf;
    assert |h.smalls| == 32;
  }

  /** And small ones in no trie. */
  lemma NoTrie(h: Shape, size: nat, p: nat)
    requires size < 256
    ensures Uprooted(h.trees, size, p) == h.trees && MemberOfSize(h.trees, size, p) && Planted(h.trees, size, p) == h.trees
  {
  }

  lemma ListsSplit(h: Shape, nb: nat, p: nat)
    requires p != h.top && p != h.dv && SizeOf(h.mem, p) >= nb + MIN_CHUNK
    ensures var rest := Popped(h.smalls, SizeOf(h.mem, p));
            ListsAfter(h, nb, p) == if nb >= 256 then Pushed(rest, SizeOf(h.mem, p) - nb, p + nb)
                                    else if h.dvsize != 0 then Pushed(rest, h.dvsize, h.dv) else rest
    ensures var left := Uprooted(h.trees, SizeOf(h.mem, p), p);
            TreesAfter(h, nb, p) == if nb >= 256 then Planted(left, SizeOf(h.mem, p) - nb, p + nb) else left
  {
    hide SizeOf, Popped, Pushed, Planted, Uprooted;
  }

  lemma CarvedWhole(h: Shape, h': Shape, nb: nat, p: nat)
    requires HeapInv(h, {}) && p in BinSet(h) && SizeOf(h'.mem, p) == SizeOf(h.mem, p) < nb + MIN_CHUNK && SameVictim(h, h')
    requires h'.smalls == Popped(h.smalls, SizeOf(h.mem, p)) && FirstOfSize(h.smalls, SizeOf(h.mem, p), p)
    requires h'.trees == Uprooted(h.trees, SizeOf(h.mem, p), p) && MemberOfSize(h.trees, SizeOf(h.mem, p), p)
    ensures Carved(h, h', nb, p)
  {
    BinnedOff(h, p);
    hide HeapInv, SizeOf, Binned, Popped, FirstOfSize, Uprooted, MemberOfSize;
  }

  lemma CarvedDv(h: Shape, h': Shape, nb: nat)
    requires HeapInv(h, {}) && h.dv != 0 && h'.top == h.top && h'.smalls == h.smalls && h'.trees == h.trees && SizeOf(h'.mem, h.dv) == Trimmed(h.dvsize, nb)
    requires if h.dvsize >= nb + MIN_CHUNK then HasVictim(h', h.dv + nb, h.dvsize - nb) else HasVictim(h', 0, 0)
    ensures Carved(h, h', nb, h.dv)
  {
    ChunkNotTop(h.mem, h.chunks, h.base, h.top, h.end, h.dv);
    assert SizeOf(h.mem, h.dv) == h.dvsize;
    hide HeapInv, SizeOf;
  }

  lemma Taken(h: Shape, h1: Shape, h2: Shape, nb: nat, p: nat)
    requires HeapInv(h1, {p}) && Moved(h, h1, {}, {}) && Moved(h1, h2, {}, {p})
    requires nb <= SizeOf(h2.mem, p) < nb + MIN_CHUNK && Pinuse(h2.mem, p) && Carved(h, h2, nb, p)
    ensures Allocated(h, h2, nb, p)
  {
    hide Carved;
    assert p in Free(h1);
    assert Live(h1) == Live(h);
    MovedFirst(h, h1, h2, {}, {p});
  }

  lemma TakenThen(h: Shape, h1: Shape, h2: Shape, h3: Shape, nb: nat, p: nat)
    requires HeapInv(h1, {p}) && Moved(h, h1, {}, {}) && Moved(h1, h2, {}, {p}) && Moved(h2, h3, {}, {})
    requires SizeOf(h2.mem, p) == nb && Pinuse(h2.mem, p) && p in h2.chunks && TagsKept(h2.mem, h3.mem, h2.chunks)
    requires SizeOf(h.mem, p) >= nb + MIN_CHUNK && h3.top == h.top != p && h3.smalls == ListsAfter(h, nb, p)
    requires h3.trees == TreesAfter(h, nb, p)
    requires p != h.dv && FirstOfSize(h.smalls, SizeOf(h.mem, p), p) && MemberOfSize(h.trees, SizeOf(h.mem, p), p)
    requires if nb < 256 then HasVictim(h3, p + nb, SizeOf(h.mem, p) - nb) else HasVictim(h3, h.dv, h.dvsize)
    ensures Allocated(h, h3, nb, p)
  {
    hide ListsAfter, TreesAfter, FirstOfSize, MemberOfSize;
    assert p in Free(h1);
    assert Live(h1) == Live(h);
    assert p in Live(h2) - {};
    assert PayloadKept(h2.mem, h3.mem, p);
    MovedFirst(h, h1, h2, {}, {p});
    MovedLast(h, h2, h3, {}, {p});
  }

  lemma DvBelowLimit(h: Shape)
    requires HeapInv(h, {})
    ensures h.dvsize < SIZE_LIMIT
  {
    if h.dv != 0 { ChunkOf(h, {}, h.dv); }
  }

  /** A bin step as its callers see it. */
  lemma BinMoved(h: Shape, h': Shape, loose: set<nat>, loose': set<nat>, b: set<nat>)
    requires HeapInv(h, loose)
    requires h'.chunks == h.chunks && h'.base == h.base && h'.top == h.top && h'.end == h.end
    requires h'.dv == h.dv && h'.dvsize == h.dvsize
    requires BinWrites(h.mem, h'.mem, b) && b <= BinSet(h) + loose
    requires BinsInv(h'.mem, h'.smallmap, h'.treemap, h'.smalls, h'.trees, h'.chunks)
    requires BinSet(h') + loose' == BinSet(h) + loose && loose' !! BinSet(h')
    ensures HeapInv(h', loose') && Moved(h, h', {}, {}) && TagsKept(h.mem, h'.mem, h.chunks)
  {
    hide HeapInv, BinsOk, Layout, Binned, BinWrites, LiveKept, TagsKept, Live;
    MoreWrites(h.mem, h'.mem, b, BinSet(h) + loose);
    BinStep(h, h', loose, loose');
    assert Live(h) - {} == Live(h) && Live(h) - {} + {} == Live(h);
  }

  lemma MoreWrites(m: Mem, m': Mem, b: set<nat>, b': set<nat>)
    requires BinWrites(m, m', b) && b <= b'
    ensures BinWrites(m, m', b')
  {
    hide SizeOf;
  }

  lemma NothingMoved(h: Shape)
    ensures Moved(h, h, {}, {}) && TagsKept(h.mem, h.mem, h.chunks)
  {
  }

  lemma DvFacts(h: Shape, loose: set<nat>)
    requires HeapInv(h, loose)
    ensures h.dvsize != 0 ==> h.dv != 0 && h.dv in h.chunks && h.dv in Free(h) && SizeOf(h.mem, h.dv) == h.dvsize
    ensures h.dvsize == 0 ==> h.dv == 0
  {
  }

  lemma KeptSize(m: Mem, m': Mem, c: set<nat>, p: nat)
    requires TagsKept(m, m', c) && p in c
    ensures SizeOf(m', p) == SizeOf(m, p) && (Cinuse(m', p) <==> Cinuse(m, p))
  {
  }

  lemma FirstTaken(m: Mem, t: nat, nb: nat)
    requires 0 < nb < 256 <= SizeOf(m, t) < SIZE_LIMIT
    ensures SubWrap(SizeOf(m, t), nb) < SubWrap(0, nb)
  {
  }

  lemma ToAllBins(m: Mem, smallmap: nat, treemap: nat, smalls: seq<seq<nat>>, trees: seq<Tree>, c: set<nat>)
    requires BinsInv(m, smallmap, treemap, smalls, trees, c)
    ensures AllBins(m, treemap, trees) && |trees| == 32
  {
  }

  lemma RootOfBin(m: Mem, treemap: nat, trees: seq<Tree>, i: nat)
    requires AllBins(m, treemap, trees) && i < 32
    ensures |trees| == 32 && TreeBinOk(m, treemap, i, trees[i])
    ensures Rd(m, TreeBinAt(i)) == Root(trees[i]) && (Root(trees[i]) != 0 <==> trees[i].Node?)
  {
    assert TreeBinOk(m, treemap, i, trees[i]);
    RootIsNull(m, trees[i], TreeBinAt(i), i);
  }

  lemma WithinNil(m: Mem, t: Tree, i: nat)
    ensures Within(m, t, i, Nil, 0, 0, 0)
  {
  }

  lemma WithinRoot(m: Mem, t: Tree, i: nat, cur: Tree, par: nat, lo: nat, k: nat)
    requires Within(m, t, i, cur, par, lo, k)
    ensures Root(cur) == 0 <==> cur.Nil?
  {
    RootIsNull(m, cur, par, i);
  }

  lemma WithinTrie(m: Mem, t: Tree, i: nat, cur: Tree, par: nat, lo: nat, k: nat)
    requires Within(m, t, i, cur, par, lo, k)
    ensures TrieOk(cur, lo, k)
  {
  }

  lemma NodeSize(m: Mem, treemap: nat, trees: seq<Tree>, i: nat, a: nat)
    requires AllBins(m, treemap, trees) && i < 32
    ensures |trees| == 32
    ensures a in Addrs(trees[i]) ==> 256 <= SizeOf(m, a) < SIZE_LIMIT
  {
    assert TreeBinOk(m, treemap, i, trees[i]);
    if a in Addrs(trees[i]) { StoredSize(m, trees[i], TreeBinAt(i), i, a); }
  }

  lemma NothingChosen(m: Mem, trees: seq<Tree>, nb: nat)
    requires 0 < nb < WORD_LIMIT
    ensures Chosen(m, trees, nb, 0, SubWrap(0, nb))
  {
  }

  lemma ExactFit(all: set<nat>, nb: nat, cur: Tree)
    ensures LeftWalk(all, nb, nb, cur)
  {
  }

  lemma OwnBin(treemap: nat, trees: seq<Tree>, nb: nat)
    requires |trees| == 32 && TreeIndex(nb) < 32
    ensures SearchedBin(treemap, trees, nb, TreeIndex(nb))
  {
  }

  /** With nothing chosen yet, the next node is. */
  lemma FirstOneFits(all: set<nat>, nb: nat, best: nat, cur: Tree)
    requires LeftWalk(all, nb, best, cur) && cur.Node? && 0 < nb
    ensures nb < SIZE_LIMIT && cur.size != 0 ==> Better(best, cur.size, nb) != 0
  {
    assert cur.size in Sizes(cur);
  }

  /** Nothing fits in nb's own bin; the bitmap leads to the next bin in use. */
  lemma NextMarkedBin(m: Mem, treemap: nat, trees: seq<Tree>, nb: nat, idx: nat, cur: Tree)
    requires AllBins(m, treemap, trees) && 256 <= nb < WORD_LIMIT && idx == TreeIndex(nb) < 32 && cur.Nil?
    requires |trees| == 32 && LeftWalk(Fitting(trees[idx], nb), nb, 0, cur)
    ensures var leftbits := BitsAbove(treemap, idx);
            if leftbits == 0 then IsBestFit(m, trees, nb, 0)
            else LeastBit(leftbits) > 0
                 && var i := Bit2Idx(LeastBit(leftbits));
                    idx < i < 32 && trees[i].Node? && SearchedBin(treemap, trees, nb, i)
  {
    NextMarked(treemap, idx);
    if nb < SIZE_LIMIT { EmptyOwnBin(trees[idx], nb); }
    var leftbits := BitsAbove(treemap, idx);
    if leftbits == 0 {
      NothingFits(m, treemap, trees, nb);
    } else {
      LeastBitIdx(leftbits);
      var i := Bit2Idx(LeastBit(leftbits));
      assert Marked(treemap, i);
      assert TreeBinOk(m, treemap, i, trees[i]);
    }
  }

  /** The first writes of an insertion. */
  function Initialised(m: Mem, x: nat, i: nat): Mem { m[x + 56 := i][x + 32 := 0][x + 40 := 0] }

  lemma AsBypass(m: Mem, r: nat, f: nat)
    ensures m[f + 24 := r][r + 16 := f] == Bypass(m, r, f)
  {
  }

  lemma InTreeIndex(m: Mem, smallmap: nat, treemap: nat, smalls: seq<seq<nat>>, trees: seq<Tree>, c: set<nat>, x: nat, i: nat)
    requires InTree(m, smallmap, treemap, smalls, trees, c, x, i)
    ensures i < 32 && Distinct(trees[i]) && x in Addrs(trees[i])
  {
  }

  lemma NotChained(m: Mem, smallmap: nat, treemap: nat, smalls: seq<seq<nat>>, trees: seq<Tree>, c: set<nat>, x: nat, i: nat)
    requires InTree(m, smallmap, treemap, smalls, trees, c, x, i) && Bk(m, x) == x
    ensures Parent(m, x) != 0
  {
    if Parent(m, x) == 0 { ChainedStep(m, smallmap, treemap, smalls, trees, c, x, i); }
  }

  lemma LeafWalkNode(m: Mem, t: Tree, i: nat, x: nat, cur: Tree, q: nat, right: bool, r: nat, rp: nat)
    requires LeafWalk(m, t, i, x, cur, q, right, r, rp)
    ensures cur.Node?
  {
  }

  lemma DetachedIndex(m: Mem, m1: Mem, t: Tree, i: nat, x: nat, r: nat)
    requires DetachedStep(m, m1, t, i, x, r)
    ensures Index(m1, x) == Index(m, x)
  {
  }

  lemma TreeBinFacts(m: Mem, treemap: nat, i: nat, t: Tree)
    requires TreeBinOk(m, treemap, i, t)
    ensures (Marked(treemap, i) <==> t.Node?) && Rd(m, TreeBinAt(i)) == Root(t)
  {
  }

  lemma EmptyBinWrites(m: Mem, x: nat, i: nat, s: nat, t: Tree)
    requires t.Nil? && i < 32 && InRange(s, BinLo(i), BinBits(i)) && TrieOk(t, BinLo(i), BinBits(i))
    ensures var h := TreeBinAt(i);
            m[x + 56 := i][x + 32 := 0][x + 40 := 0][h := x][x + 48 := h][x + 16 := x][x + 24 := x]
            == InsertWrites(m, x, i, SlotIn(t, s, i))
  {
  }

  lemma EmptySlotWrites(m: Mem, x: nat, i: nat, n: nat, right: bool, c: nat)
    requires n != TreeBinAt(i) && c == if right then n + 40 else n + 32
    ensures m[x + 56 := i][x + 32 := 0][x + 40 := 0][c := x][x + 48 := n][x + 16 := x][x + 24 := x]
            == InsertWrites(m, x, i, Empty(n, right))
  {
  }

  lemma BinSlotRead(m: Mem, x: nat, i: nat)
    requires x >= FLOOR && i < 32
    ensures Rd(m[x + 56 := i][x + 32 := 0][x + 40 := 0], TreeBinAt(i)) == Rd(m, TreeBinAt(i))
  {
  }

  lemma MarkTwice(m: nat, i: nat)
    ensures Marked(m, i) ==> Mark(m, i) == m
  {
  }

  lemma BinCount(m: Mem, smallmap: nat, treemap: nat, smalls: seq<seq<nat>>, trees: seq<Tree>, c: set<nat>)
    requires BinsInv(m, smallmap, treemap, smalls, trees, c)
    ensures |smalls| == 32 && |trees| == 32 && BinsOk(m, smallmap, treemap, smalls, trees) && Layout(m, c)
  {
  }
}
