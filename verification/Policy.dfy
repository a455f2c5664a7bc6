/** Which free chunk serves a request (hagen/src/malloc.c, `dlmalloc`), and how sizes of
    requests become sizes of chunks. */
module Policy {
  import opened Words
  import opened BinMaps
  import opened Chunks
  import opened Trie
  import opened TrieLinks
  import opened Bins
  import opened SmallBins
  import opened TrieSearch
  import opened Heap
  import opened Victim

  const MAX_SMALL_REQUEST: nat := 232
  const MIN_REQUEST: nat := 23
  const MAX_REQUEST: nat := WORD_LIMIT - 128

  /** `pad_request` */
  function PadRequest(bytes: nat): nat { (bytes + 23) / 16 * 16 }

  /** `request2size` */
  function RequestToSize(bytes: nat): (nb: nat)
    ensures Aligned(nb) && nb >= MIN_CHUNK && bytes + 8 <= nb
    ensures nb == MIN_CHUNK || nb < bytes + 24
  {
    if bytes < MIN_REQUEST then MIN_CHUNK else PadRequest(bytes)
  }

  /** The chunk size a request of `bytes` bytes asks for; beyond the maximum it is a size that
      nothing can satisfy. */
  function RequestSize(bytes: nat): nat {
    if bytes >= MAX_REQUEST then WORD_LIMIT - 1 else RequestToSize(bytes)
  }

  /** The binned chunks large enough for nb. */
  ghost function Fit(h: Shape, nb: nat): set<nat> { set a | a in BinSet(h) && SizeOf(h.mem, a) >= nb }

  /** The chunk that serves a request: the tightest binned chunk, the designated victim if no
      binned chunk is a better choice, or top if nothing else is large enough. */
  ghost predicate Serves(h: Shape, nb: nat, p: nat) {
    || (p in Fit(h, nb)
        && (forall a | a in Fit(h, nb) :: SizeOf(h.mem, p) <= SizeOf(h.mem, a))
        && (h.dvsize >= nb ==> if nb < 256 then SizeOf(h.mem, p) <= nb + 8 else SizeOf(h.mem, p) < h.dvsize))
    || (p == h.dv && h.dvsize >= nb
        && forall a | a in Fit(h, nb) :: if nb < 256 then SizeOf(h.mem, a) > nb + 8 else SizeOf(h.mem, a) >= h.dvsize)
    || (p == h.top && NothingFree(h, nb))
  }

  /** Neither a binned chunk nor the designated victim is large enough. */
  ghost predicate NothingFree(h: Shape, nb: nat) {
    Fit(h, nb) == {} && h.dvsize < nb
  }

  /* ---------------- small requests ---------------- */

  lemma MarkedBySize(h: Shape, a: nat)
    requires BinsIntact(h) && a in BinSet(h)
    ensures if SizeOf(h.mem, a) < 256 then Marked(h.smallmap, SizeOf(h.mem, a) / 8) && SizeOf(h.mem, a) % 8 == 0
            else h.treemap != 0
  {
    hide TreeIndex, SizeOf, Addrs, Rep, Binned;
    BinOf(h.mem, h.smallmap, h.treemap, h.smalls, h.trees, a);
    if SizeOf(h.mem, a) < 256 {
      var i := SizeOf(h.mem, a) / 8;
      assert SmallBinOk(h.mem, h.smallmap, i, h.smalls[i]);
    } else {
      var i := TreeIndex(SizeOf(h.mem, a));
      assert TreeBinOk(h.mem, h.treemap, i, h.trees[i]);
      TreeMarked(h.trees[i], a);
      if h.treemap == 0 { ZeroUnmarked(i); }
    }
  }

  lemma TreeMarked(t: Tree, a: nat)
    requires a in Addrs(t)
    ensures t.Node?
  {
  }

  /** Small bin `i` is the first one in use from bin `idx` on: its chunks are the tightest fit. */
  lemma FirstSmallBin(h: Shape, idx: nat, i: nat, p: nat)
    requires BinsIntact(h) && idx <= i < 32 && p in BinSet(h) && SizeOf(h.mem, p) == 8 * i
    requires forall j: nat | idx <= j < i :: !Marked(h.smallmap, j)
    ensures p in Fit(h, 8 * idx) && forall a | a in Fit(h, 8 * idx) :: SizeOf(h.mem, p) <= SizeOf(h.mem, a)
  {
    hide SizeOf, BinsIntact, Binned, Marked;
    forall a | a in Fit(h, 8 * idx) ensures SizeOf(h.mem, p) <= SizeOf(h.mem, a) { MarkedBySize(h, a); }
  }

  /** No small bin from `idx` on is in use. */
  lemma NoSmallBin(h: Shape, idx: nat, hi: nat)
    requires BinsIntact(h) && forall j: nat | idx <= j < hi :: !Marked(h.smallmap, j)
    ensures forall a | a in Fit(h, 8 * idx) && 8 * hi <= 256 :: SizeOf(h.mem, a) >= 8 * hi
    ensures h.treemap == 0 && hi >= 32 ==> Fit(h, 8 * idx) == {}
  {
    hide SizeOf, BinsIntact, Binned, Marked;
    forall a | a in Fit(h, 8 * idx)
      ensures (8 * hi <= 256 ==> SizeOf(h.mem, a) >= 8 * hi) && !(h.treemap == 0 && hi >= 32)
    {
      MarkedBySize(h, a);
    }
  }

  /** The two low bits of the shifted map stand for bin `idx` and the next. */
  lemma LowBits(smallmap: nat, idx: nat)
    ensures var bits := ShiftDown(smallmap, idx);
            && (bits % 2 == 1 <==> Marked(smallmap, idx))
            && (bits % 4 == 0 <==> !Marked(smallmap, idx) && !Marked(smallmap, idx + 1))
  {
    var bits := ShiftDown(smallmap, idx);
    ShiftBits(smallmap, idx, 0);
    ShiftBits(smallmap, idx, 1);
    assert Marked(bits, 1) <==> bits / 2 % 2 == 1;
  }

  lemma NoBits(smallmap: nat, idx: nat)
    requires ShiftDown(smallmap, idx) == 0
    ensures forall j: nat | idx <= j :: !Marked(smallmap, j)
  {
    forall j: nat | idx <= j ensures !Marked(smallmap, j) {
      ShiftBits(smallmap, idx, j - idx);
      ZeroUnmarked(j - idx);
    }
  }

  /** The next small bin in use, as the code computes it from the shifted map. */
  lemma NextSmallBin(smallmap: nat, idx: nat)
    requires MapOk(smallmap) && ShiftDown(smallmap, idx) != 0 && ShiftDown(smallmap, idx) % 4 == 0
    ensures var leftbits := BitsAbove(ShiftUp(ShiftDown(smallmap, idx), idx), idx);
            && LeastBit(leftbits) > 0
            && var i := Bit2Idx(LeastBit(leftbits));
               idx + 1 < i < 32 && Marked(smallmap, i) && forall j: nat | idx <= j < i :: !Marked(smallmap, j)
  {
    var bits := ShiftDown(smallmap, idx);
    var up := ShiftUp(bits, idx);
    var leftbits := BitsAbove(up, idx);
    LowBits(smallmap, idx);
    forall j: nat ensures Marked(up, j) <==> idx <= j && Marked(smallmap, j) {
      ShiftUpBits(bits, idx, j);
      if idx <= j { ShiftBits(smallmap, idx, j - idx); }
    }
    NextMarked(up, idx);
    NoMarks(bits);
    ShiftUpBits(bits, idx, idx + Bit2Idx(bits));
    assert Marked(up, idx + Bit2Idx(bits));
    LeastBitIdx(leftbits);
  }

  /* ---------------- treebins ---------------- */

  /** The best fit among treebins is the best of all bins if no small chunk fits. */
  lemma BestOfAll(h: Shape, nb: nat, v: nat)
    requires BinsIntact(h) && IsBestFit(h.mem, h.trees, nb, v) && v != 0 && SizeOf(h.mem, v) >= 256
    requires forall a | a in Fit(h, nb) :: SizeOf(h.mem, a) >= 256
    ensures v in Fit(h, nb) && forall a | a in Fit(h, nb) :: SizeOf(h.mem, v) <= SizeOf(h.mem, a)
  {
    hide SizeOf, TreeIndex, Addrs, Rep, Sizes, SmallBinOk;
    forall a | a in Fit(h, nb) ensures SizeOf(h.mem, v) <= SizeOf(h.mem, a) {
      TreeSizeOf(h, a);
    }
  }

  lemma TreeSizeOf(h: Shape, a: nat)
    requires BinsIntact(h) && a in BinSet(h) && SizeOf(h.mem, a) >= 256
    ensures var i := TreeIndex(SizeOf(h.mem, a)); |h.trees| == 32 && i < 32 && SizeOf(h.mem, a) in Sizes(h.trees[i])
  {
    hide SizeOf, TreeIndex, Addrs, Rep, Sizes, Binned;
    BinOf(h.mem, h.smallmap, h.treemap, h.smalls, h.trees, a);
    var i := TreeIndex(SizeOf(h.mem, a));
    assert TreeBinOk(h.mem, h.treemap, i, h.trees[i]);
    StoredSize(h.mem, h.trees[i], TreeBinAt(i), i, a);
  }

  lemma NoTreeFits(h: Shape, nb: nat)
    requires BinsIntact(h) && nb >= 256 && (h.treemap == 0 || IsBestFit(h.mem, h.trees, nb, 0))
    ensures Fit(h, nb) == {}
  {
    hide SizeOf, TreeIndex, Binned, Sizes;
    forall a | a in Fit(h, nb) ensures false {
      MarkedBySize(h, a);
      TreeSizeOf(h, a);
    }
  }

  /** The designated victim fits, and no binned chunk fits more tightly. */
  ghost predicate DvServes(h: Shape, nb: nat) {
    h.dvsize >= nb && forall a | a in Fit(h, nb) :: SizeOf(h.mem, a) >= h.dvsize
  }

  lemma FoundIsBinned(h: Shape, nb: nat, v: nat, rsize: nat)
    requires BinsIntact(h) && Chosen(h.mem, h.trees, nb, v, rsize) && v != 0
    ensures v in BinSet(h) && 256 <= SizeOf(h.mem, v) < SIZE_LIMIT && SizeOf(h.mem, v) == nb + rsize
    ensures MemberOfSize(h.trees, SizeOf(h.mem, v), v)
  {
    hide SizeOf, TreeIndex, Addrs, Heads, Rep, Sizes, SmallBinOk;
    var i :| 0 <= i < |h.trees| && v in Addrs(h.trees[i]) && v in Heads(h.trees[i]);
    BinOfChunk(h.mem, h.smallmap, h.treemap, h.smalls, h.trees, v);
  }

  /** What the comparison with the designated victim decides for a large request. */
  lemma LargeChoice(h: Shape, nb: nat, v: nat, rsize: nat)
    requires BinsIntact(h) && Chosen(h.mem, h.trees, nb, v, rsize) && IsBestFit(h.mem, h.trees, nb, v)
    requires 256 <= nb < WORD_LIMIT && h.dvsize < SIZE_LIMIT
    ensures v == 0 ==> Fit(h, nb) == {}
    ensures v != 0 ==> if rsize < SubWrap(h.dvsize, nb) then v in Fit(h, nb) && Serves(h, nb, v) else DvServes(h, nb)
  {
    hide BinsIntact, Chosen, IsBestFit, Binned, SizeOf;
    if v == 0 {
      NoTreeFits(h, nb);
    } else {
      FoundIsBinned(h, nb, v, rsize);
      BestOfAll(h, nb, v);
      AgainstDv(SizeOf(h.mem, v), h.dvsize, nb);
    }
  }

  /** For a small request the least chunk of all treebins is taken when no small bin has one. */
  lemma SmallTreeChoice(h: Shape, nb: nat, v: nat, rsize: nat)
    requires BinsIntact(h) && Chosen(h.mem, h.trees, nb, v, rsize) && IsBestFit(h.mem, h.trees, nb, v) && v != 0
    requires nb < 256 && h.dvsize < nb && forall a | a in Fit(h, nb) :: SizeOf(h.mem, a) >= 256
    ensures v in Fit(h, nb) && Serves(h, nb, v)
  {
    hide BinsIntact, Chosen, IsBestFit, Binned, SizeOf;
    FoundIsBinned(h, nb, v, rsize);
    BestOfAll(h, nb, v);
  }

  /* ---------------- the paths through dlmalloc ---------------- */

  lemma SmallSize(bytes: nat)
    requires bytes <= MAX_SMALL_REQUEST
    ensures var nb := RequestSize(bytes);
            && nb == (if bytes < MIN_REQUEST then MIN_CHUNK else PadRequest(bytes))
            && MIN_CHUNK <= nb <= 240 && Aligned(nb) && nb == 8 * (nb / 8)
  {
  }

  lemma LargeSize(bytes: nat)
    requires MAX_SMALL_REQUEST < bytes < MAX_REQUEST
    ensures var nb := PadRequest(bytes); nb == RequestSize(bytes) && 256 <= nb < WORD_LIMIT && Aligned(nb)
  {
  }

  lemma HugeSize(h: Shape, bytes: nat)
    requires BinsIntact(h) && MAX_REQUEST <= bytes && h.dvsize < SIZE_LIMIT
    ensures RequestSize(bytes) == WORD_LIMIT - 1 && NothingFree(h, WORD_LIMIT - 1)
  {
    hide SizeOf, Binned, BinsIntact;
    forall a | a in BinSet(h) ensures SizeOf(h.mem, a) < SIZE_LIMIT { BinnedSize(h, a); }
  }

  lemma BinnedSize(h: Shape, a: nat)
    requires BinsIntact(h) && a in BinSet(h)
    ensures SizeOf(h.mem, a) < SIZE_LIMIT
  {
    BinOf(h.mem, h.smallmap, h.treemap, h.smalls, h.trees, a);
  }

  lemma MarkedBelow32(h: Shape, i: nat)
    requires BinsIntact(h) && Marked(h.smallmap, i)
    ensures i < 32 && MapOk(h.smallmap)
  {
  }

  /** A chunk of the first small bin in use from nb's own on. */
  lemma FromSmallBin(h: Shape, nb: nat, i: nat, p: nat)
    requires BinsIntact(h) && p in BinSet(h) && SizeOf(h.mem, p) == 8 * i && nb == 8 * (nb / 8) && nb / 8 <= i < 32
    requires forall j: nat | nb / 8 <= j < i :: !Marked(h.smallmap, j)
    requires h.dvsize >= nb ==> 8 * i <= nb + 8
    ensures Serves(h, nb, p) && p in Fit(h, nb) && !NothingFree(h, nb)
  {
    hide SizeOf, Binned, BinsIntact, Marked;
    FirstSmallBin(h, nb / 8, i, p);
    assert p in Fit(h, nb);
  }

  /** No small bin in use from nb's own on. */
  lemma NoSmallFit(h: Shape, nb: nat)
    requires BinsIntact(h) && nb == 8 * (nb / 8) && forall j: nat | nb / 8 <= j :: !Marked(h.smallmap, j)
    ensures forall a | a in Fit(h, nb) :: SizeOf(h.mem, a) >= 256
    ensures h.treemap == 0 ==> Fit(h, nb) == {}
  {
    hide SizeOf, Binned, BinsIntact, Marked;
    NoSmallBin(h, nb / 8, 32);
  }

  lemma DvForSmall(h: Shape, nb: nat)
    requires BinsIntact(h) && nb == 8 * (nb / 8) && nb <= 240 && nb <= h.dvsize
    requires !Marked(h.smallmap, nb / 8) && !Marked(h.smallmap, nb / 8 + 1)
    ensures Serves(h, nb, h.dv) && !NothingFree(h, nb)
  {
    hide SizeOf, Binned, BinsIntact, Marked;
    NoSmallBin(h, nb / 8, nb / 8 + 2);
  }

  lemma DvForLarge(h: Shape, nb: nat)
    requires nb >= 256 && (Fit(h, nb) == {} || DvServes(h, nb))
    ensures if nb <= h.dvsize then Serves(h, nb, h.dv) && !NothingFree(h, nb) else NothingFree(h, nb)
  {
    hide Fit;
  }

  lemma NotNothing(h: Shape, nb: nat, p: nat)
    requires p in Fit(h, nb)
    ensures !NothingFree(h, nb)
  {
  }

  lemma TopServes(h: Shape, nb: nat)
    requires NothingFree(h, nb)
    ensures Serves(h, nb, h.top)
  {
  }
}
