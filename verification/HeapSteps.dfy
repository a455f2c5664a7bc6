/** The two kinds of step an operation of hagen/src/malloc.c is made of, and what each
    keeps of the whole-heap invariant: moving a chunk between the bins and the hands of
    the operation, and rewriting the tags of a run of chunks that is in no bin. */
module HeapSteps {
  import opened Words
  import opened Chunks
  import opened Tags
  import opened TagOps
  import opened TrieLinks
  import opened Bins
  import opened Heap

  /** A chunk has moved into or out of its bin. */
  lemma BinStep(h: Shape, h': Shape, loose: set<nat>, loose': set<nat>)
    requires HeapInv(h, loose)
    requires h'.chunks == h.chunks && h'.base == h.base && h'.top == h.top && h'.end == h.end
    requires h'.dv == h.dv && h'.dvsize == h.dvsize
    requires BinWrites(h.mem, h'.mem, BinSet(h) + loose) && BinsIntact(h')
    requires BinSet(h') + loose' == BinSet(h) + loose && loose' !! BinSet(h')
    ensures HeapInv(h', loose') && Live(h') == Live(h)
    ensures LiveKept(h.mem, h'.mem, Live(h)) && TagsKept(h.mem, h'.mem, h.chunks)
  {
    hide TagsOk, BinsOk, Cinuse, SizeOf, BinWrites, LiveKept, Binned;
    TagsUnderBinWrites(h.mem, h'.mem, h.chunks, h.base, h.top, h.end, BinSet(h) + loose);
    LiveUnderBinWrites(h.mem, h'.mem, h.chunks, h.base, h.top, h.end, BinSet(h) + loose);
  }

  /** `gone` are the chunks that begin in q .. q + len. */
  ghost predicate Run(c: set<nat>, q: nat, len: nat, gone: set<nat>) {
    gone <= c && forall a | a in c :: a in gone <==> q <= a < q + len
  }

  ghost function FreeOf(m: Mem, s: set<nat>): set<nat> { set a | a in s && !Cinuse(m, a) }
  ghost function LiveOf(m: Mem, s: set<nat>): set<nat> { set a | a in s && Cinuse(m, a) }

  /** A run of chunks, none of them in a bin, has been rewritten to the chunks `inside`. */
  ghost predicate Rewritten(h: Shape, h': Shape, loose: set<nat>, loose': set<nat>, gone: set<nat>, inside: set<nat>) {
    && h'.smallmap == h.smallmap && h'.treemap == h.treemap && h'.smalls == h.smalls && h'.trees == h.trees
    && h'.base == h.base
    && h'.chunks == h.chunks - gone + inside && inside !! h.chunks - gone
    && gone !! BinSet(h) && gone <= h.chunks
    && Tiled(h') && DvOk(h'.mem, h'.chunks, h'.dv, h'.dvsize)
    && DvSet(h'.dv) + loose' == DvSet(h.dv) + loose - gone + FreeOf(h'.mem, inside)
    && h'.dv !in loose'
  }

  lemma Resorted(h: Shape, h': Shape, loose: set<nat>, loose': set<nat>, gone: set<nat>, inside: set<nat>)
    requires HeapInv(h, loose) && Rewritten(h, h', loose, loose', gone, inside)
    requires forall a | a in h.chunks - gone :: Cinuse(h'.mem, a) <==> Cinuse(h.mem, a)
    ensures Sorted(h', loose')
    ensures Live(h') == Live(h) - gone + LiveOf(h'.mem, inside)
  {
    hide TagsOk, BinsOk, Cinuse, SizeOf, Binned;
    assert Free(h') == Free(h) - gone + FreeOf(h'.mem, inside);
    assert BinSet(h') == BinSet(h) && BinSet(h) <= Free(h) <= h.chunks;
    if h'.dv != 0 {
      assert h'.dv in DvSet(h'.dv);
      assert h'.dv in BinSet(h) ==> h'.dv in DvSet(h.dv) + loose;
    } else {
      assert 0 !in BinSet(h) by { BaseNotNull(h); }
    }
    assert forall a | a in loose' && a in BinSet(h) :: a in DvSet(h.dv) + loose;
  }

  lemma BaseNotNull(h: Shape)
    requires Tiled(h)
    ensures 0 !in h.chunks
  {
    assert 0 in h.chunks ==> ChunkOk(h.mem, h.chunks, h.base, h.top, 0);
  }

  lemma SpanStep(h: Shape, h': Shape, loose: set<nat>, loose': set<nat>, q: nat, len: nat, gone: set<nat>, inside: set<nat>)
    requires HeapInv(h, loose) && Rewritten(h, h', loose, loose', gone, inside)
    requires Border(h.chunks, h.top, q, len) && len > 8 && SpanOnly(h.mem, h'.mem, q, len)
    requires Run(h.chunks, q, len, gone)
    ensures HeapInv(h', loose') && Live(h') == Live(h) - gone + LiveOf(h'.mem, inside)
    ensures LiveKept(h.mem, h'.mem, Live(h) - gone)
  {
    hide TagsOk, BinsOk, Cinuse, SizeOf, SpanOnly, NodeKept, PayloadKept, Rewritten, Sorted, Binned;
    forall a | a in h.chunks - gone
      ensures NodeKept(h.mem, h'.mem, a) && (Cinuse(h.mem, a) ==> PayloadKept(h.mem, h'.mem, a))
    {
      ChunkOutside(h.mem, h.chunks, h.base, h.top, h.end, q, len, a);
      SpanKeeps(h.mem, h'.mem, q, len, a);
    }
    SpanStatic(h.mem, h'.mem, q, len, h);
    AfterTags(h, h', loose, loose', gone, inside);
  }

  lemma SpanStatic(m: Mem, m': Mem, q: nat, len: nat, h: Shape)
    requires SpanOnly(m, m', q, len) && Tiled(h) && q in h.chunks
    ensures StaticKept(m, m')
  {
    assert ChunkOk(h.mem, h.chunks, h.base, h.top, q);
    hide PinuseBit;
  }

  /** What both kinds of tag step share. */
  lemma AfterTags(h: Shape, h': Shape, loose: set<nat>, loose': set<nat>, gone: set<nat>, inside: set<nat>)
    requires HeapInv(h, loose) && Rewritten(h, h', loose, loose', gone, inside) && StaticKept(h.mem, h'.mem)
    requires forall a | a in h.chunks - gone ::
               NodeKept(h.mem, h'.mem, a) && (Cinuse(h.mem, a) ==> PayloadKept(h.mem, h'.mem, a))
    ensures HeapInv(h', loose') && Live(h') == Live(h) - gone + LiveOf(h'.mem, inside)
    ensures LiveKept(h.mem, h'.mem, Live(h) - gone)
  {
    hide TagsOk, BinsOk, Cinuse, SizeOf, StaticKept, PayloadKept, Fd, Bk, SameNode, Binned;
    forall a | a in h.chunks - gone ensures Cinuse(h'.mem, a) <==> Cinuse(h.mem, a) {
      assert NodeKept(h.mem, h'.mem, a);
    }
    Resorted(h, h', loose, loose', gone, inside);
    forall a | a in BinSet(h) ensures NodeKept(h.mem, h'.mem, a) {
      assert a in Free(h) && a in h.chunks - gone;
    }
    BinsUnderTags(h.mem, h'.mem, h.smallmap, h.treemap, h.smalls, h.trees);
  }

  /** A step that rewrites everything from `q` up to the end of the segment. */
  lemma AboveStep(h: Shape, h': Shape, loose: set<nat>, loose': set<nat>, q: nat, gone: set<nat>, inside: set<nat>)
    requires HeapInv(h, loose) && Rewritten(h, h', loose, loose', gone, inside)
    requires (q in h.chunks || q == h.top) && AboveOnly(h.mem, h'.mem, q)
    requires forall a | a in h.chunks :: a in gone <==> a >= q
    ensures HeapInv(h', loose') && Live(h') == Live(h) - gone + LiveOf(h'.mem, inside)
    ensures LiveKept(h.mem, h'.mem, Live(h) - gone)
  {
    hide TagsOk, BinsOk, Cinuse, SizeOf, AboveOnly, NodeKept, PayloadKept, Rewritten, Sorted, Binned;
    forall a | a in h.chunks - gone
      ensures NodeKept(h.mem, h'.mem, a) && (Cinuse(h.mem, a) ==> PayloadKept(h.mem, h'.mem, a))
    {
      BelowBorder(h, q, a);
      AboveKeeps(h.mem, h'.mem, q, a);
    }
    AboveStatic(h.mem, h'.mem, q, h);
    AfterTags(h, h', loose, loose', gone, inside);
  }

  lemma BelowBorder(h: Shape, q: nat, a: nat)
    requires Tiled(h) && (q in h.chunks || q == h.top) && a in h.chunks && a < q
    ensures a + SizeOf(h.mem, a) <= q && SizeOf(h.mem, a) >= MIN_CHUNK
  {
    BelowTop(h.mem, h.chunks, h.base, h.top, h.end, a);
  }

  lemma AboveStatic(m: Mem, m': Mem, q: nat, h: Shape)
    requires AboveOnly(m, m', q) && Tiled(h) && (q in h.chunks || q == h.top)
    ensures StaticKept(m, m')
  {
    if q in h.chunks { BelowTop(h.mem, h.chunks, h.base, h.top, h.end, q); }
  }

  /** The bins and the chunks they are kept over. */
  lemma BinsOf(h: Shape, loose: set<nat>)
    requires HeapInv(h, loose)
    ensures BinsInv(h.mem, h.smallmap, h.treemap, h.smalls, h.trees, h.chunks) && BinsIntact(h) && Tiled(h)
    ensures BinSet(h) + loose + DvSet(h.dv) == Free(h) && Free(h) <= h.chunks && h.dv !in BinSet(h) + loose && loose !! BinSet(h)
  {
    TagsLayout(h.mem, h.chunks, h.base, h.top, h.end);
    hide TagsOk, BinsOk, Layout, Binned, Cinuse, SizeOf;
  }

  /** What the tags say of one chunk. */
  lemma ChunkOf(h: Shape, loose: set<nat>, p: nat)
    requires HeapInv(h, loose) && p in h.chunks
    ensures Aligned(p) && p >= FLOOR && Aligned(SizeOf(h.mem, p)) && MIN_CHUNK <= SizeOf(h.mem, p) < SIZE_LIMIT
    ensures p + SizeOf(h.mem, p) <= h.top < h.end
    ensures Border(h.chunks, h.top, p, SizeOf(h.mem, p))
  {
    ChunkFacts(h.mem, h.chunks, h.base, h.top, h.end, p);
  }
}
