/** The whole-heap invariant (hagen/src/malloc.c:2317-2583, the debugging checks) and what
    the steps of an operation keep of it. */
module Heap {
  import opened Words
  import opened BinMaps
  import opened Chunks
  import opened Tags
  import opened Trie
  import opened TrieLinks
  import opened Bins

  /** The state of an allocator over one segment, with what its words mean. */
  datatype Shape = Shape(mem: Mem, smallmap: nat, treemap: nat, smalls: seq<seq<nat>>, trees: seq<Tree>, chunks: set<nat>,
                         base: nat, top: nat, end: nat, dv: nat, dvsize: nat)

  ghost function FreeChunks(m: Mem, c: set<nat>): set<nat> { set a | a in c && !Cinuse(m, a) }
  ghost function LiveChunks(m: Mem, c: set<nat>): set<nat> { set a | a in c && Cinuse(m, a) }

  ghost function Free(h: Shape): set<nat> { FreeChunks(h.mem, h.chunks) }
  ghost function Live(h: Shape): set<nat> { LiveChunks(h.mem, h.chunks) }
  ghost function BinSet(h: Shape): set<nat> { Binned(h.smalls, h.trees) }

  ghost function DvSet(dv: nat): set<nat> { if dv == 0 then {} else {dv} }

  /** The designated victim is a free chunk whose size is cached. */
  ghost predicate DvOk(m: Mem, c: set<nat>, dv: nat, dvsize: nat) {
    && (dv == 0 <==> dvsize == 0)
    && (dv != 0 ==> dv in c && !Cinuse(m, dv) && SizeOf(m, dv) == dvsize)
  }

  /** Chunks tile the segment up to top. */
  ghost predicate Tiled(h: Shape) {
    TagsOk(h.mem, h.chunks, h.base, h.top, h.end) && h.end <= SIZE_LIMIT
  }

  ghost predicate BinsIntact(h: Shape) { BinsOk(h.mem, h.smallmap, h.treemap, h.smalls, h.trees) }

  /** Every free chunk but those in `loose` is in its bin or is the designated victim. */
  ghost predicate Sorted(h: Shape, loose: set<nat>) {
    && DvOk(h.mem, h.chunks, h.dv, h.dvsize)
    && Free(h) == BinSet(h) + DvSet(h.dv) + loose
    && h.dv !in BinSet(h) + loose && loose !! BinSet(h)
  }

  /** The invariant of the whole heap. */
  ghost predicate HeapInv(h: Shape, loose: set<nat>) {
    Tiled(h) && BinsIntact(h) && Sorted(h, loose)
  }

  /** Other live chunks keep their size and every word of their payload, which reaches up to
      and includes the next chunk's foot word. */
  ghost predicate LiveKept(m: Mem, m': Mem, live: set<nat>) {
    forall a | a in live :: PayloadKept(m, m', a)
  }

  ghost predicate PayloadKept(m: Mem, m': Mem, a: nat) {
    && SizeOf(m', a) == SizeOf(m, a) && Cinuse(m', a)
    && forall w: nat {:trigger Rd(m', w)} | a + 16 <= w <= a + SizeOf(m, a) :: Rd(m', w) == Rd(m, w)
  }

  lemma LiveKeptThen(m: Mem, m1: Mem, m2: Mem, live: set<nat>, live': set<nat>)
    requires LiveKept(m, m1, live) && LiveKept(m1, m2, live') && live <= live'
    ensures LiveKept(m, m2, live)
  {
    hide SizeOf, Cinuse, Rd;
    forall a | a in live ensures PayloadKept(m, m2, a) { assert PayloadKept(m, m1, a) && PayloadKept(m1, m2, a); }
  }

  lemma TagsLayout(m: Mem, c: set<nat>, base: nat, top: nat, end: nat)
    requires TagsOk(m, c, base, top, end)
    ensures Layout(m, c)
  {
    hide SizeOf, Rd, Aligned;
    forall a | a in c ensures Aligned(a) && a >= FLOOR && SizeOf(m, a) >= MIN_CHUNK {
      assert ChunkOk(m, c, base, top, a);
    }
  }

  /* ---------------- bin operations leave the tags alone ---------------- */

  lemma BinWritesTags(m: Mem, m': Mem, c: set<nat>, base: nat, top: nat, end: nat, b: set<nat>, a: nat)
    requires TagsOk(m, c, base, top, end) && b <= c && BinWrites(m, m', b)
    ensures a in c ==> Head(m', a) == Head(m, a) && Foot(m', a + SizeOf(m, a)) == Foot(m, a + SizeOf(m, a))
    ensures Head(m', top) == Head(m, top)
  {
    TagsLayout(m, c, base, top, end);
    if a in c {
      BinWritesKeep(m, m', c, b, a, a + 8);
      BinWritesKeep(m, m', c, b, a, a + SizeOf(m, a));
    }
    BinWritesTop(m, m', c, base, top, end, b);
  }

  lemma BinWritesTop(m: Mem, m': Mem, c: set<nat>, base: nat, top: nat, end: nat, b: set<nat>)
    requires TagsOk(m, c, base, top, end) && b <= c && BinWrites(m, m', b)
    ensures Head(m', top) == Head(m, top)
  {
    hide SizeOf, Rd, Aligned;
    forall a | a in b ensures a + SizeOf(m, a) <= top { assert ChunkOk(m, c, base, top, a); }
  }

  /** All chunks keep their sizes and flags. */
  ghost predicate TagsKept(m: Mem, m': Mem, c: set<nat>) {
    forall a | a in c ::
      SizeOf(m', a) == SizeOf(m, a) && (Cinuse(m', a) <==> Cinuse(m, a)) && (Pinuse(m', a) <==> Pinuse(m, a))
  }

  lemma HeadUnderBinWrites(m: Mem, m': Mem, c: set<nat>, base: nat, top: nat, end: nat, b: set<nat>, a: nat)
    requires TagsOk(m, c, base, top, end) && b <= c && BinWrites(m, m', b) && (a in c || a == top)
    ensures SizeOf(m', a) == SizeOf(m, a) && (Cinuse(m', a) <==> Cinuse(m, a)) && (Pinuse(m', a) <==> Pinuse(m, a))
    ensures (FlagsOk(m', a) <==> FlagsOk(m, a)) && Head(m', a) == Head(m, a)
  {
    hide *;
    BinWritesTags(m, m', c, base, top, end, b, a);
    SameHead(m, m', a);
  }

  lemma ChunkUnderBinWrites(m: Mem, m': Mem, c: set<nat>, base: nat, top: nat, end: nat, b: set<nat>, a: nat)
    requires TagsOk(m, c, base, top, end) && b <= c && BinWrites(m, m', b) && a in c
    ensures ChunkOk(m', c, base, top, a)
  {
    hide SizeOf, Cinuse, Pinuse, FlagsOk, Rd, Aligned, Head, Foot, BinWrites, TopOk;
    assert ChunkOk(m, c, base, top, a);
    HeadUnderBinWrites(m, m', c, base, top, end, b, a);
    HeadUnderBinWrites(m, m', c, base, top, end, b, a + SizeOf(m, a));
    BinWritesTags(m, m', c, base, top, end, b, a);
    if !Pinuse(m, a) {
      var q := a - Foot(m, a);
      HeadUnderBinWrites(m, m', c, base, top, end, b, q);
      BinWritesTags(m, m', c, base, top, end, b, q);
    }
  }

  lemma TagsUnderBinWrites(m: Mem, m': Mem, c: set<nat>, base: nat, top: nat, end: nat, b: set<nat>)
    requires TagsOk(m, c, base, top, end) && b <= c && BinWrites(m, m', b)
    ensures TagsOk(m', c, base, top, end) && TagsKept(m, m', c)
    ensures FreeChunks(m', c) == FreeChunks(m, c) && LiveChunks(m', c) == LiveChunks(m, c)
  {
    hide SizeOf, Cinuse, Pinuse, FlagsOk, Rd, Aligned, Head, Foot, BinWrites, ChunkOk;
    forall a | a in c
      ensures SizeOf(m', a) == SizeOf(m, a) && (Cinuse(m', a) <==> Cinuse(m, a)) && (Pinuse(m', a) <==> Pinuse(m, a))
    {
      HeadUnderBinWrites(m, m', c, base, top, end, b, a);
    }
    forall a | a in c ensures ChunkOk(m', c, base, top, a) { ChunkUnderBinWrites(m, m', c, base, top, end, b, a); }
    HeadUnderBinWrites(m, m', c, base, top, end, b, top);
  }

  lemma LiveUnderBinWrites(m: Mem, m': Mem, c: set<nat>, base: nat, top: nat, end: nat, b: set<nat>)
    requires TagsOk(m, c, base, top, end) && b <= FreeChunks(m, c) && BinWrites(m, m', b)
    ensures LiveKept(m, m', LiveChunks(m, c))
  {
    TagsLayout(m, c, base, top, end);
    TagsUnderBinWrites(m, m', c, base, top, end, b);
    hide SizeOf, Rd, BinWrites;
    forall a | a in LiveChunks(m, c) ensures PayloadKept(m, m', a) {
      forall w: nat | a + 16 <= w <= a + SizeOf(m, a) ensures Rd(m', w) == Rd(m, w) {
        BinWritesKeep(m, m', c, b, a, w);
      }
    }
  }

  /* ---------------- tag writes leave the bins alone ---------------- */

  /** A chunk outside the written span, as its bin sees it. */
  ghost predicate NodeKept(m: Mem, m': Mem, y: nat) {
    && SizeOf(m', y) == SizeOf(m, y) && Fd(m', y) == Fd(m, y) && Bk(m', y) == Bk(m, y)
    && (SizeOf(m, y) >= 256 ==> SameNode(m, m', y))
    && (Cinuse(m', y) <==> Cinuse(m, y))
  }

  ghost predicate StaticKept(m: Mem, m': Mem) {
    forall w: nat {:trigger Rd(m', w)} | w < FLOOR :: Rd(m', w) == Rd(m, w)
  }

  lemma BinsUnderTags(m: Mem, m': Mem, smallmap: nat, treemap: nat, smalls: seq<seq<nat>>, trees: seq<Tree>)
    requires BinsOk(m, smallmap, treemap, smalls, trees) && StaticKept(m, m')
    requires forall a | a in Binned(smalls, trees) :: NodeKept(m, m', a)
    ensures BinsOk(m', smallmap, treemap, smalls, trees)
  {
    hide SizeOf, Cinuse, Rep, Fd, Bk, SameNode, TreeIndex, BinLo, BinBits, StaticKept, Marked, Rd;
    forall i | 0 <= i < 32 ensures SmallBinOk(m', smallmap, i, smalls[i]) {
      forall a | a in smalls[i] ensures SizeOf(m', a) == SizeOf(m, a) && Fd(m', a) == Fd(m, a) && Bk(m', a) == Bk(m, a) {
        assert a in Binned(smalls, trees);
      }
      HeadersKept(m, m', i);
      SmallBinFrame(m, m', smallmap, smallmap, i, smalls[i]);
    }
    forall i | 0 <= i < 32 ensures TreeBinOk(m', treemap, i, trees[i]) {
      forall a | a in Addrs(trees[i]) ensures SameNode(m, m', a) {
        assert a in Binned(smalls, trees);
        BinOfChunk(m, smallmap, treemap, smalls, trees, a);
      }
      HeadersKept(m, m', i);
      TreeBinFrame(m, m', treemap, treemap, i, trees[i]);
    }
  }

  lemma HeadersKept(m: Mem, m': Mem, i: nat)
    requires StaticKept(m, m') && i < 32
    ensures Fd(m', SmallBinAt(i)) == Fd(m, SmallBinAt(i)) && Bk(m', SmallBinAt(i)) == Bk(m, SmallBinAt(i))
    ensures Rd(m', TreeBinAt(i)) == Rd(m, TreeBinAt(i))
  {
    hide Rd;
  }

  /** The chunk `y` lies outside q .. q + len. */
  ghost predicate Outside(m: Mem, y: nat, q: nat, len: nat) {
    SizeOf(m, y) >= MIN_CHUNK && (y + SizeOf(m, y) <= q || y >= q + len)
  }

  lemma SpanKeeps(m: Mem, m': Mem, q: nat, len: nat, y: nat)
    requires SpanOnly(m, m', q, len) && len > 8 && Outside(m, y, q, len)
    ensures NodeKept(m, m', y)
    ensures Cinuse(m, y) ==> PayloadKept(m, m', y)
  {
    TagsOutside(m, m', q, len, y);
    hide SizeOf, Cinuse, PinuseBit, Rd;
  }

  lemma AboveKeeps(m: Mem, m': Mem, q: nat, y: nat)
    requires AboveOnly(m, m', q) && SizeOf(m, y) >= MIN_CHUNK && y + SizeOf(m, y) <= q
    ensures NodeKept(m, m', y)
    ensures Cinuse(m, y) ==> PayloadKept(m, m', y)
  {
    TagsBelow(m, m', q, y);
    hide SizeOf, Cinuse, Rd;
  }

  /** Chunks of a tiling do not straddle its borders. */
  lemma ChunkOutside(m: Mem, c: set<nat>, base: nat, top: nat, end: nat, q: nat, len: nat, a: nat)
    requires TagsOk(m, c, base, top, end) && (q in c || q == top) && (q + len in c || q + len == top) && a in c
    requires !(q <= a < q + len)
    ensures Outside(m, a, q, len) && a < top
  {
    hide SizeOf, Rd, Aligned;
    assert ChunkOk(m, c, base, top, a);
  }
}
