/** What the whole-heap invariant means to the users of the allocator, and to the checks in
    hagen/src/malloc.c (2317-2583). */
module Safety {
  import opened Words
  import opened BinMaps
  import opened Chunks
  import opened Tags
  import opened TagOps
  import opened Trie
  import opened Bins
  import opened SmallBins
  import opened Heap
  import opened HeapSteps
  import opened HeapOps

  /** The chunk that an address of the segment belongs to. */
  ghost predicate Holds(h: Shape, a: nat, x: nat) { a in h.chunks && a <= x < a + SizeOf(h.mem, a) }

  lemma {:induction false} HolderFrom(h: Shape, q: nat, x: nat)
    requires HeapInv(h, {}) && (q in h.chunks || q == h.top) && q <= x < h.top
    ensures exists a :: Holds(h, a, x)
    decreases h.top - q
  {
    hide HeapInv, SizeOf, Border;
    ChunkOf(h, {}, q);
    if x < q + SizeOf(h.mem, q) {
      assert Holds(h, q, x);
    } else {
      NextBorder(h, q);
      HolderFrom(h, q + SizeOf(h.mem, q), x);
    }
  }

  lemma NextBorder(h: Shape, q: nat)
    requires HeapInv(h, {}) && q in h.chunks
    ensures var n := q + SizeOf(h.mem, q); q < n <= h.top && (n in h.chunks || n == h.top)
  {
    ChunkOf(h, {}, q);
  }

  /** Chunks tile the segment: every address below top is in exactly one of them. */
  lemma ChunksTile(h: Shape, x: nat)
    requires HeapInv(h, {}) && h.base <= x < h.top
    ensures exists a :: Holds(h, a, x)
    ensures forall a, b :: Holds(h, a, x) && Holds(h, b, x) ==> a == b
  {
    assert h.base in h.chunks || h.base == h.top;
    HolderFrom(h, h.base, x);
    ChunksApart(h);
    hide HeapInv, SizeOf;
  }

  lemma ChunksApart(h: Shape)
    requires HeapInv(h, {})
    ensures Apart(h.mem, h.chunks)
  {
  }

  /** The bytes of a live block that its owner may use: all but the head, and the foot word of
      the next chunk. */
  predicate InPayload(m: Mem, p: nat, x: nat) { p + 16 <= x < p + SizeOf(m, p) + 8 }

  lemma PayloadsDisjoint(h: Shape, p: nat, q: nat, x: nat)
    requires HeapInv(h, {}) && p in Live(h) && q in Live(h) && InPayload(h.mem, p, x) && InPayload(h.mem, q, x)
    ensures p == q && h.base <= x < h.end
  {
    ChunkOf(h, {}, p);
    ChunkOf(h, {}, q);
    BaseFirst(h, p);
    ChunksApart(h);
    hide HeapInv, SizeOf;
    assert p < q ==> p + SizeOf(h.mem, p) <= q;
    assert q < p ==> q + SizeOf(h.mem, q) <= p;
    TopRoom(h);
  }

  lemma BaseFirst(h: Shape, p: nat)
    requires HeapInv(h, {}) && p in h.chunks
    ensures h.base <= p
  {
    ChunkOkOf(h, p);
  }

  lemma TopRoom(h: Shape)
    requires HeapInv(h, {})
    ensures h.top + 16 <= h.end
  {
    TopBeforeEnd(h);
  }

  /** A free chunk is the designated victim or in the bin for its size, and nowhere else. */
  lemma FreeChunkPlace(h: Shape, a: nat)
    requires HeapInv(h, {}) && a in Free(h)
    ensures |h.smalls| == 32 && |h.trees| == 32
    ensures a == h.dv || (SizeOf(h.mem, a) < 256 && var i := SizeOf(h.mem, a) / 8; i < 32 && a in h.smalls[i])
            || (SizeOf(h.mem, a) >= 256 && var i := TreeIndex(SizeOf(h.mem, a)); i < 32 && a in Addrs(h.trees[i]))
    ensures a == h.dv ==> forall i | 0 <= i < 32 :: a !in h.smalls[i] && a !in Addrs(h.trees[i])
    ensures forall i | 0 <= i < 32 && a in h.smalls[i] :: i == SizeOf(h.mem, a) / 8
    ensures forall i | 0 <= i < 32 && a in Addrs(h.trees[i]) :: i == TreeIndex(SizeOf(h.mem, a)) && SizeOf(h.mem, a) >= 256
  {
    hide SizeOf, TreeIndex, Addrs, Tiled, SmallBinOk, TreeBinOk;
    if a in BinSet(h) { BinOf(h.mem, h.smallmap, h.treemap, h.smalls, h.trees, a); }
    BinOfChunk(h.mem, h.smallmap, h.treemap, h.smalls, h.trees, a);
  }
}
