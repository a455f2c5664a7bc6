/** Why the heap of hagen/src/malloc.c is as it is: the live blocks decide where all other chunks and top
    are, and freeing decides the designated victim. */
module OneLayout {
  import opened Chunks
  import opened TagOps
  import opened Heap
  import opened HeapSteps
  import opened HeapOps
  import opened Safety
  import opened Victim
  import opened Malloc

  /** The same blocks are live, with the same sizes, in the same segment. */
  ghost predicate SameBlocks(h: Shape, h': Shape) {
    h'.base == h.base && h'.end == h.end && Live(h') == Live(h) && forall a | a in Live(h) :: SizeOf(h'.mem, a) == SizeOf(h.mem, a)
  }

  lemma SameBlocksBack(h: Shape, h': Shape)
    requires SameBlocks(h, h')
    ensures SameBlocks(h', h)
  {
    hide SizeOf;
  }

  /** A chunk in use, and what follows it. */
  lemma BehindLive(h: Shape, a: nat)
    requires HeapInv(h, {}) && a in Live(h)
    ensures var n := a + SizeOf(h.mem, a); a < n && (n in h.chunks || n == h.top)
  {
    Linked(h, a);
  }

  /** What the tags of a chunk say of its neighbours. */
  lemma Linked(h: Shape, q: nat)
    requires HeapInv(h, {}) && q in h.chunks
    ensures var n := q + SizeOf(h.mem, q); q < n <= h.top && (n in h.chunks || n == h.top)
    ensures Pinuse(h.mem, q + SizeOf(h.mem, q)) <==> Cinuse(h.mem, q)
    ensures !Cinuse(h.mem, q) ==> var n := q + SizeOf(h.mem, q); n in h.chunks && Cinuse(h.mem, n) && Pinuse(h.mem, q)
    ensures q < h.top && h.base <= q
  {
    ChunkFacts(h.mem, h.chunks, h.base, h.top, h.end, q);
  }

  /** Before a chunk there is the base or another chunk. */
  lemma {:induction false} ChunkBeforeFrom(h: Shape, q: nat, a: nat)
    requires HeapInv(h, {}) && q in h.chunks && q < a && (a in h.chunks || a == h.top)
    ensures exists b :: b in h.chunks && b + SizeOf(h.mem, b) == a
    decreases a - q
  {
    hide HeapInv, SizeOf, Cinuse, Pinuse;
    Linked(h, q);
    NotOver(h, q, a);
    BaseBelow(h, a);
    var n := q + SizeOf(h.mem, q);
    if n < a { ChunkBeforeFrom(h, n, a); }
  }

  lemma NotOver(h: Shape, q: nat, a: nat)
    requires HeapInv(h, {}) && q in h.chunks && q < a && (a in h.chunks || a == h.top)
    ensures q + SizeOf(h.mem, q) <= a
  {
    Linked(h, q);
    ChunksApart(h);
    hide HeapInv, SizeOf, Cinuse, Pinuse;
  }

  lemma ChunkBefore(h: Shape, a: nat)
    requires HeapInv(h, {}) && (a in h.chunks || a == h.top)
    ensures a == h.base || exists b :: b in h.chunks && b + SizeOf(h.mem, b) == a
  {
    BaseBelow(h, a);
    hide HeapInv, SizeOf;
    if a != h.base { ChunkBeforeFrom(h, h.base, a); }
  }

  lemma BaseBelow(h: Shape, a: nat)
    requires HeapInv(h, {}) && (a in h.chunks || a == h.top)
    ensures h.base <= a && (h.base in h.chunks || h.base == h.top) && (a in h.chunks ==> a < h.top)
  {
    if a in h.chunks { Linked(h, a); }
  }

  /** A free chunk lies between chunks in use. */
  lemma AroundFree(h: Shape, a: nat)
    requires HeapInv(h, {}) && a in Free(h)
    ensures var n := a + SizeOf(h.mem, a); n in Live(h) && a < n
    ensures forall b | b in h.chunks && b + SizeOf(h.mem, b) == a :: b in Live(h)
  {
    hide HeapInv, SizeOf, Cinuse, Pinuse;
    Linked(h, a);
    forall b | b in h.chunks && b + SizeOf(h.mem, b) == a ensures b in Live(h) { Linked(h, b); }
  }

  lemma BeforeTop(h: Shape, b: nat)
    requires HeapInv(h, {}) && b in h.chunks && b + SizeOf(h.mem, b) == h.top
    ensures b in Live(h)
  {
    hide HeapInv, SizeOf, Cinuse, Pinuse;
    Linked(h, b);
    if !Cinuse(h.mem, b) { Linked(h, h.top); }
  }

  /** Each border between chunks of the one heap is one of the other. */
  lemma SameChunk(h: Shape, h': Shape, a: nat)
    requires HeapInv(h, {}) && HeapInv(h', {}) && SameBlocks(h, h') && a in h.chunks
    ensures a in h'.chunks
  {
    hide HeapInv, SizeOf, Cinuse;
    if a !in Live(h) {
      assert a in Free(h);
      AroundFree(h, a);
      ChunkBefore(h, a);
      var n := a + SizeOf(h.mem, a);
      BaseBelow(h', n);
      if a == h.base {
        BaseBelow(h', n);
      } else {
        var b :| b in h.chunks && b + SizeOf(h.mem, b) == a;
        BehindLive(h', b);
      }
    }
  }

  lemma SameTop(h: Shape, h': Shape)
    requires HeapInv(h, {}) && HeapInv(h', {}) && SameBlocks(h, h')
    ensures h'.top <= h.top
  {
    hide HeapInv, SizeOf, Cinuse;
    ChunkBefore(h', h'.top);
    BaseBelow(h, h.top);
    if h'.top != h'.base {
      var b :| b in h'.chunks && b + SizeOf(h'.mem, b) == h'.top;
      BeforeTop(h', b);
      ChunkOf(h, {}, b);
    }
  }

  lemma SameLength(h: Shape, h': Shape, a: nat)
    requires HeapInv(h, {}) && HeapInv(h', {}) && h'.chunks == h.chunks && h'.top == h.top && a in h.chunks
    ensures SizeOf(h'.mem, a) <= SizeOf(h.mem, a)
  {
    hide HeapInv, SizeOf, Cinuse, Pinuse;
    Linked(h, a);
    NotOver(h', a, a + SizeOf(h.mem, a));
  }

  /** Two heaps with the same blocks have the same chunks: what is free between two blocks is one chunk,
      and what is free behind the last one is top. */
  lemma LayoutByLive(h: Shape, h': Shape)
    requires HeapInv(h, {}) && HeapInv(h', {}) && SameBlocks(h, h')
    ensures h'.chunks == h.chunks && h'.top == h.top && forall a | a in h.chunks :: SizeOf(h'.mem, a) == SizeOf(h.mem, a)
  {
    hide HeapInv, SizeOf, SameBlocks;
    SameBlocksBack(h, h');
    SameTop(h, h');
    SameTop(h', h);
    forall a | a in h.chunks ensures a in h'.chunks { SameChunk(h, h', a); }
    forall a | a in h'.chunks ensures a in h.chunks { SameChunk(h', h, a); }
    forall a | a in h.chunks ensures SizeOf(h'.mem, a) == SizeOf(h.mem, a) {
      SameLength(h, h', a);
      SameLength(h', h, a);
    }
  }

  /** So freeing decides the victim: two ways of freeing that leave the same blocks leave the same victim. */
  lemma VictimByLive(h: Shape, h1: Shape, h2: Shape)
    requires HeapInv(h, {}) && HeapInv(h1, {}) && HeapInv(h2, {}) && SameBlocks(h1, h2)
    requires VictimGrows(h, h1) && VictimGrows(h, h2)
    ensures h2.dv == h1.dv && h2.dvsize == h1.dvsize
  {
    LayoutByLive(h1, h2);
    VictimIs(h, {});
    VictimIs(h1, {});
    VictimIs(h2, {});
    ChunksApart(h1);
    hide HeapInv, SizeOf;
  }

  /** In whatever order and by whatever operations the chunks of `gone` are freed, the same chunks, top and
      victim are left. */
  lemma FreedAlike(h: Shape, h1: Shape, h2: Shape, gone: set<nat>)
    requires HeapInv(h, {}) && HeapInv(h1, {}) && HeapInv(h2, {}) && h2.base == h1.base && h2.end == h1.end
    requires Moved(h, h1, gone, {}) && VictimGrows(h, h1) && Moved(h, h2, gone, {}) && VictimGrows(h, h2)
    ensures h2.chunks == h1.chunks && h2.top == h1.top && h2.dv == h1.dv && h2.dvsize == h1.dvsize
    ensures forall a | a in h1.chunks :: SizeOf(h2.mem, a) == SizeOf(h1.mem, a)
  {
    BothKept(h, h1, h2, gone);
    hide HeapInv, SizeOf, SameBlocks, VictimGrows;
    LayoutByLive(h1, h2);
    VictimByLive(h, h1, h2);
  }

  lemma BothKept(h: Shape, h1: Shape, h2: Shape, gone: set<nat>)
    requires Moved(h, h1, gone, {}) && Moved(h, h2, gone, {}) && h2.base == h1.base && h2.end == h1.end
    ensures SameBlocks(h1, h2)
  {
    hide SizeOf, Cinuse;
    forall a | a in Live(h1) ensures SizeOf(h2.mem, a) == SizeOf(h1.mem, a) {
      assert a in Live(h) - gone;
      assert PayloadKept(h.mem, h1.mem, a) && PayloadKept(h.mem, h2.mem, a);
    }
  }

  /** And serving a request from a given chunk leaves the same, with the same lists and tries. */
  lemma ServedAlike(h: Shape, h1: Shape, h2: Shape, nb: nat, p: nat)
    requires HeapInv(h1, {}) && HeapInv(h2, {}) && h2.base == h1.base && h2.end == h1.end
    requires Allocated(h, h1, nb, p) && Allocated(h, h2, nb, p)
    ensures h2.chunks == h1.chunks && h2.top == h1.top && h2.dv == h1.dv && h2.dvsize == h1.dvsize
    ensures h2.smalls == h1.smalls && h2.trees == h1.trees
    ensures forall a | a in h1.chunks :: SizeOf(h2.mem, a) == SizeOf(h1.mem, a)
  {
    assert SameBlocks(h1, h2) by {
      hide SizeOf, Cinuse;
      forall a | a in Live(h1) ensures SizeOf(h2.mem, a) == SizeOf(h1.mem, a) {
        if a != p {
          assert a in Live(h) - {};
          assert PayloadKept(h.mem, h1.mem, a) && PayloadKept(h.mem, h2.mem, a);
        }
      }
    }
    hide HeapInv, SizeOf, SameBlocks, ListsAfter, TreesAfter, Moved;
    LayoutByLive(h1, h2);
  }
}
