/** The designated victim (hagen/src/malloc.c:2070-2080, 3607-3744, 3919-4001): how a free chunk is cut, and
    which victim every operation leaves. */
module Victim {
  import opened BinMaps
  import opened Chunks
  import opened Trie
  import opened Bins
  import opened Heap
  import opened HeapSteps

  /** The size of a chunk for nb bytes cut out of one of `avail` bytes: less than a minimal chunk is not
      split off. */
  function Trimmed(avail: nat, nb: nat): nat { if avail >= nb + MIN_CHUNK then nb else avail }

  ghost predicate SameVictim(h: Shape, h': Shape) { h'.dv == h.dv && h'.dvsize == h.dvsize && h'.top == h.top }

  ghost predicate HasVictim(h: Shape, dv: nat, dvsize: int) { h.dv == dv && h.dvsize == dvsize }

  /** The lists of the small bins with chunk `x` put in front of the one for its size, or without the first
      chunk of that size.  Sizes from 256 bytes on have no list. */
  function Pushed(smalls: seq<seq<nat>>, size: nat, x: nat): seq<seq<nat>> {
    if size / 8 < |smalls| then smalls[size / 8 := [x] + smalls[size / 8]] else smalls
  }

  function Popped(smalls: seq<seq<nat>>, size: nat): seq<seq<nat>> {
    if size / 8 < |smalls| && smalls[size / 8] != [] then smalls[size / 8 := smalls[size / 8][1..]] else smalls
  }

  predicate FirstOfSize(smalls: seq<seq<nat>>, size: nat, p: nat) {
    size / 8 < |smalls| ==> smalls[size / 8] != [] && p == smalls[size / 8][0]
  }

  /** The lists once the chunk at `p` has served: it was the first of its size; what a large request leaves
      is binned, and so is the old victim where there is a new one. */
  ghost function ListsAfter(h: Shape, nb: nat, p: nat): seq<seq<nat>> {
    var avail := SizeOf(h.mem, p);
    var rest := Popped(h.smalls, avail);
    if p == h.top || p == h.dv then h.smalls
    else if avail < nb + MIN_CHUNK then rest
    else if nb >= 256 then Pushed(rest, avail - nb, p + nb)
    else if h.dvsize != 0 then Pushed(rest, h.dvsize, h.dv)
    else rest
  }

  /** The tries of the treebins with chunk `x` added to the one for its size, or without it.  Sizes below 256
      bytes have none. */
  ghost function Planted(trees: seq<Tree>, size: nat, x: nat): seq<Tree> {
    var i := TreeIndex(size);
    if size >= 256 && i < |trees| && InRange(size, BinLo(i), BinBits(i)) && TrieOk(trees[i], BinLo(i), BinBits(i))
    then trees[i := InsertT(trees[i], x, size, BinLo(i), BinBits(i))]
    else trees
  }

  ghost function Uprooted(trees: seq<Tree>, size: nat, x: nat): seq<Tree> {
    var i := TreeIndex(size);
    if size >= 256 && i < |trees| && Distinct(trees[i]) && x in Addrs(trees[i]) then trees[i := RemoveT(trees[i], x)] else trees
  }

  ghost predicate MemberOfSize(trees: seq<Tree>, size: nat, p: nat) {
    size >= 256 ==> var i := TreeIndex(size); i < |trees| && p in Heads(trees[i])
  }

  /** And the tries. */
  ghost function TreesAfter(h: Shape, nb: nat, p: nat): seq<Tree> {
    var avail := SizeOf(h.mem, p);
    if p == h.top || p == h.dv then h.trees
    else if avail >= nb + MIN_CHUNK && nb >= 256 then Planted(Uprooted(h.trees, avail, p), avail - nb, p + nb)
    else Uprooted(h.trees, avail, p)
  }

  /** The chunk at `p`, free or top, has been cut for nb bytes: what is left of the victim is the victim again,
      what a small request leaves of a binned chunk becomes the victim, and otherwise the victim stays. */
  ghost predicate Carved(h: Shape, h': Shape, nb: nat, p: nat) {
    var avail := SizeOf(h.mem, p);
    && h'.smalls == ListsAfter(h, nb, p) && h'.trees == TreesAfter(h, nb, p)
    && if p == h.top then SizeOf(h'.mem, p) == nb && h'.top == p + nb && HasVictim(h', h.dv, h.dvsize)
       else
         && SizeOf(h'.mem, p) == Trimmed(avail, nb) && h'.top == h.top
         && (p != h.dv ==> FirstOfSize(h.smalls, avail, p) && MemberOfSize(h.trees, avail, p))
         && if p != h.dv && (nb >= 256 || avail < nb + MIN_CHUNK) then HasVictim(h', h.dv, h.dvsize)
            else if avail >= nb + MIN_CHUNK then HasVictim(h', p + nb, avail - nb)
            else HasVictim(h', 0, 0)
  }

  /** Only freeing has happened: the victim is there still, perhaps as part of a larger chunk, unless top
      has taken it in. */
  ghost predicate VictimGrows(h: Shape, h': Shape) {
    && h'.top <= h.top
    && if h.dv == 0 || h'.top <= h.dv then h'.dv == 0
       else 0 < h'.dv <= h.dv && h.dv + h.dvsize <= h'.dv + h'.dvsize
  }

  lemma GrowsNot(h: Shape, loose: set<nat>, h': Shape)
    requires HeapInv(h, loose) && SameVictim(h, h')
    ensures VictimGrows(h, h')
  {
    if h.dv != 0 { ChunkOf(h, loose, h.dv); }
  }

  lemma GrowsFirst(h: Shape, h1: Shape, h2: Shape)
    requires SameVictim(h, h1) && VictimGrows(h1, h2)
    ensures VictimGrows(h, h2)
  {
  }

  lemma GrowsLast(h: Shape, h1: Shape, h2: Shape)
    requires VictimGrows(h, h1) && SameVictim(h1, h2)
    ensures VictimGrows(h, h2)
  {
  }

  lemma GrowsThen(h: Shape, h1: Shape, h2: Shape)
    requires HeapInv(h, {}) && HeapInv(h2, {}) && VictimGrows(h, h1) && VictimGrows(h1, h2)
    ensures VictimGrows(h, h2)
  {
    if h.dv != 0 { ChunkOf(h, {}, h.dv); }
    if h2.dv != 0 { ChunkOf(h2, {}, h2.dv); }
  }

  /** The block at `p` has been resized in place: it is cut from what it and, to grow, the chunk behind it
      have; what it leaves of the victim is the victim again. */
  ghost predicate Refits(h: Shape, h': Shape, p: nat, nb: nat) {
    var size := SizeOf(h.mem, p);
    var next := p + size;
    var avail := if size >= nb then size else size + SizeOf(h.mem, next);
    if size < nb && next == h.top then SizeOf(h'.mem, p) == nb && h'.top == p + nb && HasVictim(h', h.dv, h.dvsize)
    else
      && SizeOf(h'.mem, p) == Trimmed(avail, nb)
      && if size >= nb || next != h.dv then VictimGrows(h, h')
         else h'.top == h.top && if avail >= nb + MIN_CHUNK then HasVictim(h', p + nb, avail - nb) else HasVictim(h', 0, 0)
  }

  lemma VictimIs(h: Shape, loose: set<nat>)
    requires HeapInv(h, loose)
    ensures if h.dv == 0 then h.dvsize == 0 else h.dv in h.chunks && SizeOf(h.mem, h.dv) == h.dvsize && h.dvsize > 0 && h.dv < h.top
  {
    if h.dv != 0 { ChunkOf(h, loose, h.dv); }
  }
}
