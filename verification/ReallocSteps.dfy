/** Resizing a chunk in place (hagen/src/malloc.c, `try_realloc_chunk`). */
module ReallocSteps {
  import opened Words
  import opened Chunks
  import opened Tags
  import opened TagOps
  import opened Bins
  import opened Heap
  import opened HeapSteps
  import opened HeapOps
  import opened FreeSteps

  function Min(a: nat, b: nat): nat { if a < b then a else b }

  /** The payload of `p` is as it was up to chunk size `n`. */
  ghost predicate PrefixKept(m: Mem, m': Mem, p: nat, n: nat) {
    forall w: nat {:trigger Rd(m', w)} | p + 16 <= w <= p + n :: Rd(m', w) == Rd(m, w)
  }

  /** `p` has been resized to hold nb bytes: it keeps what both sizes have room for, and all
      other live chunks keep everything. */
  ghost predicate Resized(h: Shape, h': Shape, p: nat, nb: nat) {
    && Moved(h, h', {p}, {p}) && nb <= SizeOf(h'.mem, p) < nb + MIN_CHUNK
    && PrefixKept(h.mem, h'.mem, p, Min(SizeOf(h.mem, p), SizeOf(h'.mem, p)))
  }

  /** The chunk can hold nb bytes where it is. */
  ghost predicate FitsInPlace(h: Shape, p: nat, nb: nat) {
    var size := SizeOf(h.mem, p);
    var next := p + size;
    || size >= nb
    || (next == h.top && h.end - p > nb)
    || (next != h.top && !Cinuse(h.mem, next) && size + SizeOf(h.mem, next) >= nb)
  }

  lemma LiveChunk(h: Shape, p: nat)
    requires HeapInv(h, {}) && p in Live(h)
    ensures p in h.chunks && Cinuse(h.mem, p) && Aligned(SizeOf(h.mem, p)) && SizeOf(h.mem, p) >= MIN_CHUNK && p >= FLOOR && Aligned(p)
    ensures Run(h.chunks, p, SizeOf(h.mem, p), {p}) && Border(h.chunks, h.top, p, SizeOf(h.mem, p))
    ensures FreeOf(h.mem, {p}) == {} && LiveOf(h.mem, {p}) == {p} && p + SizeOf(h.mem, p) <= h.top < h.end
  {
    ChunkOf(h, {}, p);
    OneRun(h, p);
  }

  /** Nothing needs to be done: the chunk is large enough, without room for another one. */
  lemma ResizedAsIs(h: Shape, p: nat, nb: nat)
    requires p in Live(h) && nb <= SizeOf(h.mem, p) < nb + MIN_CHUNK
    ensures Resized(h, h, p, nb)
  {
    assert Live(h) == Live(h) - {p} + {p};
  }

  /** The chunk and what follows it, up to a border, have become two chunks in use. */
  lemma SplitRun(h: Shape, p: nat, nb: nat, len: nat, gone: set<nat>)
    requires HeapInv(h, FreeOf(h.mem, gone)) && Run(h.chunks, p, len, gone) && Border(h.chunks, h.top, p, len)
    requires Cinuse(h.mem, p) && LiveOf(h.mem, gone) == {p} && SizeOf(h.mem, p) <= len
    requires MIN_CHUNK <= nb && nb + MIN_CHUNK <= len && Aligned(nb) && Aligned(len)
    ensures var h' := h.(mem := SetInuse(SetInuse(h.mem, p, nb), p + nb, len - nb), chunks := h.chunks - gone + {p, p + nb});
            HeapInv(h', {}) && Moved(h, h', {p}, {p, p + nb}) && SizeOf(h'.mem, p) == nb && SizeOf(h'.mem, p + nb) == len - nb
            && PrefixKept(h.mem, h'.mem, p, Min(SizeOf(h.mem, p), nb)) && {p, p + nb} <= Live(h')
  {
    hide HeapInv, Cinuse, SizeOf, Moved, Aligned, SetInuse, Live;
    var m' := SetInuse(SetInuse(h.mem, p, nb), p + nb, len - nb);
    InuseSplit(h, m', p, nb, len, gone);
    SplitPrefix(h.mem, p, nb, len, Min(SizeOf(h.mem, p), nb));
    MovedNew(h, h.(mem := m', chunks := h.chunks - gone + {p, p + nb}), {p}, {p, p + nb});
  }

  lemma MovedNew(h: Shape, h': Shape, old_: set<nat>, new_: set<nat>)
    requires Moved(h, h', old_, new_)
    ensures new_ <= Live(h')
  {
  }

  lemma SplitPrefix(m: Mem, p: nat, nb: nat, len: nat, n: nat)
    requires n <= nb <= len
    ensures PrefixKept(m, SetInuse(SetInuse(m, p, nb), p + nb, len - nb), p, n)
  {
    hide Pinuse, PinuseBit;
  }

  /** Then the second of the two is freed. */
  lemma ResizedBySplit(h: Shape, h1: Shape, h2: Shape, p: nat, nb: nat)
    requires p in Live(h) && p + nb !in Live(h) - {p} && nb > 0
    requires Moved(h, h1, {p}, {p, p + nb}) && Moved(h1, h2, {p + nb}, {})
    requires SizeOf(h1.mem, p) == nb && PrefixKept(h.mem, h1.mem, p, Min(SizeOf(h.mem, p), nb))
    ensures Resized(h, h2, p, nb)
  {
    hide SizeOf, Cinuse;
    assert PayloadKept(h1.mem, h2.mem, p) by { assert p in Live(h1) - {p + nb}; }
    MovedThen(h, h1, h2, {p}, {p, p + nb}, {p + nb}, {});
    assert {p} + ({p + nb} - {p, p + nb}) == {p} && {p, p + nb} - {p + nb} + {} == {p};
  }

  /** The second chunk was not live before: it begins inside the run. */
  lemma InsideNotLive(h: Shape, p: nat, nb: nat, len: nat, gone: set<nat>)
    requires Run(h.chunks, p, len, gone) && LiveOf(h.mem, gone) == {p} && nb < len
    ensures p + nb !in Live(h) - {p}
  {
    hide Cinuse;
    assert forall a | a in Live(h) && a in gone :: a in LiveOf(h.mem, gone);
  }

  /** The chunk takes in the whole run. */
  lemma ResizedWhole(h: Shape, p: nat, nb: nat, len: nat, gone: set<nat>)
    requires HeapInv(h, FreeOf(h.mem, gone)) && Run(h.chunks, p, len, gone) && Border(h.chunks, h.top, p, len)
    requires Cinuse(h.mem, p) && LiveOf(h.mem, gone) == {p} && SizeOf(h.mem, p) <= len
    requires Aligned(len) && len >= MIN_CHUNK && nb <= len < nb + MIN_CHUNK
    ensures var h' := h.(mem := SetInuse(h.mem, p, len), chunks := h.chunks - gone + {p});
            HeapInv(h', {}) && Resized(h, h', p, nb) && SizeOf(h'.mem, p) == len
  {
    hide HeapInv, Cinuse, SizeOf, Moved, Aligned, SetInuse;
    InuseRun(h, p, len, gone);
    WholePrefix(h.mem, p, len, SizeOf(h.mem, p));
  }

  lemma WholePrefix(m: Mem, p: nat, len: nat, n: nat)
    requires n <= len
    ensures PrefixKept(m, SetInuse(m, p, len), p, n)
  {
    hide Pinuse, PinuseBit;
  }

  /** The chunk takes in the front of top. */
  lemma ResizedIntoTop(h: Shape, p: nat, nb: nat)
    requires HeapInv(h, {}) && p in Live(h) && p + SizeOf(h.mem, p) == h.top
    requires Aligned(nb) && MIN_CHUNK <= nb && p + nb < h.end && SizeOf(h.mem, p) <= nb
    ensures var h' := h.(mem := SetInuse(h.mem, p, nb)[p + nb + 8 := h.end - (p + nb) + 1], top := p + nb);
            HeapInv(h', {}) && Resized(h, h', p, nb) && SizeOf(h'.mem, p) == nb
  {
    hide HeapInv, Cinuse, SizeOf, Moved, Aligned, SetInuse, Live;
    GrowLast(h, p, nb);
    var m' := SetInuse(h.mem, p, nb)[p + nb + 8 := h.end - (p + nb) + 1];
    TopPrefix(h.mem, p, nb, SizeOf(h.mem, p), h.end - (p + nb) + 1);
  }

  lemma TopPrefix(m: Mem, p: nat, nb: nat, n: nat, v: nat)
    requires n <= nb
    ensures PrefixKept(m, SetInuse(m, p, nb)[p + nb + 8 := v], p, n)
  {
    hide Pinuse, PinuseBit;
  }

  /** The chunk takes in the front of the designated victim. */
  lemma ResizedIntoDv(h: Shape, p: nat, nb: nat)
    requires HeapInv(h, {}) && p in Live(h) && p + SizeOf(h.mem, p) == h.dv && h.dv != h.top
    requires Aligned(nb) && MIN_CHUNK <= nb && SizeOf(h.mem, p) <= nb && nb + MIN_CHUNK <= SizeOf(h.mem, p) + h.dvsize
    ensures var len := SizeOf(h.mem, p) + h.dvsize;
            var h' := h.(mem := ClearPinuse(SetSizeOfFree(SetInuse(h.mem, p, nb), p + nb, len - nb), p + len),
                         chunks := h.chunks - {p, h.dv} + {p, p + nb}, dv := p + nb, dvsize := len - nb);
            HeapInv(h', {}) && Resized(h, h', p, nb) && SizeOf(h'.mem, p) == nb
  {
    hide HeapInv, Cinuse, SizeOf, Moved, Aligned, SetInuse, SetSizeOfFree, ClearPinuse, Live, Binned;
    DvRun(h, p);
    var len := SizeOf(h.mem, p) + h.dvsize;
    var w := h.(dv := 0, dvsize := 0);
    InuseFront(w, p, nb, len, {p, h.dv});
    var m' := ClearPinuse(SetSizeOfFree(SetInuse(h.mem, p, nb), p + nb, len - nb), p + len);
    var w' := w.(mem := m', chunks := h.chunks - {p, h.dv} + {p, p + nb});
    DvChosen(w', {p + nb}, p + nb);
    assert {p + nb} - {p + nb} == {};
    MovedBetween(w, w', h, w'.(dv := p + nb, dvsize := len - nb), {p}, {p});
    FrontPrefix(h.mem, p, nb, len, SizeOf(h.mem, p));
  }

  lemma FrontPrefix(m: Mem, p: nat, nb: nat, len: nat, n: nat)
    requires n <= nb < len
    ensures PrefixKept(m, ClearPinuse(SetSizeOfFree(SetInuse(m, p, nb), p + nb, len - nb), p + len), p, n)
  {
    hide Pinuse, PinuseBit;
  }

  /** The chunk and the designated victim behind it. */
  lemma DvRun(h: Shape, p: nat)
    requires HeapInv(h, {}) && p in Live(h) && p + SizeOf(h.mem, p) == h.dv && h.dv != h.top
    ensures var len := SizeOf(h.mem, p) + h.dvsize; var gone := {p, h.dv};
            && HeapInv(h.(dv := 0, dvsize := 0), FreeOf(h.mem, gone)) && Run(h.chunks, p, len, gone)
            && Border(h.chunks, h.top, p, len) && Aligned(len) && LiveOf(h.mem, gone) == {p} && Cinuse(h.mem, p)
            && p + len in h.chunks && Cinuse(h.mem, p + len) && h.dvsize >= MIN_CHUNK
  {
    hide HeapInv, SizeOf, Cinuse, Pinuse, Binned;
    LiveChunk(h, p);
    DvFactsOf(h, {});
    ChunkFacts(h.mem, h.chunks, h.base, h.top, h.end, h.dv);
    TwoRun(h, p, h.dv);
    DvLoose(h, {});
    assert FreeOf(h.mem, {p, h.dv}) == {} + DvSet(h.dv);
    AlignedSum(SizeOf(h.mem, p), h.dvsize);
  }

  /** The chunk and the binned chunk behind it, after that has been unlinked. */
  lemma NextRun(h: Shape, h1: Shape, p: nat, n: nat)
    requires HeapInv(h, {}) && p in Live(h) && n == p + SizeOf(h.mem, p) && n in BinSet(h)
    requires HeapInv(h1, {n}) && TagsKept(h.mem, h1.mem, h.chunks) && Moved(h, h1, {}, {})
    requires h1.chunks == h.chunks && h1.top == h.top && h1.base == h.base && h1.end == h.end
    ensures HeapInv(h1, FreeOf(h1.mem, {p, n})) && LiveOf(h1.mem, {p, n}) == {p} && Cinuse(h1.mem, p)
    ensures var len := SizeOf(h.mem, p) + SizeOf(h.mem, n);
            && Run(h1.chunks, p, len, {p, n}) && Border(h1.chunks, h1.top, p, len) && Aligned(len) && len >= MIN_CHUNK
    ensures SizeOf(h1.mem, p) == SizeOf(h.mem, p) && PrefixKept(h.mem, h1.mem, p, SizeOf(h.mem, p))
  {
    hide HeapInv, SizeOf, Cinuse, Pinuse, Binned, BinsOk, TagsOk, Run, Border, Sorted, TagsKept, Tiled, Aligned, FreeOf, LiveOf,
         LiveKept, Free, Live, Moved;
    LiveChunk(h, p);
    BinnedIsFree(h, {}, n);
    TagsOfKept(h, h1, n);
    TagsOfKept(h, h1, p);
    DvFactsOf(h1, {n});
    FreeChunkFacts(h1, n);
    TwoRun(h1, p, n);
    PairInHand(h1, p, n);
    AlignedSum(SizeOf(h.mem, p), SizeOf(h.mem, n));
    KeptPrefix(h, h1, p);
    assert Border(h1.chunks, h1.top, p, SizeOf(h.mem, p) + SizeOf(h.mem, n)) by { BorderAt(h1, p, n); }
  }

  lemma BorderAt(h: Shape, p: nat, n: nat)
    requires p in h.chunks && n == p + SizeOf(h.mem, p) && n + SizeOf(h.mem, n) in h.chunks
    ensures Border(h.chunks, h.top, p, SizeOf(h.mem, p) + SizeOf(h.mem, n))
  {
  }

  lemma FreeChunkFacts(h: Shape, n: nat)
    requires Tiled(h) && n in h.chunks && !Cinuse(h.mem, n)
    ensures Aligned(SizeOf(h.mem, n)) && SizeOf(h.mem, n) >= MIN_CHUNK
    ensures n + SizeOf(h.mem, n) in h.chunks && Cinuse(h.mem, n + SizeOf(h.mem, n))
  {
    ChunkFacts(h.mem, h.chunks, h.base, h.top, h.end, n);
  }

  lemma PairInHand(h: Shape, p: nat, n: nat)
    requires Cinuse(h.mem, p) && !Cinuse(h.mem, n)
    ensures FreeOf(h.mem, {p, n}) == {n} && LiveOf(h.mem, {p, n}) == {p}
  {
  }

  lemma KeptPrefix(h: Shape, h1: Shape, p: nat)
    requires Moved(h, h1, {}, {}) && p in Live(h)
    ensures PrefixKept(h.mem, h1.mem, p, SizeOf(h.mem, p))
  {
    assert p in Live(h) - {} && PayloadKept(h.mem, h1.mem, p);
  }

  /** What follows a live chunk. */
  lemma AfterLive(h: Shape, p: nat)
    requires HeapInv(h, {}) && p in Live(h)
    ensures var n := p + SizeOf(h.mem, p);
            if n == h.top then !Cinuse(h.mem, n)
            else n in h.chunks && (Cinuse(h.mem, n) || n == h.dv || n in BinSet(h))
                 && (n == h.dv ==> !Cinuse(h.mem, n) && SizeOf(h.mem, n) == h.dvsize)
  {
    hide SizeOf, Cinuse, Binned, BinsOk, TagsOk;
    LiveChunk(h, p);
    var n := p + SizeOf(h.mem, p);
    if n == h.top { TopBeforeEnd(h); } else { assert !Cinuse(h.mem, n) ==> n in Free(h); }
  }

  lemma ResizedThen(h: Shape, h1: Shape, h2: Shape, p: nat, nb: nat)
    requires Moved(h, h1, {}, {}) && Resized(h1, h2, p, nb) && SizeOf(h1.mem, p) == SizeOf(h.mem, p)
    requires PrefixKept(h.mem, h1.mem, p, SizeOf(h.mem, p))
    ensures Resized(h, h2, p, nb)
  {
    hide SizeOf, Moved;
    MovedFirst(h, h1, h2, {p}, {p});
  }

  /* ---------------- the payload as its user sees it ---------------- */

  /** A store into the payload of a live chunk. */
  lemma PayloadWrite(h: Shape, p: nat, w: nat, v: nat)
    requires HeapInv(h, {}) && p in Live(h) && p + 16 <= w <= p + SizeOf(h.mem, p)
    ensures var h' := h.(mem := h.mem[w := v]);
            HeapInv(h', {}) && Moved(h, h', {p}, {p}) && SizeOf(h'.mem, p) == SizeOf(h.mem, p) && TagsSame(h.mem, h'.mem, p)
  {
    hide HeapInv, Moved, SizeOf, Cinuse, Pinuse, Run, SpanOnly, TagsOk, FreeOf, LiveOf, Border, FlagsOk;
    var m' := h.mem[w := v];
    LiveChunk(h, p);
    WriteTags(h.mem, p, w, v);
    WriteRetiled(h, p, w, v);
    PayloadSets(m', p);
    assert h.chunks - {p} + {p} == h.chunks;
    SpanOp(h, m', p, SizeOf(h.mem, p), {p}, {p});
  }

  ghost predicate TagsSame(m: Mem, m': Mem, p: nat) {
    Head(m', p) == Head(m, p)
  }

  lemma PayloadSets(m: Mem, p: nat)
    requires Cinuse(m, p)
    ensures FreeOf(m, {p}) == {} && LiveOf(m, {p}) == {p}
  {
  }

  lemma WriteTags(m: Mem, p: nat, w: nat, v: nat)
    requires p + 16 <= w <= p + SizeOf(m, p)
    ensures var m' := m[w := v];
            && SpanOnly(m, m', p, SizeOf(m, p)) && TagsSame(m, m', p) && Head(m', p + SizeOf(m, p)) == Head(m, p + SizeOf(m, p))
            && SizeOf(m', p) == SizeOf(m, p) && (Cinuse(m', p) <==> Cinuse(m, p))
  {
    var m' := m[w := v];
    assert Head(m', p) == Head(m, p) && Head(m', p + SizeOf(m, p)) == Head(m, p + SizeOf(m, p));
    SameHead(m, m', p);
    SameHead(m, m', p + SizeOf(m, p));
    hide SizeOf, Cinuse, Pinuse;
  }

  lemma WriteRetiled(h: Shape, p: nat, w: nat, v: nat)
    requires HeapInv(h, {}) && p in Live(h) && p + 16 <= w <= p + SizeOf(h.mem, p)
    ensures TagsOk(h.mem[w := v], h.chunks - {p} + {p}, h.base, h.top, h.end)
  {
    hide Sorted, BinsIntact, SizeOf, Cinuse, Pinuse, TagsOk, SpanOnly, FlagsOk;
    var m' := h.mem[w := v];
    var s := SizeOf(h.mem, p);
    WriteTags(h.mem, p, w, v);
    ChunkFacts(h.mem, h.chunks, h.base, h.top, h.end, p);
    SameHead(h.mem, m', p);
    SameHead(h.mem, m', p + s);
    OneRun(h, p);
    OneChunk(h.mem, m', h.chunks, h.base, h.top, h.end, p, s, true);
  }

  /** The words of a user's block: those that fit in what malloc has given out. */
  ghost predicate SameWords(m: Mem, from: nat, m': Mem, to: nat, bytes: nat) {
    forall i: nat {:trigger Word(m', to, i)} | 8 * i + 8 <= bytes :: Word(m', to, i) == Word(m, from, i)
  }

  function Word(m: Mem, at: nat, i: nat): nat { Rd(m, at + 8 * i) }

  lemma PrefixWords(m: Mem, m': Mem, p: nat, n: nat)
    requires PrefixKept(m, m', p, n) && n >= 8
    ensures SameWords(m, p + 16, m', p + 16, n - 8)
  {
  }

  lemma KeptWords(h: Shape, h': Shape, old_: set<nat>, new_: set<nat>, p: nat)
    requires Moved(h, h', old_, new_) && p in Live(h) - old_ && SizeOf(h.mem, p) >= 8
    ensures SameWords(h.mem, p + 16, h'.mem, p + 16, SizeOf(h.mem, p) - 8) && SizeOf(h'.mem, p) == SizeOf(h.mem, p)
  {
    assert PayloadKept(h.mem, h'.mem, p);
    hide SizeOf;
  }
}
