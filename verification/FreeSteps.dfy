/** Consolidation (hagen/src/malloc.c, `dispose_chunk`): a chunk in use is freed together
    with its free neighbours. */
module FreeSteps {
  import opened Chunks
  import opened Tags
  import opened TagOps
  import opened Bins
  import opened Heap
  import opened HeapSteps
  import opened HeapOps

  /** The run of chunks `gone`, from `q` on, is about to become one free chunk: `p` is the only
      one in use. */
  ghost predicate Freeing(h: Shape, q: nat, len: nat, gone: set<nat>, p: nat) {
    && Run(h.chunks, q, len, gone) && Border(h.chunks, h.top, q, len) && q in gone
    && Aligned(len) && len >= MIN_CHUNK && Pinuse(h.mem, q)
    && LiveOf(h.mem, gone) == {p} && FreeOf(h.mem, gone) <= {q} - {p}
  }

  /** Without the designated victim, if that is in the run. */
  ghost function Released(h: Shape, gone: set<nat>): Shape {
    if h.dv in gone then h.(dv := 0, dvsize := 0) else h
  }

  lemma InHand(h: Shape, gone: set<nat>)
    requires gone <= h.chunks && HeapInv(h, FreeOf(h.mem, gone) - DvSet(h.dv))
    ensures HeapInv(Released(h, gone), FreeOf(h.mem, gone))
  {
    hide Tiled, BinsIntact, Cinuse, Binned;
    var loose := FreeOf(h.mem, gone) - DvSet(h.dv);
    DvFactsOf(h, loose);
    if h.dv in gone {
      DvLoose(h, loose);
      assert loose + DvSet(h.dv) == FreeOf(h.mem, gone);
    } else {
      assert loose == FreeOf(h.mem, gone);
    }
  }

  lemma DvFactsOf(h: Shape, loose: set<nat>)
    requires HeapInv(h, loose)
    ensures h.dv != 0 ==> h.dv in h.chunks && !Cinuse(h.mem, h.dv) && SizeOf(h.mem, h.dv) == h.dvsize
    ensures 0 !in h.chunks && Tiled(h) && Sorted(h, loose)
  {
    BaseNotNull(h);
  }

  lemma AloneReady(h: Shape, p: nat)
    requires HeapInv(h, {}) && p in Live(h) && Pinuse(h.mem, p)
    ensures Freeing(h, p, SizeOf(h.mem, p), {p}, p)
    ensures FreeOf(h.mem, {p}) == {} && h.dv != p
  {
    ChunkOf(h, {}, p);
    OneRun(h, p);
    hide SizeOf, Cinuse, Pinuse, TagsOk, BinsOk, Binned;
  }

  /** The free chunk before `p`. */
  lemma BehindReady(h: Shape, p: nat)
    requires HeapInv(h, {}) && p in Live(h) && !Pinuse(h.mem, p)
    ensures Foot(h.mem, p) <= p
    ensures var prev := p - Foot(h.mem, p);
            && prev in Free(h) && SizeOf(h.mem, prev) == Foot(h.mem, p)
            && Freeing(h, prev, Foot(h.mem, p) + SizeOf(h.mem, p), {prev, p}, p)
            && FreeOf(h.mem, {prev, p}) == {prev} && (prev == h.dv || prev in BinSet(h))
            && Pinuse(h.mem, p + SizeOf(h.mem, p))
  {
    hide SizeOf, Cinuse, Pinuse, BinsOk, Binned, TagsOk, Foot;
    ChunkOkOf(h, p);
    var prev := p - Foot(h.mem, p);
    ChunkOf(h, {}, p);
    ChunkOf(h, {}, prev);
    ChunkFacts(h.mem, h.chunks, h.base, h.top, h.end, prev);
    ChunkFacts(h.mem, h.chunks, h.base, h.top, h.end, p);
    TwoRun(h, prev, p);
    assert prev in Free(h);
  }

  lemma TwoRun(h: Shape, a: nat, b: nat)
    requires Tiled(h) && a in h.chunks && b in h.chunks && a + SizeOf(h.mem, a) == b
    ensures Run(h.chunks, a, SizeOf(h.mem, a) + SizeOf(h.mem, b), {a, b})
  {
    ChunkOkOf(h, a);
    ChunkOkOf(h, b);
    hide ChunkOk, SizeOf;
  }

  /** Taking a chunk out of its bin leaves the run as it is. */
  lemma StillReady(h: Shape, h': Shape, q: nat, len: nat, gone: set<nat>, p: nat)
    requires Freeing(h, q, len, gone, p) && TagsKept(h.mem, h'.mem, h.chunks)
    requires h'.chunks == h.chunks && h'.top == h.top
    ensures Freeing(h', q, len, gone, p) && FreeOf(h'.mem, gone) == FreeOf(h.mem, gone)
  {
    hide SizeOf, Cinuse, Pinuse;
    assert forall a | a in gone :: a in h.chunks && (Cinuse(h'.mem, a) <==> Cinuse(h.mem, a));
    assert FreeOf(h'.mem, gone) == FreeOf(h.mem, gone) && LiveOf(h'.mem, gone) == LiveOf(h.mem, gone);
  }

  /** What follows the run: top, a chunk in use, the designated victim, or a binned chunk. */
  lemma AfterRun(h: Shape, q: nat, len: nat, gone: set<nat>, p: nat, loose: set<nat>)
    requires HeapInv(h, loose) && Freeing(h, q, len, gone, p) && loose <= gone
    ensures var n := q + len;
            if n == h.top then !Cinuse(h.mem, n) && h.top < h.end && forall a | a in h.chunks :: a in gone <==> a >= q
            else n in h.chunks && n !in gone && (Cinuse(h.mem, n) || n == h.dv || n in BinSet(h))
  {
    hide SizeOf, Cinuse, Pinuse, BinsOk, Binned, TagsOk;
    var n := q + len;
    if n == h.top {
      TopBeforeEnd(h);
      forall a | a in h.chunks ensures a < h.top { ChunkNotTop(h.mem, h.chunks, h.base, h.top, h.end, a); }
    } else {
      assert n in h.chunks;
      assert !Cinuse(h.mem, n) ==> n in Free(h);
    }
  }

  /** The run grows by the free chunk that follows it. */
  lemma LongerRun(h: Shape, q: nat, len: nat, gone: set<nat>, p: nat)
    requires Tiled(h) && Freeing(h, q, len, gone, p) && q + len in h.chunks && !Cinuse(h.mem, q + len)
    ensures var n := q + len; var len' := len + SizeOf(h.mem, n);
            && Run(h.chunks, q, len', gone + {n}) && Aligned(len') && len' >= MIN_CHUNK
            && q + len' in h.chunks && Cinuse(h.mem, q + len') && !Pinuse(h.mem, q + len')
            && FreeOf(h.mem, gone + {n}) == FreeOf(h.mem, gone) + {n} && LiveOf(h.mem, gone + {n}) == {p}
  {
    hide SizeOf, Cinuse, Pinuse, Aligned, TagsOk, Run, FreeOf, LiveOf, Border;
    var n := q + len;
    ChunkFacts(h.mem, h.chunks, h.base, h.top, h.end, n);
    OneRun(h, n);
    var s := SizeOf(h.mem, n);
    RunJoin(h.chunks, q, len, gone, n, s);
    AlignedSum(len, s);
    FreeOneMore(h, gone, n);
  }

  lemma RunJoin(c: set<nat>, q: nat, len: nat, gone: set<nat>, n: nat, s: nat)
    requires Run(c, q, len, gone) && n == q + len && Run(c, n, s, {n})
    ensures Run(c, q, len + s, gone + {n})
  {
  }

  lemma FreeOneMore(h: Shape, gone: set<nat>, n: nat)
    requires !Cinuse(h.mem, n)
    ensures FreeOf(h.mem, gone + {n}) == FreeOf(h.mem, gone) + {n} && LiveOf(h.mem, gone + {n}) == LiveOf(h.mem, gone)
  {
    hide Cinuse;
  }

  /* ---------------- the four ways to put the run away ---------------- */

  /** The free chunks of the run are in hand, unless one is the designated victim, which then
      begins it. */
  ghost predicate RunInHand(h: Shape, q: nat, len: nat, gone: set<nat>, p: nat) {
    Freeing(h, q, len, gone, p) && HeapInv(h, FreeOf(h.mem, gone) - DvSet(h.dv)) && (h.dv in gone ==> h.dv == q)
  }

  lemma RunReleased(h: Shape, q: nat, len: nat, gone: set<nat>, p: nat)
    requires RunInHand(h, q, len, gone, p)
    ensures HeapInv(Released(h, gone), FreeOf(h.mem, gone)) && Freeing(Released(h, gone), q, len, gone, p)
    ensures Moved(h, Released(h, gone), {}, {}) && (h.dv in gone <==> h.dv == q) && q in gone && gone <= h.chunks
    ensures Run(h.chunks, q, len, gone) && LiveOf(h.mem, gone) == {p} && Pinuse(h.mem, q) && Aligned(len) && len >= MIN_CHUNK
  {
    hide HeapInv, Cinuse, Pinuse, Aligned, Moved;
    InHand(h, gone);
    SameMoved(h, Released(h, gone));
  }

  lemma FreeIntoTop(h: Shape, q: nat, len: nat, gone: set<nat>, p: nat)
    requires RunInHand(h, q, len, gone, p) && q + len == h.top
    ensures q < h.end
    ensures var h' := h.(mem := h.mem[q + 8 := h.end - q + 1], chunks := h.chunks - gone, top := q,
                         dv := if h.dv == q then 0 else h.dv, dvsize := if h.dv == q then 0 else h.dvsize);
            HeapInv(h', {}) && Moved(h, h', {p}, {})
  {
    hide HeapInv, Freeing, Cinuse, Pinuse, Aligned, Moved, SizeOf, FreeOf, LiveOf, Run;
    RunReleased(h, q, len, gone, p);
    var w := Released(h, gone);
    FreeWithin(h, gone);
    AfterRun(w, q, len, gone, p, FreeOf(h.mem, gone));
    MergeIntoTop(w, q, gone);
    MovedFirst(h, w, w.(mem := h.mem[q + 8 := h.end - q + 1], chunks := h.chunks - gone, top := q), {p}, {});
  }

  lemma FreeWithin(h: Shape, gone: set<nat>)
    ensures FreeOf(h.mem, gone) <= gone
  {
  }

  lemma FreeIntoDv(h: Shape, q: nat, len: nat, gone: set<nat>, p: nat)
    requires RunInHand(h, q, len, gone, p) && h.dv !in gone && q + len == h.dv && h.dv != h.top && !Cinuse(h.mem, h.dv)
    ensures var h' := h.(mem := SetSizeOfFree(h.mem, q, h.dvsize + len), chunks := h.chunks - (gone + {h.dv}) + {q},
                         dv := q, dvsize := h.dvsize + len);
            HeapInv(h', {}) && Moved(h, h', {p}, {})
  {
    hide HeapInv, Freeing, Cinuse, Pinuse, Aligned, Moved, SizeOf, FreeOf, LiveOf, Run, SetSizeOfFree;
    RunReleased(h, q, len, gone, p);
    FreeWithin(h, gone);
    DvInTiling(h, FreeOf(h.mem, gone));
    LongerRun(h, q, len, gone, p);
    DvLoose(h, FreeOf(h.mem, gone));
    var w := h.(dv := 0, dvsize := 0);
    var s := h.dvsize + len;
    var m' := SetSizeOfFree(h.mem, q, s);
    MergeRun(w, m', q, s, gone + {h.dv});
    var w' := w.(mem := m', chunks := h.chunks - (gone + {h.dv}) + {q});
    DvChosen(w', {q}, q);
    assert {q} - {q} == {};
    MovedBetween(w, w', h, w'.(dv := q, dvsize := s), {p}, {});
  }

  lemma DvInTiling(h: Shape, loose: set<nat>)
    requires HeapInv(h, loose) && h.dv != 0
    ensures h.dv in h.chunks && SizeOf(h.mem, h.dv) == h.dvsize && Tiled(h)
  {
  }

  /** `h1` is the state after the binned chunk that follows has been unlinked. */
  lemma FreeWithNext(h: Shape, h1: Shape, q: nat, len: nat, gone: set<nat>, p: nat, n: nat, s: nat)
    requires n == q + len && s == len + SizeOf(h.mem, n)
    requires RunInHand(h, q, len, gone, p) && n in BinSet(h)
    requires h1.chunks == h.chunks && h1.top == h.top && h1.base == h.base && h1.end == h.end && h1.dv == h.dv && h1.dvsize == h.dvsize
    requires HeapInv(h1, FreeOf(h.mem, gone) - DvSet(h.dv) + {n}) && TagsKept(h.mem, h1.mem, h.chunks)
    requires Moved(h, h1, {}, {})
    ensures var h' := h1.(mem := SetSizeOfFree(h1.mem, q, s), chunks := h.chunks - (gone + {n}) + {q},
                          dvsize := if h.dv == q then s else h.dvsize);
            HeapInv(h', if h.dv == q then {} else {q}) && Moved(h, h', {p}, {}) && SizeOf(h'.mem, q) == s
  {
    hide HeapInv, Freeing, Cinuse, Pinuse, Aligned, Moved, SizeOf, FreeOf, LiveOf, Run, SetSizeOfFree, Binned;
    RunReleased(h, q, len, gone, p);
    FreeWithin(h, gone);
    StillReady(h, h1, q, len, gone, p);
    BinnedIsFree(h, FreeOf(h.mem, gone) - DvSet(h.dv), n);
    TagsOfKept(h, h1, n);
    DvFactsOf(h1, FreeOf(h.mem, gone) - DvSet(h.dv) + {n});
    LongerRun(h1, q, len, gone, p);
    var gone' := gone + {n};
    assert FreeOf(h1.mem, gone') - DvSet(h1.dv) == FreeOf(h.mem, gone) - DvSet(h.dv) + {n};
    InHand(h1, gone');
    var w := Released(h1, gone');
    var m' := SetSizeOfFree(h1.mem, q, s);
    MergeRun(w, m', q, s, gone');
    var w' := w.(mem := m', chunks := h.chunks - gone' + {q});
    if h.dv == q {
      DvChosen(w', {q}, q);
      assert {q} - {q} == {};
    }
    var h' := h1.(mem := m', chunks := h.chunks - gone' + {q}, dvsize := if h.dv == q then s else h.dvsize);
    MovedBetween(w, w', h1, h', {p}, {});
    MovedFirst(h, h1, h', {p}, {});
  }

  lemma BinnedIsFree(h: Shape, loose: set<nat>, n: nat)
    requires HeapInv(h, loose) && n in BinSet(h)
    ensures n in h.chunks && !Cinuse(h.mem, n) && n != h.dv && n !in loose
  {
    assert n in Free(h);
  }

  lemma TagsOfKept(h: Shape, h': Shape, n: nat)
    requires TagsKept(h.mem, h'.mem, h.chunks) && n in h.chunks
    ensures SizeOf(h'.mem, n) == SizeOf(h.mem, n) && (Cinuse(h'.mem, n) <==> Cinuse(h.mem, n))
  {
  }

  lemma FreeBeforeUsed(h: Shape, q: nat, len: nat, gone: set<nat>, p: nat)
    requires RunInHand(h, q, len, gone, p) && q + len != h.top && Cinuse(h.mem, q + len)
    ensures var h' := h.(mem := SetFreeWithPinuse(h.mem, q, len, q + len), chunks := h.chunks - gone + {q},
                         dvsize := if h.dv == q then len else h.dvsize);
            HeapInv(h', if h.dv == q then {} else {q}) && Moved(h, h', {p}, {}) && SizeOf(h'.mem, q) == len
  {
    hide HeapInv, Freeing, Cinuse, Pinuse, Aligned, Moved, SizeOf, FreeOf, LiveOf, Run, SetFreeWithPinuse, Binned;
    RunReleased(h, q, len, gone, p);
    var w := Released(h, gone);
    FreeWithin(h, gone);
    AfterRun(w, q, len, gone, p, FreeOf(h.mem, gone));
    var m' := SetFreeWithPinuse(h.mem, q, len, q + len);
    MergeRun(w, m', q, len, gone);
    var w' := w.(mem := m', chunks := h.chunks - gone + {q});
    if h.dv == q {
      DvChosen(w', {q}, q);
      assert {q} - {q} == {};
    }
    var h' := h.(mem := m', chunks := h.chunks - gone + {q}, dvsize := if h.dv == q then len else h.dvsize);
    MovedFirst(h, w, w', {p}, {});
    MovedBetween(h, w', h, h', {p}, {});
  }
}
