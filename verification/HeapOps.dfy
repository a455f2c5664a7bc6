/** The tag steps of malloc, free, realloc and memalign (hagen/src/malloc.c), each taken
    from one whole-heap state to the next. */
module HeapOps {
  import opened Words
  import opened Chunks
  import opened Tags
  import opened TagOps
  import opened Bins
  import opened Heap
  import opened HeapSteps

  /** The chunks `old_` are no longer live, the chunks `new_` are, and all other live chunks
      keep what they hold. */
  ghost predicate Moved(h: Shape, h': Shape, old_: set<nat>, new_: set<nat>) {
    Live(h') == Live(h) - old_ + new_ && LiveKept(h.mem, h'.mem, Live(h) - old_)
  }

  lemma MovedThen(h: Shape, h1: Shape, h2: Shape, a: set<nat>, b: set<nat>, old_: set<nat>, new_: set<nat>)
    requires Moved(h, h1, a, b) && Moved(h1, h2, old_, new_)
    requires a <= Live(h) && b !! Live(h) - a && old_ <= Live(h) - a + b
    ensures Moved(h, h2, a + (old_ - b), b - old_ + new_)
  {
    hide LiveKept, Live;
    var kept := Live(h) - (a + (old_ - b));
    assert kept <= Live(h) - a && kept <= Live(h1) - old_;
    LiveKeptSome(h.mem, h1.mem, Live(h) - a, kept);
    LiveKeptThen(h.mem, h1.mem, h2.mem, kept, Live(h1) - old_);
    assert Live(h2) == Live(h) - (a + (old_ - b)) + (b - old_ + new_);
  }

  lemma MovedFirst(h: Shape, h1: Shape, h2: Shape, old_: set<nat>, new_: set<nat>)
    requires Moved(h, h1, {}, {}) && Moved(h1, h2, old_, new_)
    ensures Moved(h, h2, old_, new_)
  {
    hide LiveKept, Live;
    LiveKeptSome(h.mem, h1.mem, Live(h) - {}, Live(h) - old_);
    LiveKeptThen(h.mem, h1.mem, h2.mem, Live(h) - old_, Live(h1) - old_);
    assert Live(h1) == Live(h);
  }

  lemma MovedLast(h: Shape, h1: Shape, h2: Shape, old_: set<nat>, new_: set<nat>)
    requires Moved(h, h1, old_, new_) && Moved(h1, h2, {}, {})
    ensures Moved(h, h2, old_, new_)
  {
    hide LiveKept, Live;
    LiveKeptThen(h.mem, h1.mem, h2.mem, Live(h) - old_, Live(h1) - {});
    assert Live(h1) - {} + {} == Live(h1);
  }

  /** Only the words and the chunks matter for it. */
  lemma MovedBetween(h: Shape, h': Shape, g: Shape, g': Shape, old_: set<nat>, new_: set<nat>)
    requires Moved(h, h', old_, new_)
    requires g.mem == h.mem && g.chunks == h.chunks && g'.mem == h'.mem && g'.chunks == h'.chunks
    ensures Moved(g, g', old_, new_)
  {
  }

  lemma SameMoved(h: Shape, h': Shape)
    requires h'.mem == h.mem && h'.chunks == h.chunks
    ensures Moved(h, h', {}, {})
  {
  }

  lemma LiveKeptSome(m: Mem, m': Mem, s: set<nat>, s': set<nat>)
    requires LiveKept(m, m', s) && s' <= s
    ensures LiveKept(m, m', s')
  {
    hide PayloadKept;
  }

  /* ---------------- spans ---------------- */

  lemma OneRun(h: Shape, v: nat)
    requires Tiled(h) && v in h.chunks
    ensures Run(h.chunks, v, SizeOf(h.mem, v), {v})
    ensures forall inside :: Retiled(h.chunks, v, v + SizeOf(h.mem, v), inside) == h.chunks - {v} + inside
  {
    ChunkOkOf(h, v);
    hide ChunkOk, SizeOf;
  }

  lemma ChunkOkOf(h: Shape, v: nat)
    requires Tiled(h) && v in h.chunks
    ensures ChunkOk(h.mem, h.chunks, h.base, h.top, v)
  {
  }

  /** A designated victim elsewhere keeps its tags. */
  lemma DvUnderSpan(h: Shape, m': Mem, q: nat, len: nat)
    requires Tiled(h) && DvOk(h.mem, h.chunks, h.dv, h.dvsize) && SpanOnly(h.mem, m', q, len) && len > 8
    requires Border(h.chunks, h.top, q, len)
    ensures h.dv != 0 && !(q <= h.dv < q + len) ==> SizeOf(m', h.dv) == h.dvsize && !Cinuse(m', h.dv)
  {
    hide TagsOk, SizeOf, Cinuse, SpanOnly;
    if h.dv != 0 && !(q <= h.dv < q + len) { TagsOutside(h.mem, m', q, len, h.dv); }
  }

  /** The chunks `gone`, whose free ones are in no bin and not the designated victim, have
      been rewritten to the chunks `inside`. */
  lemma SpanOp(h: Shape, m': Mem, q: nat, len: nat, gone: set<nat>, inside: set<nat>)
    requires HeapInv(h, FreeOf(h.mem, gone)) && Run(h.chunks, q, len, gone) && Border(h.chunks, h.top, q, len) && len > 8
    requires SpanOnly(h.mem, m', q, len) && TagsOk(m', h.chunks - gone + inside, h.base, h.top, h.end)
    requires forall a | a in inside :: q <= a < q + len
    ensures var h' := h.(mem := m', chunks := h.chunks - gone + inside);
            HeapInv(h', FreeOf(m', inside)) && Moved(h, h', LiveOf(h.mem, gone), LiveOf(m', inside))
  {
    hide TagsOk, BinsOk, Cinuse, SizeOf, SpanOnly, LiveKept, Binned;
    var h' := h.(mem := m', chunks := h.chunks - gone + inside);
    var loose, loose' := FreeOf(h.mem, gone), FreeOf(m', inside);
    DvUnderSpan(h, m', q, len);
    BaseNotNull(h');
    assert Free(h) == BinSet(h) + DvSet(h.dv) + loose;
    assert forall a | a in gone :: a in Free(h) <==> a in loose;
    assert forall a | a in BinSet(h) :: a in Free(h) && a !in loose;
    SpanStep(h, h', loose, loose', q, len, gone, inside);
    assert Live(h) - gone == Live(h) - LiveOf(h.mem, gone);
  }

  /** The same for everything from `q` up to the end. */
  lemma AboveOp(h: Shape, m': Mem, q: nat, top': nat, end': nat, gone: set<nat>, inside: set<nat>)
    requires HeapInv(h, FreeOf(h.mem, gone)) && (q in h.chunks || q == h.top) && gone <= h.chunks
    requires forall a | a in h.chunks :: a in gone <==> a >= q
    requires AboveOnly(h.mem, m', q) && TagsOk(m', h.chunks - gone + inside, h.base, top', end') && end' <= SIZE_LIMIT
    requires forall a | a in inside :: a >= q
    ensures var h' := h.(mem := m', chunks := h.chunks - gone + inside, top := top', end := end');
            HeapInv(h', FreeOf(m', inside)) && Moved(h, h', LiveOf(h.mem, gone), LiveOf(m', inside))
  {
    hide TagsOk, BinsOk, Cinuse, SizeOf, AboveOnly, LiveKept, Binned;
    var h' := h.(mem := m', chunks := h.chunks - gone + inside, top := top', end := end');
    var loose, loose' := FreeOf(h.mem, gone), FreeOf(m', inside);
    DvUnderAbove(h, m', q);
    BaseNotNull(h');
    assert Free(h) == BinSet(h) + DvSet(h.dv) + loose;
    assert forall a | a in gone :: a in Free(h) <==> a in loose;
    assert forall a | a in BinSet(h) :: a in Free(h) && a !in loose;
    AboveStep(h, h', loose, loose', q, gone, inside);
    assert Live(h) - gone == Live(h) - LiveOf(h.mem, gone);
  }

  lemma DvUnderAbove(h: Shape, m': Mem, q: nat)
    requires Tiled(h) && DvOk(h.mem, h.chunks, h.dv, h.dvsize) && AboveOnly(h.mem, m', q)
    ensures h.dv != 0 && h.dv < q ==> SizeOf(m', h.dv) == h.dvsize && !Cinuse(m', h.dv)
  {
    hide TagsOk, SizeOf, Cinuse, AboveOnly;
    if h.dv != 0 && h.dv < q { TagsBelow(h.mem, m', q, h.dv); }
  }

  /* ---------------- the designated victim ---------------- */

  lemma DvLoose(h: Shape, loose: set<nat>)
    requires HeapInv(h, loose)
    ensures HeapInv(h.(dv := 0, dvsize := 0), loose + DvSet(h.dv))
  {
    BaseNotNull(h);
    hide TagsOk, BinsOk, Binned;
    assert BinSet(h) <= Free(h) && loose <= Free(h);
  }

  lemma DvChosen(h: Shape, loose: set<nat>, r: nat)
    requires HeapInv(h, loose) && h.dv == 0 && r in loose
    ensures HeapInv(h.(dv := r, dvsize := SizeOf(h.mem, r)), loose - {r})
  {
    assert r in Free(h);
    ChunkOkOf(h, r);
    BaseNotNull(h);
    hide TagsOk, BinsOk, Binned;
  }

  /* ---------------- malloc ---------------- */

  /** A free chunk that is in no bin is handed out whole. */
  lemma TakeWhole(h: Shape, v: nat)
    requires HeapInv(h, {v})
    ensures var h' := h.(mem := SetInuseAndPinuse(h.mem, v, SizeOf(h.mem, v)));
            HeapInv(h', {}) && Moved(h, h', {}, {v}) && SizeOf(h'.mem, v) == SizeOf(h.mem, v) && Pinuse(h'.mem, v)
  {
    hide TagsOk, BinsOk, Cinuse, Pinuse, SizeOf, SpanOnly, LiveKept, Binned, SetInuseAndPinuse, DvOk;
    var m' := SetInuseAndPinuse(h.mem, v, SizeOf(h.mem, v));
    assert v in Free(h);
    UseWhole(h.mem, h.chunks, h.base, h.top, h.end, v);
    ChunkFacts(h.mem, h.chunks, h.base, h.top, h.end, v);
    OneRun(h, v);
    assert FreeOf(h.mem, {v}) == {v} && LiveOf(h.mem, {v}) == {} && FreeOf(m', {v}) == {} && LiveOf(m', {v}) == {v};
    assert h.chunks - {v} + {v} == h.chunks;
    SpanOp(h, m', v, SizeOf(h.mem, v), {v}, {v});
  }

  /** Its first nb bytes are handed out and the rest stays free. */
  lemma TakeFront(h: Shape, m': Mem, v: nat, nb: nat)
    requires HeapInv(h, {v}) && MIN_CHUNK <= nb && nb + MIN_CHUNK <= SizeOf(h.mem, v) && Aligned(nb)
    requires || m' == SetSizeOfFree(SetSizeOfInuse(h.mem, v, nb), v + nb, SizeOf(h.mem, v) - nb)
             || m' == SetSizeOfInuse(SetSizeOfFree(h.mem, v + nb, SizeOf(h.mem, v) - nb), v, nb)
    ensures var h' := h.(mem := m', chunks := h.chunks + {v + nb});
            HeapInv(h', {v + nb}) && Moved(h, h', {}, {v})
            && SizeOf(m', v) == nb && SizeOf(m', v + nb) == SizeOf(h.mem, v) - nb && Pinuse(m', v)
  {
    hide TagsOk, BinsOk, Cinuse, Pinuse, SizeOf, SpanOnly, LiveKept, Binned, SetSizeOfFree, SetSizeOfInuse, DvOk;
    assert v in Free(h);
    UseSplit(h.mem, m', h.chunks, h.base, h.top, h.end, v, nb);
    ChunkFacts(h.mem, h.chunks, h.base, h.top, h.end, v);
    OneRun(h, v);
    var inside := {v, v + nb};
    assert FreeOf(h.mem, {v}) == {v} && LiveOf(h.mem, {v}) == {};
    assert FreeOf(m', inside) == {v + nb} && LiveOf(m', inside) == {v};
    assert h.chunks - {v} + inside == h.chunks + {v + nb};
    SpanOp(h, m', v, SizeOf(h.mem, v), {v}, inside);
  }

  lemma TakeTop(h: Shape, nb: nat)
    requires HeapInv(h, {}) && Aligned(nb) && MIN_CHUNK <= nb < h.end - h.top
    ensures var m' := SetSizeOfInuse(h.mem[h.top + nb + 8 := h.end - (h.top + nb) + 1], h.top, nb);
            var h' := h.(mem := m', chunks := h.chunks + {h.top}, top := h.top + nb);
            HeapInv(h', {}) && Moved(h, h', {}, {h.top}) && SizeOf(m', h.top) == nb && h.top !in h.chunks && Pinuse(m', h.top)
  {
    hide TagsOk, BinsOk, Cinuse, Pinuse, SizeOf, AboveOnly, LiveKept, Binned, SetSizeOfInuse, DvOk;
    var m' := SetSizeOfInuse(h.mem[h.top + nb + 8 := h.end - (h.top + nb) + 1], h.top, nb);
    TopSplit(h.mem, h.chunks, h.base, h.top, h.end, nb);
    forall a | a in h.chunks ensures a < h.top { ChunkNotTop(h.mem, h.chunks, h.base, h.top, h.end, a); }
    assert FreeOf(h.mem, {}) == {} && LiveOf(h.mem, {}) == {} && FreeOf(m', {h.top}) == {} && LiveOf(m', {h.top}) == {h.top};
    assert h.chunks - {} + {h.top} == h.chunks + {h.top};
    AboveOp(h, m', h.top, h.top + nb, h.end, {}, {h.top});
  }

  /** The segment grows. */
  lemma GrowSegment(h: Shape, end': nat, foot: nat)
    requires HeapInv(h, {}) && h.end <= end' <= SIZE_LIMIT && Aligned(end' - h.end)
    ensures var h' := h.(mem := h.mem[h.top + 8 := end' - h.top + 1][end' + 8 := foot], end := end');
            HeapInv(h', {}) && Moved(h, h', {}, {})
  {
    hide TagsOk, BinsOk, Cinuse, SizeOf, AboveOnly, LiveKept, Binned, DvOk;
    TopBeforeEnd(h);
    var m' := h.mem[h.top + 8 := end' - h.top + 1][end' + 8 := foot];
    ExtendTop(h.mem, h.chunks, h.base, h.top, h.end, end', foot);
    forall a | a in h.chunks ensures a < h.top { ChunkNotTop(h.mem, h.chunks, h.base, h.top, h.end, a); }
    assert FreeOf(h.mem, {}) == {} && LiveOf(h.mem, {}) == {} && FreeOf(m', {}) == {} && LiveOf(m', {}) == {};
    assert h.chunks - {} + {} == h.chunks;
    AboveOp(h, m', h.top, h.top, end', {}, {});
  }

  /* ---------------- free ---------------- */

  /** A run of chunks before a chunk in use becomes one free chunk. */
  lemma MergeRun(h: Shape, m': Mem, q: nat, len: nat, gone: set<nat>)
    requires HeapInv(h, FreeOf(h.mem, gone)) && Run(h.chunks, q, len, gone)
    requires q in h.chunks && q + len in h.chunks && Pinuse(h.mem, q) && Cinuse(h.mem, q + len)
    requires Aligned(len) && len >= MIN_CHUNK
    requires || m' == SetFreeWithPinuse(h.mem, q, len, q + len)
             || (m' == SetSizeOfFree(h.mem, q, len) && !Pinuse(h.mem, q + len))
    ensures var h' := h.(mem := m', chunks := h.chunks - gone + {q});
            HeapInv(h', {q}) && Moved(h, h', LiveOf(h.mem, gone), {}) && SizeOf(m', q) == len
  {
    hide TagsOk, BinsOk, Cinuse, SizeOf, SpanOnly, LiveKept, Binned, SetFreeWithPinuse, SetSizeOfFree, DvOk, Pinuse;
    MergeFree(h.mem, m', h.chunks, h.base, h.top, h.end, q, len);
    RunRetiled(h.chunks, q, len, gone, {q});
    assert FreeOf(m', {q}) == {q} && LiveOf(m', {q}) == {};
    SpanOp(h, m', q, len, gone, {q});
  }

  lemma RunRetiled(c: set<nat>, q: nat, len: nat, gone: set<nat>, inside: set<nat>)
    requires Run(c, q, len, gone)
    ensures Retiled(c, q, q + len, inside) == c - gone + inside
  {
  }

  /** The last chunks before top become part of it. */
  lemma MergeIntoTop(h: Shape, q: nat, gone: set<nat>)
    requires HeapInv(h, FreeOf(h.mem, gone)) && gone <= h.chunks && (forall a | a in h.chunks :: a in gone <==> a >= q)
    requires q in h.chunks && Pinuse(h.mem, q)
    ensures q < h.end
    ensures var h' := h.(mem := h.mem[q + 8 := h.end - q + 1], chunks := h.chunks - gone, top := q);
            HeapInv(h', {}) && Moved(h, h', LiveOf(h.mem, gone), {})
  {
    hide TagsOk, BinsOk, Cinuse, SizeOf, LiveKept, Binned, DvOk, Pinuse;
    BelowTop(h.mem, h.chunks, h.base, h.top, h.end, q);
    assert h.top < h.end by { TopBeforeEnd(h); }
    var m' := h.mem[q + 8 := h.end - q + 1];
    IntoTop(h.mem, m', h.chunks, h.base, h.top, h.end, q);
    assert Below(h.chunks, q) == h.chunks - gone == h.chunks - gone + {};
    assert FreeOf(m', {}) == {} && LiveOf(m', {}) == {};
    AboveOp(h, m', q, q, h.end, gone, {});
  }

  lemma TopBeforeEnd(h: Shape)
    requires Tiled(h)
    ensures h.base <= h.top < h.end <= SIZE_LIMIT && Aligned(h.top) && Aligned(h.end - h.top) && h.top !in h.chunks
    ensures Head(h.mem, h.top) == h.end - h.top + 1 && Pinuse(h.mem, h.top) && !Cinuse(h.mem, h.top)
  {
    OddHead(h.mem, h.top, h.end - h.top);
  }

  /* ---------------- realloc and memalign ---------------- */

  /** A chunk in use takes in the whole run behind it. */
  lemma InuseRun(h: Shape, p: nat, len: nat, gone: set<nat>)
    requires HeapInv(h, FreeOf(h.mem, gone)) && Run(h.chunks, p, len, gone) && Border(h.chunks, h.top, p, len)
    requires Cinuse(h.mem, p) && Aligned(len) && len >= MIN_CHUNK
    ensures var m' := SetInuse(h.mem, p, len);
            var h' := h.(mem := m', chunks := h.chunks - gone + {p});
            HeapInv(h', {}) && Moved(h, h', LiveOf(h.mem, gone), {p}) && SizeOf(m', p) == len
  {
    hide TagsOk, BinsOk, Cinuse, SizeOf, SpanOnly, LiveKept, Binned, SetInuse, DvOk;
    var m' := SetInuse(h.mem, p, len);
    InuseOne(h.mem, h.chunks, h.base, h.top, h.end, p, len);
    RunRetiled(h.chunks, p, len, gone, {p});
    assert FreeOf(m', {p}) == {} && LiveOf(m', {p}) == {p};
    SpanOp(h, m', p, len, gone, {p});
  }

  /** A run that starts with a chunk in use becomes two chunks in use. */
  lemma InuseSplit(h: Shape, m': Mem, p: nat, nb: nat, len: nat, gone: set<nat>)
    requires HeapInv(h, FreeOf(h.mem, gone)) && Run(h.chunks, p, len, gone) && Border(h.chunks, h.top, p, len)
    requires Cinuse(h.mem, p) && MIN_CHUNK <= nb && nb + MIN_CHUNK <= len && Aligned(nb) && Aligned(len)
    requires || m' == SetInuse(SetInuse(h.mem, p, nb), p + nb, len - nb)
             || m' == SetInuse(SetInuse(h.mem, p + nb, len - nb), p, nb)
    ensures var h' := h.(mem := m', chunks := h.chunks - gone + {p, p + nb});
            HeapInv(h', {}) && Moved(h, h', LiveOf(h.mem, gone), {p, p + nb})
            && SizeOf(m', p) == nb && SizeOf(m', p + nb) == len - nb
  {
    hide TagsOk, BinsOk, Cinuse, SizeOf, SpanOnly, LiveKept, Binned, SetInuse, DvOk;
    InuseTwo(h.mem, m', h.chunks, h.base, h.top, h.end, p, nb, len);
    RunRetiled(h.chunks, p, len, gone, {p, p + nb});
    assert FreeOf(m', {p, p + nb}) == {} && LiveOf(m', {p, p + nb}) == {p, p + nb};
    SpanOp(h, m', p, len, gone, {p, p + nb});
  }

  /** A chunk in use takes in the front of the free chunk behind it. */
  lemma InuseFront(h: Shape, p: nat, nb: nat, len: nat, gone: set<nat>)
    requires HeapInv(h, FreeOf(h.mem, gone)) && Run(h.chunks, p, len, gone) && p in h.chunks && p + len in h.chunks
    requires Cinuse(h.mem, p) && Cinuse(h.mem, p + len)
    requires MIN_CHUNK <= nb && nb + MIN_CHUNK <= len && Aligned(nb) && Aligned(len)
    ensures var m' := ClearPinuse(SetSizeOfFree(SetInuse(h.mem, p, nb), p + nb, len - nb), p + len);
            var h' := h.(mem := m', chunks := h.chunks - gone + {p, p + nb});
            HeapInv(h', {p + nb}) && Moved(h, h', LiveOf(h.mem, gone), {p})
            && SizeOf(m', p) == nb && SizeOf(m', p + nb) == len - nb
  {
    hide TagsOk, BinsOk, Cinuse, SizeOf, SpanOnly, LiveKept, Binned, SetInuse, SetSizeOfFree, ClearPinuse, DvOk;
    var m' := ClearPinuse(SetSizeOfFree(SetInuse(h.mem, p, nb), p + nb, len - nb), p + len);
    InuseThenFree(h.mem, h.chunks, h.base, h.top, h.end, p, nb, len);
    RunRetiled(h.chunks, p, len, gone, {p, p + nb});
    assert FreeOf(m', {p, p + nb}) == {p + nb} && LiveOf(m', {p, p + nb}) == {p};
    SpanOp(h, m', p, len, gone, {p, p + nb});
  }

  /** The last chunk before top takes in the front of top. */
  lemma GrowLast(h: Shape, p: nat, nb: nat)
    requires HeapInv(h, {}) && p in Live(h) && p + SizeOf(h.mem, p) == h.top
    requires Aligned(nb) && MIN_CHUNK <= nb && p + nb < h.end
    ensures var m' := SetInuse(h.mem, p, nb)[p + nb + 8 := h.end - (p + nb) + 1];
            var h' := h.(mem := m', top := p + nb);
            HeapInv(h', {}) && Moved(h, h', {p}, {p}) && SizeOf(m', p) == nb
  {
    hide TagsOk, BinsOk, Cinuse, SizeOf, AboveOnly, LiveKept, Binned, SetInuse, DvOk;
    var m' := SetInuse(h.mem, p, nb)[p + nb + 8 := h.end - (p + nb) + 1];
    GrowIntoTop(h.mem, h.chunks, h.base, h.top, h.end, p, nb);
    forall a | a in h.chunks && a >= p ensures a == p {
      ChunkFacts(h.mem, h.chunks, h.base, h.top, h.end, p);
      LastChunk(h, p, a);
    }
    assert FreeOf(h.mem, {p}) == {} && LiveOf(h.mem, {p}) == {p} && FreeOf(m', {p}) == {} && LiveOf(m', {p}) == {p};
    assert Below(h.chunks, p) + {p} == h.chunks - {p} + {p} == h.chunks;
    AboveOp(h, m', p, p + nb, h.end, {p}, {p});
  }

  lemma LastChunk(h: Shape, p: nat, a: nat)
    requires Tiled(h) && p in h.chunks && a in h.chunks && p + SizeOf(h.mem, p) == h.top && a >= p
    ensures a == p
  {
    ChunkNotTop(h.mem, h.chunks, h.base, h.top, h.end, a);
    hide SizeOf;
  }
}
