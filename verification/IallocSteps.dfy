/** Splitting one chunk into many (hagen/src/malloc.c, `ialloc`). */
module IallocSteps {
  import opened Words
  import opened Chunks
  import opened Tags
  import opened TagOps
  import opened Heap
  import opened HeapSteps
  import opened HeapOps
  import opened ReallocSteps
  import opened Policy

  /** The chunk size of each element. */
  function ElementSizes(n: nat, sizes: seq<nat>, same: bool): (r: seq<nat>)
    requires if same then |sizes| > 0 else |sizes| >= n
    ensures |r| == n && forall i | 0 <= i < n :: r[i] == RequestToSize(if same then sizes[0] else sizes[i])
  {
    seq(n, i requires 0 <= i < n => RequestToSize(if same then sizes[0] else sizes[i]))
  }

  function SumTo(s: seq<nat>, k: nat): nat
    requires k <= |s|
  {
    if k == 0 then 0 else SumTo(s, k - 1) + s[k - 1]
  }

  lemma {:induction false} SumMono(s: seq<nat>, j: nat, k: nat)
    requires j <= k <= |s|
    ensures SumTo(s, j) <= SumTo(s, k) && (j < k ==> SumTo(s, j) + s[j] <= SumTo(s, k))
    decreases k
  {
    if j < k { SumMono(s, j, k - 1); }
  }

  lemma {:induction false} SumSame(s: seq<nat>, e: nat, k: nat)
    requires k <= |s| && forall i | 0 <= i < |s| :: s[i] == e
    ensures SumTo(s, k) == k * e
  {
    if k > 0 {
      SumSame(s, e, k - 1);
      assert k * e == (k - 1) * e + e;
    }
  }

  lemma {:induction false} SumAligned(s: seq<nat>, k: nat)
    requires k <= |s| && forall i | 0 <= i < |s| :: Aligned(s[i])
    ensures Aligned(SumTo(s, k))
  {
    if k > 0 { SumAligned(s, k - 1); }
  }

  /** Where element k begins, with the elements laid out from `p` on. */
  function ElementAt(p: nat, s: seq<nat>, k: nat): nat
    requires k <= |s|
  {
    p + SumTo(s, k)
  }

  /** The chunks of the first k elements. */
  ghost function ElementChunks(p: nat, s: seq<nat>, k: nat): set<nat>
    requires k <= |s|
  {
    if k == 0 then {} else ElementChunks(p, s, k - 1) + {ElementAt(p, s, k - 1)}
  }

  lemma {:induction false} ElementChunkIn(p: nat, s: seq<nat>, k: nat, a: nat)
    requires k <= |s|
    ensures a in ElementChunks(p, s, k) <==> exists j :: 0 <= j < k && a == ElementAt(p, s, j)
  {
    if k > 0 {
      ElementChunkIn(p, s, k - 1, a);
      hide ElementAt;
      if j :| 0 <= j < k && a == ElementAt(p, s, j) {
        if j < k - 1 { assert a in ElementChunks(p, s, k - 1); }
      }
    }
  }

  /** The state as if the chunk being split were already cut to what remains of it. */
  ghost function Cut(h: Shape, p: nat, rest: nat): Shape { h.(mem := h.mem[p + 8 := rest + 3]) }

  /** A chunk fresh from malloc has both flag bits set. */
  lemma FreshHead(h: Shape, p: nat)
    requires HeapInv(h, {}) && p in Live(h) && Pinuse(h.mem, p)
    ensures Cut(h, p, SizeOf(h.mem, p)) == h
  {
    LiveChunk(h, p);
    assert FlagsOk(h.mem, p) by { ChunkFacts(h.mem, h.chunks, h.base, h.top, h.end, p); }
    FullHead(h.mem, p);
    hide SizeOf, HeapInv;
    assert h.mem[p + 8 := SizeOf(h.mem, p) + 3] == h.mem;
  }

  lemma FullHead(m: Mem, p: nat)
    requires Cinuse(m, p) && Pinuse(m, p) && FlagsOk(m, p)
    ensures Head(m, p) == SizeOf(m, p) + 3 && p + 8 in m
  {
  }

  /** The chunk `p` of `len` bytes is cut in two by writing two head words. */
  ghost function TwoHeads(h: Shape, p: nat, s: nat, len: nat): Shape
    requires s <= len
  {
    h.(mem := h.mem[p + 8 := s + 3][p + s + 8 := len - s + 3], chunks := h.chunks + {p + s})
  }

  lemma CutInTwo(h: Shape, p: nat, s: nat, len: nat)
    requires MIN_CHUNK <= s && s + MIN_CHUNK <= len && Aligned(s)
    requires HeapInv(h, {}) && p in Live(h) && Pinuse(h.mem, p) && SizeOf(h.mem, p) == len
    ensures var h' := TwoHeads(h, p, s, len);
            && HeapInv(h', {}) && Moved(h, h', {p}, {p, p + s}) && p + s !in Live(h)
            && SizeOf(h'.mem, p) == s && SizeOf(h'.mem, p + s) == len - s && Pinuse(h'.mem, p) && Pinuse(h'.mem, p + s)
  {
    hide HeapInv, SizeOf, Cinuse, Pinuse, Aligned, SpanOnly, Run, FreeOf, LiveOf, Border, Live, Moved, TagsOk;
    var m' := h.mem[p + 8 := s + 3][p + s + 8 := len - s + 3];
    LiveChunk(h, p);
    InsideNotLive(h, p, s, len, {p});
    LessAligned(len, s);
    CutWords(h, m', p, s, len);
    CutTags(h, m', p, s, len);
    RunRetiled(h.chunks, p, len, {p}, {p, p + s});
    PairInUse(m', p, p + s);
    assert h.chunks - {p} + {p, p + s} == h.chunks + {p + s};
    SpanOp(h, m', p, len, {p}, {p, p + s});
  }

  lemma LessAligned(a: nat, b: nat)
    requires Aligned(a) && Aligned(b) && b <= a
    ensures Aligned(a - b)
  {
  }

  lemma PairInUse(m: Mem, a: nat, b: nat)
    requires Cinuse(m, a) && Cinuse(m, b)
    ensures FreeOf(m, {a, b}) == {} && LiveOf(m, {a, b}) == {a, b}
  {
  }

  lemma CutWords(h: Shape, m': Mem, p: nat, s: nat, len: nat)
    requires HeapInv(h, {}) && p in Live(h) && Pinuse(h.mem, p) && SizeOf(h.mem, p) == len
    requires MIN_CHUNK <= s && s + MIN_CHUNK <= len && Aligned(s) && Aligned(len - s)
    requires m' == h.mem[p + 8 := s + 3][p + s + 8 := len - s + 3]
    ensures SpanOnly(h.mem, m', p, len) && Pinuse(m', p + len)
    ensures SizeOf(m', p) == s && Cinuse(m', p) && Pinuse(m', p) && FlagsOk(m', p)
    ensures SizeOf(m', p + s) == len - s && Cinuse(m', p + s) && Pinuse(m', p + s) && FlagsOk(m', p + s)
  {
    hide HeapInv, SizeOf, Cinuse, Pinuse, Aligned, FlagsOk, Live, PinuseBit;
    LiveIsInUse(h, p);
    NextOfLive(h, p);
    assert Head(m', p) == s + 3 && Head(m', p + s) == len - s + 3 && Head(m', p + len) == Head(h.mem, p + len);
    UseHead(m', p, s);
    UseHead(m', p + s, len - s);
    SameHead(h.mem, m', p + len);
    SameBit(h.mem, m', p + len);
  }

  lemma NextOfLive(h: Shape, p: nat)
    requires HeapInv(h, {}) && p in Live(h)
    ensures Pinuse(h.mem, p + SizeOf(h.mem, p))
  {
    ChunkFacts(h.mem, h.chunks, h.base, h.top, h.end, p);
  }

  lemma SameBit(m: Mem, m': Mem, n: nat)
    requires Pinuse(m, n) <==> Pinuse(m', n)
    ensures PinuseBit(m', n) == PinuseBit(m, n)
  {
  }

  lemma LiveIsInUse(h: Shape, p: nat)
    requires p in Live(h)
    ensures Cinuse(h.mem, p) && p in h.chunks
  {
  }

  lemma CutTags(h: Shape, m': Mem, p: nat, s: nat, len: nat)
    requires HeapInv(h, {}) && p in h.chunks && Pinuse(h.mem, p) && Border(h.chunks, h.top, p, len)
    requires MIN_CHUNK <= s && s + MIN_CHUNK <= len && Aligned(s) && Aligned(len - s)
    requires SpanOnly(h.mem, m', p, len) && Pinuse(m', p + len)
    requires SizeOf(m', p) == s && Cinuse(m', p) && Pinuse(m', p) && FlagsOk(m', p)
    requires SizeOf(m', p + s) == len - s && Cinuse(m', p + s) && Pinuse(m', p + s) && FlagsOk(m', p + s)
    ensures TagsOk(m', Retiled(h.chunks, p, p + len, {p, p + s}), h.base, h.top, h.end)
  {
    hide BinsIntact, Sorted, SizeOf, Cinuse, Pinuse, Aligned, FlagsOk, SpanOnly, TagsOk;
    TwoChunks(h.mem, m', h.chunks, h.base, h.top, h.end, p, s, len, true);
  }

  /* ---------------- the loop ---------------- */

  /** The first i elements have been split off and element i, of `rest` bytes, is what remains;
      `arr` holds the pointer array's chunk if that is new too. */
  ghost predicate Splitting(h: Shape, v: Shape, p0: nat, s: seq<nat>, i: nat, rest: nat, arr: set<nat>)
    requires i < |s|
  {
    var p := ElementAt(p0, s, i);
    && HeapInv(v, {}) && p in Live(v) && SizeOf(v.mem, p) == rest && Pinuse(v.mem, p)
    && Moved(h, v, {}, ElementChunks(p0, s, i + 1) + arr)
    && (ElementChunks(p0, s, i + 1) + arr) !! Live(h)
    && arr !! ElementChunks(p0, s, i + 1)
    && SizesAre(v.mem, p0, s, i)
  }

  ghost predicate SizesAre(m: Mem, p0: nat, s: seq<nat>, k: nat)
    requires k <= |s|
  {
    forall j | 0 <= j < k :: SizeOf(m, ElementAt(p0, s, j)) == s[j]
  }

  lemma SplitStart(h: Shape, h1: Shape, p: nat, s: seq<nat>)
    requires |s| > 0 && HeapInv(h1, {}) && p !in Live(h) && Moved(h, h1, {}, {p}) && Pinuse(h1.mem, p)
    ensures Splitting(h, h1, p, s, 0, SizeOf(h1.mem, p), {})
  {
    hide HeapInv, SizeOf, LiveKept, Cinuse;
    assert ElementAt(p, s, 0) == p;
    assert ElementChunks(p, s, 1) == ElementChunks(p, s, 0) + {ElementAt(p, s, 0)} == {p};
    assert ElementChunks(p, s, 1) + {} == {p};
  }

  /** The pointer array is cut off the end first. */
  lemma SplitArray(h: Shape, h1: Shape, v: Shape, p: nat, s: seq<nat>, contents: nat, size: nat)
    requires |s| > 0 && MIN_CHUNK <= contents && contents + MIN_CHUNK <= size && Aligned(contents)
    requires v == TwoHeads(h1, p, contents, size)
    requires HeapInv(h1, {}) && p !in Live(h) && Moved(h, h1, {}, {p}) && Pinuse(h1.mem, p) && SizeOf(h1.mem, p) == size
    ensures Splitting(h, v, p, s, 0, contents, {p + contents}) && SizeOf(v.mem, p + contents) == size - contents
  {
    assert p in Live(h1);
    CutInTwo(h1, p, contents, size);
    hide HeapInv, SizeOf, LiveKept, Cinuse;
    MovedThen(h, h1, v, {}, {p}, {p}, {p, p + contents});
    assert {} + ({p} - {p}) == {} && {p} - {p} + {p, p + contents} == {p} + {p + contents};
    assert ElementAt(p, s, 0) == p;
    assert ElementChunks(p, s, 1) == ElementChunks(p, s, 0) + {ElementAt(p, s, 0)} == {p};
    assert p + contents !in Live(h);
  }

  /** One element is split off. */
  lemma SplitStep(h: Shape, v: Shape, v': Shape, p0: nat, s: seq<nat>, i: nat, rest: nat, rest': nat, arr: set<nat>, p: nat, q: nat)
    requires i + 1 < |s| && MIN_CHUNK <= s[i] && s[i] + MIN_CHUNK <= rest && Aligned(s[i]) && rest' == rest - s[i]
    requires p == ElementAt(p0, s, i) && q == ElementAt(p0, s, i + 1) && v' == TwoHeads(v, p, s[i], rest)
    requires forall j | 0 <= j < |s| :: s[j] > 0
    requires Splitting(h, v, p0, s, i, rest, arr)
    ensures Splitting(h, v', p0, s, i + 1, rest', arr) && q == p + s[i]
    ensures Moved(v, v', {p}, {p, q})
  {
    hide HeapInv, SizeOf, LiveKept, Live, Pinuse, Aligned, SizesAre, TwoHeads, Moved;
    CutInTwo(v, p, s[i], rest);
    assert q == p + s[i];
    var new_ := ElementChunks(p0, s, i + 1) + arr;
    SplitSets(h, v, p0, s, i, arr);
    SplitMoved(h, v, v', new_, p, q);
    NewIsLive(h, v', new_ + {q}, q);
    assert new_ + {q} == ElementChunks(p0, s, i + 2) + arr;
    SplitSizes(v, v', p0, s, i, new_);
    SplitApart(h, v, p0, s, i, arr, q);
  }

  lemma SplitMoved(h: Shape, v: Shape, v': Shape, new_: set<nat>, p: nat, q: nat)
    requires p in new_ && new_ !! Live(h) && Moved(h, v, {}, new_) && Moved(v, v', {p}, {p, q})
    ensures Moved(h, v', {}, new_ + {q})
  {
    hide LiveKept, Cinuse;
    MovedThen(h, v, v', {}, new_, {p}, {p, q});
    assert {} + ({p} - new_) == {} && new_ - {p} + {p, q} == new_ + {q};
  }

  lemma SplitApart(h: Shape, v: Shape, p0: nat, s: seq<nat>, i: nat, arr: set<nat>, q: nat)
    requires i + 1 < |s| && q == ElementAt(p0, s, i + 1) && q !in Live(v)
    requires Live(v) == Live(h) + (ElementChunks(p0, s, i + 1) + arr)
    requires (ElementChunks(p0, s, i + 1) + arr) !! Live(h) && arr !! ElementChunks(p0, s, i + 1)
    ensures (ElementChunks(p0, s, i + 2) + arr) !! Live(h) && arr !! ElementChunks(p0, s, i + 2)
  {
    hide Live;
  }

  lemma SplitSets(h: Shape, v: Shape, p0: nat, s: seq<nat>, i: nat, arr: set<nat>)
    requires i + 1 < |s| && Moved(h, v, {}, ElementChunks(p0, s, i + 1) + arr)
    ensures ElementChunks(p0, s, i + 2) == ElementChunks(p0, s, i + 1) + {ElementAt(p0, s, i + 1)}
    ensures ElementAt(p0, s, i) in ElementChunks(p0, s, i + 1)
    ensures Live(v) == Live(h) + (ElementChunks(p0, s, i + 1) + arr)
  {
  }

  /** Sizes set before stay. */
  lemma SplitSizes(v: Shape, v': Shape, p0: nat, s: seq<nat>, i: nat, new_: set<nat>)
    requires i + 1 < |s| && forall j | 0 <= j < |s| :: s[j] > 0
    requires SizeOf(v'.mem, ElementAt(p0, s, i)) == s[i] && SizesAre(v.mem, p0, s, i)
    requires Moved(v, v', {ElementAt(p0, s, i)}, {ElementAt(p0, s, i), ElementAt(p0, s, i + 1)})
    requires new_ <= Live(v) && ElementChunks(p0, s, i + 1) <= new_
    ensures SizesAre(v'.mem, p0, s, i + 1)
  {
    hide SizeOf, Cinuse, Live, Moved, ElementAt, ElementChunks;
    forall j | 0 <= j < i + 1 ensures SizeOf(v'.mem, ElementAt(p0, s, j)) == s[j] {
      if j < i { ElementKept(v, v', p0, s, i, j); }
    }
  }

  lemma ElementKept(v: Shape, v': Shape, p0: nat, s: seq<nat>, i: nat, j: nat)
    requires j < i < |s| - 1 && forall j | 0 <= j < |s| :: s[j] > 0
    requires Moved(v, v', {ElementAt(p0, s, i)}, {ElementAt(p0, s, i), ElementAt(p0, s, i + 1)})
    requires ElementChunks(p0, s, i + 1) <= Live(v)
    ensures SizeOf(v'.mem, ElementAt(p0, s, j)) == SizeOf(v.mem, ElementAt(p0, s, j))
  {
    hide SizeOf, Cinuse, Live;
    var a := ElementAt(p0, s, j);
    ElementChunkIn(p0, s, i + 1, a);
    SumMono(s, j, i);
    assert a in Live(v) - {ElementAt(p0, s, i)} && PayloadKept(v.mem, v'.mem, a);
  }

  /** A pointer is stored in the new array. */
  ghost function Stored(v: Shape, w: nat, x: nat): Shape { v.(mem := v.mem[w := x]) }

  lemma SplitStore(h: Shape, v: Shape, v': Shape, p0: nat, s: seq<nat>, i: nat, rest: nat, a: nat, w: nat, x: nat)
    requires i < |s| && v' == Stored(v, w, x)
    requires a + 16 <= w <= a + SizeOf(v.mem, a)
    requires Splitting(h, v, p0, s, i, rest, {a})
    ensures Splitting(h, v', p0, s, i, rest, {a}) && SizeOf(v'.mem, a) == SizeOf(v.mem, a)
  {
    hide HeapInv, SizeOf, LiveKept, Live, Pinuse, SizesAre, Moved, ElementAt, ElementChunks;
    var p := ElementAt(p0, s, i);
    var new_ := ElementChunks(p0, s, i + 1) + {a};
    NewIsLive(h, v, new_, a);
    PayloadWrite(v, a, w, x);
    OwnElement(p0, s, i);
    SplitRewritten(h, v, v', new_, a);
    StoreKeeps(v, v', a, p);
    HeadNotStored(v, p, a, w, x);
    StoreSizes(h, v, v', p0, s, i, a);
  }

  lemma OwnElement(p0: nat, s: seq<nat>, i: nat)
    requires i < |s|
    ensures ElementAt(p0, s, i) in ElementChunks(p0, s, i + 1)
  {
  }

  lemma SplitRewritten(h: Shape, v: Shape, v': Shape, new_: set<nat>, a: nat)
    requires a in new_ && new_ !! Live(h) && Moved(h, v, {}, new_) && Moved(v, v', {a}, {a})
    ensures Moved(h, v', {}, new_)
  {
    hide LiveKept, Cinuse;
    MovedThen(h, v, v', {}, new_, {a}, {a});
    assert {} + ({a} - new_) == {} && new_ - {a} + {a} == new_;
  }

  lemma StoreSizes(h: Shape, v: Shape, v': Shape, p0: nat, s: seq<nat>, i: nat, a: nat)
    requires i < |s| && SizesAre(v.mem, p0, s, i) && Moved(v, v', {a}, {a})
    requires Moved(h, v, {}, ElementChunks(p0, s, i + 1) + {a}) && a !in ElementChunks(p0, s, i + 1)
    ensures SizesAre(v'.mem, p0, s, i)
  {
    hide SizeOf, Cinuse, Live, Moved, ElementAt, ElementChunks;
    forall j | 0 <= j < i ensures SizeOf(v'.mem, ElementAt(p0, s, j)) == s[j] {
      var b := ElementAt(p0, s, j);
      ElementChunkIn(p0, s, i + 1, b);
      NewIsLive(h, v, ElementChunks(p0, s, i + 1) + {a}, b);
      StoreKeeps(v, v', a, b);
    }
  }

  /** The store is into another chunk's payload, so it is not a head word. */
  lemma HeadNotStored(v: Shape, p: nat, a: nat, w: nat, x: nat)
    requires p != a && a + 16 <= w <= a + SizeOf(v.mem, a) && HeapInv(v, {}) && p in Live(v) && a in Live(v)
    ensures w != p + 8 && (Pinuse(Stored(v, w, x).mem, p) <==> Pinuse(v.mem, p))
  {
    ChunkOkOf(v, p);
    ChunkOkOf(v, a);
    assert p + SizeOf(v.mem, p) <= a || a + SizeOf(v.mem, a) <= p;
    hide SizeOf, HeapInv;
    SameHead(v.mem, Stored(v, w, x).mem, p);
  }

  lemma NewIsLive(h: Shape, v: Shape, new_: set<nat>, b: nat)
    requires Moved(h, v, {}, new_) && b in new_
    ensures b in Live(v)
  {
  }

  lemma StoreKeeps(v: Shape, v': Shape, a: nat, b: nat)
    requires Moved(v, v', {a}, {a}) && b in Live(v) && b != a
    ensures b in Live(v') && SizeOf(v'.mem, b) == SizeOf(v.mem, b)
  {
    assert b in Live(v) - {a} && PayloadKept(v.mem, v'.mem, b);
  }

  /* ---------------- the recorded pointers ---------------- */

  /** The first k words of the pointer array. */
  ghost predicate Recorded(m: Mem, marray: nat, p0: nat, s: seq<nat>, k: nat)
    requires k <= |s|
  {
    forall j | 0 <= j < k :: Word(m, marray, j) == ElementAt(p0, s, j) + 16
  }

  lemma RecordOne(m: Mem, marray: nat, p0: nat, s: seq<nat>, k: nat)
    requires k < |s| && Recorded(m, marray, p0, s, k)
    ensures Recorded(m[marray + 8 * k := ElementAt(p0, s, k) + 16], marray, p0, s, k + 1)
  {
    var m' := m[marray + 8 * k := ElementAt(p0, s, k) + 16];
    hide ElementAt;
    forall j | 0 <= j < k + 1 ensures Word(m', marray, j) == ElementAt(p0, s, j) + 16 {
      assert j < k ==> Word(m, marray, j) == ElementAt(p0, s, j) + 16;
    }
  }

  /** Splitting off an element leaves the pointer array alone. */
  lemma RecordKept(h: Shape, v: Shape, v': Shape, a: nat, p: nat, q: nat, p0: nat, s: seq<nat>, k: nat, new_: set<nat>)
    requires k <= |s| && Recorded(v.mem, a + 16, p0, s, k) && 8 * k + 8 <= SizeOf(v.mem, a)
    requires Moved(h, v, {}, new_) && a in new_ && a != p && Moved(v, v', {p}, {p, q})
    ensures Recorded(v'.mem, a + 16, p0, s, k) && SizeOf(v'.mem, a) == SizeOf(v.mem, a)
  {
    hide ElementAt, LiveKept, Live, SizeOf, Moved;
    NewIsLive(h, v, new_, a);
    KeptWords(v, v', {p}, {p, q}, a);
    forall j | 0 <= j < k ensures Word(v'.mem, a + 16, j) == ElementAt(p0, s, j) + 16 {
      assert Word(v'.mem, a + 16, j) == Word(v.mem, a + 16, j);
    }
  }

  lemma CutAgain(h: Shape, p: nat, s: nat, rest: nat, rest': nat)
    requires s <= rest && rest' == rest - s && s > 0
    ensures var h' := h.(mem := SetSizeOfInuse(h.mem, p, s), chunks := h.chunks + {p + s});
            TwoHeads(Cut(h, p, rest), p, s, rest) == Cut(h', p + s, rest')
  {
    assert h.mem[p + 8 := rest + 3][p + 8 := s + 3] == h.mem[p + 8 := s + 3];
  }

  lemma CutStored(h: Shape, p: nat, rest: nat, w: nat, x: nat)
    requires w != p + 8
    ensures Stored(Cut(h, p, rest), w, x) == Cut(Stored(h, w, x), p, rest)
  {
    assert h.mem[p + 8 := rest + 3][w := x] == h.mem[w := x][p + 8 := rest + 3];
  }

  /** All n elements: each has its size (the last one at least), they follow one another, and
      with the pointer array they are what is newly live. */
  ghost predicate AllSplit(h: Shape, h': Shape, p0: nat, s: seq<nat>, fence: nat, arr: set<nat>)
    requires |s| > 0
  {
    && Moved(h, h', {}, ElementChunks(p0, s, |s|) + arr) && (ElementChunks(p0, s, |s|) + arr) !! Live(h)
    && SizesAre(h'.mem, p0, s, |s| - 1)
    && var last := ElementAt(p0, s, |s| - 1);
       SizeOf(h'.mem, last) >= s[|s| - 1] && last + SizeOf(h'.mem, last) == fence
  }

  lemma ElementFacts(s: seq<nat>, n: nat, sizes: seq<nat>, same: bool)
    requires (if same then |sizes| > 0 else |sizes| >= n) && s == ElementSizes(n, sizes, same)
    ensures |s| == n && forall j | 0 <= j < |s| :: s[j] > 0 && s[j] >= MIN_CHUNK && Aligned(s[j])
    ensures forall j | 0 <= j < n :: s[j] == RequestToSize(if same then sizes[0] else sizes[j])
  {
    hide RequestToSize, Aligned;
  }

  /** Room for the next element and for all that follow. */
  lemma RoomLeft(s: seq<nat>, i: nat, rest: nat)
    requires i < |s| && rest + SumTo(s, i) >= SumTo(s, |s|) && forall j | 0 <= j < |s| :: s[j] >= MIN_CHUNK
    ensures rest >= s[i] && (i + 1 < |s| ==> rest >= s[i] + MIN_CHUNK)
    ensures i + 1 < |s| ==> rest - s[i] + SumTo(s, i + 1) >= SumTo(s, |s|)
  {
    SumMono(s, i, |s|);
    if i + 1 < |s| { SumMono(s, i + 1, |s|); }
    assert i + 1 < |s| ==> SumTo(s, i + 1) == SumTo(s, i) + s[i];
  }

  lemma SplitFacts(h: Shape, v: Shape, p0: nat, s: seq<nat>, i: nat, rest: nat, arr: set<nat>)
    requires i < |s| && Splitting(h, v, p0, s, i, rest, arr)
    ensures HeapInv(v, {}) && Moved(h, v, {}, ElementChunks(p0, s, i + 1) + arr) && arr !! ElementChunks(p0, s, i + 1)
    ensures ElementAt(p0, s, i) in ElementChunks(p0, s, i + 1) && arr <= Live(v)
  {
    hide HeapInv, SizeOf, SizesAre, Cinuse;
  }

  lemma SplitDone(h: Shape, v: Shape, p0: nat, s: seq<nat>, rest: nat, arr: set<nat>, fence: nat)
    requires |s| > 0 && Splitting(h, v, p0, s, |s| - 1, rest, arr) && rest >= s[|s| - 1]
    requires fence == ElementAt(p0, s, |s| - 1) + rest
    ensures AllSplit(h, v, p0, s, fence, arr) && HeapInv(v, {})
  {
    hide HeapInv, SizeOf, Live, Moved, ElementChunks, ElementAt;
  }

  lemma SetIsCut(h: Shape, p: nat, rest: nat)
    ensures h.(mem := SetSizeOfInuse(h.mem, p, rest)) == Cut(h, p, rest)
  {
  }

  /** The array holds n words and more. */
  lemma ArrayRoom(n: nat, i: nat, size: nat)
    requires i < n && size >= 8 * n + 8
    ensures 16 + 8 * i <= size && 8 * i + 8 <= size && 8 * (i + 1) + 8 <= size
  {
  }

  /** The chunk that malloc returns for the whole, and how much of it the elements may use. */
  lemma RequestedRoom(contents: nat, array_: nat)
    requires Aligned(contents) && contents >= MIN_CHUNK && Aligned(array_) && contents + array_ < WORD_LIMIT
    ensures RequestSize(contents + array_ - 8) >= contents + array_
  {
    var b := contents + array_ - 8;
    assert contents + array_ == 16 * (contents / 16 + array_ / 16);
    hide RequestToSize;
    assert b < MAX_REQUEST ==> RequestSize(b) == RequestToSize(b);
  }

  lemma ContentsAligned(s: seq<nat>, n: nat)
    requires n == |s| > 0 && forall j | 0 <= j < |s| :: s[j] >= MIN_CHUNK && Aligned(s[j])
    ensures Aligned(SumTo(s, n)) && SumTo(s, n) >= MIN_CHUNK
  {
    SumAligned(s, n);
    SumMono(s, n - 1, n);
  }

  /** From the aggregate chunk to the start of the loop, when the array is given. */
  lemma StartGiven(h: Shape, h1: Shape, p: nat, s: seq<nat>)
    requires |s| > 0 && HeapInv(h1, {}) && p !in Live(h) && Moved(h, h1, {}, {p}) && Pinuse(h1.mem, p)
    ensures Splitting(h, Cut(h1, p, SizeOf(h1.mem, p)), p, s, 0, SizeOf(h1.mem, p), {})
  {
    hide HeapInv, SizeOf, Live, Moved, Cut, Splitting;
    NewIsLive(h, h1, {p}, p);
    FreshHead(h1, p);
    SplitStart(h, h1, p, s);
  }

  /** And when it is cut off the end. */
  lemma StartOwn(h: Shape, h1: Shape, p: nat, s: seq<nat>, contents: nat)
    requires MIN_CHUNK <= contents && contents + MIN_CHUNK <= SizeOf(h1.mem, p) && Aligned(contents)
    requires |s| > 0 && HeapInv(h1, {}) && p !in Live(h) && Moved(h, h1, {}, {p}) && Pinuse(h1.mem, p)
    ensures var a := p + contents; var rest := SizeOf(h1.mem, p) - contents;
            var h2 := h1.(mem := SetSizeOfInuse(h1.mem, a, rest), chunks := h1.chunks + {a});
            Splitting(h, Cut(h2, p, contents), p, s, 0, contents, {a}) && SizeOf(h2.mem, a) == rest
  {
    hide HeapInv, SizeOf, Live, Moved, Cut, Splitting, TwoHeads, Aligned;
    NewIsLive(h, h1, {p}, p);
    var size := SizeOf(h1.mem, p);
    var v := TwoHeads(h1, p, contents, size);
    SplitArray(h, h1, v, p, s, contents, size);
    OwnHeads(h1, p, contents, size);
  }

  lemma OwnHeads(h1: Shape, p: nat, contents: nat, size: nat)
    requires 0 < contents < size
    ensures var a := p + contents;
            var h2 := h1.(mem := SetSizeOfInuse(h1.mem, a, size - contents), chunks := h1.chunks + {a});
            && TwoHeads(h1, p, contents, size) == Cut(h2, p, contents)
            && SizeOf(TwoHeads(h1, p, contents, size).mem, a) == SizeOf(h2.mem, a)
  {
    var a := p + contents;
    assert h1.mem[p + 8 := contents + 3][a + 8 := size - contents + 3] == h1.mem[a + 8 := size - contents + 3][p + 8 := contents + 3];
  }
}
