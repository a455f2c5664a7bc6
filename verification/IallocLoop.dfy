/** The loop of `ialloc` (hagen/src/malloc.c:4148-4163) while its elements fit in the chunk: one
    step after another keeps the heap as if what remains were already cut off. */
module IallocLoop {
  import opened Words
  import opened Chunks
  import opened Tags
  import opened Heap
  import opened HeapOps
  import opened IallocSteps
  import opened IallocTotals
  import opened Policy
  import opened Bins

  /** Element i begins at `p` and has `rest` bytes left for it and those behind it; k pointers are
      stored. */
  ghost predicate Halfway(h: Shape, w: Shape, first: nat, room: nat, s: seq<nat>, i: nat, k: nat,
                          p: nat, rest: nat, arr: set<nat>, marray: nat, fence: nat, own: bool)
  {
    && i < |s| && k <= |s| && p == ElementAt(first, s, i)
    && (forall j | 0 <= j < |s| :: s[j] >= MIN_CHUNK && Aligned(s[j]))
    && Splitting(h, Cut(w, p, rest), first, s, i, rest, arr)
    && p + rest == first + room < WORD_LIMIT && rest + SumTo(s, i) >= SumTo(s, |s|)
    && (own ==> OwnArray(Cut(w, p, rest).mem, first, s, k, arr, marray, fence))
  }

  /** The array's chunk is new, holds all pointers, has the first k of them, and ends at the fence. */
  ghost predicate OwnArray(m: Mem, first: nat, s: seq<nat>, k: nat, arr: set<nat>, marray: nat, fence: nat)
    requires k <= |s|
  {
    && marray >= 16 && arr == {marray - 16} && Recorded(m, marray, first, s, k)
    && SizeOf(m, marray - 16) >= 8 * |s| + 8 && marray - 16 + SizeOf(m, marray - 16) == fence
  }

  lemma HalfwayStarts(h: Shape, w: Shape, first: nat, room: nat, s: seq<nat>, arr: set<nat>, marray: nat, fence: nat, own: bool)
    requires |s| > 0 && (forall j | 0 <= j < |s| :: s[j] >= MIN_CHUNK && Aligned(s[j])) && room >= SumTo(s, |s|)
    requires Splitting(h, Cut(w, first, room), first, s, 0, room, arr) && first + room < WORD_LIMIT
    requires own ==> marray >= 16 && arr == {marray - 16} && SizeOf(w.mem, marray - 16) >= 8 * |s| + 8 && marray != first + 16
    requires own ==> marray - 16 + SizeOf(w.mem, marray - 16) == fence
    ensures Halfway(h, w, first, room, s, 0, 0, first, room, arr, marray, fence, own)
  {
    hide Splitting, SizeOf, Aligned;
    if own { ArrayStart(w, first, room, marray, s); }
  }

  lemma ArrayStart(h: Shape, first: nat, room: nat, marray: nat, s: seq<nat>)
    requires marray >= 16 && marray != first + 16
    ensures Recorded(Cut(h, first, room).mem, marray, first, s, 0)
    ensures SizeOf(Cut(h, first, room).mem, marray - 16) == SizeOf(h.mem, marray - 16)
  {
  }

  lemma ShapeStored(v: Shape, w: nat, x: nat)
    ensures Stored(v, w, x) == v.(mem := v.mem[w := x])
  {
  }

  lemma StoreApart(h: Shape, v: Shape, p0: nat, s: seq<nat>, i: nat, rest: nat, a: nat, w: nat, x: nat)
    requires i < |s| && Splitting(h, v, p0, s, i, rest, {a}) && a + 16 <= w <= a + SizeOf(v.mem, a)
    ensures w != ElementAt(p0, s, i) + 8
  {
    hide HeapInv, SizeOf, SizesAre, Live, Moved, Pinuse;
    SplitFacts(h, v, p0, s, i, rest, {a});
    HeadNotStored(v, ElementAt(p0, s, i), a, w, x);
  }

  /** Storing a pointer in the array that belongs to the allocator. */
  lemma HalfwayStored(h: Shape, w: Shape, first: nat, room: nat, s: seq<nat>, i: nat, p: nat, rest: nat, arr: set<nat>, marray: nat, fence: nat)
    requires Halfway(h, w, first, room, s, i, i, p, rest, arr, marray, fence, true)
    ensures Halfway(h, w.(mem := w.mem[marray + 8 * i := p + 16]), first, room, s, i, i + 1, p, rest, arr, marray, fence, true)
  {
    hide Splitting, SizeOf, Aligned, Recorded, Cut, Stored, ElementAt, SumTo;
    var a: nat := marray - 16;
    var v := Cut(w, p, rest);
    ArrayRoom(|s|, i, SizeOf(v.mem, a));
    SplitStore(h, v, Stored(v, marray + 8 * i, p + 16), first, s, i, rest, a, marray + 8 * i, p + 16);
    StoreApart(h, v, first, s, i, rest, a, marray + 8 * i, p + 16);
    CutStored(w, p, rest, marray + 8 * i, p + 16);
    RecordOne(v.mem, marray, first, s, i);
    ShapeStored(v, marray + 8 * i, p + 16);
    ShapeStored(w, marray + 8 * i, p + 16);
  }

  /** Storing it in an array that was given changes nothing here. */
  lemma HalfwayGiven(h: Shape, w: Shape, first: nat, room: nat, s: seq<nat>, i: nat, p: nat, rest: nat, arr: set<nat>, marray: nat, fence: nat)
    requires Halfway(h, w, first, room, s, i, i, p, rest, arr, marray, fence, false)
    ensures Halfway(h, w, first, room, s, i, i + 1, p, rest, arr, marray, fence, false)
  {
    hide Splitting, ElementAt, SumTo, Aligned, Cut;
  }

  /** Splitting off element i. */
  lemma HalfwayCut(h: Shape, w: Shape, first: nat, room: nat, s: seq<nat>, i: nat, p: nat, rest: nat, arr: set<nat>, marray: nat, fence: nat, own: bool)
    requires i + 1 < |s| && Halfway(h, w, first, room, s, i, i + 1, p, rest, arr, marray, fence, own)
    ensures s[i] + MIN_CHUNK <= rest
    ensures Halfway(h, w.(mem := SetSizeOfInuse(w.mem, p, s[i]), chunks := w.chunks + {p + s[i]}), first, room, s, i + 1, i + 1,
                    p + s[i], rest - s[i], arr, marray, fence, own)
  {
    hide Splitting, SizeOf, Aligned, Recorded, Cut, TwoHeads, ElementAt, ElementChunks, SumTo, Moved, SetSizeOfInuse;
    var v := Cut(w, p, rest);
    var q := ElementAt(first, s, i + 1);
    RoomLeft(s, i, rest);
    var v' := TwoHeads(v, p, s[i], rest);
    SplitStep(h, v, v', first, s, i, rest, rest - s[i], arr, p, q);
    CutAgain(w, p, s[i], rest, rest - s[i]);
    SplitFacts(h, v, first, s, i, rest, arr);
    if own {
      ArrayRoom(|s|, i, SizeOf(v.mem, marray - 16));
      RecordKept(h, v, v', marray - 16, p, q, first, s, i + 1, ElementChunks(first, s, i + 1) + arr);
    }
  }

  /** The last element takes the rest. */
  lemma HalfwayDone(h: Shape, w: Shape, first: nat, room: nat, s: seq<nat>, p: nat, rest: nat, arr: set<nat>, marray: nat, fence: nat, own: bool)
    requires |s| > 0 && Halfway(h, w, first, room, s, |s| - 1, |s|, p, rest, arr, marray, fence, own)
    ensures var w' := w.(mem := SetSizeOfInuse(w.mem, p, rest));
            HeapInv(w', {}) && AllSplit(h, w', first, s, first + room, arr) && (own ==> OwnArray(w'.mem, first, s, |s|, arr, marray, fence))
  {
    hide Splitting, SizeOf, Aligned, Recorded, Cut, ElementAt, SumTo, SetSizeOfInuse, AllSplit, HeapInv, OwnArray;
    RoomLeft(s, |s| - 1, rest);
    SplitDone(h, Cut(w, p, rest), first, s, rest, arr, first + room);
    SetIsCut(w, p, rest);
  }

  /* ---------------- at the border of the loop ---------------- */

  lemma HalfwayRoom(h: Shape, w: Shape, first: nat, room: nat, s: seq<nat>, i: nat, k: nat, p: nat, rest: nat, arr: set<nat>, marray: nat, fence: nat, own: bool)
    requires Halfway(h, w, first, room, s, i, k, p, rest, arr, marray, fence, own)
    ensures p + 16 < WORD_LIMIT && MIN_CHUNK <= s[i] <= rest && p + rest < WORD_LIMIT
  {
    hide Splitting, OwnArray, Aligned, Cut, ElementAt;
    RoomLeft(s, i, rest);
  }

  lemma FirstLaid(p: nat, s: seq<nat>)
    requires p < WORD_LIMIT
    ensures Laid(p, s, 0) == p
  {
  }

  /** The size that the loop uses for element i. */
  lemma WordOfSize(s: seq<nat>, i: nat, n: nat, sizes: seq<nat>, same: bool)
    requires i < n && (if same then |sizes| > 0 else |sizes| >= n) && s == ElementSizes(n, sizes, same)
    ensures s[i] % WORD_LIMIT == WordSize(if same then sizes[0] else sizes[i])
    ensures s[i] < WORD_LIMIT ==> s[i] % WORD_LIMIT == s[i]
  {
    hide RequestToSize;
  }

  lemma NewInside(h: Shape, p: nat)
    requires HeapInv(h, {}) && p in Live(h)
    ensures p in h.chunks && p + SizeOf(h.mem, p) <= SIZE_LIMIT
  {
    ChunkInWord(h, p);
  }

  /** From the chunk that malloc has returned to the loop, when the array is given. */
  lemma GivenStarts(h: Shape, h1: Shape, p: nat, n: nat, sizes: seq<nat>, same: bool)
    requires n > 0 && (if same then |sizes| > 0 else |sizes| >= n) && Total(n, sizes, same, false) < WORD_LIMIT
    requires HeapInv(h1, {}) && p !in Live(h) && Moved(h, h1, {}, {p}) && Pinuse(h1.mem, p)
    requires SizeOf(h1.mem, p) >= RequestSize(AskedWord(n, sizes, same, false))
    ensures Halfway(h, h1, p, SizeOf(h1.mem, p), ElementSizes(n, sizes, same), 0, 0, p, SizeOf(h1.mem, p), {}, 0, 0, false)
  {
    hide HeapInv, SizeOf, Live, Moved, Cut, Splitting, Aligned, RequestToSize, AskedWord, Halfway, ElementSizes, RequestSize, Total;
    var s := ElementSizes(n, sizes, same);
    ElementFacts(s, n, sizes, same);
    NewIsLive(h, h1, {p}, p);
    NewInside(h1, p);
    ServesTotal(n, sizes, same, false, SizeOf(h1.mem, p));
    StartGiven(h, h1, p, s);
    HalfwayStarts(h, h1, p, SizeOf(h1.mem, p), s, {}, 0, 0, false);
  }

  /** And when it is cut off the end. */
  lemma OwnStarts(h: Shape, h1: Shape, p: nat, n: nat, sizes: seq<nat>, same: bool, a: nat, sum: nat, rest: nat)
    requires n > 0 && (if same then |sizes| > 0 else |sizes| >= n) && Total(n, sizes, same, true) < WORD_LIMIT
    requires HeapInv(h1, {}) && p !in Live(h) && Moved(h, h1, {}, {p}) && Pinuse(h1.mem, p)
    requires SizeOf(h1.mem, p) >= RequestSize(AskedWord(n, sizes, same, true))
    requires p + SizeOf(h1.mem, p) < WORD_LIMIT && sum == SumTo(ElementSizes(n, sizes, same), n) % WORD_LIMIT
    requires a == (p + sum) % WORD_LIMIT && rest == SubWrap(SizeOf(h1.mem, p), sum)
    ensures a == p + sum
    ensures Halfway(h, h1.(mem := SetSizeOfInuse(h1.mem, a, rest), chunks := h1.chunks + {a}),
                    p, sum, ElementSizes(n, sizes, same), 0, 0, p, sum, {a}, a + 16, p + SizeOf(h1.mem, p), true)
  {
    hide HeapInv, SizeOf, Live, Moved, RequestToSize, AskedWord, Halfway, ElementSizes, SetSizeOfInuse, RequestSize, SumTo, Aligned, Total;
    var s := ElementSizes(n, sizes, same);
    ElementFacts(s, n, sizes, same);
    NewIsLive(h, h1, {p}, p);
    NewInside(h1, p);
    ServesTotal(n, sizes, same, true, SizeOf(h1.mem, p));
    SmallMod(SumTo(s, n));
    SmallMod(p + sum);
    OwnStartsFrom(h, h1, p, s, SumTo(s, n), rest);
  }

  /** What malloc serves holds the elements and the array. */
  lemma ServesTotal(n: nat, sizes: seq<nat>, same: bool, own: bool, size: nat)
    requires n > 0 && (if same then |sizes| > 0 else |sizes| >= n) && Total(n, sizes, same, own) < WORD_LIMIT
    requires size >= RequestSize(AskedWord(n, sizes, same, own))
    ensures var contents := SumTo(ElementSizes(n, sizes, same), n);
            && Aligned(contents) && MIN_CHUNK <= contents <= size
            && (own ==> contents + MIN_CHUNK <= size && contents + 8 * n + 8 <= size)
  {
    var s := ElementSizes(n, sizes, same);
    ElementFacts(s, n, sizes, same);
    hide RequestToSize, AskedWord, ElementSizes, RequestSize, SumTo, Aligned;
    AskedWhenFits(n, sizes, same, own);
    ContentsAligned(s, n);
    AlignedArray(n, own);
    RequestedRoom(SumTo(s, n), if own then RequestToSize(8 * n) else 0);
  }

  lemma OwnStartsFrom(h: Shape, h1: Shape, p: nat, s: seq<nat>, contents: nat, rest: nat)
    requires |s| > 0 && (forall j | 0 <= j < |s| :: s[j] >= MIN_CHUNK && Aligned(s[j])) && contents == SumTo(s, |s|)
    requires HeapInv(h1, {}) && p !in Live(h) && Moved(h, h1, {}, {p}) && Pinuse(h1.mem, p) && p + SizeOf(h1.mem, p) < WORD_LIMIT
    requires Aligned(contents) && MIN_CHUNK <= contents && contents + MIN_CHUNK <= SizeOf(h1.mem, p)
    requires contents + 8 * |s| + 8 <= SizeOf(h1.mem, p) && rest == SizeOf(h1.mem, p) - contents
    ensures Halfway(h, h1.(mem := SetSizeOfInuse(h1.mem, p + contents, rest), chunks := h1.chunks + {p + contents}),
                    p, contents, s, 0, 0, p, contents, {p + contents}, p + contents + 16, p + SizeOf(h1.mem, p), true)
  {
    hide HeapInv, SizeOf, Live, Moved, Cut, Splitting, Aligned, Halfway, SetSizeOfInuse, SumTo;
    var a := p + contents;
    StartOwn(h, h1, p, s, contents);
    HalfwayStarts(h, h1.(mem := SetSizeOfInuse(h1.mem, a, rest), chunks := h1.chunks + {a}), p, contents, s, {a}, a + 16, p + SizeOf(h1.mem, p), true);
  }

  /* ---------------- what `ialloc` delivers ---------------- */

  /** `got` is the heap once malloc has returned the chunk `p` for all of it.  The elements lie inside
      `p` if and only if the total is below 2^64. */
  ghost predicate Got(got: Shape, p: nat, n: nat, sizes: seq<nat>, same: bool, own: bool)
    requires if same then |sizes| > 0 else |sizes| >= n
  {
    && HeapInv(got, {}) && p in Live(got) && SizeOf(got.mem, p) >= RequestSize(AskedWord(n, sizes, same, own))
    && (AllInside(got, p, ElementSizes(n, sizes, same)) <==> Total(n, sizes, same, own) < WORD_LIMIT)
  }

  /** All n elements, and the array if the allocator makes it, are cut out of the chunk. */
  ghost predicate AllDelivered(h: Shape, got: Shape, p: nat, w: Shape, n: nat, sizes: seq<nat>, same: bool, own: bool, marray: nat)
    requires n > 0 && if same then |sizes| > 0 else |sizes| >= n
  {
    var s := ElementSizes(n, sizes, same);
    && HeapInv(w, {})
    && if own then marray >= 16 && AllSplit(h, w, p, s, marray - 16, {marray - 16}) && OwnArray(w.mem, p, s, n, {marray - 16}, marray, p + SizeOf(got.mem, p))
       else AllSplit(h, w, p, s, p + SizeOf(got.mem, p), {})
  }

  /** The pointers that the code stores: the element's addresses, as words. */
  ghost predicate Pointers(ptrs: seq<nat>, p: nat, n: nat, sizes: seq<nat>, same: bool)
    requires n > 0 && if same then |sizes| > 0 else |sizes| >= n
  {
    && |ptrs| >= n && ptrs[0] == (p + 16) % WORD_LIMIT
    && ((same ==> WordSize(sizes[0]) != 0) ==>
          forall j | 0 <= j < n :: ptrs[j] == (Laid(p, ElementSizes(n, sizes, same), j) + 16) % WORD_LIMIT)
  }

  /** The first k pointers are stored. */
  ghost predicate PointersTo(ptrs: seq<nat>, p: nat, s: seq<nat>, k: nat, regular: bool) {
    && k <= |s| <= |ptrs| && (k > 0 ==> ptrs[0] == (p + 16) % WORD_LIMIT)
    && (regular ==> forall j | 0 <= j < k :: ptrs[j] == (Laid(p, s, j) + 16) % WORD_LIMIT)
  }

  lemma PointerStored(ptrs: seq<nat>, ptrs': seq<nat>, p: nat, s: seq<nat>, k: nat, regular: bool, x: nat)
    requires PointersTo(ptrs, p, s, k, regular) && k < |s| && ptrs' == ptrs[k := x]
    requires (k == 0 ==> x == (p + 16) % WORD_LIMIT) && (regular ==> x == (Laid(p, s, k) + 16) % WORD_LIMIT)
    ensures PointersTo(ptrs', p, s, k + 1, regular)
  {
    hide Laid;
  }

  lemma NoPointersYet(ptrs: seq<nat>, p: nat, s: seq<nat>, regular: bool)
    requires |s| <= |ptrs|
    ensures PointersTo(ptrs, p, s, 0, regular)
  {
  }

  lemma AllPointers(ptrs: seq<nat>, p: nat, n: nat, sizes: seq<nat>, same: bool, regular: bool)
    requires n > 0 && if same then |sizes| > 0 else |sizes| >= n
    requires PointersTo(ptrs, p, ElementSizes(n, sizes, same), n, regular) && (regular <==> (same ==> WordSize(sizes[0]) != 0))
    ensures Pointers(ptrs, p, n, sizes, same)
  {
    hide Laid, WordSize;
  }

  lemma GotIt(h: Shape, got: Shape, p: nat, n: nat, sizes: seq<nat>, same: bool, own: bool)
    requires n > 0 && if same then |sizes| > 0 else |sizes| >= n
    requires HeapInv(got, {}) && p !in Live(h) && Moved(h, got, {}, {p})
    requires SizeOf(got.mem, p) >= RequestSize(AskedWord(n, sizes, same, own))
    ensures Got(got, p, n, sizes, same, own) && p + SizeOf(got.mem, p) <= SIZE_LIMIT
  {
    hide HeapInv, SizeOf, Moved, AskedWord, RequestSize, AllInside, Total, ElementSizes;
    NewIsLive(h, got, {p}, p);
    NewInside(got, p);
    InsideIff(got, p, n, sizes, same, own);
  }

  lemma InsideIfFits(got: Shape, p: nat, n: nat, sizes: seq<nat>, same: bool, own: bool)
    requires (if same then |sizes| > 0 else |sizes| >= n) && Got(got, p, n, sizes, same, own)
    ensures AllInside(got, p, ElementSizes(n, sizes, same)) <==> Total(n, sizes, same, own) < WORD_LIMIT
  {
  }

  lemma Delivered(h: Shape, got: Shape, p: nat, w: Shape, n: nat, sizes: seq<nat>, same: bool, own: bool, marray: nat)
    requires n > 0 && (if same then |sizes| > 0 else |sizes| >= n) && HeapInv(w, {})
    requires own ==> marray >= 16 && AllSplit(h, w, p, ElementSizes(n, sizes, same), marray - 16, {marray - 16})
    requires own ==> OwnArray(w.mem, p, ElementSizes(n, sizes, same), n, {marray - 16}, marray, p + SizeOf(got.mem, p))
    requires !own ==> AllSplit(h, w, p, ElementSizes(n, sizes, same), p + SizeOf(got.mem, p), {})
    ensures AllDelivered(h, got, p, w, n, sizes, same, own, marray)
  {
  }
}
