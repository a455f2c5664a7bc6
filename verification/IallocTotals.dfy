/** The sizes that `ialloc` adds up, in 64-bit words (hagen/src/malloc.c:4083-4145): the elements lie
    inside the chunk that malloc returns if and only if the total fits in a word. */
module IallocTotals {
  import opened Words
  import opened Bins
  import opened Chunks
  import opened Heap
  import opened HeapSteps
  import opened IallocSteps
  import opened Policy

  /** `request2size` on a word, without the check for too large a request. */
  function WordSize(bytes: nat): (r: nat)
    ensures r < WORD_LIMIT
  {
    RequestToSize(bytes) % WORD_LIMIT
  }

  /** What n elements take, and the pointer array if `ialloc` makes it (`own`). */
  function Total(n: nat, sizes: seq<nat>, same: bool, own: bool): nat
    requires if same then |sizes| > 0 else |sizes| >= n
  {
    SumTo(ElementSizes(n, sizes, same), n) + if own then RequestToSize(8 * n) else 0
  }

  /** The size of the array, and the bytes asked of malloc, as the code computes them. */
  function ArrayWord(n: nat, own: bool): (r: nat)
    ensures r < WORD_LIMIT
  {
    if own then WordSize(8 * n % WORD_LIMIT) else 0
  }

  /** The total in words. */
  function TotalWord(n: nat, sizes: seq<nat>, same: bool, own: bool): (r: nat)
    requires if same then |sizes| > 0 else |sizes| >= n
    ensures r < WORD_LIMIT
  {
    (SumTo(ElementSizes(n, sizes, same), n) % WORD_LIMIT + ArrayWord(n, own)) % WORD_LIMIT
  }

  function AskedWord(n: nat, sizes: seq<nat>, same: bool, own: bool): (r: nat)
    requires if same then |sizes| > 0 else |sizes| >= n
    ensures r < WORD_LIMIT
  {
    SubWrap(TotalWord(n, sizes, same, own), 8)
  }

  /** It is the unbounded total modulo 2^64, as long as the number of bytes of the array is a word. */
  lemma TotalWraps(n: nat, sizes: seq<nat>, same: bool, own: bool)
    requires (if same then |sizes| > 0 else |sizes| >= n) && (own ==> 8 * n < WORD_LIMIT)
    ensures TotalWord(n, sizes, same, own) == Total(n, sizes, same, own) % WORD_LIMIT
  {
    hide RequestToSize, SumTo, ElementSizes;
    var sum := SumTo(ElementSizes(n, sizes, same), n);
    if own {
      SmallMod(8 * n);
      ModAdd(sum, RequestToSize(8 * n));
    } else {
      ModAdd(sum, 0);
    }
  }

  lemma AskedWhenFits(n: nat, sizes: seq<nat>, same: bool, own: bool)
    requires if same then |sizes| > 0 else |sizes| >= n
    requires n > 0 && Total(n, sizes, same, own) < WORD_LIMIT
    ensures AskedWord(n, sizes, same, own) == Total(n, sizes, same, own) - 8
    ensures own ==> ArrayWord(n, own) == RequestToSize(8 * n)
    ensures SumTo(ElementSizes(n, sizes, same), n) >= MIN_CHUNK
  {
    hide RequestToSize, Aligned, SumTo, ElementSizes, SubWrap;
    var s := ElementSizes(n, sizes, same);
    ElementFacts(s, n, sizes, same);
    ContentsAligned(s, n);
    SmallMod(SumTo(s, n));
    if own {
      SmallMod(8 * n);
      SmallMod(RequestToSize(8 * n));
    }
    SmallMod(Total(n, sizes, same, own));
  }

  lemma SmallMod(x: nat)
    requires x < WORD_LIMIT
    ensures x % WORD_LIMIT == x
  {
  }

  /** A total that wraps to 0 asks for what malloc always refuses. */
  lemma NothingAsked(n: nat, sizes: seq<nat>, same: bool, own: bool)
    requires if same then |sizes| > 0 else |sizes| >= n
    requires TotalWord(n, sizes, same, own) == 0
    ensures RequestSize(AskedWord(n, sizes, same, own)) == WORD_LIMIT - 1
  {
  }

  /* ---------------- where the elements lie ---------------- */

  /** Where the code puts element k: addresses are words. */
  function Laid(p: nat, s: seq<nat>, k: nat): (r: nat)
    requires k <= |s|
    ensures r < WORD_LIMIT
  {
    ElementAt(p, s, k) % WORD_LIMIT
  }

  /** Element k lies, with all that was asked for it, inside the chunk. */
  predicate ElementInside(h: Shape, p: nat, s: seq<nat>, k: nat)
    requires k < |s|
  {
    p <= Laid(p, s, k) && Laid(p, s, k) + s[k] <= p + SizeOf(h.mem, p)
  }

  ghost predicate AllInside(h: Shape, p: nat, s: seq<nat>) {
    forall k | 0 <= k < |s| :: ElementInside(h, p, s, k)
  }

  lemma {:induction false} InsideOneByOne(h: Shape, p: nat, s: seq<nat>, k: nat)
    requires k <= |s| && AllInside(h, p, s) && p + SizeOf(h.mem, p) < WORD_LIMIT
    ensures SumTo(s, k) <= SizeOf(h.mem, p)
    decreases k
  {
    hide SizeOf;
    if k > 0 {
      InsideOneByOne(h, p, s, k - 1);
      assert ElementInside(h, p, s, k - 1);
    }
  }

  lemma InsideWhenFits(h: Shape, p: nat, s: seq<nat>, k: nat)
    requires k < |s| && SumTo(s, |s|) <= SizeOf(h.mem, p) && p + SizeOf(h.mem, p) < WORD_LIMIT
    ensures ElementInside(h, p, s, k)
  {
    hide SizeOf;
    SumMono(s, k, |s|);
  }

  lemma ChunkInWord(h: Shape, p: nat)
    requires HeapInv(h, {}) && p in h.chunks
    ensures p + SizeOf(h.mem, p) <= SIZE_LIMIT
  {
    ChunkOf(h, {}, p);
  }

  lemma {:induction false} ManyElements(s: seq<nat>, k: nat)
    requires k <= |s| && forall j | 0 <= j < |s| :: s[j] >= MIN_CHUNK
    ensures SumTo(s, k) >= MIN_CHUNK * k
  {
    if k > 0 { ManyElements(s, k - 1); }
  }

  /** The array is never the larger part. */
  lemma ArrayIsSmaller(n: nat, sizes: seq<nat>, same: bool)
    requires n > 0 && if same then |sizes| > 0 else |sizes| >= n
    ensures RequestToSize(8 * n) <= SumTo(ElementSizes(n, sizes, same), n)
  {
    var s := ElementSizes(n, sizes, same);
    ElementFacts(s, n, sizes, same);
    ManyElements(s, n);
  }

  /** The elements lie inside the chunk that serves the request if and only if the total is below
      2^64. */
  lemma InsideIff(h: Shape, p: nat, n: nat, sizes: seq<nat>, same: bool, own: bool)
    requires n > 0 && if same then |sizes| > 0 else |sizes| >= n
    requires HeapInv(h, {}) && p in h.chunks && SizeOf(h.mem, p) >= RequestSize(AskedWord(n, sizes, same, own))
    ensures AllInside(h, p, ElementSizes(n, sizes, same)) <==> Total(n, sizes, same, own) < WORD_LIMIT
  {
    var s := ElementSizes(n, sizes, same);
    var total := Total(n, sizes, same, own);
    ChunkInWord(h, p);
    ArrayIsSmaller(n, sizes, same);
    ElementFacts(s, n, sizes, same);
    ContentsAligned(s, n);
    hide SizeOf, HeapInv, AllInside, ElementInside, RequestToSize, AskedWord, Aligned;
    if total < WORD_LIMIT {
      AskedWhenFits(n, sizes, same, own);
      AlignedArray(n, own);
      RequestedRoom(SumTo(s, n), if own then RequestToSize(8 * n) else 0);
      forall k | 0 <= k < |s| ensures ElementInside(h, p, s, k) { InsideWhenFits(h, p, s, k); }
      AllOfThem(h, p, s);
    } else if AllInside(h, p, s) {
      InsideOneByOne(h, p, s, n);
    }
  }

  lemma AllOfThem(h: Shape, p: nat, s: seq<nat>)
    requires forall k | 0 <= k < |s| :: ElementInside(h, p, s, k)
    ensures AllInside(h, p, s)
  {
  }

  lemma AlignedArray(n: nat, own: bool)
    ensures Aligned(if own then RequestToSize(8 * n) else 0)
  {
  }

  /** For two requests of 2^63 bytes the code asks for 24 bytes. */
  lemma TwoHalves(own: bool)
    requires !own
    ensures var sizes := [0x8000_0000_0000_0000, 0x8000_0000_0000_0000];
            Total(2, sizes, false, own) == WORD_LIMIT + 32 && RequestSize(AskedWord(2, sizes, false, own)) == MIN_CHUNK
  {
    var sizes := [0x8000_0000_0000_0000, 0x8000_0000_0000_0000];
    var s := ElementSizes(2, sizes, false);
    assert SumTo(s, 2) == SumTo(s, 1) + s[1] && SumTo(s, 1) == SumTo(s, 0) + s[0];
  }

  /* ---------------- adding up in words ---------------- */

  lemma ModAdd(a: nat, b: nat)
    ensures (a % WORD_LIMIT + b % WORD_LIMIT) % WORD_LIMIT == (a + b) % WORD_LIMIT
  {
  }

  /** One more size. */
  lemma AddSize(s: seq<nat>, i: nat)
    requires i < |s|
    ensures (SumTo(s, i) % WORD_LIMIT + s[i] % WORD_LIMIT) % WORD_LIMIT == SumTo(s, i + 1) % WORD_LIMIT
  {
    ModAdd(SumTo(s, i), s[i]);
  }

  lemma SameRest(a: nat, b: nat, e: nat)
    requires a % WORD_LIMIT == b % WORD_LIMIT
    ensures (a + e % WORD_LIMIT) % WORD_LIMIT == (b + e) % WORD_LIMIT
  {
    ModAdd(a, e % WORD_LIMIT);
    ModAdd(b, e);
  }

  lemma OneMore(n: nat, e: nat)
    requires n > 0
    ensures n * e == (n - 1) * e + e
  {
  }

  /** The product of the common size. */
  lemma {:induction false} MulMod(n: nat, e: nat)
    ensures n * (e % WORD_LIMIT) % WORD_LIMIT == n * e % WORD_LIMIT
  {
    if n > 0 {
      var r := e % WORD_LIMIT;
      MulMod(n - 1, e);
      OneMore(n, r);
      OneMore(n, e);
      SameRest((n - 1) * r, (n - 1) * e, e);
    }
  }

  /** The next element's address. */
  lemma NextLaid(p: nat, s: seq<nat>, i: nat)
    requires i < |s|
    ensures (Laid(p, s, i) + s[i] % WORD_LIMIT) % WORD_LIMIT == Laid(p, s, i + 1)
  {
    ModAdd(ElementAt(p, s, i), s[i]);
  }
}
