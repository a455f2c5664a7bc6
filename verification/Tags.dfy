/** Boundary tags (hagen/src/malloc.c, "Operations on head and foot fields" and the
    set_inuse family): the head and foot words by which chunks tile a segment. */
module Tags {
  import opened Words
  import opened Chunks

  const FLOOR: nat := 0x2000   // the segment lies above the static malloc_state

  /* ---------------- the macros ---------------- */

  function PinuseBit(m: Mem, p: nat): nat { if Pinuse(m, p) then 1 else 0 }

  function SetPinuse(m: Mem, n: nat): Mem {
    m[n + 8 := Head(m, n) - PinuseBit(m, n) + 1]
  }

  function ClearPinuse(m: Mem, n: nat): Mem {
    m[n + 8 := Head(m, n) - PinuseBit(m, n)]
  }

  /** `set_inuse` */
  function SetInuse(m: Mem, p: nat, s: nat): Mem {
    SetPinuse(m[p + 8 := s + 2 + PinuseBit(m, p)], p + s)
  }

  /** `set_inuse_and_pinuse` */
  function SetInuseAndPinuse(m: Mem, p: nat, s: nat): Mem {
    SetPinuse(m[p + 8 := s + 3], p + s)
  }

  /** `set_size_and_pinuse_of_inuse_chunk` */
  function SetSizeOfInuse(m: Mem, p: nat, s: nat): Mem {
    m[p + 8 := s + 3]
  }

  /** `set_size_and_pinuse_of_free_chunk` */
  function SetSizeOfFree(m: Mem, p: nat, s: nat): Mem {
    m[p + 8 := s + 1][p + s := s]
  }

  /** `set_free_with_pinuse` */
  function SetFreeWithPinuse(m: Mem, p: nat, s: nat, n: nat): Mem {
    SetSizeOfFree(ClearPinuse(m, n), p, s)
  }

  /* ---------------- the tiling invariant ---------------- */

  /** `x` is marked as following a free chunk, and its foot word leads there. */
  ghost predicate PrevFree(m: Mem, c: set<nat>, x: nat) {
    && Foot(m, x) <= x
    && var q := x - Foot(m, x); q in c && SizeOf(m, q) == Foot(m, x) && !Cinuse(m, q)
  }

  ghost predicate ChunkOk(m: Mem, c: set<nat>, base: nat, top: nat, a: nat) {
    && Aligned(a) && base <= a && Aligned(SizeOf(m, a)) && SizeOf(m, a) >= MIN_CHUNK && FlagsOk(m, a)
    && (!Pinuse(m, a) ==> PrevFree(m, c, a) && a != base)
    && var n := a + SizeOf(m, a);
       && n <= top && (n in c || n == top)
       && (Pinuse(m, n) <==> Cinuse(m, a))
       && (!Cinuse(m, a) ==> Foot(m, n) == SizeOf(m, a) && n != top && Cinuse(m, n))
  }

  /** Distinct chunks do not overlap. */
  ghost predicate Apart(m: Mem, c: set<nat>) {
    forall a, b | a in c && b in c && a < b :: a + SizeOf(m, a) <= b
  }

  ghost predicate TopOk(m: Mem, top: nat, end: nat) {
    top < end && Head(m, top) == end - top + 1 && Aligned(end - top)
  }

  /** The chunks `c` tile the segment from `base` to `top`, and `top` reaches to `end`. */
  ghost predicate TagsOk(m: Mem, c: set<nat>, base: nat, top: nat, end: nat) {
    && Aligned(base) && FLOOR <= base <= top && Aligned(top)
    && TopOk(m, top, end) && top !in c
    && (base in c || base == top)
    && Apart(m, c)
    && forall a {:trigger ChunkOk(m, c, base, top, a)} | a in c :: ChunkOk(m, c, base, top, a)
  }

  /** Nothing changed outside the words from `q`'s head up to the foot word at `q + len`,
      but the pinuse bit of the chunk there. */
  ghost predicate SpanOnly(m: Mem, m': Mem, q: nat, len: nat) {
    && (forall w: nat {:trigger Rd(m', w)} :: Rd(m', w) == Rd(m, w) || q + 8 <= w <= q + len || w == q + len + 8)
    && Head(m', q + len) - PinuseBit(m', q + len) == Head(m, q + len) - PinuseBit(m, q + len)
  }

  /* ---------------- retiling a span ---------------- */

  /** The chunk addresses of `c` with those inside q .. n replaced by `inside`. */
  ghost function Retiled(c: set<nat>, q: nat, n: nat, inside: set<nat>): set<nat> {
    (set a | a in c && !(q <= a < n)) + inside
  }

  /** How the chunk at `n` must look after the chunk before it has been rewritten. */
  ghost predicate AfterSpan(m: Mem, c: set<nat>, top: nat, n: nat) {
    (n == top ==> Pinuse(m, n)) && (!Pinuse(m, n) ==> PrevFree(m, c, n))
  }

  lemma OutsideSpan(m: Mem, m': Mem, q: nat, len: nat, a: nat)
    requires SpanOnly(m, m', q, len) && len > 8
    ensures a < q || a > q + len ==> Head(m', a) == Head(m, a)
    ensures a <= q || a > q + len + 8 ==> Foot(m', a) == Foot(m, a)
  {
    hide PinuseBit;
  }

  lemma SameHead(m: Mem, m': Mem, a: nat)
    requires Head(m', a) == Head(m, a)
    ensures SizeOf(m', a) == SizeOf(m, a) && (FlagsOk(m', a) <==> FlagsOk(m, a))
    ensures (Cinuse(m', a) <==> Cinuse(m, a)) && (Pinuse(m', a) <==> Pinuse(m, a))
  {
  }

  lemma SameButPinuse(m: Mem, m': Mem, a: nat)
    requires Head(m', a) - PinuseBit(m', a) == Head(m, a) - PinuseBit(m, a)
    ensures SizeOf(m', a) == SizeOf(m, a) && (Cinuse(m', a) <==> Cinuse(m, a))
    ensures FlagsOk(m', a) <==> FlagsOk(m, a)
  {
    hide Rd;
    var h, h' := Head(m, a), Head(m', a);
    LowBit(h % 8);
    LowBit(h' % 8);
    SameAboveLowBit(h / 8, h % 8, h' / 8, h' % 8);
  }

  lemma SameAboveLowBit(q: nat, r: nat, q': nat, r': nat)
    requires r < 8 && r' < 8 && 8 * q' + r' - r' % 2 == 8 * q + r - r % 2
    ensures q' == q && r' - r' % 2 == r - r % 2
  {
  }

  lemma LowBit(r: nat)
    requires r < 8
    ensures r == 2 * (r / 2) + r % 2
  {
  }

  /** The tags of a chunk outside a rewritten span. */
  lemma TagsOutside(m: Mem, m': Mem, q: nat, len: nat, a: nat)
    requires SpanOnly(m, m', q, len) && len > 8 && (a < q || a >= q + len)
    ensures SizeOf(m', a) == SizeOf(m, a) && (Cinuse(m', a) <==> Cinuse(m, a))
    ensures FlagsOk(m', a) <==> FlagsOk(m, a)
    ensures a != q + len ==> (Pinuse(m', a) <==> Pinuse(m, a)) && Head(m', a) == Head(m, a)
  {
    hide SizeOf, Cinuse, FlagsOk, Pinuse, PinuseBit;
    if a == q + len { SameButPinuse(m, m', a); } else { OutsideSpan(m, m', q, len, a); SameHead(m, m', a); }
  }

  /** A span of the tiling, from chunk `q` to the chunk (or top) at `q + len`, has been
      rewritten, and the chunks at its two borders agree with what it is now. */
  ghost predicate SpanRewritten(m: Mem, m': Mem, c: set<nat>, c': set<nat>, top: nat, q: nat, len: nat) {
    && q in c && len > 8 && (q + len in c || q + len == top)
    && SpanOnly(m, m', q, len)
    && (forall b: nat {:trigger b in c'} {:trigger b in c} | !(q <= b < q + len) :: b in c' <==> b in c)
    && q in c' && (Pinuse(m', q) <==> Pinuse(m, q)) && (!Pinuse(m, q) ==> Cinuse(m', q))
    && AfterSpan(m', c', top, q + len)
  }

  lemma RetileBefore(m: Mem, m': Mem, c: set<nat>, c': set<nat>, base: nat, top: nat, end: nat, q: nat, len: nat, a: nat)
    requires TagsOk(m, c, base, top, end) && SpanRewritten(m, m', c, c', top, q, len)
    requires a in c && a < q
    ensures ChunkOk(m', c', base, top, a)
  {
    hide Rd, SizeOf, Pinuse, Cinuse, FlagsOk, Aligned, PinuseBit, Head, SpanOnly, Foot, AfterSpan;
    var x := a + SizeOf(m, a);
    assert ChunkOk(m, c, base, top, a) && ChunkOk(m, c, base, top, q);
    TagsOutside(m, m', q, len, a);
    OutsideSpan(m, m', q, len, a);
    OutsideSpan(m, m', q, len, x);
    assert x <= q;
    if x < q { TagsOutside(m, m', q, len, x); }
    if !Pinuse(m, a) { TagsOutside(m, m', q, len, a - Foot(m, a)); }
  }

  lemma PrevOutside(m: Mem, c: set<nat>, base: nat, top: nat, end: nat, n: nat, a: nat)
    requires TagsOk(m, c, base, top, end) && n in c && a in c && n < a && !Pinuse(m, a)
    ensures PrevFree(m, c, a) && a - Foot(m, a) >= n
  {
    hide Rd, SizeOf, Pinuse, Cinuse, FlagsOk, Aligned, Head, Foot;
    assert ChunkOk(m, c, base, top, a);
    assert ChunkOk(m, c, base, top, n);
    assert n + SizeOf(m, n) <= a;
  }

  lemma RetileAfter(m: Mem, m': Mem, c: set<nat>, c': set<nat>, base: nat, top: nat, end: nat, q: nat, len: nat, a: nat)
    requires TagsOk(m, c, base, top, end) && SpanRewritten(m, m', c, c', top, q, len)
    requires a in c && a >= q + len
    ensures ChunkOk(m', c', base, top, a)
  {
    hide Rd, SizeOf, Pinuse, Cinuse, FlagsOk, Aligned, PinuseBit, Head, SpanOnly, Foot, TagsOk;
    var n, x := q + len, a + SizeOf(m, a);
    ChunkIs(m, c, base, top, end, a);
    ChunkIs(m, c, base, top, end, q);
    if n in c { ChunkIs(m, c, base, top, end, n); }
    TagsOutside(m, m', q, len, a);
    TagsOutside(m, m', q, len, x);
    OutsideSpan(m, m', q, len, x);
    if a != n && !Pinuse(m, a) {
      PrevOutside(m, c, base, top, end, n, a);
      ChunkIs(m, c, base, top, end, a - Foot(m, a));
      PrevStays(m, m', c, c', q, len, a);
    }
  }

  lemma ChunkIs(m: Mem, c: set<nat>, base: nat, top: nat, end: nat, a: nat)
    requires TagsOk(m, c, base, top, end) && a in c
    ensures ChunkOk(m, c, base, top, a)
  {
    hide ChunkOk, TopOk;
  }

  /** The free chunk before `a` lies behind the span, and stays. */
  lemma PrevStays(m: Mem, m': Mem, c: set<nat>, c': set<nat>, q: nat, len: nat, a: nat)
    requires SpanOnly(m, m', q, len) && len > 8 && a > q + len && PrevFree(m, c, a) && a - Foot(m, a) >= q + len
    requires a - Foot(m, a) in c' && SizeOf(m, a - Foot(m, a)) >= MIN_CHUNK
    ensures PrevFree(m', c', a)
  {
    hide Rd, SizeOf, Cinuse, PinuseBit, SpanOnly, Head;
    OutsideSpan(m, m', q, len, a);
    TagsOutside(m, m', q, len, a - Foot(m, a));
  }

  lemma RetileTopWord(m: Mem, m': Mem, c: set<nat>, c': set<nat>, top: nat, end: nat, q: nat, len: nat)
    requires TopOk(m, top, end) && SpanRewritten(m, m', c, c', top, q, len) && q + len <= top
    ensures TopOk(m', top, end)
  {
    if q + len == top {
      assert Pinuse(m', top);
      assert Pinuse(m, top);
    } else {
      OutsideSpan(m, m', q, len, top);
    }
  }

  lemma RetileApart(m: Mem, m': Mem, c: set<nat>, c': set<nat>, base: nat, top: nat, end: nat, q: nat, len: nat, a: nat, b: nat)
    requires TagsOk(m, c, base, top, end) && SpanRewritten(m, m', c, c', top, q, len)
    requires forall a | a in c' && q <= a < q + len :: a + SizeOf(m', a) <= q + len
    requires forall a, b | a in c' && b in c' && q <= a < b < q + len :: a + SizeOf(m', a) <= b
    requires a in c' && b in c' && a < b
    ensures a + SizeOf(m', a) <= b
  {
    hide Rd, SizeOf, Pinuse, Cinuse, FlagsOk, Aligned, PinuseBit, Head, SpanOnly, Foot, TopOk, AfterSpan;
    if a < q || a >= q + len {
      TagsOutside(m, m', q, len, a);
      assert a in c && ChunkOk(m, c, base, top, a);
      if a < q { assert a + SizeOf(m, a) <= q; }
    }
  }

  /** New chunks inside the span that agree with their neighbours make a new tiling. */
  lemma Retile(m: Mem, m': Mem, c: set<nat>, c': set<nat>, base: nat, top: nat, end: nat, q: nat, len: nat)
    requires TagsOk(m, c, base, top, end) && SpanRewritten(m, m', c, c', top, q, len)
    requires forall a {:trigger ChunkOk(m', c', base, top, a)} | a in c' && q <= a < q + len ::
               ChunkOk(m', c', base, top, a)
    requires forall a | a in c' && q <= a < q + len :: a + SizeOf(m', a) <= q + len
    requires forall a, b | a in c' && b in c' && q <= a < b < q + len :: a + SizeOf(m', a) <= b
    ensures TagsOk(m', c', base, top, end)
  {
    hide Rd, SizeOf, Pinuse, Cinuse, FlagsOk, Aligned, PinuseBit, Head, SpanOnly, Foot, TopOk, AfterSpan, ChunkOk;
    var n := q + len;
    QBounds(m, c, base, top, end, q, n);
    RetileTopWord(m, m', c, c', top, end, q, len);
    forall a | a in c' ensures ChunkOk(m', c', base, top, a) {
      if a < q { RetileBefore(m, m', c, c', base, top, end, q, len, a); }
      else if a >= n { RetileAfter(m, m', c, c', base, top, end, q, len, a); }
    }
    forall a, b | a in c' && b in c' && a < b ensures a + SizeOf(m', a) <= b {
      RetileApart(m, m', c, c', base, top, end, q, len, a, b);
    }
  }

  lemma QBounds(m: Mem, c: set<nat>, base: nat, top: nat, end: nat, q: nat, n: nat)
    requires TagsOk(m, c, base, top, end) && q in c && (n in c || n == top)
    ensures base <= q < top && n <= top
  {
    hide Rd, SizeOf, Pinuse, Cinuse, FlagsOk, Aligned, Head, Foot, TopOk;
    assert ChunkOk(m, c, base, top, q);
    if n in c { assert ChunkOk(m, c, base, top, n); }
  }

  /* ---------------- the shapes of rewritten spans ---------------- */

  /** `q`'s head word says size `s`, in use or free, and keeps the pinuse bit it had. */
  ghost predicate HeadNow(m: Mem, m': Mem, q: nat, s: nat, inuse: bool) {
    && SizeOf(m', q) == s && FlagsOk(m', q) && (Cinuse(m', q) <==> inuse) && (Pinuse(m', q) <==> Pinuse(m, q))
  }

  /** The span q .. q + len becomes one chunk. */
  lemma OneChunk(m: Mem, m': Mem, c: set<nat>, base: nat, top: nat, end: nat, q: nat, len: nat, inuse: bool)
    requires TagsOk(m, c, base, top, end) && q in c && (q + len in c || q + len == top)
    requires Aligned(len) && len >= MIN_CHUNK && SpanOnly(m, m', q, len)
    requires HeadNow(m, m', q, len, inuse) && (!Pinuse(m, q) ==> inuse)
    requires Pinuse(m', q + len) <==> inuse
    requires !inuse ==> Foot(m', q + len) == len && q + len != top && Cinuse(m, q + len)
    ensures TagsOk(m', Retiled(c, q, q + len, {q}), base, top, end)
  {
    hide Rd, SizeOf, Pinuse, Cinuse, FlagsOk, Aligned, PinuseBit, Head, SpanOnly, Foot, TopOk;
    var n := q + len;
    var c' := Retiled(c, q, n, {q});
    ChunkIs(m, c, base, top, end, q);
    QBounds(m, c, base, top, end, q, n);
    TagsOutside(m, m', q, len, n);
    PrevKept(m, m', c, c', base, top, end, q, len);
    assert ChunkOk(m', c', base, top, q);
    Retile(m, m', c, c', base, top, end, q, len);
  }

  /** The free chunk before a span is still there after it. */
  lemma PrevKept(m: Mem, m': Mem, c: set<nat>, c': set<nat>, base: nat, top: nat, end: nat, q: nat, len: nat)
    requires TagsOk(m, c, base, top, end) && q in c && len > 8 && SpanOnly(m, m', q, len)
    requires forall b: nat | b < q :: b in c' <==> b in c
    ensures !Pinuse(m, q) ==> PrevFree(m', c', q)
  {
    hide Rd, SizeOf, Pinuse, Cinuse, FlagsOk, Aligned, PinuseBit, Head, SpanOnly, Foot, TopOk;
    assert ChunkOk(m, c, base, top, q);
    if !Pinuse(m, q) {
      var p := q - Foot(m, q);
      assert p in c && p + SizeOf(m, p) == q;
      assert ChunkOk(m, c, base, top, p);
      OutsideSpan(m, m', q, len, q);
      TagsOutside(m, m', q, len, p);
    }
  }

  /** The span q .. q + len holds a chunk in use of size nb and another one behind it. */
  ghost predicate TwoNow(m: Mem, m': Mem, c: set<nat>, top: nat, q: nat, nb: nat, len: nat, inuse: bool) {
    && nb >= MIN_CHUNK && len >= nb + MIN_CHUNK && Aligned(nb) && Aligned(len - nb) && SpanOnly(m, m', q, len)
    && HeadNow(m, m', q, nb, true)
    && SizeOf(m', q + nb) == len - nb && FlagsOk(m', q + nb) && (Cinuse(m', q + nb) <==> inuse) && Pinuse(m', q + nb)
    && (Pinuse(m', q + len) <==> inuse)
    && (!inuse ==> Foot(m', q + len) == len - nb && q + len != top && Cinuse(m, q + len))
  }

  lemma TwoFirst(m: Mem, m': Mem, c: set<nat>, base: nat, top: nat, end: nat, q: nat, nb: nat, len: nat, inuse: bool)
    requires TagsOk(m, c, base, top, end) && q in c && (q + len in c || q + len == top)
    requires TwoNow(m, m', c, top, q, nb, len, inuse)
    ensures ChunkOk(m', Retiled(c, q, q + len, {q, q + nb}), base, top, q)
  {
    hide Rd, SizeOf, Pinuse, Cinuse, FlagsOk, Aligned, PinuseBit, Head, SpanOnly, Foot, TopOk;
    assert ChunkOk(m, c, base, top, q);
    QBounds(m, c, base, top, end, q, q + len);
    PrevKept(m, m', c, Retiled(c, q, q + len, {q, q + nb}), base, top, end, q, len);
  }

  lemma TwoSecond(m: Mem, m': Mem, c: set<nat>, base: nat, top: nat, end: nat, q: nat, nb: nat, len: nat, inuse: bool)
    requires TagsOk(m, c, base, top, end) && q in c && (q + len in c || q + len == top)
    requires TwoNow(m, m', c, top, q, nb, len, inuse)
    ensures ChunkOk(m', Retiled(c, q, q + len, {q, q + nb}), base, top, q + nb)
  {
    hide Rd, SizeOf, Pinuse, Cinuse, FlagsOk, PinuseBit, Head, SpanOnly, Foot, TopOk, TagsOk, Aligned;
    ChunkIs(m, c, base, top, end, q);
    QBounds(m, c, base, top, end, q, q + len);
    TagsOutside(m, m', q, len, q + len);
    AlignedSum(q, nb);
    assert q + nb + (len - nb) == q + len;
  }

  lemma TwoChunks(m: Mem, m': Mem, c: set<nat>, base: nat, top: nat, end: nat, q: nat, nb: nat, len: nat, inuse: bool)
    requires TagsOk(m, c, base, top, end) && q in c && (q + len in c || q + len == top)
    requires TwoNow(m, m', c, top, q, nb, len, inuse)
    ensures TagsOk(m', Retiled(c, q, q + len, {q, q + nb}), base, top, end)
  {
    hide Rd, SizeOf, Pinuse, Cinuse, FlagsOk, Aligned, PinuseBit, Head, SpanOnly, Foot, TopOk, ChunkOk;
    QBounds(m, c, base, top, end, q, q + len);
    TwoFirst(m, m', c, base, top, end, q, nb, len, inuse);
    TwoSecond(m, m', c, base, top, end, q, nb, len, inuse);
    Retile(m, m', c, Retiled(c, q, q + len, {q, q + nb}), base, top, end, q, len);
  }

  /* ---------------- spans that reach into top ---------------- */

  /** Nothing changed below `q`'s head word. */
  ghost predicate AboveOnly(m: Mem, m': Mem, q: nat) {
    forall w: nat {:trigger Rd(m', w)} :: Rd(m', w) == Rd(m, w) || w >= q + 8
  }

  ghost function Below(c: set<nat>, q: nat): set<nat> { set a | a in c && a < q }

  lemma TagsBelow(m: Mem, m': Mem, q: nat, a: nat)
    requires AboveOnly(m, m', q)
    ensures a < q ==> Head(m', a) == Head(m, a) && SizeOf(m', a) == SizeOf(m, a) && (Cinuse(m', a) <==> Cinuse(m, a))
                      && (FlagsOk(m', a) <==> FlagsOk(m, a)) && (Pinuse(m', a) <==> Pinuse(m, a))
    ensures a <= q ==> Foot(m', a) == Foot(m, a)
  {
  }

  /** Everything from `q`, a chunk or top, up to the end has been rewritten to the chunks
      in `new_` and a new top. */
  lemma RetileTop(m: Mem, m': Mem, c: set<nat>, c': set<nat>, base: nat, top: nat, top': nat, end: nat, q: nat, a: nat)
    requires TagsOk(m, c, base, top, end) && (q in c || q == top) && AboveOnly(m, m', q)
    requires q <= top' && Aligned(top') && (q in c' || q == top')
    requires forall b: nat | b < q :: b in c' <==> b in c
    requires (Pinuse(m', q) <==> Pinuse(m, q)) && (!Pinuse(m, q) ==> Cinuse(m', q) && q != top')
    requires a in c && a < q
    ensures ChunkOk(m', c', base, top', a)
  {
    hide Rd, SizeOf, Pinuse, Cinuse, FlagsOk, Aligned, PinuseBit, Head, AboveOnly, Foot, TopOk;
    var x := a + SizeOf(m, a);
    assert ChunkOk(m, c, base, top, a);
    if q in c { assert ChunkOk(m, c, base, top, q); }
    assert x <= q;
    TagsBelow(m, m', q, a);
    TagsBelow(m, m', q, x);
    if !Pinuse(m, a) { TagsBelow(m, m', q, a - Foot(m, a)); }
  }

  /** The chunk at `q` is the last one before top and has become part of it. */
  lemma TopTag(m: Mem, top: nat, q: nat, end: nat)
    requires Aligned(top) && Aligned(q) && q <= top <= end && Aligned(end - top) && Head(m, q) == end - q + 1
    ensures Aligned(end - q) && Pinuse(m, q)
  {
    assert end - q == (end - top) + (top - q);
    OddHead(m, q, end - q);
  }

  lemma IntoTop(m: Mem, m': Mem, c: set<nat>, base: nat, top: nat, end: nat, q: nat)
    requires TagsOk(m, c, base, top, end) && q in c && AboveOnly(m, m', q)
    requires Head(m', q) == end - q + 1 && Pinuse(m, q)
    ensures TagsOk(m', Below(c, q), base, q, end)
  {
    assert ChunkOk(m, c, base, top, q);
    TopTag(m', top, q, end);
    hide Rd, SizeOf, Pinuse, Cinuse, FlagsOk, Aligned, PinuseBit, Head, AboveOnly, Foot;
    var c' := Below(c, q);
    forall a | a in c' ensures ChunkOk(m', c', base, q, a) {
      RetileTop(m, m', c, c', base, top, q, end, q, a);
    }
    forall a, b | a in c' && b in c' && a < b ensures a + SizeOf(m', a) <= b { TagsBelow(m, m', q, a); }
    if base !in c' { assert base == q; }
  }

  lemma OddHead(m: Mem, p: nat, s: nat)
    requires Aligned(s) && Head(m, p) == s + 1
    ensures SizeOf(m, p) == s && Pinuse(m, p) && !Cinuse(m, p) && FlagsOk(m, p)
  {
  }

  lemma UseHead(m: Mem, p: nat, s: nat)
    requires Aligned(s) && Head(m, p) == s + 3
    ensures SizeOf(m, p) == s && Pinuse(m, p) && Cinuse(m, p) && FlagsOk(m, p)
  {
  }

  /** From `q`, which is top or the last chunk before it, there is now one chunk in use and
      then top. */
  lemma ThenTop(m: Mem, m': Mem, c: set<nat>, base: nat, top: nat, top': nat, end: nat, q: nat)
    requires TagsOk(m, c, base, top, end) && (q in c || q == top) && AboveOnly(m, m', q)
    requires q + MIN_CHUNK <= top' < end && Aligned(top') && Head(m', top') == end - top' + 1
    requires HeadNow(m, m', q, top' - q, true)
    ensures TagsOk(m', Below(c, q) + {q}, base, top', end)
  {
    hide Rd, SizeOf, Pinuse, Cinuse, FlagsOk, Aligned, PinuseBit, Head, AboveOnly, Foot, ChunkOk, TopOk;
    var c' := Below(c, q) + {q};
    ThenTopFirst(m, m', c, base, top, top', end, q);
    if q in c { BelowTop(m, c, base, top, end, q); }
    forall a | a in c' ensures ChunkOk(m', c', base, top', a) {
      if a < q { ThenTopOther(m, m', c, base, top, top', end, q, a); }
    }
    forall a, b | a in c' && b in c' && a < b ensures a + SizeOf(m', a) <= b {
      ThenTopApart(m, m', c, base, top, end, q, a, b);
    }
  }

  lemma ThenTopOther(m: Mem, m': Mem, c: set<nat>, base: nat, top: nat, top': nat, end: nat, q: nat, a: nat)
    requires TagsOk(m, c, base, top, end) && (q in c || q == top) && AboveOnly(m, m', q)
    requires q + MIN_CHUNK <= top' && Aligned(top')
    requires HeadNow(m, m', q, top' - q, true)
    requires a in c && a < q
    ensures ChunkOk(m', Below(c, q) + {q}, base, top', a)
  {
    hide Rd, SizeOf, Pinuse, Cinuse, FlagsOk, Aligned, PinuseBit, Head, AboveOnly, Foot, ChunkOk, TopOk, TagsOk;
    RetileTop(m, m', c, Below(c, q) + {q}, base, top, top', end, q, a);
  }

  lemma ThenTopApart(m: Mem, m': Mem, c: set<nat>, base: nat, top: nat, end: nat, q: nat, a: nat, b: nat)
    requires TagsOk(m, c, base, top, end) && (q in c || q == top) && AboveOnly(m, m', q)
    requires a in Below(c, q) && b in Below(c, q) + {q} && a < b
    ensures a + SizeOf(m', a) <= b
  {
    hide Rd, SizeOf, Pinuse, Cinuse, FlagsOk, Aligned, PinuseBit, Head, AboveOnly, Foot, ChunkOk, TopOk;
    TagsBelow(m, m', q, a);
    if q == top && b == q { BelowTop(m, c, base, top, end, a); }
  }

  lemma BelowTop(m: Mem, c: set<nat>, base: nat, top: nat, end: nat, a: nat)
    requires TagsOk(m, c, base, top, end) && a in c
    ensures base <= a && a + SizeOf(m, a) <= top && SizeOf(m, a) >= MIN_CHUNK
  {
    assert ChunkOk(m, c, base, top, a);
  }

  lemma ThenTopFirst(m: Mem, m': Mem, c: set<nat>, base: nat, top: nat, top': nat, end: nat, q: nat)
    requires TagsOk(m, c, base, top, end) && (q in c || q == top) && AboveOnly(m, m', q)
    requires q + MIN_CHUNK <= top' < end && Aligned(top') && Head(m', top') == end - top' + 1
    requires HeadNow(m, m', q, top' - q, true)
    ensures ChunkOk(m', Below(c, q) + {q}, base, top', q)
    ensures base <= q && TopOk(m', top', end)
  {
    AlignedEnds(m, c, base, top, end, q, top');
    OddHead(m', top', end - top');
    hide Rd, SizeOf, Pinuse, Cinuse, FlagsOk, Aligned, PinuseBit, Head, AboveOnly, Foot;
    PrevKeptTop(m, m', c, Below(c, q) + {q}, base, top, end, q);
  }

  lemma AlignedEnds(m: Mem, c: set<nat>, base: nat, top: nat, end: nat, q: nat, top': nat)
    requires TagsOk(m, c, base, top, end) && (q in c || q == top) && q <= top' <= end && Aligned(top')
    ensures Aligned(q) && base <= q && Aligned(end - top') && Aligned(top' - q)
  {
    hide Rd, SizeOf, Pinuse, Cinuse, FlagsOk, Head, Foot, Aligned;
    if q in c { assert ChunkOk(m, c, base, top, q); }
    AlignedSum(top, end - top);
    AlignedDiff(end, top');
    AlignedDiff(top', q);
  }

  lemma AlignedSum(a: nat, b: nat)
    requires Aligned(a) && Aligned(b)
    ensures Aligned(a + b)
  {
  }

  lemma AlignedDiff(a: nat, b: nat)
    requires Aligned(a) && Aligned(b) && b <= a
    ensures Aligned(a - b)
  {
  }

  lemma PrevKeptTop(m: Mem, m': Mem, c: set<nat>, c': set<nat>, base: nat, top: nat, end: nat, q: nat)
    requires TagsOk(m, c, base, top, end) && (q in c || q == top) && AboveOnly(m, m', q)
    requires forall b: nat | b < q :: b in c' <==> b in c
    ensures !Pinuse(m, q) ==> PrevFree(m', c', q) && q != base
    ensures q == top ==> Pinuse(m, q)
  {
    if q == top {
      OddHead(m, top, end - top);
    } else {
      hide Rd, SizeOf, Pinuse, Cinuse, FlagsOk, Aligned, PinuseBit, Head, AboveOnly, Foot, TopOk;
      assert ChunkOk(m, c, base, top, q);
      if !Pinuse(m, q) {
        var p := q - Foot(m, q);
        assert p in c && p + SizeOf(m, p) == q && ChunkOk(m, c, base, top, p);
        TagsBelow(m, m', q, q);
        TagsBelow(m, m', q, p);
      }
    }
  }
}
