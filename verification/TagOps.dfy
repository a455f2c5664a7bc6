/** What the sequences of head and foot writes in malloc, free, realloc and memalign
    (hagen/src/malloc.c) do to the tiling of the segment. */
module TagOps {
  import opened Words
  import opened Chunks
  import opened Tags

  /** A chunk at the border of the span that starts at `q`. */
  ghost predicate Border(c: set<nat>, top: nat, q: nat, len: nat) {
    q in c && (q + len in c || q + len == top)
  }

  lemma NeverBothClear(m: Mem, c: set<nat>, base: nat, top: nat, end: nat, v: nat)
    requires TagsOk(m, c, base, top, end) && v in c
    ensures Pinuse(m, v) || Cinuse(m, v)
  {
    assert ChunkOk(m, c, base, top, v);
    if !Pinuse(m, v) { assert ChunkOk(m, c, base, top, v - Foot(m, v)); }
  }

  lemma ChunkFacts(m: Mem, c: set<nat>, base: nat, top: nat, end: nat, q: nat)
    requires TagsOk(m, c, base, top, end) && q in c
    ensures Aligned(q) && base <= q && Aligned(SizeOf(m, q)) && SizeOf(m, q) >= MIN_CHUNK && FlagsOk(m, q)
    ensures Border(c, top, q, SizeOf(m, q)) && q + SizeOf(m, q) <= top
    ensures Pinuse(m, q + SizeOf(m, q)) <==> Cinuse(m, q)
    ensures !Cinuse(m, q) ==> q + SizeOf(m, q) in c && Cinuse(m, q + SizeOf(m, q)) && Pinuse(m, q)
                              && Foot(m, q + SizeOf(m, q)) == SizeOf(m, q)
  {
    assert ChunkOk(m, c, base, top, q);
    NeverBothClear(m, c, base, top, end, q);
  }

  // Reading back a head word that has just been written.
  lemma HeadWritten(m: Mem, p: nat, s: nat, ci: bool, pi: bool)
    requires Aligned(s) && Head(m, p) == s + (if ci then 2 else 0) + (if pi then 1 else 0)
    ensures SizeOf(m, p) == s && FlagsOk(m, p) && (Cinuse(m, p) <==> ci) && (Pinuse(m, p) <==> pi)
  {
    hide Rd;
    var bits := (if ci then 2 else 0) + (if pi then 1 else 0);
    assert s == 16 * (s / 16);
    Eighths(Head(m, p), 2 * (s / 16), bits);
  }

  lemma PinuseWritten(m: Mem, m': Mem, n: nat, bit: nat)
    requires bit <= 1 && Head(m', n) == Head(m, n) - PinuseBit(m, n) + bit
    ensures SizeOf(m', n) == SizeOf(m, n) && (Cinuse(m', n) <==> Cinuse(m, n)) && (Pinuse(m', n) <==> bit == 1)
    ensures Head(m', n) - PinuseBit(m', n) == Head(m, n) - PinuseBit(m, n)
  {
    hide Rd;
    var h, h' := Head(m, n), Head(m', n);
    assert h == 8 * (h / 8) + h % 8;
    assert h' == 8 * (h / 8) + (h % 8 - PinuseBit(m, n) + bit);
    Eighths(h', h / 8, h % 8 - PinuseBit(m, n) + bit);
  }

  lemma Eighths(h: nat, j: nat, r: nat)
    requires h == 8 * j + r && r < 8
    ensures h / 8 == j && h % 8 == r
  {
  }

  // SetPinuse and ClearPinuse at `n`, after words other than its head have been written.
  lemma PinuseSet(m: Mem, m1: Mem, n: nat)
    requires Head(m1, n) == Head(m, n)
    ensures var m' := SetPinuse(m1, n);
            SizeOf(m', n) == SizeOf(m, n) && (Cinuse(m', n) <==> Cinuse(m, n)) && Pinuse(m', n)
            && Head(m', n) - PinuseBit(m', n) == Head(m, n) - PinuseBit(m, n)
  {
    PinuseWritten(m1, SetPinuse(m1, n), n, 1);
  }

  lemma PinuseCleared(m: Mem, m1: Mem, n: nat)
    requires Head(m1, n) == Head(m, n)
    ensures var m' := ClearPinuse(m1, n);
            SizeOf(m', n) == SizeOf(m, n) && (Cinuse(m', n) <==> Cinuse(m, n)) && !Pinuse(m', n)
            && Head(m', n) - PinuseBit(m', n) == Head(m, n) - PinuseBit(m, n)
  {
    PinuseWritten(m1, ClearPinuse(m1, n), n, 0);
  }

  lemma SpanIsOne(m: Mem, c: set<nat>, base: nat, top: nat, end: nat, v: nat)
    requires TagsOk(m, c, base, top, end) && v in c
    ensures forall inside :: Retiled(c, v, v + SizeOf(m, v), inside) == c - {v} + inside
    ensures c - {v} + {v} == c
  {
    assert ChunkOk(m, c, base, top, v);
  }

  /** A free chunk handed out whole. */
  lemma UseWhole(m: Mem, c: set<nat>, base: nat, top: nat, end: nat, v: nat)
    requires TagsOk(m, c, base, top, end) && v in c && !Cinuse(m, v)
    ensures var m' := SetInuseAndPinuse(m, v, SizeOf(m, v));
            && TagsOk(m', c, base, top, end) && SpanOnly(m, m', v, SizeOf(m, v))
            && SizeOf(m', v) == SizeOf(m, v) && Cinuse(m', v) && Pinuse(m', v)
  {
    hide TagsOk, SizeOf, Pinuse, Cinuse, FlagsOk, PinuseBit;
    ChunkFacts(m, c, base, top, end, v);
    var s := SizeOf(m, v);
    var m' := SetInuseAndPinuse(m, v, s);
    HeadWritten(m', v, s, true, true);
    PinuseSet(m, m[v + 8 := s + 3], v + s);
    OneChunk(m, m', c, base, top, end, v, s, true);
    SpanIsOne(m, c, base, top, end, v);
    assert Retiled(c, v, v + s, {v}) == c;
  }

  /** A free chunk split: the front in use, the rest free. */
  lemma UseSplit(m: Mem, m': Mem, c: set<nat>, base: nat, top: nat, end: nat, v: nat, nb: nat)
    requires TagsOk(m, c, base, top, end) && v in c && !Cinuse(m, v)
    requires MIN_CHUNK <= nb && nb + MIN_CHUNK <= SizeOf(m, v) && Aligned(nb)
    requires || m' == SetSizeOfFree(SetSizeOfInuse(m, v, nb), v + nb, SizeOf(m, v) - nb)
             || m' == SetSizeOfInuse(SetSizeOfFree(m, v + nb, SizeOf(m, v) - nb), v, nb)
    ensures TagsOk(m', Retiled(c, v, v + SizeOf(m, v), {v, v + nb}), base, top, end)
    ensures SpanOnly(m, m', v, SizeOf(m, v))
    ensures SizeOf(m', v) == nb && Cinuse(m', v) && Pinuse(m', v)
    ensures SizeOf(m', v + nb) == SizeOf(m, v) - nb && !Cinuse(m', v + nb)
  {
    hide TagsOk, SizeOf, Pinuse, Cinuse, FlagsOk;
    ChunkFacts(m, c, base, top, end, v);
    var s := SizeOf(m, v);
    ChunkFacts(m, c, base, top, end, v + s);
    assert Aligned(s - nb);
    assert Head(m', v) == nb + 3 && Head(m', v + nb) == s - nb + 1 && Foot(m', v + s) == s - nb;
    assert Head(m', v + s) == Head(m, v + s);
    HeadWritten(m', v, nb, true, true);
    HeadWritten(m', v + nb, s - nb, false, true);
    SameHead(m, m', v + s);
    TwoChunks(m, m', c, base, top, end, v, nb, s, false);
  }

  /** A run of chunks becomes one free chunk before a chunk in use. */
  lemma MergeFree(m: Mem, m': Mem, c: set<nat>, base: nat, top: nat, end: nat, q: nat, len: nat)
    requires TagsOk(m, c, base, top, end) && q in c && q + len in c && Pinuse(m, q) && Cinuse(m, q + len)
    requires Aligned(len) && len >= MIN_CHUNK
    requires || m' == SetFreeWithPinuse(m, q, len, q + len)
             || (m' == SetSizeOfFree(m, q, len) && !Pinuse(m, q + len))
    ensures TagsOk(m', Retiled(c, q, q + len, {q}), base, top, end) && SpanOnly(m, m', q, len)
    ensures SizeOf(m', q) == len && !Cinuse(m', q)
  {
    hide TagsOk, SizeOf, Pinuse, Cinuse, FlagsOk;
    ChunkFacts(m, c, base, top, end, q);
    ChunkFacts(m, c, base, top, end, q + len);
    assert Head(m', q) == len + 1 && Foot(m', q + len) == len;
    HeadWritten(m', q, len, false, true);
    PinuseCleared(m, m, q + len);
    if m' == SetSizeOfFree(m, q, len) {
      assert Head(m', q + len) == Head(m, q + len);
      SameHead(m, m', q + len);
    } else {
      assert Head(m', q + len) == Head(ClearPinuse(m, q + len), q + len);
      SameHead(ClearPinuse(m, q + len), m', q + len);
    }
    ChunkNotTop(m, c, base, top, end, q + len);
    OneChunk(m, m', c, base, top, end, q, len, false);
  }

  lemma ChunkNotTop(m: Mem, c: set<nat>, base: nat, top: nat, end: nat, q: nat)
    requires TagsOk(m, c, base, top, end) && q in c
    ensures q < top
  {
    assert ChunkOk(m, c, base, top, q);
  }

  /** The front of top becomes a chunk in use. */
  lemma TopSplit(m: Mem, c: set<nat>, base: nat, top: nat, end: nat, nb: nat)
    requires TagsOk(m, c, base, top, end) && Aligned(nb) && MIN_CHUNK <= nb < end - top
    ensures var m' := SetSizeOfInuse(m[top + nb + 8 := end - (top + nb) + 1], top, nb);
            && TagsOk(m', c + {top}, base, top + nb, end) && AboveOnly(m, m', top)
            && SizeOf(m', top) == nb && Cinuse(m', top) && Pinuse(m', top)
  {
    var m' := SetSizeOfInuse(m[top + nb + 8 := end - (top + nb) + 1], top, nb);
    OddHead(m, top, end - top);
    assert Aligned(top + nb);
    hide SizeOf, Pinuse, Cinuse, FlagsOk, ChunkOk;
    HeadWritten(m', top, nb, true, true);
    ThenTop(m, m', c, base, top, top + nb, end, top);
    forall a | a in c ensures a < top { ChunkNotTop(m, c, base, top, end, a); }
    assert Below(c, top) == c;
  }

  /** A chunk in use takes in what follows it, up to the next border. */
  lemma InuseOne(m: Mem, c: set<nat>, base: nat, top: nat, end: nat, p: nat, len: nat)
    requires TagsOk(m, c, base, top, end) && Border(c, top, p, len) && Cinuse(m, p)
    requires Aligned(len) && len >= MIN_CHUNK
    ensures var m' := SetInuse(m, p, len);
            && TagsOk(m', Retiled(c, p, p + len, {p}), base, top, end) && SpanOnly(m, m', p, len)
            && SizeOf(m', p) == len && Cinuse(m', p)
  {
    hide TagsOk, SizeOf, Pinuse, Cinuse, FlagsOk;
    ChunkFacts(m, c, base, top, end, p);
    var m' := SetInuse(m, p, len);
    assert Head(m', p) == len + 2 + PinuseBit(m, p);
    HeadWritten(m', p, len, true, Pinuse(m, p));
    PinuseSet(m, m[p + 8 := len + 2 + PinuseBit(m, p)], p + len);
    OneChunk(m, m', c, base, top, end, p, len, true);
  }

  /** The span of a chunk in use becomes two chunks in use (in either order of the calls). */
  lemma InuseTwo(m: Mem, m': Mem, c: set<nat>, base: nat, top: nat, end: nat, p: nat, nb: nat, len: nat)
    requires TagsOk(m, c, base, top, end) && Border(c, top, p, len) && Cinuse(m, p)
    requires MIN_CHUNK <= nb && nb + MIN_CHUNK <= len && Aligned(nb) && Aligned(len)
    requires || m' == SetInuse(SetInuse(m, p, nb), p + nb, len - nb)
             || m' == SetInuse(SetInuse(m, p + nb, len - nb), p, nb)
    ensures TagsOk(m', Retiled(c, p, p + len, {p, p + nb}), base, top, end) && SpanOnly(m, m', p, len)
    ensures SizeOf(m', p) == nb && Cinuse(m', p) && SizeOf(m', p + nb) == len - nb && Cinuse(m', p + nb)
  {
    hide TagsOk, SizeOf, Pinuse, Cinuse, FlagsOk;
    ChunkFacts(m, c, base, top, end, p);
    assert Aligned(len - nb);
    InuseTwoWords(m, m', p, nb, len);
    HeadWritten(m', p, nb, true, Pinuse(m, p));
    HeadWritten(m', p + nb, len - nb, true, true);
    TwoChunks(m, m', c, base, top, end, p, nb, len, true);
  }

  /** What the words of two chunks in use look like, whichever was written first. */
  ghost predicate TwoInuseWords(m: Mem, m': Mem, p: nat, nb: nat, len: nat) {
    && SpanOnly(m, m', p, len)
    && Head(m', p) == nb + 2 + PinuseBit(m, p) && Head(m', p + nb) == len - nb + 3
    && Pinuse(m', p + len)
  }

  /** What one set_inuse changes. */
  lemma SetInuseWords(m: Mem, p: nat, s: nat)
    requires s >= 16
    ensures var m' := SetInuse(m, p, s);
            && (forall w: nat {:trigger Rd(m', w)} :: Rd(m', w) == Rd(m, w) || w == p + 8 || w == p + s + 8)
            && Head(m', p) == s + 2 + PinuseBit(m, p) && Pinuse(m', p + s)
            && Head(m', p + s) - PinuseBit(m', p + s) == Head(m, p + s) - PinuseBit(m, p + s)
  {
    hide SizeOf, Cinuse, FlagsOk, Pinuse;
    PinuseSet(m, m[p + 8 := s + 2 + PinuseBit(m, p)], p + s);
  }

  lemma FrontFirst(m: Mem, p: nat, nb: nat, len: nat)
    requires MIN_CHUNK <= nb && nb + MIN_CHUNK <= len && Aligned(nb) && Aligned(len)
    ensures TwoInuseWords(m, SetInuse(SetInuse(m, p, nb), p + nb, len - nb), p, nb, len)
  {
    hide SizeOf, Cinuse, FlagsOk, Aligned, SetInuse, Pinuse, Rd;
    SetInuseWords(m, p, nb);
    var m1 := SetInuse(m, p, nb);
    SetInuseWords(m1, p + nb, len - nb);
    var m2 := SetInuse(m1, p + nb, len - nb);
    assert Head(m2, p) == Head(m1, p);
    assert Head(m1, p + len) == Head(m, p + len);
    SameHead(m, m1, p + len);
  }

  lemma BackFirst(m: Mem, p: nat, nb: nat, len: nat)
    requires MIN_CHUNK <= nb && nb + MIN_CHUNK <= len && Aligned(nb) && Aligned(len)
    ensures TwoInuseWords(m, SetInuse(SetInuse(m, p + nb, len - nb), p, nb), p, nb, len)
  {
    var r, n, s := p + nb, p + len, len - nb;
    assert Aligned(s);
    hide SizeOf, Cinuse, FlagsOk, Aligned, SetInuse, Pinuse, Rd, PinuseBit;
    SetInuseWords(m, r, s);
    var m1 := SetInuse(m, r, s);
    SetInuseWords(m1, p, nb);
    var m2 := SetInuse(m1, p, nb);
    TwoSpans(m, m1, m2, p, nb, len);
    BackHeads(m, m1, m2, p, nb, len);
  }

  /** Two writes of tags, one behind the other, stay in the span. */
  lemma TwoSpans(m: Mem, m1: Mem, m2: Mem, p: nat, nb: nat, len: nat)
    requires MIN_CHUNK <= nb && nb + MIN_CHUNK <= len
    requires forall w: nat {:trigger Rd(m1, w)} :: Rd(m1, w) == Rd(m, w) || w == p + nb + 8 || w == p + len + 8
    requires forall w: nat {:trigger Rd(m2, w)} :: Rd(m2, w) == Rd(m1, w) || w == p + 8 || w == p + nb + 8
    requires Head(m1, p + len) - PinuseBit(m1, p + len) == Head(m, p + len) - PinuseBit(m, p + len) && Pinuse(m1, p + len)
    ensures SpanOnly(m, m2, p, len) && Pinuse(m2, p + len) && Head(m1, p) == Head(m, p) && PinuseBit(m1, p) == PinuseBit(m, p)
  {
    hide Rd;
    assert Rd(m2, p + len + 8) == Rd(m1, p + len + 8);
    assert Rd(m1, p + 8) == Rd(m, p + 8);
    forall w: nat ensures Rd(m2, w) == Rd(m, w) || p + 8 <= w <= p + len || w == p + len + 8 {
      assert Rd(m2, w) == Rd(m1, w) || w == p + 8 || w == p + nb + 8;
    }
  }

  lemma BackHeads(m: Mem, m1: Mem, m2: Mem, p: nat, nb: nat, len: nat)
    requires nb <= len && Aligned(len - nb)
    requires Head(m1, p + nb) == len - nb + 2 + PinuseBit(m, p + nb) && Pinuse(m2, p + nb)
    requires Head(m2, p + nb) - PinuseBit(m2, p + nb) == Head(m1, p + nb) - PinuseBit(m1, p + nb)
    ensures Head(m2, p + nb) == len - nb + 3
  {
    hide Rd, Aligned;
    HeadWritten(m1, p + nb, len - nb, true, Pinuse(m, p + nb));
  }

  lemma InuseTwoWords(m: Mem, m': Mem, p: nat, nb: nat, len: nat)
    requires MIN_CHUNK <= nb && nb + MIN_CHUNK <= len && Aligned(nb) && Aligned(len)
    requires || m' == SetInuse(SetInuse(m, p, nb), p + nb, len - nb)
             || m' == SetInuse(SetInuse(m, p + nb, len - nb), p, nb)
    ensures TwoInuseWords(m, m', p, nb, len)
  {
    FrontFirst(m, p, nb, len);
    BackFirst(m, p, nb, len);
  }

  /** A chunk in use takes in the free chunk behind it, up to size nb; the rest stays free. */
  lemma InuseThenFree(m: Mem, c: set<nat>, base: nat, top: nat, end: nat, p: nat, nb: nat, len: nat)
    requires TagsOk(m, c, base, top, end) && p in c && p + len in c && Cinuse(m, p) && Cinuse(m, p + len)
    requires MIN_CHUNK <= nb && nb + MIN_CHUNK <= len && Aligned(nb) && Aligned(len)
    ensures var m' := ClearPinuse(SetSizeOfFree(SetInuse(m, p, nb), p + nb, len - nb), p + len);
            && TagsOk(m', Retiled(c, p, p + len, {p, p + nb}), base, top, end) && SpanOnly(m, m', p, len)
            && SizeOf(m', p) == nb && Cinuse(m', p)
            && SizeOf(m', p + nb) == len - nb && !Cinuse(m', p + nb)
  {
    hide TagsOk, SizeOf, Pinuse, Cinuse, FlagsOk;
    var r, n := p + nb, p + len;
    ChunkFacts(m, c, base, top, end, p);
    ChunkNotTop(m, c, base, top, end, n);
    assert Aligned(len - nb);
    var m1 := SetSizeOfFree(SetInuse(m, p, nb), r, len - nb);
    var m' := ClearPinuse(m1, n);
    assert Head(m1, n) == Head(m, n);
    PinuseCleared(m, m1, n);
    assert Head(m', p) == nb + 2 + PinuseBit(m, p) && Head(m', r) == len - nb + 1 && Foot(m', n) == len - nb;
    HeadWritten(m', p, nb, true, Pinuse(m, p));
    HeadWritten(m', r, len - nb, false, true);
    TwoChunks(m, m', c, base, top, end, p, nb, len, false);
  }

  /** The chunk before top grows into it. */
  lemma GrowIntoTop(m: Mem, c: set<nat>, base: nat, top: nat, end: nat, p: nat, nb: nat)
    requires TagsOk(m, c, base, top, end) && p in c && p + SizeOf(m, p) == top && Cinuse(m, p)
    requires Aligned(nb) && MIN_CHUNK <= nb && p + nb < end
    ensures var m' := SetInuse(m, p, nb)[p + nb + 8 := end - (p + nb) + 1];
            && TagsOk(m', Below(c, p) + {p}, base, p + nb, end) && AboveOnly(m, m', p)
            && SizeOf(m', p) == nb && Cinuse(m', p)
  {
    ChunkFacts(m, c, base, top, end, p);
    assert Aligned(p + nb);
    hide TagsOk, SizeOf, Pinuse, Cinuse, FlagsOk;
    var m' := SetInuse(m, p, nb)[p + nb + 8 := end - (p + nb) + 1];
    assert Head(m', p) == nb + 2 + PinuseBit(m, p);
    HeadWritten(m', p, nb, true, Pinuse(m, p));
    ThenTop(m, m', c, base, top, p + nb, end, p);
  }

  /** The segment grows at its end and top with it; the word behind it is the fake trailing
      chunk's head. */
  lemma ExtendTop(m: Mem, c: set<nat>, base: nat, top: nat, end: nat, end': nat, foot: nat)
    requires TagsOk(m, c, base, top, end) && end <= end' && Aligned(end' - end)
    ensures var m' := m[top + 8 := end' - top + 1][end' + 8 := foot];
            TagsOk(m', c, base, top, end') && AboveOnly(m, m', top)
  {
    var m' := m[top + 8 := end' - top + 1][end' + 8 := foot];
    assert Aligned(end' - top);
    OddHead(m, top, end - top);
    OddHead(m', top, end' - top);
    hide Rd, SizeOf, Pinuse, Cinuse, FlagsOk, ChunkOk, Head;
    forall a | a in c ensures ChunkOk(m', c, base, top, a) && a + SizeOf(m', a) == a + SizeOf(m, a) {
      ChunkNotTop(m, c, base, top, end, a);
      RetileTop(m, m', c, c, base, top, top, end, top, a);
      TagsBelow(m, m', top, a);
    }
  }

}
