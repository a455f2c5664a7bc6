/** The kernel heap itself (src/obj_heap.c): allocation with the best-bet starting hint and the
    restart, freeing, and reallocation, over any run of which the heap stays well formed. */
module ObjAlloc {
  import opened ObjHeap
  import opened ObjMajors
  import opened BestBet

  const EXTRA: nat := ALIGNMENT + ALIGN_INFO

  /** How many pages `allocate_new_page` asks for. */
  function Pages(size: nat): (st: nat)
    ensures st > 0 && size + HEADER + HEADER <= st * PAGE_SIZE < size + HEADER + HEADER + PAGE_SIZE
  {
    var bytes := size + HEADER + HEADER;
    if bytes % PAGE_SIZE == 0 then bytes / PAGE_SIZE else bytes / PAGE_SIZE + 1
  }

  /** Requests whose sizes stay inside the 32-bit fields. */
  predicate Representable(req: nat) { Pages(req + EXTRA) * PAGE_SIZE < UINT_LIMIT }

  function Fresh(a: nat, size: nat): Major {
    Major(a, Pages(size), Pages(size) * PAGE_SIZE, HEADER, [])
  }

  /** What the page allocator may answer: nothing, or pages that no major holds. */
  predicate Offered(ms: seq<Major>, a: nat, size: nat) {
    a == 0 || forall i | 0 <= i < |ms| :: Separate(ms[i], Fresh(a, size))
  }

  /** The majors that an allocation chooses from. */
  ghost function Base(ms: seq<Major>, grew: bool, a: nat, size: nat): (r: seq<Major>)
    ensures ms <= r && |r| == |ms| + if grew then 1 else 0
  {
    if grew then ms + [Fresh(a, size)] else ms
  }

  lemma BaseIs(ms: seq<Major>, a: nat, size: nat)
    ensures Base(ms, false, a, size) == ms && Base(ms, true, a, size) == ms + [Fresh(a, size)]
  {
  }

  /** How far the walk looked: not at new pages that were asked for because the last major had too few
      unused bytes. */
  ghost function Seen(ms: seq<Major>, need: nat, grew: bool, at: nat): (to: nat)
    ensures to <= if grew then |ms| + 1 else at + 1
    ensures to >= if grew then |ms| else at + 1
  {
    if !grew then at + 1 else if ms == [] || Unused(ms[|ms| - 1]) >= need then |ms| + 1 else |ms|
  }

  /** Position k is the first gap of the major that holds `need` bytes. */
  ghost predicate FirstGap(m: Major, k: nat, need: nat) {
    && k <= |m.minors|
    && (k > 0 ==> FrontGap(m) < need && GapAfter(m, k - 1) >= need)
    && (k == 0 ==> if m.minors == [] then m.size - HEADER >= need else FrontGap(m) >= need)
    && (forall j | 0 <= j < k - 1 :: GapAfter(m, j) < need)
  }

  lemma GrownOk(ms: seq<Major>, a: nat, req: nat)
    requires MajorsOk(ms) && a > 0 && Offered(ms, a, req + EXTRA) && Representable(req)
    ensures MajorsOk(ms + [Fresh(a, req + EXTRA)])
    ensures TotalInUse(ms + [Fresh(a, req + EXTRA)]) == TotalInUse(ms)
    ensures TotalSize(ms + [Fresh(a, req + EXTRA)]) == TotalSize(ms) + Pages(req + EXTRA) * PAGE_SIZE
    ensures Minors(ms + [Fresh(a, req + EXTRA)]) == Minors(ms)
  {
    hide Pages;
    var m := Fresh(a, req + EXTRA);
    assert MajorOk(m) by { hide MajorsOk, Offered; }
    assert (ms + [m])[..|ms|] == ms;
    GrownMinors(ms, m);
  }

  /** A gap that is large enough holds the new minor. */
  lemma GapFits(m: Major, k: nat, need: nat, n: Minor)
    requires MajorOk(m) && FirstGap(m, k, need) && MinorOk(n) && need == n.size + HEADER
    requires n.addr == (if k == 0 then m.addr + HEADER else End(m.minors[k - 1]))
    ensures Fits(m, k, n)
  {
    hide Ordered, Sum, MinorOk;
  }

  lemma GapIsRoom(m: Major, k: nat, need: nat)
    requires FirstGap(m, k, need)
    ensures HasRoom(m, need)
  {
  }

  lemma UnusedIs(m: Major)
    ensures Unused(m) == m.size - m.usage
  {
  }

  lemma NoHint(ms: seq<Major>, need: nat, a: nat, size: nat)
    requires ms == []
    ensures !Hinted(ms, 0, need) && First(ms, 0) == First(ms + [Fresh(a, size)], 0) == Bet(0, 0)
    ensures !Hinted(ms + [Fresh(a, size)], 0, need)
  {
  }

  function NewMinor(a: nat, req: nat): Minor { Minor(a, req + EXTRA, req) }

  lemma FitsShape(m: Major, k: nat, n: Minor)
    requires Fits(m, k, n)
    ensures k <= |m.minors| && MinorOk(n)
  {
  }

  /** What a new minor covers was no minor before. */
  lemma FreshMinor(ms: seq<Major>, i: nat, k: nat, n: Minor)
    requires i < |ms| && k <= |ms[i].minors| && MajorsOk(Placed(ms, i, k, n))
    ensures n !in Minors(ms)
  {
    hide MajorsOk;
    var r := Placed(ms, i, k, n);
    if n in Minors(ms) {
      var j, l :| 0 <= j < |ms| && 0 <= l < |ms[j].minors| && ms[j].minors[l] == n;
      var l' := if j == i && l >= k then l + 1 else l;
      assert r[j].minors[l'] == n;
      MinorsApart(r, i, k, j, l');
    }
  }

  lemma StillListed(ms: seq<Major>, i: nat, k: nat, n: Minor, b: nat)
    requires i < |ms| && k <= |ms[i].minors| && Listed(ms, b)
    ensures Listed(Placed(ms, i, k, n), b)
  {
    var j :| 0 <= j < |ms| && ms[j].addr == b;
    assert Placed(ms, i, k, n)[j].addr == b;
  }

  lemma TagsWithNew(ms: seq<Major>, b: map<nat, nat>, n: Minor)
    requires MajorsOk(ms) && n in Minors(ms)
    requires forall x | x in Minors(ms) && x != n :: Tagged(x, b)
    ensures Pointer(n) >= ALIGN_INFO
    ensures TagsOk(ms, b[Pointer(n) - ALIGN_INFO := Tag(n.addr + HEADER)])
  {
    hide MajorsOk, Minors, Align, Tag;
    MinorIsOk(ms, n);
    PointerInside(n);
    PointerAbove(n);
    var b' := b[Pointer(n) - ALIGN_INFO := Tag(n.addr + HEADER)];
    forall x | x in Minors(ms) ensures Tagged(x, b') {
      if x != n { OtherTagsKept(ms, b, b', n, x); }
    }
  }

  lemma PointerAbove(n: Minor)
    ensures Pointer(n) >= n.addr + HEADER + ALIGN_INFO
  {
  }

  /** Unaligning a live pointer leads to its minor. */
  lemma UnalignFinds(ms: seq<Major>, b: map<nat, nat>, n: Minor)
    requires TagsOk(ms, b) && n in Minors(ms)
    ensures var tag := Byte(b, Pointer(n) - ALIGN_INFO);
            tag <= Pointer(n) && Unalign(Pointer(n), tag) == n.addr + HEADER
  {
    hide Minors;
    assert Tagged(n, b);
    AlignFacts(n.addr + HEADER, 0);
  }

  /** No room in a major whose front and inner gaps are all too small. */
  lemma AllGapsSmall(m: Major, need: nat)
    requires m.minors != [] && FrontGap(m) < need
    requires forall j | 0 <= j < |m.minors| :: GapAfter(m, j) < need
    ensures !HasRoom(m, need)
  {
  }

  /** The gap behind a minor, in the order of the source's subtractions, is never negative. */
  lemma GapNonNegative(m: Major, k: nat)
    requires MajorOk(m) && k < |m.minors|
    ensures GapAfter(m, k) >= 0 && m.minors[0].addr >= m.addr + HEADER
  {
    hide Sum, MinorOk;
  }

  lemma UsageBounded(m: Major)
    requires MajorOk(m)
    ensures HEADER <= m.usage <= m.size
  {
    hide MinorOk;
    if m.minors != [] {
      var l := |m.minors| - 1;
      FillsFrom(m.minors, m.addr + HEADER, m.addr + m.size, l);
    }
  }

  lemma ServedNoneEmpty(ms: seq<Major>, grew: bool, a: nat, size: nat, i: nat, k: nat, n: Minor)
    requires NoneEmpty(ms) && i < |Base(ms, grew, a, size)| && k <= |Base(ms, grew, a, size)[i].minors|
    requires grew ==> i == |ms|
    ensures NoneEmpty(Placed(Base(ms, grew, a, size), i, k, n))
  {
    hide Pages;
  }

  lemma DroppedNoneEmpty(ms: seq<Major>, i: nat, k: nat)
    requires NoneEmpty(ms) && i < |ms| && k < |ms[i].minors| && ms[i].usage >= ms[i].minors[k].size + HEADER
    ensures NoneEmpty(Dropped(ms, i, k))
  {
  }

  lemma DroppedListed(ms: seq<Major>, i: nat, k: nat, b: nat)
    requires i < |ms| && k < |ms[i].minors| && ms[i].usage >= ms[i].minors[k].size + HEADER && Listed(ms, b)
    requires |ms[i].minors| == 1 ==> b != ms[i].addr
    ensures Listed(Dropped(ms, i, k), b)
  {
    var j :| 0 <= j < |ms| && ms[j].addr == b;
    var r := Dropped(ms, i, k);
    assert r[if |ms[i].minors| == 1 && j > i then j - 1 else j].addr == b;
  }

  /** The minor's request is noted anew, with no more bytes than before. */
  function Resize(ms: seq<Major>, i: nat, k: nat, req: nat): seq<Major>
    requires i < |ms| && k < |ms[i].minors|
  {
    ms[i := ms[i].(minors := ms[i].minors[k := ms[i].minors[k].(req := req)])]
  }

  lemma ResizedOk(ms: seq<Major>, i: nat, k: nat, req: nat)
    requires MajorsOk(ms) && i < |ms| && k < |ms[i].minors| && req <= ms[i].minors[k].req
    ensures MajorsOk(Resize(ms, i, k, req))
    ensures TotalInUse(Resize(ms, i, k, req)) == TotalInUse(ms) && TotalSize(Resize(ms, i, k, req)) == TotalSize(ms)
  {
    hide TotalInUse, TotalSize, Payload, Sum;
    var m := ms[i];
    var n := m.minors[k].(req := req);
    var m' := m.(minors := m.minors[k := n]);
    SumReplace(m.minors, k, n);
    PayloadIsSum(m.minors);
    PayloadIsSum(m'.minors);
    TotalsReplace(ms, i, m');
    assert MajorOk(m);
    assert MajorOk(m') by { hide MajorsOk; }
  }

  lemma ResizedMinors(ms: seq<Major>, i: nat, k: nat, req: nat)
    requires MajorsOk(ms) && i < |ms| && k < |ms[i].minors|
    ensures var n := ms[i].minors[k]; Minors(Resize(ms, i, k, req)) == Minors(ms) - {n} + {n.(req := req)}
  {
    hide MajorsOk;
    var n := ms[i].minors[k];
    var r := Resize(ms, i, k, req);
    assert r[i].minors[k] == n.(req := req);
    forall x | x in Minors(ms) && x != n ensures x in Minors(r) {
      var j, l :| 0 <= j < |ms| && 0 <= l < |ms[j].minors| && ms[j].minors[l] == x;
      assert r[j].minors[l] == x;
    }
    forall x | x in Minors(r) && x != n.(req := req) ensures x in Minors(ms) && x != n {
      var j, l :| 0 <= j < |r| && 0 <= l < |r[j].minors| && r[j].minors[l] == x;
      assert ms[j].minors[l] == x;
      MinorsApart(ms, j, l, i, k);
    }
  }

  ghost predicate SameBeyond(b: map<nat, nat>, b': map<nat, nat>, n: Minor) {
    forall a: nat | !InPayload(n, a) :: Byte(b', a) == Byte(b, a)
  }

  function At(b: map<nat, nat>, base: nat, j: nat): nat { Byte(b, base + j) }

  /** The first `done` bytes have been copied and nothing else has changed. */
  ghost predicate Copied(b: map<nat, nat>, b': map<nat, nat>, dst: nat, src: nat, done: nat) {
    && (forall a: nat | a < dst || a >= dst + done :: Byte(b', a) == Byte(b, a))
    && (forall j: nat | j < done :: At(b', dst, j) == At(b, src, j))
  }

  lemma SourceKept(b: map<nat, nat>, b': map<nat, nat>, dst: nat, src: nat, done: nat, count: nat)
    requires Copied(b, b', dst, src, done) && done <= count
    requires src + count <= dst || dst + count <= src
    ensures forall a: nat | src <= a < src + count :: Byte(b', a) == Byte(b, a)
  {
  }

  lemma CopyStep(b: map<nat, nat>, b': map<nat, nat>, dst: nat, src: nat, done: nat, v: nat)
    requires Copied(b, b', dst, src, done) && v == Byte(b, src + done)
    ensures Copied(b, b'[dst + done := v], dst, src, done + 1)
  {
    var b2 := b'[dst + done := v];
    forall j: nat | j < done + 1 ensures At(b2, dst, j) == At(b, src, j) {
      if j < done { assert At(b', dst, j) == At(b, src, j); }
    }
  }

  lemma CopyNone(b: map<nat, nat>, dst: nat, src: nat)
    ensures Copied(b, b, dst, src, 0)
  {
  }

  lemma CopyDone(b: map<nat, nat>, b': map<nat, nat>, dst: nat, src: nat, count: nat, n: Minor)
    requires Copied(b, b', dst, src, count) && Pointer(n) == dst && count <= n.req
    ensures SameBeyond(b, b', n) && forall j: nat | j < count :: At(b', dst, j) == At(b, src, j)
  {
    hide Pointer;
  }

  lemma PointerIgnoresRequest(n: Minor, req: nat)
    ensures Pointer(n.(req := req)) == Pointer(n)
  {
  }

  /** Writes by the owner of a live pointer leave every tag. */
  lemma TagsSurvive(ms: seq<Major>, b: map<nat, nat>, b': map<nat, nat>, n: Minor)
    requires MajorsOk(ms) && TagsOk(ms, b) && n in Minors(ms) && SameBeyond(b, b', n)
    ensures TagsOk(ms, b')
  {
    hide MajorsOk, Minors, Align, Tag;
    MinorIsOk(ms, n);
    PointerInside(n);
    PointerAbove(n);
    forall x | x in Minors(ms) ensures Tagged(x, b') {
      if x != n { OtherTagsKept(ms, b, b', n, x); }
    }
  }

  lemma EachOk(ms: seq<Major>, i: nat)
    requires MajorsOk(ms) && i < |ms|
    ensures MajorOk(ms[i])
  {
  }

  lemma EndIs(n: Minor)
    ensures End(n) == n.addr + HEADER + n.size
  {
  }

  lemma NewFits(m: Major, k: nat, need: nat, n: Minor)
    requires MajorOk(m) && FirstGap(m, k, need) && n == NewMinor(n.addr, n.req) && need == n.size + HEADER
    requires n.addr == (if k == 0 then m.addr + HEADER else End(m.minors[k - 1]))
    ensures Fits(m, k, n)
  {
    hide MajorOk, Fits, FirstGap, End;
    assert MinorOk(n);
    GapFits(m, k, need, n);
  }

  lemma FreshLarge(a: nat, size: nat)
    ensures Fresh(a, size).size - Fresh(a, size).usage >= size + HEADER
    ensures HasRoom(Fresh(a, size), size + HEADER)
  {
  }

  lemma FitsAt(m: Major, k: nat, need: nat)
    requires FirstGap(m, k, need)
    ensures k <= |m.minors|
  {
  }

  lemma OneMinorAt(ms: seq<Major>, x: Minor, y: Minor)
    requires MajorsOk(ms) && x in Minors(ms) && y in Minors(ms) && x.addr == y.addr
    ensures x == y
  {
    hide MajorsOk, Minors;
    if x != y { DifferentApart(ms, x, y); }
  }

  lemma HasMinor(ms: seq<Major>, i: nat, k: nat)
    requires i < |ms| && k < |ms[i].minors|
    ensures ms[i].minors[k] in Minors(ms)
  {
  }

  lemma ResizedListed(ms: seq<Major>, i: nat, k: nat, req: nat, b: nat)
    requires i < |ms| && k < |ms[i].minors| && Listed(ms, b)
    ensures Listed(Resize(ms, i, k, req), b)
  {
    var j :| 0 <= j < |ms| && ms[j].addr == b;
    assert Resize(ms, i, k, req)[j].addr == b;
  }

  lemma ResizedTags(ms: seq<Major>, bytes: map<nat, nat>, n: Minor, req: nat)
    requires TagsOk(ms, bytes) && n in Minors(ms)
    ensures forall x | x in Minors(ms) - {n} + {n.(req := req)} :: Tagged(x, bytes)
  {
    hide Minors;
    assert Tagged(n, bytes);
  }

  ghost predicate SamePayload(b: map<nat, nat>, b': map<nat, nat>, x: Minor) {
    forall a: nat | InPayload(x, a) :: Byte(b', a) == Byte(b, a)
  }

  lemma PayloadAt(b: map<nat, nat>, b': map<nat, nat>, x: Minor)
    requires SamePayload(b, b', x)
    ensures forall j: nat | j < x.req :: At(b', Pointer(x), j) == At(b, Pointer(x), j)
  {
    hide Pointer;
    forall j: nat | j < x.req ensures At(b', Pointer(x), j) == At(b, Pointer(x), j) { assert InPayload(x, Pointer(x) + j); }
  }

  lemma WithinMinor(n: Minor, a: nat)
    ensures Inside(n, a) ==> n.addr <= a < End(n)
  {
  }

  /** Writes inside one minor leave the payloads of all others. */
  lemma OldFrame(ms: seq<Major>, b: map<nat, nat>, b': map<nat, nat>, n: Minor)
    requires MajorsOk(ms) && n in Minors(ms) && AgreeOutside(b, b', n)
    ensures forall x | x in Minors(ms) && x != n :: SamePayload(b, b', x)
  {
    hide MajorsOk, Minors, InPayload, Inside, Byte;
    forall x | x in Minors(ms) && x != n ensures SamePayload(b, b', x) {
      forall a: nat | InPayload(x, a) ensures Byte(b', a) == Byte(b, a) {
        PayloadsApart(ms, x, n, a);
        WithinMinor(n, a);
      }
    }
  }

  lemma BlocksApart(ms: seq<Major>, x: Minor, y: Minor)
    requires MajorsOk(ms) && x in Minors(ms) && y in Minors(ms) && x != y
    ensures Pointer(x) + x.req <= Pointer(y) || Pointer(y) + y.req <= Pointer(x)
  {
    hide MajorsOk, Minors, Pointer;
    MinorIsOk(ms, x);
    MinorIsOk(ms, y);
    BlockInside(x);
    BlockInside(y);
    DifferentApart(ms, x, y);
  }

  lemma BlockInside(n: Minor)
    requires MinorOk(n)
    ensures n.addr + HEADER <= Pointer(n) - ALIGN_INFO && Pointer(n) + n.req <= End(n)
  {
    AlignFacts(n.addr + HEADER, n.req);
  }

  lemma CopyFrame(ms: seq<Major>, b: map<nat, nat>, b': map<nat, nat>, n: Minor)
    requires MajorsOk(ms) && n in Minors(ms) && SameBeyond(b, b', n)
    ensures forall x | x in Minors(ms) && x != n :: SamePayload(b, b', x)
  {
    hide MajorsOk, Minors, Pointer, SamePayload, MinorOk;
    MinorIsOk(ms, n);
    BlockInside(n);
    OldFrame(ms, b, b', n);
  }

  lemma NewFrame(ms: seq<Major>, b: map<nat, nat>, b': map<nat, nat>, n: Minor)
    requires MajorsOk(ms) && n in Minors(ms) && Pointer(n) >= ALIGN_INFO
    requires b' == b[Pointer(n) - ALIGN_INFO := Tag(n.addr + HEADER)]
    ensures MinorOk(n) && forall x | x in Minors(ms) && x != n :: SamePayload(b, b', x)
  {
    hide MajorsOk, Minors, InPayload, Pointer, Tag, SamePayload, MinorOk;
    MinorIsOk(ms, n);
    PointerInside(n);
    OldFrame(ms, b, b', n);
  }

  lemma SizeIsPages(ms: seq<Major>, i: nat)
    requires MajorsOk(ms) && i < |ms|
    ensures ms[i].size == ms[i].pages * PAGE_SIZE && ms[i].size >= ms[i].usage
  {
    assert MajorOk(ms[i]);
    UsageBounded(ms[i]);
  }

  /** Two places with the same pointer are the same place. */
  lemma SamePlace(ms: seq<Major>, i: nat, k: nat, j: nat, l: nat)
    requires MajorsOk(ms) && i < |ms| && k < |ms[i].minors| && j < |ms| && l < |ms[j].minors|
    requires Pointer(ms[i].minors[k]) == Pointer(ms[j].minors[l])
    ensures i == j && k == l
  {
    hide MajorsOk, Pointer;
    var x, y := ms[i].minors[k], ms[j].minors[l];
    assert x in Minors(ms) && y in Minors(ms);
    SamePointer(ms, x, y);
    if i != j || k != l { MinorsApart(ms, i, k, j, l); }
  }

  /** What was served had room, or the page allocator had pages. */
  lemma ServedMeans(ms: seq<Major>, grew: bool, a: nat, req: nat, at: nat, pos: nat)
    requires grew ==> a != 0
    requires at < |Base(ms, grew, a, req + EXTRA)| && FirstGap(Base(ms, grew, a, req + EXTRA)[at], pos, req + EXTRA + HEADER)
    ensures a != 0 || !NoRoom(ms, 0, |ms|, req + EXTRA + HEADER)
  {
    hide Pages;
    if !grew { assert HasRoom(ms[at], req + EXTRA + HEADER); }
  }

  lemma OnlyItself(ms: seq<Major>, was: Minor, now: Minor)
    requires MajorsOk(ms) && was in Minors(ms) && Pointer(now) == Pointer(was)
    ensures now !in Minors(ms) - {was}
  {
    hide MajorsOk, Minors, Pointer;
    if now in Minors(ms) { SamePointer(ms, was, now); }
  }

  /* ---------------- allocation, freeing and reallocation as steps ---------------- */

  /** The first major with room, from the best bet on if that promises enough and otherwise from the root,
      takes the new minor in its first large enough gap; there are new pages only if no gap was large
      enough.  The walk leaves the bet that `BetAfter` gives. */
  ghost predicate AllocatesAt(ms: seq<Major>, bet: nat, b: map<nat, nat>, ms': seq<Major>, bet': nat, b': map<nat, nat>, req: nat,
                              offer: nat, p: nat, grew: bool, at: nat, pos: nat, n: Minor) {
    var need := req + EXTRA + HEADER;
    var base := Base(ms, grew, offer, req + EXTRA);
    && at < |base| && FirstGap(base[at], pos, need) && Fits(base[at], pos, n) && n == NewMinor(n.addr, req)
    && p == Pointer(n) && p >= ALIGN_INFO && ms' == Placed(base, at, pos, n) && b' == b[p - ALIGN_INFO := Tag(n.addr + HEADER)]
    && (grew ==> offer != 0 && at == |ms| && NoRoom(ms, 0, |ms|, need))
    && From(ms, bet, need) <= at && NoRoom(ms, From(ms, bet, need), at, need)
    && bet' == BetAfter(ms, base, bet, need, Seen(ms, need, grew, at))
  }

  ghost predicate Allocates(ms: seq<Major>, bet: nat, b: map<nat, nat>, ms': seq<Major>, bet': nat, b': map<nat, nat>, req: nat,
                            offer: nat, p: nat) {
    exists grew, at, pos, n :: AllocatesAt(ms, bet, b, ms', bet', b', req, offer, p, grew, at, pos, n)
  }

  ghost predicate FreesAt(ms: seq<Major>, bet: nat, ms': seq<Major>, bet': nat, ptr: nat, i: nat, k: nat) {
    && i < |ms| && k < |ms[i].minors| && Pointer(ms[i].minors[k]) == ptr
    && ms[i].usage >= ms[i].minors[k].size + HEADER && ms' == Dropped(ms, i, k)
    && bet' == if |ms[i].minors| == 1 then (if bet == ms[i].addr then 0 else bet) else BetFreed(ms', bet, TakeOut(ms[i], k))
  }

  /** The minor of a pointer goes, and its major if it was the last one; a major that goes is no longer
      the bet, and one that stays may become it. */
  ghost predicate Frees(ms: seq<Major>, bet: nat, ms': seq<Major>, bet': nat, ptr: nat) {
    if ptr == 0 then ms' == ms && bet' == bet else exists i, k :: FreesAt(ms, bet, ms', bet', ptr, i, k)
  }

  ghost predicate ShrinksAt(ms: seq<Major>, ms': seq<Major>, ptr: nat, req: nat, i: nat, k: nat) {
    && i < |ms| && k < |ms[i].minors| && Pointer(ms[i].minors[k]) == ptr && req <= ms[i].minors[k].req && ms' == Resize(ms, i, k, req)
  }

  /** A larger block is allocated, the old one's bytes are copied, and it is freed. */
  ghost predicate MovesBy(ms: seq<Major>, bet: nat, b: map<nat, nat>, ms': seq<Major>, bet': nat, b': map<nat, nat>, ptr: nat, req: nat,
                          offer: nat, r: nat, mid: seq<Major>, midBet: nat, midb: map<nat, nat>, i: nat, k: nat) {
    && Allocates(ms, bet, b, mid, midBet, midb, req, offer, r) && FreesAt(mid, midBet, ms', bet', ptr, i, k)
    && mid[i].minors[k].req < req && Copied(midb, b', r, ptr, mid[i].minors[k].req)
  }

  ghost predicate Reallocates(ms: seq<Major>, bet: nat, b: map<nat, nat>, ms': seq<Major>, bet': nat, b': map<nat, nat>, ptr: nat, req: nat,
                              offer: nat, r: nat) {
    if req == 0 then r == 0 && Frees(ms, bet, ms', bet', ptr) && b' == b
    else if ptr == 0 then Allocates(ms, bet, b, ms', bet', b', req, offer, r)
    else || (r == ptr && b' == b && bet' == bet && exists i, k :: ShrinksAt(ms, ms', ptr, req, i, k))
         || (exists mid, midBet, midb, i, k :: MovesBy(ms, bet, b, ms', bet', b', ptr, req, offer, r, mid, midBet, midb, i, k))
  }

  /** The bet after a walk that found no room and was given no pages. */
  ghost function GivenUp(ms: seq<Major>, bet: nat, req: nat): nat {
    BetAfter(ms, ms, bet, req + EXTRA + HEADER, |ms|)
  }

  lemma AllocatesSo(ms: seq<Major>, bet: nat, b: map<nat, nat>, ms': seq<Major>, bet': nat, b': map<nat, nat>, req: nat, offer: nat, p: nat,
                    grew: bool, at: nat, pos: nat, n: Minor)
    requires AllocatesAt(ms, bet, b, ms', bet', b', req, offer, p, grew, at, pos, n)
    ensures Allocates(ms, bet, b, ms', bet', b', req, offer, p)
  {
  }

  /** An allocation with the best bet listed at j: if that promises more than is needed and some major from it
      on has room, the first of those serves; otherwise the first with room from the root. */
  lemma BetServes(ms: seq<Major>, bet: nat, b: map<nat, nat>, ms': seq<Major>, bet': nat, b': map<nat, nat>, req: nat, offer: nat, p: nat,
                  grew: bool, at: nat, pos: nat, n: Minor, j: nat)
    requires AllocatesAt(ms, bet, b, ms', bet', b', req, offer, p, grew, at, pos, n)
    requires MajorsOk(ms) && bet != 0 && j < |ms| && ms[j].addr == bet
    ensures var need := req + EXTRA + HEADER;
            if Unused(ms[j]) > need && exists i :: j <= i < |ms| && HasRoom(ms[i], need) then
              !grew && j <= at < |ms| && HasRoom(ms[at], need) && NoRoom(ms, j, at, need)
            else NoRoom(ms, 0, at, need) && (if grew then at == |ms| else at < |ms| && HasRoom(ms[at], need))
  {
    hide FirstGap, HasRoom, MajorsOk, BetAfter, Pages;
    BaseIs(ms, offer, req + EXTRA);
    PlaceUnique(ms, j);
    if !grew { GapIsRoom(ms[at], pos, req + EXTRA + HEADER); }
  }

  lemma AddressesDiffer(ms: seq<Major>, i: nat, j: nat)
    requires MajorsOk(ms) && i < j < |ms|
    ensures ms[i].addr != ms[j].addr
  {
    hide MajorOk;
    EachOk(ms, i);
    EachOk(ms, j);
    UsageBounded(ms[i]);
    UsageBounded(ms[j]);
  }

  lemma PlaceUnique(ms: seq<Major>, j: nat)
    requires MajorsOk(ms) && j < |ms|
    ensures Place(ms, ms[j].addr) == j
  {
    hide MajorsOk;
    forall i | 0 <= i < j ensures ms[i].addr != ms[j].addr { AddressesDiffer(ms, i, j); }
    PlaceIs(ms, ms[j].addr, j);
  }

  lemma FreesSo(ms: seq<Major>, bet: nat, ms': seq<Major>, bet': nat, ptr: nat, i: nat, k: nat)
    requires FreesAt(ms, bet, ms', bet', ptr, i, k) && ptr != 0
    ensures Frees(ms, bet, ms', bet', ptr)
  {
  }

  lemma ShrinksSo(ms: seq<Major>, bet: nat, b: map<nat, nat>, ms': seq<Major>, ptr: nat, req: nat, offer: nat, i: nat, k: nat)
    requires ShrinksAt(ms, ms', ptr, req, i, k) && ptr != 0 && req != 0
    ensures Reallocates(ms, bet, b, ms', bet, b, ptr, req, offer, ptr)
  {
  }

  lemma MovesSo(ms: seq<Major>, bet: nat, b: map<nat, nat>, ms': seq<Major>, bet': nat, b': map<nat, nat>, ptr: nat, req: nat, offer: nat,
                r: nat, mid: seq<Major>, midBet: nat, midb: map<nat, nat>, i: nat, k: nat)
    requires MovesBy(ms, bet, b, ms', bet', b', ptr, req, offer, r, mid, midBet, midb, i, k) && ptr != 0 && req != 0
    ensures Reallocates(ms, bet, b, ms', bet', b', ptr, req, offer, r)
  {
  }

  class ObjHeapState {
    var majors: seq<Major>
    var bestBet: nat
    var inuse: nat
    var reserved: nat
    var bytes: map<nat, nat>      // the tags and the callers' bytes

    constructor ()
      ensures Valid() && majors == [] && bestBet == 0
    {
      majors, bestBet, inuse, reserved, bytes := [], 0, 0, 0, map[];
    }

    /** Everything but that each major holds a minor. */
    ghost predicate Sound()
      reads this
    {
      && MajorsOk(majors)
      && (bestBet == 0 || Listed(majors, bestBet))
      && inuse == TotalInUse(majors) && reserved == TotalSize(majors)
      && TagsOk(majors, bytes)
    }

    ghost predicate Valid()
      reads this
    {
      Sound() && NoneEmpty(majors)
    }

    /** A pointer that was handed out and not freed. */
    ghost predicate Live(ptr: nat)
      reads this
    {
      exists n :: n in Minors(majors) && Pointer(n) == ptr
    }

    /** `allocate_new_page`, and the linking of the new major at the end of the list. */
    method AllocateNewPage(req: nat, offer: nat) returns (ok: bool)
      requires Sound() && Offered(majors, offer, req + EXTRA) && Representable(req)
      modifies this`majors, this`reserved
      ensures Sound() && ok == (offer != 0)
      ensures !ok ==> majors == old(majors) && reserved == old(reserved)
      ensures ok ==> majors == old(majors) + [Fresh(offer, req + EXTRA)]
      ensures ok ==> reserved == old(reserved) + Pages(req + EXTRA) * PAGE_SIZE
      ensures ok ==> Minors(majors) == old(Minors(majors))
    {
      hide MajorsOk, Minors, TotalInUse, TotalSize, Tagged, Offered, Representable, Pages;
      if offer == 0 { return false; }
      GrownOk(majors, offer, req);
      var maj := Fresh(offer, req + EXTRA);
      ghost var was := majors;
      assert forall i | 0 <= i < |was| :: (was + [maj])[i] == was[i];
      majors := majors + [maj];
      reserved := reserved + maj.size;
      return true;
    }

    /** The part the four successful cases share: set up the minor, link it, count it and align. */
    method PutMinor(i: nat, k: nat, a: nat, req: nat) returns (p: nat)
      requires Sound() && i < |majors| && Fits(majors[i], k, NewMinor(a, req))
      modifies this`majors, this`inuse, this`bytes
      ensures Sound() && p == Pointer(NewMinor(a, req)) >= ALIGN_INFO && k <= |old(majors)[i].minors|
      ensures majors == Placed(old(majors), i, k, NewMinor(a, req))
      ensures NewMinor(a, req) !in old(Minors(majors))
      ensures Minors(majors) == old(Minors(majors)) + {NewMinor(a, req)}
      ensures inuse == old(inuse) + req + EXTRA
      ensures bytes == old(bytes)[p - ALIGN_INFO := Tag(a + HEADER)]
    {
      hide MajorsOk, Minors, TotalInUse, TotalSize, Tagged, Fits, Align, Tag, End, Listed, MinorOk;
      var n := Minor(a, req + EXTRA, req);
      var m := majors[i];
      FitsShape(m, k, n);
      PlacedOk(majors, i, k, n);
      PlacedMinors(majors, i, k, n);
      FreshMinor(majors, i, k, n);
      if bestBet != 0 { StillListed(majors, i, k, n, bestBet); }
      TagsWithNew(Placed(majors, i, k, n), bytes, n);
      majors := majors[i := Squeeze(m, k, n)];
      inuse := inuse + n.size;
      p := Align(a + HEADER);
      bytes := bytes[p - ALIGN_INFO := Tag(a + HEADER)];
    }

    /** The walk over the minors of a major: the first inner or end gap that is large enough. */
    method FindGap(m: Major, size: nat) returns (found: bool, k: nat)
      requires MajorOk(m) && m.minors != []
      ensures found ==> k < |m.minors| && GapAfter(m, k) >= size + HEADER
      ensures forall j | 0 <= j < |m.minors| && (found ==> j < k) :: GapAfter(m, j) < size + HEADER
    {
      hide MajorOk;
      k := 0;
      while k < |m.minors|
        invariant k <= |m.minors|
        invariant forall j | 0 <= j < k :: GapAfter(m, j) < size + HEADER
      {
        GapNonNegative(m, k);
        var min := m.minors[k];
        if k + 1 == |m.minors| {
          var diff: nat := m.addr + m.size - min.addr - HEADER - min.size;
          if diff >= size + HEADER { return true, k; }
        } else {
          var diff: nat := m.minors[k + 1].addr - min.addr - HEADER - min.size;
          if diff >= size + HEADER { return true, k; }
        }
        k := k + 1;
      }
      return false, k;
    }

    /** Cases 2 to 4 for one major: serve the request from it if some gap is large enough. */
    method ServeFrom(i: nat, req: nat) returns (p: nat, ghost k: nat, ghost n: Minor)
      requires Sound() && i < |majors|
      requires majors[i].size - majors[i].usage >= req + EXTRA + HEADER
      modifies this`majors, this`inuse, this`bytes
      ensures Sound()
      ensures p == 0 ==> majors == old(majors) && !HasRoom(majors[i], req + EXTRA + HEADER)
      ensures p == 0 ==> inuse == old(inuse) && bytes == old(bytes)
      ensures p != 0 ==> FirstGap(old(majors)[i], k, req + EXTRA + HEADER) && n == NewMinor(n.addr, req) && Fits(old(majors)[i], k, n)
      ensures p != 0 ==> p == Pointer(n) >= ALIGN_INFO && majors == Placed(old(majors), i, k, n)
      ensures p != 0 ==> n !in old(Minors(majors)) && Minors(majors) == old(Minors(majors)) + {n}
      ensures p != 0 ==> inuse == old(inuse) + n.size
      ensures p != 0 ==> bytes == old(bytes)[p - ALIGN_INFO := Tag(n.addr + HEADER)]
    {
      hide MajorsOk, MajorOk, Minors, TotalInUse, TotalSize, TagsOk, Fits, Align, Tag, End, Listed, MinorOk;
      var m := majors[i];
      var size := req + EXTRA;
      EachOk(majors, i);
      UsageBounded(m);
      if m.minors == [] {
        k, n := 0, NewMinor(m.addr + HEADER, req);
        NewFits(m, 0, size + HEADER, n);
        p := PutMinor(i, 0, m.addr + HEADER, req);
        return;
      }
      GapNonNegative(m, 0);
      var diff: nat := m.minors[0].addr - m.addr - HEADER;
      if diff >= size + HEADER {
        k, n := 0, NewMinor(m.addr + HEADER, req);
        NewFits(m, 0, size + HEADER, n);
        p := PutMinor(i, 0, m.addr + HEADER, req);
        return;
      }
      var found, min := FindGap(m, size);
      if found {
        var a := m.minors[min].addr + HEADER + m.minors[min].size;
        k, n := min + 1, NewMinor(a, req);
        EndIs(m.minors[min]);
        NewFits(m, min + 1, size + HEADER, n);
        p := PutMinor(i, min + 1, a, req);
        return;
      }
      AllGapsSmall(m, size + HEADER);
      return 0, 0, NewMinor(0, req);
    }

    method IndexOf(a: nat) returns (i: nat)
      requires Listed(majors, a)
      ensures i < |majors| && i == Place(majors, a)
    {
      i := 0;
      while majors[i].addr != a
        invariant i < |majors| && forall j | 0 <= j < i :: majors[j].addr != a
        decreases |majors| - i
      {
        i := i + 1;
      }
      PlaceIs(majors, a, i);
    }

    lemma NoBetYet()
      requires Sound() && majors == []
      ensures bestBet == 0
    {
    }

    /** Where the search starts: at the best bet when that has more room than is needed. */
    method Start(size: nat) returns (i: nat, started: bool, bestSize: nat)
      requires Sound() && majors != []
      ensures i < |majors|
      ensures started == Hinted(majors, bestBet, size + HEADER) && i == (if started then Place(majors, bestBet) else 0)
      ensures Bet(bestBet, bestSize) == First(majors, bestBet)
    {
      hide Place, MajorsOk, MajorOk, Minors, TotalInUse, TotalSize, TagsOk;
      i, started, bestSize := 0, false, 0;
      if bestBet != 0 {
        var bet := IndexOf(bestBet);
        EachOk(majors, bet);
        UsageBounded(majors[bet]);
        bestSize := majors[bet].size - majors[bet].usage;
        if bestSize > size + HEADER { i, started := bet, true; }
      }
    }

    /** The head of the search loop: how much is free in a major, remembered when it is the most. */
    method Look(i: nat, bestSize: nat) returns (diff: nat, best: nat)
      requires Sound() && i < |majors|
      modifies this`bestBet
      ensures Sound() && MajorOk(majors[i]) && diff == majors[i].size - majors[i].usage
      ensures Bet(bestBet, best) == Glance(Bet(old(bestBet), bestSize), majors[i])
    {
      hide MajorsOk, MajorOk, Minors, TotalInUse, TotalSize, TagsOk;
      EachOk(majors, i);
      UsageBounded(majors[i]);
      diff, best := majors[i].size - majors[i].usage, bestSize;
      if best < diff { bestBet, best := majors[i].addr, diff; }
    }

    /** `k_obj_alloc`: start at the best bet when it promises enough, walk on, restart at the root,
        and ask for pages only when no gap of any major holds the request. */
    method Alloc(req: nat, offer: nat)
      returns (p: nat, grew: bool, ghost at: nat, ghost pos: nat, ghost n: Minor)
      requires Valid() && Representable(req) && Offered(majors, offer, req + EXTRA)
      modifies this
      ensures Valid()
      ensures p == 0 ==> offer == 0 && majors == old(majors) && inuse == old(inuse)
      ensures p == 0 ==> reserved == old(reserved) && bytes == old(bytes)
      ensures grew || p == 0 ==> NoRoom(old(majors), 0, |old(majors)|, req + EXTRA + HEADER)
      ensures p != 0 ==> AllocatesAt(old(majors), old(bestBet), old(bytes), majors, bestBet, bytes, req, offer, p, grew, at, pos, n)
      ensures p == 0 ==> bestBet == GivenUp(old(majors), old(bestBet), req)
      ensures p != 0 ==> n !in old(Minors(majors)) && Minors(majors) == old(Minors(majors)) + {n}
      ensures p != 0 ==> inuse == old(inuse) + n.size
      ensures p != 0 ==> reserved == old(reserved) + if grew then Pages(req + EXTRA) * PAGE_SIZE else 0
      ensures grew ==> p != 0
    {
      hide Sound, MajorsOk, MajorOk, Minors, TotalInUse, TotalSize, TagsOk, Align, Tag, Pointer, FirstGap, HasRoom, Pages, Representable, Offered,
        Placed, NoneEmpty, NewMinor, Fits, Base, Fresh, Walks, From, BetAfter, Glance, Place, First, Hinted, NoRoom, Unused;
      p, at, pos, n, grew := 0, 0, 0, NewMinor(0, req), false;
      var size := req + EXTRA;
      ghost var ms, bet, need := majors, bestBet, size + HEADER;
      BaseIs(ms, offer, size);
      WalkBegins(ms, bet, need);
      if majors == [] {
        NoBetYet();
        NoHint(ms, need, offer, size);
        WalkEnds(ms, ms, bet, need, First(ms, bet));
        grew := AllocateNewPage(req, offer);
        if !grew { return; }
      }
      var i: nat, started, bestSize := Start(size);
      while i < |majors|
        invariant Sound() && NoneEmpty(ms) && i <= |majors|
        invariant majors == Base(ms, grew, offer, size) && Minors(majors) == old(Minors(majors))
        invariant inuse == old(inuse) && bytes == old(bytes)
        invariant reserved == old(reserved) + if grew then Pages(size) * PAGE_SIZE else 0
        invariant Walks(ms, bet, need, started, i, Bet(bestBet, bestSize))
        invariant grew ==> i == |majors| - 1 && !started && offer != 0 && Seen(ms, need, true, i) == |ms| + 1
        invariant !grew ==> i < |majors|
        decreases if grew then 0 else 1, if started then 1 else 0, |majors| - i
      {
        ghost var was := Bet(bestBet, bestSize);
        if grew { WalkEnds(ms, majors, bet, need, was); }
        var diff: nat;
        diff, bestSize := Look(i, bestSize);
        assert grew ==> diff >= size + HEADER by { FreshLarge(offer, size); }
        if diff < size + HEADER {
          GapBound(majors[i], size + HEADER);
          WalkOn(ms, bet, need, started, i, was);
          if i + 1 < |majors| {
            i := i + 1;
            continue;
          }
          if started {
            WalkRestarts(ms, bet, need, Bet(bestBet, bestSize));
            i, started := 0, false;
            continue;
          }
          WalkEnds(ms, Base(ms, true, offer, size), bet, need, Bet(bestBet, bestSize));
          WalkEnds(ms, ms, bet, need, Bet(bestBet, bestSize));
          var ok := AllocateNewPage(req, offer);
          if !ok { return; }
          grew := true;
          i := i + 1;
          FreshLarge(offer, size);
          UnusedIs(ms[i - 1]);
        }
        p, pos, n := ServeFrom(i, req);
        if p != 0 {
          at := i;
          FitsAt(Base(ms, grew, offer, size)[at], pos, size + HEADER);
          ServedNoneEmpty(ms, grew, offer, size, at, pos, n);
          if !grew {
            GapIsRoom(ms[i], pos, need);
            WalkServes(ms, bet, need, started, i, was);
          }
          return;
        }
        assert !grew by { FreshLarge(offer, size); }
        WalkOn(ms, bet, need, started, i, was);
        if i + 1 == |majors| {
          if started {
            WalkRestarts(ms, bet, need, Bet(bestBet, bestSize));
            i, started := 0, false;
            continue;
          }
          WalkEnds(ms, ms, bet, need, Bet(bestBet, bestSize));
          UnusedIs(ms[i]);
          var ok := AllocateNewPage(req, offer);
          if !ok { return; }
          grew := true;
        }
        i := i + 1;
      }
    }

    /** The minor that a pointer was handed out for: its tag leads to it, and it names its major. */
    method Find(ptr: nat) returns (i: nat, k: nat)
      requires Sound() && Live(ptr)
      ensures i < |majors| && k < |majors[i].minors| && Pointer(majors[i].minors[k]) == ptr
      ensures majors[i].minors[k] in Minors(majors)
    {
      hide MajorsOk, TotalInUse, TotalSize, Tagged, Align, Tag, Pointer, Unalign, Listed;
      ghost var n :| n in Minors(majors) && Pointer(n) == ptr;
      UnalignFinds(majors, bytes, n);
      PointerAbove(n);
      var min := Unalign(ptr, Byte(bytes, ptr - ALIGN_INFO)) - HEADER;
      assert n.addr == min;
      i, k :| 0 <= i < |majors| && 0 <= k < |majors[i].minors| && majors[i].minors[k].addr == min;
      OneMinorAt(majors, n, majors[i].minors[k]);
    }

    /** A major that has lost a minor becomes the bet if it now promises more. */
    method Rebet(m: nat)
      requires Sound() && m < |majors| && bestBet != 0
      modifies this`bestBet
      ensures Sound() && bestBet == BetFreed(majors, old(bestBet), majors[m])
    {
      hide Place, MajorsOk, MajorOk, TotalInUse, TotalSize, TagsOk, Minors;
      PlaceListed(majors, bestBet);
      var bet := IndexOf(bestBet);
      var maj := majors[m];
      assert Listed(majors, maj.addr);
      var bestSize := AsInt(majors[bet].size - majors[bet].usage);
      var majSize := AsInt(maj.size - maj.usage);
      if majSize > bestSize { bestBet := maj.addr; }
    }

    /** `k_obj_free`. */
    method Free(ptr: nat) returns (pages: nat, ghost i: nat, ghost k: nat)
      requires Valid() && (ptr == 0 || Live(ptr))
      modifies this
      ensures Valid() && bytes == old(bytes)
      ensures ptr == 0 ==> pages == 0 && majors == old(majors) && inuse == old(inuse) && reserved == old(reserved)
      ensures ptr != 0 ==> i < |old(majors)| && k < |old(majors)[i].minors| && Pointer(old(majors)[i].minors[k]) == ptr
      ensures ptr != 0 ==> old(majors)[i].usage >= old(majors)[i].minors[k].size + HEADER
      ensures ptr != 0 ==> majors == Dropped(old(majors), i, k)
      ensures ptr != 0 ==> old(majors)[i].minors[k] in old(Minors(majors))
      ensures ptr != 0 ==> Minors(majors) == old(Minors(majors)) - {old(majors)[i].minors[k]}
      ensures ptr != 0 ==> inuse + old(majors)[i].minors[k].size == old(inuse)
      ensures ptr != 0 ==> pages == if |old(majors)[i].minors| == 1 then old(majors)[i].pages else 0
      ensures reserved + pages * PAGE_SIZE == old(reserved)
      ensures ptr == 0 ==> bestBet == old(bestBet)
      ensures ptr != 0 ==> FreesAt(old(majors), old(bestBet), majors, bestBet, ptr, i, k)
    {
      hide Place, MajorsOk, MajorOk, TotalInUse, TotalSize, Tagged, Align, Tag, Pointer, Unalign, Minors;
      pages, i, k := 0, 0, 0;
      if ptr == 0 { return; }
      var m, min := Find(ptr);
      i, k := m, min;
      var maj := majors[m];
      DroppedOk(majors, m, min);
      DroppedMinors(majors, m, min);
      DroppedNoneEmpty(majors, m, min);
      SizeIsPages(majors, m);
      var size := maj.minors[min].size;
      inuse := inuse - size;
      maj := TakeOut(maj, min);
      if maj.minors == [] {
        if bestBet == maj.addr { bestBet := 0; }
        if bestBet != 0 { DroppedListed(majors, m, min, bestBet); }
        majors := majors[..m] + majors[m + 1..];
        reserved := reserved - maj.size;
        pages := maj.pages;
      } else {
        if bestBet != 0 { DroppedListed(majors, m, min, bestBet); }
        majors := majors[m := maj];
        if bestBet != 0 {
          Rebet(m);
        }
      }
    }

    /** What is allocated and freed again leaves the heap, and its page count, as they were. */
    method AllocAndFree(req: nat, offer: nat) returns (p: nat, grew: bool, pages: nat)
      requires Valid() && Representable(req) && Offered(majors, offer, req + EXTRA)
      modifies this
      ensures Valid() && majors == old(majors) && inuse == old(inuse) && reserved == old(reserved)
      ensures pages == if grew then Pages(req + EXTRA) else 0
    {
      hide MajorsOk, MajorOk, TotalInUse, TotalSize, TagsOk, Align, Tag, Pointer, Unalign, FirstGap, HasRoom, Pages;
      ghost var at, pos, n;
      p, grew, at, pos, n := Alloc(req, offer);
      pages := 0;
      if p != 0 {
        ghost var base := Base(old(majors), grew, offer, req + EXTRA);
        FitsAt(base[at], pos, req + EXTRA + HEADER);
        assert majors[at].minors[pos] == n;
        ghost var was := majors;
        ghost var i, k;
        pages, i, k := Free(p);
        SamePlace(was, at, pos, i, k);
        DropPlaced(base, at, pos, n);
        assert grew ==> base[..at] + base[at + 1..] == old(majors);
      }
    }

    /** A caller writes one byte of what it was given. */
    method Store(ptr: nat, off: nat, v: nat)
      requires Valid() && exists n :: n in Minors(majors) && Pointer(n) == ptr && off < n.req
      modifies this`bytes
      ensures Valid() && bytes == old(bytes)[ptr + off := v]
    {
      hide MajorsOk, MajorOk, TotalInUse, TotalSize, TagsOk, Align, Tag, Pointer, Minors, Listed;
      ghost var n :| n in Minors(majors) && Pointer(n) == ptr && off < n.req;
      TagsSurvive(majors, bytes, bytes[ptr + off := v], n);
      bytes := bytes[ptr + off := v];
    }

    /** `liballoc_memcpy`: words of four bytes, then the rest one by one. */
    method CopyBytes(dst: nat, src: nat, count: nat, ghost n: Minor)
      requires Valid() && n in Minors(majors) && Pointer(n) == dst && count <= n.req
      requires src + count <= dst || dst + count <= src
      modifies this`bytes
      ensures Valid() && SameBeyond(old(bytes), bytes, n) && Copied(old(bytes), bytes, dst, src, count)
      ensures forall j: nat | j < count :: At(bytes, dst, j) == At(old(bytes), src, j)
    {
      hide MajorsOk, MajorOk, TotalInUse, TotalSize, TagsOk, Align, Tag, Pointer, Minors, Listed, NoneEmpty, Byte, Copied;
      CopyNone(bytes, dst, src);
      var done := 0;
      while count - done >= 4
        modifies this`bytes
        invariant done <= count && Copied(old(bytes), bytes, dst, src, done)
      {
        var w0, w1 := Byte(bytes, src + done), Byte(bytes, src + done + 1);
        var w2, w3 := Byte(bytes, src + done + 2), Byte(bytes, src + done + 3);
        SourceKept(old(bytes), bytes, dst, src, done, count);
        CopyStep(old(bytes), bytes, dst, src, done, w0);
        bytes := bytes[dst + done := w0];
        CopyStep(old(bytes), bytes, dst, src, done + 1, w1);
        bytes := bytes[dst + done + 1 := w1];
        CopyStep(old(bytes), bytes, dst, src, done + 2, w2);
        bytes := bytes[dst + done + 2 := w2];
        CopyStep(old(bytes), bytes, dst, src, done + 3, w3);
        bytes := bytes[dst + done + 3 := w3];
        done := done + 4;
      }
      while done < count
        modifies this`bytes
        invariant done <= count && Copied(old(bytes), bytes, dst, src, done)
      {
        SourceKept(old(bytes), bytes, dst, src, done, count);
        CopyStep(old(bytes), bytes, dst, src, done, Byte(bytes, src + done));
        bytes := bytes[dst + done := Byte(bytes, src + done)];
        done := done + 1;
      }
      CopyDone(old(bytes), bytes, dst, src, count, n);
      TagsSurvive(majors, old(bytes), bytes, n);
    }

    /** The in-place half of `k_obj_realloc`: only the noted request changes. */
    method Shrink(i: nat, k: nat, req: nat)
      requires Valid() && i < |majors| && k < |majors[i].minors| && req <= majors[i].minors[k].req
      modifies this`majors
      ensures Valid() && majors == Resize(old(majors), i, k, req)
      ensures var n := old(majors)[i].minors[k]; Minors(majors) == old(Minors(majors)) - {n} + {n.(req := req)}
    {
      hide MajorsOk, MajorOk, TotalInUse, TotalSize, Align, Tag, Pointer, Minors;
      ResizedOk(majors, i, k, req);
      ResizedMinors(majors, i, k, req);
      ghost var n := majors[i].minors[k];
      HasMinor(majors, i, k);
      var m := majors[i];
      ResizedTags(majors, bytes, n, req);
      if bestBet != 0 { ResizedListed(majors, i, k, req, bestBet); }
      majors := majors[i := m.(minors := m.minors[k := m.minors[k].(req := req)])];
    }

    /** The moving half of `k_obj_realloc`: a new block, a copy of what was asked for before, and the old block
        is freed. */
    method MoveBlock(ptr: nat, realSize: nat, req: nat, offer: nat, ghost was: Minor) returns (r: nat, ghost now: Minor)
      requires Valid() && ptr != 0 && was in Minors(majors) && Pointer(was) == ptr && realSize == was.req < req
      requires Representable(req) && Offered(majors, offer, req + EXTRA)
      modifies this
      ensures Valid()
      ensures r == 0 ==> majors == old(majors) && bytes == old(bytes) && bestBet == GivenUp(old(majors), old(bestBet), req)
      ensures r == 0 <==> offer == 0 && NoRoom(old(majors), 0, |old(majors)|, req + EXTRA + HEADER)
      ensures r != 0 ==> Pointer(now) == r && now.req == req && MinorOk(now) && now !in old(Minors(majors))
      ensures r != 0 ==> Minors(majors) == old(Minors(majors)) - {was} + {now}
      ensures r != 0 ==> forall j: nat | j < was.req :: At(bytes, r, j) == At(old(bytes), ptr, j)
      ensures r != 0 ==> forall x | x in old(Minors(majors)) && x != was :: SamePayload(old(bytes), bytes, x)
      ensures r != 0 ==> Reallocates(old(majors), old(bestBet), old(bytes), majors, bestBet, bytes, ptr, req, offer, r)
    {
      hide MajorsOk, MajorOk, TotalInUse, TotalSize, TagsOk, Align, Tag, Pointer, Minors, Offered, Representable,
        NoRoom, FirstGap, HasRoom, Listed, Dropped, Placed, InPayload, Byte, Copied, Fits, Allocates, FreesAt, MovesBy, Reallocates;
      ghost var at, pos, i, k;
      var grew, pages;
      r, grew, at, pos, now := Alloc(req, offer);
      if r == 0 { return; }
      NewFrame(majors, old(bytes), bytes, now);
      ServedMeans(old(majors), grew, offer, req, at, pos);
      AllocatesSo(old(majors), old(bestBet), old(bytes), majors, bestBet, bytes, req, offer, r, grew, at, pos, now);
      ghost var mid := bytes;
      PayloadAt(old(bytes), mid, was);
      BlocksApart(majors, was, now);
      CopyBytes(r, ptr, realSize, now);
      CopyFrame(majors, mid, bytes, now);
      assert Live(ptr);
      ghost var full, fullBet := majors, bestBet;
      pages, i, k := Free(ptr);
      SamePointer(full, was, full[i].minors[k]);
      FreesSo(full, fullBet, majors, bestBet, ptr, i, k);
      MovesSo(old(majors), old(bestBet), old(bytes), majors, bestBet, bytes, ptr, req, offer, r, full, fullBet, mid, i, k);
    }

    /** `k_obj_realloc`: free for size 0, allocate for a null pointer, otherwise stay in place or
        move and keep every byte that was asked for before. */
    method Realloc(ptr: nat, req: nat, offer: nat) returns (r: nat, ghost was: Minor, ghost now: Minor)
      requires Valid() && (ptr == 0 || Live(ptr)) && Representable(req) && Offered(majors, offer, req + EXTRA)
      modifies this
      ensures Valid()
      ensures ptr != 0 ==> was in old(Minors(majors)) && Pointer(was) == ptr
      ensures req == 0 ==> r == 0 && bytes == old(bytes)
      ensures req == 0 ==> Minors(majors) == old(Minors(majors)) - if ptr != 0 then {was} else {}
      ensures req > 0 && r != 0 ==> Pointer(now) == r && now.req == req && MinorOk(now)
      ensures req > 0 && r != 0 ==> Minors(majors) == old(Minors(majors)) - (if ptr != 0 then {was} else {}) + {now}
      ensures req > 0 && r != 0 && ptr != 0 ==>
                forall j: nat | j < was.req && j < req :: At(bytes, r, j) == At(old(bytes), ptr, j)
      ensures req > 0 && r != 0 ==>
                forall x | x in old(Minors(majors)) && (ptr != 0 ==> x != was) :: SamePayload(old(bytes), bytes, x)
      ensures req > 0 && r == 0 ==> majors == old(majors) && bytes == old(bytes)
      ensures req > 0 ==> (r == 0 <==> && offer == 0 && NoRoom(old(majors), 0, |old(majors)|, req + EXTRA + HEADER)
                                       && (ptr == 0 || was.req < req))
      ensures req > 0 && r != 0 ==> now !in old(Minors(majors)) - if ptr != 0 then {was} else {}
      ensures req > 0 && ptr != 0 && was.req >= req ==> r == ptr && now == was.(req := req) && bytes == old(bytes)
      ensures req == 0 || r != 0 ==> Reallocates(old(majors), old(bestBet), old(bytes), majors, bestBet, bytes, ptr, req, offer, r)
      ensures req > 0 && r == 0 ==> bestBet == GivenUp(old(majors), old(bestBet), req)
    {
      hide MajorsOk, MajorOk, TotalInUse, TotalSize, TagsOk, Align, Tag, Pointer, Minors, Offered, Representable,
        NoRoom, FirstGap, HasRoom, Listed, Dropped, Placed, InPayload, Byte, Copied, Fits, Allocates, FreesAt, ShrinksAt, MovesBy, Resize;
      r, was, now := 0, NewMinor(0, 0), NewMinor(0, 0);
      ghost var at, pos, i, k;
      var grew, pages;
      if req == 0 {
        pages, i, k := Free(ptr);
        if ptr != 0 {
          was := old(majors)[i].minors[k];
          FreesSo(old(majors), old(bestBet), majors, bestBet, ptr, i, k);
        }
        assert Frees(old(majors), old(bestBet), majors, bestBet, ptr);
        return;
      }
      if ptr == 0 {
        r, grew, at, pos, now := Alloc(req, offer);
        if r != 0 {
          NewFrame(majors, old(bytes), bytes, now);
          ServedMeans(old(majors), grew, offer, req, at, pos);
          AllocatesSo(old(majors), old(bestBet), old(bytes), majors, bestBet, bytes, req, offer, r, grew, at, pos, now);
        }
        return;
      }
      var mi, mk := Find(ptr);
      was := majors[mi].minors[mk];
      var realSize := majors[mi].minors[mk].req;
      if realSize >= req {
        MinorIsOk(majors, was);
        Shrink(mi, mk, req);
        PointerIgnoresRequest(was, req);
        now := was.(req := req);
        OnlyItself(old(majors), was, now);
        ShrinksSo(old(majors), bestBet, bytes, majors, ptr, req, offer, mi, mk);
        return ptr, was, now;
      }
      r, now := MoveBlock(ptr, realSize, req, offer, was);
    }
  }
}
