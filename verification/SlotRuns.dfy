/** Whole runs of the slot heap (src/pageobj_heap.c): as long as the page allocator answers, it never runs
    out, because a block that is nearly used up has a new one put in front of it. */
module SlotRuns {
  import opened SlotHeap

  /** The first block may still be extended, and has slots left. */
  ghost predicate Ready(h: seq<Block>, least: nat) {
    |h| > 0 && !h[0].extended && h[0].max - h[0].top >= least
  }

  /** The slots that the stack of a new block leaves. */
  function Usable(bsize: nat): int
    requires 0 < bsize <= NEW_BLOCK
  {
    var max := (NEW_BLOCK - bsize) / bsize;
    max - SlotRes(max, bsize)
  }

  /** A new block has a slot to give exactly if three of them fit into 4 MiB: one is taken by the header
      and one by the stack. */
  lemma UsableIff(bsize: nat)
    requires HEADER <= bsize <= NEW_BLOCK
    ensures Usable(bsize) >= 1 <==> 3 * bsize <= NEW_BLOCK
    ensures Usable(bsize) >= 0
  {
    var s := NEW_BLOCK - bsize;
    var max := s / bsize;
    ResBounds(max, bsize);
    WholeSlots(s, bsize);
    assert s < (max + 1) * bsize by { NextSlot(s, bsize); }
    FewRes(max, bsize);
    if max >= 2 {
      Scale(2, max, bsize);
    } else {
      Scale(max + 1, 2, bsize);
    }
  }

  lemma NextSlot(s: nat, bsize: nat)
    requires bsize > 0
    ensures s < (s / bsize + 1) * bsize
  {
    var q, r := s / bsize, s % bsize;
    assert s == q * bsize + r;
    assert (q + 1) * bsize == q * bsize + bsize;
  }

  /** The stack takes a quarter of the slots at most, rounded up. */
  lemma FewRes(max: nat, bsize: nat)
    requires bsize >= HEADER
    ensures max >= 2 ==> SlotRes(max, bsize) < max
    ensures max == 1 ==> SlotRes(max, bsize) == 1
    ensures max == 0 ==> SlotRes(max, bsize) == 0
  {
    var s := max * 8;
    var q := s / bsize;
    WholeSlots(s, bsize);
    if q >= 1 { Scale(32, bsize, q); assert q * 32 == 32 * q && q * bsize == bsize * q; }
  }

  lemma ServedPlace(h: seq<Block>, h': seq<Block>, bsize: nat, region: nat, i: nat, ptr: nat, b: Block)
    requires Served(h, h', bsize, region, i, ptr) && b in h'
    ensures (b.addr == region && b.size == NEW_BLOCK) || exists c :: c in h && c.addr == b.addr && c.size == b.size
  {
    hide SlotRes, Filled;
    var k :| 0 <= k < |h'| && h'[k] == b;
    if |h'| == |h| {
      assert h[k].addr == b.addr && h[k].size == b.size && h[k] in h;
    } else if k > 0 {
      assert h'[k] == h'[1..][k - 1];
      assert h[k - 1].addr == b.addr && h[k - 1].size == b.size && h[k - 1] in h;
    }
  }

  /** A heap whose first block is ready stays ready when a slot is taken: up to three slots, whatever a
      new block has to give. */
  lemma ServedReady(h: seq<Block>, h': seq<Block>, bsize: nat, region: nat, i: nat, ptr: nat, least: nat)
    requires Ready(h, least) && 1 <= least <= 3 && HEADER <= bsize <= NEW_BLOCK && Usable(bsize) >= least
    requires FirstRoom(h, i) && Served(h, h', bsize, region, i, ptr)
    ensures i == 0 && Ready(h', least)
  {
    hide SlotRes, Filled;
  }

  /** And when one is given back. */
  lemma ReturnedReady(h: seq<Block>, h': seq<Block>, bsize: nat, i: nat, ptr: nat, least: nat)
    requires Ready(h, least) && Returned(h, h', bsize, i, ptr)
    ensures Ready(h', least)
  {
  }

  lemma ReadyHasRoom(h: seq<Block>, least: nat)
    requires Ready(h, least) && least > 0
    ensures exists b :: b in h && b.top != b.max
  {
    assert h[0] in h;
  }

  /* ---------------- where a new block has nothing to give ---------------- */

  function FreeSlots(h: seq<Block>): int {
    if h == [] then 0 else h[0].max - h[0].top + FreeSlots(h[1..])
  }

  lemma {:induction false} FreeSlotsAt(h: seq<Block>, i: nat, b: Block)
    requires i < |h|
    ensures FreeSlots(h[i := b]) == FreeSlots(h) - (h[i].max - h[i].top) + (b.max - b.top)
    decreases |h|
  {
    if i > 0 {
      assert h[i := b][1..] == h[1..][i - 1 := b];
      FreeSlotsAt(h[1..], i - 1, b);
    } else {
      assert h[0 := b][1..] == h[1..];
    }
  }

  lemma ServedLess(h: seq<Block>, h': seq<Block>, bsize: nat, region: nat, i: nat, ptr: nat)
    requires HEADER <= bsize <= NEW_BLOCK && Served(h, h', bsize, region, i, ptr)
    ensures FreeSlots(h') == FreeSlots(h) - 1 + if h[i].max - h[i].top - 1 < 3 && !h[i].extended then Usable(bsize) else 0
  {
    hide SlotRes, Filled;
    var low := h[i].max - h[i].top - 1 < 3 && !h[i].extended;
    FreeSlotsAt(h, i, h[i].(top := h[i].top + 1, extended := h[i].extended || low));
    assert low ==> h'[0].max - h'[0].top == Usable(bsize);
  }

  ghost predicate ServedNext(h: seq<Block>, h': seq<Block>, bsize: nat) {
    exists region, i, ptr :: Served(h, h', bsize, region, i, ptr)
  }

  /** If three slots do not fit into 4 MiB, a heap gives out no more than the slots it has. */
  lemma {:induction false} RunsOut(hs: seq<seq<Block>>, bsize: nat)
    requires HEADER <= bsize <= NEW_BLOCK < 3 * bsize && |hs| > 0
    requires forall k {:trigger hs[k]} | 0 <= k < |hs| - 1 :: ServedNext(hs[k], hs[k + 1], bsize)
    ensures FreeSlots(hs[|hs| - 1]) == FreeSlots(hs[0]) - (|hs| - 1)
    decreases |hs|
  {
    var n := |hs|;
    if n > 1 {
      var front := hs[..n - 1];
      forall k | 0 <= k < |front| - 1 ensures ServedNext(front[k], front[k + 1], bsize) { assert hs[k] == front[k] && hs[k + 1] == front[k + 1]; }
      RunsOut(front, bsize);
      assert ServedNext(hs[n - 2], hs[n - 1], bsize);
      var region, i, ptr :| Served(hs[n - 2], hs[n - 1], bsize, region, i, ptr);
      UsableIff(bsize);
      ServedLess(hs[n - 2], hs[n - 1], bsize, region, i, ptr);
    }
  }

  /* ---------------- runs ---------------- */

  /** Requests of a program that keeps its pointers in numbered slots. */
  datatype Request = Take(k: nat, size: nat) | GiveBack(k: nat)

  /** Which slots hold a pointer: one that holds none can take one, and the other way round. */
  function Step(t: seq<bool>, r: Request): (t': seq<bool>)
    ensures |t'| == |t|
  {
    if r.k >= |t| then t else t[r.k := r.Take?]
  }

  function Replay(t: seq<bool>, rs: seq<Request>): (t': seq<bool>)
    ensures |t'| == |t|
  {
    if rs == [] then t else Step(Replay(t, rs[..|rs| - 1]), rs[|rs| - 1])
  }

  /** Regions that no block has and that do not overlap. */
  ghost predicate Fresh(h: seq<Block>, regions: seq<nat>, n: nat) {
    && n <= |regions|
    && (forall j | n <= j < |regions| :: regions[j] > 0 && forall b | b in h :: regions[j] + NEW_BLOCK <= b.addr || b.addr + b.size <= regions[j])
    && forall i, j | 0 <= i < j < |regions| :: regions[i] + NEW_BLOCK <= regions[j] || regions[j] + NEW_BLOCK <= regions[i]
  }

  lemma FreshAfterTake(h: seq<Block>, h': seq<Block>, regions: seq<nat>, n: nat, bsize: nat, i: nat, ptr: nat)
    requires Fresh(h, regions, n) && n < |regions| && Served(h, h', bsize, regions[n], i, ptr)
    ensures Fresh(h', regions, n + 1)
  {
    hide Served;
    forall j, b | n + 1 <= j < |regions| && b in h' ensures regions[j] + NEW_BLOCK <= b.addr || b.addr + b.size <= regions[j] {
      ServedPlace(h, h', bsize, regions[n], i, ptr, b);
    }
  }

  lemma FreshAfterReturn(h: seq<Block>, h': seq<Block>, regions: seq<nat>, n: nat, bsize: nat, i: nat, ptr: nat)
    requires Fresh(h, regions, n) && n < |regions| && Returned(h, h', bsize, i, ptr)
    ensures Fresh(h', regions, n + 1)
  {
    forall j, b | n + 1 <= j < |regions| && b in h' ensures regions[j] + NEW_BLOCK <= b.addr || b.addr + b.size <= regions[j] {
      var k :| 0 <= k < |h'| && h'[k] == b;
      assert h[k].addr == b.addr && h[k].size == b.size && h[k] in h;
    }
  }

  /** The pointers of the slots are what is live beside what was. */
  ghost predicate Holds(live0: set<nat>, live: set<nat>, ptrs: seq<nat>, t: seq<bool>) {
    && |ptrs| == |t| && (forall k | 0 <= k < |t| :: ptrs[k] != 0 <==> t[k])
    && (forall j, k | 0 <= j < k < |ptrs| && ptrs[j] != 0 :: ptrs[j] != ptrs[k])
    && (forall k | 0 <= k < |ptrs| && ptrs[k] != 0 :: ptrs[k] !in live0)
    && forall p :: p in live <==> p in live0 || (p != 0 && p in ptrs)
  }

  lemma HoldsOneMore(live0: set<nat>, live: set<nat>, ptrs: seq<nat>, t: seq<bool>, k: nat, p: nat)
    requires Holds(live0, live, ptrs, t) && k < |t| && !t[k] && p !in live && p != 0
    ensures Holds(live0, live + {p}, ptrs[k := p], t[k := true])
  {
    var ptrs' := ptrs[k := p];
    forall q ensures q in live + {p} <==> q in live0 || (q != 0 && q in ptrs') {
      if q != 0 && q in ptrs { var j :| 0 <= j < |ptrs| && ptrs[j] == q; assert ptrs'[j] == q; }
      if q in ptrs' { var j :| 0 <= j < |ptrs'| && ptrs'[j] == q; assert j == k || ptrs[j] == q; }
      assert ptrs'[k] == p;
    }
    forall j | 0 <= j < |ptrs| && j != k && ptrs[j] != 0 ensures ptrs[j] != p { assert ptrs[j] in ptrs; }
  }

  lemma HoldsOneLess(live0: set<nat>, live: set<nat>, ptrs: seq<nat>, t: seq<bool>, k: nat)
    requires Holds(live0, live, ptrs, t) && k < |t| && t[k]
    ensures ptrs[k] in live && Holds(live0, live - {ptrs[k]}, ptrs[k := 0], t[k := false])
  {
    var p, ptrs' := ptrs[k], ptrs[k := 0];
    assert p in ptrs;
    forall q ensures q in live - {p} <==> q in live0 || (q != 0 && q in ptrs') {
      if q != 0 && q in ptrs && q != p { var j :| 0 <= j < |ptrs| && ptrs[j] == q; assert ptrs'[j] == q; }
      if q != 0 && q in ptrs' { var j :| 0 <= j < |ptrs'| && ptrs'[j] == q; assert j != k && ptrs[j] == q; }
    }
  }

  lemma NothingHeld(live: set<nat>, ptrs: seq<nat>, t: seq<bool>)
    requires |ptrs| == |t| && forall k | 0 <= k < |t| :: ptrs[k] == 0 && !t[k]
    ensures Holds(live, live, ptrs, t)
  {
  }

  lemma ReplayNext(t: seq<bool>, rs: seq<Request>, n: nat)
    requires n < |rs|
    ensures Replay(t, rs[..n + 1]) == Step(Replay(t, rs[..n]), rs[n])
  {
    assert rs[..n + 1][..n] == rs[..n];
  }

  function NoneHeld(slots: nat): (t: seq<bool>)
    ensures |t| == slots && forall k | 0 <= k < slots :: !t[k]
  {
    seq(slots, _ => false)
  }

  lemma ReplayNone(t: seq<bool>, rs: seq<Request>)
    ensures Replay(t, rs[..0]) == t
  {
  }

  lemma FreshSkip(h: seq<Block>, regions: seq<nat>, n: nat)
    requires Fresh(h, regions, n) && n < |regions|
    ensures Fresh(h, regions, n + 1)
  {
  }

  lemma FreshIsUnused(h: SlotHeap, regions: seq<nat>, n: nat)
    requires Fresh(h.blocks, regions, n) && n < |regions|
    ensures h.Unused(regions[n], NEW_BLOCK)
  {
  }

  lemma PointerPositive(h: seq<Block>, h': seq<Block>, bsize: nat, region: nat, i: nat, ptr: nat)
    requires Served(h, h', bsize, region, i, ptr) && bsize > 0
    ensures ptr > 0
  {
  }

  /** One request.  A slot that already holds a pointer takes none, and an empty one gives none back. */
  method OneRequest(h: SlotHeap, ptrs: array<nat>, t: seq<bool>, r: Request, ghost regions: seq<nat>, n: nat, region: nat, ghost live0: set<nat>)
    requires h.Valid() && Ready(h.blocks, 1) && 3 * h.bsize <= NEW_BLOCK && n < |regions| && regions[n] == region && Fresh(h.blocks, regions, n)
    requires (r.Take? ==> r.size <= h.bsize) && ptrs.Length == |t| && Holds(live0, h.Live(), ptrs[..], t)
    modifies h, ptrs
    ensures h.Valid() && Ready(h.blocks, 1) && Fresh(h.blocks, regions, n + 1)
    ensures Holds(live0, h.Live(), ptrs[..], Step(t, r))
  {
    hide SlotHeap.Live, Served, Returned, Fresh, Ready, InMeta, FirstRoom, HeapOk, Holds;
    ghost var was, blocks0 := ptrs[..], h.blocks;
    UsableIff(h.bsize);
    if r.k >= |t| || t[r.k] == r.Take? {
      FreshSkip(h.blocks, regions, n);
      assert Step(t, r) == t;
      return;
    }
    match r {
      case Take(k, size) =>
        FreshIsUnused(h, regions, n);
        ReadyHasRoom(h.blocks, 1);
        var ptr;
        ghost var i;
        ptr, i := h.Alloc(size, region);
        ServedReady(blocks0, h.blocks, h.bsize, region, i, ptr, 1);
        FreshAfterTake(blocks0, h.blocks, regions, n, h.bsize, i, ptr);
        PointerPositive(blocks0, h.blocks, h.bsize, region, i, ptr);
        HoldsOneMore(live0, old(h.Live()), was, t, k, ptr);
        ptrs[k] := ptr;
        assert ptrs[..] == was[k := ptr];
      case GiveBack(k) =>
        HoldsOneLess(live0, h.Live(), was, t, k);
        ghost var i := h.Free(ptrs[k]);
        ReturnedReady(blocks0, h.blocks, h.bsize, i, ptrs[k], 1);
        FreshAfterReturn(blocks0, h.blocks, regions, n, h.bsize, i, ptrs[k]);
        ptrs[k] := 0;
        assert ptrs[..] == was[k := 0];
    }
  }

  /** Any sequence of requests on a heap that is ready, each with a region that the page allocator would
      give: every slot asked for is handed out, and the heap stays ready. */
  method ServeAll(h: SlotHeap, slots: nat, rs: seq<Request>, regions: seq<nat>) returns (ptrs: array<nat>)
    requires h.Valid() && Ready(h.blocks, 1) && 3 * h.bsize <= NEW_BLOCK && |regions| == |rs| && Fresh(h.blocks, regions, 0)
    requires forall r | r in rs :: r.Take? ==> r.size <= h.bsize
    modifies h
    ensures h.Valid() && Ready(h.blocks, 1)
    ensures Holds(old(h.Live()), h.Live(), ptrs[..], Replay(NoneHeld(slots), rs))
  {
    hide SlotHeap.Live, Served, Returned, Fresh, Holds, Ready, InMeta, Replay;
    ptrs := new nat[slots](_ => 0);
    var t := NoneHeld(slots);
    ghost var live0 := h.Live();
    NothingHeld(live0, ptrs[..], t);
    UsableIff(h.bsize);
    var n := 0;
    ReplayNone(t, rs);
    while n < |rs|
      invariant n <= |rs| && h.Valid() && Ready(h.blocks, 1) && Fresh(h.blocks, regions, n) && fresh(ptrs) && ptrs.Length == slots
      invariant |t| == slots && t == Replay(NoneHeld(slots), rs[..n]) && Holds(live0, h.Live(), ptrs[..], t)
      modifies h, ptrs
    {
      ReplayNext(NoneHeld(slots), rs, n);
      OneRequest(h, ptrs, t, rs[n], regions, n, regions[n], live0);
      t := Step(t, rs[n]);
      n := n + 1;
    }
    assert rs[..n] == rs;
  }

  /** `k_pageobj_heap_setup`: pages of 4096 bytes from a block of 8 MiB, which is ready. */
  method Setup(addr: nat) returns (h: SlotHeap)
    requires addr > 0
    ensures fresh(h) && h.Valid() && h.bsize == 4096 && h.Live() == {} && Ready(h.blocks, 3) && 3 * h.bsize <= NEW_BLOCK
    ensures h.blocks[0].max - h.blocks[0].top == 2043
  {
    h := new SlotHeap(4096);
    h.AddBlock(addr, 0x80_0000);
  }
}
