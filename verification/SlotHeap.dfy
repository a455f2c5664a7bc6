/** The slot allocator (src/pageobj_heap.c): blocks of equal slots, each with a stack of the
    offsets of its free slots kept behind its header. */
module SlotHeap {
  import opened Lists

  const HEADER: nat := 32         // sizeof(KHEAPBLOCKSS)
  const NEW_BLOCK: nat := 0x40_0000

  datatype Block = Block(addr: nat, size: nat, top: nat, max: nat, extended: bool, stack: seq<nat>)

  /** Slots given to the stack itself: the number of bytes it takes, in slots, rounded up. */
  function SlotRes(max: nat, bsize: nat): nat
    requires bsize > 0
  {
    var stacksz := max * 8;
    if stacksz / bsize * bsize < stacksz then stacksz / bsize + 1 else stacksz / bsize
  }

  /** The address of slot x. */
  function SlotAt(b: Block, bsize: nat, x: nat): nat { b.addr + bsize + x * bsize }

  ghost predicate ShapeOk(b: Block, bsize: nat) {
    && bsize >= HEADER && b.addr > 0 && b.size >= bsize && b.max == (b.size - bsize) / bsize
    && |b.stack| == b.max && SlotRes(b.max, bsize) <= b.top <= b.max
  }

  /** The free slots, by number, in the order in which they will be handed out. */
  ghost predicate StackOk(b: Block, bsize: nat, free: seq<nat>)
    requires ShapeOk(b, bsize)
  {
    && |free| == b.max - b.top && NoDup(free)
    && forall k | 0 <= k < |free| :: SlotRes(b.max, bsize) <= free[k] < b.max && b.stack[b.top + k] == free[k] * bsize
  }

  /** `live` holds the numbers of the slots handed out: with the free ones they make up all. */
  ghost predicate BlockOk(b: Block, bsize: nat, free: seq<nat>, live: set<nat>) {
    && ShapeOk(b, bsize) && StackOk(b, bsize, free)
    && Elems(free) !! live && |live| == b.top - SlotRes(b.max, bsize)
    && forall x: nat :: x in live || x in free <==> SlotRes(b.max, bsize) <= x < b.max
  }

  /* ---------------- the layout of a block ---------------- */

  lemma ResBounds(max: nat, bsize: nat)
    requires bsize >= HEADER
    ensures max * 8 <= SlotRes(max, bsize) * bsize && SlotRes(max, bsize) <= max
  {
    var s := max * 8;
    var q, r := s / bsize, s % bsize;
    assert s == q * bsize + r;
    assert (q + 1) * bsize == q * bsize + bsize;
    Smaller(q, max, bsize, s);
  }

  lemma Smaller(q: nat, max: nat, bsize: nat, s: nat)
    requires bsize >= 32 && s == max * 8 && q * bsize <= s
    ensures q <= max && (q * bsize < s ==> q + 1 <= max)
  {
    assert q * bsize >= q * 32;
  }

  /** Header and stack lie before the first slot, and no slot passes the block's end. */
  lemma SlotsClear(b: Block, bsize: nat, x: nat)
    requires ShapeOk(b, bsize) && SlotRes(b.max, bsize) <= x < b.max
    ensures b.addr + HEADER + 8 * b.max <= SlotAt(b, bsize, x)
    ensures SlotAt(b, bsize, x) + bsize <= b.addr + b.size
  {
    hide SlotRes;
    ResBounds(b.max, bsize);
    var res := SlotRes(b.max, bsize);
    WholeSlots(b.size - bsize, bsize);
    assert res * bsize <= x * bsize by { Scale(res, x, bsize); }
    assert (x + 1) * bsize <= b.max * bsize by { Scale(x + 1, b.max, bsize); }
    assert (x + 1) * bsize == x * bsize + bsize;
    assert b.max * bsize <= b.size - bsize;
  }

  lemma WholeSlots(s: nat, bsize: nat)
    requires bsize > 0
    ensures s / bsize * bsize <= s
  {
  }

  lemma Scale(a: nat, b: nat, c: nat)
    requires a <= b
    ensures a * c <= b * c
  {
  }

  /** Different slots do not overlap. */
  lemma SlotsApart(b: Block, bsize: nat, x: nat, y: nat)
    requires x < y
    ensures SlotAt(b, bsize, x) + bsize <= SlotAt(b, bsize, y)
  {
    Scale(x + 1, y, bsize);
    assert (x + 1) * bsize == x * bsize + bsize;
  }

  /* ---------------- one block ---------------- */

  function Numbers(lo: nat, n: nat): (s: seq<nat>)
    ensures |s| == n && forall k | 0 <= k < n :: s[k] == lo + k
  {
    seq(n, k requires 0 <= k < n => lo + k)
  }

  /** The offsets of a new block: slot x at x * bsize, from the first one not taken by the stack. */
  ghost predicate Filled(stack: seq<nat>, bsize: nat, lo: nat, hi: nat) {
    hi <= |stack| && forall k {:trigger stack[k]} | lo <= k < hi :: stack[k] == k * bsize
  }

  /** A block as `k_pageobj_add_heapblk` leaves it: every slot but those of the stack is free, in order. */
  ghost predicate NewBlock(b: Block, addr: nat, size: nat, bsize: nat) {
    b.addr == addr && b.size == size && ShapeOk(b, bsize) && b.top == SlotRes(b.max, bsize) && !b.extended && Filled(b.stack, bsize, b.top, b.max)
  }

  /** `k_pageobj_add_heapblk`: the new block's header and stack. */
  method MakeBlock(addr: nat, size: nat, bsize: nat) returns (b: Block)
    requires addr > 0 && bsize >= HEADER && size >= bsize && size / bsize < 0x2000_0000
    ensures NewBlock(b, addr, size, bsize)
    ensures BlockOk(b, bsize, Numbers(b.top, b.max - b.top), {})
  {
    hide SlotRes, Filled;
    var max := (size - bsize) / bsize;
    var slotres := SlotRes(max, bsize);
    ResBounds(max, bsize);
    var stack: seq<nat> := seq(max, _ => 0);
    FilledNone(stack, bsize, slotres);
    var x := slotres;
    while x < max
      invariant slotres <= x <= max && |stack| == max && Filled(stack, bsize, slotres, x)
    {
      FilledNext(stack, bsize, slotres, x);
      stack := stack[x := x * bsize];
      x := x + 1;
    }
    b := Block(addr, size, slotres, max, false, stack);
    NewBlockOk(b, bsize);
  }

  lemma FilledNone(stack: seq<nat>, bsize: nat, lo: nat)
    requires lo <= |stack|
    ensures Filled(stack, bsize, lo, lo)
  {
  }

  lemma FilledNext(stack: seq<nat>, bsize: nat, lo: nat, x: nat)
    requires lo <= x < |stack| && Filled(stack, bsize, lo, x)
    ensures Filled(stack[x := x * bsize], bsize, lo, x + 1)
  {
  }

  lemma NewBlockOk(b: Block, bsize: nat)
    requires ShapeOk(b, bsize) && b.top == SlotRes(b.max, bsize) && Filled(b.stack, bsize, b.top, b.max)
    ensures BlockOk(b, bsize, Numbers(b.top, b.max - b.top), {})
  {
    hide SlotRes;
    var free := Numbers(b.top, b.max - b.top);
    forall y: nat ensures y in free <==> b.top <= y < b.max {
      if b.top <= y < b.max { assert free[y - b.top] == y; }
    }
    forall k | 0 <= k < |free| ensures b.stack[b.top + k] == free[k] * bsize { assert free[k] == b.top + k; }
  }

  /** The slot popped is the first of the free ones. */
  lemma Popped(b: Block, bsize: nat, free: seq<nat>, live: set<nat>, e: bool)
    requires BlockOk(b, bsize, free, live) && b.top != b.max
    ensures |free| > 0 && b.stack[b.top] == free[0] * bsize && free[0] !in live
    ensures SlotRes(b.max, bsize) <= free[0] < b.max
    ensures BlockOk(b.(top := b.top + 1, extended := e), bsize, free[1..], live + {free[0]})
  {
    hide SlotRes;
    var b', free' := b.(top := b.top + 1, extended := e), free[1..];
    assert free == [free[0]] + free';
    assert free[0] in free && free[0] in Elems(free);
    forall k | 0 <= k < |free'| ensures b.stack[b'.top + k] == free'[k] * bsize && SlotRes(b.max, bsize) <= free'[k] < b.max {
      assert free'[k] == free[k + 1];
    }
    assert free[0] !in free';
    assert |live + {free[0]}| == |live| + 1;
  }

  /** A live slot pushed back. */
  lemma Pushed(b: Block, bsize: nat, free: seq<nat>, live: set<nat>, x: nat)
    requires BlockOk(b, bsize, free, live) && x in live
    ensures b.top > SlotRes(b.max, bsize)
    ensures BlockOk(b.(top := b.top - 1, stack := b.stack[b.top - 1 := x * bsize]), bsize, [x] + free, live - {x})
  {
    hide SlotRes;
    assert |live - {x}| == |live| - 1;
    var b' := b.(top := b.top - 1, stack := b.stack[b.top - 1 := x * bsize]);
    var free' := [x] + free;
    assert x in live || x in free;
    forall k | 0 <= k < |free'| ensures SlotRes(b.max, bsize) <= free'[k] < b.max && b'.stack[b'.top + k] == free'[k] * bsize {
      if k > 0 { assert free'[k] == free[k - 1]; }
    }
    assert forall y :: y in free ==> y in Elems(free);
    assert x !in free;
  }

  /* ---------------- the heap ---------------- */

  predicate BlocksApart(b: Block, c: Block) { b.addr + b.size <= c.addr || c.addr + c.size <= b.addr }

  /** All blocks intact, and apart. */
  ghost predicate HeapOk(blocks: seq<Block>, bsize: nat, free: seq<seq<nat>>, live: seq<set<nat>>) {
    && |free| == |blocks| == |live|
    && (forall i | 0 <= i < |blocks| :: BlockOk(blocks[i], bsize, free[i], live[i]))
    && forall i, j | 0 <= i < j < |blocks| :: BlocksApart(blocks[i], blocks[j])
  }

  /** The addresses of the slots handed out. */
  ghost function LivePtrs(blocks: seq<Block>, bsize: nat, live: seq<set<nat>>): set<nat>
    requires |live| == |blocks|
  {
    set i, x | 0 <= i < |blocks| && x in live[i] :: SlotAt(blocks[i], bsize, x)
  }

  /** A byte of the header or the stack of a block. */
  predicate InMeta(b: Block, a: int) { b.addr <= a < b.addr + HEADER + 8 * b.max }

  lemma LiveSlot(blocks: seq<Block>, bsize: nat, free: seq<seq<nat>>, live: seq<set<nat>>, i: nat, x: nat)
    requires HeapOk(blocks, bsize, free, live) && i < |blocks| && (x in live[i] || x in free[i])
    ensures SlotRes(blocks[i].max, bsize) <= x < blocks[i].max
    ensures blocks[i].addr + HEADER + 8 * blocks[i].max <= SlotAt(blocks[i], bsize, x)
    ensures SlotAt(blocks[i], bsize, x) + bsize <= blocks[i].addr + blocks[i].size
  {
    assert BlockOk(blocks[i], bsize, free[i], live[i]);
    SlotsClear(blocks[i], bsize, x);
  }

  /** Slots of the heap are the same or do not overlap. */
  lemma SlotsDisjoint(blocks: seq<Block>, bsize: nat, free: seq<seq<nat>>, live: seq<set<nat>>, i: nat, x: nat, j: nat, y: nat)
    requires HeapOk(blocks, bsize, free, live) && i < |blocks| && j < |blocks|
    requires (x in live[i] || x in free[i]) && (y in live[j] || y in free[j])
    ensures var p, q := SlotAt(blocks[i], bsize, x), SlotAt(blocks[j], bsize, y);
            if i == j && x == y then p == q else p + bsize <= q || q + bsize <= p
  {
    LiveSlot(blocks, bsize, free, live, i, x);
    LiveSlot(blocks, bsize, free, live, j, y);
    hide SlotAt, SlotRes, BlockOk;
    if i == j {
      if x < y { SlotsApart(blocks[i], bsize, x, y); }
      if y < x { SlotsApart(blocks[i], bsize, y, x); }
    } else {
      assert i < j ==> BlocksApart(blocks[i], blocks[j]);
      assert j < i ==> BlocksApart(blocks[j], blocks[i]);
    }
  }

  /** No slot overlaps the header or the stack of any block. */
  lemma MetaClear(blocks: seq<Block>, bsize: nat, free: seq<seq<nat>>, live: seq<set<nat>>, i: nat, x: nat, j: nat, a: int)
    requires HeapOk(blocks, bsize, free, live) && i < |blocks| && j < |blocks| && (x in live[i] || x in free[i])
    requires InMeta(blocks[j], a)
    ensures a < SlotAt(blocks[i], bsize, x) || SlotAt(blocks[i], bsize, x) + bsize <= a
  {
    LiveSlot(blocks, bsize, free, live, i, x);
    MetaInside(blocks[j], bsize, free[j], live[j]);
    hide SlotAt, SlotRes, BlockOk;
    assert i < j ==> BlocksApart(blocks[i], blocks[j]);
    assert j < i ==> BlocksApart(blocks[j], blocks[i]);
  }

  lemma MetaInside(b: Block, bsize: nat, free: seq<nat>, live: set<nat>)
    requires BlockOk(b, bsize, free, live)
    ensures b.addr + HEADER + 8 * b.max <= b.addr + b.size || b.max == 0
    ensures b.max == 0 ==> b.addr + HEADER <= b.addr + b.size
  {
    ResBounds(b.max, bsize);
    WholeSlots(b.size - bsize, bsize);
    var res := SlotRes(b.max, bsize);
    hide SlotRes;
    Scale(res, b.max, bsize);
  }

  /* ---------------- what one call does to the list of blocks ---------------- */

  /** The first block with a free slot is block i. */
  ghost predicate FirstRoom(h: seq<Block>, i: nat) {
    i < |h| && h[i].top != h[i].max && forall k | 0 <= k < i :: h[k].top == h[k].max
  }

  /** Block i hands out the slot on top of its stack.  If that leaves it with fewer than three for the
      first time, a new block of 4 MiB joins in front. */
  ghost predicate Served(h: seq<Block>, h': seq<Block>, bsize: nat, region: nat, i: nat, ptr: nat) {
    && i < |h| && h[i].top < |h[i].stack| && ptr == h[i].addr + bsize + h[i].stack[h[i].top]
    && var low := h[i].max - h[i].top - 1 < 3 && !h[i].extended;
       var h1 := h[i := h[i].(top := h[i].top + 1, extended := h[i].extended || low)];
       if low then |h'| > 0 && NewBlock(h'[0], region, NEW_BLOCK, bsize) && h'[1..] == h1 else h' == h1
  }

  /** The slot goes back on the stack of block i, and the first block may be extended again once it has
      three. */
  ghost predicate Returned(h: seq<Block>, h': seq<Block>, bsize: nat, i: nat, ptr: nat) {
    && i < |h| && h[i].addr + bsize <= ptr < h[i].addr + h[i].size && 0 < h[i].top <= |h[i].stack|
    && var h1 := h[i := h[i].(top := h[i].top - 1, stack := h[i].stack[h[i].top - 1 := ptr - h[i].addr - bsize])];
       h' == if h1[0].max - h1[0].top >= 3 then h1[0 := h1[0].(extended := false)] else h1
  }

  class SlotHeap {
    const bsize: nat
    var blocks: seq<Block>           // the list from fblock on
    var bytes: map<nat, nat>         // memory
    ghost var free: seq<seq<nat>>    // of each block
    ghost var live: seq<set<nat>>

    ghost predicate Valid()
      reads this
    {
      bsize >= HEADER && bsize <= NEW_BLOCK && HeapOk(blocks, bsize, free, live)
    }

    ghost function Live(): set<nat>
      requires Valid()
      reads this
    {
      LivePtrs(blocks, bsize, live)
    }

    /** `k_pageobj_init_heap` */
    constructor (bsize_: nat)
      requires HEADER <= bsize_ <= NEW_BLOCK
      ensures Valid() && Live() == {} && bsize == bsize_ && blocks == []
    {
      bsize := bsize_;
      blocks, bytes := [], map[];
      free, live := [], [];
    }

    /** A region that no block has. */
    ghost predicate Unused(addr: nat, size: nat)
      reads this
    {
      addr > 0 && forall b | b in blocks :: addr + size <= b.addr || b.addr + b.size <= addr
    }

    /** `k_pageobj_add_heapblk` */
    method AddBlock(addr: nat, size: nat)
      requires Valid() && Unused(addr, size) && bsize <= size && size / bsize < 0x2000_0000
      modifies this`blocks, this`free, this`live
      ensures Valid() && Live() == old(Live()) && |blocks| > 0 && blocks[1..] == old(blocks)
      ensures live[1..] == old(live) && free[1..] == old(free)
      ensures NewBlock(blocks[0], addr, size, bsize)
    {
      hide BlockOk, SlotAt, SlotRes, NewBlock;
      var b := MakeBlock(addr, size, bsize);
      NewPlace(b, addr, size, bsize);
      ghost var h := blocks;
      blocks := [b] + blocks;
      free := [Numbers(b.top, b.max - b.top)] + free;
      live := [{}] + live;
      InFront(b, h, bsize, old(free), old(live), free[0]);
    }

    /** The next slot of block i, which has room. */
    method TakeSlot(i: nat, region: nat) returns (ptr: nat)
      requires Valid() && i < |blocks| && blocks[i].top != blocks[i].max && Unused(region, NEW_BLOCK)
      modifies this`blocks, this`free, this`live
      ensures Valid() && ptr !in old(Live()) && Live() == old(Live()) + {ptr}
      ensures forall p | p in old(Live()) :: p + bsize <= ptr || ptr + bsize <= p
      ensures forall b, a | b in blocks && InMeta(b, a) :: a < ptr || ptr + bsize <= a
      ensures Served(old(blocks), blocks, bsize, region, i, ptr)
    {
      hide BlockOk, SlotAt, SlotRes, LivePtrs, InMeta, NewBlock;
      var b := blocks[i];
      ghost var h, free0, live0 := blocks, free, live;
      BlockFacts(h, bsize, free0, live0, i);
      ghost var x, at := free0[i][0], i;
      ptr := b.addr + bsize + b.stack[b.top];
      SlotOffset(b, bsize, x);
      b := b.(top := b.top + 1);
      var low := b.max - b.top < 3 && !b.extended;
      if low { b := b.(extended := true); }
      PoppedFrom(h, bsize, free0, live0, i, b.extended);
      blocks := blocks[i := b];
      free, live := free[i := free[i][1..]], live[i := live[i] + {x}];
      if low {
        StillUnused(h, blocks, i, region);
        FewSlots(bsize);
        ghost var h1, live1 := blocks, live;
        AddBlock(region, NEW_BLOCK);
        at := i + 1;
        assert blocks[at] == h1[i] && live[at] == live1[i];
      }
      SameSlot(h[i], blocks[at], bsize, x);
      SlotGiven(blocks, bsize, free, live, at, x, old(Live()));
    }

    /** `k_pageobj_alloc`.  `region` is what the page allocator returns if the block runs low;
        with no room anywhere the code halts. */
    method Alloc(size: nat, region: nat) returns (ptr: nat, ghost i: nat)
      requires Valid() && size <= bsize && Unused(region, NEW_BLOCK) && exists b :: b in blocks && b.top != b.max
      modifies this
      ensures Valid() && ptr !in old(Live()) && Live() == old(Live()) + {ptr}
      ensures forall p | p in old(Live()) :: p + bsize <= ptr || ptr + bsize <= p
      ensures forall b, a | b in blocks && InMeta(b, a) :: a < ptr || ptr + bsize <= a
      ensures forall a | ptr <= a < ptr + size :: a in bytes && bytes[a] == 0
      ensures forall a: nat | !(ptr <= a < ptr + size) :: (a in bytes <==> a in old(bytes)) && (a in bytes ==> bytes[a] == old(bytes[a]))
      ensures FirstRoom(old(blocks), i) && Served(old(blocks), blocks, bsize, region, i, ptr)
    {
      hide BlockOk, SlotAt, SlotRes, LivePtrs, HeapOk, InMeta, Served;
      var b := 0;
      SomeRoom(blocks);
      while blocks[b].top == blocks[b].max
        invariant b < |blocks| && forall k | 0 <= k < b :: blocks[k].top == blocks[k].max
        modifies {}
        decreases |blocks| - b
      {
        b := b + 1;
      }
      i := b;
      ptr := TakeSlot(b, region);
      ghost var was := bytes;
      var j := 0;
      while j < size
        invariant j <= size
        invariant forall a | ptr <= a < ptr + j :: a in bytes && bytes[a] == 0
        invariant forall a: nat | !(ptr <= a < ptr + j) :: (a in bytes <==> a in was) && (a in bytes ==> bytes[a] == was[a])
        modifies this`bytes
      {
        bytes := bytes[ptr + j := 0];
        j := j + 1;
      }
    }

    /** `k_pageobj_free` of a slot handed out before. */
    method Free(ptr: nat) returns (ghost at: nat)
      requires Valid() && ptr in Live()
      modifies this`blocks, this`free, this`live
      ensures Valid() && Live() == old(Live()) - {ptr}
      ensures Returned(old(blocks), blocks, bsize, at, ptr)
    {
      hide BlockOk, SlotAt, SlotRes, LivePtrs;
      ghost var i0, x := WhichSlot(blocks, bsize, free, live, ptr);
      var i := 0;
      while !(ptr > blocks[i].addr && ptr < blocks[i].addr + blocks[i].size)
        invariant i <= i0
        modifies {}
        decreases i0 - i
      {
        i := i + 1;
      }
      OnlyBlock(blocks, bsize, free, live, i0, x, i);
      at := i;
      var b := blocks[i];
      ghost var h := blocks;
      PushedBack(blocks, bsize, free, live, i, x);
      assert ptr - b.addr - bsize == x * bsize by { SlotOffset(b, bsize, x); }
      b := b.(top := b.top - 1, stack := b.stack[b.top - 1 := ptr - b.addr - bsize]);
      blocks := blocks[i := b];
      free, live := free[i := [x] + free[i]], live[i := live[i] - {x}];
      if blocks[0].max - blocks[0].top >= 3 {
        FlagOnly(blocks, bsize, free, live);
        blocks := blocks[0 := blocks[0].(extended := false)];
      }
    }
  }

  lemma NewPlace(b: Block, addr: nat, size: nat, bsize: nat)
    requires NewBlock(b, addr, size, bsize)
    ensures b.addr == addr && b.size == size
  {
  }

  lemma SomeRoom(blocks: seq<Block>)
    requires exists b :: b in blocks && b.top != b.max
    ensures exists k :: 0 <= k < |blocks| && blocks[k].top != blocks[k].max
  {
  }

  lemma FewSlots(bsize: nat)
    requires bsize >= HEADER
    ensures NEW_BLOCK / bsize < 0x2000_0000
  {
    WholeSlots(NEW_BLOCK, bsize);
    if NEW_BLOCK / bsize >= 0x2000_0000 { Scale(0x2000_0000, NEW_BLOCK / bsize, bsize); }
  }

  lemma BlockFacts(blocks: seq<Block>, bsize: nat, free: seq<seq<nat>>, live: seq<set<nat>>, i: nat)
    requires HeapOk(blocks, bsize, free, live) && i < |blocks| && blocks[i].top != blocks[i].max
    ensures |free[i]| > 0 && blocks[i].top < |blocks[i].stack| && blocks[i].top < blocks[i].max
  {
    assert BlockOk(blocks[i], bsize, free[i], live[i]);
  }

  lemma InFront(b: Block, h: seq<Block>, bsize: nat, free: seq<seq<nat>>, live: seq<set<nat>>, f: seq<nat>)
    requires HeapOk(h, bsize, free, live) && BlockOk(b, bsize, f, {}) && forall c | c in h :: BlocksApart(b, c)
    ensures HeapOk([b] + h, bsize, [f] + free, [{}] + live)
    ensures LivePtrs([b] + h, bsize, [{}] + live) == LivePtrs(h, bsize, live)
  {
    hide BlockOk, SlotAt;
    var h', live' := [b] + h, [{}] + live;
    forall i, j | 0 <= i < j < |h'| ensures BlocksApart(h'[i], h'[j]) {
      if i == 0 { assert h'[j] in h; } else { assert h'[i] == h[i - 1] && h'[j] == h[j - 1]; }
    }
    forall p ensures p in LivePtrs(h', bsize, live') <==> p in LivePtrs(h, bsize, live) {
      if i, x :| 0 <= i < |h'| && x in live'[i] && p == SlotAt(h'[i], bsize, x) {
        assert h'[i] == h[i - 1] && live'[i] == live[i - 1] && x in live[i - 1];
      }
      if i, x :| 0 <= i < |h| && x in live[i] && p == SlotAt(h[i], bsize, x) {
        assert h'[i + 1] == h[i] && live'[i + 1] == live[i] && x in live'[i + 1];
      }
    }
  }

  ghost function BlockPtrs(b: Block, bsize: nat, l: set<nat>): set<nat> { set x | x in l :: SlotAt(b, bsize, x) }

  ghost function OtherPtrs(h: seq<Block>, bsize: nat, live: seq<set<nat>>, i: nat): set<nat>
    requires |live| == |h|
  {
    set j, x | 0 <= j < |h| && j != i && x in live[j] :: SlotAt(h[j], bsize, x)
  }

  lemma PtrsOfBlocks(h: seq<Block>, bsize: nat, live: seq<set<nat>>, i: nat)
    requires |live| == |h| && i < |h|
    ensures LivePtrs(h, bsize, live) == OtherPtrs(h, bsize, live, i) + BlockPtrs(h[i], bsize, live[i])
  {
    hide SlotAt;
  }

  /** Changing what block i has handed out. */
  lemma OneBlock(h: seq<Block>, bsize: nat, free: seq<seq<nat>>, live: seq<set<nat>>, i: nat, b: Block, f: seq<nat>, l: set<nat>)
    requires HeapOk(h, bsize, free, live) && i < |h| && BlockOk(b, bsize, f, l) && b.addr == h[i].addr && b.size == h[i].size
    ensures HeapOk(h[i := b], bsize, free[i := f], live[i := l])
    ensures LivePtrs(h[i := b], bsize, live[i := l]) == OtherPtrs(h, bsize, live, i) + BlockPtrs(h[i], bsize, l)
  {
    hide BlockOk, SlotAt;
    var h', live' := h[i := b], live[i := l];
    forall j, k | 0 <= j < k < |h'| ensures BlocksApart(h'[j], h'[k]) { assert BlocksApart(h[j], h[k]); }
    PtrsOfBlocks(h', bsize, live', i);
    assert forall j | 0 <= j < |h| && j != i :: h'[j] == h[j] && live'[j] == live[j];
    forall p ensures p in OtherPtrs(h', bsize, live', i) <==> p in OtherPtrs(h, bsize, live, i) {
      if j, x :| 0 <= j < |h| && j != i && x in live[j] && SlotAt(h[j], bsize, x) == p { assert x in live'[j]; }
      if j, x :| 0 <= j < |h| && j != i && x in live'[j] && SlotAt(h'[j], bsize, x) == p { assert x in live[j]; }
    }
    SamePtrs(h[i], b, bsize, l);
  }

  lemma SamePtrs(b: Block, b': Block, bsize: nat, l: set<nat>)
    requires b'.addr == b.addr
    ensures BlockPtrs(b', bsize, l) == BlockPtrs(b, bsize, l)
  {
    assert forall x :: x in l ==> SlotAt(b', bsize, x) == SlotAt(b, bsize, x);
  }

  lemma SameSlot(b: Block, b': Block, bsize: nat, x: nat)
    requires b'.addr == b.addr
    ensures SlotAt(b', bsize, x) == SlotAt(b, bsize, x)
  {
  }

  /** A slot of block i is none of the other blocks'. */
  lemma NotOthers(h: seq<Block>, bsize: nat, free: seq<seq<nat>>, live: seq<set<nat>>, i: nat, x: nat)
    requires HeapOk(h, bsize, free, live) && i < |h| && (x in live[i] || x in free[i])
    ensures SlotAt(h[i], bsize, x) !in OtherPtrs(h, bsize, live, i)
    ensures forall y | y in live[i] && y != x :: SlotAt(h[i], bsize, y) != SlotAt(h[i], bsize, x)
  {
    HeaderPositive(h, bsize, free, live, i);
    hide BlockOk, SlotAt, SlotRes;
    forall j, y | 0 <= j < |h| && y in live[j] && !(j == i && y == x) ensures SlotAt(h[j], bsize, y) != SlotAt(h[i], bsize, x) {
      SlotsDisjoint(h, bsize, free, live, i, x, j, y);
    }
  }

  lemma HeaderPositive(h: seq<Block>, bsize: nat, free: seq<seq<nat>>, live: seq<set<nat>>, i: nat)
    requires HeapOk(h, bsize, free, live) && i < |h|
    ensures bsize > 0 && forall y | y in live[i] :: y !in free[i]
  {
    assert BlockOk(h[i], bsize, free[i], live[i]);
    assert forall y | y in free[i] :: y in Elems(free[i]);
  }

  lemma PoppedFrom(h: seq<Block>, bsize: nat, free: seq<seq<nat>>, live: seq<set<nat>>, i: nat, e: bool)
    requires HeapOk(h, bsize, free, live) && i < |h| && h[i].top != h[i].max && |free[i]| > 0 && h[i].top < |h[i].stack|
    ensures var x := free[i][0];
            var h', free', live' := h[i := h[i].(top := h[i].top + 1, extended := e)], free[i := free[i][1..]], live[i := live[i] + {x}];
            && HeapOk(h', bsize, free', live') && h[i].stack[h[i].top] == x * bsize
            && LivePtrs(h', bsize, live') == LivePtrs(h, bsize, live) + {SlotAt(h[i], bsize, x)}
            && SlotAt(h[i], bsize, x) !in LivePtrs(h, bsize, live)
  {
    var x := free[i][0];
    assert BlockOk(h[i], bsize, free[i], live[i]);
    Popped(h[i], bsize, free[i], live[i], e);
    hide BlockOk, SlotAt, SlotRes;
    OneBlock(h, bsize, free, live, i, h[i].(top := h[i].top + 1, extended := e), free[i][1..], live[i] + {x});
    assert x in free[i];
    NotOthers(h, bsize, free, live, i, x);
    HeaderPositive(h, bsize, free, live, i);
    PtrsOfBlocks(h, bsize, live, i);
    assert BlockPtrs(h[i], bsize, live[i] + {x}) == BlockPtrs(h[i], bsize, live[i]) + {SlotAt(h[i], bsize, x)};
  }

  lemma PushedBack(h: seq<Block>, bsize: nat, free: seq<seq<nat>>, live: seq<set<nat>>, i: nat, x: nat)
    requires HeapOk(h, bsize, free, live) && i < |h| && x in live[i]
    ensures h[i].top > 0 && h[i].top - 1 < |h[i].stack|
    ensures var b := h[i].(top := h[i].top - 1, stack := h[i].stack[h[i].top - 1 := x * bsize]);
            var h', free', live' := h[i := b], free[i := [x] + free[i]], live[i := live[i] - {x}];
            && HeapOk(h', bsize, free', live')
            && LivePtrs(h', bsize, live') == LivePtrs(h, bsize, live) - {SlotAt(h[i], bsize, x)}
  {
    assert BlockOk(h[i], bsize, free[i], live[i]);
    Pushed(h[i], bsize, free[i], live[i], x);
    var b := h[i].(top := h[i].top - 1, stack := h[i].stack[h[i].top - 1 := x * bsize]);
    hide BlockOk, SlotAt, SlotRes;
    OneBlock(h, bsize, free, live, i, b, [x] + free[i], live[i] - {x});
    NotOthers(h, bsize, free, live, i, x);
    PtrsOfBlocks(h, bsize, live, i);
    assert BlockPtrs(h[i], bsize, live[i] - {x}) == BlockPtrs(h[i], bsize, live[i]) - {SlotAt(h[i], bsize, x)};
  }

  lemma StillUnused(h: seq<Block>, h': seq<Block>, i: nat, region: nat)
    requires |h'| == |h| && i < |h| && h'[i].addr == h[i].addr && h'[i].size == h[i].size && forall j | 0 <= j < |h| && j != i :: h'[j] == h[j]
    requires forall b | b in h :: region + NEW_BLOCK <= b.addr || b.addr + b.size <= region
    ensures forall b | b in h' :: region + NEW_BLOCK <= b.addr || b.addr + b.size <= region
  {
    forall j | 0 <= j < |h'| ensures region + NEW_BLOCK <= h'[j].addr || h'[j].addr + h'[j].size <= region {
      assert h[j] in h;
    }
  }

  /** The slot handed out overlaps no other slot in use, and no header or stack. */
  lemma SlotGiven(h: seq<Block>, bsize: nat, free: seq<seq<nat>>, live: seq<set<nat>>, i: nat, x: nat, before: set<nat>)
    requires HeapOk(h, bsize, free, live) && i < |h| && x in live[i] && SlotAt(h[i], bsize, x) !in before
    requires LivePtrs(h, bsize, live) == before + {SlotAt(h[i], bsize, x)}
    ensures var ptr := SlotAt(h[i], bsize, x);
            && (forall p | p in before :: p + bsize <= ptr || ptr + bsize <= p)
            && forall b, a | b in h && InMeta(b, a) :: a < ptr || ptr + bsize <= a
  {
    hide BlockOk, SlotAt, SlotRes, InMeta;
    var ptr := SlotAt(h[i], bsize, x);
    forall p | p in before ensures p + bsize <= ptr || ptr + bsize <= p {
      assert p in LivePtrs(h, bsize, live);
      var j, y :| 0 <= j < |h| && y in live[j] && p == SlotAt(h[j], bsize, y);
      SlotsDisjoint(h, bsize, free, live, i, x, j, y);
    }
    forall b, a: int | b in h && InMeta(b, a) ensures a < ptr || ptr + bsize <= a {
      var j :| 0 <= j < |h| && h[j] == b;
      MetaClear(h, bsize, free, live, i, x, j, a);
    }
  }

  lemma WhichSlot(h: seq<Block>, bsize: nat, free: seq<seq<nat>>, live: seq<set<nat>>, ptr: nat) returns (i: nat, x: nat)
    requires HeapOk(h, bsize, free, live) && ptr in LivePtrs(h, bsize, live)
    ensures i < |h| && x in live[i] && ptr == SlotAt(h[i], bsize, x)
    ensures ptr > h[i].addr && ptr < h[i].addr + h[i].size
  {
    var j, y :| 0 <= j < |h| && y in live[j] && ptr == SlotAt(h[j], bsize, y);
    i, x := j, y;
    LiveSlot(h, bsize, free, live, i, x);
    assert BlockOk(h[i], bsize, free[i], live[i]);
  }

  /** The search finds the block that the slot is in. */
  lemma OnlyBlock(h: seq<Block>, bsize: nat, free: seq<seq<nat>>, live: seq<set<nat>>, i0: nat, x: nat, i: nat)
    requires HeapOk(h, bsize, free, live) && i0 < |h| && i < |h| && x in live[i0]
    requires var ptr := SlotAt(h[i0], bsize, x); ptr > h[i].addr && ptr < h[i].addr + h[i].size
    ensures i == i0
  {
    LiveSlot(h, bsize, free, live, i0, x);
    hide BlockOk, SlotAt, SlotRes;
    assert i < i0 ==> BlocksApart(h[i], h[i0]);
    assert i0 < i ==> BlocksApart(h[i0], h[i]);
  }

  lemma SlotOffset(b: Block, bsize: nat, x: nat)
    ensures SlotAt(b, bsize, x) - b.addr - bsize == x * bsize
  {
  }

  lemma FlagOnly(h: seq<Block>, bsize: nat, free: seq<seq<nat>>, live: seq<set<nat>>)
    requires HeapOk(h, bsize, free, live) && |h| > 0
    ensures var h' := h[0 := h[0].(extended := false)];
            HeapOk(h', bsize, free, live) && LivePtrs(h', bsize, live) == LivePtrs(h, bsize, live)
  {
    var b := h[0].(extended := false);
    assert BlockOk(h[0], bsize, free[0], live[0]);
    assert BlockOk(b, bsize, free[0], live[0]);
    OneBlock(h, bsize, free, live, 0, b, free[0], live[0]);
    assert free[0 := free[0]] == free && live[0 := live[0]] == live;
    PtrsOfBlocks(h, bsize, live, 0);
  }
}
