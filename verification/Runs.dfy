/** Whole runs of the allocator of hagen/src/malloc.c, seen by a program that keeps its blocks
    in numbered slots: whatever it does, every block keeps what was last stored in it. */
module Runs {
  import opened Words
  import opened Lists
  import opened Chunks
  import opened Heap
  import opened HeapOps
  import opened Victim
  import opened ReallocSteps
  import opened BulkSteps
  import opened IallocTotals
  import opened IallocLoop
  import opened Policy
  import opened Alignment
  import opened Malloc
  import opened RunState

  /** `ReleaseAll` is bulk free of the blocks of several slots, `AllocateMany` is `ialloc` into an array
      of the caller's. */
  datatype Command =
    | Allocate(slot: nat, bytes: nat)
    | AllocateAligned(slot: nat, bytes: nat, alignment: nat)
    | Release(slot: nat)
    | Resize(slot: nat, bytes: nat)
    | Write(slot: nat, i: nat, x: nat)
    | ReleaseAll(slots: seq<nat>)
    | AllocateMany(slots: seq<nat>, sizes: seq<nat>)

  predicate Allowed(t: seq<Slot>, c: Command) {
    match c
    case Allocate(k, bytes) => k < |t| && t[k].Empty? && bytes < WORD_LIMIT
    case AllocateAligned(k, bytes, alignment) => k < |t| && t[k].Empty? && bytes < WORD_LIMIT && alignment <= 0x8000_0000_0000_0000
    case Release(k) => k < |t|
    case Resize(k, bytes) => k < |t| && bytes < WORD_LIMIT
    case Write(k, i, _) => k < |t| && t[k].Held? && 8 * i + 8 <= t[k].bytes
    case ReleaseAll(ks) => Places(ks, |t|) && NoDup(ks)
    case AllocateMany(ks, sizes) =>
      && Places(ks, |t|) && NoDup(ks) && (forall j | 0 <= j < |ks| :: t[ks[j]].Empty?)
      && |sizes| == |ks| && Total(|ks|, sizes, false, false) < WORD_LIMIT
  }

  function NoBlocks(slots: nat): (r: seq<Slot>)
    ensures |r| == slots && forall k | 0 <= k < slots :: r[k].Empty?
  {
    seq(slots, _ => Empty)
  }

  function NewBlocks(sizes: seq<nat>): (r: seq<Slot>)
    ensures |r| == |sizes| && forall k | 0 <= k < |sizes| :: r[k] == Held(sizes[k], map[])
  {
    seq(|sizes|, k requires 0 <= k < |sizes| => Held(sizes[k], map[]))
  }

  /** What a command does to the slots, given whether the allocator could serve it. */
  function Step(t: seq<Slot>, c: Command, ok: bool): (t': seq<Slot>)
    ensures |t'| == |t|
  {
    if !ok || !Allowed(t, c) then t else
    match c
    case Allocate(k, bytes) => t[k := Held(bytes, map[])]
    case AllocateAligned(k, bytes, _) => t[k := Held(bytes, map[])]
    case Release(k) => t[k := Empty]
    case Resize(k, bytes) => t[k := Held(bytes, if t[k].Empty? then map[] else Within(t[k].words, bytes))]
    case Write(k, i, x) => t[k := Held(t[k].bytes, t[k].words[i := x])]
    case ReleaseAll(ks) => Spread(t, ks, NoBlocks(|ks|))
    case AllocateMany(ks, sizes) => Spread(t, ks, NewBlocks(sizes))
  }

  function Replay(t: seq<Slot>, cs: seq<Command>, oks: seq<bool>): (t': seq<Slot>)
    requires |cs| == |oks|
    ensures |t'| == |t|
  {
    if cs == [] then t else Step(Replay(t, cs[..|cs| - 1], oks[..|cs| - 1]), cs[|cs| - 1], oks[|cs| - 1])
  }

  /* ---------------- what a command does to the heap ---------------- */

  ghost function TopSize(h: Shape): nat { if h.top <= h.end then h.end - h.top else 0 }

  /** The chunk that `memalign` asks of malloc. */
  function AlignedRequest(bytes: nat, alignment: nat): nat { RequestSize(RequestToSize(bytes) + AlignmentFor(alignment) + MIN_CHUNK - 8) }

  /** The chunk that `ialloc` asks of malloc. */
  function ManyRequest(sizes: seq<nat>): nat { RequestSize(AskedWord(|sizes|, sizes, false, false)) }

  /** The allocator can serve the command. */
  ghost predicate CanServe(h: Shape, ptrs: seq<nat>, t: seq<Slot>, c: Command, adjacent: bool)
    requires |ptrs| == |t|
  {
    Allowed(t, c)
    && match c
       case Allocate(_, bytes) => !Refused(h, TopSize(h), RequestSize(bytes), adjacent)
       case AllocateAligned(_, bytes, alignment) =>
         bytes + AlignmentFor(alignment) < MAX_REQUEST && !Refused(h, TopSize(h), AlignedRequest(bytes, alignment), adjacent)
       case Resize(k, bytes) =>
         || (ptrs[k] == 0 && !Refused(h, TopSize(h), RequestSize(bytes), adjacent))
         || (ptrs[k] >= 16 && bytes < MAX_REQUEST
             && (FitsInPlace(h, ptrs[k] - 16, RequestSize(bytes)) || !Refused(h, TopSize(h), RequestSize(bytes), adjacent)))
       case AllocateMany(ks, sizes) => ks == [] || !Refused(h, TopSize(h), ManyRequest(sizes), adjacent)
       case _ => true
  }

  /** Malloc's part: a tightest fit is taken and cut, and the segment grows only if nothing else serves. */
  ghost predicate Mallocs(h: Shape, h': Shape, bytes: nat, ptr: nat, adjacent: bool) {
    && ptr >= 16 && Allocated(h, h', RequestSize(bytes), ptr - 16) && Serves(h, RequestSize(bytes), ptr - 16)
    && h'.end == EndAfter(h, TopSize(h), RequestSize(bytes), adjacent)
  }

  /** Realloc's part: in place whenever the block can grow there. */
  ghost predicate Reallocs(h: Shape, h': Shape, old_: nat, bytes: nat, ptr: nat, adjacent: bool)
    requires old_ >= 16
  {
    && ptr >= 16 && Reallocated(h, h', old_ - 16, ptr - 16, RequestSize(bytes))
    && if FitsInPlace(h, old_ - 16, RequestSize(bytes)) then
         ptr == old_ && h'.end == h.end && Refits(h, h', old_ - 16, RequestSize(bytes))
       else
         h'.end == EndAfter(h, TopSize(h), RequestSize(bytes), adjacent) && Relocated(h, h', RequestSize(bytes), ptr - 16)
  }

  /** Ialloc's part: `got` is the heap once malloc has returned the chunk `p` for all of it, `given` the
      pointers. */
  ghost predicate IallocsFrom(h: Shape, got: Shape, p: nat, h': Shape, sizes: seq<nat>, given: seq<nat>)
    requires |sizes| > 0
  {
    && |given| == |sizes| && Allocated(h, got, ManyRequest(sizes), p) && Serves(h, ManyRequest(sizes), p)
    && Got(got, p, |sizes|, sizes, false, false) && h' == got.(mem := h'.mem, chunks := h'.chunks)
    && AllDelivered(h, got, p, h', |sizes|, sizes, false, false, 0) && Pointers(given, p, |sizes|, sizes, false)
  }

  ghost predicate Iallocs(h: Shape, h': Shape, sizes: seq<nat>, given: seq<nat>, adjacent: bool)
    requires |sizes| > 0
  {
    && h'.end == EndAfter(h, TopSize(h), ManyRequest(sizes), adjacent)
    && exists got, p :: IallocsFrom(h, got, p, h', sizes, given)
  }

  function Nulls(n: nat): (r: seq<nat>)
    ensures |r| == n && forall j | 0 <= j < n :: r[j] == 0
  {
    seq(n, _ => 0)
  }

  /** What a command that succeeds does to heap and pointers. */
  ghost predicate Effect(h: Shape, ptrs: seq<nat>, c: Command, h': Shape, ptrs': seq<nat>, adjacent: bool) {
    match c
    case Allocate(k, bytes) =>
      OneChanged(ptrs, ptrs', k) && Mallocs(h, h', bytes, ptrs'[k], adjacent)
    case AllocateAligned(k, bytes, alignment) =>
      && OneChanged(ptrs, ptrs', k) && ptrs'[k] >= 16 && AlignedFor(h, h', ptrs'[k] - 16, AlignmentFor(alignment), RequestToSize(bytes))
      && CutAligned(h, h', ptrs'[k] - 16, AlignmentFor(alignment), RequestToSize(bytes))
      && h'.end == EndAfter(h, TopSize(h), AlignedRequest(bytes, alignment), adjacent)
    case Release(k) =>
      && OneChanged(ptrs, ptrs', k) && ptrs'[k] == 0 && h'.end == h.end
      && if ptrs[k] == 0 then h' == h else ptrs[k] >= 16 && Moved(h, h', {(ptrs[k] - 16) as nat}, {}) && VictimGrows(h, h')
    case Resize(k, bytes) =>
      && OneChanged(ptrs, ptrs', k)
      && if ptrs[k] == 0 then Mallocs(h, h', bytes, ptrs'[k], adjacent)
         else ptrs[k] >= 16 && Reallocs(h, h', ptrs[k], bytes, ptrs'[k], adjacent)
    case Write(k, i, x) => ptrs' == ptrs && k < |ptrs| && h' == h.(mem := h.mem[ptrs[k] + 8 * i := x])
    case ReleaseAll(ks) =>
      && Places(ks, |ptrs|) && ptrs' == Spread(ptrs, ks, Nulls(|ks|)) && h'.end == h.end
      && Moved(h, h', PtrChunks(Picked(ptrs, ks)), {}) && VictimGrows(h, h')
    case AllocateMany(ks, sizes) =>
      && |ks| == |sizes|
      && if ks == [] then h' == h && ptrs' == ptrs
         else Places(ks, |ptrs|) && |ptrs'| == |ptrs| && Iallocs(h, h', sizes, Picked(ptrs', ks), adjacent)
              && ptrs' == Spread(ptrs, ks, Picked(ptrs', ks))
  }

  /** What any command does: the invariant is kept, and one that fails changes nothing. */
  ghost predicate Acts(h: Shape, ptrs: seq<nat>, c: Command, ok: bool, h': Shape, ptrs': seq<nat>, adjacent: bool) {
    && HeapInv(h', {}) && h'.base == h.base
    && if ok then Effect(h, ptrs, c, h', ptrs', adjacent) else h' == h && ptrs' == ptrs
  }

  /* ---------------- the commands ---------------- */

  method ExecuteAllocate(m: MallocState, ptrs: array<nat>, t: seq<Slot>, c: Command, adjacent: bool) returns (ok: bool)
    requires m.Valid() && ptrs.Length == |t| && Represents(m.Whole(), ptrs[..], t) && Allowed(t, c) && c.Allocate?
    modifies m, ptrs
    ensures m.Valid() && Represents(m.Whole(), ptrs[..], Step(t, c, ok))
    ensures ok <==> CanServe(old(m.Whole()), old(ptrs[..]), t, c, adjacent)
    ensures Acts(old(m.Whole()), old(ptrs[..]), c, ok, m.Whole(), ptrs[..], adjacent)
  {
    hide Represents, Live, FitsInPlace, AlignedFor, AlignmentFor, RequestToSize, Moved, HeapInv, SizeOf, Cinuse, PtrChunks, Allocated, Reallocated,
         Serves, NothingFree, SystemGrants, Within, RequestSize, EndAfter, VictimGrows, CutAligned, Refits, Relocated;
    ghost var h, was := m.Whole(), ptrs[..];
    var k := c.slot;
    SlotLive(h, was, t, k);
    var ptr := m.Malloc(c.bytes, adjacent);
    ok := ptr != 0;
    if ok {
      ptrs[k] := ptr;
      AllocatedIsNew(h, m.Whole(), RequestSize(c.bytes), ptr - 16);
      NewBlock(h, m.Whole(), was, t, k, ptr, c.bytes);
      assert ptrs[..] == was[k := ptr];
    }
  }

  method ExecuteAllocateAligned(m: MallocState, ptrs: array<nat>, t: seq<Slot>, c: Command, adjacent: bool) returns (ok: bool)
    requires m.Valid() && ptrs.Length == |t| && Represents(m.Whole(), ptrs[..], t) && Allowed(t, c) && c.AllocateAligned?
    modifies m, ptrs
    ensures m.Valid() && Represents(m.Whole(), ptrs[..], Step(t, c, ok))
    ensures ok <==> CanServe(old(m.Whole()), old(ptrs[..]), t, c, adjacent)
    ensures Acts(old(m.Whole()), old(ptrs[..]), c, ok, m.Whole(), ptrs[..], adjacent)
  {
    hide Represents, Live, FitsInPlace, AlignedFor, AlignmentFor, RequestToSize, Moved, HeapInv, SizeOf, Cinuse, PtrChunks, Allocated, Reallocated,
         Serves, NothingFree, SystemGrants, Within, RequestSize, EndAfter, VictimGrows, CutAligned, Refits, Relocated;
    ghost var h, was := m.Whole(), ptrs[..];
    var k := c.slot;
    SlotLive(h, was, t, k);
    var ptr := m.Memalign(c.alignment, c.bytes, adjacent);
    ok := ptr != 0;
    if ok {
      ptrs[k] := ptr;
      AlignedIsNew(h, m.Whole(), ptr - 16, AlignmentFor(c.alignment), c.bytes);
      NewBlock(h, m.Whole(), was, t, k, ptr, c.bytes);
      assert ptrs[..] == was[k := ptr];
    }
  }

  method ExecuteRelease(m: MallocState, ptrs: array<nat>, t: seq<Slot>, c: Command, adjacent: bool) returns (ok: bool)
    requires m.Valid() && ptrs.Length == |t| && Represents(m.Whole(), ptrs[..], t) && Allowed(t, c) && c.Release?
    modifies m, ptrs
    ensures m.Valid() && Represents(m.Whole(), ptrs[..], Step(t, c, ok))
    ensures ok <==> CanServe(old(m.Whole()), old(ptrs[..]), t, c, adjacent)
    ensures Acts(old(m.Whole()), old(ptrs[..]), c, ok, m.Whole(), ptrs[..], adjacent)
  {
    hide Represents, Live, FitsInPlace, AlignedFor, AlignmentFor, RequestToSize, Moved, HeapInv, SizeOf, Cinuse, PtrChunks, Allocated, Reallocated,
         Serves, NothingFree, SystemGrants, Within, RequestSize, EndAfter, VictimGrows, CutAligned, Refits, Relocated;
    ghost var h, was := m.Whole(), ptrs[..];
    var k := c.slot;
    SlotLive(h, was, t, k);
    var ptr := ptrs[k];
    m.Free(ptr);
    ptrs[k] := 0;
    ok := true;
    assert ptrs[..] == was[k := 0];
    if ptr != 0 { FreedBlock(h, m.Whole(), was, t, k); } else { assert was[k := 0] == was && t[k := Empty] == t; }
  }

  method ExecuteResize(m: MallocState, ptrs: array<nat>, t: seq<Slot>, c: Command, adjacent: bool) returns (ok: bool)
    requires m.Valid() && ptrs.Length == |t| && Represents(m.Whole(), ptrs[..], t) && Allowed(t, c) && c.Resize?
    modifies m, ptrs
    ensures m.Valid() && Represents(m.Whole(), ptrs[..], Step(t, c, ok))
    ensures ok <==> CanServe(old(m.Whole()), old(ptrs[..]), t, c, adjacent)
    ensures Acts(old(m.Whole()), old(ptrs[..]), c, ok, m.Whole(), ptrs[..], adjacent)
  {
    hide Represents, Live, FitsInPlace, AlignedFor, AlignmentFor, RequestToSize, Moved, HeapInv, SizeOf, Cinuse, PtrChunks, Allocated, Reallocated,
         Serves, NothingFree, SystemGrants, Within, RequestSize, EndAfter, VictimGrows, CutAligned, Refits, Relocated;
    ghost var h, was := m.Whole(), ptrs[..];
    var k := c.slot;
    SlotLive(h, was, t, k);
    var old_ := ptrs[k];
    var ptr := m.Realloc(old_, c.bytes, adjacent);
    ok := ptr != 0;
    if ok {
      ptrs[k] := ptr;
      assert ptrs[..] == was[k := ptr];
      if old_ == 0 {
        AllocatedIsNew(h, m.Whole(), RequestSize(c.bytes), ptr - 16);
        NewBlock(h, m.Whole(), was, t, k, ptr, c.bytes);
      } else {
        ResizedBlock(h, m.Whole(), was, t, k, ptr, c.bytes);
      }
    }
  }

  method ExecuteWrite(m: MallocState, ptrs: array<nat>, t: seq<Slot>, c: Command, adjacent: bool) returns (ok: bool)
    requires m.Valid() && ptrs.Length == |t| && Represents(m.Whole(), ptrs[..], t) && Allowed(t, c) && c.Write?
    modifies m, ptrs
    ensures m.Valid() && Represents(m.Whole(), ptrs[..], Step(t, c, ok))
    ensures ok <==> CanServe(old(m.Whole()), old(ptrs[..]), t, c, adjacent)
    ensures Acts(old(m.Whole()), old(ptrs[..]), c, ok, m.Whole(), ptrs[..], adjacent)
  {
    hide Represents, Live, FitsInPlace, AlignedFor, AlignmentFor, RequestToSize, Moved, HeapInv, SizeOf, Cinuse, PtrChunks, Allocated, Reallocated,
         Serves, NothingFree, SystemGrants, Within, RequestSize, EndAfter, VictimGrows, CutAligned, Refits, Relocated;
    ghost var h, was := m.Whole(), ptrs[..];
    var k := c.slot;
    SlotLive(h, was, t, k);
    m.StoreWord(ptrs[k], c.i, c.x);
    ok := true;
    WrittenBlock(h, m.Whole(), was, t, k, c.i, c.x);
  }

  /** The pointers of several slots, in an array. */
  method Gather(ptrs: array<nat>, ks: seq<nat>) returns (a: array<nat>)
    requires Places(ks, ptrs.Length)
    ensures fresh(a) && a[..] == Picked(ptrs[..], ks)
  {
    a := new nat[|ks|];
    var j := 0;
    while j < |ks|
      invariant j <= |ks| && forall i | 0 <= i < j :: a[i] == ptrs[ks[i]]
    {
      a[j] := ptrs[ks[j]];
      j := j + 1;
    }
  }

  /** And back. */
  method Scatter(ptrs: array<nat>, ks: seq<nat>, a: array<nat>)
    requires Places(ks, ptrs.Length) && NoDup(ks) && a.Length == |ks| && a != ptrs
    modifies ptrs
    ensures ptrs[..] == Spread(old(ptrs[..]), ks, a[..])
  {
    var j := 0;
    while j < |ks|
      invariant j <= |ks| && a[..] == old(a[..])
      invariant forall i | 0 <= i < j :: ptrs[ks[i]] == a[i]
      invariant forall i | 0 <= i < ptrs.Length :: i !in ks[..j] ==> ptrs[i] == old(ptrs[i])
    {
      ptrs[ks[j]] := a[j];
      assert ks[..j + 1] == ks[..j] + [ks[j]];
      j := j + 1;
    }
    assert ks[..|ks|] == ks;
  }

  method ExecuteReleaseAll(m: MallocState, ptrs: array<nat>, t: seq<Slot>, c: Command, adjacent: bool) returns (ok: bool)
    requires m.Valid() && ptrs.Length == |t| && Represents(m.Whole(), ptrs[..], t) && Allowed(t, c) && c.ReleaseAll?
    modifies m, ptrs
    ensures m.Valid() && Represents(m.Whole(), ptrs[..], Step(t, c, ok))
    ensures ok <==> CanServe(old(m.Whole()), old(ptrs[..]), t, c, adjacent)
    ensures Acts(old(m.Whole()), old(ptrs[..]), c, ok, m.Whole(), ptrs[..], adjacent)
  {
    hide Represents, Live, FitsInPlace, AlignedFor, AlignmentFor, RequestToSize, Moved, HeapInv, SizeOf, Cinuse, PtrChunks, Allocated, Reallocated,
         Serves, NothingFree, SystemGrants, Within, RequestSize, EndAfter, VictimGrows, CutAligned, Refits, Relocated;
    ghost var h, was := m.Whole(), ptrs[..];
    var ks := c.slots;
    OnlyThese(h, was, t);
    PickedOk(was, ks);
    var a := Gather(ptrs, ks);
    m.BulkFree(a);
    Scatter(ptrs, ks, a);
    ok := true;
    assert a[..] == Nulls(|ks|);
    ReleasedBlocks(h, m.Whole(), was, t, ks, a[..], NoBlocks(|ks|));
  }

  /** `ialloc` into a fresh array, whose pointers then go to their slots. */
  method IallocInto(m: MallocState, ptrs: array<nat>, ks: seq<nat>, sizes: seq<nat>, adjacent: bool)
    returns (ok: bool, ghost got: Shape, ghost p: nat, ghost given: seq<nat>)
    requires m.Valid() && 0 < |ks| == |sizes| && Places(ks, ptrs.Length) && NoDup(ks) && Total(|ks|, sizes, false, false) < WORD_LIMIT
    modifies m, ptrs
    ensures m.Valid() && (ok <==> !Refused(old(m.Whole()), TopSize(old(m.Whole())), ManyRequest(sizes), adjacent))
    ensures !ok ==> m.Whole() == old(m.Whole()) && ptrs[..] == old(ptrs[..])
    ensures ok ==> |given| == |ks| && IallocsFrom(old(m.Whole()), got, p, m.Whole(), sizes, given) && ptrs[..] == Spread(old(ptrs[..]), ks, given)
    ensures m.Whole().end == EndAfter(old(m.Whole()), TopSize(old(m.Whole())), ManyRequest(sizes), adjacent)
  {
    hide Live, HeapInv, Allocated, Serves, Refused, RequestSize, EndAfter, Got, AllDelivered, Pointers, AskedWord, Total, Places, NoDup;
    ghost var h := m.Whole();
    var a := new nat[|ks|];
    var marray;
    ok, marray, got, p := m.Ialloc(|ks|, sizes, false, a, adjacent);
    given := a[..];
    if ok {
      DeliveredInv(h, got, p, m.Whole(), |ks|, sizes, marray);
      Scatter(ptrs, ks, a);
    }
  }

  lemma DeliveredInv(h: Shape, got: Shape, p: nat, w: Shape, n: nat, sizes: seq<nat>, marray: nat)
    requires 0 < n <= |sizes| && AllDelivered(h, got, p, w, n, sizes, false, false, marray)
    ensures HeapInv(w, {}) && AllDelivered(h, got, p, w, n, sizes, false, false, 0)
  {
    hide HeapInv;
  }

  lemma IallocsSo(h: Shape, got: Shape, p: nat, h': Shape, sizes: seq<nat>, given: seq<nat>, adjacent: bool)
    requires |sizes| > 0 && IallocsFrom(h, got, p, h', sizes, given) && h'.end == EndAfter(h, TopSize(h), ManyRequest(sizes), adjacent)
    ensures Iallocs(h, h', sizes, given, adjacent)
  {
    hide IallocsFrom;
  }

  method ExecuteAllocateMany(m: MallocState, ptrs: array<nat>, t: seq<Slot>, c: Command, adjacent: bool) returns (ok: bool)
    requires m.Valid() && ptrs.Length == |t| && Represents(m.Whole(), ptrs[..], t) && Allowed(t, c) && c.AllocateMany?
    modifies m, ptrs
    ensures m.Valid() && Represents(m.Whole(), ptrs[..], Step(t, c, ok))
    ensures ok <==> CanServe(old(m.Whole()), old(ptrs[..]), t, c, adjacent)
    ensures Acts(old(m.Whole()), old(ptrs[..]), c, ok, m.Whole(), ptrs[..], adjacent)
  {
    hide Represents, HeapInv, Refused, RequestSize, EndAfter, IallocsFrom, Iallocs, Total, ManyRequest;
    ghost var h, was := m.Whole(), ptrs[..];
    var ks, sizes := c.slots, c.sizes;
    ok := true;
    if |ks| == 0 {
      NothingSpread(t, ks, NewBlocks(sizes));
      return;
    }
    ghost var got, p, given;
    ok, got, p, given := IallocInto(m, ptrs, ks, sizes, adjacent);
    if ok {
      PickedSpread(was, ks, given);
      IallocsSo(h, got, p, m.Whole(), sizes, given, adjacent);
      ManySo(h, m.Whole(), got, p, sizes, given, was, t, ks);
    }
  }

  lemma NothingSpread<T>(s: seq<T>, ks: seq<nat>, vs: seq<T>)
    requires |vs| == |ks| == 0
    ensures Spread(s, ks, vs) == s
  {
  }

  lemma ManySo(h: Shape, h': Shape, got: Shape, p: nat, sizes: seq<nat>, given: seq<nat>, ptrs: seq<nat>, t: seq<Slot>, ks: seq<nat>)
    requires 0 < |sizes| == |ks| && IallocsFrom(h, got, p, h', sizes, given)
    requires Represents(h, ptrs, t) && NoDup(ks) && Places(ks, |t|) && forall j | 0 <= j < |ks| :: t[ks[j]].Empty?
    ensures |given| == |ks| && Represents(h', Spread(ptrs, ks, given), Spread(t, ks, NewBlocks(sizes)))
  {
    hide Represents, Got, AllDelivered, Pointers, Allocated, NoDup;
    OnlyThese(h, ptrs, t);
    ManyBlocks(h, h', got, p, |ks|, sizes, given, ptrs, t, ks, NewBlocks(sizes));
  }

  /** One command. */
  method Execute(m: MallocState, ptrs: array<nat>, t: seq<Slot>, c: Command, adjacent: bool) returns (ok: bool)
    requires m.Valid() && ptrs.Length == |t| && Represents(m.Whole(), ptrs[..], t)
    modifies m, ptrs
    ensures m.Valid() && Represents(m.Whole(), ptrs[..], Step(t, c, ok))
    ensures ok <==> CanServe(old(m.Whole()), old(ptrs[..]), t, c, adjacent)
    ensures Acts(old(m.Whole()), old(ptrs[..]), c, ok, m.Whole(), ptrs[..], adjacent)
  {
    hide Represents, HeapInv, Effect, Step;
    ok := false;
    if !Allowed(t, c) {
      NotAllowed(t, c);
      return;
    }
    hide Allowed, CanServe, Acts;
    match c {
      case Allocate(_, _) => ok := ExecuteAllocate(m, ptrs, t, c, adjacent);
      case AllocateAligned(_, _, _) => ok := ExecuteAllocateAligned(m, ptrs, t, c, adjacent);
      case Release(_) => ok := ExecuteRelease(m, ptrs, t, c, adjacent);
      case Resize(_, _) => ok := ExecuteResize(m, ptrs, t, c, adjacent);
      case Write(_, _, _) => ok := ExecuteWrite(m, ptrs, t, c, adjacent);
      case ReleaseAll(_) => ok := ExecuteReleaseAll(m, ptrs, t, c, adjacent);
      case AllocateMany(_, _) => ok := ExecuteAllocateMany(m, ptrs, t, c, adjacent);
    }
  }

  lemma NotAllowed(t: seq<Slot>, c: Command)
    ensures Step(t, c, false) == t
  {
  }

  /** Command i takes the heap `states[i]`, which satisfies the invariant and holds exactly the blocks
      of the replay so far, to `states[i + 1]`, and it succeeds exactly if the former can serve it. */
  ghost predicate RunsTo(states: seq<(Shape, seq<nat>)>, start: seq<Slot>, cs: seq<Command>, adjacent: seq<bool>, oks: seq<bool>, i: nat)
    requires i < |cs| && i < |adjacent| && i < |oks| && i + 1 < |states|
  {
    var t := Replay(start, cs[..i], oks[..i]);
    && HeapInv(states[i].0, {}) && Represents(states[i].0, states[i].1, t) && |states[i].1| == |t|
    && (oks[i] <==> CanServe(states[i].0, states[i].1, t, cs[i], adjacent[i]))
    && Acts(states[i].0, states[i].1, cs[i], oks[i], states[i + 1].0, states[i + 1].1, adjacent[i])
  }

  /** Any sequence of commands, from a fresh allocator: at the end the heap holds exactly the
      blocks that replaying the commands on paper gives, with their contents.  `states` are the heaps
      and pointers in between, each one what its command made of the one before. */
  method Run(m: MallocState, slots: nat, cs: seq<Command>, adjacent: seq<bool>)
    returns (ptrs: array<nat>, oks: seq<bool>, ghost states: seq<(Shape, seq<nat>)>)
    requires m.Valid() && Live(m.Whole()) == {} && |adjacent| == |cs|
    modifies m
    ensures m.Valid() && |oks| == |cs| && |states| == |cs| + 1
    ensures states[0].0 == old(m.Whole()) && states[|cs|] == (m.Whole(), ptrs[..])
    ensures forall i: nat | i < |cs| :: RunsTo(states, NoBlocks(slots), cs, adjacent, oks, i)
    ensures Represents(m.Whole(), ptrs[..], Replay(NoBlocks(slots), cs, oks))
  {
    hide Represents, Live, CanServe, Replay, HeapInv, Acts;
    ptrs := new nat[slots](_ => 0);
    var t := NoBlocks(slots);
    ghost var start := t;
    NothingHeld(ptrs[..], t, m.Whole());
    oks := [];
    states := [(m.Whole(), ptrs[..])];
    ReplayNone(start);
    var i := 0;
    while i < |cs|
      invariant i <= |cs| && |oks| == i && |states| == i + 1 && |t| == ptrs.Length
      invariant fresh(ptrs) && m.Valid() && t == Replay(start, cs[..i], oks) && Represents(m.Whole(), ptrs[..], t)
      invariant states[0].0 == old(m.Whole()) && states[i] == (m.Whole(), ptrs[..])
      invariant forall j: nat | j < i :: RunsTo(states, start, cs, adjacent, oks, j)
    {
      var ok := Execute(m, ptrs, t, cs[i], adjacent[i]);
      ReplayNext(start, cs, oks, i, ok);
      RunsOn(states, (m.Whole(), ptrs[..]), start, cs, adjacent, oks, i, ok, t);
      t := Step(t, cs[i], ok);
      oks := oks + [ok];
      states := states + [(m.Whole(), ptrs[..])];
      i := i + 1;
    }
    assert cs[..i] == cs;
  }

  lemma ReplayNone(t: seq<Slot>)
    ensures Replay(t, [], []) == t
  {
  }

  lemma RunsOn(states: seq<(Shape, seq<nat>)>, next: (Shape, seq<nat>), start: seq<Slot>, cs: seq<Command>, adjacent: seq<bool>,
               oks: seq<bool>, i: nat, ok: bool, t: seq<Slot>)
    requires i < |cs| == |adjacent| && |oks| == i && |states| == i + 1 && |states[i].1| == |t|
    requires t == Replay(start, cs[..i], oks) && HeapInv(states[i].0, {}) && Represents(states[i].0, states[i].1, t)
    requires ok <==> CanServe(states[i].0, states[i].1, t, cs[i], adjacent[i])
    requires Acts(states[i].0, states[i].1, cs[i], ok, next.0, next.1, adjacent[i])
    requires forall j: nat | j < i :: RunsTo(states, start, cs, adjacent, oks, j)
    ensures forall j: nat | j < i + 1 :: RunsTo(states + [next], start, cs, adjacent, oks + [ok], j)
  {
    hide Represents, CanServe, Replay, HeapInv, Acts;
    var oks' := oks + [ok];
    forall j: nat | j < i + 1 ensures RunsTo(states + [next], start, cs, adjacent, oks', j) {
      assert oks'[..j] == oks[..j];
      if j < i { assert RunsTo(states, start, cs, adjacent, oks, j); } else { assert oks[..i] == oks; }
    }
  }

  lemma ReplayNext(t: seq<Slot>, cs: seq<Command>, oks: seq<bool>, i: nat, ok: bool)
    requires i < |cs| && |oks| == i
    ensures Replay(t, cs[..i + 1], oks + [ok]) == Step(Replay(t, cs[..i], oks), cs[i], ok)
  {
    var cs', oks' := cs[..i + 1], oks + [ok];
    assert cs'[..|cs'| - 1] == cs[..i] && oks'[..|oks'| - 1] == oks;
  }
}
