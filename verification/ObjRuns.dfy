/** Whole runs of the kernel heap of src/obj_heap.c, seen by a caller that keeps its blocks in
    numbered slots: every block keeps the bytes that were last stored in it. */
module ObjRuns {
  import opened Lists
  import opened ObjHeap
  import opened ObjMajors
  import opened BestBet
  import opened ObjAlloc

  /** A slot holds a block of the requested size, with the bytes that have been stored in it. */
  datatype Slot = Empty | Held(req: nat, stored: map<nat, nat>)

  datatype Command =
    | Allocate(slot: nat, req: nat)
    | Release(slot: nat)
    | Resize(slot: nat, req: nat)
    | Write(slot: nat, off: nat, v: nat)

  predicate Allowed(t: seq<Slot>, c: Command) {
    && c.slot < |t|
    && match c
       case Allocate(k, req) => t[k].Empty? && Representable(req)
       case Release(_) => true
       case Resize(_, req) => Representable(req)
       case Write(k, off, _) => t[k].Held? && off < t[k].req
  }

  function Within(stored: map<nat, nat>, req: nat): map<nat, nat> { map i | i in stored && i < req :: stored[i] }

  /** What a command does to the slots, given whether the heap could serve it.  A block resized to
      nothing is freed. */
  function Step(t: seq<Slot>, c: Command, ok: bool): (t': seq<Slot>)
    ensures |t'| == |t|
  {
    if !ok || !Allowed(t, c) then t else
    match c
    case Allocate(k, req) => t[k := Held(req, map[])]
    case Release(k) => t[k := Empty]
    case Resize(k, req) =>
      if req == 0 then t[k := Empty] else t[k := Held(req, if t[k].Held? then Within(t[k].stored, req) else map[])]
    case Write(k, off, v) => t[k := Held(t[k].req, t[k].stored[off := v])]
  }

  function Replay(t: seq<Slot>, cs: seq<Command>, oks: seq<bool>): (t': seq<Slot>)
    requires |cs| == |oks|
    ensures |t'| == |t|
  {
    if cs == [] then t else Step(Replay(t, cs[..|cs| - 1], oks[..|cs| - 1]), cs[|cs| - 1], oks[|cs| - 1])
  }

  /** The minor of a block, with the bytes of the slot. */
  ghost predicate HoldsIn(n: Minor, bytes: map<nat, nat>, ptr: nat, s: Slot) {
    s.Held? && Pointer(n) == ptr && n.req == s.req && forall off: nat | off in s.stored :: off < s.req && At(bytes, ptr, off) == s.stored[off]
  }

  ghost predicate HoldsBlock(ms: seq<Major>, bytes: map<nat, nat>, ptr: nat, s: Slot) {
    if s.Empty? then ptr == 0 else ptr != 0 && exists n :: n in Minors(ms) && HoldsIn(n, bytes, ptr, s)
  }

  /** The heap holds exactly the blocks of the slots. */
  ghost predicate Represents(ms: seq<Major>, bytes: map<nat, nat>, ptrs: seq<nat>, t: seq<Slot>) {
    && |ptrs| == |t|
    && (forall k | 0 <= k < |t| :: HoldsBlock(ms, bytes, ptrs[k], t[k]))
    && (forall j, k | 0 <= j < k < |ptrs| && ptrs[j] != 0 :: ptrs[j] != ptrs[k])
    && (forall n | n in Minors(ms) :: Pointer(n) in ptrs)
  }

  lemma PointerPositive(n: Minor)
    ensures Pointer(n) > 0
  {
  }

  /** A block that a command does not concern. */
  lemma BlockKept(ms: seq<Major>, b: map<nat, nat>, ms': seq<Major>, b': map<nat, nat>, ptr: nat, s: Slot, gone: set<Minor>, old_: nat)
    requires HoldsBlock(ms, b, ptr, s) && (forall x | x in gone :: Pointer(x) == old_) && (ptr != 0 ==> ptr != old_)
    requires Minors(ms) - gone <= Minors(ms') && forall x | x in Minors(ms) - gone :: SamePayload(b, b', x)
    ensures HoldsBlock(ms', b', ptr, s)
    ensures ptr != 0 ==> exists n :: n in Minors(ms) - gone && Pointer(n) == ptr
  {
    hide Minors, Pointer, Byte;
    if s.Held? {
      var n :| n in Minors(ms) && HoldsIn(n, b, ptr, s);
      assert n !in gone;
      PayloadAt(b, b', n);
      assert HoldsIn(n, b', ptr, s);
    }
  }

  /** Slot k's block goes from one minor (or none) to another (or none). */
  lemma SlotChanged(ms: seq<Major>, b: map<nat, nat>, ms': seq<Major>, b': map<nat, nat>, ptrs: seq<nat>, t: seq<Slot>, k: nat,
                    p': nat, s': Slot, gone: set<Minor>, new_: set<Minor>)
    requires Represents(ms, b, ptrs, t) && k < |t| && MajorsOk(ms')
    requires Minors(ms') == Minors(ms) - gone + new_ && new_ !! (Minors(ms) - gone)
    requires forall x | x in gone :: Pointer(x) == ptrs[k]
    requires forall x | x in Minors(ms) && Pointer(x) == ptrs[k] :: x in gone
    requires (forall x | x in new_ :: Pointer(x) == p') && (p' != 0 ==> new_ != {})
    requires (forall x | x in Minors(ms) - gone :: SamePayload(b, b', x)) && HoldsBlock(ms', b', p', s')
    ensures Represents(ms', b', ptrs[k := p'], t[k := s'])
  {
    hide MajorsOk, Minors, Pointer, SamePayload, HoldsBlock;
    var ptrs', t' := ptrs[k := p'], t[k := s'];
    forall j | 0 <= j < |t| ensures HoldsBlock(ms', b', ptrs'[j], t'[j]) && (j != k && ptrs[j] != 0 ==> ptrs[j] != p') {
      if j != k {
        BlockKept(ms, b, ms', b', ptrs[j], t[j], gone, ptrs[k]);
        if ptrs[j] != 0 && ptrs[j] == p' {
          var n :| n in Minors(ms) - gone && Pointer(n) == ptrs[j];
          var x :| x in new_;
          SamePointer(ms', n, x);
        }
      }
    }
    forall n | n in Minors(ms') ensures Pointer(n) in ptrs' {
      if n in new_ {
        assert ptrs'[k] == Pointer(n);
      } else {
        var j :| 0 <= j < |ptrs| && ptrs[j] == Pointer(n);
        assert ptrs'[j] == Pointer(n);
      }
    }
  }

  lemma SlotMinor(ms: seq<Major>, b: map<nat, nat>, ptrs: seq<nat>, t: seq<Slot>, k: nat)
    requires Represents(ms, b, ptrs, t) && k < |t|
    ensures t[k].Empty? <==> ptrs[k] == 0
    ensures ptrs[k] != 0 ==> exists n :: n in Minors(ms) && HoldsIn(n, b, ptrs[k], t[k])
  {
    hide Minors, HoldsIn;
    assert HoldsBlock(ms, b, ptrs[k], t[k]);
  }

  /** The one minor with a slot's pointer. */
  lemma ItsMinor(ms: seq<Major>, b: map<nat, nat>, ptrs: seq<nat>, t: seq<Slot>, k: nat, n: Minor)
    requires Represents(ms, b, ptrs, t) && k < |t| && MajorsOk(ms) && n in Minors(ms) && Pointer(n) == ptrs[k]
    ensures t[k].Held? && HoldsIn(n, b, ptrs[k], t[k])
    ensures forall x | x in Minors(ms) && Pointer(x) == ptrs[k] :: x == n
  {
    PointerPositive(n);
    SlotMinor(ms, b, ptrs, t, k);
    hide Minors, HoldsIn, MajorsOk, Represents, Pointer;
    var x :| x in Minors(ms) && HoldsIn(x, b, ptrs[k], t[k]);
    HoldsPointer(x, b, ptrs[k], t[k]);
    SamePointer(ms, x, n);
    forall y | y in Minors(ms) && Pointer(y) == ptrs[k] ensures y == n { SamePointer(ms, y, n); }
  }

  lemma HoldsPointer(n: Minor, b: map<nat, nat>, ptr: nat, s: Slot)
    requires HoldsIn(n, b, ptr, s)
    ensures Pointer(n) == ptr
  {
  }

  lemma NewBlock(ms: seq<Major>, b: map<nat, nat>, ms': seq<Major>, b': map<nat, nat>, ptrs: seq<nat>, t: seq<Slot>, k: nat, req: nat, n: Minor)
    requires Represents(ms, b, ptrs, t) && k < |t| == |ptrs| && MajorsOk(ms') && ptrs[k] == 0 && n.req == req
    requires n !in Minors(ms) && Minors(ms') == Minors(ms) + {n}
    requires forall x | x in Minors(ms) :: SamePayload(b, b', x)
    ensures Represents(ms', b', ptrs[k := Pointer(n)], t[k := Held(req, map[])])
  {
    hide MajorsOk, Minors, Represents, SamePayload, Pointer;
    PointerPositive(n);
    forall x | x in Minors(ms) ensures Pointer(x) > 0 { PointerPositive(x); }
    assert HoldsIn(n, b', Pointer(n), Held(req, map[]));
    SlotChanged(ms, b, ms', b', ptrs, t, k, Pointer(n), Held(req, map[]), {}, {n});
  }

  lemma FreedBlock(ms: seq<Major>, b: map<nat, nat>, ms': seq<Major>, ptrs: seq<nat>, t: seq<Slot>, k: nat, n: Minor)
    requires Represents(ms, b, ptrs, t) && k < |t| == |ptrs| && MajorsOk(ms) && MajorsOk(ms')
    requires n in Minors(ms) && Pointer(n) == ptrs[k] && Minors(ms') == Minors(ms) - {n}
    ensures Represents(ms', b, ptrs[k := 0], t[k := Empty])
  {
    hide MajorsOk, Minors, Represents, Pointer;
    ItsMinor(ms, b, ptrs, t, k, n);
    SlotChanged(ms, b, ms', b, ptrs, t, k, 0, Empty, {n}, {});
  }

  lemma MovedBlock(ms: seq<Major>, b: map<nat, nat>, ms': seq<Major>, b': map<nat, nat>, ptrs: seq<nat>, t: seq<Slot>, k: nat,
                   req: nat, was: Minor, now: Minor)
    requires Represents(ms, b, ptrs, t) && k < |t| == |ptrs| && MajorsOk(ms) && MajorsOk(ms')
    requires was in Minors(ms) && Pointer(was) == ptrs[k] && now !in Minors(ms) - {was} && now.req == req
    requires Minors(ms') == Minors(ms) - {was} + {now}
    requires forall x | x in Minors(ms) && x != was :: SamePayload(b, b', x)
    requires forall j: nat | j < was.req && j < req :: At(b', Pointer(now), j) == At(b, ptrs[k], j)
    ensures t[k].Held? && Represents(ms', b', ptrs[k := Pointer(now)], t[k := Held(req, Within(t[k].stored, req))])
  {
    ItsMinor(ms, b, ptrs, t, k, was);
    hide MajorsOk, Minors, Represents, Pointer, SamePayload, At;
    PointerPositive(now);
    assert HoldsIn(now, b', Pointer(now), Held(req, Within(t[k].stored, req)));
    SlotChanged(ms, b, ms', b', ptrs, t, k, Pointer(now), Held(req, Within(t[k].stored, req)), {was}, {now});
  }

  lemma WrittenBlock(ms: seq<Major>, b: map<nat, nat>, ptrs: seq<nat>, t: seq<Slot>, k: nat, off: nat, v: nat, n: Minor)
    requires Represents(ms, b, ptrs, t) && k < |t| == |ptrs| && MajorsOk(ms) && n in Minors(ms) && HoldsIn(n, b, ptrs[k], t[k]) && off < t[k].req
    ensures Represents(ms, b[ptrs[k] + off := v], ptrs, t[k := Held(t[k].req, t[k].stored[off := v])])
  {
    var b' := b[ptrs[k] + off := v];
    var s' := Held(t[k].req, t[k].stored[off := v]);
    HoldsPointer(n, b, ptrs[k], t[k]);
    ItsMinor(ms, b, ptrs, t, k, n);
    hide MajorsOk, Minors, Represents, Pointer;
    assert HoldsIn(n, b', ptrs[k], s');
    PointerPositive(n);
    CopyFrame(ms, b, b', n);
    assert ptrs[k := ptrs[k]] == ptrs && Minors(ms) - {n} + {n} == Minors(ms);
    SlotChanged(ms, b, ms, b', ptrs, t, k, ptrs[k], s', {n}, {n});
  }

  /** What the page allocator has for a request: the pages offered, if no major has them. */
  function Answer(ms: seq<Major>, offer: nat, req: nat): nat { if Offered(ms, offer, req + EXTRA) then offer else 0 }

  /** The heap can serve the command: from a gap, in place, or with new pages. */
  ghost predicate CanServe(ms: seq<Major>, t: seq<Slot>, c: Command, offer: nat) {
    Allowed(t, c)
    && match c
       case Allocate(_, req) => Answer(ms, offer, req) != 0 || !NoRoom(ms, 0, |ms|, req + EXTRA + HEADER)
       case Resize(k, req) =>
         || req == 0 || (t[k].Held? && t[k].req >= req)
         || Answer(ms, offer, req) != 0 || !NoRoom(ms, 0, |ms|, req + EXTRA + HEADER)
       case _ => true
  }

  /** What a command that succeeds does to the majors, the bytes and the pointers. */
  ghost predicate Effect(ms: seq<Major>, bet: nat, b: map<nat, nat>, ptrs: seq<nat>, c: Command, ms': seq<Major>, bet': nat, b': map<nat, nat>,
                         ptrs': seq<nat>, offer: nat) {
    match c
    case Allocate(k, req) => OneChanged(ptrs, ptrs', k) && Allocates(ms, bet, b, ms', bet', b', req, Answer(ms, offer, req), ptrs'[k])
    case Release(k) => OneChanged(ptrs, ptrs', k) && ptrs'[k] == 0 && Frees(ms, bet, ms', bet', ptrs[k]) && b' == b
    case Resize(k, req) => OneChanged(ptrs, ptrs', k) && Reallocates(ms, bet, b, ms', bet', b', ptrs[k], req, Answer(ms, offer, req), ptrs'[k])
    case Write(k, off, v) => ptrs' == ptrs && k < |ptrs| && ms' == ms && bet' == bet && b' == b[ptrs[k] + off := v]
  }

  ghost predicate WellFormed(ms: seq<Major>, b: map<nat, nat>) { MajorsOk(ms) && NoneEmpty(ms) && TagsOk(ms, b) }

  /** The bet after a command that fails: an allocation has looked at all majors by then. */
  ghost function Missed(ms: seq<Major>, bet: nat, t: seq<Slot>, c: Command): nat {
    if Allowed(t, c) && (c.Allocate? || c.Resize?) then GivenUp(ms, bet, c.req) else bet
  }

  /** What any command does: the heap stays well formed, and a command that fails changes nothing but the bet. */
  ghost predicate Acts(ms: seq<Major>, bet: nat, b: map<nat, nat>, ptrs: seq<nat>, t: seq<Slot>, c: Command, ok: bool, ms': seq<Major>, bet': nat,
                       b': map<nat, nat>, ptrs': seq<nat>, offer: nat) {
    && WellFormed(ms', b')
    && if ok then Effect(ms, bet, b, ptrs, c, ms', bet', b', ptrs', offer)
       else ms' == ms && bet' == Missed(ms, bet, t, c) && b' == b && ptrs' == ptrs
  }

  /** One command. */
  method Execute(h: ObjHeapState, ptrs: array<nat>, t: seq<Slot>, c: Command, offer: nat) returns (ok: bool)
    requires h.Valid() && ptrs.Length == |t| && Represents(h.majors, h.bytes, ptrs[..], t)
    modifies h, ptrs
    ensures h.Valid() && Represents(h.majors, h.bytes, ptrs[..], Step(t, c, ok))
    ensures ok <==> CanServe(old(h.majors), t, c, offer)
    ensures Acts(old(h.majors), old(h.bestBet), old(h.bytes), old(ptrs[..]), t, c, ok, h.majors, h.bestBet, h.bytes, ptrs[..], offer)
  {
    hide MajorsOk, TagsOk, Represents, Listed, TotalInUse, TotalSize, Representable, Answer, NoRoom, Allocates, Frees, Reallocates;
    ok := Allowed(t, c);
    if !ok { return; }
    match c {
      case Allocate(k, req) => ok := ExecuteAllocate(h, ptrs, t, k, req, offer);
      case Release(k) => ExecuteRelease(h, ptrs, t, k);
      case Resize(k, req) => ok := ExecuteResize(h, ptrs, t, k, req, offer);
      case Write(k, off, v) => ExecuteWrite(h, ptrs, t, k, off, v);
    }
  }

  method ExecuteAllocate(h: ObjHeapState, ptrs: array<nat>, t: seq<Slot>, k: nat, req: nat, offer: nat) returns (ok: bool)
    requires h.Valid() && ptrs.Length == |t| && Represents(h.majors, h.bytes, ptrs[..], t) && k < |t| && t[k].Empty? && Representable(req)
    modifies h, ptrs
    ensures h.Valid() && Represents(h.majors, h.bytes, ptrs[..], if ok then t[k := Held(req, map[])] else t)
    ensures ok <==> Answer(old(h.majors), offer, req) != 0 || !NoRoom(old(h.majors), 0, |old(h.majors)|, req + EXTRA + HEADER)
    ensures !ok ==> h.majors == old(h.majors) && h.bytes == old(h.bytes) && ptrs[..] == old(ptrs[..])
    ensures ok ==> OneChanged(old(ptrs[..]), ptrs[..], k)
    ensures ok ==> Allocates(old(h.majors), old(h.bestBet), old(h.bytes), h.majors, h.bestBet, h.bytes, req, Answer(old(h.majors), offer, req),
                             ptrs[k])
    ensures !ok ==> h.bestBet == GivenUp(old(h.majors), old(h.bestBet), req)
  {
    hide MajorsOk, Minors, Represents, Representable, Offered, Pointer, NoRoom, FirstGap, TagsOk, Listed, TotalInUse, TotalSize, SamePayload,
         Allocates, Fits, Placed, Answer;
    ghost var ms, b, was := h.majors, h.bytes, ptrs[..];
    SlotMinor(ms, b, was, t, k);
    var grew, p;
    ghost var at, pos, n;
    ghost var bet := h.bestBet;
    NothingOffered(h.majors, offer, req);
    p, grew, at, pos, n := h.Alloc(req, Answer(h.majors, offer, req));
    ok := p != 0;
    if ok {
      ServedMeans(ms, grew, Answer(ms, offer, req), req, at, pos);
      AllocatesSo(ms, bet, b, h.majors, h.bestBet, h.bytes, req, Answer(ms, offer, req), p, grew, at, pos, n);
      NewFrame(h.majors, b, h.bytes, n);
      ptrs[k] := p;
      NewBlock(ms, b, h.majors, h.bytes, was, t, k, req, n);
      assert ptrs[..] == was[k := p];
    }
  }

  lemma NothingOffered(ms: seq<Major>, offer: nat, req: nat)
    ensures Offered(ms, Answer(ms, offer, req), req + EXTRA)
  {
  }

  method ExecuteRelease(h: ObjHeapState, ptrs: array<nat>, t: seq<Slot>, k: nat)
    requires h.Valid() && ptrs.Length == |t| && Represents(h.majors, h.bytes, ptrs[..], t) && k < |t|
    modifies h, ptrs
    ensures h.Valid() && Represents(h.majors, h.bytes, ptrs[..], t[k := Empty])
    ensures OneChanged(old(ptrs[..]), ptrs[..], k) && ptrs[k] == 0
    ensures Frees(old(h.majors), old(h.bestBet), h.majors, h.bestBet, old(ptrs[k])) && h.bytes == old(h.bytes)
  {
    hide MajorsOk, Minors, Represents, Pointer, TagsOk, Listed, TotalInUse, TotalSize, HoldsIn, Dropped;
    ghost var ms, b, was := h.majors, h.bytes, ptrs[..];
    SlotMinor(ms, b, was, t, k);
    if ptrs[k] != 0 { IsLive(h, was, t, k); }
    var ptr := ptrs[k];
    var pages;
    ghost var i, l, bet := 0, 0, h.bestBet;
    pages, i, l := h.Free(ptr);
    ptrs[k] := 0;
    assert ptrs[..] == was[k := 0];
    if ptr != 0 {
      FreedBlock(ms, b, h.majors, was, t, k, ms[i].minors[l]);
      FreesSo(ms, bet, h.majors, h.bestBet, ptr, i, l);
    } else { assert was[k := 0] == was && t[k := Empty] == t; }
  }

  lemma IsLive(h: ObjHeapState, ptrs: seq<nat>, t: seq<Slot>, k: nat)
    requires Represents(h.majors, h.bytes, ptrs, t) && k < |t| == |ptrs| && ptrs[k] != 0
    ensures h.Live(ptrs[k])
  {
    hide Minors, Represents, Pointer;
    SlotMinor(h.majors, h.bytes, ptrs, t, k);
  }

  method ExecuteResize(h: ObjHeapState, ptrs: array<nat>, t: seq<Slot>, k: nat, req: nat, offer: nat) returns (ok: bool)
    requires h.Valid() && ptrs.Length == |t| && Represents(h.majors, h.bytes, ptrs[..], t) && k < |t| && Representable(req)
    modifies h, ptrs
    ensures h.Valid() && Represents(h.majors, h.bytes, ptrs[..], Step(t, Resize(k, req), ok))
    ensures ok <==> || req == 0 || (t[k].Held? && t[k].req >= req)
                    || Answer(old(h.majors), offer, req) != 0 || !NoRoom(old(h.majors), 0, |old(h.majors)|, req + EXTRA + HEADER)
    ensures !ok ==> h.majors == old(h.majors) && h.bytes == old(h.bytes) && ptrs[..] == old(ptrs[..])
    ensures ok ==> OneChanged(old(ptrs[..]), ptrs[..], k)
    ensures ok ==> Reallocates(old(h.majors), old(h.bestBet), old(h.bytes), h.majors, h.bestBet, h.bytes, old(ptrs[k]), req,
                               Answer(old(h.majors), offer, req), ptrs[k])
    ensures !ok ==> h.bestBet == GivenUp(old(h.majors), old(h.bestBet), req)
  {
    hide MajorsOk, Minors, Represents, Representable, Offered, Pointer, NoRoom, TagsOk, Listed, TotalInUse, TotalSize, SamePayload, HoldsIn,
         Reallocates;
    ghost var ms, b, was := h.majors, h.bytes, ptrs[..];
    SlotMinor(ms, b, was, t, k);
    if req == 0 {
      var r;
      ghost var x, y;
      if ptrs[k] != 0 { IsLive(h, was, t, k); }
      NothingOffered(h.majors, offer, req);
      r, x, y := h.Realloc(ptrs[k], 0, Answer(h.majors, offer, req));
      ptrs[k] := 0;
      assert ptrs[..] == was[k := 0];
      if was[k] != 0 {
        FreedBlock(ms, b, h.majors, was, t, k, x);
      } else {
        SameMinors(ms, b, h.majors, was, t);
        assert was[k := 0] == was && t[k := Empty] == t;
      }
      return true;
    }
    if ptrs[k] != 0 { IsLive(h, was, t, k); }
    NothingOffered(h.majors, offer, req);
    var r;
    ghost var x, y;
    r, x, y := h.Realloc(ptrs[k], req, Answer(h.majors, offer, req));
    ok := r != 0;
    if was[k] != 0 { ItsRequest(ms, b, was, t, k, x); }
    if ok {
      ptrs[k] := r;
      assert ptrs[..] == was[k := r];
      if was[k] != 0 {
        MovedBlock(ms, b, h.majors, h.bytes, was, t, k, req, x, y);
      } else {
        NewBlock(ms, b, h.majors, h.bytes, was, t, k, req, y);
      }
    }
  }

  lemma SameMinors(ms: seq<Major>, b: map<nat, nat>, ms': seq<Major>, ptrs: seq<nat>, t: seq<Slot>)
    requires Represents(ms, b, ptrs, t) && Minors(ms') == Minors(ms)
    ensures Represents(ms', b, ptrs, t)
  {
    hide Minors, Pointer, HoldsIn;
    forall k | 0 <= k < |t| ensures HoldsBlock(ms', b, ptrs[k], t[k]) { assert HoldsBlock(ms, b, ptrs[k], t[k]); }
  }

  lemma ItsRequest(ms: seq<Major>, b: map<nat, nat>, ptrs: seq<nat>, t: seq<Slot>, k: nat, n: Minor)
    requires Represents(ms, b, ptrs, t) && k < |t| == |ptrs| && MajorsOk(ms) && n in Minors(ms) && Pointer(n) == ptrs[k]
    ensures t[k].Held? && t[k].req == n.req
  {
    hide Minors, MajorsOk, Represents, Pointer;
    ItsMinor(ms, b, ptrs, t, k, n);
  }

  method ExecuteWrite(h: ObjHeapState, ptrs: array<nat>, t: seq<Slot>, k: nat, off: nat, v: nat)
    requires h.Valid() && ptrs.Length == |t| && Represents(h.majors, h.bytes, ptrs[..], t) && k < |t| && t[k].Held? && off < t[k].req
    modifies h, ptrs
    ensures h.Valid() && Represents(h.majors, h.bytes, ptrs[..], t[k := Held(t[k].req, t[k].stored[off := v])])
    ensures h.majors == old(h.majors) && h.bestBet == old(h.bestBet) && h.bytes == old(h.bytes)[ptrs[k] + off := v] && ptrs[..] == old(ptrs[..])
  {
    hide MajorsOk, Minors, Represents, Pointer, TagsOk, Listed, TotalInUse, TotalSize;
    ghost var ms, b, was := h.majors, h.bytes, ptrs[..];
    SlotMinor(ms, b, was, t, k);
    ghost var n :| n in Minors(ms) && HoldsIn(n, b, ptrs[k], t[k]);
    WrittenBlock(ms, b, was, t, k, off, v, n);
    h.Store(ptrs[k], off, v);
  }

  /** The heap and the caller's pointers between two commands. */
  datatype State = State(majors: seq<Major>, bet: nat, bytes: map<nat, nat>, ptrs: seq<nat>)

  /** Command i takes the heap `states[i]`, which is well formed and holds exactly the blocks of the
      replay so far, to `states[i + 1]`, and it succeeds exactly if the former can serve it. */
  ghost predicate RunsTo(states: seq<State>, start: seq<Slot>, cs: seq<Command>, offers: seq<nat>,
                         oks: seq<bool>, i: nat)
    requires i < |cs| && i < |offers| && i < |oks| && i + 1 < |states|
  {
    var t := Replay(start, cs[..i], oks[..i]);
    var State(ms, bet, b, ptrs), State(ms', bet', b', ptrs') := states[i], states[i + 1];
    && WellFormed(ms, b) && Represents(ms, b, ptrs, t) && (oks[i] <==> CanServe(ms, t, cs[i], offers[i]))
    && Acts(ms, bet, b, ptrs, t, cs[i], oks[i], ms', bet', b', ptrs', offers[i])
  }

  function NoBlocks(slots: nat): seq<Slot> { seq(slots, _ => Empty) }

  /** Any sequence of commands, from an empty heap and with any answers of the page allocator: the
      heap holds exactly the blocks that replaying the commands on paper gives, with their bytes.
      `states` are the heaps in between, each one what its command made of the one before. */
  method Run(slots: nat, cs: seq<Command>, offers: seq<nat>)
    returns (h: ObjHeapState, ptrs: array<nat>, oks: seq<bool>, ghost states: seq<State>)
    requires |offers| == |cs|
    ensures h.Valid() && |oks| == |cs| && |states| == |cs| + 1
    ensures states[0].majors == [] && states[0].bet == 0 && states[|cs|] == State(h.majors, h.bestBet, h.bytes, ptrs[..])
    ensures forall i: nat | i < |cs| :: RunsTo(states, NoBlocks(slots), cs, offers, oks, i)
    ensures Represents(h.majors, h.bytes, ptrs[..], Replay(NoBlocks(slots), cs, oks))
  {
    hide Represents, CanServe, Replay, WellFormed, Acts, ObjHeapState.Valid;
    h := new ObjHeapState();
    ptrs := new nat[slots](_ => 0);
    var t := NoBlocks(slots);
    ghost var start := t;
    NothingHeld(h.majors, h.bytes, ptrs[..], t);
    oks := [];
    states := [State(h.majors, h.bestBet, h.bytes, ptrs[..])];
    ReplayNone(start);
    var i := 0;
    while i < |cs|
      invariant i <= |cs| && |oks| == i && |states| == i + 1 && |t| == ptrs.Length && fresh(h) && fresh(ptrs)
      invariant h.Valid() && t == Replay(start, cs[..i], oks) && Represents(h.majors, h.bytes, ptrs[..], t)
      invariant states[0].majors == [] && states[0].bet == 0 && states[i] == State(h.majors, h.bestBet, h.bytes, ptrs[..])
      invariant forall j: nat | j < i :: RunsTo(states, start, cs, offers, oks, j)
    {
      ItIsWellFormed(h);
      var ok := Execute(h, ptrs, t, cs[i], offers[i]);
      ReplayNext(start, cs, oks, i, ok);
      RunsOn(states, State(h.majors, h.bestBet, h.bytes, ptrs[..]), start, cs, offers, oks, i, ok, t);
      t := Step(t, cs[i], ok);
      oks := oks + [ok];
      states := states + [State(h.majors, h.bestBet, h.bytes, ptrs[..])];
      i := i + 1;
    }
    assert cs[..i] == cs;
  }

  lemma NothingHeld(ms: seq<Major>, b: map<nat, nat>, ptrs: seq<nat>, t: seq<Slot>)
    requires ms == [] && |ptrs| == |t| && forall k | 0 <= k < |t| :: ptrs[k] == 0 && t[k].Empty?
    ensures Represents(ms, b, ptrs, t)
  {
  }

  lemma ItIsWellFormed(h: ObjHeapState)
    requires h.Valid()
    ensures WellFormed(h.majors, h.bytes)
  {
  }

  lemma ReplayNone(t: seq<Slot>)
    ensures Replay(t, [], []) == t
  {
  }

  lemma ReplayNext(t: seq<Slot>, cs: seq<Command>, oks: seq<bool>, i: nat, ok: bool)
    requires i < |cs| && |oks| == i
    ensures Replay(t, cs[..i + 1], oks + [ok]) == Step(Replay(t, cs[..i], oks), cs[i], ok)
  {
    var cs', oks' := cs[..i + 1], oks + [ok];
    assert cs'[..|cs'| - 1] == cs[..i] && oks'[..|oks'| - 1] == oks;
  }

  lemma RunsOn(states: seq<State>, next: State, start: seq<Slot>,
               cs: seq<Command>, offers: seq<nat>, oks: seq<bool>, i: nat, ok: bool, t: seq<Slot>)
    requires i < |cs| == |offers| && |oks| == i && |states| == i + 1
    requires t == Replay(start, cs[..i], oks) && WellFormed(states[i].majors, states[i].bytes)
    requires Represents(states[i].majors, states[i].bytes, states[i].ptrs, t)
    requires Acts(states[i].majors, states[i].bet, states[i].bytes, states[i].ptrs, t, cs[i], ok, next.majors, next.bet, next.bytes, next.ptrs,
                  offers[i])
    requires ok <==> CanServe(states[i].majors, t, cs[i], offers[i])
    requires forall j: nat | j < i :: RunsTo(states, start, cs, offers, oks, j)
    ensures forall j: nat | j < i + 1 :: RunsTo(states + [next], start, cs, offers, oks + [ok], j)
  {
    hide Represents, CanServe, Replay, WellFormed, Acts;
    var oks' := oks + [ok];
    forall j: nat | j < i + 1 ensures RunsTo(states + [next], start, cs, offers, oks', j) {
      assert oks'[..j] == oks[..j];
      if j < i { assert RunsTo(states, start, cs, offers, oks, j); } else { assert oks[..i] == oks; }
    }
  }
}
