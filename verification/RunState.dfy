/** A program's blocks in numbered slots, and the heap that holds exactly these: what the operations of
    hagen/src/malloc.c do to both. */
module RunState {
  import opened Words
  import opened Lists
  import opened Chunks
  import opened Heap
  import opened HeapSteps
  import opened HeapOps
  import opened ReallocSteps
  import opened BulkSteps
  import opened IallocSteps
  import opened IallocTotals
  import opened IallocLoop
  import opened Bins
  import opened Policy
  import opened Malloc

  /** A slot holds a block of some requested size, with the words that have been stored in it. */
  datatype Slot = Empty | Held(bytes: nat, words: map<nat, nat>)

  /** The words that a block of the given size has room for. */
  function Within(words: map<nat, nat>, bytes: nat): map<nat, nat> {
    map i | i in words && 8 * i + 8 <= bytes :: words[i]
  }

  /** The block at `ptr` is live, large enough, and holds the words. */
  ghost predicate HoldsBlock(h: Shape, ptr: nat, s: Slot) {
    if s.Empty? then ptr == 0
    else && ptr >= 16 && ptr - 16 in Live(h) && s.bytes + 8 <= SizeOf(h.mem, ptr - 16)
         && forall i | i in s.words :: 8 * i + 8 <= s.bytes && Word(h.mem, ptr, i) == s.words[i]
  }

  /** The heap holds exactly the blocks of the slots. */
  ghost predicate Represents(h: Shape, ptrs: seq<nat>, t: seq<Slot>) {
    && |ptrs| == |t| && PtrsOk(ptrs) && Live(h) == PtrChunks(ptrs)
    && forall k | 0 <= k < |t| :: HoldsBlock(h, ptrs[k], t[k])
  }

  /** A block that an operation does not concern is as it was. */
  lemma BlockKept(h: Shape, h': Shape, old_: set<nat>, new_: set<nat>, ptr: nat, s: Slot)
    requires HoldsBlock(h, ptr, s) && Moved(h, h', old_, new_) && (ptr != 0 ==> ptr >= 16 && ptr - 16 !in old_)
    ensures HoldsBlock(h', ptr, s)
  {
    if s.Held? {
      var p := ptr - 16;
      assert p in Live(h) - old_;
      KeptWords(h, h', old_, new_, p);
      assert PayloadKept(h.mem, h'.mem, p);
      hide SizeOf;
      forall i | i in s.words ensures Word(h'.mem, ptr, i) == s.words[i] {
        assert Word(h'.mem, p + 16, i) == Word(h.mem, p + 16, i);
      }
    }
  }

  /** Slot k's pointer changes from one (or null) to another (or null). */
  lemma SlotChanged(h: Shape, h': Shape, ptrs: seq<nat>, t: seq<Slot>, k: nat, ptr': nat, s': Slot)
    requires Represents(h, ptrs, t) && k < |t| && HoldsBlock(h', ptr', s')
    requires ptr' != 0 ==> ptr' >= 16 && ptr' - 16 !in Live(h) - PtrChunks([ptrs[k]])
    requires Moved(h, h', PtrChunks([ptrs[k]]), PtrChunks([ptr']))
    ensures Represents(h', ptrs[k := ptr'], t[k := s'])
  {
    hide HoldsBlock, SizeOf, Cinuse, LiveKept;
    var old_ := PtrChunks([ptrs[k]]);
    OnePtr(ptrs[k]);
    OnePtr(ptr');
    var ptrs', t' := ptrs[k := ptr'], t[k := s'];
    forall j | 0 <= j < |t| ensures HoldsBlock(h', ptrs'[j], t'[j]) {
      if j != k { BlockKept(h, h', old_, PtrChunks([ptr']), ptrs[j], t[j]); }
    }
    PtrsChanged(ptrs, k, ptr');
    if ptr' != 0 { NotElsewhere(h, ptrs, k, ptr'); }
  }

  lemma NotElsewhere(h: Shape, ptrs: seq<nat>, k: nat, ptr': nat)
    requires PtrsOk(ptrs) && k < |ptrs| && Live(h) == PtrChunks(ptrs) && ptr' >= 16
    requires ptr' - 16 !in Live(h) - PtrChunks([ptrs[k]])
    ensures forall j | 0 <= j < |ptrs| && j != k :: ptrs[j] != ptr'
  {
    hide Live;
    forall j | 0 <= j < |ptrs| && j != k ensures ptrs[j] != ptr' {
      if ptrs[j] == ptr' {
        PtrIn(ptrs, j);
        OnePtr(ptrs[k]);
        assert false;
      }
    }
  }

  lemma OnePtr(ptr: nat)
    ensures PtrChunks([ptr]) == if ptr >= 16 then {(ptr - 16) as nat} else {}
  {
    assert ptr in [ptr];
  }

  lemma PtrsChanged(ptrs: seq<nat>, k: nat, ptr': nat)
    requires PtrsOk(ptrs) && k < |ptrs|
    requires ptr' == 0 || ptr' >= 16
    ensures PtrChunks(ptrs[k := ptr']) == PtrChunks(ptrs) - PtrChunks([ptrs[k]]) + PtrChunks([ptr'])
  {
    var s' := ptrs[k := ptr'];
    OnePtr(ptrs[k]);
    OnePtr(ptr');
    forall p: nat
      ensures p in PtrChunks(s') <==> p in PtrChunks(ptrs) - PtrChunks([ptrs[k]]) + PtrChunks([ptr'])
    {
      PtrChunkOf(s', p);
      PtrChunkOf(ptrs, p);
      if p + 16 in s' {
        var j :| 0 <= j < |s'| && s'[j] == p + 16;
        assert j != k ==> ptrs[j] == p + 16;
      }
      if p + 16 in ptrs && p + 16 != ptrs[k] {
        var j :| 0 <= j < |ptrs| && ptrs[j] == p + 16;
        assert s'[j] == p + 16;
      }
      assert s'[k] == ptr';
    }
  }

  lemma NothingHeld(ptrs: seq<nat>, t: seq<Slot>, h: Shape)
    requires |ptrs| == |t| && Live(h) == {} && forall k | 0 <= k < |t| :: ptrs[k] == 0 && t[k].Empty?
    ensures Represents(h, ptrs, t)
  {
    forall p: nat ensures p !in PtrChunks(ptrs) { PtrChunkOf(ptrs, p); }
  }

  lemma SlotLive(h: Shape, ptrs: seq<nat>, t: seq<Slot>, k: nat)
    requires Represents(h, ptrs, t) && k < |t|
    ensures ptrs[k] != 0 ==> ptrs[k] >= 16 && ptrs[k] - 16 in Live(h) && t[k].Held? && t[k].bytes + 8 <= SizeOf(h.mem, ptrs[k] - 16)
    ensures ptrs[k] == 0 <==> t[k].Empty?
  {
    assert HoldsBlock(h, ptrs[k], t[k]);
  }

  lemma OnlyThese(h: Shape, ptrs: seq<nat>, t: seq<Slot>)
    requires Represents(h, ptrs, t)
    ensures |ptrs| == |t| && PtrsOk(ptrs) && Live(h) == PtrChunks(ptrs)
  {
  }

  lemma NewBlock(h: Shape, h': Shape, ptrs: seq<nat>, t: seq<Slot>, k: nat, ptr: nat, bytes: nat)
    requires Represents(h, ptrs, t) && k < |t| && t[k].Empty? && ptr >= 16 && bytes < WORD_LIMIT
    requires ptr - 16 !in Live(h) && Moved(h, h', {}, {(ptr - 16) as nat}) && RequestSize(bytes) <= SizeOf(h'.mem, ptr - 16) && HeapInv(h', {})
    ensures Represents(h', ptrs[k := ptr], t[k := Held(bytes, map[])])
  {
    hide RequestSize, HeapInv, LiveKept;
    SlotLive(h, ptrs, t, k);
    OnePtr(ptrs[k]);
    OnePtr(ptr);
    EnoughFor(h', ptr - 16, bytes);
    SlotChanged(h, h', ptrs, t, k, ptr, Held(bytes, map[]));
  }

  lemma AllocatedIsNew(h: Shape, h': Shape, nb: nat, p: nat)
    requires Allocated(h, h', nb, p)
    ensures p !in Live(h) && Moved(h, h', {}, {p}) && nb <= SizeOf(h'.mem, p)
  {
  }

  lemma AlignedIsNew(h: Shape, h': Shape, p: nat, a: nat, bytes: nat)
    requires a > 0 && bytes + a < MAX_REQUEST && AlignedFor(h, h', p, a, RequestToSize(bytes))
    ensures p !in Live(h) && Moved(h, h', {}, {p}) && RequestSize(bytes) <= SizeOf(h'.mem, p)
  {
  }

  /** What is asked for fits in what is given out. */
  lemma EnoughFor(h: Shape, p: nat, bytes: nat)
    requires HeapInv(h, {}) && p in Live(h) && RequestSize(bytes) <= SizeOf(h.mem, p) && bytes < WORD_LIMIT
    ensures bytes + 8 <= SizeOf(h.mem, p) && bytes < MAX_REQUEST
  {
    ChunkOf(h, {}, p);
  }

  lemma FreedBlock(h: Shape, h': Shape, ptrs: seq<nat>, t: seq<Slot>, k: nat)
    requires Represents(h, ptrs, t) && k < |t| && ptrs[k] >= 16 && Moved(h, h', {(ptrs[k] - 16) as nat}, {})
    ensures Represents(h', ptrs[k := 0], t[k := Empty])
  {
    hide LiveKept, Cinuse;
    OnePtr(ptrs[k]);
    OnePtr(0);
    SlotChanged(h, h', ptrs, t, k, 0, Empty);
  }

  lemma ResizedBlock(h: Shape, h': Shape, ptrs: seq<nat>, t: seq<Slot>, k: nat, ptr: nat, bytes: nat)
    requires Represents(h, ptrs, t) && k < |t| && ptrs[k] >= 16 && ptr >= 16 && bytes < WORD_LIMIT && HeapInv(h', {})
    requires Reallocated(h, h', ptrs[k] - 16, ptr - 16, RequestSize(bytes))
    ensures t[k].Held?
    ensures Represents(h', ptrs[k := ptr], t[k := Held(bytes, Within(t[k].words, bytes))])
  {
    hide RequestSize, HeapInv, LiveKept, Cinuse;
    SlotLive(h, ptrs, t, k);
    OnePtr(ptrs[k]);
    OnePtr(ptr);
    var p, q := ptrs[k] - 16, ptr - 16;
    assert q in Live(h');
    EnoughFor(h', q, bytes);
    var s' := Held(bytes, Within(t[k].words, bytes));
    assert HoldsBlock(h, ptrs[k], t[k]);
    hide SizeOf;
    forall i | i in s'.words ensures 8 * i + 8 <= bytes && Word(h'.mem, ptr, i) == s'.words[i] {
      assert Word(h'.mem, q + 16, i) == Word(h.mem, p + 16, i);
    }
    assert HoldsBlock(h', ptr, s');
    SlotChanged(h, h', ptrs, t, k, ptr, s');
  }

  lemma WrittenBlock(h: Shape, h': Shape, ptrs: seq<nat>, t: seq<Slot>, k: nat, i: nat, x: nat)
    requires Represents(h, ptrs, t) && k < |t| && ptrs[k] >= 16 && t[k].Held? && 8 * i + 8 <= t[k].bytes
    requires Moved(h, h', {(ptrs[k] - 16) as nat}, {(ptrs[k] - 16) as nat}) && SizeOf(h'.mem, ptrs[k] - 16) == SizeOf(h.mem, ptrs[k] - 16)
    requires forall j :: Word(h'.mem, ptrs[k], j) == if j == i then x else Word(h.mem, ptrs[k], j)
    ensures Represents(h', ptrs, t[k := Held(t[k].bytes, t[k].words[i := x])])
  {
    hide LiveKept, Cinuse, SizeOf, Word;
    SlotLive(h, ptrs, t, k);
    OnePtr(ptrs[k]);
    assert HoldsBlock(h, ptrs[k], t[k]);
    var s' := Held(t[k].bytes, t[k].words[i := x]);
    assert HoldsBlock(h', ptrs[k], s');
    SlotChanged(h, h', ptrs, t, k, ptrs[k], s');
    assert ptrs[k := ptrs[k]] == ptrs;
  }

  /* ---------------- many slots at once ---------------- */

  function IndexIn(ks: seq<nat>, k: nat): (i: nat)
    requires k in ks
    ensures i < |ks| && ks[i] == k
  {
    if ks[0] == k then 0 else 1 + IndexIn(ks[1..], k)
  }

  /** `s` with the values `vs` at the places `ks`. */
  function Spread<T>(s: seq<T>, ks: seq<nat>, vs: seq<T>): (r: seq<T>)
    requires |vs| == |ks|
    ensures |r| == |s| && forall i: nat | i < |s| :: r[i] == if i in ks then vs[IndexIn(ks, i)] else s[i]
  {
    seq(|s|, i requires 0 <= i < |s| => if i in ks then vs[IndexIn(ks, i)] else s[i])
  }

  predicate Places(ks: seq<nat>, n: nat) { forall j | 0 <= j < |ks| :: ks[j] < n }

  /** The values at the places `ks`. */
  function Picked<T>(s: seq<T>, ks: seq<nat>): (r: seq<T>)
    requires Places(ks, |s|)
    ensures |r| == |ks| && forall j | 0 <= j < |ks| :: r[j] == s[ks[j]]
  {
    seq(|ks|, j requires 0 <= j < |ks| => s[ks[j]])
  }

  lemma PickedOk(ptrs: seq<nat>, ks: seq<nat>)
    requires PtrsOk(ptrs) && NoDup(ks) && Places(ks, |ptrs|)
    ensures PtrsOk(Picked(ptrs, ks)) && PtrChunks(Picked(ptrs, ks)) <= PtrChunks(ptrs)
  {
    var r := Picked(ptrs, ks);
    forall i | 0 <= i < |r| ensures r[i] == 0 || r[i] >= 16 { assert ks[i] in ks; }
    forall i, j | 0 <= i < j < |r| && r[i] != 0 ensures r[i] != r[j] {
      assert ks[i] in ks && ks[j] in ks && ks[i] != ks[j];
      if ks[i] < ks[j] { assert ptrs[ks[i]] != ptrs[ks[j]]; } else { assert ptrs[ks[j]] != 0 ==> ptrs[ks[j]] != ptrs[ks[i]]; }
    }
    forall p: nat | p in PtrChunks(r) ensures p in PtrChunks(ptrs) {
      PtrChunkOf(r, p);
      PtrChunkOf(ptrs, p);
      var j :| 0 <= j < |r| && r[j] == p + 16;
      assert ks[j] in ks && ptrs[ks[j]] == p + 16;
    }
  }

  lemma PickedSpread(s: seq<nat>, ks: seq<nat>, vs: seq<nat>)
    requires Places(ks, |s|) && NoDup(ks) && |vs| == |ks|
    ensures Picked(Spread(s, ks, vs), ks) == vs
  {
    forall j | 0 <= j < |ks| ensures Spread(s, ks, vs)[ks[j]] == vs[j] { assert ks[j] in ks && IndexIn(ks, ks[j]) == j; }
  }

  /** A pointer elsewhere is none of those picked. */
  lemma NotPicked(ptrs: seq<nat>, ks: seq<nat>, i: nat)
    requires PtrsOk(ptrs) && Places(ks, |ptrs|) && i < |ptrs| && i !in ks && ptrs[i] >= 16
    ensures ptrs[i] - 16 !in PtrChunks(Picked(ptrs, ks)) && ptrs[i] - 16 in PtrChunks(ptrs)
  {
    PtrIn(ptrs, i);
    var r := Picked(ptrs, ks);
    PtrChunkOf(r, ptrs[i] - 16);
    hide PtrChunks;
    forall j | 0 <= j < |r| ensures r[j] != ptrs[i] {
      assert ks[j] in ks;
      assert ks[j] < i ==> ptrs[ks[j]] != 0 ==> ptrs[ks[j]] != ptrs[i];
      assert i < ks[j] ==> ptrs[i] != ptrs[ks[j]];
    }
  }

  /** The pointers after such a change. */
  lemma SpreadOk(ptrs: seq<nat>, ks: seq<nat>, vs: seq<nat>)
    requires PtrsOk(ptrs) && PtrsOk(vs) && NoDup(ks) && |vs| == |ks| && Places(ks, |ptrs|)
    requires PtrChunks(vs) !! (PtrChunks(ptrs) - PtrChunks(Picked(ptrs, ks)))
    ensures PtrsOk(Spread(ptrs, ks, vs))
    ensures PtrChunks(Spread(ptrs, ks, vs)) == PtrChunks(ptrs) - PtrChunks(Picked(ptrs, ks)) + PtrChunks(vs)
  {
    hide PtrChunks;
    var r := Spread(ptrs, ks, vs);
    forall i, j | 0 <= i < |r| && 0 <= j < |r| && i != j && r[i] != 0 ensures r[i] != r[j] { SpreadApart(ptrs, ks, vs, i, j); }
    forall p: nat
      ensures p in PtrChunks(r) <==> p in PtrChunks(ptrs) - PtrChunks(Picked(ptrs, ks)) + PtrChunks(vs)
    {
      SpreadChunk(ptrs, ks, vs, p);
    }
  }

  lemma SpreadApart(ptrs: seq<nat>, ks: seq<nat>, vs: seq<nat>, i: nat, j: nat)
    requires PtrsOk(ptrs) && PtrsOk(vs) && NoDup(ks) && |vs| == |ks| && Places(ks, |ptrs|)
    requires PtrChunks(vs) !! (PtrChunks(ptrs) - PtrChunks(Picked(ptrs, ks)))
    requires i < |ptrs| && j < |ptrs| && i != j && Spread(ptrs, ks, vs)[i] != 0
    ensures Spread(ptrs, ks, vs)[i] != Spread(ptrs, ks, vs)[j]
  {
    hide PtrChunks;
    if i in ks && j in ks {
      var x, y := IndexIn(ks, i), IndexIn(ks, j);
      assert x < y ==> vs[x] != vs[y];
      assert y < x && vs[y] != 0 ==> vs[y] != vs[x];
    } else if i in ks {
      if ptrs[j] >= 16 { NotPicked(ptrs, ks, j); }
      PtrIn(vs, IndexIn(ks, i));
    } else if j in ks {
      NotPicked(ptrs, ks, i);
      if vs[IndexIn(ks, j)] >= 16 { PtrIn(vs, IndexIn(ks, j)); }
    }
  }

  lemma SpreadChunk(ptrs: seq<nat>, ks: seq<nat>, vs: seq<nat>, p: nat)
    requires PtrsOk(ptrs) && NoDup(ks) && |vs| == |ks| && Places(ks, |ptrs|)
    ensures p in PtrChunks(Spread(ptrs, ks, vs)) <==> p in PtrChunks(ptrs) - PtrChunks(Picked(ptrs, ks)) + PtrChunks(vs)
  {
    var r, picked := Spread(ptrs, ks, vs), Picked(ptrs, ks);
    PtrChunkOf(r, p);
    PtrChunkOf(ptrs, p);
    PtrChunkOf(picked, p);
    PtrChunkOf(vs, p);
    hide PtrChunks, IndexIn;
    if p + 16 in r { FromSpread(ptrs, ks, vs, p + 16); }
    if p + 16 in vs {
      var j :| 0 <= j < |vs| && vs[j] == p + 16;
      assert ks[j] in ks && r[ks[j]] == vs[IndexIn(ks, ks[j])];
    }
    if p + 16 in ptrs && p + 16 !in picked {
      var i :| 0 <= i < |ptrs| && ptrs[i] == p + 16;
      InPicked(ptrs, ks, i);
      assert r[i] == p + 16;
    }
  }

  lemma InPicked(ptrs: seq<nat>, ks: seq<nat>, i: nat)
    requires Places(ks, |ptrs|) && i < |ptrs|
    ensures i in ks ==> ptrs[i] in Picked(ptrs, ks)
  {
    if i in ks { assert Picked(ptrs, ks)[IndexIn(ks, i)] == ptrs[i]; }
  }

  lemma FromSpread(ptrs: seq<nat>, ks: seq<nat>, vs: seq<nat>, x: nat)
    requires PtrsOk(ptrs) && |vs| == |ks| && Places(ks, |ptrs|) && x >= 16 && x in Spread(ptrs, ks, vs)
    ensures x in vs || (x in ptrs && x !in Picked(ptrs, ks))
  {
    var r := Spread(ptrs, ks, vs);
    var i: nat :| 0 <= i < |r| && r[i] == x;
    if i !in ks {
      NotPicked(ptrs, ks, i);
      PtrChunkOf(Picked(ptrs, ks), x - 16);
    }
  }

  /** The slots `ks` go from their blocks (or none) to others (or none). */
  lemma SlotsChanged(h: Shape, h': Shape, ptrs: seq<nat>, t: seq<Slot>, ks: seq<nat>, vs: seq<nat>, ss: seq<Slot>)
    requires Represents(h, ptrs, t) && NoDup(ks) && |vs| == |ss| == |ks| && |ptrs| == |t| && Places(ks, |t|)
    requires PtrsOk(vs) && PtrChunks(vs) !! (Live(h) - PtrChunks(Picked(ptrs, ks)))
    requires Moved(h, h', PtrChunks(Picked(ptrs, ks)), PtrChunks(vs))
    requires forall j | 0 <= j < |ks| :: HoldsBlock(h', vs[j], ss[j])
    ensures Represents(h', Spread(ptrs, ks, vs), Spread(t, ks, ss))
  {
    hide HoldsBlock, SizeOf, Cinuse, LiveKept, PtrChunks, Live;
    var ptrs', t' := Spread(ptrs, ks, vs), Spread(t, ks, ss);
    SpreadOk(ptrs, ks, vs);
    forall i | 0 <= i < |t| ensures HoldsBlock(h', ptrs'[i], t'[i]) {
      if i !in ks {
        assert HoldsBlock(h, ptrs[i], t[i]);
        if ptrs[i] >= 16 { NotPicked(ptrs, ks, i); }
        BlockKept(h, h', PtrChunks(Picked(ptrs, ks)), PtrChunks(vs), ptrs[i], t[i]);
      }
    }
  }

  /* ---------------- what bulk free and ialloc do to the slots ---------------- */

  lemma ReleasedBlocks(h: Shape, h': Shape, ptrs: seq<nat>, t: seq<Slot>, ks: seq<nat>, vs: seq<nat>, ss: seq<Slot>)
    requires Represents(h, ptrs, t) && NoDup(ks) && |ptrs| == |t| && Places(ks, |t|) && |vs| == |ss| == |ks|
    requires forall j | 0 <= j < |ks| :: vs[j] == 0 && ss[j].Empty?
    requires Moved(h, h', PtrChunks(Picked(ptrs, ks)), {})
    ensures Represents(h', Spread(ptrs, ks, vs), Spread(t, ks, ss))
  {
    hide Live, LiveKept;
    NullPtrs(vs);
    SlotsChanged(h, h', ptrs, t, ks, vs, ss);
  }

  lemma NullPtrs(vs: seq<nat>)
    requires forall j | 0 <= j < |vs| :: vs[j] == 0
    ensures PtrsOk(vs) && PtrChunks(vs) == {}
  {
    forall p: nat ensures p !in PtrChunks(vs) { PtrChunkOf(vs, p); }
  }

  /** An element that `ialloc` has split off is live, new and as large as it has to be. */
  lemma ElementDelivered(h: Shape, h': Shape, p: nat, s: seq<nat>, fence: nat, j: nat)
    requires j < |s| && AllSplit(h, h', p, s, fence, {})
    ensures var a := ElementAt(p, s, j); a in ElementChunks(p, s, |s|) && a in Live(h') && a !in Live(h) && SizeOf(h'.mem, a) >= s[j]
  {
    hide SizeOf, Moved, ElementAt, SumTo, Live;
    var a, all := ElementAt(p, s, j), ElementChunks(p, s, |s|);
    ElementChunkIn(p, s, |s|, a);
    hide ElementChunks;
    assert all + {} == all;
    NewIsLive(h, h', all, a);
    assert j < |s| - 1 ==> SizeOf(h'.mem, ElementAt(p, s, j)) == s[j];
  }

  /** The stored pointers do not wrap. */
  lemma ElementInWord(h: Shape, h': Shape, p: nat, s: seq<nat>, fence: nat, j: nat)
    requires j < |s| && AllSplit(h, h', p, s, fence, {}) && fence <= SIZE_LIMIT && s[|s| - 1] >= MIN_CHUNK
    ensures (Laid(p, s, j) + 16) % WORD_LIMIT == ElementAt(p, s, j) + 16
  {
    hide SizeOf, Moved, Live, ElementChunks, SizesAre, AllSplit;
    LastEnds(h, h', p, s, fence);
    SumMono(s, j, |s| - 1);
    SmallMod(ElementAt(p, s, j));
    SmallMod(ElementAt(p, s, j) + 16);
  }

  lemma LastEnds(h: Shape, h': Shape, p: nat, s: seq<nat>, fence: nat)
    requires |s| > 0 && AllSplit(h, h', p, s, fence, {})
    ensures ElementAt(p, s, |s| - 1) + s[|s| - 1] <= fence
  {
    hide SizeOf, Moved, Live, ElementChunks, SizesAre, ElementAt, SumTo;
  }

  /** The pointers are those of the elements. */
  ghost predicate PointsAt(given: seq<nat>, p: nat, s: seq<nat>) {
    |given| == |s| && forall j | 0 <= j < |s| :: given[j] == ElementAt(p, s, j) + 16
  }

  lemma ElementPointers(h: Shape, h': Shape, p: nat, n: nat, sizes: seq<nat>, fence: nat, given: seq<nat>)
    requires 0 < n == |sizes| == |given| && AllSplit(h, h', p, ElementSizes(n, sizes, false), fence, {}) && fence <= SIZE_LIMIT
    requires Pointers(given, p, n, sizes, false)
    ensures PointsAt(given, p, ElementSizes(n, sizes, false))
  {
    var s := ElementSizes(n, sizes, false);
    ElementFacts(s, n, sizes, false);
    hide AllSplit, ElementAt, RequestToSize, Aligned, ElementSizes, Pointers;
    forall j | 0 <= j < |s| ensures given[j] == ElementAt(p, s, j) + 16 { OnePointer(h, h', p, n, sizes, fence, given, j); }
  }

  lemma OnePointer(h: Shape, h': Shape, p: nat, n: nat, sizes: seq<nat>, fence: nat, given: seq<nat>, j: nat)
    requires j < n == |sizes| == |given| && AllSplit(h, h', p, ElementSizes(n, sizes, false), fence, {}) && fence <= SIZE_LIMIT
    requires Pointers(given, p, n, sizes, false)
    ensures given[j] == ElementAt(p, ElementSizes(n, sizes, false), j) + 16
  {
    hide AllSplit, Laid, ElementAt, RequestToSize, Aligned, ElementSizes, WordSize, Pointers, SumTo;
    var s := ElementSizes(n, sizes, false);
    ElementFacts(s, n, sizes, false);
    StoredPointer(given, p, n, sizes, j);
    ElementInWord(h, h', p, s, fence, j);
  }

  lemma StoredPointer(given: seq<nat>, p: nat, n: nat, sizes: seq<nat>, j: nat)
    requires j < n <= |sizes| && Pointers(given, p, n, sizes, false)
    ensures |given| >= n && given[j] == (Laid(p, ElementSizes(n, sizes, false), j) + 16) % WORD_LIMIT
  {
    hide Laid, ElementSizes, WordSize;
  }

  lemma PointersApart(p: nat, s: seq<nat>, given: seq<nat>)
    requires PointsAt(given, p, s) && forall j | 0 <= j < |s| :: s[j] > 0
    ensures PtrsOk(given) && PtrChunks(given) == ElementChunks(p, s, |s|)
  {
    hide ElementChunks, PtrChunks;
    forall i, j | 0 <= i < j < |s| ensures given[i] != given[j] { SumMono(s, i, j); }
    hide ElementAt, SumTo;
    forall a: nat ensures a in PtrChunks(given) <==> a in ElementChunks(p, s, |s|) {
      PtrChunkOf(given, a);
      ElementChunkIn(p, s, |s|, a);
      if a + 16 in given { var j :| 0 <= j < |s| && given[j] == a + 16; assert a == ElementAt(p, s, j); }
      if j :| 0 <= j < |s| && a == ElementAt(p, s, j) { assert given[j] == a + 16; }
    }
  }

  lemma SplitPointers(h: Shape, h': Shape, p: nat, s: seq<nat>, fence: nat, given: seq<nat>)
    requires 0 < |s| && AllSplit(h, h', p, s, fence, {}) && PointsAt(given, p, s) && forall j | 0 <= j < |s| :: s[j] > 0
    ensures PtrsOk(given) && PtrChunks(given) !! Live(h) && Moved(h, h', {}, PtrChunks(given))
  {
    PointersApart(p, s, given);
    hide SizeOf, Live, Laid, ElementChunks, Moved, PtrChunks, PtrsOk, ElementAt, SizesAre, PointsAt, SumTo;
    assert ElementChunks(p, s, |s|) + {} == ElementChunks(p, s, |s|);
  }

  lemma SplitBlock(h: Shape, h': Shape, p: nat, s: seq<nat>, fence: nat, given: seq<nat>, j: nat)
    requires j < |s| && AllSplit(h, h', p, s, fence, {}) && PointsAt(given, p, s)
    ensures given[j] >= 16 && given[j] - 16 in Live(h') && SizeOf(h'.mem, given[j] - 16) >= s[j]
  {
    ElementDelivered(h, h', p, s, fence, j);
    hide AllSplit, SizeOf, Live, ElementAt;
  }

  /** What `ialloc` has delivered, seen from the pointers that it stored. */
  lemma DeliveredPointers(h: Shape, got: Shape, p: nat, h': Shape, n: nat, sizes: seq<nat>, given: seq<nat>)
    requires 0 < n == |sizes| == |given| && Got(got, p, n, sizes, false, false)
    requires AllDelivered(h, got, p, h', n, sizes, false, false, 0) && Pointers(given, p, n, sizes, false)
    ensures PtrsOk(given) && PtrChunks(given) !! Live(h) && Moved(h, h', {}, PtrChunks(given))
    ensures forall j | 0 <= j < n :: given[j] >= 16 && given[j] - 16 in Live(h') && SizeOf(h'.mem, given[j] - 16) >= RequestToSize(sizes[j])
  {
    var s, fence := ElementSizes(n, sizes, false), p + SizeOf(got.mem, p);
    ElementFacts(s, n, sizes, false);
    GotInWord(got, p, n, sizes);
    hide SizeOf, HeapInv, RequestToSize, Live, Laid, Got, Moved, ElementSizes, PtrChunks, PtrsOk, AllSplit, Aligned, WordSize, PointsAt, Pointers;
    ElementPointers(h, h', p, n, sizes, fence, given);
    SplitPointers(h, h', p, s, fence, given);
    forall j | 0 <= j < n
      ensures given[j] >= 16 && given[j] - 16 in Live(h') && SizeOf(h'.mem, given[j] - 16) >= RequestToSize(sizes[j])
    {
      SplitBlock(h, h', p, s, fence, given, j);
    }
  }

  lemma GotInWord(got: Shape, p: nat, n: nat, sizes: seq<nat>)
    requires n <= |sizes| && Got(got, p, n, sizes, false, false)
    ensures p + SizeOf(got.mem, p) <= SIZE_LIMIT
  {
    hide HeapInv, SizeOf, RequestSize, AllInside, Total, ElementSizes;
    ChunkInWord(got, p);
  }

  lemma ManyBlocks(h: Shape, h': Shape, got: Shape, p: nat, n: nat, sizes: seq<nat>, given: seq<nat>, ptrs: seq<nat>, t: seq<Slot>,
                   ks: seq<nat>, ss: seq<Slot>)
    requires 0 < n == |sizes| == |given| == |ks| == |ss| && Got(got, p, n, sizes, false, false)
    requires AllDelivered(h, got, p, h', n, sizes, false, false, 0) && Pointers(given, p, n, sizes, false)
    requires Represents(h, ptrs, t) && NoDup(ks) && |ptrs| == |t| && Places(ks, |t|)
    requires forall j | 0 <= j < n :: t[ks[j]].Empty? && ss[j] == Held(sizes[j], map[])
    ensures Represents(h', Spread(ptrs, ks, given), Spread(t, ks, ss))
  {
    hide Represents, HeapInv, SizeOf, Cinuse, RequestToSize, Live, Got, AllDelivered, Pointers, Moved;
    DeliveredPointers(h, got, p, h', n, sizes, given);
    forall j | 0 <= j < n ensures Picked(ptrs, ks)[j] == 0 { SlotLive(h, ptrs, t, ks[j]); }
    NullPtrs(Picked(ptrs, ks));
    SlotsChanged(h, h', ptrs, t, ks, given, ss);
  }
}
