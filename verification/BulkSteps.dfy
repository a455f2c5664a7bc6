/** Arrays of pointers (hagen/src/malloc.c, `internal_bulk_free`). */
module BulkSteps {
  import opened Chunks
  import opened Tags
  import opened TagOps
  import opened Heap
  import opened HeapSteps
  import opened HeapOps
  import opened FreeSteps
  import opened ReallocSteps

  /** The chunks that the pointers of an array stand for; null pointers stand for none. */
  ghost function PtrChunks(s: seq<nat>): set<nat> {
    set x: nat | x in s && x >= 16 :: (x - 16) as nat
  }

  /** No pointer but null occurs twice. */
  ghost predicate PtrsOk(s: seq<nat>) {
    && (forall i | 0 <= i < |s| :: s[i] == 0 || s[i] >= 16)
    && (forall i, j | 0 <= i < j < |s| && s[i] != 0 :: s[i] != s[j])
  }

  lemma PtrIn(s: seq<nat>, i: nat)
    requires i < |s| && s[i] >= 16
    ensures s[i] - 16 in PtrChunks(s)
  {
    assert s[i] in s;
  }

  lemma PtrChunkOf(s: seq<nat>, p: nat)
    ensures p in PtrChunks(s) <==> p + 16 in s
  {
    if p in PtrChunks(s) { var x: nat :| x in s && x >= 16 && x - 16 == p; }
    if p + 16 in s { assert (p + 16) - 16 == p; }
  }

  lemma NullFirst(s: seq<nat>)
    requires |s| > 0 && PtrsOk(s) && s[0] == 0
    ensures PtrsOk(s[1..]) && PtrChunks(s[1..]) == PtrChunks(s)
  {
    forall p: nat ensures p in PtrChunks(s[1..]) <==> p in PtrChunks(s) {
      PtrChunkOf(s, p);
      PtrChunkOf(s[1..], p);
      assert s == [s[0]] + s[1..];
    }
  }

  lemma FirstFreed(s: seq<nat>)
    requires |s| > 0 && PtrsOk(s) && s[0] != 0
    ensures PtrsOk(s[1..]) && PtrChunks(s[1..]) == PtrChunks(s) - {s[0] - 16} && s[0] - 16 in PtrChunks(s)
  {
    forall p: nat ensures p in PtrChunks(s[1..]) <==> p in PtrChunks(s) && p != s[0] - 16 {
      PtrChunkOf(s, p);
      PtrChunkOf(s[1..], p);
      assert s == [s[0]] + s[1..];
      assert forall i | 0 < i < |s| :: s[i] != s[0];
    }
    PtrIn(s, 0);
  }

  /** The first pointer takes the place of the second. */
  lemma FirstJoined(s: seq<nat>)
    requires |s| > 1 && PtrsOk(s) && s[0] != 0 && s[1] != 0
    ensures var s' := s[1..][0 := s[0]];
            && PtrsOk(s') && PtrChunks(s') == PtrChunks(s) - {s[1] - 16}
            && s[0] - 16 in PtrChunks(s') && s[1] - 16 in PtrChunks(s) && s[0] != s[1]
  {
    hide PtrChunks;
    var s' := s[1..][0 := s[0]];
    assert forall i | 0 < i < |s'| :: s'[i] == s[i + 1];
    forall p: nat ensures p in PtrChunks(s') <==> p in PtrChunks(s) && p != s[1] - 16 {
      PtrChunkOf(s, p);
      PtrChunkOf(s', p);
      JoinedHolds(s, p + 16);
    }
    PtrIn(s', 0);
    PtrIn(s, 1);
  }

  lemma JoinedHolds(s: seq<nat>, x: nat)
    requires |s| > 1 && PtrsOk(s) && s[0] != 0 && s[1] != 0
    ensures x in s[1..][0 := s[0]] <==> x in s && x != s[1]
  {
    var s' := s[1..][0 := s[0]];
    if x in s' {
      var i :| 0 <= i < |s'| && s'[i] == x;
      assert x == s[if i == 0 then 0 else i + 1];
    }
    if x in s && x != s[1] {
      var i :| 0 <= i < |s| && s[i] == x;
      assert s'[if i == 0 then 0 else i - 1] == x;
    }
  }

  /** Two neighbouring chunks in use. */
  lemma Neighbours(h: Shape, p: nat, next: nat)
    requires HeapInv(h, {}) && p in Live(h) && next in Live(h) && next == p + SizeOf(h.mem, p)
    ensures var len := SizeOf(h.mem, next) + SizeOf(h.mem, p);
            && HeapInv(h, FreeOf(h.mem, {p, next})) && Run(h.chunks, p, len, {p, next}) && Border(h.chunks, h.top, p, len)
            && Cinuse(h.mem, p) && Aligned(len) && len >= MIN_CHUNK && LiveOf(h.mem, {p, next}) == {p, next}
  {
    hide HeapInv, SizeOf, Cinuse, Aligned;
    LiveChunk(h, p);
    LiveChunk(h, next);
    DvFactsOf(h, {});
    TwoRun(h, p, next);
    AlignedSum(SizeOf(h.mem, next), SizeOf(h.mem, p));
    assert FreeOf(h.mem, {p, next}) == {};
  }

  /** One more step of the loop: `all` are the chunks to free, `rest` those still in the array. */
  lemma BulkMoved(h: Shape, h1: Shape, h2: Shape, all: set<nat>, rest: set<nat>, a: set<nat>, b: set<nat>)
    requires Moved(h, h1, all, rest) && Moved(h1, h2, a, b) && all <= Live(h) && rest <= all && a <= rest && b <= a
    ensures Moved(h, h2, all, rest - a + b)
  {
    hide LiveKept, Cinuse;
    MovedThen(h, h1, h2, all, rest, a, b);
    assert all + (a - rest) == all;
  }

  lemma BulkStart(h: Shape, all: set<nat>)
    requires all <= Live(h)
    ensures Moved(h, h, all, all)
  {
    assert Live(h) - all + all == Live(h);
  }

  lemma RestIsLive(h: Shape, h1: Shape, all: set<nat>, rest: set<nat>)
    requires Moved(h, h1, all, rest)
    ensures rest <= Live(h1)
  {
  }
}
