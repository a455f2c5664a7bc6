/** Deep copies of page tables and their release (src/page.c:99-165). */
module Cloning {
  import opened Lists
  import opened Entries
  import opened Tables
  import opened Contents
  import opened Paging

  /* ---------------- how many pages a copy takes ---------------- */

  ghost function NeedBelow(w: Memory, tab: nat, i: nat, j: nat): nat
    decreases 512 - j
  {
    if j >= 512 then 0 else (if Has2(w, tab, i, j) then 1 else 0) + NeedBelow(w, tab, i, j + 1)
  }

  /** The pages below the root's entries from i on. */
  ghost function Need(w: Memory, tab: nat, i: nat): nat
    decreases 512 - i
  {
    if i >= 512 then 0 else (if Has3(w, tab, i) then 1 + NeedBelow(w, tab, i, 0) else 0) + Need(w, tab, i + 1)
  }

  /* ---------------- the state of the copy ---------------- */

  /** The first entries of `dest`, up to i, j, map as `src` does, and nothing else is mapped. */
  ghost predicate CopiedTo(w0: Memory, src: nat, v: Memory, dest: nat, i: nat, j: nat) {
    forall x: nat, y: nat, z: nat {:trigger MapAt(v, dest, x, y, z)} | x < 512 && y < 512 && z < 512 ::
      MapAt(v, dest, x, y, z) == if x < i || (x == i && y < j) then MapAt(w0, src, x, y, z) else Absent
  }

  /** What becomes of an entry that leads to a table: its access bits stay, but noexec is cleared. */
  ghost predicate RootCopied(e0: Entry, e: Entry) {
    if !e0.present then e == e0
    else && e.present && e.rw == e0.rw && e.isuser == e0.isuser && e.bit6 == e0.bit6 && !e.bit7 && !e.noexec
         && OthersKept(e0, e) && e.bit58 == e0.bit58 && e.pkey == e0.pkey
  }

  /** One level below users get through, to leaves that are closed to them. */
  ghost predicate MidCopied(e0: Entry, e: Entry) {
    && e.present == e0.present
    && (e.present ==> && e.rw == e0.rw && e.isuser && e.bit6 == e0.bit6 && !e.bit7 && !e.noexec
                      && OthersKept(e0, e) && e.bit58 == e0.bit58 && e.pkey == e0.pkey)
  }

  /** Of `dest`, n entries of the root are copied, those of the middle level up to i, jm, and the leaves
      up to i, jl; behind that nothing is there. */
  ghost predicate EntriesCopied(w0: Memory, src: nat, v: Memory, dest: nat, n: nat, i: nat, jm: nat, jl: nat) {
    && (forall x: nat {:trigger RootE(v, dest, x)} | x < n && x < 512 :: RootCopied(RootE(w0, src, x), RootE(v, dest, x)))
    && (forall x: nat, y: nat {:trigger MidE(v, dest, x, y)} | x < 512 && y < 512 ::
          if x < i || (x == i && y < jm) then MidCopied(MidE(w0, src, x, y), MidE(v, dest, x, y)) else !MidE(v, dest, x, y).present)
    && forall x: nat, y: nat, z: nat {:trigger LeafE(v, dest, x, y, z)} | x < 512 && y < 512 && z < 512 ::
         LeafE(v, dest, x, y, z) == if x < i || (x == i && y < jl) then LeafE(w0, src, x, y, z).(isuser := false) else ZERO
  }

  lemma EntriesStay(w0: Memory, src: nat, v: Memory, v': Memory, dest: nat, n: nat, i: nat, jm: nat, jl: nat)
    requires EntriesCopied(w0, src, v, dest, n, i, jm, jl) && SameContent(v, v', dest)
    ensures EntriesCopied(w0, src, v', dest, n, i, jm, jl)
  {
    hide RootE, MidE, LeafE, RootCopied, MidCopied;
    forall x: nat | x < n && x < 512 ensures RootCopied(RootE(w0, src, x), RootE(v', dest, x)) { assert RootE(v', dest, x) == RootE(v, dest, x); }
    forall x: nat, y: nat | x < 512 && y < 512
      ensures if x < i || (x == i && y < jm) then MidCopied(MidE(w0, src, x, y), MidE(v', dest, x, y)) else !MidE(v', dest, x, y).present
    {
      assert MidE(v', dest, x, y) == MidE(v, dest, x, y);
    }
    forall x: nat, y: nat, z: nat | x < 512 && y < 512 && z < 512 ensures LeafE(v', dest, x, y, z) == LeafE(v, dest, x, y, z) {}
  }

  /** The next entry of the root, and whether or not anything lies below it. */
  lemma RootNext(w0: Memory, src: nat, v: Memory, v': Memory, dest: nat, i: nat, e: Entry)
    requires i < 512 && EntriesCopied(w0, src, v, dest, i, i, 0, 0) && SameBut(v, v', dest, i, 512, 512, 512, 512, 512)
    requires RootE(v', dest, i) == e && RootCopied(RootE(w0, src, i), e)
    ensures EntriesCopied(w0, src, v', dest, i + 1, i, 0, 0)
    ensures !Has3(w0, src, i) ==> EntriesCopied(w0, src, v', dest, i + 1, i + 1, 0, 0)
  {
    hide RootE, RootCopied, MidCopied;
    EntriesStay2(w0, src, v, v', dest, i);
    if !Has3(w0, src, i) { NothingBelow(w0, src, v', dest, i); }
  }

  lemma EntriesStay2(w0: Memory, src: nat, v: Memory, v': Memory, dest: nat, i: nat)
    requires i < 512 && EntriesCopied(w0, src, v, dest, i, i, 0, 0) && SameBut(v, v', dest, i, 512, 512, 512, 512, 512)
    requires RootCopied(RootE(w0, src, i), RootE(v', dest, i))
    ensures EntriesCopied(w0, src, v', dest, i + 1, i, 0, 0)
  {
    hide RootE, MidE, LeafE, RootCopied, MidCopied;
    forall x: nat | x < i ensures RootCopied(RootE(w0, src, x), RootE(v', dest, x)) { assert RootE(v', dest, x) == RootE(v, dest, x); }
    forall x: nat, y: nat | x < 512 && y < 512
      ensures if x < i then MidCopied(MidE(w0, src, x, y), MidE(v', dest, x, y)) else !MidE(v', dest, x, y).present
    {
      assert MidE(v', dest, x, y) == MidE(v, dest, x, y);
    }
    forall x: nat, y: nat, z: nat | x < 512 && y < 512 && z < 512 ensures LeafE(v', dest, x, y, z) == LeafE(v, dest, x, y, z) {}
  }

  lemma NothingBelow(w0: Memory, src: nat, v: Memory, dest: nat, i: nat)
    requires i < 512 && EntriesCopied(w0, src, v, dest, i + 1, i, 0, 0) && !Has3(w0, src, i)
    ensures EntriesCopied(w0, src, v, dest, i + 1, i + 1, 0, 0)
  {
    forall y: nat | y < 512 ensures MidE(w0, src, i, y) == ZERO && !Has2(w0, src, i, y) {}
    hide RootE, RootCopied, Ent, At;
    forall x: nat, y: nat | x < 512 && y < 512
      ensures if x < i + 1 then MidCopied(MidE(w0, src, x, y), MidE(v, dest, x, y)) else !MidE(v, dest, x, y).present
    {
      assert x == i ==> !MidE(v, dest, x, y).present;
    }
    forall x: nat, y: nat, z: nat | x < 512 && y < 512 && z < 512
      ensures LeafE(v, dest, x, y, z) == if x < i + 1 then LeafE(w0, src, x, y, z).(isuser := false) else ZERO
    {
      assert x == i ==> LeafE(w0, src, x, y, z) == ZERO;
    }
  }

  /** The next entry of the middle level. */
  lemma MidNext(w0: Memory, src: nat, v: Memory, v': Memory, dest: nat, i: nat, j: nat)
    requires i < 512 && j < 512 && EntriesCopied(w0, src, v, dest, i + 1, i, j, j) && SameBut(v, v', dest, 512, i, j, 512, 512, 512)
    requires MidCopied(MidE(w0, src, i, j), MidE(v', dest, i, j))
    ensures EntriesCopied(w0, src, v', dest, i + 1, i, j + 1, j)
    ensures !Has2(w0, src, i, j) ==> EntriesCopied(w0, src, v', dest, i + 1, i, j + 1, j + 1)
  {
    forall z: nat | z < 512 ensures !Has2(w0, src, i, j) ==> LeafE(w0, src, i, j, z) == ZERO {}
    hide RootE, MidE, LeafE, RootCopied, MidCopied, Has2;
    forall x: nat | x < i + 1 ensures RootCopied(RootE(w0, src, x), RootE(v', dest, x)) { assert RootE(v', dest, x) == RootE(v, dest, x); }
    forall x: nat, y: nat | x < 512 && y < 512
      ensures if x < i || (x == i && y < j + 1) then MidCopied(MidE(w0, src, x, y), MidE(v', dest, x, y)) else !MidE(v', dest, x, y).present
    {
      assert (x == i && y == j) || MidE(v', dest, x, y) == MidE(v, dest, x, y);
    }
    forall x: nat, y: nat, z: nat | x < 512 && y < 512 && z < 512 ensures LeafE(v', dest, x, y, z) == LeafE(v, dest, x, y, z) {}
  }

  /** The leaves of that entry. */
  lemma LeavesNext(w0: Memory, src: nat, v: Memory, v': Memory, dest: nat, i: nat, j: nat, q: nat)
    requires i < 512 && j < 512 && EntriesCopied(w0, src, v, dest, i + 1, i, j + 1, j)
    requires RootsBut(v, v', dest, 512) && MidsBut(v, v', dest, 512, 512)
    requires forall x: nat, y: nat, z: nat {:trigger LeafE(v', dest, x, y, z)} | x < 512 && y < 512 && z < 512 ::
               LeafE(v', dest, x, y, z) == if x == i && y == j then Ent(v', At(q, z)) else LeafE(v, dest, x, y, z)
    requires forall z: nat {:trigger Ent(v', At(q, z))} | z < 512 :: Ent(v', At(q, z)) == LeafE(w0, src, i, j, z).(isuser := false)
    ensures EntriesCopied(w0, src, v', dest, i + 1, i, j + 1, j + 1)
  {
    hide RootE, MidE, LeafE, RootCopied, MidCopied, Ent, At;
    forall x: nat | x < i + 1 ensures RootCopied(RootE(w0, src, x), RootE(v', dest, x)) { assert RootE(v', dest, x) == RootE(v, dest, x); }
    forall x: nat, y: nat | x < 512 && y < 512
      ensures if x < i || (x == i && y < j + 1) then MidCopied(MidE(w0, src, x, y), MidE(v', dest, x, y)) else !MidE(v', dest, x, y).present
    {
      assert MidE(v', dest, x, y) == MidE(v, dest, x, y);
    }
    forall x: nat, y: nat, z: nat | x < 512 && y < 512 && z < 512
      ensures LeafE(v', dest, x, y, z) == if x < i || (x == i && y < j + 1) then LeafE(w0, src, x, y, z).(isuser := false) else ZERO
    {
      assert x == i && y == j ==> Ent(v', At(q, z)) == LeafE(w0, src, i, j, z).(isuser := false);
    }
  }

  /** All 512 columns of region i. */
  lemma RegionDone(w0: Memory, src: nat, v: Memory, dest: nat, i: nat)
    requires i < 512 && EntriesCopied(w0, src, v, dest, i + 1, i, 512, 512)
    ensures EntriesCopied(w0, src, v, dest, i + 1, i + 1, 0, 0)
  {
    hide RootE, MidE, LeafE, RootCopied, MidCopied;
  }

  /** `dest` with its root cut off at n is a table of its own, made of pages of the pool. */
  ghost predicate Copying(w0: Memory, free0: seq<nat>, w: Memory, free: seq<nat>, src: nat, dest: nat, n: nat) {
    && PageOk(dest) && dest !in Pages(w0, src) && dest !in free0
    && WfTab(w0, src) && Pages(w0, src) !! Elems(free0) && PoolOk(free0)
    && |free| <= |free0| && free == free0[..|free|]
    && OnlyPages(w0, w, {dest} + Elems(free0[|free|..]))
    && WfTab(Trim(w, dest, n), dest) && Pages(Trim(w, dest, n), dest) == {dest} + Elems(free0[|free|..])
  }

  /** Pages taken from the pool are none of the source's. */
  lemma SourceKept(w0: Memory, free0: seq<nat>, w: Memory, free: seq<nat>, src: nat, dest: nat, n: nat)
    requires Copying(w0, free0, w, free, src, dest, n)
    ensures SameOn(w0, w, Pages(w0, src)) && SameShape(w0, w, src) && SameMap(w0, w, src) && WfTab(w, src)
    ensures Pages(w, src) == Pages(w0, src)
  {
    var s := {dest} + Elems(free0[|free|..]);
    assert Elems(free0[|free|..]) <= Elems(free0);
    hide Pages, OnlyPages;
    OnlyKeeps(w0, w, s, Pages(w0, src));
    TableKept(w0, w, src);
  }

  /** What is left of the pool has not been used. */
  lemma LeftApart(free0: seq<nat>, free: seq<nat>)
    requires PoolOk(free0) && |free| <= |free0| && free == free0[..|free|]
    ensures Elems(free) !! Elems(free0[|free|..]) && PoolOk(free) && Elems(free) <= Elems(free0)
    ensures free != [] ==> free[|free| - 1] in free0
  {
    forall p | p in free ensures p !in free0[|free|..] && p in free0 {
      var k :| 0 <= k < |free| && free[k] == p;
      assert free0[k] == p;
      assert forall l | 0 <= l < |free0[|free|..]| :: free0[|free|..][l] == free0[l + |free|] != p;
    }
  }

  /** One more page has been taken. */
  lemma OneTaken(free0: seq<nat>, free: seq<nat>, free': seq<nat>, p: nat)
    requires |free| <= |free0| && free == free0[..|free|] && free == free' + [p]
    ensures free' == free0[..|free'|] && Elems(free0[|free'|..]) == Elems(free0[|free|..]) + {p}
  {
    assert free0[|free'|..] == [p] + free0[|free|..];
  }

  /* ---------------- the innermost loop ---------------- */

  /** The 512 leaves of a page, with isuser cleared. */
  method CopyLeaves(pg: Pager, from: nat, to: nat)
    requires from % PAGE == 0 && to % PAGE == 0 && from != to
    modifies pg`words
    ensures OnlyPages(old(pg.words), pg.words, {to})
    ensures forall k: nat {:trigger Ent(pg.words, At(to, k))} | k < 512 ::
              Ent(pg.words, At(to, k)) == old(Ent(pg.words, At(from, k))).(isuser := false)
  {
    hide At, Ent, OnlyPages;
    ghost var w := pg.words;
    var i := 0;
    NothingWritten(w, {to});
    while i < 512
      invariant i <= 512 && OnlyPages(w, pg.words, {to})
      invariant forall k: nat {:trigger Ent(pg.words, At(to, k))} | k < i ::
                  Ent(pg.words, At(to, k)) == Ent(w, At(from, k)).(isuser := false)
    {
      ghost var w1 := pg.words;
      SameElsewhere(w, w1, to, from, i);
      ghost var e := Ent(w1, At(from, i)).(isuser := false);
      pg.words := pg.words[At(to, i) := Ent(pg.words, At(from, i)).(isuser := false)];
      OnlyOne(w1, to, i, e);
      OnlyThen(w, w1, pg.words, {to}, {to});
      assert {to} + {to} == {to};
      forall k: nat | k < i + 1 ensures Ent(pg.words, At(to, k)) == Ent(w, At(from, k)).(isuser := false) {
        OtherEntry(w1, to, i, e, to, k);
      }
      i := i + 1;
    }
  }

  lemma NothingWritten(w: Memory, s: set<nat>)
    ensures OnlyPages(w, w, s)
  {
  }

  /* ---------------- one entry of the middle level ---------------- */

  /** A page `p` from the pool has been blanked while entry k of the page `q` held something else;
      with the entry put back, only the new page has changed. */
  lemma Restored(w: Memory, q: nat, k: nat, e: Entry, w1: Memory, p: nat, e': Entry)
    requires q % PAGE == 0 && k < 512 && p != q && p % PAGE == 0
    requires OnlyPages(w[At(q, k) := e], w1, {p}) && Blank(w1, p)
    ensures var u := w1[At(q, k) := Ent(w, At(q, k))];
            OnlyPages(w, u, {p}) && Blank(u, p) && w1[At(q, k) := e'] == u[At(q, k) := e']
    ensures Ent(w1, At(q, k)) == e
  {
    var u := w1[At(q, k) := Ent(w, At(q, k))];
    forall r: nat, l: nat | r % PAGE == 0 && r !in {p} && l < 512 ensures Ent(u, At(r, l)) == Ent(w, At(r, l)) {
      OtherEntry(w1, q, k, Ent(w, At(q, k)), r, l);
      OtherEntry(w, q, k, e, r, l);
      SameElsewhere(w[At(q, k) := e], w1, p, r, l);
    }
    forall l: nat | l < 512 ensures Ent(u, At(p, l)) == ZERO { OtherEntry(w1, q, k, Ent(w, At(q, k)), p, l); }
    OtherEntry(w, q, k, e, q, k);
    SameElsewhere(w[At(q, k) := e], w1, p, q, k);
  }

  /** The loop over the middle table `p` of region i stands at j. */
  ghost predicate Middle(w0: Memory, free0: seq<nat>, w: Memory, free: seq<nat>, src: nat, dest: nat, i: nat, j: nat, p: nat) {
    && Copying(w0, free0, w, free, src, dest, i + 1)
    && var v := Trim(w, dest, i + 1);
       && Has3(v, dest, i) && T3(v, dest, i) == p && CopiedTo(w0, src, v, dest, i, j) && EntriesCopied(w0, src, v, dest, i + 1, i, j, j)
       && forall y: nat | j <= y < 512 :: !Has2(v, dest, i, y)
  }

  /** As it does with a new page `q` hung in for j, not yet filled. */
  ghost predicate Hung(w0: Memory, free0: seq<nat>, w: Memory, free: seq<nat>, src: nat, dest: nat, i: nat, j: nat, p: nat, q: nat) {
    && Copying(w0, free0, w, free, src, dest, i + 1)
    && var v := Trim(w, dest, i + 1);
       && Has3(v, dest, i) && T3(v, dest, i) == p && CopiedTo(w0, src, v, dest, i, j) && EntriesCopied(w0, src, v, dest, i + 1, i, j + 1, j)
       && Has2(v, dest, i, j) && T2(v, dest, i, j) == q
       && forall y: nat | j < y < 512 :: !Has2(v, dest, i, y)
  }

  /** The places that are being written. */
  lemma MiddlePages(w0: Memory, free0: seq<nat>, w: Memory, free: seq<nat>, src: nat, dest: nat, i: nat, j: nat, p: nat)
    requires Middle(w0, free0, w, free, src, dest, i, j, p) && i < 512 && j < 512
    ensures PageOk(p) && p != dest && p in {dest} + Elems(free0[|free|..]) && PageOk(dest)
    ensures WfTab(Trim(w, dest, i + 1), dest)
  {
    hide Trim, Has3, T3, Has2, CopiedTo, OnlyPages, Pages;
    BelowTop(Trim(w, dest, i + 1), dest, i, j);
  }

  lemma MiddleAbsent(w0: Memory, free0: seq<nat>, w: Memory, free: seq<nat>, src: nat, dest: nat, i: nat, j: nat, p: nat, e: Entry)
    requires i < 512 && j < 512 && !e.present && !Has2(w0, src, i, j)
    requires MidCopied(MidE(w0, src, i, j), e)
    requires Middle(w0, free0, w, free, src, dest, i, j, p)
    ensures Middle(w0, free0, w[At(p, j) := e], free, src, dest, i, j + 1, p)
  {
    hide Trim, CopiedTo, EntriesCopied, Pages, OnlyPages, Has3, T3, Has2, WfTab, At, Ent, MapAt, SameShape, SameMap, SameBut, MidE, MidCopied;
    MiddlePages(w0, free0, w, free, src, dest, i, j, p);
    var v, w' := Trim(w, dest, i + 1), w[At(p, j) := e];
    TrimOther(w, dest, i + 1, p, j, e);
    var v' := Trim(w', dest, i + 1);
    AbsentMiddle(v, dest, i, j, e);
    MidWritten(v, dest, i, j, e);
    MidNext(w0, src, v, v', dest, i, j);
    ShapeTables(v, v', dest);
    PagesOf(v, v', dest);
    WroteTaken(w0, free0, w, free, dest, p, j, e);
    NextColumn(w0, src, v, v', dest, i, j);
    ShapeKeeps(v, v', dest, i, j, p);
  }

  lemma PagesOf(v: Memory, v': Memory, tab: nat)
    requires Tables3(v', tab) == Tables3(v, tab) && Tables2(v', tab) == Tables2(v, tab)
    ensures Pages(v', tab) == Pages(v, tab)
  {
  }

  lemma ShapeKeeps(v: Memory, v': Memory, tab: nat, i: nat, j: nat, p: nat)
    requires SameShape(v, v', tab) && i < 512 && j < 512 && Has3(v, tab, i) && T3(v, tab, i) == p
    requires forall y: nat | j <= y < 512 :: !Has2(v, tab, i, y)
    ensures Has3(v', tab, i) && T3(v', tab, i) == p && forall y: nat | j <= y < 512 :: !Has2(v', tab, i, y)
  {
    hide Has3, Has2, T3;
  }

  /** A write to one of the pages taken. */
  lemma WroteTaken(w0: Memory, free0: seq<nat>, w: Memory, free: seq<nat>, dest: nat, p: nat, j: nat, e: Entry)
    requires |free| <= |free0| && p in {dest} + Elems(free0[|free|..]) && p % PAGE == 0 && j < 512
    requires OnlyPages(w0, w, {dest} + Elems(free0[|free|..]))
    ensures OnlyPages(w0, w[At(p, j) := e], {dest} + Elems(free0[|free|..]))
  {
    var s := {dest} + Elems(free0[|free|..]);
    hide At, Ent, OnlyPages;
    OnlyOne(w, p, j, e);
    OnlyThen(w0, w, w[At(p, j) := e], s, {p});
    assert s + {p} == s;
  }

  lemma NextColumn(w0: Memory, src: nat, v: Memory, v': Memory, dest: nat, i: nat, j: nat)
    requires CopiedTo(w0, src, v, dest, i, j) && SameMap(v, v', dest) && i < 512 && j < 512 && !Has2(w0, src, i, j)
    ensures CopiedTo(w0, src, v', dest, i, j + 1)
  {
    hide Has2;
    forall x: nat, y: nat, z: nat | x < 512 && y < 512 && z < 512
      ensures MapAt(v', dest, x, y, z) == if x < i || (x == i && y < j + 1) then MapAt(w0, src, x, y, z) else Absent
    {
      assert MapAt(v', dest, x, y, z) == MapAt(v, dest, x, y, z);
    }
  }

  /** What a page from the pool is apart from. */
  lemma TakenFacts(w0: Memory, free0: seq<nat>, w: Memory, free: seq<nat>, src: nat, dest: nat, n: nat, free': seq<nat>, q: nat)
    requires Copying(w0, free0, w, free, src, dest, n) && free == free' + [q]
    ensures PageOk(q) && q != dest && q !in Pages(w0, src) && q !in {dest} + Elems(free0[|free|..])
    ensures q !in Pages(Trim(w, dest, n), dest)
    ensures free' == free0[..|free'|] && Elems(free0[|free'|..]) == Elems(free0[|free|..]) + {q} && |free'| <= |free0|
  {
    hide Trim, OnlyPages, Pages, WfTab;
    LeftApart(free0, free);
    assert q == free[|free| - 1] && q in free && q in Elems(free) && q in Elems(free0);
    OneTaken(free0, free, free', q);
  }

  /** Blanking a page from the pool changes nothing in the copy. */
  lemma BlankedApart(w: Memory, u: Memory, dest: nat, n: nat, q: nat)
    requires WfTab(Trim(w, dest, n), dest) && OnlyPages(w, u, {q}) && Blank(u, q) && PageOk(q) && PageOk(dest)
    requires q !in Pages(Trim(w, dest, n), dest)
    ensures var v, vu := Trim(w, dest, n), Trim(u, dest, n);
            && SameShape(v, vu, dest) && SameMap(v, vu, dest) && WfTab(vu, dest) && Pages(vu, dest) == Pages(v, dest) && Blank(vu, q)
            && SameContent(v, vu, dest)
  {
    var v, vu := Trim(w, dest, n), Trim(u, dest, n);
    assert q != dest;
    TrimOnly(w, u, dest, n, {q});
    OnlyKeeps(v, vu, {q}, Pages(v, dest));
    forall k: nat | k < 512 ensures Ent(vu, At(q, k)) == ZERO { TrimEnt(u, dest, n, q, k); }
    hide Trim, Pages, Ent, At, OnlyPages;
    TableKept(v, vu, dest);
    ContentKept(v, vu, dest);
  }

  lemma MapsAsBefore(w0: Memory, src: nat, v: Memory, v': Memory, dest: nat, i: nat, j: nat)
    requires CopiedTo(w0, src, v, dest, i, j) && SameMap(v, v', dest)
    ensures CopiedTo(w0, src, v', dest, i, j)
  {
    forall x: nat, y: nat, z: nat | x < 512 && y < 512 && z < 512
      ensures MapAt(v', dest, x, y, z) == if x < i || (x == i && y < j) then MapAt(w0, src, x, y, z) else Absent
    {
      assert MapAt(v', dest, x, y, z) == MapAt(v, dest, x, y, z);
    }
  }

  lemma MiddleHang(w0: Memory, free0: seq<nat>, w: Memory, free: seq<nat>, src: nat, dest: nat, i: nat, j: nat, p: nat,
                   u: Memory, free': seq<nat>, q: nat, e: Entry)
    requires i < 512 && j < 512 && e.present && GetPaddr(e) == q && free == free' + [q]
    requires OnlyPages(w, u, {q}) && Blank(u, q)
    requires MidCopied(MidE(w0, src, i, j), e)
    requires Middle(w0, free0, w, free, src, dest, i, j, p)
    ensures Hung(w0, free0, u[At(p, j) := e], free', src, dest, i, j, p, q)
    ensures PageOk(q) && q !in Pages(w0, src) && q != dest && q != p
  {
    hide Trim, CopiedTo, EntriesCopied, Pages, OnlyPages, Has3, T3, T2, Has2, WfTab, At, Ent, MapAt, SameShape, SameMap, Blank, HungMiddle, SameBut, MidE, MidCopied;
    MiddlePages(w0, free0, w, free, src, dest, i, j, p);
    TakenFacts(w0, free0, w, free, src, dest, i + 1, free', q);
    var v, vu, w' := Trim(w, dest, i + 1), Trim(u, dest, i + 1), u[At(p, j) := e];
    BlankedApart(w, u, dest, i + 1, q);
    ShapeKeeps(v, vu, dest, i, j, p);
    TrimOther(u, dest, i + 1, p, j, e);
    HangMiddle(vu, dest, i, j, e, q);
    EntriesStay(w0, src, v, vu, dest, i + 1, i, j, j);
    MidWritten(vu, dest, i, j, e);
    MidNext(w0, src, vu, Trim(w', dest, i + 1), dest, i, j);
    MapsAsBefore(w0, src, v, vu, dest, i, j);
    MapsAsBefore(w0, src, vu, Trim(w', dest, i + 1), dest, i, j);
    HungKeeps(vu, Trim(w', dest, i + 1), dest, i, j, p, q);
    WroteNew(w0, free0, w, free, dest, free', u, q, p, j, e);
    assert {dest} + Elems(free0[|free|..]) + {q} == {dest} + Elems(free0[|free'|..]);
  }

  lemma HungKeeps(v: Memory, v': Memory, tab: nat, i: nat, j: nat, p: nat, q: nat)
    requires HungMiddle(v, v', tab, i, j, q) && i < 512 && j < 512 && Has3(v, tab, i) && T3(v, tab, i) == p
    requires forall y: nat | j <= y < 512 :: !Has2(v, tab, i, y)
    ensures Has3(v', tab, i) && T3(v', tab, i) == p && forall y: nat | j < y < 512 :: !Has2(v', tab, i, y)
  {
    hide Has3, Has2, T3, T2;
  }

  lemma WroteNew(w0: Memory, free0: seq<nat>, w: Memory, free: seq<nat>, dest: nat, free': seq<nat>, u: Memory, q: nat,
                 p: nat, j: nat, e: Entry)
    requires |free| <= |free0| && |free'| <= |free0| && OnlyPages(w0, w, {dest} + Elems(free0[|free|..])) && OnlyPages(w, u, {q})
    requires Elems(free0[|free'|..]) == Elems(free0[|free|..]) + {q}
    requires p in {dest} + Elems(free0[|free|..]) && p % PAGE == 0 && j < 512
    ensures OnlyPages(w0, u[At(p, j) := e], {dest} + Elems(free0[|free'|..]))
  {
    var s := {dest} + Elems(free0[|free|..]);
    hide At, Ent, OnlyPages;
    OnlyThen(w0, w, u, s, {q});
    assert s + {q} == {dest} + Elems(free0[|free'|..]);
    WroteTaken(w0, free0, u, free', dest, p, j, e);
  }

  /** The new page holds copies of the source's leaves. */
  lemma MiddleFill(w0: Memory, free0: seq<nat>, w: Memory, free: seq<nat>, src: nat, dest: nat, i: nat, j: nat, p: nat, q: nat, w': Memory)
    requires i < 512 && j < 512 && Has2(w0, src, i, j) && OnlyPages(w, w', {q}) && PageOk(q) && q != dest
    requires forall k: nat {:trigger Ent(w', At(q, k))} | k < 512 ::
               Ent(w', At(q, k)) == Ent(w, At(T2(w0, src, i, j), k)).(isuser := false)
    requires Hung(w0, free0, w, free, src, dest, i, j, p, q)
    ensures Middle(w0, free0, w', free, src, dest, i, j + 1, p)
  {
    hide Trim, CopiedTo, EntriesCopied, Pages, OnlyPages, Has3, T3, T2, Has2, WfTab, At, Ent, MapAt, SameShape, SameMap, GetPaddr, LeavesFilled, RootE, MidE, LeafE;
    var v, v' := Trim(w, dest, i + 1), Trim(w', dest, i + 1);
    TrimOnly(w, w', dest, i + 1, {q});
    FillLeaves(v, v', dest, i, j);
    LeavesWritten(v, v', dest, i, j);
    FilledEntries(w0, free0, w, free, src, dest, i, j, p, q, w');
    LeavesNext(w0, src, v, v', dest, i, j, q);
    ShapeTables(v, v', dest);
    PagesOf(v, v', dest);
    HungPage(w0, free0, w, free, src, dest, i, j, p, q);
    var s := {dest} + Elems(free0[|free|..]);
    OnlyThen(w0, w, w', s, {q});
    assert s + {q} == s;
    ShapeKeeps2(v, v', dest, i, j, p);
    FilledColumn(w0, free0, w, free, src, dest, i, j, p, q, w');
  }

  lemma HungPage(w0: Memory, free0: seq<nat>, w: Memory, free: seq<nat>, src: nat, dest: nat, i: nat, j: nat, p: nat, q: nat)
    requires i < 512 && j < 512 && Hung(w0, free0, w, free, src, dest, i, j, p, q)
    ensures q in {dest} + Elems(free0[|free|..])
  {
    hide Trim, CopiedTo, EntriesCopied, OnlyPages, Has3, T3, T2, Has2;
    BelowTop(Trim(w, dest, i + 1), dest, i, j);
  }

  lemma ShapeKeeps2(v: Memory, v': Memory, tab: nat, i: nat, j: nat, p: nat)
    requires SameShape(v, v', tab) && i < 512 && j < 512 && Has3(v, tab, i) && T3(v, tab, i) == p
    requires forall y: nat | j < y < 512 :: !Has2(v, tab, i, y)
    ensures Has3(v', tab, i) && T3(v', tab, i) == p && forall y: nat | j + 1 <= y < 512 :: !Has2(v', tab, i, y)
  {
    hide Has3, Has2, T3;
  }

  lemma FilledColumn(w0: Memory, free0: seq<nat>, w: Memory, free: seq<nat>, src: nat, dest: nat, i: nat, j: nat, p: nat, q: nat, w': Memory)
    requires i < 512 && j < 512 && Has2(w0, src, i, j) && q % PAGE == 0 && q != dest
    requires forall k: nat {:trigger Ent(w', At(q, k))} | k < 512 ::
               Ent(w', At(q, k)) == Ent(w, At(T2(w0, src, i, j), k)).(isuser := false)
    requires LeavesFilled(Trim(w, dest, i + 1), Trim(w', dest, i + 1), dest, i, j, q)
    requires Hung(w0, free0, w, free, src, dest, i, j, p, q)
    ensures CopiedTo(w0, src, Trim(w', dest, i + 1), dest, i, j + 1)
  {
    hide Trim, Pages, OnlyPages, Has3, T3, WfTab, At, Ent, SameShape, SameMap, GetPaddr;
    var v, v' := Trim(w, dest, i + 1), Trim(w', dest, i + 1);
    SourceKept(w0, free0, w, free, src, dest, i + 1);
    assert WfTab(w0, src) && SameOn(w0, w, Pages(w0, src)) && PageOk(dest);
    BelowTop(w0, src, i, j);
    forall x: nat, y: nat, z: nat | x < 512 && y < 512 && z < 512
      ensures MapAt(v', dest, x, y, z) == if x < i || (x == i && y < j + 1) then MapAt(w0, src, x, y, z) else Absent
    {
      if x == i && y == j {
        SameEntry(w0, w, Pages(w0, src), T2(w0, src, i, j), z);
        TrimEnt(w', dest, i + 1, q, z);
        SameAddress(Ent(w', At(q, z)), Ent(w0, At(T2(w0, src, i, j), z)));
      } else {
        assert MapAt(v', dest, x, y, z) == MapAt(v, dest, x, y, z);
      }
    }
  }

  lemma FilledEntries(w0: Memory, free0: seq<nat>, w: Memory, free: seq<nat>, src: nat, dest: nat, i: nat, j: nat, p: nat, q: nat, w': Memory)
    requires i < 512 && j < 512 && Has2(w0, src, i, j) && q % PAGE == 0 && q != dest
    requires forall k: nat {:trigger Ent(w', At(q, k))} | k < 512 ::
               Ent(w', At(q, k)) == Ent(w, At(T2(w0, src, i, j), k)).(isuser := false)
    requires Hung(w0, free0, w, free, src, dest, i, j, p, q)
    ensures forall z: nat {:trigger Ent(Trim(w', dest, i + 1), At(q, z))} | z < 512 ::
              Ent(Trim(w', dest, i + 1), At(q, z)) == LeafE(w0, src, i, j, z).(isuser := false)
  {
    hide Trim, Pages, OnlyPages, Has3, T3, WfTab, At, Ent, SameShape, SameMap, GetPaddr, CopiedTo, EntriesCopied;
    SourceKept(w0, free0, w, free, src, dest, i + 1);
    assert WfTab(w0, src) && SameOn(w0, w, Pages(w0, src)) && PageOk(dest);
    BelowTop(w0, src, i, j);
    forall z: nat | z < 512 ensures Ent(Trim(w', dest, i + 1), At(q, z)) == LeafE(w0, src, i, j, z).(isuser := false) {
      SameEntry(w0, w, Pages(w0, src), T2(w0, src, i, j), z);
      TrimEnt(w', dest, i + 1, q, z);
    }
  }

  /** The middle loop: the table `from` of the source's region i is copied to the blank page `p`. */
  method CopyMiddle(pg: Pager, src: nat, dest: nat, i: nat, from: nat, p: nat, ghost w0: Memory, ghost free0: seq<nat>)
    requires i < 512 && Has3(w0, src, i) && from == T3(w0, src, i) && |pg.pool| >= NeedBelow(w0, src, i, 0)
    requires Middle(w0, free0, pg.words, pg.pool, src, dest, i, 0, p)
    modifies pg`words, pg`pool
    ensures Middle(w0, free0, pg.words, pg.pool, src, dest, i, 512, p)
    ensures |pg.pool| == |old(pg.pool)| - NeedBelow(w0, src, i, 0)
  {
    hide Trim, CopiedTo, EntriesCopied, Pages, OnlyPages, Has3, T3, T2, Has2, WfTab, At, Ent, MapAt, GetPaddr, SetPaddr, Middle, Hung, Blank,
         Copying, PoolOk, MidE, MidCopied;
    var j := 0;
    while j < 512
      invariant j <= 512 && Middle(w0, free0, pg.words, pg.pool, src, dest, i, j, p)
      invariant |pg.pool| == |old(pg.pool)| - NeedBelow(w0, src, i, 0) + NeedBelow(w0, src, i, j)
      modifies pg`words, pg`pool
    {
      ghost var w, free := pg.words, pg.pool;
      MiddleFacts(w0, free0, w, free, src, dest, i, j, p);
      ghost var e := Ent(w, At(from, j)).(isuser := true);
      ghost var e0 := Ent(w, At(from, j));
      pg.words := pg.words[At(p, j) := Ent(pg.words, At(from, j))];
      pg.words := pg.words[At(p, j) := Ent(pg.words, At(p, j)).(isuser := true)];
      WrittenTwice(w, At(p, j), Ent(w, At(from, j)), e);
      WrittenTwice(w, At(p, j), e, e);
      if Ent(pg.words, At(p, j)).present {
        var pdFrom := GetPaddr(Ent(pg.words, At(from, j)));
        ghost var w1 := pg.words;
        var q := pg.AllocPage();
        ghost var w2 := pg.words;
        FreshIsApart(w0, free0, w, free, src, dest, i, j, p, pg.pool, q);
        Restored(w, p, j, e, w2, q, SetPaddr(e, q));
        pg.words := pg.words[At(p, j) := SetPaddr(Ent(pg.words, At(p, j)), q)];
        AddressSet(e, q, SetPaddr(e, q));
        MidIsCopied(e0, q);
        ghost var u := w2[At(p, j) := Ent(w, At(p, j))];
        MiddleHang(w0, free0, w, free, src, dest, i, j, p, u, pg.pool, q, SetPaddr(e, q));
        SourceLeaves(w0, free0, pg.words, pg.pool, src, dest, i, j, p, q);
        ghost var w3 := pg.words;
        OtherEntry(w, p, j, e, from, j);
        CopyLeaves(pg, pdFrom, q);
        MiddleFill(w0, free0, w3, pg.pool, src, dest, i, j, p, q, pg.words);
      } else {
        MidNotThere(e0);
        MiddleAbsent(w0, free0, w, free, src, dest, i, j, p, e);
      }
      j := j + 1;
    }
  }

  lemma MidIsCopied(e0: Entry, q: nat)
    ensures e0.present ==> MidCopied(e0, SetPaddr(e0.(isuser := true), q))
  {
  }

  lemma MidNotThere(e0: Entry)
    ensures !e0.present ==> MidCopied(e0, e0.(isuser := true))
  {
  }

  lemma RootIsCopied(e0: Entry, q: nat)
    ensures RootCopied(e0, if e0.present then SetPaddr(e0, q) else e0)
  {
  }

  /** What the loop reads from the source is what was there at the start. */
  lemma MiddleFacts(w0: Memory, free0: seq<nat>, w: Memory, free: seq<nat>, src: nat, dest: nat, i: nat, j: nat, p: nat)
    requires i < 512 && j < 512 && Has3(w0, src, i) && Middle(w0, free0, w, free, src, dest, i, j, p)
    ensures var from := T3(w0, src, i);
            && PageOk(p) && PageOk(from) && from != p
            && Ent(w, At(from, j)) == Ent(w0, At(from, j))
            && (Has2(w0, src, i, j) <==> Ent(w, At(from, j)).present)
            && (Has2(w0, src, i, j) ==> T2(w0, src, i, j) == GetPaddr(Ent(w, At(from, j))))
    ensures PoolOk(free)
    ensures NeedBelow(w0, src, i, j) == (if Has2(w0, src, i, j) then 1 else 0) + NeedBelow(w0, src, i, j + 1)
    ensures MidE(w0, src, i, j) == Ent(w, At(T3(w0, src, i), j))
  {
    MiddlePages(w0, free0, w, free, src, dest, i, j, p);
    SourceKept(w0, free0, w, free, src, dest, i + 1);
    LeftApart(free0, free);
    BelowTop(w0, src, i, j);
    SameEntry(w0, w, Pages(w0, src), T3(w0, src, i), j);
    assert Elems(free0[|free|..]) <= Elems(free0);
    hide Trim, CopiedTo, EntriesCopied, OnlyPages, Pages, MapAt, Ent, At, GetPaddr, NotShared;
  }

  lemma FreshIsApart(w0: Memory, free0: seq<nat>, w: Memory, free: seq<nat>, src: nat, dest: nat, i: nat, j: nat, p: nat, free': seq<nat>, q: nat)
    requires i < 512 && j < 512 && free == free' + [q] && Middle(w0, free0, w, free, src, dest, i, j, p)
    ensures q != p && PageOk(q) && PageOk(p)
  {
    hide Trim, CopiedTo, EntriesCopied, OnlyPages, Pages;
    MiddlePages(w0, free0, w, free, src, dest, i, j, p);
    TakenFacts(w0, free0, w, free, src, dest, i + 1, free', q);
  }

  /** The source's leaf page is another one than the new page. */
  lemma SourceLeaves(w0: Memory, free0: seq<nat>, w: Memory, free: seq<nat>, src: nat, dest: nat, i: nat, j: nat, p: nat, q: nat)
    requires i < 512 && j < 512 && Has2(w0, src, i, j) && q !in Pages(w0, src) && Hung(w0, free0, w, free, src, dest, i, j, p, q)
    ensures PageOk(T2(w0, src, i, j)) && T2(w0, src, i, j) != q
  {
    BelowTop(w0, src, i, j);
  }

  /* ---------------- the outer loop ---------------- */

  ghost predicate Outer(w0: Memory, free0: seq<nat>, w: Memory, free: seq<nat>, src: nat, dest: nat, i: nat) {
    && Copying(w0, free0, w, free, src, dest, i) && CopiedTo(w0, src, Trim(w, dest, i), dest, i, 0)
    && EntriesCopied(w0, src, Trim(w, dest, i), dest, i, i, 0, 0)
  }

  lemma OuterStart(w: Memory, free: seq<nat>, src: nat, dest: nat)
    requires PageOk(dest) && dest !in Pages(w, src) && dest !in free && WfTab(w, src) && Pages(w, src) !! Elems(free) && PoolOk(free)
    ensures Outer(w, free, w, free, src, dest, 0)
  {
    TrimAll(w, dest);
    NothingCopied(w, src, Trim(w, dest, 0), dest);
    NothingWritten(w, {dest} + Elems(free[|free|..]));
    hide Trim, EntriesCopied, Pages, WfTab, OnlyPages;
    assert free[|free|..] == [] && Elems(free[|free|..]) == {};
  }

  lemma NothingCopied(w0: Memory, src: nat, v: Memory, dest: nat)
    requires forall x: nat | x < 512 :: !Has3(v, dest, x)
    ensures EntriesCopied(w0, src, v, dest, 0, 0, 0, 0)
  {
  }

  lemma OuterAbsent(w0: Memory, free0: seq<nat>, w: Memory, free: seq<nat>, src: nat, dest: nat, i: nat, e: Entry)
    requires e == RootE(w0, src, i)
    requires i < 512 && !e.present && !Has3(w0, src, i) && Outer(w0, free0, w, free, src, dest, i)
    ensures Outer(w0, free0, w[At(dest, i) := e], free, src, dest, i + 1)
  {
    hide Trim, CopiedTo, EntriesCopied, Pages, OnlyPages, Has3, T3, Has2, WfTab, At, Ent, MapAt, SameShape, SameMap, SameBut, RootE, RootCopied;
    var v, w' := Trim(w, dest, i), w[At(dest, i) := e];
    TrimTop(w, dest, i, e);
    TrimmedAbsent(w, dest, i);
    AbsentTop(v, dest, i, e);
    RootWritten(v, dest, i, e);
    RootIsCopied(e, 0);
    RootNext(w0, src, v, v[At(dest, i) := e], dest, i, e);
    ShapeTables(v, v[At(dest, i) := e], dest);
    PagesOf(v, v[At(dest, i) := e], dest);
    WroteTaken(w0, free0, w, free, dest, dest, i, e);
    NextRegion(w0, src, v, v[At(dest, i) := e], dest, i);
  }

  lemma TrimmedAbsent(w: Memory, dest: nat, i: nat)
    requires PageOk(dest) && i < 512
    ensures !Has3(Trim(w, dest, i), dest, i)
  {
    TrimEnt(w, dest, i, dest, i);
  }

  lemma NextRegion(w0: Memory, src: nat, v: Memory, v': Memory, dest: nat, i: nat)
    requires CopiedTo(w0, src, v, dest, i, 0) && SameMap(v, v', dest) && i < 512 && !Has3(w0, src, i)
    ensures CopiedTo(w0, src, v', dest, i + 1, 0)
  {
    forall x: nat, y: nat, z: nat | x < 512 && y < 512 && z < 512
      ensures MapAt(v', dest, x, y, z) == if x < i + 1 || (x == i + 1 && y < 0) then MapAt(w0, src, x, y, z) else Absent
    {
      assert MapAt(v', dest, x, y, z) == MapAt(v, dest, x, y, z);
      assert x == i ==> !Has2(w0, src, x, y);
    }
  }

  lemma OuterHang(w0: Memory, free0: seq<nat>, w: Memory, free: seq<nat>, src: nat, dest: nat, i: nat,
                  u: Memory, free': seq<nat>, q: nat, e: Entry)
    requires i < 512 && e.present && GetPaddr(e) == q && free == free' + [q] && OnlyPages(w, u, {q}) && Blank(u, q)
    requires RootCopied(RootE(w0, src, i), e)
    requires Outer(w0, free0, w, free, src, dest, i)
    ensures Middle(w0, free0, u[At(dest, i) := e], free', src, dest, i, 0, q)
  {
    hide Trim, CopiedTo, EntriesCopied, Pages, OnlyPages, Has3, T3, T2, Has2, WfTab, At, Ent, MapAt, SameShape, SameMap, Blank, SameBut, RootE, RootCopied;
    TakenFacts(w0, free0, w, free, src, dest, i, free', q);
    var v, vu, w' := Trim(w, dest, i), Trim(u, dest, i), u[At(dest, i) := e];
    BlankedApart(w, u, dest, i, q);
    TrimmedAbsent(u, dest, i);
    TrimTop(u, dest, i, e);
    HangTop(vu, dest, i, e, q);
    EntriesStay(w0, src, v, vu, dest, i, i, 0, 0);
    RootWritten(vu, dest, i, e);
    RootNext(w0, src, vu, Trim(w', dest, i + 1), dest, i, e);
    MapsAsBefore(w0, src, v, vu, dest, i, 0);
    MapsAsBefore(w0, src, vu, Trim(w', dest, i + 1), dest, i, 0);
    WroteNew(w0, free0, w, free, dest, free', u, q, dest, i, e);
    assert {dest} + Elems(free0[|free|..]) + {q} == {dest} + Elems(free0[|free'|..]);
  }

  lemma OuterNext(w0: Memory, free0: seq<nat>, w: Memory, free: seq<nat>, src: nat, dest: nat, i: nat, p: nat)
    requires i < 512 && Middle(w0, free0, w, free, src, dest, i, 512, p)
    ensures Outer(w0, free0, w, free, src, dest, i + 1)
  {
    hide Trim, Copying, EntriesCopied, MapAt, Has3, Has2, T3;
    RegionDone(w0, src, Trim(w, dest, i + 1), dest, i);
  }

  /** `page_clone_page_tab`: `dest` becomes a table of its own that maps as `src` does. */
  method CloneTab(pg: Pager, dest: nat, src: nat)
    requires pg.TabOk(src) && PageOk(dest) && dest !in Pages(pg.words, src) && dest !in pg.pool
    requires |pg.pool| >= Need(pg.words, src, 0)
    modifies pg`words, pg`pool
    ensures pg.TabOk(src) && pg.TabOk(dest) && Pages(pg.words, src) == old(Pages(pg.words, src))
    ensures forall i: nat, j: nat, k: nat | i < 512 && j < 512 && k < 512 ::
              && MapAt(pg.words, dest, i, j, k) == old(MapAt(pg.words, src, i, j, k))
              && MapAt(pg.words, src, i, j, k) == old(MapAt(pg.words, src, i, j, k))
    ensures SameContent(old(pg.words), pg.words, src)
    ensures forall i: nat, j: nat, k: nat {:trigger LeafE(pg.words, dest, i, j, k)} | i < 512 && j < 512 && k < 512 ::
              LeafE(pg.words, dest, i, j, k) == old(LeafE(pg.words, src, i, j, k)).(isuser := false)
    ensures forall i: nat, j: nat {:trigger MidE(pg.words, dest, i, j)} | i < 512 && j < 512 ::
              MidCopied(old(MidE(pg.words, src, i, j)), MidE(pg.words, dest, i, j))
    ensures forall i: nat {:trigger RootE(pg.words, dest, i)} | i < 512 :: RootCopied(old(RootE(pg.words, src, i)), RootE(pg.words, dest, i))
    ensures Pages(pg.words, dest) !! Pages(pg.words, src)
    ensures |pg.pool| == |old(pg.pool)| - old(Need(pg.words, src, 0)) && pg.pool == old(pg.pool)[..|pg.pool|]
    ensures Pages(pg.words, dest) == {dest} + Elems(old(pg.pool)[|pg.pool|..])
    ensures OnlyPages(old(pg.words), pg.words, Pages(pg.words, dest))
  {
    hide Trim, CopiedTo, EntriesCopied, Pages, OnlyPages, Has3, T3, T2, Has2, WfTab, At, Ent, MapAt, GetPaddr, SetPaddr, Middle, Hung, Blank,
         Copying, PoolOk, Outer, RootE, MidE, LeafE, RootCopied, MidCopied, SameBut;
    ghost var w0, free0 := pg.words, pg.pool;
    OuterStart(w0, free0, src, dest);
    var i := 0;
    while i < 512
      invariant i <= 512 && Outer(w0, free0, pg.words, pg.pool, src, dest, i)
      invariant |pg.pool| == |free0| - Need(w0, src, 0) + Need(w0, src, i)
      modifies pg`words, pg`pool
    {
      ghost var w, free := pg.words, pg.pool;
      OuterFacts(w0, free0, w, free, src, dest, i);
      ghost var e := Ent(w, At(src, i));
      pg.words := pg.words[At(dest, i) := Ent(pg.words, At(src, i))];
      WrittenTwice(w, At(dest, i), e, e);
      if Ent(pg.words, At(dest, i)).present {
        var q := pg.AllocPage();
        ghost var w2 := pg.words;
        FreshForRoot(w0, free0, w, free, src, dest, i, pg.pool, q);
        Restored(w, dest, i, e, w2, q, SetPaddr(e, q));
        pg.words := pg.words[At(dest, i) := SetPaddr(Ent(pg.words, At(dest, i)), q)];
        AddressSet(e, q, SetPaddr(e, q));
        RootIsCopied(e, q);
        ghost var u := w2[At(dest, i) := Ent(w, At(dest, i))];
        OuterHang(w0, free0, w, free, src, dest, i, u, pg.pool, q, SetPaddr(e, q));
        RootKept(w0, free0, pg.words, pg.pool, src, dest, i, q);
        var from := GetPaddr(Ent(pg.words, At(src, i)));
        CopyMiddle(pg, src, dest, i, from, q, w0, free0);
        OuterNext(w0, free0, pg.words, pg.pool, src, dest, i, q);
      } else {
        OuterAbsent(w0, free0, w, free, src, dest, i, e);
      }
      i := i + 1;
    }
    Cloned(w0, free0, pg.words, pg.pool, src, dest);
    AllCopied(w0, src, pg.words, dest);
  }

  lemma AllCopied(w0: Memory, src: nat, w: Memory, dest: nat)
    requires EntriesCopied(w0, src, w, dest, 512, 512, 0, 0)
    ensures forall i: nat, j: nat, k: nat {:trigger LeafE(w, dest, i, j, k)} | i < 512 && j < 512 && k < 512 ::
              LeafE(w, dest, i, j, k) == LeafE(w0, src, i, j, k).(isuser := false)
    ensures forall i: nat, j: nat {:trigger MidE(w, dest, i, j)} | i < 512 && j < 512 :: MidCopied(MidE(w0, src, i, j), MidE(w, dest, i, j))
    ensures forall i: nat {:trigger RootE(w, dest, i)} | i < 512 :: RootCopied(RootE(w0, src, i), RootE(w, dest, i))
  {
    hide RootE, MidE, LeafE, RootCopied, MidCopied;
  }

  /** A mapped page of a clone can be written if the source's could, and no user reaches it. */
  lemma CloneRights(w0: Memory, src: nat, w: Memory, dest: nat, i: nat, j: nat, k: nat)
    requires RootCopied(RootE(w0, src, i), RootE(w, dest, i)) && MidCopied(MidE(w0, src, i, j), MidE(w, dest, i, j))
    requires LeafE(w, dest, i, j, k) == LeafE(w0, src, i, j, k).(isuser := false) && LeafE(w0, src, i, j, k).present
    ensures var r0, r := RightsAt(w0, src, i, j, k), RightsAt(w, dest, i, j, k);
            r.write == r0.write && !r.user && (r0.exec ==> r.exec) && (r0.large ==> r.large)
  {
    WayThere(w0, src, i, j, k);
    hide RootE, MidE, LeafE;
  }

  lemma WayThere(w: Memory, tab: nat, i: nat, j: nat, k: nat)
    ensures LeafE(w, tab, i, j, k).present ==> MidE(w, tab, i, j).present && RootE(w, tab, i).present
  {
  }

  lemma OuterFacts(w0: Memory, free0: seq<nat>, w: Memory, free: seq<nat>, src: nat, dest: nat, i: nat)
    requires i < 512 && Outer(w0, free0, w, free, src, dest, i)
    ensures Ent(w, At(src, i)) == Ent(w0, At(src, i)) && (Has3(w0, src, i) <==> Ent(w, At(src, i)).present)
    ensures T3(w0, src, i) == GetPaddr(Ent(w0, At(src, i)))
    ensures PoolOk(free) && PageOk(dest) && PageOk(src) && src != dest
    ensures Need(w0, src, i) == (if Has3(w0, src, i) then 1 + NeedBelow(w0, src, i, 0) else 0) + Need(w0, src, i + 1)
    ensures RootE(w0, src, i) == Ent(w, At(src, i))
  {
    SourceKept(w0, free0, w, free, src, dest, i);
    LeftApart(free0, free);
    RootOk(w0, src);
    SameEntry(w0, w, Pages(w0, src), src, i);
    hide Trim, CopiedTo, EntriesCopied, OnlyPages, MapAt, Ent, At, WfTab;
  }

  lemma FreshForRoot(w0: Memory, free0: seq<nat>, w: Memory, free: seq<nat>, src: nat, dest: nat, i: nat, free': seq<nat>, q: nat)
    requires i < 512 && free == free' + [q] && Outer(w0, free0, w, free, src, dest, i)
    ensures q != dest && PageOk(q) && PageOk(dest)
  {
    hide Trim, CopiedTo, EntriesCopied, OnlyPages, Pages;
    TakenFacts(w0, free0, w, free, src, dest, i, free', q);
  }

  lemma RootKept(w0: Memory, free0: seq<nat>, w: Memory, free: seq<nat>, src: nat, dest: nat, i: nat, p: nat)
    requires i < 512 && Middle(w0, free0, w, free, src, dest, i, 0, p)
    ensures Ent(w, At(src, i)) == Ent(w0, At(src, i))
  {
    SourceKept(w0, free0, w, free, src, dest, i + 1);
    RootOk(w0, src);
    SameEntry(w0, w, Pages(w0, src), src, i);
  }

  lemma Cloned(w0: Memory, free0: seq<nat>, w: Memory, free: seq<nat>, src: nat, dest: nat)
    requires Outer(w0, free0, w, free, src, dest, 512)
    ensures WfTab(w, src) && WfTab(w, dest) && PoolOk(free) && Pages(w, src) == Pages(w0, src)
    ensures Pages(w, src) !! Elems(free) && Pages(w, dest) !! Elems(free) && Pages(w, dest) !! Pages(w, src)
    ensures forall i: nat, j: nat, k: nat | i < 512 && j < 512 && k < 512 ::
              MapAt(w, dest, i, j, k) == MapAt(w0, src, i, j, k) && MapAt(w, src, i, j, k) == MapAt(w0, src, i, j, k)
    ensures free == free0[..|free|] && Pages(w, dest) == {dest} + Elems(free0[|free|..]) && OnlyPages(w0, w, Pages(w, dest))
    ensures SameContent(w0, w, src) && EntriesCopied(w0, src, w, dest, 512, 512, 0, 0)
  {
    TrimNothing(w, dest);
    SourceKept(w0, free0, w, free, src, dest, 512);
    LeftApart(free0, free);
    ContentKept(w0, w, src);
    hide Trim, OnlyPages, Pages, WfTab, Has3, Has2, EntriesCopied, SameBut;
    assert Elems(free0[|free|..]) <= Elems(free0);
    forall i: nat, j: nat, k: nat | i < 512 && j < 512 && k < 512
      ensures MapAt(w, dest, i, j, k) == MapAt(w0, src, i, j, k) && MapAt(w, src, i, j, k) == MapAt(w0, src, i, j, k)
    {
      assert MapAt(w, src, i, j, k) == MapAt(w0, src, i, j, k);
    }
  }
}
