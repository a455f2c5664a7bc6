/** Giving the pages of a table back (src/page.c:139-165). */
module Release {
  import opened Lists
  import opened Entries
  import opened Tables
  import opened Paging
  import opened Cloning

  /** The leaf pages of region i released before j. */
  ghost function FreedBelow(w: Memory, tab: nat, i: nat, j: nat): set<nat> {
    if j == 0 then {} else FreedBelow(w, tab, i, j - 1) + if Has2(w, tab, i, j - 1) then {T2(w, tab, i, j - 1)} else {}
  }

  /** All that is released before region i. */
  ghost function FreedTop(w: Memory, tab: nat, i: nat): set<nat> {
    if i == 0 then {}
    else FreedTop(w, tab, i - 1) + if Has3(w, tab, i - 1) then FreedBelow(w, tab, i - 1, 512) + {T3(w, tab, i - 1)} else {}
  }

  lemma {:induction false} BelowIn(w: Memory, tab: nat, i: nat, j: nat, p: nat)
    requires j <= 512
    ensures p in FreedBelow(w, tab, i, j) ==> exists y: nat :: y < j && Has2(w, tab, i, y) && T2(w, tab, i, y) == p
    ensures forall y: nat | y < j && Has2(w, tab, i, y) && T2(w, tab, i, y) == p :: p in FreedBelow(w, tab, i, j)
  {
    if j > 0 {
      BelowIn(w, tab, i, j - 1, p);
      hide Has2, T2;
      if p in FreedBelow(w, tab, i, j) && p !in FreedBelow(w, tab, i, j - 1) { assert Has2(w, tab, i, j - 1); }
    }
  }

  lemma {:induction false} TopIn(w: Memory, tab: nat, i: nat, p: nat)
    requires i <= 512
    ensures p in FreedTop(w, tab, i) ==>
              || (exists x: nat :: x < i && Has3(w, tab, x) && T3(w, tab, x) == p)
              || (exists x: nat, y: nat :: x < i && y < 512 && Has2(w, tab, x, y) && T2(w, tab, x, y) == p)
    ensures forall x: nat | x < i && Has3(w, tab, x) && T3(w, tab, x) == p :: p in FreedTop(w, tab, i)
    ensures forall x: nat, y: nat | x < i && y < 512 && Has2(w, tab, x, y) && T2(w, tab, x, y) == p :: p in FreedTop(w, tab, i)
  {
    if i > 0 {
      TopIn(w, tab, i - 1, p);
      BelowIn(w, tab, i - 1, 512, p);
      MiddleNeedsTop(w, tab, i - 1);
      hide Has2, Has3, T2, T3, FreedBelow;
    }
  }

  lemma MiddleNeedsTop(w: Memory, tab: nat, i: nat)
    ensures forall y: nat | Has2(w, tab, i, y) :: Has3(w, tab, i)
  {
  }

  /** In the end every page but the root's own has been released. */
  lemma AllFreed(w: Memory, tab: nat)
    ensures FreedTop(w, tab, 512) + {tab} == Pages(w, tab)
  {
    hide Has2, Has3, T2, T3, FreedTop;
    forall p ensures p in FreedTop(w, tab, 512) <==> p in Tables3(w, tab) + Tables2(w, tab) {
      if p >= 0 {
        TopIn(w, tab, 512, p);
        if x: nat :| x < 512 && Has3(w, tab, x) && T3(w, tab, x) == p { assert p in Tables3(w, tab); }
        if x: nat, y: nat :| x < 512 && y < 512 && Has2(w, tab, x, y) && T2(w, tab, x, y) == p { assert p in Tables2(w, tab); }
      }
    }
  }

  /** The page released next has not been released before. */
  lemma LeafNotFreed(w: Memory, tab: nat, i: nat, j: nat)
    requires WfTab(w, tab) && i < 512 && j < 512 && Has2(w, tab, i, j)
    ensures T2(w, tab, i, j) !in FreedTop(w, tab, i) + FreedBelow(w, tab, i, j)
  {
    var p := T2(w, tab, i, j);
    TopIn(w, tab, i, p);
    BelowIn(w, tab, i, j, p);
    PageIn(w, tab, i, j);
    hide Has3, T3, T2, FreedTop, FreedBelow, WfTab;
    forall x: nat, y: nat | x < 512 && y < 512 && Has2(w, tab, x, y) && T2(w, tab, x, y) == p ensures x == i && y == j {
      MiddlesApart(w, tab, i, j, x, y);
    }
    forall x: nat | x < 512 && Has3(w, tab, x) ensures T3(w, tab, x) != p { LeafPageApart(w, tab, i, j, x); }
  }

  lemma TopNotFreed(w: Memory, tab: nat, i: nat)
    requires WfTab(w, tab) && i < 512 && Has3(w, tab, i)
    ensures T3(w, tab, i) !in FreedTop(w, tab, i) + FreedBelow(w, tab, i, 512)
  {
    var p := T3(w, tab, i);
    TopIn(w, tab, i, p);
    BelowIn(w, tab, i, 512, p);
    hide Has2, Has3, T3, T2, FreedTop, FreedBelow, WfTab;
    forall x: nat, y: nat | x < 512 && y < 512 && Has2(w, tab, x, y) ensures T2(w, tab, x, y) != p { LeafPageApart(w, tab, x, y, i); }
    forall x: nat | x < 512 && Has3(w, tab, x) && T3(w, tab, x) == p ensures x == i { TopsApart(w, tab, i, x); }
  }

  lemma RootNotFreed(w: Memory, tab: nat)
    requires WfTab(w, tab)
    ensures tab !in FreedTop(w, tab, 512)
  {
    TopIn(w, tab, 512, tab);
    forall x: nat, y: nat | x < 512 && y < 512 ensures (Has3(w, tab, x) ==> T3(w, tab, x) != tab) && (Has2(w, tab, x, y) ==> T2(w, tab, x, y) != tab) {
      BelowTop(w, tab, x, y);
    }
    hide Has2, Has3, T3, T2, FreedTop, WfTab;
  }

  /** The pool with the pages in `s` put back, each once. */
  ghost predicate PutBack(free0: seq<nat>, free: seq<nat>, s: set<nat>) {
    |free0| <= |free| && free[..|free0|] == free0 && Elems(free[|free0|..]) == s && NoDup(free)
  }

  lemma PutOne(free0: seq<nat>, free: seq<nat>, s: set<nat>, p: nat)
    requires PutBack(free0, free, s) && p !in free0 && p !in s
    ensures PutBack(free0, free + [p], s + {p})
  {
    var tail := free[|free0|..];
    assert free == free0 + tail;
    assert forall x | x in tail :: x in Elems(tail);
    assert (free + [p])[|free0|..] == free[|free0|..] + [p];
  }

  /** `page_free_tab`: every page of the table returns to the pool, exactly once. */
  method FreeTab(pg: Pager, tab: nat)
    requires pg.TabOk(tab)
    modifies pg`pool
    ensures PutBack(old(pg.pool), pg.pool, Pages(pg.words, tab)) && PoolOk(pg.pool)
  {
    hide Ent, At, GetPaddr, WfTab, Pages, Has2, Has3, T2, T3, FreedTop, FreedBelow, PutBack;
    ghost var w, free0 := pg.words, pg.pool;
    NothingBack(free0);
    FreedNone(w, tab);
    AllFreed(w, tab);
    var i := 0;
    while i < 512
      invariant i <= 512 && PutBack(free0, pg.pool, FreedTop(w, tab, i))
    {
      FreedSteps(w, tab, i);
      EntryMeans(w, tab, i);
      if Ent(pg.words, At(tab, i)).present {
        var pdpt := GetPaddr(Ent(pg.words, At(tab, i)));
        var j := 0;
        assert FreedTop(w, tab, i) + {} == FreedTop(w, tab, i);
        while j < 512
          invariant j <= 512 && PutBack(free0, pg.pool, FreedTop(w, tab, i) + FreedBelow(w, tab, i, j))
        {
          FreedColumn(w, tab, i, j);
          EntryMeans2(w, tab, i, j);
          if Ent(pg.words, At(pdpt, j)).present {
            var pd := GetPaddr(Ent(pg.words, At(pdpt, j)));
            LeafNotFreed(w, tab, i, j);
            NotInPool(w, tab, free0, i, j);
            PutOne(free0, pg.pool, FreedTop(w, tab, i) + FreedBelow(w, tab, i, j), pd);
            pg.pool := pg.pool + [pd];
            assert FreedTop(w, tab, i) + FreedBelow(w, tab, i, j + 1) == FreedTop(w, tab, i) + FreedBelow(w, tab, i, j) + {pd};
          } else {
            assert FreedBelow(w, tab, i, j + 1) == FreedBelow(w, tab, i, j);
          }
          j := j + 1;
        }
        TopNotFreed(w, tab, i);
        NotInPool(w, tab, free0, i, 0);
        PutOne(free0, pg.pool, FreedTop(w, tab, i) + FreedBelow(w, tab, i, 512), pdpt);
        pg.pool := pg.pool + [pdpt];
        assert FreedTop(w, tab, i + 1) == FreedTop(w, tab, i) + FreedBelow(w, tab, i, 512) + {pdpt};
      } else {
        assert FreedTop(w, tab, i + 1) == FreedTop(w, tab, i);
      }
      i := i + 1;
    }
    RootNotFreed(w, tab);
    NotInPool(w, tab, free0, 0, 0);
    PutOne(free0, pg.pool, FreedTop(w, tab, 512), tab);
    pg.pool := pg.pool + [tab];
    BackIsOk(w, tab, free0, pg.pool);
  }

  lemma NothingBack(free0: seq<nat>)
    requires NoDup(free0)
    ensures PutBack(free0, free0, {})
  {
    assert free0[|free0|..] == [];
  }

  lemma FreedNone(w: Memory, tab: nat)
    ensures FreedTop(w, tab, 0) == {}
  {
  }

  lemma FreedSteps(w: Memory, tab: nat, i: nat)
    ensures FreedTop(w, tab, i + 1) == FreedTop(w, tab, i) + if Has3(w, tab, i) then FreedBelow(w, tab, i, 512) + {T3(w, tab, i)} else {}
    ensures FreedBelow(w, tab, i, 0) == {}
  {
  }

  lemma FreedColumn(w: Memory, tab: nat, i: nat, j: nat)
    ensures FreedBelow(w, tab, i, j + 1) == FreedBelow(w, tab, i, j) + if Has2(w, tab, i, j) then {T2(w, tab, i, j)} else {}
  {
  }

  lemma EntryMeans(w: Memory, tab: nat, i: nat)
    ensures Has3(w, tab, i) <==> Ent(w, At(tab, i)).present
    ensures T3(w, tab, i) == GetPaddr(Ent(w, At(tab, i)))
  {
  }

  lemma EntryMeans2(w: Memory, tab: nat, i: nat, j: nat)
    ensures Has3(w, tab, i) ==> (Has2(w, tab, i, j) <==> Ent(w, At(T3(w, tab, i), j)).present)
    ensures T2(w, tab, i, j) == GetPaddr(Ent(w, At(T3(w, tab, i), j)))
  {
  }

  lemma NotInPool(w: Memory, tab: nat, free: seq<nat>, i: nat, j: nat)
    requires WfTab(w, tab) && Pages(w, tab) !! Elems(free) && i < 512 && j < 512
    ensures tab !in free && (Has3(w, tab, i) ==> T3(w, tab, i) !in free) && (Has2(w, tab, i, j) ==> T2(w, tab, i, j) !in free)
  {
    BelowTop(w, tab, i, j);
    RootOk(w, tab);
    hide Pages, WfTab, Has2, Has3, T2, T3;
    assert forall p | p in free :: p in Elems(free);
  }

  lemma BackIsOk(w: Memory, tab: nat, free0: seq<nat>, free: seq<nat>)
    requires PutBack(free0, free, Pages(w, tab)) && PoolOk(free0) && WfTab(w, tab)
    ensures PoolOk(free)
  {
    hide Pages;
    forall p | p in free ensures PageOk(p) {
      assert free == free0 + free[|free0|..];
      assert p in free0 || p in Elems(free[|free0|..]);
    }
  }

  /** A copy that is released again leaves the pool with the pages it had, and the copy's root. */
  method CloneAndFree(pg: Pager, dest: nat, src: nat)
    requires pg.TabOk(src) && PageOk(dest) && dest !in Pages(pg.words, src) && dest !in pg.pool
    requires |pg.pool| >= Need(pg.words, src, 0)
    modifies pg`words, pg`pool
    ensures pg.TabOk(src) && NoDup(pg.pool) && Elems(pg.pool) == old(Elems(pg.pool)) + {dest}
    ensures SameMap(old(pg.words), pg.words, src)
  {
    hide Ent, At, WfTab, Pages, MapAt;
    ghost var free0 := pg.pool;
    CloneTab(pg, dest, src);
    ghost var free1 := pg.pool;
    FreeTab(pg, dest);
    BackAgain(free0, free1, pg.pool, dest);
  }

  lemma BackAgain(free0: seq<nat>, free1: seq<nat>, free2: seq<nat>, dest: nat)
    requires |free1| <= |free0| && free1 == free0[..|free1|] && PutBack(free1, free2, {dest} + Elems(free0[|free1|..]))
    ensures Elems(free2) == Elems(free0) + {dest} && NoDup(free2)
  {
    assert free2 == free1 + free2[|free1|..] && free0 == free1 + free0[|free1|..];
    forall p ensures p in Elems(free2) <==> p in Elems(free0) + {dest} {
      assert p in free2 <==> p in free1 || p in Elems(free2[|free1|..]);
      assert p in free0 <==> p in free1 || p in Elems(free0[|free1|..]);
    }
  }
}
