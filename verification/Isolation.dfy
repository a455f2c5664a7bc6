/** A cloned table and its source live apart (src/page.c:99-137, 414-461): whatever is mapped in one
    of them afterwards, the other's lookups do not change. */
module Isolation {
  import opened Lists
  import opened Entries
  import opened Tables
  import opened Paging
  import opened Cloning

  /** A call of `page_alloc_tab` on the clone or on the source. */
  datatype Call = Call(onClone: bool, phy: nat, vir: nat, kernel: bool)

  predicate At3(c: Call, x: nat, y: nat, z: nat) { x == I4(c.vir) && y == I3(c.vir) && z == I2(c.vir) }

  /** What a page maps to after the calls on one of the tables: the last one for the page decides. */
  function After(m: Frame, calls: seq<Call>, onClone: bool, x: nat, y: nat, z: nat): Frame {
    if calls == [] then m else
      var c := calls[|calls| - 1];
      if c.onClone == onClone && At3(c, x, y, z) then Mapped(c.phy) else After(m, calls[..|calls| - 1], onClone, x, y, z)
  }

  /** The table maps as `src` did in `w0`, but for the calls on it. */
  ghost predicate Follows(w0: Memory, src: nat, w: Memory, tab: nat, calls: seq<Call>, onClone: bool) {
    forall x: nat, y: nat, z: nat | x < 512 && y < 512 && z < 512 ::
      MapAt(w, tab, x, y, z) == After(MapAt(w0, src, x, y, z), calls, onClone, x, y, z)
  }

  lemma FollowsOwn(w0: Memory, src: nat, w: Memory, w': Memory, tab: nat, calls: seq<Call>, c: Call)
    requires Follows(w0, src, w, tab, calls, c.onClone)
    requires forall x: nat, y: nat, z: nat | x < 512 && y < 512 && z < 512 ::
               MapAt(w', tab, x, y, z)
               == if x == I4(c.vir) && y == I3(c.vir) && z == I2(c.vir) then Mapped(c.phy) else MapAt(w, tab, x, y, z)
    ensures Follows(w0, src, w', tab, calls + [c], c.onClone)
  {
    hide MapAt, I4, I3, I2;
    assert (calls + [c])[..|calls|] == calls;
  }

  lemma FollowsOther(w0: Memory, src: nat, w: Memory, w': Memory, tab: nat, calls: seq<Call>, c: Call)
    requires Follows(w0, src, w, tab, calls, !c.onClone) && SameMap(w, w', tab)
    ensures Follows(w0, src, w', tab, calls + [c], !c.onClone)
  {
    hide MapAt, I4, I3, I2;
    assert (calls + [c])[..|calls|] == calls;
  }

  /** Two tables without a common page, and apart from the pool. */
  ghost predicate TwoTables(pg: Pager, a: nat, b: nat)
    reads pg
  {
    pg.TabOk(a) && pg.TabOk(b) && Pages(pg.words, a) !! Pages(pg.words, b)
  }

  /** Mapping a page in one of two such tables leaves the other as it was. */
  method AllocApart(pg: Pager, tab: nat, other: nat, phy: nat, vir: nat, kernel: bool)
    requires TwoTables(pg, tab, other) && pg.MapOk() && |pg.pool| >= 2 && phy % FRAME == 0 && phy < EXACT
    modifies pg`words, pg`pool, pg.physMap
    ensures TwoTables(pg, tab, other) && |pg.pool| >= |old(pg.pool)| - 2
    ensures forall x: nat, y: nat, z: nat | x < 512 && y < 512 && z < 512 ::
              MapAt(pg.words, tab, x, y, z)
              == if x == I4(vir) && y == I3(vir) && z == I2(vir) then Mapped(phy) else old(MapAt(pg.words, tab, x, y, z))
    ensures SameMap(old(pg.words), pg.words, other)
  {
    hide WfTab, Pages, OnlyPages, MapAt, I4, I3, I2, SameMap;
    ghost var w, free := pg.words, pg.pool;
    pg.AllocTab(tab, phy, vir, kernel);
    TakenApart(free, pg.pool, Pages(w, tab), Pages(pg.words, tab), Pages(w, other));
    OtherTable(w, pg.words, Pages(pg.words, tab), other);
  }

  lemma TakenApart(free: seq<nat>, free': seq<nat>, a: set<nat>, a': set<nat>, b: set<nat>)
    requires |free'| <= |free| && free' == free[..|free'|] && a' == a + Elems(free[|free'|..]) && a !! b && b !! Elems(free)
    ensures a' !! b && b !! Elems(free')
  {
  }

  /** A table is cloned, and then pages are mapped in both, in any order: each of the two maps as the
      source did but for the calls on itself. */
  method CloneThenMap(pg: Pager, dest: nat, src: nat, calls: seq<Call>)
    requires pg.TabOk(src) && pg.MapOk() && PageOk(dest) && dest !in Pages(pg.words, src) && dest !in pg.pool
    requires |pg.pool| >= Need(pg.words, src, 0) + 2 * |calls|
    requires forall c | c in calls :: c.phy % FRAME == 0 && c.phy < EXACT
    modifies pg`words, pg`pool, pg.physMap
    ensures TwoTables(pg, dest, src)
    ensures Follows(old(pg.words), src, pg.words, dest, calls, true) && Follows(old(pg.words), src, pg.words, src, calls, false)
  {
    hide WfTab, Pages, OnlyPages, MapAt, I4, I3, I2, SameMap, After, Follows;
    ghost var w0 := pg.words;
    CloneTab(pg, dest, src);
    NoCallsYet(w0, src, pg.words, dest);
    NoCallsYet(w0, src, pg.words, src);
    var i := 0;
    while i < |calls|
      invariant i <= |calls| && TwoTables(pg, dest, src) && pg.MapOk() && |pg.pool| >= 2 * (|calls| - i)
      invariant Follows(w0, src, pg.words, dest, calls[..i], true) && Follows(w0, src, pg.words, src, calls[..i], false)
    {
      var c := calls[i];
      ghost var w := pg.words;
      assert calls[..i + 1] == calls[..i] + [c];
      if c.onClone {
        AllocApart(pg, dest, src, c.phy, c.vir, c.kernel);
        FollowsOwn(w0, src, w, pg.words, dest, calls[..i], c);
        FollowsOther(w0, src, w, pg.words, src, calls[..i], c);
      } else {
        AllocApart(pg, src, dest, c.phy, c.vir, c.kernel);
        FollowsOwn(w0, src, w, pg.words, src, calls[..i], c);
        FollowsOther(w0, src, w, pg.words, dest, calls[..i], c);
      }
      i := i + 1;
    }
    assert calls[..i] == calls;
  }

  lemma NoCallsYet(w0: Memory, src: nat, w: Memory, tab: nat)
    requires forall x: nat, y: nat, z: nat | x < 512 && y < 512 && z < 512 :: MapAt(w, tab, x, y, z) == MapAt(w0, src, x, y, z)
    ensures Follows(w0, src, w, tab, [], true) && Follows(w0, src, w, tab, [], false)
  {
    hide MapAt;
  }
}
