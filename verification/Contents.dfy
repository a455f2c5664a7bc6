/** What a page table holds entry by entry, at all three levels, and what one write changes of it. */
module Contents {
  import opened Entries
  import opened Tables

  /** The entries on the way to a page; below a table that is not there they count as blank. */
  function RootE(w: Memory, tab: nat, x: nat): Entry { Ent(w, At(tab, x)) }
  function MidE(w: Memory, tab: nat, x: nat, y: nat): Entry { if Has3(w, tab, x) then Ent(w, At(T3(w, tab, x), y)) else ZERO }
  function LeafE(w: Memory, tab: nat, x: nat, y: nat, z: nat): Entry { if Has2(w, tab, x, y) then Leaf(w, tab, x, y, z) else ZERO }

  /** No entry of the middle level is itself a page of 1 GiB. */
  ghost predicate NoHuge(w: Memory, tab: nat) {
    forall x: nat, y: nat {:trigger MidE(w, tab, x, y)} | x < 512 && y < 512 && MidE(w, tab, x, y).present :: !MidE(w, tab, x, y).bit7
  }

  // All entries of a level but one, with index 512 for none.
  ghost predicate RootsBut(w: Memory, w': Memory, tab: nat, i: nat) {
    forall x: nat {:trigger RootE(w', tab, x)} | x < 512 && x != i :: RootE(w', tab, x) == RootE(w, tab, x)
  }

  ghost predicate MidsBut(w: Memory, w': Memory, tab: nat, i: nat, j: nat) {
    forall x: nat, y: nat {:trigger MidE(w', tab, x, y)} | x < 512 && y < 512 && !(x == i && y == j) :: MidE(w', tab, x, y) == MidE(w, tab, x, y)
  }

  ghost predicate LeavesBut(w: Memory, w': Memory, tab: nat, i: nat, j: nat, k: nat) {
    forall x: nat, y: nat, z: nat {:trigger LeafE(w', tab, x, y, z)} | x < 512 && y < 512 && z < 512 && !(x == i && y == j && z == k) ::
      LeafE(w', tab, x, y, z) == LeafE(w, tab, x, y, z)
  }

  /** Nothing has changed but for one entry of each level. */
  ghost predicate SameBut(w: Memory, w': Memory, tab: nat, i: nat, i2: nat, j2: nat, i3: nat, j3: nat, k3: nat) {
    RootsBut(w, w', tab, i) && MidsBut(w, w', tab, i2, j2) && LeavesBut(w, w', tab, i3, j3, k3)
  }

  ghost predicate SameContent(w: Memory, w': Memory, tab: nat) { SameBut(w, w', tab, 512, 512, 512, 512, 512, 512) }

  /** A table whose pages have not been written. */
  lemma ContentKept(w: Memory, w': Memory, tab: nat)
    requires SameOn(w, w', Pages(w, tab))
    ensures SameContent(w, w', tab)
  {
    TableKept(w, w', tab);
    hide Ent, At, GetPaddr, SameOn;
    forall x: nat | x < 512 ensures RootE(w', tab, x) == RootE(w, tab, x) { SameEntry(w, w', Pages(w, tab), tab, x); }
    forall x: nat, y: nat | x < 512 && y < 512 ensures MidE(w', tab, x, y) == MidE(w, tab, x, y) {
      PageIn(w, tab, x, y);
      SameEntry(w, w', Pages(w, tab), tab, x);
      if Has3(w, tab, x) { SameEntry(w, w', Pages(w, tab), T3(w, tab, x), y); }
    }
    forall x: nat, y: nat, z: nat | x < 512 && y < 512 && z < 512 ensures LeafE(w', tab, x, y, z) == LeafE(w, tab, x, y, z) {
      PageIn(w, tab, x, y);
      if Has2(w, tab, x, y) { SameEntry(w, w', Pages(w, tab), T2(w, tab, x, y), z); }
    }
  }

  /** A root entry that may be written: one that leads where it did, to a blank page of its own, or
      nowhere. */
  ghost predicate RootMay(w: Memory, tab: nat, i: nat, e: Entry) {
    if !e.present then !Has3(w, tab, i)
    else if Has3(w, tab, i) then GetPaddr(e) == T3(w, tab, i)
    else PageOk(GetPaddr(e)) && GetPaddr(e) !in Pages(w, tab) && Blank(w, GetPaddr(e))
  }

  lemma RootWritten(w: Memory, tab: nat, i: nat, e: Entry)
    requires WfTab(w, tab) && i < 512 && RootMay(w, tab, i, e)
    ensures var w' := w[At(tab, i) := e]; SameBut(w, w', tab, i, 512, 512, 512, 512, 512) && RootE(w', tab, i) == e
  {
    var w' := w[At(tab, i) := e];
    assert tab in Pages(w, tab) && PageOk(tab);
    OtherEntry(w, tab, i, e, tab, i);
    hide Ent, At, GetPaddr, NotShared;
    forall x: nat | x < 512 && x != i ensures RootE(w', tab, x) == RootE(w, tab, x) { OtherEntry(w, tab, i, e, tab, x); }
    forall x: nat, y: nat | x < 512 && y < 512 ensures MidE(w', tab, x, y) == MidE(w, tab, x, y) { RootMid(w, tab, i, e, x, y); }
    forall x: nat, y: nat, z: nat | x < 512 && y < 512 && z < 512 ensures LeafE(w', tab, x, y, z) == LeafE(w, tab, x, y, z) {
      RootLeaf(w, tab, i, e, x, y, z);
    }
  }

  lemma RootMid(w: Memory, tab: nat, i: nat, e: Entry, x: nat, y: nat)
    requires WfTab(w, tab) && i < 512 && RootMay(w, tab, i, e) && x < 512 && y < 512
    ensures MidE(w[At(tab, i) := e], tab, x, y) == MidE(w, tab, x, y)
    ensures Has2(w[At(tab, i) := e], tab, x, y) <==> Has2(w, tab, x, y)
    ensures Has2(w, tab, x, y) ==> T2(w[At(tab, i) := e], tab, x, y) == T2(w, tab, x, y)
  {
    assert tab in Pages(w, tab) && PageOk(tab);
    BelowTop(w, tab, x, y);
    hide Ent, At, GetPaddr, WfTab;
    OtherEntry(w, tab, i, e, tab, x);
    if x == i && e.present && !Has3(w, tab, i) {
      OtherEntry(w, tab, i, e, GetPaddr(e), y);
      assert Ent(w, At(GetPaddr(e), y)) == ZERO;
    } else if Has3(w, tab, x) {
      OtherEntry(w, tab, i, e, T3(w, tab, x), y);
    }
  }

  lemma RootLeaf(w: Memory, tab: nat, i: nat, e: Entry, x: nat, y: nat, z: nat)
    requires WfTab(w, tab) && i < 512 && RootMay(w, tab, i, e) && x < 512 && y < 512 && z < 512
    ensures LeafE(w[At(tab, i) := e], tab, x, y, z) == LeafE(w, tab, x, y, z)
  {
    RootMid(w, tab, i, e, x, y);
    BelowTop(w, tab, x, y);
    hide Ent, At, GetPaddr, WfTab, Has2, T2, RootMay;
    if Has2(w, tab, x, y) { OtherEntry(w, tab, i, e, T2(w, tab, x, y), z); }
  }

  /** The same for the next level. */
  ghost predicate MidMay(w: Memory, tab: nat, i: nat, j: nat, e: Entry) {
    && Has3(w, tab, i)
    && if !e.present then !Has2(w, tab, i, j)
       else if Has2(w, tab, i, j) then GetPaddr(e) == T2(w, tab, i, j)
       else PageOk(GetPaddr(e)) && GetPaddr(e) !in Pages(w, tab) && Blank(w, GetPaddr(e))
  }

  lemma MidWritten(w: Memory, tab: nat, i: nat, j: nat, e: Entry)
    requires WfTab(w, tab) && i < 512 && j < 512 && MidMay(w, tab, i, j, e)
    ensures var w' := w[At(T3(w, tab, i), j) := e]; SameBut(w, w', tab, 512, i, j, 512, 512, 512) && MidE(w', tab, i, j) == e
  {
    var w' := w[At(T3(w, tab, i), j) := e];
    MidMid(w, tab, i, j, e, i, j);
    hide Ent, At, GetPaddr, WfTab, Has2, T2, MidMay;
    forall x: nat | x < 512 ensures RootE(w', tab, x) == RootE(w, tab, x) { MidRoot(w, tab, i, j, e, x); }
    forall x: nat, y: nat | x < 512 && y < 512 && !(x == i && y == j) ensures MidE(w', tab, x, y) == MidE(w, tab, x, y) {
      MidMid(w, tab, i, j, e, x, y);
    }
    forall x: nat, y: nat, z: nat | x < 512 && y < 512 && z < 512 ensures LeafE(w', tab, x, y, z) == LeafE(w, tab, x, y, z) {
      MidLeaf(w, tab, i, j, e, x, y, z);
    }
  }

  lemma MidRoot(w: Memory, tab: nat, i: nat, j: nat, e: Entry, x: nat)
    requires WfTab(w, tab) && i < 512 && j < 512 && Has3(w, tab, i) && x < 512
    ensures var w' := w[At(T3(w, tab, i), j) := e];
            RootE(w', tab, x) == RootE(w, tab, x) && (Has3(w', tab, x) <==> Has3(w, tab, x)) && T3(w', tab, x) == T3(w, tab, x)
  {
    BelowTop(w, tab, i, j);
    hide Ent, At, GetPaddr, WfTab;
    OtherEntry(w, T3(w, tab, i), j, e, tab, x);
  }

  lemma MidMid(w: Memory, tab: nat, i: nat, j: nat, e: Entry, x: nat, y: nat)
    requires WfTab(w, tab) && i < 512 && j < 512 && MidMay(w, tab, i, j, e) && x < 512 && y < 512
    ensures var w' := w[At(T3(w, tab, i), j) := e];
            && MidE(w', tab, x, y) == (if x == i && y == j then e else MidE(w, tab, x, y))
            && (!(x == i && y == j) ==> (Has2(w', tab, x, y) <==> Has2(w, tab, x, y)) && (Has3(w, tab, x) ==> T2(w', tab, x, y) == T2(w, tab, x, y)))
            && (x == i && y == j ==> (Has2(w', tab, x, y) <==> e.present) && T2(w', tab, x, y) == GetPaddr(e))
            && (Has3(w', tab, x) <==> Has3(w, tab, x))
  {
    MidRoot(w, tab, i, j, e, x);
    MidRoot(w, tab, i, j, e, i);
    BelowTop(w, tab, i, j);
    BelowTop(w, tab, x, y);
    hide Ent, At, GetPaddr, WfTab;
    if Has3(w, tab, x) {
      OtherEntry(w, T3(w, tab, i), j, e, T3(w, tab, x), y);
      if T3(w, tab, x) == T3(w, tab, i) { TopsApart(w, tab, x, i); }
    }
  }

  lemma MidLeaf(w: Memory, tab: nat, i: nat, j: nat, e: Entry, x: nat, y: nat, z: nat)
    requires WfTab(w, tab) && i < 512 && j < 512 && MidMay(w, tab, i, j, e) && x < 512 && y < 512 && z < 512
    ensures var w' := w[At(T3(w, tab, i), j) := e]; LeafE(w', tab, x, y, z) == LeafE(w, tab, x, y, z)
  {
    var p := T3(w, tab, i);
    MidMid(w, tab, i, j, e, x, y);
    BelowTop(w, tab, i, j);
    BelowTop(w, tab, x, y);
    PageIn(w, tab, i, j);
    hide Ent, At, GetPaddr, WfTab, Pages, T3;
    if x == i && y == j && e.present && !Has2(w, tab, i, j) {
      OtherEntry(w, p, j, e, GetPaddr(e), z);
      assert Ent(w, At(GetPaddr(e), z)) == ZERO;
    } else if Has2(w, tab, x, y) {
      OtherEntry(w, p, j, e, T2(w, tab, x, y), z);
    }
  }

  /** And for a leaf. */
  lemma LeafEntryWritten(w: Memory, tab: nat, i: nat, j: nat, k: nat, e: Entry)
    requires WfTab(w, tab) && i < 512 && j < 512 && k < 512 && Has2(w, tab, i, j)
    ensures var w' := w[At(T2(w, tab, i, j), k) := e]; SameBut(w, w', tab, 512, 512, 512, i, j, k) && LeafE(w', tab, i, j, k) == e
  {
    var p := T2(w, tab, i, j);
    var w' := w[At(p, k) := e];
    BelowTop(w, tab, i, j);
    WriteLeaf(w, tab, i, j, k, e);
    OtherEntry(w, p, k, e, p, k);
    hide Ent, At, GetPaddr, WfTab, T3, T2, Has3, Has2, Pages, Tables3, Tables2;
    ShapeAt(w, w', tab, i, j);
    forall x: nat | x < 512 ensures RootE(w', tab, x) == RootE(w, tab, x) { OtherEntry(w, p, k, e, tab, x); }
    forall x: nat, y: nat | x < 512 && y < 512 ensures MidE(w', tab, x, y) == MidE(w, tab, x, y) {
      ShapeAt(w, w', tab, x, y);
      BelowTop(w, tab, x, y);
      if Has3(w, tab, x) {
        LeafPageApart(w, tab, i, j, x);
        OtherEntry(w, p, k, e, T3(w, tab, x), y);
      }
    }
    forall x: nat, y: nat, z: nat | x < 512 && y < 512 && z < 512 && !(x == i && y == j && z == k)
      ensures LeafE(w', tab, x, y, z) == LeafE(w, tab, x, y, z)
    {
      ShapeAt(w, w', tab, x, y);
      BelowTop(w, tab, x, y);
      if Has2(w, tab, x, y) {
        OtherEntry(w, p, k, e, T2(w, tab, x, y), z);
        if T2(w, tab, x, y) == p { MiddlesApart(w, tab, i, j, x, y); }
      }
    }
  }

  lemma ShapeAt(w: Memory, w': Memory, tab: nat, x: nat, y: nat)
    requires SameShape(w, w', tab) && x < 512 && y < 512
    ensures (Has3(w', tab, x) <==> Has3(w, tab, x)) && (Has3(w, tab, x) ==> T3(w', tab, x) == T3(w, tab, x))
    ensures (Has2(w', tab, x, y) <==> Has2(w, tab, x, y)) && (Has2(w, tab, x, y) ==> T2(w', tab, x, y) == T2(w, tab, x, y))
  {
    hide T3, T2, Has3, Has2;
  }

  /** Two changes that lie on one way through the table. */
  lemma BothSame(w: Memory, w1: Memory, w2: Memory, tab: nat, i: nat, i2: nat, j2: nat, i3: nat, j3: nat, k3: nat)
    requires SameContent(w, w1, tab) && SameBut(w1, w2, tab, i, i2, j2, i3, j3, k3)
    ensures SameBut(w, w2, tab, i, i2, j2, i3, j3, k3)
  {
    hide RootE, MidE, LeafE;
    forall x: nat | x < 512 && x != i ensures RootE(w2, tab, x) == RootE(w, tab, x) { assert RootE(w1, tab, x) == RootE(w, tab, x); }
    forall x: nat, y: nat | x < 512 && y < 512 && !(x == i2 && y == j2) ensures MidE(w2, tab, x, y) == MidE(w, tab, x, y) {
      assert MidE(w1, tab, x, y) == MidE(w, tab, x, y);
    }
    forall x: nat, y: nat, z: nat | x < 512 && y < 512 && z < 512 && !(x == i3 && y == j3 && z == k3)
      ensures LeafE(w2, tab, x, y, z) == LeafE(w, tab, x, y, z)
    {
      assert LeafE(w1, tab, x, y, z) == LeafE(w, tab, x, y, z);
    }
  }

  /** A whole page of leaves has been written. */
  lemma LeavesWritten(w: Memory, w': Memory, tab: nat, i: nat, j: nat)
    requires WfTab(w, tab) && i < 512 && j < 512 && Has2(w, tab, i, j) && OnlyPages(w, w', {T2(w, tab, i, j)})
    ensures RootsBut(w, w', tab, 512) && MidsBut(w, w', tab, 512, 512)
    ensures forall x: nat, y: nat, z: nat {:trigger LeafE(w', tab, x, y, z)} | x < 512 && y < 512 && z < 512 ::
              LeafE(w', tab, x, y, z) == if x == i && y == j then Ent(w', At(T2(w, tab, i, j), z)) else LeafE(w, tab, x, y, z)
  {
    var p := T2(w, tab, i, j);
    FillLeaves(w, w', tab, i, j);
    BelowTop(w, tab, i, j);
    hide Ent, At, GetPaddr, WfTab, T3, T2, Has3, Has2, Pages, Tables3, Tables2, LeavesFilled;
    ShapeAt(w, w', tab, i, j);
    forall x: nat | x < 512 ensures RootE(w', tab, x) == RootE(w, tab, x) { SameElsewhere(w, w', p, tab, x); }
    forall x: nat, y: nat | x < 512 && y < 512 ensures MidE(w', tab, x, y) == MidE(w, tab, x, y) {
      ShapeAt(w, w', tab, x, y);
      BelowTop(w, tab, x, y);
      if Has3(w, tab, x) {
        LeafPageApart(w, tab, i, j, x);
        SameElsewhere(w, w', p, T3(w, tab, x), y);
      }
    }
    forall x: nat, y: nat, z: nat | x < 512 && y < 512 && z < 512
      ensures LeafE(w', tab, x, y, z) == if x == i && y == j then Ent(w', At(p, z)) else LeafE(w, tab, x, y, z)
    {
      ShapeAt(w, w', tab, x, y);
      BelowTop(w, tab, x, y);
      if Has2(w, tab, x, y) && !(x == i && y == j) {
        if T2(w, tab, x, y) == p { MiddlesApart(w, tab, i, j, x, y); }
        SameElsewhere(w, w', p, T2(w, tab, x, y), z);
      }
    }
  }
}
