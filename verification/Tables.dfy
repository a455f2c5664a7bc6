/** Three-level page tables in memory (src/page.c): which pages a table consists of, the flat
    map from virtual pages to frames that it stands for, and what one entry write does to it. */
module Tables {
  import opened Entries

  type Memory = map<nat, Entry>

  function Ent(w: Memory, a: nat): Entry { if a in w then w[a] else ZERO }

  /** Entry k of the table at `p`. */
  function At(p: nat, k: nat): nat { p + 8 * k }

  predicate PageOk(p: nat) { 0 < p < EXACT && p % PAGE == 0 }

  // The tables below `tab` and whether they are there.
  predicate Has3(w: Memory, tab: nat, i: nat) { Ent(w, At(tab, i)).present }
  function T3(w: Memory, tab: nat, i: nat): nat { GetPaddr(Ent(w, At(tab, i))) }
  predicate Has2(w: Memory, tab: nat, i: nat, j: nat) { Has3(w, tab, i) && Ent(w, At(T3(w, tab, i), j)).present }
  function T2(w: Memory, tab: nat, i: nat, j: nat): nat { GetPaddr(Ent(w, At(T3(w, tab, i), j))) }
  function Leaf(w: Memory, tab: nat, i: nat, j: nat, k: nat): Entry { Ent(w, At(T2(w, tab, i, j), k)) }

  datatype Frame = Absent | Mapped(paddr: nat)

  /** The flat map: the frame of the virtual page with indices i, j, k. */
  function MapAt(w: Memory, tab: nat, i: nat, j: nat, k: nat): Frame {
    if Has2(w, tab, i, j) && Leaf(w, tab, i, j, k).present then Mapped(GetPaddr(Leaf(w, tab, i, j, k))) else Absent
  }

  ghost function Tables3(w: Memory, tab: nat): set<nat> { set i | 0 <= i < 512 && Has3(w, tab, i) :: T3(w, tab, i) }

  ghost function Tables2(w: Memory, tab: nat): set<nat> {
    set i, j | 0 <= i < 512 && 0 <= j < 512 && Has2(w, tab, i, j) :: T2(w, tab, i, j)
  }

  /** All pages of the table. */
  ghost function Pages(w: Memory, tab: nat): set<nat> { {tab} + Tables3(w, tab) + Tables2(w, tab) }

  /** No page is used twice. */
  ghost predicate NotShared(w: Memory, tab: nat) {
    && (forall i, i' | 0 <= i < i' < 512 && Has3(w, tab, i) && Has3(w, tab, i') :: T3(w, tab, i) != T3(w, tab, i'))
    && (forall i, j, i', j' | 0 <= i < 512 && 0 <= j < 512 && 0 <= i' < 512 && 0 <= j' < 512
                              && Has2(w, tab, i, j) && Has2(w, tab, i', j') && T2(w, tab, i, j) == T2(w, tab, i', j') ::
          i == i' && j == j')
    && tab !in Tables3(w, tab) && tab !in Tables2(w, tab) && Tables3(w, tab) !! Tables2(w, tab)
  }

  ghost predicate WfTab(w: Memory, tab: nat) {
    (forall p | p in Pages(w, tab) :: PageOk(p)) && NotShared(w, tab)
  }

  lemma PageIn(w: Memory, tab: nat, i: nat, j: nat)
    requires i < 512 && j < 512
    ensures Has3(w, tab, i) ==> T3(w, tab, i) in Tables3(w, tab)
    ensures Has2(w, tab, i, j) ==> T2(w, tab, i, j) in Tables2(w, tab)
  {
  }

  lemma EntriesApart(p: nat, q: nat, i: nat, j: nat)
    requires p % PAGE == 0 && q % PAGE == 0 && i < 512 && j < 512 && At(p, i) == At(q, j)
    ensures p == q && i == j
  {
  }

  /** The pages in `s` have not been written. */
  ghost predicate SameOn(w: Memory, w': Memory, s: set<nat>) {
    forall p, k: nat {:trigger Ent(w', At(p, k))} | p in s && k < 512 :: Ent(w', At(p, k)) == Ent(w, At(p, k))
  }

  /** Only the pages in `s` have been written. */
  ghost predicate OnlyPages(w: Memory, w': Memory, s: set<nat>) {
    forall q: nat, k: nat {:trigger Ent(w', At(q, k))} | q % PAGE == 0 && q !in s && k < 512 ::
      Ent(w', At(q, k)) == Ent(w, At(q, k))
  }

  lemma OnlyThen(w: Memory, w1: Memory, w2: Memory, s: set<nat>, s': set<nat>)
    requires OnlyPages(w, w1, s) && OnlyPages(w1, w2, s')
    ensures OnlyPages(w, w2, s + s')
  {
    hide Ent, At;
    forall q: nat, k: nat {:trigger Ent(w2, At(q, k))} | q % PAGE == 0 && q !in s + s' && k < 512
      ensures Ent(w2, At(q, k)) == Ent(w, At(q, k))
    {
      assert Ent(w2, At(q, k)) == Ent(w1, At(q, k));
    }
  }

  lemma OnlyOne(w: Memory, p: nat, k: nat, e: Entry)
    requires p % PAGE == 0 && k < 512
    ensures OnlyPages(w, w[At(p, k) := e], {p})
  {
    forall q: nat, l: nat | q % PAGE == 0 && q !in {p} && l < 512
      ensures Ent(w[At(p, k) := e], At(q, l)) == Ent(w, At(q, l))
    {
      OtherEntry(w, p, k, e, q, l);
    }
  }

  lemma OnlyKeeps(w: Memory, w': Memory, s: set<nat>, t: set<nat>)
    requires OnlyPages(w, w', s) && s !! t && forall p | p in t :: p % PAGE == 0
    ensures SameOn(w, w', t)
  {
    hide Ent, At;
  }

  /* ---------------- what leaves the shape of the table alone ---------------- */

  /** The same tables are there, at the same places. */
  ghost predicate SameShape(w: Memory, w': Memory, tab: nat) {
    && (forall i: nat {:trigger Has3(w', tab, i)} {:trigger Has3(w, tab, i)} | i < 512 ::
          (Has3(w', tab, i) <==> Has3(w, tab, i)) && (Has3(w, tab, i) ==> T3(w', tab, i) == T3(w, tab, i)))
    && (forall i: nat, j: nat {:trigger Has2(w', tab, i, j)} {:trigger Has2(w, tab, i, j)} | i < 512 && j < 512 ::
          (Has2(w', tab, i, j) <==> Has2(w, tab, i, j)) && (Has2(w, tab, i, j) ==> T2(w', tab, i, j) == T2(w, tab, i, j)))
  }

  ghost predicate SameMap(w: Memory, w': Memory, tab: nat) {
    forall i: nat, j: nat, k: nat | i < 512 && j < 512 && k < 512 :: MapAt(w', tab, i, j, k) == MapAt(w, tab, i, j, k)
  }

  lemma ShapeTables(w: Memory, w': Memory, tab: nat)
    requires SameShape(w, w', tab)
    ensures Tables3(w', tab) == Tables3(w, tab) && Tables2(w', tab) == Tables2(w, tab)
    ensures WfTab(w, tab) ==> WfTab(w', tab)
  {
    hide T3, T2, Has3, Has2;
    forall p ensures p in Tables3(w', tab) <==> p in Tables3(w, tab) {
      if i: nat :| i < 512 && Has3(w', tab, i) && T3(w', tab, i) == p { assert Has3(w, tab, i); }
      if i: nat :| i < 512 && Has3(w, tab, i) && T3(w, tab, i) == p { assert Has3(w', tab, i); }
    }
    forall p ensures p in Tables2(w', tab) <==> p in Tables2(w, tab) {
      if i: nat, j: nat :| i < 512 && j < 512 && Has2(w', tab, i, j) && T2(w', tab, i, j) == p { assert Has2(w, tab, i, j); }
      if i: nat, j: nat :| i < 512 && j < 512 && Has2(w, tab, i, j) && T2(w, tab, i, j) == p { assert Has2(w', tab, i, j); }
    }
  }

  /** A table whose pages have not been written. */
  lemma TableKept(w: Memory, w': Memory, tab: nat)
    requires SameOn(w, w', Pages(w, tab))
    ensures SameShape(w, w', tab) && SameMap(w, w', tab)
    ensures Pages(w', tab) == Pages(w, tab) && (WfTab(w, tab) ==> WfTab(w', tab))
  {
    KeptShape(w, w', tab);
    ShapeTables(w, w', tab);
    hide Ent, At, GetPaddr, SameOn;
    forall i: nat, j: nat, k: nat | i < 512 && j < 512 && k < 512
      ensures MapAt(w', tab, i, j, k) == MapAt(w, tab, i, j, k)
    {
      PageIn(w, tab, i, j);
      if Has2(w, tab, i, j) { SameEntry(w, w', Pages(w, tab), T2(w, tab, i, j), k); }
    }
  }

  lemma SameEntry(w: Memory, w': Memory, s: set<nat>, p: nat, k: nat)
    requires SameOn(w, w', s) && p in s && k < 512
    ensures Ent(w', At(p, k)) == Ent(w, At(p, k))
  {
  }

  lemma KeptShape(w: Memory, w': Memory, tab: nat)
    requires SameOn(w, w', Pages(w, tab))
    ensures SameShape(w, w', tab)
  {
    hide Ent, At, GetPaddr, SameOn;
    forall i: nat | i < 512
      ensures (Has3(w', tab, i) <==> Has3(w, tab, i)) && T3(w', tab, i) == T3(w, tab, i)
    {
      SameEntry(w, w', Pages(w, tab), tab, i);
    }
    forall i: nat, j: nat | i < 512 && j < 512
      ensures (Has2(w', tab, i, j) <==> Has2(w, tab, i, j)) && (Has2(w, tab, i, j) ==> T2(w', tab, i, j) == T2(w, tab, i, j))
    {
      PageIn(w, tab, i, j);
      SameEntry(w, w', Pages(w, tab), tab, i);
      if Has3(w, tab, i) { SameEntry(w, w', Pages(w, tab), T3(w, tab, i), j); }
    }
  }

  /* ---------------- one entry is written ---------------- */

  /** Entries of other pages, and other entries of the page, are as they were. */
  lemma OtherEntry(w: Memory, p: nat, k: nat, e: Entry, q: nat, l: nat)
    requires p % PAGE == 0 && q % PAGE == 0 && k < 512 && l < 512
    ensures Ent(w[At(p, k) := e], At(q, l)) == if q == p && l == k then e else Ent(w, At(q, l))
  {
    if q != p || l != k { if At(q, l) == At(p, k) { EntriesApart(p, q, k, l); } }
  }

  /** Rewriting an entry that leads to a table, but not where it leads. */
  lemma RewriteTop(w: Memory, tab: nat, i: nat, e: Entry)
    requires WfTab(w, tab) && i < 512 && Has3(w, tab, i) && e.present && GetPaddr(e) == T3(w, tab, i)
    ensures SameShape(w, w[At(tab, i) := e], tab) && SameMap(w, w[At(tab, i) := e], tab)
  {
    var w' := w[At(tab, i) := e];
    hide Ent, At, GetPaddr, NotShared;
    assert tab in Pages(w, tab);
    forall x: nat | x < 512 ensures (Has3(w', tab, x) <==> Has3(w, tab, x)) && (Has3(w, tab, x) ==> T3(w', tab, x) == T3(w, tab, x)) {
      OtherEntry(w, tab, i, e, tab, x);
    }
    forall x: nat, j: nat | x < 512 && j < 512
      ensures (Has2(w', tab, x, j) <==> Has2(w, tab, x, j)) && (Has2(w, tab, x, j) ==> T2(w', tab, x, j) == T2(w, tab, x, j))
    {
      OtherEntry(w, tab, i, e, tab, x);
      BelowTop(w, tab, x, j);
      if Has3(w, tab, x) { OtherEntry(w, tab, i, e, T3(w, tab, x), j); }
    }
    forall x: nat, j: nat, k: nat | x < 512 && j < 512 && k < 512 ensures MapAt(w', tab, x, j, k) == MapAt(w, tab, x, j, k) {
      BelowTop(w, tab, x, j);
      if Has2(w, tab, x, j) { OtherEntry(w, tab, i, e, T2(w, tab, x, j), k); }
    }
  }

  /** The pages of a table, as far as its invariant tells them apart. */
  lemma BelowTop(w: Memory, tab: nat, i: nat, j: nat)
    requires WfTab(w, tab) && i < 512 && j < 512
    ensures PageOk(tab)
    ensures Has3(w, tab, i) ==> PageOk(T3(w, tab, i)) && T3(w, tab, i) != tab && T3(w, tab, i) in Pages(w, tab)
    ensures Has2(w, tab, i, j) ==> Has3(w, tab, i) && PageOk(T2(w, tab, i, j)) && T2(w, tab, i, j) != tab
                                   && T2(w, tab, i, j) in Pages(w, tab) && T2(w, tab, i, j) !in Tables3(w, tab)
  {
    PageIn(w, tab, i, j);
    hide T3, T2, Has3;
    assert tab in Pages(w, tab);
  }

  lemma RewriteMiddle(w: Memory, tab: nat, i: nat, j: nat, e: Entry)
    requires WfTab(w, tab) && i < 512 && j < 512 && Has2(w, tab, i, j) && e.present && GetPaddr(e) == T2(w, tab, i, j)
    ensures var w' := w[At(T3(w, tab, i), j) := e]; SameShape(w, w', tab) && SameMap(w, w', tab)
  {
    var p := T3(w, tab, i);
    var w' := w[At(p, j) := e];
    BelowTop(w, tab, i, j);
    PageIn(w, tab, i, j);
    hide Ent, At, GetPaddr, WfTab, Pages, Tables3, Tables2;
    forall x: nat | x < 512 ensures (Has3(w', tab, x) <==> Has3(w, tab, x)) && (Has3(w, tab, x) ==> T3(w', tab, x) == T3(w, tab, x)) {
      OtherEntry(w, p, j, e, tab, x);
    }
    forall x: nat, y: nat | x < 512 && y < 512
      ensures (Has2(w', tab, x, y) <==> Has2(w, tab, x, y)) && (Has2(w, tab, x, y) ==> T2(w', tab, x, y) == T2(w, tab, x, y))
    {
      OtherEntry(w, p, j, e, tab, x);
      BelowTop(w, tab, x, y);
      if Has3(w, tab, x) {
        OtherEntry(w, p, j, e, T3(w, tab, x), y);
        if T3(w, tab, x) == p { TopsApart(w, tab, x, i); }
      }
    }
    forall x: nat, y: nat, k: nat | x < 512 && y < 512 && k < 512 ensures MapAt(w', tab, x, y, k) == MapAt(w, tab, x, y, k) {
      BelowTop(w, tab, x, y);
      if Has2(w, tab, x, y) { OtherEntry(w, p, j, e, T2(w, tab, x, y), k); }
    }
  }

  lemma TopsApart(w: Memory, tab: nat, i: nat, x: nat)
    requires WfTab(w, tab) && i < 512 && x < 512 && Has3(w, tab, i) && Has3(w, tab, x) && T3(w, tab, i) == T3(w, tab, x)
    ensures i == x
  {
    hide T3, Has3, T2, Has2;
  }

  lemma MiddlesApart(w: Memory, tab: nat, i: nat, j: nat, x: nat, y: nat)
    requires WfTab(w, tab) && i < 512 && x < 512 && j < 512 && y < 512
    requires Has2(w, tab, i, j) && Has2(w, tab, x, y) && T2(w, tab, i, j) == T2(w, tab, x, y)
    ensures i == x && j == y
  {
    hide T3, Has3, T2, Has2;
  }

  /** Writing a leaf changes the map at one place. */
  lemma WriteLeaf(w: Memory, tab: nat, i: nat, j: nat, k: nat, e: Entry)
    requires WfTab(w, tab) && i < 512 && j < 512 && k < 512 && Has2(w, tab, i, j)
    ensures var w' := w[At(T2(w, tab, i, j), k) := e];
            && SameShape(w, w', tab)
            && forall x: nat, y: nat, z: nat | x < 512 && y < 512 && z < 512 ::
                 MapAt(w', tab, x, y, z) == if x == i && y == j && z == k then (if e.present then Mapped(GetPaddr(e)) else Absent)
                                            else MapAt(w, tab, x, y, z)
  {
    var p := T2(w, tab, i, j);
    var w' := w[At(p, k) := e];
    BelowTop(w, tab, i, j);
    hide Ent, At, GetPaddr, WfTab;
    forall x: nat | x < 512 ensures (Has3(w', tab, x) <==> Has3(w, tab, x)) && (Has3(w, tab, x) ==> T3(w', tab, x) == T3(w, tab, x)) {
      OtherEntry(w, p, k, e, tab, x);
    }
    forall x: nat, y: nat | x < 512 && y < 512
      ensures (Has2(w', tab, x, y) <==> Has2(w, tab, x, y)) && (Has2(w, tab, x, y) ==> T2(w', tab, x, y) == T2(w, tab, x, y))
    {
      OtherEntry(w, p, k, e, tab, x);
      BelowTop(w, tab, x, y);
      PageIn(w, tab, x, y);
      if Has3(w, tab, x) { OtherEntry(w, p, k, e, T3(w, tab, x), y); }
    }
    forall x: nat, y: nat, z: nat | x < 512 && y < 512 && z < 512
      ensures MapAt(w', tab, x, y, z) == if x == i && y == j && z == k then (if e.present then Mapped(GetPaddr(e)) else Absent)
                                         else MapAt(w, tab, x, y, z)
    {
      BelowTop(w, tab, x, y);
      if Has2(w, tab, x, y) {
        OtherEntry(w, p, k, e, T2(w, tab, x, y), z);
        if T2(w, tab, x, y) == p { MiddlesApart(w, tab, i, j, x, y); }
      }
    }
  }

  /* ---------------- a new table is hung in ---------------- */

  ghost predicate Blank(w: Memory, p: nat) { forall k: nat {:trigger Ent(w, At(p, k))} | k < 512 :: Ent(w, At(p, k)) == ZERO }

  /** The first entry of a new 512 GiB region. */
  lemma HangTop(w: Memory, tab: nat, i: nat, e: Entry, p: nat)
    requires WfTab(w, tab) && i < 512 && !Has3(w, tab, i) && e.present && GetPaddr(e) == p
    requires PageOk(p) && p !in Pages(w, tab) && Blank(w, p)
    ensures var w' := w[At(tab, i) := e];
            && WfTab(w', tab) && Pages(w', tab) == Pages(w, tab) + {p} && SameMap(w, w', tab)
            && Has3(w', tab, i) && T3(w', tab, i) == p && forall j: nat | j < 512 :: !Has2(w', tab, i, j)
  {
    var w' := w[At(tab, i) := e];
    HangTopShape(w, tab, i, e, p);
    HangTopSets(w, w', tab, i, p);
    hide Ent, At, GetPaddr, WfTab, Pages;
    forall x: nat, y: nat, z: nat | x < 512 && y < 512 && z < 512 ensures MapAt(w', tab, x, y, z) == MapAt(w, tab, x, y, z) {
      BelowTop(w, tab, x, y);
      if Has2(w, tab, x, y) { OtherEntry(w, tab, i, e, T2(w, tab, x, y), z); }
    }
  }

  /** Only entry i of the root is new, and it has nothing below it. */
  ghost predicate HungTop(w: Memory, w': Memory, tab: nat, i: nat, p: nat) {
    && (forall x: nat {:trigger Has3(w', tab, x)} {:trigger Has3(w, tab, x)} | x < 512 ::
          if x == i then Has3(w', tab, x) && T3(w', tab, x) == p && !Has3(w, tab, x)
          else (Has3(w', tab, x) <==> Has3(w, tab, x)) && (Has3(w, tab, x) ==> T3(w', tab, x) == T3(w, tab, x)))
    && (forall x: nat, y: nat {:trigger Has2(w', tab, x, y)} {:trigger Has2(w, tab, x, y)} | x < 512 && y < 512 ::
          (Has2(w', tab, x, y) <==> Has2(w, tab, x, y)) && (Has2(w, tab, x, y) ==> T2(w', tab, x, y) == T2(w, tab, x, y) && x != i))
  }

  lemma HangTopShape(w: Memory, tab: nat, i: nat, e: Entry, p: nat)
    requires WfTab(w, tab) && i < 512 && !Has3(w, tab, i) && e.present && GetPaddr(e) == p
    requires PageOk(p) && p !in Pages(w, tab) && Blank(w, p)
    ensures HungTop(w, w[At(tab, i) := e], tab, i, p)
  {
    var w' := w[At(tab, i) := e];
    BelowTop(w, tab, i, i);
    assert p != tab;
    hide Ent, At, GetPaddr, WfTab, Pages;
    forall x: nat | x < 512
      ensures if x == i then Has3(w', tab, x) && T3(w', tab, x) == p && !Has3(w, tab, x)
              else (Has3(w', tab, x) <==> Has3(w, tab, x)) && (Has3(w, tab, x) ==> T3(w', tab, x) == T3(w, tab, x))
    {
      OtherEntry(w, tab, i, e, tab, x);
    }
    forall x: nat, y: nat | x < 512 && y < 512
      ensures (Has2(w', tab, x, y) <==> Has2(w, tab, x, y)) && (Has2(w, tab, x, y) ==> T2(w', tab, x, y) == T2(w, tab, x, y) && x != i)
    {
      BelowTop(w, tab, x, y);
      OtherEntry(w, tab, i, e, tab, x);
      OtherEntry(w, tab, i, e, p, y);
      if Has3(w, tab, x) { OtherEntry(w, tab, i, e, T3(w, tab, x), y); }
      assert Ent(w, At(p, y)) == ZERO;
    }
  }

  lemma HangTopSets(w: Memory, w': Memory, tab: nat, i: nat, p: nat)
    requires WfTab(w, tab) && i < 512 && PageOk(p) && p !in Pages(w, tab) && HungTop(w, w', tab, i, p)
    ensures WfTab(w', tab) && Pages(w', tab) == Pages(w, tab) + {p}
  {
    hide T3, T2, Has3, Has2;
    assert Has3(w', tab, i);
    forall q ensures q in Tables3(w', tab) <==> q in Tables3(w, tab) || q == p {
      if x: nat :| x < 512 && Has3(w', tab, x) && T3(w', tab, x) == q { assert x != i ==> Has3(w, tab, x); }
      if x: nat :| x < 512 && Has3(w, tab, x) && T3(w, tab, x) == q { assert Has3(w', tab, x); }
    }
    forall q ensures q in Tables2(w', tab) <==> q in Tables2(w, tab) {
      if x: nat, y: nat :| x < 512 && y < 512 && Has2(w', tab, x, y) && T2(w', tab, x, y) == q { assert Has2(w, tab, x, y); }
      if x: nat, y: nat :| x < 512 && y < 512 && Has2(w, tab, x, y) && T2(w, tab, x, y) == q { assert Has2(w', tab, x, y); }
    }
    assert Tables3(w', tab) == Tables3(w, tab) + {p} && Tables2(w', tab) == Tables2(w, tab);
    forall x: nat | x < 512 && Has3(w, tab, x) ensures T3(w, tab, x) != p { assert T3(w, tab, x) in Tables3(w, tab); }
  }

  /** The first entry of a new 1 GiB region. */
  lemma HangMiddle(w: Memory, tab: nat, i: nat, j: nat, e: Entry, p: nat)
    requires WfTab(w, tab) && i < 512 && j < 512 && Has3(w, tab, i) && !Has2(w, tab, i, j) && e.present && GetPaddr(e) == p
    requires PageOk(p) && p !in Pages(w, tab) && Blank(w, p)
    ensures var w' := w[At(T3(w, tab, i), j) := e];
            && WfTab(w', tab) && Pages(w', tab) == Pages(w, tab) + {p} && SameMap(w, w', tab)
            && Has2(w', tab, i, j) && T2(w', tab, i, j) == p && HungMiddle(w, w', tab, i, j, p)
  {
    var q := T3(w, tab, i);
    var w' := w[At(q, j) := e];
    BelowTop(w, tab, i, j);
    assert p != q && p != tab && q in Tables3(w, tab) by { PageIn(w, tab, i, j); }
    HangMiddleShape(w, tab, i, j, e, p);
    HangMiddleSets(w, w', tab, i, j, p);
    hide Ent, At, GetPaddr, WfTab, Pages;
    forall x: nat, y: nat, z: nat | x < 512 && y < 512 && z < 512 ensures MapAt(w', tab, x, y, z) == MapAt(w, tab, x, y, z) {
      BelowTop(w, tab, x, y);
      OtherEntry(w, q, j, e, p, z);
      if Has2(w, tab, x, y) { OtherEntry(w, q, j, e, T2(w, tab, x, y), z); }
      assert Ent(w, At(p, z)) == ZERO;
    }
  }

  ghost predicate HungMiddle(w: Memory, w': Memory, tab: nat, i: nat, j: nat, p: nat) {
    && (forall x: nat {:trigger Has3(w', tab, x)} {:trigger Has3(w, tab, x)} | x < 512 ::
          (Has3(w', tab, x) <==> Has3(w, tab, x)) && (Has3(w, tab, x) ==> T3(w', tab, x) == T3(w, tab, x)))
    && (forall x: nat, y: nat {:trigger Has2(w', tab, x, y)} {:trigger Has2(w, tab, x, y)} | x < 512 && y < 512 ::
          if x == i && y == j then Has2(w', tab, x, y) && T2(w', tab, x, y) == p && !Has2(w, tab, x, y)
          else (Has2(w', tab, x, y) <==> Has2(w, tab, x, y)) && (Has2(w, tab, x, y) ==> T2(w', tab, x, y) == T2(w, tab, x, y)))
  }

  lemma HangMiddleShape(w: Memory, tab: nat, i: nat, j: nat, e: Entry, p: nat)
    requires WfTab(w, tab) && i < 512 && j < 512 && Has3(w, tab, i) && !Has2(w, tab, i, j) && e.present && GetPaddr(e) == p
    ensures HungMiddle(w, w[At(T3(w, tab, i), j) := e], tab, i, j, p)
  {
    var q := T3(w, tab, i);
    var w' := w[At(q, j) := e];
    BelowTop(w, tab, i, j);
    hide Ent, At, GetPaddr, WfTab, Pages;
    forall x: nat | x < 512 ensures (Has3(w', tab, x) <==> Has3(w, tab, x)) && (Has3(w, tab, x) ==> T3(w', tab, x) == T3(w, tab, x)) {
      OtherEntry(w, q, j, e, tab, x);
    }
    forall x: nat, y: nat | x < 512 && y < 512
      ensures if x == i && y == j then Has2(w', tab, x, y) && T2(w', tab, x, y) == p && !Has2(w, tab, x, y)
              else (Has2(w', tab, x, y) <==> Has2(w, tab, x, y)) && (Has2(w, tab, x, y) ==> T2(w', tab, x, y) == T2(w, tab, x, y))
    {
      BelowTop(w, tab, x, y);
      OtherEntry(w, q, j, e, tab, x);
      if Has3(w, tab, x) {
        OtherEntry(w, q, j, e, T3(w, tab, x), y);
        if T3(w, tab, x) == q { TopsApart(w, tab, x, i); }
      }
    }
  }

  lemma HangMiddleSets(w: Memory, w': Memory, tab: nat, i: nat, j: nat, p: nat)
    requires WfTab(w, tab) && i < 512 && j < 512 && PageOk(p) && p !in Pages(w, tab) && HungMiddle(w, w', tab, i, j, p)
    ensures WfTab(w', tab) && Pages(w', tab) == Pages(w, tab) + {p}
  {
    hide T3, T2, Has3, Has2;
    assert Has2(w', tab, i, j);
    forall q ensures q in Tables3(w', tab) <==> q in Tables3(w, tab) {
      if x: nat :| x < 512 && Has3(w', tab, x) && T3(w', tab, x) == q { assert Has3(w, tab, x); }
      if x: nat :| x < 512 && Has3(w, tab, x) && T3(w, tab, x) == q { assert Has3(w', tab, x); }
    }
    forall q ensures q in Tables2(w', tab) <==> q in Tables2(w, tab) || q == p {
      if x: nat, y: nat :| x < 512 && y < 512 && Has2(w', tab, x, y) && T2(w', tab, x, y) == q {
        assert !(x == i && y == j) ==> Has2(w, tab, x, y);
      }
      if x: nat, y: nat :| x < 512 && y < 512 && Has2(w, tab, x, y) && T2(w, tab, x, y) == q { assert Has2(w', tab, x, y); }
    }
    assert Tables3(w', tab) == Tables3(w, tab) && Tables2(w', tab) == Tables2(w, tab) + {p};
    forall x: nat, y: nat | x < 512 && y < 512 && Has2(w, tab, x, y) ensures T2(w, tab, x, y) != p {
      assert T2(w, tab, x, y) in Tables2(w, tab);
    }
  }

  /* ---------------- other writes below a table ---------------- */

  /** An entry that is absent stays absent. */
  lemma AbsentTop(w: Memory, tab: nat, i: nat, e: Entry)
    requires WfTab(w, tab) && i < 512 && !Has3(w, tab, i) && !e.present
    ensures SameShape(w, w[At(tab, i) := e], tab) && SameMap(w, w[At(tab, i) := e], tab)
  {
    var w' := w[At(tab, i) := e];
    hide Ent, At, GetPaddr, NotShared;
    assert tab in Pages(w, tab);
    forall x: nat | x < 512 ensures (Has3(w', tab, x) <==> Has3(w, tab, x)) && (Has3(w, tab, x) ==> T3(w', tab, x) == T3(w, tab, x)) {
      OtherEntry(w, tab, i, e, tab, x);
    }
    forall x: nat, j: nat | x < 512 && j < 512
      ensures (Has2(w', tab, x, j) <==> Has2(w, tab, x, j)) && (Has2(w, tab, x, j) ==> T2(w', tab, x, j) == T2(w, tab, x, j))
    {
      OtherEntry(w, tab, i, e, tab, x);
      BelowTop(w, tab, x, j);
      if Has3(w, tab, x) { OtherEntry(w, tab, i, e, T3(w, tab, x), j); }
    }
    forall x: nat, j: nat, k: nat | x < 512 && j < 512 && k < 512 ensures MapAt(w', tab, x, j, k) == MapAt(w, tab, x, j, k) {
      BelowTop(w, tab, x, j);
      if Has2(w, tab, x, j) { OtherEntry(w, tab, i, e, T2(w, tab, x, j), k); }
    }
  }

  lemma AbsentMiddle(w: Memory, tab: nat, i: nat, j: nat, e: Entry)
    requires WfTab(w, tab) && i < 512 && j < 512 && Has3(w, tab, i) && !Has2(w, tab, i, j) && !e.present
    ensures var w' := w[At(T3(w, tab, i), j) := e]; SameShape(w, w', tab) && SameMap(w, w', tab)
  {
    var p := T3(w, tab, i);
    var w' := w[At(p, j) := e];
    BelowTop(w, tab, i, j);
    PageIn(w, tab, i, j);
    hide Ent, At, GetPaddr, WfTab, Pages, Tables3, Tables2;
    forall x: nat | x < 512 ensures (Has3(w', tab, x) <==> Has3(w, tab, x)) && (Has3(w, tab, x) ==> T3(w', tab, x) == T3(w, tab, x)) {
      OtherEntry(w, p, j, e, tab, x);
    }
    forall x: nat, y: nat | x < 512 && y < 512
      ensures (Has2(w', tab, x, y) <==> Has2(w, tab, x, y)) && (Has2(w, tab, x, y) ==> T2(w', tab, x, y) == T2(w, tab, x, y))
    {
      OtherEntry(w, p, j, e, tab, x);
      BelowTop(w, tab, x, y);
      if Has3(w, tab, x) {
        OtherEntry(w, p, j, e, T3(w, tab, x), y);
        if T3(w, tab, x) == p { TopsApart(w, tab, x, i); }
      }
    }
    forall x: nat, y: nat, k: nat | x < 512 && y < 512 && k < 512 ensures MapAt(w', tab, x, y, k) == MapAt(w, tab, x, y, k) {
      BelowTop(w, tab, x, y);
      if Has2(w, tab, x, y) { OtherEntry(w, p, j, e, T2(w, tab, x, y), k); }
    }
  }

  /** Only the pages with first indices i, j map differently, as the entries of the page `q` say. */
  ghost predicate LeavesFilled(w: Memory, w': Memory, tab: nat, i: nat, j: nat, q: nat) {
    forall x: nat, y: nat, z: nat {:trigger MapAt(w', tab, x, y, z)} | x < 512 && y < 512 && z < 512 ::
      MapAt(w', tab, x, y, z)
      == if x == i && y == j then (var e := Ent(w', At(q, z)); if e.present then Mapped(GetPaddr(e)) else Absent)
         else MapAt(w, tab, x, y, z)
  }

  /** A whole page of leaves has been written. */
  lemma FillLeaves(w: Memory, w': Memory, tab: nat, i: nat, j: nat)
    requires WfTab(w, tab) && i < 512 && j < 512 && Has2(w, tab, i, j) && OnlyPages(w, w', {T2(w, tab, i, j)})
    ensures SameShape(w, w', tab) && LeavesFilled(w, w', tab, i, j, T2(w, tab, i, j))
  {
    var p := T2(w, tab, i, j);
    BelowTop(w, tab, i, j);
    hide Ent, At, GetPaddr, WfTab, Pages, Tables3, Tables2;
    forall x: nat | x < 512 ensures (Has3(w', tab, x) <==> Has3(w, tab, x)) && (Has3(w, tab, x) ==> T3(w', tab, x) == T3(w, tab, x)) {
      BelowTop(w, tab, x, 0);
      SameElsewhere(w, w', p, tab, x);
    }
    forall x: nat, y: nat | x < 512 && y < 512
      ensures (Has2(w', tab, x, y) <==> Has2(w, tab, x, y)) && (Has2(w, tab, x, y) ==> T2(w', tab, x, y) == T2(w, tab, x, y))
    {
      BelowTop(w, tab, x, y);
      SameElsewhere(w, w', p, tab, x);
      if Has3(w, tab, x) {
        LeafPageApart(w, tab, i, j, x);
        SameElsewhere(w, w', p, T3(w, tab, x), y);
      }
    }
    forall x: nat, y: nat, z: nat | x < 512 && y < 512 && z < 512
      ensures MapAt(w', tab, x, y, z)
              == if x == i && y == j then (var e := Ent(w', At(p, z)); if e.present then Mapped(GetPaddr(e)) else Absent)
                 else MapAt(w, tab, x, y, z)
    {
      BelowTop(w, tab, x, y);
      if Has2(w, tab, x, y) && !(x == i && y == j) {
        if T2(w, tab, x, y) == p { MiddlesApart(w, tab, i, j, x, y); }
        SameElsewhere(w, w', p, T2(w, tab, x, y), z);
      }
    }
  }

  lemma SameElsewhere(w: Memory, w': Memory, p: nat, q: nat, k: nat)
    requires OnlyPages(w, w', {p}) && q % PAGE == 0 && q != p && k < 512
    ensures Ent(w', At(q, k)) == Ent(w, At(q, k))
  {
  }

  lemma LeafPageApart(w: Memory, tab: nat, i: nat, j: nat, x: nat)
    requires WfTab(w, tab) && i < 512 && j < 512 && x < 512 && Has2(w, tab, i, j) && Has3(w, tab, x)
    ensures T2(w, tab, i, j) != T3(w, tab, x)
  {
    PageIn(w, tab, i, j);
    PageIn(w, tab, x, j);
    hide T3, T2, Has3, Has2;
  }

  /* ---------------- a table whose last entries are not yet written ---------------- */

  /** The root's entries from n on read as blank. */
  ghost function Trim(w: Memory, tab: nat, n: nat): Memory {
    w + map a: nat | a in TailOf(tab, n) :: ZERO
  }

  ghost function TailOf(tab: nat, n: nat): set<nat> { set k: nat | n <= k < 512 :: At(tab, k) }

  lemma TrimEnt(w: Memory, tab: nat, n: nat, p: nat, k: nat)
    requires tab % PAGE == 0 && p % PAGE == 0 && k < 512
    ensures Ent(Trim(w, tab, n), At(p, k)) == if p == tab && k >= n then ZERO else Ent(w, At(p, k))
  {
    var a := At(p, k);
    if a in TailOf(tab, n) {
      var l: nat :| n <= l < 512 && At(tab, l) == a;
      EntriesApart(p, tab, k, l);
    }
    hide At;
  }

  lemma TrimTop(w: Memory, tab: nat, i: nat, e: Entry)
    requires tab % PAGE == 0 && i < 512
    ensures Trim(w[At(tab, i) := e], tab, i + 1) == Trim(w, tab, i)[At(tab, i) := e]
  {
    forall k: nat | i + 1 <= k < 512 ensures At(tab, k) != At(tab, i) { }
    assert TailOf(tab, i) == TailOf(tab, i + 1) + {At(tab, i)};
    assert At(tab, i) !in TailOf(tab, i + 1);
  }

  lemma TrimOther(w: Memory, tab: nat, n: nat, p: nat, k: nat, e: Entry)
    requires tab % PAGE == 0 && p % PAGE == 0 && k < 512 && p != tab
    ensures Trim(w[At(p, k) := e], tab, n) == Trim(w, tab, n)[At(p, k) := e]
  {
    forall l: nat | n <= l < 512 ensures At(tab, l) != At(p, k) {
      if At(tab, l) == At(p, k) { EntriesApart(tab, p, l, k); }
    }
    assert At(p, k) !in TailOf(tab, n);
  }

  lemma TrimOnly(w: Memory, w': Memory, tab: nat, n: nat, s: set<nat>)
    requires tab % PAGE == 0 && OnlyPages(w, w', s)
    ensures OnlyPages(Trim(w, tab, n), Trim(w', tab, n), s)
  {
    hide At, Ent, Trim;
    forall q: nat, k: nat | q % PAGE == 0 && q !in s && k < 512
      ensures Ent(Trim(w', tab, n), At(q, k)) == Ent(Trim(w, tab, n), At(q, k))
    {
      TrimEnt(w, tab, n, q, k);
      TrimEnt(w', tab, n, q, k);
    }
  }

  lemma TrimNothing(w: Memory, tab: nat)
    ensures Trim(w, tab, 512) == w
  {
    assert TailOf(tab, 512) == {};
  }

  /** With all of the root blank there is no other table. */
  lemma TrimAll(w: Memory, tab: nat)
    requires PageOk(tab)
    ensures var v := Trim(w, tab, 0);
            && WfTab(v, tab) && Pages(v, tab) == {tab} && (forall x: nat | x < 512 :: !Has3(v, tab, x))
            && forall x: nat, y: nat, z: nat | x < 512 && y < 512 && z < 512 :: MapAt(v, tab, x, y, z) == Absent
  {
    var v := Trim(w, tab, 0);
    forall x: nat | x < 512 ensures !Has3(v, tab, x) { TrimEnt(w, tab, 0, tab, x); }
    hide Trim;
    assert Tables3(v, tab) == {} && Tables2(v, tab) == {};
  }
}
