/** Mapping pages (src/page.c).  Table pages come from a pool that hands them out zeroed and
    does not re-enter the page allocator; physical addresses lie below 2^43. */
module Paging {
  import opened Lists
  import opened BinMaps
  import opened Entries
  import opened Tables
  import opened Contents

  const MAP_BYTES: nat := 16777216

  /** The indices of an address in the tables of the three levels. */
  function I4(vir: nat): (i: nat) ensures i < 512 { vir / 0x80_0000_0000 % 512 }
  function I3(vir: nat): (i: nat) ensures i < 512 { vir / 0x4000_0000 % 512 }
  function I2(vir: nat): (i: nat) ensures i < 512 { vir / 0x20_0000 % 512 }

  // The flags that `page_alloc` (kernel) and `page_alloc_tab` set at each level.
  function TopFlags(e: Entry, kernel: bool): Entry {
    if kernel then e.(present := true, rw := true, isuser := true, bit6 := true)
    else e.(present := true, rw := true, isuser := true, noexec := false)
  }

  function MiddleFlags(e: Entry, kernel: bool, fresh_: bool): Entry {
    if kernel then e.(present := true, rw := true, isuser := e.isuser && !fresh_, bit6 := true)
    else e.(present := true, rw := true, isuser := true, bit6 := false, noexec := false)
  }

  function LeafFlags(e: Entry, kernel: bool): Entry {
    if kernel then e.(present := true, rw := true, bit7 := true, attr := false, isuser := false, bit58 := true)
    else e.(present := true, rw := true, bit7 := true, attr := false, isuser := true, bit58 := false, noexec := false)
  }

  /* ---------------- what these flags come to ---------------- */

  /** Bits that no mapping touches. */
  ghost predicate OthersKept(e0: Entry, e: Entry) {
    e.writeThrough == e0.writeThrough && e.nocache == e0.nocache && e.isaccessed == e0.isaccessed && e.custom == e0.custom && e.avl6 == e0.avl6
  }

  /** The root's entry on the way to a mapped page: writable, open to users, and never a page itself
      unless it was one. */
  ghost predicate RootMade(e0: Entry, e: Entry, kernel: bool) {
    && e.present && e.rw && e.isuser && e.bit6 == (kernel || e0.bit6)
    && e.bit7 == (e0.present && e0.bit7) && e.noexec == (kernel && e0.present && e0.noexec)
    && OthersKept(e0, e) && e.bit58 == e0.bit58 && e.pkey == e0.pkey
  }

  /** The entry below it: open to users for a user page, and for a kernel page only if it was. */
  ghost predicate MidMade(e0: Entry, e: Entry, kernel: bool) {
    && e.present && e.rw && e.isuser == (!kernel || (e0.present && e0.isuser)) && e.bit6 == kernel
    && e.bit7 == (e0.present && e0.bit7) && e.noexec == (kernel && e0.present && e0.noexec)
    && OthersKept(e0, e) && e.bit58 == e0.bit58 && e.pkey == e0.pkey
  }

  /** The leaf: a writable, executable 2 MiB page, open to users exactly if it is not the kernel's. */
  ghost predicate LeafMade(e0: Entry, e: Entry, kernel: bool) {
    && e.present && e.rw && e.bit7 && e.isuser == !kernel && !e.noexec && !e.attr && e.bit58 == kernel
    && OthersKept(e0, e) && e.bit6 == e0.bit6 && e.pkey == 0
  }

  lemma RootIsMade(e0: Entry, p: nat, kernel: bool)
    ensures !e0.present ==> RootMade(e0, TopFlags(SetPaddr(e0, p), kernel), kernel)
    ensures e0.present ==> RootMade(e0, TopFlags(e0, kernel), kernel)
  {
    hide SetPaddr, TopFlags, RootMade;
    if e0.present {
      FlagsOfRoot(e0, e0, kernel);
    } else {
      SetPaddrKeeps(e0, p);
      FlagsOfRoot(e0, SetPaddr(e0, p), kernel);
    }
  }

  /** `s` is the entry before its flags are set: as it was, or with a new address. */
  ghost predicate Addressed(e0: Entry, s: Entry) {
    && s.isuser == e0.isuser && s.bit6 == e0.bit6 && s.bit7 == (e0.present && e0.bit7) && s.noexec == (e0.present && e0.noexec)
    && OthersKept(e0, s) && s.bit58 == e0.bit58 && s.pkey == e0.pkey
  }

  lemma FlagsOfRoot(e0: Entry, s: Entry, kernel: bool)
    requires Addressed(e0, s)
    ensures RootMade(e0, TopFlags(s, kernel), kernel)
  {
  }

  lemma FlagsOfMid(e0: Entry, s: Entry, kernel: bool)
    requires Addressed(e0, s)
    ensures MidMade(e0, MiddleFlags(s, kernel, !e0.present), kernel)
  {
  }

  /** `set_paddr` writes the address, and clears noexec and bit 7. */
  lemma SetPaddrKeeps(e: Entry, p: nat)
    ensures !e.present ==> Addressed(e, SetPaddr(e, p))
  {
  }

  lemma MidIsMade(e0: Entry, p: nat, kernel: bool)
    ensures !e0.present ==> MidMade(e0, MiddleFlags(SetPaddr(e0, p), kernel, true), kernel)
    ensures e0.present ==> MidMade(e0, MiddleFlags(e0, kernel, false), kernel)
  {
    hide SetPaddr, MiddleFlags, MidMade;
    if e0.present {
      FlagsOfMid(e0, e0, kernel);
    } else {
      SetPaddrKeeps(e0, p);
      FlagsOfMid(e0, SetPaddr(e0, p), kernel);
    }
  }

  lemma LeafIsMade(e0: Entry, phy: nat, kernel: bool)
    ensures LeafMade(e0, LeafFlags(SetPaddrPde(e0, phy), kernel), kernel)
  {
  }

  /** What the processor grants on the way through the three levels. */
  datatype Rights = Rights(write: bool, user: bool, exec: bool, large: bool)

  ghost function RightsAt(w: Memory, tab: nat, x: nat, y: nat, z: nat): Rights {
    var r, m, l := RootE(w, tab, x), MidE(w, tab, x, y), LeafE(w, tab, x, y, z);
    Rights(r.rw && m.rw && l.rw, r.isuser && m.isuser && l.isuser, !r.noexec && !m.noexec && !l.noexec, !m.bit7 && l.bit7)
  }

  ghost predicate PoolOk(pool: seq<nat>) { NoDup(pool) && forall p | p in pool :: PageOk(p) }

  class Pager {
    var words: Memory            // the words of all page tables
    var pool: seq<nat>           // free pages of the page heap, the next one last
    const physMap: array<nat>    // phys_mem_map: one bit per frame

    ghost predicate MapOk()
      reads physMap
    {
      physMap.Length == MAP_BYTES
    }

    predicate Used(f: nat)
      requires physMap.Length == MAP_BYTES && f < 8 * MAP_BYTES
      reads physMap
    {
      Marked(physMap[f / 8], f % 8)
    }

    constructor ()
      ensures MapOk() && pool == []
    {
      words, pool := map[], [];
      physMap := new nat[MAP_BYTES](_ => 0);
    }

    /** `k_pageobj_alloc(&page_heap, 4096)` */
    method AllocPage() returns (p: nat)
      requires PoolOk(pool) && pool != []
      modifies this`words, this`pool
      ensures old(pool) == pool + [p] && PageOk(p) && PoolOk(pool) && p !in pool && Blank(words, p)
      ensures OnlyPages(old(words), words, {p})
    {
      assert pool[|pool| - 1] in pool;
      p := pool[|pool| - 1];
      pool := pool[..|pool| - 1];
      ghost var w := words;
      var i := 0;
      while i < 512
        invariant i <= 512
        invariant forall k: nat {:trigger Ent(words, At(p, k))} | k < i :: Ent(words, At(p, k)) == ZERO
        invariant OnlyPages(w, words, {p})
        modifies this`words
      {
        ghost var w1 := words;
        words := words[At(p, i) := ZERO];
        OnlyOne(w1, p, i, ZERO);
        OnlyThen(w, w1, words, {p}, {p});
        assert {p} + {p} == {p};
        forall k: nat | k < 512 ensures Ent(words, At(p, k)) == if k == i then ZERO else Ent(w1, At(p, k)) {
          OtherEntry(w1, p, i, ZERO, p, k);
        }
        i := i + 1;
      }
    }

    /** `phys_mem_map[...] |= ...` */
    method MarkFrame(paddr: nat)
      requires MapOk() && paddr < 0x1_0000_0000_0000
      modifies physMap
      ensures forall f: nat | f < 8 * MAP_BYTES :: Used(f) <==> old(Used(f)) || f == paddr / FRAME
    {
      var f0 := paddr / FRAME;
      FrameInMap(paddr);
      forall f: nat | f < 8 * MAP_BYTES
        ensures f / 8 == f0 / 8 ==> (Marked(Mark(physMap[f0 / 8], f0 % 8), f % 8) <==> Used(f) || f == f0)
      {
        MarkBits(physMap[f0 / 8], f0 % 8, f % 8);
      }
      physMap[paddr / FRAME / 8] := Mark(physMap[paddr / FRAME / 8], paddr / FRAME % 8);
    }

    /** `phys_mem_map[...] &= ~...` */
    method UnmarkFrame(paddr: nat)
      requires MapOk() && paddr < 0x1_0000_0000_0000
      modifies physMap
      ensures forall f: nat | f < 8 * MAP_BYTES :: Used(f) <==> old(Used(f)) && f != paddr / FRAME
    {
      var f0 := paddr / FRAME;
      FrameInMap(paddr);
      forall f: nat | f < 8 * MAP_BYTES
        ensures f / 8 == f0 / 8 ==> (Marked(Unmark(physMap[f0 / 8], f0 % 8), f % 8) <==> Used(f) && f != f0)
      {
        MarkBits(physMap[f0 / 8], f0 % 8, f % 8);
      }
      physMap[paddr / FRAME / 8] := Unmark(physMap[paddr / FRAME / 8], paddr / FRAME % 8);
    }

    /** The table at `tab`, and none of its pages in the pool. */
    ghost predicate TabOk(tab: nat)
      reads this
    {
      WfTab(words, tab) && PoolOk(pool) && Pages(words, tab) !! Elems(pool)
    }

    /** The entry for an address in the root leads to a table. */
    method EnsureTop(tab: nat, i: nat, kernel: bool)
      requires TabOk(tab) && i < 512 && pool != []
      modifies this`words, this`pool
      ensures TabOk(tab) && Has3(words, tab, i) && Grown(old(words), old(pool), words, pool, tab, 1)
      ensures SameBut(old(words), words, tab, i, 512, 512, 512, 512, 512) && RootMade(old(RootE(words, tab, i)), RootE(words, tab, i), kernel)
    {
      hide Ent, WfTab, Pages, GetPaddr, SetPaddr, SameMap, OnlyPages, Blank, At, Grown, SameBut, RootMade, TopFlags;
      ghost var w, free := words, pool;
      RootOk(w, tab);
      if !Ent(words, At(tab, i)).present {
        var paddr := AllocPage();
        ghost var w1 := words;
        FreshPage(w, w1, tab, free, pool, paddr);
        words := words[At(tab, i) := SetPaddr(Ent(words, At(tab, i)), paddr)];
        words := words[At(tab, i) := TopFlags(Ent(words, At(tab, i)), kernel)];
        ghost var e := TopFlags(SetPaddr(Ent(w1, At(tab, i)), paddr), kernel);
        WrittenTwice(w1, At(tab, i), SetPaddr(Ent(w1, At(tab, i)), paddr), e);
        TopPresent(SetPaddr(Ent(w1, At(tab, i)), paddr), kernel);
        AddressSet(Ent(w1, At(tab, i)), paddr, e);
        StillAbsent(w, w1, tab, i);
        HangTop(w1, tab, i, e, paddr);
        RootWritten(w1, tab, i, e);
        RootIsMade(Ent(w1, At(tab, i)), paddr, kernel);
        SameRoot(w, w1, words, tab, i);
        GrownByOne(w, w1, words, free, pool, tab, tab, i, e, paddr);
      } else {
        words := words[At(tab, i) := TopFlags(Ent(words, At(tab, i)), kernel)];
        TopPresent(Ent(w, At(tab, i)), kernel);
        SameAddress(Ent(w, At(tab, i)), TopFlags(Ent(w, At(tab, i)), kernel));
        RootWritten(w, tab, i, TopFlags(Ent(w, At(tab, i)), kernel));
        RootIsMade(Ent(w, At(tab, i)), 0, kernel);
        RewriteTop(w, tab, i, TopFlags(Ent(w, At(tab, i)), kernel));
        NotGrown(w, words, pool, tab, tab, i, TopFlags(Ent(w, At(tab, i)), kernel));
        OtherEntry(w, tab, i, TopFlags(Ent(w, At(tab, i)), kernel), tab, i);
      }
    }

    /** And the entry in that table to one of the next level. */
    method EnsureMiddle(tab: nat, i: nat, j: nat, kernel: bool)
      requires TabOk(tab) && i < 512 && j < 512 && Has3(words, tab, i) && pool != []
      modifies this`words, this`pool
      ensures TabOk(tab) && Has2(words, tab, i, j) && Grown(old(words), old(pool), words, pool, tab, 1)
      ensures SameBut(old(words), words, tab, 512, i, j, 512, 512, 512) && MidMade(old(MidE(words, tab, i, j)), MidE(words, tab, i, j), kernel)
    {
      hide Ent, WfTab, Pages, GetPaddr, SetPaddr, SameMap, OnlyPages, Blank, At, Grown, SameShape, SameBut, MidMade, MiddleFlags;
      ghost var w, free := words, pool;
      BelowTop(w, tab, i, j);
      var t := GetPaddr(Ent(words, At(tab, i)));
      if GetPaddr(Ent(words, At(t, j))) == 0 || !Ent(words, At(t, j)).present {
        var paddr := AllocPage();
        ghost var w1 := words;
        FreshPage(w, w1, tab, free, pool, paddr);
        words := words[At(t, j) := SetPaddr(Ent(words, At(t, j)), paddr)];
        words := words[At(t, j) := MiddleFlags(Ent(words, At(t, j)), kernel, true)];
        ghost var e := MiddleFlags(SetPaddr(Ent(w1, At(t, j)), paddr), kernel, true);
        WrittenTwice(w1, At(t, j), SetPaddr(Ent(w1, At(t, j)), paddr), e);
        MiddlePresent(SetPaddr(Ent(w1, At(t, j)), paddr), kernel, true);
        AddressSet(Ent(w1, At(t, j)), paddr, e);
        StillAbsent2(w, w1, tab, i, j);
        HangMiddle(w1, tab, i, j, e, paddr);
        MidWritten(w1, tab, i, j, e);
        MidIsMade(Ent(w1, At(t, j)), paddr, kernel);
        SameMid(w, w1, words, tab, i, j);
        GrownByOne(w, w1, words, free, pool, tab, t, j, e, paddr);
      } else {
        ghost var e := MiddleFlags(Ent(w, At(t, j)), kernel, false);
        words := words[At(t, j) := MiddleFlags(Ent(words, At(t, j)), kernel, false)];
        MiddlePresent(Ent(w, At(t, j)), kernel, false);
        SameAddress(Ent(w, At(t, j)), e);
        MidWritten(w, tab, i, j, e);
        MidIsMade(Ent(w, At(t, j)), 0, kernel);
        RewriteMiddle(w, tab, i, j, e);
        NotGrown(w, words, pool, tab, t, j, e);
        ShapeHas2(w, words, tab, i, j);
      }
    }

    /** `page_alloc_tab`, and `page_alloc` for the kernel's own table: maps the 2 MiB page at
        `vir` to the frame at `phy`. */
    method AllocTab(tab: nat, phy: nat, vir: nat, kernel: bool)
      requires TabOk(tab) && MapOk() && |pool| >= 2 && phy % FRAME == 0 && phy < EXACT
      modifies this`words, this`pool, physMap
      ensures TabOk(tab)
      ensures forall x: nat, y: nat, z: nat | x < 512 && y < 512 && z < 512 ::
                MapAt(words, tab, x, y, z)
                == if x == I4(vir) && y == I3(vir) && z == I2(vir) then Mapped(phy) else old(MapAt(words, tab, x, y, z))
      ensures |old(pool)| - 2 <= |pool| <= |old(pool)| && pool == old(pool)[..|pool|]
      ensures Pages(words, tab) == old(Pages(words, tab)) + Elems(old(pool)[|pool|..])
      ensures OnlyPages(old(words), words, Pages(words, tab))
      ensures SameBut(old(words), words, tab, I4(vir), I4(vir), I3(vir), I4(vir), I3(vir), I2(vir))
      ensures RootMade(old(RootE(words, tab, I4(vir))), RootE(words, tab, I4(vir)), kernel)
      ensures MidMade(old(MidE(words, tab, I4(vir), I3(vir))), MidE(words, tab, I4(vir), I3(vir)), kernel)
      ensures LeafMade(old(LeafE(words, tab, I4(vir), I3(vir), I2(vir))), LeafE(words, tab, I4(vir), I3(vir), I2(vir)), kernel)
      ensures var r := RightsAt(words, tab, I4(vir), I3(vir), I2(vir)); r.write && r.user == !kernel && (!kernel ==> r.exec)
      ensures NoHuge(old(words), tab) ==> NoHuge(words, tab) && RightsAt(words, tab, I4(vir), I3(vir), I2(vir)).large
      ensures forall f: nat | f < 8 * MAP_BYTES :: Used(f) <==> old(Used(f)) || f == phy / FRAME
    {
      hide Ent, WfTab, Pages, GetPaddr, SetPaddr, SetPaddrPde, OnlyPages, At, SameShape, Used, Marked, Has2, I4, I3, I2, SameBut, NoHuge,
           RootE, MidE, LeafE, RootMade, MidMade, LeafMade, LeafFlags, RightsAt;
      var i, j, k := I4(vir), I3(vir), I2(vir);
      ghost var w0, free := words, pool;
      EnsureTop(tab, i, kernel);
      ghost var w1, free1 := words, pool;
      EnsureMiddle(tab, i, j, kernel);
      ghost var w2 := words;
      GrownThen(w0, free, w1, free1, w2, pool, tab);
      var t := GetPaddr(Ent(words, At(GetPaddr(Ent(words, At(tab, i))), j)));
      ghost var e0 := Ent(words, At(t, k));
      words := words[At(t, k) := SetPaddrPde(Ent(words, At(t, k)), phy)];
      words := words[At(t, k) := LeafFlags(Ent(words, At(t, k)), kernel)];
      ghost var e := LeafFlags(SetPaddrPde(e0, phy), kernel);
      WrittenTwice(w2, At(t, k), SetPaddrPde(e0, phy), e);
      LeafPresent(SetPaddrPde(e0, phy), kernel);
      LeafSet(e0, phy, e);
      LeafThere(w2, tab, i, j, k);
      LeafIsMade(e0, phy, kernel);
      LeafEntryWritten(w2, tab, i, j, k, e);
      WriteLeaf(w2, tab, i, j, k, e);
      LeafGrown(w0, free, w2, pool, tab, i, j, k, e);
      ThreeWritten(w0, w1, w2, words, tab, i, j, k);
      PathRights(w0, words, tab, i, j, k, kernel);
      MarkFrame(phy);
    }

    /** `page_lookup_paddr_tab`, where it does not halt: the region has a table.  It tests no present
        bit: an entry that is not present is read like any other. */
    method LookupTab(tab: nat, vir: nat) returns (r: nat)
      requires T3(words, tab, I4(vir)) != 0
      ensures var f := MapAt(words, tab, I4(vir), I3(vir), I2(vir)); WfTab(words, tab) && f.Mapped? ==> r == f.paddr + vir % FRAME
      ensures T2(words, tab, I4(vir), I3(vir)) == 0 ==> r == 0
      ensures T2(words, tab, I4(vir), I3(vir)) != 0 ==> r == GetPaddr(Leaf(words, tab, I4(vir), I3(vir), I2(vir))) + vir % FRAME
    {
      hide GetPaddr, Ent, At;
      var pdpt := GetPaddr(Ent(words, At(tab, I4(vir))));
      var pd := GetPaddr(Ent(words, At(pdpt, I3(vir))));
      if pd == 0 {
        if WfTab(words, tab) { BelowTop(words, tab, I4(vir), I3(vir)); }
        return 0;
      }
      r := GetPaddr(Ent(words, At(pd, I2(vir)))) + vir % FRAME;
    }
  }

  lemma LeafPresent(e: Entry, kernel: bool)
    ensures var e' := LeafFlags(e, kernel); e'.present && !e'.attr && e'.rsvd8 == e.rsvd8 && e'.addr == e.addr && e'.addrU == e.addrU
  {
  }

  lemma LeafThere(w: Memory, tab: nat, i: nat, j: nat, k: nat)
    requires Has2(w, tab, i, j)
    ensures LeafE(w, tab, i, j, k) == Ent(w, At(T2(w, tab, i, j), k))
  {
  }

  /** Three entries, one at each level, have been written in turn. */
  lemma ThreeWritten(w0: Memory, w1: Memory, w2: Memory, w3: Memory, tab: nat, i: nat, j: nat, k: nat)
    requires i < 512 && j < 512 && k < 512 && SameBut(w0, w1, tab, i, 512, 512, 512, 512, 512)
    requires SameBut(w1, w2, tab, 512, i, j, 512, 512, 512) && SameBut(w2, w3, tab, 512, 512, 512, i, j, k)
    ensures SameBut(w0, w3, tab, i, i, j, i, j, k) && RootE(w3, tab, i) == RootE(w1, tab, i)
    ensures MidE(w3, tab, i, j) == MidE(w2, tab, i, j) && MidE(w1, tab, i, j) == MidE(w0, tab, i, j)
    ensures LeafE(w2, tab, i, j, k) == LeafE(w0, tab, i, j, k)
  {
    hide RootE, MidE, LeafE;
    forall x: nat | x < 512 && x != i ensures RootE(w3, tab, x) == RootE(w0, tab, x) {
      assert RootE(w2, tab, x) == RootE(w1, tab, x) == RootE(w0, tab, x);
    }
    assert RootE(w2, tab, i) == RootE(w1, tab, i);
    forall x: nat, y: nat | x < 512 && y < 512 && !(x == i && y == j) ensures MidE(w3, tab, x, y) == MidE(w0, tab, x, y) {
      assert MidE(w2, tab, x, y) == MidE(w1, tab, x, y) == MidE(w0, tab, x, y);
    }
    forall x: nat, y: nat, z: nat | x < 512 && y < 512 && z < 512 && !(x == i && y == j && z == k)
      ensures LeafE(w3, tab, x, y, z) == LeafE(w0, tab, x, y, z)
    {
      assert LeafE(w2, tab, x, y, z) == LeafE(w1, tab, x, y, z) == LeafE(w0, tab, x, y, z);
    }
    assert LeafE(w2, tab, i, j, k) == LeafE(w1, tab, i, j, k) == LeafE(w0, tab, i, j, k);
  }

  lemma PathRights(w0: Memory, w: Memory, tab: nat, i: nat, j: nat, k: nat, kernel: bool)
    requires i < 512 && j < 512 && k < 512 && SameBut(w0, w, tab, i, i, j, i, j, k)
    requires RootMade(RootE(w0, tab, i), RootE(w, tab, i), kernel) && MidMade(MidE(w0, tab, i, j), MidE(w, tab, i, j), kernel)
    requires LeafMade(LeafE(w0, tab, i, j, k), LeafE(w, tab, i, j, k), kernel)
    ensures var r := RightsAt(w, tab, i, j, k); r.write && r.user == !kernel && (!kernel ==> r.exec)
    ensures NoHuge(w0, tab) ==> NoHuge(w, tab) && RightsAt(w, tab, i, j, k).large
  {
    hide RootE, MidE, LeafE, LeavesBut, RootsBut;
    if NoHuge(w0, tab) {
      forall x: nat, y: nat | x < 512 && y < 512 && MidE(w, tab, x, y).present ensures !MidE(w, tab, x, y).bit7 {
        if !(x == i && y == j) { assert MidE(w, tab, x, y) == MidE(w0, tab, x, y); }
      }
    }
  }

  /** Tables that share no page with what has been written map as before. */
  lemma OtherTable(w: Memory, w': Memory, s: set<nat>, other: nat)
    requires OnlyPages(w, w', s) && WfTab(w, other) && Pages(w, other) !! s
    ensures SameMap(w, w', other) && WfTab(w', other) && Pages(w', other) == Pages(w, other)
  {
    OnlyKeeps(w, w', s, Pages(w, other));
    hide Pages;
    TableKept(w, w', other);
  }

  /** Addresses of one 2 MiB page have the same indices, and addresses below 2^48 of different
      pages do not. */
  lemma SamePage(v: nat, v': nat)
    ensures I4(v) == v / FRAME / 0x4_0000 % 512 && I3(v) == v / FRAME / 512 % 512 && I2(v) == v / FRAME % 512
    ensures v / FRAME % 0x800_0000 == v' / FRAME % 0x800_0000 <==> I4(v) == I4(v') && I3(v) == I3(v') && I2(v) == I2(v')
  {
    PageIndices(v);
    PageIndices(v');
  }

  lemma PageIndices(v: nat)
    ensures I4(v) == v / FRAME / 0x4_0000 % 512 && I3(v) == v / FRAME / 512 % 512 && I2(v) == v / FRAME % 512
    ensures v / FRAME % 0x800_0000 == I4(v) * 0x4_0000 + I3(v) * 512 + I2(v)
  {
    var q := v / FRAME;
    Quotients(v, q);
    var a, b := q / 512, q / 0x4_0000;
    assert q == 512 * a + q % 512;
    Quotients2(q, a, b);
    assert a == 512 * b + a % 512;
    assert b == 512 * (b / 512) + b % 512;
    assert q == 0x800_0000 * (b / 512) + ((b % 512) * 0x4_0000 + (a % 512) * 512 + q % 512);
  }

  lemma Quotients(v: nat, q: nat)
    requires q == v / FRAME
    ensures v / 0x4000_0000 == q / 512 && v / 0x80_0000_0000 == q / 0x4_0000
  {
  }

  lemma Quotients2(q: nat, a: nat, b: nat)
    requires a == q / 512 && b == q / 0x4_0000
    ensures b == a / 512
  {
  }

  /** The table has grown by at most n pages of the pool, and maps as before. */
  ghost predicate Grown(w: Memory, free: seq<nat>, w': Memory, free': seq<nat>, tab: nat, n: nat) {
    && |free| <= |free'| + n && |free'| <= |free| && free' == free[..|free'|]
    && Pages(w', tab) == Pages(w, tab) + Elems(free[|free'|..])
    && OnlyPages(w, w', Pages(w', tab)) && SameMap(w, w', tab)
  }

  lemma GrownThen(w: Memory, free: seq<nat>, w1: Memory, free1: seq<nat>, w2: Memory, free2: seq<nat>, tab: nat)
    requires Grown(w, free, w1, free1, tab, 1) && Grown(w1, free1, w2, free2, tab, 1)
    ensures Grown(w, free, w2, free2, tab, 2)
  {
    hide Pages, OnlyPages;
    assert free[|free2|..] == free1[|free2|..] + free[|free1|..];
    assert Elems(free[|free2|..]) == Elems(free1[|free2|..]) + Elems(free[|free1|..]);
    OnlyThen(w, w1, w2, Pages(w1, tab), Pages(w2, tab));
    assert Pages(w1, tab) + Pages(w2, tab) == Pages(w2, tab);
    forall i: nat, j: nat, k: nat | i < 512 && j < 512 && k < 512 ensures MapAt(w2, tab, i, j, k) == MapAt(w, tab, i, j, k) {
      assert MapAt(w2, tab, i, j, k) == MapAt(w1, tab, i, j, k);
    }
  }

  lemma RootOk(w: Memory, tab: nat)
    requires WfTab(w, tab)
    ensures PageOk(tab) && tab in Pages(w, tab)
  {
  }

  lemma FreshPage(w: Memory, w1: Memory, tab: nat, free: seq<nat>, free1: seq<nat>, p: nat)
    requires WfTab(w, tab) && PoolOk(free) && Pages(w, tab) !! Elems(free) && free == free1 + [p] && OnlyPages(w, w1, {p})
    ensures WfTab(w1, tab) && Pages(w1, tab) == Pages(w, tab) && SameMap(w, w1, tab) && SameShape(w, w1, tab)
    ensures p !in Pages(w1, tab) && PageOk(p) && Elems(free) == Elems(free1) + {p} && p !in free1
    ensures SameContent(w, w1, tab)
  {
    assert p in free && free[|free1|] == p;
    assert forall i | 0 <= i < |free1| :: free[i] == free1[i] && free[i] != free[|free1|];
    OnlyKeeps(w, w1, {p}, Pages(w, tab));
    hide Pages;
    TableKept(w, w1, tab);
    ContentKept(w, w1, tab);
  }

  lemma TopPresent(e: Entry, kernel: bool)
    ensures var e' := TopFlags(e, kernel); e'.present && e'.attr == e.attr && e'.rsvd8 == e.rsvd8 && e'.addr == e.addr && e'.addrU == e.addrU
  {
  }

  lemma MiddlePresent(e: Entry, kernel: bool, fresh_: bool)
    ensures var e' := MiddleFlags(e, kernel, fresh_);
            e'.present && e'.attr == e.attr && e'.rsvd8 == e.rsvd8 && e'.addr == e.addr && e'.addrU == e.addrU
  {
  }

  lemma SameRoot(w: Memory, w1: Memory, w2: Memory, tab: nat, i: nat)
    requires SameContent(w, w1, tab) && SameBut(w1, w2, tab, i, 512, 512, 512, 512, 512) && i < 512
    ensures SameBut(w, w2, tab, i, 512, 512, 512, 512, 512) && RootE(w1, tab, i) == RootE(w, tab, i)
  {
    hide RootE, MidE, LeafE;
    BothSame(w, w1, w2, tab, i, 512, 512, 512, 512, 512);
    assert RootsBut(w, w1, tab, 512);
  }

  lemma SameMid(w: Memory, w1: Memory, w2: Memory, tab: nat, i: nat, j: nat)
    requires SameContent(w, w1, tab) && SameBut(w1, w2, tab, 512, i, j, 512, 512, 512) && i < 512 && j < 512
    ensures SameBut(w, w2, tab, 512, i, j, 512, 512, 512) && MidE(w1, tab, i, j) == MidE(w, tab, i, j)
  {
    hide RootE, MidE, LeafE;
    BothSame(w, w1, w2, tab, 512, i, j, 512, 512, 512);
    assert MidsBut(w, w1, tab, 512, 512);
  }

  lemma WrittenTwice(w: Memory, a: nat, e: Entry, e': Entry)
    ensures w[a := e][a := e'] == w[a := e'] && Ent(w[a := e], a) == e
  {
  }

  lemma AddressSet(e0: Entry, p: nat, e: Entry)
    requires PageOk(p)
    requires var s := SetPaddr(e0, p); e.attr == s.attr && e.rsvd8 == s.rsvd8 && e.addr == s.addr && e.addrU == s.addrU
    ensures GetPaddr(e) == p && SetPaddr(e0, p).present == e0.present
  {
    PaddrBack(e0, p);
    SameAddress(SetPaddr(e0, p), e);
  }

  lemma SameAddress(e: Entry, e': Entry)
    requires e'.attr == e.attr && e'.rsvd8 == e.rsvd8 && e'.addr == e.addr && e'.addrU == e.addrU
    ensures GetPaddr(e') == GetPaddr(e)
  {
  }

  lemma LeafSet(e0: Entry, phy: nat, e: Entry)
    requires phy % FRAME == 0 && phy < EXACT
    requires var s := SetPaddrPde(e0, phy); !e.attr && e.rsvd8 == s.rsvd8 && e.addr == s.addr && e.addrU == s.addrU
    ensures GetPaddr(e) == phy
  {
    FrameBack(e0, phy);
    SameAddress(SetPaddrPde(e0, phy).(attr := false), e);
  }

  lemma StillAbsent(w: Memory, w1: Memory, tab: nat, i: nat)
    requires SameShape(w, w1, tab) && i < 512 && !Has3(w, tab, i)
    ensures !Has3(w1, tab, i)
  {
    hide Has3;
  }

  lemma StillAbsent2(w: Memory, w1: Memory, tab: nat, i: nat, j: nat)
    requires SameShape(w, w1, tab) && i < 512 && j < 512 && Has3(w, tab, i) && !Has2(w, tab, i, j)
    ensures Has3(w1, tab, i) && T3(w1, tab, i) == T3(w, tab, i) && !Has2(w1, tab, i, j)
  {
    hide Has3, Has2, T3;
  }

  lemma ShapeHas2(w: Memory, w': Memory, tab: nat, i: nat, j: nat)
    requires SameShape(w, w', tab) && i < 512 && j < 512
    ensures Has2(w', tab, i, j) <==> Has2(w, tab, i, j)
  {
    hide Has2;
  }

  /** A page has been taken from the pool and hung in by writing entry k of the page `q`. */
  lemma GrownByOne(w: Memory, w1: Memory, w2: Memory, free: seq<nat>, free': seq<nat>, tab: nat, q: nat, k: nat, e: Entry, p: nat)
    requires OnlyPages(w, w1, {p}) && SameMap(w, w1, tab) && SameMap(w1, w2, tab) && free == free' + [p]
    requires PoolOk(free) && Pages(w, tab) !! Elems(free)
    requires q in Pages(w, tab) && q % PAGE == 0 && k < 512 && w2 == w1[At(q, k) := e]
    requires Pages(w1, tab) == Pages(w, tab) && Pages(w2, tab) == Pages(w1, tab) + {p}
    ensures Grown(w, free, w2, free', tab, 1) && Pages(w2, tab) !! Elems(free')
  {
    hide Pages, Ent, At, OnlyPages;
    OnlyOne(w1, q, k, e);
    OnlyThen(w, w1, w2, {p}, {q});
    OnlyMore(w, w2, {p} + {q}, Pages(w2, tab));
    assert free[|free'|..] == [p];
    forall i: nat, j: nat, k: nat | i < 512 && j < 512 && k < 512 ensures MapAt(w2, tab, i, j, k) == MapAt(w, tab, i, j, k) {
      assert MapAt(w2, tab, i, j, k) == MapAt(w1, tab, i, j, k);
    }
  }

  lemma OnlyMore(w: Memory, w': Memory, s: set<nat>, s': set<nat>)
    requires OnlyPages(w, w', s) && s <= s'
    ensures OnlyPages(w, w', s')
  {
    hide Ent, At;
  }

  lemma NotGrown(w: Memory, w': Memory, free: seq<nat>, tab: nat, q: nat, k: nat, e: Entry)
    requires SameShape(w, w', tab) && SameMap(w, w', tab) && w' == w[At(q, k) := e] && q in Pages(w, tab) && q % PAGE == 0 && k < 512
    ensures Grown(w, free, w', free, tab, 1) && Pages(w', tab) == Pages(w, tab) && (WfTab(w, tab) ==> WfTab(w', tab))
  {
    ShapeTables(w, w', tab);
    OnlyOne(w, q, k, e);
    OnlyMore(w, w', {q}, Pages(w, tab));
    assert free[|free|..] == [];
  }

  lemma LeafGrown(w: Memory, free: seq<nat>, w2: Memory, free': seq<nat>, tab: nat, i: nat, j: nat, k: nat, e: Entry)
    requires Grown(w, free, w2, free', tab, 2) && WfTab(w2, tab) && i < 512 && j < 512 && k < 512 && Has2(w2, tab, i, j)
    requires SameShape(w2, w2[At(T2(w2, tab, i, j), k) := e], tab)
    ensures var w' := w2[At(T2(w2, tab, i, j), k) := e];
            && WfTab(w', tab) && Pages(w', tab) == Pages(w2, tab) && OnlyPages(w, w', Pages(w', tab))
  {
    var p := T2(w2, tab, i, j);
    var w' := w2[At(p, k) := e];
    BelowTop(w2, tab, i, j);
    ShapeTables(w2, w', tab);
    hide Ent, At, T2, T3, Has2, Has3, OnlyPages, WfTab;
    OnlyOne(w2, p, k, e);
    OnlyThen(w, w2, w', Pages(w2, tab), {p});
    assert Pages(w2, tab) + {p} == Pages(w2, tab);
  }

  lemma FrameInMap(paddr: nat)
    requires paddr < 0x1_0000_0000_0000
    ensures paddr / FRAME < 8 * MAP_BYTES && paddr / FRAME / 8 < MAP_BYTES
  {
  }
}
