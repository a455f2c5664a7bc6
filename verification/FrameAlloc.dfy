/** Allocating and freeing mapped memory (src/page.c:560-593, 881-966): frames are taken from the
    bitmap and mapped at a free range of virtual pages.  The memory test and the clearing of the
    new pages are left out. */
module FrameAlloc {
  import opened Lists
  import opened Entries
  import opened Tables
  import opened Contents
  import opened Paging
  import opened FreeRange

  datatype Range = Range(paddr: nat, len: nat)

  /** `avail_mem_root`: ranges of memory, all below 2^43.  Without any range all memory counts as
      available. */
  ghost predicate RangesOk(ranges: seq<Range>) {
    forall r | r in ranges :: r.paddr + r.len <= EXACT
  }

  /** The frame lies within a range, off its borders. */
  predicate Inside(r: Range, paddr: nat) { paddr > r.paddr && paddr + FRAME < r.paddr + r.len }

  ghost predicate Available(ranges: seq<Range>, f: nat) { ranges == [] || exists r :: r in ranges && Inside(r, FRAME * f) }

  /** The frame can be handed out. */
  ghost predicate Usable(pg: Pager, ranges: seq<Range>, f: nat)
    requires pg.MapOk()
    reads pg.physMap
  {
    Available(ranges, f) && f < 8 * MAP_BYTES && !pg.Used(f)
  }

  lemma AvailableLow(ranges: seq<Range>, f: nat)
    requires RangesOk(ranges) && Available(ranges, f) && ranges != []
    ensures f < 0x40_0000 < 8 * MAP_BYTES && FRAME * f < EXACT
  {
  }

  /** `page_physmemmap_is_used` */
  method IsUsed(pg: Pager, ranges: seq<Range>, f: nat) returns (used: bool)
    requires pg.MapOk() && RangesOk(ranges) && (ranges == [] ==> f < 8 * MAP_BYTES)
    ensures used <==> !Usable(pg, ranges, f)
  {
    var paddr := FRAME * f;
    assert paddr / FRAME == f;
    if ranges == [] { return pg.Used(paddr / FRAME); }
    var i := 0;
    while i < |ranges|
      invariant i <= |ranges| && forall k | 0 <= k < i :: !Inside(ranges[k], paddr)
    {
      if Inside(ranges[i], paddr) {
        assert Available(ranges, f) by { assert ranges[i] in ranges; }
        AvailableLow(ranges, f);
        return pg.Used(paddr / FRAME);
      }
      i := i + 1;
    }
    return true;
  }

  /* ---------------- the flat map by page number ---------------- */

  function PageMap(w: Memory, tab: nat, n: nat): Frame { MapAt(w, tab, n / 0x4_0000 % 512, n / 512 % 512, n % 512) }

  /** How far page n lies behind page n0, modulo the address space. */
  function Off(n0: nat, n: nat): nat
    requires n0 < SPACE && n < SPACE
  {
    if n >= n0 then n - n0 else n + SPACE - n0
  }

  lemma IndicesTell(n: nat, m: nat)
    requires n < SPACE
    requires n / 0x4_0000 % 512 == m / 0x4_0000 % 512 && n / 512 % 512 == m / 512 % 512 && n % 512 == m % 512
    ensures n == m % SPACE
  {
    var r := m % SPACE;
    WrapDigits(m, m / SPACE, r);
    ThreeDigits(n);
    ThreeDigits(r);
  }

  lemma ThreeDigits(n: nat)
    requires n < SPACE
    ensures n == 0x4_0000 * (n / 0x4_0000 % 512) + 512 * (n / 512 % 512) + n % 512
  {
    assert n / 0x4_0000 == n / 512 / 512;
  }

  lemma WrapSame(w: Memory, tab: nat, m: nat)
    ensures PageMap(w, tab, m % SPACE) == PageMap(w, tab, m)
  {
    var q, r := m / SPACE, m % SPACE;
    assert m == 0x800_0000 * q + r;
    WrapDigits(m, q, r);
  }

  lemma WrapDigits(m: nat, q: nat, r: nat)
    requires m == 0x800_0000 * q + r
    ensures m / 0x4_0000 % 512 == r / 0x4_0000 % 512 && m / 512 % 512 == r / 512 % 512 && m % 512 == r % 512
  {
    assert m == 0x4_0000 * (512 * q) + r && m == 512 * (512 * (512 * q)) + r && m == 512 * (0x4_0000 * q) + r;
    DivShift(r, 512 * q, 0x4_0000);
    DivShift(r, 512 * (512 * q), 512);
    ModShift(r / 0x4_0000, q);
    ModShift(r / 512, 512 * q);
    ModShift(r, 0x4_0000 * q);
  }

  lemma DivShift(r: nat, q: nat, b: nat)
    requires b == 512 || b == 0x4_0000
    ensures (b * q + r) / b == q + r / b
  {
  }

  lemma ModShift(r: nat, q: nat)
    ensures (512 * q + r) % 512 == r % 512 && (q * 512 + r) % 512 == r % 512 && (r + 512 * q) % 512 == r % 512
  {
  }

  /** A mapped run: page n0 + d has the frame fs[d]; all other pages map as before. */
  ghost predicate RunMapped(w0: Memory, w: Memory, tab: nat, n0: nat, fs: seq<nat>)
    requires n0 < SPACE
  {
    forall n: nat {:trigger PageMap(w, tab, n)} | n < SPACE ::
      PageMap(w, tab, n) == if Off(n0, n) < |fs| then Mapped(FRAME * fs[Off(n0, n)]) else PageMap(w0, tab, n)
  }

  /** One page more. */
  lemma RunLonger(w0: Memory, w: Memory, w': Memory, tab: nat, n0: nat, fs: seq<nat>, f: nat)
    requires n0 < SPACE && |fs| < SPACE && RunMapped(w0, w, tab, n0, fs)
    requires forall x: nat, y: nat, z: nat | x < 512 && y < 512 && z < 512 ::
               MapAt(w', tab, x, y, z)
               == if x == I4(FRAME * (n0 + |fs|)) && y == I3(FRAME * (n0 + |fs|)) && z == I2(FRAME * (n0 + |fs|)) then Mapped(FRAME * f)
                  else MapAt(w, tab, x, y, z)
    ensures RunMapped(w0, w', tab, n0, fs + [f])
  {
    hide I4, I3, I2, MapAt, PageMap;
    var m := n0 + |fs|;
    forall n: nat | n < SPACE
      ensures PageMap(w', tab, n) == if Off(n0, n) < |fs| + 1 then Mapped(FRAME * (fs + [f])[Off(n0, n)]) else PageMap(w0, tab, n)
    {
      PageAfter(w, w', tab, m, f, n);
      OffOf(n0, |fs|, n);
    }
  }

  /* ---------------- and the entries behind it ---------------- */

  function PageE(w: Memory, tab: nat, n: nat): Entry { LeafE(w, tab, n / 0x4_0000 % 512, n / 512 % 512, n % 512) }

  ghost function PageRights(w: Memory, tab: nat, n: nat): Rights { RightsAt(w, tab, n / 0x4_0000 % 512, n / 512 % 512, n % 512) }

  /** The pages of a run are writable 2 MiB pages, open to users and executable if they are not the
      kernel's; the entry of every other page is as it was. */
  ghost predicate RunMade(w0: Memory, w: Memory, tab: nat, n0: nat, count: nat, kernel: bool)
    requires n0 < SPACE
  {
    && NoHuge(w, tab)
    && forall n: nat {:trigger PageE(w, tab, n)} | n < SPACE ::
         if Off(n0, n) < count then LeafMade(PageE(w0, tab, n), PageE(w, tab, n), kernel) && Open(PageRights(w, tab, n), kernel)
         else PageE(w, tab, n) == PageE(w0, tab, n)
  }

  ghost predicate Open(r: Rights, kernel: bool) { r.write && r.user == !kernel && (!kernel ==> r.exec) && r.large }

  lemma NothingMade(w: Memory, tab: nat, n0: nat, kernel: bool)
    requires n0 < SPACE && NoHuge(w, tab)
    ensures RunMade(w, w, tab, n0, 0, kernel)
  {
    hide PageE, PageRights, LeafMade, Open, NoHuge;
    forall n: nat | n < SPACE ensures Off(n0, n) >= 0 { }
  }

  lemma MadeLonger(w0: Memory, w: Memory, w': Memory, tab: nat, n0: nat, count: nat, kernel: bool)
    requires n0 < SPACE && count < SPACE && RunMade(w0, w, tab, n0, count, kernel)
    requires var v := FRAME * (n0 + count); var i, j, k := I4(v), I3(v), I2(v);
             && SameBut(w, w', tab, i, i, j, i, j, k) && RootMade(RootE(w, tab, i), RootE(w', tab, i), kernel)
             && MidMade(MidE(w, tab, i, j), MidE(w', tab, i, j), kernel) && LeafMade(LeafE(w, tab, i, j, k), LeafE(w', tab, i, j, k), kernel)
             && Open(RightsAt(w', tab, i, j, k), kernel) && NoHuge(w', tab)
    ensures RunMade(w0, w', tab, n0, count + 1, kernel)
  {
    hide I4, I3, I2, RootE, MidE, LeafE, SameBut, RootMade, MidMade, LeafMade, NoHuge, RightsAt, PageE, PageRights, Open;
    var m := n0 + count;
    forall n: nat | n < SPACE
      ensures if Off(n0, n) < count + 1 then LeafMade(PageE(w0, tab, n), PageE(w', tab, n), kernel) && Open(PageRights(w', tab, n), kernel)
              else PageE(w', tab, n) == PageE(w0, tab, n)
    {
      PageMade(w, w', tab, m, n, kernel);
      OffOf(n0, count, n);
      assert if Off(n0, n) < count then LeafMade(PageE(w0, tab, n), PageE(w, tab, n), kernel) && Open(PageRights(w, tab, n), kernel)
             else PageE(w, tab, n) == PageE(w0, tab, n);
      if Off(n0, n) < count { MadeUser(PageE(w0, tab, n), PageE(w, tab, n), kernel); }
    }
  }

  lemma MadeUser(e0: Entry, e: Entry, kernel: bool)
    requires LeafMade(e0, e, kernel)
    ensures e.isuser == !kernel
  {
  }

  /** The way to page m has been made, seen at page n. */
  lemma PageMade(w: Memory, w': Memory, tab: nat, m: nat, n: nat, kernel: bool)
    requires n < SPACE
    requires var v := FRAME * m; var i, j, k := I4(v), I3(v), I2(v);
             && SameBut(w, w', tab, i, i, j, i, j, k) && RootMade(RootE(w, tab, i), RootE(w', tab, i), kernel)
             && MidMade(MidE(w, tab, i, j), MidE(w', tab, i, j), kernel) && LeafMade(LeafE(w, tab, i, j, k), LeafE(w', tab, i, j, k), kernel)
             && Open(RightsAt(w', tab, i, j, k), kernel) && NoHuge(w', tab)
    ensures n == m % SPACE ==> LeafMade(PageE(w, tab, n), PageE(w', tab, n), kernel) && Open(PageRights(w', tab, n), kernel)
    ensures n != m % SPACE ==>
              && PageE(w', tab, n) == PageE(w, tab, n)
              && (Open(PageRights(w, tab, n), kernel) && PageE(w, tab, n).isuser == !kernel ==> Open(PageRights(w', tab, n), kernel))
  {
    AddressIndices(m);
    SameDigits(n, m);
    hide I4, I3, I2, LeafMade, NoHuge;
    var v := FRAME * m;
    var x, y, z := n / 0x4_0000 % 512, n / 512 % 512, n % 512;
    if n != m % SPACE {
      StillOpen(w, w', tab, I4(v), I3(v), I2(v), x, y, z, kernel);
    }
  }

  lemma StillOpen(w: Memory, w': Memory, tab: nat, i: nat, j: nat, k: nat, x: nat, y: nat, z: nat, kernel: bool)
    requires i < 512 && j < 512 && k < 512 && x < 512 && y < 512 && z < 512 && !(x == i && y == j && z == k)
    requires SameBut(w, w', tab, i, i, j, i, j, k) && RootMade(RootE(w, tab, i), RootE(w', tab, i), kernel)
    requires MidMade(MidE(w, tab, i, j), MidE(w', tab, i, j), kernel)
    ensures LeafE(w', tab, x, y, z) == LeafE(w, tab, x, y, z)
    ensures Open(RightsAt(w, tab, x, y, z), kernel) && LeafE(w, tab, x, y, z).isuser == !kernel ==> Open(RightsAt(w', tab, x, y, z), kernel)
  {
    hide RootE, MidE, LeafE;
    assert x == i || RootE(w', tab, x) == RootE(w, tab, x);
    assert (x == i && y == j) || MidE(w', tab, x, y) == MidE(w, tab, x, y);
  }

  /** A map that has changed for the page m alone, seen at page n. */
  lemma PageAfter(w: Memory, w': Memory, tab: nat, m: nat, f: nat, n: nat)
    requires n < SPACE
    requires forall x: nat, y: nat, z: nat | x < 512 && y < 512 && z < 512 ::
               MapAt(w', tab, x, y, z)
               == if x == I4(FRAME * m) && y == I3(FRAME * m) && z == I2(FRAME * m) then Mapped(FRAME * f) else MapAt(w, tab, x, y, z)
    ensures PageMap(w', tab, n) == if n == m % SPACE then Mapped(FRAME * f) else PageMap(w, tab, n)
  {
    AddressIndices(m);
    SameDigits(n, m);
    hide I4, I3, I2, MapAt;
  }

  lemma SameDigits(n: nat, m: nat)
    requires n < SPACE
    ensures n == m % SPACE <==> n / 0x4_0000 % 512 == m / 0x4_0000 % 512 && n / 512 % 512 == m / 512 % 512 && n % 512 == m % 512
  {
    if n == m % SPACE {
      WrapDigits(m, m / SPACE, n);
    } else if n / 0x4_0000 % 512 == m / 0x4_0000 % 512 && n / 512 % 512 == m / 512 % 512 && n % 512 == m % 512 {
      IndicesTell(n, m);
    }
  }

  lemma OffOf(n0: nat, d: nat, n: nat)
    requires n0 < SPACE && d < SPACE && n < SPACE
    ensures Off(n0, n) == d <==> n == (n0 + d) % SPACE
  {
  }

  /* ---------------- page_find_and_alloc ---------------- */

  ghost predicate Increasing(fs: seq<nat>) { forall i, j | 0 <= i < j < |fs| :: fs[i] < fs[j] }

  /** The frames marked used are those that were, and `fs`. */
  ghost predicate Taken(used0: iset<nat>, pg: Pager, fs: seq<nat>)
    requires pg.MapOk()
    reads pg.physMap
  {
    forall f: nat | f < 8 * MAP_BYTES :: pg.Used(f) <==> f in used0 || f in fs
  }

  ghost function UsedSet(pg: Pager): iset<nat>
    requires pg.MapOk()
    reads pg.physMap
  {
    iset f: nat | f < 8 * MAP_BYTES && pg.Used(f)
  }

  ghost predicate WasUsable(used0: iset<nat>, ranges: seq<Range>, f: nat) {
    Available(ranges, f) && f < 8 * MAP_BYTES && f !in used0
  }

  /** The first frames that are usable: none is skipped. */
  ghost predicate FirstUsable(used0: iset<nat>, ranges: seq<Range>, fs: seq<nat>, bound: nat) {
    && Increasing(fs) && (forall f | f in fs :: f < bound && WasUsable(used0, ranges, f))
    && forall f: nat | f < bound && WasUsable(used0, ranges, f) :: f in fs
  }

  /** Frames that could serve, below 2^43: the code ends because there are enough. */
  ghost predicate Enough(used0: iset<nat>, ranges: seq<Range>, ws: seq<nat>) {
    Increasing(ws) && forall f | f in ws :: WasUsable(used0, ranges, f) && FRAME * f < EXACT
  }

  lemma StillUsable(used0: iset<nat>, pg: Pager, ranges: seq<Range>, fs: seq<nat>, f: nat)
    requires pg.MapOk() && Taken(used0, pg, fs)
    ensures Usable(pg, ranges, f) <==> WasUsable(used0, ranges, f) && f !in fs
  {
  }

  /** Beyond the frames taken so far there is one more, no later than the next of `ws`. */
  lemma NextComes(used0: iset<nat>, ranges: seq<Range>, fs: seq<nat>, ws: seq<nat>, bound: nat)
    requires FirstUsable(used0, ranges, fs, bound) && Enough(used0, ranges, ws) && |fs| < |ws|
    requires forall k | 0 <= k < |fs| :: fs[k] <= ws[k]
    ensures bound <= ws[|fs|] || ws[|fs|] in fs
    ensures |fs| > 0 ==> fs[|fs| - 1] < ws[|fs|]
    ensures ws[|fs|] !in fs
  {
    var x := ws[|fs|];
    assert x in ws && WasUsable(used0, ranges, x);
    if |fs| > 0 { assert ws[|fs| - 1] < x; }
    forall k | 0 <= k < |fs| ensures fs[k] < x { assert ws[k] < x; }
  }

  lemma TakeNext(used0: iset<nat>, ranges: seq<Range>, fs: seq<nat>, bound: nat)
    requires FirstUsable(used0, ranges, fs, bound) && WasUsable(used0, ranges, bound)
    ensures FirstUsable(used0, ranges, fs + [bound], bound + 1)
  {
    hide WasUsable;
    var fs' := fs + [bound];
    forall k | 0 <= k < |fs| ensures fs[k] < bound { assert fs[k] in fs; }
    forall f: nat | f < bound + 1 && WasUsable(used0, ranges, f) ensures f in fs' {
      if f == bound { assert fs'[|fs|] == f; } else { assert f in fs; }
    }
  }

  lemma SkipNext(used0: iset<nat>, ranges: seq<Range>, fs: seq<nat>, bound: nat)
    requires FirstUsable(used0, ranges, fs, bound) && !WasUsable(used0, ranges, bound)
    ensures FirstUsable(used0, ranges, fs, bound + 1)
  {
  }

  /** The loops over frames that cannot be handed out: the first one that can, from `start` on. */
  method SkipUsed(pg: Pager, ranges: seq<Range>, start: nat, ghost used0: iset<nat>, ghost fs: seq<nat>, ghost ws: seq<nat>)
    returns (off: nat)
    requires pg.MapOk() && RangesOk(ranges) && Taken(used0, pg, fs) && Enough(used0, ranges, ws) && |fs| < |ws|
    requires FirstUsable(used0, ranges, fs, start) && WasUsable(used0, ranges, ws[|fs|]) && start <= ws[|fs|]
    ensures start <= off <= ws[|fs|] && FirstUsable(used0, ranges, fs, off) && WasUsable(used0, ranges, off) && off !in fs
  {
    hide Available, FirstUsable, Enough, WasUsable, RangesOk;
    off := start;
    NotTaken(used0, ranges, fs, off);
    while true
      invariant start <= off <= ws[|fs|] && FirstUsable(used0, ranges, fs, off)
      decreases ws[|fs|] - off
    {
      WitnessBound(used0, ranges, ws, |fs|);
      var used := IsUsed(pg, ranges, off);
      StillUsable(used0, pg, ranges, fs, off);
      NotTaken(used0, ranges, fs, off);
      if !used { break; }
      SkipNext(used0, ranges, fs, off);
      off := off + 1;
    }
  }

  /** `page_find_and_alloc` (and, with a table of its own, the mapping part of
      `page_find_and_alloc_user`).  `ws` shows that there are enough usable frames; without them the
      code does not return.  The result of the search is not checked: without a free run it is
      0xDEAD, and the frames are mapped at the pages from 0 on, whatever these mapped before. */
  method FindAndAlloc(pg: Pager, tab: nat, ranges: seq<Range>, pgs: nat, kernel: bool, ghost ws: seq<nat>)
    returns (addr: nat, ghost fs: seq<nat>)
    requires pg.TabOk(tab) && pg.MapOk() && RangesOk(ranges) && NoHuge(pg.words, tab)
    requires 0 < pgs <= SPACE && |pg.pool| >= 2 * pgs
    requires |ws| == pgs && Enough(UsedSet(pg), ranges, ws)
    modifies pg`words, pg`pool, pg.physMap
    ensures pg.TabOk(tab) && pg.MapOk() && |pg.pool| >= |old(pg.pool)| - 2 * pgs
    ensures addr == Search(old(pg.words), tab, pgs, 0) && addr / FRAME < SPACE
    ensures pgs <= 512 ==> Right(old(pg.words), tab, pgs, addr)
    ensures |fs| == pgs && FirstUsable(old(UsedSet(pg)), ranges, fs, fs[pgs - 1] + 1)
    ensures RunMapped(old(pg.words), pg.words, tab, addr / FRAME, fs)
    ensures Taken(old(UsedSet(pg)), pg, fs)
    ensures RunMade(old(pg.words), pg.words, tab, addr / FRAME, pgs, kernel)
    ensures |pg.pool| <= |old(pg.pool)| && pg.pool == old(pg.pool)[..|pg.pool|]
    ensures Pages(pg.words, tab) == old(Pages(pg.words, tab)) + Elems(old(pg.pool)[|pg.pool|..])
    ensures OnlyPages(old(pg.words), pg.words, Pages(pg.words, tab))
  {
    hide Pager.TabOk, RunMapped, FreeRun, PageMap, Available, FirstUsable, Enough, NoHuge, WasUsable, I4, I3, I2, MapAt, Pages,
         OnlyPages, RangesOk, Search, Right, RunMade, SameBut, RootE, MidE, LeafE, RootMade, MidMade, LeafMade, RightsAt, Drawn;
    ghost var w0, used0 := pg.words, UsedSet(pg);
    fs := [];
    NothingTaken(used0, pg, ranges);
    WitnessFirst(used0, ranges, ws);
    var i: nat := SkipUsed(pg, ranges, 0, used0, fs, ws);
    addr := VirtFindAddr(pg.words, tab, pgs);
    SearchInSpace(w0, tab, pgs, 0);
    ghost var n0: nat := addr / FRAME;
    NothingMapped(w0, tab, n0);
    NothingMade(w0, tab, n0, kernel);
    ghost var free0 := pg.pool;
    NothingDrawn(w0, free0, tab);
    var pi := 0;
    while pi < pgs
      invariant pi <= pgs && |fs| == pi && pg.TabOk(tab) && pg.MapOk()
      invariant |pg.pool| >= |old(pg.pool)| - 2 * pi && RunMapped(w0, pg.words, tab, n0, fs) && Taken(used0, pg, fs)
      invariant RunMade(w0, pg.words, tab, n0, pi, kernel) && Drawn(w0, free0, pg.words, pg.pool, tab)
      invariant FirstUsable(used0, ranges, fs, i + pi) && (pi > 0 ==> fs[pi - 1] + 1 == i + pi)
      invariant forall k | 0 <= k < pi :: fs[k] <= ws[k]
    {
      NextComes(used0, ranges, fs, ws, i + pi);
      WitnessUsable(used0, ranges, ws, pi);
      var off := SkipUsed(pg, ranges, i + pi, used0, fs, ws);
      i := off - pi;
      LowFrame(used0, ranges, ws, pi, off);
      ghost var w1, free1 := pg.words, pg.pool;
      assert pi * FRAME + i * FRAME == FRAME * off;
      PageOfAddress(addr, pi);
      NoHugeYet(w0, w1, tab, n0, pi, kernel);
      pg.AllocTab(tab, pi * FRAME + i * FRAME, addr + pi * FRAME, kernel);
      RunLonger(w0, w1, pg.words, tab, n0, fs, off);
      MadeLonger(w0, w1, pg.words, tab, n0, pi, kernel);
      DrawnOn(w0, free0, w1, free1, pg.words, pg.pool, tab);
      TakeNext(used0, ranges, fs, off);
      fs := fs + [off];
      pi := pi + 1;
    }
    DrawnIs(w0, free0, pg.words, pg.pool, tab);
  }

  lemma DrawnIs(w0: Memory, free0: seq<nat>, w: Memory, free: seq<nat>, tab: nat)
    requires Drawn(w0, free0, w, free, tab)
    ensures |free| <= |free0| && free == free0[..|free|]
    ensures Pages(w, tab) == Pages(w0, tab) + Elems(free0[|free|..]) && OnlyPages(w0, w, Pages(w, tab))
  {
  }

  lemma NoHugeYet(w0: Memory, w: Memory, tab: nat, n0: nat, count: nat, kernel: bool)
    requires n0 < SPACE && RunMade(w0, w, tab, n0, count, kernel)
    ensures NoHuge(w, tab)
  {
  }

  /** The table has grown by what has left the pool, and only its pages have been written. */
  ghost predicate Drawn(w0: Memory, free0: seq<nat>, w: Memory, free: seq<nat>, tab: nat) {
    && |free| <= |free0| && free == free0[..|free|]
    && Pages(w, tab) == Pages(w0, tab) + Elems(free0[|free|..]) && OnlyPages(w0, w, Pages(w, tab))
  }

  lemma NothingDrawn(w: Memory, free: seq<nat>, tab: nat)
    ensures Drawn(w, free, w, free, tab)
  {
    hide Pages;
    assert free[|free|..] == [];
  }

  lemma DrawnOn(w0: Memory, free0: seq<nat>, w1: Memory, free1: seq<nat>, w2: Memory, free2: seq<nat>, tab: nat)
    requires Drawn(w0, free0, w1, free1, tab) && |free2| <= |free1| && free2 == free1[..|free2|]
    requires Pages(w2, tab) == Pages(w1, tab) + Elems(free1[|free2|..]) && OnlyPages(w1, w2, Pages(w2, tab))
    ensures Drawn(w0, free0, w2, free2, tab)
  {
    hide Pages, OnlyPages;
    assert free0[|free2|..] == free1[|free2|..] + free0[|free1|..];
    assert Elems(free0[|free2|..]) == Elems(free1[|free2|..]) + Elems(free0[|free1|..]);
    OnlyThen(w0, w1, w2, Pages(w1, tab), Pages(w2, tab));
    assert Pages(w1, tab) + Pages(w2, tab) == Pages(w2, tab);
  }

  lemma NothingTaken(used0: iset<nat>, pg: Pager, ranges: seq<Range>)
    requires pg.MapOk() && used0 == UsedSet(pg)
    ensures Taken(used0, pg, []) && FirstUsable(used0, ranges, [], 0)
  {
  }

  lemma WitnessFirst(used0: iset<nat>, ranges: seq<Range>, ws: seq<nat>)
    requires Enough(used0, ranges, ws) && |ws| > 0
    ensures ws[0] >= 0 && WasUsable(used0, ranges, ws[0])
  {
    assert ws[0] in ws;
  }

  lemma WitnessUsable(used0: iset<nat>, ranges: seq<Range>, ws: seq<nat>, k: nat)
    requires Enough(used0, ranges, ws) && k < |ws|
    ensures WasUsable(used0, ranges, ws[k])
  {
    assert ws[k] in ws;
  }

  lemma NotTaken(used0: iset<nat>, ranges: seq<Range>, fs: seq<nat>, off: nat)
    requires FirstUsable(used0, ranges, fs, off)
    ensures off !in fs
  {
  }

  lemma WitnessBound(used0: iset<nat>, ranges: seq<Range>, ws: seq<nat>, k: nat)
    requires Enough(used0, ranges, ws) && k < |ws|
    ensures ws[k] < 8 * MAP_BYTES && FRAME * ws[k] < EXACT
  {
    assert ws[k] in ws;
  }

  lemma LowFrame(used0: iset<nat>, ranges: seq<Range>, ws: seq<nat>, k: nat, f: nat)
    requires Enough(used0, ranges, ws) && k < |ws| && f <= ws[k]
    ensures FRAME * f < EXACT && FRAME * f % FRAME == 0 && FRAME * f / FRAME == f
  {
    WitnessBound(used0, ranges, ws, k);
  }

  /** The result of the search names a page, 0xDEAD page 0. */
  lemma {:induction false} SearchInSpace(w: Memory, tab: nat, pgs: nat, n: nat)
    requires n <= SPACE
    ensures Search(w, tab, pgs, n) / FRAME < SPACE
    decreases SPACE - n
  {
    hide Accepts;
    if n < SPACE { SearchInSpace(w, tab, pgs, n + 1); }
  }

  /** Indices depend on the page alone. */
  lemma PageOfAddress(addr: nat, k: nat)
    ensures var v, v' := addr + k * FRAME, FRAME * (addr / FRAME + k); I4(v) == I4(v') && I3(v) == I3(v') && I2(v) == I2(v')
  {
    var v, v' := addr + k * FRAME, FRAME * (addr / FRAME + k);
    SamePage(v, v');
    assert v / FRAME == v' / FRAME;
  }

  lemma NothingMapped(w: Memory, tab: nat, n0: nat)
    requires n0 < SPACE
    ensures RunMapped(w, w, tab, n0, [])
  {
  }

  /* ---------------- page_free_found ---------------- */

  /** The first k pages from n0 are no longer mapped; all others map as before. */
  ghost predicate RunGone(w0: Memory, w: Memory, tab: nat, n0: nat, k: nat)
    requires n0 < SPACE
  {
    forall n: nat {:trigger PageMap(w, tab, n)} | n < SPACE ::
      PageMap(w, tab, n) == if Off(n0, n) < k then Absent else PageMap(w0, tab, n)
  }

  /** The pages of a run and their frames. */
  ghost predicate RunIs(w: Memory, tab: nat, n0: nat, fs: seq<nat>) {
    forall d | 0 <= d < |fs| :: fs[d] < 8 * MAP_BYTES && PageMap(w, tab, n0 + d) == Mapped(FRAME * fs[d])
  }

  ghost predicate GivenBack(used0: iset<nat>, pg: Pager, fs: seq<nat>, k: nat)
    requires pg.MapOk() && k <= |fs|
    reads pg.physMap
  {
    forall f: nat | f < 8 * MAP_BYTES :: pg.Used(f) <==> f in used0 && f !in fs[..k]
  }

  lemma GoneLonger(w0: Memory, w: Memory, w': Memory, tab: nat, n0: nat, k: nat)
    requires n0 < SPACE && k < SPACE && RunGone(w0, w, tab, n0, k)
    requires forall x: nat, y: nat, z: nat | x < 512 && y < 512 && z < 512 ::
               MapAt(w', tab, x, y, z)
               == if x == I4(FRAME * (n0 + k)) && y == I3(FRAME * (n0 + k)) && z == I2(FRAME * (n0 + k)) then Absent
                  else MapAt(w, tab, x, y, z)
    ensures RunGone(w0, w', tab, n0, k + 1)
  {
    var m := n0 + k;
    AddressIndices(m);
    hide I4, I3, I2, MapAt;
    forall n: nat | n < SPACE ensures PageMap(w', tab, n) == if Off(n0, n) < k + 1 then Absent else PageMap(w0, tab, n) {
      if n / 0x4_0000 % 512 == m / 0x4_0000 % 512 && n / 512 % 512 == m / 512 % 512 && n % 512 == m % 512 {
        IndicesTell(n, m);
        OffOf(n0, k, n);
      } else {
        assert n != m % SPACE by { WrapDigits(m, m / SPACE, m % SPACE); }
        OffOf(n0, k, n);
        assert PageMap(w', tab, n) == PageMap(w, tab, n);
      }
    }
  }

  /** Page n0 + k is still mapped when its turn comes. */
  lemma NextMappedPage(w0: Memory, w: Memory, tab: nat, n0: nat, fs: seq<nat>, k: nat)
    requires n0 < SPACE && k < |fs| <= SPACE && RunIs(w0, tab, n0, fs) && RunGone(w0, w, tab, n0, k)
    ensures var v := FRAME * (n0 + k);
            && Has2(w, tab, I4(v), I3(v)) && MapAt(w, tab, I4(v), I3(v), I2(v)) == Mapped(FRAME * fs[k]) && fs[k] < 8 * MAP_BYTES
  {
    hide PageMap, MapAt, Has2, I4, I3, I2;
    var m := n0 + k;
    WrapSame(w, tab, m);
    WrapSame(w0, tab, m);
    OffOf(n0, k, m % SPACE);
    assert Off(n0, m % SPACE) == k;
    hide Off;
    assert PageMap(w0, tab, m) == Mapped(FRAME * fs[k]);
    assert PageMap(w, tab, m % SPACE) == PageMap(w0, tab, m % SPACE);
    hide RunIs, RunGone;
    PageByAddress(w, tab, m);
  }

  lemma PageByAddress(w: Memory, tab: nat, m: nat)
    ensures var v := FRAME * m;
            && PageMap(w, tab, m) == MapAt(w, tab, I4(v), I3(v), I2(v))
            && (PageMap(w, tab, m).Mapped? ==> Has2(w, tab, I4(v), I3(v)))
  {
    AddressIndices(m);
    hide I4, I3, I2;
  }

  /** The tables are there as before, and every leaf still names its frame, present or not. */
  ghost predicate SameLeaves(w: Memory, w': Memory, tab: nat) {
    && SameShape(w, w', tab)
    && forall x: nat, y: nat, z: nat | x < 512 && y < 512 && z < 512 && Has2(w, tab, x, y) ::
         GetPaddr(Leaf(w', tab, x, y, z)) == GetPaddr(Leaf(w, tab, x, y, z))
  }

  lemma LeavesUntouched(w: Memory, tab: nat)
    ensures SameLeaves(w, w, tab)
  {
  }

  /** Clearing the present bit of a leaf. */
  lemma ClearedLeaf(w0: Memory, w: Memory, tab: nat, i: nat, j: nat, k: nat)
    requires WfTab(w, tab) && i < 512 && j < 512 && k < 512 && Has2(w, tab, i, j) && SameLeaves(w0, w, tab)
    requires SameShape(w, w[At(T2(w, tab, i, j), k) := Leaf(w, tab, i, j, k).(present := false)], tab)
    ensures SameLeaves(w0, w[At(T2(w, tab, i, j), k) := Leaf(w, tab, i, j, k).(present := false)], tab)
  {
    var p := T2(w, tab, i, j);
    var e := Leaf(w, tab, i, j, k).(present := false);
    var w' := w[At(p, k) := e];
    SameAddress(Leaf(w, tab, i, j, k));
    BelowTop(w, tab, i, j);
    hide GetPaddr, WfTab, Has2, T2, Leaf, Ent, At, SameShape;
    forall x: nat, y: nat, z: nat | x < 512 && y < 512 && z < 512 && Has2(w, tab, x, y)
      ensures GetPaddr(Leaf(w', tab, x, y, z)) == GetPaddr(Leaf(w, tab, x, y, z))
    {
      BelowTop(w, tab, x, y);
      LeafAfter(w, w', tab, x, y, z);
      OtherEntry(w, p, k, e, T2(w, tab, x, y), z);
      LeafIs(w, tab, x, y, z);
      LeafIs(w, tab, i, j, k);
    }
    ShapeThen(w0, w, w', tab);
  }

  lemma SameAddress(e: Entry)
    ensures GetPaddr(e.(present := false)) == GetPaddr(e)
  {
  }

  lemma LeafIs(w: Memory, tab: nat, x: nat, y: nat, z: nat)
    ensures Leaf(w, tab, x, y, z) == Ent(w, At(T2(w, tab, x, y), z))
  {
    hide T2, Ent, At;
  }

  lemma LeafAfter(w: Memory, w': Memory, tab: nat, x: nat, y: nat, z: nat)
    requires x < 512 && y < 512 && Has2(w, tab, x, y) && SameShape(w, w', tab)
    ensures Leaf(w', tab, x, y, z) == Ent(w', At(T2(w, tab, x, y), z))
  {
    hide T2, Ent, At, Has2, T3, Has3;
  }

  lemma ShapeThen(w0: Memory, w: Memory, w': Memory, tab: nat)
    requires SameShape(w0, w, tab) && SameShape(w, w', tab)
    ensures SameShape(w0, w', tab)
  {
    hide Has3, Has2, T3, T2;
  }

  /** `page_free_found`, for a run of mapped pages with the frames `fs`. */
  method FreeFound(pg: Pager, tab: nat, addr: nat, pgs: nat, ghost fs: seq<nat>)
    requires pg.TabOk(tab) && pg.MapOk() && addr / FRAME < SPACE
    requires pgs == |fs| <= SPACE && RunIs(pg.words, tab, addr / FRAME, fs)
    modifies pg`words, pg.physMap
    ensures pg.TabOk(tab) && pg.MapOk() && RunGone(old(pg.words), pg.words, tab, addr / FRAME, pgs)
    ensures GivenBack(old(UsedSet(pg)), pg, fs, pgs) && SameLeaves(old(pg.words), pg.words, tab)
    ensures RunCleared(old(pg.words), pg.words, tab, addr / FRAME, pgs)
  {
    hide SameLeaves, WfTab, RunIs, RunGone, RunCleared, PageMap, I4, I3, I2, MapAt, Pages, Ent, At, GetPaddr, Has2, SameBut, LeafE;
    ghost var w0, used0 := pg.words, UsedSet(pg);
    ghost var n0: nat := addr / FRAME;
    NothingGone(w0, tab, n0);
    LeavesUntouched(w0, tab);
    NothingCleared(w0, tab, n0);
    var i := 0;
    while i < pgs
      invariant i <= pgs && pg.TabOk(tab) && pg.MapOk()
      invariant RunGone(w0, pg.words, tab, n0, i) && GivenBack(used0, pg, fs, i) && SameLeaves(w0, pg.words, tab)
      invariant RunCleared(w0, pg.words, tab, n0, i)
      modifies pg`words, pg.physMap
    {
      ghost var w := pg.words;
      NextMappedPage(w0, w, tab, n0, fs, i);
      var vir := addr + i * FRAME;
      PageOfAddress(addr, i);
      var x, y, z := I4(vir), I3(vir), I2(vir);
      LeafOf(w, tab, x, y, z);
      var pd := GetPaddr(Ent(pg.words, At(GetPaddr(Ent(pg.words, At(tab, x))), y)));
      var pa := GetPaddr(Ent(pg.words, At(pd, z))) % 0x1_0000_0000_0000;
      FrameNumber(fs[i]);
      assert pa == FRAME * fs[i];
      pg.UnmarkFrame(pa);
      ghost var e := Ent(w, At(pd, z)).(present := false);
      pg.words := pg.words[At(pd, z) := Ent(pg.words, At(pd, z)).(present := false)];
      WriteLeaf(w, tab, x, y, z, e);
      ClearedLeaf(w0, w, tab, x, y, z);
      LeafThere(w, tab, x, y, z);
      LeafEntryWritten(w, tab, x, y, z, e);
      ClearedLonger(w0, w, pg.words, tab, n0, i);
      ShapeTables(w, pg.words, tab);
      PagesKept(w, pg.words, tab);
      GoneLonger(w0, w, pg.words, tab, n0, i);
      assert fs[..i + 1] == fs[..i] + [fs[i]];
      i := i + 1;
    }
  }

  /** The entries of a run have lost their present bit and nothing else; no other entry has changed. */
  ghost predicate RunCleared(w0: Memory, w: Memory, tab: nat, n0: nat, count: nat)
    requires n0 < SPACE
  {
    && RootsBut(w0, w, tab, 512) && MidsBut(w0, w, tab, 512, 512)
    && forall n: nat {:trigger PageE(w, tab, n)} | n < SPACE ::
         PageE(w, tab, n) == if Off(n0, n) < count then PageE(w0, tab, n).(present := false) else PageE(w0, tab, n)
  }

  lemma NothingCleared(w: Memory, tab: nat, n0: nat)
    requires n0 < SPACE
    ensures RunCleared(w, w, tab, n0, 0)
  {
  }

  lemma ClearedLonger(w0: Memory, w: Memory, w': Memory, tab: nat, n0: nat, count: nat)
    requires n0 < SPACE && count < SPACE && RunCleared(w0, w, tab, n0, count)
    requires var v := FRAME * (n0 + count); var i, j, k := I4(v), I3(v), I2(v);
             SameBut(w, w', tab, 512, 512, 512, i, j, k) && LeafE(w', tab, i, j, k) == LeafE(w, tab, i, j, k).(present := false)
    ensures RunCleared(w0, w', tab, n0, count + 1)
  {
    hide I4, I3, I2, RootE, MidE, LeafE, PageE, LeavesBut;
    var m := n0 + count;
    forall x: nat | x < 512 ensures RootE(w', tab, x) == RootE(w0, tab, x) { assert RootE(w, tab, x) == RootE(w0, tab, x); }
    forall x: nat, y: nat | x < 512 && y < 512 ensures MidE(w', tab, x, y) == MidE(w0, tab, x, y) {
      assert MidE(w, tab, x, y) == MidE(w0, tab, x, y);
    }
    forall n: nat | n < SPACE
      ensures PageE(w', tab, n) == if Off(n0, n) < count + 1 then PageE(w0, tab, n).(present := false) else PageE(w0, tab, n)
    {
      PageCleared(w, w', tab, m, n);
      OffOf(n0, count, n);
    }
  }

  lemma PageCleared(w: Memory, w': Memory, tab: nat, m: nat, n: nat)
    requires n < SPACE
    requires var v := FRAME * m; var i, j, k := I4(v), I3(v), I2(v);
             LeavesBut(w, w', tab, i, j, k) && LeafE(w', tab, i, j, k) == LeafE(w, tab, i, j, k).(present := false)
    ensures PageE(w', tab, n) == if n == m % SPACE then PageE(w, tab, n).(present := false) else PageE(w, tab, n)
  {
    AddressIndices(m);
    SameDigits(n, m);
    hide I4, I3, I2, LeafE;
  }

  /** After freeing a run a lookup of any of its pages still gives the frame that was there. */
  method FreeThenLookup(pg: Pager, tab: nat, addr: nat, pgs: nat, k: nat, ghost fs: seq<nat>) returns (r: nat)
    requires pg.TabOk(tab) && pg.MapOk() && addr / FRAME < SPACE && k < pgs
    requires pgs == |fs| <= SPACE && RunIs(pg.words, tab, addr / FRAME, fs)
    modifies pg`words, pg.physMap
    ensures PageMap(pg.words, tab, addr / FRAME + k) == Absent && r == FRAME * fs[k] + addr % FRAME
  {
    hide WfTab, RunIs, RunGone, PageMap, I4, I3, I2, MapAt, Pages, Ent, At, GetPaddr, Has2, SameLeaves, GivenBack;
    ghost var w0 := pg.words;
    ghost var n0: nat := addr / FRAME;
    NothingGone(w0, tab, n0);
    NextMapped0(w0, tab, n0, fs, k);
    FreeFound(pg, tab, addr, pgs, fs);
    PageOfAddress(addr, k);
    StaleLeaf(w0, pg.words, tab, n0, fs, k);
    GoneAt(w0, pg.words, tab, n0, pgs, k);
    r := pg.LookupTab(tab, addr + k * FRAME);
    OffsetKept(addr, k);
  }

  lemma OffsetKept(addr: nat, k: nat)
    ensures (addr + k * FRAME) % FRAME == addr % FRAME
  {
  }

  lemma GoneAt(w0: Memory, w: Memory, tab: nat, n0: nat, pgs: nat, k: nat)
    requires n0 < SPACE && k < pgs <= SPACE && RunGone(w0, w, tab, n0, pgs)
    ensures PageMap(w, tab, n0 + k) == Absent
  {
    hide PageMap;
    WrapSame(w, tab, n0 + k);
    OffOf(n0, k, (n0 + k) % SPACE);
  }

  lemma NextMapped0(w: Memory, tab: nat, n0: nat, fs: seq<nat>, k: nat)
    requires n0 < SPACE && k < |fs| <= SPACE && RunIs(w, tab, n0, fs)
    ensures var v := FRAME * (n0 + k); Has2(w, tab, I4(v), I3(v)) && MapAt(w, tab, I4(v), I3(v), I2(v)) == Mapped(FRAME * fs[k])
  {
    hide PageMap, MapAt, Has2, I4, I3, I2;
    PageByAddress(w, tab, n0 + k);
    assert PageMap(w, tab, n0 + k) == Mapped(FRAME * fs[k]);
  }

  lemma StaleLeaf(w0: Memory, w: Memory, tab: nat, n0: nat, fs: seq<nat>, k: nat)
    requires k < |fs| && SameLeaves(w0, w, tab) && WfTab(w, tab)
    requires var v := FRAME * (n0 + k); Has2(w0, tab, I4(v), I3(v)) && MapAt(w0, tab, I4(v), I3(v), I2(v)) == Mapped(FRAME * fs[k])
    ensures var v := FRAME * (n0 + k);
            && T3(w, tab, I4(v)) != 0 && T2(w, tab, I4(v), I3(v)) != 0
            && GetPaddr(Leaf(w, tab, I4(v), I3(v), I2(v))) == FRAME * fs[k]
  {
    var v := FRAME * (n0 + k);
    PageIndices(v);
    var i, j := I4(v), I3(v);
    LeafOf(w0, tab, i, j, I2(v));
    hide Ent, At, GetPaddr, WfTab, I4, I3, I2, MapAt;
    assert Has2(w, tab, i, j);
    BelowTop(w, tab, i, j);
  }

  lemma NothingGone(w: Memory, tab: nat, n0: nat)
    requires n0 < SPACE
    ensures RunGone(w, w, tab, n0, 0)
  {
  }

  lemma LeafOf(w: Memory, tab: nat, i: nat, j: nat, k: nat)
    ensures T2(w, tab, i, j) == GetPaddr(Ent(w, At(GetPaddr(Ent(w, At(tab, i))), j)))
    ensures MapAt(w, tab, i, j, k).Mapped? ==> MapAt(w, tab, i, j, k).paddr == GetPaddr(Ent(w, At(T2(w, tab, i, j), k)))
  {
  }

  lemma FrameNumber(f: nat)
    requires f < 8 * MAP_BYTES
    ensures FRAME * f < 0x1_0000_0000_0000 && FRAME * f % 0x1_0000_0000_0000 == FRAME * f && FRAME * f / FRAME == f
  {
  }

  lemma PagesKept(w: Memory, w': Memory, tab: nat)
    requires Tables3(w', tab) == Tables3(w, tab) && Tables2(w', tab) == Tables2(w, tab)
    ensures Pages(w', tab) == Pages(w, tab)
  {
  }

  /** Allocating and freeing again restores the used frames; it restores the map if and only if the
      pages that were found were free, which for up to 512 pages means that there is a free run. */
  method AllocAndFree(pg: Pager, tab: nat, ranges: seq<Range>, pgs: nat, kernel: bool, ghost ws: seq<nat>) returns (addr: nat)
    requires pg.TabOk(tab) && pg.MapOk() && RangesOk(ranges) && NoHuge(pg.words, tab)
    requires 0 < pgs <= SPACE && |pg.pool| >= 2 * pgs
    requires |ws| == pgs && Enough(UsedSet(pg), ranges, ws)
    modifies pg`words, pg`pool, pg.physMap
    ensures pg.TabOk(tab) && pg.MapOk() && addr == Search(old(pg.words), tab, pgs, 0)
    ensures forall f: nat | f < 8 * MAP_BYTES :: pg.Used(f) <==> old(pg.Used(f))
    ensures SameFlat(old(pg.words), pg.words, tab) <==> old(FreeRun(pg.words, tab, addr / FRAME, pgs))
    ensures pgs <= 512 ==> (SameFlat(old(pg.words), pg.words, tab) <==> exists n: nat :: n < SPACE && old(FreeRun(pg.words, tab, n, pgs)))
  {
    hide Pager.TabOk, RunMapped, RunGone, RunIs, FreeRun, PageMap, NoHuge, Enough, FirstUsable, Taken, GivenBack, Search, Right, SameFlat;
    ghost var w0, used0 := pg.words, UsedSet(pg);
    ghost var fs: seq<nat>;
    addr, fs := FindAndAlloc(pg, tab, ranges, pgs, kernel, ws);
    ghost var w1, used1 := pg.words, UsedSet(pg);
    FirstAreLow(used0, ranges, fs);
    MappedIs(w0, w1, tab, addr / FRAME, fs);
    MapRestored0(used0, used1, pg, fs);
    FreeFound(pg, tab, addr, pgs, fs);
    UsedRestored(used0, used1, pg, ranges, fs);
    MapRestored(w0, w1, pg.words, tab, addr / FRAME, fs, pgs);
    if pgs <= 512 { FoundOrNone(w0, tab, pgs, addr); }
  }

  ghost predicate SameFlat(w: Memory, w': Memory, tab: nat) {
    forall n: nat | n < SPACE :: PageMap(w', tab, n) == PageMap(w, tab, n)
  }

  lemma FoundOrNone(w: Memory, tab: nat, pgs: nat, addr: nat)
    requires Right(w, tab, pgs, addr)
    ensures FreeRun(w, tab, addr / FRAME, pgs) <==> exists n: nat :: n < SPACE && FreeRun(w, tab, n, pgs)
  {
    hide FreeRun;
    if addr == 0xDEAD { assert addr / FRAME == 0; }
  }

  /** Without a free run a page from 0 on was mapped, and its mapping is lost. */
  lemma MappingLost(w0: Memory, w: Memory, tab: nat, pgs: nat, fs: seq<nat>)
    requires 0 < pgs <= 512 && |fs| == pgs && Right(w0, tab, pgs, 0xDEAD) && RunMapped(w0, w, tab, 0, fs)
    ensures exists n: nat :: n < pgs && PageMap(w0, tab, n).Mapped? && PageMap(w, tab, n) == Mapped(FRAME * fs[n])
  {
    assert !FreeRun(w0, tab, 0, pgs);
    hide PageMap, FreeAfter;
    var d: nat :| d < pgs && !FreeAfter(w0, tab, 0, d);
    StillMapped(w0, tab, d);
    assert PageMap(w, tab, d) == Mapped(FRAME * fs[d]);
  }

  lemma StillMapped(w: Memory, tab: nat, d: nat)
    requires !FreeAfter(w, tab, 0, d)
    ensures PageMap(w, tab, d).Mapped?
  {
  }

  lemma FirstAreLow(used0: iset<nat>, ranges: seq<Range>, fs: seq<nat>)
    requires |fs| > 0 && FirstUsable(used0, ranges, fs, fs[|fs| - 1] + 1)
    ensures forall k | 0 <= k < |fs| :: fs[k] < 8 * MAP_BYTES && fs[k] !in used0
  {
    forall k | 0 <= k < |fs| ensures WasUsable(used0, ranges, fs[k]) { assert fs[k] in fs; }
  }

  lemma MappedIs(w0: Memory, w: Memory, tab: nat, n0: nat, fs: seq<nat>)
    requires n0 < SPACE && |fs| <= SPACE && RunMapped(w0, w, tab, n0, fs) && forall k | 0 <= k < |fs| :: fs[k] < 8 * MAP_BYTES
    ensures RunIs(w, tab, n0, fs)
  {
    hide PageMap;
    forall d | 0 <= d < |fs| ensures PageMap(w, tab, n0 + d) == Mapped(FRAME * fs[d]) {
      WrapSame(w, tab, n0 + d);
      OffOf(n0, d, (n0 + d) % SPACE);
    }
  }

  lemma MapRestored0(used0: iset<nat>, used1: iset<nat>, pg: Pager, fs: seq<nat>)
    requires pg.MapOk() && Taken(used0, pg, fs) && used1 == UsedSet(pg)
    ensures forall f: nat | f < 8 * MAP_BYTES :: f in used1 <==> f in used0 || f in fs
  {
  }

  lemma UsedRestored(used0: iset<nat>, used1: iset<nat>, pg: Pager, ranges: seq<Range>, fs: seq<nat>)
    requires pg.MapOk() && GivenBack(used1, pg, fs, |fs|)
    requires forall f: nat | f < 8 * MAP_BYTES :: f in used1 <==> f in used0 || f in fs
    requires forall k | 0 <= k < |fs| :: fs[k] !in used0
    ensures forall f: nat | f < 8 * MAP_BYTES :: pg.Used(f) <==> f in used0
  {
    assert fs[..|fs|] == fs;
  }

  lemma MapRestored(w0: Memory, w1: Memory, w2: Memory, tab: nat, n0: nat, fs: seq<nat>, pgs: nat)
    requires n0 < SPACE && pgs == |fs| <= SPACE && RunMapped(w0, w1, tab, n0, fs) && RunGone(w1, w2, tab, n0, pgs)
    ensures SameFlat(w0, w2, tab) <==> FreeRun(w0, tab, n0, pgs)
  {
    hide PageMap, FreeAfter;
    if FreeRun(w0, tab, n0, pgs) {
      forall n: nat | n < SPACE ensures PageMap(w2, tab, n) == PageMap(w0, tab, n) {
        var d := Off(n0, n);
        assert PageMap(w1, tab, n) == if d < |fs| then Mapped(FRAME * fs[d]) else PageMap(w0, tab, n);
        if d < pgs {
          assert FreeAfter(w0, tab, n0, d);
          WrapSame(w0, tab, n0 + d);
          assert n == (n0 + d) % SPACE;
          FreeMeansAbsent(w0, tab, n0, d);
        }
      }
    } else {
      var d: nat :| d < pgs && !FreeAfter(w0, tab, n0, d);
      var n := (n0 + d) % SPACE;
      WrapSame(w0, tab, n0 + d);
      OffOf(n0, d, n);
      FreeMeansAbsent(w0, tab, n0, d);
      assert PageMap(w2, tab, n) == Absent;
    }
  }

  lemma FreeMeansAbsent(w: Memory, tab: nat, n: nat, d: nat)
    ensures FreeAfter(w, tab, n, d) <==> PageMap(w, tab, n + d) == Absent
  {
  }
}
