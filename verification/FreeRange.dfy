/** The search for free virtual pages (src/page.c:696-770), on a table without 1 GiB entries. */
module FreeRange {
  import opened Entries
  import opened Tables
  import opened Contents
  import opened Paging
  import Alignment

  const SPACE: nat := 0x800_0000   // virtual pages in 2^48 bytes

  /** The virtual page number n, modulo 2^48 bytes, is not mapped. */
  ghost predicate FreePage(w: Memory, tab: nat, n: nat) {
    MapAt(w, tab, n / 0x4_0000 % 512, n / 512 % 512, n % 512).Absent?
  }

  /** There are tables for the 1 GiB region of page n. */
  predicate RegionHere(w: Memory, tab: nat, n: nat) {
    Has2(w, tab, n / 0x4_0000 % 512, n / 512 % 512)
  }

  ghost predicate FreeAfter(w: Memory, tab: nat, n: nat, d: nat) { FreePage(w, tab, n + d) }

  /** The pages from n on, pgs of them. */
  ghost predicate FreeRun(w: Memory, tab: nat, n: nat, pgs: nat) {
    forall d: nat | d < pgs :: FreeAfter(w, tab, n, d)
  }

  /** No run starts below n, and every page below n has its tables. */
  ghost predicate Passed(w: Memory, tab: nat, n: nat, pgs: nat) {
    forall q: nat {:trigger RegionHere(w, tab, q)} {:trigger FreeRun(w, tab, q, pgs)} | q < n ::
      RegionHere(w, tab, q) && !FreeRun(w, tab, q, pgs)
  }

  lemma NoRegionIsFree(w: Memory, tab: nat, n: nat)
    requires !RegionHere(w, tab, n)
    ensures FreePage(w, tab, n)
  {
  }

  lemma SameRegion(w: Memory, tab: nat, n: nat, m: nat)
    requires n / 512 == m / 512
    ensures RegionHere(w, tab, n) <==> RegionHere(w, tab, m)
  {
    Nested(n);
    Nested(m);
  }

  lemma Nested(n: nat)
    ensures n / 0x4_0000 == n / 512 / 512
  {
  }

  /** The early returns agree with a linear scan: the region where the run meets missing tables
      begins no earlier than the run, so the rest of the run lies in it. */
  lemma EarlyReturn(w: Memory, tab: nat, n: nat, d: nat, pgs: nat)
    requires d < pgs <= 512 && Passed(w, tab, n, pgs) && !RegionHere(w, tab, n + d)
    requires FreeRun(w, tab, n, d)
    ensures FreeRun(w, tab, n, pgs)
  {
    hide RegionHere, FreePage;
    var s := (n + d) / 512 * 512;
    assert s / 512 == (n + d) / 512;
    SameRegion(w, tab, s, n + d);
    assert s >= n;
    forall e: nat | e < pgs ensures FreeAfter(w, tab, n, e) {
      if e >= d {
        assert s <= n + e < s + 512;
        SameRegion(w, tab, n + e, n + d);
        NoRegionIsFree(w, tab, n + e);
      }
    }
  }

  /** The indices that the code computes from an address. */
  lemma AddressIndices(n: nat)
    ensures I4(FRAME * n) == n / 0x4_0000 % 512 && I3(FRAME * n) == n / 512 % 512 && I2(FRAME * n) == n % 512
  {
    PageIndices(FRAME * n);
    assert FRAME * n / FRAME == n;
  }

  /** Rounding up inside the loop makes progress and stays on page borders. */
  lemma SkipAhead(d: nat, regions: nat)
    requires regions > 0
    ensures var a := FRAME * d; var step := FRAME * regions;
            a % step < step && (a - a % step) % FRAME == 0
            && a + (step - a % step) == FRAME * (d + regions - d % regions) && d % regions < regions
  {
    ScaledMod(d, regions);
  }

  lemma ScaledMod(d: nat, r: nat)
    requires r > 0
    ensures FRAME * d % (FRAME * r) == FRAME * (d % r)
  {
    var q, m := d / r, d % r;
    assert d == r * q + m;
    assert FRAME * d == (FRAME * r) * q + FRAME * m by { assert FRAME * (r * q) == (FRAME * r) * q; }
    assert FRAME * m < FRAME * r;
    ModUnique(FRAME * d, FRAME * r, q, FRAME * m);
  }

  lemma ModUnique(x: nat, s: nat, q: nat, m: nat)
    requires s > 0 && x == s * q + m && m < s
    ensures x % s == m
  {
    var q', m' := x / s, x % s;
    assert x == s * q' + m';
    assert s * (q - q') == m' - m;
    Alignment.MulBounds(s, q - q');
  }

  /* ---------------- the search as a function ---------------- */

  /** There is a table for the 512 GiB region of page n. */
  predicate TopHere(w: Memory, tab: nat, n: nat) { Has3(w, tab, n / 0x4_0000 % 512) }

  /** The inner loop, from offset d on: it ends without meeting a mapped page. */
  ghost predicate Accepts(w: Memory, tab: nat, n: nat, pgs: nat, d: nat)
    decreases pgs - d
  {
    if d >= pgs then true
    else if !TopHere(w, tab, n + d) then pgs < 512 * 512 || Accepts(w, tab, n, pgs, d + 0x4_0000 - d % 0x4_0000)
    else if !RegionHere(w, tab, n + d) then pgs < 512 || Accepts(w, tab, n, pgs, d + 512 - d % 512)
    else FreePage(w, tab, n + d) && Accepts(w, tab, n, pgs, d + 1)
  }

  /** The outer loop, from page n on. */
  ghost function Search(w: Memory, tab: nat, pgs: nat, n: nat): nat
    decreases SPACE - n
  {
    if n >= SPACE then 0xDEAD
    else if Accepts(w, tab, n, pgs, 0) then FRAME * n
    else Search(w, tab, pgs, n + 1)
  }

  /** The lowest address of a free run, or 0xDEAD if there is none. */
  ghost predicate Right(w: Memory, tab: nat, pgs: nat, r: nat) {
    if r == 0xDEAD then forall n: nat | n < SPACE :: !FreeRun(w, tab, n, pgs)
    else r % FRAME == 0 && r / FRAME < SPACE && FreeRun(w, tab, r / FRAME, pgs)
         && forall n: nat | n < r / FRAME :: !FreeRun(w, tab, n, pgs)
  }

  lemma OneAccept(w: Memory, tab: nat, n: nat, pgs: nat, d: nat)
    ensures d >= pgs ==> Accepts(w, tab, n, pgs, d)
    ensures d < pgs && !TopHere(w, tab, n + d) ==>
              (Accepts(w, tab, n, pgs, d) <==> pgs < 512 * 512 || Accepts(w, tab, n, pgs, d + 0x4_0000 - d % 0x4_0000))
    ensures d < pgs && TopHere(w, tab, n + d) && !RegionHere(w, tab, n + d) ==>
              (Accepts(w, tab, n, pgs, d) <==> pgs < 512 || Accepts(w, tab, n, pgs, d + 512 - d % 512))
    ensures d < pgs && TopHere(w, tab, n + d) && RegionHere(w, tab, n + d) ==>
              (Accepts(w, tab, n, pgs, d) <==> FreePage(w, tab, n + d) && Accepts(w, tab, n, pgs, d + 1))
  {
  }

  lemma {:induction false} AcceptsRuns(w: Memory, tab: nat, n: nat, pgs: nat, d: nat)
    requires d <= pgs <= 512 && Passed(w, tab, n, pgs) && FreeRun(w, tab, n, d) && (d > 0 ==> RegionHere(w, tab, n))
    ensures Accepts(w, tab, n, pgs, d) <==> FreeRun(w, tab, n, pgs)
    ensures !FreeRun(w, tab, n, pgs) ==> RegionHere(w, tab, n)
    decreases pgs - d
  {
    hide TopHere, RegionHere, FreePage, FreeAfter, FreeRun, Passed, Accepts;
    OneAccept(w, tab, n, pgs, d);
    OneAccept(w, tab, n, pgs, 512);
    if d < pgs {
      RegionNeedsTop(w, tab, n + d);
      if !RegionHere(w, tab, n + d) {
        EarlyReturn(w, tab, n, d, pgs);
      } else {
        LongerRun(w, tab, n, d);
        if FreePage(w, tab, n + d) {
          if d > 0 { AcceptsRuns(w, tab, n, pgs, d + 1); } else { AcceptsRuns(w, tab, n, pgs, 1); }
        } else {
          NotARun(w, tab, n, d, pgs);
        }
      }
    }
  }

  lemma RegionNeedsTop(w: Memory, tab: nat, n: nat)
    ensures RegionHere(w, tab, n) ==> TopHere(w, tab, n)
  {
  }

  lemma NotARun(w: Memory, tab: nat, n: nat, d: nat, pgs: nat)
    requires d < pgs && !FreePage(w, tab, n + d)
    ensures !FreeRun(w, tab, n, pgs)
  {
    hide FreePage;
    assert !FreeAfter(w, tab, n, d);
  }

  /** For at most 512 pages the search is right: skipping a region without tables agrees with a
      linear scan. */
  lemma {:induction false} SearchRight(w: Memory, tab: nat, pgs: nat, n: nat)
    requires pgs <= 512 && Passed(w, tab, n, pgs) && n <= SPACE
    ensures Right(w, tab, pgs, Search(w, tab, pgs, n))
    decreases SPACE - n
  {
    hide FreeRun, Passed, Accepts, RegionHere;
    if n == SPACE {
      AllPassed(w, tab, n, pgs);
    } else {
      LongerRun(w, tab, n, 0);
      AcceptsRuns(w, tab, n, pgs, 0);
      FoundHere(w, tab, n, pgs);
      if !Accepts(w, tab, n, pgs, 0) {
        PassedOne(w, tab, n, pgs);
        SearchRight(w, tab, pgs, n + 1);
      }
    }
  }

  lemma PassedOne(w: Memory, tab: nat, n: nat, pgs: nat)
    requires Passed(w, tab, n, pgs) && RegionHere(w, tab, n) && !FreeRun(w, tab, n, pgs)
    ensures Passed(w, tab, n + 1, pgs)
  {
    hide RegionHere, FreeRun;
  }

  /** `page_virt_find_addr_user`, and `page_virt_find_addr` while the kernel's table is the current
      one. */
  method VirtFindAddr(w: Memory, tab: nat, pgs: nat) returns (r: nat)
    requires NoHuge(w, tab)
    ensures r == Search(w, tab, pgs, 0)
    ensures pgs <= 512 ==> Right(w, tab, pgs, r)
  {
    hide Ent, At, GetPaddr, I4, I3, I2, MapAt, FreePage, FreeAfter, RegionHere, TopHere, Has2, Passed, FreeRun, NoHuge, Accepts, Right;
    var addr := 0;
    ghost var n: nat := 0;
    NothingPassed(w, tab, pgs);
    if pgs <= 512 { SearchRight(w, tab, pgs, 0); }
    while addr < 0xFFFF_FFFF_FFFF
      invariant addr == FRAME * n && n <= SPACE && Search(w, tab, pgs, 0) == Search(w, tab, pgs, n)
      decreases 0x1_0000_0000_0000 - addr
    {
      var notFound := false;
      var addr2 := 0;
      ghost var d: nat := 0;
      while addr2 < pgs * FRAME
        invariant addr2 == FRAME * d && !notFound
        invariant Accepts(w, tab, n, pgs, 0) <==> Accepts(w, tab, n, pgs, d)
        decreases pgs * FRAME - addr2
      {
        var targ := addr + addr2;
        assert targ == FRAME * (n + d);
        AddressIndices(n + d);
        RegionAt(w, tab, n + d);
        OneAccept(w, tab, n, pgs, d);
        var i, j, k := I4(targ), I3(targ), I2(targ);
        if !Ent(w, At(tab, i)).present {
          if pgs < 512 * 512 {
            return addr;
          }
          SkipAhead(d, 0x4_0000);
          addr2 := addr2 + 0x80_0000_0000 - addr2 % 0x80_0000_0000;
          d := d + 0x4_0000 - d % 0x4_0000;
        } else {
          var pdpt := GetPaddr(Ent(w, At(tab, i)));
          if !Ent(w, At(pdpt, j)).present {
            if pgs < 512 {
              return addr;
            }
            SkipAhead(d, 512);
            addr2 := addr2 + 0x4000_0000 - addr2 % 0x4000_0000;
            d := d + 512 - d % 512;
          } else {
            assert !Ent(w, At(pdpt, j)).bit7 by { HasBoth(w, tab, i, j); }
            var pd := GetPaddr(Ent(w, At(pdpt, j)));
            LeafAt(w, tab, n + d);
            if Ent(w, At(pd, k)).present {
              notFound := true;
              break;
            }
            addr2 := addr2 + FRAME;
            d := d + 1;
          }
        }
      }
      if !notFound {
        OneAccept(w, tab, n, pgs, d);
        return addr;
      }
      addr := addr + FRAME;
      n := n + 1;
    }
    return 0xDEAD;
  }

  lemma NothingPassed(w: Memory, tab: nat, pgs: nat)
    ensures Passed(w, tab, 0, pgs)
  {
  }

  lemma AllPassed(w: Memory, tab: nat, n: nat, pgs: nat)
    requires Passed(w, tab, n, pgs)
    ensures forall q: nat | q < n :: !FreeRun(w, tab, q, pgs)
  {
    hide FreeRun, RegionHere;
  }

  lemma FoundHere(w: Memory, tab: nat, n: nat, pgs: nat)
    requires Passed(w, tab, n, pgs)
    ensures FRAME * n % FRAME == 0 && FRAME * n / FRAME == n && FRAME * n != 0xDEAD
    ensures forall q: nat | q < n :: !FreeRun(w, tab, q, pgs)
  {
    AllPassed(w, tab, n, pgs);
    hide FreeRun, RegionHere, Passed;
  }

  lemma LongerRun(w: Memory, tab: nat, n: nat, d: nat)
    ensures FreeRun(w, tab, n, 0)
    ensures FreeRun(w, tab, n, d) && FreePage(w, tab, n + d) ==> FreeRun(w, tab, n, d + 1)
    ensures FreeAfter(w, tab, n, d) <==> FreePage(w, tab, n + d)
  {
    hide FreePage;
  }

  lemma RegionAt(w: Memory, tab: nat, n: nat)
    ensures var i, j := n / 0x4_0000 % 512, n / 512 % 512;
            && (TopHere(w, tab, n) <==> Ent(w, At(tab, i)).present)
            && (RegionHere(w, tab, n) <==> Ent(w, At(tab, i)).present && Ent(w, At(GetPaddr(Ent(w, At(tab, i))), j)).present)
  {
    hide Ent, GetPaddr, At;
  }

  lemma HasBoth(w: Memory, tab: nat, i: nat, j: nat)
    requires NoHuge(w, tab) && i < 512 && j < 512
    requires Ent(w, At(tab, i)).present && Ent(w, At(GetPaddr(Ent(w, At(tab, i))), j)).present
    ensures !Ent(w, At(GetPaddr(Ent(w, At(tab, i))), j)).bit7
  {
    hide Ent, GetPaddr, At;
    assert MidE(w, tab, i, j).present;
  }

  lemma LeafAt(w: Memory, tab: nat, n: nat)
    requires RegionHere(w, tab, n)
    ensures var i, j, k := n / 0x4_0000 % 512, n / 512 % 512, n % 512;
            FreePage(w, tab, n) <==> !Ent(w, At(GetPaddr(Ent(w, At(GetPaddr(Ent(w, At(tab, i))), j))), k)).present
  {
    hide Ent, GetPaddr, At;
  }

  /* ---------------- and for more pages ---------------- */

  /** Below the first entry of the root there is one table of leaves, for the second GiB, and only its
      first page is mapped. */
  ghost predicate OnePage(w: Memory, tab: nat) {
    forall m: nat {:trigger TopHere(w, tab, m)} {:trigger RegionHere(w, tab, m)} {:trigger FreePage(w, tab, m)} ::
      && (TopHere(w, tab, m) <==> m % SPACE < 0x4_0000)
      && (RegionHere(w, tab, m) <==> 512 <= m % SPACE < 1024)
      && (FreePage(w, tab, m) <==> m % SPACE != 512)
  }

  /** At page 1 the inner loop skips page 512 on every round through the address space. */
  lemma {:induction false} SkipsIt(w: Memory, tab: nat, pgs: nat, d: nat)
    requires OnePage(w, tab) && (d % 512 == 0 || 512 <= d % SPACE < 1024)
    ensures Accepts(w, tab, 1, pgs, d)
    decreases pgs - d
  {
    hide TopHere, RegionHere, FreePage, Accepts;
    OneAccept(w, tab, 1, pgs, d);
    AfterSkip(d);
    if d < pgs {
      if !TopHere(w, tab, 1 + d) {
        SkipsIt(w, tab, pgs, d + 0x4_0000 - d % 0x4_0000);
      } else if !RegionHere(w, tab, 1 + d) {
        SkipsIt(w, tab, pgs, d + 512 - d % 512);
      } else {
        SkipsIt(w, tab, pgs, d + 1);
      }
    }
  }

  lemma AfterSkip(d: nat)
    requires d % 512 == 0 || 512 <= d % SPACE < 1024
    ensures (d + 512 - d % 512) % 512 == 0 && (d + 0x4_0000 - d % 0x4_0000) % 512 == 0
    ensures 512 <= (1 + d) % SPACE < 1024 ==> (1 + d) % SPACE != 512 && 512 <= (d + 1) % SPACE < 1024
  {
    RoundedUp(d);
    InLeafTable(d);
  }

  lemma RoundedUp(d: nat)
    ensures (d + 512 - d % 512) % 512 == 0 && (d + 0x4_0000 - d % 0x4_0000) % 512 == 0
  {
    var q := d / 0x4_0000;
    assert d + 0x4_0000 - d % 0x4_0000 == 512 * (512 * (q + 1));
  }

  lemma InLeafTable(d: nat)
    requires d % 512 == 0 || 512 <= d % SPACE < 1024
    ensures (1 + d) % SPACE != 512
  {
    var q, e := d / SPACE, d % SPACE;
    assert d == 512 * (0x4_0000 * q) + e;
    assert d % 512 == 0 ==> e % 512 == 0;
    assert e + 1 < SPACE ==> (1 + d) % SPACE == e + 1;
    assert e + 1 == SPACE ==> 1 + d == SPACE * (q + 1);
  }

  /** With more than 512 pages the search returns the second page, whose run holds the mapped one. */
  lemma MissesIt(w: Memory, tab: nat, pgs: nat)
    requires OnePage(w, tab) && pgs > 512
    ensures Search(w, tab, pgs, 0) == FRAME && !Right(w, tab, pgs, FRAME)
  {
    hide TopHere, RegionHere, FreePage, Accepts;
    OneAccept(w, tab, 0, pgs, 0);
    OneAccept(w, tab, 0, pgs, 512);
    SkipsIt(w, tab, pgs, 0);
    assert Search(w, tab, pgs, 0) == Search(w, tab, pgs, 1);
    assert !FreeAfter(w, tab, 1, 511);
  }

  /** Such a table. */
  function OnePageTable(): Memory {
    map[At(PAGE, 0) := SetPaddr(ZERO, 2 * PAGE).(present := true),
        At(2 * PAGE, 1) := SetPaddr(ZERO, 3 * PAGE).(present := true),
        At(3 * PAGE, 0) := ZERO.(present := true)]
  }

  lemma OnePageEntries()
    ensures var w := OnePageTable();
            && (forall k: nat | k < 512 :: Ent(w, At(PAGE, k)).present <==> k == 0)
            && (forall k: nat | k < 512 :: Ent(w, At(2 * PAGE, k)).present <==> k == 1)
            && (forall k: nat | k < 512 :: Ent(w, At(3 * PAGE, k)).present <==> k == 0)
            && GetPaddr(Ent(w, At(PAGE, 0))) == 2 * PAGE && GetPaddr(Ent(w, At(2 * PAGE, 1))) == 3 * PAGE
            && !Ent(w, At(2 * PAGE, 1)).bit7
  {
    hide SetPaddr, GetPaddr, OnePageTable, OnePageAt, At, Ent, EntryOk;
    OnePageIs();
    forall k: nat | k < 512 ensures Ent(OnePageTable(), At(PAGE, k)).present <==> k == 0 { OnePageEntry(PAGE, k); PresentIn(PAGE, k); }
    forall k: nat | k < 512 ensures Ent(OnePageTable(), At(2 * PAGE, k)).present <==> k == 1 { OnePageEntry(2 * PAGE, k); PresentIn(2 * PAGE, k); }
    forall k: nat | k < 512 ensures Ent(OnePageTable(), At(3 * PAGE, k)).present <==> k == 0 { OnePageEntry(3 * PAGE, k); PresentIn(3 * PAGE, k); }
    OnePageEntry(PAGE, 0);
    OnePageEntry(2 * PAGE, 1);
  }

  lemma OnePageIs()
    ensures GetPaddr(OnePageAt(PAGE, 0)) == 2 * PAGE && GetPaddr(OnePageAt(2 * PAGE, 1)) == 3 * PAGE && !OnePageAt(2 * PAGE, 1).bit7
  {
    PaddrBack(ZERO, 2 * PAGE);
    PaddrBack(ZERO, 3 * PAGE);
  }

  lemma PresentIn(q: nat, k: nat)
    ensures q == PAGE ==> (OnePageAt(q, k).present <==> k == 0)
    ensures q == 2 * PAGE ==> (OnePageAt(q, k).present <==> k == 1)
    ensures q == 3 * PAGE ==> (OnePageAt(q, k).present <==> k == 0)
  {
    PaddrBack(ZERO, 2 * PAGE);
    PaddrBack(ZERO, 3 * PAGE);
    hide SetPaddr, GetPaddr;
  }

  /** Entry k of the page q of that table. */
  ghost function OnePageAt(q: nat, k: nat): Entry {
    if q == PAGE && k == 0 then SetPaddr(ZERO, 2 * PAGE).(present := true)
    else if q == 2 * PAGE && k == 1 then SetPaddr(ZERO, 3 * PAGE).(present := true)
    else if q == 3 * PAGE && k == 0 then ZERO.(present := true)
    else ZERO
  }

  lemma OnePageEntry(q: nat, k: nat)
    requires q % PAGE == 0 && k < 512
    ensures Ent(OnePageTable(), At(q, k)) == OnePageAt(q, k)
  {
    hide SetPaddr;
    var e1, e2, e3 := SetPaddr(ZERO, 2 * PAGE).(present := true), SetPaddr(ZERO, 3 * PAGE).(present := true), ZERO.(present := true);
    var w1 := map[At(PAGE, 0) := e1];
    var w2 := w1[At(2 * PAGE, 1) := e2];
    assert OnePageTable() == w2[At(3 * PAGE, 0) := e3];
    hide At, OnePageTable;
    OtherEntry(map[], PAGE, 0, e1, q, k);
    OtherEntry(w1, 2 * PAGE, 1, e2, q, k);
    OtherEntry(w2, 3 * PAGE, 0, e3, q, k);
  }

  lemma OnePageOk()
    ensures var w := OnePageTable(); WfTab(w, PAGE) && NoHuge(w, PAGE) && OnePage(w, PAGE)
  {
    var w := OnePageTable();
    hide Ent, GetPaddr, At, OnePageTable;
    OnePageEntries();
    assert forall i: nat | i < 512 :: Has3(w, PAGE, i) <==> i == 0;
    assert forall i: nat, j: nat | i < 512 && j < 512 :: Has2(w, PAGE, i, j) <==> i == 0 && j == 1;
    forall i: nat, j: nat | i < 512 && j < 512 && MidE(w, PAGE, i, j).present ensures !MidE(w, PAGE, i, j).bit7 { assert Has2(w, PAGE, i, j); }
    forall m: nat
      ensures TopHere(w, PAGE, m) <==> m % SPACE < 0x4_0000
      ensures RegionHere(w, PAGE, m) <==> 512 <= m % SPACE < 1024
      ensures FreePage(w, PAGE, m) <==> m % SPACE != 512
    {
      PlaceInSpace(m);
    }
  }

  lemma PlaceInSpace(m: nat)
    ensures m / 0x4_0000 % 512 == m % SPACE / 0x4_0000 && m / 512 % 512 == m % SPACE / 512 % 512 && m % 512 == m % SPACE % 512
  {
    var q, e := m / SPACE, m % SPACE;
    assert m == SPACE * q + e;
    assert m / 0x4_0000 == 512 * q + e / 0x4_0000;
    assert m / 512 == 0x4_0000 * q + e / 512;
  }

  /** The search is right on every table exactly for counts up to 512. */
  lemma RightIff(pgs: nat)
    ensures (forall w: Memory, tab: nat | WfTab(w, tab) && NoHuge(w, tab) :: Right(w, tab, pgs, Search(w, tab, pgs, 0))) <==> pgs <= 512
  {
    hide WfTab, NoHuge, Right, Search, OnePage, Passed;
    if pgs <= 512 {
      forall w: Memory, tab: nat | WfTab(w, tab) && NoHuge(w, tab) ensures Right(w, tab, pgs, Search(w, tab, pgs, 0)) {
        NothingPassed(w, tab, pgs);
        SearchRight(w, tab, pgs, 0);
      }
    } else {
      OnePageOk();
      MissesIt(OnePageTable(), PAGE, pgs);
    }
  }
}
