/** The data structures of the kernel heap (src/obj_heap.c): majors, runs of pages from the page
    allocator, and the address-ordered minors in each; and the alignment of the pointers that are
    handed out. */
module ObjHeap {

  const PAGE_SIZE: nat := 2097152
  const HEADER: nat := 36         // both packed structures take 36 bytes
  const ALIGNMENT: nat := 128
  const ALIGN_INFO: nat := 16
  const UINT_LIMIT: nat := 0x1_0000_0000

  datatype Minor = Minor(addr: nat, size: nat, req: nat)
  datatype Major = Major(addr: nat, pages: nat, size: nat, usage: nat, minors: seq<Minor>)

  /* ---------------- alignment ---------------- */

  /** `ALIGN`: the aligned pointer for the payload at `p`. */
  function Align(p: nat): nat {
    var q := p + ALIGN_INFO;
    var diff := q % ALIGNMENT;
    if diff != 0 then q + (ALIGNMENT - diff) else q
  }

  /** The tag that is stored 16 bytes below the aligned pointer. */
  function Tag(p: nat): nat { Align(p) - p }

  /** `UNALIGN`, given the tag. */
  function Unalign(ptr: nat, tag: nat): nat
    requires tag <= ptr
  {
    if tag < ALIGNMENT + ALIGN_INFO then ptr - tag else ptr
  }

  /** The pointer is aligned, the tag fits in its byte and leads back, and what is asked for fits
      behind the pointer in a block with room for the alignment. */
  lemma AlignFacts(p: nat, req: nat)
    ensures var ptr := Align(p);
            && ptr % ALIGNMENT == 0 && p + ALIGN_INFO <= ptr && ptr + req < p + req + ALIGNMENT + ALIGN_INFO
            && Tag(p) < 256 && Unalign(ptr, Tag(p)) == p
  {
  }

  /* ---------------- the invariant of a major ---------------- */

  function End(n: Minor): nat { n.addr + HEADER + n.size }

  function Sum(ms: seq<Minor>): nat {
    if ms == [] then 0 else Sum(ms[..|ms| - 1]) + HEADER + ms[|ms| - 1].size
  }

  ghost predicate MinorOk(n: Minor) { n.req + ALIGNMENT + ALIGN_INFO <= n.size }

  /** Minors lie in address order, one after the other, inside lo .. hi. */
  ghost predicate Ordered(ms: seq<Minor>, lo: nat, hi: nat) {
    && (forall k | 0 <= k < |ms| :: lo <= ms[k].addr && End(ms[k]) <= hi && MinorOk(ms[k]))
    && (forall j, k | 0 <= j < k < |ms| :: End(ms[j]) <= ms[k].addr)
  }

  ghost predicate MajorOk(m: Major) {
    && m.addr > 0 && m.size == m.pages * PAGE_SIZE && m.size < UINT_LIMIT
    && m.addr + HEADER <= m.addr + m.size
    && Ordered(m.minors, m.addr + HEADER, m.addr + m.size)
    && m.usage == HEADER + Sum(m.minors)
  }

  lemma {:induction false} SumSplit(ms: seq<Minor>, k: nat)
    requires k <= |ms|
    ensures Sum(ms) == Sum(ms[..k]) + Sum(ms[k..])
    decreases |ms| - k
  {
    if k == |ms| {
      assert ms[..k] == ms && ms[k..] == [];
    } else if k + 1 == |ms| {
      assert ms[k..] == [ms[k]] && ms[..|ms| - 1] == ms[..k];
      assert Sum([ms[k]]) == Sum([]) + HEADER + ms[k].size by { assert [ms[k]][..0] == []; }
    } else {
      var t := ms[..|ms| - 1];
      SumShorter(ms, k);
    }
  }

  lemma {:induction false} SumShorter(ms: seq<Minor>, k: nat)
    requires k < |ms|
    ensures Sum(ms) == Sum(ms[..k]) + Sum(ms[k..])
    decreases |ms|
  {
    var t := ms[..|ms| - 1];
    assert ms[k..][..|ms[k..]| - 1] == t[k..];
    assert t[..k] == ms[..k];
    if k < |t| {
      SumShorter(t, k);
    } else {
      assert t[k..] == [] && t[..k] == t;
    }
  }

  lemma SumSnoc(ms: seq<Minor>, n: Minor)
    ensures Sum(ms + [n]) == Sum(ms) + HEADER + n.size
  {
    assert (ms + [n])[..|ms|] == ms;
  }

  lemma SumOne(n: Minor)
    ensures Sum([n]) == HEADER + n.size
  {
    SumSnoc([], n);
    assert [] + [n] == [n];
  }

  /** Inserting a minor adds its size and header. */
  lemma SumInsert(ms: seq<Minor>, k: nat, n: Minor)
    requires k <= |ms|
    ensures Sum(ms[..k] + [n] + ms[k..]) == Sum(ms) + HEADER + n.size
  {
    hide Sum;
    var s := ms[..k] + [n] + ms[k..];
    SumSplit(s, k + 1);
    SumSplit(ms, k);
    SumSnoc(ms[..k], n);
    assert s[..k + 1] == ms[..k] + [n] && s[k + 1..] == ms[k..];
  }

  lemma SumRemove(ms: seq<Minor>, k: nat)
    requires k < |ms|
    ensures Sum(ms) == Sum(ms[..k] + ms[k + 1..]) + HEADER + ms[k].size
  {
    hide Sum;
    var s := ms[..k] + ms[k + 1..];
    SumInsert(s, k, ms[k]);
    assert s[..k] + [ms[k]] + s[k..] == ms;
  }

  lemma SumReplace(ms: seq<Minor>, k: nat, n: Minor)
    requires k < |ms| && n.size == ms[k].size
    ensures Sum(ms[k := n]) == Sum(ms)
  {
    hide Sum;
    SumRemove(ms, k);
    SumRemove(ms[k := n], k);
    assert ms[k := n][..k] + ms[k := n][k + 1..] == ms[..k] + ms[k + 1..];
  }

  /* ---------------- gaps ---------------- */

  /** The room behind minor k, up to the next one or the end of the major. */
  function GapAfter(m: Major, k: nat): int
    requires k < |m.minors|
  {
    (if k + 1 < |m.minors| then m.minors[k + 1].addr else m.addr + m.size) - End(m.minors[k])
  }

  function FrontGap(m: Major): int
    requires m.minors != []
  {
    m.minors[0].addr - m.addr - HEADER
  }

  /** Some gap of the major has room for n bytes. */
  ghost predicate HasRoom(m: Major, n: nat) {
    if m.minors == [] then m.size - HEADER >= n
    else FrontGap(m) >= n || exists k :: 0 <= k < |m.minors| && GapAfter(m, k) >= n
  }

  lemma {:induction false} FillsFrom(ms: seq<Minor>, lo: nat, hi: nat, k: nat)
    requires Ordered(ms, lo, hi) && k < |ms|
    ensures ms[k].addr >= lo + Sum(ms[..k])
    decreases k
  {
    if k > 0 {
      FillsFrom(ms, lo, hi, k - 1);
      assert ms[..k][..k - 1] == ms[..k - 1];
    }
  }

  lemma {:induction false} FillsTo(ms: seq<Minor>, lo: nat, hi: nat, k: nat)
    requires Ordered(ms, lo, hi) && 0 < k <= |ms|
    ensures (if k < |ms| then ms[k].addr + Sum(ms[k..]) <= hi else Sum(ms[k..]) == 0)
    decreases |ms| - k
  {
    if k < |ms| {
      if k + 1 < |ms| { FillsTo(ms, lo, hi, k + 1); }
      SumSplit(ms[k..], 1);
      assert ms[k..][..1] == [ms[k]] && ms[k..][1..] == ms[k + 1..];
      SumOne(ms[k]);
    } else {
      assert ms[k..] == [];
    }
  }

  /** No gap is larger than what the usage leaves: the first test of the search is sound. */
  lemma GapBound(m: Major, n: nat)
    requires MajorOk(m) && m.size - m.usage < n
    ensures !HasRoom(m, n)
  {
    if m.minors != [] {
      FrontBound(m);
      forall k | 0 <= k < |m.minors| ensures GapAfter(m, k) <= m.size - m.usage { MiddleBound(m, k); }
    }
  }

  lemma FrontBound(m: Major)
    requires MajorOk(m) && m.minors != []
    ensures FrontGap(m) <= m.size - m.usage
  {
    hide Sum, MinorOk;
    var ms := m.minors;
    FillsTo(ms, m.addr + HEADER, m.addr + m.size, 1);
    SumSplit(ms, 1);
    SumOne(ms[0]);
    assert ms[..1] == [ms[0]];
    assert End(ms[0]) <= m.addr + m.size;
  }

  lemma MiddleBound(m: Major, k: nat)
    requires MajorOk(m) && k < |m.minors|
    ensures GapAfter(m, k) <= m.size - m.usage
  {
    hide Sum, Ordered;
    var ms := m.minors;
    FillsFrom(ms, m.addr + HEADER, m.addr + m.size, k);
    FillsTo(ms, m.addr + HEADER, m.addr + m.size, k + 1);
    SumSplit(ms, k + 1);
    SumSnoc(ms[..k], ms[k]);
    assert ms[..k + 1] == ms[..k] + [ms[k]];
  }

  /* ---------------- changing a major ---------------- */

  lemma InsertOrdered(ms: seq<Minor>, lo: nat, hi: nat, k: nat, n: Minor)
    requires Ordered(ms, lo, hi) && k <= |ms| && MinorOk(n)
    requires n.addr >= (if k == 0 then lo else End(ms[k - 1])) && n.addr >= lo
    requires End(n) <= (if k < |ms| then ms[k].addr else hi) && End(n) <= hi
    ensures Ordered(ms[..k] + [n] + ms[k..], lo, hi)
  {
    var s := ms[..k] + [n] + ms[k..];
    assert |s| == |ms| + 1 && forall i | 0 <= i < |s| :: s[i] == Inserted(ms, k, n, i);
    hide MinorOk, End, Inserted;
    forall i | 0 <= i < |s| ensures lo <= s[i].addr && End(s[i]) <= hi && MinorOk(s[i]) { InsertedOne(ms, lo, hi, k, n, i); }
    forall i, j | 0 <= i < j < |s| ensures End(s[i]) <= s[j].addr { InsertedPair(ms, lo, hi, k, n, i, j); }
  }

  lemma InsertedOne(ms: seq<Minor>, lo: nat, hi: nat, k: nat, n: Minor, i: nat)
    requires Ordered(ms, lo, hi) && k <= |ms| && MinorOk(n) && lo <= n.addr && End(n) <= hi && i <= |ms|
    ensures var x := Inserted(ms, k, n, i); lo <= x.addr && End(x) <= hi && MinorOk(x)
  {
    hide MinorOk, End;
  }

  function Inserted(ms: seq<Minor>, k: nat, n: Minor, i: nat): Minor
    requires k <= |ms| && i <= |ms|
  {
    if i < k then ms[i] else if i == k then n else ms[i - 1]
  }

  lemma InsertedPair(ms: seq<Minor>, lo: nat, hi: nat, k: nat, n: Minor, i: nat, j: nat)
    requires Ordered(ms, lo, hi) && k <= |ms| && i < j <= |ms|
    requires n.addr >= (if k == 0 then lo else End(ms[k - 1])) && End(n) <= (if k < |ms| then ms[k].addr else hi)
    ensures End(Inserted(ms, k, n, i)) <= Inserted(ms, k, n, j).addr
  {
    hide MinorOk;
    if i < k && j >= k && i < k - 1 { assert End(ms[i]) <= ms[k - 1].addr; }
    if j > k && j - 1 > k && i <= k { assert End(ms[k]) <= ms[j - 1].addr; }
  }

  lemma RemoveOrdered(ms: seq<Minor>, lo: nat, hi: nat, k: nat)
    requires Ordered(ms, lo, hi) && k < |ms|
    ensures Ordered(ms[..k] + ms[k + 1..], lo, hi)
  {
    var s := ms[..k] + ms[k + 1..];
    assert forall i | 0 <= i < |s| :: s[i] == ms[if i < k then i else i + 1];
  }

  lemma MajorSpan(m: Major, k: nat)
    requires MajorOk(m) && k <= |m.minors|
    ensures k > 0 ==> m.addr + HEADER <= m.minors[k - 1].addr
    ensures k < |m.minors| ==> m.minors[k].addr <= m.addr + m.size
  {
    hide Sum;
    if k < |m.minors| { assert End(m.minors[k]) <= m.addr + m.size; }
  }

  /** A minor has been squeezed in at position k. */
  lemma Squeezed(m: Major, k: nat, n: Minor)
    requires MajorOk(m) && k <= |m.minors| && MinorOk(n)
    requires n.addr == (if k == 0 then m.addr + HEADER else End(m.minors[k - 1]))
    requires End(n) <= (if k < |m.minors| then m.minors[k].addr else m.addr + m.size)
    ensures var m' := m.(minors := m.minors[..k] + [n] + m.minors[k..], usage := m.usage + n.size + HEADER);
            MajorOk(m')
  {
    hide Ordered, Sum, MinorOk;
    MajorSpan(m, k);
    InsertOrdered(m.minors, m.addr + HEADER, m.addr + m.size, k, n);
    SumInsert(m.minors, k, n);
  }

  lemma TakenOut(m: Major, k: nat)
    requires MajorOk(m) && k < |m.minors|
    ensures m.usage >= m.minors[k].size + HEADER
    ensures var m' := m.(minors := m.minors[..k] + m.minors[k + 1..], usage := m.usage - (m.minors[k].size + HEADER));
            MajorOk(m')
  {
    hide Ordered, Sum;
    RemoveOrdered(m.minors, m.addr + HEADER, m.addr + m.size, k);
    SumRemove(m.minors, k);
  }
}
