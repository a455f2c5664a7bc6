/** The list of majors of the kernel heap (src/obj_heap.c): what every operation keeps, and what
    putting a minor in or taking one out does to the whole list. */
module ObjMajors {
  import opened ObjHeap

  predicate Separate(a: Major, b: Major) {
    a.addr + a.size <= b.addr || b.addr + b.size <= a.addr
  }

  ghost predicate MajorsOk(ms: seq<Major>) {
    && (forall i | 0 <= i < |ms| :: MajorOk(ms[i]))
    && (forall i, j | 0 <= i < j < |ms| :: Separate(ms[i], ms[j]))
  }

  ghost predicate NoneEmpty(ms: seq<Major>) {
    forall i | 0 <= i < |ms| :: ms[i].minors != []
  }

  ghost predicate Listed(ms: seq<Major>, a: nat) {
    exists i :: 0 <= i < |ms| && ms[i].addr == a
  }

  /* ---------------- totals ---------------- */

  function Payload(ms: seq<Minor>): nat {
    if ms == [] then 0 else Payload(ms[..|ms| - 1]) + ms[|ms| - 1].size
  }

  function TotalInUse(ms: seq<Major>): nat {
    if ms == [] then 0 else TotalInUse(ms[..|ms| - 1]) + Payload(ms[|ms| - 1].minors)
  }

  function TotalSize(ms: seq<Major>): nat {
    if ms == [] then 0 else TotalSize(ms[..|ms| - 1]) + ms[|ms| - 1].size
  }

  lemma {:induction false} PayloadIsSum(ms: seq<Minor>)
    ensures Sum(ms) == Payload(ms) + HEADER * |ms|
  {
    if ms != [] { PayloadIsSum(ms[..|ms| - 1]); }
  }

  lemma {:induction false} TotalsReplace(ms: seq<Major>, i: nat, m: Major)
    requires i < |ms|
    ensures TotalInUse(ms[i := m]) + Payload(ms[i].minors) == TotalInUse(ms) + Payload(m.minors)
    ensures TotalSize(ms[i := m]) + ms[i].size == TotalSize(ms) + m.size
  {
    var t := ms[i := m];
    var n := |ms| - 1;
    if i == n {
      assert t[..n] == ms[..n];
    } else {
      TotalsReplace(ms[..n], i, m);
      assert t[..n] == ms[..n][i := m];
    }
  }

  lemma {:induction false} TotalsRemove(ms: seq<Major>, i: nat)
    requires i < |ms|
    ensures TotalInUse(ms[..i] + ms[i + 1..]) + Payload(ms[i].minors) == TotalInUse(ms)
    ensures TotalSize(ms[..i] + ms[i + 1..]) + ms[i].size == TotalSize(ms)
  {
    var t := ms[..i] + ms[i + 1..];
    var n := |ms| - 1;
    if i == n {
      assert t == ms[..n];
    } else {
      TotalsRemove(ms[..n], i);
      assert t[..n - 1] == ms[..n][..i] + ms[..n][i + 1..];
      assert t[n - 1] == ms[n];
    }
  }

  /* ---------------- putting in and taking out ---------------- */

  function Squeeze(m: Major, k: nat, n: Minor): Major
    requires k <= |m.minors|
  {
    m.(minors := m.minors[..k] + [n] + m.minors[k..], usage := m.usage + n.size + HEADER)
  }

  function Placed(ms: seq<Major>, i: nat, k: nat, n: Minor): (r: seq<Major>)
    requires i < |ms| && k <= |ms[i].minors|
  {
    ms[i := Squeeze(ms[i], k, n)]
  }

  /** The minor n fits at position k of the major. */
  ghost predicate Fits(m: Major, k: nat, n: Minor) {
    && k <= |m.minors| && MinorOk(n)
    && n.addr == (if k == 0 then m.addr + HEADER else End(m.minors[k - 1]))
    && End(n) <= (if k < |m.minors| then m.minors[k].addr else m.addr + m.size)
  }

  function TakeOut(m: Major, k: nat): Major
    requires k < |m.minors| && m.usage >= m.minors[k].size + HEADER
  {
    m.(minors := m.minors[..k] + m.minors[k + 1..], usage := m.usage - (m.minors[k].size + HEADER))
  }

  /** A minor is gone, and its major too when that was the only one. */
  ghost function Dropped(ms: seq<Major>, i: nat, k: nat): seq<Major>
    requires i < |ms| && k < |ms[i].minors| && ms[i].usage >= ms[i].minors[k].size + HEADER
  {
    if |ms[i].minors| == 1 then ms[..i] + ms[i + 1..] else ms[i := TakeOut(ms[i], k)]
  }

  lemma PlacedOk(ms: seq<Major>, i: nat, k: nat, n: Minor)
    requires MajorsOk(ms) && i < |ms| && Fits(ms[i], k, n)
    ensures MajorsOk(Placed(ms, i, k, n))
    ensures TotalInUse(Placed(ms, i, k, n)) == TotalInUse(ms) + n.size
    ensures TotalSize(Placed(ms, i, k, n)) == TotalSize(ms)
  {
    hide Ordered, Sum, MinorOk, MajorOk, TotalInUse, TotalSize, Payload, End;
    var m := ms[i];
    var m' := Squeeze(m, k, n);
    Squeezed(m, k, n);
    TotalsReplace(ms, i, m');
    SqueezePayload(m, k, n);
  }

  lemma SqueezePayload(m: Major, k: nat, n: Minor)
    requires k <= |m.minors|
    ensures Payload(Squeeze(m, k, n).minors) == Payload(m.minors) + n.size
  {
    hide Sum, Payload;
    SumInsert(m.minors, k, n);
    PayloadIsSum(m.minors);
    PayloadIsSum(Squeeze(m, k, n).minors);
  }

  lemma TakeOutPayload(m: Major, k: nat)
    requires k < |m.minors| && m.usage >= m.minors[k].size + HEADER
    ensures Payload(TakeOut(m, k).minors) + m.minors[k].size == Payload(m.minors)
  {
    hide Sum, Payload;
    SumRemove(m.minors, k);
    PayloadIsSum(m.minors);
    PayloadIsSum(TakeOut(m, k).minors);
  }

  lemma RemovedOk(ms: seq<Major>, i: nat)
    requires MajorsOk(ms) && i < |ms|
    ensures MajorsOk(ms[..i] + ms[i + 1..])
  {
    hide MajorOk, Separate;
    var r := ms[..i] + ms[i + 1..];
    assert forall j | 0 <= j < |r| :: r[j] == ms[if j < i then j else j + 1];
  }

  lemma DroppedOk(ms: seq<Major>, i: nat, k: nat)
    requires MajorsOk(ms) && i < |ms| && k < |ms[i].minors|
    ensures ms[i].usage >= ms[i].minors[k].size + HEADER
    ensures MajorsOk(Dropped(ms, i, k))
    ensures TotalInUse(Dropped(ms, i, k)) + ms[i].minors[k].size == TotalInUse(ms)
    ensures TotalSize(Dropped(ms, i, k)) + (if |ms[i].minors| == 1 then ms[i].size else 0) == TotalSize(ms)
  {
    hide MajorOk, Separate, TotalInUse, TotalSize, Payload;
    var m := ms[i];
    TakenOut(m, k);
    TakeOutPayload(m, k);
    if |m.minors| == 1 {
      TotalsRemove(ms, i);
      RemovedOk(ms, i);
      assert TakeOut(m, k).minors == [];
      assert Payload([]) == 0 by { PayloadIsSum([]); }
    } else {
      TotalsReplace(ms, i, TakeOut(m, k));
      TakenOutOk(ms, i, k);
    }
  }

  lemma TakenOutOk(ms: seq<Major>, i: nat, k: nat)
    requires MajorsOk(ms) && i < |ms| && k < |ms[i].minors| && ms[i].usage >= ms[i].minors[k].size + HEADER
    requires MajorOk(TakeOut(ms[i], k))
    ensures MajorsOk(ms[i := TakeOut(ms[i], k)])
  {
    hide MajorOk;
  }

  /* ---------------- the minors of all majors ---------------- */

  ghost function Minors(ms: seq<Major>): set<Minor> {
    set i, k | 0 <= i < |ms| && 0 <= k < |ms[i].minors| :: ms[i].minors[k]
  }

  /** Every two minors of the heap lie apart. */
  lemma MinorsApart(ms: seq<Major>, i: nat, k: nat, j: nat, l: nat)
    requires MajorsOk(ms) && i < |ms| && k < |ms[i].minors| && j < |ms| && l < |ms[j].minors|
    requires i != j || k != l
    ensures var x, y := ms[i].minors[k], ms[j].minors[l]; End(x) <= y.addr || End(y) <= x.addr
  {
    hide Sum, MinorOk;
    var x, y := ms[i].minors[k], ms[j].minors[l];
    assert MajorOk(ms[i]) && MajorOk(ms[j]);
    assert ms[i].addr + HEADER <= x.addr && End(x) <= ms[i].addr + ms[i].size;
    assert ms[j].addr + HEADER <= y.addr && End(y) <= ms[j].addr + ms[j].size;
    if i < j {
      assert Separate(ms[i], ms[j]);
    } else if j < i {
      assert Separate(ms[j], ms[i]);
    }
  }

  lemma DifferentApart(ms: seq<Major>, x: Minor, y: Minor)
    requires MajorsOk(ms) && x in Minors(ms) && y in Minors(ms) && x != y
    ensures End(x) <= y.addr || End(y) <= x.addr
  {
    hide MajorsOk, End;
    var i, k :| 0 <= i < |ms| && 0 <= k < |ms[i].minors| && ms[i].minors[k] == x;
    var j, l :| 0 <= j < |ms| && 0 <= l < |ms[j].minors| && ms[j].minors[l] == y;
    MinorsApart(ms, i, k, j, l);
  }

  lemma PlacedMinors(ms: seq<Major>, i: nat, k: nat, n: Minor)
    requires i < |ms| && k <= |ms[i].minors|
    ensures Minors(Placed(ms, i, k, n)) == Minors(ms) + {n}
  {
    var r := Placed(ms, i, k, n);
    forall x | x in Minors(ms) ensures x in Minors(r) {
      var j, l :| 0 <= j < |ms| && 0 <= l < |ms[j].minors| && ms[j].minors[l] == x;
      if j == i { assert r[i].minors[if l < k then l else l + 1] == x; } else { assert r[j].minors[l] == x; }
    }
    assert r[i].minors[k] == n;
    forall x | x in Minors(r) ensures x in Minors(ms) + {n} {
      var j, l :| 0 <= j < |r| && 0 <= l < |r[j].minors| && r[j].minors[l] == x;
      if j != i { assert ms[j].minors[l] == x; }
      else if l != k { assert ms[i].minors[if l < k then l else l - 1] == x; }
    }
  }

  lemma DroppedMinors(ms: seq<Major>, i: nat, k: nat)
    requires MajorsOk(ms) && i < |ms| && k < |ms[i].minors| && ms[i].usage >= ms[i].minors[k].size + HEADER
    ensures Minors(Dropped(ms, i, k)) == Minors(ms) - {ms[i].minors[k]}
  {
    hide MajorsOk, Dropped;
    var n := ms[i].minors[k];
    var r := Dropped(ms, i, k);
    forall x | x in Minors(ms) && x != n ensures x in Minors(r) {
      var j, l :| 0 <= j < |ms| && 0 <= l < |ms[j].minors| && ms[j].minors[l] == x;
      StaysIn(ms, i, k, j, l);
    }
    forall x | x in Minors(r) ensures x in Minors(ms) && x != n {
      var j, l :| 0 <= j < |r| && 0 <= l < |r[j].minors| && r[j].minors[l] == x;
      CameFrom(ms, i, k, j, l);
    }
  }

  lemma StaysIn(ms: seq<Major>, i: nat, k: nat, j: nat, l: nat)
    requires i < |ms| && k < |ms[i].minors| && ms[i].usage >= ms[i].minors[k].size + HEADER
    requires j < |ms| && l < |ms[j].minors| && (j != i || l != k)
    ensures ms[j].minors[l] in Minors(Dropped(ms, i, k))
  {
    var r, gone := Dropped(ms, i, k), |ms[i].minors| == 1;
    var j' := if gone && j > i then j - 1 else j;
    var l' := if j == i && l > k then l - 1 else l;
    assert r[j'].minors[l'] == ms[j].minors[l];
  }

  lemma CameFrom(ms: seq<Major>, i: nat, k: nat, j: nat, l: nat)
    requires MajorsOk(ms) && i < |ms| && k < |ms[i].minors| && ms[i].usage >= ms[i].minors[k].size + HEADER
    requires var r := Dropped(ms, i, k); j < |r| && l < |r[j].minors|
    ensures var x := Dropped(ms, i, k)[j].minors[l]; x in Minors(ms) && x != ms[i].minors[k]
  {
    hide MajorsOk;
    var r, gone := Dropped(ms, i, k), |ms[i].minors| == 1;
    var j' := if gone && j >= i then j + 1 else j;
    var l' := if !gone && j == i && l >= k then l + 1 else l;
    assert ms[j'].minors[l'] == r[j].minors[l];
    hide Minors, Dropped;
    MinorsApart(ms, j', l', i, k);
    InMinors(ms, j', l');
  }

  lemma InMinors(ms: seq<Major>, j: nat, l: nat)
    requires j < |ms| && l < |ms[j].minors|
    ensures ms[j].minors[l] in Minors(ms)
  {
  }

  lemma GrownMinors(ms: seq<Major>, m: Major)
    requires m.minors == []
    ensures Minors(ms + [m]) == Minors(ms)
  {
    var r := ms + [m];
    forall x | x in Minors(r) ensures x in Minors(ms) {
      var j, l :| 0 <= j < |r| && 0 <= l < |r[j].minors| && r[j].minors[l] == x;
      assert ms[j].minors[l] == x;
    }
    forall x | x in Minors(ms) ensures x in Minors(r) {
      var j, l :| 0 <= j < |ms| && 0 <= l < |ms[j].minors| && ms[j].minors[l] == x;
      assert r[j].minors[l] == x;
    }
  }

  /** Placing a minor and dropping it again changes nothing. */
  lemma DropPlaced(ms: seq<Major>, i: nat, k: nat, n: Minor)
    requires i < |ms| && k <= |ms[i].minors|
    ensures ms[i].minors != [] ==> Dropped(Placed(ms, i, k, n), i, k) == ms
    ensures ms[i].minors == [] ==> Dropped(Placed(ms, i, k, n), i, k) == ms[..i] + ms[i + 1..]
  {
    var r := Placed(ms, i, k, n);
    if ms[i].minors != [] {
      assert TakeOut(r[i], k).minors == ms[i].minors;
    }
  }

  /* ---------------- pointers and tags ---------------- */

  function Byte(bytes: map<nat, nat>, a: nat): nat { if a in bytes then bytes[a] else 0 }

  /** The pointer that was handed out for a minor. */
  function Pointer(n: Minor): nat { Align(n.addr + HEADER) }

  ghost predicate Tagged(n: Minor, bytes: map<nat, nat>) {
    Byte(bytes, Pointer(n) - ALIGN_INFO) == Tag(n.addr + HEADER)
  }

  ghost predicate TagsOk(ms: seq<Major>, bytes: map<nat, nat>) {
    forall n | n in Minors(ms) :: Tagged(n, bytes)
  }

  /** The bytes a caller may use: they and the tag lie inside the minor. */
  ghost predicate InPayload(n: Minor, a: nat) { Pointer(n) <= a < Pointer(n) + n.req }

  ghost predicate Inside(n: Minor, a: nat) { n.addr + HEADER <= a < End(n) }

  lemma PointerInside(n: Minor)
    requires MinorOk(n)
    ensures Pointer(n) % ALIGNMENT == 0 && Inside(n, Pointer(n) - ALIGN_INFO)
    ensures forall a | InPayload(n, a) :: Inside(n, a) && a != Pointer(n) - ALIGN_INFO
  {
    AlignFacts(n.addr + HEADER, n.req);
  }

  ghost predicate AgreeOutside(b: map<nat, nat>, b': map<nat, nat>, n: Minor) {
    forall a: nat | !Inside(n, a) :: Byte(b', a) == Byte(b, a)
  }

  lemma MinorIsOk(ms: seq<Major>, n: Minor)
    requires MajorsOk(ms) && n in Minors(ms)
    ensures MinorOk(n) && n.addr > 0
  {
    var i, k :| 0 <= i < |ms| && 0 <= k < |ms[i].minors| && ms[i].minors[k] == n;
    assert MajorOk(ms[i]);
  }

  /** Writes inside one minor leave the tags of all others. */
  lemma OtherTagsKept(ms: seq<Major>, b: map<nat, nat>, b': map<nat, nat>, n: Minor, x: Minor)
    requires MajorsOk(ms) && n in Minors(ms) && x in Minors(ms) && x != n
    requires Tagged(x, b) && AgreeOutside(b, b', n)
    ensures Tagged(x, b')
  {
    hide MajorsOk, Minors, Align, Tag;
    MinorIsOk(ms, x);
    PointerInside(x);
    DifferentApart(ms, x, n);
  }

  /** No byte of a live pointer's payload lies in another minor, from its header to its end, and live
      pointers differ. */
  lemma PayloadsApart(ms: seq<Major>, x: Minor, y: Minor, a: nat)
    requires MajorsOk(ms) && x in Minors(ms) && y in Minors(ms) && x != y && InPayload(x, a)
    ensures !(y.addr <= a < End(y)) && Pointer(x) != Pointer(y)
  {
    hide MajorsOk, Minors, Align;
    MinorIsOk(ms, x);
    MinorIsOk(ms, y);
    PointerInside(x);
    PointerInside(y);
    DifferentApart(ms, x, y);
  }

  /** Nor in its own header, nor in the header of any major. */
  lemma PayloadOffHeaders(ms: seq<Major>, x: Minor, a: nat, i: nat)
    requires MajorsOk(ms) && x in Minors(ms) && InPayload(x, a) && i < |ms|
    ensures a >= x.addr + HEADER && !(ms[i].addr <= a < ms[i].addr + HEADER)
  {
    hide MajorsOk, InPayload, Pointer, MinorOk;
    MinorIsOk(ms, x);
    PointerInside(x);
    var j, k :| 0 <= j < |ms| && 0 <= k < |ms[j].minors| && ms[j].minors[k] == x;
    MinorInMajor(ms, j, k);
    if i != j { MajorsApart(ms, i, j); }
  }

  lemma MinorInMajor(ms: seq<Major>, j: nat, k: nat)
    requires MajorsOk(ms) && j < |ms| && k < |ms[j].minors|
    ensures ms[j].addr + HEADER <= ms[j].minors[k].addr && End(ms[j].minors[k]) <= ms[j].addr + ms[j].size
  {
    hide Sum, MinorOk, Separate;
    assert MajorOk(ms[j]);
  }

  lemma MajorsApart(ms: seq<Major>, i: nat, j: nat)
    requires MajorsOk(ms) && i < |ms| && j < |ms| && i != j
    ensures Separate(ms[i], ms[j]) && ms[i].size >= HEADER && ms[j].size >= HEADER
  {
    hide Ordered, Sum;
    assert MajorOk(ms[i]) && MajorOk(ms[j]);
    assert i > j ==> Separate(ms[j], ms[i]);
  }

  lemma SamePointer(ms: seq<Major>, x: Minor, y: Minor)
    requires MajorsOk(ms) && x in Minors(ms) && y in Minors(ms) && Pointer(x) == Pointer(y)
    ensures x == y
  {
    hide MajorsOk, Minors, Align;
    MinorIsOk(ms, x);
    MinorIsOk(ms, y);
    PointerInside(x);
    PointerInside(y);
    if x != y { DifferentApart(ms, x, y); }
  }
}
