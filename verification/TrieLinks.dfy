/** How a trie lies in memory, and what the link writes of `insert_large_chunk` and
    `unlink_large_chunk` (hagen/src/malloc.c) do to it. */
module TrieLinks {
  import opened Lists
  import opened Words
  import opened Chunks
  import opened Trie

  /** A chunk that is in a ring but not in the tree itself. */
  ghost predicate Chained(m: Mem, a: nat) {
    Parent(m, a) == 0 && Child0(m, a) == 0 && Child1(m, a) == 0
  }

  ghost predicate RingRep(m: Mem, ring: seq<nat>, size: nat, idx: nat) {
    && RingOk(m, ring)
    && (forall a | a in ring :: a != 0 && SizeOf(m, a) == size && Index(m, a) == idx)
    && (forall i | 1 <= i < |ring| :: Chained(m, ring[i]))
  }

  /** `t` lies in memory below the parent `par`, in bin `idx`. */
  ghost predicate Rep(m: Mem, t: Tree, par: nat, idx: nat) {
    match t
    case Nil => true
    case Node(ring, size, l, r) =>
      && RingRep(m, ring, size, idx)
      && par != 0 && Parent(m, ring[0]) == par
      && Child0(m, ring[0]) == Root(l) && Child1(m, ring[0]) == Root(r)
      && Rep(m, l, ring[0], idx) && Rep(m, r, ring[0], idx)
  }

  lemma RootIsNull(m: Mem, t: Tree, par: nat, idx: nat)
    requires Rep(m, t, par, idx)
    ensures Root(t) == 0 <==> t.Nil?
    ensures t.Node? ==> Root(t) == t.ring[0] && Root(t) in Addrs(t)
  {
    if t.Node? { assert t.ring[0] in t.ring; }
  }

  /** All that Rep reads of a chunk. */
  ghost predicate SameNode(m: Mem, m': Mem, y: nat) {
    && SizeOf(m', y) == SizeOf(m, y) && Index(m', y) == Index(m, y)
    && Fd(m', y) == Fd(m, y) && Bk(m', y) == Bk(m, y)
    && Parent(m', y) == Parent(m, y)
    && Child0(m', y) == Child0(m, y) && Child1(m', y) == Child1(m, y)
  }

  lemma RingRepFrame(m: Mem, m': Mem, ring: seq<nat>, size: nat, idx: nat)
    requires RingRep(m, ring, size, idx)
    requires forall y | y in ring :: SameNode(m, m', y)
    ensures RingRep(m', ring, size, idx)
  {
    RingFrame(m, m', ring);
    forall i | 1 <= i < |ring| ensures Chained(m', ring[i]) { assert Chained(m, ring[i]) && SameNode(m, m', ring[i]); }
  }

  lemma {:induction false} RepFrame(m: Mem, m': Mem, t: Tree, par: nat, idx: nat)
    requires Rep(m, t, par, idx)
    requires forall y | y in Addrs(t) :: SameNode(m, m', y)
    ensures Rep(m', t, par, idx)
    decreases t
  {
    if t.Node? {
      forall y | y in t.ring ensures SameNode(m, m', y) { assert y in Addrs(t); }
      RingRepFrame(m, m', t.ring, t.size, idx);
      RepFrame(m, m', t.left, t.ring[0], idx);
      RepFrame(m, m', t.right, t.ring[0], idx);
      assert SameNode(m, m', t.ring[0]);
    }
  }

  /* ---------------- insertion ---------------- */

  /** Where a chunk of size `s` goes: an empty child slot, or the ring of its size. */
  datatype Slot = Empty(at: nat, right: bool) | Same(at: nat)

  function FindSlot(t: Tree, s: nat, lo: nat, k: nat): Slot
    requires t.Node? && |t.ring| > 0 && InRange(s, lo, k) && TrieOk(t, lo, k)
    decreases t
  {
    if t.size == s then Same(t.ring[0])
    else
      StepDown(t, s, lo, k);
      var right := GoRight(s, lo, k);
      var c := Child(t, right);
      if c.Node? && |c.ring| > 0 then FindSlot(c, s, LoBelow(s, lo, k), k - 1) else Empty(t.ring[0], right)
  }

  /** The link writes of an insertion at `slot`, seen by the chunks in `ys`. */
  ghost predicate Inserted(m: Mem, m': Mem, ys: set<nat>, x: nat, s: nat, idx: nat, slot: Slot) {
    && x != 0 && SizeOf(m', x) == s && Index(m', x) == idx && Child0(m', x) == 0 && Child1(m', x) == 0
    && (forall y | y in ys :: SizeOf(m', y) == SizeOf(m, y) && Index(m', y) == Index(m, y)
                              && Parent(m', y) == Parent(m, y))
    && match slot
       case Same(at) =>
         && Parent(m', x) == 0 && LinkedIn(m, m', ys, at, Fd(m, at), x)
         && forall y | y in ys :: Child0(m', y) == Child0(m, y) && Child1(m', y) == Child1(m, y)
       case Empty(at, right) =>
         && Parent(m', x) == at && Fd(m', x) == x && Bk(m', x) == x
         && forall y | y in ys ::
              && Fd(m', y) == Fd(m, y) && Bk(m', y) == Bk(m, y)
              && Child0(m', y) == (if y == at && !right then x else Child0(m, y))
              && Child1(m', y) == (if y == at && right then x else Child1(m, y))
  }

  lemma InsertedElsewhere(m: Mem, m': Mem, ys: set<nat>, x: nat, s: nat, idx: nat, slot: Slot, t: Tree, par: nat)
    requires Inserted(m, m', ys, x, s, idx, slot) && Rep(m, t, par, idx) && Addrs(t) <= ys
    requires slot.at !in Addrs(t) && (slot.Same? ==> Fd(m, slot.at) !in Addrs(t))
    ensures Rep(m', t, par, idx)
  {
    RepFrame(m, m', t, par, idx);
  }

  lemma {:induction false} SlotInTree(m: Mem, t: Tree, par: nat, idx: nat, s: nat, lo: nat, k: nat)
    requires t.Node? && Rep(m, t, par, idx) && InRange(s, lo, k) && TrieOk(t, lo, k)
    ensures var slot := FindSlot(t, s, lo, k);
            slot.at in Addrs(t) && (slot.Same? ==> Fd(m, slot.at) in Addrs(t))
            && (slot.Empty? ==> (if slot.right then Child1(m, slot.at) else Child0(m, slot.at)) == 0)
    decreases t
  {
    hide FindSlot, TrieOk, InRange, GoRight, LoBelow, Rep, Addrs;
    if t.size == s {
      SlotHere(m, t, par, idx, s, lo, k);
    } else {
      StepDown(t, s, lo, k);
      var right := GoRight(s, lo, k);
      var c := Child(t, right);
      ChildRep(m, t, par, idx, right);
      ChildRoot(m, t, par, idx, right);
      SlotBelow(t, s, lo, k);
      if c.Node? { SlotInTree(m, c, t.ring[0], idx, s, LoBelow(s, lo, k), k - 1); } else { RootIsNull(m, c, t.ring[0], idx); }
    }
  }

  lemma SlotHere(m: Mem, t: Tree, par: nat, idx: nat, s: nat, lo: nat, k: nat)
    requires t.Node? && Rep(m, t, par, idx) && InRange(s, lo, k) && TrieOk(t, lo, k) && t.size == s
    ensures |t.ring| > 0 && FindSlot(t, s, lo, k) == Same(t.ring[0]) && t.ring[0] in Addrs(t) && Fd(m, t.ring[0]) in Addrs(t)
  {
    hide TrieOk, InRange;
    assert LinkedAt(m, t.ring, 0);
    assert t.ring[0] in t.ring && NextIn(t.ring, 0) in t.ring;
  }

  lemma SlotBelow(t: Tree, s: nat, lo: nat, k: nat)
    requires t.Node? && |t.ring| > 0 && InRange(s, lo, k) && TrieOk(t, lo, k) && t.size != s
    ensures (StepDown(t, s, lo, k);
             var c := Child(t, GoRight(s, lo, k));
             FindSlot(t, s, lo, k)
             == if c.Node? && |c.ring| > 0 then FindSlot(c, s, LoBelow(s, lo, k), k - 1) else Empty(t.ring[0], GoRight(s, lo, k)))
  {
    hide TrieOk, InRange, GoRight, LoBelow;
  }

  lemma ChildRoot(m: Mem, t: Tree, par: nat, idx: nat, right: bool)
    requires t.Node? && Rep(m, t, par, idx)
    ensures |t.ring| > 0 && t.ring[0] in Addrs(t)
    ensures (if right then Child1(m, t.ring[0]) else Child0(m, t.ring[0])) == Root(Child(t, right))
  {
    assert t.ring[0] in t.ring;
  }

  lemma InsertSameRep(m: Mem, m': Mem, t: Tree, par: nat, idx: nat, x: nat)
    requires t.Node? && Rep(m, t, par, idx) && Distinct(t) && x !in Addrs(t)
    requires Inserted(m, m', Addrs(t), x, t.size, idx, Same(t.ring[0]))
    ensures Rep(m', t.(ring := RingPlus(t.ring, x)), par, idx)
  {
    var r' := RingPlus(t.ring, x);
    RingInsert(m, m', t.ring, x);
    RingPlusKeeps(t.ring, x);
    forall a | a in r' ensures a != 0 && SizeOf(m', a) == t.size && Index(m', a) == idx {
      if a != x { assert a in Elems(r'); assert a in t.ring; assert a in Addrs(t); }
    }
    forall i | 1 <= i < |r'| ensures Chained(m', r'[i]) {
      if i > 1 { assert r'[i] == t.ring[i - 1]; assert Chained(m, t.ring[i - 1]); assert r'[i] in Addrs(t); }
    }
    assert t.ring[0] in Addrs(t);
    assert Fd(m, t.ring[0]) in t.ring by { assert LinkedAt(m, t.ring, 0); }
    InsertedElsewhere(m, m', Addrs(t), x, t.size, idx, Same(t.ring[0]), t.left, t.ring[0]);
    InsertedElsewhere(m, m', Addrs(t), x, t.size, idx, Same(t.ring[0]), t.right, t.ring[0]);
  }

  lemma InsertedBelow(m: Mem, m': Mem, t: Tree, par: nat, idx: nat, x: nat, s: nat, slot: Slot, right: bool, c': Tree)
    requires t.Node? && Rep(m, t, par, idx) && Distinct(t)
    requires Inserted(m, m', Addrs(t), x, s, idx, slot)
    requires var c := Child(t, right);
             if c.Nil? then slot == Empty(t.ring[0], right) && c' == Node([x], s, Nil, Nil)
             else slot.at in Addrs(c) && (slot.Same? ==> Fd(m, slot.at) in Addrs(c)) && Root(c') == Root(c)
                  && Rep(m', c', t.ring[0], idx)
    ensures Rep(m', WithChild(t, right, c'), par, idx)
  {
    InsertRingKept(m, m', t, par, idx, x, s, slot);
    InsertedElsewhere(m, m', Addrs(t), x, s, idx, slot, Child(t, !right), t.ring[0]);
    assert t.ring[0] in t.ring && t.ring[0] in Addrs(t);
    InsertedParent(m, m', Addrs(t), x, s, idx, slot, t.ring[0]);
    if Child(t, right).Nil? { InsertedLeaf(m, m', Addrs(t), x, s, idx, slot); }
    hide Inserted, RingRep;
  }

  /** The links downward and upward of a node that was there. */
  lemma InsertedParent(m: Mem, m': Mem, ys: set<nat>, x: nat, s: nat, idx: nat, slot: Slot, y: nat)
    requires Inserted(m, m', ys, x, s, idx, slot) && y in ys
    ensures Parent(m', y) == Parent(m, y)
    ensures Child0(m', y) == (if slot == Empty(y, false) then x else Child0(m, y))
    ensures Child1(m', y) == (if slot == Empty(y, true) then x else Child1(m, y))
  {
    hide SizeOf, Rd;
  }

  lemma InsertedLeaf(m: Mem, m': Mem, ys: set<nat>, x: nat, s: nat, idx: nat, slot: Slot)
    requires Inserted(m, m', ys, x, s, idx, slot) && slot.Empty?
    ensures slot.at != 0 ==> Rep(m', Node([x], s, Nil, Nil), slot.at, idx)
  {
    hide SizeOf, Rd;
    RingSingle(m', x);
  }

  lemma ChildRep(m: Mem, t: Tree, par: nat, idx: nat, right: bool)
    requires t.Node? && Rep(m, t, par, idx)
    ensures |t.ring| > 0 && Rep(m, Child(t, right), t.ring[0], idx)
    ensures Child(t, right).Node? ==> |Child(t, right).ring| > 0
    ensures Addrs(Child(t, right)) <= Addrs(t)
    ensures Distinct(t) ==> Distinct(Child(t, right))
  {
  }

  lemma InsertStep(t: Tree, x: nat, s: nat, lo: nat, k: nat)
    requires t.Node? && |t.ring| > 0 && InRange(s, lo, k) && TrieOk(t, lo, k) && t.size != s
    requires k > 0 && InRange(s, LoBelow(s, lo, k), k - 1)
    requires TrieOk(Child(t, GoRight(s, lo, k)), LoBelow(s, lo, k), k - 1)
    ensures var right, lo' := GoRight(s, lo, k), LoBelow(s, lo, k);
            var c := Child(t, right);
            && InsertT(t, x, s, lo, k) == WithChild(t, right, InsertT(c, x, s, lo', k - 1))
            && (c.Node? && |c.ring| > 0 ==> FindSlot(t, s, lo, k) == FindSlot(c, s, lo', k - 1))
            && (c.Nil? ==> FindSlot(t, s, lo, k) == Empty(t.ring[0], right)
                           && InsertT(c, x, s, lo', k - 1) == Node([x], s, Nil, Nil))
  {
  }

  lemma {:induction false} InsertRep(m: Mem, m': Mem, t: Tree, par: nat, idx: nat, x: nat, s: nat, lo: nat, k: nat)
    requires t.Node? && Rep(m, t, par, idx) && Distinct(t) && x !in Addrs(t)
    requires InRange(s, lo, k) && TrieOk(t, lo, k)
    requires Inserted(m, m', Addrs(t), x, s, idx, FindSlot(t, s, lo, k))
    ensures Rep(m', InsertT(t, x, s, lo, k), par, idx)
    decreases t
  {
    hide TrieOk, InRange, GoRight, LoBelow, Inserted, Rep, Addrs, Distinct, FindSlot, InsertT, WithChild;
    ChildRep(m, t, par, idx, false);
    if t.size == s {
      InsertHere(t, x, s, lo, k);
      InsertSameRep(m, m', t, par, idx, x);
    } else {
      StepDown(t, s, lo, k);
      InsertStep(t, x, s, lo, k);
      var right, lo' := GoRight(s, lo, k), LoBelow(s, lo, k);
      var c := Child(t, right);
      ChildRep(m, t, par, idx, right);
      var slot := FindSlot(t, s, lo, k);
      if c.Node? {
        InsertedSubset(m, m', Addrs(t), Addrs(c), x, s, idx, slot);
        SlotInTree(m, c, t.ring[0], idx, s, lo', k - 1);
        InsertRep(m, m', c, t.ring[0], idx, x, s, lo', k - 1);
        InsertAddrs(c, x, s, lo', k - 1);
      }
      InsertedBelow(m, m', t, par, idx, x, s, slot, right, InsertT(c, x, s, lo', k - 1));
    }
  }

  lemma InsertHere(t: Tree, x: nat, s: nat, lo: nat, k: nat)
    requires t.Node? && |t.ring| > 0 && InRange(s, lo, k) && TrieOk(t, lo, k) && t.size == s
    ensures FindSlot(t, s, lo, k) == Same(t.ring[0])
    ensures InsertT(t, x, s, lo, k) == t.(ring := RingPlus(t.ring, x))
  {
  }

  lemma InsertedSubset(m: Mem, m': Mem, ys: set<nat>, zs: set<nat>, x: nat, s: nat, idx: nat, slot: Slot)
    requires Inserted(m, m', ys, x, s, idx, slot) && zs <= ys
    ensures Inserted(m, m', zs, x, s, idx, slot)
  {
  }

  lemma RingSingle(m: Mem, x: nat)
    requires Fd(m, x) == x && Bk(m, x) == x
    ensures RingOk(m, [x])
  {
  }

  lemma InsertRingKept(m: Mem, m': Mem, t: Tree, par: nat, idx: nat, x: nat, s: nat, slot: Slot)
    requires t.Node? && Rep(m, t, par, idx) && Inserted(m, m', Addrs(t), x, s, idx, slot)
    requires slot.Same? ==> slot.at !in t.ring && Fd(m, slot.at) !in t.ring
    requires slot.Empty? && slot.at in t.ring ==> slot.at == t.ring[0]
    requires Distinct(t)
    ensures RingRep(m', t.ring, t.size, idx)
  {
    assert forall y | y in t.ring :: y in Addrs(t);
    RingFrame(m, m', t.ring);
    forall i | 1 <= i < |t.ring| ensures Chained(m', t.ring[i]) { assert Chained(m, t.ring[i]); }
  }
}
