/** The word writes of `unlink_large_chunk` (hagen/src/malloc.c:2818-2887) and the treebin
    they leave. */
module TreeUnlinkBins {
  import opened Lists
  import opened Words
  import opened BinMaps
  import opened Chunks
  import opened Tags
  import opened Trie
  import opened TrieLinks
  import opened TrieUnlink
  import opened Bins
  import opened SmallBins
  import opened TreeBins

  /* ---------------- detaching the replacement ---------------- */

  /** The replacement for tree member `x` is ready: in memory it is a ring with no children,
      and `x` has the children that its replacement will have. */
  ghost predicate Ready(m: Mem, x: nat, idx: nat, t': Tree) {
    t'.Node? ==>
      && RingRep(m, t'.ring, t'.size, idx) && Child0(m, t'.ring[0]) == 0 && Child1(m, t'.ring[0]) == 0
      && Rep(m, t'.left, x, idx) && Rep(m, t'.right, x, idx)
      && Child0(m, x) == Root(t'.left) && Child1(m, x) == Root(t'.right)
  }

  lemma RotatedRing(m: Mem, m1: Mem, ring: seq<nat>, size: nat, idx: nat)
    requires RingRep(m, ring, size, idx) && NoDup(ring) && |ring| > 1
    requires OnlyRelinked(m, m1, Elems(ring)) && Bypassed(m, m1, Elems(ring) - {ring[0]}, Bk(m, ring[0]), Fd(m, ring[0]))
    ensures var n := |ring|;
            var ring' := [ring[n - 1]] + ring[1..n - 1];
            && RingRep(m1, ring', size, idx) && Chained(m1, ring'[0])
            && Bk(m, ring[0]) == ring'[0] && Fd(m, ring[0]) in ring
  {
    hide SizeOf, Index, Rd;
    var n := |ring|;
    var ring' := [ring[n - 1]] + ring[1..n - 1];
    RingRemoveFirst(m, m1, ring);
    RotateElems(ring);
    forall a | a in ring' ensures a != 0 && SizeOf(m1, a) == size && Index(m1, a) == idx {
      assert a in Elems(ring'); assert a in ring;
    }
    forall i | 0 <= i < |ring'| ensures Chained(m1, ring'[i]) {
      var j := if i == 0 then n - 1 else i;
      assert ring'[i] == ring[j] && Chained(m, ring[j]) && ring[j] in Elems(ring);
    }
    assert LinkedAt(m, ring, 0);
  }

  /** A ring with another chunk: its links pass over `x`, and the chunk behind `x` steps in. */
  lemma ReadyFromRing(m: Mem, m1: Mem, sub: Tree, par: nat, idx: nat)
    requires Rep(m, sub, par, idx) && Distinct(sub) && sub.Node? && |sub.ring| > 1
    requires var x := sub.ring[0];
             && OnlyRelinked(m, m1, Addrs(sub)) && Bypassed(m, m1, Addrs(sub) - {x}, Bk(m, x), Fd(m, x))
    ensures Bk(m, sub.ring[0]) == Root(SansRoot(sub)) && Bk(m, sub.ring[0]) in Addrs(sub)
    ensures Ready(m1, sub.ring[0], idx, SansRoot(sub))
  {
    hide SizeOf, Index, Fd, Bk, Parent, Child0, Child1, Rep, RingRep, Bypassed, OnlyRelinked, SameNode, NoDup;
    var x, ring := sub.ring[0], sub.ring;
    RingParts(m, m1, sub, par, idx);
    RotatedRing(m, m1, ring, sub.size, idx);
    forall y | y in Addrs(sub.left) || y in Addrs(sub.right) ensures SameNode(m, m1, y) {
      NodeUntouched(m, m1, Addrs(sub) - {x}, Bk(m, x), Fd(m, x), y);
    }
    RepFrame(m, m1, sub.left, x, idx);
    RepFrame(m, m1, sub.right, x, idx);
  }

  /** The parts of a node with a ring of several. */
  lemma RingParts(m: Mem, m1: Mem, sub: Tree, par: nat, idx: nat)
    requires Rep(m, sub, par, idx) && Distinct(sub) && sub.Node? && |sub.ring| > 1
    requires var x := sub.ring[0];
             && OnlyRelinked(m, m1, Addrs(sub)) && Bypassed(m, m1, Addrs(sub) - {x}, Bk(m, x), Fd(m, x))
    ensures var x := sub.ring[0];
            && RingRep(m, sub.ring, sub.size, idx) && NoDup(sub.ring) && Rep(m, sub.left, x, idx) && Rep(m, sub.right, x, idx)
            && OnlyRelinked(m, m1, Elems(sub.ring)) && Bypassed(m, m1, Elems(sub.ring) - {x}, Bk(m, x), Fd(m, x))
            && OnlyRelinked(m, m1, Addrs(sub) - {x}) && x in Addrs(sub)
            && Fd(m, x) in Elems(sub.ring) && Bk(m, x) in Elems(sub.ring) && Fd(m, x) in Addrs(sub) && Bk(m, x) in Addrs(sub)
            && Child0(m1, x) == Root(sub.left) && Child1(m1, x) == Root(sub.right)
  {
    hide SizeOf, Index, Rd, OnlyRelinked, Bypassed;
    var x := sub.ring[0];
    assert LinkedAt(m, sub.ring, 0);
    assert x in sub.ring && NextIn(sub.ring, 0) in sub.ring && PrevIn(sub.ring, 0) in sub.ring;
    Narrower(m, m1, Addrs(sub), Elems(sub.ring), Bk(m, x), Fd(m, x), x);
    Narrower(m, m1, Addrs(sub), Addrs(sub), Bk(m, x), Fd(m, x), x);
    assert ChildrenSame(m, m1, x) by { ChildrenOf(m, m1, Addrs(sub), x); }
  }

  ghost predicate ChildrenSame(m: Mem, m': Mem, y: nat) { Child0(m', y) == Child0(m, y) && Child1(m', y) == Child1(m, y) }

  lemma ChildrenOf(m: Mem, m': Mem, ys: set<nat>, y: nat)
    requires OnlyRelinked(m, m', ys) && y in ys
    ensures ChildrenSame(m, m', y)
  {
    hide SizeOf, Index, Rd;
  }

  lemma Narrower(m: Mem, m': Mem, ys: set<nat>, zs: set<nat>, b: nat, f: nat, x: nat)
    requires OnlyRelinked(m, m', ys) && Bypassed(m, m', ys - {x}, b, f) && zs <= ys
    ensures OnlyRelinked(m, m', zs) && OnlyRelinked(m, m', zs - {x}) && Bypassed(m, m', zs - {x}, b, f)
  {
    hide SizeOf, Rd;
  }

  /** A node alone in its ring but with children: its rightmost leaf has been cut off. */
  lemma ReadyFromLeaf(m: Mem, m1: Mem, sub: Tree, par: nat, idx: nat)
    requires Rep(m, sub, par, idx) && Distinct(sub) && sub.Node? && |sub.ring| == 1
    requires sub.left.Node? || sub.right.Node?
    requires forall y | y in Addrs(sub) :: ChildRedirected(m, m1, y, Root(LeafOf(sub)), 0)
    ensures Root(SansRoot(sub)) == Root(LeafOf(sub))
    ensures Ready(m1, sub.ring[0], idx, SansRoot(sub))
  {
    hide SizeOf, Index, Fd, Bk, Parent, Child0, Child1, Rep, RingRep, Distinct, Addrs, ChildRedirected, LeafOf, SansLeaf, SansRoot;
    LeafPlace(sub);
    LeafRing(m, m1, sub, par, idx);
    LeafSides(m, m1, sub, par, idx);
    LeafSlots(m, m1, sub, par, idx);
  }

  /** What takes the place of such a node. */
  lemma LeafPlace(sub: Tree)
    requires Distinct(sub) && sub.Node? && |sub.ring| == 1 && (sub.left.Node? || sub.right.Node?)
    ensures var right := sub.right.Node?; var leaf := LeafOf(Child(sub, right));
            && LeafOf(sub) == leaf && |leaf.ring| > 0 && Root(leaf) == leaf.ring[0] && leaf.ring[0] in Addrs(Child(sub, right))
            && (forall y | y in leaf.ring :: y in Addrs(sub)) && Root(leaf) !in Addrs(Child(sub, !right))
            && SansRoot(sub) == Node(leaf.ring, leaf.size, if right then sub.left else SansLeaf(sub.left),
                                     if right then SansLeaf(sub.right) else sub.right)
  {
    var c := Child(sub, sub.right.Node?);
    SansLeafAddrs(c);
    assert forall y | y in LeafOf(c).ring :: y in Elems(LeafOf(c).ring);
    assert LeafOf(c).ring[0] in LeafOf(c).ring;
  }

  lemma LeafRing(m: Mem, m1: Mem, sub: Tree, par: nat, idx: nat)
    requires Rep(m, sub, par, idx) && Distinct(sub) && sub.Node? && |sub.ring| == 1 && (sub.left.Node? || sub.right.Node?)
    requires forall y | y in Addrs(sub) :: ChildRedirected(m, m1, y, Root(LeafOf(sub)), 0)
    ensures var leaf := LeafOf(sub);
            |leaf.ring| > 0 && RingRep(m1, leaf.ring, leaf.size, idx) && Child0(m1, leaf.ring[0]) == 0 && Child1(m1, leaf.ring[0]) == 0
  {
    hide SizeOf, Index, Fd, Bk, Parent, Child0, Child1, Rep, RingRep, Distinct, Addrs, LeafOf, SansLeaf, SansRoot;
    var right := sub.right.Node?;
    var c := Child(sub, right);
    ChildRep(m, sub, par, idx, right);
    LeafPlace(sub);
    LeafRep(m, c, sub.ring[0], idx);
    ZeroNotStored(m, sub, par, idx);
    var leaf := LeafOf(c);
    assert leaf.ring[0] in leaf.ring;
    RingRedirect(m, m1, leaf.ring, leaf.size, idx, leaf.ring[0], 0);
  }

  lemma LeafSides(m: Mem, m1: Mem, sub: Tree, par: nat, idx: nat)
    requires Rep(m, sub, par, idx) && Distinct(sub) && sub.Node? && |sub.ring| == 1 && (sub.left.Node? || sub.right.Node?)
    requires forall y | y in Addrs(sub) :: ChildRedirected(m, m1, y, Root(LeafOf(sub)), 0)
    ensures var right := sub.right.Node?;
            Rep(m1, SansLeaf(Child(sub, right)), sub.ring[0], idx) && Rep(m1, Child(sub, !right), sub.ring[0], idx)
  {
    hide SizeOf, Index, Fd, Bk, Parent, Child0, Child1, Rep, Distinct, Addrs, LeafOf, SansLeaf, SansRoot, ChildRedirected;
    var right := sub.right.Node?;
    ChildRep(m, sub, par, idx, right);
    ChildRep(m, sub, par, idx, !right);
    LeafPlace(sub);
    ZeroNotStored(m, sub, par, idx);
    SansLeafSplit(m, m1, sub, par, idx);
    SansLeafRep(m, m1, Child(sub, right), sub.ring[0], idx);
    RedirectFrame(m, m1, Child(sub, !right), sub.ring[0], idx, Root(LeafOf(sub)), 0);
  }

  lemma LeafSlots(m: Mem, m1: Mem, sub: Tree, par: nat, idx: nat)
    requires Rep(m, sub, par, idx) && Distinct(sub) && sub.Node? && |sub.ring| == 1 && (sub.left.Node? || sub.right.Node?)
    requires forall y | y in Addrs(sub) :: ChildRedirected(m, m1, y, Root(LeafOf(sub)), 0)
    ensures var right, x := sub.right.Node?, sub.ring[0];
            && Child0(m1, x) == Root(if right then sub.left else SansLeaf(sub.left))
            && Child1(m1, x) == Root(if right then SansLeaf(sub.right) else sub.right)
  {
    hide SizeOf, Index, Fd, Bk, Parent, Child0, Child1, RingRep, LeafOf, SansLeaf, SansRoot, Addrs, Distinct;
    var right, x := sub.right.Node?, sub.ring[0];
    var c, o := Child(sub, right), Child(sub, !right);
    ChildRep(m, sub, par, idx, right);
    ChildRep(m, sub, par, idx, !right);
    ChildRoot(m, sub, par, idx, right);
    ChildRoot(m, sub, par, idx, !right);
    hide Rep;
    assert ChildRedirected(m, m1, x, Root(LeafOf(sub)), 0);
    LeafPlace(sub);
    RootIsNull(m, o, x, idx);
    ZeroNotStored(m, sub, par, idx);
    SansLeafRoot(c);
    if c.left.Node? || c.right.Node? { LeafBelow(c); }
  }

  /* ---------------- relinking ---------------- */

  function SlotStep(m: Mem, x: nat, xp: nat, r: nat, h: nat): Mem {
    m[if Rd(m, h) == x then h else if Child0(m, xp) == x then xp + 32 else xp + 40 := r]
  }

  function AdoptStep(m: Mem, r: nat, c: nat, right: bool): Mem {
    if c != 0 then m[if right then r + 40 else r + 32 := c][c + 48 := r] else m
  }

  /** The writes that put `r`, or null, in the place of member `x` whose parent is `xp`. */
  function Relink(m: Mem, x: nat, xp: nat, r: nat, h: nat): Mem {
    var m2 := SlotStep(m, x, xp, r, h);
    if r == 0 then m2 else
      var m3 := m2[r + 48 := xp];
      var m4 := AdoptStep(m3, r, Child0(m3, x), false);
      AdoptStep(m4, r, Child1(m4, x), true)
  }

  /** What those writes change, seen by node `y`. */
  ghost predicate RelinkedAt(m: Mem, m': Mem, x: nat, xp: nat, r: nat, y: nat) {
    var c0, c1 := Child0(m, x), Child1(m, x);
    && SizeOf(m', y) == SizeOf(m, y) && Index(m', y) == Index(m, y)
    && Fd(m', y) == Fd(m, y) && Bk(m', y) == Bk(m, y)
    && Parent(m', y) == (if r != 0 && y == r then xp else if r != 0 && (y == c0 || y == c1) then r else Parent(m, y))
    && Child0(m', y) == (if r != 0 && y == r && c0 != 0 then c0
                         else if y == xp && Child0(m, xp) == x then r else Child0(m, y))
    && Child1(m', y) == (if r != 0 && y == r && c1 != 0 then c1
                         else if y == xp && Child0(m, xp) != x then r else Child1(m, y))
  }

  predicate ClearOrSame(a: nat, b: nat) { a == b || Clear(a, b) }

  ghost predicate SameLinks(m: Mem, m': Mem, y: nat) {
    && SizeOf(m', y) == SizeOf(m, y) && Index(m', y) == Index(m, y)
    && Fd(m', y) == Fd(m, y) && Bk(m', y) == Bk(m, y)
  }

  lemma SlotWrite(m: Mem, x: nat, xp: nat, r: nat, h: nat, y: nat)
    requires ClearOrSame(xp, y) || h == xp
    requires h < FLOOR <= y && (h == xp <==> Rd(m, h) == x)
    ensures var m2 := SlotStep(m, x, xp, r, h);
            && SameLinks(m, m2, y) && Parent(m2, y) == Parent(m, y)
            && Child0(m2, y) == (if y == xp && Child0(m, xp) == x then r else Child0(m, y))
            && Child1(m2, y) == (if y == xp && Child0(m, xp) != x then r else Child1(m, y))
  {
    assert Head(SlotStep(m, x, xp, r, h), y) == Head(m, y);
  }

  /** A child and its parent pointer, written together. */
  lemma AdoptWrites(m: Mem, r: nat, c: nat, right: bool, y: nat)
    requires c != 0 ==> ClearOrSame(r, y) && ClearOrSame(c, y) && ClearOrSame(r, c)
    requires y != 0
    ensures var m' := AdoptStep(m, r, c, right);
            && SameLinks(m, m', y)
            && Parent(m', y) == (if y == c then r else Parent(m, y))
            && Child0(m', y) == (if y == r && !right && c != 0 then c else Child0(m, y))
            && Child1(m', y) == (if y == r && right && c != 0 then c else Child1(m, y))
  {
    assert Head(AdoptStep(m, r, c, right), y) == Head(m, y);
  }

  lemma ParentWrite(m: Mem, r: nat, xp: nat, y: nat)
    requires ClearOrSame(r, y)
    ensures var m' := m[r + 48 := xp];
            && SameLinks(m, m', y)
            && Parent(m', y) == (if y == r then xp else Parent(m, y))
            && Child0(m', y) == Child0(m, y) && Child1(m', y) == Child1(m, y)
  {
    assert Head(m[r + 48 := xp], y) == Head(m, y);
  }

  /** `x`, its parent, its replacement and its children are chunks or the bin slot, and
      distinct ones do not overlap. */
  ghost predicate RelinkPlaces(m: Mem, x: nat, xp: nat, r: nat, h: nat) {
    && h < FLOOR <= x && (h == xp <==> Rd(m, h) == x) && (h == xp || Clear(xp, x))
    && (r != 0 ==> Clear(r, x))
    && (Child0(m, x) != 0 && r != 0 ==> Clear(Child0(m, x), x) && Clear(Child0(m, x), r))
    && (Child1(m, x) != 0 && r != 0 ==> Clear(Child1(m, x), x) && Clear(Child1(m, x), r))
  }

  lemma RelinkWrites(m: Mem, x: nat, xp: nat, r: nat, h: nat, y: nat)
    requires RelinkPlaces(m, x, xp, r, h) && FLOOR <= y && Clear(x, y)
    requires h == xp || ClearOrSame(xp, y)
    requires r != 0 ==> ClearOrSame(r, y)
    requires Child0(m, x) != 0 && r != 0 ==> ClearOrSame(Child0(m, x), y)
    requires Child1(m, x) != 0 && r != 0 ==> ClearOrSame(Child1(m, x), y)
    ensures RelinkedAt(m, Relink(m, x, xp, r, h), x, xp, r, y)
  {
    hide SlotStep, AdoptStep, Rd, Head, Index, Fd, Bk, Parent, Child0, Child1, SizeOf;
    var m2 := SlotStep(m, x, xp, r, h);
    SlotWrite(m, x, xp, r, h, y);
    SlotWrite(m, x, xp, r, h, x);
    if r != 0 {
      var m3 := m2[r + 48 := xp];
      ParentWrite(m2, r, xp, y);
      ParentWrite(m2, r, xp, x);
      var c0, c1 := Child0(m, x), Child1(m, x);
      var m4 := AdoptStep(m3, r, c0, false);
      AdoptWrites(m3, r, c0, false, y);
      AdoptWrites(m3, r, c0, false, x);
      AdoptWrites(m4, r, c1, true, y);
    }
  }

  /** A member's parent lies outside its subtree, and one of its slots holds the member. */
  lemma {:induction false} ParentOf(m: Mem, t: Tree, par: nat, idx: nat, x: nat)
    requires Rep(m, t, par, idx) && Distinct(t) && x in Members(t) && par !in Addrs(t)
    ensures var xp := Parent(m, x);
            && xp !in Addrs(SubAt(t, x)) && xp != 0
            && (x == Root(t) ==> xp == par)
            && (x != Root(t) ==> xp in Addrs(t) && (Child0(m, xp) == x || Child1(m, xp) == x))
    ensures exists p :: Rep(m, SubAt(t, x), p, idx)
    decreases t
  {
    if x == Root(t) {
    } else {
      MembersAreStored(t.left); MembersAreStored(t.right);
      var c := if x in Members(t.left) then t.left else t.right;
      assert t.ring[0] in t.ring && t.ring[0] in Elems(t.ring);
      ParentOf(m, c, t.ring[0], idx, x);
    }
  }

  /** Detaching the replacement and relinking it removes `x` from the tree. */
  lemma MemberGone(m: Mem, m1: Mem, m': Mem, t: Tree, h: nat, idx: nat, x: nat)
    requires Rep(m, t, h, idx) && Distinct(t) && x in Members(t) && h !in Addrs(t)
    requires Ready(m1, x, idx, SansRoot(SubAt(t, x)))
    requires forall y | y in Addrs(t) - Addrs(SubAt(t, x)) :: SameNode(m, m1, y)
    requires forall y | y in Addrs(t) - {x} ::
               RelinkedAt(m1, m', x, Parent(m, x), Root(SansRoot(SubAt(t, x))), y)
    ensures (MembersAreStored(t); Rep(m', RemoveT(t, x), h, idx))
  {
    var sub := SubAt(t, x);
    var t' := SansRoot(sub);
    var r, xp := Root(t'), Parent(m, x);
    ParentOf(m, t, h, idx, x);
    SansRootAddrs(sub);
    if t'.Node? {
      MemberTakeover(m, m1, m', t, h, idx, x);
    }
    forall y | y in Addrs(t) - Addrs(sub) ensures ChildRedirected(m, m', y, x, r) {
      MemberOutside(m, m1, m', t, h, idx, x, y);
    }
    ReplaceRep(m, m', t, h, idx, x);
  }

  lemma MemberTakeover(m: Mem, m1: Mem, m': Mem, t: Tree, h: nat, idx: nat, x: nat)
    requires Rep(m, t, h, idx) && Distinct(t) && x in Members(t) && h !in Addrs(t)
    requires Ready(m1, x, idx, SansRoot(SubAt(t, x))) && SansRoot(SubAt(t, x)).Node?
    requires forall y | y in Addrs(t) - {x} ::
               RelinkedAt(m1, m', x, Parent(m, x), Root(SansRoot(SubAt(t, x))), y)
    ensures Rep(m', SansRoot(SubAt(t, x)), Parent(m, x), idx)
  {
    var sub := SubAt(t, x);
    var t' := SansRoot(sub);
    var r, xp := Root(t'), Parent(m, x);
    ParentOf(m, t, h, idx, x);
    SansRootAddrs(sub);
    ZeroNotStored(m, t, h, idx);
    assert r in t'.ring && r in Elems(t'.ring) && r in Addrs(t');
    assert Takeover(m1, m', Addrs(t'), x, r, xp) by {
      forall y | y in Addrs(t') ensures y in Addrs(t) - {x} && y != xp && y != 0 && RelinkedAt(m1, m', x, xp, r, y) { }
    }
    TakeoverRep(m1, m', x, xp, idx, t');
  }

  /** The only slot outside the subtree that holds `x` is its parent's. */
  lemma SlotsOutside(m: Mem, t: Tree, h: nat, idx: nat, x: nat, y: nat)
    requires Rep(m, t, h, idx) && Distinct(t) && x in Members(t) && h !in Addrs(t)
    requires y in Addrs(t) - Addrs(SubAt(t, x))
    ensures y != 0 && y != x && Parent(m, x) !in Addrs(SubAt(t, x))
    ensures Child0(m, y) == x <==> y == Parent(m, x) && Child0(m, Parent(m, x)) == x
    ensures Child1(m, y) == x <==> y == Parent(m, x) && Child0(m, Parent(m, x)) != x
  {
    hide SizeOf, Index, Fd, Bk, Parent, Child0, Child1;
    ParentOf(m, t, h, idx, x);
    ZeroNotStored(m, t, h, idx);
    ChildPointers(m, t, h, idx);
    RootSub(t, x);
    assert x != 0;
    if x == Root(t) { }
  }

  lemma ReplacementInside(m1: Mem, x: nat, idx: nat, sub: Tree, y: nat)
    requires sub.Node? && Distinct(sub) && Ready(m1, x, idx, SansRoot(sub)) && y !in Addrs(sub) && y != 0
    ensures y != Root(SansRoot(sub))
    ensures SansRoot(sub).Node? ==> y != Child0(m1, x) && y != Child1(m1, x)
  {
    var t' := SansRoot(sub);
    SansRootAddrs(sub);
    if t'.Node? {
      assert t'.ring[0] in t'.ring && t'.ring[0] in Elems(t'.ring);
      RootIsNull(m1, t'.left, x, idx);
      RootIsNull(m1, t'.right, x, idx);
    }
  }

  lemma MemberOutside(m: Mem, m1: Mem, m': Mem, t: Tree, h: nat, idx: nat, x: nat, y: nat)
    requires Rep(m, t, h, idx) && Distinct(t) && x in Members(t) && h !in Addrs(t)
    requires Ready(m1, x, idx, SansRoot(SubAt(t, x)))
    requires y in Addrs(t) - Addrs(SubAt(t, x)) && SameNode(m, m1, y)
    requires Parent(m, x) in Addrs(t) ==> SameNode(m, m1, Parent(m, x))
    requires RelinkedAt(m1, m', x, Parent(m, x), Root(SansRoot(SubAt(t, x))), y)
    ensures ChildRedirected(m, m', y, x, Root(SansRoot(SubAt(t, x))))
  {
    hide SizeOf, Index, Fd, Bk, Parent, Child0, Child1, Rep, Distinct, Addrs, Ready, SansRoot, SubAt, Members;
    SlotsOutside(m, t, h, idx, x, y);
    ReplacementInside(m1, x, idx, SubAt(t, x), y);
    NullRoot(m1, x, idx, SubAt(t, x));
  }

  lemma NullRoot(m1: Mem, x: nat, idx: nat, sub: Tree)
    requires sub.Node? && Distinct(sub) && Ready(m1, x, idx, SansRoot(sub))
    ensures SansRoot(sub).Node? <==> Root(SansRoot(sub)) != 0
  {
    var t' := SansRoot(sub);
    if t'.Node? { assert t'.ring[0] in t'.ring; }
  }

  lemma RootSub(t: Tree, x: nat)
    requires Distinct(t) && x in Members(t)
    ensures x in Addrs(SubAt(t, x)) && (x == Root(t) ==> SubAt(t, x) == t)
  {
    var sub := SubAt(t, x);
    assert x in sub.ring;
  }

  /* ---------------- the whole unlink, in one treebin ---------------- */

  /** The tree's chunks in memory: apart from each other and above the static state. */
  ghost predicate Placed(t: Tree, h: nat) {
    h < FLOOR && Spaced(Addrs(t), 256) && forall y | y in Addrs(t) :: y >= FLOOR
  }

  lemma PlacedClear(t: Tree, h: nat, a: nat, b: nat)
    requires Placed(t, h) && a in Addrs(t) && b in Addrs(t)
    ensures ClearOrSame(a, b) && a >= FLOOR && a != h
  {
  }

  /** `m1` is `m` with the replacement `r` of member `x` detached. */
  ghost predicate Detached(m: Mem, m1: Mem, t: Tree, h: nat, idx: nat, x: nat, r: nat)
    requires Distinct(t) && x in Members(t)
  {
    var sub := SubAt(t, x);
    && Ready(m1, x, idx, SansRoot(sub)) && r == Root(SansRoot(sub))
    && (forall y | y in Addrs(t) - Addrs(sub) :: SameNode(m, m1, y))
    && Rd(m1, h) == Rd(m, h)
  }

  lemma BypassNode(m: Mem, b: nat, f: nat, y: nat)
    requires ClearOrSame(b, y) && ClearOrSame(f, y) && ClearOrSame(b, f)
    ensures var m' := Bypass(m, b, f);
            && SizeOf(m', y) == SizeOf(m, y) && Index(m', y) == Index(m, y) && Parent(m', y) == Parent(m, y)
            && Child0(m', y) == Child0(m, y) && Child1(m', y) == Child1(m, y)
            && Fd(m', y) == (if y == b then f else Fd(m, y)) && Bk(m', y) == (if y == f then b else Bk(m, y))
  {
    assert Head(Bypass(m, b, f), y) == Head(m, y);
  }

  lemma BypassTree(m: Mem, t: Tree, h: nat, b: nat, f: nat)
    requires Placed(t, h) && b in Addrs(t) && f in Addrs(t)
    ensures OnlyRelinked(m, Bypass(m, b, f), Addrs(t)) && Bypassed(m, Bypass(m, b, f), Addrs(t), b, f)
    ensures Rd(Bypass(m, b, f), h) == Rd(m, h)
  {
    hide Bypass, SizeOf, Index, Fd, Bk, Parent, Child0, Child1, Rd;
    forall y | y in Addrs(t) ensures OnlyRelinked(m, Bypass(m, b, f), {y}) && Bypassed(m, Bypass(m, b, f), {y}, b, f) {
      PlacedClear(t, h, b, y); PlacedClear(t, h, f, y); PlacedClear(t, h, b, f);
      BypassNode(m, b, f, y);
    }
    forall y | y in Addrs(t)
      ensures y in {y}
    { }
    BypassStatic(m, b, f, h);
  }

  lemma BypassStatic(m: Mem, b: nat, f: nat, h: nat)
    requires h < FLOOR
    ensures b >= FLOOR && f >= FLOOR ==> Rd(Bypass(m, b, f), h) == Rd(m, h)
  {
  }

  /** The ring of a member: alone exactly if bk leads back to it. */
  lemma MemberRing(m: Mem, t: Tree, h: nat, idx: nat, x: nat)
    requires Rep(m, t, h, idx) && Distinct(t) && x in Members(t) && h !in Addrs(t)
    ensures var sub := SubAt(t, x);
            && |sub.ring| > 0 && sub.ring[0] == x
            && (Bk(m, x) != x <==> |sub.ring| > 1)
            && Fd(m, x) in Addrs(sub) && Bk(m, x) in Addrs(sub)
            && Child0(m, x) == Root(sub.left) && Child1(m, x) == Root(sub.right)
    ensures Bk(m, Fd(m, x)) == x && Fd(m, Bk(m, x)) == x
  {
    ParentOf(m, t, h, idx, x);
    var sub := SubAt(t, x);
    var p :| Rep(m, sub, p, idx);
    var n := |sub.ring|;
    assert LinkedAt(m, sub.ring, 0);
    assert LinkedAt(m, sub.ring, n - 1);
    assert LinkedAt(m, sub.ring, if n > 1 then 1 else 0);
    assert Fd(m, x) in Elems(sub.ring) && Bk(m, x) in Elems(sub.ring);
  }

  lemma DetachRing(m: Mem, t: Tree, h: nat, idx: nat, x: nat)
    requires Rep(m, t, h, idx) && Distinct(t) && x in Members(t) && Placed(t, h) && Bk(m, x) != x
    ensures Detached(m, Bypass(m, Bk(m, x), Fd(m, x)), t, h, idx, x, Bk(m, x))
  {
    hide Rd, SizeOf, Index, Fd, Bk, Parent, Child0, Child1, Bypass;
    var m1 := Bypass(m, Bk(m, x), Fd(m, x));
    var sub := SubAt(t, x);
    assert h !in Addrs(t);
    MemberRing(m, t, h, idx, x);
    ParentOf(m, t, h, idx, x);
    var p :| Rep(m, sub, p, idx);
    BypassTree(m, t, h, Bk(m, x), Fd(m, x));
    ReadyFromRing(m, m1, sub, p, idx);
  }

  lemma DetachNone(m: Mem, t: Tree, h: nat, idx: nat, x: nat)
    requires Rep(m, t, h, idx) && Distinct(t) && x in Members(t) && Placed(t, h)
    requires Bk(m, x) == x && Child0(m, x) == 0 && Child1(m, x) == 0
    ensures Detached(m, m, t, h, idx, x, 0)
  {
    var sub := SubAt(t, x);
    assert h !in Addrs(t);
    MemberRing(m, t, h, idx, x);
    ParentOf(m, t, h, idx, x);
    var p :| Rep(m, sub, p, idx);
    RootIsNull(m, sub.left, x, idx);
    RootIsNull(m, sub.right, x, idx);
  }

  /** `rp` is the child slot, of a node of `sub`, that holds the leaf `r`. */
  ghost predicate HoldsLeaf(m: Mem, sub: Tree, rp: nat, q: nat, right: bool) {
    && sub.Node? && q in Addrs(sub) && rp == (if right then q + 40 else q + 32)
    && (if right then Child1(m, q) else Child0(m, q)) == Root(LeafOf(sub)) != 0
  }

  lemma CutWrites(m: Mem, rp: nat, q: nat, right: bool, y: nat)
    requires ClearOrSame(q, y) && rp == (if right then q + 40 else q + 32)
    ensures var m1 := m[rp := 0];
            && SameLinks(m, m1, y) && Parent(m1, y) == Parent(m, y)
            && Child0(m1, y) == (if y == q && !right then 0 else Child0(m, y))
            && Child1(m1, y) == (if y == q && right then 0 else Child1(m, y))
  {
    assert Head(m[rp := 0], y) == Head(m, y);
  }

  lemma CutRedirects(m: Mem, sub: Tree, p: nat, idx: nat, rp: nat, q: nat, right: bool, y: nat)
    requires Rep(m, sub, p, idx) && Distinct(sub) && HoldsLeaf(m, sub, rp, q, right)
    requires y in Addrs(sub) && ClearOrSame(q, y)
    ensures ChildRedirected(m, m[rp := 0], y, Root(LeafOf(sub)), 0)
  {
    hide SizeOf, Index, Fd, Bk, Parent, Child0, Child1, Clear;
    CutWrites(m, rp, q, right, y);
    ChildPointers(m, sub, p, idx);
  }

  lemma DetachLeaf(m: Mem, t: Tree, h: nat, idx: nat, x: nat, rp: nat, q: nat, right: bool)
    requires Rep(m, t, h, idx) && Distinct(t) && x in Members(t) && Placed(t, h) && Bk(m, x) == x
    requires HoldsLeaf(m, SubAt(t, x), rp, q, right)
    requires SubAt(t, x).left.Node? || SubAt(t, x).right.Node?
    ensures Detached(m, m[rp := 0], t, h, idx, x, Root(LeafOf(SubAt(t, x))))
  {
    hide Rd, SizeOf, Index, Fd, Bk, Parent, Child0, Child1;
    var m1 := m[rp := 0];
    var sub := SubAt(t, x);
    assert h !in Addrs(t);
    MemberRing(m, t, h, idx, x);
    ParentOf(m, t, h, idx, x);
    var p :| Rep(m, sub, p, idx);
    forall y | y in Addrs(sub) ensures ChildRedirected(m, m1, y, Root(LeafOf(sub)), 0) {
      PlacedClear(t, h, q, y);
      CutRedirects(m, sub, p, idx, rp, q, right, y);
    }
    forall y | y in Addrs(t) - Addrs(sub) ensures SameNode(m, m1, y) {
      PlacedClear(t, h, q, y);
      CutWrites(m, rp, q, right, y);
    }
    PlacedClear(t, h, q, q);
    CutStatic(m, rp, h);
    ReadyFromLeaf(m, m1, sub, p, idx);
  }

  lemma CutStatic(m: Mem, rp: nat, h: nat)
    requires h < FLOOR <= rp
    ensures Rd(m[rp := 0], h) == Rd(m, h)
  {
  }

  /* ---------------- and over all bins ---------------- */

  lemma AdoptLinks(m: Mem, m1: Mem, c: set<nat>, w: set<nat>, h: set<nat>, r: nat, k: nat, right: bool)
    requires Layout(m, c) && w <= c && Static(h) && LinksOnly(m, m1, w, h)
    requires r in w && (k == 0 || k in w) && forall a | a in w :: SizeOf(m, a) >= 256
    ensures LinksOnly(m, AdoptStep(m1, r, k, right), w, h)
  {
    hide SizeOf, Layout, LinksOnly;
    LayoutKept(m, m1, c, w, h);
    if k != 0 {
      var m2 := m1[if right then r + 40 else r + 32 := k];
      LinkWrite(m1, w, h, r, k, if right then 40 else 32);
      LinksThen(m, m1, m2, c, w, h);
      LayoutKept(m, m2, c, w, h);
      LinkWrite(m2, w, h, k, r, 48);
      LinksThen(m, m2, m2[k + 48 := r], c, w, h);
    }
  }

  lemma RelinkLinks(m: Mem, m1: Mem, c: set<nat>, w: set<nat>, x: nat, xp: nat, r: nat, h: nat)
    requires Layout(m, c) && w <= c && h < FLOOR && LinksOnly(m, m1, w, {h})
    requires forall a | a in w :: SizeOf(m, a) >= 256
    requires RelinkPlaces(m1, x, xp, r, h) && (h == xp || xp in w) && x in w
    requires r != 0 ==> r in w && (Child0(m1, x) == 0 || Child0(m1, x) in w) && (Child1(m1, x) == 0 || Child1(m1, x) in w)
    ensures LinksOnly(m, Relink(m1, x, xp, r, h), w, {h})
  {
    hide SizeOf, Layout, LinksOnly, SlotStep, AdoptStep, Child0, Child1, Rd;
    var m2 := SlotStep(m1, x, xp, r, h);
    SlotLinks(m, m1, c, w, x, xp, r, h);
    if r != 0 {
      var m3 := m2[r + 48 := xp];
      LayoutKept(m, m2, c, w, {h});
      LinkWrite(m2, w, {h}, r, xp, 48);
      LinksThen(m, m2, m3, c, w, {h});
      SlotWrite(m1, x, xp, r, h, x);
      ParentWrite(m2, r, xp, x);
      var c0, c1 := Child0(m1, x), Child1(m1, x);
      AdoptLinks(m, m3, c, w, {h}, r, c0, false);
      AdoptWrites(m3, r, c0, false, x);
      AdoptLinks(m, AdoptStep(m3, r, c0, false), c, w, {h}, r, c1, true);
    }
  }

  lemma SlotLinks(m: Mem, m1: Mem, c: set<nat>, w: set<nat>, x: nat, xp: nat, r: nat, h: nat)
    requires Layout(m, c) && w <= c && h < FLOOR && LinksOnly(m, m1, w, {h})
    requires forall a | a in w :: SizeOf(m, a) >= 256
    requires (h == xp <==> Rd(m1, h) == x) && (h == xp || xp in w)
    ensures LinksOnly(m, SlotStep(m1, x, xp, r, h), w, {h})
  {
    hide SizeOf, Layout, LinksOnly, Child0;
    LayoutKept(m, m1, c, w, {h});
    if h == xp { HeaderWrite(m1, w, {h}, h, r); }
    else if Child0(m1, xp) == x { LinkWrite(m1, w, {h}, xp, r, 32); }
    else { LinkWrite(m1, w, {h}, xp, r, 40); }
    LinksThen(m, m1, SlotStep(m1, x, xp, r, h), c, w, {h});
  }

  lemma PlacedIn(m: Mem, c: set<nat>, treemap: nat, i: nat, t: Tree)
    requires Layout(m, c) && Addrs(t) <= c && TreeBinOk(m, treemap, i, t) && i < 32
    ensures Placed(t, TreeBinAt(i)) && forall a | a in Addrs(t) :: SizeOf(m, a) >= 256
    ensures TreeBinAt(i) !in Addrs(t)
  {
    TreeSizes(m, c, treemap, i, t);
    TreeSpaced(m, c, Addrs(t));
    assert forall a | a in Addrs(t) :: a >= FLOOR;
  }

  /** The places that relinking writes to, once the replacement is detached. */
  lemma RelinkPlaced(m: Mem, m1: Mem, t: Tree, h: nat, idx: nat, x: nat, r: nat)
    requires Rep(m, t, h, idx) && Distinct(t) && x in Members(t) && Placed(t, h) && h != 0 && Rd(m, h) == Root(t)
    requires Detached(m, m1, t, h, idx, x, r)
    ensures var xp := Parent(m, x);
            && RelinkPlaces(m1, x, xp, r, h) && (h == xp || xp in Addrs(t)) && x in Addrs(t)
            && (r != 0 ==> r in Addrs(t) && (Child0(m1, x) == 0 || Child0(m1, x) in Addrs(t))
                           && (Child1(m1, x) == 0 || Child1(m1, x) in Addrs(t)))
  {
    hide Rd, SizeOf, Index, Fd, Bk, Parent, Child0, Child1, Clear, Rep;
    var sub := SubAt(t, x);
    var xp := Parent(m, x);
    assert h !in Addrs(t);
    MembersAreStored(t);
    ParentOf(m, t, h, idx, x);
    RootSub(t, x);
    if xp in Addrs(t) { PlacedClear(t, h, xp, x); }
    DetachedPlaces(m, m1, t, h, idx, x, r);
    if r != 0 {
      PlacedClear(t, h, r, x);
      if Child0(m1, x) != 0 { PlacedClear(t, h, Child0(m1, x), x); PlacedClear(t, h, Child0(m1, x), r); }
      if Child1(m1, x) != 0 { PlacedClear(t, h, Child1(m1, x), x); PlacedClear(t, h, Child1(m1, x), r); }
    }
    PlacedClear(t, h, x, x);
  }

  lemma DetachedPlaces(m: Mem, m1: Mem, t: Tree, h: nat, idx: nat, x: nat, r: nat)
    requires Distinct(t) && x in Members(t) && Detached(m, m1, t, h, idx, x, r)
    ensures r != 0 ==> && r in Addrs(SubAt(t, x)) - {x}
                       && (Child0(m1, x) == 0 || (Child0(m1, x) in Addrs(SubAt(t, x)) - {x} && Child0(m1, x) != r))
                       && (Child1(m1, x) == 0 || (Child1(m1, x) in Addrs(SubAt(t, x)) - {x} && Child1(m1, x) != r))
  {
    var sub := SubAt(t, x);
    var t' := SansRoot(sub);
    SansRootAddrs(sub);
    NullRoot(m1, x, idx, sub);
    if t'.Node? {
      assert r in t'.ring && r in Elems(t'.ring);
      RootIsNull(m1, t'.left, x, idx);
      RootIsNull(m1, t'.right, x, idx);
    }
  }

  /** Relinking a detached replacement, in its bin. */
  lemma RelinkBin(m: Mem, m1: Mem, c: set<nat>, treemap: nat, i: nat, t: Tree, x: nat, r: nat)
    requires Layout(m, c) && Addrs(t) <= c && TreeBinOk(m, treemap, i, t) && i < 32
    requires x in Members(t) && (DistinctOf(m, treemap, i, t); Detached(m, m1, t, TreeBinAt(i), i, x, r))
    requires LinksOnly(m, m1, Addrs(t), TreeHeader(i)) && MapOk(treemap)
    ensures var h := TreeBinAt(i);
            var m' := Relink(m1, x, Parent(m, x), r, h);
            var treemap' := if x == Root(t) && r == 0 then Unmark(treemap, i) else treemap;
            && x in Addrs(t) && Distinct(t)
            && TreeBinOk(m', treemap', i, RemoveT(t, x)) && Addrs(RemoveT(t, x)) == Addrs(t) - {x}
            && LinksOnly(m, m', Addrs(t), TreeHeader(i))
  {
    hide *;
    var h := TreeBinAt(i);
    var xp := Parent(m, x);
    var m' := Relink(m1, x, xp, r, h);
    DistinctOf(m, treemap, i, t);
    MembersAreStored(t);
    PlacedIn(m, c, treemap, i, t);
    HeaderPlace(i);
    RelinkPlaced(m, m1, t, h, i, x, r);
    RelinkLinks(m, m1, c, Addrs(t), x, xp, r, h);
    forall y | y in Addrs(t) - {x} ensures RelinkedAt(m1, m', x, xp, r, y) {
      RelinkEach(m1, t, h, x, xp, r, y);
    }
    RelinkedTree(m, m1, m', t, h, i, x, r);
    RemoveTrie(t, x, BinLo(i), BinBits(i));
    RemoveAddrs(t, x);
    RelinkedBin(m, m1, m', treemap, i, t, x, r);
  }

  lemma HeaderPlace(i: nat)
    requires i < 32
    ensures 0 != TreeBinAt(i) < FLOOR && TreeHeader(i) == {TreeBinAt(i)}
  {
  }

  lemma RelinkEach(m1: Mem, t: Tree, h: nat, x: nat, xp: nat, r: nat, y: nat)
    requires Placed(t, h) && RelinkPlaces(m1, x, xp, r, h) && (h == xp || xp in Addrs(t)) && x in Addrs(t)
    requires r != 0 ==> r in Addrs(t) && (Child0(m1, x) == 0 || Child0(m1, x) in Addrs(t))
                        && (Child1(m1, x) == 0 || Child1(m1, x) in Addrs(t))
    requires y in Addrs(t) - {x}
    ensures RelinkedAt(m1, Relink(m1, x, xp, r, h), x, xp, r, y)
  {
    hide Rd, Child0, Child1, Relink, Addrs;
    forall a | a in Addrs(t) ensures ClearOrSame(a, y) && FLOOR <= y { PlacedClear(t, h, a, y); }
    RelinkWrites(m1, x, xp, r, h, y);
  }

  lemma RelinkedTree(m: Mem, m1: Mem, m': Mem, t: Tree, h: nat, idx: nat, x: nat, r: nat)
    requires Rep(m, t, h, idx) && Distinct(t) && x in Members(t) && h !in Addrs(t)
    requires Detached(m, m1, t, h, idx, x, r)
    requires forall y | y in Addrs(t) - {x} :: RelinkedAt(m1, m', x, Parent(m, x), r, y)
    ensures (MembersAreStored(t); Rep(m', RemoveT(t, x), h, idx))
  {
    hide RelinkedAt, Ready, SameNode;
    MemberGone(m, m1, m', t, h, idx, x);
  }

  lemma RelinkedBin(m: Mem, m1: Mem, m': Mem, treemap: nat, i: nat, t: Tree, x: nat, r: nat)
    requires TreeBinOk(m, treemap, i, t) && Distinct(t) && x in Members(t) && x in Addrs(t) && i < 32 && MapOk(treemap)
    requires Detached(m, m1, t, TreeBinAt(i), i, x, r)
    requires RelinkPlaces(m1, x, Parent(m, x), r, TreeBinAt(i)) && Placed(t, TreeBinAt(i))
    requires Parent(m, x) == TreeBinAt(i) || Parent(m, x) in Addrs(t)
    requires r != 0 ==> r in Addrs(t) && (Child0(m1, x) == 0 || Child0(m1, x) in Addrs(t))
                        && (Child1(m1, x) == 0 || Child1(m1, x) in Addrs(t))
    requires m' == Relink(m1, x, Parent(m, x), r, TreeBinAt(i))
    requires Rep(m', RemoveT(t, x), TreeBinAt(i), i) && Distinct(RemoveT(t, x))
    requires TrieOk(RemoveT(t, x), BinLo(i), BinBits(i)) && Sizes(RemoveT(t, x)) <= Sizes(t)
    ensures TreeBinOk(m', if x == Root(t) && r == 0 then Unmark(treemap, i) else treemap, i, RemoveT(t, x))
  {
    var h := TreeBinAt(i);
    MarkElsewhere(treemap, i);
    RemovedRoot(t, x);
    RootSub(t, x);
    RootIsNull(m', RemoveT(t, x), h, i);
    RootIsNull(m, t, h, i);
    assert Rd(m1, h) == Root(t);
    RelinkHeader(m1, x, Parent(m, x), r, h);
    DetachedPlaces(m, m1, t, h, i, x, r);
  }

  lemma RelinkHeader(m: Mem, x: nat, xp: nat, r: nat, h: nat)
    requires RelinkPlaces(m, x, xp, r, h) && (h == xp || xp >= FLOOR)
    requires r != 0 ==> r >= FLOOR && (Child0(m, x) == 0 || Child0(m, x) >= FLOOR) && (Child1(m, x) == 0 || Child1(m, x) >= FLOOR)
    ensures Rd(Relink(m, x, xp, r, h), h) == if Rd(m, h) == x then r else Rd(m, h)
  {
    var m2 := SlotStep(m, x, xp, r, h);
    SlotWrite(m, x, xp, r, h, x);
    if r != 0 {
      var m3 := m2[r + 48 := xp];
      ParentWrite(m2, r, xp, x);
      AdoptWrites(m3, r, Child0(m, x), false, x);
    }
  }

  /** All treebins when `x` has been taken out of bin `i`. */
  ghost predicate TreeGone(m: Mem, m': Mem, smallmap: nat, treemap': nat, smalls: seq<seq<nat>>, trees: seq<Tree>, x: nat, i: nat) {
    && |trees| == 32 && i < 32 && Distinct(trees[i]) && x in Addrs(trees[i])
    && BinsOk(m', smallmap, treemap', smalls, trees[i := RemoveT(trees[i], x)])
    && Binned(smalls, trees[i := RemoveT(trees[i], x)]) == Binned(smalls, trees) - {x}
    && LinksOnly(m, m', Binned(smalls, trees), TreeHeader(i))
  }

  lemma TreeGoneFrom(m: Mem, m': Mem, smallmap: nat, treemap: nat, treemap': nat, smalls: seq<seq<nat>>, trees: seq<Tree>, c: set<nat>, x: nat, i: nat)
    requires BinsOk(m, smallmap, treemap, smalls, trees) && Layout(m, c) && Binned(smalls, trees) <= c && i < 32
    requires x in Addrs(trees[i]) && Distinct(trees[i])
    requires TreeBinOk(m', treemap', i, RemoveT(trees[i], x)) && Addrs(RemoveT(trees[i], x)) == Addrs(trees[i]) - {x}
    requires LinksOnly(m, m', Addrs(trees[i]), TreeHeader(i)) && MarkedElsewhere(treemap, treemap', i)
    ensures TreeGone(m, m', smallmap, treemap', smalls, trees, x, i)
  {
    hide RemoveT, SmallBinOk, TreeBinOk, Distinct, Layout;
    BinAt(m, smallmap, treemap, smalls, trees, i);
    TreeIsBinned(smalls, trees, i);
    forall j | 0 <= j < 32 ensures {x} !! Elems(smalls[j]) && (j != i ==> {x} !! Addrs(trees[j])) {
      OtherBin(m, smallmap, treemap, smalls, trees, x, j);
    }
    BinnedWithTree(smalls, trees, i, RemoveT(trees[i], x), {}, {x});
    TreeBinChanged(m, m', smallmap, treemap, treemap', smalls, trees, c, Addrs(trees[i]), i, RemoveT(trees[i], x));
    LinksWider(m, m', Addrs(trees[i]), Binned(smalls, trees), TreeHeader(i));
  }

  lemma LinksWider(m: Mem, m': Mem, w: set<nat>, w': set<nat>, h: set<nat>)
    requires LinksOnly(m, m', w, h) && w <= w'
    ensures LinksOnly(m, m', w', h)
  {
    hide SizeOf;
  }

  /** `unlink_large_chunk` of a tree member, from its detached replacement on. */
  lemma UnlinkMember(m: Mem, m1: Mem, smallmap: nat, treemap: nat, smalls: seq<seq<nat>>, trees: seq<Tree>, c: set<nat>, x: nat, i: nat, r: nat)
    requires BinsOk(m, smallmap, treemap, smalls, trees) && Layout(m, c) && Binned(smalls, trees) <= c && i < 32
    requires Distinct(trees[i]) && x in Members(trees[i]) && Detached(m, m1, trees[i], TreeBinAt(i), i, x, r)
    requires LinksOnly(m, m1, Addrs(trees[i]), TreeHeader(i))
    ensures TreeGone(m, Relink(m1, x, Parent(m, x), r, TreeBinAt(i)), smallmap,
                     if x == Root(trees[i]) && r == 0 then Unmark(treemap, i) else treemap, smalls, trees, x, i)
  {
    hide Relink, Detached, Binned, SmallBinOk, TreeBinOk, Layout, LinksOnly, RemoveT, Distinct, Members, TreeGone, Rd, Parent;
    BinAt(m, smallmap, treemap, smalls, trees, i);
    TreeIsBinned(smalls, trees, i);
    RelinkBin(m, m1, c, treemap, i, trees[i], x, r);
    MarkElsewhere(treemap, i);
    TreeGoneFrom(m, Relink(m1, x, Parent(m, x), r, TreeBinAt(i)), smallmap, treemap,
                 if x == Root(trees[i]) && r == 0 then Unmark(treemap, i) else treemap, smalls, trees, c, x, i);
  }

  /** `unlink_large_chunk` of a chunk that is only chained to a tree member. */
  lemma UnlinkChained(m: Mem, smallmap: nat, treemap: nat, smalls: seq<seq<nat>>, trees: seq<Tree>, c: set<nat>, x: nat, i: nat)
    requires BinsOk(m, smallmap, treemap, smalls, trees) && Layout(m, c) && Binned(smalls, trees) <= c && i < 32
    requires x in Addrs(trees[i]) && Parent(m, x) == 0
    ensures TreeGone(m, Bypass(m, Bk(m, x), Fd(m, x)), smallmap, treemap, smalls, trees, x, i)
    ensures Bk(m, x) != x && Bk(m, Fd(m, x)) == x && Fd(m, Bk(m, x)) == x
  {
    hide Binned, SmallBinOk, TreeBinOk, Layout, RemoveT, Rep, Distinct, Members, TreeGone, Rd, Fd, Bk, Parent, Bypass, Placed, Addrs;
    var t, h := trees[i], TreeBinAt(i);
    var m' := Bypass(m, Bk(m, x), Fd(m, x));
    BinAt(m, smallmap, treemap, smalls, trees, i);
    TreeIsBinned(smalls, trees, i);
    DistinctOf(m, treemap, i, t);
    MemberIffParent(m, t, h, i, x);
    PlacedIn(m, c, treemap, i, t);
    ChainNeighbours(m, t, h, i, x);
    BypassTree(m, t, h, Bk(m, x), Fd(m, x));
    BypassLinkWords(m, c, Addrs(t), {h}, Bk(m, x), Fd(m, x));
    UnchainRep(m, m', t, h, i, x);
    RemoveTrie(t, x, BinLo(i), BinBits(i));
    RemoveAddrs(t, x);
    UnchainedBin(m, m', treemap, i, t, x);
    SameMarks(treemap, i);
    HeaderPlace(i);
    TreeGoneFrom(m, m', smallmap, treemap, treemap, smalls, trees, c, x, i);
  }

  lemma SameMarks(map_: nat, i: nat)
    requires MapOk(map_)
    ensures MarkedElsewhere(map_, map_, i)
  {
  }

  lemma UnchainedBin(m: Mem, m': Mem, treemap: nat, i: nat, t: Tree, x: nat)
    requires TreeBinOk(m, treemap, i, t) && Distinct(t) && x in Addrs(t) && i < 32
    requires Rd(m', TreeBinAt(i)) == Rd(m, TreeBinAt(i)) && Root(RemoveT(t, x)) == Root(t)
    requires Rep(m', RemoveT(t, x), TreeBinAt(i), i) && Distinct(RemoveT(t, x))
    requires TrieOk(RemoveT(t, x), BinLo(i), BinBits(i)) && Sizes(RemoveT(t, x)) <= Sizes(t)
    ensures TreeBinOk(m', treemap, i, RemoveT(t, x))
  {
    RootIsNull(m', RemoveT(t, x), TreeBinAt(i), i);
    RootIsNull(m, t, TreeBinAt(i), i);
  }

  lemma BypassLinkWords(m: Mem, c: set<nat>, w: set<nat>, h: set<nat>, b: nat, f: nat)
    requires Layout(m, c) && w <= c && Static(h) && b in w && f in w
    requires forall a | a in w :: SizeOf(m, a) >= 256
    ensures LinksOnly(m, Bypass(m, b, f), w, h)
  {
    hide SizeOf, Layout, LinksOnly;
    LinkWrite(m, w, h, f, b, 24);
    LayoutKept(m, m[f + 24 := b], c, w, h);
    LinkWrite(m[f + 24 := b], w, h, b, f, 16);
    LinksThen(m, m[f + 24 := b], Bypass(m, b, f), c, w, h);
  }

  /** A chained chunk's neighbours are other chunks of the tree that point back to it. */
  lemma {:induction false} ChainNeighbours(m: Mem, t: Tree, par: nat, idx: nat, x: nat)
    requires Rep(m, t, par, idx) && Distinct(t) && x in Addrs(t) && x !in Members(t)
    ensures Bk(m, x) != x && Bk(m, x) in Addrs(t) && Fd(m, x) in Addrs(t)
    ensures Bk(m, Fd(m, x)) == x && Fd(m, Bk(m, x)) == x
    decreases t
  {
    if x in t.ring {
      assert x != t.ring[0];
      var k := Position(t.ring, x);
      assert LinkedAt(m, t.ring, k);
      assert LinkedAt(m, t.ring, k - 1);
      assert LinkedAt(m, t.ring, if k + 1 < |t.ring| then k + 1 else 0);
      assert Fd(m, x) in Elems(t.ring) && Bk(m, x) in Elems(t.ring);
    } else if x in Addrs(t.left) {
      ChainNeighbours(m, t.left, t.ring[0], idx, x);
    } else {
      ChainNeighbours(m, t.right, t.ring[0], idx, x);
    }
  }

  /* ---------------- the steps of the macro ---------------- */

  /** Where `x` is when `unlink_large_chunk` starts. */
  ghost predicate InTree(m: Mem, smallmap: nat, treemap: nat, smalls: seq<seq<nat>>, trees: seq<Tree>, c: set<nat>, x: nat, i: nat) {
    && BinsInv(m, smallmap, treemap, smalls, trees, c) && |trees| == 32
    && i < 32 && x in Addrs(trees[i]) && TreeBinOk(m, treemap, i, trees[i])
    && Distinct(trees[i]) && Rep(m, trees[i], TreeBinAt(i), i)
    && Placed(trees[i], TreeBinAt(i)) && Addrs(trees[i]) <= c
    && (forall a | a in Addrs(trees[i]) :: SizeOf(m, a) >= 256)
  }

  lemma UnlinkStart(m: Mem, smallmap: nat, treemap: nat, smalls: seq<seq<nat>>, trees: seq<Tree>, c: set<nat>, x: nat)
    requires BinsInv(m, smallmap, treemap, smalls, trees, c) && x in Binned(smalls, trees) && SizeOf(m, x) >= 256
    ensures var i := TreeIndex(SizeOf(m, x));
            && InTree(m, smallmap, treemap, smalls, trees, c, x, i)
            && Index(m, x) == i && (x in Members(trees[i]) <==> Parent(m, x) != 0)
  {
    hide SizeOf, SmallBinOk, TreeBinOk, Layout, Binned, TreeIndex, Rep, Distinct, Addrs, Members, Placed, Index, Parent;
    BinOf(m, smallmap, treemap, smalls, trees, x);
    var i := TreeIndex(SizeOf(m, x));
    BinAt(m, smallmap, treemap, smalls, trees, i);
    DistinctOf(m, treemap, i, trees[i]);
    TreeIsBinned(smalls, trees, i);
    PlacedIn(m, c, treemap, i, trees[i]);
    MemberIffParent(m, trees[i], TreeBinAt(i), i, x);
    StoredIndex(m, trees[i], TreeBinAt(i), i, x);
  }

  lemma {:induction false} StoredIndex(m: Mem, t: Tree, par: nat, idx: nat, a: nat)
    requires Rep(m, t, par, idx) && a in Addrs(t)
    ensures Index(m, a) == idx
    decreases t
  {
    if a in t.ring {
    } else if a in Addrs(t.left) {
      StoredIndex(m, t.left, t.ring[0], idx, a);
    } else {
      StoredIndex(m, t.right, t.ring[0], idx, a);
    }
  }

  /** The replacement is detached, by writes inside the tree. */
  ghost predicate DetachedStep(m: Mem, m1: Mem, t: Tree, i: nat, x: nat, r: nat) {
    && Distinct(t) && x in Members(t) && Detached(m, m1, t, TreeBinAt(i), i, x, r)
    && LinksOnly(m, m1, Addrs(t), TreeHeader(i)) && Index(m1, x) == Index(m, x)
  }

  lemma RingStep(m: Mem, smallmap: nat, treemap: nat, smalls: seq<seq<nat>>, trees: seq<Tree>, c: set<nat>, x: nat, i: nat)
    requires InTree(m, smallmap, treemap, smalls, trees, c, x, i) && x in Members(trees[i]) && Bk(m, x) != x
    ensures DetachedStep(m, Bypass(m, Bk(m, x), Fd(m, x)), trees[i], i, x, Bk(m, x))
    ensures Bk(m, Fd(m, x)) == x && Fd(m, Bk(m, x)) == x
  {
    hide SizeOf, TreeBinOk, Rep, Distinct, Addrs, Members, Index, Fd, Bk, Detached, LinksOnly, BinsOk, Bypass;
    var t, h := trees[i], TreeBinAt(i);
    PlacedNoHeader(t, h);
    MemberRing(m, t, h, i, x);
    RootSub(t, x);
    DetachRing(m, t, h, i, x);
    HeaderPlace(i);
    SubInside(t, x);
    BypassLinkWords(m, c, Addrs(t), {h}, Bk(m, x), Fd(m, x));
    PlacedClear(t, h, Bk(m, x), x); PlacedClear(t, h, Fd(m, x), x); PlacedClear(t, h, Bk(m, x), Fd(m, x));
    BypassNode(m, Bk(m, x), Fd(m, x), x);
  }

  lemma SubInside(t: Tree, x: nat)
    requires Distinct(t) && x in Members(t)
    ensures Addrs(SubAt(t, x)) <= Addrs(t) && SubAt(t, x).Node? && Distinct(SubAt(t, x))
  {
  }

  lemma PlacedNoHeader(t: Tree, h: nat)
    requires Placed(t, h)
    ensures h !in Addrs(t)
  {
  }

  lemma NoneStep(m: Mem, smallmap: nat, treemap: nat, smalls: seq<seq<nat>>, trees: seq<Tree>, c: set<nat>, x: nat, i: nat)
    requires InTree(m, smallmap, treemap, smalls, trees, c, x, i) && x in Members(trees[i])
    requires Bk(m, x) == x && Child0(m, x) == 0 && Child1(m, x) == 0
    ensures DetachedStep(m, m, trees[i], i, x, 0)
  {
    DetachNone(m, trees[i], TreeBinAt(i), i, x);
    NoWrite(m, Addrs(trees[i]), TreeHeader(i));
  }

  /** The walk to the rightmost leaf stands at `r`, held by the slot `rp` of `q`. */
  ghost predicate LeafWalk(m: Mem, t: Tree, i: nat, x: nat, cur: Tree, q: nat, right: bool, r: nat, rp: nat) {
    && Distinct(t) && x in Members(t)
    && var sub := SubAt(t, x);
       && cur.Node? && (sub.left.Node? || sub.right.Node?)
       && LeafOf(cur) == LeafOf(sub) && Rep(m, cur, q, i) && Root(cur) == r != 0
       && q in Addrs(sub) && Addrs(cur) <= Addrs(sub)
       && rp == (if right then q + 40 else q + 32) && (if right then Child1(m, q) else Child0(m, q)) == r
  }

  lemma LeafWalkStart(m: Mem, smallmap: nat, treemap: nat, smalls: seq<seq<nat>>, trees: seq<Tree>, c: set<nat>, x: nat, i: nat)
    requires InTree(m, smallmap, treemap, smalls, trees, c, x, i) && x in Members(trees[i]) && Bk(m, x) == x
    requires Child0(m, x) != 0 || Child1(m, x) != 0
    ensures var sub, right := SubAt(trees[i], x), Child1(m, x) != 0;
            LeafWalk(m, trees[i], i, x, Child(sub, right), x, right, if right then Child1(m, x) else Child0(m, x),
                     if right then x + 40 else x + 32)
  {
    var t, h := trees[i], TreeBinAt(i);
    PlacedNoHeader(t, h);
    MemberRing(m, t, h, i, x);
    ParentOf(m, t, h, i, x);
    RootSub(t, x);
    var sub := SubAt(t, x);
    var p :| Rep(m, sub, p, i);
    RootIsNull(m, sub.left, x, i);
    RootIsNull(m, sub.right, x, i);
  }

  lemma LeafWalkStep(m: Mem, t: Tree, i: nat, x: nat, cur: Tree, q: nat, right: bool, r: nat, rp: nat)
    requires LeafWalk(m, t, i, x, cur, q, right, r, rp)
    ensures Child1(m, r) != 0 ==> LeafWalk(m, t, i, x, cur.right, r, true, Child1(m, r), r + 40)
    ensures Child1(m, r) == 0 && Child0(m, r) != 0 ==> LeafWalk(m, t, i, x, cur.left, r, false, Child0(m, r), r + 32)
    ensures Child1(m, r) == 0 && Child0(m, r) == 0 ==> HoldsLeaf(m, SubAt(t, x), rp, q, right) && r == Root(LeafOf(SubAt(t, x)))
  {
    hide SubAt, Members, Distinct;
    RootIsNull(m, cur, q, i);
    RootIsNull(m, cur.left, r, i);
    RootIsNull(m, cur.right, r, i);
    SubInside(t, x);
  }

  lemma LeafStep(m: Mem, smallmap: nat, treemap: nat, smalls: seq<seq<nat>>, trees: seq<Tree>, c: set<nat>, x: nat, i: nat,
                 cur: Tree, q: nat, right: bool, r: nat, rp: nat)
    requires InTree(m, smallmap, treemap, smalls, trees, c, x, i) && x in Members(trees[i]) && Bk(m, x) == x
    requires LeafWalk(m, trees[i], i, x, cur, q, right, r, rp) && Child0(m, r) == 0 && Child1(m, r) == 0
    ensures DetachedStep(m, m[rp := 0], trees[i], i, x, r)
  {
    hide SizeOf, TreeBinOk, Rep, Distinct, Members, Index, Child0, Child1, Detached, LinksOnly, BinsOk, SubAt, LeafOf, Addrs;
    var t, h := trees[i], TreeBinAt(i);
    LeafWalkStep(m, t, i, x, cur, q, right, r, rp);
    SubInside(t, x);
    DetachLeaf(m, t, h, i, x, rp, q, right);
    HeaderPlace(i);
    assert q in Addrs(t);
    LinkWrite(m, Addrs(t), TreeHeader(i), q, 0, if right then 40 else 32);
    PlacedClear(t, h, q, x);
    CutWrites(m, rp, q, right, x);
  }

  /** The rest of the macro for a tree member. */
  lemma FinishStep(m: Mem, m1: Mem, smallmap: nat, treemap: nat, smalls: seq<seq<nat>>, trees: seq<Tree>, c: set<nat>, x: nat, i: nat, r: nat)
    requires InTree(m, smallmap, treemap, smalls, trees, c, x, i) && DetachedStep(m, m1, trees[i], i, x, r)
    ensures var m' := Relink(m1, x, Parent(m, x), r, TreeBinAt(i));
            var treemap' := if x == Rd(m1, TreeBinAt(i)) && r == 0 then Unmark(treemap, i) else treemap;
            var trees' := trees[i := RemoveT(trees[i], x)];
            && BinsInv(m', smallmap, treemap', smalls, trees', c)
            && Binned(smalls, trees') == Binned(smalls, trees) - {x}
            && BinWrites(m, m', Binned(smalls, trees))
  {
    hide SizeOf, SmallBinOk, Layout, Binned, Rep, Distinct, Addrs, Members, Index, Parent, LinksOnly, Relink, RemoveT, Placed;
    UnlinkMember(m, m1, smallmap, treemap, smalls, trees, c, x, i, r);
    assert Rd(m1, TreeBinAt(i)) == Root(trees[i]);
    SmallHeadersStatic(i);
    BinsInvAfter(m, Relink(m1, x, Parent(m, x), r, TreeBinAt(i)), smallmap,
                 if x == Root(trees[i]) && r == 0 then Unmark(treemap, i) else treemap, smalls,
                 trees[i := RemoveT(trees[i], x)], c, Binned(smalls, trees), TreeHeader(i));
  }

  lemma ChainedStep(m: Mem, smallmap: nat, treemap: nat, smalls: seq<seq<nat>>, trees: seq<Tree>, c: set<nat>, x: nat, i: nat)
    requires InTree(m, smallmap, treemap, smalls, trees, c, x, i) && Parent(m, x) == 0
    ensures var m' := Bypass(m, Bk(m, x), Fd(m, x));
            var trees' := trees[i := RemoveT(trees[i], x)];
            && BinsInv(m', smallmap, treemap, smalls, trees', c)
            && Binned(smalls, trees') == Binned(smalls, trees) - {x}
            && BinWrites(m, m', Binned(smalls, trees))
    ensures Bk(m, x) != x && Bk(m, Fd(m, x)) == x && Fd(m, Bk(m, x)) == x
  {
    hide SizeOf, SmallBinOk, TreeBinOk, Layout, Binned, Rep, Distinct, Addrs, Index, Parent, LinksOnly, Bypass, Bk, Fd, RemoveT, Placed;
    UnlinkChained(m, smallmap, treemap, smalls, trees, c, x, i);
    SmallHeadersStatic(i);
    BinsInvAfter(m, Bypass(m, Bk(m, x), Fd(m, x)), smallmap, treemap, smalls,
                 trees[i := RemoveT(trees[i], x)], c, Binned(smalls, trees), TreeHeader(i));
  }
}
