/** What the link writes of `unlink_large_chunk` (hagen/src/malloc.c:2818-2887) do to a trie
    in memory. */
module TrieUnlink {
  import opened Lists
  import opened Words
  import opened Chunks
  import opened Trie
  import opened TrieLinks

  ghost function Members(t: Tree): set<nat> {
    if t.Nil? then {} else {Root(t)} + Members(t.left) + Members(t.right)
  }

  /** The subtree whose tree member is `x`. */
  ghost function SubAt(t: Tree, x: nat): (sub: Tree)
    requires Distinct(t) && x in Members(t)
    ensures Distinct(sub) && sub.Node? && Root(sub) == x && Addrs(sub) <= Addrs(t)
  {
    if x == Root(t) then t else if x in Members(t.left) then SubAt(t.left, x) else SubAt(t.right, x)
  }

  lemma {:induction false} MembersAreStored(t: Tree)
    requires Distinct(t)
    ensures Members(t) <= Addrs(t)
  {
    if t.Node? { MembersAreStored(t.left); MembersAreStored(t.right); }
  }

  /** Tree members have a parent, chained chunks have none. */
  lemma {:induction false} MemberIffParent(m: Mem, t: Tree, par: nat, idx: nat, x: nat)
    requires Rep(m, t, par, idx) && Distinct(t) && x in Addrs(t)
    ensures x in Members(t) <==> Parent(m, x) != 0
    decreases t
  {
    MembersAreStored(t.left); MembersAreStored(t.right);
    if x in t.ring {
      assert x in Elems(t.ring);
      var i :| 0 <= i < |t.ring| && t.ring[i] == x;
      if i > 0 { assert Chained(m, t.ring[i]); }
    } else if x in Addrs(t.left) {
      MemberIffParent(m, t.left, t.ring[0], idx, x);
    } else {
      MemberIffParent(m, t.right, t.ring[0], idx, x);
    }
  }

  /** Child pointers stay inside the tree and parent pointers are exact. */
  lemma {:induction false} ChildPointers(m: Mem, t: Tree, par: nat, idx: nat)
    requires Rep(m, t, par, idx) && Distinct(t)
    ensures forall y | y in Addrs(t) ::
              && (Child0(m, y) != 0 ==> Child0(m, y) in Addrs(t) && Parent(m, Child0(m, y)) == y)
              && (Child1(m, y) != 0 ==> Child1(m, y) in Addrs(t) && Parent(m, Child1(m, y)) == y)
              && (Child0(m, y) != 0 ==> Child0(m, y) != Child1(m, y))
              && (t.Node? && par !in Addrs(t) ==> Child0(m, y) != Root(t) && Child1(m, y) != Root(t))
    decreases t
  {
    if t.Node? {
      ChildPointers(m, t.left, t.ring[0], idx);
      ChildPointers(m, t.right, t.ring[0], idx);
      RootIsNull(m, t.left, t.ring[0], idx);
      RootIsNull(m, t.right, t.ring[0], idx);
      forall y | y in t.ring
        ensures y == t.ring[0] || Chained(m, y)
      {
        var i :| 0 <= i < |t.ring| && t.ring[i] == y;
        if i > 0 { assert Chained(m, t.ring[i]); }
      }
      assert t.ring[0] in t.ring;
    }
  }

  /* ---------------- a child slot is redirected ---------------- */

  function Redirect(c: nat, x: nat, r: nat): nat { if c == x then r else c }

  /** Node `y` is untouched but for a child slot that held `x` and now holds `r`. */
  ghost predicate ChildRedirected(m: Mem, m': Mem, y: nat, x: nat, r: nat) {
    && SizeOf(m', y) == SizeOf(m, y) && Index(m', y) == Index(m, y)
    && Fd(m', y) == Fd(m, y) && Bk(m', y) == Bk(m, y) && Parent(m', y) == Parent(m, y)
    && Child0(m', y) == Redirect(Child0(m, y), x, r) && Child1(m', y) == Redirect(Child1(m, y), x, r)
  }

  lemma RedirectFrame(m: Mem, m': Mem, t: Tree, par: nat, idx: nat, x: nat, r: nat)
    requires Rep(m, t, par, idx) && Distinct(t) && x !in Addrs(t) && x != 0
    requires forall y | y in Addrs(t) :: ChildRedirected(m, m', y, x, r)
    ensures Rep(m', t, par, idx)
  {
    ChildPointers(m, t, par, idx);
    forall y | y in Addrs(t) ensures SameNode(m, m', y) {
      assert ChildRedirected(m, m', y, x, r);
    }
    RepFrame(m, m', t, par, idx);
  }

  lemma RingRedirect(m: Mem, m': Mem, ring: seq<nat>, size: nat, idx: nat, x: nat, r: nat)
    requires RingRep(m, ring, size, idx) && x != 0
    requires forall y | y in ring :: ChildRedirected(m, m', y, x, r)
    ensures RingRep(m', ring, size, idx)
  {
    RingFrame(m, m', ring);
    forall i | 1 <= i < |ring| ensures Chained(m', ring[i]) {
      assert Chained(m, ring[i]) && ChildRedirected(m, m', ring[i], x, r);
    }
  }

  lemma {:induction false} LeafRep(m: Mem, t: Tree, par: nat, idx: nat)
    requires t.Node? && Rep(m, t, par, idx)
    ensures var leaf := LeafOf(t);
            && RingRep(m, leaf.ring, leaf.size, idx)
            && Child0(m, leaf.ring[0]) == 0 && Child1(m, leaf.ring[0]) == 0
    decreases t
  {
    if t.right.Node? { LeafRep(m, t.right, t.ring[0], idx); }
    else if t.left.Node? { LeafRep(m, t.left, t.ring[0], idx); }
  }

  lemma SansLeafRoot(t: Tree)
    requires t.Node? && |t.ring| > 0
    ensures Root(SansLeaf(t)) == if t.left.Nil? && t.right.Nil? then 0 else Root(t)
    ensures t.left.Nil? && t.right.Nil? ==> LeafOf(t) == t && SansLeaf(t) == Nil
  {
  }

  /** Clearing the slot that holds the rightmost leaf leaves the tree without that leaf. */
  lemma {:induction false} SansLeafRep(m: Mem, m': Mem, t: Tree, par: nat, idx: nat)
    requires t.Node? && Rep(m, t, par, idx) && Distinct(t)
    requires forall y | y in Addrs(t) :: ChildRedirected(m, m', y, Root(LeafOf(t)), 0)
    ensures Rep(m', SansLeaf(t), par, idx)
    decreases t
  {
    if t.left.Node? || t.right.Node? {
      var right := t.right.Node?;
      var x := Root(LeafOf(t));
      SansLeafSplit(m, m', t, par, idx);
      SansLeafRep(m, m', Child(t, right), t.ring[0], idx);
      SansLeafJoin(m, m', t, par, idx);
    }
  }

  // The facts about the branch that holds the leaf and about the other one.
  lemma SansLeafSplit(m: Mem, m': Mem, t: Tree, par: nat, idx: nat)
    requires t.Node? && Rep(m, t, par, idx) && Distinct(t) && (t.left.Node? || t.right.Node?)
    requires forall y | y in Addrs(t) :: ChildRedirected(m, m', y, Root(LeafOf(t)), 0)
    ensures var c := Child(t, t.right.Node?);
            && c.Node? && Rep(m, c, t.ring[0], idx) && Distinct(c) && LeafOf(c) == LeafOf(t)
            && forall y | y in Addrs(c) :: ChildRedirected(m, m', y, Root(LeafOf(c)), 0)
  {
  }

  lemma SansLeafJoin(m: Mem, m': Mem, t: Tree, par: nat, idx: nat)
    requires t.Node? && Rep(m, t, par, idx) && Distinct(t) && (t.left.Node? || t.right.Node?)
    requires forall y | y in Addrs(t) :: ChildRedirected(m, m', y, Root(LeafOf(t)), 0)
    requires Rep(m', SansLeaf(Child(t, t.right.Node?)), t.ring[0], idx)
    ensures Rep(m', SansLeaf(t), par, idx)
  {
    var c, o := Child(t, t.right.Node?), Child(t, !t.right.Node?);
    var leaf := LeafOf(c);
    var x := Root(leaf);
    ChildRep(m, t, par, idx, t.right.Node?);
    ChildRep(m, t, par, idx, !t.right.Node?);
    SansLeafAddrs(c);
    SansLeafRoot(c);
    RootIsNull(m, c, t.ring[0], idx);
    RootIsNull(m, o, t.ring[0], idx);
    LeafRep(m, c, t.ring[0], idx);
    assert x in leaf.ring && x in Elems(leaf.ring) && x in Addrs(c) && x != 0;
    assert Root(c) in Addrs(c);
    RedirectFrame(m, m', o, t.ring[0], idx, x, 0);
    RingRedirect(m, m', t.ring, t.size, idx, x, 0);
    assert t.ring[0] in t.ring && t.ring[0] in Addrs(t);
    assert ChildRedirected(m, m', t.ring[0], x, 0);
    assert SansLeaf(t) == WithChild(t, t.right.Node?, SansLeaf(c));
    if c.left.Node? || c.right.Node? {
      assert x != Root(c) by { LeafBelow(c); }
    }
  }

  lemma {:induction false} LeafBelow(t: Tree)
    requires t.Node? && Distinct(t) && (t.left.Node? || t.right.Node?)
    ensures Root(LeafOf(t)) != Root(t)
    decreases t
  {
    var c := if t.right.Node? then t.right else t.left;
    SansLeafAddrs(c);
    assert Root(LeafOf(c)) in LeafOf(c).ring && Root(LeafOf(c)) in Elems(LeafOf(c).ring);
    assert t.ring[0] in t.ring && t.ring[0] in Elems(t.ring);
  }

  /* ---------------- `r` takes the place of `x` ---------------- */

  /** `r` has become the child of `xp` and has taken over the children of `x`. */
  ghost predicate Takeover(m: Mem, m': Mem, ys: set<nat>, x: nat, r: nat, xp: nat) {
    var c0, c1 := Child0(m, x), Child1(m, x);
    forall y | y in ys ::
      && SizeOf(m', y) == SizeOf(m, y) && Index(m', y) == Index(m, y)
      && Fd(m', y) == Fd(m, y) && Bk(m', y) == Bk(m, y)
      && Parent(m', y) == (if y == r then xp else if y == c0 || y == c1 then r else Parent(m, y))
      && Child0(m', y) == (if y == r && c0 != 0 then c0 else Child0(m, y))
      && Child1(m', y) == (if y == r && c1 != 0 then c1 else Child1(m, y))
  }

  /** A subtree whose root gets a new parent. */
  lemma Reparent(m: Mem, m': Mem, t: Tree, par: nat, par': nat, idx: nat)
    requires Rep(m, t, par, idx) && Distinct(t) && par' != 0
    requires forall y | y in Addrs(t) && y != Root(t) :: SameNode(m, m', y)
    requires t.Node? ==> var y := Root(t);
               && SizeOf(m', y) == SizeOf(m, y) && Index(m', y) == Index(m, y)
               && Fd(m', y) == Fd(m, y) && Bk(m', y) == Bk(m, y)
               && Child0(m', y) == Child0(m, y) && Child1(m', y) == Child1(m, y) && Parent(m', y) == par'
    ensures Rep(m', t, par', idx)
  {
    if t.Node? {
      assert t.ring[0] in t.ring && t.ring[0] in Elems(t.ring);
      assert forall y | y in t.ring :: y in Elems(t.ring) && y in Addrs(t);
      RingFrame(m, m', t.ring);
      forall i | 1 <= i < |t.ring| ensures Chained(m', t.ring[i]) {
        assert Chained(m, t.ring[i]) && t.ring[i] in t.ring;
      }
      RepFrame(m, m', t.left, t.ring[0], idx);
      RepFrame(m, m', t.right, t.ring[0], idx);
    }
  }

  lemma TakeoverRing(m: Mem, m': Mem, ys: set<nat>, x: nat, xp: nat, ring: seq<nat>, size: nat, idx: nat)
    requires RingRep(m, ring, size, idx) && NoDup(ring) && Elems(ring) <= ys
    requires Takeover(m, m', ys, x, ring[0], xp)
    requires Child0(m, x) !in ring && Child1(m, x) !in ring
    ensures RingRep(m', ring, size, idx)
  {
    assert forall y | y in ring :: y in Elems(ring) && y in ys;
    RingFrame(m, m', ring);
    forall i | 1 <= i < |ring| ensures Chained(m', ring[i]) {
      assert Chained(m, ring[i]) && ring[i] in ring && ring[i] != ring[0];
    }
  }

  lemma TakeoverChild(m: Mem, m': Mem, ys: set<nat>, x: nat, r: nat, xp: nat, t: Tree, other: nat, idx: nat)
    requires Rep(m, t, x, idx) && Distinct(t) && Addrs(t) <= ys && r !in Addrs(t) && r != 0
    requires Takeover(m, m', ys, x, r, xp)
    requires {Child0(m, x), Child1(m, x)} == {Root(t), other} && other !in Addrs(t)
    ensures Rep(m', t, r, idx)
  {
    RootIsNull(m, t, x, idx);
    forall y | y in Addrs(t) && y != Root(t) ensures SameNode(m, m', y) {
      assert y !in {Root(t), other};
    }
    if t.Node? { assert Root(t) in {Child0(m, x), Child1(m, x)}; }
    Reparent(m, m', t, x, r, idx);
  }

  lemma RootOutside(ring: seq<nat>, t: Tree)
    requires 0 !in ring && Elems(ring) !! Addrs(t) && (Root(t) != 0 ==> Root(t) in Addrs(t))
    ensures Root(t) !in ring
  {
    assert Root(t) in ring <==> Root(t) in Elems(ring);
  }

  lemma TakeoverRep(m: Mem, m': Mem, x: nat, xp: nat, idx: nat, t: Tree)
    requires t.Node? && Distinct(t) && xp != 0
    requires RingRep(m, t.ring, t.size, idx) && Child0(m, t.ring[0]) == 0 && Child1(m, t.ring[0]) == 0
    requires Rep(m, t.left, x, idx) && Rep(m, t.right, x, idx)
    requires Child0(m, x) == Root(t.left) && Child1(m, x) == Root(t.right)
    requires Takeover(m, m', Addrs(t), x, t.ring[0], xp)
    ensures Rep(m', t, xp, idx)
  {
    var r := t.ring[0];
    assert r in t.ring && r in Elems(t.ring);
    RootIsNull(m, t.left, x, idx);
    RootIsNull(m, t.right, x, idx);
    RootOutside(t.ring, t.left);
    RootOutside(t.ring, t.right);
    TakeoverRing(m, m', Addrs(t), x, xp, t.ring, t.size, idx);
    ZeroNotStored(m, t.left, x, idx);
    ZeroNotStored(m, t.right, x, idx);
    TakeoverChild(m, m', Addrs(t), x, r, xp, t.left, Root(t.right), idx);
    TakeoverChild(m, m', Addrs(t), x, r, xp, t.right, Root(t.left), idx);
  }

  lemma {:induction false} ZeroNotStored(m: Mem, t: Tree, par: nat, idx: nat)
    requires Rep(m, t, par, idx)
    ensures 0 !in Addrs(t)
    decreases t
  {
    if t.Node? {
      ZeroNotStored(m, t.left, t.ring[0], idx);
      ZeroNotStored(m, t.right, t.ring[0], idx);
    }
  }

  /* ---------------- the whole tree after a removal ---------------- */

  /** A change inside the subtree of member `x` and in the slot that held `x`. */
  lemma {:induction false} ReplaceRep(m: Mem, m': Mem, t: Tree, par: nat, idx: nat, x: nat)
    requires Rep(m, t, par, idx) && Distinct(t) && x in Members(t)
    requires Rep(m', SansRoot(SubAt(t, x)), Parent(m, x), idx)
    requires forall y | y in Addrs(t) - Addrs(SubAt(t, x)) ::
               ChildRedirected(m, m', y, x, Root(SansRoot(SubAt(t, x))))
    ensures (MembersAreStored(t); Rep(m', RemoveT(t, x), par, idx))
    decreases t
  {
    MembersAreStored(t);
    if x != Root(t) {
      MembersAreStored(t.left); MembersAreStored(t.right);
      var right := x !in Members(t.left);
      var c := Child(t, right);
      ReplaceRep(m, m', c, t.ring[0], idx, x);
      ReplaceJoin(m, m', t, par, idx, x, right);
    }
  }

  lemma ReplaceJoin(m: Mem, m': Mem, t: Tree, par: nat, idx: nat, x: nat, right: bool)
    requires Rep(m, t, par, idx) && Distinct(t) && x in Members(t) && x != Root(t)
    requires right <==> x !in Members(t.left)
    requires forall y | y in Addrs(t) - Addrs(SubAt(t, x)) ::
               ChildRedirected(m, m', y, x, Root(SansRoot(SubAt(t, x))))
    requires var c := Child(t, right);
             x in Members(c) && (MembersAreStored(c); Rep(m', RemoveT(c, x), t.ring[0], idx))
    ensures (MembersAreStored(t); Rep(m', RemoveT(t, x), par, idx))
  {
    assert t.Node?;
    hide Rep, RemoveT, SubAt, SansRoot, Distinct, Members, Addrs, ChildRedirected, Elems, Redirect;
    var c, o := Child(t, right), Child(t, !right);
    HasRing(SubAt(t, x));
    var r := Root(SansRoot(SubAt(t, x)));
    ChildRep(m, t, par, idx, right);
    ChildRep(m, t, par, idx, !right);
    MembersAreStored(t);
    MembersAreStored(c);
    ReplacePlace(m, t, par, idx, x, right);
    RedirectFrame(m, m', o, t.ring[0], idx, x, r);
    ReplaceRing(m, m', t, par, idx, x, r);
    assert ChildRedirected(m, m', t.ring[0], x, r);
    ReplacedNode(m, m', t, par, idx, x, right, r);
  }

  lemma HasRing(t: Tree)
    requires Distinct(t) && t.Node?
    ensures |t.ring| > 0
  {
  }

  /** The nodes outside the subtree whose root is replaced. */
  lemma ReplacePlace(m: Mem, t: Tree, par: nat, idx: nat, x: nat, right: bool)
    requires Rep(m, t, par, idx) && Distinct(t) && x in Members(t) && x != Root(t)
    requires (right <==> x !in Members(t.left)) && x in Members(Child(t, right))
    ensures x != 0 && |t.ring| > 0 && x !in Addrs(Child(t, !right)) && Distinct(Child(t, !right)) && Distinct(Child(t, right))
    ensures Child(t, right).Node? && SubAt(t, x) == SubAt(Child(t, right), x)
    ensures forall y | y in Addrs(Child(t, !right)) || y in t.ring :: y in Addrs(t) - Addrs(SubAt(t, x))
    ensures t.ring[0] in t.ring
  {
    MembersAreStored(t);
    MembersAreStored(t.left);
    MembersAreStored(t.right);
    ZeroNotStored(m, t, par, idx);
    hide Rep, SansRoot;
    assert forall y | y in t.ring :: y in Elems(t.ring);
  }

  lemma ReplaceRing(m: Mem, m': Mem, t: Tree, par: nat, idx: nat, x: nat, r: nat)
    requires t.Node? && Rep(m, t, par, idx) && x != 0 && forall y | y in t.ring :: ChildRedirected(m, m', y, x, r)
    ensures RingRep(m', t.ring, t.size, idx)
  {
    hide ChildRedirected;
    RingRedirect(m, m', t.ring, t.size, idx, x, r);
  }

  lemma ReplacedNode(m: Mem, m': Mem, t: Tree, par: nat, idx: nat, x: nat, right: bool, r: nat)
    requires Rep(m, t, par, idx) && Distinct(t) && x in Members(t) && x != Root(t) && t.Node? && |t.ring| > 0
    requires (right <==> x !in Members(t.left)) && x in Members(Child(t, right)) && Distinct(Child(t, right))
    requires RingRep(m', t.ring, t.size, idx) && Rep(m', Child(t, !right), t.ring[0], idx)
    requires x !in Addrs(Child(t, !right)) && x != 0 && ChildRedirected(m, m', t.ring[0], x, r)
    requires SubAt(t, x) == SubAt(Child(t, right), x) && r == Root(SansRoot(SubAt(t, x)))
    requires (MembersAreStored(Child(t, right)); Rep(m', RemoveT(Child(t, right), x), t.ring[0], idx))
    ensures (MembersAreStored(t); Rep(m', RemoveT(t, x), par, idx))
  {
    hide SubAt, SansRoot, RingRep;
    var c, o := Child(t, right), Child(t, !right);
    MembersAreStored(t);
    MembersAreStored(c);
    MembersAreStored(t.left);
    RemovedIs(t, x, right);
    RootIsNull(m, o, t.ring[0], idx);
    RootIsNull(m, c, t.ring[0], idx);
    RemovedRoot(c, x);
    hide RemoveT, Members, Distinct, Addrs;
  }

  lemma RemovedIs(t: Tree, x: nat, right: bool)
    requires Distinct(t) && x in Members(t) && x != Root(t)
    requires (right <==> x !in Members(t.left)) && x in Members(Child(t, right))
    ensures Distinct(Child(t, right))
    ensures (MembersAreStored(t); MembersAreStored(Child(t, right)); RemoveT(t, x) == WithChild(t, right, RemoveT(Child(t, right), x)))
  {
    hide SansRoot;
    MembersAreStored(t);
    MembersAreStored(t.left);
    MembersAreStored(t.right);
    assert x !in Elems(t.ring);
    assert x !in t.ring;
  }

  lemma RemovedRoot(t: Tree, x: nat)
    requires Distinct(t) && x in Members(t)
    ensures (MembersAreStored(t);
             Root(RemoveT(t, x)) == Redirect(Root(t), x, Root(SansRoot(SubAt(t, x)))))
  {
    MembersAreStored(t); MembersAreStored(t.left); MembersAreStored(t.right);
    if x != Root(t) {
      assert x !in Elems(t.ring);
    }
  }

  /** Taking a chained chunk out of its ring. */
  lemma {:induction false} UnchainRep(m: Mem, m': Mem, t: Tree, par: nat, idx: nat, x: nat)
    requires Rep(m, t, par, idx) && Distinct(t) && x in Addrs(t) && x !in Members(t)
    requires OnlyRelinked(m, m', Addrs(t) - {x})
    requires Bypassed(m, m', Addrs(t) - {x}, Bk(m, x), Fd(m, x))
    ensures Rep(m', RemoveT(t, x), par, idx) && Root(RemoveT(t, x)) == Root(t)
    ensures Fd(m, x) in Addrs(t) && Bk(m, x) in Addrs(t)
    decreases t
  {
    ChildRep(m, t, par, idx, false);
    ChildRep(m, t, par, idx, true);
    if x in t.ring {
      UnchainHere(m, m', t, par, idx, x);
    } else {
      var right := x !in Addrs(t.left);
      var c := Child(t, right);
      UnchainRep(m, m', c, t.ring[0], idx, x);
      UnchainJoin(m, m', t, par, idx, x, right);
    }
  }

  /** The chunks other than `x` keep all fields but fd and bk. */
  ghost predicate OnlyRelinked(m: Mem, m': Mem, ys: set<nat>) {
    forall y | y in ys ::
      && SizeOf(m', y) == SizeOf(m, y) && Index(m', y) == Index(m, y) && Parent(m', y) == Parent(m, y)
      && Child0(m', y) == Child0(m, y) && Child1(m', y) == Child1(m, y)
  }

  lemma UnchainRing(m: Mem, m': Mem, ring: seq<nat>, size: nat, idx: nat, x: nat)
    requires RingRep(m, ring, size, idx) && NoDup(ring) && x in ring && x != ring[0]
    requires OnlyRelinked(m, m', Elems(ring) - {x}) && Bypassed(m, m', Elems(ring) - {x}, Bk(m, x), Fd(m, x))
    ensures RingRep(m', Without(ring, x), size, idx) && Without(ring, x)[0] == ring[0]
    ensures Fd(m, x) in ring && Bk(m, x) in ring
  {
    var k := Position(ring, x);
    var r' := Without(ring, x);
    WithoutElems(ring, x);
    RingRemove(m, m', ring, k);
    forall a | a in r' ensures a != 0 && SizeOf(m', a) == size && Index(m', a) == idx {
      assert a in Elems(r'); assert a in ring;
    }
    forall i | 1 <= i < |r'| ensures Chained(m', r'[i]) {
      var j := if i < k then i else i + 1;
      assert r'[i] == ring[j] && Chained(m, ring[j]) && r'[i] in Elems(r');
    }
    assert LinkedAt(m, ring, k);
  }

  lemma UnchainHere(m: Mem, m': Mem, t: Tree, par: nat, idx: nat, x: nat)
    requires Rep(m, t, par, idx) && Distinct(t) && t.Node? && x in t.ring && x != t.ring[0]
    requires OnlyRelinked(m, m', Addrs(t) - {x}) && Bypassed(m, m', Addrs(t) - {x}, Bk(m, x), Fd(m, x))
    ensures Rep(m', t.(ring := Without(t.ring, x)), par, idx)
    ensures Without(t.ring, x)[0] == t.ring[0]
    ensures Fd(m, x) in Addrs(t) && Bk(m, x) in Addrs(t)
  {
    UnchainRing(m, m', t.ring, t.size, idx, x);
    assert x in Elems(t.ring) && t.ring[0] in Elems(t.ring);
    assert Fd(m, x) in Elems(t.ring) && Bk(m, x) in Elems(t.ring);
    RepFrame(m, m', t.left, t.ring[0], idx);
    RepFrame(m, m', t.right, t.ring[0], idx);
  }

  lemma UnchainJoin(m: Mem, m': Mem, t: Tree, par: nat, idx: nat, x: nat, right: bool)
    requires Rep(m, t, par, idx) && Distinct(t) && t.Node? && x in Addrs(t) && x !in t.ring
    requires right <==> x !in Addrs(t.left)
    requires OnlyRelinked(m, m', Addrs(t) - {x})
    requires Bypassed(m, m', Addrs(t) - {x}, Bk(m, x), Fd(m, x))
    requires var c := Child(t, right);
             && x in Addrs(c) && Fd(m, x) in Addrs(c) && Bk(m, x) in Addrs(c)
             && Rep(m', RemoveT(c, x), t.ring[0], idx) && Root(RemoveT(c, x)) == Root(c)
    ensures Rep(m', RemoveT(t, x), par, idx) && Root(RemoveT(t, x)) == Root(t)
  {
    hide Rep, RingRep, RemoveT, Bypassed, OnlyRelinked, Distinct, Addrs, SameNode, Fd, Bk;
    var c, o := Child(t, right), Child(t, !right);
    ChildRep(m, t, par, idx, right);
    ChildRep(m, t, par, idx, !right);
    UnchainPlace(t, x, right);
    forall y | y in Addrs(o) || y in t.ring ensures SameNode(m, m', y) {
      assert y in Addrs(t) - {x} && y !in Addrs(c);
      NodeUntouched(m, m', Addrs(t) - {x}, Bk(m, x), Fd(m, x), y);
    }
    RepFrame(m, m', o, t.ring[0], idx);
    UnchainedNode(m, m', t, par, idx, right, RemoveT(c, x));
  }

  lemma NodeUntouched(m: Mem, m': Mem, ys: set<nat>, b: nat, f: nat, y: nat)
    requires OnlyRelinked(m, m', ys) && Bypassed(m, m', ys, b, f) && y in ys && y != b && y != f
    ensures SameNode(m, m', y)
  {
    hide SizeOf, Rd;
  }

  /** The other subtree and the ring hold neither `x` nor anything of its subtree. */
  lemma UnchainPlace(t: Tree, x: nat, right: bool)
    requires t.Node? && Distinct(t) && x in Addrs(t) && x !in t.ring && (right <==> x !in Addrs(t.left)) && x in Addrs(Child(t, right))
    ensures Distinct(Child(t, right)) && |t.ring| > 0 && RemoveT(t, x) == WithChild(t, right, RemoveT(Child(t, right), x))
    ensures forall y | y in Addrs(Child(t, !right)) || y in t.ring :: y in Addrs(t) - {x} && y !in Addrs(Child(t, right))
    ensures Root(t) == t.ring[0]
  {
    assert forall y | y in t.ring :: y in Elems(t.ring);
    assert t.ring[0] in t.ring;
    hide SansRoot;
  }

  lemma UnchainedNode(m: Mem, m': Mem, t: Tree, par: nat, idx: nat, right: bool, c: Tree)
    requires t.Node? && |t.ring| > 0 && Rep(m, t, par, idx) && forall y | y in t.ring :: SameNode(m, m', y)
    requires Rep(m', Child(t, !right), t.ring[0], idx) && Rep(m', c, t.ring[0], idx) && Root(c) == Root(Child(t, right))
    ensures Rep(m', WithChild(t, right, c), par, idx) && Root(WithChild(t, right, c)) == Root(t)
  {
    RingRepFrame(m, m', t.ring, t.size, idx);
    assert t.ring[0] in t.ring && SameNode(m, m', t.ring[0]);
    hide RingRep;
  }
}
