/** The tree in one treebin (hagen/src/malloc.c, `malloc_tree_chunk`): a bitwise trie on
    chunk sizes whose nodes are rings of equal-sized chunks. */
module Trie {
  import opened Lists
  import opened Words
  import opened Chunks

  /** `ring[0]` is the tree member, the rest of `ring` its chain in fd order. */
  datatype Tree = Nil | Node(ring: seq<nat>, size: nat, left: Tree, right: Tree)

  function Root(t: Tree): nat {
    if t.Node? && |t.ring| > 0 then t.ring[0] else 0
  }

  ghost function Addrs(t: Tree): set<nat> {
    match t
    case Nil => {}
    case Node(ring, _, l, r) => Elems(ring) + Addrs(l) + Addrs(r)
  }

  /** The tree members: the chunks that the links of the tree lead to. */
  ghost function Heads(t: Tree): set<nat> {
    match t
    case Nil => {}
    case Node(_, _, l, r) => {Root(t)} + Heads(l) + Heads(r)
  }

  ghost function Sizes(t: Tree): set<nat> {
    match t
    case Nil => {}
    case Node(_, size, l, r) => {size} + Sizes(l) + Sizes(r)
  }

  /** Every chunk is listed in one place only. */
  ghost predicate Distinct(t: Tree) {
    match t
    case Nil => true
    case Node(ring, _, l, r) =>
      && |ring| > 0 && NoDup(ring)
      && Elems(ring) !! Addrs(l) && Elems(ring) !! Addrs(r) && Addrs(l) !! Addrs(r)
      && Distinct(l) && Distinct(r)
  }

  /** The trie covers the sizes lo .. lo + 2^k, halved at each level; each size has one node. */
  ghost predicate TrieOk(t: Tree, lo: nat, k: nat) {
    match t
    case Nil => true
    case Node(_, size, l, r) =>
      && lo <= size < lo + Pow2(k)
      && size !in Sizes(l) && size !in Sizes(r)
      && if k == 0 then l.Nil? && r.Nil?
         else TrieOk(l, lo, k - 1) && TrieOk(r, lo + Pow2(k - 1), k - 1)
  }

  lemma {:induction false} SizesInRange(t: Tree, lo: nat, k: nat)
    requires TrieOk(t, lo, k)
    ensures forall x | x in Sizes(t) :: lo <= x < lo + Pow2(k)
  {
    if t.Node? && k > 0 {
      SizesInRange(t.left, lo, k - 1);
      SizesInRange(t.right, lo + Pow2(k - 1), k - 1);
    }
  }

  /* ---------------- one step down the trie ---------------- */

  predicate InRange(s: nat, lo: nat, k: nat) { lo <= s < lo + Pow2(k) }

  /** The direction of size `s` at a node that covers lo .. lo + 2^k. */
  predicate GoRight(s: nat, lo: nat, k: nat) { k > 0 && s >= lo + Pow2(k - 1) }

  function LoBelow(s: nat, lo: nat, k: nat): nat {
    if GoRight(s, lo, k) then lo + Pow2(k - 1) else lo
  }

  function Child(t: Tree, right: bool): Tree
    requires t.Node?
  {
    if right then t.right else t.left
  }

  function WithChild(t: Tree, right: bool, c: Tree): Tree
    requires t.Node?
  {
    if right then t.(right := c) else t.(left := c)
  }

  lemma StepDown(t: Tree, s: nat, lo: nat, k: nat)
    requires t.Node? && TrieOk(t, lo, k) && InRange(s, lo, k) && t.size != s
    ensures k > 0 && InRange(s, LoBelow(s, lo, k), k - 1)
    ensures TrieOk(Child(t, GoRight(s, lo, k)), LoBelow(s, lo, k), k - 1)
  {
  }

  lemma StepUp(t: Tree, s: nat, lo: nat, k: nat, c: Tree)
    requires t.Node? && TrieOk(t, lo, k) && InRange(s, lo, k) && t.size != s && k > 0
    requires TrieOk(c, LoBelow(s, lo, k), k - 1) && Sizes(c) <= Sizes(Child(t, GoRight(s, lo, k))) + {s}
    ensures TrieOk(WithChild(t, GoRight(s, lo, k), c), lo, k)
  {
  }

  /* ---------------- insertion ---------------- */

  function InsertT(t: Tree, x: nat, s: nat, lo: nat, k: nat): Tree
    requires InRange(s, lo, k) && TrieOk(t, lo, k)
    decreases t
  {
    match t
    case Nil => Node([x], s, Nil, Nil)
    case Node(ring, size, l, r) =>
      if size == s then Node((if |ring| > 0 then RingPlus(ring, x) else [x]), size, l, r)
      else
        StepDown(t, s, lo, k);
        var right := GoRight(s, lo, k);
        WithChild(t, right, InsertT(Child(t, right), x, s, LoBelow(s, lo, k), k - 1))
  }

  function RingPlus(ring: seq<nat>, x: nat): seq<nat>
    requires |ring| > 0
  {
    [ring[0], x] + ring[1..]
  }

  lemma RingPlusKeeps(ring: seq<nat>, x: nat)
    requires |ring| > 0 && NoDup(ring) && x !in ring
    ensures NoDup(RingPlus(ring, x)) && Elems(RingPlus(ring, x)) == Elems(ring) + {x}
  {
    var ring' := RingPlus(ring, x);
    NoDupInsert(ring, x);
    forall a ensures a in ring' <==> a in ring || a == x {
      if a in ring { var i :| 0 <= i < |ring| && ring[i] == a; assert ring'[if i == 0 then 0 else i + 1] == a; }
      assert ring'[1] == x;
    }
  }

  lemma {:induction false} InsertTrie(t: Tree, x: nat, s: nat, lo: nat, k: nat)
    requires InRange(s, lo, k) && TrieOk(t, lo, k)
    ensures TrieOk(InsertT(t, x, s, lo, k), lo, k)
    ensures Sizes(InsertT(t, x, s, lo, k)) == Sizes(t) + {s}
    decreases t
  {
    if t.Node? && t.size != s {
      hide TrieOk, InRange, GoRight, LoBelow, InsertT;
      StepDown(t, s, lo, k);
      var c, lo' := Child(t, GoRight(s, lo, k)), LoBelow(s, lo, k);
      InsertBelow(t, x, s, lo, k);
      InsertTrie(c, x, s, lo', k - 1);
      StepUp(t, s, lo, k, InsertT(c, x, s, lo', k - 1));
    }
  }

  lemma {:induction false} InsertAddrs(t: Tree, x: nat, s: nat, lo: nat, k: nat)
    requires InRange(s, lo, k) && TrieOk(t, lo, k) && Distinct(t) && x !in Addrs(t)
    ensures Distinct(InsertT(t, x, s, lo, k))
    ensures Addrs(InsertT(t, x, s, lo, k)) == Addrs(t) + {x}
    ensures Root(InsertT(t, x, s, lo, k)) == if t.Nil? then x else Root(t)
    decreases t
  {
    hide TrieOk, InRange, GoRight, LoBelow, InsertT;
    if t.Nil? || t.size == s {
      InsertHere(t, x, s, lo, k);
    } else {
      StepDown(t, s, lo, k);
      var right := GoRight(s, lo, k);
      var c' := InsertT(Child(t, right), x, s, LoBelow(s, lo, k), k - 1);
      InsertBelow(t, x, s, lo, k);
      ChildParts(t, right);
      hide Addrs, Distinct;
      InsertAddrs(Child(t, right), x, s, LoBelow(s, lo, k), k - 1);
      GrownChild(t, right, c', x);
    }
  }

  lemma InsertHere(t: Tree, x: nat, s: nat, lo: nat, k: nat)
    requires InRange(s, lo, k) && TrieOk(t, lo, k) && Distinct(t) && x !in Addrs(t) && (t.Nil? || t.size == s)
    ensures Distinct(InsertT(t, x, s, lo, k)) && Addrs(InsertT(t, x, s, lo, k)) == Addrs(t) + {x}
    ensures Root(InsertT(t, x, s, lo, k)) == if t.Nil? then x else Root(t)
  {
    hide TrieOk, InRange;
    if t.Node? { RingPlusKeeps(t.ring, x); }
  }

  lemma InsertBelow(t: Tree, x: nat, s: nat, lo: nat, k: nat)
    requires t.Node? && InRange(s, lo, k) && TrieOk(t, lo, k) && t.size != s
    ensures (StepDown(t, s, lo, k);
             InsertT(t, x, s, lo, k)
             == WithChild(t, GoRight(s, lo, k), InsertT(Child(t, GoRight(s, lo, k)), x, s, LoBelow(s, lo, k), k - 1)))
  {
    hide TrieOk, InRange, GoRight, LoBelow;
  }

  lemma ChildParts(t: Tree, right: bool)
    requires t.Node? && Distinct(t)
    ensures Distinct(Child(t, right)) && Addrs(Child(t, right)) <= Addrs(t)
  {
  }

  lemma GrownChild(t: Tree, right: bool, c: Tree, x: nat)
    requires t.Node? && Distinct(t) && x !in Addrs(t) && Distinct(c) && Addrs(c) == Addrs(Child(t, right)) + {x}
    ensures Distinct(WithChild(t, right, c)) && Addrs(WithChild(t, right, c)) == Addrs(t) + {x}
    ensures Root(WithChild(t, right, c)) == Root(t)
  {
  }

  /* ---------------- removal ---------------- */

  /** What is left of a tree without its rightmost leaf, and that leaf. */
  function LeafOf(t: Tree): (leaf: Tree)
    requires t.Node?
    ensures leaf.Node?
  {
    if t.right.Node? then LeafOf(t.right) else if t.left.Node? then LeafOf(t.left) else t
  }

  function SansLeaf(t: Tree): Tree
    requires t.Node?
  {
    if t.right.Node? then t.(right := SansLeaf(t.right))
    else if t.left.Node? then t.(left := SansLeaf(t.left))
    else Nil
  }

  /** The tree without its own tree member: the next chunk of the ring steps in, or a leaf
      with its whole ring, or nothing. */
  function SansRoot(t: Tree): Tree
    requires t.Node? && |t.ring| > 0
  {
    var n := |t.ring|;
    if n > 1 then t.(ring := [t.ring[n - 1]] + t.ring[1..n - 1])
    else if t.right.Node? then
      var leaf := LeafOf(t.right); Node(leaf.ring, leaf.size, t.left, SansLeaf(t.right))
    else if t.left.Node? then
      var leaf := LeafOf(t.left); Node(leaf.ring, leaf.size, SansLeaf(t.left), t.right)
    else Nil
  }

  ghost function Position(r: seq<nat>, x: nat): (i: nat)
    requires x in r
    ensures i < |r| && r[i] == x
  {
    var i :| 0 <= i < |r| && r[i] == x; i
  }

  ghost function Without(r: seq<nat>, x: nat): seq<nat>
    requires x in r
  {
    r[..Position(r, x)] + r[Position(r, x) + 1..]
  }

  ghost function RemoveT(t: Tree, x: nat): Tree
    requires Distinct(t) && x in Addrs(t)
  {
    if x == t.ring[0] then SansRoot(t)
    else if x in t.ring then t.(ring := Without(t.ring, x))
    else if x in Addrs(t.left) then t.(left := RemoveT(t.left, x))
    else t.(right := RemoveT(t.right, x))
  }

  lemma {:induction false} SansLeafTrie(t: Tree, lo: nat, k: nat)
    requires t.Node? && TrieOk(t, lo, k)
    ensures TrieOk(SansLeaf(t), lo, k)
    ensures LeafOf(t).size !in Sizes(SansLeaf(t)) && Sizes(t) == Sizes(SansLeaf(t)) + {LeafOf(t).size}
    decreases t
  {
    if t.right.Node? {
      SansLeafTrie(t.right, lo + Pow2(k - 1), k - 1);
      SizesInRange(t.left, lo, k - 1);
      SizesInRange(t.right, lo + Pow2(k - 1), k - 1);
    } else if t.left.Node? {
      SansLeafTrie(t.left, lo, k - 1);
    }
  }

  lemma {:induction false} SansLeafAddrs(t: Tree)
    requires t.Node? && Distinct(t)
    ensures Distinct(SansLeaf(t))
    ensures |LeafOf(t).ring| > 0 && NoDup(LeafOf(t).ring)
    ensures Elems(LeafOf(t).ring) !! Addrs(SansLeaf(t))
    ensures Addrs(t) == Addrs(SansLeaf(t)) + Elems(LeafOf(t).ring)
    decreases t
  {
    if t.right.Node? {
      SansLeafAddrs(t.right);
    } else if t.left.Node? {
      SansLeafAddrs(t.left);
    }
  }

  lemma SansRootTrie(t: Tree, lo: nat, k: nat)
    requires t.Node? && |t.ring| > 0 && TrieOk(t, lo, k)
    ensures TrieOk(SansRoot(t), lo, k) && Sizes(SansRoot(t)) <= Sizes(t)
  {
    if |t.ring| > 1 {
    } else if t.right.Node? {
      SansLeafTrie(t.right, lo + Pow2(k - 1), k - 1);
      SizesInRange(t.left, lo, k - 1);
      SizesInRange(t.right, lo + Pow2(k - 1), k - 1);
    } else if t.left.Node? {
      SansLeafTrie(t.left, lo, k - 1);
      SizesInRange(t.left, lo, k - 1);
    }
  }

  lemma {:induction false} RemoveTrie(t: Tree, x: nat, lo: nat, k: nat)
    requires Distinct(t) && x in Addrs(t) && TrieOk(t, lo, k)
    ensures TrieOk(RemoveT(t, x), lo, k) && Sizes(RemoveT(t, x)) <= Sizes(t)
    decreases t
  {
    if x == t.ring[0] {
      SansRootTrie(t, lo, k);
    } else if x in t.ring {
    } else if x in Addrs(t.left) {
      RemoveTrie(t.left, x, lo, k - 1);
    } else {
      RemoveTrie(t.right, x, lo + Pow2(k - 1), k - 1);
    }
  }

  lemma RotateElems(r: seq<nat>)
    requires |r| > 1 && NoDup(r)
    ensures var r' := [r[|r| - 1]] + r[1..|r| - 1]; NoDup(r') && Elems(r') == Elems(r) - {r[0]}
  {
    var n := |r|;
    var r' := [r[n - 1]] + r[1..n - 1];
    forall a ensures a in r' <==> a in r && a != r[0] {
      if a in r && a != r[0] {
        var i :| 0 <= i < n && r[i] == a;
        assert r'[if i == n - 1 then 0 else i] == a;
      }
      if a in r' { var i :| 0 <= i < n - 1 && r'[i] == a; assert a == r[if i == 0 then n - 1 else i]; }
    }
  }

  lemma WithoutElems(r: seq<nat>, x: nat)
    requires NoDup(r) && x in r
    ensures NoDup(Without(r, x)) && Elems(Without(r, x)) == Elems(r) - {x}
    ensures r[0] != x ==> |Without(r, x)| > 0 && Without(r, x)[0] == r[0]
  {
    var k := Position(r, x);
    var r' := Without(r, x);
    forall a ensures a in r' <==> a in r && a != x {
      if a in r && a != x {
        var i :| 0 <= i < |r| && r[i] == a;
        assert r'[if i < k then i else i - 1] == a;
      }
      if a in r' { var i :| 0 <= i < |r'| && r'[i] == a; assert a == r[if i < k then i else i + 1]; }
    }
  }

  lemma LeafAsRoot(t: Tree, u: Tree, leaf: Tree)
    requires t.Node? && |t.ring| == 1 && leaf.Node?
    requires Distinct(u) && |leaf.ring| > 0 && NoDup(leaf.ring) && Elems(leaf.ring) !! Addrs(u)
    ensures Distinct(t) && Distinct(u) && t.right.Node? && Addrs(t.right) == Addrs(u) + Elems(leaf.ring) ==>
              var t' := Node(leaf.ring, leaf.size, t.left, u);
              Distinct(t') && Addrs(t') == Addrs(t) - {t.ring[0]}
    ensures Distinct(t) && Distinct(u) && t.left.Node? && Addrs(t.left) == Addrs(u) + Elems(leaf.ring) ==>
              var t' := Node(leaf.ring, leaf.size, u, t.right);
              Distinct(t') && Addrs(t') == Addrs(t) - {t.ring[0]}
  {
    assert Elems(t.ring) == {t.ring[0]};
  }

  lemma SansRootAddrs(t: Tree)
    requires t.Node? && Distinct(t)
    ensures Distinct(SansRoot(t)) && Addrs(SansRoot(t)) == Addrs(t) - {t.ring[0]}
  {
    hide LeafOf, SansLeaf;
    if |t.ring| > 1 {
      SansFirst(t);
    } else if t.right.Node? {
      SansLeafAddrs(t.right);
      LeafAsRoot(t, SansLeaf(t.right), LeafOf(t.right));
    } else if t.left.Node? {
      SansLeafAddrs(t.left);
      LeafAsRoot(t, SansLeaf(t.left), LeafOf(t.left));
    } else {
      assert Elems(t.ring) == {t.ring[0]};
    }
  }

  lemma SansFirst(t: Tree)
    requires t.Node? && Distinct(t) && |t.ring| > 1
    ensures Distinct(SansRoot(t)) && Addrs(SansRoot(t)) == Addrs(t) - {t.ring[0]}
  {
    hide LeafOf, SansLeaf;
    RotateElems(t.ring);
    assert t.ring[0] in t.ring && t.ring[0] in Elems(t.ring);
  }

  lemma {:induction false} RemoveAddrs(t: Tree, x: nat)
    requires Distinct(t) && x in Addrs(t)
    ensures Distinct(RemoveT(t, x)) && Addrs(RemoveT(t, x)) == Addrs(t) - {x}
    decreases t
  {
    if x == t.ring[0] {
      SansRootAddrs(t);
    } else if x in t.ring {
      WithoutElems(t.ring, x);
    } else if x in Addrs(t.left) {
      RemoveAddrs(t.left, x);
    } else {
      RemoveAddrs(t.right, x);
    }
  }
}
