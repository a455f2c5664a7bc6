/** Chunk words in memory (hagen/src/malloc.c, `malloc_chunk` and `malloc_tree_chunk`)
    and the circular fd/bk lists that thread them.  A chunk is named by the address of
    its first word. */
module Chunks {
  import opened Lists
  import opened Words

  function Foot(m: Mem, p: nat): nat { Rd(m, p) }        // prev_foot
  function Head(m: Mem, p: nat): nat { Rd(m, p + 8) }
  function Fd(m: Mem, p: nat): nat { Rd(m, p + 16) }
  function Bk(m: Mem, p: nat): nat { Rd(m, p + 24) }
  function Child0(m: Mem, p: nat): nat { Rd(m, p + 32) }
  function Child1(m: Mem, p: nat): nat { Rd(m, p + 40) }
  function Parent(m: Mem, p: nat): nat { Rd(m, p + 48) }
  function Index(m: Mem, p: nat): nat { Rd(m, p + 56) }

  /** `chunksize(p)`: the head word without its three flag bits. */
  function SizeOf(m: Mem, p: nat): nat { Head(m, p) - Head(m, p) % 8 }

  // The flag bits sit in the low three bits of the head word.
  predicate Pinuse(m: Mem, p: nat) { Head(m, p) % 8 % 2 == 1 }
  predicate Cinuse(m: Mem, p: nat) { Head(m, p) % 8 / 2 % 2 == 1 }
  predicate FlagsOk(m: Mem, p: nat) { Head(m, p) % 8 <= 3 }

  predicate Aligned(a: nat) { a % 16 == 0 }

  const MIN_CHUNK: nat := 32

  /** Chunks in `s` begin at least `gap` bytes apart. */
  ghost predicate Spaced(s: set<nat>, gap: nat) {
    forall a, b | a in s && b in s && a < b :: a + gap <= b
  }

  /* ---------------- circular lists ---------------- */

  function NextIn(r: seq<nat>, i: nat): nat
    requires i < |r|
  {
    if i + 1 < |r| then r[i + 1] else r[0]
  }

  function PrevIn(r: seq<nat>, i: nat): nat
    requires i < |r|
  {
    if i > 0 then r[i - 1] else r[|r| - 1]
  }

  ghost predicate LinkedAt(m: Mem, r: seq<nat>, i: nat)
    requires i < |r|
  {
    Fd(m, r[i]) == NextIn(r, i) && Bk(m, r[i]) == PrevIn(r, i)
  }

  /** fd leads once round `r` in order, and bk leads back. */
  ghost predicate RingOk(m: Mem, r: seq<nat>) {
    |r| > 0 && forall i | 0 <= i < |r| :: LinkedAt(m, r, i)
  }

  /** `p` has been linked in between `a` and `f`, seen by the chunks in `s`. */
  ghost predicate LinkedIn(m: Mem, m': Mem, s: set<nat>, a: nat, f: nat, p: nat) {
    && Fd(m', p) == f && Bk(m', p) == a
    && forall y | y in s ::
         && Fd(m', y) == (if y == a then p else Fd(m, y))
         && Bk(m', y) == (if y == f then p else Bk(m, y))
  }

  /** The node between `b` and `f` has been passed over, seen by the chunks in `s`. */
  ghost predicate Bypassed(m: Mem, m': Mem, s: set<nat>, b: nat, f: nat) {
    forall y | y in s ::
      && Fd(m', y) == (if y == b then f else Fd(m, y))
      && Bk(m', y) == (if y == f then b else Bk(m, y))
  }

  lemma RingFrame(m: Mem, m': Mem, r: seq<nat>)
    requires RingOk(m, r)
    requires forall a | a in r :: Fd(m', a) == Fd(m, a) && Bk(m', a) == Bk(m, a)
    ensures RingOk(m', r)
  {
    forall i | 0 <= i < |r| ensures LinkedAt(m', r, i) { assert LinkedAt(m, r, i); }
  }

  lemma NoDupInsert(r: seq<nat>, p: nat)
    requires NoDup(r) && |r| > 0 && p !in r
    ensures NoDup([r[0], p] + r[1..])
  {
    var r' := [r[0], p] + r[1..];
    assert forall i | 2 <= i < |r'| :: r'[i] == r[i - 1];
  }

  lemma RingInsert(m: Mem, m': Mem, r: seq<nat>, p: nat)
    requires RingOk(m, r) && NoDup(r) && p !in r
    requires LinkedIn(m, m', Elems(r), r[0], Fd(m, r[0]), p)
    ensures RingOk(m', [r[0], p] + r[1..]) && NoDup([r[0], p] + r[1..])
  {
    NoDupInsert(r, p);
    assert Fd(m, r[0]) == NextIn(r, 0) by { assert LinkedAt(m, r, 0); }
    hide Rd;
    var r' := [r[0], p] + r[1..];
    forall i | 0 <= i < |r'| ensures LinkedAt(m', r', i) {
      if i >= 2 { assert r'[i] == r[i - 1] && r[i - 1] in Elems(r); }
      assert r[0] in Elems(r);
      if i != 1 { assert LinkedAt(m, r, if i == 0 then 0 else i - 1); }
    }
  }

  /** Taking out the node at position k > 0. */
  lemma RingRemove(m: Mem, m': Mem, r: seq<nat>, k: nat)
    requires RingOk(m, r) && NoDup(r) && 0 < k < |r|
    requires Bypassed(m, m', Elems(r) - {r[k]}, Bk(m, r[k]), Fd(m, r[k]))
    ensures RingOk(m', r[..k] + r[k + 1..]) && NoDup(r[..k] + r[k + 1..])
  {
    assert LinkedAt(m, r, k);
    hide Rd;
    var r' := r[..k] + r[k + 1..];
    forall i | 0 <= i < |r'| ensures LinkedAt(m', r', i) { RingRemoveAt(m, m', r, k, i); }
    forall i, j | 0 <= i < j < |r'| ensures r'[i] != r'[j] {
      assert r'[i] == r[if i < k then i else i + 1] && r'[j] == r[if j < k then j else j + 1];
    }
  }

  lemma RingRemoveAt(m: Mem, m': Mem, r: seq<nat>, k: nat, i: nat)
    requires RingOk(m, r) && NoDup(r) && 0 < k < |r| && i < |r| - 1
    requires Bypassed(m, m', Elems(r) - {r[k]}, Bk(m, r[k]), Fd(m, r[k]))
    ensures LinkedAt(m', r[..k] + r[k + 1..], i)
  {
    hide Rd;
    var r' := r[..k] + r[k + 1..];
    var j := if i < k then i else i + 1;
    assert LinkedAt(m, r, k) && LinkedAt(m, r, j);
    assert r'[i] == r[j] && r[j] in Elems(r) - {r[k]};
    assert NextIn(r', i) == if j + 1 == k then NextIn(r, k) else NextIn(r, j);
    assert PrevIn(r', i) == if j == (if k + 1 < |r| then k + 1 else 0) then r[k - 1] else PrevIn(r, j);
  }

  /** Taking out the first node: the list read from its last node, as
      `unlink_large_chunk` does when a chain loses its tree member. */
  lemma RingRemoveFirst(m: Mem, m': Mem, r: seq<nat>)
    requires RingOk(m, r) && NoDup(r) && |r| > 1
    requires Bypassed(m, m', Elems(r) - {r[0]}, Bk(m, r[0]), Fd(m, r[0]))
    ensures Bk(m, r[0]) == r[|r| - 1]
    ensures RingOk(m', [r[|r| - 1]] + r[1..|r| - 1]) && NoDup([r[|r| - 1]] + r[1..|r| - 1])
  {
    assert LinkedAt(m, r, 0);
    var n := |r|;
    var turned := [r[n - 1]] + r[..n - 1];
    Turned(m, r);
    hide RingOk, NoDup, Rd;
    RingRemove(m, m', turned, 1);
    assert turned[..1] + turned[2..] == [r[n - 1]] + r[1..n - 1];
  }

  /** The same ring, seen from its last member. */
  lemma Turned(m: Mem, r: seq<nat>)
    requires RingOk(m, r) && NoDup(r) && |r| > 1
    ensures var t := [r[|r| - 1]] + r[..|r| - 1]; RingOk(m, t) && NoDup(t) && Elems(t) == Elems(r) && t[1] == r[0]
  {
    hide Rd;
    var n := |r|;
    var t := [r[n - 1]] + r[..n - 1];
    forall i | 0 <= i < n ensures LinkedAt(m, t, i) {
      var j := if i == 0 then n - 1 else i - 1;
      assert LinkedAt(m, r, j);
      assert t[i] == r[j];
      assert t[if i + 1 < n then i + 1 else 0] == r[if j + 1 < n then j + 1 else 0];
      assert t[if i == 0 then n - 1 else i - 1] == r[if j == 0 then n - 1 else j - 1];
    }
    forall a ensures a in t <==> a in r {
      if a in r { var j :| 0 <= j < n && r[j] == a; assert t[if j == n - 1 then 0 else j + 1] == a; }
    }
  }
}
