/** The extent tree as the ext4 format writes it (include/extfs.h:234-265): every field little-endian, in
    the order of the packed structures.  Reading such a node gives back what was written. */
module ExtentCodec {
  import opened Extents

  /** `v` in n bytes, the low one first. */
  function Le(n: nat, v: nat): (s: seq<byte>)
    ensures |s| == n
  {
    if n == 0 then [] else [v % 256] + Le(n - 1, v / 256)
  }

  function Head(ents: nat, maxEnts: nat, depth: nat, gen: nat): (s: seq<byte>)
    ensures |s| == 12
  {
    Le(2, 0xf30a) + Le(2, ents) + Le(2, maxEnts) + Le(2, depth) + Le(4, gen)
  }

  function LeafBytes(e: Extent): (s: seq<byte>)
    ensures |s| == 12
  {
    Le(4, e.fileBlk) + Le(2, e.num) + Le(2, e.blk / 0x1_0000_0000) + Le(4, e.blk % 0x1_0000_0000)
  }

  /** What the fields of a leaf entry can hold. */
  predicate Fits(e: Extent) { e.num < 0x1_0000 && e.blk < 0x1_0000_0000_0000 && e.fileBlk < 0x1_0000_0000 }

  function IndexBytes(key: nat, child: nat, unused: nat): (s: seq<byte>)
    ensures |s| == 12
  {
    Le(4, key) + Le(4, child % 0x1_0000_0000) + Le(2, child / 0x1_0000_0000) + Le(2, unused)
  }

  predicate AllRows(rows: seq<seq<byte>>) { forall i | 0 <= i < |rows| :: |rows[i]| == 12 }

  /** The entries behind the head. */
  function Joined(rows: seq<seq<byte>>): (s: seq<byte>)
    requires AllRows(rows)
    ensures |s| == 12 * |rows|
  {
    if rows == [] then [] else Joined(rows[..|rows| - 1]) + rows[|rows| - 1]
  }

  function LeafRows(es: seq<Extent>): (r: seq<seq<byte>>)
    ensures |r| == |es| && AllRows(r) && forall i | 0 <= i < |r| :: r[i] == LeafBytes(es[i])
  {
    seq(|es|, i requires 0 <= i < |es| => LeafBytes(es[i]))
  }

  /* ---------------- single fields ---------------- */

  lemma Le2(v: nat)
    requires v < 0x1_0000
    ensures Le(2, v) == [v % 256, v / 256]
  {
    assert Le(1, v / 256) == [v / 256 % 256] + Le(0, v / 256 / 256);
  }

  lemma Le4(v: nat)
    requires v < 0x1_0000_0000
    ensures Le(4, v) == Le(2, v % 0x1_0000) + Le(2, v / 0x1_0000)
  {
    var b := v / 256;
    Le2(v % 0x1_0000);
    Le2(v / 0x1_0000);
    assert Le(4, v) == [v % 256] + Le(3, b);
    assert Le(3, b) == [b % 256] + Le(2, b / 256);
    Parts(v);
  }

  lemma Parts(v: nat)
    ensures v % 0x1_0000 % 256 == v % 256 && v % 0x1_0000 / 256 == v / 256 % 256 && v / 256 / 256 == v / 0x1_0000
  {
  }

  /** The bytes of `x` stand in `s` from p on. */
  ghost predicate Stands(s: seq<byte>, p: nat, x: seq<byte>) {
    p + |x| <= |s| && forall i: nat | i < |x| :: s[p + i] == x[i]
  }

  lemma ReadU16(s: seq<byte>, p: nat, v: nat)
    requires v < 0x1_0000 && Stands(s, p, Le(2, v))
    ensures U16(s, p) == v
  {
    Le2(v);
    assert s[p + 0] == Le(2, v)[0] && s[p + 1] == Le(2, v)[1];
  }

  lemma ReadU32(s: seq<byte>, p: nat, v: nat)
    requires v < 0x1_0000_0000 && Stands(s, p, Le(4, v))
    ensures U32(s, p) == v
  {
    hide U16, Le;
    var lo, hi := v % 0x1_0000, v / 0x1_0000;
    Le4(v);
    StandsApart(s, p, Le(2, lo), Le(2, hi));
    ReadU16(s, p, lo);
    ReadU16(s, p + 2, hi);
  }

  lemma StandsApart(s: seq<byte>, p: nat, x: seq<byte>, y: seq<byte>)
    requires Stands(s, p, x + y)
    ensures Stands(s, p, x) && Stands(s, p + |x|, y)
  {
    forall i: nat | i < |x| ensures s[p + i] == x[i] { assert (x + y)[i] == x[i]; }
    forall i: nat | i < |y| ensures s[p + |x| + i] == y[i] { assert s[p + (|x| + i)] == (x + y)[|x| + i]; }
  }

  lemma StandsFrom(s: seq<byte>, p: nat, x: seq<byte>, q: nat, y: seq<byte>)
    requires Stands(s, p, x) && Stands(x, q, y)
    ensures Stands(s, p + q, y)
  {
    forall i: nat | i < |y| ensures s[p + q + i] == y[i] { assert s[p + (q + i)] == x[q + i]; }
  }

  lemma StandsAt(x: seq<byte>, y: seq<byte>, z: seq<byte>)
    ensures Stands(x + y + z, |x|, y)
  {
    forall i: nat | i < |y| ensures (x + y + z)[|x| + i] == y[i] {}
  }

  /* ---------------- heads and entries ---------------- */

  /** The head gives back the fields that the code reads. */
  lemma HeadBack(node: seq<byte>, ents: nat, maxEnts: nat, depth: nat, gen: nat)
    requires ents < 0x1_0000 && maxEnts < 0x1_0000 && depth < 0x1_0000 && gen < 0x1_0000_0000
    requires Stands(node, 0, Head(ents, maxEnts, depth, gen))
    ensures |node| >= HEAD_SIZE && Magic(node) == MAGIC && Ents(node) == ents && Depth(node) == depth
    ensures U16(node, 4) == maxEnts && U32(node, 8) == gen
  {
    hide Le, U16, U32;
    var a, b, c, e, f := Le(2, 0xf30a), Le(2, ents), Le(2, maxEnts), Le(2, depth), Le(4, gen);
    StandsApart(node, 0, a + b + c + e, f);
    StandsApart(node, 0, a + b + c, e);
    StandsApart(node, 0, a + b, c);
    StandsApart(node, 0, a, b);
    ReadU16(node, 0, 0xf30a);
    ReadU16(node, 2, ents);
    ReadU16(node, 4, maxEnts);
    ReadU16(node, 6, depth);
    ReadU32(node, 8, gen);
  }

  lemma Halves(v: nat)
    ensures v == v % 0x1_0000_0000 + 0x1_0000_0000 * (v / 0x1_0000_0000)
    ensures v < 0x1_0000_0000_0000 ==> v / 0x1_0000_0000 < 0x1_0000
  {
  }

  /** A leaf entry gives back its extent. */
  lemma LeafBack(node: seq<byte>, k: nat, e: Extent)
    requires Whole(node) && k < Ents(node) && Fits(e) && Stands(node, HEAD_SIZE + ENTRY_SIZE * k, LeafBytes(e))
    ensures LeafEntry(node, k) == e
  {
    hide Le, U16, U32, Ents;
    var p := HEAD_SIZE + ENTRY_SIZE * k;
    var a, b, c, f := Le(4, e.fileBlk), Le(2, e.num), Le(2, e.blk / 0x1_0000_0000), Le(4, e.blk % 0x1_0000_0000);
    StandsApart(node, p, a + b + c, f);
    StandsApart(node, p, a + b, c);
    StandsApart(node, p, a, b);
    Halves(e.blk);
    ReadU32(node, p, e.fileBlk);
    ReadU16(node, p + 4, e.num);
    ReadU16(node, p + 6, e.blk / 0x1_0000_0000);
    ReadU32(node, p + 8, e.blk % 0x1_0000_0000);
  }

  /** An index entry gives back its key and its child's block. */
  lemma IndexBack(node: seq<byte>, k: nat, key: nat, child: nat, unused: nat)
    requires Whole(node) && k < Ents(node) && key < 0x1_0000_0000 && child < 0x1_0000_0000_0000
    requires Stands(node, HEAD_SIZE + ENTRY_SIZE * k, IndexBytes(key, child, unused))
    ensures Key(node, k) == key && ChildBlock(node, k) == child
  {
    hide Le, U16, U32, Ents;
    var p := HEAD_SIZE + ENTRY_SIZE * k;
    var a, b, c, f := Le(4, key), Le(4, child % 0x1_0000_0000), Le(2, child / 0x1_0000_0000), Le(2, unused);
    StandsApart(node, p, a + b + c, f);
    StandsApart(node, p, a + b, c);
    StandsApart(node, p, a, b);
    Halves(child);
    ReadU32(node, p, key);
    ReadU32(node, p + 4, child % 0x1_0000_0000);
    ReadU16(node, p + 8, child / 0x1_0000_0000);
  }

  /* ---------------- whole trees ---------------- */

  /** An extent tree: leaves, inner nodes with the disk block of each child, and children whose block
      holds no node. */
  datatype Node =
    | Leaf(maxEnts: nat, gen: nat, es: seq<Extent>)
    | Inner(maxEnts: nat, gen: nat, kids: seq<Kid>)
    | Alien
  datatype Kid = Kid(key: nat, at: nat, unused: nat, node: Node)

  function KidRows(kids: seq<Kid>): (r: seq<seq<byte>>)
    ensures |r| == |kids| && AllRows(r)
    ensures forall i | 0 <= i < |r| :: r[i] == IndexBytes(kids[i].key, kids[i].at, kids[i].unused)
  {
    seq(|kids|, i requires 0 <= i < |kids| => IndexBytes(kids[i].key, kids[i].at, kids[i].unused))
  }

  /** The bytes of a node. */
  function Encoded(t: Node, depth: nat): seq<byte> {
    match t
    case Leaf(maxEnts, gen, es) => Head(|es|, maxEnts, 0, gen) + Joined(LeafRows(es))
    case Inner(maxEnts, gen, kids) => Head(|kids|, maxEnts, depth, gen) + Joined(KidRows(kids))
    case Alien => []
  }

  predicate SizedHead(n: nat, maxEnts: nat, depth: nat, gen: nat) {
    n < 0x1_0000 && maxEnts < 0x1_0000 && depth < 0x1_0000 && gen < 0x1_0000_0000
  }

  /** `node` begins with the tree's root, and every child's node begins its block of the disk. */
  ghost predicate Stored(d: Disk, node: seq<byte>, t: Node, depth: nat)
    decreases t
  {
    match t
    case Leaf(maxEnts, gen, es) =>
      depth == 0 && SizedHead(|es|, maxEnts, 0, gen) && (forall e | e in es :: Fits(e)) && Stands(node, 0, Encoded(t, 0))
    case Inner(maxEnts, gen, kids) =>
      && depth > 0 && SizedHead(|kids|, maxEnts, depth, gen) && Stands(node, 0, Encoded(t, depth))
      && forall k: nat | k < |kids| :: KidFits(kids[k]) && KidStored(d, kids[k], depth - 1)
    case Alien => false
  }

  predicate KidFits(kid: Kid) { kid.key < 0x1_0000_0000 && kid.at < 0x1_0000_0000_0000 && kid.unused < 0x1_0000 }

  ghost predicate KidStored(d: Disk, kid: Kid, depth: nat)
    decreases kid, 0
  {
    && d.HasNode(kid.at)
    && if kid.node.Alien? then Magic(d.NodeAt(kid.at)) != MAGIC else Stored(d, d.NodeAt(kid.at), kid.node, depth)
  }

  /** The extents of a tree from left to right. */
  function Flat(t: Node): seq<Extent>
    decreases t, 1, 0
  {
    match t
    case Leaf(_, _, es) => es
    case Inner(_, _, kids) => FlatKids(t, |kids|)
    case Alien => []
  }

  function FlatKids(t: Node, n: nat): seq<Extent>
    requires t.Inner? && n <= |t.kids|
    decreases t, 0, n
  {
    if n == 0 then [] else FlatKids(t, n - 1) + Flat(t.kids[n - 1].node)
  }

  lemma {:induction false} RowAt(rows: seq<seq<byte>>, k: nat)
    requires AllRows(rows) && k < |rows|
    ensures Stands(Joined(rows), 12 * k, rows[k])
    decreases |rows|
  {
    var n := |rows|;
    var front, last := Joined(rows[..n - 1]), rows[n - 1];
    assert Joined(rows) == front + last;
    if k == n - 1 {
      StandsAt(front, last, []);
      assert front + last + [] == front + last;
    } else {
      RowAt(rows[..n - 1], k);
      hide Joined;
      StandsAt([], front, last);
      assert [] + front + last == front + last;
      StandsFrom(front + last, 0, front, 12 * k, rows[k]);
    }
  }

  lemma HeadAndRows(node: seq<byte>, ents: nat, maxEnts: nat, depth: nat, gen: nat, rows: seq<byte>)
    requires SizedHead(ents, maxEnts, depth, gen) && |rows| == 12 * ents && Stands(node, 0, Head(ents, maxEnts, depth, gen) + rows)
    ensures Whole(node) && Magic(node) == MAGIC && Ents(node) == ents && Depth(node) == depth && Stands(node, HEAD_SIZE, rows)
  {
    hide Head, Magic, Ents, Depth, U16, U32;
    StandsApart(node, 0, Head(ents, maxEnts, depth, gen), rows);
    HeadBack(node, ents, maxEnts, depth, gen);
  }

  /** A leaf that was written from a list of extents is parsed to that list. */
  lemma LeafNodeBack(d: Disk, node: seq<byte>, t: Node)
    requires t.Leaf? && Stored(d, node, t, 0)
    ensures Readable(d, node, 0) && Magic(node) == MAGIC && Leaves(d, node, 0) == t.es
  {
    hide Head, LeafBytes, LeafRows, Joined, Magic, Ents, Depth, Fits;
    HeadAndRows(node, |t.es|, t.maxEnts, 0, t.gen, Joined(LeafRows(t.es)));
    assert Readable(d, node, 0);
    LeafRunAt(node, |t.es|);
    hide LeafRun, Readable, LeafEntry;
    forall k: nat | k < |t.es| ensures LeafEntry(node, k) == t.es[k] { LeafEntryIs(node, t.es, k); }
    assert Leaves(d, node, 0) == LeafRun(node, |t.es|);
    assert LeafRun(node, |t.es|) == t.es;
  }

  lemma LeafEntryIs(node: seq<byte>, es: seq<Extent>, k: nat)
    requires Whole(node) && Ents(node) == |es| && k < |es| && Stands(node, HEAD_SIZE, Joined(LeafRows(es))) && Fits(es[k])
    ensures LeafEntry(node, k) == es[k]
  {
    hide LeafBytes, LeafRows, Joined, Ents, LeafEntry, Stands, Fits;
    RowAt(LeafRows(es), k);
    StandsFrom(node, HEAD_SIZE, Joined(LeafRows(es)), 12 * k, LeafBytes(es[k]));
    LeafBack(node, k, es[k]);
  }

  lemma KidEntryIs(node: seq<byte>, kids: seq<Kid>, k: nat)
    requires Whole(node) && Ents(node) == |kids| && k < |kids| && Stands(node, HEAD_SIZE, Joined(KidRows(kids))) && KidFits(kids[k])
    ensures Key(node, k) == kids[k].key && ChildBlock(node, k) == kids[k].at
  {
    hide IndexBytes, KidRows, Joined, Ents, Key, ChildBlock, Stands;
    RowAt(KidRows(kids), k);
    StandsFrom(node, HEAD_SIZE, Joined(KidRows(kids)), 12 * k, IndexBytes(kids[k].key, kids[k].at, kids[k].unused));
    IndexBack(node, k, kids[k].key, kids[k].at, kids[k].unused);
  }

  /** What is written on a disk as an extent tree can be read, and its extents are those of the tree,
      in order. */
  lemma {:induction false} TreeBack(d: Disk, node: seq<byte>, t: Node, depth: nat)
    requires Stored(d, node, t, depth)
    ensures Readable(d, node, depth) && Magic(node) == MAGIC && Leaves(d, node, depth) == Flat(t)
    decreases t, 1, 0
  {
    if t.Leaf? {
      LeafNodeBack(d, node, t);
    } else {
      hide Head, IndexBytes, KidRows, Joined, Encoded, Magic, Ents, Depth, LeafEntry, Key, ChildBlock, Disk.HasNode, Disk.NodeAt;
      InnerNode(d, node, t, depth);
      forall k: nat | k < |t.kids| ensures ChildReadable(d, node, k, depth) {
        KidAt(d, node, t, depth, k);
        if !t.kids[k].node.Alien? { TreeBack(d, d.NodeAt(t.kids[k].at), t.kids[k].node, depth - 1); }
      }
      assert Readable(d, node, depth);
      KidsBack(d, node, t, depth, |t.kids|);
    }
  }

  lemma InnerNode(d: Disk, node: seq<byte>, t: Node, depth: nat)
    requires t.Inner? && Stored(d, node, t, depth)
    ensures depth > 0 && Whole(node) && Magic(node) == MAGIC && Ents(node) == |t.kids| && Depth(node) == depth
    ensures Stands(node, HEAD_SIZE, Joined(KidRows(t.kids)))
  {
    hide Head, KidRows, Joined, Magic, Ents, Depth, Whole;
    HeadAndRows(node, |t.kids|, t.maxEnts, depth, t.gen, Joined(KidRows(t.kids)));
  }

  /** What the code reads for child k, and what lies there. */
  lemma KidAt(d: Disk, node: seq<byte>, t: Node, depth: nat, k: nat)
    requires t.Inner? && Stored(d, node, t, depth) && k < |t.kids|
    ensures Whole(node) && Ents(node) == |t.kids| && ChildBlock(node, k) == t.kids[k].at && Key(node, k) == t.kids[k].key
    ensures depth > 0 && KidStored(d, t.kids[k], depth - 1)
  {
    hide Head, KidRows, Joined, Encoded, Magic, Ents, Depth, Whole, Key, ChildBlock, KidStored;
    InnerNode(d, node, t, depth);
    assert KidFits(t.kids[k]) && KidStored(d, t.kids[k], depth - 1);
    KidEntryIs(node, t.kids, k);
  }

  lemma {:induction false} KidsBack(d: Disk, node: seq<byte>, t: Node, depth: nat, n: nat)
    requires t.Inner? && Stored(d, node, t, depth) && Readable(d, node, depth) && depth > 0 && Ents(node) == |t.kids| && n <= |t.kids|
    ensures ChildRun(d, node, depth, n) == FlatKids(t, n)
    decreases t, 0, n
  {
    hide Stored, Magic, Ents, Depth, ChildBlock, Disk.HasNode, Disk.NodeAt, Readable, Whole, Leaves, Flat, ChildRun, FlatKids;
    RunSteps(d, node, t, depth, n);
    if n > 0 {
      KidsBack(d, node, t, depth, n - 1);
      KidAt(d, node, t, depth, n - 1);
      var kid := t.kids[n - 1];
      if !kid.node.Alien? { TreeBack(d, d.NodeAt(kid.at), kid.node, depth - 1); }
      KidLeaves(d, node, t, depth, n - 1);
    }
  }

  lemma RunSteps(d: Disk, node: seq<byte>, t: Node, depth: nat, n: nat)
    requires t.Inner? && Readable(d, node, depth) && depth > 0 && Ents(node) == |t.kids| && n <= |t.kids|
    ensures n == 0 ==> ChildRun(d, node, depth, n) == FlatKids(t, n)
    ensures n > 0 ==> ChildRun(d, node, depth, n) == ChildRun(d, node, depth, n - 1) + ChildLeaves(d, node, depth, n - 1)
    ensures n > 0 ==> FlatKids(t, n) == FlatKids(t, n - 1) + Flat(t.kids[n - 1].node)
  {
    hide Readable, Ents, ChildLeaves, Flat;
  }

  lemma KidLeaves(d: Disk, node: seq<byte>, t: Node, depth: nat, k: nat)
    requires t.Inner? && Readable(d, node, depth) && depth > 0 && Ents(node) == |t.kids| && k < |t.kids|
    requires ChildBlock(node, k) == t.kids[k].at && KidStored(d, t.kids[k], depth - 1)
    requires !t.kids[k].node.Alien? ==>
               var child := d.NodeAt(t.kids[k].at);
               Readable(d, child, depth - 1) && Magic(child) == MAGIC && Leaves(d, child, depth - 1) == Flat(t.kids[k].node)
    ensures ChildLeaves(d, node, depth, k) == Flat(t.kids[k].node)
  {
    hide Stored, Magic, Ents, Depth, ChildBlock, Disk.HasNode, Disk.NodeAt, Leaves;
  }

  /* ---------------- and back ---------------- */

  lemma WroteU16(s: seq<byte>, p: nat)
    requires p + 2 <= |s|
    ensures U16(s, p) < 0x1_0000 && Stands(s, p, Le(2, U16(s, p)))
  {
    var v := U16(s, p);
    Le2(v);
    Digits(s[p] as nat, s[p + 1] as nat);
  }

  lemma Digits(a: nat, b: nat)
    requires a < 0x100
    ensures (a + 0x100 * b) % 256 == a && (a + 0x100 * b) / 256 == b
  {
  }

  lemma WroteU32(s: seq<byte>, p: nat)
    requires p + 4 <= |s|
    ensures U32(s, p) < 0x1_0000_0000 && Stands(s, p, Le(4, U32(s, p)))
  {
    hide U16, Le;
    WroteU16(s, p);
    WroteU16(s, p + 2);
    var lo, hi := U16(s, p), U16(s, p + 2);
    Words(lo, hi, 0x1_0000);
    Le4(U32(s, p));
    StandsTogether(s, p, Le(2, lo), Le(2, hi));
  }

  lemma Words(a: nat, b: nat, w: nat)
    requires a < w && (w == 0x1_0000 || w == 0x1_0000_0000)
    ensures (a + w * b) % w == a && (a + w * b) / w == b
  {
  }

  lemma StandsTogether(s: seq<byte>, p: nat, x: seq<byte>, y: seq<byte>)
    requires Stands(s, p, x) && Stands(s, p + |x|, y)
    ensures Stands(s, p, x + y)
  {
    forall i: nat | i < |x + y| ensures s[p + i] == (x + y)[i] {
      if i >= |x| { assert s[p + |x| + (i - |x|)] == y[i - |x|]; }
    }
  }

  lemma WroteLeaf(node: seq<byte>, k: nat)
    requires Whole(node) && k < Ents(node)
    ensures Fits(LeafEntry(node, k)) && Stands(node, HEAD_SIZE + ENTRY_SIZE * k, LeafBytes(LeafEntry(node, k)))
  {
    EntryInside(node, k);
    hide Le, U16, U32, Ents;
    var p, e := HEAD_SIZE + ENTRY_SIZE * k, LeafEntry(node, k);
    WroteU32(node, p);
    WroteU16(node, p + 4);
    WroteU16(node, p + 6);
    WroteU32(node, p + 8);
    Words(U32(node, p + 8), U16(node, p + 6), 0x1_0000_0000);
    var a, b, c, f := Le(4, e.fileBlk), Le(2, e.num), Le(2, e.blk / 0x1_0000_0000), Le(4, e.blk % 0x1_0000_0000);
    StandsTogether(node, p, a, b);
    StandsTogether(node, p, a + b, c);
    StandsTogether(node, p, a + b + c, f);
  }

  function Unused(node: seq<byte>, k: nat): nat
    requires Whole(node) && k < Ents(node)
  {
    EntryInside(node, k);
    U16(node, HEAD_SIZE + ENTRY_SIZE * k + 10)
  }

  lemma WroteIndex(node: seq<byte>, k: nat)
    requires Whole(node) && k < Ents(node)
    ensures Key(node, k) < 0x1_0000_0000 && ChildBlock(node, k) < 0x1_0000_0000_0000 && Unused(node, k) < 0x1_0000
    ensures Stands(node, HEAD_SIZE + ENTRY_SIZE * k, IndexBytes(Key(node, k), ChildBlock(node, k), Unused(node, k)))
  {
    EntryInside(node, k);
    hide Le, U16, U32, Ents;
    var p, key, at := HEAD_SIZE + ENTRY_SIZE * k, Key(node, k), ChildBlock(node, k);
    WroteU32(node, p);
    WroteU32(node, p + 4);
    WroteU16(node, p + 8);
    WroteU16(node, p + 10);
    Words(U32(node, p + 4), U16(node, p + 8), 0x1_0000_0000);
    var a, b, c, f := Le(4, key), Le(4, at % 0x1_0000_0000), Le(2, at / 0x1_0000_0000), Le(2, Unused(node, k));
    StandsTogether(node, p, a, b);
    StandsTogether(node, p, a + b, c);
    StandsTogether(node, p, a + b + c, f);
  }

  lemma WroteHead(node: seq<byte>)
    requires |node| >= HEAD_SIZE && Magic(node) == MAGIC
    ensures SizedHead(Ents(node), U16(node, 4), Depth(node), U32(node, 8))
    ensures Stands(node, 0, Head(Ents(node), U16(node, 4), Depth(node), U32(node, 8)))
  {
    hide Le, U16, U32;
    WroteU16(node, 0);
    WroteU16(node, 2);
    WroteU16(node, 4);
    WroteU16(node, 6);
    WroteU32(node, 8);
    var a, b, c, e, f := Le(2, 0xf30a), Le(2, Ents(node)), Le(2, U16(node, 4)), Le(2, Depth(node)), Le(4, U32(node, 8));
    StandsTogether(node, 0, a, b);
    StandsTogether(node, 0, a + b, c);
    StandsTogether(node, 0, a + b + c, e);
    StandsTogether(node, 0, a + b + c + e, f);
  }

  lemma {:induction false} RowsStand(s: seq<byte>, p: nat, rows: seq<seq<byte>>)
    requires AllRows(rows) && p <= |s| && forall k: nat | k < |rows| :: Stands(s, p + 12 * k, rows[k])
    ensures Stands(s, p, Joined(rows))
    decreases |rows|
  {
    var n := |rows|;
    if n > 0 {
      var front := rows[..n - 1];
      forall k: nat | k < |front| ensures Stands(s, p + 12 * k, front[k]) { assert front[k] == rows[k]; }
      RowsStand(s, p, front);
      StandsTogether(s, p, Joined(front), rows[n - 1]);
    }
  }

  /** The tree that a node is read as. */
  ghost function TreeOf(d: Disk, node: seq<byte>, depth: nat): Node
    requires Readable(d, node, depth)
    decreases depth, 1
  {
    if depth == 0 then Leaf(U16(node, 4), U32(node, 8), LeafRun(node, Ents(node)))
    else Inner(U16(node, 4), U32(node, 8), seq(Ents(node), k requires 0 <= k < Ents(node) => KidOf(d, node, depth, k)))
  }

  ghost function KidOf(d: Disk, node: seq<byte>, depth: nat, k: nat): Kid
    requires Readable(d, node, depth) && depth > 0 && k < Ents(node)
    decreases depth, 0
  {
    assert ChildReadable(d, node, k, depth);
    var at := ChildBlock(node, k);
    var child := d.NodeAt(at);
    Kid(Key(node, k), at, Unused(node, k), if Magic(child) == MAGIC then TreeOf(d, child, depth - 1) else Alien)
  }

  /** Every node that can be read is the encoding of the tree it is read as. */
  lemma {:induction false} TreeWritten(d: Disk, node: seq<byte>, depth: nat)
    requires Readable(d, node, depth) && Magic(node) == MAGIC
    ensures Stored(d, node, TreeOf(d, node, depth), depth)
    decreases depth, 1
  {
    hide U16, U32, Ents, Magic, Depth, Key, ChildBlock, Unused, Stored, Head, Disk.HasNode, Disk.NodeAt, KidStored, KidFits, KidOf;
    if depth == 0 {
      LeafWritten(d, node);
    } else {
      var t := TreeOf(d, node, depth);
      forall k: nat | k < Ents(node) ensures KidFits(t.kids[k]) && KidStored(d, t.kids[k], depth - 1) { KidWritten(d, node, depth, k); }
      InnerWritten(d, node, t, depth);
    }
  }

  lemma KidWritten(d: Disk, node: seq<byte>, depth: nat, k: nat)
    requires Readable(d, node, depth) && depth > 0 && k < Ents(node)
    ensures KidFits(KidOf(d, node, depth, k)) && KidStored(d, KidOf(d, node, depth, k), depth - 1)
    decreases depth, 0
  {
    hide U16, U32, Ents, Magic, Depth, Key, ChildBlock, Unused, Stored, Head, Disk.HasNode, Disk.NodeAt, TreeOf;
    assert ChildReadable(d, node, k, depth);
    hide Readable;
    WroteIndex(node, k);
    var child := d.NodeAt(ChildBlock(node, k));
    if Magic(child) == MAGIC { TreeWritten(d, child, depth - 1); }
    KidTree(d, node, depth, k);
  }

  lemma KidTree(d: Disk, node: seq<byte>, depth: nat, k: nat)
    requires Readable(d, node, depth) && depth > 0 && k < Ents(node) && d.HasNode(ChildBlock(node, k))
    ensures Magic(d.NodeAt(ChildBlock(node, k))) == MAGIC ==> !KidOf(d, node, depth, k).node.Alien?
  {
    hide U16, U32, Ents, Magic, Depth, Key, ChildBlock, Unused, Disk.HasNode, Disk.NodeAt;
  }

  lemma LeafWritten(d: Disk, node: seq<byte>)
    requires Readable(d, node, 0) && Magic(node) == MAGIC
    ensures Stored(d, node, TreeOf(d, node, 0), 0)
  {
    hide U16, U32, Ents, Magic, Depth, Head, LeafEntry, LeafBytes, Joined, Stands, LeafRun, Fits;
    var es, rows := LeafRun(node, Ents(node)), LeafRows(LeafRun(node, Ents(node)));
    WroteHead(node);
    LeafRunAt(node, Ents(node));
    forall k: nat | k < Ents(node) ensures Fits(es[k]) && Stands(node, HEAD_SIZE + 12 * k, rows[k]) { WroteLeaf(node, k); }
    RowsStand(node, HEAD_SIZE, rows);
    StandsTogether(node, 0, Head(Ents(node), U16(node, 4), 0, U32(node, 8)), Joined(rows));
  }

  lemma InnerWritten(d: Disk, node: seq<byte>, t: Node, depth: nat)
    requires Readable(d, node, depth) && depth > 0 && Magic(node) == MAGIC && t == TreeOf(d, node, depth)
    requires forall k: nat | k < Ents(node) :: KidFits(t.kids[k]) && KidStored(d, t.kids[k], depth - 1)
    ensures Stored(d, node, t, depth)
  {
    hide U16, U32, Ents, Magic, Depth, Head, Key, ChildBlock, Unused, IndexBytes, Joined, Stands, KidFits, KidStored;
    var rows := KidRows(t.kids);
    WroteHead(node);
    forall k: nat | k < Ents(node) ensures Stands(node, HEAD_SIZE + 12 * k, rows[k]) { WroteIndex(node, k); }
    RowsStand(node, HEAD_SIZE, rows);
    StandsTogether(node, 0, Head(Ents(node), U16(node, 4), depth, U32(node, 8)), Joined(rows));
  }

  /** The extents listed are those of the tree that the disk holds, whichever way it is written down. */
  lemma TreeUnique(d: Disk, node: seq<byte>, t: Node, depth: nat)
    requires Stored(d, node, t, depth)
    ensures Readable(d, node, depth) && Flat(TreeOf(d, node, depth)) == Flat(t)
  {
    hide Stored, Readable, Leaves, Flat, TreeOf, Magic;
    TreeBack(d, node, t, depth);
    TreeWritten(d, node, depth);
    TreeBack(d, node, TreeOf(d, node, depth), depth);
  }

  /** Reading a file whose extent tree was written like this: the bytes are those that the tree's
      extents, from left to right, say. */
  method ReadStored(d: Disk, inode: seq<byte>, ghost t: Node, ghost depth: nat, ghost end: nat, buf: array<byte>, count: int, off: nat)
    returns (read: nat)
    requires Stored(d, inode, t, depth) && Tiles(Flat(t), 0, end) && OnDisk(d, Flat(t)) && count <= buf.Length
    modifies buf
    ensures read == Promised(count, off, Pos(d, end))
    ensures forall i: nat | i < read :: FileByte(d, Flat(t), off + i, buf[i])
    ensures forall i: nat | read <= i < buf.Length :: buf[i] == old(buf[i])
  {
    hide Stored, Readable, Leaves, Flat, Tiles, OnDisk, FileByte, Promised, Pos, Magic;
    TreeBack(d, inode, t, depth);
    read := ReadInodeContents(d, inode, depth, end, buf, count, off);
  }
}
