/** Reading a file through its ext4 extent tree (src/extfs.c): the tree is flattened into a list of
    extents, and the bytes asked for are gathered from where the extents say they lie. */
module Extents {

  type byte = b: nat | b < 256

  const HEAD_SIZE: nat := 12
  const ENTRY_SIZE: nat := 12     // both kinds of entry have this size
  const MAGIC: nat := 0xf30a
  const SECTOR: nat := 512

  datatype Extent = Extent(num: nat, blk: nat, fileBlk: nat)

  /* ---------------- the layout of a node ---------------- */

  function U16(s: seq<byte>, p: nat): nat
    requires p + 2 <= |s|
  {
    (s[p] as nat) + 0x100 * (s[p + 1] as nat)
  }

  function U32(s: seq<byte>, p: nat): nat
    requires p + 4 <= |s|
  {
    U16(s, p) + 0x1_0000 * U16(s, p + 2)
  }

  function Magic(node: seq<byte>): nat
    requires |node| >= HEAD_SIZE
  {
    U16(node, 0)
  }

  function Ents(node: seq<byte>): nat
    requires |node| >= HEAD_SIZE
  {
    U16(node, 2)
  }

  function Depth(node: seq<byte>): nat
    requires |node| >= HEAD_SIZE
  {
    U16(node, 6)
  }

  /** All entries of the node are there. */
  ghost predicate Whole(node: seq<byte>) {
    |node| >= HEAD_SIZE && HEAD_SIZE + ENTRY_SIZE * Ents(node) <= |node|
  }

  lemma EntryInside(node: seq<byte>, k: nat)
    requires Whole(node) && k < Ents(node)
    ensures HEAD_SIZE + ENTRY_SIZE * k + ENTRY_SIZE <= |node|
  {
  }

  /** Entry k of a leaf. */
  function LeafEntry(node: seq<byte>, k: nat): Extent
    requires Whole(node) && k < Ents(node)
  {
    EntryInside(node, k);
    var p := HEAD_SIZE + ENTRY_SIZE * k;
    Extent(U16(node, p + 4), U32(node, p + 8) + 0x1_0000_0000 * U16(node, p + 6), U32(node, p))
  }

  /** The first file block and the disk block of child k of an inner node. */
  function Key(node: seq<byte>, k: nat): nat
    requires Whole(node) && k < Ents(node)
  {
    EntryInside(node, k);
    U32(node, HEAD_SIZE + ENTRY_SIZE * k)
  }

  function ChildBlock(node: seq<byte>, k: nat): nat
    requires Whole(node) && k < Ents(node)
  {
    EntryInside(node, k);
    var p := HEAD_SIZE + ENTRY_SIZE * k;
    U32(node, p + 4) + 0x1_0000_0000 * U16(node, p + 8)
  }

  /* ---------------- the tree on disk ---------------- */

  datatype Disk = Disk(bytes: seq<byte>, blockSize: nat) {
    /** A node can be read from the block: its first sector, and as much as its entries take. */
    ghost predicate HasNode(b: nat) {
      && b * blockSize + SECTOR <= |bytes|
      && var head := bytes[b * blockSize..b * blockSize + SECTOR];
         b * blockSize + HEAD_SIZE + ENTRY_SIZE * Ents(head) <= |bytes|
    }

    ghost function NodeAt(b: nat): (node: seq<byte>)
      requires HasNode(b)
      ensures Whole(node)
    {
      var p := b * blockSize;
      var ents := Ents(bytes[p..p + SECTOR]);
      var node := bytes[p..p + HEAD_SIZE + ENTRY_SIZE * ents];
      assert node[2] == bytes[p..p + SECTOR][2] && node[3] == bytes[p..p + SECTOR][3];
      node
    }
  }

  /** Every node can be read, and depths count down to the leaves: what the format demands. */
  ghost predicate Readable(d: Disk, node: seq<byte>, depth: nat)
    decreases depth, 1
  {
    && Whole(node) && Depth(node) == depth
    && (depth > 0 ==> forall k: nat | k < Ents(node) :: ChildReadable(d, node, k, depth))
  }

  ghost predicate ChildReadable(d: Disk, node: seq<byte>, k: nat, depth: nat)
    requires Whole(node) && k < Ents(node) && depth > 0
    decreases depth, 0
  {
    && d.HasNode(ChildBlock(node, k))
    && var child := d.NodeAt(ChildBlock(node, k));
       Magic(child) == MAGIC ==> Readable(d, child, depth - 1)
  }

  /* ---------------- the extents of a tree, in order ---------------- */

  ghost function LeafRun(node: seq<byte>, n: nat): seq<Extent>
    requires Whole(node) && n <= Ents(node)
  {
    if n == 0 then [] else LeafRun(node, n - 1) + [LeafEntry(node, n - 1)]
  }

  ghost function Leaves(d: Disk, node: seq<byte>, depth: nat): seq<Extent>
    requires Readable(d, node, depth)
    decreases depth, 2, 0
  {
    if depth == 0 then LeafRun(node, Ents(node)) else ChildRun(d, node, depth, Ents(node))
  }

  /** The extents below the first n children. */
  ghost function ChildRun(d: Disk, node: seq<byte>, depth: nat, n: nat): seq<Extent>
    requires Readable(d, node, depth) && depth > 0 && n <= Ents(node)
    decreases depth, 1, n
  {
    if n == 0 then [] else ChildRun(d, node, depth, n - 1) + ChildLeaves(d, node, depth, n - 1)
  }

  /** A child whose magic number is wrong is passed over. */
  ghost function ChildLeaves(d: Disk, node: seq<byte>, depth: nat, k: nat): seq<Extent>
    requires Readable(d, node, depth) && depth > 0 && k < Ents(node)
    decreases depth, 0, 0
  {
    assert ChildReadable(d, node, k, depth);
    var child := d.NodeAt(ChildBlock(node, k));
    if Magic(child) == MAGIC then Leaves(d, child, depth - 1) else []
  }

  /** The two reads of a child: the first sector tells how much there is to read. */
  method ReadNode(d: Disk, b: nat) returns (subh: seq<byte>)
    requires d.HasNode(b)
    ensures subh == d.NodeAt(b)
  {
    var at := b * d.blockSize;
    subh := d.bytes[at..at + SECTOR];
    var size := ENTRY_SIZE * Ents(subh) + HEAD_SIZE;
    subh := d.bytes[at..at + size];
  }

  /** `extfs_blk_list`: one extent, and the link to the next. */
  class Link {
    var next: Link?
    const extent: Extent

    constructor (num: nat, blk: nat, fileBlk: nat)
      ensures next == null && extent == Extent(num, blk, fileBlk)
    {
      next, extent := null, Extent(num, blk, fileBlk);
    }
  }

  /** The chain that starts at a root, and what it lists. */
  class ExtentList {
    var root: Link?
    ghost var links: seq<Link>

    constructor ()
      ensures Valid() && Items() == [] && links == []
    {
      root, links := null, [];
    }

    ghost function LinkAt(k: nat): Link?
      reads this
    {
      if k < |links| then links[k] else null
    }

    /** Following `next` from the root leads through all links, each once, to the end. */
    ghost predicate Valid()
      reads this, links
    {
      && root == LinkAt(0)
      && (forall k: nat | k < |links| :: links[k].next == LinkAt(k + 1))
      && forall j, k | 0 <= j < k < |links| :: links[j] != links[k]
    }

    ghost function Items(): (es: seq<Extent>)
      reads this
      ensures |es| == |links| && forall k | 0 <= k < |links| :: es[k] == links[k].extent
    {
      seq(|links|, k requires 0 <= k < |links| reads this => links[k].extent)
    }

    lemma StartsThere()
      requires Valid()
      ensures root == LinkAt(0)
    {
    }

    /** The link at position k, and the one behind it. */
    lemma AtLink(k: nat)
      requires Valid()
      ensures LinkAt(k) != null <==> k < |Items()|
      ensures k < |Items()| ==> LinkAt(k).extent == Items()[k] && LinkAt(k).next == LinkAt(k + 1)
    {
    }

    /** `extfs_new_pair`: walks to the last link, and hangs a new one there. */
    method NewPair(num: nat, blk: nat, fileBlk: nat)
      requires Valid()
      modifies this, links
      ensures Valid() && Items() == old(Items()) + [Extent(num, blk, fileBlk)]
      ensures |links| == |old(links)| + 1 && links[..|old(links)|] == old(links) && fresh(links[|old(links)|])
    {
      var link := new Link(num, blk, fileBlk);
      if root == null {
        root := link;
      } else {
        var last: Link := root;
        ghost var k: nat := 0;
        while last.next != null
          invariant k < |links| && last == links[k]
          modifies {}
          decreases |links| - k
        {
          last := last.next;
          k := k + 1;
        }
        assert k == |links| - 1;
        last.next := link;
      }
      links := links + [link];
    }

    /** `extfs_parse_extent_tree`: appends the extents of the tree, in order. */
    method Parse(d: Disk, node: seq<byte>, ghost depth: nat)
      requires Valid() && Readable(d, node, depth)
      modifies this, links
      ensures Valid() && Items() == old(Items()) + Leaves(d, node, depth)
      ensures forall k | 0 <= k < |links| :: links[k] in old(links) || fresh(links[k])
      decreases depth
    {
      hide U16, U32, Magic, Ents, Depth, LeafEntry, ChildBlock, Disk.NodeAt, Disk.HasNode, Valid, Items;
      var ents := Ents(node);
      if Depth(node) == 0 {
        var i := 0;
        while i < ents
          invariant i <= ents && Valid() && Items() == old(Items()) + LeafRun(node, i)
          invariant forall k | 0 <= k < |links| :: links[k] in old(links) || fresh(links[k])
        {
          var e := LeafEntry(node, i);
          ghost var before := links;
          NewPair(e.num, e.blk, e.fileBlk);
          assert links == before + [links[|before|]];
          i := i + 1;
        }
      } else {
        var start := 0;
        while start < ents
          invariant start <= ents && Valid() && Items() == old(Items()) + ChildRun(d, node, depth, start)
          invariant forall k | 0 <= k < |links| :: links[k] in old(links) || fresh(links[k])
        {
          assert ChildReadable(d, node, start, depth);
          var subh := ReadNode(d, ChildBlock(node, start));
          if Magic(subh) != MAGIC {
            start := start + 1;
            continue;
          }
          Parse(d, subh, depth - 1);
          start := start + 1;
        }
      }
    }
  }

  /* ---------------- sorted and gap-free ---------------- */

  /** The extents follow one another from file block lo to hi. */
  ghost predicate Tiles(es: seq<Extent>, lo: nat, hi: nat) {
    if es == [] then lo == hi else es[0].fileBlk == lo && Tiles(es[1..], lo + es[0].num, hi)
  }

  ghost function Blocks(es: seq<Extent>): nat {
    if es == [] then 0 else es[0].num + Blocks(es[1..])
  }

  lemma {:induction false} TilesSplit(xs: seq<Extent>, ys: seq<Extent>, lo: nat, hi: nat)
    requires Tiles(xs + ys, lo, hi)
    ensures Tiles(xs, lo, lo + Blocks(xs)) && Tiles(ys, lo + Blocks(xs), hi)
    decreases |xs|
  {
    if xs == [] {
      assert xs + ys == ys;
    } else {
      assert (xs + ys)[1..] == xs[1..] + ys;
      TilesSplit(xs[1..], ys, lo + xs[0].num, hi);
    }
  }

  lemma {:induction false} TilesUpwards(es: seq<Extent>, lo: nat, hi: nat)
    requires Tiles(es, lo, hi)
    ensures lo <= hi && forall e | e in es :: lo <= e.fileBlk && e.fileBlk + e.num <= hi
    decreases |es|
  {
    if es != [] {
      TilesUpwards(es[1..], lo + es[0].num, hi);
      assert forall e | e in es :: e == es[0] || e in es[1..];
    }
  }

  /* ---------------- finding a block by descending the tree ---------------- */

  /** Every key is the first file block below its child. */
  ghost predicate Indexed(d: Disk, node: seq<byte>, depth: nat)
    requires Readable(d, node, depth)
    decreases depth, 1
  {
    && Ents(node) > 0
    && (depth > 0 ==> forall k: nat | k < Ents(node) :: ChildIndexed(d, node, depth, k))
  }

  ghost predicate ChildIndexed(d: Disk, node: seq<byte>, depth: nat, k: nat)
    requires Readable(d, node, depth) && depth > 0 && k < Ents(node)
    decreases depth, 0
  {
    assert ChildReadable(d, node, k, depth);
    var child := d.NodeAt(ChildBlock(node, k));
    && Magic(child) == MAGIC && Indexed(d, child, depth - 1)
    && ChildLeaves(d, node, depth, k) != [] && Key(node, k) == ChildLeaves(d, node, depth, k)[0].fileBlk
  }

  /** The last of the first n children, or extents, that begins at or before file block b. */
  ghost function PickChild(node: seq<byte>, n: nat, b: nat): (k: nat)
    requires Whole(node) && 0 < n <= Ents(node)
    ensures k < n && (k > 0 ==> Key(node, k) <= b) && forall j: nat | k < j < n :: Key(node, j) > b
  {
    if n == 1 || Key(node, n - 1) <= b then n - 1 else PickChild(node, n - 1, b)
  }

  ghost function PickExtent(node: seq<byte>, n: nat, b: nat): (k: nat)
    requires Whole(node) && 0 < n <= Ents(node)
    ensures k < n && (k > 0 ==> LeafEntry(node, k).fileBlk <= b)
    ensures forall j: nat | k < j < n :: LeafEntry(node, j).fileBlk > b
  {
    if n == 1 || LeafEntry(node, n - 1).fileBlk <= b then n - 1 else PickExtent(node, n - 1, b)
  }

  /** The extent that a search down the tree ends at. */
  ghost function Find(d: Disk, node: seq<byte>, depth: nat, b: nat): Extent
    requires Readable(d, node, depth) && Indexed(d, node, depth)
    decreases depth
  {
    if depth == 0 then LeafEntry(node, PickExtent(node, Ents(node), b))
    else
      var k := PickChild(node, Ents(node), b);
      assert ChildReadable(d, node, k, depth) && ChildIndexed(d, node, depth, k);
      Find(d, d.NodeAt(ChildBlock(node, k)), depth - 1, b)
  }

  lemma {:induction false} LeafRunAt(node: seq<byte>, n: nat)
    requires Whole(node) && n <= Ents(node)
    ensures |LeafRun(node, n)| == n && forall i: nat | i < n :: LeafRun(node, n)[i] == LeafEntry(node, i)
  {
    if n > 0 { LeafRunAt(node, n - 1); }
  }

  lemma {:induction false} TilesAt(es: seq<Extent>, lo: nat, hi: nat, k: nat)
    requires Tiles(es, lo, hi) && k < |es|
    ensures es[0].fileBlk == lo
    ensures es[k].fileBlk + es[k].num == if k + 1 < |es| then es[k + 1].fileBlk else hi
    decreases k
  {
    if k > 0 { TilesAt(es[1..], lo + es[0].num, hi, k - 1); }
  }

  /** What lies below child k begins at its key and ends at the next one. */
  lemma {:induction false} ChildSpan(d: Disk, node: seq<byte>, depth: nat, n: nat, k: nat, lo: nat, hi: nat)
    requires Readable(d, node, depth) && depth > 0 && k < n <= Ents(node)
    requires Indexed(d, node, depth) && Tiles(ChildRun(d, node, depth, n), lo, hi)
    ensures Tiles(ChildLeaves(d, node, depth, k), Key(node, k), if k + 1 < n then Key(node, k + 1) else hi)
    ensures k == 0 ==> Key(node, 0) == lo
    decreases n
  {
    hide U16, U32, Whole, Key, Ents, Readable;
    assert ChildIndexed(d, node, depth, n - 1);
    var xs := ChildRun(d, node, depth, n - 1);
    TilesSplit(xs, ChildLeaves(d, node, depth, n - 1), lo, hi);
    if k < n - 1 { ChildSpan(d, node, depth, n - 1, k, lo, lo + Blocks(xs)); }
  }

  lemma {:induction false} InChildRun(d: Disk, node: seq<byte>, depth: nat, n: nat, k: nat, e: Extent)
    requires Readable(d, node, depth) && depth > 0 && k < n <= Ents(node)
    requires e in ChildLeaves(d, node, depth, k)
    ensures e in ChildRun(d, node, depth, n)
    decreases n
  {
    hide U16, U32, Whole, Ents, Readable, ChildLeaves;
    if k < n - 1 { InChildRun(d, node, depth, n - 1, k, e); }
  }

  /** A search down the tree for any mapped file block ends at the one listed extent that holds it:
      the flat list and the tree say the same. */
  lemma {:induction false} DescentFinds(d: Disk, node: seq<byte>, depth: nat, b: nat, lo: nat, hi: nat)
    requires Readable(d, node, depth) && Indexed(d, node, depth)
    requires Tiles(Leaves(d, node, depth), lo, hi) && lo <= b < hi
    ensures var e := Find(d, node, depth, b);
            e in Leaves(d, node, depth) && e.fileBlk <= b < e.fileBlk + e.num
    decreases depth
  {
    hide U16, U32, Ents, Key, LeafEntry;
    var es := Leaves(d, node, depth);
    if depth == 0 {
      LeafRunAt(node, Ents(node));
      TilesAt(es, lo, hi, PickExtent(node, Ents(node), b));
    } else {
      var k := PickChild(node, Ents(node), b);
      assert ChildReadable(d, node, k, depth) && ChildIndexed(d, node, depth, k);
      ChildSpan(d, node, depth, Ents(node), k, lo, hi);
      var child := d.NodeAt(ChildBlock(node, k));
      DescentFinds(d, child, depth - 1, b, Key(node, k), if k + 1 < Ents(node) then Key(node, k + 1) else hi);
      InChildRun(d, node, depth, Ents(node), k, Find(d, child, depth - 1, b));
    }
  }

  /* ---------------- the bytes of the file ---------------- */

  /** The byte offset of a block. */
  function Pos(d: Disk, b: nat): nat { b * d.blockSize }

  lemma PosAdd(d: Disk, a: nat, b: nat)
    ensures Pos(d, a + b) == Pos(d, a) + Pos(d, b)
  {
  }

  lemma PosMonotone(d: Disk, a: nat, b: nat)
    requires a <= b
    ensures Pos(d, a) <= Pos(d, b)
  {
  }

  ghost predicate Covers(d: Disk, e: Extent, k: nat) {
    Pos(d, e.fileBlk) <= k < Pos(d, e.fileBlk + e.num)
  }

  /** Byte k of the file is v, according to an extent that covers it. */
  ghost predicate FileByte(d: Disk, es: seq<Extent>, k: nat, v: byte) {
    exists e :: e in es && HoldsByte(d, e, k, v)
  }

  ghost predicate HoldsByte(d: Disk, e: Extent, k: nat, v: byte) {
    && Covers(d, e, k)
    && var at := Pos(d, e.blk) + k - Pos(d, e.fileBlk);
       at < |d.bytes| && v == d.bytes[at]
  }

  /** No two extents of a sorted list cover the same byte, so a file byte has one value. */
  lemma {:induction false} OneCover(d: Disk, es: seq<Extent>, lo: nat, hi: nat, e: Extent, f: Extent, k: nat)
    requires Tiles(es, lo, hi) && e in es && f in es && Covers(d, e, k) && Covers(d, f, k)
    ensures e == f
    decreases |es|
  {
    hide Pos;
    var rest := es[1..];
    TilesUpwards(rest, lo + es[0].num, hi);
    if e != f {
      if e == es[0] {
        assert f in rest;
        PosMonotone(d, e.fileBlk + e.num, f.fileBlk);
      } else if f == es[0] {
        assert e in rest;
        PosMonotone(d, f.fileBlk + f.num, e.fileBlk);
      } else {
        OneCover(d, rest, lo + es[0].num, hi, e, f, k);
      }
    }
  }

  lemma FileByteUnique(d: Disk, es: seq<Extent>, lo: nat, hi: nat, k: nat, v: byte, w: byte)
    requires Tiles(es, lo, hi) && FileByte(d, es, k, v) && FileByte(d, es, k, w)
    ensures v == w
  {
    hide Pos, Covers, Tiles;
    var e :| e in es && HoldsByte(d, e, k, v);
    var f :| f in es && HoldsByte(d, f, k, w);
    assert Covers(d, e, k) && Covers(d, f, k);
    OneCover(d, es, lo, hi, e, f, k);
  }

  /** The extents lie on the disk and are initialised. */
  ghost predicate OnDisk(d: Disk, es: seq<Extent>) {
    forall e | e in es :: e.num <= 32768 && Pos(d, e.blk + e.num) <= |d.bytes|
  }

  /** The device's read: `count` bytes from `pos` on. */
  method ReadDisk(d: Disk, pos: nat, count: nat, buf: array<byte>, at: nat)
    requires pos + count <= |d.bytes| && at + count <= buf.Length
    modifies buf
    ensures forall i | 0 <= i < buf.Length :: buf[i] == if at <= i < at + count then d.bytes[pos + i - at] else old(buf[i])
  {
    var i := 0;
    while i < count
      invariant i <= count
      invariant forall j | 0 <= j < buf.Length :: buf[j] == if at <= j < at + i then d.bytes[pos + j - at] else old(buf[j])
    {
      buf[at + i] := d.bytes[pos + i];
      i := i + 1;
    }
  }

  /** How much of a read of `count` bytes at `off` the mapped end of the file allows. */
  function Promised(count: int, off: nat, end: nat): nat {
    if count <= 0 || off >= end then 0 else if count <= end - off then count else end - off
  }

  lemma HeldByExtent(d: Disk, es: seq<Extent>, e: Extent, k: nat, within: nat)
    requires e in es && within < Pos(d, e.num) && k == Pos(d, e.fileBlk) + within
    requires Pos(d, e.blk + e.num) <= |d.bytes|
    ensures Pos(d, e.blk) + within < |d.bytes| && FileByte(d, es, k, d.bytes[Pos(d, e.blk) + within])
  {
    hide Pos;
    PosAdd(d, e.fileBlk, e.num);
    PosAdd(d, e.blk, e.num);
    assert HoldsByte(d, e, k, d.bytes[Pos(d, e.blk) + within]);
  }

  lemma IsPos(d: Disk, e: Extent)
    ensures e.fileBlk * d.blockSize == Pos(d, e.fileBlk) && e.num * d.blockSize == Pos(d, e.num)
    ensures e.blk * d.blockSize == Pos(d, e.blk)
  {
  }

  lemma PosZero(d: Disk)
    ensures Pos(d, 0) == 0
  {
  }

  /** The first `read` bytes of the buffer are those of the file from `off` on; the others are as
      they were. */
  ghost predicate Gathered(d: Disk, es: seq<Extent>, off: nat, read: nat, now: seq<byte>, was: seq<byte>) {
    && |now| == |was| && read <= |now|
    && (forall i: nat | i < read :: FileByte(d, es, off + i, now[i]))
    && forall i: nat | read <= i < |now| :: now[i] == was[i]
  }

  lemma NothingGathered(d: Disk, es: seq<Extent>, off: nat, was: seq<byte>)
    ensures Gathered(d, es, off, 0, was, was)
  {
  }

  /** The part of one extent that is asked for goes to the buffer. */
  method ReadExtent(d: Disk, ghost es: seq<Extent>, e: Extent, buf: array<byte>, read: nat, left: nat, pos: nat,
                    ghost off: nat, ghost was: seq<byte>)
    returns (n: nat)
    requires e in es && OnDisk(d, es) && read + left <= buf.Length && pos == off + read
    requires Pos(d, e.fileBlk) <= pos < Pos(d, e.fileBlk + e.num) && Gathered(d, es, off, read, buf[..], was)
    modifies buf
    ensures n == if Pos(d, e.fileBlk + e.num) - pos < left then Pos(d, e.fileBlk + e.num) - pos else left
    ensures Gathered(d, es, off, read + n, buf[..], was)
  {
    hide Pos, FileByte;
    PosAdd(d, e.fileBlk, e.num);
    PosAdd(d, e.blk, e.num);
    IsPos(d, e);
    var extentOff := e.fileBlk * d.blockSize;
    var extentSize := e.num * d.blockSize;
    var within: nat := if pos > extentOff then pos - extentOff else 0;
    var avail: nat := extentSize - within;
    n := if avail < left then avail else left;
    ghost var before := buf[..];
    ReadDisk(d, e.blk * d.blockSize + within, n, buf, read);
    forall i: nat | i < read + n ensures FileByte(d, es, off + i, buf[i]) {
      if i >= read { HeldByExtent(d, es, e, off + i, within + (i - read)); } else { assert buf[i] == before[i]; }
    }
  }

  lemma TilesNext(es: seq<Extent>, j: nat, s: nat, end: nat)
    requires j < |es| && Tiles(es[j..], s, end)
    ensures es[j].fileBlk == s && s + es[j].num <= end && Tiles(es[j + 1..], s + es[j].num, end)
  {
    assert es[j..][1..] == es[j + 1..];
    TilesUpwards(es[j + 1..], s + es[j].num, end);
  }

  lemma TilesEmpty(es: seq<Extent>, s: nat, end: nat)
    requires es == [] && Tiles(es, s, end)
    ensures s == end
  {
  }

  /** `read` bytes have been read and `left` are still wanted; file block s comes next. */
  ghost predicate Progress(d: Disk, s: nat, end: nat, count: int, off: nat, left: int, read: nat) {
    && read + left == count && (left >= 0 || read == 0)
    && (left > 0 ==> off + read >= Pos(d, s) && (read > 0 ==> off + read == Pos(d, s)))
    && (read > 0 ==> off + read <= Pos(d, end))
  }

  lemma ProgressNone(d: Disk, end: nat, count: int, off: nat)
    ensures Progress(d, 0, end, count, off, count, 0)
  {
    PosZero(d);
  }

  lemma ProgressBound(d: Disk, s: nat, end: nat, count: int, off: nat, left: int, read: nat)
    requires Progress(d, s, end, count, off, left, read) && left > 0
    ensures read + left == count && off + read >= Pos(d, s)
  {
  }

  lemma ProgressSkip(d: Disk, e: Extent, s: nat, end: nat, count: int, off: nat, left: int, read: nat)
    requires Progress(d, s, end, count, off, left, read) && left > 0 && e.fileBlk == s
    ensures Pos(d, s + e.num) == Pos(d, s) + Pos(d, e.num)
    ensures off + read >= Pos(d, s + e.num) ==> Progress(d, s + e.num, end, count, off, left, read)
  {
    hide Pos;
    PosAdd(d, s, e.num);
  }

  lemma ProgressRead(d: Disk, e: Extent, next: nat, end: nat, count: int, off: nat, left: int, read: nat, n: nat)
    requires e.fileBlk + e.num == next <= end && left > 0 && read + left == count
    requires Pos(d, e.fileBlk) <= off + read < Pos(d, next)
    requires n == if Pos(d, next) - (off + read) < left then Pos(d, next) - (off + read) else left
    ensures Progress(d, next, end, count, off, left - n, read + n)
  {
    hide Pos;
    PosMonotone(d, next, end);
  }

  lemma ProgressDone(d: Disk, s: nat, end: nat, count: int, off: nat, left: int, read: nat)
    requires Progress(d, s, end, count, off, left, read) && (left <= 0 || s == end)
    ensures read == Promised(count, off, Pos(d, end))
  {
    hide Pos;
  }

  /** `extfs_read_inode_contents`: the buffer receives exactly the bytes of the file from `off` on,
      as many as were asked for and are mapped. */
  method ReadInodeContents(d: Disk, inode: seq<byte>, ghost depth: nat, ghost end: nat,
                           buf: array<byte>, count: int, off: nat)
    returns (read: nat)
    requires Readable(d, inode, depth)
    requires Tiles(Leaves(d, inode, depth), 0, end) && OnDisk(d, Leaves(d, inode, depth))
    requires count <= buf.Length
    modifies buf
    ensures read == Promised(count, off, Pos(d, end))
    ensures forall i: nat | i < read :: FileByte(d, Leaves(d, inode, depth), off + i, buf[i])
    ensures forall i: nat | read <= i < buf.Length :: buf[i] == old(buf[i])
  {
    hide Pos, Readable, Leaves, FileByte, Tiles, OnDisk, Gathered, Promised, ExtentList.Valid, ExtentList.Items;
    var list := new ExtentList();
    list.Parse(d, inode, depth);
    assert list.Items() == Leaves(d, inode, depth);
    ghost var was := buf[..];
    read := ReadLinks(d, list, end, buf, count, off);
    AllGathered(d, list.Items(), off, read, buf, was);
  }

  /** The loop over the links. */
  method ReadLinks(d: Disk, list: ExtentList, ghost end: nat, buf: array<byte>, count: int, off: nat) returns (read: nat)
    requires list.Valid() && Tiles(list.Items(), 0, end) && OnDisk(d, list.Items()) && count <= buf.Length
    modifies buf
    ensures list.Valid() && list.Items() == old(list.Items())
    ensures read == Promised(count, off, Pos(d, end)) && Gathered(d, list.Items(), off, read, buf[..], old(buf[..]))
  {
    hide Pos, FileByte, Tiles, OnDisk, Gathered, Progress, Promised, ExtentList.Valid, ExtentList.Items, ExtentList.LinkAt;
    ghost var es, was := list.Items(), buf[..];
    assert es[0..] == es;
    list.StartsThere();
    list.AtLink(0);
    var blks, left: int, pos: nat := list.root, count, off;
    read := 0;
    ghost var s: nat, j: nat := 0, 0;
    ProgressNone(d, end, count, off);
    NothingGathered(d, es, off, was);
    while left > 0 && blks != null
      invariant list.Valid() && es == list.Items() && j <= |es| && blks == list.LinkAt(j)
      invariant Tiles(es[j..], s, end)
      invariant pos == off + read && Progress(d, s, end, count, off, left, read)
      invariant Gathered(d, es, off, read, buf[..], was)
      decreases |es| - j
    {
      list.AtLink(j);
      var e := blks.extent;
      TilesNext(es, j, s, end);
      ProgressBound(d, s, end, count, off, left, read);
      ProgressSkip(d, e, s, end, count, off, left, read);
      IsPos(d, e);
      s, j, blks := s + e.num, j + 1, blks.next;
      if pos >= e.fileBlk * d.blockSize + e.num * d.blockSize {
        continue;
      }
      var n := ReadExtent(d, es, e, buf, read, left, pos, off, was);
      ProgressRead(d, e, s, end, count, off, left, read, n);
      read, left, pos := read + n, left - n, pos + n;
    }
    list.AtLink(j);
    if j == |es| { TilesEmpty(es[j..], s, end); }
    ProgressDone(d, s, end, count, off, left, read);
  }

  lemma AllGathered(d: Disk, es: seq<Extent>, off: nat, read: nat, buf: array<byte>, was: seq<byte>)
    requires Gathered(d, es, off, read, buf[..], was)
    ensures read <= buf.Length == |was|
    ensures forall i: nat | i < read :: FileByte(d, es, off + i, buf[i])
    ensures forall i: nat | read <= i < buf.Length :: buf[i] == was[i]
  {
    hide FileByte;
  }

  lemma BlockOfByte(d: Disk, k: nat, lo: nat, hi: nat)
    requires d.blockSize > 0 && lo <= k / d.blockSize < hi
    ensures Pos(d, lo) <= k < Pos(d, hi)
  {
    var q := k / d.blockSize;
    PosMonotone(d, lo, q);
    PosMonotone(d, q + 1, hi);
    assert Pos(d, q + 1) == q * d.blockSize + d.blockSize;
  }

  lemma MappedBlock(d: Disk, k: nat, end: nat)
    requires d.blockSize > 0 && k < Pos(d, end)
    ensures k / d.blockSize < end
  {
    if k / d.blockSize >= end { PosMonotone(d, end, k / d.blockSize); }
  }

  /** The value that a read delivers for a byte is the one a search down the tree leads to. */
  lemma ByteByDescent(d: Disk, node: seq<byte>, depth: nat, end: nat, k: nat, v: byte)
    requires Readable(d, node, depth) && Indexed(d, node, depth) && Tiles(Leaves(d, node, depth), 0, end)
    requires d.blockSize > 0 && k < Pos(d, end)
    ensures FileByte(d, Leaves(d, node, depth), k, v) <==> HoldsByte(d, Find(d, node, depth, k / d.blockSize), k, v)
  {
    hide Readable, Indexed, Leaves, Tiles, Pos, Covers, Find;
    var es := Leaves(d, node, depth);
    var b := k / d.blockSize;
    MappedBlock(d, k, end);
    DescentFinds(d, node, depth, b, 0, end);
    var e := Find(d, node, depth, b);
    BlockOfByte(d, k, e.fileBlk, e.fileBlk + e.num);
    CoversIs(d, e, k);
    if FileByte(d, es, k, v) {
      var f :| f in es && HoldsByte(d, f, k, v);
      OneCover(d, es, 0, end, e, f, k);
    }
  }

  lemma CoversIs(d: Disk, e: Extent, k: nat)
    requires Pos(d, e.fileBlk) <= k < Pos(d, e.fileBlk + e.num)
    ensures Covers(d, e, k)
  {
  }
}
