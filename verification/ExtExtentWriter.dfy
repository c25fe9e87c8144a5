/** pkg/ext/extents.go: building an extent tree level by level. */
module ExtExtentWriter {
  import opened Sizes
  import opened Options
  import opened Bytes
  import opened Alloc
  import opened RunAllocation
  import ExtGeometry
  import opened ExtLayout
  import opened ExtExtents

  /** entriesPerNode. */
  function PerNode(bs: nat): (n: nat)
    requires bs >= EXTENT_HEADER
    ensures 12 + 12 * n <= bs < 24 + 12 * n
  {
    (bs - EXTENT_HEADER) / EXTENT_ENTRY
  }

  // ----- One node.

  ghost predicate Filled(node: seq<byte>, entries: seq<seq<byte>>, max: nat, depth: nat) {
    && EntryOff(|entries|) <= |node|
    && Slice(node, 0, EXTENT_HEADER) == HeaderBytes(|entries|, max, depth)
    && HasEntries(node, entries, |entries|)
  }

  ghost predicate HasEntries(node: seq<byte>, entries: seq<seq<byte>>, n: nat) {
    n <= |entries| && forall i :: 0 <= i < n ==> Slice(node, EntryOff(i), EXTENT_ENTRY) == entries[i]
  }

  ghost predicate EntrySized(entries: seq<seq<byte>>) {
    forall i :: 0 <= i < |entries| ==> |entries[i]| == EXTENT_ENTRY
  }

  method FillNode(size: nat, entries: seq<seq<byte>>, max: nat, depth: nat) returns (buf: seq<byte>)
    requires EntryOff(|entries|) <= size && EntrySized(entries)
    ensures |buf| == size && Filled(buf, entries, max, depth)
  {
    hide Slice, HeaderBytes, EntryOff, HasEntries, Spliced, Zeros;
    EntryPlaces(|entries|, |entries|, size);
    buf := Spliced(Zeros(size), HeaderBytes(|entries|, max, depth), 0);
    SliceOfWrite(Zeros(size), HeaderBytes(|entries|, max, depth), 0);
    NoEntries(buf, entries);
    for i := 0 to |entries|
      invariant |buf| == size && HasEntries(buf, entries, i)
      invariant Slice(buf, 0, EXTENT_HEADER) == HeaderBytes(|entries|, max, depth)
    {
      EntryPlaces(i, |entries|, size);
      OneEntry(buf, entries, i);
      SliceElsewhere(buf, entries[i], EntryOff(i), 0, EXTENT_HEADER);
      buf := Spliced(buf, entries[i], EntryOff(i));
    }
  }

  lemma EntryPlaces(i: nat, n: nat, size: nat)
    requires i <= n && EntryOff(n) <= size
    ensures EXTENT_HEADER <= EntryOff(i) <= size && (i < n ==> EntryOff(i) + EXTENT_ENTRY <= size)
  {
  }

  lemma NoEntries(buf: seq<byte>, entries: seq<seq<byte>>)
    ensures HasEntries(buf, entries, 0)
  {
  }

  lemma OneEntry(buf: seq<byte>, entries: seq<seq<byte>>, k: nat)
    requires k < |entries| && HasEntries(buf, entries, k) && EntrySized(entries)
    ensures HasEntries(Spliced(buf, entries[k], EntryOff(k)), entries, k + 1)
  {
    SliceOfWrite(buf, entries[k], EntryOff(k));
    forall i | 0 <= i < k
      ensures Slice(Spliced(buf, entries[k], EntryOff(k)), EntryOff(i), EXTENT_ENTRY) == entries[i]
    {
      SliceElsewhere(buf, entries[k], EntryOff(k), EntryOff(i), EXTENT_ENTRY);
    }
  }

  function LeafEntries(leaves: seq<Leaf>): (s: seq<seq<byte>>)
    ensures |s| == |leaves| && EntrySized(s)
  {
    seq(|leaves|, i requires 0 <= i < |leaves| => LeafBytes(leaves[i]))
  }

  function ChildEntries(children: seq<Child>): (s: seq<seq<byte>>)
    ensures |s| == |children| && EntrySized(s)
  {
    seq(|children|, i requires 0 <= i < |children| => ChildBytes(children[i]))
  }

  ghost predicate LeavesFit(leaves: seq<Leaf>) {
    forall i :: 0 <= i < |leaves| ==>
      leaves[i].logical < TWO32 && 0 < leaves[i].length <= EXTENT_MAX_LEN && leaves[i].start < TWO48
  }

  ghost predicate ChildrenFit(children: seq<Child>) {
    forall i :: 0 <= i < |children| ==> children[i].logical < TWO32 && children[i].block < TWO48
  }

  lemma CountOf(node: seq<byte>, n: nat)
    requires EntryOff(n) <= |node| && Entries(node) == n
    ensures Count(node) == n
  {
  }

  lemma LeafNode(node: seq<byte>, leaves: seq<Leaf>, max: nat)
    requires LeavesFit(leaves) && |leaves| < TWO16 && Filled(node, LeafEntries(leaves), max, 0)
    ensures Magic(node) == EXTENT_MAGIC && Depth(node) == 0 && Leaves(node) == leaves
  {
    hide Slice, HeaderBytes, LeafBytes, Magic, Depth, Entries, LeafAt, Count, EntryOff;
    HeaderParses(node, |leaves|, max, 0);
    CountOf(node, |leaves|);
    forall i | 0 <= i < |leaves|
      ensures LeafAt(node, i) == leaves[i]
    {
      assert LeafEntries(leaves)[i] == LeafBytes(leaves[i]);
      LeafParses(node, i, leaves[i]);
    }
  }

  lemma IndexNode(node: seq<byte>, children: seq<Child>, max: nat, depth: nat)
    requires ChildrenFit(children) && |children| < TWO16 && depth < TWO16
      && Filled(node, ChildEntries(children), max, depth)
    ensures Magic(node) == EXTENT_MAGIC && Depth(node) == depth && Children(node) == children
  {
    hide Slice, HeaderBytes, ChildBytes, Magic, Depth, Entries, ChildAt, Count, EntryOff;
    HeaderParses(node, |children|, max, depth);
    CountOf(node, |children|);
    forall i | 0 <= i < |children|
      ensures ChildAt(node, i) == children[i]
    {
      assert ChildEntries(children)[i] == ChildBytes(children[i]);
      ChildParses(node, i, children[i]);
    }
  }

  // ----- The device while a tree is built.

  /** The index blocks a file gained since b, and everything else as it was. */
  ghost predicate Grown(b: Snapshot, l: Layouter, file: nat)
    reads l, l.al, l.dev
  {
    && b.used <= l.al.Used() && l.index == b.index + (l.al.Used() - b.used)
    && l.owner == Owned(b.owner, l.al.Used() - b.used, Index(file))
    && OnlyIn(b.dev, l.dev.data, l.geo.blockSize, l.al.Used() - b.used)
  }

  datatype Snapshot = Snapshot(used: set<nat>, owner: map<nat, Owner>, index: set<nat>, dev: seq<byte>)

  ghost function Now(l: Layouter): Snapshot
    reads l, l.al, l.dev
  {
    Snapshot(l.al.Used(), l.owner, l.index, l.dev.data)
  }

  lemma GrownNothing(l: Layouter, file: nat)
    ensures Grown(Now(l), l, file)
  {
    hide Bitmap.Used;
    OnlyInNothing(l.dev.data, l.geo.blockSize, {});
    NoBlocks(l.al.Used(), l.owner, Index(file));
    assert l.al.Used() - l.al.Used() == {};
  }

  /** writeExtentNode: the node is filled before its block is taken. */
  method WriteExtentNode(l: Layouter, entries: seq<seq<byte>>, depth: nat, ghost b: Snapshot,
          ghost file: nat) returns (r: Result<nat>)
    requires l.Valid() && Grown(b, l, file) && EXTENT_HEADER <= l.geo.blockSize
    requires EntryOff(|entries|) <= l.geo.blockSize && EntrySized(entries)
    modifies l`owner, l`curMeta, l`index, l.al, l.al.words, l.used, l.dev
    ensures l.Valid() && Grown(b, l, file)
    ensures r.Err? ==> l.al.Used() == old(l.al.Used()) && FreeCount(l.al.Used(), l.geo.totalBlocks) == 0
    ensures r.Ok? ==> r.value < l.geo.totalBlocks && r.value !in old(l.al.Used())
    ensures r.Ok? ==> l.al.Used() == old(l.al.Used()) + {r.value}
    ensures r.Ok? ==> OnlyIn(old(l.dev.data), l.dev.data, l.geo.blockSize, {r.value})
    ensures r.Ok? ==> Filled(BlockAt(l.dev.data, l.geo.blockSize, r.value), entries, PerNode(l.geo.blockSize), depth)
  {
    hide Filled, OnlyIn, Owned, Layouter.Valid, Bitmap.Used, FreeCount, EntryOff, EntrySized, BlockAt;
    ghost var n := Now(l);
    var buf := FillNode(l.geo.blockSize, entries, PerNode(l.geo.blockSize), depth);
    r := l.AllocMetaBlock(file);
    if r.Err? {
      return;
    }
    var blk := r.value;
    l.WriteBlock(blk, buf);
    OwnedAgain(b.owner, n.used - b.used, blk, Index(file));
    assert l.al.Used() - b.used == (n.used - b.used) + {blk};
    OnlyInChain(b.dev, n.dev, l.dev.data, l.geo.blockSize, n.used - b.used, {blk}, l.al.Used() - b.used);
  }

  lemma OwnedAgain(owner: map<nat, Owner>, s: set<nat>, b: nat, who: Owner)
    ensures Owned(owner, s, who)[b := who] == Owned(owner, s + {b}, who)
  {
  }

  // ----- One level.

  /** The entries idx list the blocks done, through nodes that count down from depth. */
  ghost predicate Lists(dev: seq<byte>, bs: nat, idx: seq<Child>, depth: nat, done: seq<nat>, nodes: set<nat>) {
    && StrictAll(dev, bs, idx, depth, 0) == Some(done)
    && Visited(dev, bs, idx, depth) == nodes
    && ChildrenFit(idx)
  }

  lemma ListsNothing(dev: seq<byte>, bs: nat, depth: nat)
    ensures Lists(dev, bs, [], depth, [], {})
  {
  }

  lemma ListsFrame(d: seq<byte>, d': seq<byte>, bs: nat, s: set<nat>, idx: seq<Child>, depth: nat, done: seq<nat>,
          nodes: set<nat>)
    requires Lists(d, bs, idx, depth, done, nodes) && OnlyIn(d, d', bs, s) && nodes !! s
    ensures Lists(d', bs, idx, depth, done, nodes)
  {
    hide StrictAll, Visited, OnlyIn;
    StrictFrame(d, d', bs, s, idx, depth, 0);
  }

  /** One more node at the end of a level. */
  lemma NodeAdded(dev: seq<byte>, bs: nat, idx: seq<Child>, depth: nat, done: seq<nat>, nodes: set<nat>, blk: nat,
                  part: seq<nat>, below: set<nat>)
    requires depth > 0 && Lists(dev, bs, idx, depth, done, nodes) && |done| < TWO32 && blk < TWO48
    requires Strict(dev, bs, BlockAt(dev, bs, blk), depth - 1, |done|) == Some(part)
    requires below == if depth == 1 then {} else Visited(dev, bs, Children(BlockAt(dev, bs, blk)), depth - 1)
    ensures Lists(dev, bs, idx + [Child(|done|, blk)], depth, done + part, nodes + below + {blk})
  {
    hide Strict, BlockAt, Children;
    var c := Child(|done|, blk);
    VisitedAppend(dev, bs, idx, [c], depth);
    StrictAppend(dev, bs, idx, [c], depth, 0);
    assert Visited(dev, bs, [], depth) == {};
    assert StrictAll(dev, bs, [], depth, |done| + |part|) == Some([]);
    assert part + [] == part;
  }

  /** A group of leaves, lo to hi, in a node of its own. */
  lemma LeafGroup(dev: seq<byte>, bs: nat, leaves: seq<Leaf>, lo: nat, hi: nat, node: seq<byte>, max: nat)
    requires lo < hi <= |leaves| && hi - lo < TWO16 && Numbered(leaves, 0) && LeavesFit(leaves)
    requires Filled(node, LeafEntries(leaves[lo..hi]), max, 0)
    ensures Strict(dev, bs, node, 0, |Expand(leaves[..lo])|) == Some(Expand(leaves[lo..hi]))
    ensures leaves[lo].logical == |Expand(leaves[..lo])|
    ensures Expand(leaves[..hi]) == Expand(leaves[..lo]) + Expand(leaves[lo..hi])
    ensures |Expand(leaves[..hi])| <= |Expand(leaves)|
  {
    hide Filled, LeafEntries, Expand, Leaves, Depth, Magic;
    LeafNode(node, leaves[lo..hi], max);
    assert leaves[..hi] == leaves[..lo] + leaves[lo..hi];
    assert leaves == leaves[..hi] + leaves[hi..];
    ExpandAppend(leaves[..lo], leaves[lo..hi]);
    ExpandAppend(leaves[..hi], leaves[hi..]);
    NumberedAppend(leaves[..hi], leaves[hi..], 0);
    NumberedAppend(leaves[..lo], leaves[lo..hi], 0);
  }

  lemma StrictHead(dev: seq<byte>, bs: nat, children: seq<Child>, depth: nat, at: nat)
    requires children != [] && StrictAll(dev, bs, children, depth, at).Some?
    ensures children[0].logical == at
  {
  }

  /** A group of entries, lo to hi, in a node of its own. */
  lemma IndexGroup(dev: seq<byte>, bs: nat, entries: seq<Child>, depth: nat, data: seq<nat>, nodes: set<nat>,
                   lo: nat, hi: nat, node: seq<byte>, max: nat) returns (before: seq<nat>, part: seq<nat>,
                       n: set<nat>, m: set<nat>)
    requires lo < hi <= |entries| && hi - lo < TWO16 && 0 < depth <= MAX_DEPTH
    requires Lists(dev, bs, entries, depth, data, nodes)
    requires Filled(node, ChildEntries(entries[lo..hi]), max, depth)
    ensures Lists(dev, bs, entries[..lo], depth, before, n)
      && Lists(dev, bs, entries[..hi], depth, before + part, n + m)
    ensures Strict(dev, bs, node, depth, |before|) == Some(part) && Visited(dev, bs, Children(node), depth) == m
    ensures entries[lo].logical == |before| && |before + part| <= |data| && n + m <= nodes
  {
    hide Filled, ChildEntries, Children, Depth, Magic, BlockAt, StrictAll, Visited;
    var group := entries[lo..hi];
    IndexNode(node, group, max, depth);
    assert entries[..hi] == entries[..lo] + group;
    assert entries == entries[..hi] + entries[hi..];
    StrictAppend(dev, bs, entries[..hi], entries[hi..], depth, 0);
    StrictAppend(dev, bs, entries[..lo], group, depth, 0);
    VisitedAppend(dev, bs, entries[..lo], group, depth);
    VisitedAppend(dev, bs, entries[..hi], entries[hi..], depth);
    before := StrictAll(dev, bs, entries[..lo], depth, 0).value;
    part := StrictAll(dev, bs, group, depth, |before|).value;
    StrictHead(dev, bs, group, depth, |before|);
    n, m := Visited(dev, bs, entries[..lo], depth), Visited(dev, bs, group, depth);
  }

  lemma ListsSame(dev: seq<byte>, bs: nat, idx: seq<Child>, depth: nat, a: seq<nat>, b: seq<nat>, n: set<nat>,
          m: set<nat>)
    requires Lists(dev, bs, idx, depth, a, n) && Lists(dev, bs, idx, depth, b, m)
    ensures a == b && n == m
  {
  }

  /** rows nodes of up to per entries are needed for n entries. */
  predicate Rows(n: nat, per: nat, rows: nat) {
    n <= rows * per && (n > 0 ==> rows > 0 && (rows - 1) * per < n) && (n == 0 ==> rows == 0)
  }

  lemma NextRow(n: nat, per: nat, rows: nat)
    requires rows * per < n
    ensures (rows + 1) * per == rows * per + per && (n <= rows * per + per ==> Rows(n, per, rows + 1))
  {
  }

  lemma PerNodeFits(bs: nat)
    requires ExtGeometry.ValidBlockSize(bs)
    ensures EXTENT_HEADER <= bs && 84 <= PerNode(bs) < TWO16 && EntryOff(PerNode(bs)) <= bs
  {
  }

  lemma EntryOffMono(i: nat, j: nat)
    requires i <= j
    ensures EntryOff(i) <= EntryOff(j)
  {
  }

  method EmitLeafNodes(l: Layouter, leaves: seq<Leaf>, ghost b: Snapshot,
          ghost file: nat) returns (r: Result<seq<Child>>)
    requires l.Valid() && Grown(b, l, file) && ExtGeometry.ValidBlockSize(l.geo.blockSize) && l.geo.totalBlocks <= TWO48
    requires LeavesFit(leaves) && Numbered(leaves, 0) && Length(leaves) < TWO32
    modifies l`owner, l`curMeta, l`index, l.al, l.al.words, l.used, l.dev
    ensures l.Valid() && Grown(b, l, file) && old(l.al.Used()) <= l.al.Used()
    ensures r.Ok? ==>
      Lists(l.dev.data, l.geo.blockSize, r.value, 1, Expand(leaves), l.al.Used() - old(l.al.Used()))
    ensures r.Ok? ==> Rows(|leaves|, PerNode(l.geo.blockSize), |r.value|)
    ensures r.Err? ==> FreeCount(l.al.Used(), l.geo.totalBlocks) == 0
  {
    hide Filled, OnlyIn, Owned, Layouter.Valid, Bitmap.Used, EntryOff, EntrySized, BlockAt, Lists, Grown, Rows, Expand,
         LeavesFit, Numbered, ExtGeometry.ValidBlockSize, PerNode, LeafEntries, FreeCount;
    var bs := l.geo.blockSize;
    PerNodeFits(bs);
    var per := PerNode(bs);
    ghost var used0 := l.al.Used();
    assert l.al.Used() - used0 == {};
    var idx: seq<Child> := [];
    var off: nat := 0;
    ghost var lo: nat := 0;
    LevelStarts(l.dev.data, bs, leaves, per);
    while off < |leaves|
      invariant off == |idx| * per && lo == Lesser(off, |leaves|)
      invariant l.Valid() && Grown(b, l, file) && used0 <= l.al.Used()
      invariant Lists(l.dev.data, bs, idx, 1, Expand(leaves[..lo]), l.al.Used() - used0)
      invariant off >= |leaves| ==> Rows(|leaves|, per, |idx|)
      decreases |leaves| - off
    {
      var hi: nat := Lesser(off + per, |leaves|);
      var group := leaves[off..hi];
      ghost var used1, dev1 := l.al.Used(), l.dev.data;
      EntryOffMono(|group|, per);
      var blk := WriteExtentNode(l, LeafEntries(group), 0, b, file);
      if blk.Err? {
        return Err(blk.error);
      }
      ListsFrame(dev1, l.dev.data, bs, {blk.value}, idx, 1, Expand(leaves[..lo]), used1 - used0);
      LeafGroup(l.dev.data, bs, leaves, off, hi, BlockAt(l.dev.data, bs, blk.value), per);
      NodeAdded(l.dev.data, bs, idx, 1, Expand(leaves[..lo]), used1 - used0, blk.value, Expand(group), {});
      assert l.al.Used() - used0 == used1 - used0 + {} + {blk.value};
      NextRow(|leaves|, per, |idx|);
      idx := idx + [Child(group[0].logical, blk.value)];
      off := off + per;
      lo := hi;
    }
    assert leaves[..lo] == leaves;
    return Ok(idx);
  }

  lemma LevelStarts(dev: seq<byte>, bs: nat, leaves: seq<Leaf>, per: nat)
    ensures Lists(dev, bs, [], 1, Expand(leaves[..0]), {}) && (|leaves| == 0 ==> Rows(|leaves|, per, 0))
  {
    ListsNothing(dev, bs, 1);
  }

  method EmitIndexNodes(l: Layouter, entries: seq<Child>, depth: nat, ghost data: seq<nat>, ghost kids: set<nat>,
                        ghost b: Snapshot, ghost file: nat) returns (r: Result<seq<Child>>)
    requires l.Valid() && Grown(b, l, file) && ExtGeometry.ValidBlockSize(l.geo.blockSize) && l.geo.totalBlocks <= TWO48
    requires 0 < depth <= MAX_DEPTH && |data| < TWO32
    requires Lists(l.dev.data, l.geo.blockSize, entries, depth, data, kids) && kids <= l.al.Used()
    modifies l`owner, l`curMeta, l`index, l.al, l.al.words, l.used, l.dev
    ensures l.Valid() && Grown(b, l, file) && old(l.al.Used()) <= l.al.Used()
    ensures r.Ok? ==>
      Lists(l.dev.data, l.geo.blockSize, r.value, depth + 1, data, kids + (l.al.Used() - old(l.al.Used())))
    ensures r.Ok? ==> Rows(|entries|, PerNode(l.geo.blockSize), |r.value|)
    ensures r.Err? ==> FreeCount(l.al.Used(), l.geo.totalBlocks) == 0
  {
    hide Filled, OnlyIn, Owned, Layouter.Valid, Bitmap.Used, EntryOff, EntrySized, BlockAt, Lists, Grown, Rows,
         ExtGeometry.ValidBlockSize, PerNode, ChildEntries, Strict, Visited, Children, FreeCount;
    var bs := l.geo.blockSize;
    PerNodeFits(bs);
    var per := PerNode(bs);
    ghost var used0 := l.al.Used();
    assert l.al.Used() - used0 == {};
    var idx: seq<Child> := [];
    var off: nat := 0;
    ghost var lo: nat, done: seq<nat>, n: set<nat> := 0, [], {};
    assert n + {} == {};
    IndexStarts(l.dev.data, bs, entries, depth, per);
    while off < |entries|
      invariant off == |idx| * per && lo == Lesser(off, |entries|)
      invariant l.Valid() && Grown(b, l, file) && used0 <= l.al.Used()
      invariant Lists(l.dev.data, bs, entries, depth, data, kids)
      invariant Lists(l.dev.data, bs, entries[..lo], depth, done, n) && n <= kids
      invariant Lists(l.dev.data, bs, idx, depth + 1, done, n + (l.al.Used() - used0))
      invariant off >= |entries| ==> Rows(|entries|, per, |idx|)
      decreases |entries| - off
    {
      var hi: nat := Lesser(off + per, |entries|);
      var group := entries[off..hi];
      ghost var used1, dev1 := l.al.Used(), l.dev.data;
      EntryOffMono(|group|, per);
      var blk := WriteExtentNode(l, ChildEntries(group), depth, b, file);
      if blk.Err? {
        return Err(blk.error);
      }
      ghost var now := l.dev.data;
      ListsFrame(dev1, now, bs, {blk.value}, entries, depth, data, kids);
      ListsFrame(dev1, now, bs, {blk.value}, entries[..lo], depth, done, n);
      ListsFrame(dev1, now, bs, {blk.value}, idx, depth + 1, done, n + (used1 - used0));
      ghost var before, part, n0, m := IndexGroup(now, bs, entries, depth, data, kids, off, hi, BlockAt(now, bs,
          blk.value), per);
      ListsSame(now, bs, entries[..lo], depth, done, before, n, n0);
      NodeAdded(now, bs, idx, depth + 1, done, n + (used1 - used0), blk.value, part, m);
      assert n + m + (l.al.Used() - used0) == n + (used1 - used0) + m + {blk.value};
      NextRow(|entries|, per, |idx|);
      idx := idx + [Child(group[0].logical, blk.value)];
      off := off + per;
      lo, done, n := hi, done + part, n + m;
    }
    assert entries[..lo] == entries;
    ListsSame(l.dev.data, bs, entries, depth, data, done, kids, n);
    return Ok(idx);
  }

  lemma IndexStarts(dev: seq<byte>, bs: nat, entries: seq<Child>, depth: nat, per: nat)
    ensures Lists(dev, bs, [], depth + 1, [], {}) && Lists(dev, bs, entries[..0], depth, [], {})
    ensures |entries| == 0 ==> Rows(|entries|, per, 0)
  {
    ListsNothing(dev, bs, depth);
    ListsNothing(dev, bs, depth + 1);
  }

  // ----- The tree.

  /** What is left of n entries, level after level, with at least 84 to a node. */
  function Levels(n: nat, depth: nat): nat {
    if depth == 0 then n else (Levels(n, depth - 1) + 83) / 84
  }

  lemma RowsShrink(n: nat, per: nat, rows: nat)
    requires Rows(n, per, rows) && per >= 84
    ensures rows <= (n + 83) / 84
  {
    if rows > 0 {
      MulMono(84, per, rows - 1);
    }
  }

  /** Fewer than 2^32 extents need at most five levels above them. */
  lemma FiveLevels(n: nat)
    requires n < TWO32
    ensures Levels(n, 5) <= INLINE_EXTENTS
  {
    assert Levels(n, 1) <= 51130564;
    assert Levels(n, 2) <= 608698;
    assert Levels(n, 3) <= 7247;
    assert Levels(n, 4) <= 87;
    assert Levels(n, 5) <= 2;
  }

  lemma LevelsMono(a: nat, b: nat)
    requires a <= b
    ensures (a + 83) / 84 <= (b + 83) / 84
  {
  }

  datatype TreeError = Full | TooDeep

  datatype Built = Root(node: seq<byte>) | Failed(error: TreeError)

  /** The node is the root of a well-formed tree for data, whose other nodes lie in blocks. */
  ghost predicate Roots(dev: seq<byte>, bs: nat, node: seq<byte>, data: seq<nat>, blocks: set<nat>) {
    && |node| == ROOT_SIZE
    && Strict(dev, bs, node, Depth(node), 0) == Some(data)
    && blocks == if Depth(node) == 0 then {} else Visited(dev, bs, Children(node), Depth(node))
  }

  /** buildExtentTree. Running out of levels is never the reason it fails. */
  method BuildExtentTree(l: Layouter, data: seq<nat>, ghost file: nat) returns (r: Built)
    requires l.Valid() && ExtGeometry.ValidBlockSize(l.geo.blockSize) && l.geo.totalBlocks <= TWO48
    requires |data| < TWO32 && forall k :: 0 <= k < |data| ==> data[k] < TWO48
    modifies l`owner, l`curMeta, l`index, l.al, l.al.words, l.used, l.dev
    ensures l.Valid() && Grown(old(Now(l)), l, file)
    ensures r.Failed? ==> r.error == Full && FreeCount(l.al.Used(), l.geo.totalBlocks) == 0
    ensures r.Root? ==>
      && Roots(l.dev.data, l.geo.blockSize, r.node, data, l.al.Used() - old(l.al.Used()))
      && Get(Little, r.node, 0, 2) == 0xF30A && Get(Little, r.node, 4, 2) == 4
  {
    hide Filled, OnlyIn, Owned, Layouter.Valid, Bitmap.Used, Lists, Grown, Rows, Roots, Expand, LeavesFit, Numbered,
         ExtGeometry.ValidBlockSize, PerNode, LeafEntries, ChildEntries, Levels, RunsOf, EntryOff, EntrySized,
         FreeCount, Get;
    ghost var b := Now(l);
    var bs := l.geo.blockSize;
    GrownNothing(l, file);
    PerNodeFits(bs);
    var leaves := ContiguousRuns(data);
    RunsFit(leaves, data);
    assert l.al.Used() - b.used == {};
    RootFits(Lesser(|leaves|, INLINE_EXTENTS));
    if |leaves| <= INLINE_EXTENTS {
      var root := FillNode(ROOT_SIZE, LeafEntries(leaves), INLINE_EXTENTS, 0);
      LeafRoot(l.dev.data, bs, root, leaves, data);
      RootHeader(root, LeafEntries(leaves), 0);
      return Root(root);
    }
    var first := EmitLeafNodes(l, leaves, b, file);
    if first.Err? {
      return Failed(Full);
    }
    var idx := first.value;
    FirstLevel(|leaves|, PerNode(bs), |idx|);
    FiveLevels(|leaves|);
    var depth: nat := 1;
    while true
      invariant 1 <= depth <= MAX_DEPTH && l.Valid() && Grown(b, l, file) && b.used <= l.al.Used()
      invariant Lists(l.dev.data, bs, idx, depth, data, l.al.Used() - b.used)
      invariant |idx| <= Levels(|leaves|, depth)
      decreases MAX_DEPTH - depth
    {
      if depth > MAX_DEPTH {
        return Failed(TooDeep);
      }
      if |idx| <= INLINE_EXTENTS {
        RootFits(|idx|);
        var root := FillNode(ROOT_SIZE, ChildEntries(idx), INLINE_EXTENTS, depth);
        IndexRoot(l.dev.data, bs, root, idx, depth, data, l.al.Used() - b.used);
        RootHeader(root, ChildEntries(idx), depth);
        return Root(root);
      }
      ghost var used1 := l.al.Used();
      var next := EmitIndexNodes(l, idx, depth, data, l.al.Used() - b.used, b, file);
      if next.Err? {
        return Failed(Full);
      }
      assert used1 - b.used + (l.al.Used() - used1) == l.al.Used() - b.used;
      NextLevelUp(|leaves|, depth, |idx|, PerNode(bs), |next.value|);
      idx := next.value;
      depth := depth + 1;
    }
  }

  lemma RootFits(n: nat)
    requires n <= INLINE_EXTENTS
    ensures EntryOff(n) <= ROOT_SIZE
  {
  }

  lemma FirstLevel(n: nat, per: nat, rows: nat)
    requires Rows(n, per, rows) && per >= 84
    ensures rows <= Levels(n, 1)
  {
    RowsShrink(n, per, rows);
    assert Levels(n, 0) == n;
  }

  lemma NextLevelUp(n: nat, depth: nat, was: nat, per: nat, rows: nat)
    requires was <= Levels(n, depth) && Rows(was, per, rows) && per >= 84
    ensures rows <= Levels(n, depth + 1)
  {
    RowsShrink(was, per, rows);
    LevelsMono(was, Levels(n, depth));
  }

  lemma {:induction false} LeafInside(leaves: seq<Leaf>, at: nat, k: nat)
    requires k < |leaves| && Numbered(leaves, at)
    ensures leaves[k].logical + leaves[k].length <= at + Length(leaves)
    ensures leaves[k].length > 0 ==> leaves[k].start in Expand(leaves)
    decreases k
  {
    if k > 0 {
      LeafInside(leaves[1..], at + leaves[0].length, k - 1);
    } else if leaves[0].length > 0 {
      assert Expand(leaves)[0] == leaves[0].start;
    }
  }

  /** Extents of 48-bit blocks and fewer than 2^32 of them fit their fields. */
  lemma RunsFit(leaves: seq<Leaf>, data: seq<nat>)
    requires RunsOf(leaves, data) && |data| < TWO32 && forall k :: 0 <= k < |data| ==> data[k] < TWO48
    ensures LeavesFit(leaves) && Numbered(leaves, 0) && Length(leaves) == |data| && Expand(leaves) == data
  {
    hide Expand, Numbered;
    forall i | 0 <= i < |leaves|
      ensures leaves[i].logical < TWO32 && leaves[i].start < TWO48
    {
      LeafInside(leaves, 0, i);
    }
  }

  lemma RootHeader(root: seq<byte>, entries: seq<seq<byte>>, depth: nat)
    requires Filled(root, entries, INLINE_EXTENTS, depth)
    ensures Get(Little, root, 0, 2) == 0xF30A && Get(Little, root, 4, 2) == 4
  {
    hide Get, Slice, HeaderBytes, HasEntries;
    HeaderMax(root, |entries|, INLINE_EXTENTS, depth);
  }

  lemma LeafRoot(dev: seq<byte>, bs: nat, root: seq<byte>, leaves: seq<Leaf>, data: seq<nat>)
    requires |root| == ROOT_SIZE && Filled(root, LeafEntries(leaves), INLINE_EXTENTS, 0) && |leaves| <= INLINE_EXTENTS
    requires LeavesFit(leaves) && Numbered(leaves, 0) && Expand(leaves) == data
    ensures Roots(dev, bs, root, data, {})
  {
    hide Filled, LeafEntries, Numbered, Expand, Depth, Magic;
    LeafNode(root, leaves, INLINE_EXTENTS);
  }

  lemma IndexRoot(dev: seq<byte>, bs: nat, root: seq<byte>, idx: seq<Child>, depth: nat, data: seq<nat>,
          nodes: set<nat>)
    requires |root| == ROOT_SIZE && Filled(root, ChildEntries(idx), INLINE_EXTENTS, depth) && |idx| <= INLINE_EXTENTS
    requires Lists(dev, bs, idx, depth, data, nodes) && 0 < depth <= MAX_DEPTH
    ensures Roots(dev, bs, root, data, nodes)
  {
    hide Filled, ChildEntries, StrictAll, Visited, Depth, Magic;
    IndexNode(root, idx, INLINE_EXTENTS, depth);
  }

  /** A later change that leaves a tree's blocks alone leaves the tree alone. */
  lemma RootsFrame(d: seq<byte>, d': seq<byte>, bs: nat, s: set<nat>, node: seq<byte>, data: seq<nat>, blocks: set<nat>)
    requires Roots(d, bs, node, data, blocks) && OnlyIn(d, d', bs, s) && blocks !! s
    ensures Roots(d', bs, node, data, blocks)
  {
    hide OnlyIn, StrictAll, Visited, Depth, Magic;
    if Depth(node) > 0 {
      StrictFrame(d, d', bs, s, Children(node), Depth(node), 0);
    }
  }

  /** The reader gets back the list a tree was built for. */
  lemma TreeRoundTrip(dev: seq<byte>, bs: nat, node: seq<byte>, data: seq<nat>, blocks: set<nat>, fuel: nat)
    requires Roots(dev, bs, node, data, blocks) && fuel >= MAX_DEPTH
    ensures Parse(dev, bs, node, fuel) == ExtExtents.Blocks(data)
  {
    hide Depth, Magic, Expand, Leaves, Children;
    StrictIsParsed(dev, bs, node, Depth(node), 0);
    MoreFuel(dev, bs, node, Depth(node), fuel);
  }
}
