/** pkg/ext/format.go and reader.go: files laid out on a device and read back. */
module ExtFiles {
  import opened Sizes
  import opened Bytes
  import opened Files
  import opened Alloc
  import opened RunAllocation
  import ExtGeometry
  import opened ExtLayout
  import opened ExtIndirect
  import ExtExtents
  import opened ExtExtentWriter
  import opened ExtXattrArea
  import opened ExtAttrs

  const MAX_SIZE: nat := 0xFFFF_FFFF

  /** The block map of an inode: the root of an extent tree, or fifteen pointers. */
  datatype Map = Tree(root: seq<byte>) | Table(block: seq<nat>)

  datatype Inode = Inode(size: nat, map_: Map, sectors: nat, attrs: Placement)

  datatype LayoutError = FileTooLarge | NoSpaceLeft | TooManyBlocks | AttributesTooBig

  datatype Laid<T> = Success(value: T) | Failure(error: LayoutError)

  /** What is to be laid out. */
  datatype FileSpec = FileSpec(content: seq<byte>, attrs: Attributes)

  /** A file, the device blocks of its bytes in order, and the blocks of its index. */
  datatype FileOn = FileOn(inode: Inode, spec: FileSpec, blocks: seq<nat>, index: set<nat>)
  {
    /** The attribute block is one of them. */
    function Footprint(): set<nat> {
      Elements(blocks) + AclBlocks(inode.attrs) + index
    }
  }

  /** The device maps a file to its blocks through its index. */
  ghost predicate Mapped(dev: seq<byte>, bs: nat, m: Map, blocks: seq<nat>, index: set<nat>) {
    match m
    case Tree(root) => Roots(dev, bs, root, blocks, index)
    case Table(block) =>
      && |block| == TOTAL_POINTERS
      && Through(dev, bs, block, |blocks|, 3) == blocks && IndexOf(dev, bs, block, |blocks|, 3) == index
  }

  /** The device holds a file. */
  ghost predicate Holds(dev: seq<byte>, bs: nat, f: FileOn) {
    && bs > 0
    && f.inode.size == |f.spec.content| && |f.blocks| == CeilDiv(|f.spec.content|, bs)
    && Mapped(dev, bs, f.inode.map_, f.blocks, f.index)
    && f.inode.sectors == SectorsOf(|f.blocks|, AclBlocks(f.inode.attrs) + f.index, bs)
    && StoredUpTo(dev, bs, f.blocks, f.spec.content, |f.blocks|)
    && AttrsHold(dev, bs, f.inode.attrs, f.spec.attrs)
  }

  lemma MappedFrame(d: seq<byte>, d': seq<byte>, bs: nat, s: set<nat>, m: Map, blocks: seq<nat>, index: set<nat>)
    requires Mapped(d, bs, m, blocks, index) && OnlyIn(d, d', bs, s) && index !! s
    ensures Mapped(d', bs, m, blocks, index)
  {
    hide OnlyIn, Through, IndexOf, Roots;
    match m {
      case Tree(root) => RootsFrame(d, d', bs, s, root, blocks, index);
      case Table(block) => ThroughFrame(d, d', bs, s, block, block, |blocks|, 3);
    }
  }

  /** Writes to other blocks leave a file as it is. */
  lemma HoldsFrame(d: seq<byte>, d': seq<byte>, bs: nat, s: set<nat>, f: FileOn)
    requires Holds(d, bs, f) && OnlyIn(d, d', bs, s) && f.Footprint() !! s
    ensures Holds(d', bs, f)
  {
    hide Mapped, StoredUpTo, OnlyIn, AttrsHold;
    MappedFrame(d, d', bs, s, f.inode.map_, f.blocks, f.index);
    StoredFrame(d, d', bs, s, f.blocks, f.spec.content);
    AttrsFrame(d, d', bs, s, f.inode.attrs, f.spec.attrs);
  }

  // ----- Reading.

  /** blockList: the blocks of a file, from its tree or from its pointers. */
  method BlockListOf(dev: File, bs: nat, inode: Inode, ghost blocks: seq<nat>,
          ghost index: set<nat>) returns (out: seq<nat>)
    requires bs >= ExtExtents.EXTENT_HEADER && Mapped(dev.data, bs, inode.map_, blocks, index)
    requires |blocks| == CeilDiv(inode.size, bs)
    ensures out == blocks
  {
    hide CeilDiv, Roots, Through, IndexOf;
    var need := CeilDiv(inode.size, bs);
    match inode.map_ {
      case Tree(root) =>
        TreeRoundTrip(dev.data, bs, root, blocks, index, ExtExtents.MAX_DEPTH);
        RootSized(dev.data, bs, root, blocks, index);
        var r := ExtExtents.ParseExtents(dev, bs, root, ExtExtents.MAX_DEPTH);
        out := r.list; // never more than need to cut off
      case Table(block) =>
        out := BlockList(dev, bs, block, need);
    }
  }

  lemma RootSized(dev: seq<byte>, bs: nat, root: seq<byte>, blocks: seq<nat>, index: set<nat>)
    requires Roots(dev, bs, root, blocks, index)
    ensures |root| >= ExtExtents.EXTENT_HEADER
  {
  }

  /** fileSource.ReadAt: fill dst from offset off of the file. */
  method ReadAt(dev: File, bs: nat, blocks: seq<nat>, size: nat, ghost content: seq<byte>, dst: array<byte>, off: nat)
      returns (n: nat, eof: bool)
    requires bs > 0 && size == |content| && |blocks| == CeilDiv(size, bs)
    requires StoredUpTo(dev.data, bs, blocks, content, |blocks|)
    modifies dst
    ensures n == (if off >= size then 0 else if dst.Length < size - off then dst.Length else size - off)
    ensures eof <==> off >= size || n < dst.Length
    ensures dst[..n] == content[Lesser(off, size)..Lesser(off, size) + n] && dst[n..] == old(dst[..])[n..]
  {
    hide StoredUpTo, CeilDiv, Slice, Got;
    if off >= size {
      return 0, true;
    }
    n := 0;
    var at := off;
    GotNothing(dst[..], content, off);
    while n < dst.Length && at < size
      invariant n <= dst.Length && at == off + n <= size
      invariant Got(old(dst[..]), dst[..], content, off, n)
      decreases size - at
    {
      ghost var was := dst[..];
      var c := CopyChunk(dev, bs, blocks, size, content, dst, n, at);
      GotMore(old(dst[..]), was, dst[..], content, off, n, c);
      n := n + c;
      at := at + c;
    }
    GotAll(old(dst[..]), dst[..], content, off, n);
    eof := n < dst.Length;
  }

  /** The part of a read that falls into one block. */
  method CopyChunk(dev: File, bs: nat, blocks: seq<nat>, size: nat, ghost content: seq<byte>, dst: array<byte>, n: nat,
          at: nat)
      returns (c: nat)
    requires bs > 0 && size == |content| && |blocks| == CeilDiv(size, bs) && n < dst.Length && at < size
    requires StoredUpTo(dev.data, bs, blocks, content, |blocks|)
    modifies dst
    ensures 0 < c && n + c <= dst.Length && at + c <= size
    ensures dst[..n + c] == old(dst[..n]) + content[at..at + c] && dst[n + c..] == old(dst[n + c..])
  {
    hide StoredUpTo, CeilDiv, Slice;
    var idx, within := at / bs, at % bs;
    Position(size, bs, at);
    StoredBlock(dev.data, bs, blocks, content, idx);
    var buf := dev.Read(blocks[idx] * bs, bs);
    var avail := bs - within;
    var rem := size - at;
    if rem < avail {
      avail := rem;
    }
    c := if avail < dst.Length - n then avail else dst.Length - n;
    ContentOf(content, bs, idx, within, c, buf, at);
    CopyIn(dst, n, buf[within..within + c]);
  }

  method CopyIn(dst: array<byte>, at: nat, p: seq<byte>)
    requires at + |p| <= dst.Length
    modifies dst
    ensures dst[..at + |p|] == old(dst[..at]) + p && dst[at + |p|..] == old(dst[at + |p|..])
  {
    for i := 0 to |p|
      invariant dst[..at] == old(dst[..at]) && dst[at..at + i] == p[..i]
      invariant dst[at + i..] == old(dst[at + i..])
    {
      dst[at + i] := p[i];
    }
  }

  lemma Position(size: nat, bs: nat, at: nat)
    requires bs > 0 && at < size
    ensures at / bs < CeilDiv(size, bs) && at / bs * bs + at % bs == at
  {
    CeilDivCovers(size, bs);
    var q := at / bs;
    if q >= CeilDiv(size, bs) {
      MulMono(CeilDiv(size, bs), q, bs);
    }
  }

  lemma StoredBlock(data: seq<byte>, bs: nat, blocks: seq<nat>, content: seq<byte>, k: nat)
    requires StoredUpTo(data, bs, blocks, content, |blocks|) && k < |blocks|
    ensures Slice(data, blocks[k] * bs, bs) == Slice(content, k * bs, bs)
  {
    assert BlockAt(data, bs, blocks[k]) == BlockAt(content, bs, k);
  }

  lemma ContentOf(content: seq<byte>, bs: nat, k: nat, within: nat, c: nat, buf: seq<byte>, at: nat)
    requires buf == Slice(content, k * bs, bs) && within + c <= bs && at == k * bs + within && at + c <= |content|
    ensures buf[within..within + c] == content[at..at + c]
  {
  }

  /** The first n bytes of the buffer are content from off on, the others are what they were. */
  ghost predicate Got(first: seq<byte>, now: seq<byte>, content: seq<byte>, off: nat, n: nat) {
    && n <= |now| == |first| && off + n <= |content|
    && now[..n] == content[off..off + n] && now[n..] == first[n..]
  }

  lemma GotNothing(first: seq<byte>, content: seq<byte>, off: nat)
    requires off <= |content|
    ensures Got(first, first, content, off, 0)
  {
  }

  lemma GotMore(first: seq<byte>, was: seq<byte>, now: seq<byte>, content: seq<byte>, off: nat, n: nat, c: nat)
    requires Got(first, was, content, off, n) && |was| == |now| && n + c <= |now| && off + n + c <= |content|
    requires now[..n + c] == was[..n] + content[off + n..off + n + c] && now[n + c..] == was[n + c..]
    ensures Got(first, now, content, off, n + c)
  {
    assert was[n + c..] == was[n..][c..] == first[n..][c..] == first[n + c..];
  }

  lemma GotAll(first: seq<byte>, now: seq<byte>, content: seq<byte>, off: nat, n: nat)
    requires Got(first, now, content, off, n)
    ensures off + n <= |content| && now[..n] == content[off..off + n] && now[n..] == first[n..]
  {
  }

  // ----- Writing.

  lemma UsedInside(l: Layouter, blocks: seq<nat>)
    requires l.Valid() && Elements(blocks) <= l.al.Used() && l.geo.totalBlocks <= TWO32
    ensures forall k :: 0 <= k < |blocks| ==> blocks[k] < TWO32
  {
    forall k | 0 <= k < |blocks|
      ensures blocks[k] < TWO32
    {
      assert blocks[k] in Elements(blocks);
    }
  }

  lemma CountsIndexed(l: Layouter)
    requires l.Valid()
    ensures l.curMeta == |l.index|
  {
    hide Bitmap.Used, Bitmap.Valid, Mirror;
  }

  lemma SectorsFromIndex(blocks: nat, meta: nat, index: set<nat>, gained: set<nat>, bs: nat)
    requires index == {} + gained && meta == |index|
    ensures Sectors(blocks + meta, bs) == SectorsOf(blocks, gained, bs)
  {
    assert index == gained;
  }

  lemma GrownIndex(b: Snapshot, l: Layouter, file: nat)
    requires Grown(b, l, file)
    ensures l.index == b.index + (l.al.Used() - b.used)
  {
    hide OnlyIn, Owned, Bitmap.Used;
  }

  lemma GrowthOf(b: Snapshot, l: Layouter, file: nat)
    requires Grown(b, l, file)
    ensures b.used <= l.al.Used() && OnlyIn(b.dev, l.dev.data, l.geo.blockSize, l.al.Used() - b.used)
    ensures l.owner == Owned(b.owner, l.al.Used() - b.used, Index(file))
  {
  }

  lemma TreeMapped(b: Snapshot, l: Layouter, root: seq<byte>, blocks: seq<nat>, file: nat)
    requires l.Valid() && Grown(b, l, file) && b.index == {}
    requires Roots(l.dev.data, l.geo.blockSize, root, blocks, l.al.Used() - b.used)
    ensures Mapped(l.dev.data, l.geo.blockSize, Tree(root), blocks, l.al.Used() - b.used)
    ensures Sectors(|blocks| + l.curMeta, l.geo.blockSize) == SectorsOf(|blocks|, l.al.Used() - b.used, l.geo.blockSize)
  {
    hide Roots, OnlyIn, Owned, Bitmap.Used, Layouter.Valid, Sectors, SectorsOf, Grown;
    CountsIndexed(l);
    GrownIndex(b, l, file);
    SectorsFromIndex(|blocks|, l.curMeta, l.index, l.al.Used() - b.used, l.geo.blockSize);
  }

  lemma TableMapped(b: Before, l: Layouter, block: seq<nat>, blocks: seq<nat>, sectors: nat, file: nat)
    requires MapsAll(b, l, block, blocks, sectors, file)
    ensures Mapped(l.dev.data, l.geo.blockSize, Table(block), blocks, l.al.Used() - b.used)
    ensures l.owner == Owned(b.owner, l.al.Used() - b.used, Index(file))
    ensures sectors == SectorsOf(|blocks|, l.al.Used() - b.used, l.geo.blockSize)
  {
    hide Through, IndexOf, OnlyIn, Owned, Bitmap.Used, SectorsOf;
  }

  /** mapBlocks: an extent tree or pointers, and the sectors of the file. */
  method MapFile(l: Layouter, blocks: seq<nat>, ghost file: nat) returns (r: Laid<Map>, sectors: nat)
    requires l.Valid() && l.index == {} && 0 in l.al.Used() && l.geo.totalBlocks <= TWO32
    requires ExtGeometry.ValidBlockSize(l.geo.blockSize)
    requires |blocks| < TWO32 && Elements(blocks) <= l.al.Used()
    modifies l`owner, l`curMeta, l`index, l.al, l.al.words, l.used, l.dev
    ensures l.Valid() && old(l.al.Used()) <= l.al.Used()
    ensures OnlyIn(old(l.dev.data), l.dev.data, l.geo.blockSize, l.al.Used() - old(l.al.Used()))
    ensures r.Success? ==>
      && Mapped(l.dev.data, l.geo.blockSize, r.value, blocks, l.al.Used() - old(l.al.Used()))
      && l.owner == Owned(old(l.owner), l.al.Used() - old(l.al.Used()), Index(file))
      && sectors == SectorsOf(|blocks|, l.al.Used() - old(l.al.Used()), l.geo.blockSize)
    ensures r == Failure(TooManyBlocks) ==> !l.useExtents && |blocks| > Reach(l.geo.blockSize / 4, 3)
    ensures r == Failure(NoSpaceLeft) ==> FreeCount(l.al.Used(), l.geo.totalBlocks) == 0
    ensures r.Failure? ==> r.error in {TooManyBlocks, NoSpaceLeft}
  {
    hide OnlyIn, Owned, Bitmap.Used, Layouter.Valid, Roots, Through, IndexOf, SectorsOf, Sectors, Reach, Elements,
         Mapped, Grown, MapsAll, FreeCount;
    ghost var b := Now(l);
    UsedInside(l, blocks);
    if l.useExtents {
      var t := BuildExtentTree(l, blocks, file);
      GrowthOf(b, l, file);
      if t.Failed? {
        return Failure(NoSpaceLeft), 0;
      }
      TreeMapped(b, l, t.node, blocks, file);
      return Success(Tree(t.node)), Sectors(|blocks| + l.curMeta, l.geo.blockSize);
    }
    var m, n := MapBlocks(l, blocks, file);
    if m.Failed? {
      return Failure(if m.error == MapError.Full then NoSpaceLeft else TooManyBlocks), 0;
    }
    TableMapped(Before(b.used, b.owner, b.dev), l, m.value, blocks, n, file);
    return Success(Table(m.value)), n;
  }

  lemma BlocksOfSize(size: nat, bs: nat)
    requires ExtGeometry.ValidBlockSize(bs) && size <= MAX_SIZE
    ensures bs > 0 && CeilDiv(size, bs) < TWO32
  {
    CeilDivBound(size, bs, size);
  }

  /** The attribute block costs what a data block does. */
  lemma OneMoreBlock(n: nat, blocks: nat, p: Placement, index: set<nat>, bs: nat)
    requires AclBlocks(p) !! index && n == SectorsOf(blocks, index, bs)
    ensures (n + if p.acl == 0 then 0 else bs / 512) % TWO32 == SectorsOf(blocks, AclBlocks(p) + index, bs)
  {
    hide Sectors;
    SectorsMore(blocks + |index|, bs);
    if p.acl == 0 {
      assert AclBlocks(p) + index == index;
    } else {
      assert |{p.acl} + index| == 1 + |index|;
    }
  }

  lemma SectorsMore(n: nat, bs: nat)
    ensures Sectors(n, bs) % TWO32 == Sectors(n, bs)
    ensures (Sectors(n, bs) + bs / 512) % TWO32 == Sectors(n + 1, bs)
  {
    var k := bs / 512;
    AddMod(n * k, k);
    DivUnique(Sectors(n, bs), TWO32, 0, Sectors(n, bs));
    assert n * k + k == (n + 1) * k;
  }

  lemma Steps(used0: set<nat>, used1: set<nat>, used2: set<nat>, acl: set<nat>, index: set<nat>)
    requires used1 == used0 + acl && acl !! used0 && used1 <= used2 && index == used2 - used1
    ensures acl !! index && acl + index == used2 - used0 && used2 == used0 + acl + index && index !! used0
  {
  }

  /** newInode and mapBlocks: the attributes and then the block map of a file whose data is in place. */
  method MapInode(l: Layouter, size: nat, blocks: seq<nat>, attrs: Attributes, hashes: Hashes, ghost file: nat)
      returns (r: Laid<Inode>, ghost index: set<nat>)
    requires l.Valid() && 0 in l.al.Used() && l.geo.totalBlocks <= TWO32
    requires ExtGeometry.ValidBlockSize(l.geo.blockSize) && l.geo.inodeSize in {128, 256} && ShortNames(attrs)
    requires |blocks| < TWO32 && Elements(blocks) <= l.al.Used()
    modifies l`owner, l`curMeta, l`index, l.al, l.al.words, l.used, l.dev
    ensures l.Valid() && old(l.al.Used()) <= l.al.Used()
    ensures OnlyIn(old(l.dev.data), l.dev.data, l.geo.blockSize, l.al.Used() - old(l.al.Used()))
    ensures r.Success? ==>
      && r.value.size == size && Mapped(l.dev.data, l.geo.blockSize, r.value.map_, blocks, index)
      && AttrsHold(l.dev.data, l.geo.blockSize, r.value.attrs, attrs)
      && r.value.sectors == SectorsOf(|blocks|, AclBlocks(r.value.attrs) + index, l.geo.blockSize)
      && AclBlocks(r.value.attrs) !! index && AclBlocks(r.value.attrs) + index == l.al.Used() - old(l.al.Used())
      && l.owner == Owned(Owned(old(l.owner), AclBlocks(r.value.attrs), Attrs(file)), index, Index(file))
    ensures r == Failure(AttributesTooBig) ==> TooBig(attrs, l.geo.inodeSize, l.geo.blockSize)
    ensures r == Failure(TooManyBlocks) ==> !l.useExtents && |blocks| > Reach(l.geo.blockSize / 4, 3)
    ensures r == Failure(NoSpaceLeft) ==> FreeCount(l.al.Used(), l.geo.totalBlocks) == 0
    ensures r != Failure(FileTooLarge)
  {
    hide OnlyIn, Owned, Bitmap.Used, Layouter.Valid, Mapped, SectorsOf, FreeCount, Elements,
         ExtGeometry.ValidBlockSize, Reach, AttrsHold, TooBig, ShortNames, AclBlocks, PlacedRight;
    var bs := l.geo.blockSize;
    ghost var used0, dev0 := l.al.Used(), l.dev.data;
    index := {};
    l.ResetMeta();
    OnlyInNothing(dev0, bs, l.al.Used() - used0);
    var p := PlaceXattrs(l, attrs, hashes, file);
    if p.Failed? {
      return Failure(if p.error == AttrsTooBig then AttributesTooBig else NoSpaceLeft), index;
    }
    ghost var used1, dev1, acl := l.al.Used(), l.dev.data, AclBlocks(p.where);
    var m, n := MapFile(l, blocks, file);
    index := l.al.Used() - used1;
    Steps(used0, used1, l.al.Used(), acl, index);
    OnlyInChain(dev0, dev1, l.dev.data, bs, acl, index, l.al.Used() - used0);
    if m.Failure? {
      return Failure(m.error), index;
    }
    AttrsFrame(dev1, l.dev.data, bs, index, p.where, attrs);
    OneMoreBlock(n, |blocks|, p.where, index, bs);
    return Success(Inode(size, m.value, (n + if p.where.acl == 0 then 0 else bs / 512) % TWO32, p.where)), index;
  }

  lemma StoredFrame(d: seq<byte>, d': seq<byte>, bs: nat, s: set<nat>, blocks: seq<nat>, content: seq<byte>)
    requires StoredUpTo(d, bs, blocks, content, |blocks|) && OnlyIn(d, d', bs, s) && Elements(blocks) !! s
    ensures StoredUpTo(d', bs, blocks, content, |blocks|)
  {
    forall k | 0 <= k < |blocks|
      ensures BlockAt(d', bs, blocks[k]) == BlockAt(d, bs, blocks[k])
    {
      assert blocks[k] in Elements(blocks);
    }
  }

  /** Why a file cannot be laid out: no failure is premature. */
  ghost predicate Explained(why: LayoutError, g: ExtGeometry.Geometry, useExtents: bool, used: set<nat>, spec: FileSpec)
    requires g.blockSize > 0
  {
    var free, need := FreeCount(used, g.totalBlocks), CeilDiv(|spec.content|, g.blockSize);
    match why
    case FileTooLarge => |spec.content| > MAX_SIZE
    case NoSpaceLeft => free == 0 || free < need
    case TooManyBlocks => !useExtents && need > Reach(g.blockSize / 4, 3)
    case AttributesTooBig => TooBig(spec.attrs, g.inodeSize, g.blockSize)
  }

  /** A file that is on the device from nothing on, in its own new blocks. */
  ghost predicate NewOn(l: Layouter, on: FileOn, inode: Inode, spec: FileSpec, used0: set<nat>, owner0: map<nat, Owner>,
                        file: nat)
    reads l, l.al, l.al.words, l.dev
  {
    && on.inode == inode && on.spec == spec && Holds(l.dev.data, l.geo.blockSize, on)
    && Distinct(on.blocks) && Elements(on.blocks) !! on.index
    && AclBlocks(inode.attrs) !! Elements(on.blocks) + on.index
    && on.Footprint() == l.al.Used() - used0
    && l.owner == Owned(Owned(Owned(owner0, Elements(on.blocks), Data(file)), AclBlocks(inode.attrs), Attrs(file)),
                        on.index, Index(file))
  }

  lemma DataThenRest(used0: set<nat>, used1: set<nat>, used2: set<nat>, blocks: set<nat>, rest: set<nat>)
    requires used1 == used0 + blocks && blocks !! used0 && used1 <= used2 && rest == used2 - used1
    ensures blocks !! rest && blocks + rest == used2 - used0
  {
  }

  /** buildFile. */
  method BuildFile(l: Layouter, spec: FileSpec, hashes: Hashes, ghost file: nat) returns (r: Laid<Inode>,
          ghost on: FileOn)
    requires l.Valid() && 0 in l.al.Used() && l.geo.totalBlocks <= TWO32
    requires ExtGeometry.ValidBlockSize(l.geo.blockSize) && l.geo.blockSize > 0 && l.geo.inodeSize in {128, 256}
    requires ShortNames(spec.attrs)
    modifies l`owner, l`curMeta, l`index, l.al, l.al.words, l.used, l.dev
    ensures l.Valid() && old(l.al.Used()) <= l.al.Used()
    ensures OnlyIn(old(l.dev.data), l.dev.data, l.geo.blockSize, l.al.Used() - old(l.al.Used()))
    ensures r == Failure(FileTooLarge) <==> |spec.content| >= 0x1_0000_0000
    ensures r.Success? && on.blocks != [] && (l.useExtents ==> |on.blocks| <= 32768) ==>
      Whole(on.blocks, old(l.al.Used()), l.geo.totalBlocks)
    ensures r.Failure? ==> Explained(r.error, l.geo, l.useExtents, l.al.Used(), spec)
    ensures r.Success? ==> NewOn(l, on, r.value, spec, old(l.al.Used()), old(l.owner), file)
  {
    hide OnlyIn, Owned, Bitmap.Used, Layouter.Valid, Mapped, SectorsOf, Sectors, Distinct, StoredUpTo, CeilDiv,
         FreeCount, Elements, ExtGeometry.ValidBlockSize, Reach, AttrsHold, TooBig, ShortNames, AclBlocks, Whole;
    on := FileOn(Inode(0, Table([]), 0, Placement([], 0)), spec, [], {});
    ghost var used0, dev0 := l.al.Used(), l.dev.data;
    var bs, content := l.geo.blockSize, spec.content;
    OnlyInNothing(dev0, bs, {});
    assert l.al.Used() - used0 == {};
    if |content| > MAX_SIZE {
      return Failure(FileTooLarge), on;
    }
    BlocksOfSize(|content|, bs);
    var a := l.AllocBlocks(CeilDiv(|content|, bs), Data(file));
    if a.Err? {
      return Failure(NoSpaceLeft), on;
    }
    var blocks := a.value;
    l.WriteContent(content, blocks);
    ghost var used1, dev1 := l.al.Used(), l.dev.data;
    ghost var index;
    r, index := MapInode(l, |content|, blocks, spec.attrs, hashes, file);
    ghost var rest := l.al.Used() - used1;
    DataThenRest(used0, used1, l.al.Used(), Elements(blocks), rest);
    OnlyInChain(dev0, dev1, l.dev.data, bs, Elements(blocks), rest, l.al.Used() - used0);
    if r.Success? {
      StoredFrame(dev1, l.dev.data, bs, rest, blocks, content);
      on := FileOn(r.value, spec, blocks, index);
    }
  }
}
