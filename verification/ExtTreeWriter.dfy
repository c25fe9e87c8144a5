/** pkg/ext/format.go: the layout pass over a tree. */
module ExtTreeWriter {
  import opened Sizes
  import opened Modes
  import opened Names
  import opened Bytes
  import opened Text
  import opened Files
  import opened Alloc
  import opened RunAllocation
  import ExtGeometry
  import ExtIndirect
  import opened ExtLayout
  import opened ExtXattrArea
  import opened ExtAttrs
  import opened ExtFiles
  import opened ExtDir
  import opened ExtBuild
  import opened ExtRun
  import opened ExtTree

  type Ino = map<nat, nat>

  // ----- Why a node cannot be laid out.

  /** What the blocks of a node hold. */
  ghost predicate NodeData(t: Tree, ino: Ino, n: nat, bs: nat, content: seq<byte>)
    requires n < |t|
  {
    match t[n].mode.kind
    case Dir => IsDirectory(t, ino, n, bs, content)
    case Regular => content == t[n].content
    case Symlink => content == if |t[n].target| < FAST_SYMLINK_MAX then [] else t[n].target
    case _ => content == []
  }

  ghost predicate DataExplained(t: Tree, ino: Ino, n: nat, why: LayoutError, g: Geometry, useExtents: bool,
          used: set<nat>, content: seq<byte>)
    requires n < |t| && g.blockSize > 0
  {
    NodeData(t, ino, n, g.blockSize, content) && Explained(why, g, useExtents, used, FileSpec(content, t[n].attrs))
  }

  /** Its data, its block map or its attributes do not fit. */
  ghost predicate NodeExplained(t: Tree, ino: Ino, n: nat, why: LayoutError, g: Geometry, useExtents: bool,
          used: set<nat>)
    requires n < |t| && g.blockSize > 0
  {
    exists content :: DataExplained(t, ino, n, why, g, useExtents, used, content)
  }

  /** Some node of the tree cannot be laid out. */
  ghost predicate TreeExplained(t: Tree, ino: Ino, why: LayoutError, g: Geometry, useExtents: bool, used: set<nat>)
    requires g.blockSize > 0
  {
    exists n :: 0 <= n < |t| && Reachable(t, n) && NodeExplained(t, ino, n, why, g, useExtents, used)
  }

  // ----- One node.

  /** A node is on the device, in new blocks. */
  ghost predicate NodeLaid(l: Layouter, t: Tree, ino: Ino, n: nat, d: DiskInode, f: FileOn, used0: set<nat>,
                           owner0: map<nat, Owner>, file: nat)
    reads l, l.al, l.al.words, l.dev
  {
    NewOn(l, f, d.file, f.spec, used0, owner0, file) && NodeOn(t, ino, n, l.geo.blockSize, d, f)
  }

  /** The device is small enough for block and sector numbers of 32 bits. */
  ghost predicate SmallDevice(g: Geometry) {
    g.totalBlocks * g.blockSize <= ExtGeometry.TIB
  }

  ghost predicate Ready(l: Layouter, t: Tree, ino: Ino, n: nat)
    reads l, l.al, l.al.words, l.used
  {
    && WellNumbered(t) && Numbered(t, ino, n) && Numbering32(ino)
    && CanLay(l, t[n].attrs) && l.geo.blockSize >= 1024 && SmallDevice(l.geo)
  }

  ghost predicate Numbering32(ino: Ino) {
    forall a :: a in ino ==> 0 < ino[a] < TWO32
  }

  lemma DentriesValid(t: Tree, ino: Ino, n: nat, parent: nat)
    requires WellNumbered(t) && Numbered(t, ino, n) && Numbering32(ino) && 0 < parent < TWO32
    ensures ValidDentries(Dentries(t, ino, n, parent)) && Dentries(t, ino, n, parent) != []
  {
    var names := Sorted(t[n].kids.Keys);
    SortedElements(t[n].kids.Keys);
    var es := KidDentries(t, ino, n, names);
    assert GoodNode(t, n);
    forall i | 0 <= i < |es|
      ensures ValidDentry(es[i])
    {
      assert names[i] in names;
      assert GoodKid(t, n, names[i], t[n].kids[names[i]]);
    }
  }

  /** Every block of a directory is whole. */
  lemma {:induction false} BlocksSized(parts: seq<seq<byte>>, es: seq<Dentry>, bs: nat, i: nat)
    requires i <= |es| && bs >= 1024 && ValidDentries(es) && ExtDir.Blocks(parts, es, bs, i)
    ensures AllOf(parts, bs) && |parts| == BlockCount(es, bs, i)
    decreases |es| - i
  {
    hide Finished;
    if i < |es| {
      Progress(es, bs, i);
      var j := BlockEnd(es, bs, i, i);
      BlocksSized(parts[1..], es, bs, j);
      FinishedSize(parts[0], es, bs, i, j);
      forall k | 0 <= k < |parts|
        ensures |parts[k]| == bs
      {
        if k > 0 {
          assert parts[k] == parts[1..][k - 1];
        }
      }
    }
  }

  lemma FinishedSize(b: seq<byte>, es: seq<Dentry>, bs: nat, i: nat, j: nat)
    requires Finished(b, es, bs, i, j)
    ensures |b| == bs
  {
  }

  /** The dentries of a directory, in order. */
  method ListDir(t: Tree, ino: Ino, n: nat, parent: nat) returns (es: seq<Dentry>)
    requires Numbered(t, ino, n)
    ensures es == Dentries(t, ino, n, parent)
  {
    hide KidDentry, Dots;
    var names := SortNames(t[n].kids.Keys);
    SortedElements(t[n].kids.Keys);
    es := Dots(ino[n], parent);
    for i := 0 to |names|
      invariant es == Dots(ino[n], parent) + KidDentries(t, ino, n, names)[..i]
    {
      assert names[i] in names;
      es := es + [KidDentry(t, ino, n, names[i])];
    }
  }

  /** buildDir. */
  method LayDir(l: Layouter, t: Tree, ino: Ino, n: nat, parent: nat, hashes: Hashes, ghost file: nat)
      returns (r: Laid<DiskInode>, ghost f: FileOn)
    requires Ready(l, t, ino, n) && t[n].IsDir() && 0 < parent < TWO32 && ParentOf(t, ino, n, parent)
    requires DirFits(t[n], l.geo.blockSize)
    modifies l`owner, l`curMeta, l`index, l.al, l.al.words, l.used, l.dev
    ensures l.Valid() && old(l.al.Used()) <= l.al.Used()
    ensures OnlyIn(old(l.dev.data), l.dev.data, l.geo.blockSize, l.al.Used() - old(l.al.Used()))
    ensures r.Success? ==> NodeLaid(l, t, ino, n, r.value, f, old(l.al.Used()), old(l.owner), file)
    ensures r.Failure? ==> NodeExplained(t, ino, n, r.error, l.geo, l.useExtents, l.al.Used())
  {
    hide OnlyIn, NewOn, Bitmap.Used, Layouter.Valid, ExtGeometry.ValidBlockSize, ShortNames, WellNumbered, Dentries,
         ExtDir.Blocks, ValidDentries, AllOf, Flat, IsDirectory, ParentOf, Numbering32, Explained;
    var bs := l.geo.blockSize;
    DentriesValid(t, ino, n, parent);
    var es := ListDir(t, ino, n, parent);
    var parts := BuildDirBlocks(es, bs);
    BlocksSized(parts, es, bs, 0);
    ConcatSize(parts, bs);
    ListingCounts(t, ino, n, parent, bs);
    var inode;
    inode, f := BuildBlocks(l, parts, t[n].attrs, hashes, file);
    assert IsDirectory(t, ino, n, bs, Flat(parts)) by {
      assert DirBlocks(t, ino, n, bs, Flat(parts), parent, parts);
      MadeDirectory(t, ino, n, bs, Flat(parts), parent, parts);
    }
    if inode.Failure? {
      assert DataExplained(t, ino, n, inode.error, l.geo, l.useExtents, l.al.Used(), Flat(parts));
      return Failure(inode.error), f;
    }
    NewFile(l, f, inode.value, FileSpec(Flat(parts), t[n].attrs), old(l.al.Used()), old(l.owner), file);
    return Success(DiskInode(t[n].mode, |parts| * bs, [], inode.value)), f;
  }

  lemma ListingCounts(t: Tree, ino: Ino, n: nat, parent: nat, bs: nat)
    requires Numbered(t, ino, n)
    ensures BlockCount(Dentries(t, ino, n, parent), bs, 0) * bs == DirSize(t[n], bs)
  {
    SortedElements(t[n].kids.Keys);
    CountByNames(Dentries(t, ino, n, parent), Listing(t[n]), bs, 0);
  }

  lemma MadeDirectory(t: Tree, ino: Ino, n: nat, bs: nat, content: seq<byte>, parent: nat, parts: seq<seq<byte>>)
    requires DirBlocks(t, ino, n, bs, content, parent, parts) && ParentOf(t, ino, n, parent)
    ensures IsDirectory(t, ino, n, bs, content)
  {
  }

  lemma NewFile(l: Layouter, f: FileOn, inode: Inode, spec: FileSpec, used0: set<nat>, owner0: map<nat, Owner>,
          file: nat)
    requires NewOn(l, f, inode, spec, used0, owner0, file)
    ensures f.inode == inode && f.spec == spec && inode.size == |spec.content|
  {
    hide Owned, Mapped, StoredUpTo, AttrsHold, CeilDiv, ExtIndirect.SectorsOf;
  }

  // ----- Links.

  lemma UsedInDevice(l: Layouter)
    requires l.Valid()
    ensures l.al.Used() <= Span(0, l.geo.totalBlocks)
  {
    hide Bitmap.Used;
    assert forall b :: b in l.al.Used() ==> b < |l.used[..]|;
  }

  lemma {:induction false} DistinctSize(s: seq<nat>)
    requires Distinct(s)
    ensures |Elements(s)| == |s|
    decreases |s|
  {
    if s == [] {
      assert Elements(s) == {};
    } else {
      var n := |s| - 1;
      DistinctSize(s[..n]);
      assert Elements(s) == Elements(s[..n]) + {s[n]};
      assert s[n] !in Elements(s[..n]);
    }
  }

  lemma UnionSize(s: set<nat>, t: set<nat>)
    requires s !! t
    ensures |s + t| == |s| + |t|
  {
  }

  lemma FootprintSize(f: FileOn)
    requires Distinct(f.blocks) && Elements(f.blocks) !! f.index
    requires AclBlocks(f.inode.attrs) !! Elements(f.blocks) + f.index
    ensures |f.Footprint()| == |f.blocks| + |AclBlocks(f.inode.attrs) + f.index|
    ensures |AclBlocks(f.inode.attrs) + f.index| == |AclBlocks(f.inode.attrs)| + |f.index|
  {
    hide Distinct, Elements, AclBlocks;
    var acl := AclBlocks(f.inode.attrs);
    DistinctSize(f.blocks);
    UnionSize(acl, f.index);
    UnionSize(Elements(f.blocks), acl + f.index);
    assert f.Footprint() == Elements(f.blocks) + (acl + f.index);
  }

  lemma NewIsApart(l: Layouter, f: FileOn, inode: Inode, spec: FileSpec, used0: set<nat>, owner0: map<nat, Owner>,
          file: nat)
    requires NewOn(l, f, inode, spec, used0, owner0, file)
    ensures f.inode == inode && Distinct(f.blocks) && Elements(f.blocks) !! f.index
    ensures AclBlocks(inode.attrs) !! Elements(f.blocks) + f.index && f.Footprint() <= l.al.Used()
    ensures inode.sectors == ExtIndirect.SectorsOf(|f.blocks|, AclBlocks(inode.attrs) + f.index, l.geo.blockSize)
    ensures |f.blocks| == CeilDiv(|spec.content|, l.geo.blockSize)
  {
    hide Owned, Mapped, StoredUpTo, AttrsHold, CeilDiv, ExtIndirect.SectorsOf, Elements, AclBlocks, Bitmap.Used,
         Distinct;
  }

  /** A target that has blocks of its own is told from one in the inode by its sectors. */
  lemma SlowIsSeen(l: Layouter, f: FileOn, inode: Inode, spec: FileSpec, used0: set<nat>, owner0: map<nat, Owner>,
          file: nat)
    requires l.Valid() && SmallDevice(l.geo) && l.geo.blockSize >= 1024
    requires NewOn(l, f, inode, spec, used0, owner0, file) && spec.content != []
    ensures inode.sectors > EaSectors(inode.attrs, l.geo.blockSize)
  {
    hide NewOn, Distinct, Elements, AclBlocks, Bitmap.Used, Layouter.Valid, Span, FileOn.Footprint, CeilDiv;
    var bs, acl := l.geo.blockSize, AclBlocks(inode.attrs);
    NewIsApart(l, f, inode, spec, used0, owner0, file);
    UsedInDevice(l);
    CeilDivCovers(|spec.content|, bs);
    SpanSize(0, l.geo.totalBlocks);
    FewerThan(f.Footprint(), Span(0, l.geo.totalBlocks));
    FootprintSize(f);
    AclSize(inode.attrs);
    SectorsFit(|f.blocks| + |acl + f.index|, l.geo.totalBlocks, bs, |acl|);
  }

  lemma AclSize(p: Placement)
    ensures |AclBlocks(p)| == if p.acl == 0 then 0 else 1
  {
  }

  lemma SectorsFit(n: nat, total: nat, bs: nat, acl: nat)
    requires n <= total && bs >= 1024 && total * bs <= ExtGeometry.TIB && n > acl && acl <= 1
    ensures ExtIndirect.Sectors(n, bs) > acl * (bs / 512)
  {
    var k := bs / 512;
    ScaleDown(total, k, bs);
    MulMono(n, total, k);
    MulGap(acl, n, k);
    SmallMod(n * k);
  }

  /** i_blocks counts sectors of 512 bytes, and on a small device it does not wrap. */
  lemma SectorsCount(g: Geometry, n: nat)
    requires SmallDevice(g) && ExtGeometry.ValidBlockSize(g.blockSize) && n <= g.totalBlocks
    ensures 512 * ExtIndirect.Sectors(n, g.blockSize) == n * g.blockSize
  {
    var k := g.blockSize / 512;
    assert g.blockSize == 512 * k;
    ScaleDown(g.totalBlocks, k, g.blockSize);
    MulMono(n, g.totalBlocks, k);
    SmallMod(n * k);
    assert 512 * (n * k) == n * (512 * k);
  }

  lemma ScaleDown(total: nat, k: nat, bs: nat)
    requires 512 * k <= bs && total * bs <= ExtGeometry.TIB
    ensures total * k <= 0x8000_0000
  {
    MulMono(512 * k, bs, total);
    assert (512 * k) * total == 512 * (total * k);
  }

  lemma SmallMod(x: nat)
    requires x <= 0x8000_0000
    ensures x % TWO32 == x
  {
  }

  /** buildSymlink. */
  method LayLink(l: Layouter, t: Tree, ino: Ino, n: nat, hashes: Hashes, ghost file: nat)
      returns (r: Laid<DiskInode>, ghost f: FileOn)
    requires Ready(l, t, ino, n) && t[n].mode.kind == Symlink && |t[n].target| <= MAX_SIZE
    modifies l`owner, l`curMeta, l`index, l.al, l.al.words, l.used, l.dev
    ensures l.Valid() && old(l.al.Used()) <= l.al.Used()
    ensures OnlyIn(old(l.dev.data), l.dev.data, l.geo.blockSize, l.al.Used() - old(l.al.Used()))
    ensures r.Success? ==> NodeLaid(l, t, ino, n, r.value, f, old(l.al.Used()), old(l.owner), file)
    ensures r.Failure? ==> NodeExplained(t, ino, n, r.error, l.geo, l.useExtents, l.al.Used())
  {
    hide OnlyIn, NewOn, Bitmap.Used, Layouter.Valid, ExtGeometry.ValidBlockSize, ShortNames, WellNumbered, SmallDevice, Explained;
    var target, inode := t[n].target, Failure(NoSpaceLeft);
    if |target| < FAST_SYMLINK_MAX {
      inode, f := BuildBare(l, NO_POINTERS, t[n].attrs, hashes, file);
      if inode.Failure? {
        assert DataExplained(t, ino, n, inode.error, l.geo, l.useExtents, l.al.Used(), []);
        return Failure(inode.error), f;
      }
      NewFile(l, f, inode.value, FileSpec([], t[n].attrs), old(l.al.Used()), old(l.owner), file);
      return Success(DiskInode(t[n].mode, |target|, target + Zeros(FAST_SYMLINK_MAX - |target|), inode.value)), f;
    }
    inode, f := BuildTarget(l, target, t[n].attrs, hashes, file);
    if inode.Failure? {
      assert DataExplained(t, ino, n, inode.error, l.geo, l.useExtents, l.al.Used(), target);
      return Failure(inode.error), f;
    }
    NewFile(l, f, inode.value, FileSpec(target, t[n].attrs), old(l.al.Used()), old(l.owner), file);
    SlowIsSeen(l, f, inode.value, FileSpec(target, t[n].attrs), old(l.al.Used()), old(l.owner), file);
    return Success(DiskInode(t[n].mode, |target|, [], inode.value)), f;
  }

  // ----- The others.

  /** buildSpecial. */
  method LaySpecial(l: Layouter, t: Tree, ino: Ino, n: nat, hashes: Hashes, ghost file: nat)
      returns (r: Laid<DiskInode>, ghost f: FileOn)
    requires Ready(l, t, ino, n) && t[n].mode.kind !in {Dir, Regular, Symlink}
    modifies l`owner, l`curMeta, l`index, l.al, l.al.words, l.used, l.dev
    ensures l.Valid() && old(l.al.Used()) <= l.al.Used()
    ensures OnlyIn(old(l.dev.data), l.dev.data, l.geo.blockSize, l.al.Used() - old(l.al.Used()))
    ensures r.Success? ==> NodeLaid(l, t, ino, n, r.value, f, old(l.al.Used()), old(l.owner), file)
    ensures r.Failure? ==> NodeExplained(t, ino, n, r.error, l.geo, l.useExtents, l.al.Used())
  {
    hide OnlyIn, NewOn, Bitmap.Used, Layouter.Valid, ExtGeometry.ValidBlockSize, ShortNames, WellNumbered, SmallDevice, Explained;
    var block := NO_POINTERS;
    if t[n].mode.kind == CharDevice || t[n].mode.kind == BlockDevice {
      block := DeviceTable(t[n].rdev);
    }
    var inode;
    inode, f := BuildBare(l, block, t[n].attrs, hashes, file);
    if inode.Failure? {
      assert DataExplained(t, ino, n, inode.error, l.geo, l.useExtents, l.al.Used(), []);
      return Failure(inode.error), f;
    }
    NewFile(l, f, inode.value, FileSpec([], t[n].attrs), old(l.al.Used()), old(l.owner), file);
    return Success(DiskInode(t[n].mode, 0, [], inode.value)), f;
  }

  /** buildNode, without the nodes below it. */
  method LayNode(l: Layouter, t: Tree, ino: Ino, n: nat, parent: nat, hashes: Hashes, ghost file: nat)
      returns (r: Laid<DiskInode>, ghost f: FileOn)
    requires Ready(l, t, ino, n) && 0 < parent < TWO32 && (t[n].IsDir() ==> ParentOf(t, ino, n, parent))
    requires DirFits(t[n], l.geo.blockSize) && |t[n].target| <= MAX_SIZE
    modifies l`owner, l`curMeta, l`index, l.al, l.al.words, l.used, l.dev
    ensures l.Valid() && old(l.al.Used()) <= l.al.Used()
    ensures OnlyIn(old(l.dev.data), l.dev.data, l.geo.blockSize, l.al.Used() - old(l.al.Used()))
    ensures r.Success? ==> NodeLaid(l, t, ino, n, r.value, f, old(l.al.Used()), old(l.owner), file)
    ensures r.Failure? ==> NodeExplained(t, ino, n, r.error, l.geo, l.useExtents, l.al.Used())
  {
    hide OnlyIn, NewOn, Bitmap.Used, Layouter.Valid, ExtGeometry.ValidBlockSize, ShortNames, WellNumbered, SmallDevice, Explained, ParentOf;
    if t[n].IsDir() {
      r, f := LayDir(l, t, ino, n, parent, hashes, file);
    } else if t[n].mode.kind == Symlink {
      r, f := LayLink(l, t, ino, n, hashes, file);
    } else if t[n].mode.kind == Regular {
      var spec := FileSpec(t[n].content, t[n].attrs);
      var inode;
      inode, f := BuildFile(l, spec, hashes, file);
      if inode.Failure? {
        assert DataExplained(t, ino, n, inode.error, l.geo, l.useExtents, l.al.Used(), t[n].content);
        return Failure(inode.error), f;
      }
      NewFile(l, f, inode.value, spec, old(l.al.Used()), old(l.owner), file);
      r := Success(DiskInode(t[n].mode, inode.value.size, [], inode.value));
    } else {
      r, f := LaySpecial(l, t, ino, n, hashes, file);
    }
  }

  // ----- The pass over the tree.

  /** What is built is on the device. */
  ghost predicate NodesOn(t: Tree, ino: Ino, bs: nat, built: set<nat>, inodes: map<nat, DiskInode>, on: seq<FileOn>,
                          at: map<nat, nat>)
  {
    && at.Keys == built
    && forall n :: n in built ==> NodeIsOn(t, ino, bs, n, inodes, on, at[n])
  }

  ghost predicate NodeIsOn(t: Tree, ino: Ino, bs: nat, n: nat, inodes: map<nat, DiskInode>, on: seq<FileOn>, i: nat) {
    n < |t| && n in ino && ino[n] in inodes && i < |on| && NodeOn(t, ino, n, bs, inodes[ino[n]], on[i])
  }

  lemma NodesMore(t: Tree, ino: Ino, bs: nat, built: set<nat>, inodes: map<nat, DiskInode>, on: seq<FileOn>,
                  at: map<nat, nat>, n: nat, d: DiskInode, f: FileOn)
    requires NodesOn(t, ino, bs, built, inodes, on, at) && n < |t| && n in ino && n !in built
      && NodeOn(t, ino, n, bs, d, f)
    requires forall a, b :: a in ino && b in ino && a != b ==> ino[a] != ino[b]
    ensures NodesOn(t, ino, bs, built + {n}, inodes[ino[n] := d], on + [f], at[n := |on|])
  {
    hide NodeOn;
    var inodes', on', at' := inodes[ino[n] := d], on + [f], at[n := |on|];
    forall m | m in built + {n}
      ensures NodeIsOn(t, ino, bs, m, inodes', on', at'[m])
    {
      if m != n {
        assert NodeIsOn(t, ino, bs, m, inodes, on, at[m]);
      }
    }
  }

  /** Every directory that is built and not open has its kids built. */
  ghost predicate BuiltClosed(t: Tree, built: set<nat>, open: set<nat>) {
    forall n :: n in built && n !in open && n < |t| ==> KidsIn(t, n, built)
  }

  ghost predicate Above(t: Tree, n: nat, open: set<nat>) {
    n < |t| && (t[n].IsDir() ==> forall o :: o in open ==> o < n)
  }

  ghost function Rank(t: Tree, n: nat): nat
    requires n < |t|
  {
    if t[n].IsDir() then |t| - n else 0
  }

  /** A kid, and everything below it. */
  ghost predicate KidNumbered(t: Tree, s: set<nat>, k: nat)
    requires WellNumbered(t)
  {
    k < |t| && k in s && (t[k].IsDir() ==> HoldsBelow(t, s, k))
  }

  lemma KidBelow(t: Tree, s: set<nat>, n: nat, x: string)
    requires WellNumbered(t) && n < |t| && HoldsBelow(t, s, n) && x in t[n].kids
    ensures KidNumbered(t, s, t[n].kids[x]) && GoodKid(t, n, x, t[n].kids[x])
    ensures Rank(t, t[n].kids[x]) < Rank(t, n) && t[n].IsDir()
  {
    assert GoodNode(t, n);
    assert GoodKid(t, n, x, t[n].kids[x]);
  }

  lemma BelowNumbered(t: Tree, ino: Ino, n: nat)
    requires WellNumbered(t) && n < |t| && n in ino && (t[n].IsDir() ==> HoldsBelow(t, ino.Keys, n))
    ensures Numbered(t, ino, n)
  {
    assert GoodNode(t, n);
    forall x | x in t[n].kids
      ensures t[n].kids[x] < |t| && t[n].kids[x] in ino
    {
      KidBelow(t, ino.Keys, n, x);
    }
  }

  lemma LeafHasNone(t: Tree, n: nat)
    requires WellNumbered(t) && n < |t| && !t[n].IsDir()
    ensures t[n].kids == map[]
  {
    assert GoodNode(t, n);
  }

  lemma NodeFacts(t: Tree, n: nat)
    requires WellNumbered(t) && n < |t|
    ensures ShortNames(t[n].attrs) && |t[n].target| <= MAX_SIZE
  {
    hide ShortNames;
    assert GoodNode(t, n);
  }

  /** The size field of a directory holds its size. */
  ghost predicate DirsFit(t: Tree, bs: nat) {
    forall n :: 0 <= n < |t| ==> DirFits(t[n], bs)
  }

  ghost predicate DirFits(n: Node, bs: nat) {
    n.IsDir() ==> DirSize(n, bs) <= MAX_SIZE
  }

  /** What the pass knows of the tree. */
  ghost predicate TreeOk(t: Tree, ino: Ino, bs: nat) {
    && WellNumbered(t) && DirsFit(t, bs) && Numbering32(ino)
    && (forall a, b :: a in ino && b in ino && a != b ==> ino[a] != ino[b])
  }

  /** What it knows of the device. */
  ghost predicate DeviceOk(l: Layouter)
    reads l, l.al, l.al.words, l.used
  {
    CanLay(l, map[]) && l.geo.blockSize >= 1024 && SmallDevice(l.geo) && l.owner.Keys == l.al.Used()
  }

  lemma OneReady(l: Layouter, t: Tree, ino: Ino, n: nat)
    requires TreeOk(t, ino, l.geo.blockSize) && DeviceOk(l) && n < |t| && n in ino
    requires t[n].IsDir() ==> HoldsBelow(t, ino.Keys, n)
    ensures Ready(l, t, ino, n) && DirFits(t[n], l.geo.blockSize) && |t[n].target| <= MAX_SIZE
    ensures l.owner.Keys == l.al.Used()
    ensures forall a, b :: a in ino && b in ino && a != b ==> ino[a] != ino[b]
  {
    hide WellNumbered, HoldsBelow, Layouter.Valid, Bitmap.Used, ShortNames, DirFits, SmallDevice,
         ExtGeometry.ValidBlockSize;
    BelowNumbered(t, ino, n);
    NodeFacts(t, n);
    assert DirFits(t[n], l.geo.blockSize);
  }

  lemma DeviceFacts(l: Layouter)
    requires DeviceOk(l)
    ensures 0 in l.al.Used() && l.geo.totalBlocks <= TWO32 && ExtGeometry.ValidBlockSize(l.geo.blockSize)
    ensures l.geo.inodeSize in {128, 256} && l.geo.blockSize >= 1024 && SmallDevice(l.geo)
  {
    hide Bitmap.Used, Mirror, Layouter.Valid;
  }

  /** Laying out more does not change that. */
  lemma StillOk(l: Layouter, used0: set<nat>)
    requires l.Valid() && used0 <= l.al.Used() && 0 in used0 && l.geo.totalBlocks <= TWO32
    requires ExtGeometry.ValidBlockSize(l.geo.blockSize) && l.geo.inodeSize in {128, 256} && l.geo.blockSize >= 1024
    requires SmallDevice(l.geo)
    ensures DeviceOk(l)
  {
    hide Bitmap.Used, Mirror;
  }

  class TreeLayouter {
    const l: Layouter
    const t: Tree
    const hashes: Hashes
    var ino: Ino
    var next: nat
    var inodes: map<nat, DiskInode>
    var built: set<nat>
    ghost var on: seq<FileOn>
    ghost var at: map<nat, nat> // where in on a node is

    constructor (l: Layouter, t: Tree, hashes: Hashes)
      ensures this.l == l && this.t == t && this.hashes == hashes
      ensures built == {} && on == [] && at == map[] && inodes == map[] && ino == map[]
    {
      this.l, this.t, this.hashes := l, t, hashes;
      ino, next, inodes, built, on, at := map[], FIRST_FREE_INO, map[], {}, [], map[];
    }

    /** assignInodes: numbers in the order of a walk by name. */
    method AssignInodes(dir: nat)
      requires WellNumbered(t) && dir < |t| && t[dir].IsDir() && Numbering(ino, next)
      requires Reachable(t, dir) && OnlyReachable(t, ino) && Dense(ino, next)
      modifies this`ino, this`next
      ensures Numbering(ino, next) && Extends(old(ino), ino) && HoldsBelow(t, ino.Keys, dir)
      ensures OnlyReachable(t, ino) && Dense(ino, next)
      decreases |t| - dir, 1
    {
      hide Numbering, WellNumbered, HoldsBelow, KidNumbered, GoodKid, Extends, Reachable, OnlyReachable, Dense;
      ghost var ino0 := ino;
      ExtendsItself(ino);
      var names := SortNames(t[dir].kids.Keys);
      SortedElements(t[dir].kids.Keys);
      for i := 0 to |names|
        invariant Numbering(ino, next) && Extends(ino0, ino) && OnlyReachable(t, ino) && Dense(ino, next)
        invariant forall j :: 0 <= j < i ==> names[j] in t[dir].kids && KidNumbered(t, ino.Keys, t[dir].kids[names[j]])
      {
        ghost var before := ino;
        assert names[i] in names;
        AssignKid(dir, names[i]);
        ExtendsTwice(ino0, before, ino);
        forall j | 0 <= j < i
          ensures KidNumbered(t, ino.Keys, t[dir].kids[names[j]])
        {
          KidStays(t, before.Keys, ino.Keys, t[dir].kids[names[j]]);
        }
      }
      AllNumbered(t, ino.Keys, dir, names);
    }

    method AssignKid(dir: nat, name: string)
      requires WellNumbered(t) && dir < |t| && t[dir].IsDir() && Numbering(ino, next) && name in t[dir].kids
      requires Reachable(t, dir) && OnlyReachable(t, ino) && Dense(ino, next)
      modifies this`ino, this`next
      ensures Numbering(ino, next) && Extends(old(ino), ino) && KidNumbered(t, ino.Keys, t[dir].kids[name])
      ensures OnlyReachable(t, ino) && Dense(ino, next)
      decreases |t| - dir, 0
    {
      hide Numbering, WellNumbered, HoldsBelow, Extends, Reachable, Dense;
      ghost var ino0 := ino;
      var k := t[dir].kids[name];
      KidIsGood(t, dir, name);
      KidReachable(t, dir, name);
      ExtendsItself(ino);
      if k !in ino {
        OneMoreNumber(ino, next, k);
        ino := ino[k := next];
        next := next + 1;
      }
      if t[k].IsDir() {
        ghost var ino1 := ino;
        AssignInodes(k);
        ExtendsTwice(ino0, ino1, ino);
      }
      ExtendsKeys(ino0, ino);
    }

    /** Everything that is laid out so far is on the device. */
    ghost predicate Tidy()
      reads this, l, l.al, l.al.words, l.used, l.dev
    {
      && TreeOk(t, ino, l.geo.blockSize) && DeviceOk(l)
      && Owners(l.owner, l.geo, on) && AllHold(l.dev.data, l.geo.blockSize, on)
      && NodesOn(t, ino, l.geo.blockSize, built, inodes, on, at)
    }

    /** buildNode: a node, unless it is there already, and everything below it. */
    method BuildNode(n: nat, parent: nat, ghost open: set<nat>) returns (r: Laid<()>)
      requires Tidy() && n < |t| && n in ino && 0 < parent < TWO32 && (t[n].IsDir() ==> HoldsBelow(t, ino.Keys, n))
      requires Above(t, n, open) && BuiltClosed(t, built, open) && Reachable(t, n) && l.geo.blockSize > 0
      requires t[n].IsDir() ==> ParentOf(t, ino, n, parent)
      modifies this`inodes, this`built, this`on, this`at
      modifies l`owner, l`curMeta, l`index, l.al, l.al.words, l.used, l.dev
      ensures r.Success? ==> Tidy() && old(built) <= built && n in built && BuiltClosed(t, built, open)
      ensures l.Valid()
      ensures r.Failure? ==> TreeExplained(t, ino, r.error, l.geo, l.useExtents, l.al.Used())
      decreases Rank(t, n), 1
    {
      hide Tidy, HoldsBelow, WellNumbered, BuiltClosed, Above, Reachable, TreeExplained, Bitmap.Used, Layouter.Valid,
           ParentOf;
      TidyDevice();
      if n in built {
        return Success(());
      }
      r := BuildOne(n, parent, open);
      if r.Success? {
        r := BuildKids(n, open);
      }
    }

    method BuildOne(n: nat, parent: nat, ghost open: set<nat>) returns (r: Laid<()>)
      requires Tidy() && n < |t| && n in ino && n !in built && 0 < parent < TWO32
      requires t[n].IsDir() ==> HoldsBelow(t, ino.Keys, n) && ParentOf(t, ino, n, parent)
      requires BuiltClosed(t, built, open) && Reachable(t, n) && l.geo.blockSize > 0
      modifies this`inodes, this`built, this`on, this`at
      modifies l`owner, l`curMeta, l`index, l.al, l.al.words, l.used, l.dev
      ensures r.Success? ==> Tidy() && built == old(built) + {n} && BuiltClosed(t, built, open + {n})
      ensures l.Valid()
      ensures r.Failure? ==> TreeExplained(t, ino, r.error, l.geo, l.useExtents, l.al.Used())
    {
      hide TreeOk, DeviceOk, HoldsBelow, NodeOn, NodesOn, NewOn, Owners, AllHold, OnlyIn, Layouter.Valid, Bitmap.Used,
           Ready, DirFits, Reachable, NodeExplained, ParentOf;
      ghost var used0, owner0, dev0 := l.al.Used(), l.owner, l.dev.data;
      OneReady(l, t, ino, n);
      DeviceFacts(l);
      var d, f := LayNode(l, t, ino, n, parent, hashes, |on|);
      if d.Failure? {
        return Failure(d.error);
      }
      MoreOn(l, on, f, d.value.file, f.spec, used0, owner0, dev0);
      NodesMore(t, ino, l.geo.blockSize, built, inodes, on, at, n, d.value, f);
      StillOk(l, used0);
      inodes := inodes[ino[n] := d.value];
      on, at := on + [f], at[n := |on|];
      built := built + {n};
      return Success(());
    }

    method BuildKids(n: nat, ghost open: set<nat>) returns (r: Laid<()>)
      requires Tidy() && n in built && n < |t| && n in ino && (t[n].IsDir() ==> HoldsBelow(t, ino.Keys, n))
      requires Above(t, n, open) && BuiltClosed(t, built, open + {n}) && Reachable(t, n) && l.geo.blockSize > 0
      modifies this`inodes, this`built, this`on, this`at
      modifies l`owner, l`curMeta, l`index, l.al, l.al.words, l.used, l.dev
      ensures r.Success? ==> Tidy() && old(built) <= built && BuiltClosed(t, built, open)
      ensures l.Valid()
      ensures r.Failure? ==> TreeExplained(t, ino, r.error, l.geo, l.useExtents, l.al.Used())
      decreases Rank(t, n), 0
    {
      hide Tidy, WellNumbered, HoldsBelow, Reachable, TreeExplained, Bitmap.Used, Layouter.Valid, ParentOf;
      TidyDevice();
      TidyTree();
      if !t[n].IsDir() {
        LeafHasNone(t, n);
        return Success(());
      }
      var names := SortNames(t[n].kids.Keys);
      SortedElements(t[n].kids.Keys);
      for i := 0 to |names|
        invariant Tidy() && l.Valid() && old(built) <= built && BuiltClosed(t, built, open + {n})
        invariant forall j :: 0 <= j < i ==> names[j] in t[n].kids && t[n].kids[names[j]] in built
      {
        assert names[i] in names;
        KidBelow(t, ino.Keys, n, names[i]);
        KidReachable(t, n, names[i]);
        TidyTree();
        IsParent(t, ino, n, names[i]);
        r := BuildNode(t[n].kids[names[i]], ino[n], open + {n});
        if r.Failure? {
          return;
        }
      }
      r := Success(());
    }

    lemma TidyDevice()
      requires Tidy()
      ensures l.Valid()
    {
      hide WellNumbered, NodesOn, Owners, AllHold, TreeOk, Layouter.Valid;
    }

    lemma TidyTree()
      requires Tidy()
      ensures WellNumbered(t) && forall a :: a in ino ==> 0 < ino[a] < TWO32
    {
      hide WellNumbered, NodesOn, Owners, AllHold, DeviceOk;
    }
  }

  lemma IsParent(t: Tree, ino: Ino, n: nat, x: string)
    requires WellNumbered(t) && n < |t| && n in ino && t[n].IsDir() && x in t[n].kids
    ensures t[n].kids[x] < |t| && (t[t[n].kids[x]].IsDir() ==> ParentOf(t, ino, t[n].kids[x], ino[n]))
  {
    KidIsGood(t, n, x);
    assert NamedIn(t, ino, n, t[n].kids[x]);
  }

  lemma ExtendsItself(ino: Ino)
    ensures Extends(ino, ino)
  {
  }

  lemma ExtendsKeys(a: Ino, b: Ino)
    requires Extends(a, b)
    ensures a.Keys <= b.Keys
  {
  }

  lemma ExtendsTwice(a: Ino, b: Ino, c: Ino)
    requires Extends(a, b) && Extends(b, c)
    ensures Extends(a, c) && b.Keys <= c.Keys && a.Keys <= c.Keys
  {
  }

  lemma KidIsGood(t: Tree, n: nat, x: string)
    requires WellNumbered(t) && n < |t| && x in t[n].kids
    ensures GoodKid(t, n, x, t[n].kids[x])
  {
    assert GoodNode(t, n);
  }

  lemma KidStays(t: Tree, s: set<nat>, s': set<nat>, k: nat)
    requires WellNumbered(t) && KidNumbered(t, s, k) && s <= s'
    ensures KidNumbered(t, s', k)
  {
    if t[k].IsDir() {
      HoldsBelowMore(t, s, s', k);
    }
  }

  lemma AllNumbered(t: Tree, s: set<nat>, n: nat, names: seq<string>)
    requires WellNumbered(t) && n < |t| && forall x :: x in t[n].kids ==> x in names
    requires forall j :: 0 <= j < |names| ==> names[j] in t[n].kids && KidNumbered(t, s, t[n].kids[names[j]])
    ensures HoldsBelow(t, s, n)
  {
    assert GoodNode(t, n);
    forall x | x in t[n].kids
      ensures KidNumbered(t, s, t[n].kids[x])
    {
      var j :| 0 <= j < |names| && names[j] == x;
    }
  }

  lemma MoreOn(l: Layouter, on: seq<FileOn>, f: FileOn, inode: Inode, spec: FileSpec, used0: set<nat>,
               owner0: map<nat, Owner>, dev0: seq<byte>)
    requires Owners(owner0, l.geo, on) && AllHold(dev0, l.geo.blockSize, on) && owner0.Keys == used0
    requires NewOn(l, f, inode, spec, used0, owner0, |on|)
    requires OnlyIn(dev0, l.dev.data, l.geo.blockSize, l.al.Used() - used0)
    ensures Owners(l.owner, l.geo, on + [f]) && AllHold(l.dev.data, l.geo.blockSize, on + [f])
  {
    hide NewOn, Owners, AllHold, OnlyIn, Bitmap.Used, FileOwned, ExtFiles.Holds;
    FootprintNew(l, f, inode, spec, used0, owner0, |on|);
    OwnersMore(owner0, l.geo, on, f);
    AllHoldMore(dev0, l.dev.data, l.geo.blockSize, l.al.Used() - used0, on, f, owner0, l.geo);
  }
}
