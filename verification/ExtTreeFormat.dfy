/** pkg/ext/format.go: formatting a device with a tree. */
module ExtTreeFormat {
  import opened Sizes
  import opened Modes
  import opened Bytes
  import opened Files
  import opened Alloc
  import opened RunAllocation
  import ExtGeometry
  import ExtIndirect
  import opened ExtLayout
  import opened ExtAttrs
  import opened ExtFiles
  import opened ExtBuild
  import opened ExtRun
  import opened ExtAccounts
  import opened ExtTree
  import opened ExtTreeWriter

  datatype TreeOutcome =
    | TreeWritten(inodes: map<nat, DiskInode>, descs: seq<GroupDesc>, freeBlocks: nat)
    | TreeBadGeometry(error: ExtGeometry.GeometryError)
    | TooManyInodes
    | TreeFailed(reason: LayoutError)

  /** The nodes of a tree on a device, by inode number. */
  datatype Placing = Placing(t: Tree, ino: Ino, on: seq<FileOn>, at: map<nat, nat>)

  /** Everything that can be reached from the root is on the device. */
  ghost predicate TreeImage(dev: seq<byte>, bs: nat, inodes: map<nat, DiskInode>, p: Placing) {
    && WellNumbered(p.t) && Numbering32(p.ino)
    && (forall a, b :: a in p.ino && b in p.ino && a != b ==> p.ino[a] != p.ino[b])
    && NodesOn(p.t, p.ino, bs, p.at.Keys, inodes, p.on, p.at) && AllHold(dev, bs, p.on)
    && ROOT in p.at && ROOT in p.ino && p.ino[ROOT] == ROOT_INO
    && (forall n :: n in p.at && n < |p.t| ==> KidsIn(p.t, n, p.at.Keys))
  }

  /** The bitmaps and counts agree with the blocks in use. */
  ghost predicate CountsRight(dev: seq<byte>, g: Geometry, owner: map<nat, Owner>, on: seq<FileOn>,
          descs: seq<GroupDesc>,
                              freeBlocks: nat)
  {
    && ExtGeometry.WellLaidOut(g) && Owners(owner, g, on)
    && BitmapsRight(dev, g, owner.Keys, g.numGroups)
    && |descs| == g.numGroups
    && (forall gr: nat :: gr < g.numGroups ==>
          descs[gr] == GroupDesc(g.BlockBitmap(gr), g.InodeTable(gr), |FreeIn(g, gr, owner.Keys)| % TWO16))
    && freeBlocks == FreeCount(owner.Keys, g.totalBlocks)
  }

  lemma FewInodes(g: Geometry)
    requires ExtGeometry.WellLaidOut(g) && g.totalBlocks <= 0x4000_0000 && ExtGeometry.ValidBlockSize(g.blockSize)
    ensures g.inodesCount < 0x8000_0000
  {
    hide ExtGeometry.HasSuperblock, ExtGeometry.WellLaidOut;
    InodeFacts(g);
    var last := g.numGroups - 1;
    GroupInside(g, last);
    FewOf(g.inodesPerGroup, g.blocksPerGroup, last, g.totalBlocks);
  }

  lemma InodeFacts(g: Geometry)
    requires ExtGeometry.WellLaidOut(g) && ExtGeometry.ValidBlockSize(g.blockSize)
    ensures g.numGroups > 0 && g.inodesPerGroup <= g.blocksPerGroup <= 524288
    ensures g.inodesCount == g.inodesPerGroup * g.numGroups
  {
    hide ExtGeometry.HasSuperblock;
  }

  lemma FewOf(ipg: nat, bpg: nat, last: nat, total: nat)
    requires ipg <= bpg <= 524288 && last * bpg < total <= 0x4000_0000
    ensures ipg * (last + 1) < 0x8000_0000
  {
    MulMono(ipg, bpg, last + 1);
    assert bpg * (last + 1) == last * bpg + bpg;
  }

  lemma ScaleSmall(g: Geometry, devSize: nat)
    requires devSize <= ExtGeometry.TIB && g.blockSize > 0 && g.totalBlocks <= devSize / g.blockSize
    ensures SmallDevice(g)
  {
    var q := devSize / g.blockSize;
    assert q * g.blockSize <= devSize;
    MulMono(g.totalBlocks, q, g.blockSize);
  }

  /** Pass A of run: the root and lost+found have their own numbers. */
  method NumberAll(b: TreeLayouter)
    requires WellNumbered(b.t) && LOST_FOUND in b.t[ROOT].kids
    modifies b`ino, b`next
    ensures Numbering(b.ino, b.next) && HoldsBelow(b.t, b.ino.Keys, ROOT)
    ensures OnlyReachable(b.t, b.ino) && Dense(b.ino, b.next)
    ensures ROOT in b.ino && b.ino[ROOT] == ROOT_INO
    ensures b.t[ROOT].kids[LOST_FOUND] in b.ino && b.ino[b.t[ROOT].kids[LOST_FOUND]] == LOST_FOUND_INO
  {
    hide WellNumbered, HoldsBelow, Reachable;
    RootKid(b.t);
    RootReachable(b.t);
    KidReachable(b.t, ROOT, LOST_FOUND);
    b.ino := map[ROOT := ROOT_INO, b.t[ROOT].kids[LOST_FOUND] := LOST_FOUND_INO];
    b.next := FIRST_FREE_INO;
    assert b.ino.Keys == {ROOT, b.t[ROOT].kids[LOST_FOUND]};
    b.AssignInodes(ROOT);
  }

  lemma RootKid(t: Tree)
    requires WellNumbered(t) && LOST_FOUND in t[ROOT].kids
    ensures t[ROOT].kids[LOST_FOUND] != ROOT && t[ROOT].IsDir() && |t| > 0
  {
    KidIsGood(t, ROOT, LOST_FOUND);
  }

  lemma SmallNumbers(ino: Ino, next: nat, most: nat)
    requires Numbering(ino, next) && next - 1 <= most < 0x8000_0000
    ensures Numbering32(ino) && forall a, b :: a in ino && b in ino && a != b ==> ino[a] != ino[b]
  {
  }

  /** Before the first node. */
  lemma StartsTidy(b: TreeLayouter)
    requires TreeOk(b.t, b.ino, b.l.geo.blockSize) && DeviceOk(b.l)
    requires Owners(b.l.owner, b.l.geo, []) && b.on == [] && b.at == map[] && b.built == {}
    ensures b.Tidy() && BuiltClosed(b.t, b.built, {}) && Above(b.t, ROOT, {})
  {
    hide Owners, TreeOk, DeviceOk;
    TreeStarts(b.t, b.ino, b.l.geo.blockSize);
  }

  lemma TreeStarts(t: Tree, ino: Ino, bs: nat)
    requires TreeOk(t, ino, bs)
    ensures |t| > 0
  {
  }

  lemma NewDevice(l: Layouter)
    requires l.Valid() && 0 in l.al.Used() && l.geo.totalBlocks <= 0x4000_0000
    requires ExtGeometry.ValidBlockSize(l.geo.blockSize) && l.geo.inodeSize in {128, 256} && SmallDevice(l.geo)
    ensures DeviceOk(l)
  {
    hide Bitmap.Used, Mirror;
  }

  /** After the last one. */
  lemma EndsTidy(b: TreeLayouter)
    requires b.Tidy() && ROOT in b.built && ROOT in b.ino && b.ino[ROOT] == ROOT_INO && BuiltClosed(b.t, b.built, {})
    ensures b.l.Valid() && Owners(b.l.owner, b.l.geo, b.on) && AllHold(b.l.dev.data, b.l.geo.blockSize, b.on)
    ensures forall dev :: AllHold(dev, b.l.geo.blockSize, b.on) ==>
      TreeImage(dev, b.l.geo.blockSize, b.inodes, Placing(b.t, b.ino, b.on, b.at))
  {
    hide Owners, AllHold, NodeOn, WellNumbered, DirsFit, Layouter.Valid, Bitmap.Used;
  }

  lemma CountsMade(dev: seq<byte>, g: Geometry, owner: map<nat, Owner>, on: seq<FileOn>, descs: seq<GroupDesc>,
          free: nat)
    requires ExtGeometry.WellLaidOut(g) && Owners(owner, g, on) && BitmapsRight(dev, g, owner.Keys, g.numGroups)
    requires |descs| == g.numGroups && free == FreeCount(owner.Keys, g.totalBlocks)
    requires forall gr: nat :: gr < g.numGroups ==>
      descs[gr] == GroupDesc(g.BlockBitmap(gr), g.InodeTable(gr), |FreeIn(g, gr, owner.Keys)| % TWO16)
    ensures CountsRight(dev, g, owner, on, descs, free)
  {
    hide ExtGeometry.WellLaidOut, Owners, BitmapsRight, FreeIn, FreeCount;
  }

  lemma NodeStarts(b: TreeLayouter)
    requires b.Tidy()
    ensures Reachable(b.t, ROOT) && b.l.geo.blockSize > 0
  {
    hide Owners, AllHold, NodesOn, WellNumbered, DirsFit, Layouter.Valid, Bitmap.Used, Reachable;
    RootReachable(b.t);
  }

  /** run, from the reserved metadata on. */
  method LayTree(b: TreeLayouter)
      returns (r: TreeOutcome, ghost owner: map<nat, Owner>, ghost p: Placing)
    requires b.l.Valid() && b.l.al.Used() == {} && ExtGeometry.WellLaidOut(b.l.geo) && b.l.geo.firstDataBlock <= 1
    requires b.l.geo.totalBlocks <= 0x4000_0000 && SmallDevice(b.l.geo)
    requires ExtGeometry.ValidBlockSize(b.l.geo.blockSize) && b.l.geo.inodeSize in {128, 256}
    requires TreeOk(b.t, b.ino, b.l.geo.blockSize) && HoldsBelow(b.t, b.ino.Keys, ROOT)
    requires ROOT in b.ino && b.ino[ROOT] == ROOT_INO
    requires b.on == [] && b.at == map[] && b.built == {}
    modifies b`inodes, b`built, b`on, b`at
    modifies b.l`owner, b.l`curMeta, b.l`index, b.l.al, b.l.al.words, b.l.used, b.l.dev
    ensures p.t == b.t && p.ino == b.ino && !r.TreeBadGeometry? && !r.TooManyInodes?
    ensures r.TreeFailed? ==>
      b.l.geo.blockSize > 0 && TreeExplained(b.t, b.ino, r.reason, b.l.geo, b.l.useExtents, owner.Keys)
    ensures r.TreeWritten? ==>
      && TreeImage(b.l.dev.data, b.l.geo.blockSize, r.inodes, p)
      && CountsRight(b.l.dev.data, b.l.geo, owner, p.on, r.descs, r.freeBlocks)
  {
    hide Layouter.Valid, Bitmap.Used, ExtGeometry.WellLaidOut, FreeCount, Owners, AllHold, TreeLayouter.Tidy,
         DeviceOk, TreeOk, BitmapsRight, HoldsBelow, CountsRight, TreeImage, FreeIn, SmallDevice, TreeExplained,
         Reachable;
    var l := b.l;
    ReserveMetadata(l);
    KeysUsed(l);
    NewDevice(l);
    TreeStarts(b.t, b.ino, l.geo.blockSize);
    StartsTidy(b);
    NodeStarts(b);
    assert ParentOf(b.t, b.ino, ROOT, ROOT_INO);
    var built := b.BuildNode(ROOT, ROOT_INO, {});
    owner, p := l.owner, Placing(b.t, b.ino, b.on, b.at);
    if built.Failure? {
      KeysUsed(l);
      return TreeFailed(built.error), owner, p;
    }
    EndsTidy(b);
    KeysUsed(l);
    MetaUsed(owner, l.geo, b.on);
    WriteBlockBitmaps(l, b.on);
    var descs, total := FreeCounts(l);
    FreeFits(l.al.Used(), l.geo.totalBlocks);
    CountsMade(l.dev.data, l.geo, owner, b.on, descs, total);
    return TreeWritten(b.inodes, descs, total), owner, p;
  }

  lemma NotEmpty(t: Tree)
    requires WellNumbered(t)
    ensures t != []
  {
  }

  /** run, over a new device: geometry, inode numbers, and the rest. */
  method FormatTree(dev: File, devSize: nat, blockSize: nat, inodeSize: nat, useExtents: bool, tree: Tree,
          hashes: Hashes)
      returns (r: TreeOutcome, ghost g: Geometry, ghost owner: map<nat, Owner>, ghost p: Placing)
    requires inodeSize in {0, 128, 256} && devSize <= ExtGeometry.TIB && WellNumbered(tree)
    requires DirsFit(WithLostFound(tree), if blockSize == 0 then 1024 else blockSize)
    modifies dev
    ensures p.t == WithLostFound(tree)
    ensures r.TreeBadGeometry? ==> ExtGeometry.Refused(r.error, devSize, blockSize, inodeSize)
    ensures !r.TreeBadGeometry? ==>
      && AllNumbers(p.t, p.ino)
      && (r.TooManyInodes? <==> |p.ino| + 9 > g.inodesCount)
    ensures r.TreeFailed? ==> g.blockSize > 0 && TreeExplained(p.t, p.ino, r.reason, g, useExtents, owner.Keys)
    ensures r.TreeWritten? ==>
      && g.blockSize == (if blockSize == 0 then 1024 else blockSize) && g.blockSize >= 1024
      && TreeImage(dev.data, g.blockSize, r.inodes, p)
      && CountsRight(dev.data, g, owner, p.on, r.descs, r.freeBlocks)
  {
    hide Layouter.Valid, Bitmap.Used, ExtGeometry.WellLaidOut, ExtGeometry.HasSuperblock, ExtGeometry.Settled,
         ExtGeometry.Sized, ExtGeometry.Cut, WellNumbered, HoldsBelow, Numbering, DirsFit, SmallDevice, CountsRight,
         TreeImage, WithLostFound, ExtGeometry.Refused, TreeExplained, Reachable, OnlyReachable;
    NotEmpty(tree);
    var t := WithLostFound(tree);
    LostFoundKeeps(tree);
    owner, p := map[], Placing(t, map[], [], map[]);
    var geo := ExtGeometry.ComputeGeometry(devSize, blockSize, inodeSize);
    if geo.Err? {
      g := ExtGeometry.Geometry(0, 0, 0, 0, 0, 0, 0, 0, 0, 0);
      return TreeBadGeometry(geo.error), g, owner, p;
    }
    g := geo.value;
    SmallEnough(geo.value, devSize);
    ScaleSmall(geo.value, devSize);
    FewInodes(geo.value);
    var l := new Layouter(geo.value, dev, useExtents);
    var b := new TreeLayouter(l, t, hashes);
    NumberAll(b);
    if b.next - 1 > geo.value.inodesCount {
      return TooManyInodes, g, owner, Placing(t, b.ino, [], map[]);
    }
    SmallNumbers(b.ino, b.next, geo.value.inodesCount);
    r, owner, p := LayTree(b);
  }
}
