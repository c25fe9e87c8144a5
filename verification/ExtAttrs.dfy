/** pkg/ext/format.go and reader.go: where the attributes of a file are put, and how they are found again. */
module ExtAttrs {
  import opened Bytes
  import opened Files
  import opened Alloc
  import opened RunAllocation
  import ExtGeometry
  import opened ExtLayout
  import opened ExtXattr
  import opened ExtXattrArea

  const GOOD_OLD_INODE_SIZE: nat := 128
  const EXTRA_ISIZE: nat := 32

  type Attributes = map<string, seq<byte>>

  /** The hash functions of a block, whatever they are. */
  datatype Hashes = Hashes(entry: EntryHash, block: (nat, nat) -> nat)

  /** The attribute body of an inode, and its attribute block, or 0. */
  datatype Placement = Placement(body: seq<byte>, acl: nat)

  datatype PlaceError = AttrsTooBig | Full

  datatype Placed = Put(where: Placement) | Failed(error: PlaceError)

  /** The blocks that hold attributes. */
  function AclBlocks(p: Placement): set<nat> {
    if p.acl == 0 then {} else {p.acl}
  }

  /** What a reader finds: the inode body, then the block. */
  function AttrsAt(dev: seq<byte>, bs: nat, p: Placement): Attributes {
    if p.acl == 0 then IbodyAttrs(p.body) else IbodyAttrs(p.body) + BlockAttrs(BlockAt(dev, bs, p.acl))
  }

  /** Attributes of which none has the empty name are all there. */
  ghost predicate AttrsHold(dev: seq<byte>, bs: nat, p: Placement, x: Attributes) {
    AttrsAt(dev, bs, p) == x <==> "" !in x
  }

  lemma AttrsFrame(d: seq<byte>, d': seq<byte>, bs: nat, s: set<nat>, p: Placement, x: Attributes)
    requires AttrsHold(d, bs, p, x) && OnlyIn(d, d', bs, s) && AclBlocks(p) !! s
    ensures AttrsHold(d', bs, p, x)
  {
    hide IbodyAttrs, BlockAttrs;
    if p.acl != 0 {
      assert p.acl in AclBlocks(p);
      assert BlockAt(d', bs, p.acl) == BlockAt(d, bs, p.acl);
    }
  }

  /** readXattrs. */
  method ReadXattrs(dev: File, bs: nat, p: Placement) returns (out: Attributes)
    ensures out == AttrsAt(dev.data, bs, p)
  {
    hide IbodyAttrs, BlockAttrs, Slice;
    out := DecodeIbody(p.body);
    if p.acl == 0 {
      return;
    }
    var block := dev.Read(p.acl * bs, bs);
    var fromBlock := DecodeBlock(block);
    out := out + fromBlock;
  }

  /** The space for attributes past the fields of an inode. */
  function BodySpace(inodeSize: nat): nat {
    if inodeSize >= GOOD_OLD_INODE_SIZE + EXTRA_ISIZE then inodeSize - GOOD_OLD_INODE_SIZE - EXTRA_ISIZE else 0
  }

  /** The attributes fit neither in an inode nor in a block. */
  ghost predicate TooBig(x: Attributes, inodeSize: nat, bs: nat) {
    exists es :: Listed(es, x)
      && BLOCK_HEADER + AreaSize(es) > bs
      && (inodeSize > GOOD_OLD_INODE_SIZE ==> IBODY_HEADER + AreaSize(es) > BodySpace(inodeSize))
  }

  ghost predicate Listed(es: seq<Entry>, x: Attributes) {
    InOrder(es) && ListsNames(es, x, x.Keys) && es != []
  }

  /** An inode of 256 bytes has room for 96 bytes of attributes, and gets them exactly if they fit; otherwise it gets
      the number of a block. */
  ghost predicate PutRight(p: Placement, es: seq<Entry>, g: ExtGeometry.Geometry) {
    && (p.acl == 0 <==> g.inodeSize > 128 && 4 + AreaSize(es) <= g.inodeSize - 160)
    && (if p.acl == 0 then |p.body| == g.inodeSize - 160 else p.body == [])
  }

  ghost predicate PlacedRight(p: Placement, x: Attributes, g: ExtGeometry.Geometry) {
    if x == map[] then p == Placement([], 0) else exists es :: Listed(es, x) && PutRight(p, es, g)
  }

  lemma ListedIs(es: seq<Entry>, x: Attributes)
    requires InOrder(es) && ListsNames(es, x, x.Keys) && es != []
    ensures Listed(es, x)
  {
  }

  /** placeXattrs: in the inode when they fit there, in a block of their own when they do not. */
  method PlaceXattrs(l: Layouter, x: Attributes, hashes: Hashes, ghost file: nat) returns (r: Placed)
    requires l.Valid() && 0 in l.al.Used() && ShortNames(x)
    requires ExtGeometry.ValidBlockSize(l.geo.blockSize) && l.geo.inodeSize in {128, 256}
    modifies l`owner, l.al, l.al.words, l.used, l.dev
    ensures l.Valid()
    ensures r.Failed? ==> l.al.Used() == old(l.al.Used()) && l.dev.data == old(l.dev.data) && l.owner == old(l.owner)
    ensures r == Failed(AttrsTooBig) ==> TooBig(x, l.geo.inodeSize, l.geo.blockSize)
    ensures r == Failed(Full) ==> FreeCount(l.al.Used(), l.geo.totalBlocks) == 0
    ensures r.Put? ==> PlacedRight(r.where, x, l.geo)
    ensures r.Put? ==>
      && AttrsHold(l.dev.data, l.geo.blockSize, r.where, x)
      && AclBlocks(r.where) !! old(l.al.Used()) && l.al.Used() == old(l.al.Used()) + AclBlocks(r.where)
      && OnlyIn(old(l.dev.data), l.dev.data, l.geo.blockSize, AclBlocks(r.where))
      && l.owner == Owned(old(l.owner), AclBlocks(r.where), Attrs(file))
  {
    hide Layouter.Valid, OnlyIn, Owned, Bitmap.Used, FreeCount, InOrder, ListsNames, AreaSize, AreaHolds, Get, Listed,
         ValidEntries, ShortNames, IbodyAttrs, BlockAttrs, Elements, Slice;
    var bs := l.geo.blockSize;
    NotPlaced(l, file);
    if x == map[] {
      NothingInBody();
      return Put(Placement([], 0));
    }
    var es := SortedXattrs(x);
    ShortEntries(es, x);
    ListedEmpty(es, x);
    ListedIs(es, x);
    if l.geo.inodeSize > GOOD_OLD_INODE_SIZE {
      var body := EncodeIbody(es, BodySpace(l.geo.inodeSize));
      if body.Some? {
        assert Listed(es, x) && PutRight(Placement(body.value, 0), es, l.geo);
        IbodyReads(es, x, body.value);
        return Put(Placement(body.value, 0));
      }
    }
    var block := EncodeBlock(es, bs, hashes.entry, hashes.block);
    if block.None? {
      return Failed(AttrsTooBig);
    }
    BlockReads(es, x, block.value, 0);
    ghost var was := l.al.Used();
    var blocks := l.AllocBlocks(1, Attrs(file));
    if blocks.Err? {
      return Failed(Full);
    }
    var b := blocks.value[0];
    assert b in Elements(blocks.value) by { OneElement(blocks.value); }
    assert Elements(blocks.value) == {b} by { OneElement(blocks.value); }
    l.WriteBlock(b, block.value);
    assert Listed(es, x) && PutRight(Placement([], b), es, l.geo);
    NothingInBody();
    return Put(Placement([], b));
  }

  lemma OneElement(s: seq<nat>)
    requires |s| == 1
    ensures Elements(s) == {s[0]}
  {
  }

  lemma NothingInBody()
    ensures IbodyAttrs([]) == map[]
    ensures forall x: Attributes :: map[] + x == x
  {
  }

  /** Nothing is used and nothing changes while the attributes are in the inode. */
  lemma NotPlaced(l: Layouter, file: nat)
    ensures OnlyIn(l.dev.data, l.dev.data, l.geo.blockSize, {}) && Owned(l.owner, {}, Attrs(file)) == l.owner
  {
    OnlyInNothing(l.dev.data, l.geo.blockSize, {});
    NoBlocks({}, l.owner, Attrs(file));
  }
}
