/** pkg/ext/format.go: the nodes that are not regular files, laid out as files are. */
module ExtBuild {
  import opened Sizes
  import opened Bytes
  import opened Alloc
  import opened RunAllocation
  import ExtGeometry
  import opened ExtLayout
  import ExtIndirect
  import opened ExtXattrArea
  import opened ExtAttrs
  import opened ExtFiles

  // ----- Data written block by block.

  ghost predicate AllOf(parts: seq<seq<byte>>, bs: nat) {
    forall k :: 0 <= k < |parts| ==> |parts[k]| == bs
  }

  lemma {:induction false} ConcatSize(parts: seq<seq<byte>>, bs: nat)
    requires AllOf(parts, bs)
    ensures |Flat(parts)| == |parts| * bs
    decreases |parts|
  {
    if parts != [] {
      ConcatSize(parts[..|parts| - 1], bs);
      assert (|parts| - 1) * bs + bs == |parts| * bs;
    }
  }

  lemma {:induction false} ConcatBlock(parts: seq<seq<byte>>, bs: nat, k: nat)
    requires AllOf(parts, bs) && k < |parts|
    ensures BlockAt(Flat(parts), bs, k) == parts[k]
    decreases |parts|
  {
    var n := |parts| - 1;
    var before := parts[..n];
    ConcatSize(before, bs);
    if k == n {
      Part(Flat(before), parts[n], []);
      assert Flat(before) + parts[n] + [] == Flat(parts);
    } else {
      ConcatBlock(before, bs, k);
      MulGap(k, n, bs);
      SlicePrefix(Flat(before), parts[n], k * bs, bs);
    }
  }

  /** So many blocks for so many bytes. */
  lemma WholeBlocks(n: nat, bs: nat)
    requires bs > 0
    ensures CeilDiv(n * bs, bs) == n
  {
    CeilDivCovers(n * bs, bs);
    CeilDivBound(n * bs, bs, n);
    if CeilDiv(n * bs, bs) < n {
      MulGap(CeilDiv(n * bs, bs), n, bs);
    }
  }

  lemma StoredOne(d: seq<byte>, d': seq<byte>, bs: nat, blocks: seq<nat>, content: seq<byte>, i: nat)
    requires i < |blocks| && Distinct(blocks) && StoredUpTo(d, bs, blocks, content, i)
    requires BlockAt(d', bs, blocks[i]) == BlockAt(content, bs, i) && OnlyIn(d, d', bs, {blocks[i]})
    ensures StoredUpTo(d', bs, blocks, content, i + 1)
  {
    hide BlockAt;
    forall k | 0 <= k < i + 1
      ensures BlockAt(d', bs, blocks[k]) == BlockAt(content, bs, k)
    {
      if k < i {
        assert blocks[k] != blocks[i];
      }
    }
  }

  /** Write one buffer to each block. */
  method WriteEach(l: Layouter, parts: seq<seq<byte>>, blocks: seq<nat>, ghost content: seq<byte>)
    requires |parts| == |blocks| && AllOf(parts, l.geo.blockSize) && Distinct(blocks)
    requires forall k :: 0 <= k < |parts| ==> parts[k] == BlockAt(content, l.geo.blockSize, k)
    modifies l.dev
    ensures StoredUpTo(l.dev.data, l.geo.blockSize, blocks, content, |blocks|)
    ensures OnlyIn(old(l.dev.data), l.dev.data, l.geo.blockSize, Elements(blocks))
  {
    hide OnlyIn, StoredUpTo, BlockAt, Distinct, Elements;
    ghost var was := l.dev.data;
    NothingStored(was, l.geo.blockSize, blocks, content);
    for i := 0 to |blocks|
      invariant StoredUpTo(l.dev.data, l.geo.blockSize, blocks, content, i)
      invariant OnlyIn(was, l.dev.data, l.geo.blockSize, Elements(blocks))
    {
      ghost var d := l.dev.data;
      l.WriteBlock(blocks[i], parts[i]);
      StoredOne(d, l.dev.data, l.geo.blockSize, blocks, content, i);
      assert {blocks[i]} <= Elements(blocks) by { Listed(blocks, i); }
      OnlyInChain(was, d, l.dev.data, l.geo.blockSize, Elements(blocks), {blocks[i]}, Elements(blocks));
    }
  }

  lemma Listed(blocks: seq<nat>, i: nat)
    requires i < |blocks|
    ensures blocks[i] in Elements(blocks)
  {
  }

  // ----- Nodes.

  ghost predicate CanLay(l: Layouter, attrs: Attributes)
    reads l, l.al, l.al.words, l.used
  {
    && l.Valid() && 0 in l.al.Used() && l.geo.totalBlocks <= TWO32
    && ExtGeometry.ValidBlockSize(l.geo.blockSize) && l.geo.inodeSize in {128, 256} && ShortNames(attrs)
  }

  /** buildDir, with the blocks of the directory ready. */
  method BuildBlocks(l: Layouter, parts: seq<seq<byte>>, attrs: Attributes, hashes: Hashes, ghost file: nat)
      returns (r: Laid<Inode>, ghost on: FileOn)
    requires CanLay(l, attrs) && l.geo.blockSize > 0 && AllOf(parts, l.geo.blockSize) && |Flat(parts)| <= MAX_SIZE
    modifies l`owner, l`curMeta, l`index, l.al, l.al.words, l.used, l.dev
    ensures l.Valid() && old(l.al.Used()) <= l.al.Used()
    ensures OnlyIn(old(l.dev.data), l.dev.data, l.geo.blockSize, l.al.Used() - old(l.al.Used()))
    ensures r.Success? ==>
      NewOn(l, on, r.value, FileSpec(Flat(parts), attrs), old(l.al.Used()), old(l.owner), file)
    ensures r.Failure? ==> Explained(r.error, l.geo, l.useExtents, l.al.Used(), FileSpec(Flat(parts), attrs))
  {
    hide OnlyIn, Owned, Bitmap.Used, Layouter.Valid, Mapped, ExtIndirect.SectorsOf, ExtIndirect.Sectors, Distinct,
         StoredUpTo, CeilDiv, FreeCount, Elements, ExtGeometry.ValidBlockSize, ExtIndirect.Reach, AttrsHold, TooBig,
         ShortNames, AclBlocks, BlockAt, Flat;
    var bs := l.geo.blockSize;
    ghost var content := Flat(parts);
    on := FileOn(Inode(0, Table([]), 0, Placement([], 0)), FileSpec(content, attrs), [], {});
    ghost var used0, dev0 := l.al.Used(), l.dev.data;
    OnlyInNothing(dev0, bs, {});
    assert l.al.Used() - used0 == {};
    ConcatSize(parts, bs);
    WholeBlocks(|parts|, bs);
    BlocksOfSize(|content|, bs);
    var a := l.AllocBlocks(|parts|, Data(file));
    if a.Err? {
      return Failure(NoSpaceLeft), on;
    }
    var blocks := a.value;
    forall k | 0 <= k < |parts|
      ensures parts[k] == BlockAt(content, bs, k)
    {
      ConcatBlock(parts, bs, k);
    }
    WriteEach(l, parts, blocks, content);
    ghost var used1, dev1 := l.al.Used(), l.dev.data;
    ghost var index;
    r, index := MapInode(l, |parts| * bs, blocks, attrs, hashes, file);
    ghost var rest := l.al.Used() - used1;
    DataThenRest(used0, used1, l.al.Used(), Elements(blocks), rest);
    OnlyInChain(dev0, dev1, l.dev.data, bs, Elements(blocks), rest, l.al.Used() - used0);
    if r.Success? {
      StoredFrame(dev1, l.dev.data, bs, rest, blocks, content);
      on := FileOn(r.value, FileSpec(content, attrs), blocks, index);
    }
  }

  const NO_POINTERS: seq<nat> := [0, 0, 0, 0, 0, 0, 0, 0, 0, 0, 0, 0, 0, 0, 0]

  /** A file of no bytes may have anything in its block pointers. */
  lemma NothingMapped(dev: seq<byte>, bs: nat, block: seq<nat>)
    requires |block| == ExtIndirect.TOTAL_POINTERS
    ensures Mapped(dev, bs, Table(block), [], {})
  {
    hide ExtIndirect.Found;
    assert ExtIndirect.Through(dev, bs, block, 0, 3) == [];
    NoIndex(dev, bs, block, 3);
  }

  lemma {:induction false} NoIndex(dev: seq<byte>, bs: nat, block: seq<nat>, levels: nat)
    requires |block| == ExtIndirect.TOTAL_POINTERS && levels <= 3
    ensures ExtIndirect.IndexOf(dev, bs, block, 0, levels) == {}
    decreases levels
  {
    hide ExtIndirect.Found;
    if levels > 0 {
      NoIndex(dev, bs, block, levels - 1);
    }
  }

  lemma NothingOwned(owner: map<nat, Owner>, who: Owner)
    ensures Owned(owner, {}, who) == owner
  {
    NoBlocks({}, owner, who);
  }

  lemma NoData(dev: seq<byte>, bs: nat)
    requires bs > 0
    ensures StoredUpTo(dev, bs, [], [], 0) && Elements([]) == {} && Distinct([]) && CeilDiv(0, bs) == 0
  {
    CeilDivBound(0, bs, 0);
  }

  /** newInode, for a node that has no data: buildSpecial, and buildSymlink for a short target. */
  method BuildBare(l: Layouter, block: seq<nat>, attrs: Attributes, hashes: Hashes, ghost file: nat)
      returns (r: Laid<Inode>, ghost on: FileOn)
    requires CanLay(l, attrs) && l.geo.blockSize > 0 && |block| == ExtIndirect.TOTAL_POINTERS
    modifies l`owner, l`curMeta, l`index, l.al, l.al.words, l.used, l.dev
    ensures l.Valid() && old(l.al.Used()) <= l.al.Used()
    ensures OnlyIn(old(l.dev.data), l.dev.data, l.geo.blockSize, l.al.Used() - old(l.al.Used()))
    ensures r.Success? ==>
      && r.value == BareInode(block, r.value.attrs, l.geo.blockSize)
      && NewOn(l, on, r.value, FileSpec([], attrs), old(l.al.Used()), old(l.owner), file)
    ensures r.Failure? ==> Explained(r.error, l.geo, l.useExtents, l.al.Used(), FileSpec([], attrs))
  {
    hide OnlyIn, Owned, Bitmap.Used, Layouter.Valid, Mapped, ExtIndirect.SectorsOf, Distinct, StoredUpTo, CeilDiv,
         FreeCount, Elements, ExtGeometry.ValidBlockSize, AttrsHold, TooBig, ShortNames, AclBlocks, PlacedRight;
    var bs := l.geo.blockSize;
    on := FileOn(Inode(0, Table(block), 0, Placement([], 0)), FileSpec([], attrs), [], {});
    ghost var used0, owner0 := l.al.Used(), l.owner;
    l.ResetMeta();
    OnlyInNothing(l.dev.data, bs, l.al.Used() - used0);
    var p := PlaceXattrs(l, attrs, hashes, file);
    if p.Failed? {
      return Failure(if p.error == AttrsTooBig then AttributesTooBig else NoSpaceLeft), on;
    }
    var inode := BareInode(block, p.where, bs);
    on := FileOn(inode, FileSpec([], attrs), [], {});
    BareIsOn(l, block, attrs, p.where, used0, owner0, file);
    return Success(inode), on;
  }

  function BareInode(block: seq<nat>, p: Placement, bs: nat): Inode {
    Inode(0, Table(block), if p.acl == 0 then 0 else bs / 512, p)
  }

  lemma BareIsOn(l: Layouter, block: seq<nat>, attrs: Attributes, p: Placement, used0: set<nat>, owner0: map<nat,
          Owner>,
                 file: nat)
    requires l.geo.blockSize > 0 && ExtGeometry.ValidBlockSize(l.geo.blockSize) && |block| == ExtIndirect.TOTAL_POINTERS
    requires AttrsHold(l.dev.data, l.geo.blockSize, p, attrs) && AclBlocks(p) !! used0
    requires l.al.Used() == used0 + AclBlocks(p) && l.owner == Owned(owner0, AclBlocks(p), Attrs(file))
    ensures var inode := BareInode(block, p, l.geo.blockSize);
      NewOn(l, FileOn(inode, FileSpec([], attrs), [], {}), inode, FileSpec([], attrs), used0, owner0, file)
    ensures l.al.Used() - used0 == AclBlocks(p)
  {
    hide Owned, Bitmap.Used, Mapped, ExtIndirect.SectorsOf, Distinct, StoredUpTo, CeilDiv, Elements, AttrsHold,
         AclBlocks, ExtGeometry.ValidBlockSize;
    var bs := l.geo.blockSize;
    NoSectors(bs);
    OneMoreBlock(0, 0, p, {}, bs);
    SmallSectors(bs);
    NothingMapped(l.dev.data, bs, block);
    NoData(l.dev.data, bs);
    NothingOwned(owner0, Data(file));
    NothingOwned(Owned(owner0, AclBlocks(p), Attrs(file)), Index(file));
  }

  lemma NoSectors(bs: nat)
    ensures ExtIndirect.SectorsOf(0, {}, bs) == 0
  {
  }

  lemma SmallSectors(bs: nat)
    requires ExtGeometry.ValidBlockSize(bs)
    ensures bs / 512 % TWO32 == bs / 512 && bs / 512 > 0
  {
  }

  /** Disjoint blocks may be given out in either order. */
  lemma OwnedSwap(owner: map<nat, Owner>, s: set<nat>, a: Owner, t: set<nat>, b: Owner)
    requires s !! t
    ensures Owned(Owned(owner, s, a), t, b) == Owned(Owned(owner, t, b), s, a)
  {
  }

  lemma TwoSteps(used0: set<nat>, used1: set<nat>, used2: set<nat>, blocks: set<nat>, index: set<nat>)
    requires used1 == used0 + blocks && blocks !! used0 && used1 <= used2 && index == used2 - used1
    ensures blocks !! index && blocks + index == used2 - used0 && blocks <= used2 - used0
  {
  }

  /** Data in new blocks, and their map. */
  method StoreData(l: Layouter, content: seq<byte>, ghost attrs: Attributes, ghost file: nat)
      returns (r: Laid<Map>, sectors: nat, ghost blocks: seq<nat>, ghost index: set<nat>)
    requires CanLay(l, attrs) && l.geo.blockSize > 0 && l.index == {} && |content| <= MAX_SIZE
    modifies l`owner, l`curMeta, l`index, l.al, l.al.words, l.used, l.dev
    ensures l.Valid() && old(l.al.Used()) <= l.al.Used()
    ensures OnlyIn(old(l.dev.data), l.dev.data, l.geo.blockSize, l.al.Used() - old(l.al.Used()))
    ensures r.Success? ==>
      && Mapped(l.dev.data, l.geo.blockSize, r.value, blocks, index)
      && StoredUpTo(l.dev.data, l.geo.blockSize, blocks, content, |blocks|)
      && |blocks| == CeilDiv(|content|, l.geo.blockSize) && sectors == ExtIndirect.SectorsOf(|blocks|, index,
                                                              l.geo.blockSize)
      && Distinct(blocks) && Elements(blocks) !! index && Elements(blocks) + index == l.al.Used() - old(l.al.Used())
      && l.owner == Owned(Owned(old(l.owner), Elements(blocks), Data(file)), index, Index(file))
    ensures r.Failure? ==> Explained(r.error, l.geo, l.useExtents, l.al.Used(), FileSpec(content, attrs))
  {
    hide OnlyIn, Owned, Bitmap.Used, Layouter.Valid, Mapped, ExtIndirect.SectorsOf, Distinct, StoredUpTo, CeilDiv,
         FreeCount, Elements, ExtGeometry.ValidBlockSize, ExtIndirect.Reach, TooBig, ShortNames, BlockAt;
    var bs := l.geo.blockSize;
    ghost var used0, dev0 := l.al.Used(), l.dev.data;
    blocks, index, sectors := [], {}, 0;
    BlocksOfSize(|content|, bs);
    var a := l.AllocBlocks(CeilDiv(|content|, bs), Data(file));
    if a.Err? {
      OnlyInNothing(dev0, bs, l.al.Used() - used0);
      return Failure(NoSpaceLeft), 0, [], {};
    }
    blocks := a.value;
    WriteEach(l, seq<seq<byte>>(|a.value|, k requires 0 <= k < |a.value| => BlockAt(content, bs, k)), a.value, content);
    ghost var used1, dev1 := l.al.Used(), l.dev.data;
    r, sectors := MapFile(l, a.value, file);
    index := l.al.Used() - used1;
    TwoSteps(used0, used1, l.al.Used(), Elements(blocks), index);
    OnlyInChain(dev0, dev1, l.dev.data, bs, Elements(blocks), index, l.al.Used() - used0);
    StoredFrame(dev1, l.dev.data, bs, index, blocks, content);
  }

  /** buildSymlink, for a target that needs blocks: the attributes come first. */
  method BuildTarget(l: Layouter, target: seq<byte>, attrs: Attributes, hashes: Hashes, ghost file: nat)
      returns (r: Laid<Inode>, ghost on: FileOn)
    requires CanLay(l, attrs) && l.geo.blockSize > 0 && |target| <= MAX_SIZE
    modifies l`owner, l`curMeta, l`index, l.al, l.al.words, l.used, l.dev
    ensures l.Valid() && old(l.al.Used()) <= l.al.Used()
    ensures OnlyIn(old(l.dev.data), l.dev.data, l.geo.blockSize, l.al.Used() - old(l.al.Used()))
    ensures r.Success? ==> NewOn(l, on, r.value, FileSpec(target, attrs), old(l.al.Used()), old(l.owner), file)
    ensures r.Failure? ==> Explained(r.error, l.geo, l.useExtents, l.al.Used(), FileSpec(target, attrs))
  {
    hide OnlyIn, Owned, Bitmap.Used, Layouter.Valid, Mapped, ExtIndirect.SectorsOf, Distinct, StoredUpTo, CeilDiv,
         FreeCount, Elements, ExtGeometry.ValidBlockSize, ExtIndirect.Reach, AttrsHold, TooBig, ShortNames, AclBlocks, PlacedRight;
    var bs := l.geo.blockSize;
    on := FileOn(Inode(0, Table([]), 0, Placement([], 0)), FileSpec(target, attrs), [], {});
    ghost var used0, dev0, owner0 := l.al.Used(), l.dev.data, l.owner;
    l.ResetMeta();
    OnlyInNothing(dev0, bs, l.al.Used() - used0);
    var p := PlaceXattrs(l, attrs, hashes, file);
    if p.Failed? {
      return Failure(if p.error == AttrsTooBig then AttributesTooBig else NoSpaceLeft), on;
    }
    ghost var used1, dev1, acl := l.al.Used(), l.dev.data, AclBlocks(p.where);
    var m, n;
    ghost var blocks, index;
    m, n, blocks, index := StoreData(l, target, attrs, file);
    ghost var rest := l.al.Used() - used1;
    TwoSteps(used0, used1, l.al.Used(), acl, rest);
    OnlyInChain(dev0, dev1, l.dev.data, bs, acl, rest, l.al.Used() - used0);
    if m.Failure? {
      return Failure(m.error), on;
    }
    AttrsFrame(dev1, l.dev.data, bs, rest, p.where, attrs);
    OneMoreBlock(n, |blocks|, p.where, index, bs);
    OwnedSwap(owner0, acl, Attrs(file), Elements(blocks), Data(file));
    var inode := Inode(|target|, m.value, (n + if p.where.acl == 0 then 0 else bs / 512) % TWO32, p.where);
    return Success(inode), FileOn(inode, FileSpec(target, attrs), blocks, index);
  }
}
