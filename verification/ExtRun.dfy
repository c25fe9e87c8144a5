/** pkg/ext/format.go and emit.go: a whole layout run, from the reserved metadata to the free counts. */
module ExtRun {
  import opened Sizes
  import opened Bytes
  import opened Alloc
  import opened RunAllocation
  import ExtGeometry
  import opened ExtLayout
  import ExtIndirect
  import opened ExtXattrArea
  import opened ExtAttrs
  import opened ExtFiles

  type Geometry = ExtGeometry.Geometry

  /** b is in the superblock, descriptor, bitmap or inode table blocks of group gr. */
  predicate InGroupMeta(g: Geometry, gr: nat, b: nat) {
    gr < g.numGroups && g.GroupStart(gr) <= b < g.FirstData(gr)
  }

  /** The owner map says of every block in use what it is for, and leaves nothing out. */
  ghost predicate Owners(owner: map<nat, Owner>, g: Geometry, on: seq<FileOn>) {
    && (forall b :: b in owner ==> OwnedRight(owner[b], b, g, on))
    && (forall b: nat :: b < g.firstDataBlock ==> b in owner && owner[b] == Boot)
    && (forall gr: nat, b: nat :: InGroupMeta(g, gr, b) ==> b in owner && owner[b] == Group(gr))
    && (forall i, b :: 0 <= i < |on| && b in Elements(on[i].blocks) ==> b in owner && owner[b] == Data(i))
    && (forall i, b :: 0 <= i < |on| && b in AclBlocks(on[i].inode.attrs) ==> b in owner && owner[b] == Attrs(i))
    && (forall i, b :: 0 <= i < |on| && b in on[i].index ==> b in owner && owner[b] == Index(i))
  }

  ghost predicate OwnedRight(who: Owner, b: nat, g: Geometry, on: seq<FileOn>) {
    match who
    case Boot => b < g.firstDataBlock
    case Group(gr) => InGroupMeta(g, gr, b)
    case Data(i) => i < |on| && b in Elements(on[i].blocks)
    case Attrs(i) => i < |on| && b in AclBlocks(on[i].inode.attrs)
    case Index(i) => i < |on| && b in on[i].index
  }

  lemma FootprintOwner(owner: map<nat, Owner>, g: Geometry, on: seq<FileOn>, i: nat, b: nat)
    requires Owners(owner, g, on) && i < |on| && b in on[i].Footprint()
    ensures b in owner && (owner[b] == Data(i) || owner[b] == Attrs(i) || owner[b] == Index(i))
  {
    hide InGroupMeta, OwnedRight;
  }

  /** No block serves two files, or a file and the metadata. */
  lemma FilesApart(owner: map<nat, Owner>, g: Geometry, on: seq<FileOn>, i: nat, j: nat)
    requires Owners(owner, g, on) && i < j < |on|
    ensures on[i].Footprint() !! on[j].Footprint()
    ensures on[i].Footprint() <= owner.Keys
    ensures forall gr: nat, b: nat :: InGroupMeta(g, gr, b) ==> b !in on[i].Footprint()
    ensures forall b: nat :: b < g.firstDataBlock ==> b !in on[i].Footprint()
  {
    hide InGroupMeta, FileOn.Footprint, OwnedRight;
    forall b | b in on[i].Footprint()
      ensures b in owner && (owner[b] == Data(i) || owner[b] == Attrs(i) || owner[b] == Index(i))
      ensures b !in on[j].Footprint()
    {
      FootprintOwner(owner, g, on, i, b);
      if b in on[j].Footprint() {
        FootprintOwner(owner, g, on, j, b);
      }
    }
  }

  /** The metadata of two groups does not meet. */
  lemma MetaApart(g: Geometry, a: nat, c: nat, b: nat)
    requires ExtGeometry.WellLaidOut(g) && InGroupMeta(g, a, b) && InGroupMeta(g, c, b)
    ensures a == c
  {
    if a < c {
      GroupsAscend(g, a, c);
      assert false;
    } else if c < a {
      GroupsAscend(g, c, a);
      assert false;
    }
  }

  lemma GroupsAscend(g: Geometry, a: nat, c: nat)
    requires ExtGeometry.WellLaidOut(g) && a < c < g.numGroups
    ensures g.FirstData(a) <= g.GroupEnd(a) <= g.GroupStart(c)
  {
    hide ExtGeometry.HasSuperblock;
    GroupMeets(g, a);
    StartsAscend(g, a + 1, c);
  }

  lemma GroupMeets(g: Geometry, a: nat)
    requires ExtGeometry.WellLaidOut(g) && a < g.numGroups - 1
    ensures g.FirstData(a) <= g.GroupEnd(a) == g.GroupStart(a + 1)
  {
    hide ExtGeometry.HasSuperblock;
  }

  lemma StartsAscend(g: Geometry, a: nat, c: nat)
    requires a <= c
    ensures g.GroupStart(a) <= g.GroupStart(c)
  {
    MulMono(a, c, g.blocksPerGroup);
  }

  /** The groups below gr have their metadata reserved. */
  ghost predicate Reserved(owner: map<nat, Owner>, g: Geometry, groups: nat) {
    && (forall b :: b in owner ==> ReservedRight(owner[b], b, g, groups))
    && (forall b: nat :: b < g.firstDataBlock ==> b in owner && owner[b] == Boot)
    && (forall gr: nat, b: nat :: gr < groups && InGroupMeta(g, gr, b) ==> b in owner && owner[b] == Group(gr))
  }

  ghost predicate ReservedRight(who: Owner, b: nat, g: Geometry, groups: nat) {
    match who
    case Boot => b < g.firstDataBlock
    case Group(gr) => gr < groups && InGroupMeta(g, gr, b)
    case _ => false
  }

  lemma BootReserved(g: Geometry)
    ensures Reserved(Owned(map[], Span(0, g.firstDataBlock), Boot), g, 0)
  {
  }

  lemma OwnedAt(owner: map<nat, Owner>, s: set<nat>, who: Owner)
    ensures forall b :: b in Owned(owner, s, who) <==> b in owner || b in s
    ensures forall b :: b in s ==> b in Owned(owner, s, who) && Owned(owner, s, who)[b] == who
    ensures forall b :: b in owner && b !in s ==> b in Owned(owner, s, who) && Owned(owner, s, who)[b] == owner[b]
  {
  }

  lemma GroupReserved(owner: map<nat, Owner>, g: Geometry, gr: nat)
    requires ExtGeometry.WellLaidOut(g) && gr < g.numGroups && Reserved(owner, g, gr)
    ensures Reserved(Owned(owner, Span(g.GroupStart(gr), g.FirstData(gr)), Group(gr)), g, gr + 1)
  {
    hide ExtGeometry.WellLaidOut, InGroupMeta, Owned, Span;
    var meta := Span(g.GroupStart(gr), g.FirstData(gr));
    var now := Owned(owner, meta, Group(gr));
    OwnedAt(owner, meta, Group(gr));
    InMeta(g, gr);
    forall b: nat | b < g.firstDataBlock
      ensures b in now && now[b] == Boot
    {
    }
    forall a: nat, b: nat | a < gr + 1 && InGroupMeta(g, a, b)
      ensures b in now && now[b] == Group(a)
    {
      if a < gr && b in meta {
        MetaApart(g, a, gr, b);
      }
    }
  }

  lemma InMeta(g: Geometry, gr: nat)
    requires gr < g.numGroups
    ensures forall b: nat :: b in Span(g.GroupStart(gr), g.FirstData(gr)) <==> InGroupMeta(g, gr, b)
    ensures forall b: nat :: b < g.firstDataBlock ==> !InGroupMeta(g, gr, b)
  {
  }

  lemma AllReserved(owner: map<nat, Owner>, g: Geometry)
    requires ExtGeometry.WellLaidOut(g) && Reserved(owner, g, g.numGroups) && g.firstDataBlock <= 1
    ensures Owners(owner, g, []) && 0 in owner
  {
    if g.firstDataBlock == 0 {
      assert InGroupMeta(g, 0, 0);
    }
  }

  lemma GroupInside(g: Geometry, gr: nat)
    requires ExtGeometry.WellLaidOut(g) && gr < g.numGroups
    ensures g.GroupStart(gr) < g.FirstData(gr) <= g.GroupEnd(gr) <= g.totalBlocks
  {
  }

  /** The fixed regions: the boot block and the metadata of every group. */
  method ReserveMetadata(l: Layouter)
    requires l.Valid() && l.al.Used() == {} && ExtGeometry.WellLaidOut(l.geo) && l.geo.firstDataBlock <= 1
    modifies l`owner, l.al, l.al.words, l.used
    ensures l.Valid() && Owners(l.owner, l.geo, []) && 0 in l.al.Used()
  {
    hide ExtGeometry.WellLaidOut, ExtGeometry.HasSuperblock, Reserved, Owners, Owned, Span, Layouter.Valid, Bitmap.Used;
    var g := l.geo;
    KeysUsed(l);
    assert l.owner == map[];
    BootReserved(g);
    NothingOwned(g);
    GroupInside(g, 0);
    if g.firstDataBlock > 0 {
      l.Reserve(0, g.firstDataBlock, Boot);
    }
    for gr := 0 to g.numGroups
      invariant l.Valid() && Reserved(l.owner, g, gr)
    {
      GroupInside(g, gr);
      GroupReserved(l.owner, g, gr);
      l.Reserve(g.GroupStart(gr), g.FirstData(gr) - g.GroupStart(gr), Group(gr));
    }
    AllReserved(l.owner, g);
    KeysUsed(l);
  }

  lemma KeysUsed(l: Layouter)
    requires l.Valid()
    ensures l.owner.Keys == l.al.Used()
  {
  }

  lemma NothingOwned(g: Geometry)
    ensures g.firstDataBlock == 0 ==> Owned(map[], Span(0, g.firstDataBlock), Boot) == map[]
    ensures ExtGeometry.WellLaidOut(g) ==> g.numGroups > 0
  {
    if g.firstDataBlock == 0 {
      assert Span(0, 0) == {};
    }
  }

  // ----- The files.

  ghost predicate AllHold(dev: seq<byte>, bs: nat, on: seq<FileOn>) {
    forall i :: 0 <= i < |on| ==> ExtFiles.Holds(dev, bs, on[i])
  }

  ghost predicate Describe(on: seq<FileOn>, inodes: seq<Inode>, specs: seq<FileSpec>) {
    && |on| == |inodes| <= |specs|
    && forall i :: 0 <= i < |on| ==> on[i].inode == inodes[i] && on[i].spec == specs[i]
  }

  ghost function FileOwned(owner: map<nat, Owner>, f: FileOn, i: nat): map<nat, Owner> {
    Owned(Owned(Owned(owner, Elements(f.blocks), Data(i)), AclBlocks(f.inode.attrs), Attrs(i)), f.index, Index(i))
  }

  lemma FileOwnedAt(owner: map<nat, Owner>, f: FileOn, i: nat, b: nat)
    requires f.Footprint() !! owner.Keys && Elements(f.blocks) !! f.index
    requires AclBlocks(f.inode.attrs) !! Elements(f.blocks) + f.index
    ensures b in FileOwned(owner, f, i) <==> b in owner || b in f.Footprint()
    ensures b in owner ==> b !in f.Footprint() && FileOwned(owner, f, i)[b] == owner[b]
    ensures b in Elements(f.blocks) ==> FileOwned(owner, f, i)[b] == Data(i)
    ensures b in AclBlocks(f.inode.attrs) ==> FileOwned(owner, f, i)[b] == Attrs(i)
    ensures b in f.index ==> FileOwned(owner, f, i)[b] == Index(i)
  {
    hide Elements, AclBlocks;
  }

  lemma OwnersMore(owner: map<nat, Owner>, g: Geometry, on: seq<FileOn>, f: FileOn)
    requires Owners(owner, g, on) && f.Footprint() !! owner.Keys && Elements(f.blocks) !! f.index
    requires AclBlocks(f.inode.attrs) !! Elements(f.blocks) + f.index
    ensures Owners(FileOwned(owner, f, |on|), g, on + [f])
  {
    hide InGroupMeta, FileOwned, Elements, AclBlocks, OwnedRight;
    var now := FileOwned(owner, f, |on|);
    forall b | b in now
      ensures OwnedRight(now[b], b, g, on + [f])
    {
      FileOwnedAt(owner, f, |on|, b);
      RightMore(owner, g, on, f, b);
    }
    forall b | b in owner || b in f.Footprint()
      ensures b in now && (b in owner ==> now[b] == owner[b])
      ensures b in Elements(f.blocks) ==> now[b] == Data(|on|)
      ensures b in AclBlocks(f.inode.attrs) ==> now[b] == Attrs(|on|)
      ensures b in f.index ==> now[b] == Index(|on|)
    {
      FileOwnedAt(owner, f, |on|, b);
    }
  }

  lemma RightMore(owner: map<nat, Owner>, g: Geometry, on: seq<FileOn>, f: FileOn, b: nat)
    requires b in owner ==> OwnedRight(owner[b], b, g, on)
    ensures b in owner ==> OwnedRight(owner[b], b, g, on + [f])
    ensures b in Elements(f.blocks) ==> OwnedRight(Data(|on|), b, g, on + [f])
    ensures b in AclBlocks(f.inode.attrs) ==> OwnedRight(Attrs(|on|), b, g, on + [f])
    ensures b in f.index ==> OwnedRight(Index(|on|), b, g, on + [f])
  {
    hide InGroupMeta, Elements, AclBlocks;
  }

  lemma AllHoldMore(d: seq<byte>, d': seq<byte>, bs: nat, s: set<nat>, on: seq<FileOn>, f: FileOn, owner: map<nat,
          Owner>, g: Geometry)
    requires AllHold(d, bs, on) && Owners(owner, g, on) && OnlyIn(d, d', bs, s) && s !! owner.Keys
    requires ExtFiles.Holds(d', bs, f)
    ensures AllHold(d', bs, on + [f])
  {
    hide ExtFiles.Holds, OnlyIn, InGroupMeta, OwnedRight;
    forall i | 0 <= i < |on|
      ensures ExtFiles.Holds(d', bs, on[i])
    {
      FootprintOwned(owner, g, on, i);
      HoldsFrame(d, d', bs, s, on[i]);
    }
  }

  lemma FootprintOwned(owner: map<nat, Owner>, g: Geometry, on: seq<FileOn>, i: nat)
    requires Owners(owner, g, on) && i < |on|
    ensures on[i].Footprint() <= owner.Keys
  {
  }

  /** Lay out files one after the other. */
  method LayOut(l: Layouter, specs: seq<FileSpec>, hashes: Hashes) returns (r: Laid<seq<Inode>>, ghost on: seq<FileOn>)
    requires l.Valid() && 0 in l.al.Used() && l.geo.totalBlocks <= TWO32
    requires ExtGeometry.ValidBlockSize(l.geo.blockSize) && l.geo.blockSize > 0 && Owners(l.owner, l.geo, [])
    requires l.geo.inodeSize in {128, 256} && forall k :: 0 <= k < |specs| ==> ShortNames(specs[k].attrs)
    modifies l`owner, l`curMeta, l`index, l.al, l.al.words, l.used, l.dev
    ensures l.Valid()
    ensures r.Success? ==> |r.value| == |specs| && Describe(on, r.value, specs)
    ensures r.Success? ==> Owners(l.owner, l.geo, on) && AllHold(l.dev.data, l.geo.blockSize, on)
    ensures r.Failure? ==>
      exists k :: 0 <= k < |specs| && Explained(r.error, l.geo, l.useExtents, l.al.Used(), specs[k])
  {
    hide OnlyIn, Owned, Bitmap.Used, Bitmap.Valid, Mirror, ExtFiles.Holds, Owners, AllHold, Elements, Distinct,
         Explained, ExtGeometry.ValidBlockSize, ShortNames, AclBlocks;
    var inodes: seq<Inode> := [];
    on := [];
    NoFiles(l.dev.data, l.geo.blockSize);
    for k := 0 to |specs|
      invariant l.Valid() && 0 in l.al.Used()
      invariant |inodes| == k && Describe(on, inodes, specs)
      invariant Owners(l.owner, l.geo, on) && AllHold(l.dev.data, l.geo.blockSize, on)
    {
      ghost var used0, dev0, owner0 := l.al.Used(), l.dev.data, l.owner;
      var inode, f := BuildFile(l, specs[k], hashes, k);
      if inode.Failure? {
        return Failure(inode.error), on;
      }
      FootprintNew(l, f, inode.value, specs[k], used0, owner0, k);
      OwnersMore(owner0, l.geo, on, f);
      AllHoldMore(dev0, l.dev.data, l.geo.blockSize, l.al.Used() - used0, on, f, owner0, l.geo);
      inodes := inodes + [inode.value];
      on := on + [f];
    }
    return Success(inodes), on;
  }

  lemma FootprintNew(l: Layouter, f: FileOn, inode: Inode, spec: FileSpec, used0: set<nat>, owner0: map<nat, Owner>,
          k: nat)
    requires NewOn(l, f, inode, spec, used0, owner0, k) && owner0.Keys == used0
    ensures f.Footprint() !! owner0.Keys && l.owner == FileOwned(owner0, f, k) && f.inode == inode && f.spec == spec
    ensures ExtFiles.Holds(l.dev.data, l.geo.blockSize, f)
    ensures Elements(f.blocks) !! f.index && AclBlocks(f.inode.attrs) !! Elements(f.blocks) + f.index
  {
    hide ExtFiles.Holds, Owned, Bitmap.Used, Elements, AclBlocks, Distinct;
  }

  lemma NoFiles(dev: seq<byte>, bs: nat)
    ensures AllHold(dev, bs, [])
  {
  }
}
