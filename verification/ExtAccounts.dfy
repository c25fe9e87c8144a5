/** pkg/ext/emit.go: the block bitmaps and free counts that close a layout run. */
module ExtAccounts {
  import opened Sizes
  import opened Words
  import opened Bytes
  import opened Files
  import opened Alloc
  import opened RunAllocation
  import ExtGeometry
  import opened ExtLayout
  import ExtIndirect
  import opened ExtXattrArea
  import opened ExtAttrs
  import opened ExtFiles
  import opened ExtRun

  /** Bit n of a bitmap, least significant bit of the first byte first. */
  predicate BitOf(buf: seq<byte>, n: nat) {
    n / 8 < |buf| && Bit(buf[n / 8], n % 8)
  }

  method SetBit(b: array<byte>, i: nat)
    requires i / 8 < b.Length
    modifies b
    ensures forall n: nat :: BitOf(b[..], n) <==> n == i || BitOf(old(b[..]), n)
  {
    hide Bit, Or, Pow2;
    ghost var was := b[..];
    OrByte(b[i / 8], i % 8);
    b[i / 8] := Or(b[i / 8], Pow2(i % 8), 8);
    forall n: nat
      ensures BitOf(b[..], n) <==> n == i || BitOf(was, n)
    {
      if n / 8 == i / 8 {
        assert n == i <==> n % 8 == i % 8;
      }
    }
  }

  lemma OrByte(w: byte, k: nat)
    requires k < 8
    ensures 0 <= Or(w, Pow2(k), 8) < 256
    ensures forall b: nat :: b < 8 ==> (Bit(Or(w, Pow2(k), 8), b) <==> b == k || Bit(w, b))
  {
    assert Pow2(8) == 256 by {
      EightMore(0);
    }
    OrBits(w, Pow2(k), 8, 0);
    forall b: nat | b < 8
      ensures Bit(Or(w, Pow2(k), 8), b) <==> b == k || Bit(w, b)
    {
      OneBits(k, b);
      OrBits(w, Pow2(k), 8, b);
    }
  }

  /** The bitmap of a group marks the used blocks, and everything past the end of a short group. */
  ghost predicate BitmapRight(buf: seq<byte>, g: Geometry, gr: nat, used: set<nat>) {
    forall n: nat :: n < g.blocksPerGroup ==>
      (BitOf(buf, n) <==> n >= g.BlocksInGroup(gr) || g.GroupStart(gr) + n in used)
  }

  /** The bits below limit are set as BitmapRight wants them, the others not. */
  ghost predicate BitsSoFar(buf: seq<byte>, g: Geometry, gr: nat, used: set<nat>, limit: nat) {
    forall n: nat :: BitOf(buf, n) <==> n < limit && (n >= g.BlocksInGroup(gr) || g.GroupStart(gr) + n in used)
  }

  lemma NoBitsYet(size: nat, g: Geometry, gr: nat, used: set<nat>)
    ensures BitsSoFar(Zeros(size), g, gr, used, 0)
  {
    forall n: nat
      ensures !BitOf(Zeros(size), n)
    {
      ZeroBits(n % 8);
    }
  }

  /** The mirror says of every block of the device whether it is used. */
  lemma MirrorSays(l: Layouter, b: nat)
    requires l.Valid() && b < l.geo.totalBlocks
    ensures b < l.used.Length && (l.used[b] <==> b in l.al.Used())
  {
    hide Bitmap.Used, Bitmap.Valid;
    assert l.used[..][b] == l.used[b];
  }

  lemma LastInGroup(g: Geometry, gr: nat)
    requires ExtGeometry.WellLaidOut(g) && gr < g.numGroups
    ensures g.GroupStart(gr) + g.BlocksInGroup(gr) == g.GroupEnd(gr) <= g.totalBlocks
    ensures 0 < g.BlocksInGroup(gr) <= g.blocksPerGroup == 8 * g.blockSize
  {
    hide ExtGeometry.HasSuperblock;
  }

  /** The block bitmap of one group, bit by bit. */
  method GroupBitmap(l: Layouter, gr: nat) returns (bits: seq<byte>)
    requires l.Valid() && ExtGeometry.WellLaidOut(l.geo) && gr < l.geo.numGroups
    ensures |bits| == l.geo.blockSize && BitmapRight(bits, l.geo, gr, l.al.Used())
  {
    hide Layouter.Valid, Bitmap.Used, BitOf, ExtGeometry.WellLaidOut, ExtGeometry.HasSuperblock;
    var g := l.geo;
    ghost var used := l.al.Used();
    LastInGroup(g, gr);
    NoBitsYet(g.blockSize, g, gr, used);
    var buf := new byte[g.blockSize](_ => 0);
    assert buf[..] == Zeros(g.blockSize);
    var start, inGroup := g.GroupStart(gr), g.BlocksInGroup(gr);
    for n := 0 to g.blocksPerGroup
      invariant BitsSoFar(buf[..], g, gr, used, n)
    {
      if n < inGroup {
        MirrorSays(l, start + n);
      }
      if n >= inGroup || l.used[start + n] {
        SetBit(buf, n);
      }
    }
    return buf[..];
  }

  ghost predicate BitmapsRight(dev: seq<byte>, g: Geometry, used: set<nat>, groups: nat) {
    forall gr: nat :: gr < groups ==> BitmapRight(BlockAt(dev, g.blockSize, g.BlockBitmap(gr)), g, gr, used)
  }

  lemma BitmapInMeta(g: Geometry, gr: nat)
    requires gr < g.numGroups
    ensures InGroupMeta(g, gr, g.BlockBitmap(gr))
  {
    hide ExtGeometry.HasSuperblock;
  }

  lemma BitmapsApart(g: Geometry, a: nat, c: nat)
    requires ExtGeometry.WellLaidOut(g) && a < c < g.numGroups
    ensures g.BlockBitmap(a) != g.BlockBitmap(c)
  {
    hide ExtGeometry.WellLaidOut, InGroupMeta;
    BitmapInMeta(g, a);
    BitmapInMeta(g, c);
    if g.BlockBitmap(a) == g.BlockBitmap(c) {
      MetaApart(g, a, c, g.BlockBitmap(a));
    }
  }

  lemma OneMoreBitmap(d: seq<byte>, d': seq<byte>, g: Geometry, used: set<nat>, gr: nat, bits: seq<byte>)
    requires ExtGeometry.WellLaidOut(g) && gr < g.numGroups && BitmapsRight(d, g, used, gr)
    requires BitmapRight(bits, g, gr, used) && BlockAt(d', g.blockSize, g.BlockBitmap(gr)) == bits
    requires OnlyIn(d, d', g.blockSize, {g.BlockBitmap(gr)})
    ensures BitmapsRight(d', g, used, gr + 1)
  {
    hide ExtGeometry.WellLaidOut, BitmapRight, BlockAt;
    forall a: nat | a < gr
      ensures BlockAt(d', g.blockSize, g.BlockBitmap(a)) == BlockAt(d, g.blockSize, g.BlockBitmap(a))
    {
      BitmapsApart(g, a, gr);
    }
  }

  /** A write to the metadata of a group touches no file. */
  lemma MetaWriteKeeps(d: seq<byte>, d': seq<byte>, g: Geometry, gr: nat, b: nat, owner: map<nat, Owner>,
          on: seq<FileOn>)
    requires InGroupMeta(g, gr, b) && OnlyIn(d, d', g.blockSize, {b}) && Owners(owner, g, on)
    requires AllHold(d, g.blockSize, on)
    ensures AllHold(d', g.blockSize, on)
  {
    hide InGroupMeta, OnlyIn, ExtFiles.Holds;
    forall i | 0 <= i < |on|
      ensures ExtFiles.Holds(d', g.blockSize, on[i])
    {
      assert b !in on[i].Footprint();
      HoldsFrame(d, d', g.blockSize, {b}, on[i]);
    }
  }

  /** writeBitmaps, the block half. */
  method WriteBlockBitmaps(l: Layouter, ghost on: seq<FileOn>)
    requires l.Valid() && ExtGeometry.WellLaidOut(l.geo)
    requires Owners(l.owner, l.geo, on) && AllHold(l.dev.data, l.geo.blockSize, on)
    modifies l.dev
    ensures BitmapsRight(l.dev.data, l.geo, l.al.Used(), l.geo.numGroups)
    ensures AllHold(l.dev.data, l.geo.blockSize, on)
  {
    hide Layouter.Valid, Bitmap.Used, BitmapRight, BitmapsRight, OnlyIn, AllHold, Owners, ExtGeometry.WellLaidOut,
         ExtGeometry.HasSuperblock, InGroupMeta, BlockAt;
    var g := l.geo;
    NoBitmaps(l.dev.data, g, l.al.Used());
    for gr := 0 to g.numGroups
      invariant BitmapsRight(l.dev.data, g, l.al.Used(), gr) && AllHold(l.dev.data, g.blockSize, on)
    {
      ghost var dev0 := l.dev.data;
      var bits := GroupBitmap(l, gr);
      BitmapInMeta(g, gr);
      l.WriteBlock(g.BlockBitmap(gr), bits);
      OneMoreBitmap(dev0, l.dev.data, g, l.al.Used(), gr, bits);
      MetaWriteKeeps(dev0, l.dev.data, g, gr, g.BlockBitmap(gr), l.owner, on);
    }
  }

  lemma NoBitmaps(dev: seq<byte>, g: Geometry, used: set<nat>)
    ensures BitmapsRight(dev, g, used, 0)
  {
  }

  // ----- Counting.

  /** The blocks of a group that are free. */
  function FreeIn(g: Geometry, gr: nat, used: set<nat>): set<nat> {
    Span(g.GroupStart(gr), g.GroupEnd(gr)) - used
  }

  /** usedBlocksInGroup. */
  method UsedBlocksInGroup(l: Layouter, gr: nat) returns (c: nat)
    requires l.Valid() && ExtGeometry.WellLaidOut(l.geo) && gr < l.geo.numGroups
    ensures c == |Span(l.geo.GroupStart(gr), l.geo.GroupEnd(gr)) * l.al.Used()|
  {
    hide Layouter.Valid, Bitmap.Used, ExtGeometry.WellLaidOut, ExtGeometry.HasSuperblock;
    var g := l.geo;
    LastInGroup(g, gr);
    var start := g.GroupStart(gr);
    ghost var used := l.al.Used();
    c := 0;
    assert Span(start, start) * used == {};
    for n := 0 to g.BlocksInGroup(gr)
      invariant c == |Span(start, start + n) * used|
    {
      MirrorSays(l, start + n);
      SpanStep(start, start + n, used);
      if l.used[start + n] {
        c := c + 1;
      }
    }
  }

  lemma SpanStep(a: nat, b: nat, used: set<nat>)
    requires a <= b
    ensures |Span(a, b + 1) * used| == |Span(a, b) * used| + if b in used then 1 else 0
  {
    if b in used {
      assert Span(a, b + 1) * used == Span(a, b) * used + {b};
    } else {
      assert Span(a, b + 1) * used == Span(a, b) * used;
    }
  }

  lemma FreeAndUsed(a: nat, b: nat, used: set<nat>)
    requires a <= b
    ensures |Span(a, b) - used| + |Span(a, b) * used| == b - a
  {
    SpanSize(a, b);
    assert Span(a, b) == (Span(a, b) - used) + (Span(a, b) * used);
  }

  lemma FreeSplit(a: nat, b: nat, c: nat, used: set<nat>)
    requires a <= b <= c
    ensures |Span(a, c) - used| == |Span(a, b) - used| + |Span(b, c) - used|
  {
    assert Span(a, c) - used == (Span(a, b) - used) + (Span(b, c) - used);
  }

  /** The free count of a group descriptor: 16 bits. */
  datatype GroupDesc = GroupDesc(blockBitmap: nat, inodeTable: nat, freeBlocks: nat)

  /** The counts of writeDescriptorsAndSuperblocks. */
  method FreeCounts(l: Layouter) returns (descs: seq<GroupDesc>, total: nat)
    requires l.Valid() && ExtGeometry.WellLaidOut(l.geo) && Span(0, l.geo.firstDataBlock) <= l.al.Used()
    requires l.geo.totalBlocks <= TWO32
    ensures |descs| == l.geo.numGroups
    ensures forall gr: nat :: gr < l.geo.numGroups ==>
      descs[gr] == GroupDesc(l.geo.BlockBitmap(gr), l.geo.InodeTable(gr), |FreeIn(l.geo, gr, l.al.Used())| % TWO16)
    ensures total == FreeCount(l.al.Used(), l.geo.totalBlocks) % TWO32
  {
    hide Layouter.Valid, Bitmap.Used, ExtGeometry.WellLaidOut, ExtGeometry.HasSuperblock, FreeCount;
    var g := l.geo;
    ghost var used := l.al.Used();
    descs := [];
    var sum: nat := 0;
    FirstStart(g);
    assert Span(g.firstDataBlock, g.firstDataBlock) - used == {};
    for gr := 0 to g.numGroups
      invariant |descs| == gr
      invariant forall a: nat :: a < gr ==>
        descs[a] == GroupDesc(g.BlockBitmap(a), g.InodeTable(a), |FreeIn(g, a, used)| % TWO16)
      invariant sum == |Span(g.firstDataBlock, Reached(g, gr)) - used|
    {
      LastInGroup(g, gr);
      GroupsReach(g, gr);
      var c := UsedBlocksInGroup(l, gr);
      FreeAndUsed(g.GroupStart(gr), g.GroupEnd(gr), used);
      var free: nat := g.BlocksInGroup(gr) - c;
      FreeSplit(g.firstDataBlock, g.GroupStart(gr), g.GroupEnd(gr), used);
      descs := descs + [GroupDesc(g.BlockBitmap(gr), g.InodeTable(gr), free % TWO16)];
      sum := sum + free;
    }
    AllReached(g, used);
    total := sum % TWO32;
  }

  /** Where the first groups end. */
  function Reached(g: Geometry, groups: nat): nat {
    if groups == 0 then g.firstDataBlock else g.GroupEnd(groups - 1)
  }

  lemma FirstStart(g: Geometry)
    requires ExtGeometry.WellLaidOut(g)
    ensures g.GroupStart(0) == g.firstDataBlock && g.numGroups > 0
  {
  }

  lemma GroupsReach(g: Geometry, gr: nat)
    requires ExtGeometry.WellLaidOut(g) && gr < g.numGroups
    ensures Reached(g, gr) == g.GroupStart(gr) && g.firstDataBlock <= g.GroupStart(gr) <= g.GroupEnd(gr)
  {
    hide ExtGeometry.HasSuperblock, ExtGeometry.WellLaidOut;
    FirstStart(g);
    GroupInside(g, gr);
    StartsAscend(g, 0, gr);
    if gr > 0 {
      GroupMeets(g, gr - 1);
    }
  }

  lemma AllReached(g: Geometry, used: set<nat>)
    requires ExtGeometry.WellLaidOut(g) && Span(0, g.firstDataBlock) <= used
    ensures |Span(g.firstDataBlock, Reached(g, g.numGroups)) - used| == FreeCount(used, g.totalBlocks)
  {
    hide ExtGeometry.HasSuperblock;
    GroupsReach(g, g.numGroups - 1);
    assert Span(0, g.totalBlocks) - used == Span(g.firstDataBlock, g.totalBlocks) - used;
  }

  /** used has the metadata of the group, and its descriptor counts its free blocks wrongly. */
  ghost predicate Miscounted(g: Geometry, gr: nat, used: set<nat>) {
    && Span(g.GroupStart(gr), g.FirstData(gr)) <= used
    && |FreeIn(g, gr, used)| % TWO16 != |FreeIn(g, gr, used)|
  }

  /** A group descriptor counts the free blocks of its group, whatever is used besides its metadata, if
      and only if the group has room for less than 2^16 blocks of data. Blocks up to 8 KiB are safe. */
  lemma DescriptorCount(g: Geometry, gr: nat)
    requires ExtGeometry.WellLaidOut(g) && gr < g.numGroups
    ensures (forall used: set<nat> :: !Miscounted(g, gr, used)) <==> g.GroupEnd(gr) - g.FirstData(gr) < TWO16
    ensures g.blockSize <= 8192 ==> g.GroupEnd(gr) - g.FirstData(gr) < TWO16
  {
    hide ExtGeometry.HasSuperblock, FreeIn;
    LastInGroup(g, gr);
    DataInside(g, gr);
    SpanSize(g.FirstData(gr), g.GroupEnd(gr));
    if g.GroupEnd(gr) - g.FirstData(gr) < TWO16 {
      forall used: set<nat>
        ensures !Miscounted(g, gr, used)
      {
        if Span(g.GroupStart(gr), g.FirstData(gr)) <= used {
          OnlyDataFree(g, gr, used);
          FewerThan(FreeIn(g, gr, used), Span(g.FirstData(gr), g.GroupEnd(gr)));
        }
      }
    } else {
      var bare := Span(g.GroupStart(gr), g.FirstData(gr));
      OnlyDataFree(g, gr, bare);
      assert Miscounted(g, gr, bare);
    }
  }

  lemma OnlyDataFree(g: Geometry, gr: nat, used: set<nat>)
    requires g.GroupStart(gr) <= g.FirstData(gr) <= g.GroupEnd(gr) && Span(g.GroupStart(gr), g.FirstData(gr)) <= used
    ensures FreeIn(g, gr, used) <= Span(g.FirstData(gr), g.GroupEnd(gr))
    ensures used == Span(g.GroupStart(gr), g.FirstData(gr)) ==>
      FreeIn(g, gr, used) == Span(g.FirstData(gr), g.GroupEnd(gr))
  {
    hide ExtGeometry.HasSuperblock;
    assert Span(g.GroupStart(gr), g.GroupEnd(gr)) ==
           Span(g.GroupStart(gr), g.FirstData(gr)) + Span(g.FirstData(gr), g.GroupEnd(gr));
  }

  lemma DataInside(g: Geometry, gr: nat)
    requires ExtGeometry.WellLaidOut(g) && gr < g.numGroups
    ensures g.GroupStart(gr) < g.FirstData(gr) <= g.GroupEnd(gr)
  {
    hide ExtGeometry.HasSuperblock;
  }

  /** Two gibibytes in blocks of 16 KiB: one group with 130044 free blocks, and 64508 in its descriptor. */
  method BigBlocks() returns (g: Geometry)
    ensures ExtGeometry.WellLaidOut(g) && g.blockSize == 16384 && g.numGroups == 1
    ensures |FreeIn(g, 0, Span(0, g.FirstData(0)))| == 130044 && Miscounted(g, 0, Span(0, g.FirstData(0)))
  {
    hide ExtGeometry.WellLaidOut, ExtGeometry.Cut, ExtGeometry.Sized, ExtGeometry.HasSuperblock, ExtGeometry.Settled,
         ExtGeometry.Refused;
    var r := ExtGeometry.ComputeGeometry(0x8000_0000, 16384, 128);
    assert 0x8000_0000 / 16384 == 131072;
    ExtGeometry.OneGroupIs(r);
    OneGroupCounts(r.value);
    return r.value;
  }

  lemma OneGroupCounts(g: Geometry)
    requires g.firstDataBlock == 0 && g.Overhead(0) == 1028 && g.totalBlocks == g.blocksPerGroup == 131072
    ensures |FreeIn(g, 0, Span(0, g.FirstData(0)))| == 130044 && Miscounted(g, 0, Span(0, g.FirstData(0)))
  {
    hide ExtGeometry.HasSuperblock;
    assert g.FirstData(0) == 1028 && g.GroupStart(0) == 0 && g.GroupEnd(0) == 131072;
    SpanSize(1028, 131072);
    assert FreeIn(g, 0, Span(0, 1028)) == Span(1028, 131072);
  }

  // ----- The whole run.

  datatype Outcome = Written(inodes: seq<Inode>, descs: seq<GroupDesc>, freeBlocks: nat)
    | BadGeometry(error: ExtGeometry.GeometryError) | LayoutFailed(reason: LayoutError)

  /** The device after a successful run: files, bitmaps and counts agree on which blocks are used. */
  ghost predicate Consistent(dev: seq<byte>, g: Geometry, owner: map<nat, Owner>, on: seq<FileOn>, r: Outcome) {
    && r.Written? && ExtGeometry.WellLaidOut(g)
    && Owners(owner, g, on) && AllHold(dev, g.blockSize, on)
    && BitmapsRight(dev, g, owner.Keys, g.numGroups)
    && |r.descs| == g.numGroups
    && (forall gr: nat :: gr < g.numGroups ==>
          r.descs[gr] == GroupDesc(g.BlockBitmap(gr), g.InodeTable(gr), |FreeIn(g, gr, owner.Keys)| % TWO16))
    && r.freeBlocks == FreeCount(owner.Keys, g.totalBlocks)
  }

  lemma MetaUsed(owner: map<nat, Owner>, g: Geometry, on: seq<FileOn>)
    requires Owners(owner, g, on)
    ensures Span(0, g.firstDataBlock) <= owner.Keys
    ensures forall gr: nat :: gr < g.numGroups ==> Span(g.GroupStart(gr), g.FirstData(gr)) <= owner.Keys
  {
    hide ExtGeometry.HasSuperblock;
    forall gr: nat, b: nat | gr < g.numGroups && b in Span(g.GroupStart(gr), g.FirstData(gr))
      ensures b in owner
    {
      assert InGroupMeta(g, gr, b);
    }
  }

  lemma SmallEnough(g: Geometry, devSize: nat)
    requires devSize <= ExtGeometry.TIB && ExtGeometry.ValidBlockSize(g.blockSize)
      && g.totalBlocks <= devSize / g.blockSize
    ensures g.totalBlocks <= 0x4000_0000
  {
    var q := devSize / g.blockSize;
    assert q * g.blockSize <= devSize;
    MulMono(1024, g.blockSize, q);
  }

  lemma FreeFits(used: set<nat>, total: nat)
    requires total <= 0x4000_0000
    ensures FreeCount(used, total) % TWO32 == FreeCount(used, total)
  {
    SpanSize(0, total);
    FewerThan(Span(0, total) - used, Span(0, total));
  }

  /** Geometry, reserved metadata, files, bitmaps and counts, on a device of at most a tebibyte. */
  method Format(dev: File, devSize: nat, blockSize: nat, inodeSize: nat, useExtents: bool, specs: seq<FileSpec>,
          hashes: Hashes)
      returns (r: Outcome, ghost g: Geometry, ghost owner: map<nat, Owner>, ghost on: seq<FileOn>)
    requires inodeSize in {0, 128, 256} && devSize <= ExtGeometry.TIB
    requires forall k :: 0 <= k < |specs| ==> ShortNames(specs[k].attrs)
    modifies dev
    ensures r.Written? ==> Consistent(dev.data, g, owner, on, r)
    ensures r.Written? ==> |r.inodes| == |specs| && Describe(on, r.inodes, specs)
    ensures r.BadGeometry? ==> ExtGeometry.Refused(r.error, devSize, blockSize, inodeSize)
    ensures r.LayoutFailed? ==>
      g.blockSize > 0 && exists k :: 0 <= k < |specs| && Explained(r.reason, g, useExtents, owner.Keys, specs[k])
    ensures r.Written? ==> g.blockSize == (if blockSize == 0 then 1024 else blockSize) && g.blockSize >= 1024
  {
    hide ShortNames, Layouter.Valid, Bitmap.Used, ExtGeometry.WellLaidOut, ExtGeometry.HasSuperblock, FreeCount,
         Owners, AllHold, BitmapsRight, OnlyIn, Describe, CeilDiv, Explained, ExtGeometry.Settled, ExtGeometry.Sized,
         ExtGeometry.Cut, ExtGeometry.Refused;
    owner, on := map[], [];
    var geo := ExtGeometry.ComputeGeometry(devSize, blockSize, inodeSize);
    if geo.Err? {
      g := ExtGeometry.Geometry(0, 0, 0, 0, 0, 0, 0, 0, 0, 0);
      return BadGeometry(geo.error), g, owner, on;
    }
    g := geo.value;
    SmallEnough(geo.value, devSize);
    var l := new Layouter(geo.value, dev, useExtents);
    ReserveMetadata(l);
    var inodes;
    inodes, on := LayOut(l, specs, hashes);
    owner := l.owner;
    KeysUsed(l);
    if inodes.Failure? {
      return LayoutFailed(inodes.error), g, owner, on;
    }
    MetaUsed(owner, g, on);
    WriteBlockBitmaps(l, on);
    var descs, total := FreeCounts(l);
    FreeFits(l.al.Used(), geo.value.totalBlocks);
    return Written(inodes.value, descs, total), g, owner, on;
  }

  lemma Described(dev: seq<byte>, bs: nat, on: seq<FileOn>, inodes: seq<Inode>, specs: seq<FileSpec>, k: nat)
    requires AllHold(dev, bs, on) && Describe(on, inodes, specs) && k < |on|
    ensures ExtFiles.Holds(dev, bs, on[k]) && on[k].inode == inodes[k] && on[k].spec == specs[k]
  {
  }

  /** Every file of a formatted device reads back, through its block map, as it was written. */
  method FormatThenRead(dev: File, devSize: nat, blockSize: nat, inodeSize: nat, useExtents: bool,
                        specs: seq<FileSpec>, hashes: Hashes, k: nat, dst: array<byte>, off: nat)
      returns (ok: bool, n: nat, eof: bool, attrs: Attributes)
    requires inodeSize in {0, 128, 256} && devSize <= ExtGeometry.TIB && k < |specs|
    requires forall j :: 0 <= j < |specs| ==> ShortNames(specs[j].attrs)
    modifies dev, dst
    ensures ok ==>
      var f := specs[k].content;
      && n == (if off >= |f| then 0 else Lesser(dst.Length, |f| - off))
      && (eof <==> off >= |f| || n < dst.Length)
      && dst[..n] == f[Lesser(off, |f|)..Lesser(off, |f|) + n] && dst[n..] == old(dst[..])[n..]
      && (attrs == specs[k].attrs <==> "" !in specs[k].attrs)
  {
    hide Mapped, StoredUpTo, AttrsAt, ShortNames, Describe, AllHold, Owners, BitmapsRight, FreeCount, FreeIn,
         ExtGeometry.WellLaidOut;
    var r, g, owner, on := Format(dev, devSize, blockSize, inodeSize, useExtents, specs, hashes);
    if !r.Written? {
      return false, 0, true, map[];
    }
    var bs := if blockSize == 0 then 1024 else blockSize;
    DescribeSize(on, r.inodes, specs);
    Described(dev.data, bs, on, r.inodes, specs, k);
    ghost var f := on[k];
    var blocks := BlockListOf(dev, bs, r.inodes[k], f.blocks, f.index);
    n, eof := ReadAt(dev, bs, blocks, r.inodes[k].size, f.spec.content, dst, off);
    attrs := ReadXattrs(dev, bs, r.inodes[k].attrs);
    ok := true;
  }

  lemma DescribeSize(on: seq<FileOn>, inodes: seq<Inode>, specs: seq<FileSpec>)
    requires Describe(on, inodes, specs)
    ensures |on| == |inodes|
  {
  }
}
