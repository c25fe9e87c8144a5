/** pkg/ext/geometry.go: how an ext filesystem is cut into block groups. */
module ExtGeometry {
  import opened Bytes

  const DESC_SIZE: nat := 32
  const BYTES_PER_INODE: nat := 16384
  const RUNT_MIN_DATA: nat := 8
  const FIRST_INO: nat := 11
  const TIB: nat := 0x100_0000_0000

  /** DividesByZero stands for the run-time panic of an integer division by zero. */
  datatype GeometryError = BadBlockSize | BadDeviceSize | TooSmall | DividesByZero

  datatype Result<T> = Ok(value: T) | Err(error: GeometryError)

  /** What is left of n once every factor base is divided out. */
  function DividedOut(n: nat, base: nat): nat
    requires n > 0 && base > 1
  {
    if n % base == 0 then
      Divides(n, base);
      DividedOut(n / base, base)
    else n
  }

  lemma Divides(n: nat, base: nat)
    requires n > 0 && base > 1 && n % base == 0
    ensures 0 < n / base < n && n == base * (n / base)
  {
    var q := n / base;
    assert n == base * q;
    MulGap(0, q, base - 1);
  }

  predicate PowerOf(n: nat, base: nat)
    requires base > 1
  {
    n > 0 && DividedOut(n, base) == 1
  }

  function Power(base: nat, e: nat): nat {
    if e == 0 then 1 else base * Power(base, e - 1)
  }

  /** PowerOf holds exactly of the powers of its base, 1 among them. */
  lemma {:induction false} PowerOfIsPower(n: nat, base: nat)
    requires base > 1
    ensures PowerOf(n, base) <==> exists e: nat :: n == Power(base, e)
  {
    if PowerOf(n, base) {
      var e := Exponent(n, base);
    }
    if e: nat :| n == Power(base, e) {
      PowerDividesOut(base, e);
    }
  }

  lemma {:induction false} Exponent(n: nat, base: nat) returns (e: nat)
    requires base > 1 && PowerOf(n, base)
    ensures n == Power(base, e)
    decreases n
  {
    if n % base == 0 {
      Divides(n, base);
      var d := Exponent(n / base, base);
      e := d + 1;
    } else {
      e := 0;
    }
  }

  lemma {:induction false} PowerDividesOut(base: nat, e: nat)
    requires base > 1
    ensures Power(base, e) > 0 && DividedOut(Power(base, e), base) == 1
    decreases e
  {
    if e > 0 {
      var p := Power(base, e - 1);
      PowerDividesOut(base, e - 1);
      MulGap(0, p, base);
      DivUnique(p * base, base, p, 0);
      assert Power(base, e) == p * base;
    } else {
      DivUnique(1, base, 0, 1);
    }
  }

  method IsPowerOf(n: nat, base: nat) returns (r: bool)
    requires base > 1
    ensures r == PowerOf(n, base)
    ensures r <==> exists e: nat :: n == Power(base, e)
  {
    PowerOfIsPower(n, base);
    if n == 0 {
      return false;
    }
    var m := n;
    while m % base == 0
      invariant m > 0 && DividedOut(m, base) == DividedOut(n, base)
      decreases m
    {
      Divides(m, base);
      m := m / base;
    }
    return m == 1;
  }

  /** sparse_super: group 0 and the powers of 3, 5 and 7. */
  predicate HasSuperblock(gr: nat) {
    gr == 0 || PowerOf(gr, 3) || PowerOf(gr, 5) || PowerOf(gr, 7)
  }

  lemma BackupGroups(gr: nat)
    ensures HasSuperblock(gr) <==>
      gr == 0 || exists e: nat :: gr == Power(3, e) || gr == Power(5, e) || gr == Power(7, e)
  {
    hide PowerOf, Power;
    PowerOfIsPower(gr, 3);
    PowerOfIsPower(gr, 5);
    PowerOfIsPower(gr, 7);
  }

  datatype Geometry = Geometry(
    blockSize: nat, totalBlocks: nat, firstDataBlock: nat, blocksPerGroup: nat, inodesPerGroup: nat,
    inodeSize: nat, inodesCount: nat, numGroups: nat, gdtBlocks: nat, inodeTableBlocks: nat)
  {
    function GroupStart(gr: nat): nat {
      firstDataBlock + gr * blocksPerGroup
    }

    function Overhead(gr: nat): nat {
      2 + inodeTableBlocks + if HasSuperblock(gr) then 1 + gdtBlocks else 0
    }

    function GroupEnd(gr: nat): nat {
      if GroupStart(gr) + blocksPerGroup > totalBlocks then totalBlocks else GroupStart(gr) + blocksPerGroup
    }

    function BlocksInGroup(gr: nat): int {
      GroupEnd(gr) - GroupStart(gr)
    }

    // groupLayout: block bitmap, inode bitmap, inode table and first data block of a group.

    function BlockBitmap(gr: nat): nat {
      GroupStart(gr) + if HasSuperblock(gr) then 1 + gdtBlocks else 0
    }

    function InodeBitmap(gr: nat): nat {
      BlockBitmap(gr) + 1
    }

    function InodeTable(gr: nat): nat {
      BlockBitmap(gr) + 2
    }

    function FirstData(gr: nat): nat {
      InodeTable(gr) + inodeTableBlocks
    }
  }

  /** Where a group keeps what: the superblock and the descriptors come first in group 0 and in the powers of 3, 5 and 7. */
  lemma GroupPlaces(g: Geometry, gr: nat)
    ensures g.GroupStart(gr + 1) - g.GroupStart(gr) == g.blocksPerGroup && g.GroupStart(0) == g.firstDataBlock
    ensures g.BlockBitmap(gr) - g.GroupStart(gr) ==
      if gr == 0 || exists e: nat :: gr == Power(3, e) || gr == Power(5, e) || gr == Power(7, e) then 1 + g.gdtBlocks
      else 0
    ensures g.InodeBitmap(gr) == g.BlockBitmap(gr) + 1 && g.InodeTable(gr) == g.BlockBitmap(gr) + 2
    ensures g.FirstData(gr) == g.InodeTable(gr) + g.inodeTableBlocks == g.GroupStart(gr) + g.Overhead(gr)
  {
    hide HasSuperblock, Power;
    BackupGroups(gr);
  }

  predicate ValidBlockSize(bs: nat) {
    bs in {1024, 2048, 4096, 8192, 16384, 32768, 65536}
  }

  /** The groups cut [firstDataBlock, totalBlocks) into pieces, and each holds its own metadata. */
  ghost predicate WellLaidOut(g: Geometry) {
    && g.numGroups > 0
    && g.GroupStart(0) == g.firstDataBlock && g.GroupEnd(g.numGroups - 1) == g.totalBlocks
    && (forall gr :: 0 <= gr < g.numGroups - 1 ==> g.GroupEnd(gr) == g.GroupStart(gr + 1))
    && (forall gr :: 0 <= gr < g.numGroups ==>
          && g.GroupStart(gr) <= g.BlockBitmap(gr) < g.InodeBitmap(gr) < g.InodeTable(gr)
          && g.InodeTable(gr) <= g.FirstData(gr) <= g.GroupEnd(gr))
    && g.inodesPerGroup <= g.blocksPerGroup == 8 * g.blockSize
    && g.inodesPerGroup * g.inodeSize <= g.inodeTableBlocks * g.blockSize
    && g.inodesCount == g.inodesPerGroup * g.numGroups && FIRST_INO <= g.inodesPerGroup
  }

  /** The inode geometry for a number of groups. */
  function Sized(g: Geometry, devSize: nat): Geometry
    requires g.numGroups > 0 && g.blockSize > 0
  {
    var rounded := Rounded(devSize / BYTES_PER_INODE, g.numGroups);
    var ipg := if rounded > g.blocksPerGroup then g.blocksPerGroup else rounded;
    g.(gdtBlocks := CeilDiv(g.numGroups * DESC_SIZE, g.blockSize), inodesPerGroup := ipg,
       inodesCount := ipg * g.numGroups, inodeTableBlocks := CeilDiv(ipg * g.inodeSize, g.blockSize))
  }

  /** One inode for 16 KiB of the device, in groups of eights: no fewer than 16 and no more than there are blocks in a
      group; every table takes the blocks it needs and no more. */
  lemma SizedIsLeast(g: Geometry, devSize: nat)
    requires g.numGroups > 0 && g.blockSize > 0 && g.blocksPerGroup == 8 * g.blockSize
    ensures var s := Sized(g, devSize);
      && s == g.(gdtBlocks := s.gdtBlocks, inodesPerGroup := s.inodesPerGroup, inodesCount := s.inodesCount,
                 inodeTableBlocks := s.inodeTableBlocks)
      && s.inodesCount == s.inodesPerGroup * g.numGroups
      && s.inodesPerGroup % 8 == 0 && s.inodesPerGroup <= g.blocksPerGroup
      && (s.inodesPerGroup < g.blocksPerGroup ==> s.inodesPerGroup >= 16 && s.inodesCount >= devSize / 16384)
      && (s.inodesPerGroup > 16 ==> (s.inodesPerGroup - 8) * g.numGroups < devSize / 16384)
      && LeastFor(g.numGroups * 32, s.gdtBlocks, g.blockSize)
      && LeastFor(s.inodesPerGroup * g.inodeSize, s.inodeTableBlocks, g.blockSize)
  {
    hide CeilDiv, LeastFor, Rounded;
    CeilIsLeast(g.numGroups * DESC_SIZE, g.blockSize);
    CeilIsLeast(Sized(g, devSize).inodesPerGroup * g.inodeSize, g.blockSize);
    RoundedIsLeast(devSize / BYTES_PER_INODE, g.numGroups);
    DivUnique(g.blocksPerGroup, 8, g.blockSize, 0);
    var s, r := Sized(g, devSize), Rounded(devSize / BYTES_PER_INODE, g.numGroups);
    if s.inodesPerGroup > 16 {
      MulMono(s.inodesPerGroup - 8, r - 8, g.numGroups);
    }
  }

  /** A share of ic inodes for each of n groups, in eights. */
  function Rounded(ic: nat, n: nat): nat
    requires n > 0
  {
    var want := CeilDiv(ic, n);
    CeilDiv(if want < 16 then 16 else want, 8) * 8
  }

  lemma RoundedIsLeast(ic: nat, n: nat)
    requires n > 0
    ensures Rounded(ic, n) % 8 == 0 && Rounded(ic, n) >= 16 && Rounded(ic, n) * n >= ic
    ensures Rounded(ic, n) > 16 ==> (Rounded(ic, n) - 8) * n < ic
  {
    hide CeilDiv;
    var want := CeilDiv(ic, n);
    var atLeast := if want < 16 then 16 else want;
    var q := CeilDiv(atLeast, 8);
    CeilDivCovers(ic, n);
    CeilDivCovers(atLeast, 8);
    DivUnique(q * 8, 8, q, 0);
    MulMono(want, q * 8, n);
    CeilDivBound(16, 8, 2);
    if q * 8 > 16 {
      MulMono(q * 8 - 8, want - 1, n);
      if ic == 0 {
        CeilDivBound(ic, n, 0);
      }
    }
  }

  /** n blocks hold so many bytes, and fewer do not. */
  predicate LeastFor(bytes: nat, n: nat, bs: nat) {
    bytes <= n * bs && (n > 0 ==> (n - 1) * bs < bytes)
  }

  lemma CeilIsLeast(bytes: nat, bs: nat)
    requires bs > 0
    ensures LeastFor(bytes, CeilDiv(bytes, bs), bs)
  {
    CeilDivCovers(bytes, bs);
    if bytes == 0 {
      CeilDivBound(bytes, bs, 0);
    }
  }

  /** At most a tebibyte in groups of eight blocks per byte of a block: few groups, small overhead. */
  lemma GroupsAreFew(bs: nat, devSize: nat, groups: nat)
    requires ValidBlockSize(bs) && devSize <= TIB && groups <= CeilDiv(devSize / bs, 8 * bs)
    ensures CeilDiv(groups * DESC_SIZE, bs) + 2059 <= 8 * bs
  {
    if bs == 1024 {
    } else if bs == 2048 {
    } else if bs == 4096 {
    } else if bs == 8192 {
    } else if bs == 16384 {
    } else if bs == 32768 {
    } else {
    }
  }

  /** A group whose size is derived from the heuristic leaves room for data. */
  lemma SizedFits(g: Geometry, devSize: nat, gr: nat)
    requires ValidBlockSize(g.blockSize) && g.blocksPerGroup == 8 * g.blockSize && g.inodeSize in {128, 256}
    requires devSize <= TIB && 0 < g.numGroups <= CeilDiv(devSize / g.blockSize, 8 * g.blockSize)
    ensures var s := Sized(g, devSize);
      && s.Overhead(gr) + RUNT_MIN_DATA <= s.blocksPerGroup
      && s.inodesPerGroup <= s.blocksPerGroup && FIRST_INO <= s.inodesPerGroup
      && s.inodesPerGroup * s.inodeSize <= s.inodeTableBlocks * s.blockSize
  {
    hide HasSuperblock;
    var s, bs := Sized(g, devSize), g.blockSize;
    GroupsAreFew(bs, devSize, g.numGroups);
    assert s.inodesPerGroup * s.inodeSize <= 2048 * bs by {
      MulMono(s.inodesPerGroup, 8 * bs, s.inodeSize);
      assert 8 * bs * s.inodeSize <= 2048 * bs;
    }
    CeilDivBound(s.inodesPerGroup * s.inodeSize, bs, 2048);
    CeilDivCovers(s.inodesPerGroup * s.inodeSize, bs);
  }

  /** The groups tile the blocks, the last one being partly or wholly there. */
  ghost predicate Tiled(g: Geometry) {
    g.numGroups > 0 && g.GroupStart(g.numGroups - 1) < g.totalBlocks <= g.GroupStart(g.numGroups - 1) + g.blocksPerGroup
  }

  lemma TilesMeet(g: Geometry, gr: nat)
    requires Tiled(g) && gr < g.numGroups
    ensures if gr < g.numGroups - 1 then g.GroupEnd(gr) == g.GroupStart(gr + 1) else g.GroupEnd(gr) == g.totalBlocks
    ensures gr < g.numGroups - 1 ==> g.BlocksInGroup(gr) == g.blocksPerGroup
  {
    if gr < g.numGroups - 1 {
      MulMono(gr + 1, g.numGroups - 1, g.blocksPerGroup);
      assert (gr + 1) * g.blocksPerGroup == gr * g.blocksPerGroup + g.blocksPerGroup;
    }
  }

  lemma LaidOut(g: Geometry)
    requires Tiled(g) && g.inodesPerGroup <= g.blocksPerGroup == 8 * g.blockSize && FIRST_INO <= g.inodesPerGroup
    requires g.inodesPerGroup * g.inodeSize <= g.inodeTableBlocks * g.blockSize
    requires g.inodesCount == g.inodesPerGroup * g.numGroups
    requires g.numGroups > 1 ==> g.Overhead(0) <= g.blocksPerGroup
    requires g.Overhead(g.numGroups - 1) <= g.BlocksInGroup(g.numGroups - 1)
    ensures WellLaidOut(g)
  {
    hide HasSuperblock;
    forall gr | 0 <= gr < g.numGroups
      ensures g.GroupStart(gr) < g.FirstData(gr) <= g.GroupEnd(gr)
      ensures gr < g.numGroups - 1 ==> g.GroupEnd(gr) == g.GroupStart(gr + 1)
    {
      TilesMeet(g, gr);
      assert g.FirstData(gr) == g.GroupStart(gr) + g.Overhead(gr);
      FirstIsLargest(g, gr);
    }
    TilesMeet(g, g.numGroups - 1);
  }

  lemma FirstIsLargest(g: Geometry, gr: nat)
    ensures g.Overhead(gr) <= g.Overhead(0)
  {
    hide PowerOf;
  }

  /** The blocks in use, with the last group full after a runt was dropped. */
  ghost predicate Cut(g: Geometry, bs: nat, isz: nat, total: nat, first: nat) {
    && bs > 0 && first < total
    && g.blockSize == bs && g.blocksPerGroup == 8 * bs && g.firstDataBlock == first && g.inodeSize == isz
    && 0 < g.numGroups <= CeilDiv(total - first, 8 * bs)
    && Tiled(g)
    && (g.totalBlocks == total || (g.totalBlocks < total && g.BlocksInGroup(g.numGroups - 1) == 8 * bs))
  }

  lemma SizedCut(g: Geometry, bs: nat, isz: nat, total: nat, first: nat, devSize: nat)
    requires Cut(g, bs, isz, total, first)
    ensures Cut(Sized(g, devSize), bs, isz, total, first)
  {
    hide CeilDiv;
  }

  /** A last group that holds its metadata and a little data. */
  predicate Settled(g: Geometry)
    requires g.numGroups > 0
  {
    g.numGroups <= 1 || g.BlocksInGroup(g.numGroups - 1) >= g.Overhead(g.numGroups - 1) + RUNT_MIN_DATA
  }

  /** The last group keeps eight blocks for data, on the device and before where another group would start. */
  lemma SettledMeans(g: Geometry)
    requires g.numGroups > 0
    ensures var last := g.numGroups - 1;
      Settled(g) <==>
        last == 0 || (g.FirstData(last) + 8 <= g.totalBlocks && g.FirstData(last) + 8 <= g.GroupStart(last + 1))
  {
    hide HasSuperblock;
    GroupPlaces(g, g.numGroups - 1);
  }

  function Dropped(g: Geometry): Geometry
    requires g.numGroups > 1
  {
    g.(numGroups := g.numGroups - 1, totalBlocks := g.firstDataBlock + (g.numGroups - 1) * g.blocksPerGroup)
  }

  lemma DroppedCut(g: Geometry, bs: nat, isz: nat, total: nat, first: nat)
    requires Cut(g, bs, isz, total, first) && g.numGroups > 1
    ensures Cut(Dropped(g), bs, isz, total, first)
  {
    hide CeilDiv;
    var last := g.numGroups - 1;
    assert last * (8 * bs) == (last - 1) * (8 * bs) + 8 * bs;
  }

  /** Up to a tebibyte only one group is ever dropped: the one before it is full, and holds its metadata. */
  lemma FullGroupsSettle(g: Geometry, bs: nat, isz: nat, total: nat, first: nat, devSize: nat)
    requires ValidBlockSize(bs) && isz in {128, 256} && 0 < devSize <= TIB
    requires total == devSize / bs && Cut(g, bs, isz, total, first) && g.totalBlocks < total
    ensures Settled(Sized(g, devSize))
  {
    hide HasSuperblock, CeilDiv;
    GroupsFromTotal(total, first, 8 * bs);
    SizedFits(g, devSize, g.numGroups - 1);
  }

  /** Group 0 has the largest overhead: a layout holds its metadata exactly if group 0 does. */
  lemma LaidOutWhen(g: Geometry, bs: nat, isz: nat, total: nat, first: nat, devSize: nat)
    requires ValidBlockSize(bs) && Cut(g, bs, isz, total, first) && first <= 1
    requires g == Sized(g, devSize) && Settled(g) && g.totalBlocks >= g.Overhead(0) + 8
    ensures WellLaidOut(g) <==> g.numGroups == 1 || g.Overhead(0) <= g.blocksPerGroup
  {
    hide HasSuperblock, CeilDiv, WellLaidOut;
    TilesMeet(g, 0);
    if g.numGroups == 1 || g.Overhead(0) <= g.blocksPerGroup {
      EnoughInodes(g, bs, isz, total, first, devSize);
      TableHolds(g, devSize);
      LaidOut(g);
    } else if WellLaidOut(g) {
      FirstHolds(g);
    }
  }

  lemma FirstHolds(g: Geometry)
    requires WellLaidOut(g)
    ensures g.Overhead(0) <= g.BlocksInGroup(0)
  {
    hide HasSuperblock;
    assert g.FirstData(0) == g.GroupStart(0) + g.Overhead(0);
  }

  lemma TableHolds(g: Geometry, devSize: nat)
    requires g.numGroups > 0 && g.blockSize > 0 && g == Sized(g, devSize)
    ensures g.inodesPerGroup * g.inodeSize <= g.inodeTableBlocks * g.blockSize && g.inodesPerGroup <= g.blocksPerGroup
    ensures g.inodesCount == g.inodesPerGroup * g.numGroups
  {
    CeilDivCovers(g.inodesPerGroup * g.inodeSize, g.blockSize);
  }

  /** Up to a tebibyte, and with the inode sizes of the engines, group 0 holds its metadata. */
  lemma MetadataFits(g: Geometry, bs: nat, isz: nat, total: nat, first: nat, devSize: nat)
    requires ValidBlockSize(bs) && isz in {128, 256} && 0 < devSize <= TIB
    requires total == devSize / bs && Cut(g, bs, isz, total, first) && first <= 1
    requires g == Sized(g, devSize) && Settled(g) && g.totalBlocks >= g.Overhead(0) + 8
    ensures g.Overhead(0) <= g.blocksPerGroup
  {
    hide HasSuperblock, CeilDiv, WellLaidOut;
    GroupsFromTotal(total, first, 8 * bs);
    SizedFits(g, devSize, 0);
  }

  /** The first block behind the boot block, if there is one. */
  function FirstBlock(bs: nat): nat {
    if bs == 1024 then 1 else 0
  }

  function MostGroups(devSize: nat, bs: nat): nat
    requires bs > 0
  {
    if devSize / bs <= FirstBlock(bs) then 0 else CeilDiv(devSize / bs - FirstBlock(bs), 8 * bs)
  }

  /** The layout of k groups: of the whole device, or of so many full groups. */
  function Trial(devSize: nat, bs: nat, isz: nat, k: nat): Geometry
    requires bs > 0 && k > 0
  {
    Sized(Geometry(bs, if k == MostGroups(devSize, bs) then devSize / bs else FirstBlock(bs) + k * (8 * bs),
                   FirstBlock(bs), 8 * bs, 0, isz, 0, k, 0, 0), devSize)
  }

  /** No layout of more groups is settled. */
  ghost predicate MoreUnsettled(devSize: nat, bs: nat, isz: nat, k: nat)
    requires bs > 0
  {
    forall j: nat :: 0 < k < j <= MostGroups(devSize, bs) ==> !Settled(Trial(devSize, bs, isz, j))
  }

  /** The settled layout of the most groups. */
  ghost predicate Chosen(g: Geometry, devSize: nat, bs: nat, isz: nat) {
    && bs > 0 && 0 < g.numGroups <= MostGroups(devSize, bs)
    && g == Trial(devSize, bs, isz, g.numGroups) && Settled(g) && MoreUnsettled(devSize, bs, isz, g.numGroups)
  }

  lemma ChosenOnce(g: Geometry, h: Geometry, devSize: nat, bs: nat, isz: nat)
    requires Chosen(g, devSize, bs, isz) && Chosen(h, devSize, bs, isz)
    ensures g == h
  {
    hide Settled, Trial;
  }

  /** Its first group cannot hold its metadata and the root's blocks. */
  predicate TooSmallFor(g: Geometry, devSize: nat) {
    g.numGroups > 0 && g.blockSize > 0 && g == Sized(g, devSize) && Settled(g) && g.totalBlocks < g.Overhead(0) + 8
  }

  lemma ChosenIsSized(g: Geometry, devSize: nat, bs: nat, isz: nat)
    requires Chosen(g, devSize, bs, isz)
    ensures g == Sized(g, devSize) && Settled(g)
  {
    hide CeilDiv, HasSuperblock, Settled;
  }

  /** Between two rounds of the loop. */
  ghost predicate Trying(g: Geometry, devSize: nat, bs: nat, isz: nat) {
    && bs > 0 && 0 < g.numGroups <= MostGroups(devSize, bs) && g.blockSize > 0
    && Sized(g, devSize) == Trial(devSize, bs, isz, g.numGroups) && MoreUnsettled(devSize, bs, isz, g.numGroups)
  }

  lemma StartTrying(g: Geometry, devSize: nat, bs: nat, isz: nat)
    requires bs > 0 && devSize / bs > FirstBlock(bs)
    requires g == Geometry(bs, devSize / bs, FirstBlock(bs), 8 * bs, 0, isz, 0, MostGroups(devSize, bs), 0, 0)
    ensures Trying(g, devSize, bs, isz)
  {
    hide Sized;
    CeilDivCovers(devSize / bs - FirstBlock(bs), 8 * bs);
  }

  lemma OneTried(g: Geometry, devSize: nat, bs: nat, isz: nat)
    requires Trying(g, devSize, bs, isz)
    ensures Sized(g, devSize).numGroups == g.numGroups
    ensures Settled(Sized(g, devSize)) ==> Chosen(Sized(g, devSize), devSize, bs, isz)
    ensures !Settled(Sized(g, devSize)) ==> g.numGroups > 1 && Trying(Dropped(Sized(g, devSize)), devSize, bs, isz)
  {
    hide HasSuperblock;
    var s := Sized(g, devSize);
    if !Settled(s) {
      hide CeilDiv;
      DropSized(g, devSize, bs, isz);
      hide Sized, Settled;
      forall j: nat | g.numGroups - 1 < j <= MostGroups(devSize, bs)
        ensures !Settled(Trial(devSize, bs, isz, j))
      {
      }
    }
  }

  lemma DropSized(g: Geometry, devSize: nat, bs: nat, isz: nat)
    requires Trying(g, devSize, bs, isz) && g.numGroups > 1
    ensures Dropped(Sized(g, devSize)).blockSize > 0
    ensures Sized(Dropped(Sized(g, devSize)), devSize) == Trial(devSize, bs, isz, g.numGroups - 1)
  {
    hide CeilDiv, MoreUnsettled;
  }

  /** Why there is no layout for a device. */
  ghost predicate Refused(e: GeometryError, devSize: int, blockSize: nat, inodeSize: nat) {
    var bs := if blockSize == 0 then 1024 else blockSize;
    var first := if bs == 1024 then 1 else 0;
    match e
    case BadBlockSize => !ValidBlockSize(bs)
    case BadDeviceSize => devSize <= 0
    case DividesByZero => ValidBlockSize(bs) && devSize > 0 && devSize / bs <= first
    case TooSmall =>
      && ValidBlockSize(bs) && devSize > 0
      && exists g :: TooSmallFor(g, devSize) && Chosen(g, devSize, bs, if inodeSize == 0 then 128 else inodeSize)
             && Cut(g, bs, if inodeSize == 0 then 128 else inodeSize, devSize / bs, first)
  }

  lemma EasilyRefused(devSize: int, blockSize: nat, inodeSize: nat)
    ensures Refused(BadBlockSize, devSize, blockSize, inodeSize) <==> blockSize != 0 && !ValidBlockSize(blockSize)
    ensures Refused(BadDeviceSize, devSize, blockSize, inodeSize) <==> devSize <= 0
    ensures var bs := if blockSize == 0 then 1024 else blockSize;
      ValidBlockSize(bs) && 0 < devSize && devSize / bs <= (if bs == 1024 then 1 else 0) ==>
        Refused(DividesByZero, devSize, blockSize, inodeSize)
  {
    hide TooSmallFor, Cut;
  }

  lemma NoRoom(g: Geometry, devSize: nat, blockSize: nat, inodeSize: nat)
    requires var bs := if blockSize == 0 then 1024 else blockSize;
      && ValidBlockSize(bs) && devSize > 0 && TooSmallFor(g, devSize)
      && Cut(g, bs, if inodeSize == 0 then 128 else inodeSize, devSize / bs, if bs == 1024 then 1 else 0)
      && Chosen(g, devSize, bs, if inodeSize == 0 then 128 else inodeSize)
    ensures Refused(TooSmall, devSize, blockSize, inodeSize)
  {
    hide TooSmallFor, Cut;
  }

  /** Before a round of the loop; on a small device at most one group is dropped. */
  ghost predicate Round(g: Geometry, bs: nat, isz: nat, total: nat, first: nat, devSize: nat, small: bool) {
    && g.blockSize == bs && Cut(g, bs, isz, total, first) && Trying(g, devSize, bs, isz)
    && (small ==> total - 8 * bs <= g.totalBlocks && (g.totalBlocks == total || Settled(Sized(g, devSize))))
  }

  lemma FirstRound(g: Geometry, bs: nat, isz: nat, total: nat, first: nat, devSize: nat, small: bool)
    requires g.blockSize == bs && Cut(g, bs, isz, total, first) && Trying(g, devSize, bs, isz) && g.totalBlocks == total
    ensures Round(g, bs, isz, total, first, devSize, small) && g.numGroups > 0
  {
    hide Cut, Settled, Sized;
  }

  lemma NextRound(g: Geometry, bs: nat, isz: nat, total: nat, first: nat, devSize: nat, small: bool)
    requires Round(g, bs, isz, total, first, devSize, small) && total == devSize / bs
    requires small ==> ValidBlockSize(bs) && isz in {128, 256} && 0 < devSize <= TIB
    ensures g.blockSize > 0 && g.numGroups > 0
    ensures var s := Sized(g, devSize);
      && s.numGroups == g.numGroups && s == Sized(s, devSize) && s.blockSize == bs && Cut(s, bs, isz, total, first)
      && (if Settled(s) then Chosen(s, devSize, bs, isz) && (small ==> total - 8 * bs <= s.totalBlocks)
          else
            && s.numGroups > 1 && Dropped(s).numGroups == g.numGroups - 1
            && Round(Dropped(s), bs, isz, total, first, devSize, small))
  {
    TryingMeans(g, devSize, bs, isz);
    hide HasSuperblock, CeilDiv, Cut, Sized, Settled, Dropped, Chosen, Trying;
    SizedFields(g, devSize);
    SizedCut(g, bs, isz, total, first, devSize);
    OneTried(g, devSize, bs, isz);
    var s := Sized(g, devSize);
    if !Settled(s) {
      DroppedFields(s, bs, isz, total, first);
      DroppedCut(s, bs, isz, total, first);
      TryingMeans(Dropped(s), devSize, bs, isz);
      if small {
        FullGroupsSettle(Dropped(s), bs, isz, total, first, devSize);
      }
    }
  }

  lemma TryingMeans(g: Geometry, devSize: nat, bs: nat, isz: nat)
    requires Trying(g, devSize, bs, isz)
    ensures g.blockSize > 0 && g.numGroups > 0 && bs > 0
  {
    hide CeilDiv, Sized, MoreUnsettled;
  }

  /** Groups sized for the device, a runt last group dropped. */
  method ComputeGeometry(devSize: int, blockSize: nat, inodeSize: nat) returns (r: Result<Geometry>)
    ensures r == Err(BadBlockSize) <==> blockSize != 0 && !ValidBlockSize(blockSize)
    ensures r.Err? ==> Refused(r.error, devSize, blockSize, inodeSize)
    ensures r != Err(BadBlockSize) && devSize <= 0 ==> r == Err(BadDeviceSize)
    ensures r != Err(BadBlockSize) && devSize > 0 ==>
      var bs := if blockSize == 0 then 1024 else blockSize;
      var first := if bs == 1024 then 1 else 0;
      && (r == Err(DividesByZero) <==> devSize / bs <= first)
      && (r.Ok? ==>
            var g := r.value;
            && g.blockSize == bs && g.numGroups > 0
            && g == Sized(g, devSize) && Settled(g) && g.totalBlocks >= g.Overhead(0) + 8
            && Chosen(g, devSize, bs, if inodeSize == 0 then 128 else inodeSize)
            && g.inodeSize == (if inodeSize == 0 then 128 else inodeSize)
            && g.firstDataBlock == first && g.totalBlocks <= devSize / bs
            && Cut(g, bs, if inodeSize == 0 then 128 else inodeSize, devSize / bs, first)
            && (WellLaidOut(g) <==> g.numGroups == 1 || g.Overhead(0) <= g.blocksPerGroup)
            && (devSize <= TIB && inodeSize in {0, 128, 256} ==>
                  WellLaidOut(g) && devSize / bs - g.blocksPerGroup <= g.totalBlocks))
  {
    hide HasSuperblock, CeilDiv, WellLaidOut, Cut, Sized, Settled, Dropped, Refused, Chosen, Trying, Round;
    EasilyRefused(devSize, blockSize, inodeSize);
    var bs := if blockSize == 0 then 1024 else blockSize;
    var isz := if inodeSize == 0 then 128 else inodeSize;
    if !ValidBlockSize(bs) {
      return Err(BadBlockSize);
    }
    if devSize <= 0 {
      return Err(BadDeviceSize);
    }
    var total: nat := devSize / bs;
    var first: nat := if bs == 1024 then 1 else 0;
    if total <= first {
      return Err(DividesByZero); // numGroups is 0, and the inode count is divided by it
    }
    var g := Geometry(bs, total, first, 8 * bs, 0, isz, 0, CeilDiv(total - first, 8 * bs), 0, 0);
    FirstCut(g, bs, isz, total, first);
    StartTrying(g, devSize, bs, isz);
    FirstRound(g, bs, isz, total, first, devSize, devSize <= TIB && isz in {128, 256});
    ghost var small := devSize <= TIB && isz in {128, 256};
    while true
      invariant Round(g, bs, isz, total, first, devSize, small)
      decreases g.numGroups
    {
      NextRound(g, bs, isz, total, first, devSize, small);
      g := Sized(g, devSize);
      if Settled(g) {
        break;
      }
      g := Dropped(g);
    }
    if g.inodesPerGroup < FIRST_INO || g.totalBlocks < g.Overhead(0) + 8 {
      EnoughInodes(g, bs, isz, total, first, devSize);
      NoRoom(g, devSize, blockSize, inodeSize);
      return Err(TooSmall);
    }
    LaidOutWhen(g, bs, isz, total, first, devSize);
    if small {
      MetadataFits(g, bs, isz, total, first, devSize);
    }
    CutFields(g, bs, isz, total, first);
    return Ok(g);
  }

  lemma CutFields(g: Geometry, bs: nat, isz: nat, total: nat, first: nat)
    requires Cut(g, bs, isz, total, first)
    ensures g.blockSize == bs && g.blocksPerGroup == 8 * bs && g.firstDataBlock == first && g.inodeSize == isz
    ensures g.totalBlocks <= total
  {
  }

  lemma EnoughInodes(g: Geometry, bs: nat, isz: nat, total: nat, first: nat, devSize: nat)
    requires Cut(g, bs, isz, total, first) && g == Sized(g, devSize) && ValidBlockSize(bs)
    ensures g.inodesPerGroup >= FIRST_INO
  {
    var want := CeilDiv(devSize / BYTES_PER_INODE, g.numGroups);
    CeilDivCovers(if want < 16 then 16 else want, 8);
  }

  lemma SizedFields(g: Geometry, devSize: nat)
    requires g.numGroups > 0 && g.blockSize > 0
    ensures Sized(Sized(g, devSize), devSize) == Sized(g, devSize)
    ensures Sized(g, devSize).numGroups == g.numGroups && Sized(g, devSize).totalBlocks == g.totalBlocks
    ensures Sized(g, devSize).blockSize == g.blockSize
  {
  }

  lemma DroppedFields(g: Geometry, bs: nat, isz: nat, total: nat, first: nat)
    requires Cut(g, bs, isz, total, first) && !Settled(g)
    ensures g.numGroups > 1
    ensures Dropped(g).numGroups == g.numGroups - 1 && Dropped(g).blockSize == bs
    ensures g.totalBlocks - 8 * bs <= Dropped(g).totalBlocks < total && Dropped(g).totalBlocks < g.totalBlocks
  {
    hide CeilDiv;
  }

  lemma FirstCut(g: Geometry, bs: nat, isz: nat, total: nat, first: nat)
    requires bs > 0 && total > first
    requires g.blockSize == bs && g.blocksPerGroup == 8 * bs && g.firstDataBlock == first && g.inodeSize == isz
    requires g.totalBlocks == total && g.numGroups == CeilDiv(total - first, 8 * bs)
    ensures Cut(g, bs, isz, total, first)
  {
    CeilDivCovers(total - first, 8 * bs);
  }

  /** Two gibibytes in blocks of 16 KiB are one group. */
  lemma OneGroup(g: Geometry)
    requires Cut(g, 16384, 128, 131072, 0) && g == Sized(g, 0x8000_0000)
    ensures g == Geometry(16384, 131072, 0, 131072, 131072, 128, 131072, 1, 1, 1024)
    ensures g.Overhead(0) == 1028 && Settled(g)
  {
    hide CeilDiv, HasSuperblock, Cut;
    OneGroupCut(g);
    OneGroupSizes();
    FirstHasSuperblock();
  }

  lemma OneGroupSizes()
    ensures CeilDiv(0x8000_0000 / BYTES_PER_INODE, 1) == 131072 && CeilDiv(131072, 8) == 16384
    ensures CeilDiv(1 * DESC_SIZE, 16384) == 1 && CeilDiv(131072 * 128, 16384) == 1024
  {
  }

  lemma OneGroupCut(g: Geometry)
    requires Cut(g, 16384, 128, 131072, 0)
    ensures g.numGroups == 1 && g.totalBlocks == g.blocksPerGroup == 131072
    ensures g.blockSize == 16384 && g.firstDataBlock == 0 && g.inodeSize == 128
  {
    assert CeilDiv(131072, 131072) == 1;
    assert g.GroupStart(0) == 0;
  }

  lemma OneGroupIs(r: Result<Geometry>)
    requires match r
      case Ok(g) => Cut(g, 16384, 128, 131072, 0) && g == Sized(g, 0x8000_0000)
      case Err(e) => Refused(e, 0x8000_0000, 16384, 128)
    ensures r == Ok(Geometry(16384, 131072, 0, 131072, 131072, 128, 131072, 1, 1, 1024)) && r.value.Overhead(0) == 1028
  {
    hide CeilDiv, Sized, Cut, HasSuperblock;
    if r.Ok? {
      OneGroup(r.value);
    } else {
      assert 0x8000_0000 / 16384 == 131072;
      var g :| TooSmallFor(g, 0x8000_0000) && Cut(g, 16384, 128, 131072, 0);
      OneGroup(g);
    }
  }

  lemma FirstHasSuperblock()
    ensures HasSuperblock(0)
  {
  }

  lemma GroupsFromTotal(total: nat, first: nat, per: nat)
    requires total > first && per > 0
    ensures CeilDiv(total - first, per) <= CeilDiv(total, per)
  {
    CeilDivCovers(total, per);
    CeilDivBound(total - first, per, CeilDiv(total, per));
  }
}
