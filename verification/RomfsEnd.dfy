/** pkg/romfs: superblock, root header, and an image opened again. */
module RomfsEnd {
  import opened Sizes
  import opened Names
  import opened Bytes
  import opened Text
  import opened Files
  import opened RomfsFormat
  import opened RomfsTree
  import opened RomfsWriter
  import opened RomfsImage
  import opened RomfsBack

  /** The superblock before its checksum, and the volume name. */
  function SuperBytes(size: nat, volume: string): (s: seq<byte>)
    requires ByteString(volume)
    ensures |s| == HEADER + PaddedName(volume)
  {
    BE(MAGIC0, 4) + BE(MAGIC1, 4) + BE(size, 4) + Zeros(4) + NameBytes(volume) + Zeros(PaddedName(volume) - |volume|)
  }

  /** finishChecksum: the first 512 bytes, or the whole image, sum to zero. */
  method FinishChecksum(dev: File, size: nat)
    requires size >= HEADER && Slice(dev.data, 12, 4) == Zeros(4)
    modifies dev
    ensures SumWords(Slice(dev.data, 0, Lesser(512, size))) % TWO32 == 0
    ensures Outside(old(dev.data), dev.data, 12, 16)
  {
    hide Slice, SumWords, Outside, BE, Spliced;
    var n := Lesser(512, size);
    var buf := dev.Read(0, n);
    ZeroField(dev.data, n);
    var crc := BE(Checksum(buf), 4);
    ChecksumStored(dev.data, n, crc);
    ChecksumZeroes(buf);
    WriteOutside(dev.data, crc, 12);
    dev.WriteAt(crc, 12);
  }

  lemma ZeroField(d: seq<byte>, n: nat)
    requires n >= HEADER && Slice(d, 12, 4) == Zeros(4)
    ensures Slice(d, 0, n)[12..16] == Zeros(4)
  {
    assert Slice(d, 0, n)[12..16] == Slice(d, 12, 4);
  }

  lemma ChecksumStored(d: seq<byte>, n: nat, crc: seq<byte>)
    requires n >= HEADER && crc == BE(Checksum(Slice(d, 0, n)), 4)
    ensures Slice(Spliced(d, crc, 12), 0, n) == WithChecksum(Slice(d, 0, n))
  {
    hide SumWords, BE, Checksum;
    var a, s := Slice(d, 0, n), Slice(Spliced(d, crc, 12), 0, n);
    forall i | 0 <= i < n
      ensures s[i] == WithChecksum(a)[i]
    {
      assert s[i] == ByteAt(Spliced(d, crc, 12), 0 + i);
      assert a[i] == ByteAt(d, 0 + i);
    }
  }

  datatype Opened = Root(kids: Outcome<seq<(string, Found)>>) | BadMagic

  /** Open: the magic, the volume name, and the list the root header points to. */
  function Open(dev: seq<byte>, fuel: nat): Opened {
    if Get(Big, dev, 0, 4) != MAGIC0 || Get(Big, dev, 4, 4) != MAGIC1 then BadMagic
    else
      var pos := AlignUp(HEADER + |NameAt(dev, HEADER)| + 1);
      HeadFits(dev, pos);
      Root(ReadChain(dev, Mask(HeadAt(dev, pos).spec), {}, fuel))
  }

  lemma SuperReads(d: seq<byte>, size: nat, volume: string)
    requires ByteString(volume) && size < TWO32
    requires Slice(d, 0, 12) == SuperBytes(size, volume)[..12]
    requires Slice(d, HEADER, PaddedName(volume)) == SuperBytes(size, volume)[HEADER..]
    ensures Get(Big, d, 0, 4) == MAGIC0 && Get(Big, d, 4, 4) == MAGIC1 && Get(Big, d, 8, 4) == size
    ensures NameAt(d, HEADER) == Shown(volume)
  {
    hide Slice, BE, UnBE, Zeros, TrimNul, NameBytes;
    Widths();
    var a, b, c, z, n := BE(MAGIC0, 4), BE(MAGIC1, 4), BE(size, 4), Zeros(4),
        NameBytes(volume) + Zeros(PaddedName(volume) - |volume|);
    var s := SuperBytes(size, volume);
    assert s == a + b + c + z + n;
    assert s[..12] == a + b + c && s[HEADER..] == n;
    WordAt(d, a + b + c, 0, MAGIC0);
    WordAt(d, a + b + c, 4, MAGIC1);
    WordAt(d, a + b + c, 8, size);
    PaddedNameReads(d, HEADER, volume);
  }

  lemma WordAt(d: seq<byte>, s: seq<byte>, k: nat, v: nat)
    requires Slice(d, 0, |s|) == s && k + 4 <= |s| && s[k..k + 4] == BE(v, 4) && v < TWO32
    ensures Get(Big, d, k, 4) == v
  {
    FieldIs(d, 0, s, k, v);
  }

  /** Where the reader finds the list of the root: the root header is sought behind the volume name
      that it sees, and lies behind the one that was written. */
  function RootList(volume: string, list: nat): nat
    requires ByteString(volume)
  {
    if PaddedName(Shown(volume)) == PaddedName(volume) then list
    else
      var name := NameBytes(volume) + Zeros(PaddedName(volume) - |volume|);
      Mask(UnBE(name[PaddedName(Shown(volume)) + 4..PaddedName(Shown(volume)) + 8]))
  }

  /** An image of a tree: superblock, root header, lists. */
  ghost predicate Image(dev: seq<byte>, volume: string, t: Tree)
    requires t.Folder? && Good(t) && ByteString(volume)
  {
    var rootHdr := HEADER + PaddedName(volume);
    var list := rootHdr + HEADER + PaddedName(".");
    var size := list + TreeLen(t);
    && Slice(dev, 0, 12) == SuperBytes(size, volume)[..12]
      && Slice(dev, HEADER, PaddedName(volume)) == SuperBytes(size, volume)[HEADER..]
    && EntryAt(dev, rootHdr, ".", 0, TYPE_DIR + FLAG_EXEC, list, 0)
    && DirAt(dev, list, t, rootHdr, rootHdr)
    && SumWords(Slice(dev, 0, Lesser(512, size))) % TWO32 == 0
  }

  lemma HeadMoved(volume: string)
    ensures AlignUp(HEADER + |Shown(volume)| + 1) == HEADER + PaddedName(Shown(volume))
    ensures PaddedName(Shown(volume)) <= PaddedName(volume)
    ensures PaddedName(Shown(volume)) != PaddedName(volume) ==> PaddedName(Shown(volume)) + 16 <= PaddedName(volume)
  {
    hide Shown;
    assert |Shown(volume)| <= |volume|;
  }

  /** The list of the root of an image, for any volume name. */
  lemma RootFound(dev: seq<byte>, volume: string, t: Tree)
    requires t.Folder? && Good(t) && ByteString(volume) && Image(dev, volume, t)
    requires HEADER + PaddedName(volume) + 32 + TreeLen(t) < TWO32
    ensures var pos := AlignUp(HEADER + |NameAt(dev, HEADER)| + 1);
      && Get(Big, dev, 0, 4) == MAGIC0 && Get(Big, dev, 4, 4) == MAGIC1
      && Mask(HeadAt(dev, pos).spec) == RootList(volume, HEADER + PaddedName(volume) + 32)
  {
    hide Slice, SuperBytes, EntryAt, DirAt, SumWords, NameAt, Good, TreeLen, Shown, UnBE, NameBytes, Zeros, PaddedName;
    DotsPadded();
    var rootHdr := HEADER + PaddedName(volume);
    var list := rootHdr + 32;
    SuperReads(dev, list + TreeLen(t), volume);
    HeadMoved(volume);
    if PaddedName(Shown(volume)) == PaddedName(volume) {
      HeadReads(dev, rootHdr, ".", 0, TYPE_DIR + FLAG_EXEC, list, 0);
      Add16(HEADER, PaddedName(volume));
      Add16(rootHdr, 32);
      assert Mask(list) == list;
    } else {
      NameTail(dev, volume, list + TreeLen(t), PaddedName(Shown(volume)) + 4);
    }
  }

  lemma NameTail(d: seq<byte>, volume: string, size: nat, k: nat)
    requires ByteString(volume) && k + 4 <= PaddedName(volume)
    requires Slice(d, HEADER, PaddedName(volume)) == SuperBytes(size, volume)[HEADER..]
    ensures Get(Big, d, HEADER + k, 4) == UnBE((NameBytes(volume) + Zeros(PaddedName(volume) - |volume|))[k..k + 4])
  {
    hide Slice, UnBE, BE, NameBytes, Zeros;
    var n := NameBytes(volume) + Zeros(PaddedName(volume) - |volume|);
    var s := SuperBytes(size, volume);
    var head := BE(MAGIC0, 4) + BE(MAGIC1, 4) + BE(size, 4) + Zeros(4);
    assert s == head + n;
    assert s[HEADER..] == n;
    SubSlice(d, HEADER, n, k, 4);
  }

  /** Opening an image of a tree whose root is found: the walk ends, and finds the tree if and only if
      every name fits, whatever was on the device behind it. */
  lemma ImageOpens(dev: seq<byte>, volume: string, t: Tree, fuel: nat)
    requires t.Folder? && Good(t) && ByteString(volume) && Image(dev, volume, t)
    requires HEADER + PaddedName(volume) + 32 + TreeLen(t) < TWO32 && fuel >= TreeLen(t)
    requires RootList(volume, HEADER + PaddedName(volume) + 32) == HEADER + PaddedName(volume) + 32
    ensures Within(Sorted(t.kids.Keys), t)
    ensures Open(dev, fuel).Root? && Open(dev, fuel).kids.Read?
    ensures Open(dev, fuel).kids.value == ExpectedKids(t, Sorted(t.kids.Keys)) <==> AllFit(t)
  {
    hide Slice, SuperBytes, EntryAt, DirAt, SumWords, NameAt, HeadAt, Good, TreeLen, RootList, ReadChain, Fits, NamesFit,
         Open, Get, Mask, AlignUp, ExpectedKids, Within, PaddedName;
    DotsPadded();
    SortedWithin(t);
    SortedElements(t.kids.Keys);
    var rootHdr := HEADER + PaddedName(volume);
    var list := rootHdr + 32;
    RootFound(dev, volume, t);
    OpenIs(dev, fuel, list);
    Add16(HEADER, PaddedName(volume));
    Add16(rootHdr, 32);
    DirReads(dev, list, t, rootHdr, rootHdr, fuel);
    ChainFits(dev, list, {}, fuel);
    if Open(dev, fuel).kids.value == ExpectedKids(t, Sorted(t.kids.Keys)) {
      ExpectedFits(t, Sorted(t.kids.Keys));
    }
  }

  lemma OpenIs(dev: seq<byte>, fuel: nat, list: nat)
    requires Get(Big, dev, 0, 4) == MAGIC0 && Get(Big, dev, 4, 4) == MAGIC1 && list < TWO32 && list % 16 == 0
    requires Mask(HeadAt(dev, AlignUp(HEADER + |NameAt(dev, HEADER)| + 1)).spec) == list
    ensures Open(dev, fuel) == Root(ReadChain(dev, list, {}, fuel))
  {
    hide Get, HeadAt, NameAt, AlignUp, Mask, ReadChain;
  }

  /** write: a tree without shared nodes that fits in 32 bits of offsets. */
  method WriteImage(dev: File, volume: string, t: Tree)
    requires t.Folder? && Good(t) && ByteString(volume)
    requires HEADER + PaddedName(volume) + 32 + TreeLen(t) < TWO32
    modifies dev
    ensures Image(dev.data, volume, t)
  {
    hide EntryAt, DirAt, Laid, Outside, SuperBytes, Slice, TreeLen, Good, PaddedName, SumWords;
    DotsPadded();
    DotsAreGood();
    var rootHdr := HEADER + PaddedName(volume);
    var list := rootHdr + HEADER + PaddedName(".");
    var l := new Layouter();
    var size := l.LayoutDir(t, [], rootHdr, list, rootHdr);
    LaidLevel(l.M(), t, [], rootHdr, list, rootHdr);
    var super := SuperBytes(size, volume);
    SliceOfWrite(dev.data, super, 0);
    dev.WriteAt(super, 0);
    ghost var d1 := dev.data;
    var end := WriteHeader(dev, rootHdr, ".", 0, TYPE_DIR + FLAG_EXEC, l.dotOff[[]], 0);
    ghost var d2 := dev.data;
    WriteDir(dev, l, t, [], rootHdr, list, rootHdr);
    ghost var d3 := dev.data;
    EntryFrame(d2, d3, list, size, rootHdr, ".", 0, TYPE_DIR + FLAG_EXEC, list, 0);
    OutsideChain(d1, d2, d3, rootHdr, list, list, size, rootHdr, size);
    SuperKept(d1, d3, rootHdr, size, volume);
    FinishChecksum(dev, size);
    EntryFrame(d3, dev.data, 12, 16, rootHdr, ".", 0, TYPE_DIR + FLAG_EXEC, list, 0);
    DirFrame(d3, dev.data, 12, 16, list, t, rootHdr, rootHdr);
    SuperPatched(d3, dev.data, size, volume);
  }

  lemma SuperKept(d: seq<byte>, d': seq<byte>, rootHdr: nat, size: nat, volume: string)
    requires ByteString(volume) && rootHdr == HEADER + PaddedName(volume) && Outside(d, d', rootHdr, size)
    requires Slice(d, 0, |SuperBytes(size, volume)|) == SuperBytes(size, volume)
    ensures Slice(d', 0, 12) == SuperBytes(size, volume)[..12] && Slice(d', 12, 4) == Zeros(4)
    ensures Slice(d', HEADER, PaddedName(volume)) == SuperBytes(size, volume)[HEADER..]
  {
    hide Slice, Outside, BE, Zeros, NameBytes;
    var s := SuperBytes(size, volume);
    SliceOutside(d, d', rootHdr, size, 0, |s|);
    SubSlice(d', 0, s, 0, 12);
    SubSlice(d', 0, s, 12, 4);
    SubSlice(d', 0, s, HEADER, PaddedName(volume));
    assert s[0..12] == s[..12];
    var a, b, c := BE(MAGIC0, 4), BE(MAGIC1, 4), BE(size, 4);
    assert s == a + b + c + Zeros(4) + (NameBytes(volume) + Zeros(PaddedName(volume) - |volume|));
    assert s[12..16] == Zeros(4);
    assert s[HEADER..HEADER + PaddedName(volume)] == s[HEADER..];
  }

  lemma SuperPatched(d: seq<byte>, d': seq<byte>, size: nat, volume: string)
    requires ByteString(volume) && Outside(d, d', 12, 16)
    requires Slice(d, 0, 12) == SuperBytes(size, volume)[..12]
      && Slice(d, HEADER, PaddedName(volume)) == SuperBytes(size, volume)[HEADER..]
    ensures Slice(d', 0, 12) == SuperBytes(size, volume)[..12]
      && Slice(d', HEADER, PaddedName(volume)) == SuperBytes(size, volume)[HEADER..]
  {
    hide Slice, Outside, SuperBytes;
    SliceOutside(d, d', 12, 16, 0, 12);
    SliceOutside(d, d', 12, 16, HEADER, PaddedName(volume));
  }

  /** Open, for an image whose walk ends. */
  method OpenImage(dev: File, ghost fuel: nat) returns (r: Opened)
    requires Open(dev.data, fuel) != Root(OutOfFuel)
    ensures r == Open(dev.data, fuel)
  {
    hide ReadChain, HeadAt, NameAt, Get;
    if Get(Big, dev.data, 0, 4) != MAGIC0 || Get(Big, dev.data, 4, 4) != MAGIC1 {
      return BadMagic;
    }
    var pos := AlignUp(HEADER + |NameAt(dev.data, HEADER)| + 1);
    HeadFits(dev.data, pos);
    var kids := ReadDir(dev, Mask(HeadAt(dev.data, pos).spec), fuel);
    return Root(kids);
  }

  /** Written and opened again: the tree comes back, its children in order, if and only if its names
      fit. Device numbers come back in 24 bits, modes as far as romfs has them. */
  method WriteThenOpen(dev: File, volume: string, t: Tree) returns (r: Opened)
    requires t.Folder? && Good(t) && ByteString(volume)
    requires HEADER + PaddedName(volume) + 32 + TreeLen(t) < TWO32
    requires RootList(volume, HEADER + PaddedName(volume) + 32) == HEADER + PaddedName(volume) + 32
    modifies dev
    ensures r.Root? && r.kids.Read? && (KidsComeBack(t, r.kids.value) <==> AllFit(t))
    ensures Slice(dev.data, 0, 8) == [0x2D, 0x72, 0x6F, 0x6D, 0x31, 0x66, 0x73, 0x2D]
    ensures Get(Big, dev.data, 8, 4) == HEADER + PaddedName(volume) + 32 + TreeLen(t)
  {
    hide Open, Image, ExpectedKids, Good, TreeLen, Within, RootList, AllFit, KidsComeBack, Slice, Get;
    WriteImage(dev, volume, t);
    SortedWithin(t);
    ImageOpens(dev.data, volume, t, TreeLen(t));
    r := OpenImage(dev, TreeLen(t));
    KidsBack(t, r.kids.value);
    SuperLayout(dev.data, volume, t);
  }

  /** "-rom1fs-" and the size of the image. */
  lemma SuperLayout(dev: seq<byte>, volume: string, t: Tree)
    requires t.Folder? && Good(t) && ByteString(volume) && Image(dev, volume, t)
    requires HEADER + PaddedName(volume) + 32 + TreeLen(t) < TWO32
    ensures Slice(dev, 0, 8) == [0x2D, 0x72, 0x6F, 0x6D, 0x31, 0x66, 0x73, 0x2D]
    ensures Get(Big, dev, 8, 4) == HEADER + PaddedName(volume) + 32 + TreeLen(t)
  {
    hide EntryAt, DirAt, Slice, BE, SumWords, TreeLen, Good, PaddedName;
    DotsPadded();
    var size := HEADER + PaddedName(volume) + 32 + TreeLen(t);
    var s := SuperBytes(size, volume);
    MagicWords();
    assert s[..12] == BE(MAGIC0, 4) + BE(MAGIC1, 4) + BE(size, 4);
    SubSlice(dev, 0, s[..12], 0, 8);
    SubSlice(dev, 0, s[..12], 8, 4);
    assert s[..12][0..8] == BE(MAGIC0, 4) + BE(MAGIC1, 4) && s[..12][8..12] == BE(size, 4);
    Widths();
    UnBEOfBE(size, 4);
  }

  lemma MagicWords()
    ensures BE(MAGIC0, 4) == [0x2D, 0x72, 0x6F, 0x6D] && BE(MAGIC1, 4) == [0x31, 0x66, 0x73, 0x2D]
  {
    hide BE;
    Spelled(0x2D, 0x72, 0x6F, 0x6D);
    Spelled(0x31, 0x66, 0x73, 0x2D);
  }

  lemma Spelled(a: byte, b: byte, c: byte, d: byte)
    ensures BE(0x100_0000 * a as int + 0x1_0000 * b as int + 0x100 * c as int + d as int, 4) == [a, b, c, d]
  {
    var v: nat := a as int;
    var w := 256 * v + b as int;
    var x := 256 * w + c as int;
    DivUnique(256 * x + d as int, 256, x, d as int);
    DivUnique(x, 256, w, c as int);
    DivUnique(w, 256, v, b as int);
    assert BE(256 * x + d as int, 4) == BE(x, 3) + [d] && BE(x, 3) == BE(w, 2) + [c];
    assert BE(w, 2) == BE(v, 1) + [b] && BE(v, 1) == BE(0, 0) + [a];
  }

  /** Volume names whose root is found: those that are read with the padding they were written with. */
  lemma VolumeFits(volume: string, list: nat)
    requires ByteString(volume) && PaddedName(Shown(volume)) == PaddedName(volume)
    ensures RootList(volume, list) == list
  {
  }

  /** A name of a NUL and 31 letters makes the reader look for the root among the letters. */
  lemma VolumeLost(list: nat)
    requires list < 0x6161_6160
    ensures RootList(LostName(), list) == 0x6161_6160 != list
  {
    assert Shown(LostName()) == "";
    var name := NameBytes(LostName()) + Zeros(PaddedName(LostName()) - 32);
    assert name[20..24] == [0x61, 0x61, 0x61, 0x61];
    FourLetters();
  }

  function LostName(): (s: string)
    ensures ByteString(s) && |s| == 32
  {
    ['\0'] + seq(31, _ => 'a')
  }

  lemma FourLetters()
    ensures UnBE([0x61, 0x61, 0x61, 0x61]) == 0x6161_6161
  {
    var s: seq<byte> := [0x61, 0x61, 0x61, 0x61];
    assert s[..3] == [0x61, 0x61, 0x61] && s[..3][..2] == [0x61, 0x61] && s[..3][..2][..1] == [0x61];
    assert s[..3][..2][..1][..0] == [];
    assert UnBE([0x61]) == 0x61;
    assert UnBE([0x61, 0x61]) == 0x6161;
    assert UnBE([0x61, 0x61, 0x61]) == 0x616161;
  }

  /** A name of 257 letters does not fit, and one of 256 does. */
  lemma LongNames(s: string)
    requires NoNul(s)
    ensures |s| == 256 ==> Fits(s) && Shown(s) == s
    ensures |s| == 257 ==> !Fits(s) && Shown(s) == s[..256]
  {
    ShownIsName(s);
  }
}
