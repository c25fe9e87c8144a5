/** pkg/romfs/writer.go and reader.go: a whole image, written and read. */
module RomfsImage {
  import opened Sizes
  import opened Modes
  import opened Names
  import opened Bytes
  import opened Text
  import opened Files
  import opened RomfsFormat
  import opened RomfsTree
  import opened RomfsWriter

  const CHUNK: nat := 65536
  const MAGIC0: nat := 0x2d726f6d
  const MAGIC1: nat := 0x3166732d

  // ----- What a write leaves alone.

  ghost predicate Outside(d: seq<byte>, d': seq<byte>, lo: nat, hi: nat) {
    forall i: nat {:trigger ByteAt(d, i)} {:trigger ByteAt(d', i)} :: i < lo || i >= hi ==> ByteAt(d, i) == ByteAt(d',
        i)
  }

  lemma OutsideChain(a: seq<byte>, b: seq<byte>, c: seq<byte>, lo: nat, hi: nat, lo': nat, hi': nat, from: nat, to: nat)
    requires Outside(a, b, lo, hi) && Outside(b, c, lo', hi') && from <= lo && from <= lo' && hi <= to && hi' <= to
    ensures Outside(a, c, from, to)
  {
    forall i: nat | i < from || i >= to
      ensures ByteAt(a, i) == ByteAt(c, i)
    {
      assert ByteAt(a, i) == ByteAt(b, i);
    }
  }

  lemma SliceOutside(d: seq<byte>, d': seq<byte>, lo: nat, hi: nat, off: nat, n: nat)
    requires Outside(d, d', lo, hi) && (off + n <= lo || hi <= off)
    ensures Slice(d', off, n) == Slice(d, off, n)
  {
    hide ByteAt;
    assert forall i :: 0 <= i < n ==> Slice(d', off, n)[i] == ByteAt(d', off + i) == Slice(d, off, n)[i];
  }

  lemma WriteOutside(d: seq<byte>, p: seq<byte>, off: nat)
    ensures Outside(d, Spliced(d, p, off), off, off + |p|)
  {
  }

  lemma EntryFrame(d: seq<byte>, d': seq<byte>, lo: nat, hi: nat, off: nat, name: string, next: nat, flags: nat,
          spec: nat, size: nat)
    requires EntryAt(d, off, name, next, flags, spec, size) && Outside(d, d', lo, hi)
    requires off + HEADER + PaddedName(name) <= lo || hi <= off
    ensures EntryAt(d', off, name, next, flags, spec, size)
  {
    hide EntryBytes, Outside, Slice;
    SliceOutside(d, d', lo, hi, off, HEADER + PaddedName(name));
  }

  lemma DataFrame(d: seq<byte>, d': seq<byte>, lo: nat, hi: nat, off: nat, data: seq<byte>)
    requires DataAt(d, off, data) && Outside(d, d', lo, hi) && (off + AlignUp(|data|) <= lo || hi <= off)
    ensures DataAt(d', off, data)
  {
    hide Outside, Slice;
    SliceOutside(d, d', lo, hi, off, AlignUp(|data|));
  }

  /** A directory depends on its own stretch of the device alone. */
  lemma {:induction false} DirFrame(d: seq<byte>, d': seq<byte>, lo: nat, hi: nat, list: nat, t: Tree, hdr: nat,
          parent: nat)
    requires t.Folder? && Good(t) && DirAt(d, list, t, hdr, parent) && Outside(d, d', lo, hi)
    requires list + TreeLen(t) <= lo || hi <= list
    ensures DirAt(d', list, t, hdr, parent)
    decreases t, 1
  {
    hide EntryAt, Outside, KidsAt, EntriesLen, SubsLen, Good, Within;
    var names := Sorted(t.kids.Keys);
    SortedWithin(t);
    DotsPadded();
    EntryFrame(d, d', lo, hi, list, ".", list + 32, TYPE_HARDLINK, hdr, 0);
    EntryFrame(d, d', lo, hi, list + 32, "..", FirstOff(names, list + 64), TYPE_HARDLINK, parent, 0);
    KidsFrame(d, d', lo, hi, t, names, list + 64, list + 64 + EntriesLen(t, names), hdr);
  }

  lemma DotsPadded()
    ensures PaddedName(".") == 16 && PaddedName("..") == 16
  {
  }

  lemma {:induction false} KidsFrame(d: seq<byte>, d': seq<byte>, lo: nat, hi: nat, t: Tree, names: seq<string>,
          at: nat, subs: nat, hdr: nat)
    requires Within(names, t) && KidsAt(d, t, names, at, subs, hdr) && Outside(d, d', lo, hi)
      && at + EntriesLen(t, names) <= subs
    requires subs + SubsLen(t, names) <= lo || hi <= at
    ensures KidsAt(d', t, names, at, subs, hdr)
    decreases t, 0, |names|
  {
    hide EntryAt, DataAt, Outside, EntriesLen, SubsLen, Good, Within, EntryLen, FlagsOf, SpecOf, DirAt, KidsAt,
         PaddedName, AlignUp;
    NoKidsAt(d', t, at, subs, hdr);
    if names != [] {
      LensStep(t, names);
      KidsStep(d, t, names, at, subs, hdr);
      KidsStep(d', t, names, at, subs, hdr);
      IsFolder(names, t);
      var name, kid := names[0], t.kids[names[0]];
      EntryFrame(d, d', lo, hi, at, name, FirstOff(names[1..], at + EntryLen(name, kid)), FlagsOf(kid), SpecOf(kid,
          subs), |DataOf(kid)|);
      DataFrame(d, d', lo, hi, at + HEADER + PaddedName(name), DataOf(kid));
      SubLenIs(kid);
      if kid.Folder? {
        DirFrame(d, d', lo, hi, subs, kid, at, hdr);
      }
      KidsFrame(d, d', lo, hi, t, names[1..], at + EntryLen(name, kid), subs + SubLen(kid), hdr);
    }
  }

  lemma NoKidsAt(d: seq<byte>, t: Tree, at: nat, subs: nat, hdr: nat)
    ensures Within([], t) ==> KidsAt(d, t, [], at, subs, hdr)
  {
  }

  // ----- One directory being written.

  ghost predicate KidWritten(dev: seq<byte>, t: Tree, names: seq<string>, at: nat, subs: nat, k: nat)
    requires Within(names, t) && k < |names|
  {
    KidGood(t, names, k) &&
    (var name, kid, off := names[k], t.kids[names[k]], KidOff(t, names, at, k);
     && EntryAt(dev, off, name, FirstOff(names[k + 1..], KidOff(t, names, at, k + 1)), FlagsOf(kid),
                SpecOf(kid, SubOff(t, names, subs, k)), |DataOf(kid)|)
     && DataAt(dev, off + HEADER + PaddedName(name), DataOf(kid)))
  }

  ghost predicate SubWritten(dev: seq<byte>, t: Tree, names: seq<string>, at: nat, subs: nat, hdr: nat, k: nat)
    requires Within(names, t) && k < |names|
  {
    KidGood(t, names, k) &&
    (t.kids[names[k]].Folder? ==>
       DirAt(dev, SubOff(t, names, subs, k), t.kids[names[k]], KidOff(t, names, at, k), hdr))
  }

  /** Children written one by one make up the list. */
  lemma {:induction false} KidsWritten(dev: seq<byte>, t: Tree, names: seq<string>, at: nat, subs: nat, hdr: nat,
          k: nat)
    requires Within(names, t) && k <= |names|
    requires forall j :: 0 <= j < |names| ==> KidWritten(dev, t, names, at, subs, j)
    requires forall j :: 0 <= j < |names| ==> SubWritten(dev, t, names, at, subs, hdr, j)
    ensures Within(names[k..], t) && KidsAt(dev, t, names[k..], KidOff(t, names, at, k), SubOff(t, names, subs, k), hdr)
    decreases |names| - k
  {
    hide EntryAt, DataAt, Good, FlagsOf, SpecOf, DirAt, KidsAt, PaddedName, DataOf, KidOff, SubOff, EntryLen, SubLen;
    assert Within(names[k..], t);
    if k == |names| {
      assert names[k..] == [];
      NoKidsAt(dev, t, KidOff(t, names, at, k), SubOff(t, names, subs, k), hdr);
    } else {
      assert names[k..][0] == names[k] && names[k..][1..] == names[k + 1..];
      KidsWritten(dev, t, names, at, subs, hdr, k + 1);
      NextKid(t, names, at, subs, k);
      assert KidWritten(dev, t, names, at, subs, k) && SubWritten(dev, t, names, at, subs, hdr, k);
      KidsStep(dev, t, names[k..], KidOff(t, names, at, k), SubOff(t, names, subs, k), hdr);
    }
  }

  /** The first k children and their data are on the device. */
  ghost predicate ListUpTo(dev: seq<byte>, t: Tree, names: seq<string>, at: nat, subs: nat, k: nat)
    requires Within(names, t)
  {
    k <= |names| && forall j :: 0 <= j < k ==> KidWritten(dev, t, names, at, subs, j)
  }

  ghost predicate SubsUpTo(dev: seq<byte>, t: Tree, names: seq<string>, at: nat, subs: nat, hdr: nat, k: nat)
    requires Within(names, t)
  {
    k <= |names| && forall j :: 0 <= j < k ==> SubWritten(dev, t, names, at, subs, hdr, j)
  }

  lemma KidKept(d: seq<byte>, d': seq<byte>, lo: nat, hi: nat, t: Tree, names: seq<string>, at: nat, subs: nat, j: nat)
    requires Within(names, t) && j < |names| && KidWritten(d, t, names, at, subs, j) && Outside(d, d', lo, hi)
    requires KidOff(t, names, at, j + 1) <= lo
    ensures KidWritten(d', t, names, at, subs, j)
  {
    hide EntryAt, DataAt, Outside, Good, FlagsOf, SpecOf, PaddedName, DataOf, KidOff, SubOff, EntryLen, AlignUp, Within;
    NextKid(t, names, at, subs, j);
    IsFolder(names, t);
    var name, kid, off := names[j], t.kids[names[j]], KidOff(t, names, at, j);
    EntryLenSplit(name, kid);
    EntryFrame(d, d', lo, hi, off, name, FirstOff(names[j + 1..], KidOff(t, names, at, j + 1)), FlagsOf(kid),
               SpecOf(kid, SubOff(t, names, subs, j)), |DataOf(kid)|);
    DataFrame(d, d', lo, hi, off + HEADER + PaddedName(name), DataOf(kid));
  }

  lemma EntryLenSplit(name: string, t: Tree)
    requires Good(t)
    ensures EntryLen(name, t) == HEADER + PaddedName(name) + AlignUp(|DataOf(t)|)
  {
    hide DataOf, PaddedName, AlignUp;
  }

  lemma ListKept(d: seq<byte>, d': seq<byte>, lo: nat, hi: nat, t: Tree, names: seq<string>, at: nat, subs: nat, k: nat)
    requires Within(names, t) && ListUpTo(d, t, names, at, subs, k) && Outside(d, d', lo, hi)
      && KidOff(t, names, at, k) <= lo
    ensures ListUpTo(d', t, names, at, subs, k)
  {
    hide KidWritten, Outside, Within, KidOff;
    forall j | 0 <= j < k
      ensures KidWritten(d', t, names, at, subs, j)
    {
      OffsetsAscend(t, names, at, subs, j + 1, k);
      KidKept(d, d', lo, hi, t, names, at, subs, j);
    }
  }

  lemma SubsKept(d: seq<byte>, d': seq<byte>, lo: nat, hi: nat, t: Tree, names: seq<string>, at: nat, subs: nat,
          hdr: nat, k: nat)
    requires Within(names, t) && SubsUpTo(d, t, names, at, subs, hdr, k) && Outside(d, d', lo, hi)
      && SubOff(t, names, subs, k) <= lo
    ensures SubsUpTo(d', t, names, at, subs, hdr, k)
  {
    hide SubWritten, Outside, Within, SubOff, KidOff;
    forall j | 0 <= j < k
      ensures SubWritten(d', t, names, at, subs, hdr, j)
    {
      OffsetsAscend(t, names, at, subs, j + 1, k);
      SubKept(d, d', lo, hi, t, names, at, subs, hdr, j);
    }
  }

  lemma SubKept(d: seq<byte>, d': seq<byte>, lo: nat, hi: nat, t: Tree, names: seq<string>, at: nat, subs: nat,
          hdr: nat, j: nat)
    requires Within(names, t) && j < |names| && SubWritten(d, t, names, at, subs, hdr, j) && Outside(d, d', lo, hi)
    requires SubOff(t, names, subs, j + 1) <= lo
    ensures SubWritten(d', t, names, at, subs, hdr, j)
  {
    hide DirAt, Outside, Good, SubOff, KidOff, SubLen, Within;
    NextKid(t, names, at, subs, j);
    IsFolder(names, t);
    SubLenIs(t.kids[names[j]]);
    if t.kids[names[j]].Folder? {
      DirFrame(d, d', lo, hi, SubOff(t, names, subs, j), t.kids[names[j]], KidOff(t, names, at, j), hdr);
    }
  }

  // ----- The writer.

  method WriteHeader(dev: File, off: nat, name: string, next: nat, flags: nat, spec: nat, size: nat) returns (data: nat)
    requires ByteString(name) && off + HEADER + PaddedName(name) < TWO32
    modifies dev
    ensures data == off + HEADER + PaddedName(name)
    ensures EntryAt(dev.data, off, name, next, flags, spec, size) && Outside(old(dev.data), dev.data, off, data)
  {
    hide EntryBytes, Slice, Outside, PaddedName;
    var b := EntryBytes(name, next, flags, spec, size);
    SliceOfWrite(dev.data, b, off);
    WriteOutside(dev.data, b, off);
    dev.WriteAt(b, off);
    return off + HEADER + PaddedName(name);
  }

  /** writePadded: the target of a symbolic link. */
  method WritePadded(dev: File, off: nat, data: seq<byte>)
    modifies dev
    ensures DataAt(dev.data, off, data) && Outside(old(dev.data), dev.data, off, off + AlignUp(|data|))
  {
    hide Slice, Outside, AlignUp;
    var p := data + Zeros(AlignUp(|data|) - |data|);
    SliceOfWrite(dev.data, p, off);
    WriteOutside(dev.data, p, off);
    dev.WriteAt(p, off);
  }

  /** streamContent: chunks, then zeros up to the next boundary. */
  method StreamContent(dev: File, off: nat, content: seq<byte>)
    modifies dev
    ensures DataAt(dev.data, off, content) && Outside(old(dev.data), dev.data, off, off + AlignUp(|content|))
  {
    hide Slice, Outside, AlignUp, Spliced;
    ghost var d0 := dev.data;
    var pos: nat := 0;
    Untouched(d0, off, AlignUp(|content|));
    while pos < |content|
      invariant 0 <= pos <= |content|
      invariant Slice(dev.data, off, pos) == content[..pos] && Outside(d0, dev.data, off, off + AlignUp(|content|))
    {
      var nb := Lesser(CHUNK, |content| - pos);
      Streamed(d0, dev.data, off, content, pos, nb);
      dev.WriteAt(content[pos..pos + nb], off + pos);
      pos := pos + nb;
    }
    var pad := AlignUp(|content|) - |content|;
    if pad > 0 {
      StreamPadded(d0, dev.data, off, content);
      dev.WriteAt(Zeros(pad), off + |content|);
    } else {
      NoPadding(dev.data, off, content);
    }
  }

  lemma Untouched(d: seq<byte>, off: nat, n: nat)
    ensures Outside(d, d, off, off + n) && Slice(d, off, 0) == []
  {
  }

  lemma NoPadding(d: seq<byte>, off: nat, content: seq<byte>)
    requires AlignUp(|content|) == |content| && Slice(d, off, |content|) == content[..|content|]
    ensures DataAt(d, off, content)
  {
    hide Slice;
    assert content[..|content|] == content == content + Zeros(0);
  }

  lemma Streamed(d0: seq<byte>, d: seq<byte>, off: nat, content: seq<byte>, pos: nat, nb: nat)
    requires pos + nb <= |content| && Slice(d, off, pos) == content[..pos]
      && Outside(d0, d, off, off + AlignUp(|content|))
    ensures var d' := Spliced(d, content[pos..pos + nb], off + pos);
      Slice(d', off, pos + nb) == content[..pos + nb] && Outside(d0, d', off, off + AlignUp(|content|))
  {
    hide Slice, Outside, Spliced;
    var p := content[pos..pos + nb];
    var d' := Spliced(d, p, off + pos);
    SliceElsewhere(d, p, off + pos, off, pos);
    SliceOfWrite(d, p, off + pos);
    SliceConcat(d', off, pos, nb);
    assert content[..pos] + p == content[..pos + nb];
    WriteOutside(d, p, off + pos);
    OutsideChain(d0, d, d', off, off + AlignUp(|content|), off + pos, off + pos + nb, off, off + AlignUp(|content|));
  }

  lemma StreamPadded(d0: seq<byte>, d: seq<byte>, off: nat, content: seq<byte>)
    requires Slice(d, off, |content|) == content[..|content|] && Outside(d0, d, off, off + AlignUp(|content|))
    ensures var d' := Spliced(d, Zeros(AlignUp(|content|) - |content|), off + |content|);
      DataAt(d', off, content) && Outside(d0, d', off, off + AlignUp(|content|))
  {
    hide Slice, Outside, Spliced, AlignUp;
    var n := |content|;
    var z := Zeros(AlignUp(n) - n);
    var d' := Spliced(d, z, off + n);
    SliceElsewhere(d, z, off + n, off, n);
    SliceOfWrite(d, z, off + n);
    SliceConcat(d', off, n, |z|);
    assert content[..n] == content;
    WriteOutside(d, z, off + n);
    OutsideChain(d0, d, d', off, off + AlignUp(n), off + n, off + AlignUp(n), off, off + AlignUp(n));
  }

  /** One child: its header with the offsets of the first pass, and its data. */
  method WriteKid(dev: File, l: Layouter, t: Tree, names: seq<string>, path: Path, k: nat, ghost hdr: nat,
          ghost at: nat, ghost subs: nat)
    requires Within(names, t) && k < |names| && Level(l.M(), t, names, path, hdr, at, subs, |names|, |names|)
    requires KidOff(t, names, at, k + 1) < TWO32 && ListUpTo(dev.data, t, names, at, subs, k)
    modifies dev
    ensures ListUpTo(dev.data, t, names, at, subs, k + 1)
    ensures Outside(old(dev.data), dev.data, KidOff(t, names, at, k), KidOff(t, names, at, k + 1))
  {
    hide EntryAt, DataAt, Outside, Good, FlagsOf, DataOf, KidOff, SubOff, EntryLen, AlignUp, Within, Level,
         PaddedName, ListUpTo;
    ghost var d0 := dev.data;
    NextKid(t, names, at, subs, k);
    KidIsGood(t, names, k);
    IsFolder(names, t);
    KidOffsets(l.M(), t, names, path, hdr, at, subs, k);
    var name, kid := names[k], t.kids[names[k]];
    EntryLenSplit(name, kid);
    GoodNameBytes(name);
    var off := l.hdrOff[path + [name]];
    var next := 0;
    if k + 1 < |names| {
      NextOffset(l.M(), t, names, path, hdr, at, subs, k);
      next := l.hdrOff[path + [names[k + 1]]];
    }
    var spec := 0;
    if kid.Folder? {
      spec := l.dotOff[path + [name]];
    } else if kid.mode.kind == CharDevice || kid.mode.kind == BlockDevice {
      spec := DeviceSpec(kid.rdev);
    }
    var data := DataOf(kid);
    var dataOff := WriteHeader(dev, off, name, next, FlagsOf(kid), spec, |data|);
    ghost var d1 := dev.data;
    NoData(d1, dataOff, data);
    if kid.Leaf? && kid.mode.kind == Symlink {
      WritePadded(dev, dataOff, data);
    } else if kid.Leaf? && kid.mode.kind == Regular && |data| > 0 {
      StreamContent(dev, dataOff, data);
    } else {
      DataEmpty(kid);
    }
    EntryFrame(d1, dev.data, dataOff, dataOff + AlignUp(|data|), off, name, next, FlagsOf(kid), spec, |data|);
    OutsideChain(d0, d1, dev.data, off, dataOff, dataOff, dataOff + AlignUp(|data|), off, dataOff + AlignUp(|data|));
    KidNow(dev.data, t, names, at, subs, k, next, spec);
    ListKept(d0, dev.data, off, dataOff + AlignUp(|data|), t, names, at, subs, k);
    ListMore(dev.data, t, names, at, subs, k);
  }

  lemma GoodNameBytes(name: string)
    requires GoodName(name)
    ensures ByteString(name)
  {
  }

  lemma ListMore(dev: seq<byte>, t: Tree, names: seq<string>, at: nat, subs: nat, k: nat)
    requires Within(names, t) && k < |names| && ListUpTo(dev, t, names, at, subs, k)
      && KidWritten(dev, t, names, at, subs, k)
    ensures ListUpTo(dev, t, names, at, subs, k + 1)
  {
    hide KidWritten, Within;
  }

  lemma KidNow(dev: seq<byte>, t: Tree, names: seq<string>, at: nat, subs: nat, k: nat, next: nat, spec: nat)
    requires Within(names, t) && k < |names| && KidGood(t, names, k)
    requires var kid := t.kids[names[k]];
      && next == FirstOff(names[k + 1..], KidOff(t, names, at, k + 1)) && spec == SpecOf(kid, SubOff(t, names, subs, k))
      && EntryAt(dev, KidOff(t, names, at, k), names[k], next, FlagsOf(kid), spec, |DataOf(kid)|)
      && DataAt(dev, KidOff(t, names, at, k) + HEADER + PaddedName(names[k]), DataOf(kid))
    ensures KidWritten(dev, t, names, at, subs, k)
  {
    hide EntryAt, DataAt, FlagsOf, DataOf, KidOff, SubOff, SpecOf, PaddedName;
  }

  lemma DataEmpty(t: Tree)
    requires Good(t)
    ensures !(t.Leaf? && t.mode.kind == Symlink) && !(t.Leaf? && t.mode.kind == Regular && |DataOf(t)| > 0) ==>
      |DataOf(t)| == 0
  {
  }

  lemma NoData(d: seq<byte>, off: nat, data: seq<byte>)
    ensures AlignUp(0) == 0 && (|data| == 0 ==> DataAt(d, off, data)) && Outside(d, d, off, off)
  {
    if |data| == 0 {
      assert data == [] && Slice(d, off, 0) == [] && Zeros(0) == [];
    }
  }

  lemma KidOffsets(m: Offsets, t: Tree, names: seq<string>, path: Path, hdr: nat, at: nat, subs: nat, k: nat)
    requires Within(names, t) && k < |names| && Level(m, t, names, path, hdr, at, subs, |names|, |names|)
    ensures names[k] in t.kids && path + [names[k]] in m.hdr && m.hdr[path + [names[k]]] == KidOff(t, names, at, k)
    ensures t.kids[names[k]].Folder? ==>
      && Good(t.kids[names[k]]) && path + [names[k]] in m.dot && m.dot[path + [names[k]]] == SubOff(t, names, subs, k)
      && Laid(m, t.kids[names[k]], path + [names[k]], KidOff(t, names, at, k), SubOff(t, names, subs, k), hdr)
  {
    hide KidOff, SubOff, Good;
    assert names[k] in names;
    assert HeadLaid(m, t, names, path, at, k);
    assert KidLaid(m, t, names, path, hdr, at, subs, k);
  }

  lemma NextOffset(m: Offsets, t: Tree, names: seq<string>, path: Path, hdr: nat, at: nat, subs: nat, k: nat)
    requires Within(names, t) && k + 1 < |names| && Level(m, t, names, path, hdr, at, subs, |names|, |names|)
    ensures path + [names[k + 1]] in m.hdr && m.hdr[path + [names[k + 1]]] == KidOff(t, names, at, k + 1)
    ensures names[k + 1..] != []
  {
    hide KidOff, SubOff, Good;
    assert HeadLaid(m, t, names, path, at, k + 1);
  }

  lemma LaidLevel(m: Offsets, t: Tree, path: Path, hdr: nat, list: nat, parent: nat)
    requires t.Folder? && Good(t) && Laid(m, t, path, hdr, list, parent)
    ensures Within(Sorted(t.kids.Keys), t) && Own(m, path, hdr, list, parent)
    ensures var names := Sorted(t.kids.Keys);
      Level(m, t, names, path, hdr, list + 64, list + 64 + EntriesLen(t, names), |names|, |names|)
  {
    hide EntriesLen, Good, Level;
  }

  /** writeDir: a list of children, then the lists of the subdirectories. */
  method WriteDir(dev: File, l: Layouter, t: Tree, path: Path, ghost hdr: nat, ghost list: nat, ghost parent: nat)
    requires t.Folder? && Good(t) && Laid(l.M(), t, path, hdr, list, parent) && list + TreeLen(t) < TWO32
    modifies dev
    ensures DirAt(dev.data, list, t, hdr, parent) && Outside(old(dev.data), dev.data, list, list + TreeLen(t))
    decreases t, 1
  {
    hide EntryAt, DataAt, Outside, Good, KidOff, SubOff, EntryLen, Within, Level, Laid, DirAt, EntriesLen, SubsLen,
         TreeLen, PaddedName, ListUpTo, SubsUpTo;
    ghost var d0 := dev.data;
    var names := SortNames(t.kids.Keys);
    LaidLevel(l.M(), t, path, hdr, list, parent);
    TreeLenIs(t);
    ghost var at, subs := list + 64, list + 64 + EntriesLen(t, names);
    OffsetEnds(t, names, at, subs);
    WriteDots(dev, l, t, names, path, hdr, list, parent, subs);
    ghost var d1 := dev.data;
    WriteList(dev, l, t, names, path, hdr, at, subs);
    ghost var d2 := dev.data;
    WriteSubs(dev, l, t, names, path, hdr, at, subs);
    AllWritten(d0, d1, d2, dev.data, t, names, hdr, list, parent);
  }

  lemma AllWritten(d0: seq<byte>, d1: seq<byte>, d2: seq<byte>, d: seq<byte>, t: Tree, names: seq<string>, hdr: nat,
                   list: nat, parent: nat)
    requires t.Folder? && Good(t) && names == Sorted(t.kids.Keys) && Within(names, t)
    requires EntryAt(d1, list, ".", list + 32, TYPE_HARDLINK, hdr, 0)
    requires EntryAt(d1, list + 32, "..", FirstOff(names, list + 64), TYPE_HARDLINK, parent, 0)
    requires var at, subs := list + 64, list + 64 + EntriesLen(t, names);
      && ListUpTo(d, t, names, at, subs, |names|) && SubsUpTo(d, t, names, at, subs, hdr, |names|)
      && Outside(d0, d1, list, at) && Outside(d1, d2, at, subs)
      && Outside(d2, d, subs, SubOff(t, names, subs, |names|))
    ensures DirAt(d, list, t, hdr, parent) && Outside(d0, d, list, list + TreeLen(t))
  {
    hide EntryAt, Outside, Good, Within, DirAt, EntriesLen, SubsLen, TreeLen, ListUpTo, SubsUpTo, SubOff;
    var at, subs := list + 64, list + 64 + EntriesLen(t, names);
    TreeLenIs(t);
    OffsetEnds(t, names, at, subs);
    OutsideChain(d1, d2, d, at, subs, subs, SubOff(t, names, subs, |names|), at, list + TreeLen(t));
    DirDone(d1, d, t, names, hdr, list, parent);
    OutsideChain(d0, d1, d, list, at, at, list + TreeLen(t), list, list + TreeLen(t));
  }

  method WriteList(dev: File, l: Layouter, t: Tree, names: seq<string>, path: Path, ghost hdr: nat, ghost at: nat,
          ghost subs: nat)
    requires Within(names, t) && Level(l.M(), t, names, path, hdr, at, subs, |names|, |names|)
    requires at + EntriesLen(t, names) < TWO32
    modifies dev
    ensures ListUpTo(dev.data, t, names, at, subs, |names|)
    ensures Outside(old(dev.data), dev.data, at, at + EntriesLen(t, names))
  {
    hide Outside, Good, KidOff, SubOff, EntryLen, Within, Level, EntriesLen, SubsLen, ListUpTo, SubsUpTo;
    ghost var d1 := dev.data;
    NothingYet(d1, t, names, at, subs, hdr);
    OffsetEnds(t, names, at, subs);
    for k := 0 to |names|
      invariant ListUpTo(dev.data, t, names, at, subs, k) && Outside(d1, dev.data, at, KidOff(t, names, at, k))
    {
      ghost var d := dev.data;
      OffsetsAscend(t, names, at, subs, 0, k);
      OffsetsAscend(t, names, at, subs, k, k + 1);
      OffsetsAscend(t, names, at, subs, k + 1, |names|);
      WriteKid(dev, l, t, names, path, k, hdr, at, subs);
      OutsideChain(d1, d, dev.data, at, KidOff(t, names, at, k), KidOff(t, names, at, k), KidOff(t, names, at, k + 1),
          at, KidOff(t, names, at, k + 1));
    }
  }

  method WriteSubs(dev: File, l: Layouter, t: Tree, names: seq<string>, path: Path, ghost hdr: nat, ghost at: nat,
          ghost subs: nat)
    requires Within(names, t) && Level(l.M(), t, names, path, hdr, at, subs, |names|, |names|)
    requires ListUpTo(dev.data, t, names, at, subs, |names|) && at + EntriesLen(t, names) <= subs
    requires subs + SubsLen(t, names) < TWO32
    modifies dev
    ensures ListUpTo(dev.data, t, names, at, subs, |names|) && SubsUpTo(dev.data, t, names, at, subs, hdr, |names|)
    ensures Outside(old(dev.data), dev.data, subs, subs + SubsLen(t, names))
    decreases t, 0
  {
    hide EntryAt, DataAt, Outside, Good, KidOff, SubOff, EntryLen, Within, Level, Laid, DirAt, EntriesLen, SubsLen,
         TreeLen, PaddedName, ListUpTo, SubsUpTo, KidGood;
    IsFolder(names, t);
    ghost var d2 := dev.data;
    NothingYet(d2, t, names, at, subs, hdr);
    OffsetEnds(t, names, at, subs);
    for k := 0 to |names|
      invariant ListUpTo(dev.data, t, names, at, subs, |names|) && SubsUpTo(dev.data, t, names, at, subs, hdr, k)
      invariant Outside(d2, dev.data, subs, SubOff(t, names, subs, k))
    {
      ghost var d := dev.data;
      OffsetsAscend(t, names, at, subs, 0, k);
      OffsetsAscend(t, names, at, subs, k, k + 1);
      OffsetsAscend(t, names, at, subs, k + 1, |names|);
      NextKid(t, names, at, subs, k);
      KidOffsets(l.M(), t, names, path, hdr, at, subs, k);
      KidIsGood(t, names, k);
      var kid := t.kids[names[k]];
      SubLenIs(kid);
      NoChange(d, SubOff(t, names, subs, k));
      if kid.Folder? {
        WriteDir(dev, l, kid, path + [names[k]], KidOff(t, names, at, k), SubOff(t, names, subs, k), hdr);
      }
      ListKept(d, dev.data, SubOff(t, names, subs, k), SubOff(t, names, subs, k + 1), t, names, at, subs, |names|);
      SubsKept(d, dev.data, SubOff(t, names, subs, k), SubOff(t, names, subs, k + 1), t, names, at, subs, hdr, k);
      SubsMore(dev.data, t, names, at, subs, hdr, k);
      OutsideChain(d2, d, dev.data, subs, SubOff(t, names, subs, k), SubOff(t, names, subs, k), SubOff(t, names, subs,
          k + 1), subs, SubOff(t, names, subs, k + 1));
    }
  }

  lemma NoChange(d: seq<byte>, off: nat)
    ensures Outside(d, d, off, off)
  {
  }

  lemma NothingYet(d: seq<byte>, t: Tree, names: seq<string>, at: nat, subs: nat, hdr: nat)
    requires Within(names, t)
    ensures ListUpTo(d, t, names, at, subs, 0) && SubsUpTo(d, t, names, at, subs, hdr, 0)
    ensures Outside(d, d, at, at) && Outside(d, d, subs, subs)
  {
  }

  lemma SubsMore(dev: seq<byte>, t: Tree, names: seq<string>, at: nat, subs: nat, hdr: nat, k: nat)
    requires Within(names, t) && k < |names| && SubsUpTo(dev, t, names, at, subs, hdr, k) && KidGood(t, names, k)
    requires t.kids[names[k]].Folder? ==>
      DirAt(dev, SubOff(t, names, subs, k), t.kids[names[k]], KidOff(t, names, at, k), hdr)
    ensures SubsUpTo(dev, t, names, at, subs, hdr, k + 1)
  {
    hide DirAt, SubOff, KidOff;
  }

  method WriteDots(dev: File, l: Layouter, t: Tree, names: seq<string>, path: Path, ghost hdr: nat, ghost list: nat,
                   ghost parent: nat, ghost subs: nat)
    requires Within(names, t) && Own(l.M(), path, hdr, list, parent) && list + 64 < TWO32
    requires Level(l.M(), t, names, path, hdr, list + 64, subs, |names|, |names|)
    modifies dev
    ensures EntryAt(dev.data, list, ".", list + 32, TYPE_HARDLINK, hdr, 0)
    ensures EntryAt(dev.data, list + 32, "..", FirstOff(names, list + 64), TYPE_HARDLINK, parent, 0)
    ensures Outside(old(dev.data), dev.data, list, list + 64)
  {
    hide EntryAt, Outside, Level, Within, KidOff;
    ghost var d0 := dev.data;
    DotsPadded();
    DotsAreGood();
    var first := 0;
    if |names| > 0 {
      FirstOffset(l.M(), t, names, path, hdr, list + 64, subs);
      first := l.hdrOff[path + [names[0]]];
    }
    var a := WriteHeader(dev, l.dotOff[path], ".", l.dotdotOff[path], TYPE_HARDLINK, l.hdrOff[path], 0);
    ghost var d1 := dev.data;
    var b := WriteHeader(dev, l.dotdotOff[path], "..", first, TYPE_HARDLINK, l.parentHdr[path], 0);
    EntryFrame(d1, dev.data, list + 32, list + 64, list, ".", list + 32, TYPE_HARDLINK, hdr, 0);
    OutsideChain(d0, d1, dev.data, list, list + 32, list + 32, list + 64, list, list + 64);
  }

  lemma FirstOffset(m: Offsets, t: Tree, names: seq<string>, path: Path, hdr: nat, at: nat, subs: nat)
    requires Within(names, t) && |names| > 0 && Level(m, t, names, path, hdr, at, subs, |names|, |names|)
    ensures path + [names[0]] in m.hdr && m.hdr[path + [names[0]]] == at
  {
    hide KidOff, SubOff, Good;
    assert HeadLaid(m, t, names, path, at, 0);
    OffsetEnds(t, names, at, subs);
  }

  lemma DirDone(d1: seq<byte>, d: seq<byte>, t: Tree, names: seq<string>, hdr: nat, list: nat, parent: nat)
    requires t.Folder? && Good(t) && names == Sorted(t.kids.Keys) && Within(names, t)
    requires EntryAt(d1, list, ".", list + 32, TYPE_HARDLINK, hdr, 0)
    requires EntryAt(d1, list + 32, "..", FirstOff(names, list + 64), TYPE_HARDLINK, parent, 0)
    requires var at, subs := list + 64, list + 64 + EntriesLen(t, names);
      ListUpTo(d, t, names, at, subs, |names|) && SubsUpTo(d, t, names, at, subs, hdr, |names|)
    requires Outside(d1, d, list + 64, list + TreeLen(t))
    ensures DirAt(d, list, t, hdr, parent)
  {
    hide EntryAt, Outside, KidsAt, EntriesLen, TreeLen, Good, ListUpTo, SubsUpTo, Within, PaddedName, FirstOff;
    var first := FirstOff(names, list + 64);
    DotsPadded();
    EntryFrame(d1, d, list + 64, list + TreeLen(t), list, ".", list + 32, TYPE_HARDLINK, hdr, 0);
    EntryFrame(d1, d, list + 64, list + TreeLen(t), list + 32, "..", first, TYPE_HARDLINK, parent, 0);
    KidsStand(d, t, names, list + 64, list + 64 + EntriesLen(t, names), hdr);
  }

  lemma KidsStand(d: seq<byte>, t: Tree, names: seq<string>, at: nat, subs: nat, hdr: nat)
    requires Within(names, t)
    requires ListUpTo(d, t, names, at, subs, |names|) && SubsUpTo(d, t, names, at, subs, hdr, |names|)
    ensures KidsAt(d, t, names, at, subs, hdr)
  {
    hide KidsAt, KidWritten, SubWritten, Within, KidOff, SubOff;
    KidsWritten(d, t, names, at, subs, hdr, 0);
    OffsetEnds(t, names, at, subs);
    assert names[0..] == names;
  }
}
