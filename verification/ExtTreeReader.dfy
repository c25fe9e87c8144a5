/** pkg/ext/reader.go: walking a formatted device from its root. */
module ExtTreeReader {
  import opened Sizes
  import opened Modes
  import opened Names
  import opened Bytes
  import opened Text
  import opened Files
  import opened RunAllocation
  import ExtGeometry
  import ExtIndirect
  import opened ExtLayout
  import opened ExtAttrs
  import opened ExtFiles
  import opened ExtDir
  import opened ExtBuild
  import opened ExtRun
  import opened ExtTree
  import opened ExtTreeWriter
  import opened ExtTreeFormat

  // ----- What a reader finds.

  datatype Link = Link(name: string, ino: nat)

  /** A node as it is read; the content of a file is read later, through its blocks. */
  datatype Found = Found(mode: Mode, attrs: Attributes, size: nat, blocks: seq<nat>, target: seq<byte>, rdev: nat,
          kids: seq<Link>)

  /** strings.TrimRight with NUL. */
  function TrimRight(s: seq<byte>): (r: seq<byte>)
    ensures |r| <= |s| && r == s[..|r|] && forall i :: |r| <= i < |s| ==> s[i] == 0
    ensures r == [] || r[|r| - 1] != 0
  {
    if s != [] && s[|s| - 1] == 0 then TrimRight(s[..|s| - 1]) else s
  }

  /** A short target loses the zeros at its end. */
  function ShownTarget(target: seq<byte>): seq<byte> {
    if |target| < FAST_SYMLINK_MAX then TrimRight(target) else target
  }

  ghost function KidLinks(t: Tree, ino: Ino, n: nat, names: seq<string>): (ls: seq<Link>)
    requires n < |t| && forall x :: x in names ==> x in t[n].kids && t[n].kids[x] < |t| && t[n].kids[x] in ino
    ensures |ls| == |names|
  {
    seq(|names|, i requires 0 <= i < |names| => assert names[i] in names; Link(names[i], ino[t[n].kids[names[i]]]))
  }

  ghost predicate LinksOf(t: Tree, ino: Ino, n: nat, ls: seq<Link>) {
    && Numbered(t, ino, n)
    && (SortedElements(t[n].kids.Keys);
        ls == KidLinks(t, ino, n, Sorted(t[n].kids.Keys)))
  }

  /** A node is read as it was. */
  ghost predicate FoundIs(dev: seq<byte>, bs: nat, p: Placing, n: nat, f: Found) {
    && n < |p.t| && bs > 0 && f.mode == p.t[n].mode
    && (f.attrs == p.t[n].attrs <==> "" !in p.t[n].attrs)
    && match p.t[n].mode.kind
       case Dir => LinksOf(p.t, p.ino, n, f.kids)
       case Regular =>
         && f.size == |p.t[n].content| && |f.blocks| == CeilDiv(f.size, bs)
         && StoredUpTo(dev, bs, f.blocks, p.t[n].content, |f.blocks|)
       case Symlink => f.target == ShownTarget(p.t[n].target)
       case CharDevice => f.rdev == p.t[n].rdev % TWO32
       case BlockDevice => f.rdev == p.t[n].rdev % TWO32
       case Fifo => true
       case Socket => true
  }

  /** The node numbered x was found, and so were its kids. */
  ghost predicate FoundAt(dev: seq<byte>, bs: nat, p: Placing, seen: map<nat, Found>, x: nat)
    requires x in seen
  {
    exists n :: n in p.at && n in p.ino && p.ino[n] == x && FoundIs(dev, bs, p, n, seen[x]) && KidsSeen(p, n, seen)
  }

  ghost predicate KidsSeen(p: Placing, n: nat, seen: map<nat, Found>) {
    n < |p.t| && forall y :: y in p.t[n].kids ==> p.t[n].kids[y] in p.ino && p.ino[p.t[n].kids[y]] in seen
  }

  /** Whatever was seen, but for the directories that are being read, was found as it was. */
  ghost predicate SeenRight(dev: seq<byte>, bs: nat, p: Placing, seen: map<nat, Found>, open: set<nat>) {
    forall x :: x in seen && x !in open ==> FoundAt(dev, bs, p, seen, x)
  }

  ghost predicate SeenMore(seen: map<nat, Found>, seen': map<nat, Found>) {
    forall x :: x in seen ==> x in seen' && seen'[x] == seen[x]
  }

  /** No directory has an entry that is lost. */
  ghost predicate AllRead(p: Placing, bs: nat) {
    forall n, parent: nat :: n in p.at && Numbered(p.t, p.ino, n) && bs >= 1024 ==>
      var es := Dentries(p.t, p.ino, n, parent);
      ValidDentries(es) ==> NoneAlone(es, bs, 0)
  }

  lemma SmallBlocksRead(p: Placing, bs: nat)
    requires 1024 <= bs < TWO16
    ensures AllRead(p, bs)
  {
    hide ValidDentries, Dentries, NoneAlone;
    forall n, parent: nat | n in p.at && Numbered(p.t, p.ino, n)
      ensures var es := Dentries(p.t, p.ino, n, parent); ValidDentries(es) ==> NoneAlone(es, bs, 0)
    {
      var es := Dentries(p.t, p.ino, n, parent);
      if ValidDentries(es) {
        SmallBlocks(es, bs, 0);
      }
    }
  }

  // ----- Directories.

  predicate IsDots(e: Dentry) {
    e.name == "." || e.name == ".."
  }

  function Shown(es: seq<Dentry>): seq<Link> {
    if es == [] then []
    else
      var e := es[|es| - 1];
      Shown(es[..|es| - 1]) + if IsDots(e) then [] else [Link(e.name, e.ino)]
  }

  lemma ShownOne(es: seq<Dentry>, e: Dentry)
    ensures Shown(es + [e]) == Shown(es) + if IsDots(e) then [] else [Link(e.name, e.ino)]
  {
    assert (es + [e])[..|es|] == es;
  }

  lemma DotsShown(self: nat, parent: nat)
    ensures Shown(Dots(self, parent)) == []
  {
    var dots := Dots(self, parent);
    assert dots == [] + [dots[0]] + [dots[1]];
    ShownOne([], dots[0]);
    ShownOne([] + [dots[0]], dots[1]);
  }

  lemma KidIsNoDots(t: Tree, n: nat, x: string)
    requires WellNumbered(t) && n < |t| && x in t[n].kids
    ensures x != "." && x != ".."
  {
    KidIsGood(t, n, x);
  }

  lemma {:induction false} ShownKids(t: Tree, ino: Ino, n: nat, names: seq<string>, self: nat, parent: nat)
    requires WellNumbered(t)
    requires n < |t| && forall x :: x in names ==> x in t[n].kids && t[n].kids[x] < |t| && t[n].kids[x] in ino
    ensures Shown(Dots(self, parent) + KidDentries(t, ino, n, names)) == KidLinks(t, ino, n, names)
    decreases |names|
  {
    hide WellNumbered, Dots, Shown, FileType;
    var dots := Dots(self, parent);
    if names == [] {
      DotsShown(self, parent);
      assert dots + KidDentries(t, ino, n, names) == dots;
    } else {
      var k := |names| - 1;
      var before := names[..k];
      assert names[k] in names;
      KidIsNoDots(t, n, names[k]);
      ShownKids(t, ino, n, before, self, parent);
      var es, e := dots + KidDentries(t, ino, n, before), KidDentry(t, ino, n, names[k]);
      assert dots + KidDentries(t, ino, n, names) == es + [e];
      ShownOne(es, e);
      assert KidLinks(t, ino, n, names) == KidLinks(t, ino, n, before) + [Link(e.name, e.ino)];
    }
  }

  function Buffers(dev: seq<byte>, bs: nat, blocks: seq<nat>): (bufs: seq<seq<byte>>)
    ensures |bufs| == |blocks|
  {
    seq(|blocks|, i requires 0 <= i < |blocks| => BlockAt(dev, bs, blocks[i]))
  }

  /** The blocks of a directory hold its entries. */
  lemma DirectoryReads(dev: seq<byte>, bs: nat, p: Placing, n: nat, f: FileOn) returns (parent: nat)
    requires Holds(dev, bs, f) && IsDirectory(p.t, p.ino, n, bs, f.spec.content) && n in p.at && AllRead(p, bs)
    requires bs <= TWO16
    ensures Numbered(p.t, p.ino, n) && ParseAll(Buffers(dev, bs, f.blocks)) == Dentries(p.t, p.ino, n, parent)
    ensures ParentOf(p.t, p.ino, n, parent)
  {
    hide ParentOf, Mapped, AttrsHold, ExtIndirect.SectorsOf, Dentries, ValidDentries, NoneAlone, ExtDir.Blocks, ParseAll,
         BlockAt, CeilDiv;
    var par: nat, parts :| ParentOf(p.t, p.ino, n, par) && DirBlocks(p.t, p.ino, n, bs, f.spec.content, par, parts);
    parent := par;
    var es := Dentries(p.t, p.ino, n, parent);
    ConcatSize(parts, bs);
    WholeBlocks(|parts|, bs);
    forall i | 0 <= i < |parts|
      ensures Buffers(dev, bs, f.blocks)[i] == parts[i]
    {
      ConcatBlock(parts, bs, i);
      assert BlockAt(dev, bs, f.blocks[i]) == BlockAt(f.spec.content, bs, i);
    }
    assert Buffers(dev, bs, f.blocks) == parts;
    DirReads(parts, es, bs, 0);
    assert es[0..] == es;
  }

  /** What the type of an entry tells about its node. */
  predicate Tells(code: byte, k: Kind) {
    && (code == 1 <==> k == Regular) && (code == 2 <==> k == Dir) && (code == 3 <==> k == CharDevice)
    && (code == 4 <==> k == BlockDevice) && (code == 5 <==> k == Fifo) && (code == 6 <==> k == Socket)
    && (code == 7 <==> k == Symlink)
  }

  /** The entry of a name: the number of its node, and its kind. */
  ghost predicate EntryTells(t: Tree, ino: Ino, n: nat, e: Dentry) {
    && n < |t| && e.name in t[n].kids && t[n].kids[e.name] < |t| && t[n].kids[e.name] in ino
    && e.ino == ino[t[n].kids[e.name]] && Tells(e.ftype, t[t[n].kids[e.name]].mode.kind)
  }

  /** A directory begins with itself and with a directory that names it, and goes on with its names in order. */
  ghost predicate EntriesTell(t: Tree, ino: Ino, n: nat, es: seq<Dentry>) {
    && n < |t| && n in ino && |es| == 2 + |t[n].kids|
    && es[0] == Dentry(ino[n], ".", 2) && es[1].name == ".." && es[1].ftype == 2 && ParentOf(t, ino, n, es[1].ino)
    && (forall i :: 2 <= i < |es| ==> EntryTells(t, ino, n, es[i]))
    && (forall i, j :: 2 <= i < j < |es| ==> Before(es[i].name, es[j].name))
  }

  lemma DentriesTell(t: Tree, ino: Ino, n: nat, parent: nat)
    requires Numbered(t, ino, n) && ParentOf(t, ino, n, parent)
    ensures EntriesTell(t, ino, n, Dentries(t, ino, n, parent))
  {
    hide ParentOf, Before;
    var names, es := Sorted(t[n].kids.Keys), Dentries(t, ino, n, parent);
    SortedElements(t[n].kids.Keys);
    ListedOnce(names, t[n].kids.Keys);
    forall i | 2 <= i < |es|
      ensures EntryTells(t, ino, n, es[i]) && es[i].name == names[i - 2]
    {
      assert names[i - 2] in names;
      assert es[i] == KidDentry(t, ino, n, names[i - 2]);
    }
  }

  lemma {:induction false} ListedOnce(names: seq<string>, all: set<string>)
    requires Lists(names, all)
    ensures |names| == |all|
    decreases |names|
  {
    EmptyListing(names, all);
    if names != [] {
      TailLists(names, all);
      ListedOnce(names[1..], all - {names[0]});
    }
  }

  /** Every directory on the device tells where it is, where its parent is, and what is in it. */
  ghost predicate DirectoriesTell(dev: seq<byte>, bs: nat, p: Placing) {
    forall n :: n in p.at && n < |p.t| && p.t[n].IsDir() ==>
      p.at[n] < |p.on| && EntriesTell(p.t, p.ino, n, ParseAll(Buffers(dev, bs, p.on[p.at[n]].blocks)))
  }

  lemma AllTell(dev: seq<byte>, bs: nat, inodes: map<nat, DiskInode>, p: Placing)
    requires TreeImage(dev, bs, inodes, p) && AllRead(p, bs) && 1024 <= bs <= TWO16
    ensures DirectoriesTell(dev, bs, p)
  {
    hide WellNumbered, AllRead, ParseAll, EntriesTell, IsDirectory, ExtFiles.Holds, Buffers, Dentries, ParentOf;
    forall n | n in p.at && n < |p.t| && p.t[n].IsDir()
      ensures p.at[n] < |p.on| && EntriesTell(p.t, p.ino, n, ParseAll(Buffers(dev, bs, p.on[p.at[n]].blocks)))
    {
      assert NodeIsOn(p.t, p.ino, bs, n, inodes, p.on, p.at[n]);
      var parent := DirectoryReads(dev, bs, p, n, p.on[p.at[n]]);
      DentriesTell(p.t, p.ino, n, parent);
    }
  }

  lemma {:induction false} ParseAllJoin(a: seq<seq<byte>>, b: seq<seq<byte>>)
    ensures ParseAll(a + b) == ParseAll(a) + ParseAll(b)
    decreases |a|
  {
    if a == [] {
      assert a + b == b;
    } else {
      assert (a + b)[1..] == a[1..] + b;
      ParseAllJoin(a[1..], b);
    }
  }

  lemma ParseOneMore(bufs: seq<seq<byte>>, i: nat)
    requires i < |bufs|
    ensures ParseAll(bufs[..i + 1]) == ParseAll(bufs[..i]) + Parse(bufs[i], 0)
    ensures forall e :: e in Parse(bufs[i], 0) ==> e in ParseAll(bufs)
  {
    hide Parse, ParseAll;
    var one := [bufs[i]];
    ParseJust(bufs[i]);
    assert bufs[..i + 1] == bufs[..i] + one;
    ParseAllJoin(bufs[..i], one);
    assert bufs == bufs[..i + 1] + bufs[i + 1..];
    ParseAllJoin(bufs[..i + 1], bufs[i + 1..]);
  }

  lemma ParseJust(buf: seq<byte>)
    ensures ParseAll([buf]) == Parse(buf, 0)
  {
    hide Parse;
    var one := [buf];
    assert one[1..] == [];
  }

  lemma {:induction false} ShownJoin(a: seq<Dentry>, b: seq<Dentry>)
    ensures Shown(a + b) == Shown(a) + Shown(b)
    decreases |b|
  {
    hide Shown, IsDots;
    if b == [] {
      ShownNothing();
      assert a + b == a;
    } else {
      var n := |b| - 1;
      ShownJoin(a, b[..n]);
      assert a + b == (a + b[..n]) + [b[n]];
      ShownOne(a + b[..n], b[n]);
      ShownOne(b[..n], b[n]);
      assert b == b[..n] + [b[n]];
    }
  }

  lemma ShownNothing()
    ensures Shown([]) == []
  {
  }

  /** An entry is a dot or names a kid. */
  ghost predicate EntryOk(p: Placing, n: nat, e: Dentry) {
    n < |p.t| && (IsDots(e) || (e.name in p.t[n].kids && IsKid(p, n, e)))
  }

  ghost predicate AllOk(p: Placing, n: nat, es: seq<Dentry>) {
    forall e :: e in es ==> EntryOk(p, n, e)
  }

  lemma PartOk(p: Placing, n: nat, es: seq<Dentry>, part: seq<Dentry>)
    requires AllOk(p, n, es) && forall e :: e in part ==> e in es
    ensures AllOk(p, n, part)
  {
  }

  ghost predicate IsKid(p: Placing, n: nat, e: Dentry)
    requires n < |p.t| && e.name in p.t[n].kids
  {
    p.t[n].kids[e.name] in p.ino && e.ino == p.ino[p.t[n].kids[e.name]]
  }

  lemma EntriesOk(p: Placing, n: nat, parent: nat)
    requires Numbered(p.t, p.ino, n)
    ensures AllOk(p, n, Dentries(p.t, p.ino, n, parent))
  {
    hide FileType;
    SortedElements(p.t[n].kids.Keys);
    var names := Sorted(p.t[n].kids.Keys);
    forall e | e in KidDentries(p.t, p.ino, n, names)
      ensures EntryOk(p, n, e)
    {
      var i :| 0 <= i < |names| && e == KidDentries(p.t, p.ino, n, names)[i];
      assert names[i] in names;
    }
  }

  ghost predicate AllIn(ls: seq<Link>, seen: map<nat, Found>) {
    forall i :: 0 <= i < |ls| ==> ls[i].ino in seen
  }

  lemma KidsAreSeen(p: Placing, n: nat, ls: seq<Link>, seen: map<nat, Found>)
    requires LinksOf(p.t, p.ino, n, ls) && AllIn(ls, seen)
    ensures KidsSeen(p, n, seen)
  {
    SortedElements(p.t[n].kids.Keys);
    var names := Sorted(p.t[n].kids.Keys);
    forall y | y in p.t[n].kids
      ensures p.t[n].kids[y] in p.ino && p.ino[p.t[n].kids[y]] in seen
    {
      assert y in names;
      var i :| 0 <= i < |names| && names[i] == y;
      assert ls[i].ino in seen;
    }
  }

  /** The links of the first j entries were added. */
  ghost predicate GotLinks(kids0: seq<Link>, entries: seq<Dentry>, j: nat, kids: seq<Link>) {
    j <= |entries| && kids == kids0 + Shown(entries[..j])
  }

  lemma NoLinks(kids0: seq<Link>, entries: seq<Dentry>)
    ensures GotLinks(kids0, entries, 0, kids0)
  {
    ShownNothing();
    assert entries[..0] == [] && kids0 + [] == kids0;
  }

  lemma OneMoreLink(kids0: seq<Link>, entries: seq<Dentry>, j: nat, kids1: seq<Link>, kids: seq<Link>)
    requires GotLinks(kids0, entries, j, kids1) && j < |entries|
    requires kids == kids1 + if IsDots(entries[j]) then [] else [Link(entries[j].name, entries[j].ino)]
    ensures GotLinks(kids0, entries, j + 1, kids)
  {
    hide Shown, IsDots;
    assert entries[..j + 1] == entries[..j] + [entries[j]];
    ShownOne(entries[..j], entries[j]);
    assert kids == kids0 + Shown(entries[..j + 1]);
  }

  lemma AllLinks(kids0: seq<Link>, entries: seq<Dentry>, kids: seq<Link>)
    requires GotLinks(kids0, entries, |entries|, kids)
    ensures kids == kids0 + Shown(entries)
  {
    assert entries[..|entries|] == entries;
  }

  lemma OkAt(p: Placing, n: nat, es: seq<Dentry>, j: nat)
    requires AllOk(p, n, es) && j < |es|
    ensures EntryOk(p, n, es[j])
  {
  }

  lemma SeenMoreTwice(a: map<nat, Found>, b: map<nat, Found>, c: map<nat, Found>)
    requires SeenMore(a, b) && SeenMore(b, c)
    ensures SeenMore(a, c)
  {
  }

  lemma SeenItself(a: map<nat, Found>)
    ensures SeenMore(a, a)
  {
  }

  lemma AllInMore(ls: seq<Link>, a: map<nat, Found>, b: map<nat, Found>)
    requires AllIn(ls, a) && SeenMore(a, b)
    ensures AllIn(ls, b)
  {
  }

  /** A node that is being read is not yet right, and does not have to be. */
  lemma SeenStart(dev: seq<byte>, bs: nat, p: Placing, seen: map<nat, Found>, open: set<nat>, k: nat, f: Found)
    requires SeenRight(dev, bs, p, seen, open) && k !in seen
    ensures SeenRight(dev, bs, p, seen[k := f], open + {k}) && SeenMore(seen, seen[k := f])
  {
    hide FoundIs;
    forall x | x in seen && x !in open && x != k
      ensures FoundAt(dev, bs, p, seen[k := f], x)
    {
      assert FoundAt(dev, bs, p, seen, x);
    }
  }

  lemma SeenDone(dev: seq<byte>, bs: nat, p: Placing, seen: map<nat, Found>, open: set<nat>, k: nat, n: nat, f: Found)
    requires SeenRight(dev, bs, p, seen, open + {k}) && k in seen
    requires n in p.at && n in p.ino && p.ino[n] == k && FoundIs(dev, bs, p, n, f) && KidsSeen(p, n, seen)
    ensures SeenRight(dev, bs, p, seen[k := f], open)
  {
    hide FoundIs;
    var seen' := seen[k := f];
    forall x | x in seen' && x !in open
      ensures FoundAt(dev, bs, p, seen', x)
    {
      if x == k {
        assert KidsSeen(p, n, seen');
      } else {
        assert FoundAt(dev, bs, p, seen, x);
        var m :| m in p.at && m in p.ino && p.ino[m] == x && FoundIs(dev, bs, p, m, seen[x]) && KidsSeen(p, m, seen);
        assert KidsSeen(p, m, seen');
      }
    }
  }

  lemma SeenAgain(seen0: map<nat, Found>, seen: map<nat, Found>, k: nat, f: Found, g: Found)
    requires k !in seen0 && SeenMore(seen0[k := f], seen)
    ensures SeenMore(seen0, seen[k := g])
  {
  }

  // ----- Links and devices.

  /** The blocks of a long target, up to its size. */
  method ReadBlocks(dev: File, bs: nat, blocks: seq<nat>, size: nat, ghost content: seq<byte>) returns (s: seq<byte>)
    requires bs > 0 && size == |content| && |blocks| == CeilDiv(size, bs)
    requires StoredUpTo(dev.data, bs, blocks, content, |blocks|)
    ensures s == content
  {
    hide StoredUpTo, CeilDiv, Slice;
    s := [];
    var left := size;
    for i := 0 to |blocks|
      invariant |s| == Lesser(i * bs, size) && left == size - |s| && s == content[..|s|]
    {
      var buf := dev.Read(blocks[i] * bs, bs);
      var n := Lesser(left, bs);
      StoredBlock(dev.data, bs, blocks, content, i);
      NextPiece(content, bs, i, buf, s, n);
      s := s + buf[..n];
      left := left - n;
    }
    CeilDivCovers(size, bs);
  }

  lemma NextPiece(content: seq<byte>, bs: nat, i: nat, buf: seq<byte>, s: seq<byte>, n: nat)
    requires bs > 0 && buf == Slice(content, i * bs, bs) && |s| == Lesser(i * bs, |content|) && s == content[..|s|]
    requires n == Lesser(|content| - |s|, bs)
    ensures |s| + n == Lesser((i + 1) * bs, |content|) && s + buf[..n] == content[..|s| + n]
  {
    assert (i + 1) * bs == i * bs + bs;
    if n > 0 {
      assert |s| == i * bs;
      assert forall j :: 0 <= j < n ==> buf[j] == content[i * bs + j];
    }
  }

  function FirstPointer(m: Map): nat {
    match m
    case Tree(root) => if |root| >= 4 then UnLE(root[..4]) else 0
    case Table(block) => if block == [] then 0 else block[0]
  }

  lemma TrimPadded(target: seq<byte>)
    requires |target| < FAST_SYMLINK_MAX
    ensures (target + Zeros(FAST_SYMLINK_MAX - |target|))[..|target|] == target
  {
  }

  class TreeReader {
    const dev: File
    const bs: nat
    const inodes: map<nat, DiskInode>
    var seen: map<nat, Found>

    constructor (dev: File, bs: nat, inodes: map<nat, DiskInode>)
      ensures this.dev == dev && this.bs == bs && this.inodes == inodes && seen == map[]
    {
      this.dev, this.bs, this.inodes, seen := dev, bs, inodes, map[];
    }

    /** The device holds the tree, and no directory loses an entry. */
    ghost predicate Reads(p: Placing)
      reads dev
    {
      TreeImage(dev.data, bs, inodes, p) && AllRead(p, bs) && 1024 <= bs <= TWO16
    }

    ghost function Left(): nat
      reads this`seen
    {
      |inodes.Keys - seen.Keys|
    }

    lemma NodeHere(p: Placing, n: nat)
      requires Reads(p) && n in p.at && n in p.ino
      ensures 1024 <= bs <= TWO16 && WellNumbered(p.t) && AllRead(p, bs)
      ensures n < |p.t| && p.ino[n] in inodes && p.at[n] < |p.on| && inodes[p.ino[n]].mode == p.t[n].mode
      ensures NodeOn(p.t, p.ino, n, bs, inodes[p.ino[n]], p.on[p.at[n]]) && Holds(dev.data, bs, p.on[p.at[n]])
    {
      hide TreeImage, AllRead, NodeOn, Holds, WellNumbered;
      NodeAt(dev.data, bs, inodes, p, n);
    }

    lemma KidHere(p: Placing, n: nat, e: Dentry) returns (m: nat)
      requires Reads(p) && n in p.at && n < |p.t| && EntryOk(p, n, e) && !IsDots(e)
      ensures m in p.at && m in p.ino && p.ino[m] == e.ino && ValidName(e.name)
    {
      hide TreeImage, AllRead, EntryOk;
      m := EntryKid(dev.data, bs, inodes, p, n, e);
    }

    /** readSymlink. */
    method ReadTarget(d: DiskInode, ghost p: Placing, ghost n: nat) returns (target: seq<byte>)
      requires bs >= 1024 && n < |p.t| && p.t[n].mode.kind == Symlink && n in p.at && p.at[n] < |p.on|
      requires NodeOn(p.t, p.ino, n, bs, d, p.on[p.at[n]]) && Holds(dev.data, bs, p.on[p.at[n]])
      ensures target == ShownTarget(p.t[n].target)
    {
      hide Mapped, StoredUpTo, AttrsHold, CeilDiv, ExtIndirect.SectorsOf, TrimRight;
      ghost var f := p.on[p.at[n]];
      if d.file.sectors <= EaSectors(d.file.attrs, bs) {
        TrimPadded(p.t[n].target);
        return TrimRight(d.raw[..Lesser(|d.raw|, d.size)]);
      }
      var blocks := BlockListOf(dev, bs, d.file, f.blocks, f.index);
      target := ReadBlocks(dev, bs, blocks, d.size, f.spec.content);
    }

    /** readNode. */
    method ReadNode(k: nat, ghost p: Placing, ghost n: nat, ghost open: set<nat>) returns (ok: bool)
      requires Reads(p) && n in p.at && n in p.ino && p.ino[n] == k && SeenRight(dev.data, bs, p, seen, open)
      modifies this`seen
      ensures ok && SeenMore(old(seen), seen) && k in seen && SeenRight(dev.data, bs, p, seen, open)
      decreases Left(), 0
    {
      hide SeenRight, SeenMore, FoundIs, NodeOn, Holds, AllRead, KidsSeen, LinksOf, Reads, WellNumbered, Mapped,
           CeilDiv, AttrsAt, EaSectors;
      SeenItself(seen);
      if k in seen {
        return true;
      }
      NodeHere(p, n);
      var d := inodes[k];
      var attrs := ReadXattrs(dev, bs, d.file.attrs);
      var found := Found(d.mode, attrs, 0, [], [], 0, []);
      ghost var seen0 := seen;
      SeenStart(dev.data, bs, p, seen, open, k, found);
      Fewer(inodes.Keys, seen.Keys, k);
      seen := seen[k := found];
      assert seen.Keys == seen0.Keys + {k};
      SeenItself(seen);
      ok := true;
      if d.mode.kind == Dir {
        var kids;
        ghost var seen1 := seen;
        ok, kids := ReadDirectory(d, p, n, open + {k});
        StillSeen(seen1, seen, k);
        if !ok {
          return;
        }
        found := found.(kids := kids);
      } else if d.mode.kind == Symlink {
        var target := ReadTarget(d, p, n);
        found := found.(target := target);
      } else if d.mode.kind == CharDevice || d.mode.kind == BlockDevice {
        found := found.(rdev := FirstPointer(d.file.map_));
      } else if d.mode.kind == Regular {
        ghost var f := p.on[p.at[n]];
        FileFacts(dev.data, bs, p, n, d, f);
        var blocks := BlockListOf(dev, bs, d.file, f.blocks, f.index);
        found := found.(size := d.size, blocks := blocks);
      }
      NodeFound(dev.data, bs, p, n, d, found);
      LeafSeen(p, n, seen);
      SeenDone(dev.data, bs, p, seen, open, k, n, found);
      SeenAgain(seen0, seen, k, Found(d.mode, attrs, 0, [], [], 0, []), found);
      seen := seen[k := found];
    }

    /** readDir. */
    method ReadDirectory(d: DiskInode, ghost p: Placing, ghost n: nat, ghost open: set<nat>)
        returns (ok: bool, kids: seq<Link>)
      requires Reads(p) && n in p.at && n in p.ino && n < |p.t| && p.t[n].IsDir() && p.at[n] < |p.on|
      requires NodeOn(p.t, p.ino, n, bs, d, p.on[p.at[n]]) && Holds(dev.data, bs, p.on[p.at[n]])
      requires SeenRight(dev.data, bs, p, seen, open)
      modifies this`seen
      ensures ok && SeenMore(old(seen), seen) && SeenRight(dev.data, bs, p, seen, open)
      ensures LinksOf(p.t, p.ino, n, kids) && KidsSeen(p, n, seen)
      decreases Left(), 5
    {
      hide SeenRight, SeenMore, AllRead, KidsSeen, LinksOf, Reads, NodeOn, Holds, WellNumbered, ParseAll, Parse,
           Dentries, AllOk, AllIn, Shown, IsDirectory, Mapped, CeilDiv;
      ghost var f := p.on[p.at[n]];
      NodeHere(p, n);
      DirectoryFacts(p, n, bs, d, f);
      ghost var parent := DirectoryReads(dev.data, bs, p, n, f);
      FileFacts(dev.data, bs, p, n, d, f);
      var blocks := BlockListOf(dev, bs, d.file, f.blocks, f.index);
      EntriesOk(p, n, parent);
      ok, kids := ReadDirBlocks(blocks, p, n, open);
      if !ok {
        return;
      }
      AllShown(p, n, parent, kids);
      KidsAreSeen(p, n, kids, seen);
    }

    /** The blocks of a directory. */
    method ReadDirBlocks(blocks: seq<nat>, ghost p: Placing, ghost n: nat, ghost open: set<nat>)
        returns (ok: bool, kids: seq<Link>)
      requires Reads(p) && n in p.at && n < |p.t| && SeenRight(dev.data, bs, p, seen, open)
      requires AllOk(p, n, ParseAll(Buffers(dev.data, bs, blocks)))
      modifies this`seen
      ensures ok && SeenMore(old(seen), seen) && SeenRight(dev.data, bs, p, seen, open)
      ensures kids == Shown(ParseAll(Buffers(dev.data, bs, blocks))) && AllIn(kids, seen)
      decreases Left(), 4
    {
      hide SeenRight, SeenMore, Reads, ParseAll, AllOk, AllIn, Shown, Buffers;
      ghost var bufs := Buffers(dev.data, bs, blocks);
      kids := [];
      ok := true;
      SeenItself(seen);
      NothingRead(bufs, seen);
      for i := 0 to |blocks|
        invariant ok && SeenMore(old(seen), seen) && SeenRight(dev.data, bs, p, seen, open)
        invariant kids == Shown(ParseAll(bufs[..i])) && AllIn(kids, seen) && Left() <= old(Left())
      {
        ghost var seen1 := seen;
        ok, kids := ReadDirBlock(blocks, i, kids, p, n, open);
        SeenMoreTwice(old(seen), seen1, seen);
        if !ok {
          return;
        }
      }
      assert bufs[..|blocks|] == bufs;
    }

    method ReadDirBlock(blocks: seq<nat>, i: nat, kids0: seq<Link>, ghost p: Placing, ghost n: nat,
            ghost open: set<nat>)
        returns (ok: bool, kids: seq<Link>)
      requires Reads(p) && n in p.at && n < |p.t| && SeenRight(dev.data, bs, p, seen, open)
      requires i < |blocks| && AllOk(p, n, ParseAll(Buffers(dev.data, bs, blocks)))
      requires kids0 == Shown(ParseAll(Buffers(dev.data, bs, blocks)[..i])) && AllIn(kids0, seen)
      modifies this`seen
      ensures ok && SeenMore(old(seen), seen) && SeenRight(dev.data, bs, p, seen, open) && Left() <= old(Left())
      ensures kids == Shown(ParseAll(Buffers(dev.data, bs, blocks)[..i + 1])) && AllIn(kids, seen)
      decreases Left(), 3
    {
      hide SeenRight, SeenMore, Reads, ParseAll, Parse, AllOk, AllIn, Shown, BlockAt, Slice, Buffers;
      ghost var bufs := Buffers(dev.data, bs, blocks);
      var buf := dev.Read(blocks[i] * bs, bs);
      BufferAt(dev.data, bs, blocks, i);
      var entries := ParseDirBlock(buf);
      ParseOneMore(bufs, i);
      PartOk(p, n, ParseAll(bufs), entries);
      ShownJoin(ParseAll(bufs[..i]), entries);
      ok, kids := ReadEntries(entries, kids0, p, n, open);
    }

    /** The entries of a block. */
    method ReadEntries(entries: seq<Dentry>, kids0: seq<Link>, ghost p: Placing, ghost n: nat, ghost open: set<nat>)
        returns (ok: bool, kids: seq<Link>)
      requires Reads(p) && n in p.at && n < |p.t| && SeenRight(dev.data, bs, p, seen, open)
      requires AllOk(p, n, entries)
      requires AllIn(kids0, seen)
      modifies this`seen
      ensures ok && SeenMore(old(seen), seen) && SeenRight(dev.data, bs, p, seen, open) && Left() <= old(Left())
      ensures kids == kids0 + Shown(entries) && AllIn(kids, seen)
      decreases Left(), 2
    {
      hide SeenRight, SeenMore, Reads, Shown, EntryOk, AllIn, IsDots, AllOk, TreeReader.Left, GotLinks;
      kids := kids0;
      ok := true;
      SeenItself(seen);
      NoLinks(kids0, entries);
      for j := 0 to |entries|
        invariant ok && SeenMore(old(seen), seen) && SeenRight(dev.data, bs, p, seen, open)
        invariant GotLinks(kids0, entries, j, kids) && AllIn(kids, seen) && Left() <= old(Left())
      {
        OkAt(p, n, entries, j);
        ghost var seen1, kids1 := seen, kids;
        ok, kids := ReadEntry(entries[j], kids, p, n, open);
        SeenMoreTwice(old(seen), seen1, seen);
        OneMoreLink(kids0, entries, j, kids1, kids);
        if !ok {
          return;
        }
      }
      AllLinks(kids0, entries, kids);
    }

    method ReadEntry(e: Dentry, kids0: seq<Link>, ghost p: Placing, ghost n: nat, ghost open: set<nat>)
        returns (ok: bool, kids: seq<Link>)
      requires Reads(p) && n in p.at && n < |p.t| && SeenRight(dev.data, bs, p, seen, open)
      requires EntryOk(p, n, e) && AllIn(kids0, seen)
      modifies this`seen
      ensures ok && SeenMore(old(seen), seen) && SeenRight(dev.data, bs, p, seen, open) && Left() <= old(Left())
      ensures kids == kids0 + (if IsDots(e) then [] else [Link(e.name, e.ino)]) && AllIn(kids, seen)
      decreases Left(), 1
    {
      hide SeenRight, SeenMore, Reads, EntryOk, AllIn, ValidName;
      SeenItself(seen);
      if IsDots(e) {
        return true, kids0;
      }
      ghost var m := KidHere(p, n, e);
      ghost var seen1 := seen;
      ok := ReadNode(e.ino, p, m, open);
      AllInMore(kids0, seen1, seen);
      NoMoreLeft(inodes.Keys, seen1, seen);
      if !ok || !ValidName(e.name) {
        return false, kids0;
      }
      OneMoreIn(kids0, e, seen);
      return true, kids0 + [Link(e.name, e.ino)];
    }
  }

  lemma BufferAt(dev: seq<byte>, bs: nat, blocks: seq<nat>, i: nat)
    requires i < |blocks|
    ensures Buffers(dev, bs, blocks)[i] == Slice(dev, blocks[i] * bs, bs)
  {
  }

  lemma Fewer(all: set<nat>, seen: set<nat>, k: nat)
    requires k in all && k !in seen
    ensures |all - (seen + {k})| < |all - seen|
  {
    assert all - seen == (all - (seen + {k})) + {k};
  }

  lemma NoMoreLeft(all: set<nat>, a: map<nat, Found>, b: map<nat, Found>)
    requires SeenMore(a, b)
    ensures |all - b.Keys| <= |all - a.Keys|
  {
    FewerThan(all - b.Keys, all - a.Keys);
  }

  lemma OneMoreIn(ls: seq<Link>, e: Dentry, seen: map<nat, Found>)
    requires AllIn(ls, seen) && e.ino in seen
    ensures AllIn(ls + [Link(e.name, e.ino)], seen)
  {
  }

  lemma NothingRead(bufs: seq<seq<byte>>, seen: map<nat, Found>)
    ensures Shown(ParseAll(bufs[..0])) == [] && AllIn([], seen)
  {
    assert bufs[..0] == [];
  }

  /** What the image holds of a node. */
  lemma NodeAt(dev: seq<byte>, bs: nat, inodes: map<nat, DiskInode>, p: Placing, n: nat)
    requires TreeImage(dev, bs, inodes, p) && n in p.at && n in p.ino
    ensures n < |p.t| && p.ino[n] in inodes && p.at[n] < |p.on|
    ensures NodeOn(p.t, p.ino, n, bs, inodes[p.ino[n]], p.on[p.at[n]]) && Holds(dev, bs, p.on[p.at[n]])
    ensures inodes[p.ino[n]].mode == p.t[n].mode && WellNumbered(p.t)
  {
    hide ExtFiles.Holds, WellNumbered;
    assert NodeIsOn(p.t, p.ino, bs, n, inodes, p.on, p.at[n]);
  }

  lemma FileFacts(dev: seq<byte>, bs: nat, p: Placing, n: nat, d: DiskInode, f: FileOn)
    requires NodeOn(p.t, p.ino, n, bs, d, f) && Holds(dev, bs, f) && n < |p.t|
    ensures Mapped(dev, bs, d.file.map_, f.blocks, f.index) && |f.blocks| == CeilDiv(d.file.size, bs)
  {
    hide Mapped, StoredUpTo, AttrsHold, CeilDiv, ExtIndirect.SectorsOf;
  }

  lemma DirectoryFacts(p: Placing, n: nat, bs: nat, d: DiskInode, f: FileOn)
    requires n < |p.t| && p.t[n].IsDir() && NodeOn(p.t, p.ino, n, bs, d, f)
    ensures IsDirectory(p.t, p.ino, n, bs, f.spec.content)
  {
    hide IsDirectory;
  }

  lemma StillSeen(a: map<nat, Found>, b: map<nat, Found>, k: nat)
    requires SeenMore(a, b) && k in a
    ensures k in b
  {
  }

  lemma LeafSeen(p: Placing, n: nat, seen: map<nat, Found>)
    requires WellNumbered(p.t) && n < |p.t|
    ensures !p.t[n].IsDir() ==> KidsSeen(p, n, seen)
  {
    if !p.t[n].IsDir() {
      LeafHasNone(p.t, n);
    }
  }

  lemma AllShown(p: Placing, n: nat, parent: nat, kids: seq<Link>)
    requires WellNumbered(p.t) && Numbered(p.t, p.ino, n) && kids == Shown(Dentries(p.t, p.ino, n, parent))
    ensures LinksOf(p.t, p.ino, n, kids)
  {
    hide WellNumbered;
    SortedElements(p.t[n].kids.Keys);
    ShownKids(p.t, p.ino, n, Sorted(p.t[n].kids.Keys), p.ino[n], parent);
  }

  /** The node an entry names. */
  lemma EntryKid(dev: seq<byte>, bs: nat, inodes: map<nat, DiskInode>, p: Placing, n: nat, e: Dentry) returns (m: nat)
    requires TreeImage(dev, bs, inodes, p) && n in p.at && n < |p.t| && EntryOk(p, n, e) && !IsDots(e)
    ensures m in p.at && m in p.ino && p.ino[m] == e.ino && ValidName(e.name)
  {
    hide NodesOn, AllHold, WellNumbered;
    m := p.t[n].kids[e.name];
    assert KidsIn(p.t, n, p.at.Keys);
    KidIsGood(p.t, n, e.name);
  }

  /** What was read of a node is what the tree has. */
  lemma NodeFound(dev: seq<byte>, bs: nat, p: Placing, n: nat, d: DiskInode, f: Found)
    requires n in p.at && n < |p.t| && p.at[n] < |p.on| && bs > 0
    requires NodeOn(p.t, p.ino, n, bs, d, p.on[p.at[n]]) && Holds(dev, bs, p.on[p.at[n]])
    requires f.mode == d.mode && f.attrs == AttrsAt(dev, bs, d.file.attrs)
    requires d.mode.kind == Dir ==> LinksOf(p.t, p.ino, n, f.kids)
    requires d.mode.kind == Symlink ==> f.target == ShownTarget(p.t[n].target)
    requires d.mode.kind in {CharDevice, BlockDevice} ==> f.rdev == FirstPointer(d.file.map_)
    requires d.mode.kind == Regular ==> f.size == d.size && f.blocks == p.on[p.at[n]].blocks
    ensures FoundIs(dev, bs, p, n, f)
  {
    hide Mapped, StoredUpTo, AttrsAt, CeilDiv, ExtIndirect.SectorsOf, LinksOf;
  }

  // ----- The whole.

  ghost function NodesSeen(p: Placing, seen: map<nat, Found>): set<nat> {
    set n | n in p.ino && p.ino[n] in seen
  }

  /** The tree is there, node for node: everything below the root was found as it was, under one number for each
      node, and nothing else. */
  ghost predicate Mirrors(dev: seq<byte>, bs: nat, p: Placing, seen: map<nat, Found>) {
    && WellNumbered(p.t)
    && (forall a, b :: a in p.ino && b in p.ino && a != b ==> p.ino[a] != p.ino[b])
    && ROOT in p.ino && p.ino[ROOT] == ROOT_INO && ROOT_INO in seen
    && HoldsBelow(p.t, NodesSeen(p, seen), ROOT)
    && (forall n :: n in p.ino && p.ino[n] in seen ==> FoundIs(dev, bs, p, n, seen[p.ino[n]]))
    && (forall x :: x in seen ==> exists n :: n in p.ino && p.ino[n] == x)
  }

  lemma AllMirrored(dev: seq<byte>, bs: nat, p: Placing, inodes: map<nat, DiskInode>, seen: map<nat, Found>)
    requires TreeImage(dev, bs, inodes, p) && SeenRight(dev, bs, p, seen, {}) && ROOT_INO in seen
    ensures Mirrors(dev, bs, p, seen)
  {
    hide WellNumbered, NodesOn, AllHold, FoundIs;
    var all := NodesSeen(p, seen);
    forall n | n in all
      ensures FoundIs(dev, bs, p, n, seen[p.ino[n]]) && (n < |p.t| ==> KidsIn(p.t, n, all))
    {
      assert FoundAt(dev, bs, p, seen, p.ino[n]);
    }
    forall x | x in seen
      ensures exists n :: n in p.ino && p.ino[n] == x
    {
      assert FoundAt(dev, bs, p, seen, x);
    }
    NotEmpty(p.t);
    ClosedHoldsBelow(p.t, all, ROOT);
  }

  /** Open, on an image of a tree. */
  method OpenTree(dev: File, bs: nat, inodes: map<nat, DiskInode>, ghost p: Placing) returns (r: TreeReader)
    requires TreeImage(dev.data, bs, inodes, p) && AllRead(p, bs) && 1024 <= bs <= TWO16
    ensures r.dev == dev && r.bs == bs && Mirrors(dev.data, bs, p, r.seen)
  {
    hide WellNumbered, NodesOn, AllHold, AllRead, Mirrors;
    r := new TreeReader(dev, bs, inodes);
    var ok := r.ReadNode(ROOT_INO, p, ROOT, {});
    AllMirrored(dev.data, bs, p, inodes, r.seen);
  }

  /** Format a device with a tree and open it: the same tree, with lost+found in its root. */
  method FormatThenOpen(dev: File, devSize: nat, blockSize: nat, inodeSize: nat, useExtents: bool, tree: Tree,
          hashes: Hashes)
      returns (r: TreeOutcome, seen: map<nat, Found>, ghost g: ExtGeometry.Geometry, ghost owner: map<nat, Owner>,
              ghost p: Placing)
    requires inodeSize in {0, 128, 256} && devSize <= ExtGeometry.TIB && WellNumbered(tree)
    requires blockSize < TWO16 && DirsFit(WithLostFound(tree), if blockSize == 0 then 1024 else blockSize)
    modifies dev
    ensures p.t == WithLostFound(tree)
    ensures r.TreeWritten? ==> Mirrors(dev.data, g.blockSize, p, seen) && DirectoriesTell(dev.data, g.blockSize, p)
    ensures r.TreeBadGeometry? ==> ExtGeometry.Refused(r.error, devSize, blockSize, inodeSize)
    ensures !r.TreeBadGeometry? ==>
      && AllNumbers(p.t, p.ino)
      && (r.TooManyInodes? <==> |p.ino| + 9 > g.inodesCount)
    ensures r.TreeFailed? ==> g.blockSize > 0 && TreeExplained(p.t, p.ino, r.reason, g, useExtents, owner.Keys)
  {
    hide WellNumbered, TreeImage, CountsRight, DirsFit, Mirrors, AllRead, WithLostFound, AllNumbers, DirectoriesTell,
         TreeExplained, ExtGeometry.Refused;
    r, g, owner, p := FormatTree(dev, devSize, blockSize, inodeSize, useExtents, tree, hashes);
    seen := map[];
    if r.TreeWritten? {
      SmallBlocksRead(p, g.blockSize);
      AllTell(dev.data, g.blockSize, r.inodes, p);
      var t := OpenTree(dev, if blockSize == 0 then 1024 else blockSize, r.inodes, p);
      seen := t.seen;
    }
  }
}
