/** pkg/oci/layer.go and diff.go: layer entries as tar records, and the diff that writes them. */
module OciLayer {
  import opened Sizes
  import opened Modes
  import opened Names
  import opened OciTrees
  import Words

  datatype TarType = TypeReg | TypeDir | TypeSymlink | TypeChar | TypeBlock | TypeFifo

  /** A tar header with its extended attributes and the bytes that follow it. */
  datatype Record = Record(
    name: string, typ: TarType, mode: nat, uid: nat, gid: nat, xattrs: map<string, seq<nat>>,
    linkname: string, major: nat, minor: nat, body: seq<nat>)

  // ----- Writing: one record per item, its path below prefix spelt out.

  function TypeOf(kind: Kind): TarType {
    match kind
    case Dir => TypeDir
    case Symlink => TypeSymlink
    case CharDevice => TypeChar
    case BlockDevice => TypeBlock
    case Fifo => TypeFifo
    case Regular => TypeReg
    case Socket => TypeReg
  }

  function WhiteoutRecord(name: string): Record {
    Record(name, TypeReg, 0, 0, 0, map[], "", 0, 0, [])
  }

  function Rendered(prefix: seq<string>, i: Item): Record
    requires i.path != [] && !i.payload.Opaque?
  {
    var path := prefix + i.path;
    var dir, base := path[..|path| - 1], path[|path| - 1];
    match i.payload
    case Whiteout => WhiteoutRecord(Join(dir + [WHITEOUT + base]))
    case Entry(kind, perm, special, uid, gid, xattrs, link, rdev, body) =>
      Record(Join(path) + if kind == Dir then "/" else "", TypeOf(kind), perm, uid, gid, xattrs, link,
             rdev / 256, rdev % 256, body)
  }

  function RenderedAll(prefix: seq<string>, items: seq<Item>): (r: seq<Record>)
    requires Writable(items)
    ensures |r| == |items|
  {
    if items == [] then []
    else
      assert items[0] in items;
      [Rendered(prefix, items[0])] + RenderedAll(prefix, items[1..])
  }

  lemma {:induction false} RenderedAppend(prefix: seq<string>, a: seq<Item>, b: seq<Item>)
    requires Writable(a) && Writable(b)
    ensures Writable(a + b)
    ensures RenderedAll(prefix, a + b) == RenderedAll(prefix, a) + RenderedAll(prefix, b)
    decreases |a|
  {
    hide Rendered;
    if a == [] {
      assert a + b == b;
    } else {
      assert a[0] in a;
      RenderedAppend(prefix, a[1..], b);
      assert (a + b)[1..] == a[1..] + b;
    }
  }

  lemma {:induction false} RenderedUnder(prefix: seq<string>, x: string, items: seq<Item>)
    requires Writable(items)
    ensures Writable(Under(x, items))
    ensures RenderedAll(prefix, Under(x, items)) == RenderedAll(prefix + [x], items)
    decreases |items|
  {
    hide Rendered;
    if items != [] {
      assert items[0] in items;
      assert Under(x, items)[0] == Item([x] + items[0].path, items[0].payload);
      RenderedLonger(prefix, x, items[0]);
      RenderedUnder(prefix, x, items[1..]);
      assert Under(x, items)[1..] == Under(x, items[1..]);
    }
  }

  lemma RenderedLonger(prefix: seq<string>, x: string, i: Item)
    requires i.path != [] && !i.payload.Opaque?
    ensures Rendered(prefix, Item([x] + i.path, i.payload)) == Rendered(prefix + [x], i)
  {
    assert prefix + ([x] + i.path) == prefix + [x] + i.path;
  }

  class TarWriter {
    var entries: seq<Record>

    constructor ()
      ensures entries == []
    {
      entries := [];
    }

    method WriteHeader(r: Record)
      modifies this
      ensures entries == old(entries) + [r]
    {
      entries := entries + [r];
    }
  }

  /** path.Join of a clean path, or nothing, and a file name. */
  function PathJoin(prefix: string, name: string): string {
    if prefix == "" then name else prefix + "/" + name
  }

  lemma PathJoinIsJoin(prefix: seq<string>, x: string)
    requires ValidPath(prefix)
    ensures PathJoin(Join(prefix), x) == Join(prefix + [x])
  {
    hide Join;
    JoinMore(prefix, x);
    if prefix != [] {
      SplitJoin(prefix);
    } else {
      JoinOfNothing();
    }
  }

  lemma JoinOfNothing()
    ensures Join([]) == ""
  {
  }

  /** The record says of n what a tar header can: devices by major and minor number, a body for files and sockets. */
  predicate Describes(r: Record, n: Tree, name: string) {
    var k := n.meta.mode.kind;
    && r.name == (if k == Dir then name + "/" else name)
    && r.mode == n.meta.mode.perm && r.uid == n.meta.uid && r.gid == n.meta.gid && r.xattrs == n.meta.xattrs
    && (r.typ == TypeDir <==> k == Dir) && (r.typ == TypeSymlink <==> k == Symlink)
    && (r.typ == TypeChar <==> k == CharDevice) && (r.typ == TypeBlock <==> k == BlockDevice)
    && (r.typ == TypeFifo <==> k == Fifo) && (r.typ == TypeReg <==> k == Regular || k == Socket)
    && r.linkname == (if k == Symlink then n.link else "")
    && 256 * r.major + r.minor == (if k == CharDevice || k == BlockDevice then n.rdev else 0) && r.minor < 256
    && r.body == (if k == Regular || k == Socket then n.content else [])
  }

  lemma EntryDescribes(prefix: seq<string>, n: Tree, x: string)
    ensures Describes(Rendered(prefix, Item([x], EntryOf(n))), n, Join(prefix + [x]))
  {
    hide Join;
    assert Join(prefix + [x]) + "" == Join(prefix + [x]);
  }

  /** A whiteout is an empty file next to the file it hides. */
  lemma WhiteoutDescribes(prefix: seq<string>, base: string)
    requires ValidPath(prefix)
    ensures var r := Rendered(prefix, Item([base], Whiteout));
      && r.name == (if prefix == [] then ".wh." + base else Join(prefix) + "/" + ".wh." + base)
      && r.typ == TypeReg && r.body == []
  {
    hide Join;
    JoinMore(prefix, ".wh." + base);
    assert (prefix + [base])[..|prefix|] == prefix;
    assert "/" + ".wh." + base == "/" + (".wh." + base);
  }

  /** One node at name; prefix and x are the components of name. */
  method WriteEntry(tw: TarWriter, n: Tree, name: string, ghost prefix: seq<string>, ghost x: string)
    requires name == Join(prefix + [x])
    modifies tw
    ensures tw.entries == old(tw.entries) + [Rendered(prefix, Item([x], EntryOf(n)))]
  {
    var hdr := Record(name, TypeReg, n.meta.mode.perm, n.meta.uid, n.meta.gid, n.meta.xattrs, "", 0, 0, []);
    match n.meta.mode.kind {
      case Dir => hdr := hdr.(typ := TypeDir, name := name + "/");
      case Symlink => hdr := hdr.(typ := TypeSymlink, linkname := n.link);
      case CharDevice => hdr := hdr.(typ := TypeChar, major := n.rdev / 256, minor := n.rdev % 256);
      case BlockDevice => hdr := hdr.(typ := TypeBlock, major := n.rdev / 256, minor := n.rdev % 256);
      case Fifo => hdr := hdr.(typ := TypeFifo);
      case Regular => hdr := hdr.(body := n.content);
      case Socket => hdr := hdr.(body := n.content);
    }
    assert name + "" == name;
    tw.WriteHeader(hdr);
  }

  method WriteWhiteout(tw: TarWriter, dir: string, base: string, ghost prefix: seq<string>)
    requires dir == Join(prefix) && ValidPath(prefix)
    modifies tw
    ensures tw.entries == old(tw.entries) + [Rendered(prefix, Item([base], Whiteout))]
  {
    PathJoinIsJoin(prefix, WHITEOUT + base);
    assert (prefix + [base])[..|prefix|] == prefix;
    tw.WriteHeader(WhiteoutRecord(PathJoin(dir, WHITEOUT + base)));
  }

  /** n and, when it is a directory, everything below it. */
  method WriteSubtree(tw: TarWriter, n: Tree, name: string, ghost prefix: seq<string>, ghost x: string)
    requires name == Join(prefix + [x]) && ValidPath(prefix + [x]) && WellFormed(n)
    modifies tw
    ensures tw.entries == old(tw.entries) + RenderedAll(prefix, Subtree(n, x))
    decreases n
  {
    hide Rendered, RenderedAll, Join, EntryOf, ValidName, Subtree, SubtreeKids, Lists, Under;
    ghost var was := tw.entries;
    WriteEntry(tw, n, name, prefix, x);
    RenderedOne(prefix, Item([x], EntryOf(n)));
    SubtreeIs(n, x);
    if n.meta.mode.kind == Dir {
      var names := SortNames(n.kids.Keys);
      SortedElements(n.kids.Keys);
      assert names[0..] == names;
      ghost var below := SubtreeKids(n, names);
      RenderedAppend(prefix, [Item([x], EntryOf(n))], Under(x, below));
      RenderedUnder(prefix, x, below);
      for k := 0 to |names|
        invariant was + RenderedAll(prefix, Subtree(n, x)) ==
                  tw.entries + RenderedAll(prefix + [x], SubtreeKids(n, names[k..]))
      {
        SubtreeKidsStep(n, names, k);
        PathJoinIsJoin(prefix + [x], names[k]);
        RenderedAppend(prefix + [x], Subtree(n.kids[names[k]], names[k]), SubtreeKids(n, names[k + 1..]));
        WriteSubtree(tw, n.kids[names[k]], PathJoin(name, names[k]), prefix + [x], names[k]);
      }
      NothingBelow(n, n);
      RenderedNone(prefix + [x]);
    }
  }

  lemma RenderedOne(prefix: seq<string>, i: Item)
    requires i.path != [] && !i.payload.Opaque?
    ensures RenderedAll(prefix, [i]) == [Rendered(prefix, i)]
  {
    assert RenderedAll(prefix, [i][1..]) == [];
  }

  lemma RenderedNone(prefix: seq<string>)
    ensures RenderedAll(prefix, []) == []
  {
  }

  /** The entries that turn directory o into directory n; prefix is their path. */
  method DiffDir(tw: TarWriter, o: Tree, n: Tree, prefix: string, ghost path: seq<string>)
    requires prefix == Join(path) && ValidPath(path) && WellFormed(o) && WellFormed(n)
    modifies tw
    ensures tw.entries == old(tw.entries) + RenderedAll(path, Diff(o, n))
    decreases n
  {
    hide Rendered, RenderedAll, Join, ValidName, ValidPath, WellFormed, Diff, DiffName, DiffNames, Lists, Sorted;
    ghost var was := tw.entries;
    var names := SortNames(o.kids.Keys + n.kids.Keys);
    SortedElements(o.kids.Keys + n.kids.Keys);
    DiffIs(o, n);
    assert forall x :: x in names ==> x in o.kids || x in n.kids;
    assert names[0..] == names;
    for k := 0 to |names|
      invariant was + RenderedAll(path, Diff(o, n)) == tw.entries + RenderedAll(path, DiffNames(o, n, names[k..]))
    {
      DiffNamesStep(o, n, names, k);
      RenderedAppend(path, DiffName(o, n, names[k]), DiffNames(o, n, names[k + 1..]));
      ghost var before := tw.entries;
      DiffOne(tw, o, n, names[k], prefix, path);
      Shifted(before, RenderedAll(path, DiffName(o, n, names[k])), RenderedAll(path, DiffNames(o, n, names[k + 1..])));
    }
    NothingBelow(o, n);
    RenderedNone(path);
  }

  lemma Shifted<T>(a: seq<T>, b: seq<T>, c: seq<T>)
    ensures a + (b + c) == a + b + c
  {
  }

  /** The switch on one name of the union. */
  method DiffOne(tw: TarWriter, o: Tree, n: Tree, x: string, prefix: string, ghost path: seq<string>)
    requires prefix == Join(path) && ValidPath(path) && WellFormed(o) && WellFormed(n)
    requires x in o.kids || x in n.kids
    modifies tw
    ensures tw.entries == old(tw.entries) + RenderedAll(path, DiffName(o, n, x))
    decreases n, 0
  {
    hide Rendered, RenderedAll, Join, ValidName, Changed, EntryOf, Diff, Subtree, Under;
    var full := PathJoin(prefix, x);
    PathJoinIsJoin(path, x);
    if x !in n.kids {
      RenderedOne(path, Item([x], Whiteout));
      WriteWhiteout(tw, prefix, x, path);
    } else if x !in o.kids {
      WriteSubtree(tw, n.kids[x], full, path, x);
    } else if o.kids[x].IsDir() && n.kids[x].IsDir() {
      ghost var was := tw.entries;
      ghost var head := if Changed(o.kids[x], n.kids[x]) then [Item([x], EntryOf(n.kids[x]))] else [];
      RenderedAppend(path, head, Under(x, Diff(o.kids[x], n.kids[x])));
      RenderedUnder(path, x, Diff(o.kids[x], n.kids[x]));
      RenderedNone(path);
      if Changed(o.kids[x], n.kids[x]) {
        RenderedOne(path, head[0]);
        WriteEntry(tw, n.kids[x], full, path, x);
      }
      assert tw.entries == was + RenderedAll(path, head);
      DiffDir(tw, o.kids[x], n.kids[x], full, path + [x]);
    } else if Changed(o.kids[x], n.kids[x]) {
      WriteSubtree(tw, n.kids[x], full, path, x);
    } else {
      RenderedNone(path);
    }
  }

  // ----- Reading: what the applier makes of a record.

  datatype Parsed = Skip | BadName | Apply(item: Item)

  function TrimDotSlash(s: string): string {
    if HasPrefix(s, "./") then s[2..] else s
  }

  function KindOf(typ: TarType): Kind {
    match typ
    case TypeDir => Dir
    case TypeSymlink => Symlink
    case TypeChar => CharDevice
    case TypeBlock => BlockDevice
    case TypeFifo => Fifo
    case TypeReg => Regular
  }

  /** uint64(major)<<8 | uint64(minor) */
  function DeviceOf(major: nat, minor: nat): nat {
    Words.Or(major % TWO56 * 256, minor, Words.WIDTH)
  }

  function PayloadOf(r: Record): (p: Payload)
    ensures p.Entry?
  {
    var kind := KindOf(r.typ);
    var rdev := DeviceOf(r.major, r.minor);
    Entry(kind, r.mode % 512, r.mode / 512 % 8, r.uid, r.gid, r.xattrs,
          if kind == Symlink then r.linkname else "",
          if (kind == CharDevice || kind == BlockDevice) && rdev < TWO64 then rdev else 0,
          if kind == Regular then r.body else [])
  }

  function Parse(r: Record): (p: Parsed)
    ensures p.Apply? ==> p.item.path != []
  {
    var path := Components(TrimDotSlash(r.name));
    if path == [] then Skip
    else if exists c :: c in path && !ValidName(c) then BadName
    else
      var dir, base := path[..|path| - 1], path[|path| - 1];
      if base == WHITEOUT_OPAQUE then Apply(Item(path, Opaque))
      else if HasPrefix(base, WHITEOUT) then Apply(Item(dir + [base[|WHITEOUT|..]], Whiteout))
      else Apply(Item(path, PayloadOf(r)))
  }

  lemma DeviceNumbers(rdev: Device)
    ensures DeviceOf(rdev / 256, rdev % 256) == rdev
  {
    hide Words.Or, Pow2;
    Words.AllOnesValue();
    Words.OrOfHigh(256, rdev / 256, rdev % 256, Words.WIDTH);
  }

  ghost predicate FilePath(path: seq<string>) {
    path != [] && forall p :: p in path ==> FileName(p)
  }

  /** An entry the writer emits. */
  predicate Emitted(p: Payload) {
    match p
    case Whiteout => true
    case Opaque => false
    case Entry(kind, perm, special, uid, gid, xattrs, link, rdev, body) =>
      && special == 0 && kind != Socket
      && (kind != Symlink ==> link == "")
      && (kind != CharDevice && kind != BlockDevice ==> rdev == 0)
      && (kind != Regular ==> body == [])
  }

  /** The fields of a record give its payload back. */
  lemma PayloadRendered(prefix: seq<string>, i: Item)
    requires i.path != [] && i.payload.Entry? && Emitted(i.payload)
    ensures PayloadOf(Rendered(prefix, i)) == i.payload
  {
    hide Join, DeviceOf;
    DeviceNumbers(i.payload.rdev);
  }

  /** A record names its item: reading what was written for a path of file names gives it back. */
  lemma ParseRendered(prefix: seq<string>, i: Item)
    requires i.path != [] && FilePath(prefix + i.path) && Emitted(i.payload)
    ensures Parse(Rendered(prefix, i)) == Apply(Item(prefix + i.path, i.payload))
  {
    hide Components, Join, DeviceOf, TrimDotSlash, HasPrefix, FileName, ValidName, PayloadOf;
    var path := prefix + i.path;
    var dir, base := path[..|path| - 1], path[|path| - 1];
    assert dir + [base] == path;
    match i.payload {
      case Whiteout => HiddenPath(path);
      case Entry(kind, perm, special, uid, gid, xattrs, link, rdev, body) =>
        PlainPath(path, if kind == Dir then "/" else "");
        PayloadRendered(prefix, i);
    }
  }

  /** The path of an ordinary entry is read back and is no whiteout. */
  lemma PlainPath(path: seq<string>, tail: string)
    requires FilePath(path) && (tail == "" || tail == "/")
    ensures Components(TrimDotSlash(Join(path) + tail)) == path
    ensures forall c :: c in path ==> ValidName(c)
    ensures path[|path| - 1] != WHITEOUT_OPAQUE && !HasPrefix(path[|path| - 1], WHITEOUT)
  {
    hide Components, Join, TrimDotSlash;
    assert path[|path| - 1] in path;
    assert HasPrefix(WHITEOUT_OPAQUE, WHITEOUT);
    NoDotSlash(path, tail);
    ComponentsOfJoin(path);
    assert Join(path) + "" == Join(path);
  }

  /** The path of a whiteout is read back, and its last component names the file. */
  lemma HiddenPath(path: seq<string>)
    requires FilePath(path)
    ensures var shown := path[..|path| - 1] + [WHITEOUT + path[|path| - 1]];
      && Components(TrimDotSlash(Join(shown))) == shown
      && (forall c :: c in shown ==> ValidName(c))
    ensures WHITEOUT + path[|path| - 1] != WHITEOUT_OPAQUE && HasPrefix(WHITEOUT + path[|path| - 1], WHITEOUT)
    ensures (WHITEOUT + path[|path| - 1])[|WHITEOUT|..] == path[|path| - 1]
  {
    hide Components, Join, TrimDotSlash;
    var dir, base := path[..|path| - 1], path[|path| - 1];
    var shown := dir + [WHITEOUT + base];
    assert base in path;
    HiddenName(base);
    forall p | p in shown
      ensures ValidName(p)
    {
      assert p in dir ==> p in path;
    }
    NoDotSlash(shown, "");
    ComponentsOfJoin(shown);
    assert Join(shown) + "" == Join(shown);
  }

  /** A whiteout of a file name is recognised as one and names the file again. */
  lemma HiddenName(base: string)
    requires FileName(base)
    ensures ValidName(WHITEOUT + base) && WHITEOUT + base != WHITEOUT_OPAQUE
    ensures HasPrefix(WHITEOUT + base, WHITEOUT) && (WHITEOUT + base)[|WHITEOUT|..] == base
  {
    assert WHITEOUT_OPAQUE[|WHITEOUT|..] == ".wh..opq";
    assert HasPrefix(".wh..opq", WHITEOUT);
  }

  /** A joined path of valid names never starts with "./". */
  lemma NoDotSlash(path: seq<string>, tail: string)
    requires path != [] && ValidPath(path) && (tail == "" || tail == "/")
    ensures TrimDotSlash(Join(path) + tail) == Join(path) + tail
  {
    var a := path[0];
    assert a in path;
    assert Join(path)[..|a|] == a;
    var s := Join(path) + tail;
    assert s[0] == a[0] && (|a| > 1 ==> s[1] == a[1]);
    assert a == "." <==> |a| == 1 && a[0] == '.';
  }

  /** What the fields of a record say: nine mode bits and three special ones, a link of a symlink, the numbers of a
      device, the bytes of a file. */
  predicate Means(p: Payload, r: Record) {
    && p.Entry? && p.perm == r.mode % 512 && p.special == r.mode / 512 % 8 && p.uid == r.uid && p.gid == r.gid
    && p.xattrs == r.xattrs && p.kind != Socket
    && (p.kind == Dir <==> r.typ == TypeDir) && (p.kind == Symlink <==> r.typ == TypeSymlink)
    && (p.kind == CharDevice <==> r.typ == TypeChar) && (p.kind == BlockDevice <==> r.typ == TypeBlock)
    && (p.kind == Fifo <==> r.typ == TypeFifo) && (p.kind == Regular <==> r.typ == TypeReg)
    && (p.kind == Symlink ==> p.link == r.linkname) && (p.kind == Regular ==> p.body == r.body)
    && (p.kind == CharDevice || p.kind == BlockDevice ==>
        (r.minor < 256 && 256 * r.major + r.minor < TWO64 ==> p.rdev == 256 * r.major + r.minor))
  }

  lemma PayloadMeans(r: Record)
    ensures Means(PayloadOf(r), r)
  {
    hide DeviceOf;
    if r.minor < 256 && 256 * r.major + r.minor < TWO64 {
      var rdev: Device := 256 * r.major + r.minor;
      assert rdev / 256 == r.major && rdev % 256 == r.minor;
      DeviceNumbers(rdev);
    }
  }

  /** Any record of valid names is read by its last name: the opaque marker, a whiteout, or a node. */
  lemma RecordRead(r: Record, path: seq<string>, head: string, tail: string)
    requires path != [] && ValidPath(path) && (head == "" || head == "./") && (tail == "" || tail == "/")
    requires r.name == head + Join(path) + tail
    ensures var dir, base := path[..|path| - 1], path[|path| - 1];
      match Parse(r)
      case Apply(i) =>
        if base == ".wh..wh..opq" then i == Item(path, Opaque)
        else if |base| >= 4 && base[..4] == ".wh." then i == Item(dir + [base[4..]], Whiteout)
        else i.path == path && Means(i.payload, r)
      case Skip => false
      case BadName => false
  {
    hide Components, TrimDotSlash, Join, PayloadOf, Means;
    PayloadMeans(r);
    Pointed(path, head, tail);
  }

  lemma Pointed(path: seq<string>, head: string, tail: string)
    requires path != [] && ValidPath(path) && (head == "" || head == "./") && (tail == "" || tail == "/")
    ensures Components(TrimDotSlash(head + Join(path) + tail)) == path
  {
    hide Components, Join;
    ComponentsOfJoin(path);
    NoDotSlash(path, tail);
    var s := Join(path) + tail;
    assert head + Join(path) + tail == head + s;
    if head == "./" {
      assert HasPrefix("./" + s, "./") && ("./" + s)[2..] == s;
    } else {
      assert "" + s == s;
    }
    assert Join(path) + "" == Join(path);
  }

  /** A name that leads out of the tree is refused. */
  lemma ParentRefused(r: Record, path: seq<string>)
    requires path != [] && ValidPath(path) && r.name == "../" + Join(path)
    ensures Parse(r) == BadName
  {
    hide Components, Join, PayloadOf;
    DotsCleaned("a", path);
    assert r.name[1] == '.' && "./"[1] == '/' && r.name[..2][1] == r.name[1];
    assert ".." in [".."] + path;
  }
}
