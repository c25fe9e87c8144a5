/** A tree written as a newc archive and read back. */
module CpioEnd {
  import opened Options
  import opened Modes
  import opened Names
  import opened Bytes
  import opened Files
  import opened CpioFormat
  import opened CpioReader
  import opened CpioWriter
  import opened CpioArchive
  import opened CpioListing
  import opened CpioGraph
  import opened CpioReplay
  import opened CpioRoundTrip

  /** The node a path leads to from dir, taking the first child of each name. */
  function Resolve(g: Graph, dir: nat, path: seq<string>): Option<nat>
    requires Closed(g) && dir < |g.nodes|
    decreases |path|
  {
    if path == [] then Some(dir)
    else
      match FindKid(g.nodes[dir].kids, path[0])
      case None => None
      case Some(i) => Resolve(g, g.nodes[dir].kids[i].node, path[1..])
  }

  lemma {:induction false} ResolveMore(g: Graph, dir: nat, a: seq<string>, name: string)
    requires Closed(g) && dir < |g.nodes|
    ensures match Resolve(g, dir, a)
      case None => Resolve(g, dir, a + [name]) == None
      case Some(d) => d < |g.nodes| && Resolve(g, dir, a + [name]) == KidAt(g, d, name)
    decreases |a|
  {
    if a == [] {
      assert (a + [name])[1..] == [];
    } else {
      assert (a + [name])[1..] == a[1..] + [name];
      match FindKid(g.nodes[dir].kids, a[0]) {
        case None =>
        case Some(i) => ResolveMore(g, g.nodes[dir].kids[i].node, a[1..], name);
      }
    }
  }

  /** A path leads to the node of its entry, and nowhere when it has none. */
  ghost predicate LeadsTo(c: Run, ptrs: seq<nat>, path: seq<string>, r: Option<nat>) {
    && |ptrs| <= |c.es|
    && (r.Some? ==> exists i :: 0 <= i < |ptrs| && c.es[i].path == path && ptrs[i] == r.value)
    && (r.None? ==> forall i :: 0 <= i < |ptrs| ==> c.es[i].path != path)
  }

  lemma {:induction false} PathLeads(c: Run, g: Graph, ptrs: seq<nat>, path: seq<string>)
    requires Sound(c) && Built(c, g, ptrs) && Closed(g) && path != []
    ensures LeadsTo(c, ptrs, path, Resolve(g, 0, path))
    decreases |path|
  {
    hide Sound, Pointed, Filled, Remembered, KidsUpTo, FindKid, Resolve, Listing, Closed;
    var up, name := Parent(path), Last(path);
    assert path == up + [name];
    ResolveMore(g, 0, up, name);
    BuiltIs(c, g, ptrs);
    SoundListing(c);
    if up == [] {
      RootResolves(g);
      ChildFound(c, ptrs, up, |ptrs|, name);
    } else {
      PathLeads(c, g, ptrs, up);
      match Resolve(g, 0, up) {
        case Some(d) =>
          var i :| 0 <= i < |ptrs| && c.es[i].path == up && ptrs[i] == d;
          ChildFound(c, ptrs, up, |ptrs|, name);
        case None =>
          forall i | 0 <= i < |ptrs|
            ensures c.es[i].path != path
          {
            ListingOf(c, i);
          }
      }
    }
  }

  lemma SoundListing(c: Run)
    requires Sound(c)
    ensures Listing(c.es, [])
  {
  }

  lemma RootResolves(g: Graph)
    requires Closed(g)
    ensures |g.nodes| > 0 && Resolve(g, 0, []) == Some(0)
  {
  }

  // ----- The statement.

  /** How many names a node has in a tree. */
  ghost function NamesOf(root: Tree, path: seq<string>, t: Tree): nat {
    Occurrences(Strings(Collect(root, [])), KeyOf(PathEntry(Join(path), t)))
  }

  /** Two names share a regular file. */
  predicate Linked2(a: Tree, b: Tree) {
    a.Leaf? && b.Leaf? && a.id == b.id && a.meta.mode.kind == Regular == b.meta.mode.kind
  }

  /** The graph has the names of the tree and no others; behind each name is what the tree has there,
      body included, and two names share a node exactly when they share a regular file. */
  ghost predicate SameTree(dev: seq<byte>, g: Graph, root: Tree) {
    && Closed(g)
    && (forall path :: path != [] ==> SameAt(dev, g, root, path))
    && (forall p, q :: p != [] && q != [] && Lookup(root, p).Some? && Lookup(root, q).Some? ==>
          (Resolve(g, 0, p) == Resolve(g, 0, q) <==> p == q || Linked2(Lookup(root, p).value, Lookup(root, q).value)))
  }

  ghost predicate SameAt(dev: seq<byte>, g: Graph, root: Tree, path: seq<string>)
    requires Closed(g)
  {
    match Lookup(root, path)
    case None => Resolve(g, 0, path) == None
    case Some(t) =>
      var r := Resolve(g, 0, path);
      r.Some? && r.value < |g.nodes| && NodeRight(dev, g.nodes[r.value], t, NamesOf(root, path, t), true)
  }

  lemma PathSame(c: Run, g: Graph, ptrs: seq<nat>, root: Tree, path: seq<string>)
    requires Sound(c) && Built(c, g, ptrs) && Closed(g) && |ptrs| == |c.es| && c.es == Collect(root, []) && path != []
    ensures SameAt(c.dev, g, root, path)
    ensures Lookup(root, path).Some? ==>
      exists i :: 0 <= i < |c.es| && c.es[i] == Named(path, Lookup(root, path).value)
                  && Resolve(g, 0, path) == Some(ptrs[i])
  {
    hide Sound, Pointed, Attached, Remembered, Resolve, Listing, Closed, Lookup, Collect, NodeRight, Occurrences, Join;
    PathLeads(c, g, ptrs, path);
    assert [] + path == path;
    match Lookup(root, path) {
      case Some(t) =>
        ListedIsFound(root, [], path, t);
        var i :| 0 <= i < |c.es| && c.es[i] == Named(path, t);
        var r := Resolve(g, 0, path);
        assert c.es[i].path == path;
        var j :| 0 <= j < |ptrs| && c.es[j].path == path && ptrs[j] == r.value;
        DistinctPaths(c, i, j);
        OccIs(c, i);
        LastAfter(c, i);
      case None =>
        forall i | 0 <= i < |ptrs|
          ensures c.es[i].path != path
        {
          ListedIsFound(root, [], path, c.es[i].node);
        }
    }
  }

  lemma OccIs(c: Run, i: nat)
    requires Sound(c) && i < |c.es|
    ensures Occ(c, i) == Occurrences(Strings(c.es), KeyOf(PathEntry(Join(c.es[i].path), c.es[i].node)))
  {
    hide Listing, Occurrences, Join, AllFit, Consistent;
    KnownKey(c, i);
  }

  lemma BuiltIsSame(c: Run, g: Graph, ptrs: seq<nat>, root: Tree)
    requires Sound(c) && Built(c, g, ptrs) && Closed(g) && |ptrs| == |c.es| && c.es == Collect(root, [])
    ensures SameTree(c.dev, g, root)
  {
    hide Sound, Built, SameAt, Resolve, Closed, Lookup, Collect;
    RootResolves(g);
    forall path | path != []
      ensures SameAt(c.dev, g, root, path)
    {
      PathSame(c, g, ptrs, root, path);
    }
    forall p, q | p != [] && q != [] && Lookup(root, p).Some? && Lookup(root, q).Some?
      ensures Resolve(g, 0, p) == Resolve(g, 0, q) <==> p == q || Linked2(Lookup(root, p).value, Lookup(root, q).value)
    {
      PathSame(c, g, ptrs, root, p);
      PathSame(c, g, ptrs, root, q);
      var i :| 0 <= i < |c.es| && c.es[i] == Named(p, Lookup(root, p).value) && Resolve(g, 0, p) == Some(ptrs[i]);
      var j :| 0 <= j < |c.es| && c.es[j] == Named(q, Lookup(root, q).value) && Resolve(g, 0, q) == Some(ptrs[j]);
      Shares(c, g, ptrs, i, j);
      DistinctPaths(c, i, j);
    }
  }

  lemma Shares(c: Run, g: Graph, ptrs: seq<nat>, i: nat, j: nat)
    requires Sound(c) && Built(c, g, ptrs) && i < |ptrs| && j < |ptrs| && |ptrs| == |c.es|
    ensures ptrs[i] == ptrs[j] <==> i == j || Linked2(c.es[i].node, c.es[j].node)
  {
    hide Sound, Filled, Attached, Remembered, Closed;
    assert ptrs[i] == ptrs[j] <==> i == j || SameFile(c, i, j);
  }

  /** A reader that stops early misses the entry it stopped at. */
  lemma StoppedShort(c: Run, g: Graph, ptrs: seq<nat>, root: Tree)
    requires Sound(c) && Built(c, g, ptrs) && Closed(g) && |ptrs| < |c.es| && c.es == Collect(root, [])
    ensures !SameTree(c.dev, g, root)
  {
    hide Sound, Built, Resolve, Closed, Lookup, Collect, NodeRight, Listing;
    RootResolves(g);
    var k := |ptrs|;
    FittingEntry(c, k);
    var path := c.es[k].path;
    assert [] + path == path && c.es[k] == Named(path, c.es[k].node);
    ListedIsFound(root, [], path, c.es[k].node);
    PathLeads(c, g, ptrs, path);
    forall i | 0 <= i < |ptrs|
      ensures c.es[i].path != path
    {
      DistinctPaths(c, i, k);
    }
    assert !SameAt(c.dev, g, root, path);
  }

  // ----- Writing and reading.

  lemma NothingBuilt(c: Run)
    requires Sound(c)
    ensures Built(c, Root(), [])
  {
    hide Sound, NodeRight;
  }

  lemma {:induction false} SomeStop(c: Run, from: nat) returns (stop: nat)
    requires from <= |c.es| && forall i :: 0 <= i < from ==> Join(c.es[i].path) != TRAILER_NAME
    ensures from <= stop && StopsAt(c, stop)
    decreases |c.es| - from
  {
    if from == |c.es| || Join(c.es[from].path) == TRAILER_NAME {
      stop := from;
    } else {
      stop := SomeStop(c, from + 1);
    }
  }

  lemma TrailerPath(path: seq<string>)
    requires path != [] && ValidPath(path)
    ensures Join(path) == TRAILER_NAME <==> path == [TRAILER_NAME]
  {
    SplitPathOfJoin(path);
    assert ValidName(TRAILER_NAME);
    SplitPathOfJoin([TRAILER_NAME]);
  }

  /** The reader stops short exactly when the root holds a name like the trailer's. */
  lemma StopsShort(c: Run, root: Tree, stop: nat)
    requires Sound(c) && c.es == Collect(root, []) && root.Folder? && StopsAt(c, stop)
    ensures stop < |c.es| <==> TRAILER_NAME in root.kids
  {
    hide Sound, Join, Collect, Listing;
    if stop < |c.es| {
      FittingEntry(c, stop);
      TrailerPath(c.es[stop].path);
      assert [] + c.es[stop].path == c.es[stop].path && c.es[stop] == Named(c.es[stop].path, c.es[stop].node);
      ListedIsFound(root, [], c.es[stop].path, c.es[stop].node);
    }
    if TRAILER_NAME in root.kids {
      var path, t := [TRAILER_NAME], root.kids[TRAILER_NAME];
      assert Lookup(root, path) == Some(t);
      assert [] + path == path;
      ListedIsFound(root, [], path, t);
      var i :| 0 <= i < |c.es| && c.es[i] == Named(path, t);
      FittingEntry(c, i);
      TrailerPath(path);
    }
  }

  /** What Read makes of an archive. */
  lemma ArchiveReads(c: Run, root: Tree) returns (g: Graph)
    requires Sound(c) && c.es == Collect(root, []) && root.Folder?
    requires ValidMembers(Members(c)) && NamesAreBytes(Members(c)) && Starts(c.dev, Padded(MembersBytes(Members(c))))
    ensures ReadFrom(Root(), c.dev, 0) == CpioReader.Ok(g) && Closed(g)
    ensures SameTree(c.dev, g, root) <==> TRAILER_NAME !in root.kids
  {
    hide Sound, Built, Members, Closed, Starts, Padded, MembersBytes, ValidMembers, NamesAreBytes, Collect, Join,
         ReadFrom, Replay, SameTree;
    MembersValid(c);
    NothingBuilt(c);
    var stop := SomeStop(c, 0);
    StopsShort(c, root, stop);
    var ptrs;
    g, ptrs := Replayed(c, Root(), [], stop);
    ReadIsReplay(Root(), c.dev, Members(c), 0);
    StartsAtZero(Members(c));
    BuiltIs(c, g, ptrs);
    if stop < |c.es| {
      StoppedShort(c, g, ptrs, root);
    } else {
      BuiltIsSame(c, g, ptrs, root);
    }
  }

  lemma StartsAtZero(ms: seq<Member>)
    requires ValidMembers(ms)
    ensures Off(ms, 0) == 0
  {
    BytesNamed(ms, 0);
  }

  lemma ArchiveIsMembers(c: Run)
    requires Sound(c) && NamesAreBytes(MembersOf(Strings(c.es), c.n, |c.es|)) && NamesAreBytes(Members(c))
    ensures Padded(MembersBytes(Members(c))) == ArchiveBytes(MembersOf(Strings(c.es), c.n, |c.es|))
  {
    hide Sound, MemberBytes, Padded, MembersOf;
    SoundKnown(c);
    var ms := MembersOf(Strings(c.es), c.n, |c.es|);
    assert (ms + [Trailer()])[..|ms|] == ms;
  }

  lemma SoundKnown(c: Run)
    requires Sound(c)
    ensures AllFit(Strings(c.es)) && KeysKnown(Strings(c.es), c.n)
  {
  }

  /** A newc archive reads back as the tree it was written from, hard links included, unless the root
      holds an entry named TRAILER!!!, and exactly then. */
  method WriteThenRead(dev: File, root: Tree) returns (r: Reader)
    requires root.Folder? && GoodNames(root) && Consistent(Collect(root, [])) && AllFit(Strings(Collect(root, [])))
    modifies dev
    ensures fresh(r) && r.dev == dev
    ensures SameTree(dev.data, r.G(), root) <==> "TRAILER!!!" !in root.kids
  {
    hide SameTree, Collect, Consistent, AllFit, GoodNames, ReadFrom, Strings, MembersOf, Numbered, KeysKnown,
         NamesAreBytes, ArchiveBytes, Slice, Sound, Starts, Closed, ValidMembers, MembersBytes, Padded;
    ghost var named := Collect(root, []);
    var w := new CWriter(dev);
    ghost var es, n := w.WriteArchive(root);
    ghost var c := Run(dev.data, named, n);
    CollectedSound(c, root);
    MembersValid(c);
    ArchiveIsMembers(c);
    DeviceStarts(dev.data, w.out);
    ghost var g := ArchiveReads(c, root);
    r := new Reader(dev);
    var ok := r.Read();
  }

  lemma DeviceStarts(dev: seq<byte>, out: seq<byte>)
    requires Slice(dev, 0, |out|) == out
    ensures Starts(dev, out)
  {
  }

  lemma CollectedSound(c: Run, root: Tree)
    requires GoodNames(root) && c.es == Collect(root, []) && Consistent(c.es) && AllFit(Strings(c.es))
    requires Numbered(Strings(c.es), c.n) && KeysKnown(Strings(c.es), c.n)
    ensures Sound(c)
  {
    CollectLists(root, []);
  }

  lemma OnlyKid(root: Tree, name: string, file: Tree)
    requires root.Folder? && root.kids == map[name := file] && file.Leaf?
    ensures Collect(root, []) == [Named([name], file)]
  {
    var list := [name];
    assert root.kids.Keys == {name};
    SortedElements({name});
    ListingIsUnique(Sorted({name}), list, {name});
    assert list[1..] == [] && [] + list == list;
    assert CollectKids(root, list, []) == [Named([] + list, file)] + Collect(file, [] + list) + CollectKids(root, [],
      []);
  }

  /** An image with such a name in its root: it can be written, and is not read back. */
  lemma TrailerNamed() returns (root: Tree)
    ensures root.Folder? && GoodNames(root) && Consistent(Collect(root, [])) && AllFit(Strings(Collect(root, [])))
    ensures TRAILER_NAME in root.kids
  {
    hide Collect, CollectKids;
    var file := Leaf(1, Meta(Mode(Regular, 420, 0), 0, 0, 0), "", 0, [104, 105]);
    root := Folder(Meta(Mode(Dir, 493, 0), 0, 0, 0), 2, map[TRAILER_NAME := file]);
    OnlyKid(root, TRAILER_NAME, file);
    assert Join([TRAILER_NAME]) == TRAILER_NAME;
  }

  // ----- Names of one node that is no regular file.

  /** Two names of a node that come back as two nodes. */
  ghost predicate Parted(root: Tree, p: seq<string>, q: seq<string>) {
    && p != [] && q != [] && p != q && Lookup(root, p).Some? && Lookup(root, q).Some?
    && var a, b := Lookup(root, p).value, Lookup(root, q).value;
       a.Leaf? && b.Leaf? && a.id == b.id && !Linked2(a, b)
  }

  ghost predicate SharedAsBefore(g: Graph, root: Tree, p: seq<string>, q: seq<string>)
    requires Closed(g) && Lookup(root, p).Some? && Lookup(root, q).Some?
  {
    var a, b := Lookup(root, p).value, Lookup(root, q).value;
    Resolve(g, 0, p) == Resolve(g, 0, q) <==> p == q || (a.Leaf? && b.Leaf? && a.id == b.id)
  }

  /** All sharing comes back if and only if only regular files have two names. */
  lemma SharingIsWhole(dev: seq<byte>, g: Graph, root: Tree)
    requires SameTree(dev, g, root)
    ensures (forall p, q :: p != [] && q != [] && Lookup(root, p).Some? && Lookup(root, q).Some? ==>
               SharedAsBefore(g, root, p, q)) <==> forall p, q :: !Parted(root, p, q)
  {
    hide Resolve, Closed, Lookup, SameAt;
    if p, q :| Parted(root, p, q) {
      assert !SharedAsBefore(g, root, p, q);
    }
    forall p, q | p != [] && q != [] && Lookup(root, p).Some? && Lookup(root, q).Some? && !Parted(root, p, q)
      ensures SharedAsBefore(g, root, p, q)
    {
    }
  }

  lemma SortedPair(a: string, b: string)
    requires Before(a, b)
    ensures Sorted({a, b}) == [a, b]
  {
    hide Before, Sorted;
    BeforeOrders(a, b);
    SortedElements({a, b});
    ListingIsUnique(Sorted({a, b}), [a, b], {a, b});
  }

  lemma TwoKids(root: Tree, a: string, b: string, file: Tree)
    requires root.Folder? && root.kids == map[a := file, b := file] && file.Leaf? && Before(a, b)
    ensures Collect(root, []) == [Named([a], file), Named([b], file)]
  {
    hide Before, Collect, CollectKids, Sorted;
    SortedPair(a, b);
    assert root.kids.Keys == {a, b};
    CollectIs(root, []);
    KidsOfTwo(root, a, b, file);
  }

  lemma KidsOfTwo(root: Tree, a: string, b: string, file: Tree)
    requires root.Folder? && a in root.kids && b in root.kids && root.kids[a] == root.kids[b] == file && file.Leaf?
    ensures CollectKids(root, [a, b], []) == [Named([a], file), Named([b], file)]
  {
    hide Collect, CollectKids;
    var list := [a, b];
    CollectStep(root, list, 0, []);
    CollectStep(root, list, 1, []);
    KidsDone(root, []);
    LeafCollects(file, [a]);
    LeafCollects(file, [b]);
    assert list[0..] == list && list[2..] == [] && [] + [a] == [a] && [] + [b] == [b];
  }

  /** A symlink of two names: it can be written and is read back, as two symlinks. */
  lemma LinkedSymlink() returns (root: Tree)
    ensures root.Folder? && GoodNames(root) && Consistent(Collect(root, [])) && AllFit(Strings(Collect(root, [])))
    ensures TRAILER_NAME !in root.kids && Parted(root, ["a"], ["b"])
  {
    hide Collect, CollectKids;
    var link := Leaf(1, Meta(Mode(Symlink, 511, 0), 0, 0, 0), "t", 0, []);
    root := Folder(Meta(Mode(Dir, 493, 0), 0, 0, 0), 2, map["a" := link, "b" := link]);
    TwoKids(root, "a", "b", link);
    assert Join(["a"]) == "a" && Join(["b"]) == "b";
    assert Lookup(root, ["a"]) == Some(link) && Lookup(root, ["b"]) == Some(link);
  }
}
