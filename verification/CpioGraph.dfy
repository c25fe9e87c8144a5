/** The graph the reader builds from the members of a tree, step by step. */
module CpioGraph {
  import opened Sizes
  import opened Modes
  import opened Names
  import opened Bytes
  import opened Text
  import opened CpioFormat
  import opened CpioReader
  import opened CpioWriter
  import opened CpioListing
  import Words

  // ----- What is being replayed.

  /** A listed tree, its numbering and the device that holds its members. */
  datatype Run = Run(dev: seq<byte>, es: seq<Named>, n: Numbers)

  ghost function KeyAt(c: Run, i: nat): Key
    requires i < |c.es|
  {
    KeyOf(PathEntry(Join(c.es[i].path), c.es[i].node))
  }

  /** Two entries name one regular file. */
  ghost predicate SameFile(c: Run, i: nat, j: nat)
    requires i < |c.es| && j < |c.es|
  {
    var a, b := c.es[i].node, c.es[j].node;
    a.Leaf? && b.Leaf? && a.id == b.id && a.meta.mode.kind == Regular == b.meta.mode.kind
  }

  /** Leaves with one number are one node. */
  ghost predicate Consistent(es: seq<Named>) {
    forall i, j :: 0 <= i < |es| && 0 <= j < |es| && es[i].node.Leaf? && es[j].node.Leaf? && es[i].node.id == es[j].node.id ==>
      es[i].node == es[j].node
  }

  ghost predicate Sound(c: Run) {
    && Listing(c.es, []) && Consistent(c.es) && AllFit(Strings(c.es)) && Numbered(Strings(c.es), c.n)
    && KeysKnown(Strings(c.es), c.n)
  }

  ghost function Occ(c: Run, i: nat): nat
    requires Sound(c) && i < |c.es|
  {
    KnownKey(c, i);
    c.n.occ[KeyAt(c, i)]
  }

  ghost function Ino(c: Run, i: nat): nat
    requires Sound(c) && i < |c.es|
  {
    KnownKey(c, i);
    c.n.ino[KeyAt(c, i)]
  }

  ghost function LastName(c: Run, i: nat): nat
    requires Sound(c) && i < |c.es|
  {
    KnownKey(c, i);
    c.n.last[KeyAt(c, i)]
  }

  lemma KnownKey(c: Run, i: nat)
    requires Sound(c) && i < |c.es|
    ensures KeyAt(c, i) in c.n.ino && KeyAt(c, i) in c.n.occ && KeyAt(c, i) in c.n.last
    ensures Strings(c.es)[i] == PathEntry(Join(c.es[i].path), c.es[i].node)
  {
  }

  ghost function MemberAt(c: Run, i: nat): Member
    requires Sound(c) && i < |c.es|
  {
    FittingEntry(c, i);
    MemberOf(PathEntry(Join(c.es[i].path), c.es[i].node), Ino(c, i), Occ(c, i), LastName(c, i) == i)
  }

  lemma FittingEntry(c: Run, i: nat)
    requires Sound(c) && i < |c.es|
    ensures Fits(c.es[i].node) && c.es[i].path != [] && ValidPath(c.es[i].path)
  {
    assert Strings(c.es)[i].node == c.es[i].node;
    assert Below(c.es[i].path, []);
  }

  /** Names of one node have one key; directories have their own. */
  lemma KeysTell(c: Run, i: nat, j: nat)
    requires Sound(c) && i < |c.es| && j < |c.es|
    ensures KeyAt(c, i) == KeyAt(c, j) <==>
            i == j || (c.es[i].node.Leaf? && c.es[j].node.Leaf? && c.es[i].node.id == c.es[j].node.id)
    ensures Ino(c, i) == Ino(c, j) <==> KeyAt(c, i) == KeyAt(c, j)
  {
    hide Join, AllFit, Consistent;
    KnownKey(c, i);
    KnownKey(c, j);
    FittingEntry(c, i);
    FittingEntry(c, j);
    JoinsTell(c.es[i].path, c.es[j].path);
  }

  lemma JoinsTell(a: seq<string>, b: seq<string>)
    requires a != [] && b != [] && ValidPath(a) && ValidPath(b)
    ensures Join(a) == Join(b) ==> a == b
  {
    SplitPathOfJoin(a);
    SplitPathOfJoin(b);
  }

  // ----- The node an entry gives.

  function LinkOf(t: Tree): string {
    if t.Leaf? && t.meta.mode.kind == Symlink then t.link else ""
  }

  function DeviceOf(t: Tree): nat {
    if t.Leaf? && (t.meta.mode.kind == CharDevice || t.meta.mode.kind == BlockDevice) then t.rdev else 0
  }

  /** The bytes a node has once its body was read: none unless it is a regular file that has some. */
  ghost predicate ContentRight(dev: seq<byte>, x: Content, t: Tree, written: bool) {
    if t.Leaf? && t.meta.mode.kind == Regular && written && |t.content| > 0 then
      x.At? && x.size == |t.content| && Slice(dev, x.off, x.size) == t.content
    else x == NoContent
  }

  ghost predicate NodeRight(dev: seq<byte>, x: Node, t: Tree, occ: nat, written: bool) {
    && x.meta == t.meta && x.nlink == (if t.Folder? then t.nlink else occ)
    && x.link == LinkOf(t) && x.rdev == DeviceOf(t) && ContentRight(dev, x.content, t, written)
  }

  lemma MetaRead(e: PathEntry, ino: nat, occ: nat, withBody: bool)
    requires Fits(e.node)
    ensures var h, t := MemberOf(e, ino, occ, withBody).header, e.node;
      && ModeFromUnix(h.mode) == t.meta.mode && Meta(ModeFromUnix(h.mode), h.uid, h.gid, h.mtime) == t.meta
      && h.nlink == (if t.Folder? then t.nlink else occ) && h.ino == ino
  {
    hide BodyOf, ModeToUnix, ModeFromUnix;
    ModeRoundTrip(e.node.meta.mode);
  }

  lemma DeviceRead(rdev: nat)
    requires rdev < 0x100_0000_0000
    ensures Words.Or(rdev / 256 * 256, rdev % 256, Words.WIDTH) == rdev
  {
    hide Words.Or, Pow2;
    Words.AllOnesValue();
    Words.OrOfHigh(256, rdev / 256, rdev % 256, Words.WIDTH);
    assert rdev / 256 * 256 == 256 * (rdev / 256);
  }

  /** The node built for a member, when its body lies at off. */
  lemma NodeRead(dev: seq<byte>, e: PathEntry, ino: nat, occ: nat, withBody: bool, off: nat)
    requires Fits(e.node)
    requires var m := MemberOf(e, ino, occ, withBody); Slice(dev, off, |m.body|) == m.body
    ensures var x := NodeOf(dev, MemberOf(e, ino, occ, withBody).header, off);
      NodeRight(dev, x, e.node, occ, withBody) && x.kids == []
  {
    hide Slice, ModeToUnix, ModeFromUnix, Words.Or, StringOf, NameBytes;
    MetaRead(e, ino, occ, withBody);
    if e.node.Leaf? {
      DeviceRead(e.node.rdev);
      StringRead(e.node.link);
    }
  }

  // ----- The children of a directory, entry by entry.

  /** What the first k entries put below the directory at path. */
  ghost function KidsUpTo(c: Run, ptrs: seq<nat>, path: seq<string>, k: nat): seq<Kid>
    requires k <= |ptrs| && k <= |c.es|
  {
    if k == 0 then []
    else
      KidsUpTo(c, ptrs, path, k - 1) +
      if c.es[k - 1].path != [] && Parent(c.es[k - 1].path) == path then [Kid(Last(c.es[k - 1].path),
          ptrs[k - 1])] else []
  }

  lemma {:induction false} KidsUpToSame(c: Run, a: seq<nat>, b: seq<nat>, path: seq<string>, k: nat)
    requires k <= |a| && k <= |b| && k <= |c.es| && a[..k] == b[..k]
    ensures KidsUpTo(c, a, path, k) == KidsUpTo(c, b, path, k)
    decreases k
  {
    if k > 0 {
      assert a[..k - 1] == a[..k][..k - 1] && b[..k - 1] == b[..k][..k - 1];
      assert a[k - 1] == a[..k][k - 1] && b[k - 1] == b[..k][k - 1];
      KidsUpToSame(c, a, b, path, k - 1);
    }
  }

  /** Every child comes from an entry. */
  lemma {:induction false} KidFrom(c: Run, ptrs: seq<nat>, path: seq<string>, k: nat, x: nat) returns (j: nat)
    requires k <= |ptrs| && k <= |c.es| && x < |KidsUpTo(c, ptrs, path, k)|
    ensures j < k && c.es[j].path == path + [KidsUpTo(c, ptrs, path, k)[x].name]
    ensures KidsUpTo(c, ptrs, path, k)[x].node == ptrs[j]
    decreases k
  {
    if x < |KidsUpTo(c, ptrs, path, k - 1)| {
      j := KidFrom(c, ptrs, path, k - 1, x);
    } else {
      j := k - 1;
      var p := c.es[j].path;
      assert p == Parent(p) + [Last(p)];
    }
  }

  /** Every entry is a child of its parent. */
  lemma {:induction false} KidOf(c: Run, ptrs: seq<nat>, path: seq<string>, k: nat, j: nat) returns (x: nat)
    requires j < k <= |ptrs| && k <= |c.es| && c.es[j].path != [] && Parent(c.es[j].path) == path
    ensures x < |KidsUpTo(c, ptrs, path, k)| && KidsUpTo(c, ptrs, path, k)[x] == Kid(Last(c.es[j].path), ptrs[j])
    decreases k
  {
    if j == k - 1 {
      x := |KidsUpTo(c, ptrs, path, k - 1)|;
    } else {
      x := KidOf(c, ptrs, path, k - 1, j);
    }
  }

  lemma {:induction false} FindFirst(kids: seq<Kid>, name: string)
    ensures FindKid(kids, name).None? <==> forall x :: 0 <= x < |kids| ==> kids[x].name != name
    decreases |kids|
  {
    if kids != [] {
      FindFirst(kids[1..], name);
      forall x | 0 <= x < |kids|
        ensures x > 0 ==> kids[x] == kids[1..][x - 1]
      {
      }
      if forall x :: 0 <= x < |kids| ==> kids[x].name != name {
        forall y | 0 <= y < |kids[1..]|
          ensures kids[1..][y].name != name
        {
          assert kids[1..][y] == kids[y + 1];
        }
      }
    }
  }

  /** Looking a name up in a directory finds the entry of that path, if there is one. */
  lemma ChildFound(c: Run, ptrs: seq<nat>, path: seq<string>, k: nat, name: string)
    requires Listing(c.es, []) && k <= |ptrs| && k <= |c.es|
    ensures var kids := KidsUpTo(c, ptrs, path, k);
      match FindKid(kids, name)
      case None => forall j :: 0 <= j < k ==> c.es[j].path != path + [name]
      case Some(x) => exists j :: 0 <= j < k && c.es[j].path == path + [name] && kids[x].node == ptrs[j]
  {
    hide KidsUpTo, Rooted;
    var kids := KidsUpTo(c, ptrs, path, k);
    FindFirst(kids, name);
    match FindKid(kids, name) {
      case Some(x) =>
        var j := KidFrom(c, ptrs, path, k, x);
      case None =>
        forall j | 0 <= j < k
          ensures c.es[j].path != path + [name]
        {
          if c.es[j].path == path + [name] {
            assert Parent(c.es[j].path) == path;
            var x := KidOf(c, ptrs, path, k, j);
          }
        }
    }
  }

  /** Only directories have children. */
  lemma {:induction false} NoKids(c: Run, ptrs: seq<nat>, path: seq<string>, k: nat)
    requires Listing(c.es, []) && k <= |ptrs| && k <= |c.es| && path != []
    requires forall j :: 0 <= j < k && c.es[j].node.Folder? ==> c.es[j].path != path
    ensures KidsUpTo(c, ptrs, path, k) == []
    decreases k
  {
    if k > 0 {
      NoKids(c, ptrs, path, k - 1);
      assert Rooted(c.es, k - 1, []);
    }
  }

  // ----- The state after k entries; ptrs are the nodes of their names.

  ghost predicate Pointed(c: Run, g: Graph, ptrs: seq<nat>) {
    && Closed(g) && |ptrs| <= |c.es|
    && (forall i :: 0 <= i < |ptrs| ==> 0 < ptrs[i] < |g.nodes|)
    && (forall i, j :: 0 <= i < |ptrs| && 0 <= j < |ptrs| ==> (ptrs[i] == ptrs[j] <==> i == j || SameFile(c, i, j)))
  }

  ghost predicate Filled(c: Run, g: Graph, ptrs: seq<nat>)
    requires Sound(c)
  {
    |ptrs| <= |c.es| &&
    forall i :: 0 <= i < |ptrs| ==>
      ptrs[i] < |g.nodes| && NodeRight(c.dev, g.nodes[ptrs[i]], c.es[i].node, Occ(c, i), LastName(c, i) < |ptrs|)
  }

  /** The first k entries are below their parents; nodes may be there for more. */
  ghost predicate Attached(c: Run, g: Graph, ptrs: seq<nat>, k: nat) {
    && k <= |ptrs| <= |c.es| && |g.nodes| > 0 && g.nodes[0].IsDir()
    && g.nodes[0].kids == KidsUpTo(c, ptrs, [], k)
    && (forall i :: 0 <= i < |ptrs| ==>
          ptrs[i] < |g.nodes| && g.nodes[ptrs[i]].kids == KidsUpTo(c, ptrs, c.es[i].path, k))
  }

  /** Entry i is a regular file with several names. */
  ghost predicate Shared(c: Run, i: nat)
    requires Sound(c) && i < |c.es|
  {
    c.es[i].node.Leaf? && c.es[i].node.meta.mode.kind == Regular && Occ(c, i) >= 2
  }

  ghost predicate Remembered(c: Run, g: Graph, ptrs: seq<nat>)
    requires Sound(c)
  {
    && |ptrs| <= |c.es|
    && (forall i :: 0 <= i < |ptrs| && Shared(c, i) ==> Ino(c, i) in g.inoMap && g.inoMap[Ino(c, i)] == ptrs[i])
    && (forall v :: v in g.inoMap ==> exists i :: 0 <= i < |ptrs| && Shared(c, i) && Ino(c, i) == v)
  }

  ghost predicate Built(c: Run, g: Graph, ptrs: seq<nat>)
    requires Sound(c)
  {
    Pointed(c, g, ptrs) && Filled(c, g, ptrs) && Attached(c, g, ptrs, |ptrs|) && Remembered(c, g, ptrs)
  }

  // ----- Linking.

  lemma {:induction false} DescendMore(g: Graph, dir: nat, a: seq<string>, name: string)
    requires Closed(g) && dir < |g.nodes|
    ensures var (g', d) := Descend(g, dir, a); Descend(g, dir, a + [name]) == ChildDir(g', d, name)
    decreases |a|
  {
    hide ChildDir;
    if a == [] {
      assert (a + [name])[1..] == [];
    } else {
      assert (a + [name])[1..] == a[1..] + [name];
      var (g', d) := ChildDir(g, dir, a[0]);
      DescendMore(g', d, a[1..], name);
    }
  }

  /** The directories on the way to an entry are there already. */
  lemma {:induction false} DescendFinds(c: Run, g: Graph, ptrs: seq<nat>, k: nat, j: nat)
    requires Sound(c) && Pointed(c, g, ptrs) && Attached(c, g, ptrs, k) && j < k
    ensures Descend(g, 0, c.es[j].path) == (g, ptrs[j])
    decreases j
  {
    hide KidsUpTo, FindKid, Sound, Pointed;
    var path := c.es[j].path;
    ListingOf(c, j);
    PointedIs(c, g, ptrs);
    var up, name := Parent(path), Last(path);
    assert path == up + [name];
    DescendMore(g, 0, up, name);
    ChildFound(c, ptrs, up, k, name);
    var dir := 0;
    if up == [] {
      assert Descend(g, 0, up) == (g, 0);
    } else {
      var i :| 0 <= i < j && c.es[i].path == up && c.es[i].node.Folder?;
      DescendFinds(c, g, ptrs, k, i);
      dir := ptrs[i];
    }
    assert g.nodes[dir].kids == KidsUpTo(c, ptrs, up, k);
    match FindKid(g.nodes[dir].kids, name) {
      case Some(x) =>
        var m :| 0 <= m < k && c.es[m].path == up + [name] && g.nodes[dir].kids[x].node == ptrs[m];
        DistinctPaths(c, m, j);
      case None =>
        assert false;
    }
  }

  lemma ListingOf(c: Run, j: nat)
    requires Sound(c) && j < |c.es|
    ensures Listing(c.es, []) && c.es[j].path != []
    ensures Parent(c.es[j].path) != [] ==>
      exists i :: 0 <= i < j && c.es[i].path == Parent(c.es[j].path) && c.es[i].node.Folder?
  {
    assert Rooted(c.es, j, []);
  }

  lemma PointedIs(c: Run, g: Graph, ptrs: seq<nat>)
    requires Pointed(c, g, ptrs)
    ensures Closed(g) && forall i :: 0 <= i < |ptrs| ==> 0 < ptrs[i] < |g.nodes|
  {
  }

  lemma DistinctPaths(c: Run, i: nat, j: nat)
    requires Sound(c) && i < |c.es| && j < |c.es|
    ensures c.es[i].path == c.es[j].path <==> i == j
  {
  }
}
