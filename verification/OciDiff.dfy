/** pkg/oci: applying the diff of two trees to the first gives the second, and exactly when. */
module OciDiffProof {
  import opened Modes
  import opened Options
  import opened Names
  import opened OciTrees

  // ----- Lists of entries compose.

  lemma {:induction false} ApplyAppend(t: Tree, a: seq<Item>, b: seq<Item>)
    requires Proper(a) && Proper(b)
    ensures ApplyAll(t, a + b) == ApplyAll(ApplyAll(t, a), b)
    decreases |a|
  {
    if a == [] {
      assert a + b == b;
    } else {
      assert a[0] in a;
      ApplyAppend(ApplyItem(t, a[0].path, a[0].payload), a[1..], b);
      assert (a + b)[1..] == a[1..] + b;
    }
  }

  /** Applying entries below a directory changes its children only. */
  lemma {:induction false} ApplyKeepsNode(t: Tree, items: seq<Item>)
    requires Proper(items)
    ensures ApplyAll(t, items) == t.(kids := ApplyAll(t, items).kids)
    decreases |items|
  {
    if items != [] {
      assert items[0] in items;
      ApplyKeepsNode(ApplyItem(t, items[0].path, items[0].payload), items[1..]);
    }
  }

  lemma DescendFurther(t: Tree, x: string, path: seq<string>, p: Payload)
    requires path != []
    ensures ApplyItem(t, [x] + path, p) == t.(kids := t.kids[x := ApplyItem(Descend(t, x), path, p)])
    ensures ApplyItem(Descend(t, x), path, p).IsDir()
  {
    hide Upserted;
    assert ([x] + path)[1..] == path;
  }

  lemma DescendInto(t: Tree, x: string)
    requires x in t.kids && t.kids[x].IsDir()
    ensures Descend(t, x) == t.kids[x]
  {
  }

  /** Entries that all go below x act on the child directory x alone. */
  lemma {:induction false} ApplyUnder(t: Tree, x: string, items: seq<Item>)
    requires Proper(items)
    ensures ApplyAll(t, Under(x, items)) ==
            if items == [] then t else t.(kids := t.kids[x := ApplyAll(Descend(t, x), items)])
    decreases |items|
  {
    hide Upserted, ApplyItem, Descend;
    if items != [] {
      assert items[0] in items;
      var i := items[0];
      DescendFurther(t, x, i.path, i.payload);
      var child := ApplyItem(Descend(t, x), i.path, i.payload);
      var t1 := t.(kids := t.kids[x := child]);
      assert Under(x, items)[1..] == Under(x, items[1..]);
      ApplyUnder(t1, x, items[1..]);
      assert Descend(t1, x) == child by { DescendInto(t1, x); }
      assert t1.kids[x := ApplyAll(child, items[1..])] == t.kids[x := ApplyAll(child, items[1..])];
      assert items[1..] == [] ==> ApplyAll(child, items[1..]) == child;
    }
  }

  lemma ApplyOne(t: Tree, i: Item)
    requires i.path != []
    ensures ApplyAll(t, [i]) == ApplyItem(t, i.path, i.payload)
  {
    assert [i][1..] == [];
  }

  lemma ApplyEntry(t: Tree, x: string, e: Payload)
    requires e.Entry?
    ensures ApplyAll(t, [Item([x], e)]) == t.(kids := t.kids[x := Upserted(KidOf(t, x), e)])
  {
    hide Upserted;
    ApplyOne(t, Item([x], e));
  }

  // ----- A subtree written out and read back.

  lemma {:induction false} SubtreeApplied(t: Tree, n: Tree, x: string)
    requires WellFormed(n)
    requires n.IsDir() && x in t.kids ==> t.kids[x].kids == map[]
    ensures var r := ApplyAll(t, Subtree(n, x));
      x in r.kids && View(r.kids[x]) == Written(n) && r == t.(kids := t.kids[x := r.kids[x]])
    decreases n, 1, 0
  {
    hide ApplyAll, SubtreeKids, Under, Written, View, Upserted, EntryOf, Subtree, WellFormed;
    var first := Item([x], EntryOf(n));
    var c := Upserted(KidOf(t, x), EntryOf(n));
    var t1 := t.(kids := t.kids[x := c]);
    ApplyEntry(t, x, EntryOf(n));
    SubtreeIs(n, x);
    if !n.IsDir() {
      WrittenLeaf(KidOf(t, x), n);
      return;
    }
    UpsertedDir(KidOf(t, x), n);
    var names := Sorted(n.kids.Keys);
    var below := SubtreeKids(n, names);
    ApplyAppend(t, [first], Under(x, below));
    OrderedIsDistinct(names);
    SubtreeKidsApplied(c, n, names);
    BelowApplied(t, n, x, c, below);
  }

  /** The children of a written directory, applied below its own entry. */
  lemma BelowApplied(t: Tree, n: Tree, x: string, c: Tree, below: seq<Item>)
    requires Proper(below) && n.IsDir() && c.IsDir() && c.meta == DirMeta(n)
    requires var r := ApplyAll(c, below);
      r.kids.Keys == n.kids.Keys && forall y :: y in n.kids ==> View(r.kids[y]) == Written(n.kids[y])
    ensures var r := ApplyAll(c, below);
      && ApplyAll(t.(kids := t.kids[x := c]), Under(x, below)) == t.(kids := t.kids[x := r])
      && View(r) == Written(n)
  {
    hide ApplyAll, Under, Written, View;
    var t1, r := t.(kids := t.kids[x := c]), ApplyAll(c, below);
    ApplyUnder(t1, x, below);
    ApplyKeepsNode(c, below);
    ApplyNothing(c);
    WrittenDir(n, r);
    assert t1.kids[x := r] == t.kids[x := r];
  }

  lemma WrittenLeaf(was: Option<Tree>, n: Tree)
    requires !n.IsDir()
    ensures View(Upserted(was, EntryOf(n))) == Written(n)
  {
  }

  function DirMeta(n: Tree): Meta {
    Meta(Mode(Dir, n.meta.mode.perm, 0), n.meta.uid, n.meta.gid, n.meta.xattrs)
  }

  lemma UpsertedDir(was: Option<Tree>, n: Tree)
    requires n.IsDir()
    ensures var c := Upserted(was, EntryOf(n));
      c.IsDir() && c.meta == DirMeta(n) == Written(n).meta && c.kids == match was case Some(t) => t.kids case None => map[]
  {
  }

  /** A directory whose own entry and children were applied looks as written. */
  lemma WrittenDir(n: Tree, r: Tree)
    requires n.IsDir() && r.meta == DirMeta(n)
    requires r.kids.Keys == n.kids.Keys && forall x :: x in n.kids ==> View(r.kids[x]) == Written(n.kids[x])
    ensures View(r) == Written(n)
  {
    hide ViewKids, WrittenKids, View, Written;
    KidsWritten(n, r);
    DirViews(n, r);
  }

  lemma DirViews(n: Tree, r: Tree)
    requires n.IsDir() && r.meta == DirMeta(n)
    ensures View(r) == Node(DirMeta(n), "", 0, [], ViewKids(r))
    ensures Written(n) == Node(DirMeta(n), "", 0, [], WrittenKids(n))
  {
    hide ViewKids, WrittenKids;
  }

  lemma KidsWritten(n: Tree, r: Tree)
    requires r.kids.Keys == n.kids.Keys && forall x :: x in n.kids ==> View(r.kids[x]) == Written(n.kids[x])
    ensures ViewKids(r) == WrittenKids(n)
  {
    hide View, Written;
  }

  lemma {:induction false} SubtreeKidsApplied(t: Tree, n: Tree, names: seq<string>)
    requires WellFormed(n) && n.IsDir()
    requires forall x :: x in names ==> x in n.kids && x !in t.kids
    requires forall i, j :: 0 <= i < j < |names| ==> names[i] != names[j]
    ensures var r := ApplyAll(t, SubtreeKids(n, names));
      && (forall x :: x in r.kids <==> x in t.kids || x in names)
      && (forall x :: x in t.kids && x !in names ==> r.kids[x] == t.kids[x])
      && (forall x :: x in names ==> x in r.kids && View(r.kids[x]) == Written(n.kids[x]))
    decreases n, 0, |names|
  {
    if names != [] {
      var x := names[0];
      assert x in names;
      SubtreeApplied(t, n.kids[x], x);
      var t1 := ApplyAll(t, Subtree(n.kids[x], x));
      ApplyAppend(t, Subtree(n.kids[x], x), SubtreeKids(n, names[1..]));
      assert forall y :: y in names <==> y == x || y in names[1..];
      SubtreeKidsApplied(t1, n, names[1..]);
    }
  }

  // ----- A diff applied.

  /** Below the names still to come t has what o has, and the others are left alone. */
  lemma {:induction false} DiffNamesApplied(t: Tree, o: Tree, n: Tree, names: seq<string>)
    requires WellFormed(o) && WellFormed(n)
    requires forall x :: x in names ==> (x in o.kids || x in n.kids) && KidOf(t, x) == KidOf(o, x)
    requires forall i, j :: 0 <= i < j < |names| ==> names[i] != names[j]
    ensures var r := ApplyAll(t, DiffNames(o, n, names));
      && (forall x :: x !in names ==> KidOf(r, x) == KidOf(t, x))
      && (forall x :: x in names ==> (x in r.kids <==> x in n.kids))
      && (forall x :: x in names && x in n.kids ==> x in r.kids && View(r.kids[x]) == PatchedKid(o, n, x))
    decreases n, 1, |names|
  {
    if names != [] {
      var x := names[0];
      assert x in names;
      DiffNameApplied(t, o, n, x);
      var t1 := ApplyAll(t, DiffName(o, n, x));
      ApplyAppend(t, DiffName(o, n, x), DiffNames(o, n, names[1..]));
      assert forall y :: y in names <==> y == x || y in names[1..];
      forall y | y in names[1..]
        ensures KidOf(t1, y) == KidOf(o, y)
      {
        assert y != x;
      }
      DiffNamesApplied(t1, o, n, names[1..]);
      var r := ApplyAll(t1, DiffNames(o, n, names[1..]));
      assert x !in names[1..] && KidOf(r, x) == KidOf(t1, x);
    }
  }

  lemma {:induction false} DiffNameApplied(t: Tree, o: Tree, n: Tree, x: string)
    requires WellFormed(o) && WellFormed(n)
    requires (x in o.kids || x in n.kids) && KidOf(t, x) == KidOf(o, x)
    ensures var r := ApplyAll(t, DiffName(o, n, x));
      && (forall y :: y != x ==> KidOf(r, y) == KidOf(t, y))
      && (x in r.kids <==> x in n.kids)
      && (x in n.kids ==> View(r.kids[x]) == PatchedKid(o, n, x))
    decreases n, 0, 1
  {
    hide ApplyAll, Subtree, Diff, View, Written, Patched, Changed;
    if x !in n.kids {
      ApplyOne(t, Item([x], Whiteout));
    } else if x !in o.kids {
      SubtreeApplied(t, n.kids[x], x);
    } else if o.kids[x].IsDir() && n.kids[x].IsDir() {
      SharedDirApplied(t, o, n, x);
    } else if Changed(o.kids[x], n.kids[x]) {
      SubtreeApplied(t, n.kids[x], x);
    } else {
      ApplyNothing(t);
    }
  }

  lemma {:induction false} SharedDirApplied(t: Tree, o: Tree, n: Tree, x: string)
    requires WellFormed(o) && WellFormed(n)
    requires x in o.kids && x in n.kids && x in t.kids && t.kids[x] == o.kids[x]
    requires o.kids[x].IsDir() && n.kids[x].IsDir()
    ensures var r := ApplyAll(t, DiffName(o, n, x));
      && x in r.kids && r == t.(kids := t.kids[x := r.kids[x]])
      && View(r.kids[x]) == PatchedKid(o, n, x)
    decreases n, 0, 0
  {
    hide ApplyAll, Diff, Under, Changed, Upserted, EntryOf;
    var oc, nc := o.kids[x], n.kids[x];
    var head := if Changed(oc, nc) then [Item([x], EntryOf(nc))] else [];
    var below := Diff(oc, nc);
    var c := if Changed(oc, nc) then Upserted(Some(oc), EntryOf(nc)) else oc;
    var t1 := t.(kids := t.kids[x := c]);
    UpsertedDir(Some(oc), nc);
    assert ApplyAll(t, head) == t1 by {
      if Changed(oc, nc) {
        ApplyEntry(t, x, EntryOf(nc));
      } else {
        assert t.kids[x := oc] == t.kids;
        ApplyNothing(t);
      }
    }
    ApplyAppend(t, head, Under(x, below));
    ApplyUnder(t1, x, below);
    DiffApplied(c, oc, nc);
    ApplyKeepsNode(c, below);
    var r := ApplyAll(c, below);
    assert t1.kids[x := r] == t.kids[x := r];
    ApplyNothing(c);
  }

  lemma ApplyNothing(t: Tree)
    ensures ApplyAll(t, []) == t
  {
  }

  /** Applying the diff of o and n to a directory with the children of o. */
  lemma {:induction false} DiffApplied(t: Tree, o: Tree, n: Tree)
    requires WellFormed(o) && WellFormed(n) && t.kids == o.kids
    ensures ViewKids(ApplyAll(t, Diff(o, n))) == Patched(o, n)
    decreases n, 2, 0
  {
    hide ApplyAll, DiffNames, WellFormed, View, PatchedKid, Diff, Sorted, ViewKids, Patched;
    var names := Sorted(o.kids.Keys + n.kids.Keys);
    SortedElements(o.kids.Keys + n.kids.Keys);
    OrderedIsDistinct(names);
    DiffIs(o, n);
    DiffNamesApplied(t, o, n, names);
    AllPatched(t, o, n, names, ApplyAll(t, DiffNames(o, n, names)));
  }

  /** Every name was seen to: the result has the children of the patched tree. */
  lemma AllPatched(t: Tree, o: Tree, n: Tree, names: seq<string>, r: Tree)
    requires t.kids == o.kids && forall x :: x in names <==> x in o.kids || x in n.kids
    requires forall x :: x !in names ==> KidOf(r, x) == KidOf(t, x)
    requires forall x :: x in names ==> (x in r.kids <==> x in n.kids)
    requires forall x :: x in names && x in n.kids ==> x in r.kids && View(r.kids[x]) == PatchedKid(o, n, x)
    ensures ViewKids(r) == Patched(o, n)
  {
    hide View, PatchedKid;
    forall x
      ensures x in r.kids <==> x in n.kids
    {
      if x !in names {
        assert KidOf(r, x) == KidOf(t, x);
      }
    }
  }

  // ----- When the patched tree is the new one.

  /** The layer format carries the node and everything below it. */
  predicate Carried(n: Tree) {
    n.meta.mode.kind != Socket && n.meta.mode.special == 0 &&
    (n.IsDir() ==> forall x :: x in n.kids ==> Carried(n.kids[x]))
  }

  /** An unchanged node has the same attribute names, or a changed one is carried by the format. */
  predicate PairFaithful(o: Tree, n: Tree) {
    if Changed(o, n) then Carried(n) else o.meta.xattrs.Keys == n.meta.xattrs.Keys
  }

  predicate FaithfulKid(o: Tree, n: Tree, x: string)
    requires x in n.kids
    decreases n, 0
  {
    var k := n.kids[x];
    if x !in o.kids then Carried(k)
    else if o.kids[x].IsDir() && k.IsDir() then
      && (if Changed(o.kids[x], k) then k.meta.mode.special == 0 else o.kids[x].meta.xattrs.Keys == k.meta.xattrs.Keys)
      && Faithful(o.kids[x], k)
    else PairFaithful(o.kids[x], k)
  }

  predicate Faithful(o: Tree, n: Tree)
    decreases n, 1
  {
    forall x :: x in n.kids ==> FaithfulKid(o, n, x)
  }

  lemma {:induction false} WrittenIsView(n: Tree)
    ensures Written(n) == View(n) <==> Carried(n)
    decreases n
  {
    if n.IsDir() {
      forall x | x in n.kids
        ensures Written(n.kids[x]) == View(n.kids[x]) <==> Carried(n.kids[x])
      {
        WrittenIsView(n.kids[x]);
      }
      var w := WrittenKids(n);
      assert w == ViewKids(n) <==> forall x :: x in n.kids ==> w[x] == ViewKids(n)[x];
    }
  }

  lemma UnchangedIsView(o: Tree, n: Tree)
    requires !Changed(o, n)
    ensures o.meta == n.meta <==> o.meta.xattrs.Keys == n.meta.xattrs.Keys
    ensures !n.IsDir() ==> (View(o) == View(n) <==> o.meta.xattrs.Keys == n.meta.xattrs.Keys)
  {
    if o.meta.xattrs.Keys == n.meta.xattrs.Keys {
      assert o.meta.xattrs == n.meta.xattrs;
    }
  }

  lemma KidIsNew(o: Tree, n: Tree, x: string)
    requires x in n.kids
    requires x in o.kids && o.kids[x].IsDir() && n.kids[x].IsDir() ==>
      (Patched(o.kids[x], n.kids[x]) == ViewKids(n.kids[x]) <==> Faithful(o.kids[x], n.kids[x]))
    ensures PatchedKid(o, n, x) == View(n.kids[x]) <==> FaithfulKid(o, n, x)
  {
    hide Patched, Faithful, ViewKids;
    WrittenIsView(n.kids[x]);
    if x in o.kids && !Changed(o.kids[x], n.kids[x]) {
      UnchangedIsView(o.kids[x], n.kids[x]);
    }
  }

  /** The expected children are those of n exactly when the layer format does the pair justice. */
  lemma {:induction false} PatchedIsNew(o: Tree, n: Tree)
    ensures Patched(o, n) == ViewKids(n) <==> Faithful(o, n)
    decreases n
  {
    hide PatchedKid, FaithfulKid, View;
    forall x | x in n.kids
      ensures PatchedKid(o, n, x) == View(n.kids[x]) <==> FaithfulKid(o, n, x)
    {
      if x in o.kids && o.kids[x].IsDir() && n.kids[x].IsDir() {
        PatchedIsNew(o.kids[x], n.kids[x]);
      }
      KidIsNew(o, n, x);
    }
    var p, v := Patched(o, n), ViewKids(n);
    assert p == v <==> forall x :: x in n.kids ==> p[x] == v[x];
  }

  /** Applying the diff to the old tree gives the new tree, if and only if the pair is faithful. */
  lemma DiffRoundTrip(o: Tree, n: Tree)
    requires WellFormed(o) && WellFormed(n)
    ensures ViewKids(ApplyAll(o, Diff(o, n))) == ViewKids(n) <==> Faithful(o, n)
  {
    DiffApplied(o, o, n);
    PatchedIsNew(o, n);
  }

  /** No sockets, no setuid, setgid or sticky bits, no empty attribute values. */
  predicate Ordinary(t: Tree) {
    && t.meta.mode.kind != Socket && t.meta.mode.special == 0
    && (forall k :: k in t.meta.xattrs ==> t.meta.xattrs[k] != [])
    && forall x :: x in t.kids ==> Ordinary(t.kids[x])
  }

  lemma {:induction false} OrdinaryIsCarried(n: Tree)
    requires Ordinary(n)
    ensures Carried(n)
    decreases n
  {
    forall x | x in n.kids
      ensures Carried(n.kids[x])
    {
      OrdinaryIsCarried(n.kids[x]);
    }
  }

  lemma EqualXattrs(a: map<string, seq<nat>>, b: map<string, seq<nat>>)
    requires XattrsEqual(a, b) && forall k :: k in a ==> a[k] != []
    ensures a.Keys == b.Keys
  {
    assert a.Keys <= b.Keys;
    assert |b.Keys - a.Keys| == |b.Keys| - |a.Keys|;
  }

  /** Trees of ordinary nodes make the round trip. */
  lemma {:induction false} OrdinaryIsFaithful(o: Tree, n: Tree)
    requires Ordinary(o) && Ordinary(n)
    ensures Faithful(o, n)
    decreases n
  {
    forall x | x in n.kids
      ensures FaithfulKid(o, n, x)
    {
      OrdinaryIsCarried(n.kids[x]);
      if x in o.kids {
        OrdinaryIsFaithful(o.kids[x], n.kids[x]);
        if !Changed(o.kids[x], n.kids[x]) {
          EqualXattrs(o.kids[x].meta.xattrs, n.kids[x].meta.xattrs);
        }
      }
    }
  }

  /** A directory of one empty file or socket. */
  function OneFile(kind: Kind, special: nat, xattrs: map<string, seq<nat>>): (t: Tree)
    requires kind != Dir
    ensures WellFormed(t)
  {
    var f := Node(Meta(Mode(kind, 0x1A4, special), 0, 0, xattrs), "", 0, [], map[]);
    assert FileName("f") by { PlainName(); }
    PLACEHOLDER.(kids := map["f" := f])
  }

  lemma PlainName()
    ensures FileName("f")
  {
  }

  /** A pair that is taken for equal: the attribute keeps its old name. */
  lemma RenamedAttributeStays()
    ensures var o, n := OneFile(Regular, 0, map["user.a" := []]), OneFile(Regular, 0, map["user.b" := []]);
      ViewKids(ApplyAll(o, Diff(o, n))) != ViewKids(n)
  {
    var a: map<string, seq<nat>>, b: map<string, seq<nat>> := map["user.a" := []], map["user.b" := []];
    var o, n := OneFile(Regular, 0, a), OneFile(Regular, 0, b);
    assert |a.Keys| == |b.Keys| == 1;
    assert !Changed(o.kids["f"], n.kids["f"]);
    assert "user.a" in a.Keys && "user.a" !in b.Keys;
    assert !FaithfulKid(o, n, "f");
    DiffRoundTrip(o, n);
  }

  /** A pair whose layer does not say all: the setuid bit is lost. */
  lemma SetuidIsLost()
    ensures var o, n := OneFile(Regular, 0, map[]), OneFile(Regular, 4, map[]);
      ViewKids(ApplyAll(o, Diff(o, n))) != ViewKids(n)
  {
    var o, n := OneFile(Regular, 0, map[]), OneFile(Regular, 4, map[]);
    assert Changed(o.kids["f"], n.kids["f"]);
    assert !FaithfulKid(o, n, "f");
    DiffRoundTrip(o, n);
  }
  lemma OneViewed(t: Tree, f: Tree)
    requires t.kids == map["f" := f]
    ensures ViewKids(t) == map["f" := View(f)]
  {
    hide View;
  }

  lemma OnePatched(o: Tree, n: Tree, f: Tree, g: Tree)
    requires o.kids == map["f" := f] && n.kids == map["f" := g] && !g.IsDir() && Changed(f, g)
    ensures Patched(o, n) == map["f" := Written(g)]
  {
    hide Written, Changed, View;
  }

  lemma SocketWritten(f: Tree, g: Tree)
    requires f.meta.mode.kind == Regular && f.kids == map[] && f.meta.mode.special == 0
    requires g == f.(meta := f.meta.(mode := f.meta.mode.(kind := Socket)))
    ensures Changed(f, g) && Written(g) == View(f) != View(g)
  {
  }

  /** A file that became a socket stays a file. */
  lemma SocketStaysFile()
    ensures var o, n := OneFile(Regular, 0, map[]), OneFile(Socket, 0, map[]);
      ViewKids(ApplyAll(o, Diff(o, n))) == ViewKids(o) != ViewKids(n)
  {
    var o, n := OneFile(Regular, 0, map[]), OneFile(Socket, 0, map[]);
    var f, g := o.kids["f"], n.kids["f"];
    SocketWritten(f, g);
    hide ApplyAll, Diff, WellFormed, Changed, View, Written, ViewKids, Patched;
    DiffApplied(o, o, n);
    OnePatched(o, n, f, g);
    OneViewed(o, f);
    OneViewed(n, g);
    assert ViewKids(o)["f"] != ViewKids(n)["f"];
  }
}
