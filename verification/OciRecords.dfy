/** pkg/oci/diff.go: a layer records what differs between two trees, and nothing else. */
module OciRecords {
  import opened Modes
  import opened Options
  import opened Names
  import opened OciTrees

  // ----- When two nodes, and two trees, say the same.

  /** What a node of its kind shows beside its metadata. */
  predicate ShowSame(o: Tree, n: Tree) {
    && (n.meta.mode.kind == Symlink ==> o.link == n.link)
    && (n.meta.mode.kind == CharDevice || n.meta.mode.kind == BlockDevice ==> o.rdev == n.rdev)
    && (n.meta.mode.kind == Regular ==> o.content == n.content)
  }

  /** As many attributes, the same values under the names both have, and empty ones under the others of a. */
  predicate XattrsAgree(a: map<string, seq<nat>>, b: map<string, seq<nat>>) {
    && |a| == |b| && (forall k :: k in a && k in b ==> a[k] == b[k])
    && (forall k :: k in a && k !in b ==> a[k] == [])
  }

  predicate Agree(o: Tree, n: Tree) {
    && o.meta.mode == n.meta.mode && o.meta.uid == n.meta.uid && o.meta.gid == n.meta.gid
    && XattrsAgree(o.meta.xattrs, n.meta.xattrs) && ShowSame(o, n)
  }

  lemma ChangedIs(o: Tree, n: Tree)
    ensures Changed(o, n) <==> !Agree(o, n)
  {
  }

  /** The same names in the same places, over nodes that agree. */
  predicate TreesAgree(o: Tree, n: Tree)
    decreases n
  {
    && o.kids.Keys == n.kids.Keys
    && forall x :: x in n.kids && x in o.kids ==>
        && Agree(o.kids[x], n.kids[x])
        && (n.kids[x].IsDir() ==> TreesAgree(o.kids[x], n.kids[x]))
  }

  /** The same metadata throughout, and what every kind shows. */
  predicate Same(t: Tree, u: Tree)
    decreases u, 1
  {
    t.meta == u.meta && ShowSame(t, u) && (u.IsDir() ==> SameKids(t, u))
  }

  predicate SameKids(t: Tree, u: Tree)
    decreases u, 0
  {
    t.kids.Keys == u.kids.Keys && forall x :: x in u.kids && x in t.kids ==> Same(t.kids[x], u.kids[x])
  }

  /** Two trees have one view exactly when a reader finds the same in both. */
  lemma {:induction false} ViewIsSame(t: Tree, u: Tree)
    ensures View(t) == View(u) <==> Same(t, u)
    decreases u, 1
  {
    hide ViewKids, SameKids;
    if t.meta == u.meta && u.IsDir() {
      KidsViewed(t, u);
    }
  }

  lemma {:induction false} KidsViewed(t: Tree, u: Tree)
    ensures ViewKids(t) == ViewKids(u) <==> SameKids(t, u)
    decreases u, 0
  {
    hide View, Same;
    forall x | x in u.kids && x in t.kids
      ensures View(t.kids[x]) == View(u.kids[x]) <==> Same(t.kids[x], u.kids[x])
    {
      ViewIsSame(t.kids[x], u.kids[x]);
    }
    var a, b := ViewKids(t), ViewKids(u);
    assert a.Keys == t.kids.Keys && b.Keys == u.kids.Keys;
    if t.kids.Keys == u.kids.Keys {
      assert a == b <==> forall x :: x in u.kids ==> a[x] == b[x];
    }
  }

  // ----- What a layer has to say.

  /** The node that a path leads to through directories. */
  function At(t: Tree, path: seq<string>): Option<Tree>
    decreases |path|
  {
    if path == [] then Some(t)
    else if t.IsDir() && path[0] in t.kids then At(t.kids[path[0]], path[1..])
    else None
  }

  /** A whiteout is due for a name that is gone from a directory, an entry for a node that is new or does not agree
      with the old one, and for every node below one that is new or that replaced something else. */
  predicate Due(o: Tree, n: Tree, path: seq<string>, p: Payload)
    requires path != []
    decreases |path|
  {
    var x, rest := path[0], path[1..];
    if x !in n.kids then rest == [] && x in o.kids && p.Whiteout?
    else if x in o.kids && o.kids[x].IsDir() && n.kids[x].IsDir() && rest != [] then
      Due(o.kids[x], n.kids[x], rest, p)
    else
      && (x in o.kids ==> !Agree(o.kids[x], n.kids[x]))
      && At(n.kids[x], rest).Some? && p == EntryOf(At(n.kids[x], rest).value)
  }

  lemma UnderHas(x: string, items: seq<Item>, i: Item)
    requires i.path != []
    ensures i in Under(x, items) <==> i.path[0] == x && Item(i.path[1..], i.payload) in items
  {
    var u := Under(x, items);
    if i in u {
      var k :| 0 <= k < |u| && u[k] == i;
      assert i.path[1..] == items[k].path;
    }
    if i.path[0] == x && Item(i.path[1..], i.payload) in items {
      var k :| 0 <= k < |items| && items[k] == Item(i.path[1..], i.payload);
      assert [x] + i.path[1..] == i.path;
      assert u[k] == i;
    }
  }

  lemma OneThen(first: Item, more: seq<Item>, i: Item)
    ensures i in [first] + more <==> i == first || i in more
    ensures i == first <==> i.path == first.path && i.payload == first.payload
  {
  }

  /** A subtree is written out node by node. */
  lemma {:induction false} SubtreeHas(n: Tree, x: string, i: Item)
    requires i.path != []
    ensures i in Subtree(n, x) <==>
      i.path[0] == x && At(n, i.path[1..]).Some? && i.payload == EntryOf(At(n, i.path[1..]).value)
    decreases n, 1, 0
  {
    hide Subtree, EntryOf;
    SubtreeIs(n, x);
    var rest := i.path[1..];
    assert i.path == [i.path[0]] + rest;
    OneThen(Item([x], EntryOf(n)), if n.IsDir() then Under(x, SubtreeKids(n, Sorted(n.kids.Keys))) else [], i);
    if n.IsDir() {
      var names := Sorted(n.kids.Keys);
      SortedElements(n.kids.Keys);
      var below := SubtreeKids(n, names);
      UnderHas(x, below, i);
      if rest != [] {
        SubtreeKidsHas(n, names, Item(rest, i.payload));
      } else {
        assert Item(rest, i.payload) !in below;
      }
    }
  }

  lemma {:induction false} SubtreeKidsHas(n: Tree, names: seq<string>, i: Item)
    requires n.IsDir() && i.path != [] && forall x :: x in names ==> x in n.kids
    ensures i in SubtreeKids(n, names) <==>
      i.path[0] in names && At(n, i.path).Some? && i.payload == EntryOf(At(n, i.path).value)
    decreases n, 0, |names|
  {
    hide Subtree, EntryOf;
    if names != [] {
      assert names[0] in names;
      SubtreeHas(n.kids[names[0]], names[0], i);
      SubtreeKidsHas(n, names[1..], i);
    }
  }

  /** A layer has an item exactly when it is due. */
  lemma {:induction false} DiffHas(o: Tree, n: Tree, i: Item)
    requires i.path != []
    ensures i in Diff(o, n) <==> Due(o, n, i.path, i.payload)
    decreases n, 2, 0
  {
    hide DiffNames, Due;
    var names := Sorted(o.kids.Keys + n.kids.Keys);
    SortedElements(o.kids.Keys + n.kids.Keys);
    DiffIs(o, n);
    DiffNamesHas(o, n, names, i);
    if i.path[0] !in names {
      NothingDue(o, n, i.path, i.payload);
    }
  }

  lemma NothingDue(o: Tree, n: Tree, path: seq<string>, p: Payload)
    requires path != [] && path[0] !in o.kids && path[0] !in n.kids
    ensures !Due(o, n, path, p)
  {
  }

  lemma {:induction false} DiffNamesHas(o: Tree, n: Tree, names: seq<string>, i: Item)
    requires i.path != [] && forall x :: x in names ==> x in o.kids || x in n.kids
    ensures i in DiffNames(o, n, names) <==> i.path[0] in names && Due(o, n, i.path, i.payload)
    decreases n, 1, |names|
  {
    hide DiffName, Due;
    if names != [] {
      assert names[0] in names;
      DiffNameHas(o, n, names[0], i);
      DiffNamesHas(o, n, names[1..], i);
    }
  }

  lemma {:induction false} DiffNameHas(o: Tree, n: Tree, x: string, i: Item)
    requires i.path != [] && (x in o.kids || x in n.kids)
    ensures i in DiffName(o, n, x) <==> i.path[0] == x && Due(o, n, i.path, i.payload)
    decreases n, 0, 1
  {
    hide Subtree, Diff, Changed, Agree, EntryOf, At;
    var rest := i.path[1..];
    assert i.path == [i.path[0]] + rest;
    OneThen(Item([x], Whiteout), [], i);
    assert [Item([x], Whiteout)] + [] == [Item([x], Whiteout)];
    if x in n.kids {
      SubtreeHas(n.kids[x], x, i);
      if x in o.kids {
        ChangedIs(o.kids[x], n.kids[x]);
        if o.kids[x].IsDir() && n.kids[x].IsDir() {
          SharedDirHas(o, n, x, i);
        }
      }
    }
  }

  lemma {:induction false} SharedDirHas(o: Tree, n: Tree, x: string, i: Item)
    requires i.path != [] && x in o.kids && x in n.kids && o.kids[x].IsDir() && n.kids[x].IsDir()
    ensures i in DiffName(o, n, x) <==> i.path[0] == x && Due(o, n, i.path, i.payload)
    decreases n, 0, 0
  {
    hide Diff, Changed, Agree, EntryOf;
    var rest := i.path[1..];
    assert i.path == [i.path[0]] + rest;
    var below := Diff(o.kids[x], n.kids[x]);
    ChangedIs(o.kids[x], n.kids[x]);
    UnderHas(x, below, i);
    OneThen(Item([x], EntryOf(n.kids[x])), Under(x, below), i);
    assert [] + Under(x, below) == Under(x, below);
    if rest != [] {
      DiffHas(o.kids[x], n.kids[x], Item(rest, i.payload));
    } else {
      assert Item(rest, i.payload) !in below;
    }
  }

  // ----- In which order, and so no path twice.

  /** A directory before what is in it, and the names of a directory in order. */
  predicate PathBefore(p: seq<string>, q: seq<string>)
    decreases |p|
  {
    q != [] && (p == [] || Before(p[0], q[0]) || (p[0] == q[0] && PathBefore(p[1..], q[1..])))
  }

  ghost predicate InOrder(items: seq<Item>) {
    forall i, j :: 0 <= i < j < |items| ==> PathBefore(items[i].path, items[j].path)
  }

  ghost predicate StartWith(items: seq<Item>, names: seq<string>) {
    forall i :: i in items ==> i.path != [] && i.path[0] in names
  }

  lemma {:induction false} NotBeforeItself(p: seq<string>)
    ensures !PathBefore(p, p)
    decreases |p|
  {
    if p != [] {
      BeforeOrders(p[0], p[0]);
      NotBeforeItself(p[1..]);
    }
  }

  lemma InOrderNone()
    ensures InOrder([])
  {
  }

  lemma InOrderOne(i: Item)
    ensures InOrder([i])
  {
  }

  lemma InOrderApart(a: seq<Item>, b: seq<Item>, x: string, names: seq<string>)
    requires InOrder(a) && InOrder(b) && StartWith(a, [x]) && StartWith(b, names)
    requires forall y :: y in names ==> Before(x, y)
    ensures InOrder(a + b)
  {
    var all := a + b;
    forall i, j | 0 <= i < j < |all|
      ensures PathBefore(all[i].path, all[j].path)
    {
      if i < |a| <= j {
        assert all[i] in a && all[j] in b;
      }
    }
  }

  lemma InOrderUnder(x: string, items: seq<Item>)
    requires InOrder(items)
    ensures InOrder(Under(x, items))
  {
    var u := Under(x, items);
    forall i, j | 0 <= i < j < |u|
      ensures PathBefore(u[i].path, u[j].path)
    {
      assert u[i].path[1..] == items[i].path && u[j].path[1..] == items[j].path;
    }
  }

  /** A node before what is below it. */
  lemma InOrderBelow(x: string, p: Payload, items: seq<Item>)
    requires InOrder(items) && Proper(items)
    ensures InOrder([Item([x], p)] + Under(x, items))
  {
    InOrderUnder(x, items);
    var u := Under(x, items);
    forall j | 0 <= j < |u|
      ensures PathBefore([x], u[j].path)
    {
      assert items[j] in items && u[j].path[1..] == items[j].path && [x][1..] == [];
    }
  }

  lemma {:induction false} SubtreeInOrder(n: Tree, x: string)
    ensures InOrder(Subtree(n, x)) && StartWith(Subtree(n, x), [x])
    decreases n, 1, 0
  {
    hide Subtree, InOrder, EntryOf;
    SubtreeIs(n, x);
    InOrderOne(Item([x], EntryOf(n)));
    if n.IsDir() {
      var names := Sorted(n.kids.Keys);
      SortedElements(n.kids.Keys);
      SubtreeKidsInOrder(n, names);
      InOrderBelow(x, EntryOf(n), SubtreeKids(n, names));
    }
    forall i | i in Subtree(n, x)
      ensures i.path != [] && i.path[0] in [x]
    {
      SubtreeHas(n, x, i);
    }
  }

  lemma {:induction false} SubtreeKidsInOrder(n: Tree, names: seq<string>)
    requires n.IsDir() && Ordered(names) && forall x :: x in names ==> x in n.kids
    ensures InOrder(SubtreeKids(n, names)) && StartWith(SubtreeKids(n, names), names)
    decreases n, 0, |names|
  {
    hide Subtree, InOrder;
    InOrderNone();
    if names != [] {
      var x := names[0];
      assert x in names;
      SubtreeInOrder(n.kids[x], x);
      SubtreeKidsInOrder(n, names[1..]);
      InOrderApart(Subtree(n.kids[x], x), SubtreeKids(n, names[1..]), x, names[1..]);
    }
  }

  /** A layer is in order, so that no path is recorded twice. */
  lemma {:induction false} DiffInOrder(o: Tree, n: Tree)
    ensures InOrder(Diff(o, n))
    ensures forall i, j :: 0 <= i < j < |Diff(o, n)| ==> Diff(o, n)[i].path != Diff(o, n)[j].path
    decreases n, 2, 0
  {
    hide DiffNames, PathBefore;
    var names := Sorted(o.kids.Keys + n.kids.Keys);
    SortedElements(o.kids.Keys + n.kids.Keys);
    DiffIs(o, n);
    DiffNamesInOrder(o, n, names);
    forall i | 0 <= i < |Diff(o, n)|
      ensures !PathBefore(Diff(o, n)[i].path, Diff(o, n)[i].path)
    {
      NotBeforeItself(Diff(o, n)[i].path);
    }
  }

  lemma {:induction false} DiffNamesInOrder(o: Tree, n: Tree, names: seq<string>)
    requires Ordered(names) && forall x :: x in names ==> x in o.kids || x in n.kids
    ensures InOrder(DiffNames(o, n, names)) && StartWith(DiffNames(o, n, names), names)
    decreases n, 1, |names|
  {
    hide DiffName, InOrder;
    InOrderNone();
    if names != [] {
      var x := names[0];
      assert x in names;
      DiffNameInOrder(o, n, x);
      DiffNamesInOrder(o, n, names[1..]);
      InOrderApart(DiffName(o, n, x), DiffNames(o, n, names[1..]), x, names[1..]);
    }
  }

  lemma {:induction false} DiffNameInOrder(o: Tree, n: Tree, x: string)
    requires x in o.kids || x in n.kids
    ensures InOrder(DiffName(o, n, x)) && StartWith(DiffName(o, n, x), [x])
    decreases n, 0, 0
  {
    hide Subtree, Diff, Changed, EntryOf, InOrder;
    InOrderNone();
    InOrderOne(Item([x], Whiteout));
    if x in n.kids {
      SubtreeInOrder(n.kids[x], x);
      if x in o.kids && o.kids[x].IsDir() && n.kids[x].IsDir() {
        var below := Diff(o.kids[x], n.kids[x]);
        DiffInOrder(o.kids[x], n.kids[x]);
        InOrderUnder(x, below);
        InOrderBelow(x, EntryOf(n.kids[x]), below);
        assert [] + Under(x, below) == Under(x, below);
      }
    }
    forall i | i in DiffName(o, n, x)
      ensures i.path != [] && i.path[0] in [x]
    {
      DiffNameHas(o, n, x, i);
    }
  }

  /** A layer is empty exactly when the trees agree. */
  lemma {:induction false} EmptyWhenAgreed(o: Tree, n: Tree)
    ensures Diff(o, n) == [] <==> TreesAgree(o, n)
    decreases n, 2
  {
    hide DiffNames, DiffName, Agree, TreesAgree;
    var names := Sorted(o.kids.Keys + n.kids.Keys);
    SortedElements(o.kids.Keys + n.kids.Keys);
    DiffIs(o, n);
    NoneOfNames(o, n, names);
    forall x | x in names
      ensures DiffName(o, n, x) == [] <==> NameAgrees(o, n, x)
    {
      EmptyName(o, n, x);
    }
    NamesAgree(o, n, names);
  }

  predicate NameAgrees(o: Tree, n: Tree, x: string) {
    && x in o.kids && x in n.kids && Agree(o.kids[x], n.kids[x])
    && (n.kids[x].IsDir() ==> TreesAgree(o.kids[x], n.kids[x]))
  }

  lemma NamesAgree(o: Tree, n: Tree, names: seq<string>)
    requires forall x :: x in names <==> x in o.kids || x in n.kids
    ensures TreesAgree(o, n) <==> forall x :: x in names ==> NameAgrees(o, n, x)
  {
    hide Agree;
    if forall x :: x in names ==> NameAgrees(o, n, x) {
      assert forall x :: x in o.kids || x in n.kids ==> NameAgrees(o, n, x);
    }
  }

  lemma {:induction false} NoneOfNames(o: Tree, n: Tree, names: seq<string>)
    requires forall x :: x in names ==> x in o.kids || x in n.kids
    ensures DiffNames(o, n, names) == [] <==> forall x :: x in names ==> DiffName(o, n, x) == []
  {
    hide DiffName;
    if names != [] {
      assert names[0] in names;
      NoneOfNames(o, n, names[1..]);
      assert forall x :: x in names <==> x == names[0] || x in names[1..];
    }
  }

  lemma {:induction false} EmptyName(o: Tree, n: Tree, x: string)
    requires x in o.kids || x in n.kids
    ensures DiffName(o, n, x) == [] <==> NameAgrees(o, n, x)
    decreases n, 1
  {
    hide Diff, Subtree, Changed, TreesAgree, Agree;
    if x in n.kids {
      SubtreeIs(n.kids[x], x);
      if x in o.kids {
        ChangedIs(o.kids[x], n.kids[x]);
        AgreeOnKind(o.kids[x], n.kids[x]);
        if o.kids[x].IsDir() && n.kids[x].IsDir() {
          EmptyWhenAgreed(o.kids[x], n.kids[x]);
        }
      }
    }
  }

  lemma AgreeOnKind(o: Tree, n: Tree)
    ensures Agree(o, n) ==> o.meta.mode.kind == n.meta.mode.kind
  {
  }

  // ----- What applying an item changes, and what it leaves alone.

  /** The node is what the entry says, over the children and the other fields it had. */
  predicate Carries(n: Tree, e: Payload, was: Option<Tree>)
    requires e.Entry?
  {
    && n.meta == Meta(Mode(e.kind, e.perm, e.special), e.uid, e.gid, e.xattrs)
    && (e.kind == Symlink ==> n.link == e.link)
    && (e.kind == CharDevice || e.kind == BlockDevice ==> n.rdev == e.rdev)
    && (e.kind == Regular ==> n.content == e.body)
    && n.kids == match was { case Some(w) => w.kids case None => map[] }
  }

  /** A directory on the way keeps its metadata; one that was missing, or was no directory, has mode 0755. */
  predicate OnTheWay(n: Tree, was: Option<Tree>) {
    && n.IsDir()
    && n.meta == if was.Some? && was.value.IsDir() then was.value.meta else Meta(Mode(Dir, 0x1ED, 0), 0, 0, map[])
  }

  /** What path q led to before and leads to after an item at path: directories on the way to it are there, what it
      hides is gone, and what is neither stays. */
  predicate Affects(path: seq<string>, p: Payload, q: seq<string>, was: Option<Tree>, now: Option<Tree>)
    requires path != []
  {
    var dir := path[..|path| - 1];
    if q <= dir then now.Some? && OnTheWay(now.value, was)
    else if p.Opaque? then if dir <= q then now.None? else now == was
    else if !(path <= q) then now == was
    else if p.Whiteout? then now.None?
    else if q == path then now.Some? && Carries(now.value, p, was)
    else true
  }

  lemma {:induction false} ItemApplied(t: Tree, path: seq<string>, p: Payload, q: seq<string>)
    requires t.IsDir() && path != [] && q != []
    ensures Affects(path, p, q, At(t, q), At(ApplyItem(t, path, p), q))
    decreases |path|
  {
    hide Affects, Carries, OnTheWay, ApplyItem, Upserted, At, Descend;
    if |path| == 1 {
      LastApplied(t, path[0], p, q);
      assert path == [path[0]];
    } else {
      StepSeen(t, path, p, q);
      if q[0] != path[0] {
        Elsewhere(path, p, q, At(t, q));
      } else if |q| == 1 {
        JustPassed(path, p, q, At(t, q), At(ApplyItem(t, path, p), q));
      } else {
        ItemApplied(Descend(t, path[0]), path[1..], p, q[1..]);
        OneStepBack(path, p, q, At(t, q), At(ApplyItem(t, path, p), q));
      }
    }
  }

  lemma StepApplied(t: Tree, path: seq<string>, p: Payload)
    requires t.IsDir() && |path| > 1
    ensures var r, d := ApplyItem(t, path, p), Descend(t, path[0]);
      && r.IsDir() && r.kids.Keys == t.kids.Keys + {path[0]} && d.IsDir()
      && (forall y :: y in t.kids && y != path[0] ==> r.kids[y] == t.kids[y])
      && r.kids[path[0]] == ApplyItem(d, path[1..], p) && r.kids[path[0]].meta == d.meta
  {
    hide Upserted;
  }

  lemma StepSeen(t: Tree, path: seq<string>, p: Payload, q: seq<string>)
    requires t.IsDir() && |path| > 1 && q != []
    ensures var was, now, d := At(t, q), At(ApplyItem(t, path, p), q), Descend(t, path[0]);
      && d.IsDir() && (q[0] != path[0] ==> now == was)
      && (q[0] == path[0] && |q| == 1 ==> now.Some? && OnTheWay(now.value, was))
      && (q[0] == path[0] && |q| > 1 ==> was == At(d, q[1..]) && now == At(ApplyItem(d, path[1..], p), q[1..]))
  {
    hide ApplyItem;
    StepApplied(t, path, p);
    if |q| == 1 {
      assert q[1..] == [];
    }
  }

  lemma LastApplied(t: Tree, x: string, p: Payload, q: seq<string>)
    requires t.IsDir() && q != []
    ensures Affects([x], p, q, At(t, q), At(ApplyItem(t, [x], p), q))
  {
    assert [x][..0] == [] && ([x] <= q <==> q[0] == x);
    if |q| == 1 && q[0] == x {
      assert q == [x] && q[1..] == [];
    }
  }

  lemma Elsewhere(path: seq<string>, p: Payload, q: seq<string>, was: Option<Tree>)
    requires |path| > 1 && q != [] && q[0] != path[0]
    ensures Affects(path, p, q, was, was)
  {
    assert path[..|path| - 1][0] == path[0];
  }

  lemma JustPassed(path: seq<string>, p: Payload, q: seq<string>, was: Option<Tree>, now: Option<Tree>)
    requires |path| > 1 && |q| == 1 && q[0] == path[0] && now.Some? && OnTheWay(now.value, was)
    ensures Affects(path, p, q, was, now)
  {
    hide OnTheWay;
  }

  lemma OneStepBack(path: seq<string>, p: Payload, q: seq<string>, was: Option<Tree>, now: Option<Tree>)
    requires |path| > 1 && |q| > 1 && q[0] == path[0] && Affects(path[1..], p, q[1..], was, now)
    ensures Affects(path, p, q, was, now)
  {
    hide OnTheWay, Carries;
    var dir, rest := path[..|path| - 1], path[1..];
    assert dir[1..] == rest[..|rest| - 1];
    Behind(q, dir);
    Behind(dir, q);
    Behind(path, q);
    Behind(q, path);
  }

  lemma Behind(a: seq<string>, b: seq<string>)
    requires a != [] && b != [] && a[0] == b[0]
    ensures a <= b <==> a[1..] <= b[1..]
    ensures a == b <==> a[1..] == b[1..]
  {
    assert a == [a[0]] + a[1..] && b == [b[0]] + b[1..];
  }
}
