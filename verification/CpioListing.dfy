/** What the pre-order list of a tree says about the tree. */
module CpioListing {
  import opened Options
  import opened Names
  import opened CpioWriter

  function Parent(path: seq<string>): seq<string>
    requires path != []
  {
    path[..|path| - 1]
  }

  function Last(path: seq<string>): string
    requires path != []
  {
    path[|path| - 1]
  }

  /** The node a path leads to. */
  function Lookup(t: Tree, path: seq<string>): Option<Tree>
    decreases |path|
  {
    if path == [] then Some(t)
    else if t.Leaf? || path[0] !in t.kids then None
    else Lookup(t.kids[path[0]], path[1..])
  }

  /** Paths are valid and distinct, and every directory comes before what it holds. */
  ghost predicate Listing(es: seq<Named>, prefix: seq<string>) {
    && (forall i :: 0 <= i < |es| ==> Below(es[i].path, prefix))
    && (forall i, j :: 0 <= i < j < |es| ==> es[i].path != es[j].path)
    && (forall i :: 0 <= i < |es| ==> Rooted(es, i, prefix))
  }

  ghost predicate Below(path: seq<string>, prefix: seq<string>) {
    |path| > |prefix| && path[..|prefix|] == prefix && ValidPath(path)
  }

  ghost predicate Rooted(es: seq<Named>, i: nat, prefix: seq<string>)
    requires i < |es| && es[i].path != []
  {
    Parent(es[i].path) == prefix || exists j :: 0 <= j < i && es[j].path == Parent(es[i].path) && es[j].node.Folder?
  }

  /** The first component below the prefix is one of the names. */
  ghost predicate Among(es: seq<Named>, prefix: seq<string>, names: seq<string>) {
    forall i :: 0 <= i < |es| ==> |es[i].path| > |prefix| && es[i].path[|prefix|] in names
  }

  lemma {:induction false} CollectLists(t: Tree, prefix: seq<string>)
    requires ValidPath(prefix) && GoodNames(t)
    ensures Listing(Collect(t, prefix), prefix)
    decreases t, 1, 0
  {
    hide ValidName;
    if t.Folder? {
      SortedElements(t.kids.Keys);
      CollectKidsLists(t, Sorted(t.kids.Keys), prefix);
    }
  }

  lemma {:induction false} CollectKidsLists(t: Tree, names: seq<string>, prefix: seq<string>)
    requires t.Folder? && ValidPath(prefix) && GoodNames(t)
    requires Ordered(names) && forall x :: x in names ==> x in t.kids
    ensures Listing(CollectKids(t, names, prefix), prefix) && Among(CollectKids(t, names, prefix), prefix, names)
    decreases t, 0, |names|
  {
    hide ValidName, Ordered, Listing, Among, Collect, CollectKids;
    if names == [] {
      NothingListed(t, prefix);
    } else {
      var x := names[0];
      assert x in names;
      OneValid(t, prefix, x);
      var below := Collect(t.kids[x], prefix + [x]);
      CollectLists(t.kids[x], prefix + [x]);
      if t.kids[x].Leaf? {
        LeafCollects(t.kids[x], prefix + [x]);
      }
      HeadListed(below, prefix, x, t.kids[x]);
      OrderedTail(names);
      CollectKidsLists(t, names[1..], prefix);
      Concatenated([Named(prefix + [x], t.kids[x])] + below, CollectKids(t, names[1..], prefix), prefix, names);
      FirstKid(t, names, prefix);
    }
  }

  lemma FirstKid(t: Tree, names: seq<string>, prefix: seq<string>)
    requires t.Folder? && names != [] && forall x :: x in names ==> x in t.kids
    ensures names[0] in t.kids
    ensures CollectKids(t, names, prefix) ==
            [Named(prefix + [names[0]], t.kids[names[0]])] + Collect(t.kids[names[0]], prefix + [names[0]]) +
            CollectKids(t, names[1..], prefix)
  {
    assert names[0] in names;
  }

  lemma NothingListed(t: Tree, prefix: seq<string>)
    requires t.Folder?
    ensures CollectKids(t, [], prefix) == [] && Listing([], prefix) && Among([], prefix, [])
  {
  }

  lemma OneValid(t: Tree, prefix: seq<string>, x: string)
    requires t.Folder? && x in t.kids && GoodNames(t) && ValidPath(prefix)
    ensures ValidPath(prefix + [x]) && GoodNames(t.kids[x])
  {
  }

  lemma OrderedTail(names: seq<string>)
    requires names != [] && Ordered(names)
    ensures Ordered(names[1..]) && names[0] !in names[1..]
  {
    forall i | 0 <= i < |names[1..]|
      ensures names[1..][i] != names[0]
    {
      assert Before(names[0], names[i + 1]);
      BeforeOrders(names[0], names[0]);
    }
  }

  /** A node and what is below it. */
  lemma HeadListed(below: seq<Named>, prefix: seq<string>, x: string, n: Tree)
    requires Listing(below, prefix + [x]) && ValidPath(prefix + [x]) && (n.Folder? || below == [])
    ensures Listing([Named(prefix + [x], n)] + below, prefix) && Among([Named(prefix + [x], n)] + below, prefix, [x])
  {
    var es := [Named(prefix + [x], n)] + below;
    forall i | 0 <= i < |es|
      ensures Below(es[i].path, prefix) && es[i].path[|prefix|] == x && (i > 0 ==> |es[i].path| > |prefix| + 1)
    {
      if i > 0 {
        assert Below(below[i - 1].path, prefix + [x]);
        var p := es[i].path;
        assert p[..|prefix| + 1][..|prefix|] == p[..|prefix|];
        assert p[..|prefix| + 1][|prefix|] == x;
      }
    }
    forall i | 0 <= i < |es|
      ensures Rooted(es, i, prefix)
    {
      if i == 0 {
        assert Parent(prefix + [x]) == prefix;
      } else {
        assert Rooted(below, i - 1, prefix + [x]) && es[i] == below[i - 1];
        if Parent(es[i].path) == prefix + [x] {
          assert es[0].path == Parent(es[i].path) && es[0].node.Folder?;
        } else {
          var j :| 0 <= j < i - 1 && below[j].path == Parent(below[i - 1].path) && below[j].node.Folder?;
          assert es[j + 1] == below[j];
        }
      }
    }
  }

  lemma Concatenated(a: seq<Named>, b: seq<Named>, prefix: seq<string>, names: seq<string>)
    requires names != [] && names[0] !in names[1..]
    requires Listing(a, prefix) && Among(a, prefix, [names[0]]) && Listing(b, prefix) && Among(b, prefix, names[1..])
    ensures Listing(a + b, prefix) && Among(a + b, prefix, names)
  {
    var es := a + b;
    forall i, j | 0 <= i < j < |es|
      ensures es[i].path != es[j].path
    {
      if i < |a| <= j {
        assert a[i].path[|prefix|] in [names[0]] && b[j - |a|].path[|prefix|] in names[1..];
      } else if j < |a| {
      } else {
        assert b[i - |a|].path != b[j - |a|].path;
      }
    }
    forall i | 0 <= i < |es|
      ensures Rooted(es, i, prefix) && Below(es[i].path, prefix)
    {
      if i < |a| {
        assert Rooted(a, i, prefix);
        if Parent(es[i].path) != prefix {
          var j :| 0 <= j < i && a[j].path == Parent(a[i].path) && a[j].node.Folder?;
          assert es[j] == a[j];
        }
      } else {
        assert Rooted(b, i - |a|, prefix);
        if Parent(es[i].path) != prefix {
          var j :| 0 <= j < i - |a| && b[j].path == Parent(b[i - |a|].path) && b[j].node.Folder?;
          assert es[j + |a|] == b[j];
        }
      }
    }
  }

  // ----- The list and Lookup say the same.

  lemma {:induction false} ListedIsFound(t: Tree, prefix: seq<string>, path: seq<string>, n: Tree)
    requires path != []
    ensures Lookup(t, path) == Some(n) <==> Named(prefix + path, n) in Collect(t, prefix)
    decreases t, 1, 0
  {
    if t.Folder? {
      SortedElements(t.kids.Keys);
      CollectIs(t, prefix);
      KidsListed(t, Sorted(t.kids.Keys), prefix, path, n);
    }
  }

  lemma {:induction false} KidsListed(t: Tree, names: seq<string>, prefix: seq<string>, path: seq<string>, n: Tree)
    requires t.Folder? && path != [] && forall x :: x in names ==> x in t.kids
    ensures path[0] in names && Lookup(t, path) == Some(n) <==> Named(prefix + path, n) in CollectKids(t, names, prefix)
    decreases t, 0, |names|
  {
    hide Collect, CollectKids, Lookup;
    if names == [] {
      KidsDone(t, prefix);
    } else {
      var x := names[0];
      FirstKid(t, names, prefix);
      KidsListed(t, names[1..], prefix, path, n);
      KidListed(t, x, prefix, path, n);
    }
  }

  lemma {:induction false} KidListed(t: Tree, x: string, prefix: seq<string>, path: seq<string>, n: Tree)
    requires t.Folder? && x in t.kids && path != []
    ensures path[0] == x && Lookup(t, path) == Some(n) <==>
            Named(prefix + path, n) in [Named(prefix + [x], t.kids[x])] + Collect(t.kids[x], prefix + [x])
    decreases t, 0, 0
  {
    hide Collect;
    CollectedBelow(t.kids[x], prefix + [x]);
    if path[0] == x {
      assert prefix + path == prefix + [x] + path[1..];
      if path == [x] {
        assert Lookup(t, path) == Some(t.kids[x]);
      } else {
        ListedIsFound(t.kids[x], prefix + [x], path[1..], n);
        assert Lookup(t, path) == Lookup(t.kids[x], path[1..]);
      }
    } else {
      assert (prefix + path)[|prefix|] == path[0];
    }
  }

  /** What is collected lies strictly below the prefix. */
  lemma {:induction false} CollectedBelow(t: Tree, prefix: seq<string>)
    ensures forall e :: e in Collect(t, prefix) ==> |e.path| > |prefix| && e.path[..|prefix|] == prefix
    decreases t, 1, 0
  {
    if t.Folder? {
      SortedElements(t.kids.Keys);
      KidsBelow(t, Sorted(t.kids.Keys), prefix);
    }
  }

  lemma {:induction false} KidsBelow(t: Tree, names: seq<string>, prefix: seq<string>)
    requires t.Folder? && forall x :: x in names ==> x in t.kids
    ensures forall e :: e in CollectKids(t, names, prefix) ==> |e.path| > |prefix| && e.path[..|prefix|] == prefix
    decreases t, 0, |names|
  {
    hide Collect;
    if names != [] {
      assert names[0] in names;
      var x := names[0];
      CollectedBelow(t.kids[x], prefix + [x]);
      KidsBelow(t, names[1..], prefix);
      forall e | e in Collect(t.kids[x], prefix + [x])
        ensures |e.path| > |prefix| && e.path[..|prefix|] == prefix
      {
        assert e.path[..|prefix|] == e.path[..|prefix| + 1][..|prefix|];
      }
    }
  }
}
