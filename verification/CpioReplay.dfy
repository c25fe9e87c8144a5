/** Each member of an archive extends the graph by the entry it was written for. */
module CpioReplay {
  import opened Options
  import opened Modes
  import opened Names
  import opened Bytes
  import opened CpioFormat
  import opened CpioReader
  import opened CpioWriter
  import opened CpioListing
  import opened CpioGraph

  // ----- Linking the node of one more entry.

  /** Entry k has a node but no name yet: link gives it one in the directory of its parent. */
  lemma LinkStep(c: Run, g: Graph, ptrs: seq<nat>, k: nat) returns (g': Graph)
    requires Sound(c) && k + 1 == |ptrs| <= |c.es|
    requires Pointed(c, g, ptrs) && Filled(c, g, ptrs) && Attached(c, g, ptrs, k) && Remembered(c, g, ptrs)
    ensures Link(g, c.es[k].path, ptrs[k]) == CpioReader.Ok(g') && Built(c, g', ptrs)
  {
    hide KidsUpTo, FindKid, Sound, Pointed, Filled, Remembered, Attached, NodeRight, Descend, Built, Listing, ValidName;
    var path := c.es[k].path;
    FittingEntry(c, k);
    var up, name := Parent(path), Last(path);
    ListingOf(c, k);
    PointedIs(c, g, ptrs);
    var dir := ParentDir(c, g, ptrs, k);
    NotYetNamed(c, ptrs, k);
    assert path == up + [name];
    g' := WithKid(g, dir, Kid(name, ptrs[k]));
    KidAdded(c, g, ptrs, k, dir);
  }

  lemma NotYetNamed(c: Run, ptrs: seq<nat>, k: nat)
    requires Sound(c) && k < |ptrs| <= |c.es| && c.es[k].path != []
    ensures FindKid(KidsUpTo(c, ptrs, Parent(c.es[k].path), k), Last(c.es[k].path)).None?
  {
    hide KidsUpTo, FindKid, Sound, Listing;
    var up, name := Parent(c.es[k].path), Last(c.es[k].path);
    assert c.es[k].path == up + [name];
    ListingOf(c, k);
    forall j | 0 <= j < k
      ensures c.es[j].path != up + [name]
    {
      DistinctPaths(c, j, k);
    }
    ChildFound(c, ptrs, up, k, name);
  }

  /** The directory the parent of entry k leads to. */
  lemma ParentDir(c: Run, g: Graph, ptrs: seq<nat>, k: nat) returns (dir: nat)
    requires Sound(c) && k < |ptrs| <= |c.es| && Pointed(c, g, ptrs) && Attached(c, g, ptrs, k) && c.es[k].path != []
    ensures dir < |g.nodes| && Closed(g) && Descend(g, 0, Parent(c.es[k].path)) == (g, dir)
    ensures g.nodes[dir].kids == KidsUpTo(c, ptrs, Parent(c.es[k].path), k)
    ensures Parent(c.es[k].path) == [] ==> dir == 0
    ensures Parent(c.es[k].path) != [] ==>
      exists i :: 0 <= i < k && c.es[i].path == Parent(c.es[k].path) && c.es[i].node.Folder? && dir == ptrs[i]
  {
    hide KidsUpTo, Sound, Pointed, Listing;
    ListingOf(c, k);
    PointedIs(c, g, ptrs);
    if Parent(c.es[k].path) == [] {
      dir := 0;
    } else {
      var i :| 0 <= i < k && c.es[i].path == Parent(c.es[k].path) && c.es[i].node.Folder?;
      DescendFinds(c, g, ptrs, k, i);
      dir := ptrs[i];
    }
  }

  lemma KidAdded(c: Run, g: Graph, ptrs: seq<nat>, k: nat, dir: nat)
    requires Sound(c) && k + 1 == |ptrs| <= |c.es| && c.es[k].path != [] && dir < |g.nodes|
    requires Pointed(c, g, ptrs) && Filled(c, g, ptrs) && Attached(c, g, ptrs, k) && Remembered(c, g, ptrs)
    requires Parent(c.es[k].path) == [] ==> dir == 0
    requires Parent(c.es[k].path) != [] ==>
      exists i :: 0 <= i < k && c.es[i].path == Parent(c.es[k].path) && c.es[i].node.Folder? && dir == ptrs[i]
    ensures Built(c, WithKid(g, dir, Kid(Last(c.es[k].path), ptrs[k])), ptrs)
  {
    hide Sound, Pointed, Filled, Attached, Remembered;
    var g' := WithKid(g, dir, Kid(Last(c.es[k].path), ptrs[k]));
    assert ptrs[k] < |g.nodes| by { PointedInside(c, g, ptrs, k); }
    KidAttached(c, g, ptrs, k, dir);
    KidPointed(c, g, ptrs, dir, Kid(Last(c.es[k].path), ptrs[k]));
    KidFilled(c, g, ptrs, dir, Kid(Last(c.es[k].path), ptrs[k]));
    RememberedSame(c, g, g', ptrs);
  }

  lemma PointedInside(c: Run, g: Graph, ptrs: seq<nat>, k: nat)
    requires Pointed(c, g, ptrs) && k < |ptrs|
    ensures ptrs[k] < |g.nodes|
  {
  }

  lemma RememberedSame(c: Run, g: Graph, g': Graph, ptrs: seq<nat>)
    requires Sound(c) && Remembered(c, g, ptrs) && g'.inoMap == g.inoMap
    ensures Remembered(c, g', ptrs)
  {
    hide Sound, Shared, Ino;
  }

  lemma KidPointed(c: Run, g: Graph, ptrs: seq<nat>, dir: nat, k: Kid)
    requires Pointed(c, g, ptrs) && dir < |g.nodes| && k.node < |g.nodes|
    ensures Pointed(c, WithKid(g, dir, k), ptrs)
  {
    hide SameFile;
  }

  lemma KidFilled(c: Run, g: Graph, ptrs: seq<nat>, dir: nat, k: Kid)
    requires Sound(c) && Filled(c, g, ptrs) && dir < |g.nodes|
    ensures Filled(c, WithKid(g, dir, k), ptrs)
  {
    hide Sound, Occ, LastName, ContentRight;
  }

  lemma KidAttached(c: Run, g: Graph, ptrs: seq<nat>, k: nat, dir: nat)
    requires Sound(c) && k + 1 == |ptrs| <= |c.es| && c.es[k].path != [] && dir < |g.nodes|
    requires Pointed(c, g, ptrs) && Attached(c, g, ptrs, k)
    requires Parent(c.es[k].path) == [] ==> dir == 0
    requires Parent(c.es[k].path) != [] ==>
      exists i :: 0 <= i < k && c.es[i].path == Parent(c.es[k].path) && c.es[i].node.Folder? && dir == ptrs[i]
    ensures Attached(c, WithKid(g, dir, Kid(Last(c.es[k].path), ptrs[k])), ptrs, k + 1)
  {
    hide Sound, Closed;
    var up := Parent(c.es[k].path);
    forall i | 0 <= i < |ptrs|
      ensures ptrs[i] == dir <==> c.es[i].path == up
    {
      FittingEntry(c, i);
      if up != [] {
        var m :| 0 <= m < k && c.es[m].path == up && c.es[m].node.Folder? && dir == ptrs[m];
        DistinctPaths(c, i, m);
      }
    }
  }

  // ----- Making the node of one more entry.

  lemma {:induction false} TwoOccurrences(es: seq<PathEntry>, i: nat, j: nat)
    requires i < j < |es| && KeyOf(es[i]) == KeyOf(es[j])
    ensures Occurrences(es, KeyOf(es[i])) >= 2
    decreases |es|
  {
    hide KeyOf;
    var k := KeyOf(es[i]);
    if j < |es| - 1 {
      assert es[..|es| - 1][i] == es[i] && es[..|es| - 1][j] == es[j];
      TwoOccurrences(es[..|es| - 1], i, j);
    } else {
      OneOccurrence(es[..|es| - 1], i);
      assert es[..|es| - 1][i] == es[i];
    }
  }

  lemma {:induction false} OneOccurrence(es: seq<PathEntry>, i: nat)
    requires i < |es|
    ensures Occurrences(es, KeyOf(es[i])) >= 1
    decreases |es|
  {
    hide KeyOf;
    if i < |es| - 1 {
      assert es[..|es| - 1][i] == es[i];
      OneOccurrence(es[..|es| - 1], i);
    }
  }

  /** What the numbering says about two entries with one key. */
  lemma SameKey(c: Run, i: nat, j: nat)
    requires Sound(c) && i < j < |c.es| && KeyAt(c, i) == KeyAt(c, j)
    ensures Ino(c, i) == Ino(c, j) && Occ(c, i) == Occ(c, j) >= 2 && LastName(c, i) == LastName(c, j) >= j
    ensures c.es[i].node == c.es[j].node && c.es[i].node.Leaf?
    ensures SameFile(c, i, j) <==> c.es[j].node.meta.mode.kind == Regular
  {
    hide AllFit, Listing, Occurrences, Join;
    KeysTell(c, i, j);
    KnownKey(c, i);
    KnownKey(c, j);
    TwoOccurrences(Strings(c.es), i, j);
  }

  lemma SameFileKeys(c: Run, i: nat, j: nat)
    requires Sound(c) && i < j < |c.es| && SameFile(c, i, j)
    ensures KeyAt(c, i) == KeyAt(c, j)
  {
    KeysTell(c, i, j);
  }

  lemma LastAfter(c: Run, i: nat)
    requires Sound(c) && i < |c.es|
    ensures i <= LastName(c, i) < |c.es|
  {
    hide AllFit, Listing, Occurrences, Join;
    KnownKey(c, i);
  }

  /** An earlier node is as complete after entry k as before, unless k has the last name of it. */
  lemma StillRight(c: Run, x: Node, i: nat, k: nat)
    requires Sound(c) && i < k < |c.es| && !SameFile(c, i, k)
    requires NodeRight(c.dev, x, c.es[i].node, Occ(c, i), LastName(c, i) < k)
    ensures NodeRight(c.dev, x, c.es[i].node, Occ(c, i), LastName(c, i) < k + 1)
  {
    hide Sound, Occ;
    if LastName(c, i) == k {
      LastIsKey(c, i);
      SameKey(c, i, k);
    }
  }

  lemma LastIsKey(c: Run, i: nat)
    requires Sound(c) && i < |c.es|
    ensures LastName(c, i) < |c.es| && KeyAt(c, LastName(c, i)) == KeyAt(c, i)
  {
    hide AllFit, Listing, Occurrences, Join;
    KnownKey(c, i);
    LastAfter(c, i);
    KnownKey(c, LastName(c, i));
  }

  /** The header of entry k. */
  lemma HeaderOfEntry(c: Run, k: nat)
    requires Sound(c) && k < |c.es|
    ensures var m := MemberAt(c, k);
      && SplitPath(m.name) == c.es[k].path && c.es[k].path != []
      && m.header.ino == Ino(c, k) && (Linked(m.header) <==> Shared(c, k))
      && (m.header.filesize > 0 && c.es[k].node.Leaf? && c.es[k].node.meta.mode.kind == Regular <==>
          LastName(c, k) == k && c.es[k].node.Leaf? && c.es[k].node.meta.mode.kind == Regular && |c.es[k].node.content| > 0)
      && m.header.filesize == |m.body|
  {
    hide ModeFromUnix, ModeToUnix, Join, Listing, Numbered;
    FittingEntry(c, k);
    SplitPathOfJoin(c.es[k].path);
    MetaRead(PathEntry(Join(c.es[k].path), c.es[k].node), Ino(c, k), Occ(c, k), LastName(c, k) == k);
  }

  /** A node of its own: entry k is no further name of an earlier file. */
  lemma FreshNode(c: Run, g: Graph, ptrs: seq<nat>, off: nat)
    requires Sound(c) && |ptrs| < |c.es| && Built(c, g, ptrs)
    requires forall i :: 0 <= i < |ptrs| ==> !SameFile(c, i, |ptrs|)
    requires var m := MemberAt(c, |ptrs|); Slice(c.dev, off, |m.body|) == m.body
    ensures var k, m, p := |ptrs|, MemberAt(c, |ptrs|), |g.nodes|;
      var g' := Graph(g.nodes + [NodeOf(c.dev, m.header, off)], if Shared(c, k) then g.inoMap[Ino(c,
          k) := p] else g.inoMap);
      Pointed(c, g', ptrs + [p]) && Filled(c, g', ptrs + [p]) && Attached(c, g', ptrs + [p], k) && Remembered(c, g',
          ptrs + [p])
  {
    hide Sound, Ino, Occ, LastName, NodeRight, KidsUpTo, MemberOf, NodeOf, KeyAt, Slice;
    var k, m, p := |ptrs|, MemberAt(c, |ptrs|), |g.nodes|;
    FittingEntry(c, k);
    var x := NodeOf(c.dev, m.header, off);
    NodeRead(c.dev, PathEntry(Join(c.es[k].path), c.es[k].node), Ino(c, k), Occ(c, k), LastName(c, k) == k, off);
    LastAfter(c, k);
    var now := Graph(g.nodes + [x], if Shared(c, k) then g.inoMap[Ino(c, k) := p] else g.inoMap);
    FreshPointed(c, g, ptrs, now);
    FreshFilled(c, g, ptrs, x, now);
    FreshAttached(c, g, ptrs, x, now);
    FreshRemembered(c, g, ptrs, now);
  }

  lemma FreshPointed(c: Run, g: Graph, ptrs: seq<nat>, now: Graph)
    requires |ptrs| < |c.es| && Pointed(c, g, ptrs) && |now.nodes| == |g.nodes| + 1 && now.nodes[..|g.nodes|] == g.nodes
    requires now.nodes[|g.nodes|].kids == []
    requires forall v :: v in now.inoMap ==> v in g.inoMap || now.inoMap[v] == |g.nodes|
    requires forall v :: v in g.inoMap && v in now.inoMap ==> now.inoMap[v] == g.inoMap[v] || now.inoMap[v] == |g.nodes|
    requires forall i :: 0 <= i < |ptrs| ==> !SameFile(c, i, |ptrs|)
    ensures Pointed(c, now, ptrs + [|g.nodes|])
  {
    forall q, i | 0 <= q < |now.nodes| && 0 <= i < |now.nodes[q].kids|
      ensures now.nodes[q].kids[i].node < |now.nodes|
    {
      if q < |g.nodes| {
        assert now.nodes[q] == g.nodes[q];
      }
    }
    forall i | 0 <= i < |ptrs|
      ensures !SameFile(c, i, |ptrs|) && !SameFile(c, |ptrs|, i)
    {
    }
  }

  lemma FreshFilled(c: Run, g: Graph, ptrs: seq<nat>, x: Node, now: Graph)
    requires Sound(c) && |ptrs| < |c.es| && Filled(c, g, ptrs) && now.nodes == g.nodes + [x]
    requires forall i :: 0 <= i < |ptrs| ==> !SameFile(c, i, |ptrs|)
    requires NodeRight(c.dev, x, c.es[|ptrs|].node, Occ(c, |ptrs|), LastName(c, |ptrs|) < |ptrs| + 1)
    ensures Filled(c, now, ptrs + [|g.nodes|])
  {
    hide Sound, Occ, LastName, NodeRight, SameFile;
    var k := |ptrs|;
    forall i | 0 <= i < k
      ensures now.nodes[ptrs[i]] == g.nodes[ptrs[i]]
      ensures NodeRight(c.dev, g.nodes[ptrs[i]], c.es[i].node, Occ(c, i), LastName(c, i) < k + 1)
    {
      StillRight(c, g.nodes[ptrs[i]], i, k);
    }
  }

  lemma FreshAttached(c: Run, g: Graph, ptrs: seq<nat>, x: Node, now: Graph)
    requires Sound(c) && |ptrs| < |c.es| && Attached(c, g, ptrs, |ptrs|) && now.nodes == g.nodes + [x] && x.kids == []
    ensures Attached(c, now, ptrs + [|g.nodes|], |ptrs|)
  {
    hide Sound, KidsUpTo;
    var k, more := |ptrs|, ptrs + [|g.nodes|];
    assert more[..k] == ptrs[..k];
    KidsUpToSame(c, ptrs, more, [], k);
    forall i | 0 <= i < k
      ensures now.nodes[ptrs[i]].kids == KidsUpTo(c, more, c.es[i].path, k)
    {
      KidsUpToSame(c, ptrs, more, c.es[i].path, k);
    }
    NoKidsYet(c, more, k, k);
  }

  lemma NoKidsYet(c: Run, ptrs: seq<nat>, i: nat, k: nat)
    requires Sound(c) && i < |c.es| && k <= |ptrs| && k <= |c.es| && (i >= k || c.es[i].node.Leaf?)
    ensures KidsUpTo(c, ptrs, c.es[i].path, k) == []
  {
    hide KidsUpTo, Sound;
    FittingEntry(c, i);
    ListingOf(c, i);
    forall j | 0 <= j < k && c.es[j].node.Folder?
      ensures c.es[j].path != c.es[i].path
    {
      DistinctPaths(c, i, j);
    }
    NoKids(c, ptrs, c.es[i].path, k);
  }

  lemma FreshRemembered(c: Run, g: Graph, ptrs: seq<nat>, now: Graph)
    requires Sound(c) && |ptrs| < |c.es| && Remembered(c, g, ptrs)
    requires now.inoMap == if Shared(c, |ptrs|) then g.inoMap[Ino(c, |ptrs|) := |g.nodes|] else g.inoMap
    requires forall i :: 0 <= i < |ptrs| ==> !SameFile(c, i, |ptrs|)
    ensures Remembered(c, now, ptrs + [|g.nodes|])
  {
    hide Sound, Ino, Occ;
    var k := |ptrs|;
    forall i | 0 <= i < k && Shared(c, i) && Shared(c, k)
      ensures Ino(c, i) != Ino(c, k)
    {
      KeysTell(c, i, k);
      assert !SameFile(c, i, k);
    }
    forall v | v in now.inoMap
      ensures exists i :: 0 <= i < k + 1 && Shared(c, i) && Ino(c, i) == v
    {
      if v in g.inoMap {
        var i :| 0 <= i < k && Shared(c, i) && Ino(c, i) == v;
      } else {
        assert Shared(c, k) && Ino(c, k) == v;
      }
    }
  }

  /** A further name of the file of entry i: its node gets the body when this is the last name. */
  lemma AnotherName(c: Run, g: Graph, ptrs: seq<nat>, i: nat, off: nat)
    requires Sound(c) && |ptrs| < |c.es| && Built(c, g, ptrs) && i < |ptrs| && SameFile(c, i, |ptrs|)
    requires var m := MemberAt(c, |ptrs|); Slice(c.dev, off, |m.body|) == m.body
    ensures var k, h, p := |ptrs|, MemberAt(c, |ptrs|).header, ptrs[i];
      var g' := if h.filesize > 0 then g.(nodes := g.nodes[p := g.nodes[p].(content := At(off, h.filesize))]) else g;
      p < |g.nodes| && Pointed(c, g', ptrs + [p]) && Filled(c, g', ptrs + [p]) && Attached(c, g', ptrs + [p], k) &&
      Remembered(c, g', ptrs + [p])
  {
    hide Sound, Ino, Occ, LastName, NodeRight, KidsUpTo, MemberOf, KeyAt, Slice, Pointed, Filled, Attached,
         Remembered, SameFile, MemberAt;
    PointedIs(c, g, ptrs);
    var k, h, p := |ptrs|, MemberAt(c, |ptrs|).header, ptrs[i];
    var now := if h.filesize > 0 then g.(nodes := g.nodes[p := g.nodes[p].(content := At(off, h.filesize))]) else g;
    NamePointed(c, g, ptrs, i, now);
    NameFilled(c, g, ptrs, i, off, now);
    NameAttached(c, g, ptrs, i, now);
    NameRemembered(c, g, ptrs, i, now);
  }

  lemma SameFileTransitive(c: Run, i: nat, j: nat, k: nat)
    requires i < |c.es| && j < |c.es| && k < |c.es| && SameFile(c, i, k)
    ensures SameFile(c, j, k) <==> SameFile(c, j, i)
    ensures SameFile(c, k, j) <==> SameFile(c, i, j)
    ensures SameFile(c, k, i)
  {
  }

  lemma NamePointed(c: Run, g: Graph, ptrs: seq<nat>, i: nat, now: Graph)
    requires |ptrs| < |c.es| && Pointed(c, g, ptrs) && i < |ptrs| && SameFile(c, i, |ptrs|)
    requires now.inoMap == g.inoMap && |now.nodes| == |g.nodes|
    requires forall q :: 0 <= q < |g.nodes| ==> now.nodes[q].kids == g.nodes[q].kids
    ensures Pointed(c, now, ptrs + [ptrs[i]])
  {
    hide SameFile;
    var k, more := |ptrs|, ptrs + [ptrs[i]];
    forall a, b | 0 <= a < k + 1 && 0 <= b < k + 1
      ensures more[a] == more[b] <==> a == b || SameFile(c, a, b)
    {
      SameFileTransitive(c, i, a, k);
      SameFileTransitive(c, i, b, k);
      assert a < k && b < k ==> (ptrs[a] == ptrs[b] <==> a == b || SameFile(c, a, b));
      assert a < k ==> (ptrs[a] == ptrs[i] <==> a == i || SameFile(c, a, i));
      assert b < k ==> (ptrs[i] == ptrs[b] <==> i == b || SameFile(c, i, b));
    }
  }

  lemma NameFilled(c: Run, g: Graph, ptrs: seq<nat>, i: nat, off: nat, now: Graph)
    requires Sound(c) && |ptrs| < |c.es| && Pointed(c, g, ptrs) && Filled(c, g, ptrs)
    requires i < |ptrs| && SameFile(c, i, |ptrs|) && ptrs[i] < |g.nodes|
    requires var m := MemberAt(c, |ptrs|); Slice(c.dev, off, |m.body|) == m.body
    requires var h, p := MemberAt(c, |ptrs|).header, ptrs[i];
      now == if h.filesize > 0 then g.(nodes := g.nodes[p := g.nodes[p].(content := At(off, h.filesize))]) else g
    ensures Filled(c, now, ptrs + [ptrs[i]])
  {
    hide Sound, Occ, LastName, NodeRight, SameFile, MemberAt, Slice;
    var k, p, more := |ptrs|, ptrs[i], ptrs + [ptrs[i]];
    LastIs(c, i, k);
    BodyArrives(c, g.nodes[p], i, k, off);
    forall j | 0 <= j < k
      ensures NodeRight(c.dev, now.nodes[ptrs[j]], c.es[j].node, Occ(c, j), LastName(c, j) < k + 1)
    {
      SameFileTransitive(c, i, j, k);
      assert ptrs[i] == ptrs[j] <==> i == j || SameFile(c, i, j);
      assert ptrs[j] == ptrs[i] <==> j == i || SameFile(c, j, i);
      if ptrs[j] == p {
        if j != i {
          LastIs(c, j, k);
        }
      } else {
        StillRight(c, g.nodes[ptrs[j]], j, k);
      }
    }
  }

  lemma LastIs(c: Run, i: nat, k: nat)
    requires Sound(c) && i < k < |c.es| && SameFile(c, i, k)
    ensures LastName(c, i) == LastName(c, k) >= k && Occ(c, i) == Occ(c, k) && c.es[i].node == c.es[k].node
  {
    SameFileKeys(c, i, k);
    SameKey(c, i, k);
  }

  /** Before the last name the node has no content, with it it has all. */
  lemma BodyArrives(c: Run, x: Node, i: nat, k: nat, off: nat)
    requires Sound(c) && i < k < |c.es| && SameFile(c, i, k)
    requires NodeRight(c.dev, x, c.es[i].node, Occ(c, i), LastName(c, i) < k)
    requires var m := MemberAt(c, k); Slice(c.dev, off, |m.body|) == m.body
    ensures var h := MemberAt(c, k).header;
      NodeRight(c.dev, if h.filesize > 0 then x.(content := At(off, h.filesize)) else x, c.es[k].node, Occ(c, k),
          LastName(c, k) < k + 1)
  {
    hide Sound, Occ, LastName, KeyAt, Slice, ModeToUnix;
    LastIs(c, i, k);
    FittingEntry(c, k);
  }

  lemma NameAttached(c: Run, g: Graph, ptrs: seq<nat>, i: nat, now: Graph)
    requires Sound(c) && |ptrs| < |c.es| && Attached(c, g, ptrs, |ptrs|) && i < |ptrs| && SameFile(c, i, |ptrs|)
    requires |now.nodes| == |g.nodes|
    requires forall q :: 0 <= q < |g.nodes| ==>
      now.nodes[q].kids == g.nodes[q].kids && now.nodes[q].meta == g.nodes[q].meta
    ensures Attached(c, now, ptrs + [ptrs[i]], |ptrs|)
  {
    hide Sound, KidsUpTo;
    var k, more := |ptrs|, ptrs + [ptrs[i]];
    assert more[..k] == ptrs[..k];
    KidsUpToSame(c, ptrs, more, [], k);
    forall j | 0 <= j < k
      ensures now.nodes[ptrs[j]].kids == KidsUpTo(c, more, c.es[j].path, k)
    {
      KidsUpToSame(c, ptrs, more, c.es[j].path, k);
    }
    NoKidsYet(c, more, i, k);
    NoKidsYet(c, more, k, k);
  }

  lemma NameRemembered(c: Run, g: Graph, ptrs: seq<nat>, i: nat, now: Graph)
    requires Sound(c) && |ptrs| < |c.es| && Remembered(c, g, ptrs) && i < |ptrs| && SameFile(c, i, |ptrs|)
    requires now.inoMap == g.inoMap
    ensures Remembered(c, now, ptrs + [ptrs[i]])
  {
    hide Sound, Ino, Occ;
    var k := |ptrs|;
    SameFileKeys(c, i, k);
    SameKey(c, i, k);
    assert Shared(c, i) && Shared(c, k);
    forall v | v in now.inoMap
      ensures exists j :: 0 <= j < k + 1 && Shared(c, j) && Ino(c, j) == v
    {
      var j :| 0 <= j < k && Shared(c, j) && Ino(c, j) == v;
    }
  }

  // ----- One member, and all of them.

  /** Adding the member of entry k names its node, and keeps everything else. */
  lemma MemberAdded(c: Run, g: Graph, ptrs: seq<nat>, off: nat) returns (g': Graph, p: nat)
    requires Sound(c) && |ptrs| < |c.es| && Built(c, g, ptrs) && Closed(g)
    requires var m := MemberAt(c, |ptrs|); Slice(c.dev, off, |m.body|) == m.body
    ensures var m := MemberAt(c, |ptrs|); AddEntry(g, c.dev, m.header, m.name, off) == CpioReader.Ok(g')
    ensures Built(c, g', ptrs + [p])
  {
    hide Sound, Ino, Occ, LastName, NodeRight, KidsUpTo, MemberOf, KeyAt, Slice, Pointed, Filled, Attached, MemberAt,
         SameFile, Built, NodeOf, Link, SplitPath, Closed, Linked, Shared;
    var k, m := |ptrs|, MemberAt(c, |ptrs|);
    HeaderOfEntry(c, k);
    BuiltIs(c, g, ptrs);
    if exists i :: 0 <= i < k && SameFile(c, i, k) {
      var i :| 0 <= i < k && SameFile(c, i, k);
      AnotherName(c, g, ptrs, i, off);
      FoundAgain(c, g, ptrs, i);
      p := ptrs[i];
      var mid := if m.header.filesize > 0 then g.(nodes := g.nodes[p := g.nodes[p].(content := At(off,
          m.header.filesize))]) else g;
      assert (ptrs + [p])[k] == p;
      g' := LinkStep(c, mid, ptrs + [p], k);
    } else {
      FreshNode(c, g, ptrs, off);
      NotFound(c, g, ptrs);
      p := |g.nodes|;
      var mid := Graph(g.nodes + [NodeOf(c.dev, m.header, off)], if Shared(c, k) then g.inoMap[Ino(c,
          k) := p] else g.inoMap);
      assert (ptrs + [p])[k] == p;
      g' := LinkStep(c, mid, ptrs + [p], k);
    }
  }

  lemma BuiltIs(c: Run, g: Graph, ptrs: seq<nat>)
    requires Sound(c) && Built(c, g, ptrs)
    ensures Closed(g) && Remembered(c, g, ptrs)
  {
  }

  lemma FoundAgain(c: Run, g: Graph, ptrs: seq<nat>, i: nat)
    requires Sound(c) && |ptrs| < |c.es| && Remembered(c, g, ptrs) && i < |ptrs| && SameFile(c, i, |ptrs|)
    ensures Shared(c, |ptrs|) && Ino(c, |ptrs|) in g.inoMap && g.inoMap[Ino(c, |ptrs|)] == ptrs[i]
  {
    hide Sound, Ino, Occ;
    SameFileKeys(c, i, |ptrs|);
    SameKey(c, i, |ptrs|);
    assert Shared(c, i);
  }

  lemma NotFound(c: Run, g: Graph, ptrs: seq<nat>)
    requires Sound(c) && |ptrs| < |c.es| && Remembered(c, g, ptrs)
    requires forall i :: 0 <= i < |ptrs| ==> !SameFile(c, i, |ptrs|)
    ensures !(Shared(c, |ptrs|) && Ino(c, |ptrs|) in g.inoMap)
  {
    hide Sound, Ino, Occ;
    var k := |ptrs|;
    if Shared(c, k) && Ino(c, k) in g.inoMap {
      var i :| 0 <= i < k && Shared(c, i) && Ino(c, i) == Ino(c, k);
      InoTells(c, i, k);
    }
  }

  lemma InoTells(c: Run, i: nat, k: nat)
    requires Sound(c) && i < |c.es| && k < |c.es| && i != k && Shared(c, i) && Shared(c, k) && Ino(c, i) == Ino(c, k)
    ensures SameFile(c, i, k)
  {
    KeysTell(c, i, k);
  }
}
