/** pkg/oci/flatten.go: the applier, which replays a layer by changing nodes in place. */
module OciApplier {
  import opened Sizes
  import opened Modes
  import opened Options
  import opened Names
  import opened OciTrees
  import opened OciLayer
  import opened OciApply
  import opened NodeTrees
  import opened OciDiffProof
  import OciRecords

  // ----- Descending through directories that may have to be made up first.

  /** Putting the placeholder in ahead of time changes nothing. */
  lemma {:induction false} PlaceholderAhead(t: Tree, path: seq<string>, x: string, rest: seq<string>, p: Payload)
    requires DirPath(t, path) && HasTree(t, path) && rest != []
    ensures var d := TreeAt(t, path);
      ApplyItem(PutTree(t, path, d.(kids := d.kids[x := Descend(d, x)])), path + [x] + rest, p) ==
      ApplyItem(t, path + [x] + rest, p)
    decreases |path|
  {
    var d := TreeAt(t, path);
    var d' := d.(kids := d.kids[x := Descend(d, x)]);
    if path == [] {
      assert path + [x] + rest == [x] + rest;
      assert ([x] + rest)[1..] == rest;
      var deep := ApplyItem(Descend(d, x), rest, p);
      assert d'.kids[x := deep] == d.kids[x := deep];
    } else {
      var y, k := path[0], t.kids[path[0]];
      PlaceholderAhead(k, path[1..], x, rest, p);
      assert (path + [x] + rest)[1..] == path[1..] + [x] + rest;
      var k' := PutTree(k, path[1..], d');
      PutKeepsDir(k, path[1..], d');
      var deep := ApplyItem(k, path[1..] + [x] + rest, p);
      assert t.kids[y := k'][y := deep] == t.kids[y := deep];
    }
  }

  lemma PutKeepsDir(t: Tree, path: seq<string>, d: Tree)
    requires HasTree(t, path) && (path == [] ==> d.IsDir()) && t.IsDir()
    ensures PutTree(t, path, d).IsDir()
  {
  }

  /** Once all directories exist, an entry acts on the last of them. */
  lemma {:induction false} ActsAt(t: Tree, path: seq<string>, x: string, p: Payload)
    requires DirPath(t, path) && HasTree(t, path)
    ensures ApplyItem(t, path + [x], p) == PutTree(t, path, ApplyItem(TreeAt(t, path), [x], p))
    decreases |path|
  {
    if path == [] {
      assert path + [x] == [x];
    } else {
      ActsAt(t.kids[path[0]], path[1..], x, p);
      assert (path + [x])[1..] == path[1..] + [x];
    }
  }

  // ----- Children slices.

  method FindChild(n: TreeNode, name: string) returns (r: Option<TreeNode>)
    ensures match r
      case Some(c) => exists i :: 0 <= i < |n.children| && n.children[i] == Child(name, c)
      case None => forall i :: 0 <= i < |n.children| ==> n.children[i].name != name
  {
    for i := 0 to |n.children|
      invariant forall j :: 0 <= j < i ==> n.children[j].name != name
    {
      if n.children[i].name == name {
        return Some(n.children[i].node);
      }
    }
    return None;
  }

  /** The children slice after name was made to lead to node. */
  ghost predicate ChildSet(was: seq<Child>, name: string, node: TreeNode, now: seq<Child>) {
    if exists i :: 0 <= i < |was| && was[i].name == name then
      |now| == |was| && forall i :: 0 <= i < |was| ==> now[i] == if was[i].name == name then Child(name,
          node) else was[i]
    else now == was + [Child(name, node)]
  }

  lemma SetListed(was: seq<Child>, kids: map<string, Shape>, name: string, sub: Shape, now: seq<Child>)
    requires Listed(was, kids) && ChildSet(was, name, sub.node, now)
    ensures Listed(now, kids[name := sub])
  {
    var kids' := kids[name := sub];
    assert forall i :: 0 <= i < |was| ==> now[i].name == was[i].name;
    forall x | x in kids'
      ensures exists i :: 0 <= i < |now| && now[i].name == x
    {
      if x in kids {
        SamePlace(was, kids, x, now);
      } else {
        assert name !in kids;
        NotThere(was, kids, name);
        assert now[|was|].name == name;
      }
    }
  }

  lemma SamePlace(was: seq<Child>, kids: map<string, Shape>, x: string, now: seq<Child>)
    requires Listed(was, kids) && x in kids && |was| <= |now|
    requires forall i :: 0 <= i < |was| ==> now[i].name == was[i].name
    ensures exists i :: 0 <= i < |now| && now[i].name == x
  {
    var i :| 0 <= i < |was| && was[i].name == x;
    assert now[i].name == x;
  }

  lemma NotThere(was: seq<Child>, kids: map<string, Shape>, x: string)
    requires Listed(was, kids) && x !in kids
    ensures !exists i :: 0 <= i < |was| && was[i].name == x
  {
  }

  method SetChild(parent: TreeNode, name: string, n: TreeNode)
    requires forall i, j :: 0 <= i < j < |parent.children| ==> parent.children[i].name != parent.children[j].name
    modifies parent`children
    ensures ChildSet(old(parent.children), name, n, parent.children)
  {
    for i := 0 to |parent.children|
      invariant parent.children == old(parent.children)
      invariant forall j :: 0 <= j < i ==> parent.children[j].name != name
    {
      if parent.children[i].name == name {
        parent.children := parent.children[i := Child(name, n)];
        return;
      }
    }
    parent.children := parent.children + [Child(name, n)];
  }

  /** The children slice after the first child of that name went, the others in their order. */
  ghost predicate ChildGone(was: seq<Child>, name: string, now: seq<Child>) {
    if exists i :: 0 <= i < |was| && was[i].name == name then
      exists i :: FirstNamed(was, name, i) && now == was[..i] + was[i + 1..]
    else now == was
  }

  ghost predicate FirstNamed(cs: seq<Child>, name: string, i: int) {
    0 <= i < |cs| && cs[i].name == name && forall j :: 0 <= j < i ==> cs[j].name != name
  }

  lemma GoneListed(was: seq<Child>, kids: map<string, Shape>, name: string, now: seq<Child>)
    requires Listed(was, kids) && ChildGone(was, name, now)
    ensures Listed(now, kids - {name})
  {
    hide Listed;
    ChildListed(was, kids, name);
    if name in kids {
      var i :| FirstNamed(was, name, i) && now == was[..i] + was[i + 1..];
      RemovedListed(was, kids, i);
    } else {
      assert kids - {name} == kids;
    }
  }

  method RemoveChild(parent: TreeNode, name: string)
    modifies parent`children
    ensures ChildGone(old(parent.children), name, parent.children)
  {
    for i := 0 to |parent.children|
      invariant parent.children == old(parent.children)
      invariant forall j :: 0 <= j < i ==> parent.children[j].name != name
    {
      if parent.children[i].name == name {
        assert FirstNamed(parent.children, name, i);
        parent.children := parent.children[..i] + parent.children[i + 1..];
        return;
      }
    }
  }

  /** Where the child at j was before the one at i went. */
  function Past(i: nat, j: nat): nat {
    if j < i then j else j + 1
  }

  lemma ClosedUp(c: seq<Child>, i: nat)
    requires i < |c|
    ensures var now := c[..i] + c[i + 1..];
      |now| == |c| - 1 && forall j: nat :: j < |now| ==> now[j] == c[Past(i, j)]
  {
  }

  lemma RemovedListed(c: seq<Child>, kids: map<string, Shape>, i: nat)
    requires i < |c| && Listed(c, kids)
    ensures Listed(c[..i] + c[i + 1..], kids - {c[i].name})
  {
    var now, kids' := c[..i] + c[i + 1..], kids - {c[i].name};
    ClosedUp(c, i);
    forall j: nat | j < |now|
      ensures now[j].name in kids' && kids'[now[j].name].node == now[j].node
    {
      assert now[j] == c[Past(i, j)];
    }
    forall j: nat, k: nat | j < k < |now|
      ensures now[j].name != now[k].name
    {
      assert now[j] == c[Past(i, j)] && now[k] == c[Past(i, k)];
    }
    forall x | x in kids'
      ensures exists j :: 0 <= j < |now| && now[j].name == x
    {
      var j :| 0 <= j < |c| && c[j].name == x;
      assert now[if j < i then j else j - 1] == c[j];
    }
  }

  lemma ChildListed(c: seq<Child>, kids: map<string, Shape>, name: string)
    requires Listed(c, kids)
    ensures name in kids <==> exists i :: 0 <= i < |c| && c[i].name == name
    ensures forall i :: 0 <= i < |c| && c[i].name == name ==> kids[name].node == c[i].node
    ensures forall i, j :: 0 <= i < j < |c| ==> c[i].name != c[j].name
  {
  }

  /** t once the walk has gone from path into x. */
  function Stepped(t: Tree, path: seq<string>, x: string): Tree
    requires HasTree(t, path)
  {
    var d := TreeAt(t, path);
    PutTree(t, path, d.(kids := d.kids[x := Descend(d, x)]))
  }

  lemma {:induction false} SteppedLeads(t: Tree, path: seq<string>, x: string)
    requires DirPath(t, path) && HasTree(t, path)
    ensures DirPath(Stepped(t, path, x), path + [x]) && HasTree(Stepped(t, path, x), path + [x])
    decreases |path|
  {
    var d := TreeAt(t, path);
    var d' := d.(kids := d.kids[x := Descend(d, x)]);
    if path == [] {
      assert path + [x] == [x] && [x][1..] == [];
    } else {
      SteppedLeads(t.kids[path[0]], path[1..], x);
      PutKeepsDir(t.kids[path[0]], path[1..], d');
      assert (path + [x])[1..] == path[1..] + [x];
    }
  }

  lemma {:induction false} NothingToStep(t: Tree, path: seq<string>, x: string)
    requires HasTree(t, path) && x in TreeAt(t, path).kids && TreeAt(t, path).kids[x].IsDir()
    ensures Stepped(t, path, x) == t
    decreases |path|
  {
    var d := TreeAt(t, path);
    if path == [] {
      assert d.kids[x := d.kids[x]] == d.kids;
    } else {
      NothingToStep(t.kids[path[0]], path[1..], x);
      assert t.kids[path[0] := t.kids[path[0]]] == t.kids;
    }
  }

  /** A new leaf under a node of the tree. */
  lemma LeafAdded(s: Shape, path: seq<string>, sub: Shape, x: string, leaf: Shape)
    requires Has(s, path) && Apart(s) && sub == At(s, path) && leaf.kids == map[] && leaf.node !in Objs(s)
    ensures var sub' := Shape(sub.node, sub.kids[x := leaf]);
      Apart(sub') && Objs(sub') <= Objs(sub) + {leaf.node} && Objs(sub') * Objs(s) <= Objs(sub)
  {
    AtIsInside(s, path);
    ApartAt(s, path);
    var sub' := Shape(sub.node, sub.kids[x := leaf]);
    assert Objs(leaf) == {leaf.node};
    forall y | y in sub'.kids && y != x
      ensures sub'.kids[y] == sub.kids[y] && Objs(sub.kids[y]) <= Objs(sub)
    {
    }
    assert sub.node in Objs(sub);
  }

  lemma {:induction false} ApartAt(s: Shape, path: seq<string>)
    requires Has(s, path) && Apart(s)
    ensures Apart(At(s, path))
    decreases |path|
  {
    if path != [] {
      ApartAt(s.kids[path[0]], path[1..]);
    }
  }

  lemma AtApart(s: Shape, path: seq<string>)
    requires Has(s, path) && Apart(s)
    ensures At(s, path).node !in Below(At(s, path)) && At(s, path).node in Objs(At(s, path))
    ensures At(s, path).node in Objs(s)
  {
    ApartAt(s, path);
    AtIsInside(s, path);
  }

  lemma {:induction false} PathExtends(s: Shape, path: seq<string>, x: string)
    requires Has(s, path) && x in At(s, path).kids
    ensures Has(s, path + [x]) && At(s, path + [x]) == At(s, path).kids[x]
    decreases |path|
  {
    if path == [] {
      assert path + [x] == [x] && [x][1..] == [];
    } else {
      PathExtends(s.kids[path[0]], path[1..], x);
      assert (path + [x])[1..] == path[1..] + [x];
    }
  }

  lemma {:induction false} PutLeads(s: Shape, path: seq<string>, sub: Shape)
    requires Has(s, path)
    ensures Has(Put(s, path, sub), path) && At(Put(s, path, sub), path) == sub
    decreases |path|
  {
    if path != [] {
      PutLeads(s.kids[path[0]], path[1..], sub);
    }
  }

  lemma AbsKids(s: Shape, x: string)
    ensures x in Abs(s).kids <==> x in s.kids
    ensures x in s.kids ==> Abs(s).kids[x] == Abs(s.kids[x])
  {
  }

  method CheckPath(path: seq<string>) returns (ok: bool)
    ensures ok <==> forall c :: c in path ==> ValidName(c)
  {
    for k := 0 to |path|
      invariant forall j :: 0 <= j < k ==> ValidName(path[j])
    {
      if !ValidName(path[k]) {
        return false;
      }
    }
    return true;
  }

  class Applier {
    const root: TreeNode
    ghost var shape: Shape

    ghost predicate Valid()
      reads this, Objs(shape)
    {
      shape.node == root && Fits(shape) && Apart(shape)
    }

    ghost function Tree(): Tree
      reads this, Objs(shape)
    {
      Abs(shape)
    }

    /** Flatten starts from an empty root directory. */
    constructor ()
      ensures Valid() && fresh(Objs(shape))
      ensures Tree() == PLACEHOLDER
    {
      var r := new TreeNode(PLACEHOLDER.meta, 2);
      root := r;
      shape := Shape(r, map[]);
    }

    /** Make name lead from the node at path to a fresh node without children. */
    method Attach(parent: TreeNode, name: string, child: TreeNode, ghost path: seq<string>)
      requires Valid() && Has(shape, path) && At(shape, path).node == parent
      requires child !in Objs(shape) && child.children == []
      modifies this`shape, parent`children
      ensures Valid() && Objs(shape) <= old(Objs(shape)) + {child}
      ensures Has(shape, path + [name]) && At(shape, path + [name]) == Shape(child, map[])
      ensures HasTree(old(Tree()), path)
      ensures Tree() == WithKid(old(Tree()), path, name, Above(child, map[]))
    {
      hide Objs, Listed, Apart, Below, AsideFrom, KidsAs, Fits, Abs, ChildSet, ChildGone;
      ghost var s, t, sub := shape, Tree(), At(shape, path);
      ghost var below := Abs(sub).kids;
      Surroundings(s, path);
      AbsTop(sub);
      assert allocated(Objs(s)) && allocated(Below(sub)) && allocated(Objs(s) - Objs(sub));
      ghost var was := parent.children;
      SetChild(parent, name, child);
      ghost var leaf := Shape(child, map[]);
      LeafFits(leaf);
      SetListed(was, sub.kids, name, leaf, parent.children);
      LeafAdded(s, path, sub, name, leaf);
      ghost var sub' := Shape(parent, sub.kids[name := leaf]);
      Relisted(sub, below, sub'.kids, name, leaf);
      Reassembled(s, path, t, sub');
      shape := Put(s, path, sub');
      PutLeads(s, path, sub');
      PathExtends(shape, path, name);
    }

    /** One step of ensureDir: the child directory under part, made up when there is none. */
    method EnsureOne(cur: TreeNode, ghost path: seq<string>, part: string) returns (child: TreeNode)
      requires Valid() && Has(shape, path) && At(shape, path).node == cur && HasTree(Tree(), path)
      modifies this`shape, cur`children
      ensures Valid() && (forall o :: o in Objs(shape) ==> o in old(Objs(shape)) || fresh(o))
      ensures Has(shape, path + [part]) && At(shape, path + [part]).node == child
      ensures Tree() == Stepped(old(Tree()), path, part)
    {
      hide Objs, Listed, Apart, Below, Fits, Abs, AsideFrom, KidsAs, Stepped, WithKid;
      assert allocated(Objs(shape));
      var found := FindChild(cur, part);
      ghost var s, t, sub := shape, Tree(), At(shape, path);
      Surroundings(s, path);
      ChildListed(cur.children, sub.kids, part);
      AbsKids(sub, part);
      if found.Some? && found.value.IsDir() {
        child := found.value;
        AbsTop(sub.kids[part]);
        PathExtends(s, path, part);
        NothingToStep(t, path, part);
        return;
      }
      if found.Some? {
        AbsTop(sub.kids[part]);
      }
      child := new TreeNode(PLACEHOLDER.meta, 2);
      Attach(cur, part, child, path);
      SteppedIsWithKid(t, path, part);
    }

    /** ensureDir: walk down parts, making up what is missing. It anticipates what an entry at
        parts + [base] would do, whatever the entry. */
    method EnsureDir(parts: seq<string>, ghost base: string, ghost p: Payload) returns (cur: TreeNode)
      requires Valid()
      modifies this`shape, Objs(shape)
      ensures Valid() && (forall o :: o in Objs(shape) ==> o in old(Objs(shape)) || fresh(o))
      ensures Has(shape, parts) && At(shape, parts).node == cur && cur in Objs(shape)
      ensures DirPath(Tree(), parts) && HasTree(Tree(), parts)
      ensures ApplyItem(Tree(), parts + [base], p) == ApplyItem(old(Tree()), parts + [base], p)
    {
      hide ApplyItem, Objs, Fits, Abs, Apart, Stepped;
      ghost var goal, owned := ApplyItem(Tree(), parts + [base], p), Objs(shape);
      assert allocated(owned);
      cur := root;
      InPlace(shape, []);
      assert parts[..0] == [];
      for i := 0 to |parts|
        invariant Valid() && (forall o :: o in Objs(shape) ==> o in owned || fresh(o))
        invariant Has(shape, parts[..i]) && At(shape, parts[..i]).node == cur && cur in Objs(shape)
        invariant DirPath(Tree(), parts[..i]) && HasTree(Tree(), parts[..i])
        invariant ApplyItem(Tree(), parts + [base], p) == goal
      {
        ghost var t := Tree();
        assert allocated(Objs(shape));
        assert parts[..i] + [parts[i]] == parts[..i + 1];
        assert parts[..i] + [parts[i]] + (parts[i + 1..] + [base]) == parts + [base];
        SteppedLeads(t, parts[..i], parts[i]);
        SteppedSame(t, parts[..i], parts[i], parts[i + 1..] + [base], p);
        cur := EnsureOne(cur, parts[..i], parts[i]);
        InPlace(shape, parts[..i + 1]);
      }
      assert parts[..|parts|] == parts;
    }

    /** A whiteout: the name goes, with everything below it. */
    method Remove(parent: TreeNode, name: string, ghost path: seq<string>)
      requires Valid() && Has(shape, path) && At(shape, path).node == parent && HasTree(Tree(), path)
      modifies this`shape, parent`children
      ensures Valid() && Objs(shape) <= old(Objs(shape))
      ensures Tree() == PutTree(old(Tree()), path, ApplyItem(TreeAt(old(Tree()), path), [name], Whiteout))
    {
      hide Objs, Listed, Apart, Below, AsideFrom, KidsAs, Fits, Abs, ChildSet, ChildGone;
      ghost var s, t, sub := shape, Tree(), At(shape, path);
      ghost var below := Abs(sub).kids;
      Surroundings(s, path);
      AbsTop(sub);
      assert allocated(Objs(s)) && allocated(Below(sub)) && allocated(Objs(s) - Objs(sub));
      ghost var was := parent.children;
      RemoveChild(parent, name);
      GoneListed(was, sub.kids, name, parent.children);
      Pruned(s, path, sub, {name}, t, below);
      shape := Put(s, path, Shape(parent, sub.kids - {name}));
    }

    /** An opaque whiteout: every child goes. */
    method RemoveAll(parent: TreeNode, name: string, ghost path: seq<string>)
      requires Valid() && Has(shape, path) && At(shape, path).node == parent && HasTree(Tree(), path)
      modifies this`shape, parent`children
      ensures Valid() && Objs(shape) <= old(Objs(shape))
      ensures Tree() == PutTree(old(Tree()), path, ApplyItem(TreeAt(old(Tree()), path), [name], Opaque))
    {
      hide Objs, Listed, Apart, Below, AsideFrom, KidsAs, Fits, Abs;
      ghost var s, t, sub := shape, Tree(), At(shape, path);
      ghost var below := Abs(sub).kids;
      Surroundings(s, path);
      AbsTop(sub);
      AbsNames(sub);
      assert allocated(Objs(s)) && allocated(Below(sub)) && allocated(Objs(s) - Objs(sub));
      parent.children := [];
      assert sub.kids - sub.kids.Keys == map[] && below - sub.kids.Keys == map[];
      NoneListed();
      Pruned(s, path, sub, sub.kids.Keys, t, below);
      shape := Put(s, path, Shape(parent, map[]));
    }

    /** Overwrite what an entry sets on the node at path; its children are left alone. */
    method Fill(n: TreeNode, rec: Record, ghost path: seq<string>)
      requires Valid() && Has(shape, path) && At(shape, path).node == n && HasTree(Tree(), path)
      modifies this`shape, n`meta, n`link, n`rdev, n`content, n`nlink
      ensures Valid() && Objs(shape) <= old(Objs(shape))
      ensures Tree() == PutTree(old(Tree()), path, Upserted(Some(TreeAt(old(Tree()), path)), PayloadOf(rec)))
    {
      hide Objs, Listed, Apart, Below, AsideFrom, KidsAs, Fits, Abs, ChildSet, ChildGone;
      ghost var s, t, sub := shape, Tree(), At(shape, path);
      ghost var below := Abs(sub).kids;
      Surroundings(s, path);
      AbsTop(sub);
      assert allocated(Objs(s)) && allocated(Below(sub)) && allocated(Objs(s) - Objs(sub));
      SetFields(n, rec);
      Refilled(s, path, sub, t, below);
      shape := Put(s, path, sub);
    }

    /** upsert and the switch on the entry type. */
    method Upsert(parent: TreeNode, base: string, rec: Record, ghost path: seq<string>)
      requires Valid() && Has(shape, path) && At(shape, path).node == parent && parent in Objs(shape)
        && HasTree(Tree(), path)
      modifies this`shape, Objs(shape)
      ensures Valid() && (forall o :: o in Objs(shape) ==> o in old(Objs(shape)) || fresh(o))
      ensures Tree() == PutTree(old(Tree()), path, ApplyItem(TreeAt(old(Tree()), path), [base], PayloadOf(rec)))
    {
      hide Objs, Listed, Apart, Below, AsideFrom, KidsAs, Fits, Abs, PayloadOf;
      assert allocated(Objs(shape));
      var found := FindChild(parent, base);
      ghost var s, t, sub := shape, Tree(), At(shape, path);
      Surroundings(s, path);
      ChildListed(parent.children, sub.kids, base);
      AbsKids(sub, base);
      if found.Some? {
        PathExtends(s, path, base);
        InPlace(s, path + [base]);
        KidInTree(t, path, base);
        Fill(found.value, rec, path + [base]);
        FilledKid(t, path, base, PayloadOf(rec));
      } else {
        var n := new TreeNode(NO_META, 1);
        Attach(parent, base, n, path);
        ghost var fresh' := Above(n, map[]);
        KidSet(t, path, base, fresh');
        Fill(n, rec, path + [base]);
        FilledNew(t, path, base, fresh', PayloadOf(rec));
      }
    }

    /** Replay one record. */
    method ApplyEntry(rec: Record) returns (ok: bool)
      requires Valid()
      modifies this`shape, Objs(shape)
      ensures Valid() && (forall o :: o in Objs(shape) ==> o in old(Objs(shape)) || fresh(o))
      ensures match Parse(rec)
        case Skip => ok && Tree() == old(Tree())
        case BadName => !ok && Tree() == old(Tree())
        case Apply(i) => ok && Tree() == ApplyItem(old(Tree()), i.path, i.payload)
    {
      hide Objs, Apart, Fits, Abs, ApplyItem, Components, ValidName, TrimDotSlash, PayloadOf, DirPath;
      assert allocated(Objs(shape));
      var path := Components(TrimDotSlash(rec.name));
      if path == [] {
        return true;
      }
      var proper := CheckPath(path);
      if !proper {
        return false;
      }
      var dir, base := path[..|path| - 1], path[|path| - 1];
      ghost var last := if base != WHITEOUT_OPAQUE && HasPrefix(base, WHITEOUT) then base[|WHITEOUT|..] else base;
      ghost var p := Parse(rec).item.payload;
      assert path == dir + [base] && Parse(rec) == Apply(Item(dir + [last], p));
      var parent := EnsureDir(dir, last, p);
      ActsAt(Tree(), dir, last, p);
      if base == WHITEOUT_OPAQUE {
        RemoveAll(parent, base, dir);
      } else if HasPrefix(base, WHITEOUT) {
        Remove(parent, base[|WHITEOUT|..], dir);
      } else {
        Upsert(parent, base, rec, dir);
      }
      return true;
    }

    /** Replay a layer, stopping at the first bad name. */
    method ApplyLayer(records: seq<Record>) returns (ok: bool)
      requires Valid()
      modifies this`shape, Objs(shape)
      ensures Valid()
      ensures match ApplyRecords(old(Tree()), records)
        case Some(t) => ok && Tree() == t
        case None => !ok
    {
      hide Objs, Apart, Fits, Abs, ApplyItem, Parse;
      ghost var owned, goal := Objs(shape), ApplyRecords(Tree(), records);
      assert allocated(owned);
      for k := 0 to |records|
        invariant Valid() && (forall o :: o in Objs(shape) ==> o in owned || fresh(o))
        invariant goal == ApplyRecords(Tree(), records[k..])
      {
        assert allocated(Objs(shape));
        assert records[k..][0] == records[k] && records[k..][1..] == records[k + 1..];
        ok := ApplyEntry(records[k]);
        if !ok {
          return;
        }
      }
      return true;
    }
  }

  /** The assignments of applyEntry: the metadata, then what the type of the entry calls for. */
  method SetFields(n: TreeNode, rec: Record)
    modifies n`meta, n`link, n`rdev, n`content, n`nlink
    ensures forall kids :: Above(n, kids) == Upserted(Some(old(Above(n, kids))), PayloadOf(rec))
  {
    n.meta := Meta(Mode(Regular, rec.mode % 512, rec.mode / 512 % 8), rec.uid, rec.gid, rec.xattrs);
    match rec.typ {
      case TypeDir =>
        if !n.IsDir() {
          n.meta := n.meta.(mode := n.meta.mode.(kind := Dir));
        }
        if n.nlink < 2 {
          n.nlink := 2;
        }
      case TypeSymlink =>
        n.meta := n.meta.(mode := n.meta.mode.(kind := Symlink));
        n.link := rec.linkname;
      case TypeChar =>
        n.meta := n.meta.(mode := n.meta.mode.(kind := CharDevice));
        DeviceFits(rec.major, rec.minor);
        n.rdev := DeviceOf(rec.major, rec.minor);
      case TypeBlock =>
        n.meta := n.meta.(mode := n.meta.mode.(kind := BlockDevice));
        DeviceFits(rec.major, rec.minor);
        n.rdev := DeviceOf(rec.major, rec.minor);
      case TypeFifo =>
        n.meta := n.meta.(mode := n.meta.mode.(kind := Fifo));
      case TypeReg =>
        n.content := rec.body;
        n.nlink := 1;
    }
  }

  lemma DeviceFits(major: nat, minor: nat)
    ensures DeviceOf(major, minor) < TWO64
  {
    hide Words.Or;
    Words.WordOps(major % TWO56 * 256, minor);
  }

  lemma Pruned(s: Shape, path: seq<string>, sub: Shape, gone: set<string>, t: Tree, below: map<string, Tree>)
    requires Has(s, path) && Apart(s) && sub == At(s, path) && AsideFrom(s, path, t) && KidsAs(sub, below)
    requires Listed(sub.node.children, sub.kids - gone)
    ensures var sub' := Shape(sub.node, sub.kids - gone);
      var r := Put(s, path, sub');
      && Fits(r) && Apart(r) && Objs(r) <= Objs(s) && r.node == s.node
      && Abs(r) == PutTree(t, path, Above(sub.node, below - gone))
  {
    hide Listed, AsideFrom;
    var sub' := Shape(sub.node, sub.kids - gone);
    AtApart(s, path);
    AtIsInside(s, path);
    ApartAt(s, path);
    PrunedApart(sub, gone);
    assert Fits(sub');
    assert Abs(sub').kids == below - gone;
    Reassembled(s, path, t, sub');
  }

  lemma PrunedApart(sub: Shape, gone: set<string>)
    requires Apart(sub)
    ensures Apart(Shape(sub.node, sub.kids - gone)) && Objs(Shape(sub.node, sub.kids - gone)) <= Objs(sub)
  {
    var kids := sub.kids - gone;
    assert forall x :: x in kids ==> x in sub.kids && kids[x] == sub.kids[x];
  }

  lemma Refilled(s: Shape, path: seq<string>, sub: Shape, t: Tree, below: map<string, Tree>)
    requires Has(s, path) && Apart(s) && sub == At(s, path) && AsideFrom(s, path, t) && KidsAs(sub, below)
    requires Listed(sub.node.children, sub.kids)
    ensures var r := Put(s, path, sub);
      && Fits(r) && Apart(r) && Objs(r) <= Objs(s) && r.node == s.node
      && Abs(r) == PutTree(t, path, Above(sub.node, below))
  {
    assert sub.kids - {} == sub.kids && below - {} == below;
    Pruned(s, path, sub, {}, t, below);
  }

  lemma NoneListed()
    ensures Listed([], map[])
  {
  }

  lemma AbsNames(s: Shape)
    ensures Abs(s).kids.Keys == s.kids.Keys
  {
  }

  // ----- The same places in trees.

  lemma {:induction false} KidInTree(t: Tree, path: seq<string>, x: string)
    requires HasTree(t, path) && x in TreeAt(t, path).kids
    ensures HasTree(t, path + [x]) && TreeAt(t, path + [x]) == TreeAt(t, path).kids[x]
    decreases |path|
  {
    if path == [] {
      assert path + [x] == [x] && [x][1..] == [];
    } else {
      KidInTree(t.kids[path[0]], path[1..], x);
      assert (path + [x])[1..] == path[1..] + [x];
    }
  }

  lemma {:induction false} PutBelow(t: Tree, path: seq<string>, x: string, kid: Tree)
    requires HasTree(t, path) && x in TreeAt(t, path).kids
    ensures PutTree(t, path + [x], kid) == WithKid(t, path, x, kid)
    decreases |path|
  {
    if path == [] {
      assert path + [x] == [x] && [x][1..] == [];
    } else {
      PutBelow(t.kids[path[0]], path[1..], x, kid);
      assert (path + [x])[1..] == path[1..] + [x];
    }
  }

  lemma {:induction false} WithKidTwice(t: Tree, path: seq<string>, x: string, a: Tree, b: Tree)
    requires HasTree(t, path)
    ensures var m := WithKid(t, path, x, a);
      && HasTree(m, path) && x in TreeAt(m, path).kids && TreeAt(m, path).kids[x] == a
      && WithKid(m, path, x, b) == WithKid(t, path, x, b)
    decreases |path|
  {
    var d := TreeAt(t, path);
    if path == [] {
      assert d.kids[x := a][x := b] == d.kids[x := b];
    } else {
      var y := path[0];
      WithKidTwice(t.kids[y], path[1..], x, a, b);
      var ka, kb := WithKid(t.kids[y], path[1..], x, a), WithKid(t.kids[y], path[1..], x, b);
      assert t.kids[y := ka][y := kb] == t.kids[y := kb];
    }
  }

  lemma KidSet(t: Tree, path: seq<string>, x: string, a: Tree)
    requires HasTree(t, path)
    ensures HasTree(WithKid(t, path, x, a), path + [x]) && TreeAt(WithKid(t, path, x, a), path + [x]) == a
  {
    WithKidTwice(t, path, x, a, a);
    KidInTree(WithKid(t, path, x, a), path, x);
  }

  lemma FilledKid(t: Tree, path: seq<string>, x: string, p: Payload)
    requires HasTree(t, path) && x in TreeAt(t, path).kids && p.Entry?
    ensures HasTree(t, path + [x])
    ensures PutTree(t, path + [x], Upserted(Some(TreeAt(t, path + [x])), p)) ==
            PutTree(t, path, ApplyItem(TreeAt(t, path), [x], p))
  {
    hide Upserted;
    KidInTree(t, path, x);
    PutBelow(t, path, x, Upserted(Some(TreeAt(t, path + [x])), p));
  }

  lemma FilledNew(t: Tree, path: seq<string>, x: string, a: Tree, p: Payload)
    requires HasTree(t, path) && x !in TreeAt(t, path).kids && p.Entry?
    requires a == Node(NO_META, "", 0, [], map[])
    ensures var m := WithKid(t, path, x, a);
      && HasTree(m, path + [x])
      && PutTree(m, path + [x], Upserted(Some(TreeAt(m, path + [x])), p)) ==
         PutTree(t, path, ApplyItem(TreeAt(t, path), [x], p))
  {
    var m := WithKid(t, path, x, a);
    KidSet(t, path, x, a);
    NewIsNone(a, p);
    hide Upserted;
    var kid := Upserted(Some(a), p);
    WithKidTwice(t, path, x, a, kid);
    PutBelow(m, path, x, kid);
  }

  lemma NewIsNone(a: Tree, p: Payload)
    requires p.Entry? && a == Node(NO_META, "", 0, [], map[])
    ensures Upserted(Some(a), p) == Upserted(None, p)
  {
  }

  lemma InPlace(s: Shape, path: seq<string>)
    requires Has(s, path)
    ensures At(s, path).node in Objs(s)
  {
    AtIsInside(s, path);
  }

  lemma SteppedSame(t: Tree, path: seq<string>, x: string, rest: seq<string>, p: Payload)
    requires DirPath(t, path) && HasTree(t, path) && rest != []
    ensures ApplyItem(Stepped(t, path, x), path + [x] + rest, p) == ApplyItem(t, path + [x] + rest, p)
  {
    PlaceholderAhead(t, path, x, rest, p);
  }

  lemma SteppedIsWithKid(t: Tree, path: seq<string>, x: string)
    requires HasTree(t, path)
    ensures Stepped(t, path, x) == WithKid(t, path, x, Descend(TreeAt(t, path), x))
  {
  }

  lemma AbsTop(s: Shape)
    ensures Abs(s).meta == s.node.meta && Abs(s) == Above(s.node, Abs(s).kids)
  {
  }

  /** t with one kid of the node at path set. */
  function WithKid(t: Tree, path: seq<string>, x: string, kid: Tree): Tree
    requires HasTree(t, path)
  {
    var d := TreeAt(t, path);
    PutTree(t, path, d.(kids := d.kids[x := kid]))
  }

  /** What there is to know about the node at path before it is changed. */
  lemma Surroundings(s: Shape, path: seq<string>)
    requires Has(s, path) && Fits(s) && Apart(s)
    ensures var sub := At(s, path);
      && Objs(sub) <= Objs(s) && sub.node in Objs(sub) && sub.node in Objs(s) && sub.node !in Below(sub)
      && Apart(sub) && Fits(sub) && Listed(sub.node.children, sub.kids) && KidsAs(sub, Abs(sub).kids)
      && HasTree(Abs(s), path) && TreeAt(Abs(s), path) == Abs(sub)
      && AsideFrom(s, path, Abs(s))
  {
    AtIsInside(s, path);
    FitsAt(s, path);
    FitsAside(s, path);
    AtApart(s, path);
    FitsKids(At(s, path));
  }

  lemma LeafFits(leaf: Shape)
    requires leaf.kids == map[] && leaf.node.children == []
    ensures Fits(leaf) && Abs(leaf) == Above(leaf.node, map[])
  {
    assert Abs(leaf).kids == map[];
  }

  /** The layer written for the difference of o and n, replayed over nodes that hold o, leaves n there:
      names, types, permissions, owners, attributes, link targets, device numbers and contents. */
  method DiffAndApply(a: Applier, o: Tree, n: Tree) returns (ok: bool)
    requires a.Valid() && a.Tree() == o && WellFormed(o) && WellFormed(n)
    modifies a`shape, Objs(a.shape)
    ensures a.Valid() && ok
    ensures OciRecords.SameKids(a.Tree(), n) <==> Faithful(o, n)
  {
    hide Objs, Apart, Fits, Abs, RenderedAll, ApplyRecords, Diff, Faithful, ViewKids, OciRecords.SameKids;
    assert allocated(Objs(a.shape));
    JoinOfNothing();
    LayerRoundTrip(o, n);
    var tw := new TarWriter();
    DiffDir(tw, o, n, "", []);
    assert tw.entries == RenderedAll([], Diff(o, n));
    ok := a.ApplyLayer(tw.entries);
    OciRecords.KidsViewed(a.Tree(), n);
  }
}
