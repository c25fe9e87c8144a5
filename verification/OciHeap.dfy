/** The mutable node tree of pkg/image, seen as a value. */
module NodeTrees {
  import opened Modes
  import opened OciTrees

  class TreeNode {
    var meta: Meta
    var link: string
    var rdev: Device
    var content: seq<nat>
    var nlink: nat
    var children: seq<Child>

    constructor (meta: Meta, nlink: nat)
      ensures this.meta == meta && this.nlink == nlink
      ensures link == "" && rdev == 0 && content == [] && children == []
    {
      this.meta := meta;
      this.nlink := nlink;
      link, rdev, content, children := "", 0, [], [];
    }

    predicate IsDir()
      reads this
    {
      meta.mode.kind == Dir
    }
  }

  datatype Child = Child(name: string, node: TreeNode)

  /** Which nodes hang where: the pointers of a tree, without the contents of its nodes. */
  datatype Shape = Shape(node: TreeNode, kids: map<string, Shape>)

  ghost function Objs(s: Shape): set<TreeNode>
    decreases s, 1
  {
    {s.node} + Below(s)
  }

  ghost function Below(s: Shape): set<TreeNode>
    decreases s, 0
  {
    set x, o | x in s.kids && o in Objs(s.kids[x]) :: o
  }

  /** No node is met twice. */
  ghost predicate Apart(s: Shape) {
    && s.node !in Below(s)
    && (forall x, y :: x in s.kids && y in s.kids && x != y ==> Objs(s.kids[x]) !! Objs(s.kids[y]))
    && forall x :: x in s.kids ==> Apart(s.kids[x])
  }

  /** The children slice names each kid once. */
  ghost predicate Listed(children: seq<Child>, kids: map<string, Shape>) {
    && (forall i :: 0 <= i < |children| ==> children[i].name in kids && kids[children[i].name].node == children[i].node)
    && (forall i, j :: 0 <= i < j < |children| ==> children[i].name != children[j].name)
    && (forall x :: x in kids ==> exists i :: 0 <= i < |children| && children[i].name == x)
  }

  /** The heap has shape s. */
  ghost predicate Fits(s: Shape)
    reads Objs(s)
    decreases s
  {
    Listed(s.node.children, s.kids) &&
    forall x :: x in s.kids ==> assert Objs(s.kids[x]) <= Objs(s); Fits(s.kids[x])
  }

  /** The tree the heap holds in shape s. */
  ghost function Abs(s: Shape): Tree
    reads Objs(s)
    decreases s
  {
    Node(s.node.meta, s.node.link, s.node.rdev, s.node.content,
                  map x | x in s.kids :: assert Objs(s.kids[x]) <= Objs(s); Abs(s.kids[x]))
  }

  // ----- Places in a shape and in a tree.

  ghost predicate Has(s: Shape, path: seq<string>) {
    path == [] || (path[0] in s.kids && Has(s.kids[path[0]], path[1..]))
  }

  ghost function At(s: Shape, path: seq<string>): Shape
    requires Has(s, path)
  {
    if path == [] then s else At(s.kids[path[0]], path[1..])
  }

  ghost function Put(s: Shape, path: seq<string>, sub: Shape): Shape
    requires Has(s, path)
  {
    if path == [] then sub else Shape(s.node, s.kids[path[0] := Put(s.kids[path[0]], path[1..], sub)])
  }

  /** Every step of path leads into a directory. */
  predicate DirPath(t: Tree, path: seq<string>) {
    path == [] || (path[0] in t.kids && t.kids[path[0]].IsDir() && DirPath(t.kids[path[0]], path[1..]))
  }

  predicate HasTree(t: Tree, path: seq<string>) {
    path == [] || (path[0] in t.kids && HasTree(t.kids[path[0]], path[1..]))
  }

  function TreeAt(t: Tree, path: seq<string>): Tree
    requires HasTree(t, path)
  {
    if path == [] then t else TreeAt(t.kids[path[0]], path[1..])
  }

  function PutTree(t: Tree, path: seq<string>, sub: Tree): Tree {
    if path == [] then sub
    else if path[0] !in t.kids then t
    else t.(kids := t.kids[path[0] := PutTree(t.kids[path[0]], path[1..], sub)])
  }

  lemma {:induction false} AtIsInside(s: Shape, path: seq<string>)
    requires Has(s, path)
    ensures Objs(At(s, path)) <= Objs(s)
    decreases |path|
  {
    if path != [] {
      AtIsInside(s.kids[path[0]], path[1..]);
    }
  }

  lemma {:induction false} FitsAt(s: Shape, path: seq<string>)
    requires Has(s, path) && Fits(s) && Apart(s)
    ensures Fits(At(s, path)) && Apart(At(s, path))
    ensures HasTree(Abs(s), path) && TreeAt(Abs(s), path) == Abs(At(s, path))
    decreases |path|
  {
    if path != [] {
      FitsAt(s.kids[path[0]], path[1..]);
    }
  }

  /** One kid of a shape exchanged for another with the same node at its top. */
  lemma KidExchanged(s: Shape, x: string, k: Shape)
    requires Apart(s) && x in s.kids && Apart(k) && k.node == s.kids[x].node
    requires Objs(k) * Objs(s) <= Objs(s.kids[x])
    ensures var t := Shape(s.node, s.kids[x := k]);
      Apart(t) && Objs(t) <= Objs(s) + Objs(k)
  {
    var t := Shape(s.node, s.kids[x := k]);
    assert s.node in Objs(s) && s.node !in Objs(s.kids[x]);
    forall y | y in s.kids && y != x
      ensures Objs(s.kids[y]) !! Objs(k)
    {
      assert Objs(s.kids[y]) <= Objs(s);
    }
  }

  lemma StillListed(children: seq<Child>, kids: map<string, Shape>, x: string, k: Shape)
    requires Listed(children, kids) && x in kids && k.node == kids[x].node
    ensures Listed(children, kids[x := k])
  {
  }

  ghost predicate SiblingAs(s: Shape, path: seq<string>, y: string, t: Tree)
    requires Has(s, path) && Apart(s) && path != [] && y in s.kids && y != path[0]
    reads Objs(s) - Objs(At(s, path))
  {
    SiblingOutside(s, path, y);
    Fits(s.kids[y]) && Abs(s.kids[y]) == t
  }

  /** Everything in s but the node at path, and what hangs below that node, is as in tree t. */
  ghost predicate AsideFrom(s: Shape, path: seq<string>, t: Tree)
    requires Has(s, path) && Apart(s)
    reads Objs(s) - Objs(At(s, path))
    decreases |path|
  {
    path == [] ||
    (StepInto(s, path);
     var x := path[0];
     && s.node.meta == t.meta && s.node.link == t.link && s.node.rdev == t.rdev && s.node.content == t.content
     && Listed(s.node.children, s.kids) && s.kids.Keys == t.kids.Keys
     && (forall y :: y in s.kids && y != x ==> SiblingAs(s, path, y, t.kids[y]))
     && AsideFrom(s.kids[x], path[1..], t.kids[x]))
  }

  lemma StepInto(s: Shape, path: seq<string>)
    requires Has(s, path) && Apart(s) && path != []
    ensures var k := s.kids[path[0]];
      && Objs(k) <= Objs(s) && Apart(k) && s.node !in Objs(k)
      && Objs(At(s, path)) <= Objs(k) && At(s, path) == At(k, path[1..])
  {
    AtIsInside(s.kids[path[0]], path[1..]);
  }

  lemma SiblingOutside(s: Shape, path: seq<string>, y: string)
    requires Has(s, path) && Apart(s) && path != [] && y in s.kids && y != path[0]
    ensures Objs(s.kids[y]) <= Objs(s) - Objs(At(s, path))
  {
    StepInto(s, path);
  }

  lemma {:induction false} FitsAside(s: Shape, path: seq<string>)
    requires Has(s, path) && Apart(s) && Fits(s)
    ensures AsideFrom(s, path, Abs(s))
    decreases |path|
  {
    if path != [] {
      FitsAside(s.kids[path[0]], path[1..]);
    }
  }

  /** A new subtree below path, the rest being as in t: the tree t changed at that path. */
  lemma {:induction false} Reassembled(s: Shape, path: seq<string>, t: Tree, sub: Shape)
    requires Has(s, path) && Apart(s) && AsideFrom(s, path, t)
    requires sub.node == At(s, path).node && Fits(sub) && Apart(sub)
    requires Objs(sub) * Objs(s) <= Objs(At(s, path))
    ensures var r := Put(s, path, sub);
      && Fits(r) && Apart(r) && Objs(r) <= Objs(s) + Objs(sub) && r.node == s.node
      && Abs(r) == PutTree(t, path, Abs(sub))
    decreases |path|
  {
    if path != [] {
      var x, k := path[0], s.kids[path[0]];
      StepInto(s, path);
      Reassembled(k, path[1..], t.kids[x], sub);
      var k' := Put(k, path[1..], sub);
      assert Objs(k') * Objs(s) <= Objs(k);
      KidExchanged(s, x, k');
      OneLevel(s, x, k', t);
    }
  }

  lemma OneLevel(s: Shape, x: string, k: Shape, t: Tree)
    requires x in s.kids && Fits(k) && k.node == s.kids[x].node
    requires s.node.meta == t.meta && s.node.link == t.link && s.node.rdev == t.rdev && s.node.content == t.content
    requires Listed(s.node.children, s.kids) && s.kids.Keys == t.kids.Keys
    requires forall y :: y in s.kids && y != x ==> Fits(s.kids[y]) && Abs(s.kids[y]) == t.kids[y]
    ensures var r := Shape(s.node, s.kids[x := k]); Fits(r) && Abs(r) == t.(kids := t.kids[x := Abs(k)])
  {
    hide Listed, Objs;
    StillListed(s.node.children, s.kids, x, k);
    var r := Shape(s.node, s.kids[x := k]);
    assert Abs(r).kids == t.kids[x := Abs(k)];
  }

  /** The subtrees below s are ts, whatever s.node itself holds. */
  ghost predicate KidsAs(s: Shape, ts: map<string, Tree>)
    reads Below(s)
  {
    s.kids.Keys == ts.Keys &&
    forall x :: x in s.kids ==> assert Objs(s.kids[x]) <= Below(s); Fits(s.kids[x]) && Abs(s.kids[x]) == ts[x]
  }

  lemma FitsKids(s: Shape)
    requires Fits(s)
    ensures KidsAs(s, Abs(s).kids)
  {
  }

  function Above(n: TreeNode, kids: map<string, Tree>): Tree
    reads n
  {
    Node(n.meta, n.link, n.rdev, n.content, kids)
  }

  /** A node whose children slice was rewritten. */
  lemma {:induction false} Relisted(s: Shape, ts: map<string, Tree>, kids: map<string, Shape>, x: string, leaf: Shape)
    requires KidsAs(s, ts) && Fits(leaf)
    requires kids == s.kids[x := leaf] && Listed(s.node.children, kids)
    ensures Fits(Shape(s.node, kids)) && Abs(Shape(s.node, kids)) == Above(s.node, ts[x := Abs(leaf)])
  {
    hide Listed;
    var r := Shape(s.node, kids);
    assert Abs(r).kids == ts[x := Abs(leaf)];
  }
}
