/** populate.go: the trees that Graft walks and makes, and what it keeps of them. */
module GraftTrees {
  import opened Names
  import opened ImageGraph
  import opened MemImage

  // ----- Trees of nodes, as they are walked.

  datatype Shape = Leaf(node: nat) | Dir(node: nat, kids: seq<Kid>)

  datatype Kid = Kid(name: string, shape: Shape)

  function Leaves(s: Shape): seq<nat>
    decreases s, 0
  {
    if s.Leaf? then [s.node] else LeavesOf(s.kids)
  }

  function LeavesOf(kids: seq<Kid>): seq<nat>
    decreases kids, 1
  {
    if kids == [] then [] else LeavesOf(kids[..|kids| - 1]) + Leaves(kids[|kids| - 1].shape)
  }

  /** p lists 0..n, each once. */
  predicate IsPermutation(p: seq<nat>, n: nat) {
    && |p| == n && (forall i :: 0 <= i < n ==> p[i] < n)
    && (forall i, j :: 0 <= i < j < n ==> p[i] != p[j]) && (forall i: nat :: i < n ==> i in p)
  }

  ghost predicate Rearranged(out: seq<Entry>, es: seq<Entry>, p: seq<nat>) {
    IsPermutation(p, |es|) && |out| == |es| && forall i :: 0 <= i < |out| ==> out[i] == es[p[i]]
  }

  /** out is es in the order of the names. */
  ghost predicate SortedFrom(out: seq<Entry>, es: seq<Entry>) {
    && (exists p :: Rearranged(out, es, p))
    && (forall i, j :: 0 <= i < j < |out| ==> !Before(out[j].name, out[i].name))
  }

  function EntriesIn(kids: seq<Kid>): (es: seq<Entry>)
    ensures |es| == |kids| && forall i :: 0 <= i < |kids| ==> es[i] == Entry(kids[i].name, kids[i].shape.node)
  {
    seq(|kids|, i requires 0 <= i < |kids| => Entry(kids[i].name, kids[i].shape.node))
  }

  /** s is the tree below a source node, every directory in the order of its names. */
  ghost predicate ShowsSource(g: seq<Record>, s: Shape)
    decreases s
  {
    && s.node < |g| && (s.Dir? <==> g[s.node].IsDir())
    && (s.Dir? ==>
          && SortedFrom(EntriesIn(s.kids), g[s.node].children)
          && forall i :: 0 <= i < |s.kids| ==> ShowsSource(g, s.kids[i].shape))
  }

  /** c is the tree below a node of an image. */
  ghost predicate ShowsImage(nodes: seq<Record>, c: Shape)
    decreases c
  {
    && c.node < |nodes| && (c.Dir? <==> nodes[c.node].IsDir())
    && (c.Dir? ==>
          && nodes[c.node].children == EntriesIn(c.kids)
          && forall i :: 0 <= i < |c.kids| ==> ShowsImage(nodes, c.kids[i].shape))
  }

  /** What the editing calls keep of an inode. */
  function Grafted(n: Inode): Inode {
    if DirBit in n.meta.types then Inode(TypedMeta(n.meta, {DirBit}), [], "", 0)
    else if SymlinkBit in n.meta.types then Inode(TypedMeta(n.meta, {SymlinkBit}), [], n.link, 0)
    else if n.meta.types * SPECIAL != {} then Inode(n.meta, [], "", n.rdev)
    else Inode(TypedMeta(n.meta, {}), n.content, "", 0)
  }

  /** b has the permissions, owner and attributes of a and is of its kind; a file has its content, a symlink its target,
      a device, pipe or socket its type and device number, and there is nothing in the fields of other kinds. */
  predicate CopyOf(a: Inode, b: Inode) {
    && b.meta.perm == a.meta.perm && b.meta.uid == a.meta.uid && b.meta.gid == a.meta.gid
    && b.meta.xattrs == a.meta.xattrs
    && b.meta.types == (if IsFile(a) then {} else if IsSpecial(a) then a.meta.types
                        else if IsLink(a) then {SymlinkBit} else {DirBit})
    && b.content == (if IsFile(a) then a.content else [])
    && b.link == (if IsLink(a) then a.link else "")
    && b.rdev == (if IsSpecial(a) then a.rdev else 0)
  }

  predicate IsLink(n: Inode) {
    DirBit !in n.meta.types && SymlinkBit in n.meta.types
  }

  predicate IsSpecial(n: Inode) {
    DirBit !in n.meta.types && SymlinkBit !in n.meta.types && n.meta.types * SPECIAL != {}
  }

  predicate IsFile(n: Inode) {
    DirBit !in n.meta.types && SymlinkBit !in n.meta.types && n.meta.types * SPECIAL == {}
  }

  lemma GraftedIsCopy(n: Inode)
    ensures CopyOf(n, Grafted(n))
  {
  }

  /** A node whose type bits and fields suit one kind is copied whole. */
  lemma SameWhenPlain(a: Inode, b: Inode)
    requires CopyOf(a, b)
    ensures b == a <==>
      && (a.meta.types == {} || a.meta.types == {DirBit} || a.meta.types == {SymlinkBit} || IsSpecial(a))
      && (a.content == [] || IsFile(a)) && (a.link == "" || IsLink(a)) && (a.rdev == 0 || IsSpecial(a))
  {
    if a.meta.types == {DirBit} || a.meta.types == {SymlinkBit} {
      assert DirBit in a.meta.types || SymlinkBit in a.meta.types;
    }
  }

  /** The two trees have the same names in the same places, over nodes that are copies. */
  ghost predicate Alike(g: seq<Record>, nodes: seq<Record>, s: Shape, c: Shape)
    decreases s
  {
    && s.node < |g| && c.node < |nodes| && CopyOf(g[s.node].inode, nodes[c.node].inode)
    && (s.Dir? <==> c.Dir?)
    && (s.Dir? ==>
          && |s.kids| == |c.kids|
          && (forall i :: 0 <= i < |s.kids| ==> s.kids[i].name == c.kids[i].name)
          && (forall i :: 0 <= i < |s.kids| ==> Alike(g, nodes, s.kids[i].shape, c.kids[i].shape)))
  }

  // ----- Which names share a node.

  /** Only a regular file with more than one link is met again. */
  predicate Foldable(r: Record) {
    IsFile(r.inode) && r.nlink > 1
  }

  /** The leaves met so far, ss in the source and cs in the image, and seen. */
  ghost predicate Sharing(g: seq<Record>, ss: seq<nat>, cs: seq<nat>, seen: map<nat, nat>, size: nat) {
    && |ss| == |cs|
    && (forall k :: 0 <= k < |ss| ==> ss[k] < |g| && cs[k] < size)
    && (forall k :: 0 <= k < |ss| && Foldable(g[ss[k]]) ==> ss[k] in seen && seen[ss[k]] == cs[k])
    && (forall k :: 0 <= k < |ss| && !Foldable(g[ss[k]]) ==> cs[k] !in seen.Values)
    && (forall j, k :: 0 <= j < k < |ss| && !(Foldable(g[ss[j]]) && Foldable(g[ss[k]])) ==> cs[j] != cs[k])
    && (forall x :: x in seen ==> x < |g| && Foldable(g[x]) && seen[x] < size)
    && (forall x, y :: x in seen && y in seen && x != y ==> seen[x] != seen[y])
  }

  /** Two names share a node in the image exactly when they name the same foldable file in the source. */
  lemma SharingIsExact(g: seq<Record>, ss: seq<nat>, cs: seq<nat>, seen: map<nat, nat>, size: nat, j: nat, k: nat)
    requires Sharing(g, ss, cs, seen, size) && j < k < |ss|
    ensures cs[j] == cs[k] <==> ss[j] == ss[k] && Foldable(g[ss[j]])
  {
  }

  /** All sharing of regular files comes over exactly when no file of two names has a link count of one or less. */
  lemma SharingIsKept(g: seq<Record>, ss: seq<nat>, cs: seq<nat>)
    requires SharedAlike(g, ss, cs)
    ensures
      (forall j, k :: 0 <= j < k < |ss| ==> (cs[j] == cs[k] <==> ss[j] == ss[k] && IsFile(g[ss[j]].inode))) <==>
      (forall j, k :: 0 <= j < k < |ss| && ss[j] == ss[k] && IsFile(g[ss[j]].inode) ==> g[ss[j]].nlink > 1)
  {
    hide IsFile;
    if forall j, k :: 0 <= j < k < |ss| ==> (cs[j] == cs[k] <==> ss[j] == ss[k] && IsFile(g[ss[j]].inode)) {
      forall j, k | 0 <= j < k < |ss| && ss[j] == ss[k] && IsFile(g[ss[j]].inode)
        ensures g[ss[j]].nlink > 1
      {
        assert cs[j] == cs[k];
      }
    }
  }

  /** Two leaves of the copy are one node exactly when they were one foldable file. */
  ghost predicate SharedAlike(g: seq<Record>, ss: seq<nat>, cs: seq<nat>) {
    && |ss| == |cs| && (forall k :: 0 <= k < |ss| ==> ss[k] < |g|)
    && forall j, k :: 0 <= j < k < |ss| ==> (cs[j] == cs[k] <==> ss[j] == ss[k] && Foldable(g[ss[j]]))
  }

  lemma SharingNew(g: seq<Record>, ss: seq<nat>, cs: seq<nat>, seen: map<nat, nat>, size: nat, n: nat)
    requires Sharing(g, ss, cs, seen, size) && n < |g| && n !in seen
    ensures !Foldable(g[n]) ==> Sharing(g, ss + [n], cs + [size], seen, size + 1)
    ensures Foldable(g[n]) ==> Sharing(g, ss + [n], cs + [size], seen[n := size], size + 1)
  {
    hide Foldable;
    if Foldable(g[n]) {
      var seen' := seen[n := size];
      forall x | x in seen'.Values
        ensures x in seen.Values || x == size
      {
      }
    }
  }

  lemma SharingAgain(g: seq<Record>, ss: seq<nat>, cs: seq<nat>, seen: map<nat, nat>, size: nat, n: nat)
    requires Sharing(g, ss, cs, seen, size) && n in seen
    ensures Sharing(g, ss + [n], cs + [seen[n]], seen, size)
  {
    hide Foldable;
    assert seen[n] in seen.Values;
  }

  // ----- What an edit under one directory leaves alone.

  /** Inodes stay, and so do the children of every directory but d. */
  ghost predicate Framed(a: seq<Record>, b: seq<Record>, d: nat) {
    && |a| <= |b|
    && (forall m :: 0 <= m < |a| ==> b[m].inode == a[m].inode)
    && (forall m :: 0 <= m < |a| && m != d ==> b[m].children == a[m].children)
  }

  /** Every directory of c came after the first lo nodes. */
  predicate DirsFrom(c: Shape, lo: nat)
    decreases c
  {
    c.Dir? ==> c.node >= lo && forall i :: 0 <= i < |c.kids| ==> DirsFrom(c.kids[i].shape, lo)
  }

  lemma {:induction false} ShowsFramed(a: seq<Record>, b: seq<Record>, d: nat, c: Shape, lo: nat)
    requires ShowsImage(a, c) && Framed(a, b, d) && DirsFrom(c, lo) && d < lo
    ensures ShowsImage(b, c)
    decreases c
  {
    if c.Dir? {
      forall i | 0 <= i < |c.kids|
        ensures ShowsImage(b, c.kids[i].shape)
      {
        ShowsFramed(a, b, d, c.kids[i].shape, lo);
      }
    }
  }

  lemma {:induction false} AlikeFramed(g: seq<Record>, a: seq<Record>, b: seq<Record>, d: nat, s: Shape, c: Shape)
    requires Alike(g, a, s, c) && Framed(a, b, d)
    ensures Alike(g, b, s, c)
    decreases s
  {
    hide CopyOf;
    if s.Dir? {
      forall i | 0 <= i < |s.kids|
        ensures Alike(g, b, s.kids[i].shape, c.kids[i].shape)
      {
        AlikeFramed(g, a, b, d, s.kids[i].shape, c.kids[i].shape);
      }
    }
  }

  lemma {:induction false} DirsFromLess(c: Shape, lo: nat, hi: nat)
    requires DirsFrom(c, hi) && lo <= hi
    ensures DirsFrom(c, lo)
    decreases c
  {
    if c.Dir? {
      forall i | 0 <= i < |c.kids|
        ensures DirsFrom(c.kids[i].shape, lo)
      {
        DirsFromLess(c.kids[i].shape, lo, hi);
      }
    }
  }

  /** Besides, d only gained names. */
  ghost predicate OnlyMore(a: seq<Record>, b: seq<Record>, d: nat) {
    Framed(a, b, d) && d < |a| && a[d].children <= b[d].children
  }

  lemma FramedTwice(a: seq<Record>, b: seq<Record>, c: seq<Record>, d: nat, e: nat)
    requires Framed(a, b, d) && Framed(b, c, e) && (e == d || e >= |a|)
    ensures Framed(a, c, d)
  {
  }

  lemma MkdirFrames(s: State, d: nat, name: string, inode: Inode)
    requires d < |s.nodes|
    ensures Framed(s.nodes, AfterMkdir(s, d, name, inode).nodes, d)
    ensures AfterMkdir(s, d, name, inode).nodes[d].children == s.nodes[d].children + [Entry(name, |s.nodes|)]
  {
  }

  lemma MakeFrames(s: State, d: nat, name: string, inode: Inode)
    requires d < |s.nodes|
    ensures Framed(s.nodes, AfterMake(s, d, name, inode).nodes, d)
    ensures AfterMake(s, d, name, inode).nodes[d].children == s.nodes[d].children + [Entry(name, |s.nodes|)]
    ensures DirBit !in inode.meta.types ==> AfterMake(s, d, name, inode).odd == s.odd
  {
  }

  lemma LinkFrames(s: State, d: nat, name: string, n: nat)
    requires d < |s.nodes| && n < |s.nodes|
    ensures Framed(s.nodes, AfterLink(s, d, name, n).nodes, d)
    ensures AfterLink(s, d, name, n).nodes[d].children == s.nodes[d].children + [Entry(name, n)]
  {
  }

  // ----- One name, and the names of a directory.

  /** One name was grafted: b is the image after, s what was walked and c what was made. */
  ghost predicate OneDone(g: seq<Record>, a: seq<Record>, b: seq<Record>, d: nat, e: Entry,
                          ss: seq<nat>, cs: seq<nat>, seen: map<nat, nat>, s: Shape, c: Shape)
  {
    && d < |a| && Framed(a, b, d) && b[d].children == a[d].children + [Entry(e.name, c.node)]
    && s.node == e.node && ShowsSource(g, s) && ShowsImage(b, c) && Alike(g, b, s, c) && DirsFrom(c, |a|)
    && Sharing(g, ss + Leaves(s), cs + Leaves(c), seen, |b|)
  }

  ghost predicate KidDone(g: seq<Record>, b: seq<Record>, lo: nat, e: Entry, s: Kid, c: Kid) {
    && s.name == e.name && c.name == e.name && s.shape.node == e.node
    && ShowsSource(g, s.shape) && ShowsImage(b, c.shape) && Alike(g, b, s.shape, c.shape) && DirsFrom(c.shape, lo)
  }

  ghost predicate KidsDone(g: seq<Record>, a: seq<Record>, b: seq<Record>, d: nat, out: seq<Entry>,
                           ss: seq<nat>, cs: seq<nat>, seen: map<nat, nat>, sk: seq<Kid>, ck: seq<Kid>)
  {
    && d < |a| && Framed(a, b, d) && b[d].children == a[d].children + EntriesIn(ck)
    && |sk| == |out| && |ck| == |out|
    && (forall i :: 0 <= i < |out| ==> KidDone(g, b, |a|, out[i], sk[i], ck[i]))
    && Sharing(g, ss + LeavesOf(sk), cs + LeavesOf(ck), seen, |b|)
  }

  lemma KidsStart(g: seq<Record>, a: seq<Record>, d: nat, ss: seq<nat>, cs: seq<nat>, seen: map<nat, nat>)
    requires d < |a| && Sharing(g, ss, cs, seen, |a|)
    ensures KidsDone(g, a, a, d, [], ss, cs, seen, [], [])
  {
    assert ss + [] == ss && cs + [] == cs;
    assert a[d].children + [] == a[d].children;
  }

  lemma LeavesMore(kids: seq<Kid>, k: Kid)
    ensures LeavesOf(kids + [k]) == LeavesOf(kids) + Leaves(k.shape)
  {
    assert (kids + [k])[..|kids|] == kids;
  }

  lemma EntriesInMore(kids: seq<Kid>, k: Kid)
    ensures EntriesIn(kids + [k]) == EntriesIn(kids) + [Entry(k.name, k.shape.node)]
  {
  }

  lemma KidsStep(g: seq<Record>, a: seq<Record>, b: seq<Record>, b': seq<Record>, d: nat, out: seq<Entry>, e: Entry,
                 ss: seq<nat>, cs: seq<nat>, seen: map<nat, nat>, seen': map<nat, nat>, sk: seq<Kid>, ck: seq<Kid>,
                 s: Shape, c: Shape)
    requires KidsDone(g, a, b, d, out, ss, cs, seen, sk, ck)
    requires OneDone(g, b, b', d, e, ss + LeavesOf(sk), cs + LeavesOf(ck), seen', s, c)
    ensures KidsDone(g, a, b', d, out + [e], ss, cs, seen', sk + [Kid(e.name, s)], ck + [Kid(e.name, c)])
  {
    hide Sharing, Leaves, LeavesOf, ShowsSource, ShowsImage, Alike, DirsFrom, EntriesIn, CopyOf;
    var sk', ck' := sk + [Kid(e.name, s)], ck + [Kid(e.name, c)];
    LeavesMore(sk, Kid(e.name, s));
    LeavesMore(ck, Kid(e.name, c));
    EntriesInMore(ck, Kid(e.name, c));
    assert ss + LeavesOf(sk') == ss + LeavesOf(sk) + Leaves(s);
    assert cs + LeavesOf(ck') == cs + LeavesOf(ck) + Leaves(c);
    assert a[d].children + EntriesIn(ck') == a[d].children + EntriesIn(ck) + [Entry(e.name, c.node)];
    FramedTwice(a, b, b', d, d);
    forall i | 0 <= i < |out + [e]|
      ensures KidDone(g, b', |a|, (out + [e])[i], sk'[i], ck'[i])
    {
      if i < |out| {
        assert KidDone(g, b, |a|, out[i], sk[i], ck[i]);
        ShowsFramed(b, b', d, ck[i].shape, |a|);
        AlikeFramed(g, b, b', d, sk[i].shape, ck[i].shape);
      } else {
        DirsFromLess(c, |a|, |b|);
      }
    }
  }

  /** A directory is done when it was made and its names were grafted into it. */
  lemma DirDone(g: seq<Record>, t: State, b: seq<Record>, d: nat, name: string, n: nat, out: seq<Entry>,
                ss: seq<nat>, cs: seq<nat>, seen: map<nat, nat>, sk: seq<Kid>, ck: seq<Kid>)
    requires d < |t.nodes| && n < |g| && g[n].IsDir() && SortedFrom(out, g[n].children)
    requires KidsDone(g, AfterMkdir(t, d, name, Grafted(g[n].inode)).nodes, b, |t.nodes|, out, ss, cs, seen, sk, ck)
    ensures OneDone(g, t.nodes, b, d, Entry(name, n), ss, cs, seen, Dir(n, sk), Dir(|t.nodes|, ck))
  {
    hide Sharing, SortedFrom, LeavesOf, Before, AfterMkdir;
    GraftedIsCopy(g[n].inode);
    var x := |t.nodes|;
    var a := AfterMkdir(t, d, name, Grafted(g[n].inode)).nodes;
    MkdirFrames(t, d, name, Grafted(g[n].inode));
    NewDirectory(t, d, name, Grafted(g[n].inode));
    FramedTwice(t.nodes, a, b, d, x);
    assert a[x].children + EntriesIn(ck) == EntriesIn(ck);
    assert EntriesIn(sk) == out by {
      forall i | 0 <= i < |out|
        ensures EntriesIn(sk)[i] == out[i]
      {
        assert KidDone(g, b, |a|, out[i], sk[i], ck[i]);
      }
    }
    forall i | 0 <= i < |out|
      ensures ShowsSource(g, sk[i].shape) && ShowsImage(b, ck[i].shape) && Alike(g, b, sk[i].shape, ck[i].shape)
      ensures sk[i].name == ck[i].name && DirsFrom(ck[i].shape, |t.nodes|)
    {
      assert KidDone(g, b, |a|, out[i], sk[i], ck[i]);
      DirsFromLess(ck[i].shape, |t.nodes|, |a|);
    }
  }

  lemma NewDirectory(t: State, d: nat, name: string, inode: Inode)
    requires d < |t.nodes|
    ensures |AfterMkdir(t, d, name, inode).nodes| == |t.nodes| + 1
    ensures AfterMkdir(t, d, name, inode).nodes[|t.nodes|] == Record(inode, 2, [])
  {
  }

  /** A new node for a file, link or device. */
  lemma LeafDone(g: seq<Record>, t: State, d: nat, name: string, n: nat,
                 ss: seq<nat>, cs: seq<nat>, seen: map<nat, nat>)
    requires d < |t.nodes| && n < |g| && !g[n].IsDir() && n !in seen && Sharing(g, ss, cs, seen, |t.nodes|)
    ensures OneDone(g, t.nodes, AfterMake(t, d, name, Grafted(g[n].inode)).nodes, d, Entry(name, n), ss, cs,
                    if Foldable(g[n]) then seen[n := |t.nodes|] else seen, Leaf(n), Leaf(|t.nodes|))
  {
    hide Sharing, CopyOf;
    GraftedIsCopy(g[n].inode);
    MakeFrames(t, d, name, Grafted(g[n].inode));
    SharingNew(g, ss, cs, seen, |t.nodes|, n);
  }

  /** A file met before. */
  lemma LinkDone(g: seq<Record>, t: State, d: nat, name: string, n: nat,
                 ss: seq<nat>, cs: seq<nat>, seen: map<nat, nat>)
    requires d < |t.nodes| && n < |g| && n in seen && Sharing(g, ss, cs, seen, |t.nodes|)
    requires seen[n] < |t.nodes| && t.nodes[seen[n]].inode == Grafted(g[n].inode)
    ensures OneDone(g, t.nodes, AfterLink(t, d, name, seen[n]).nodes, d, Entry(name, n), ss, cs, seen,
                    Leaf(n), Leaf(seen[n]))
  {
    FoldableIsFile(g, ss, cs, seen, |t.nodes|, n);
    hide Sharing, CopyOf, Grafted;
    GraftedIsCopy(g[n].inode);
    LinkFrames(t, d, name, seen[n]);
    SharingAgain(g, ss, cs, seen, |t.nodes|, n);
  }

  lemma FoldableIsFile(g: seq<Record>, ss: seq<nat>, cs: seq<nat>, seen: map<nat, nat>, size: nat, n: nat)
    requires Sharing(g, ss, cs, seen, size) && n in seen
    ensures n < |g| && Foldable(g[n]) && !g[n].IsDir() && DirBit !in Grafted(g[n].inode).meta.types
  {
  }

  // ----- The source, and why a graft can fail.

  /** No directory is inside itself: they are numbered from the top. */
  ghost predicate Downward(g: seq<Record>) {
    && (forall n, i :: 0 <= n < |g| && 0 <= i < |g[n].children| ==> Below(g, n, g[n].children[i].node))
  }

  ghost predicate Below(g: seq<Record>, n: nat, m: nat) {
    m < |g| && (g[m].IsDir() ==> n < m)
  }

  ghost function Rank(g: seq<Record>, n: nat): nat
    requires n < |g|
  {
    if g[n].IsDir() then |g| - n else 0
  }

  /** Every directory from n down has valid names, each once. */
  ghost predicate GoodBelow(g: seq<Record>, n: nat)
    requires Downward(g) && n < |g|
    decreases Rank(g, n)
  {
    g[n].IsDir() ==>
      && UniqueNames(g[n].children) && ValidNames(g[n].children)
      && forall i :: 0 <= i < |g[n].children| ==>
           assert Below(g, n, g[n].children[i].node);
           GoodBelow(g, g[n].children[i].node)
  }

  lemma ChildGood(g: seq<Record>, n: nat, out: seq<Entry>, k: nat)
    requires Downward(g) && n < |g| && g[n].IsDir() && SortedFrom(out, g[n].children) && k < |out|
    requires GoodBelow(g, n)
    ensures out[k].node < |g| && GoodBelow(g, out[k].node)
  {
    hide Before, UniqueNames, ValidNames;
    var p :| Rearranged(out, g[n].children, p);
    assert g[n].children[p[k]] == out[k];
    assert Below(g, n, g[n].children[p[k]].node);
  }

  /** Names are unique and valid in any order. */
  lemma OrderAside(out: seq<Entry>, es: seq<Entry>)
    requires SortedFrom(out, es) && UniqueNames(out) && ValidNames(out)
    ensures UniqueNames(es) && ValidNames(es)
    ensures forall i :: 0 <= i < |es| ==> es[i] in out
  {
    hide Before, ValidName;
    var p :| Rearranged(out, es, p);
    forall i, j | 0 <= i < j < |es|
      ensures es[i].name != es[j].name
    {
      assert i in p && j in p;
      var k :| 0 <= k < |p| && p[k] == i;
      var l :| 0 <= l < |p| && p[l] == j;
      assert out[k] == es[i] && out[l] == es[j];
    }
    forall i | 0 <= i < |es|
      ensures ValidName(es[i].name) && es[i] in out
    {
      assert i in p;
      var k :| 0 <= k < |p| && p[k] == i;
      assert out[k] == es[i];
    }
  }

  /** What was walked with good names is good in the source. */
  lemma {:induction false} WalkedIsGood(g: seq<Record>, s: Shape)
    requires Downward(g) && ShowsSource(g, s) && GoodTree(s)
    ensures GoodBelow(g, s.node)
    decreases s
  {
    hide SortedFrom, UniqueNames, ValidNames, Downward;
    if s.Dir? {
      var es := g[s.node].children;
      OrderAside(EntriesIn(s.kids), es);
      forall i | 0 <= i < |es|
        ensures Below(g, s.node, es[i].node) && GoodBelow(g, es[i].node)
      {
        GoesDown(g, s.node, i);
        var j :| 0 <= j < |EntriesIn(s.kids)| && EntriesIn(s.kids)[j] == es[i];
        WalkedIsGood(g, s.kids[j].shape);
      }
    }
  }

  lemma GoesDown(g: seq<Record>, n: nat, i: nat)
    requires Downward(g) && n < |g| && i < |g[n].children|
    ensures Below(g, n, g[n].children[i].node)
  {
  }

  /** Every directory of the tree has valid names, each once. */
  ghost predicate GoodTree(s: Shape)
    decreases s
  {
    s.Dir? ==>
      && UniqueNames(EntriesIn(s.kids)) && ValidNames(EntriesIn(s.kids))
      && forall i :: 0 <= i < |s.kids| ==> GoodTree(s.kids[i].shape)
  }

  predicate Clash(es: seq<Entry>, fs: seq<Entry>) {
    exists i :: 0 <= i < |fs| && Present(es, fs[i].name)
  }
}
