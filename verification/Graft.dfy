/** populate.go: Graft, which rebuilds a node tree in another image. */
module Grafting {
  import opened Names
  import opened ImageGraph
  import opened MemImage
  import opened GraftTrees

  // ----- The code.

  /** sortedEntries. */
  method SortedEntries(n: Node) returns (out: seq<Child>)
    ensures SortedFrom(EntriesOf(out), EntriesOf(n.children))
    ensures forall i :: 0 <= i < |out| ==> out[i] in n.children
  {
    hide EntriesOf, SortedFrom, Before;
    var cs := n.children;
    out := [];
    ghost var p: seq<nat> := [];
    for k := 0 to |cs|
      invariant InOrder(out, cs, p, k)
    {
      var j: nat := 0;
      while j < k && !Before(cs[k].name, out[j].name)
        invariant j <= k && forall i :: 0 <= i < j ==> !Before(cs[k].name, out[i].name)
      {
        j := j + 1;
      }
      Inserted(out, cs, p, k, j);
      out := out[..j] + [cs[k]] + out[j..];
      p := p[..j] + [k] + p[j..];
    }
    AllSorted(out, cs, p);
  }

  ghost predicate InOrder(out: seq<Child>, cs: seq<Child>, p: seq<nat>, k: nat) {
    && k <= |cs| && |out| == k && IsPermutation(p, k)
    && (forall i :: 0 <= i < k ==> out[i] == cs[p[i]])
    && (forall i, j :: 0 <= i < j < k ==> !Before(out[j].name, out[i].name))
  }

  lemma Inserted(out: seq<Child>, cs: seq<Child>, p: seq<nat>, k: nat, j: nat)
    requires InOrder(out, cs, p, k) && k < |cs| && j <= k
    requires forall i :: 0 <= i < j ==> !Before(cs[k].name, out[i].name)
    requires j < k ==> Before(cs[k].name, out[j].name)
    ensures InOrder(out[..j] + [cs[k]] + out[j..], cs, p[..j] + [k] + p[j..], k + 1)
  {
    hide Before;
    InsertedAll(p, k, j);
    forall l | j <= l < k
      ensures !Before(out[l].name, cs[k].name)
    {
      BeforeOrders(out[j].name, out[j].name);
      NotBefore(cs[k].name, out[j].name, out[l].name);
    }
  }

  lemma InsertedAll(p: seq<nat>, k: nat, j: nat)
    requires IsPermutation(p, k) && j <= k
    ensures IsPermutation(p[..j] + [k] + p[j..], k + 1)
  {
    forall i: nat | i < k + 1
      ensures i in p[..j] + [k] + p[j..]
    {
      assert i == k || i in p;
      assert p == p[..j] + p[j..];
    }
  }

  lemma NotBefore(a: string, b: string, c: string)
    requires Before(a, b) && !Before(c, b)
    ensures !Before(c, a)
  {
    if Before(c, a) {
      BeforeTrans(c, a, b);
    }
  }

  lemma AllSorted(out: seq<Child>, cs: seq<Child>, p: seq<nat>)
    requires InOrder(out, cs, p, |cs|)
    ensures SortedFrom(EntriesOf(out), EntriesOf(cs))
    ensures forall i :: 0 <= i < |out| ==> out[i] in cs
  {
    hide Before;
    assert Rearranged(EntriesOf(out), EntriesOf(cs), p);
  }

  /** The handles in seen, and the numbers of the nodes they stand for. */
  ghost predicate SeenOk(seen: map<Node, Node>, numbers: map<nat, nat>, srcs: seq<Node>, all: seq<Node>) {
    && (forall x :: x in seen ==>
          Known(srcs, x) && x.id in numbers && Known(all, seen[x]) && seen[x].id == numbers[x.id])
    && (forall i :: i in numbers ==> i < |srcs| && srcs[i] in seen)
  }

  /** Whatever was seen was made by Create from the same inode. */
  ghost predicate SeenMade(g: seq<Record>, nodes: seq<Record>, numbers: map<nat, nat>) {
    forall i :: i in numbers ==> i < |g| && numbers[i] < |nodes| && nodes[numbers[i]].inode == Grafted(g[i].inode)
  }

  ghost predicate Source(srcs: seq<Node>, g: seq<Record>)
    reads srcs
  {
    Closed(srcs) && Records(srcs) == g && Downward(g)
  }

  /** The nodes of the image are none of the source's. */
  ghost predicate Separate(srcs: seq<Node>, all: seq<Node>) {
    forall x :: x in srcs ==> x !in all
  }

  /** Between two names. */
  ghost predicate Ready(m: Mem, srcs: seq<Node>, g: seq<Record>, ss: seq<nat>, cs: seq<nat>, seen: map<Node, Node>,
                        numbers: map<nat, nat>)
    reads m, m.all, srcs
  {
    && m.Valid() && Source(srcs, g) && Separate(srcs, m.all)
    && Sharing(g, ss, cs, numbers, |m.all|)
    && SeenOk(seen, numbers, srcs, m.all) && SeenMade(g, m.View().nodes, numbers)
  }

  lemma SeenFramed(g: seq<Record>, a: seq<Record>, b: seq<Record>, d: nat, numbers: map<nat, nat>)
    requires SeenMade(g, a, numbers) && Framed(a, b, d)
    ensures SeenMade(g, b, numbers)
  {
  }

  lemma SourceAt(srcs: seq<Node>, g: seq<Record>, n: Node)
    requires Source(srcs, g) && n in srcs
    ensures n.id < |g| && srcs[n.id] == n && g[n.id] == RecordOf(n) && |g| == |srcs|
  {
  }

  lemma NotSeen(g: seq<Record>, ss: seq<nat>, cs: seq<nat>, numbers: map<nat, nat>, size: nat, n: nat)
    requires Sharing(g, ss, cs, numbers, size) && n < |g| && !Foldable(g[n])
    ensures n !in numbers
  {
  }

  lemma SeenMore(seen: map<Node, Node>, numbers: map<nat, nat>, srcs: seq<Node>, all: seq<Node>, all': seq<Node>)
    requires SeenOk(seen, numbers, srcs, all) && all <= all'
    ensures SeenOk(seen, numbers, srcs, all')
  {
    forall x | x in seen
      ensures Known(all', seen[x])
    {
      assert Known(all, seen[x]);
    }
  }

  lemma AfterOne(g: seq<Record>, a: seq<Record>, b: seq<Record>, d: nat, e: Entry,
                 ss: seq<nat>, cs: seq<nat>, numbers: map<nat, nat>, s: Shape, c: Shape)
    requires OneDone(g, a, b, d, e, ss, cs, numbers, s, c)
    ensures Framed(a, b, d) && Sharing(g, ss + Leaves(s), cs + Leaves(c), numbers, |b|)
  {
  }

  /** What was seen before is still there after one more name. */
  lemma StillReady(m: Mem, srcs: seq<Node>, g: seq<Record>, ss: seq<nat>, cs: seq<nat>, seen: map<Node, Node>,
                   numbers: map<nat, nat>, before: seq<Node>, a: seq<Record>, d: nat, e: Entry, s: Shape, c: Shape)
    requires m.Valid() && Source(srcs, g) && Separate(srcs, m.all) && before <= m.all
    requires SeenOk(seen, numbers, srcs, before) && SeenMade(g, a, numbers)
    requires OneDone(g, a, m.View().nodes, d, e, ss, cs, numbers, s, c)
    ensures Ready(m, srcs, g, ss + Leaves(s), cs + Leaves(c), seen, numbers)
  {
    hide Sharing, SeenOk, SeenMade, OneDone, Closed, Kept, Downward, Source;
    AfterOne(g, a, m.View().nodes, d, e, ss, cs, numbers, s, c);
    SeenMore(seen, numbers, srcs, before, m.all);
    SeenFramed(g, a, m.View().nodes, d, numbers);
  }

  /** The cases of graftOne that make a new link or device. */
  method GraftSpecial(m: Mem, d: Node, name: string, n: Node, seen: map<Node, Node>,
                      ghost srcs: seq<Node>, ghost g: seq<Record>,
                      ghost ss: seq<nat>, ghost cs: seq<nat>, ghost numbers: map<nat, nat>)
    returns (r: Result<()>, ghost c: Shape)
    requires Ready(m, srcs, g, ss, cs, seen, numbers)
    requires d in m.all && d.IsDir() && n in srcs && !n.IsDir()
    requires SymlinkBit in n.inode.meta.types || n.inode.meta.types * SPECIAL != {}
    modifies m`all, m`odd, d
    ensures m.Valid() && Source(srcs, g) && Separate(srcs, m.all)
    ensures old(m.all) <= m.all && m.odd == old(m.odd) && forall x :: x in m.all ==> x in old(m.all) || fresh(x)
    ensures r.Ok? ==>
      && OneDone(g, old(m.View().nodes), m.View().nodes, d.id, Entry(name, n.id), ss, cs, numbers, Leaf(n.id), c)
      && Ready(m, srcs, g, ss + Leaves(Leaf(n.id)), cs + Leaves(c), seen, numbers)
    ensures r.Err? ==> !ValidName(name) || Present(old(m.View().nodes[d.id].children), name)
    ensures r.Err? ==> m.View() == old(m.View())
  {
    hide Sharing, SeenOk, SeenMade, OneDone, AfterMake, Closed, Kept, Downward, Records, EntriesOf;
    ghost var t, before := m.View(), m.all;
    c := Leaf(|t.nodes|);
    m.Place(d);
    SourceAt(srcs, g, n);
    NotSeen(g, ss, cs, numbers, |t.nodes|, n.id);
    LeafDone(g, t, d.id, name, n.id, ss, cs, numbers);
    MakeFrames(t, d.id, name, Grafted(g[n.id].inode));
    if SymlinkBit in n.inode.meta.types {
      r := m.Symlink(d, name, n.inode.link, n.inode.meta);
    } else {
      r := m.Mknod(d, name, n.inode.rdev, n.inode.meta);
    }
    if r.Ok? {
      assert m.View() == AfterMake(t, d.id, name, Grafted(g[n.id].inode));
      StillReady(m, srcs, g, ss, cs, seen, numbers, before, t.nodes, d.id, Entry(name, n.id), Leaf(n.id), c);
    }
  }

  lemma SeenNew(g: seq<Record>, nodes: seq<Record>, seen: map<Node, Node>, numbers: map<nat, nat>, srcs: seq<Node>,
                all: seq<Node>, n: Node, f: Node)
    requires SeenOk(seen, numbers, srcs, all) && SeenMade(g, nodes, numbers) && Known(srcs, n) && Known(all, f)
    requires n.id < |g| && f.id < |nodes| && nodes[f.id].inode == Grafted(g[n.id].inode)
    requires forall i :: 0 <= i < |srcs| ==> srcs[i].id == i
    ensures SeenOk(seen[n := f], numbers[n.id := f.id], srcs, all) && SeenMade(g, nodes, numbers[n.id := f.id])
  {
    hide Grafted, Known, SeenOk;
    SeenOneMore(seen, numbers, srcs, all, n, f);
  }

  lemma SeenOneMore(seen: map<Node, Node>, numbers: map<nat, nat>, srcs: seq<Node>, all: seq<Node>, n: Node, f: Node)
    requires SeenOk(seen, numbers, srcs, all) && Known(srcs, n) && Known(all, f)
    ensures SeenOk(seen[n := f], numbers[n.id := f.id], srcs, all)
  {
    hide Known;
    KnownAt(srcs, n);
    var seen', numbers' := seen[n := f], numbers[n.id := f.id];
    forall x | x in seen'
      ensures Known(srcs, x) && x.id in numbers' && Known(all, seen'[x]) && seen'[x].id == numbers'[x.id]
    {
      if x != n {
        assert x in seen;
        if x.id == n.id {
          SameNumber(srcs, x, n);
        }
      }
    }
    forall i | i in numbers'
      ensures i < |srcs| && srcs[i] in seen'
    {
      assert i in numbers || i == n.id;
    }
  }

  lemma KnownAt(srcs: seq<Node>, n: Node)
    requires Known(srcs, n)
    ensures n.id < |srcs| && srcs[n.id] == n
  {
  }

  lemma SameNumber(srcs: seq<Node>, x: Node, y: Node)
    requires Known(srcs, x) && Known(srcs, y) && x.id == y.id
    ensures x == y
  {
  }

  lemma TargetOk(g: seq<Record>, m: Mem, seen: map<Node, Node>, numbers: map<nat, nat>, srcs: seq<Node>, n: Node,
                 ss: seq<nat>, cs: seq<nat>)
    requires m.Valid() && n in seen && SeenOk(seen, numbers, srcs, m.all) && SeenMade(g, m.View().nodes, numbers)
    requires Sharing(g, ss, cs, numbers, |m.all|)
    ensures n.id in numbers && n.id < |g| && numbers[n.id] == seen[n].id && seen[n] in m.all && !seen[n].IsDir()
    ensures seen[n].id < |m.all| && m.View().nodes[seen[n].id].inode == Grafted(g[n.id].inode)
  {
    hide Kept, Closed;
    assert Known(m.all, seen[n]);
    FoldableIsFile(g, ss, cs, numbers, |m.all|, n.id);
  }

  /** The case of a regular file: made once, then linked to. */
  method GraftFile(m: Mem, d: Node, name: string, n: Node, seen: map<Node, Node>,
                   ghost srcs: seq<Node>, ghost g: seq<Record>,
                   ghost ss: seq<nat>, ghost cs: seq<nat>, ghost numbers: map<nat, nat>)
    returns (r: Result<()>, seen': map<Node, Node>, ghost numbers': map<nat, nat>, ghost c: Shape)
    requires Ready(m, srcs, g, ss, cs, seen, numbers)
    requires d in m.all && d.IsDir() && n in srcs && !n.IsDir()
    requires SymlinkBit !in n.inode.meta.types && n.inode.meta.types * SPECIAL == {}
    modifies m`all, m`odd, m.all
    ensures m.Valid() && Source(srcs, g) && Separate(srcs, m.all)
    ensures old(m.all) <= m.all && m.odd == old(m.odd) && forall x :: x in m.all ==> x in old(m.all) || fresh(x)
    ensures r.Ok? ==>
      && OneDone(g, old(m.View().nodes), m.View().nodes, d.id, Entry(name, n.id), ss, cs, numbers', Leaf(n.id), c)
      && Ready(m, srcs, g, ss + Leaves(Leaf(n.id)), cs + Leaves(c), seen', numbers')
    ensures r.Err? ==> !ValidName(name) || Present(old(m.View().nodes[d.id].children), name)
    ensures r.Err? ==> m.View() == old(m.View())
  {
    hide Sharing, SeenOk, SeenMade, OneDone, AfterMake, AfterLink, Closed, Kept, Downward, Records, EntriesOf;
    ghost var t, before := m.View(), m.all;
    seen', numbers' := seen, numbers;
    m.Place(d);
    SourceAt(srcs, g, n);
    if n in seen {
      var h := seen[n];
      c := Leaf(h.id);
      TargetOk(g, m, seen, numbers, srcs, n, ss, cs);
      LinkDone(g, t, d.id, name, n.id, ss, cs, numbers);
      r := m.Link(d, name, h);
      if r.Ok? {
        StillReady(m, srcs, g, ss, cs, seen, numbers, before, t.nodes, d.id, Entry(name, n.id), Leaf(n.id), c);
      }
    } else {
      c := Leaf(|t.nodes|);
      var f := m.Create(d, name, n.inode.content, n.inode.meta);
      if f.Err? {
        return Err(f.error), seen', numbers', c;
      }
      if n.nlink > 1 {
        seen', numbers' := seen[n := f.value], numbers[n.id := |t.nodes|];
      }
      Made(m, srcs, g, ss, cs, seen, numbers, before, t, d.id, name, n, f.value);
      r := Ok(());
    }
  }

  lemma Made(m: Mem, srcs: seq<Node>, g: seq<Record>, ss: seq<nat>, cs: seq<nat>, seen: map<Node, Node>,
             numbers: map<nat, nat>, before: seq<Node>, t: State, d: nat, name: string, n: Node, f: Node)
    requires m.Valid() && Source(srcs, g) && Separate(srcs, m.all) && n in srcs && n !in seen
    requires m.all == before + [f] && d < |t.nodes| == |before|
    requires m.View() == AfterMake(t, d, name, Grafted(RecordOf(n).inode))
    requires Sharing(g, ss, cs, numbers, |before|)
    requires SeenOk(seen, numbers, srcs, before) && SeenMade(g, t.nodes, numbers)
    requires !n.IsDir() && SymlinkBit !in n.inode.meta.types && n.inode.meta.types * SPECIAL == {}
    ensures m.odd == t.odd
    ensures n.nlink <= 1 ==>
      && OneDone(g, t.nodes, m.View().nodes, d, Entry(name, n.id), ss, cs, numbers, Leaf(n.id), Leaf(|before|))
      && Ready(m, srcs, g, ss + Leaves(Leaf(n.id)), cs + Leaves(Leaf(|before|)), seen, numbers)
    ensures n.nlink > 1 ==>
      && OneDone(g, t.nodes, m.View().nodes, d, Entry(name, n.id), ss, cs, numbers[n.id := |before|],
                 Leaf(n.id), Leaf(|before|))
      && Ready(m, srcs, g, ss + Leaves(Leaf(n.id)), cs + Leaves(Leaf(|before|)),
               seen[n := f], numbers[n.id := |before|])
  {
    hide Sharing, SeenMade, SeenOk, OneDone, AfterMake, Kept, Downward, EntriesOf;
    SourceAt(srcs, g, n);
    NotInNumbers(seen, numbers, srcs, before, n);
    LeafDone(g, t, d, name, n.id, ss, cs, numbers);
    MakeFrames(t, d, name, Grafted(g[n.id].inode));
    var e, c, a, b := Entry(name, n.id), Leaf(|before|), t.nodes, m.View().nodes;
    assert m.all[|before|] == f && f.id == |before|;
    if n.nlink > 1 {
      var numbers' := numbers[n.id := |before|];
      AfterOne(g, a, b, d, e, ss, cs, numbers', Leaf(n.id), c);
      SeenMore(seen, numbers, srcs, before, m.all);
      SeenFramed(g, a, b, d, numbers);
      NewInode(t, d, name, Grafted(g[n.id].inode));
      SeenNew(g, b, seen, numbers, srcs, m.all, n, f);
    } else {
      StillReady(m, srcs, g, ss, cs, seen, numbers, before, a, d, e, Leaf(n.id), c);
    }
  }

  lemma NewInode(t: State, d: nat, name: string, inode: Inode)
    requires d < |t.nodes|
    ensures |AfterMake(t, d, name, inode).nodes| == |t.nodes| + 1
    ensures AfterMake(t, d, name, inode).nodes[|t.nodes|].inode == inode
  {
  }

  lemma NotInNumbers(seen: map<Node, Node>, numbers: map<nat, nat>, srcs: seq<Node>, all: seq<Node>, n: Node)
    requires SeenOk(seen, numbers, srcs, all) && n !in seen && Known(srcs, n)
    ensures n.id !in numbers
  {
  }

  lemma SharingMore(g: seq<Record>, ss: seq<nat>, cs: seq<nat>, numbers: map<nat, nat>, size: nat, more: nat)
    requires Sharing(g, ss, cs, numbers, size) && size <= more
    ensures Sharing(g, ss, cs, numbers, more)
  {
    hide Foldable;
  }

  lemma MkdirReady(m: Mem, srcs: seq<Node>, g: seq<Record>, ss: seq<nat>, cs: seq<nat>, seen: map<Node, Node>,
                   numbers: map<nat, nat>, before: seq<Node>, t: State, d: nat, name: string, inode: Inode, sub: Node)
    requires m.Valid() && Source(srcs, g) && Separate(srcs, m.all) && m.all == before + [sub]
    requires d < |t.nodes| == |before| && m.View() == AfterMkdir(t, d, name, inode) && DirBit in inode.meta.types
    requires Sharing(g, ss, cs, numbers, |before|)
    requires SeenOk(seen, numbers, srcs, before) && SeenMade(g, t.nodes, numbers)
    ensures Ready(m, srcs, g, ss, cs, seen, numbers)
    ensures m.odd == t.odd && sub.id == |before| && sub.IsDir() && m.View().nodes[sub.id].children == []
  {
    hide Sharing, SeenOk, SeenMade, Kept, Downward, EntriesOf, Records;
    MkdirFrames(t, d, name, inode);
    NewDirectory(t, d, name, inode);
    assert m.all[|before|] == sub;
    m.Place(sub);
    hide AfterMkdir;
    SharingMore(g, ss, cs, numbers, |before|, |m.all|);
    SeenMore(seen, numbers, srcs, before, m.all);
    SeenFramed(g, t.nodes, m.View().nodes, d, numbers);
  }

  /** graftOne. */
  method GraftOne(m: Mem, d: Node, name: string, n: Node, seen: map<Node, Node>,
                  ghost srcs: seq<Node>, ghost g: seq<Record>,
                  ghost ss: seq<nat>, ghost cs: seq<nat>, ghost numbers: map<nat, nat>)
    returns (r: Result<()>, seen': map<Node, Node>, ghost numbers': map<nat, nat>, ghost s: Shape, ghost c: Shape)
    requires Ready(m, srcs, g, ss, cs, seen, numbers)
    requires d in m.all && d.IsDir() && n in srcs && n.id < |g|
    modifies m`all, m`odd, m.all
    ensures m.Valid() && Source(srcs, g) && Separate(srcs, m.all)
    ensures old(m.all) <= m.all && m.odd == old(m.odd) && forall x :: x in m.all ==> x in old(m.all) || fresh(x)
    ensures r.Ok? ==>
      && OneDone(g, old(m.View().nodes), m.View().nodes, d.id, Entry(name, n.id), ss, cs, numbers', s, c)
      && Ready(m, srcs, g, ss + Leaves(s), cs + Leaves(c), seen', numbers')
    ensures r.Err? ==>
      !GoodBelow(g, n.id) || !ValidName(name) || Present(old(m.View().nodes[d.id].children), name)
    ensures OnlyMore(old(m.View().nodes), m.View().nodes, d.id)
    decreases Rank(g, n.id), 2
  {
    hide Sharing, SeenOk, SeenMade, OneDone, KidsDone, AfterMkdir, Closed, Kept, Downward, Records, EntriesOf,
      GoodBelow, SortedFrom, UniqueNames, Framed, OnlyMore, IsFile;
    ghost var t, before := m.View(), m.all;
    seen', numbers' := seen, numbers;
    m.Place(d);
    SourceAt(srcs, g, n);
    if n.IsDir() {
      s, c := Leaf(0), Leaf(0);
      var sub := m.Mkdir(d, name, n.inode.meta);
      if sub.Err? {
        NothingMore(t.nodes, d.id);
        return Err(sub.error), seen', numbers', s, c;
      }
      MkdirReady(m, srcs, g, ss, cs, seen, numbers, before, t, d.id, name, Grafted(g[n.id].inode), sub.value);
      ghost var out, sk, ck;
      r, seen', numbers', out, sk, ck := GraftChildren(m, sub.value, n, seen, srcs, g, ss, cs, numbers);
      SubFramed(t, m.View().nodes, d.id, name, Grafted(g[n.id].inode));
      if r.Ok? {
        DirDone(g, t, m.View().nodes, d.id, name, n.id, out, ss, cs, numbers', sk, ck);
        s, c := Dir(n.id, sk), Dir(|t.nodes|, ck);
      }
    } else if SymlinkBit in n.inode.meta.types || n.inode.meta.types * SPECIAL != {} {
      r, c := GraftSpecial(m, d, name, n, seen, srcs, g, ss, cs, numbers);
      s := Leaf(n.id);
      NothingMore(t.nodes, d.id);
      OneMore(g, t.nodes, m.View().nodes, d.id, Entry(name, n.id), ss, cs, numbers', s, c);
    } else {
      r, seen', numbers', c := GraftFile(m, d, name, n, seen, srcs, g, ss, cs, numbers);
      s := Leaf(n.id);
      NothingMore(t.nodes, d.id);
      OneMore(g, t.nodes, m.View().nodes, d.id, Entry(name, n.id), ss, cs, numbers', s, c);
    }
  }

  lemma NothingMore(a: seq<Record>, d: nat)
    requires d < |a|
    ensures OnlyMore(a, a, d)
  {
  }

  lemma OneMore(g: seq<Record>, a: seq<Record>, b: seq<Record>, d: nat, e: Entry,
                ss: seq<nat>, cs: seq<nat>, seen: map<nat, nat>, s: Shape, c: Shape)
    ensures OneDone(g, a, b, d, e, ss, cs, seen, s, c) ==> OnlyMore(a, b, d)
  {
    hide Sharing, ShowsSource, ShowsImage, Alike, DirsFrom;
  }

  /** What goes on inside a new directory only shows above it as one more name. */
  lemma SubFramed(t: State, b: seq<Record>, d: nat, name: string, inode: Inode)
    requires d < |t.nodes| && OnlyMore(AfterMkdir(t, d, name, inode).nodes, b, |t.nodes|)
    ensures OnlyMore(t.nodes, b, d)
  {
    hide AfterMkdir;
    MkdirFrames(t, d, name, inode);
    FramedTwice(t.nodes, AfterMkdir(t, d, name, inode).nodes, b, d, |t.nodes|);
  }

  lemma MoreTwice(a: seq<Record>, b: seq<Record>, c: seq<Record>, d: nat)
    requires OnlyMore(a, b, d) && OnlyMore(b, c, d)
    ensures OnlyMore(a, c, d)
  {
    FramedTwice(a, b, c, d, d);
  }

  /** The next name leads further down. */
  lemma NextEntry(srcs: seq<Node>, g: seq<Record>, n: Node, entries: seq<Child>, out: seq<Entry>, k: nat)
    requires Source(srcs, g) && n in srcs && n.IsDir() && n.id < |g| && k < |entries|
    requires out == EntriesOf(entries) && entries[k] in n.children
    ensures entries[k].node in srcs && entries[k].node.id < |g| && Rank(g, entries[k].node.id) < Rank(g, n.id)
    ensures out[k] == Entry(entries[k].name, entries[k].node.id) && out[..k + 1] == out[..k] + [out[k]]
  {
    SourceAt(srcs, g, n);
    var j :| 0 <= j < |n.children| && n.children[j] == entries[k];
    assert KnownAll(srcs, srcs[n.id].children) && Known(srcs, n.children[j].node);
    assert g[n.id].children[j] == Entry(entries[k].name, entries[k].node.id);
    assert Below(g, n.id, g[n.id].children[j].node);
  }

  lemma StillDir(m: Mem, d: Node, before: seq<Node>, a: seq<Record>)
    requires m.Valid() && before <= m.all && |a| == |before| && d.id < |before| && before[d.id] == d
    requires a[d.id].IsDir() && Framed(a, m.View().nodes, d.id)
    ensures d in m.all && d.IsDir()
  {
    hide Kept, Closed, EntriesOf;
    assert m.all[d.id] == d;
  }

  lemma KidsFrame(g: seq<Record>, a: seq<Record>, b: seq<Record>, d: nat, out: seq<Entry>,
                  ss: seq<nat>, cs: seq<nat>, numbers: map<nat, nat>, sk: seq<Kid>, ck: seq<Kid>)
    requires KidsDone(g, a, b, d, out, ss, cs, numbers, sk, ck)
    ensures OnlyMore(a, b, d)
  {
  }

  /** Why a name was refused. */
  lemma Explained(g: seq<Record>, a: seq<Record>, b: seq<Record>, d: nat, n: nat, out: seq<Entry>, k: nat,
                  ss: seq<nat>, cs: seq<nat>, numbers: map<nat, nat>, sk: seq<Kid>, ck: seq<Kid>)
    requires Downward(g) && n < |g| && g[n].IsDir() && k < |out| && SortedFrom(out, g[n].children)
    requires KidsDone(g, a, b, d, out[..k], ss, cs, numbers, sk, ck)
    requires !ValidName(out[k].name) || Present(b[d].children, out[k].name)
    ensures !GoodBelow(g, n) || Clash(a[d].children, g[n].children)
  {
    hide Sharing, Before, ValidName, ShowsSource, ShowsImage, Alike, DirsFrom;
    var es, name := g[n].children, out[k].name;
    var p :| Rearranged(out, es, p);
    assert out[k] == es[p[k]];
    if ValidName(name) && !Clash(a[d].children, es) {
      assert !Present(a[d].children, es[p[k]].name);
      PresentIn(a[d].children, EntriesIn(ck), name);
      var j :| 0 <= j < |ck| && EntriesIn(ck)[j].name == name;
      assert KidDone(g, b, |a|, out[..k][j], sk[j], ck[j]);
      assert out[j] == es[p[j]] && es[p[j]].name == es[p[k]].name && p[j] != p[k];
    }
  }

  lemma PresentIn(a: seq<Entry>, b: seq<Entry>, name: string)
    requires Present(a + b, name)
    ensures Present(a, name) || Present(b, name)
  {
    var i :| 0 <= i < |a + b| && (a + b)[i].name == name;
    if i >= |a| {
      assert b[i - |a|].name == name;
    }
  }

  /** In the middle of a directory. */
  ghost predicate Halfway(m: Mem, srcs: seq<Node>, g: seq<Record>, a: seq<Record>, d: nat, out: seq<Entry>, k: nat,
                          ss: seq<nat>, cs: seq<nat>, seen: map<Node, Node>, numbers: map<nat, nat>,
                          sk: seq<Kid>, ck: seq<Kid>)
    reads m, m.all, srcs
  {
    && k <= |out| && Ready(m, srcs, g, ss + LeavesOf(sk), cs + LeavesOf(ck), seen, numbers)
    && KidsDone(g, a, m.View().nodes, d, out[..k], ss, cs, numbers, sk, ck)
  }

  /** The body of the loop. */
  method GraftNext(m: Mem, d: Node, n: Node, entries: seq<Child>, k: nat, seen: map<Node, Node>,
                   ghost srcs: seq<Node>, ghost g: seq<Record>, ghost a: seq<Record>, ghost out: seq<Entry>,
                   ghost ss: seq<nat>, ghost cs: seq<nat>, ghost numbers: map<nat, nat>,
                   ghost sk: seq<Kid>, ghost ck: seq<Kid>)
    returns (r: Result<()>, seen': map<Node, Node>, ghost numbers': map<nat, nat>, ghost s: Kid, ghost c: Kid)
    requires Halfway(m, srcs, g, a, d.id, out, k, ss, cs, seen, numbers, sk, ck)
    requires d in m.all && d.IsDir() && n in srcs && n.IsDir() && n.id < |g|
    requires k < |entries| && entries[k] in n.children && out == EntriesOf(entries) && SortedFrom(out, g[n.id].children)
    modifies m`all, m`odd, m.all
    ensures m.Valid() && Source(srcs, g) && Separate(srcs, m.all)
    ensures old(m.all) <= m.all && m.odd == old(m.odd) && forall x :: x in m.all ==> x in old(m.all) || fresh(x)
    ensures r.Ok? ==> Halfway(m, srcs, g, a, d.id, out, k + 1, ss, cs, seen', numbers', sk + [s], ck + [c])
    ensures OnlyMore(a, m.View().nodes, d.id)
    ensures r.Err? ==> !GoodBelow(g, n.id) || Clash(a[d.id].children, g[n.id].children)
    decreases Rank(g, n.id), 0
  {
    hide Sharing, SeenOk, SeenMade, OneDone, KidsDone, Kept, Closed, Downward, Records, EntriesOf, GoodBelow,
      SortedFrom, UniqueNames, Clash, LeavesOf, OnlyMore;
    var e := entries[k];
    NextEntry(srcs, g, n, entries, out, k);
    SourceAt(srcs, g, n);
    ghost var b, s1, c1 := m.View().nodes, Leaf(0), Leaf(0);
    KidsFrame(g, a, b, d.id, out[..k], ss, cs, numbers, sk, ck);
    m.Place(d);
    r, seen', numbers', s1, c1 :=
      GraftOne(m, d, e.name, e.node, seen, srcs, g, ss + LeavesOf(sk), cs + LeavesOf(ck), numbers);
    s, c := Kid(e.name, s1), Kid(e.name, c1);
    MoreTwice(a, b, m.View().nodes, d.id);
    if r.Err? && GoodBelow(g, n.id) {
      ChildGood(g, n.id, out, k);
      Explained(g, a, b, d.id, n.id, out, k, ss, cs, numbers, sk, ck);
    }
    if r.Ok? {
      KidsStep(g, a, b, m.View().nodes, d.id, out[..k], out[k], ss, cs, numbers, numbers', sk, ck, s1, c1);
      LeavesMore(sk, s);
      LeavesMore(ck, c);
      assert ss + LeavesOf(sk + [s]) == ss + LeavesOf(sk) + Leaves(s1);
      assert cs + LeavesOf(ck + [c]) == cs + LeavesOf(ck) + Leaves(c1);
    }
  }

  /** The loop over the names of a directory, in Graft and in graftOne. */
  method GraftChildren(m: Mem, d: Node, n: Node, seen: map<Node, Node>,
                       ghost srcs: seq<Node>, ghost g: seq<Record>,
                       ghost ss: seq<nat>, ghost cs: seq<nat>, ghost numbers: map<nat, nat>)
    returns (r: Result<()>, seen': map<Node, Node>, ghost numbers': map<nat, nat>,
             ghost out: seq<Entry>, ghost sk: seq<Kid>, ghost ck: seq<Kid>)
    requires Ready(m, srcs, g, ss, cs, seen, numbers)
    requires d in m.all && d.IsDir() && n in srcs && n.IsDir() && n.id < |g|
    modifies m`all, m`odd, m.all
    ensures m.Valid() && Source(srcs, g) && Separate(srcs, m.all)
    ensures old(m.all) <= m.all && m.odd == old(m.odd) && forall x :: x in m.all ==> x in old(m.all) || fresh(x)
    ensures r.Ok? ==>
      && SortedFrom(out, g[n.id].children)
      && KidsDone(g, old(m.View().nodes), m.View().nodes, d.id, out, ss, cs, numbers', sk, ck)
      && Ready(m, srcs, g, ss + LeavesOf(sk), cs + LeavesOf(ck), seen', numbers')
    ensures OnlyMore(old(m.View().nodes), m.View().nodes, d.id)
    ensures r.Err? ==> !GoodBelow(g, n.id) || Clash(old(m.View().nodes[d.id].children), g[n.id].children)
    decreases Rank(g, n.id), 1
  {
    hide KidsDone, Records, EntriesOf, GoodBelow, SortedFrom, Clash, Halfway, Ready, Source, Mem.Valid, Rank, OnlyMore,
      Separate, LeavesOf, Mem.View;
    ReadyMeans(m, srcs, g, ss, cs, seen, numbers);
    ghost var a, before := m.View().nodes, m.all;
    seen', numbers', sk, ck := seen, numbers, [], [];
    m.Place(d);
    SourceAt(srcs, g, n);
    var entries := SortedEntries(n);
    out := EntriesOf(entries);
    StartHalfway(m, srcs, g, d.id, out, ss, cs, seen, numbers);
    for k := 0 to |entries|
      invariant Halfway(m, srcs, g, a, d.id, out, k, ss, cs, seen', numbers', sk, ck)
      invariant before <= m.all && m.odd == old(m.odd) && forall x :: x in m.all ==> x in before || fresh(x)
    {
      StillHalfway(m, srcs, g, n, a, d, before, out, k, ss, cs, seen', numbers', sk, ck);
      assert forall i :: 0 <= i < |m.all| ==> m.all[i] in m.all && (m.all[i] in before || fresh(m.all[i]));
      ghost var s, c;
      r, seen', numbers', s, c := GraftNext(m, d, n, entries, k, seen', srcs, g, a, out, ss, cs, numbers', sk, ck);
      if r.Err? {
        return;
      }
      sk, ck := sk + [s], ck + [c];
    }
    EndHalfway(m, srcs, g, a, d.id, out, ss, cs, seen', numbers', sk, ck);
    ReadyMeans(m, srcs, g, ss + LeavesOf(sk), cs + LeavesOf(ck), seen', numbers');
    KidsFrame(g, a, m.View().nodes, d.id, out, ss, cs, numbers', sk, ck);
    r := Ok(());
  }

  lemma ReadyMeans(m: Mem, srcs: seq<Node>, g: seq<Record>, ss: seq<nat>, cs: seq<nat>, seen: map<Node, Node>,
                   numbers: map<nat, nat>)
    requires Ready(m, srcs, g, ss, cs, seen, numbers)
    ensures m.Valid() && Source(srcs, g) && Separate(srcs, m.all) && |m.View().nodes| == |m.all|
  {
  }

  lemma StartHalfway(m: Mem, srcs: seq<Node>, g: seq<Record>, d: nat, out: seq<Entry>,
                     ss: seq<nat>, cs: seq<nat>, seen: map<Node, Node>, numbers: map<nat, nat>)
    requires Ready(m, srcs, g, ss, cs, seen, numbers) && d < |m.all|
    ensures Halfway(m, srcs, g, m.View().nodes, d, out, 0, ss, cs, seen, numbers, [], [])
  {
    hide Sharing, SeenOk, SeenMade, KidsDone, Kept, Closed, Downward, Records;
    KidsStart(g, m.View().nodes, d, ss, cs, numbers);
    assert ss + LeavesOf([]) == ss && cs + LeavesOf([]) == cs && out[..0] == [];
  }

  lemma StillHalfway(m: Mem, srcs: seq<Node>, g: seq<Record>, n: Node, a: seq<Record>, d: Node, before: seq<Node>,
                     out: seq<Entry>, k: nat, ss: seq<nat>, cs: seq<nat>, seen: map<Node, Node>, numbers: map<nat, nat>,
                     sk: seq<Kid>, ck: seq<Kid>)
    requires Halfway(m, srcs, g, a, d.id, out, k, ss, cs, seen, numbers, sk, ck)
    requires before <= m.all && |a| == |before| && d.id < |before| && before[d.id] == d && a[d.id].IsDir()
    requires n in srcs && n.id < |g| && g[n.id].IsDir()
    ensures d in m.all && d.IsDir() && n.IsDir() && g[n.id] == RecordOf(n)
  {
    hide Sharing, SeenOk, SeenMade, KidsDone, Kept, Closed, Downward, Records;
    KidsFrame(g, a, m.View().nodes, d.id, out[..k], ss, cs, numbers, sk, ck);
    StillDir(m, d, before, a);
    SourceAt(srcs, g, n);
  }

  lemma EndHalfway(m: Mem, srcs: seq<Node>, g: seq<Record>, a: seq<Record>, d: nat, out: seq<Entry>,
                   ss: seq<nat>, cs: seq<nat>, seen: map<Node, Node>, numbers: map<nat, nat>,
                   sk: seq<Kid>, ck: seq<Kid>)
    requires Halfway(m, srcs, g, a, d, out, |out|, ss, cs, seen, numbers, sk, ck)
    ensures KidsDone(g, a, m.View().nodes, d, out, ss, cs, numbers, sk, ck)
    ensures Ready(m, srcs, g, ss + LeavesOf(sk), cs + LeavesOf(ck), seen, numbers)
  {
    hide KidsDone, Ready;
    assert out[..|out|] == out;
  }

  // ----- The whole.

  /** The names of d that were added, from sk to ck. */
  ghost predicate Copied(g: seq<Record>, nodes: seq<Record>, src: nat, d: nat, had: seq<Entry>,
                         sk: seq<Kid>, ck: seq<Kid>) {
    && ShowsSource(g, Dir(src, sk)) && d < |nodes| && nodes[d].children == had + EntriesIn(ck)
    && |sk| == |ck| && (forall i :: 0 <= i < |sk| ==> sk[i].name == ck[i].name)
    && (forall i :: 0 <= i < |sk| ==> ShowsImage(nodes, ck[i].shape) && Alike(g, nodes, sk[i].shape, ck[i].shape))
  }

  lemma AllCopied(g: seq<Record>, a: seq<Record>, b: seq<Record>, n: nat, d: nat, out: seq<Entry>,
                  numbers: map<nat, nat>, sk: seq<Kid>, ck: seq<Kid>)
    requires n < |g| && g[n].IsDir() && SortedFrom(out, g[n].children)
    requires KidsDone(g, a, b, d, out, [], [], numbers, sk, ck)
    ensures Copied(g, b, n, d, a[d].children, sk, ck) && SharedAlike(g, LeavesOf(sk), LeavesOf(ck))
    ensures Framed(a, b, d)
  {
    hide Sharing, SortedFrom, LeavesOf, Before, Alike, Foldable;
    assert EntriesIn(sk) == out by {
      forall i | 0 <= i < |out|
        ensures EntriesIn(sk)[i] == out[i]
      {
        assert KidDone(g, b, |a|, out[i], sk[i], ck[i]);
      }
    }
    forall i | 0 <= i < |sk|
      ensures sk[i].name == ck[i].name && ShowsSource(g, sk[i].shape)
      ensures ShowsImage(b, ck[i].shape) && Alike(g, b, sk[i].shape, ck[i].shape)
    {
      assert KidDone(g, b, |a|, out[i], sk[i], ck[i]);
    }
    var ss, cs := LeavesOf(sk), LeavesOf(ck);
    assert [] + ss == ss && [] + cs == cs;
    SharingMeans(g, ss, cs, numbers, |b|);
  }

  lemma SharingMeans(g: seq<Record>, ss: seq<nat>, cs: seq<nat>, numbers: map<nat, nat>, size: nat)
    requires Sharing(g, ss, cs, numbers, size)
    ensures SharedAlike(g, ss, cs)
  {
    hide Foldable;
    forall j, k | 0 <= j < k < |ss|
      ensures cs[j] == cs[k] <==> ss[j] == ss[k] && Foldable(g[ss[j]])
    {
      SharingIsExact(g, ss, cs, numbers, size, j, k);
    }
  }

  /** Graft: the names below src are copied into d, with the sharing they had; it fails exactly when a name below src
      is not valid or met twice, or d has it already. Either way the rest of the image keeps its names and inodes. */
  method Graft(m: Mem, d: Node, src: Node, ghost srcs: seq<Node>, ghost g: seq<Record>)
    returns (r: Result<()>, ghost sk: seq<Kid>, ghost ck: seq<Kid>)
    requires m.Valid() && d in m.all && d.IsDir()
    requires Source(srcs, g) && Separate(srcs, m.all) && src in srcs && src.IsDir()
    modifies m`all, m`odd, m.all
    ensures m.Valid() && Source(srcs, g) && m.odd == old(m.odd)
    ensures old(m.all) <= m.all && src.id < |g| && d.id < |old(m.View().nodes)|
    ensures OnlyMore(old(m.View().nodes), m.View().nodes, d.id)
    ensures r.Ok? <==> GoodBelow(g, src.id) && !Clash(old(m.View().nodes[d.id].children), g[src.id].children)
    ensures r.Ok? ==>
      && Copied(g, m.View().nodes, src.id, d.id, old(m.View().nodes[d.id].children), sk, ck)
      && SharedAlike(g, LeavesOf(sk), LeavesOf(ck))
  {
    hide Sharing, KidsDone, Kept, Closed, Downward, Records, GoodBelow, Clash, Copied, SharedAlike, SortedFrom, OnlyMore;
    ghost var a := m.View().nodes;
    m.Place(d);
    SourceAt(srcs, g, src);
    NothingShared(g, |m.all|);
    var seen: map<Node, Node> := map[];
    ghost var numbers, out;
    r, seen, numbers, out, sk, ck := GraftChildren(m, d, src, seen, srcs, g, [], [], map[]);
    if r.Ok? {
      AllCopied(g, a, m.View().nodes, src.id, d.id, out, numbers, sk, ck);
      SourceWasGood(g, m.View(), src.id, d.id, a[d.id].children, sk, ck);
    }
  }

  /** Only good names that d did not have can have been copied. */
  lemma SourceWasGood(g: seq<Record>, t: State, n: nat, d: nat, had: seq<Entry>, sk: seq<Kid>, ck: seq<Kid>)
    requires Downward(g) && Kept(t) && n < |g| && g[n].IsDir() && d < |t.nodes| && t.nodes[d].IsDir()
    requires Copied(g, t.nodes, n, d, had, sk, ck)
    ensures GoodBelow(g, n) && !Clash(had, g[n].children)
  {
    hide Counted, SortedFrom, Downward, Alike, ShowsImage, ValidName;
    assert DirectoryOk(t, d);
    var es, fs, all := EntriesIn(sk), EntriesIn(ck), t.nodes[d].children;
    forall i | 0 <= i < |sk|
      ensures GoodTree(sk[i].shape) && es[i].name == all[|had| + i].name
    {
      CopiedIsGood(g, t, sk[i].shape, ck[i].shape);
      assert fs[i] == all[|had| + i];
    }
    assert UniqueNames(es) && ValidNames(es);
    WalkedIsGood(g, Dir(n, sk));
    OrderAside(es, g[n].children);
    NewNames(had, fs);
    forall i | 0 <= i < |g[n].children|
      ensures !Present(had, g[n].children[i].name)
    {
      assert g[n].children[i] in es;
      var j :| 0 <= j < |es| && es[j] == g[n].children[i];
      assert fs[j].name == es[j].name;
    }
  }

  lemma NewNames(had: seq<Entry>, more: seq<Entry>)
    requires UniqueNames(had + more)
    ensures forall j :: 0 <= j < |more| ==> !Present(had, more[j].name)
  {
    var all := had + more;
    forall j, k | 0 <= j < |more| && 0 <= k < |had|
      ensures had[k].name != more[j].name
    {
      assert all[k] == had[k] && all[|had| + j] == more[j];
    }
  }

  lemma NothingShared(g: seq<Record>, size: nat)
    ensures Sharing(g, [], [], map[], size)
  {
  }

  /** What was copied had good names. */
  lemma {:induction false} CopiedIsGood(g: seq<Record>, t: State, s: Shape, c: Shape)
    requires Kept(t) && ShowsImage(t.nodes, c) && Alike(g, t.nodes, s, c)
    ensures GoodTree(s)
    decreases s
  {
    hide Counted;
    if s.Dir? {
      assert DirectoryOk(t, c.node);
      var es, fs := EntriesIn(s.kids), EntriesIn(c.kids);
      assert forall i :: 0 <= i < |es| ==> es[i].name == fs[i].name;
      forall i | 0 <= i < |s.kids|
        ensures GoodTree(s.kids[i].shape)
      {
        CopiedIsGood(g, t, s.kids[i].shape, c.kids[i].shape);
      }
    }
  }

  lemma NoClash(fs: seq<Entry>)
    ensures !Clash([], fs)
  {
  }

  /** Grafting into a new image copies the tree: it succeeds if and only if all names are good, and every link count in the
      copy is the number of names, or two and one for every directory. */
  method CopyTree(meta: Meta, src: Node, ghost srcs: seq<Node>, ghost g: seq<Record>)
    returns (m: Mem, r: Result<()>, ghost sk: seq<Kid>, ghost ck: seq<Kid>)
    requires Source(srcs, g) && src in srcs && src.IsDir()
    ensures m.Valid() && Source(srcs, g) && src.id < |g|
    ensures r.Ok? <==> GoodBelow(g, src.id)
    ensures r.Ok? ==>
      && m.View().nodes != [] && m.View().nodes[ROOT].inode == Inode(TypedMeta(meta, {DirBit}), [], "", 0)
      && Copied(g, m.View().nodes, src.id, ROOT, [], sk, ck) && SharedAlike(g, LeavesOf(sk), LeavesOf(ck))
    ensures DirectoriesRight(m.View())
    ensures forall n :: 0 <= n < |m.View().nodes| && !m.View().nodes[n].IsDir() ==>
                          m.View().nodes[n].nlink == |Links(m.View().nodes, n)|
  {
    hide Kept, Closed, Downward, GoodBelow, Copied, SharedAlike, DirectoriesRight, Links;
    m := new Mem(meta);
    ghost var a := m.View().nodes;
    assert a == [Record(Inode(TypedMeta(meta, {DirBit}), [], "", 0), 2, [])];
    SourceAt(srcs, g, src);
    NoClash(g[src.id].children);
    m.Place(m.root);
    hide Records;
    r, sk, ck := Graft(m, m.root, src, srcs, g);
    RightUnlessOdd(m.View());
    forall n | 0 <= n < |m.View().nodes| && !m.View().nodes[n].IsDir()
      ensures m.View().nodes[n].nlink == |Links(m.View().nodes, n)|
    {
      FilesRight(m.View(), n);
    }
  }
}
