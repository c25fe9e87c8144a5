/** The node graph of pkg/image/mem.go as a value, and the invariants every edit keeps. */
module ImageGraph {
  import opened Bytes
  import opened Names

  // ----- Nodes.

  /** The type bits of an fs.FileMode. */
  datatype TypeBit = DirBit | SymlinkBit | PipeBit | SocketBit | DeviceBit | CharDeviceBit | IrregularBit

  const SPECIAL: set<TypeBit> := {PipeBit, SocketBit, DeviceBit, CharDeviceBit}

  datatype Meta = Meta(types: set<TypeBit>, perm: nat, uid: nat, gid: nat, xattrs: map<string, seq<byte>>)

  datatype Inode = Inode(meta: Meta, content: seq<byte>, link: string, rdev: nat)

  datatype Entry = Entry(name: string, node: nat)

  /** The fields of a node. */
  datatype Record = Record(inode: Inode, nlink: int, children: seq<Entry>) {
    predicate IsDir() {
      DirBit in inode.meta.types
    }
  }

  // ----- What holds between edits.

  /** Every node an image ever held, the attached and the removed, by order of birth, which is how nodes are named
      here; odd tells, for every node that Mknod made with a directory bit, the directory it was made in. */
  datatype State = State(nodes: seq<Record>, odd: map<nat, nat>)

  const ROOT: nat := 0

  predicate UniqueNames(es: seq<Entry>) {
    forall i, j :: 0 <= i < j < |es| ==> es[i].name != es[j].name
  }

  predicate ValidNames(es: seq<Entry>) {
    forall i :: 0 <= i < |es| ==> ValidName(es[i].name)
  }

  predicate Present(es: seq<Entry>, name: string) {
    exists i :: 0 <= i < |es| && es[i].name == name
  }

  /** Where the first entry of that name is. */
  function IndexOf(es: seq<Entry>, name: string): (k: nat)
    ensures k <= |es| && (k < |es| <==> Present(es, name)) && (k < |es| ==> es[k].name == name)
  {
    if es == [] then 0
    else if es[0].name == name then 0
    else
      var k := IndexOf(es[1..], name);
      assert forall i :: 0 < i < |es| ==> es[i] == es[1..][i - 1];
      assert forall i :: 0 <= i < |es| - 1 ==> es[1..][i] == es[i + 1];
      k + 1
  }

  lemma {:induction false} IndexIs(es: seq<Entry>, name: string, k: nat)
    requires k <= |es| && forall i :: 0 <= i < k ==> es[i].name != name
    requires k < |es| ==> es[k].name == name
    ensures IndexOf(es, name) == k
    decreases k
  {
    if k > 0 {
      IndexIs(es[1..], name, k - 1);
    }
  }

  function NamesOf(es: seq<Entry>, n: nat): set<string> {
    set i | 0 <= i < |es| && es[i].node == n :: es[i].name
  }

  /** The entries that name n, as pairs of a directory and a name in it. */
  ghost function Links(nodes: seq<Record>, n: nat): set<(nat, string)> {
    set d: nat, x | d < |nodes| && x in NamesOf(nodes[d].children, n) :: (d, x)
  }

  predicate NamesDir(nodes: seq<Record>, e: Entry) {
    e.node < |nodes| && nodes[e.node].IsDir()
  }

  /** The names in d of directories. */
  function Subdirs(nodes: seq<Record>, d: nat): set<string>
    requires d < |nodes|
  {
    set i | 0 <= i < |nodes[d].children| && NamesDir(nodes, nodes[d].children[i]) :: nodes[d].children[i].name
  }

  ghost predicate DirectoryOk(s: State, d: nat)
    requires d < |s.nodes|
  {
    var es := s.nodes[d].children;
    && (!s.nodes[d].IsDir() ==> es == [])
    && UniqueNames(es) && ValidNames(es)
    && (forall i :: 0 <= i < |es| ==> es[i].node < |s.nodes|)
    && (forall i :: 0 <= i < |es| && s.nodes[es[i].node].IsDir() ==> d < es[i].node)
  }

  /** Names in a directory are valid and unique, only directories have children, and a directory is older than the
      directories in it. */
  ghost predicate Wired(s: State) {
    && ROOT < |s.nodes| && s.nodes[ROOT].IsDir()
    && (forall d :: 0 <= d < |s.nodes| ==> DirectoryOk(s, d))
  }

  /** How far the link count of d lags behind, for what Mknod left out. */
  ghost function Missing(odd: map<nat, nat>, d: nat): nat {
    (if d in odd then 1 else 0) + |OddIn(odd, d)|
  }

  ghost function OddIn(odd: map<nat, nat>, d: nat): set<nat> {
    set m | m in odd && odd[m] == d
  }

  /** A directory is named at most once, the root never. */
  ghost predicate NamedOnce(s: State, n: nat)
    requires n < |s.nodes|
  {
    s.nodes[n].IsDir() ==> |Links(s.nodes, n)| <= 1 && (n == ROOT ==> Links(s.nodes, n) == {})
  }

  /** A link for every name, and for a directory one for its "." and one for the ".." of every directory in it. */
  ghost function LinksDue(s: State, n: nat): nat
    requires n < |s.nodes|
  {
    if s.nodes[n].IsDir() then (if Attached(s, n) then 2 else 1) + |Subdirs(s.nodes, n)| else |Links(s.nodes, n)|
  }

  ghost predicate Attached(s: State, n: nat) {
    n == ROOT || Links(s.nodes, n) != {}
  }

  ghost predicate CountedAt(s: State, n: nat)
    requires n < |s.nodes|
  {
    NamedOnce(s, n) && s.nodes[n].nlink + Missing(s.odd, n) == LinksDue(s, n)
  }

  ghost predicate OddDirectories(s: State) {
    forall m :: m in s.odd ==>
      m < |s.nodes| && s.nodes[m].IsDir() && s.odd[m] < |s.nodes| && s.nodes[s.odd[m]].IsDir()
  }

  ghost predicate Counted(s: State) {
    OddDirectories(s) && forall n :: 0 <= n < |s.nodes| ==> CountedAt(s, n)
  }

  ghost predicate Kept(s: State) {
    Wired(s) && Counted(s)
  }

  // ----- One more entry, one entry less.

  /** g' is g with one more name in d, of a node that may be new; link counts aside. */
  ghost predicate EntryAdded(g: seq<Record>, g': seq<Record>, d: nat, name: string, n: nat) {
    && d < |g| && (if n < |g| then |g'| == |g| else n == |g| && |g'| == |g| + 1)
    && !Present(g[d].children, name) && g'[d].children == g[d].children + [Entry(name, n)]
    && (forall m :: 0 <= m < |g| && m != d ==> g'[m].children == g[m].children)
    && (forall m :: 0 <= m < |g| ==> g'[m].inode == g[m].inode)
    && (n >= |g| ==> g'[n].children == [])
  }

  /** g' is g without entry k of d; link counts aside. */
  ghost predicate EntryRemoved(g: seq<Record>, g': seq<Record>, d: nat, k: nat) {
    && d < |g| && k < |g[d].children| && |g| == |g'|
    && g'[d].children == g[d].children[..k] + g[d].children[k + 1..]
    && (forall m :: 0 <= m < |g| && m != d ==> g'[m].children == g[m].children)
    && (forall m :: 0 <= m < |g| ==> g'[m].inode == g[m].inode)
  }

  lemma LinksMean(g: seq<Record>, n: nat, p: (nat, string))
    ensures p in Links(g, n) <==> p.0 < |g| && p.1 in NamesOf(g[p.0].children, n)
  {
  }

  lemma AddedLinks(g: seq<Record>, g': seq<Record>, d: nat, name: string, n: nat, m: nat)
    requires EntryAdded(g, g', d, name, n)
    ensures (d, name) !in Links(g, n)
    ensures Links(g', m) == if m == n then Links(g, m) + {(d, name)} else Links(g, m)
    ensures |Links(g', m)| == if m == n then |Links(g, m)| + 1 else |Links(g, m)|
  {
    hide Links;
    LinksMean(g, n, (d, name));
    forall p: (nat, string)
      ensures p in Links(g', m) <==> p in Links(g, m) || (m == n && p == (d, name))
    {
      LinksMean(g, m, p);
      LinksMean(g', m, p);
      if p.0 < |g| {
        AddedNames(g, g', d, name, n, m, p.0, p.1);
      }
    }
  }

  lemma AddedNames(g: seq<Record>, g': seq<Record>, d: nat, name: string, n: nat, m: nat, e: nat, x: string)
    requires EntryAdded(g, g', d, name, n) && e < |g|
    ensures x in NamesOf(g'[e].children, m) <==> x in NamesOf(g[e].children, m) || (m == n && e == d && x == name)
  {
    if e == d {
      NamesOfMore(g[d].children, Entry(name, n), m, x);
    }
  }

  lemma NamesOfMore(es: seq<Entry>, more: Entry, m: nat, x: string)
    ensures x in NamesOf(es + [more], m) <==> x in NamesOf(es, m) || (m == more.node && x == more.name)
  {
    var es' := es + [more];
    assert es'[|es|] == more;
    if x in NamesOf(es, m) {
      var i :| 0 <= i < |es| && es[i].node == m && es[i].name == x;
      assert es'[i] == es[i];
    }
  }

  lemma RemovedLinks(g: seq<Record>, g': seq<Record>, d: nat, k: nat, m: nat)
    requires EntryRemoved(g, g', d, k) && UniqueNames(g[d].children)
    ensures Links(g', m) ==
      if m == g[d].children[k].node then Links(g, m) - {(d, g[d].children[k].name)} else Links(g, m)
    ensures |Links(g', m)| == if m == g[d].children[k].node then |Links(g, m)| - 1 else |Links(g, m)|
  {
    hide Links;
    var gone := g[d].children[k];
    LinksMean(g, gone.node, (d, gone.name));
    forall p: (nat, string)
      ensures p in Links(g', m) <==> p in Links(g, m) && !(m == gone.node && p == (d, gone.name))
    {
      LinksMean(g, m, p);
      LinksMean(g', m, p);
      if p.0 < |g| {
        RemovedNames(g, g', d, k, m, p.0, p.1);
      }
    }
  }

  lemma RemovedNames(g: seq<Record>, g': seq<Record>, d: nat, k: nat, m: nat, e: nat, x: string)
    requires EntryRemoved(g, g', d, k) && UniqueNames(g[d].children) && e < |g|
    ensures x in NamesOf(g'[e].children, m) <==>
      x in NamesOf(g[e].children, m) && !(m == g[d].children[k].node && e == d && x == g[d].children[k].name)
  {
    if e == d {
      NamesOfLess(g[d].children, k, m, x);
    }
  }

  lemma NamesOfLess(es: seq<Entry>, k: nat, m: nat, x: string)
    requires k < |es| && UniqueNames(es)
    ensures x in NamesOf(es[..k] + es[k + 1..], m) <==> x in NamesOf(es, m) && !(m == es[k].node && x == es[k].name)
  {
    hide UniqueNames;
    var es' := es[..k] + es[k + 1..];
    if x in NamesOf(es, m) && !(m == es[k].node && x == es[k].name) {
      var i :| 0 <= i < |es| && es[i].node == m && es[i].name == x;
      assert es'[if i < k then i else i - 1] == es[i];
    }
    if x in NamesOf(es', m) {
      var i :| 0 <= i < |es'| && es'[i].node == m && es'[i].name == x;
      OtherName(es, if i < k then i else i + 1, k);
      assert es[if i < k then i else i + 1] == es'[i];
    }
  }

  ghost predicate HasSubdir(g: seq<Record>, es: seq<Entry>, x: string) {
    exists i :: 0 <= i < |es| && es[i].name == x && NamesDir(g, es[i])
  }

  lemma SubdirsMean(g: seq<Record>, d: nat, x: string)
    requires d < |g|
    ensures x in Subdirs(g, d) <==> HasSubdir(g, g[d].children, x)
  {
  }

  /** A subdirectory counts in its own directory only. */
  lemma AddedSubdirs(g: seq<Record>, g': seq<Record>, d: nat, name: string, n: nat, m: nat)
    requires EntryAdded(g, g', d, name, n) && m < |g'|
    requires m < |g| ==> forall i :: 0 <= i < |g[m].children| ==> g[m].children[i].node < |g|
    ensures m >= |g| ==> Subdirs(g', m) == {}
    ensures m < |g| && (m != d || !g'[n].IsDir()) ==> Subdirs(g', m) == Subdirs(g, m)
    ensures g'[n].IsDir() && m == d ==> |Subdirs(g', d)| == |Subdirs(g, d)| + 1
  {
    hide Subdirs;
    if m >= |g| {
      forall x
        ensures x !in Subdirs(g', m)
      {
        SubdirsMean(g', m, x);
      }
    } else {
      forall x
        ensures x in Subdirs(g', m) <==> x in Subdirs(g, m) || (m == d && x == name && g'[n].IsDir())
      {
        SubdirsMean(g, m, x);
        SubdirsMean(g', m, x);
        AddedHasSubdir(g, g', d, name, n, m, x);
      }
      SubdirsMean(g, d, name);
      assert m == d && g'[n].IsDir() ==> Subdirs(g', d) == Subdirs(g, d) + {name};
    }
  }

  lemma AddedHasSubdir(g: seq<Record>, g': seq<Record>, d: nat, name: string, n: nat, m: nat, x: string)
    requires EntryAdded(g, g', d, name, n) && m < |g|
    requires forall i :: 0 <= i < |g[m].children| ==> g[m].children[i].node < |g|
    ensures HasSubdir(g', g'[m].children, x) <==>
      HasSubdir(g, g[m].children, x) || (m == d && x == name && g'[n].IsDir())
  {
    var es, es' := g[m].children, g'[m].children;
    assert forall i :: 0 <= i < |es| ==> es'[i] == es[i] && NamesDir(g', es'[i]) == NamesDir(g, es[i]);
    if HasSubdir(g, es, x) {
      var i :| 0 <= i < |es| && es[i].name == x && NamesDir(g, es[i]);
      assert es'[i].name == x && NamesDir(g', es'[i]);
    }
    if m == d && x == name && g'[n].IsDir() {
      assert es'[|es|] == Entry(name, n) && NamesDir(g', es'[|es|]);
    }
  }

  lemma RemovedSubdirs(g: seq<Record>, g': seq<Record>, d: nat, k: nat, m: nat)
    requires EntryRemoved(g, g', d, k) && UniqueNames(g[d].children) && m < |g|
    requires g[d].children[k].node < |g|
    ensures m != d || !g[g[d].children[k].node].IsDir() ==> Subdirs(g', m) == Subdirs(g, m)
    ensures g[g[d].children[k].node].IsDir() && m == d ==> |Subdirs(g', d)| == |Subdirs(g, d)| - 1
  {
    hide Subdirs;
    var gone := g[d].children[k];
    forall x
      ensures x in Subdirs(g', m) <==> x in Subdirs(g, m) && !(m == d && x == gone.name)
    {
      SubdirsMean(g, m, x);
      SubdirsMean(g', m, x);
      RemovedHasSubdir(g, g', d, k, m, x);
    }
    SubdirsMean(g, d, gone.name);
    HasThatSubdir(g, g[d].children, k);
    assert m == d ==> Subdirs(g', d) == Subdirs(g, d) - {gone.name};
  }

  lemma HasThatSubdir(g: seq<Record>, es: seq<Entry>, k: nat)
    requires k < |es| && UniqueNames(es)
    ensures HasSubdir(g, es, es[k].name) <==> NamesDir(g, es[k])
  {
    if NamesDir(g, es[k]) {
      assert es[k].name == es[k].name;
    }
  }

  lemma RemovedHasSubdir(g: seq<Record>, g': seq<Record>, d: nat, k: nat, m: nat, x: string)
    requires EntryRemoved(g, g', d, k) && UniqueNames(g[d].children) && m < |g|
    ensures HasSubdir(g', g'[m].children, x) <==>
      HasSubdir(g, g[m].children, x) && !(m == d && x == g[d].children[k].name)
  {
    hide UniqueNames, NamesDir;
    var es, es' := g[m].children, g'[m].children;
    SameDirectories(g, g');
    if m == d {
      SubdirLess(g, es, k, x);
    }
  }

  lemma SameDirectories(g: seq<Record>, g': seq<Record>)
    requires |g| == |g'| && forall m :: 0 <= m < |g| ==> g'[m].inode == g[m].inode
    ensures forall e :: NamesDir(g', e) == NamesDir(g, e)
  {
  }

  lemma SubdirLess(g: seq<Record>, es: seq<Entry>, k: nat, x: string)
    requires k < |es| && UniqueNames(es)
    ensures HasSubdir(g, es[..k] + es[k + 1..], x) <==> HasSubdir(g, es, x) && x != es[k].name
  {
    hide UniqueNames, NamesDir;
    var es' := es[..k] + es[k + 1..];
    if HasSubdir(g, es, x) && x != es[k].name {
      var i :| 0 <= i < |es| && es[i].name == x && NamesDir(g, es[i]);
      assert es'[if i < k then i else i - 1] == es[i];
    }
    if HasSubdir(g, es', x) {
      var i :| 0 <= i < |es'| && es'[i].name == x && NamesDir(g, es'[i]);
      OtherName(es, if i < k then i else i + 1, k);
      assert es[if i < k then i else i + 1] == es'[i];
    }
  }

  lemma OtherName(es: seq<Entry>, j: nat, k: nat)
    requires UniqueNames(es) && j < |es| && k < |es| && j != k
    ensures es[j].name != es[k].name
  {
  }

  // ----- The edits.

  ghost function Entered(nodes: seq<Record>, d: nat, e: Entry, links: int): seq<Record>
    requires d < |nodes|
  {
    nodes[d := nodes[d].(children := nodes[d].children + [e], nlink := nodes[d].nlink + links)]
  }

  /** Mkdir: a new directory, whose ".." is a link to d. */
  ghost function AfterMkdir(s: State, d: nat, name: string, inode: Inode): State
    requires d < |s.nodes|
  {
    s.(nodes := Entered(s.nodes + [Record(inode, 2, [])], d, Entry(name, |s.nodes|), 1))
  }

  /** Create, Symlink and Mknod: a new node with one link, whatever its type bits. */
  ghost function AfterMake(s: State, d: nat, name: string, inode: Inode): State
    requires d < |s.nodes|
  {
    State(Entered(s.nodes + [Record(inode, 1, [])], d, Entry(name, |s.nodes|), 0),
          if DirBit in inode.meta.types then s.odd[|s.nodes| := d] else s.odd)
  }

  ghost function AfterLink(s: State, d: nat, name: string, n: nat): State
    requires d < |s.nodes| && n < |s.nodes|
  {
    s.(nodes := Entered(s.nodes[n := s.nodes[n].(nlink := s.nodes[n].nlink + 1)], d, Entry(name, n), 0))
  }

  /** Remove entry k of d: a directory takes its ".." along. */
  ghost function AfterRemove(s: State, d: nat, k: nat): State
    requires d < |s.nodes| && k < |s.nodes[d].children| && s.nodes[d].children[k].node < |s.nodes|
  {
    var n := s.nodes[d].children[k].node;
    var dir := s.nodes[d].(children := s.nodes[d].children[..k] + s.nodes[d].children[k + 1..],
                           nlink := s.nodes[d].nlink - if s.nodes[n].IsDir() then 1 else 0);
    var nodes := s.nodes[d := dir];
    s.(nodes := nodes[n := nodes[n].(nlink := nodes[n].nlink - 1)])
  }

  /** The edits that succeed. */
  datatype Edit =
    | Mkdir(dir: nat, name: string, inode: Inode)
    | Make(dir: nat, name: string, inode: Inode)
    | Link(dir: nat, name: string, node: nat)
    | Remove(dir: nat, k: nat)

  ghost predicate Allowed(s: State, e: Edit) {
    match e
    case Mkdir(d, name, inode) => CanAdd(s, d, name) && DirBit in inode.meta.types
    case Make(d, name, inode) => CanAdd(s, d, name)
    case Link(d, name, n) => CanAdd(s, d, name) && n < |s.nodes| && !s.nodes[n].IsDir()
    case Remove(d, k) => CanRemove(s, d, k)
  }

  ghost function After(s: State, e: Edit): State
    requires Allowed(s, e)
  {
    match e
    case Mkdir(d, name, inode) => AfterMkdir(s, d, name, inode)
    case Make(d, name, inode) => AfterMake(s, d, name, inode)
    case Link(d, name, n) => AfterLink(s, d, name, n)
    case Remove(d, k) => AfterRemove(s, d, k)
  }

  ghost predicate CanAdd(s: State, d: nat, name: string) {
    d < |s.nodes| && s.nodes[d].IsDir() && ValidName(name) && !Present(s.nodes[d].children, name)
  }

  ghost predicate CanRemove(s: State, d: nat, k: nat) {
    && d < |s.nodes| && k < |s.nodes[d].children| && s.nodes[d].children[k].node < |s.nodes|
    && s.nodes[s.nodes[d].children[k].node].children == []
  }

  // ----- What one more entry keeps, and one entry less.

  lemma AddedWired(s: State, t: State, d: nat, name: string, n: nat)
    requires Wired(s) && CanAdd(s, d, name) && EntryAdded(s.nodes, t.nodes, d, name, n)
    requires t.nodes[n].IsDir() ==> n >= |s.nodes|
    ensures Wired(t)
  {
    forall e | 0 <= e < |t.nodes|
      ensures DirectoryOk(t, e)
    {
      if e < |s.nodes| {
        assert DirectoryOk(s, e);
        AddedDirectory(s, t, d, name, n, e);
      }
    }
  }

  lemma AddedDirectory(s: State, t: State, d: nat, name: string, n: nat, e: nat)
    requires e < |s.nodes| && DirectoryOk(s, e)
    requires CanAdd(s, d, name) && EntryAdded(s.nodes, t.nodes, d, name, n)
    requires t.nodes[n].IsDir() ==> n >= |s.nodes|
    ensures DirectoryOk(t, e)
  {
    var es, es' := s.nodes[e].children, t.nodes[e].children;
    forall i | 0 <= i < |es'|
      ensures es'[i].node < |t.nodes| && (t.nodes[es'[i].node].IsDir() ==> e < es'[i].node)
    {
      if i < |es| {
        assert es'[i] == es[i] && es[i].node < |s.nodes|;
      }
    }
    if e == d {
      NamesMore(es, name, n);
    }
  }

  lemma NamesMore(es: seq<Entry>, name: string, n: nat)
    requires UniqueNames(es) && ValidNames(es) && ValidName(name) && !Present(es, name)
    ensures UniqueNames(es + [Entry(name, n)]) && ValidNames(es + [Entry(name, n)])
  {
  }

  lemma RemovedWired(s: State, t: State, d: nat, k: nat)
    requires Wired(s) && EntryRemoved(s.nodes, t.nodes, d, k)
    ensures Wired(t)
  {
    forall e | 0 <= e < |t.nodes|
      ensures DirectoryOk(t, e)
    {
      assert DirectoryOk(s, e);
      if e == d {
        RemovedDirectory(s, t, d, k);
      }
    }
  }

  lemma RemovedDirectory(s: State, t: State, d: nat, k: nat)
    requires d < |s.nodes| && DirectoryOk(s, d)
    requires EntryRemoved(s.nodes, t.nodes, d, k)
    ensures DirectoryOk(t, d)
  {
    var es, es' := s.nodes[d].children, t.nodes[d].children;
    forall i | 0 <= i < |es'|
      ensures es'[i] == es[if i < k then i else i + 1]
    {
    }
  }

  lemma NoLinksYet(s: State, n: nat)
    requires Wired(s) && n >= |s.nodes|
    ensures Links(s.nodes, n) == {}
  {
    hide Links;
    forall p: (nat, string)
      ensures p !in Links(s.nodes, n)
    {
      LinksMean(s.nodes, n, p);
      assert p.0 < |s.nodes| ==> DirectoryOk(s, p.0);
    }
  }

  /** The links a node has, counted and missing, move as the entries do. */
  ghost function Weight(s: State, m: nat): int
    requires m < |s.nodes|
  {
    s.nodes[m].nlink + Missing(s.odd, m)
  }

  lemma AddedCounted(s: State, t: State, d: nat, name: string, n: nat, m: nat)
    requires Wired(s) && EntryAdded(s.nodes, t.nodes, d, name, n) && m < |t.nodes|
    requires s.nodes[d].IsDir() && (n < |s.nodes| ==> !s.nodes[n].IsDir())
    requires m < |s.nodes| ==> CountedAt(s, m)
    requires m < |s.nodes| ==>
      Weight(t, m) == Weight(s, m) + if m == n || (m == d && t.nodes[n].IsDir()) then 1 else 0
    requires m >= |s.nodes| ==> Weight(t, m) == if t.nodes[m].IsDir() then 2 else 1
    ensures CountedAt(t, m)
  {
    hide Links, Subdirs, Missing;
    AddedLinks(s.nodes, t.nodes, d, name, n, m);
    assert m < |s.nodes| ==> DirectoryOk(s, m);
    AddedSubdirs(s.nodes, t.nodes, d, name, n, m);
    if m >= |s.nodes| {
      NoLinksYet(s, m);
      assert (d, name) in Links(t.nodes, m);
    } else {
      assert t.nodes[m].IsDir() == s.nodes[m].IsDir();
    }
  }

  lemma RemovedCounted(s: State, t: State, d: nat, k: nat, m: nat)
    requires Kept(s) && CanRemove(s, d, k) && m < |s.nodes|
    requires EntryRemoved(s.nodes, t.nodes, d, k)
    requires Weight(t, m) ==
      Weight(s, m) - if m == s.nodes[d].children[k].node || (m == d && s.nodes[s.nodes[d].children[k].node].IsDir())
                     then 1 else 0
    requires d != s.nodes[d].children[k].node
    ensures CountedAt(t, m)
  {
    hide Links, Subdirs, Missing;
    assert DirectoryOk(s, d) && CountedAt(s, m);
    RemovedLinks(s.nodes, t.nodes, d, k, m);
    RemovedSubdirs(s.nodes, t.nodes, d, k, m);
    if s.nodes[m].IsDir() {
      RemovedOnce(s, d, k, m);
    }
  }

  /** A directory that is named at most once is not named any more. */
  lemma RemovedOnce(s: State, d: nat, k: nat, m: nat)
    requires d < |s.nodes| && k < |s.nodes[d].children| && m < |s.nodes| && s.nodes[m].IsDir() && NamedOnce(s, m)
    ensures m == s.nodes[d].children[k].node ==>
      Links(s.nodes, m) == {(d, s.nodes[d].children[k].name)} && m != ROOT
  {
    hide Links;
    var e := s.nodes[d].children[k];
    if m == e.node {
      assert s.nodes[d].children[k] == Entry(e.name, m);
      LinksMean(s.nodes, m, (d, e.name));
      OnlyOne(Links(s.nodes, m), (d, e.name));
    }
  }

  lemma OnlyOne<T>(a: set<T>, x: T)
    requires x in a && |a| <= 1
    ensures a == {x}
  {
    assert |a - {x}| == 0;
  }

  /** Before a node is made nothing is missing for it. */
  lemma NothingMissing(s: State, n: nat)
    requires OddDirectories(s) && (n < |s.nodes| ==> !s.nodes[n].IsDir())
    ensures n !in s.odd && Missing(s.odd, n) == 0
  {
    assert OddIn(s.odd, n) == {};
  }

  /** One more node for which Mknod left out what Mkdir does. */
  lemma OddMore(odd: map<nat, nat>, n: nat, d: nat, m: nat)
    requires n !in odd && n != d
    ensures Missing(odd[n := d], m) == Missing(odd, m) + if m == n || m == d then 1 else 0
  {
    if m == d {
      assert OddIn(odd[n := d], m) == OddIn(odd, m) + {n};
    } else {
      assert OddIn(odd[n := d], m) == OddIn(odd, m);
    }
  }

  // ----- Every edit keeps the invariants.

  lemma MkdirKeeps(s: State, d: nat, name: string, inode: Inode)
    requires Kept(s) && CanAdd(s, d, name) && DirBit in inode.meta.types
    ensures Kept(AfterMkdir(s, d, name, inode))
    ensures EntryAdded(s.nodes, AfterMkdir(s, d, name, inode).nodes, d, name, |s.nodes|)
    ensures AfterMkdir(s, d, name, inode).nodes[|s.nodes|].inode == inode
  {
    hide Wired, CountedAt, Missing;
    var t, n := AfterMkdir(s, d, name, inode), |s.nodes|;
    AddedWired(s, t, d, name, n);
    NothingMissing(s, n);
    forall m | 0 <= m < |t.nodes|
      ensures CountedAt(t, m)
    {
      AddedCounted(s, t, d, name, n, m);
    }
  }

  lemma MakeKeeps(s: State, d: nat, name: string, inode: Inode)
    requires Kept(s) && CanAdd(s, d, name)
    ensures Kept(AfterMake(s, d, name, inode))
    ensures EntryAdded(s.nodes, AfterMake(s, d, name, inode).nodes, d, name, |s.nodes|)
    ensures AfterMake(s, d, name, inode).nodes[|s.nodes|].inode == inode
  {
    hide Wired, CountedAt, Missing;
    var t, n := AfterMake(s, d, name, inode), |s.nodes|;
    AddedWired(s, t, d, name, n);
    NothingMissing(s, n);
    forall m | 0 <= m < |t.nodes|
      ensures CountedAt(t, m)
    {
      OddMore(s.odd, n, d, m);
      AddedCounted(s, t, d, name, n, m);
    }
  }

  lemma LinkKeeps(s: State, d: nat, name: string, n: nat)
    requires Kept(s) && CanAdd(s, d, name) && n < |s.nodes| && !s.nodes[n].IsDir()
    ensures Kept(AfterLink(s, d, name, n))
    ensures EntryAdded(s.nodes, AfterLink(s, d, name, n).nodes, d, name, n)
  {
    hide Wired, CountedAt, Missing;
    var t := AfterLink(s, d, name, n);
    AddedWired(s, t, d, name, n);
    forall m | 0 <= m < |t.nodes|
      ensures CountedAt(t, m)
    {
      AddedCounted(s, t, d, name, n, m);
    }
  }

  lemma NotInItself(s: State, d: nat, k: nat)
    requires Wired(s) && d < |s.nodes| && k < |s.nodes[d].children|
    ensures s.nodes[d].children[k].node < |s.nodes| && s.nodes[d].children[k].node != d
  {
    assert DirectoryOk(s, d);
  }

  lemma RemoveKeeps(s: State, d: nat, k: nat)
    requires Kept(s) && CanRemove(s, d, k)
    ensures Kept(AfterRemove(s, d, k))
    ensures EntryRemoved(s.nodes, AfterRemove(s, d, k).nodes, d, k)
  {
    hide Wired, CountedAt, Missing;
    var t := AfterRemove(s, d, k);
    NotInItself(s, d, k);
    RemovedWired(s, t, d, k);
    forall m | 0 <= m < |t.nodes|
      ensures CountedAt(t, m)
    {
      RemovedCounted(s, t, d, k, m);
    }
  }

  // ----- Every run.

  lemma EditKeeps(s: State, e: Edit)
    requires Kept(s) && Allowed(s, e)
    ensures Kept(After(s, e))
  {
    hide Wired, Counted, AfterMkdir, AfterMake, AfterLink, AfterRemove;
    match e
    case Mkdir(d, name, inode) =>
      MkdirKeeps(s, d, name, inode);
    case Make(d, name, inode) =>
      MakeKeeps(s, d, name, inode);
    case Link(d, name, n) =>
      LinkKeeps(s, d, name, n);
    case Remove(d, k) =>
      RemoveKeeps(s, d, k);
  }

  /** A whole run of edits. */
  ghost predicate Runs(s: State, es: seq<Edit>)
    decreases |es|
  {
    es == [] || (Allowed(s, es[0]) && Runs(After(s, es[0]), es[1..]))
  }

  ghost function Finally(s: State, es: seq<Edit>): State
    requires Runs(s, es)
    decreases |es|
  {
    if es == [] then s else Finally(After(s, es[0]), es[1..])
  }

  /** What NewMem makes. */
  ghost function Empty(inode: Inode): State {
    State([Record(inode, 2, [])], map[])
  }

  lemma {:induction false} RunKeeps(s: State, es: seq<Edit>)
    requires Kept(s) && Runs(s, es)
    ensures Kept(Finally(s, es))
    decreases |es|
  {
    hide Kept, Allowed, After;
    if es != [] {
      EditKeeps(s, es[0]);
      RunKeeps(After(s, es[0]), es[1..]);
    }
  }

  /** Whatever is done to a new image, names stay unique and valid and every node is counted. */
  lemma EveryRunKeeps(inode: Inode, es: seq<Edit>)
    requires DirBit in inode.meta.types && Runs(Empty(inode), es)
    ensures Kept(Finally(Empty(inode), es))
  {
    hide Runs, Finally;
    var s := Empty(inode);
    EmptyKept(inode);
    RunKeeps(s, es);
  }

  lemma EmptyKept(inode: Inode)
    requires DirBit in inode.meta.types
    ensures Kept(Empty(inode))
  {
    var s := Empty(inode);
    assert Links(s.nodes, ROOT) == {};
    assert Subdirs(s.nodes, ROOT) == {};
    assert OddIn(s.odd, ROOT) == {};
  }

  // ----- Link counts as a reader of the tree wants them.

  /** A file, link or device has one link for every entry that names it. */
  lemma FilesRight(s: State, n: nat)
    requires Kept(s) && n < |s.nodes| && !s.nodes[n].IsDir()
    ensures s.nodes[n].nlink == |Links(s.nodes, n)|
  {
    hide Links, Missing;
    assert CountedAt(s, n);
    NothingMissing(s, n);
  }

  /** Every attached directory has two links and one for every directory in it. */
  ghost predicate DirectoriesRight(s: State) {
    forall d :: 0 <= d < |s.nodes| && s.nodes[d].IsDir() && Attached(s, d) ==>
      s.nodes[d].nlink == 2 + |Subdirs(s.nodes, d)|
  }

  /** They are right exactly as long as no directory made by Mknod, and no directory it was made in, is attached. */
  lemma RightUnlessOdd(s: State)
    requires Kept(s)
    ensures DirectoriesRight(s) <==> forall m :: m in s.odd ==> !Attached(s, m) && !Attached(s, s.odd[m])
  {
    hide Links, Subdirs, Wired, Attached;
    forall d | 0 <= d < |s.nodes| && s.nodes[d].IsDir() && Attached(s, d)
      ensures s.nodes[d].nlink == 2 + |Subdirs(s.nodes, d)| <==> Missing(s.odd, d) == 0
    {
      assert CountedAt(s, d);
    }
    forall m | m in s.odd
      ensures Missing(s.odd, m) > 0 && Missing(s.odd, s.odd[m]) > 0
    {
      assert m in OddIn(s.odd, s.odd[m]);
    }
    forall d | Missing(s.odd, d) > 0
      ensures exists m :: m in s.odd && (m == d || s.odd[m] == d)
    {
      if d !in s.odd {
        var m :| m in OddIn(s.odd, d);
      }
    }
  }

  /** An image is right after Create, Symlink or Mknod if and only if it was right before and the new node
      has no directory bit. */
  lemma MakeKeepsRight(s: State, d: nat, name: string, inode: Inode)
    requires Kept(s) && CanAdd(s, d, name)
    ensures DirectoriesRight(AfterMake(s, d, name, inode)) <==> DirectoriesRight(s) && DirBit !in inode.meta.types
  {
    hide Links, Wired, Kept, DirectoriesRight, Entered, Attached;
    var t, n := AfterMake(s, d, name, inode), |s.nodes|;
    RightUnlessOdd(s);
    MakeKeeps(s, d, name, inode);
    RightUnlessOdd(t);
    OddBelow(s);
    NewIsAttached(s, d, name, inode);
    if DirBit in inode.meta.types {
      assert n in t.odd;
    } else {
      forall m | m in s.odd
        ensures Attached(t, m) == Attached(s, m) && Attached(t, s.odd[m]) == Attached(s, s.odd[m])
      {
        OthersAttached(s, d, name, inode, m);
        OthersAttached(s, d, name, inode, s.odd[m]);
      }
    }
  }

  lemma OddBelow(s: State)
    requires Kept(s)
    ensures forall m :: m in s.odd ==> m < |s.nodes| && s.odd[m] < |s.nodes|
  {
    hide Links, Wired, CountedAt;
  }

  lemma OthersAttached(s: State, d: nat, name: string, inode: Inode, m: nat)
    requires CanAdd(s, d, name) && m < |s.nodes|
    ensures Attached(AfterMake(s, d, name, inode), m) == Attached(s, m)
  {
    hide Links;
    AddedLinks(s.nodes, AfterMake(s, d, name, inode).nodes, d, name, |s.nodes|, m);
  }

  predicate MakesOddDirectory(e: Edit) {
    e.Make? && DirBit in e.inode.meta.types
  }

  /** Whatever else is done to a new image, its link counts are right. */
  lemma CleanRunIsRight(inode: Inode, es: seq<Edit>)
    requires DirBit in inode.meta.types && Runs(Empty(inode), es)
    requires forall k :: 0 <= k < |es| ==> !MakesOddDirectory(es[k])
    ensures DirectoriesRight(Finally(Empty(inode), es))
  {
    hide Runs, Finally, DirectoriesRight;
    EveryRunKeeps(inode, es);
    NoneOdd(Empty(inode), es);
    RightUnlessOdd(Finally(Empty(inode), es));
  }

  lemma {:induction false} NoneOdd(s: State, es: seq<Edit>)
    requires Runs(s, es) && forall k :: 0 <= k < |es| ==> !MakesOddDirectory(es[k])
    ensures Finally(s, es).odd == s.odd
    decreases |es|
  {
    hide Allowed;
    if es != [] {
      assert !MakesOddDirectory(es[0]);
      NoneOdd(After(s, es[0]), es[1..]);
    }
  }

  lemma NewIsAttached(s: State, d: nat, name: string, inode: Inode)
    requires d < |s.nodes|
    ensures Attached(AfterMake(s, d, name, inode), |s.nodes|)
  {
    hide Links;
    var t := AfterMake(s, d, name, inode);
    var es := t.nodes[d].children;
    assert es[|es| - 1] == Entry(name, |s.nodes|);
    LinksMean(t.nodes, |s.nodes|, (d, name));
  }

  /** Going down from directory to directory never comes back: directories form a forest. */
  lemma {:induction false} PathsDescend(s: State, path: seq<nat>, i: nat, j: nat)
    requires Wired(s) && i < j < |path|
    requires forall k :: 0 <= k < |path| ==> path[k] < |s.nodes| && s.nodes[path[k]].IsDir()
    requires forall k :: 0 <= k < |path| - 1 ==> HasChild(s.nodes[path[k]], path[k + 1])
    ensures path[i] < path[j]
    decreases j
  {
    if i < j - 1 {
      PathsDescend(s, path, i, j - 1);
    }
    assert HasChild(s.nodes[path[j - 1]], path[j - 1 + 1]);
    assert DirectoryOk(s, path[j - 1]);
  }

  ghost predicate HasChild(r: Record, n: nat) {
    exists i :: 0 <= i < |r.children| && r.children[i].node == n
  }
}
