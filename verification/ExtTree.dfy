/** pkg/ext/format.go: a tree of nodes, its inode numbers, and what an image holds of it. */
module ExtTree {
  import opened Sizes
  import opened Modes
  import opened Names
  import opened Bytes
  import opened Text
  import opened ExtLayout
  import opened ExtXattrArea
  import opened ExtAttrs
  import opened ExtFiles
  import opened ExtDir
  import opened ExtBuild

  /** A node of the tree to lay out; kids are numbers of other nodes, and two names may have the same one. */
  datatype Node = Node(mode: Mode, attrs: Attributes, content: seq<byte>, target: seq<byte>, rdev: nat,
          kids: map<string, nat>)
  {
    predicate IsDir() {
      mode.kind == Dir
    }
  }

  type Tree = seq<Node>

  const ROOT: nat := 0
  const ROOT_INO: nat := 2
  const LOST_FOUND_INO: nat := 11
  const FIRST_FREE_INO: nat := 12
  const LOST_FOUND: string := "lost+found"
  const FAST_SYMLINK_MAX: nat := 60

  predicate GoodKid(t: Tree, n: nat, name: string, kid: nat) {
    && ValidName(name) && |name| <= 255 && ByteString(name)
    && kid < |t| && (t[kid].IsDir() ==> n < kid)
  }

  ghost predicate GoodNode(t: Tree, n: nat)
    requires n < |t|
  {
    && (!t[n].IsDir() ==> t[n].kids == map[])
    && (forall x :: x in t[n].kids ==> GoodKid(t, n, x, t[n].kids[x]))
    && ShortNames(t[n].attrs) && |t[n].target| <= MAX_SIZE
  }

  /** The root comes first, and every directory before the directories in it. */
  ghost predicate WellNumbered(t: Tree) {
    t != [] && t[ROOT].IsDir() && forall n :: 0 <= n < |t| ==> GoodNode(t, n)
  }

  /** Everything below d is in s. */
  ghost predicate HoldsBelow(t: Tree, s: set<nat>, d: nat)
    requires WellNumbered(t) && d < |t|
    decreases |t| - d
  {
    assert GoodNode(t, d);
    forall x :: x in t[d].kids ==>
      var k := t[d].kids[x];
      assert GoodKid(t, d, x, k);
      k in s && (t[k].IsDir() ==> HoldsBelow(t, s, k))
  }

  lemma {:induction false} HoldsBelowMore(t: Tree, s: set<nat>, s': set<nat>, d: nat)
    requires WellNumbered(t) && d < |t| && HoldsBelow(t, s, d) && s <= s'
    ensures HoldsBelow(t, s', d)
    decreases |t| - d
  {
    assert GoodNode(t, d);
    forall x | x in t[d].kids
      ensures var k := t[d].kids[x]; k < |t| && k in s' && (t[k].IsDir() ==> HoldsBelow(t, s', k))
    {
      var k := t[d].kids[x];
      assert GoodKid(t, d, x, k);
      if t[k].IsDir() {
        HoldsBelowMore(t, s, s', k);
      }
    }
  }

  /** A set that holds what every directory in it names holds everything below it. */
  lemma {:induction false} ClosedHoldsBelow(t: Tree, s: set<nat>, d: nat)
    requires WellNumbered(t) && d < |t| && d in s
    requires forall n :: n in s && n < |t| ==> KidsIn(t, n, s)
    ensures HoldsBelow(t, s, d)
    decreases |t| - d
  {
    assert GoodNode(t, d);
    forall x | x in t[d].kids
      ensures var k := t[d].kids[x]; k < |t| && k in s && (t[k].IsDir() ==> HoldsBelow(t, s, k))
    {
      var k := t[d].kids[x];
      assert GoodKid(t, d, x, k) && KidsIn(t, d, s);
      if t[k].IsDir() {
        ClosedHoldsBelow(t, s, k);
      }
    }
  }

  /** n is the root, or somewhere below it. */
  ghost predicate Reachable(t: Tree, n: nat) {
    && WellNumbered(t) && n < |t|
    && forall s: set<nat> :: ROOT in s && HoldsBelow(t, s, ROOT) ==> n in s && (t[n].IsDir() ==> HoldsBelow(t, s, n))
  }

  lemma RootReachable(t: Tree)
    requires WellNumbered(t)
    ensures Reachable(t, ROOT)
  {
    hide HoldsBelow;
  }

  lemma KidReachable(t: Tree, n: nat, x: string)
    requires Reachable(t, n) && x in t[n].kids
    ensures Reachable(t, t[n].kids[x])
  {
    assert GoodNode(t, n);
    var k := t[n].kids[x];
    assert GoodKid(t, n, x, k);
    forall s: set<nat> | ROOT in s && HoldsBelow(t, s, ROOT)
      ensures k in s && (t[k].IsDir() ==> HoldsBelow(t, s, k))
    {
      assert HoldsBelow(t, s, n);
    }
  }

  ghost predicate OnlyReachable(t: Tree, ino: map<nat, nat>) {
    forall n :: n in ino ==> Reachable(t, n)
  }

  /** Exactly the nodes of the tree have a number. */
  ghost predicate AllNumbers(t: Tree, ino: map<nat, nat>) {
    WellNumbered(t) && ROOT in ino && HoldsBelow(t, ino.Keys, ROOT) && OnlyReachable(t, ino)
  }

  predicate KidsIn(t: Tree, n: nat, s: set<nat>)
    requires n < |t|
  {
    forall x :: x in t[n].kids ==> t[n].kids[x] in s
  }

  // ----- lost+found.

  /** ensureLostFound: a directory of that name in the root, if there is none. */
  function WithLostFound(t: Tree): (r: Tree)
    requires t != []
  {
    if LOST_FOUND in t[ROOT].kids then t
    else t[ROOT := t[ROOT].(kids := t[ROOT].kids[LOST_FOUND := |t|])] + [Node(Mode(Dir, 448, 0), map[], [], [], 0,
        map[])]
  }

  lemma LostFoundKeeps(t: Tree)
    requires WellNumbered(t)
    ensures WellNumbered(WithLostFound(t)) && LOST_FOUND in WithLostFound(t)[ROOT].kids
    ensures forall n :: 0 < n < |t| ==> WithLostFound(t)[n] == t[n]
    ensures LOST_FOUND in t[ROOT].kids ==> WithLostFound(t) == t
    ensures LOST_FOUND !in t[ROOT].kids ==>
      var r, root := WithLostFound(t), t[ROOT];
      && |r| == |t| + 1 && r[|t|].mode == Mode(Dir, 0x1C0, 0) && r[|t|].attrs == map[] && r[|t|].kids == map[]
      && r[ROOT].mode == root.mode && r[ROOT].attrs == root.attrs && r[ROOT].kids.Keys == root.kids.Keys + {LOST_FOUND}
      && (forall x :: x in root.kids ==> r[ROOT].kids[x] == root.kids[x]) && r[ROOT].kids[LOST_FOUND] == |t|
  {
    var r := WithLostFound(t);
    forall n | 0 <= n < |r|
      ensures GoodNode(r, n)
    {
      if n < |t| {
        assert GoodNode(t, n);
        forall x | x in r[n].kids
          ensures GoodKid(r, n, x, r[n].kids[x])
        {
          if x in t[n].kids {
            assert GoodKid(t, n, x, t[n].kids[x]);
          }
        }
      }
    }
  }

  // ----- Inode numbers.

  /** No two nodes have the same number, and none has a reserved one but the root. */
  ghost predicate Numbering(ino: map<nat, nat>, next: nat) {
    && (forall a, b :: a in ino && b in ino && a != b ==> ino[a] != ino[b])
    && (forall a :: a in ino ==> ino[a] in {ROOT_INO, LOST_FOUND_INO} || FIRST_FREE_INO <= ino[a] < next)
    && next >= FIRST_FREE_INO
  }

  ghost predicate Extends(ino: map<nat, nat>, ino': map<nat, nat>) {
    forall a :: a in ino ==> a in ino' && ino'[a] == ino[a]
  }

  /** As many numbers are given out as there are nodes that have one. */
  ghost predicate Dense(ino: map<nat, nat>, next: nat) {
    next == FIRST_FREE_INO + |ino| - 2
  }

  lemma OneMoreNumber(ino: map<nat, nat>, next: nat, n: nat)
    requires Numbering(ino, next) && n !in ino
    ensures Numbering(ino[n := next], next + 1) && Extends(ino, ino[n := next])
    ensures Dense(ino, next) ==> Dense(ino[n := next], next + 1)
  {
    var more := ino[n := next];
    assert |more| == |ino| + 1 by {
      assert more.Keys == ino.Keys + {n};
    }
    forall a | a in more
      ensures if a == n then more[a] == next else a in ino && more[a] == ino[a]
    {
    }
    forall a, b | a in more && b in more && a != b
      ensures more[a] != more[b]
    {
      if a != n && b != n {
        assert ino[a] != ino[b];
      }
    }
  }

  // ----- Directories.

  /** dirFileType. */
  function FileType(k: Kind): byte {
    match k
    case Regular => 1
    case Dir => 2
    case CharDevice => 3
    case BlockDevice => 4
    case Fifo => 5
    case Socket => 6
    case Symlink => 7
  }

  /** The entries of a directory but the two dots, by name. */
  ghost function KidDentries(t: Tree, ino: map<nat, nat>, n: nat, names: seq<string>): (es: seq<Dentry>)
    requires n < |t| && forall x :: x in names ==> x in t[n].kids && t[n].kids[x] < |t| && t[n].kids[x] in ino
    ensures |es| == |names|
  {
    seq(|names|, i requires 0 <= i < |names| => assert names[i] in names; KidDentry(t, ino, n, names[i]))
  }

  function KidDentry(t: Tree, ino: map<nat, nat>, n: nat, x: string): Dentry
    requires n < |t| && x in t[n].kids && t[n].kids[x] < |t| && t[n].kids[x] in ino
  {
    Dentry(ino[t[n].kids[x]], x, FileType(t[t[n].kids[x]].mode.kind))
  }

  function Dots(self: nat, parent: nat): seq<Dentry> {
    [Dentry(self, ".", 2), Dentry(parent, "..", 2)]
  }

  /** The entries of a directory, the inode numbers aside: they do not change where the entries go. */
  ghost function Listing(n: Node): seq<Dentry> {
    var names := Sorted(n.kids.Keys);
    Dots(1, 1) + seq(|names|, i requires 0 <= i < |names| => Dentry(1, names[i], 1))
  }

  /** The size of a directory, in whole blocks. */
  ghost function DirSize(n: Node, bs: nat): nat {
    BlockCount(Listing(n), bs, 0) * bs
  }

  ghost predicate Numbered(t: Tree, ino: map<nat, nat>, n: nat) {
    && n < |t| && n in ino
    && forall x :: x in t[n].kids ==> t[n].kids[x] < |t| && t[n].kids[x] in ino
  }

  ghost function Dentries(t: Tree, ino: map<nat, nat>, n: nat, parent: nat): seq<Dentry>
    requires Numbered(t, ino, n)
  {
    SortedElements(t[n].kids.Keys);
    Dots(ino[n], parent) + KidDentries(t, ino, n, Sorted(t[n].kids.Keys))
  }

  // ----- What an image holds of a node.

  /** An inode: what is kept in it, where a short target lies over the block pointers. */
  datatype DiskInode = DiskInode(mode: Mode, size: nat, raw: seq<byte>, file: Inode)

  function DeviceTable(rdev: nat): (s: seq<nat>)
    ensures |s| == 15
  {
    [rdev % TWO32, 0, 0, 0, 0, 0, 0, 0, 0, 0, 0, 0, 0, 0, 0]
  }

  ghost predicate NamedIn(t: Tree, ino: map<nat, nat>, d: nat, n: nat) {
    d < |t| && d in ino && t[d].IsDir() && n in t[d].kids.Values
  }

  /** A directory that names n has that number; the root is its own parent. */
  ghost predicate ParentOf(t: Tree, ino: map<nat, nat>, n: nat, parent: nat) {
    if n == ROOT then ROOT in ino && parent == ino[ROOT]
    else exists d: nat :: NamedIn(t, ino, d, n) && ino[d] == parent
  }

  /** The directory was cut into blocks. */
  ghost predicate DirBlocks(t: Tree, ino: map<nat, nat>, n: nat, bs: nat, content: seq<byte>, parent: nat,
          parts: seq<seq<byte>>) {
    && Numbered(t, ino, n) && bs >= 1024
    && var es := Dentries(t, ino, n, parent);
       ValidDentries(es) && Blocks(parts, es, bs, 0) && AllOf(parts, bs) && content == Flat(parts)
  }

  ghost predicate IsDirectory(t: Tree, ino: map<nat, nat>, n: nat, bs: nat, content: seq<byte>) {
    exists parent: nat, parts :: ParentOf(t, ino, n, parent) && DirBlocks(t, ino, n, bs, content, parent, parts)
  }

  /** What the attribute block costs. */
  function EaSectors(p: Placement, bs: nat): nat {
    if p.acl == 0 then 0 else bs / 512
  }

  ghost predicate NodeOn(t: Tree, ino: map<nat, nat>, n: nat, bs: nat, d: DiskInode, f: FileOn) {
    && n < |t| && d.mode == t[n].mode && d.file == f.inode && f.spec.attrs == t[n].attrs
    && match t[n].mode.kind
       case Dir => d.size == |f.spec.content| && IsDirectory(t, ino, n, bs, f.spec.content)
       case Regular => d.size == |f.spec.content| && f.spec.content == t[n].content
       case Symlink =>
         if |t[n].target| < FAST_SYMLINK_MAX then
           && d.size == |t[n].target| && d.raw == t[n].target + Zeros(FAST_SYMLINK_MAX - |t[n].target|)
           && d.file.sectors == EaSectors(d.file.attrs, bs)
         else
           d.size == |f.spec.content| && f.spec.content == t[n].target && d.file.sectors > EaSectors(d.file.attrs, bs)
       case CharDevice => d.file.map_ == Table(DeviceTable(t[n].rdev))
       case BlockDevice => d.file.map_ == Table(DeviceTable(t[n].rdev))
       case Fifo => true
       case Socket => true
  }
}
