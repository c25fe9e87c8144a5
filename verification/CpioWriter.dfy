/** pkg/cpio/writer.go: a tree with hard links as a list of archive members. */
module CpioWriter {
  import opened Sizes
  import opened Modes
  import opened Names
  import opened Bytes
  import opened Text
  import opened CpioFormat
  import opened CpioReader

  /** A tree whose leaves are nodes known by a number: two names with the same number are hard links. */
  datatype Tree =
    | Folder(meta: Meta, nlink: nat, kids: map<string, Tree>)
    | Leaf(id: nat, meta: Meta, link: string, rdev: nat, content: seq<byte>)

  datatype Named = Named(path: seq<string>, node: Tree)

  // ----- collect.

  /** Every node below t in pre-order, children by name; prefix is the path of t. */
  ghost function Collect(t: Tree, prefix: seq<string>): seq<Named>
    decreases t, 1, 0
  {
    if t.Leaf? then [] else CollectKids(t, Sorted(t.kids.Keys), prefix)
  }

  ghost function CollectKids(t: Tree, names: seq<string>, prefix: seq<string>): seq<Named>
    requires t.Folder? && forall x :: x in names ==> x in t.kids
    decreases t, 0, |names|
  {
    if names == [] then []
    else
      assert names[0] in names;
      [Named(prefix + [names[0]], t.kids[names[0]])] + Collect(t.kids[names[0]], prefix + [names[0]]) +
      CollectKids(t, names[1..], prefix)
  }

  datatype PathEntry = PathEntry(path: string, node: Tree)

  function Strings(es: seq<Named>): (s: seq<PathEntry>)
    ensures |s| == |es|
  {
    seq(|es|, i requires 0 <= i < |es| => PathEntry(Join(es[i].path), es[i].node))
  }

  lemma StringsAppend(a: seq<Named>, b: seq<Named>)
    ensures Strings(a + b) == Strings(a) + Strings(b)
  {
  }

  /** Valid names all the way down. */
  predicate GoodNames(t: Tree) {
    t.Folder? ==> forall x :: x in t.kids ==> ValidName(x) && ByteString(x) && NoNul(x) && GoodNames(t.kids[x])
  }

  /** collect, appending to out. */
  method CollectInto(t: Tree, prefix: string, ghost path: seq<string>, out: seq<PathEntry>) returns (r: seq<PathEntry>)
    requires t.Folder? && prefix == Join(path) && ValidPath(path) && GoodNames(t)
    ensures r == out + Strings(Collect(t, path))
    decreases t
  {
    hide Join, ValidName, Strings, Collect, CollectKids, Lists;
    var names := SortNames(t.kids.Keys);
    SortedElements(t.kids.Keys);
    CollectIs(t, path);
    assert names[0..] == names;
    r := out;
    for k := 0 to |names|
      invariant out + Strings(Collect(t, path)) == r + Strings(CollectKids(t, names[k..], path))
    {
      var name := names[k];
      assert name in names;
      StringsStep(t, names, k, path);
      ghost var before := r;
      JoinMore(path, name);
      JoinEmpty(path);
      var full := if prefix != "" then prefix + "/" + name else name;
      var kid := t.kids[name];
      r := r + [PathEntry(full, kid)];
      if kid.Folder? {
        r := CollectInto(kid, full, path + [name], r);
      } else {
        LeafCollects(kid, path + [name]);
        assert r == r + [];
      }
      Regrouped(before, [PathEntry(full, kid)], Strings(Collect(kid, path + [name])),
                Strings(CollectKids(t, names[k + 1..], path)), r);
    }
    KidsDone(t, path);
    assert names[|names|..] == [] && r + [] == r;
  }

  /** The strings of one child, of what is below it and of the others. */
  lemma StringsStep(t: Tree, names: seq<string>, k: nat, path: seq<string>)
    requires t.Folder? && k < |names| && forall x :: x in names ==> x in t.kids
    ensures names[k] in t.kids
    ensures Strings(CollectKids(t, names[k..], path)) ==
      [PathEntry(Join(path + [names[k]]), t.kids[names[k]])] + Strings(Collect(t.kids[names[k]], path + [names[k]])) +
      Strings(CollectKids(t, names[k + 1..], path))
  {
    hide Join, Strings, Collect, CollectKids;
    CollectStep(t, names, k, path);
    var kid := t.kids[names[k]];
    var here, below := [Named(path + [names[k]], kid)], Collect(kid, path + [names[k]]);
    StringsAppend(here + below, CollectKids(t, names[k + 1..], path));
    StringsAppend(here, below);
    OneString(path + [names[k]], kid);
  }

  lemma Regrouped<T>(a: seq<T>, b: seq<T>, c: seq<T>, d: seq<T>, r: seq<T>)
    requires r == a + b + c
    ensures a + (b + c + d) == r + d
  {
    Regroup(a, b, c, d);
  }

  lemma Regroup<T>(a: seq<T>, b: seq<T>, c: seq<T>, d: seq<T>)
    ensures a + (b + c + d) == a + b + c + d
  {
  }

  lemma JoinEmpty(path: seq<string>)
    requires ValidPath(path)
    ensures Join(path) == "" <==> path == []
  {
    if path != [] {
      assert path[0] in path;
    }
  }

  lemma OneString(path: seq<string>, node: Tree)
    ensures Strings([Named(path, node)]) == [PathEntry(Join(path), node)]
  {
  }

  lemma LeafCollects(t: Tree, prefix: seq<string>)
    requires t.Leaf?
    ensures Collect(t, prefix) == [] && Strings(Collect(t, prefix)) == []
  {
  }

  lemma CollectIs(t: Tree, prefix: seq<string>)
    requires t.Folder?
    ensures forall x :: x in Sorted(t.kids.Keys) ==> x in t.kids
    ensures Collect(t, prefix) == CollectKids(t, Sorted(t.kids.Keys), prefix)
  {
  }

  lemma CollectStep(t: Tree, names: seq<string>, k: nat, prefix: seq<string>)
    requires t.Folder? && k < |names| && forall x :: x in names ==> x in t.kids
    ensures names[k] in t.kids
    ensures CollectKids(t, names[k..], prefix) ==
            [Named(prefix + [names[k]], t.kids[names[k]])] + Collect(t.kids[names[k]], prefix + [names[k]]) +
            CollectKids(t, names[k + 1..], prefix)
  {
    hide Collect;
    assert names[k] in names && names[k..][0] == names[k] && names[k..][1..] == names[k + 1..];
  }

  lemma KidsDone(t: Tree, prefix: seq<string>)
    requires t.Folder?
    ensures CollectKids(t, [], prefix) == [] && Strings(CollectKids(t, [], prefix)) == []
  {
  }

  // ----- Numbering.

  /** A node as the writer's maps know it: directories are never shared. */
  datatype Key = File(id: nat) | Directory(path: string)

  function KeyOf(e: PathEntry): Key {
    if e.node.Leaf? then File(e.node.id) else Directory(e.path)
  }

  /** The entries that name a node. */
  function Occurrences(es: seq<PathEntry>, k: Key): nat {
    if es == [] then 0 else Occurrences(es[..|es| - 1], k) + if KeyOf(es[|es| - 1]) == k then 1 else 0
  }

  datatype Numbers = Numbers(ino: map<Key, nat>, occ: map<Key, nat>, last: map<Key, nat>)

  /** Inode numbers tell nodes apart, occ counts names, last is the position of the last name. */
  ghost predicate Numbered(es: seq<PathEntry>, n: Numbers) {
    && n.ino.Keys == n.occ.Keys == n.last.Keys
    && (forall i :: 0 <= i < |es| ==> KeyOf(es[i]) in n.ino && i <= n.last[KeyOf(es[i])])
    && (forall k :: k in n.ino ==>
          && 1 <= n.ino[k] <= |es| && n.occ[k] == Occurrences(es, k)
          && n.last[k] < |es| && KeyOf(es[n.last[k]]) == k)
    && (forall j, k :: j in n.ino && k in n.ino && n.ino[j] == n.ino[k] ==> j == k)
  }

  lemma {:induction false} NoOccurrence(es: seq<PathEntry>, k: Key)
    requires forall i :: 0 <= i < |es| ==> KeyOf(es[i]) != k
    ensures Occurrences(es, k) == 0
    decreases |es|
  {
    if es != [] {
      NoOccurrence(es[..|es| - 1], k);
    }
  }

  lemma OccurrencesStep(es: seq<PathEntry>, i: nat, k: Key)
    requires i < |es|
    ensures Occurrences(es[..i + 1], k) == Occurrences(es[..i], k) + if KeyOf(es[i]) == k then 1 else 0
  {
    assert es[..i + 1][..i] == es[..i];
  }

  method Number(es: seq<PathEntry>) returns (n: Numbers)
    ensures Numbered(es, n)
  {
    hide KeyOf;
    var ino: map<Key, nat>, occ: map<Key, nat>, last: map<Key, nat> := map[], map[], map[];
    var next := 1;
    for i := 0 to |es|
      invariant 1 <= next <= i + 1
      invariant forall k :: k in ino ==> ino[k] < next
      invariant Numbered(es[..i], Numbers(ino, occ, last))
    {
      var k := KeyOf(es[i]);
      OneMoreNumbered(es, i, Numbers(ino, occ, last), next);
      if k !in ino {
        ino := ino[k := next];
        next := next + 1;
      }
      occ := occ[k := (if k in occ then occ[k] else 0) + 1];
      last := last[k := i];
    }
    assert es[..|es|] == es;
    return Numbers(ino, occ, last);
  }

  lemma OneMoreNumbered(es: seq<PathEntry>, i: nat, n: Numbers, next: nat)
    requires i < |es| && Numbered(es[..i], n) && 1 <= next <= i + 1 && forall k :: k in n.ino ==> n.ino[k] < next
    ensures var k := KeyOf(es[i]);
      Numbered(es[..i + 1],
               Numbers(if k in n.ino then n.ino else n.ino[k := next],
                   n.occ[k := (if k in n.occ then n.occ[k] else 0) + 1],
                       n.last[k := i]))
  {
    hide KeyOf, Occurrences;
    var k := KeyOf(es[i]);
    var now := es[..i + 1];
    OccurrencesMore(es, i, n);
    forall m | 0 <= m < |now|
      ensures now[m] == es[m] && (m < i ==> es[..i][m] == es[m])
    {
    }
  }

  lemma OccurrencesMore(es: seq<PathEntry>, i: nat, n: Numbers)
    requires i < |es| && Numbered(es[..i], n)
    ensures forall j :: j in n.ino || j == KeyOf(es[i]) ==>
      Occurrences(es[..i + 1], j) == (if j in n.occ then n.occ[j] else 0) + if j == KeyOf(es[i]) then 1 else 0
  {
    hide KeyOf, Occurrences;
    forall j | j in n.ino || j == KeyOf(es[i])
      ensures Occurrences(es[..i], j) == (if j in n.occ then n.occ[j] else 0)
      ensures Occurrences(es[..i + 1], j) == Occurrences(es[..i], j) + if j == KeyOf(es[i]) then 1 else 0
    {
      OccurrencesStep(es, i, j);
      if j !in n.ino {
        forall m | 0 <= m < |es[..i]|
          ensures KeyOf(es[..i][m]) != j
        {
        }
        NoOccurrence(es[..i], j);
      }
    }
  }

  // ----- Members.

  function BodyOf(t: Tree, withBody: bool): seq<byte>
    requires t.Leaf? ==> ByteString(t.link)
  {
    if t.Folder? then []
    else
      match t.meta.mode.kind
      case Symlink => NameBytes(t.link)
      case Regular => if withBody then t.content else []
      case _ => []
  }

  /** Whether a node fits the 32-bit fields of a header. */
  predicate Fits(t: Tree) {
    && ValidMode(t.meta.mode) && t.meta.uid < TWO32 && t.meta.gid < TWO32 && t.meta.mtime < TWO32
    && match t
       case Folder(meta, nlink, kids) => meta.mode.kind == Dir && nlink < TWO32
       case Leaf(_, meta, link, rdev, content) =>
         meta.mode.kind != Dir && ByteString(link) && |link| < TWO32 && rdev < 0x100_0000_0000 && |content| < TWO32
  }

  /** writeEntry, as the member it emits. */
  function MemberOf(e: PathEntry, ino: nat, occ: nat, withBody: bool): Member
    requires Fits(e.node)
  {
    var t := e.node;
    var body := BodyOf(t, withBody);
    var dev := t.Leaf? && (t.meta.mode.kind == CharDevice || t.meta.mode.kind == BlockDevice);
    Member(Header(ino, ModeToUnix(t.meta.mode), t.meta.uid, t.meta.gid, if t.Folder? then t.nlink else occ,
        t.meta.mtime,
                  |body|, 0, 0, if dev then t.rdev / 256 else 0, if dev then t.rdev % 256 else 0, |e.path| + 1),
           e.path, body)
  }

  ghost predicate AllFit(es: seq<PathEntry>) {
    && |es| < TWO32
    && forall i :: 0 <= i < |es| ==>
         Fits(es[i].node) && |es[i].path| + 1 < TWO32 && ByteString(es[i].path) && NoNul(es[i].path)
  }

  ghost predicate KeysKnown(es: seq<PathEntry>, n: Numbers) {
    forall i :: 0 <= i < |es| ==> KeyOf(es[i]) in n.ino && KeyOf(es[i]) in n.occ && KeyOf(es[i]) in n.last
  }

  ghost function MembersOf(es: seq<PathEntry>, n: Numbers, k: nat): (ms: seq<Member>)
    requires k <= |es| && AllFit(es) && KeysKnown(es, n)
    ensures |ms| == k
  {
    if k == 0 then []
    else
      var key := KeyOf(es[k - 1]);
      MembersOf(es, n, k - 1) + [MemberOf(es[k - 1], n.ino[key], n.occ[key], n.last[key] == k - 1)]
  }
}
