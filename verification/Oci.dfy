/** pkg/oci on values: trees, layer entries, the diff of two trees and what applying it gives. */
module OciTrees {
  import opened Modes
  import opened Options
  import opened Names

  datatype Meta = Meta(mode: Mode, uid: nat, gid: nat, xattrs: map<string, seq<nat>>)

  datatype Tree = Node(meta: Meta, link: string, rdev: Device, content: seq<nat>, kids: map<string, Tree>) {
    predicate IsDir() {
      meta.mode.kind == Dir
    }
  }

  const WHITEOUT := ".wh."
  const WHITEOUT_OPAQUE := ".wh..wh..opq"

  predicate HasPrefix(s: string, prefix: string) {
    |prefix| <= |s| && s[..|prefix|] == prefix
  }

  /** A name the layer format leaves to files. */
  predicate FileName(name: string) {
    ValidName(name) && !HasPrefix(name, WHITEOUT)
  }

  /** Names are file names throughout, and only directories have children. */
  predicate WellFormed(t: Tree) {
    (t.IsDir() || t.kids == map[]) && forall x :: x in t.kids ==> FileName(x) && WellFormed(t.kids[x])
  }

  const NO_META := Meta(Mode(Regular, 0, 0), 0, 0, map[])

  /** A directory made up for a path that a layer mentions before its parent. */
  const PLACEHOLDER := Node(Meta(Mode(Dir, 0x1ED, 0), 0, 0, map[]), "", 0, [], map[])

  // ----- Layer entries, relative to a directory.

  datatype Payload =
    | Whiteout
    | Opaque
    | Entry(kind: Kind, perm: Perm, special: nat, uid: nat, gid: nat, xattrs: map<string, seq<nat>>,
            link: string, rdev: Device, body: seq<nat>)

  datatype Item = Item(path: seq<string>, payload: Payload)

  /** writeEntry: sockets go the way of regular files, and only permission bits are written. */
  function EntryOf(n: Tree): (p: Payload)
    ensures p.Entry?
  {
    var kind := if n.meta.mode.kind == Socket then Regular else n.meta.mode.kind;
    Entry(kind, n.meta.mode.perm, 0, n.meta.uid, n.meta.gid, n.meta.xattrs,
          if kind == Symlink then n.link else "",
          if kind == CharDevice || kind == BlockDevice then n.rdev else 0,
          if kind == Regular then n.content else [])
  }

  // ----- Applying entries.

  /** upsert and the switch on the entry type: an existing node keeps what the entry does not set. */
  function Upserted(was: Option<Tree>, e: Payload): Tree
    requires e.Entry?
  {
    var n := match was case Some(t) => t case None => Node(NO_META, "", 0, [], map[]);
    var m := n.(meta := Meta(Mode(e.kind, e.perm, e.special), e.uid, e.gid, e.xattrs));
    match e.kind
    case Symlink => m.(link := e.link)
    case CharDevice => m.(rdev := e.rdev)
    case BlockDevice => m.(rdev := e.rdev)
    case Regular => m.(content := e.body)
    case Dir => m
    case Fifo => m
    case Socket => m
  }

  function KidOf(t: Tree, name: string): Option<Tree> {
    if name in t.kids then Some(t.kids[name]) else None
  }

  /** The child directory to descend into: the existing one, or a placeholder in its place. */
  function Descend(t: Tree, name: string): Tree {
    if name in t.kids && t.kids[name].IsDir() then t.kids[name] else PLACEHOLDER
  }

  function ApplyItem(t: Tree, path: seq<string>, p: Payload): Tree
    requires path != []
    decreases |path|
  {
    if |path| == 1 then
      match p
      case Whiteout => t.(kids := t.kids - {path[0]})
      case Opaque => t.(kids := map[])
      case Entry(_, _, _, _, _, _, _, _, _) => t.(kids := t.kids[path[0] := Upserted(KidOf(t, path[0]), p)])
    else
      t.(kids := t.kids[path[0] := ApplyItem(Descend(t, path[0]), path[1..], p)])
  }

  predicate Proper(items: seq<Item>) {
    forall i :: i in items ==> i.path != []
  }

  function ApplyAll(t: Tree, items: seq<Item>): Tree
    requires Proper(items)
    decreases |items|
  {
    if items == [] then t
    else
      assert items[0] in items;
      ApplyAll(ApplyItem(t, items[0].path, items[0].payload), items[1..])
  }

  // ----- The diff.

  /** xattrsEqual: as many names, and every value of a equals the value b has under that name, where
      a missing name counts as an empty value. */
  predicate XattrsEqual(a: map<string, seq<nat>>, b: map<string, seq<nat>>) {
    |a| == |b| && forall k :: k in a ==> a[k] == if k in b then b[k] else []
  }

  predicate Changed(o: Tree, n: Tree) {
    || o.meta.mode != n.meta.mode || o.meta.uid != n.meta.uid || o.meta.gid != n.meta.gid
    || !XattrsEqual(o.meta.xattrs, n.meta.xattrs)
    || match n.meta.mode.kind
       case Symlink => o.link != n.link
       case CharDevice => o.rdev != n.rdev
       case BlockDevice => o.rdev != n.rdev
       case Regular => o.content != n.content
       case Dir => false
       case Fifo => false
       case Socket => false
  }

  /** Items a layer can be made of. */
  ghost predicate Writable(items: seq<Item>) {
    forall i :: i in items ==> i.path != [] && !i.payload.Opaque?
  }

  function Under(name: string, items: seq<Item>): (r: seq<Item>)
    ensures |r| == |items| && Proper(r) && (Writable(items) ==> Writable(r))
    ensures forall i :: 0 <= i < |items| ==> r[i] == Item([name] + items[i].path, items[i].payload)
  {
    if items == [] then [] else [Item([name] + items[0].path, items[0].payload)] + Under(name, items[1..])
  }

  /** The entries of a whole subtree, relative to the directory that holds it under name. */
  ghost function Subtree(n: Tree, name: string): (r: seq<Item>)
    ensures Proper(r) && Writable(r)
    decreases n, 1, 0
  {
    [Item([name], EntryOf(n))] + if n.IsDir() then Under(name, SubtreeKids(n, Sorted(n.kids.Keys))) else []
  }

  ghost function SubtreeKids(n: Tree, names: seq<string>): (r: seq<Item>)
    requires forall x :: x in names ==> x in n.kids
    ensures Proper(r) && Writable(r)
    decreases n, 0, |names|
  {
    if names == [] then []
    else
      assert names[0] in names;
      Subtree(n.kids[names[0]], names[0]) + SubtreeKids(n, names[1..])
  }

  /** The entries that turn directory o into directory n. */
  ghost function Diff(o: Tree, n: Tree): (r: seq<Item>)
    ensures Proper(r) && Writable(r)
    decreases n, 2, 0
  {
    DiffNames(o, n, Sorted(o.kids.Keys + n.kids.Keys))
  }

  ghost function DiffNames(o: Tree, n: Tree, names: seq<string>): (r: seq<Item>)
    requires forall x :: x in names ==> x in o.kids || x in n.kids
    ensures Proper(r) && Writable(r)
    decreases n, 1, |names|
  {
    if names == [] then []
    else
      assert names[0] in names;
      DiffName(o, n, names[0]) + DiffNames(o, n, names[1..])
  }

  ghost function DiffName(o: Tree, n: Tree, x: string): (r: seq<Item>)
    requires x in o.kids || x in n.kids
    ensures Proper(r) && Writable(r)
    decreases n, 0, 0
  {
    if x !in n.kids then [Item([x], Whiteout)]
    else if x !in o.kids then Subtree(n.kids[x], x)
    else if o.kids[x].IsDir() && n.kids[x].IsDir() then
      (if Changed(o.kids[x], n.kids[x]) then [Item([x], EntryOf(n.kids[x]))] else []) +
      Under(x, Diff(o.kids[x], n.kids[x]))
    else if Changed(o.kids[x], n.kids[x]) then Subtree(n.kids[x], x)
    else []
  }

  lemma SubtreeIs(n: Tree, x: string)
    ensures Subtree(n, x) == [Item([x], EntryOf(n))] +
                             if n.IsDir() then Under(x, SubtreeKids(n, Sorted(n.kids.Keys))) else []
    ensures !n.IsDir() ==> Subtree(n, x) == [Item([x], EntryOf(n))]
  {
  }

  lemma SubtreeKidsStep(n: Tree, names: seq<string>, k: nat)
    requires k < |names| && forall x :: x in names ==> x in n.kids
    ensures names[k] in n.kids
    ensures SubtreeKids(n, names[k..]) == Subtree(n.kids[names[k]], names[k]) + SubtreeKids(n, names[k + 1..])
  {
    hide Subtree;
    assert names[k] in names && names[k..][0] == names[k] && names[k..][1..] == names[k + 1..];
  }

  lemma DiffNamesStep(o: Tree, n: Tree, names: seq<string>, k: nat)
    requires k < |names| && forall x :: x in names ==> x in o.kids || x in n.kids
    ensures names[k] in o.kids || names[k] in n.kids
    ensures DiffNames(o, n, names[k..]) == DiffName(o, n, names[k]) + DiffNames(o, n, names[k + 1..])
  {
    hide DiffName;
    assert names[k] in names && names[k..][0] == names[k] && names[k..][1..] == names[k + 1..];
  }

  lemma DiffIs(o: Tree, n: Tree)
    ensures Diff(o, n) == DiffNames(o, n, Sorted(o.kids.Keys + n.kids.Keys))
  {
  }

  lemma NothingBelow(o: Tree, n: Tree)
    ensures SubtreeKids(n, []) == [] && DiffNames(o, n, []) == []
  {
  }

  // ----- What a tree says, and what applying the diff is expected to give.

  /** A tree without the fields its kinds do not use. */
  function View(t: Tree): Tree
    decreases t, 1
  {
    var k := t.meta.mode.kind;
    Node(t.meta, if k == Symlink then t.link else "", if k == CharDevice || k == BlockDevice then t.rdev else 0,
         if k == Regular then t.content else [], if k == Dir then ViewKids(t) else map[])
  }

  function ViewKids(t: Tree): map<string, Tree>
    decreases t, 0
  {
    map x | x in t.kids :: View(t.kids[x])
  }

  /** What survives of a node that was written out: sockets turn into files, special bits are lost. */
  function Written(n: Tree): Tree
    decreases n, 1
  {
    var e := EntryOf(n);
    Node(Meta(Mode(e.kind, e.perm, 0), e.uid, e.gid, e.xattrs), e.link, e.rdev, e.body,
         if n.IsDir() then WrittenKids(n) else map[])
  }

  function WrittenKids(n: Tree): map<string, Tree>
    decreases n, 0
  {
    map x | x in n.kids :: Written(n.kids[x])
  }

  /** The children expected after applying the diff. */
  function Patched(o: Tree, n: Tree): map<string, Tree>
    decreases n, 1
  {
    map x | x in n.kids :: PatchedKid(o, n, x)
  }

  function PatchedKid(o: Tree, n: Tree, x: string): Tree
    requires x in n.kids
    decreases n, 0
  {
    var k := n.kids[x];
    if x !in o.kids then Written(k)
    else if o.kids[x].IsDir() && k.IsDir() then
      Node(if Changed(o.kids[x], k) then Written(k).meta else o.kids[x].meta, "", 0, [], Patched(o.kids[x], k))
    else if Changed(o.kids[x], k) then Written(k)
    else View(o.kids[x])
  }
}
