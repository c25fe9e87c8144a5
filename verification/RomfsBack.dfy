/** What a romfs image keeps of a tree, said without the layout. */
module RomfsBack {
  import opened Sizes
  import opened Modes
  import opened Names
  import opened Bytes
  import opened RomfsFormat
  import opened RomfsTree

  function NamesIn(kids: seq<(string, Found)>): (names: seq<string>)
    ensures |names| == |kids|
  {
    seq(|kids|, i requires 0 <= i < |kids| => kids[i].0)
  }

  /** The kind, one bit for execution, a link target, a device number in 24 bits or the bytes; below a directory the
      same names in order. */
  ghost predicate ComesBack(t: Tree, f: Found)
    decreases t, 1
  {
    match t
    case Folder(_) => f.mode == Mode(Dir, 0x1ED, 0) && f.link == "" && f.rdev == 0 && f.content == [] && KidsComeBack(t, f.kids)
    case Leaf(mode, link, rdev, content) =>
      && f.mode.kind == mode.kind && f.mode.special == 0 && f.kids == []
      && f.mode.perm == (if mode.kind == Symlink then 0x1FF
                         else if mode.kind == Regular && (mode.perm % 2 + mode.perm / 8 % 2 + mode.perm / 64 % 2 > 0)
                         then 0x1ED else 0x1A4)
      && f.link == (if mode.kind == Symlink then link else "")
      && f.rdev == (if mode.kind == CharDevice || mode.kind == BlockDevice then rdev % 0x100_0000 else 0)
      && f.content == (if mode.kind == Regular then content else [])
  }

  ghost predicate KidsComeBack(t: Tree, kids: seq<(string, Found)>)
    requires t.Folder?
    decreases t, 0
  {
    && Lists(NamesIn(kids), t.kids.Keys)
    && forall i :: 0 <= i < |kids| ==> kids[i].0 in t.kids && ComesBack(t.kids[kids[i].0], kids[i].1)
  }

  lemma {:induction false} ExpectedAt(t: Tree, names: seq<string>, i: nat)
    requires Within(names, t) && i < |names|
    ensures names[i] in t.kids && Good(t.kids[names[i]])
    ensures |ExpectedKids(t, names)| == |names|
    ensures ExpectedKids(t, names)[i] == (names[i], ExpectedNode(t.kids[names[i]]))
    decreases |names|
  {
    hide Within, Good, ExpectedNode;
    WithinStep(t, names);
    GoodKid(t, names[0]);
    if i > 0 {
      ExpectedAt(t, names[1..], i - 1);
    } else if |names| > 1 {
      ExpectedAt(t, names[1..], 0);
    }
  }

  lemma NothingExpected(t: Tree)
    requires Within([], t)
    ensures ExpectedKids(t, []) == []
  {
  }

  /** A leaf comes back exactly as what the reader is expected to find. */
  lemma LeafBack(t: Tree, f: Found)
    requires t.Leaf? && Good(t)
    ensures ComesBack(t, f) <==> f == Expected(t)
  {
  }

  lemma {:induction false} NodeBack(t: Tree, f: Found)
    requires Good(t)
    ensures ComesBack(t, f) <==> f == ExpectedNode(t)
    decreases t, 1
  {
    hide ExpectedKids, Expected, KidsComeBack;
    if t.Leaf? {
      LeafBack(t, f);
    } else {
      SortedWithin(t);
      KidsBack(t, f.kids);
    }
  }

  lemma {:induction false} KidsBack(t: Tree, kids: seq<(string, Found)>)
    requires t.Folder? && Good(t)
    ensures Within(Sorted(t.kids.Keys), t)
    ensures KidsComeBack(t, kids) <==> kids == ExpectedKids(t, Sorted(t.kids.Keys))
    decreases t, 0
  {
    hide ExpectedKids, ExpectedNode, ComesBack, Within, Good, Lists;
    var names := Sorted(t.kids.Keys);
    SortedWithin(t);
    var found := ExpectedKids(t, names);
    forall i | 0 <= i < |names|
      ensures |found| == |names| && names[i] in t.kids && Good(t.kids[names[i]])
      ensures found[i] == (names[i], ExpectedNode(t.kids[names[i]]))
    {
      ExpectedAt(t, names, i);
    }
    if names == [] {
      NothingExpected(t);
    } else {
      ExpectedAt(t, names, 0);
    }
    if KidsComeBack(t, kids) {
      ListingIsUnique(NamesIn(kids), names, t.kids.Keys);
      forall i | 0 <= i < |kids|
        ensures kids[i] == found[i]
      {
        assert NamesIn(kids)[i] == names[i];
        NodeBack(t.kids[names[i]], kids[i].1);
      }
      assert kids == found;
    }
    if kids == found {
      assert NamesIn(kids) == names;
      forall i | 0 <= i < |kids|
        ensures kids[i].0 in t.kids && ComesBack(t.kids[kids[i].0], kids[i].1)
      {
        NodeBack(t.kids[names[i]], kids[i].1);
      }
    }
  }
}
