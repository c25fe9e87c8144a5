/** Where a romfs image puts a tree, and what a reader finds there. */
module RomfsTree {
  import opened Sizes
  import opened Modes
  import opened Names
  import opened Bytes
  import opened Text
  import opened RomfsFormat

  /** A tree without shared nodes. */
  datatype Tree = Folder(kids: map<string, Tree>) | Leaf(mode: Mode, link: string, rdev: nat, content: seq<byte>)

  predicate GoodName(name: string) {
    ValidName(name) && ByteString(name)
  }

  /** What the editable image makes sure of: valid names, and directories that are folders. */
  predicate Good(t: Tree) {
    match t
    case Folder(kids) => forall x :: x in kids ==> GoodName(x) && Good(kids[x])
    case Leaf(mode, link, _, _) => mode.kind != Dir && ByteString(link)
  }

  /** Every name in the tree is one that the reader finds as it was written. */
  predicate AllFit(t: Tree) {
    t.Folder? ==> forall x :: x in t.kids ==> Fits(x) && AllFit(t.kids[x])
  }

  // ----- Sizes.

  /** The bytes behind a header. */
  function DataOf(t: Tree): seq<byte>
    requires Good(t)
  {
    if t.Folder? then []
    else if t.mode.kind == Symlink then NameBytes(t.link)
    else if t.mode.kind == Regular then t.content
    else []
  }

  lemma Add16(a: nat, b: nat)
    requires a % 16 == 0 && b % 16 == 0
    ensures (a + b) % 16 == 0
  {
  }

  function EntryLen(name: string, t: Tree): (n: nat)
    requires Good(t)
    ensures n % 16 == 0 && n >= HEADER
  {
    Add16(HEADER, PaddedName(name));
    Add16(HEADER + PaddedName(name), AlignUp(|DataOf(t)|));
    HEADER + PaddedName(name) + AlignUp(|DataOf(t)|)
  }

  /** Names of children. */
  ghost predicate Within(names: seq<string>, t: Tree) {
    t.Folder? && Good(t) && forall x :: x in names ==> x in t.kids
  }

  ghost function EntriesLen(t: Tree, names: seq<string>): (n: nat)
    requires Within(names, t)
    ensures n % 16 == 0
    decreases |names|
  {
    if names == [] then 0
    else
      assert names[0] in names;
      var a, b := EntryLen(names[0], t.kids[names[0]]), EntriesLen(t, names[1..]);
      Add16(a, b);
      a + b
  }

  /** The children lists of the subdirectories. */
  ghost function SubsLen(t: Tree, names: seq<string>): (n: nat)
    requires Within(names, t)
    ensures n % 16 == 0
    decreases t, 0, |names|
  {
    if names == [] then 0
    else
      assert names[0] in names;
      var a, b := SubLen(t.kids[names[0]]), SubsLen(t, names[1..]);
      Add16(a, b);
      a + b
  }

  ghost function SubLen(t: Tree): (n: nat)
    requires Good(t)
    ensures n % 16 == 0
    decreases t, 2
  {
    if t.Folder? then TreeLen(t) else 0
  }

  /** "." and "..", the children and everything below them. */
  ghost function TreeLen(t: Tree): (n: nat)
    requires t.Folder? && Good(t)
    ensures n % 16 == 0 && n >= 64
    decreases t, 1
  {
    SortedWithin(t);
    var a, b := EntriesLen(t, Sorted(t.kids.Keys)), SubsLen(t, Sorted(t.kids.Keys));
    Add16(a, b);
    Add16(64, a + b);
    64 + (a + b)
  }

  lemma SortedWithin(t: Tree)
    requires t.Folder? && Good(t)
    ensures Within(Sorted(t.kids.Keys), t)
  {
    SortedElements(t.kids.Keys);
  }

  // ----- What lies on the device.

  function FlagsOf(t: Tree): (f: nat)
    ensures f < 16
  {
    if t.Folder? then TypeOf(Dir) + FLAG_EXEC
    else TypeOf(t.mode.kind) + if t.mode.kind == Regular && Executable(t.mode.perm) then FLAG_EXEC else 0
  }

  /** The spec field: a directory's children list, a device's numbers. */
  function SpecOf(t: Tree, list: nat): nat {
    if t.Folder? then list
    else if t.mode.kind == CharDevice || t.mode.kind == BlockDevice then DeviceSpec(t.rdev)
    else 0
  }

  ghost predicate DataAt(dev: seq<byte>, off: nat, data: seq<byte>) {
    Slice(dev, off, AlignUp(|data|)) == data + Zeros(AlignUp(|data|) - |data|)
  }

  ghost predicate DirAt(dev: seq<byte>, list: nat, t: Tree, hdr: nat, parent: nat)
    requires t.Folder? && Good(t)
    decreases t, 1
  {
    var names := Sorted(t.kids.Keys);
    SortedWithin(t);
    && EntryAt(dev, list, ".", list + 32, TYPE_HARDLINK, hdr, 0)
    && EntryAt(dev, list + 32, "..", FirstOff(names, list + 64), TYPE_HARDLINK, parent, 0)
    && KidsAt(dev, t, names, list + 64, list + 64 + EntriesLen(t, names), hdr)
  }

  function FirstOff(names: seq<string>, at: nat): nat {
    if names == [] then 0 else at
  }

  ghost predicate KidsAt(dev: seq<byte>, t: Tree, names: seq<string>, at: nat, subs: nat, hdr: nat)
    requires Within(names, t)
    decreases t, 0, |names|
  {
    names == [] ||
    (assert names[0] in names;
     var name, kid := names[0], t.kids[names[0]];
     && EntryAt(dev, at, name, FirstOff(names[1..], at + EntryLen(name, kid)), FlagsOf(kid), SpecOf(kid, subs),
       |DataOf(kid)|)
     && DataAt(dev, at + HEADER + PaddedName(name), DataOf(kid))
     && (kid.Folder? ==> DirAt(dev, subs, kid, at, hdr))
     && KidsAt(dev, t, names[1..], at + EntryLen(name, kid), subs + SubLen(kid), hdr))
  }

  // ----- What a reader finds.

  function Expected(t: Tree): Found
    requires Good(t) && t.Leaf?
  {
    var k := t.mode.kind;
    Found(ModeOf(TypeOf(k), k == Regular && Executable(t.mode.perm)), if k == Symlink then t.link else "",
          if k == CharDevice || k == BlockDevice then t.rdev % TWO24 else 0, if k == Regular then t.content else [], [])
  }

  ghost function ExpectedKids(t: Tree, names: seq<string>): seq<(string, Found)>
    requires Within(names, t)
    decreases t, 0, |names|
  {
    if names == [] then []
    else
      assert names[0] in names;
      [(names[0], ExpectedNode(t.kids[names[0]]))] + ExpectedKids(t, names[1..])
  }

  ghost function ExpectedNode(t: Tree): Found
    requires Good(t)
    decreases t, 1
  {
    if t.Leaf? then Expected(t)
    else
      SortedWithin(t);
      Found(Mode(Dir, 0x1ED, 0), "", 0, [], ExpectedKids(t, Sorted(t.kids.Keys)))
  }

  lemma FlagsRead(next: nat, t: Tree)
    requires next % 16 == 0
    ensures var h := Head(next + FlagsOf(t), 0, 0);
      && h.Type() == TypeOf(if t.Folder? then Dir else t.mode.kind) && Mask(h.next) == next
      && (h.Exec() <==> t.Folder? || (t.mode.kind == Regular && Executable(t.mode.perm)))
  {
    hide Executable;
    LowBits(next, FlagsOf(t));
  }

  lemma LowBits(next: nat, f: nat)
    requires next % 16 == 0 && f < 16
    ensures (next + f) % 8 == f % 8 && (next + f) / 8 % 2 == f / 8 && (next + f) / 16 * 16 == next
  {
    var q := next / 16;
    assert next == 16 * q;
    assert (16 * q + f) / 8 == 2 * q + f / 8;
  }

  lemma DataReads(dev: seq<byte>, off: nat, data: seq<byte>)
    requires DataAt(dev, off, data)
    ensures Slice(dev, off, |data|) == data
  {
    hide Slice;
    var s := data + Zeros(AlignUp(|data|) - |data|);
    SubSlice(dev, off, s, 0, |data|);
    assert s[0..|data|] == data;
  }

  /** A leaf read where it lies. */
  lemma LeafReads(dev: seq<byte>, off: nat, name: string, t: Tree, next: nat, fuel: nat)
    requires Good(t) && t.Leaf? && next < TWO32 && next % 16 == 0 && |DataOf(t)| < TWO32
    requires EntryAt(dev, off, name, next, FlagsOf(t), SpecOf(t, 0), |DataOf(t)|)
    requires DataAt(dev, off + HEADER + PaddedName(name), DataOf(t))
    ensures ReadNode(dev, off, name, fuel) == Read(Expected(t))
  {
    hide Slice, EntryBytes, FlagsOf, DataAt, StringOf, NameBytes, DeviceOf, Executable;
    FlagsFit(t);
    SpecFits(t);
    HeadReads(dev, off, name, next, FlagsOf(t), SpecOf(t, 0), |DataOf(t)|);
    FlagsRead(next, t);
    DataReads(dev, off + HEADER + PaddedName(name), DataOf(t));
    if t.mode.kind == Symlink {
      StringRead(t.link);
    }
    DeviceReads(t.rdev);
    HeadFits(dev, off);
  }

  lemma FlagsFit(t: Tree)
    ensures FlagsOf(t) < 16
  {
  }

  lemma SpecFits(t: Tree)
    requires Good(t)
    ensures SpecOf(t, 0) < TWO32
  {
  }

  /** A directory is read, the chain and the descent ending; if all names fit, its children come back
      in order. */
  lemma {:induction false} DirReads(dev: seq<byte>, list: nat, t: Tree, hdr: nat, parent: nat, fuel: nat)
    requires t.Folder? && Good(t) && DirAt(dev, list, t, hdr, parent)
    requires 0 < list && list % 16 == 0 && list + TreeLen(t) < TWO32 && hdr < TWO32 && parent < TWO32
      && fuel >= TreeLen(t)
    ensures Within(Sorted(t.kids.Keys), t)
    ensures ReadChain(dev, list, {}, fuel).Read?
    ensures AllFit(t) ==> ReadChain(dev, list, {}, fuel) == Read(ExpectedKids(t, Sorted(t.kids.Keys)))
    decreases t, 1
  {
    hide Slice, EntryBytes, KidsAt, ReadNode, EntriesLen, SubsLen, Within, Good, NameAt, HeadAt, Shown, AllFit;
    var names := Sorted(t.kids.Keys);
    SortedWithin(t);
    DotsAreGood();
    var first := FirstOff(names, list + 64);
    HeadReads(dev, list, ".", list + 32, TYPE_HARDLINK, hdr, 0);
    NameReads(dev, list, ".", list + 32, TYPE_HARDLINK, hdr, 0);
    HeadReads(dev, list + 32, "..", first, TYPE_HARDLINK, parent, 0);
    NameReads(dev, list + 32, "..", first, TYPE_HARDLINK, parent, 0);
    KidsRead(dev, t, names, list + 64, list + 64 + EntriesLen(t, names), hdr, {list, list + 32}, fuel);
    SkipDots(dev, list, {}, fuel, list + 32, hdr);
    SkipDots(dev, list + 32, {list}, fuel, first, parent);
    assert {} + {list} == {list} && {list} + {list + 32} == {list, list + 32};
  }

  lemma DotsAreGood()
    ensures ByteString(".") && Shown(".") == "." && ByteString("..") && Shown("..") == ".."
  {
    ShownIsName(".");
    ShownIsName("..");
  }

  /** The reader passes over "." and "..". */
  lemma SkipDots(dev: seq<byte>, off: nat, seen: set<nat>, fuel: nat, next: nat, spec: nat)
    requires 0 < off < TWO32 && off % 16 == 0 && off !in seen && next < TWO32 && next % 16 == 0
    requires HeadAt(dev, off) == Head(next, spec, 0)
      && (NameAt(dev, off + HEADER) == "." || NameAt(dev, off + HEADER) == "..")
    ensures ReadChain(dev, off, seen, fuel) == ReadChain(dev, next, seen + {off}, fuel)
  {
    hide HeadAt, NameAt, ReadNode;
    assert Mask(next) == next;
  }

  lemma {:induction false} KidsRead(dev: seq<byte>, t: Tree, names: seq<string>, at: nat, subs: nat, hdr: nat,
          seen: set<nat>, fuel: nat)
    requires Within(names, t) && KidsAt(dev, t, names, at, subs, hdr)
    requires 0 < at && at % 16 == 0 && subs % 16 == 0 && at + EntriesLen(t, names) <= subs && hdr < TWO32
    requires subs + SubsLen(t, names) < TWO32 && fuel > SubsLen(t, names) && forall s :: s in seen ==> s < at
    ensures ReadChain(dev, FirstOff(names, at), seen, fuel).Read?
    ensures AllFit(t) ==> ReadChain(dev, FirstOff(names, at), seen, fuel) == Read(ExpectedKids(t, names))
    decreases t, 0, |names|
  {
    hide Slice, EntryBytes, ReadNode, NameAt, HeadAt, EntryAt, DirAt, DataAt, FlagsOf, Expected, PaddedName, Good,
         EntryLen, EntriesLen, SubsLen, SubLen, KidsAt, ReadChain, DataOf, Within, ExpectedKids, ExpectedNode, SpecOf,
         AlignUp, GoodName, AllFit, Shown;
    WithinStep(t, names);
    ChainEnds(dev, seen, fuel);
    if names != [] {
      var name, kid := names[0], t.kids[names[0]];
      GoodKid(t, name);
      LensStep(t, names);
      KidsStep(dev, t, names, at, subs, hdr);
      var len := EntryLen(name, kid);
      var next := FirstOff(names[1..], at + len);
      Add16(at, len);
      Add16(subs, SubLen(kid));
      KidRead(dev, at, name, kid, subs, hdr, next, fuel);
      KidsRead(dev, t, names[1..], at + len, subs + SubLen(kid), hdr, seen + {at}, fuel);
      TakeKid(dev, at, seen, fuel, next, name);
      if AllFit(t) {
        FitKid(t, name);
      }
    }
  }

  lemma FitKid(t: Tree, name: string)
    requires t.Folder? && AllFit(t) && name in t.kids
    ensures Fits(name) && Shown(name) == name && AllFit(t.kids[name])
  {
    ShownIsName(name);
  }

  lemma ChainEnds(dev: seq<byte>, seen: set<nat>, fuel: nat)
    ensures ReadChain(dev, 0, seen, fuel) == Read([])
  {
  }

  lemma WithinStep(t: Tree, names: seq<string>)
    requires Within(names, t)
    ensures t.Folder? && Good(t) && (names != [] ==> names[0] in t.kids && Within(names[1..], t))
    ensures ExpectedKids(t, names) ==
      if names == [] then [] else [(names[0], ExpectedNode(t.kids[names[0]]))] + ExpectedKids(t, names[1..])
  {
    if names != [] {
      assert names[0] in names;
    }
  }

  lemma LensStep(t: Tree, names: seq<string>)
    requires Within(names, t) && names != []
    ensures names[0] in t.kids && Good(t.kids[names[0]]) && Within(names[1..], t)
    ensures EntriesLen(t, names) == EntryLen(names[0], t.kids[names[0]]) + EntriesLen(t, names[1..])
    ensures SubsLen(t, names) == SubLen(t.kids[names[0]]) + SubsLen(t, names[1..])
    ensures |DataOf(t.kids[names[0]])| <= EntryLen(names[0], t.kids[names[0]])
    ensures EntryLen(names[0], t.kids[names[0]]) == HEADER + PaddedName(names[0]) + AlignUp(|DataOf(t.kids[names[0]])|)
  {
    hide AlignUp, PaddedName, SubLen, DataOf;
    assert names[0] in names;
  }

  lemma KidsStep(dev: seq<byte>, t: Tree, names: seq<string>, at: nat, subs: nat, hdr: nat)
    requires Within(names, t) && names != []
    ensures names[0] in t.kids && Good(t.kids[names[0]]) && Within(names[1..], t)
    ensures var name, kid := names[0], t.kids[names[0]];
      KidsAt(dev, t, names, at, subs, hdr) <==>
      && EntryAt(dev, at, name, FirstOff(names[1..], at + EntryLen(name, kid)), FlagsOf(kid), SpecOf(kid, subs),
        |DataOf(kid)|)
      && DataAt(dev, at + HEADER + PaddedName(name), DataOf(kid))
      && (kid.Folder? ==> DirAt(dev, subs, kid, at, hdr))
      && KidsAt(dev, t, names[1..], at + EntryLen(name, kid), subs + SubLen(kid), hdr)
  {
    hide EntryAt, DataAt, DirAt, EntryLen, FlagsOf, SpecOf, SubLen, PaddedName, DataOf;
    assert names[0] in names;
  }

  lemma GoodKid(t: Tree, name: string)
    requires t.Folder? && Good(t) && name in t.kids
    ensures GoodName(name) && ValidName(name) && Good(t.kids[name])
  {
  }

  /** One child: its header, the name that is seen of it and its node. The name that is seen decides
      where the reader looks for the data. */
  lemma {:induction false} KidRead(dev: seq<byte>, at: nat, name: string, kid: Tree, subs: nat, hdr: nat, next: nat,
          fuel: nat)
    requires Good(kid) && GoodName(name) && next < TWO32 && next % 16 == 0 && at < TWO32 && at % 16 == 0 && hdr < TWO32
    requires subs > 0 && subs % 16 == 0 && subs + SubLen(kid) < TWO32 && fuel > SubLen(kid)
    requires EntryAt(dev, at, name, next, FlagsOf(kid), SpecOf(kid, subs), |DataOf(kid)|) && |DataOf(kid)| < TWO32
    requires DataAt(dev, at + HEADER + PaddedName(name), DataOf(kid))
    requires kid.Folder? ==> DirAt(dev, subs, kid, at, hdr)
    ensures NameAt(dev, at + HEADER) == Shown(name) && Mask(HeadAt(dev, at).next) == next
    ensures ReadNode(dev, at, Shown(name), fuel).Read?
    ensures Fits(name) && AllFit(kid) ==> ReadNode(dev, at, name, fuel) == Read(ExpectedNode(kid))
    decreases kid, 2
  {
    hide Slice, EntryBytes, NameAt, HeadAt, DirAt, DataAt, FlagsOf, Expected, Good, Shown, AllFit, ReadChain, ReadNode;
    FlagsFit(kid);
    SpecFits(kid);
    HeadReads(dev, at, name, next, FlagsOf(kid), SpecOf(kid, subs), |DataOf(kid)|);
    NameReads(dev, at, name, next, FlagsOf(kid), SpecOf(kid, subs), |DataOf(kid)|);
    FlagsRead(next, kid);
    ShownIsName(name);
    if kid.Leaf? {
      LeafFound(dev, at, Shown(name), kid, next, fuel);
      LeafReads(dev, at, name, kid, next, fuel);
    } else {
      DirReads(dev, subs, kid, at, hdr, fuel - 1);
      FolderFound(dev, at, Shown(name), kid, next, subs, fuel);
    }
  }

  /** A folder is read under any name. */
  lemma FolderFound(dev: seq<byte>, off: nat, name: string, t: Tree, next: nat, list: nat, fuel: nat)
    requires Good(t) && t.Folder? && next % 16 == 0 && HeadAt(dev, off).next == next + FlagsOf(t)
    requires HeadAt(dev, off).spec == list && list < TWO32 && list % 16 == 0 && fuel > 0
    requires ReadChain(dev, list, {}, fuel - 1).Read? && Within(Sorted(t.kids.Keys), t)
    ensures ReadNode(dev, off, name, fuel).Read?
    ensures ReadChain(dev, list, {}, fuel - 1) == Read(ExpectedKids(t, Sorted(t.kids.Keys))) ==>
      ReadNode(dev, off, name, fuel) == Read(ExpectedNode(t))
  {
    hide Slice, HeadAt, FlagsOf, DeviceOf, Executable, ReadChain, Good, Within, ExpectedKids;
    FlagsRead(next, t);
    HeadFits(dev, off);
    assert Mask(list) == list;
  }

  /** A leaf is read under any name. */
  lemma LeafFound(dev: seq<byte>, off: nat, name: string, t: Tree, next: nat, fuel: nat)
    requires Good(t) && t.Leaf? && next % 16 == 0 && HeadAt(dev, off).next == next + FlagsOf(t)
    ensures ReadNode(dev, off, name, fuel).Read?
  {
    hide Slice, HeadAt, FlagsOf, DeviceOf, Executable;
    FlagsRead(next, t);
    HeadFits(dev, off);
  }

  lemma TakeKid(dev: seq<byte>, off: nat, seen: set<nat>, fuel: nat, next: nat, name: string)
    requires 0 < off < TWO32 && off % 16 == 0 && off !in seen && next < TWO32 && next % 16 == 0 && ValidName(name)
    requires NameAt(dev, off + HEADER) == Shown(name) && Mask(HeadAt(dev, off).next) == next
    requires ReadNode(dev, off, Shown(name), fuel).Read? && ReadChain(dev, next, seen + {off}, fuel).Read?
    ensures ReadChain(dev, off, seen, fuel).Read?
    ensures Fits(name) ==>
      var kid, rest := ReadNode(dev, off, Shown(name), fuel).value, ReadChain(dev, next, seen + {off}, fuel).value;
      ReadChain(dev, off, seen, fuel) == Read([(name, kid)] + rest)
  {
    hide HeadAt, NameAt, ReadNode, Shown;
    ShownIsName(name);
    assert Shown(name) <= name;
  }

  // ----- Names that do not fit are never found.

  predicate NamesFit(kids: seq<(string, Found)>) {
    forall k :: 0 <= k < |kids| ==> KidFits(kids[k])
  }

  predicate KidFits(kid: (string, Found)) {
    Fits(kid.0) && forall k :: 0 <= k < |kid.1.kids| ==> KidFits(kid.1.kids[k])
  }

  /** Whatever is on the device, the names that a reader finds have no NUL and 256 bytes at most. */
  lemma {:induction false} ChainFits(dev: seq<byte>, off: nat, seen: set<nat>, fuel: nat)
    requires off < TWO32 && off % 16 == 0 && ReadChain(dev, off, seen, fuel).Read?
    ensures NamesFit(ReadChain(dev, off, seen, fuel).value)
    decreases fuel, 1, Places() - seen
  {
    hide HeadAt, NameAt, ReadNode;
    if off != 0 && off !in seen {
      assert off in Places();
      var h, name := HeadAt(dev, off), NameAt(dev, off + HEADER);
      HeadFits(dev, off);
      ChainFits(dev, Mask(h.next), seen + {off}, fuel);
      if name != "." && name != ".." && name != "" {
        NodeFits(dev, off, name, fuel);
        NameFits(dev, off + HEADER);
      }
    }
  }

  lemma {:induction false} NodeFits(dev: seq<byte>, off: nat, name: string, fuel: nat)
    requires ReadNode(dev, off, name, fuel).Read?
    ensures NamesFit(ReadNode(dev, off, name, fuel).value.kids)
    decreases fuel, 0
  {
    hide HeadAt, NameAt, ReadChain, Slice, StringOf, DeviceOf, PaddedName;
    var h := HeadAt(dev, off);
    HeadFits(dev, off);
    if h.Type() == TYPE_HARDLINK {
      NodeFits(dev, Mask(h.spec), name, fuel - 1);
    } else if ModeOf(h.Type(), h.Exec()).kind == Dir {
      ChainFits(dev, Mask(h.spec), {}, fuel - 1);
    }
  }

  lemma NameFits(dev: seq<byte>, off: nat)
    ensures Fits(NameAt(dev, off))
  {
    hide Slice;
    TrimmedFits(Slice(dev, off % TWO32, MAX_NAME));
  }

  lemma {:induction false} TrimmedFits(b: seq<byte>)
    ensures |TrimNul(b)| <= |b| && NoNul(TrimNul(b))
  {
    if b != [] && b[0] != 0 {
      TrimmedFits(b[1..]);
    }
  }

  /** So a tree with another name is not what a reader can find. */
  lemma {:induction false} ExpectedFits(t: Tree, names: seq<string>)
    requires Within(names, t) && NamesFit(ExpectedKids(t, names))
    ensures forall x :: x in names ==> Fits(x) && AllFit(t.kids[x])
    decreases t, 0, |names|
  {
    hide Within, Good, Fits, ExpectedKids, ExpectedNode;
    WithinStep(t, names);
    if names != [] {
      var kids := ExpectedKids(t, names);
      assert kids[0] == (names[0], ExpectedNode(t.kids[names[0]])) && kids[1..] == ExpectedKids(t, names[1..]);
      GoodKid(t, names[0]);
      ExpectedFits(t, names[1..]);
      NodeExpected(t.kids[names[0]]);
      assert forall x :: x in names ==> x == names[0] || x in names[1..];
    }
  }

  lemma {:induction false} NodeExpected(t: Tree)
    requires Good(t) && NamesFit(ExpectedNode(t).kids)
    ensures AllFit(t)
    decreases t, 1
  {
    hide Good, Fits, ExpectedKids;
    if t.Folder? {
      SortedWithin(t);
      SortedElements(t.kids.Keys);
      ExpectedFits(t, Sorted(t.kids.Keys));
    }
  }
}
