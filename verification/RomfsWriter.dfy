/** pkg/romfs/writer.go: offsets first, then the headers that use them. */
module RomfsWriter {
  import opened Names
  import opened RomfsFormat
  import opened RomfsTree

  type Path = seq<string>

  /** The offsets of nodes, known by their paths. */
  datatype Offsets = Offsets(hdr: map<Path, nat>, dot: map<Path, nat>, dotdot: map<Path, nat>, parent: map<Path, nat>)

  // ----- Where child k goes.

  ghost function KidOff(t: Tree, names: seq<string>, at: nat, k: nat): nat
    requires Within(names, t) && k <= |names|
  {
    at + EntriesLen(t, names[..k])
  }

  ghost function SubOff(t: Tree, names: seq<string>, subs: nat, k: nat): nat
    requires Within(names, t) && k <= |names|
  {
    subs + SubsLen(t, names[..k])
  }

  lemma {:induction false} EntriesSnoc(t: Tree, names: seq<string>, x: string)
    requires Within(names + [x], t)
    ensures x in t.kids && Within(names, t) && Good(t.kids[x])
    ensures EntriesLen(t, names + [x]) == EntriesLen(t, names) + EntryLen(x, t.kids[x])
    ensures SubsLen(t, names + [x]) == SubsLen(t, names) + SubLen(t.kids[x])
    decreases |names|
  {
    hide EntryLen, SubLen, EntriesLen, SubsLen;
    assert x in names + [x];
    GoodKid(t, x);
    if names == [] {
      assert [] + [x] == [x] && [x][1..] == [];
      LensStep(t, [x]);
      NoLens(t);
    } else {
      assert (names + [x])[0] == names[0] && (names + [x])[1..] == names[1..] + [x];
      LensStep(t, names + [x]);
      LensStep(t, names);
      EntriesSnoc(t, names[1..], x);
    }
  }

  lemma NoLens(t: Tree)
    requires t.Folder? && Good(t)
    ensures EntriesLen(t, []) == 0 && SubsLen(t, []) == 0
  {
  }

  lemma Mod16(a: nat, n: nat)
    requires n % 16 == 0
    ensures (a + n) % 16 == a % 16
  {
  }

  lemma NextKid(t: Tree, names: seq<string>, at: nat, subs: nat, k: nat)
    requires Within(names, t) && k < |names|
    ensures names[k] in t.kids && GoodName(names[k]) && Good(t.kids[names[k]])
    ensures KidOff(t, names, at, k + 1) == KidOff(t, names, at, k) + EntryLen(names[k], t.kids[names[k]])
    ensures SubOff(t, names, subs, k + 1) == SubOff(t, names, subs, k) + SubLen(t.kids[names[k]])
    ensures KidOff(t, names, at, k) % 16 == at % 16 && SubOff(t, names, subs, k) % 16 == subs % 16
  {
    hide EntryLen, SubLen, EntriesLen, SubsLen, GoodName, Good;
    assert names[k] in names;
    assert names[..k + 1] == names[..k] + [names[k]];
    GoodKid(t, names[k]);
    EntriesSnoc(t, names[..k], names[k]);
    Mod16(at, EntriesLen(t, names[..k]));
    Mod16(subs, SubsLen(t, names[..k]));
  }

  lemma {:induction false} OffsetsAscend(t: Tree, names: seq<string>, at: nat, subs: nat, j: nat, k: nat)
    requires Within(names, t) && j <= k <= |names|
    ensures KidOff(t, names, at, j) <= KidOff(t, names, at, k) && SubOff(t, names, subs, j) <= SubOff(t, names, subs, k)
    decreases k
  {
    hide KidOff, SubOff, EntryLen, SubLen, Within;
    if j < k {
      NextKid(t, names, at, subs, k - 1);
      OffsetsAscend(t, names, at, subs, j, k - 1);
    }
  }

  lemma OffsetEnds(t: Tree, names: seq<string>, at: nat, subs: nat)
    requires Within(names, t)
    ensures KidOff(t, names, at, 0) == at && SubOff(t, names, subs, 0) == subs
    ensures KidOff(t, names, at, |names|) == at + EntriesLen(t, names)
    ensures SubOff(t, names, subs, |names|) == subs + SubsLen(t, names)
  {
    assert names[..|names|] == names && names[..0] == [];
    NoLens(t);
  }

  // ----- The first pass.

  /** The offsets of the directory itself. */
  ghost predicate Own(m: Offsets, path: Path, hdr: nat, list: nat, parent: nat) {
    && path in m.hdr && path in m.dot && path in m.dotdot && path in m.parent
    && m.hdr[path] == hdr && m.dot[path] == list && m.dotdot[path] == list + 32 && m.parent[path] == parent
  }

  /** The offsets of a directory and of everything below it. */
  ghost predicate Laid(m: Offsets, t: Tree, path: Path, hdr: nat, list: nat, parent: nat)
    requires t.Folder? && Good(t)
    decreases t, 2
  {
    var names := Sorted(t.kids.Keys);
    SortedWithin(t);
    && Own(m, path, hdr, list, parent)
    && Level(m, t, names, path, hdr, list + 64, list + 64 + EntriesLen(t, names), |names|, |names|)
  }

  /** The children have headers, and the first done of them are laid out if they are directories. */
  ghost predicate Level(m: Offsets, t: Tree, names: seq<string>, path: Path, hdr: nat, at: nat, subs: nat, heads: nat,
          done: nat)
    requires Within(names, t)
    decreases t, 1
  {
    && done <= heads <= |names|
    && (forall k :: 0 <= k < heads ==> HeadLaid(m, t, names, path, at, k))
    && (forall k :: 0 <= k < done ==> KidLaid(m, t, names, path, hdr, at, subs, k))
  }

  ghost predicate HeadLaid(m: Offsets, t: Tree, names: seq<string>, path: Path, at: nat, k: nat)
    requires Within(names, t) && k < |names|
  {
    path + [names[k]] in m.hdr && m.hdr[path + [names[k]]] == KidOff(t, names, at, k)
  }

  ghost predicate KidLaid(m: Offsets, t: Tree, names: seq<string>, path: Path, hdr: nat, at: nat, subs: nat, k: nat)
    requires Within(names, t) && k < |names|
    decreases t, 0
  {
    KidGood(t, names, k) && (t.kids[names[k]].Folder? ==>
      Laid(m, t.kids[names[k]], path + [names[k]], KidOff(t, names, at, k), SubOff(t, names, subs, k), hdr))
  }

  ghost predicate KidGood(t: Tree, names: seq<string>, k: nat)
    requires Within(names, t)
  {
    k < |names| && names[k] in names && names[k] in t.kids && Good(t.kids[names[k]])
  }

  /** The two agree on every path that starts with a given one. */
  ghost predicate SameBelow(m: Offsets, m': Offsets, path: Path) {
    forall p: Path :: path <= p ==> SameAt(m, m', p)
  }

  /** The two agree on every path that does not. */
  ghost predicate SameAside(m: Offsets, m': Offsets, path: Path) {
    forall p: Path :: !(path <= p) ==> SameAt(m, m', p)
  }

  ghost predicate SameAt(m: Offsets, m': Offsets, p: Path) {
    && (p in m.hdr <==> p in m'.hdr) && (p in m.dot <==> p in m'.dot) && (p in m.dotdot <==> p in m'.dotdot)
    && (p in m.parent <==> p in m'.parent) && (p in m.hdr ==> m.hdr[p] == m'.hdr[p])
      && (p in m.dot ==> m.dot[p] == m'.dot[p])
    && (p in m.dotdot ==> m.dotdot[p] == m'.dotdot[p]) && (p in m.parent ==> m.parent[p] == m'.parent[p])
  }

  lemma BelowKid(m: Offsets, m': Offsets, path: Path, x: string)
    requires SameBelow(m, m', path)
    ensures SameBelow(m, m', path + [x]) && SameAt(m, m', path) && SameAt(m, m', path + [x])
  {
    forall p: Path | path + [x] <= p
      ensures SameAt(m, m', p)
    {
      assert path <= p;
    }
    assert path <= path + [x];
  }

  lemma {:induction false} LaidFrame(m: Offsets, m': Offsets, t: Tree, path: Path, hdr: nat, list: nat, parent: nat)
    requires t.Folder? && Good(t) && Laid(m, t, path, hdr, list, parent) && SameBelow(m, m', path)
    ensures Laid(m', t, path, hdr, list, parent)
    decreases t, 2
  {
    hide EntriesLen, Good, SameBelow, Level, Within;
    var names := Sorted(t.kids.Keys);
    SortedWithin(t);
    BelowKid(m, m', path, "");
    LevelFrame(m, m', t, names, path, hdr, list + 64, list + 64 + EntriesLen(t, names));
  }

  lemma {:induction false} LevelFrame(m: Offsets, m': Offsets, t: Tree, names: seq<string>, path: Path, hdr: nat,
          at: nat, subs: nat)
    requires Within(names, t) && Level(m, t, names, path, hdr, at, subs, |names|, |names|) && SameBelow(m, m', path)
    ensures Level(m', t, names, path, hdr, at, subs, |names|, |names|)
    decreases t, 1
  {
    hide Good, SameBelow, KidLaid, HeadLaid, Within;
    forall k | 0 <= k < |names|
      ensures HeadLaid(m', t, names, path, at, k) && KidLaid(m', t, names, path, hdr, at, subs, k)
    {
      BelowKid(m, m', path, names[k]);
      HeadFrame(m, m', t, names, path, at, k);
      KidFrame(m, m', t, names, path, hdr, at, subs, k);
    }
  }

  lemma HeadFrame(m: Offsets, m': Offsets, t: Tree, names: seq<string>, path: Path, at: nat, k: nat)
    requires Within(names, t) && k < |names| && HeadLaid(m, t, names, path, at, k) && SameAt(m, m', path + [names[k]])
    ensures HeadLaid(m', t, names, path, at, k)
  {
    hide KidOff;
  }

  lemma {:induction false} KidFrame(m: Offsets, m': Offsets, t: Tree, names: seq<string>, path: Path, hdr: nat,
          at: nat, subs: nat, k: nat)
    requires Within(names, t) && k < |names| && KidLaid(m, t, names, path, hdr, at, subs, k)
      && SameBelow(m, m', path + [names[k]])
    ensures KidLaid(m', t, names, path, hdr, at, subs, k)
    decreases t, 0
  {
    hide KidOff, SubOff, Laid, SameBelow, Good;
    if t.kids[names[k]].Folder? {
      LaidFrame(m, m', t.kids[names[k]], path + [names[k]], KidOff(t, names, at, k), SubOff(t, names, subs, k), hdr);
    }
  }

  lemma SameAsideNothing(m: Offsets, path: Path)
    ensures SameAside(m, m, path)
  {
  }

  /** Changes below a path and then below a longer one are changes below the path. */
  lemma AsideChain(a: Offsets, b: Offsets, c: Offsets, path: Path, x: string)
    requires SameAside(a, b, path) && SameAside(b, c, path + [x])
    ensures SameAside(a, c, path)
  {
    forall p: Path | !(path <= p)
      ensures SameAt(a, c, p)
    {
      PrefixShorter(path, x, p);
      assert SameAt(a, b, p) && SameAt(b, c, p);
    }
  }

  lemma PrefixShorter(path: Path, x: string, p: Path)
    ensures path + [x] <= p ==> path <= p
  {
  }

  /** What happens below one child does not concern another, nor the directory itself. */
  lemma AsideSibling(m: Offsets, m': Offsets, path: Path, x: string, y: string)
    requires SameAside(m, m', path + [x])
    ensures x != y ==> SameBelow(m, m', path + [y]) && SameAt(m, m', path + [y])
    ensures SameAt(m, m', path)
  {
    forall p: Path | path + [y] <= p && x != y
      ensures SameAt(m, m', p)
    {
      assert p[|path|] == (path + [y])[|path|] == y;
    }
    assert !(path + [x] <= path);
    if x != y {
      assert path + [y] <= path + [y];
    }
  }

  // ----- One level of the first pass.

  lemma KidIsGood(t: Tree, names: seq<string>, k: nat)
    requires Within(names, t) && k < |names|
    ensures KidGood(t, names, k)
  {
    assert names[k] in names;
    GoodKid(t, names[k]);
  }

  /** After the subtree of child k. */
  lemma LevelMore(m: Offsets, m': Offsets, t: Tree, names: seq<string>, path: Path, hdr: nat, at: nat, subs: nat,
          k: nat)
    requires Within(names, t) && Ordered(names) && Level(m, t, names, path, hdr, at, subs, |names|, k) && k < |names|
    requires SameAside(m, m', path + [names[k]]) && KidGood(t, names, k)
    requires t.kids[names[k]].Folder? ==>
      Laid(m', t.kids[names[k]], path + [names[k]], KidOff(t, names, at, k), SubOff(t, names, subs, k), hdr)
    requires t.kids[names[k]].Leaf? ==> m' == m
    ensures Level(m', t, names, path, hdr, at, subs, |names|, k + 1)
    ensures SameAt(m, m', path)
  {
    hide Laid, SameAside, SameBelow, KidOff, SubOff, KidLaid, HeadLaid, SameAt, Within;
    AsideSibling(m, m', path, names[k], "");
    NewKid(m, m', t, names, path, hdr, at, subs, k);
    forall j | 0 <= j < |names|
      ensures HeadLaid(m', t, names, path, at, j)
      ensures j < k ==> KidLaid(m', t, names, path, hdr, at, subs, j)
    {
      if j != k {
        NamesDiffer(names, j, k);
        AsideSibling(m, m', path, names[k], names[j]);
        HeadFrame(m, m', t, names, path, at, j);
        if j < k {
          KidFrame(m, m', t, names, path, hdr, at, subs, j);
        }
      }
    }
  }

  lemma NewKid(m: Offsets, m': Offsets, t: Tree, names: seq<string>, path: Path, hdr: nat, at: nat, subs: nat, k: nat)
    requires Within(names, t) && k < |names| && KidGood(t, names, k) && HeadLaid(m, t, names, path, at, k)
    requires t.kids[names[k]].Folder? ==>
      Laid(m', t.kids[names[k]], path + [names[k]], KidOff(t, names, at, k), SubOff(t, names, subs, k), hdr)
    requires t.kids[names[k]].Leaf? ==> m' == m
    ensures KidLaid(m', t, names, path, hdr, at, subs, k) && HeadLaid(m', t, names, path, at, k)
  {
    hide KidOff, SubOff;
  }

  lemma NamesDiffer(names: seq<string>, j: nat, k: nat)
    requires Ordered(names) && j < |names| && k < |names| && j != k
    ensures names[j] != names[k]
  {
    assert Before(names[j], names[k]) || Before(names[k], names[j]);
    BeforeOrders(names[j], names[k]);
  }

  /** A whole level lays out its directory. */
  lemma LevelDone(m: Offsets, t: Tree, path: Path, hdr: nat, list: nat, parent: nat)
    requires t.Folder? && Good(t) && Within(Sorted(t.kids.Keys), t)
    requires var names := Sorted(t.kids.Keys);
      Level(m, t, names, path, hdr, list + 64, list + 64 + EntriesLen(t, names), |names|, |names|)
    requires Own(m, path, hdr, list, parent)
    ensures Laid(m, t, path, hdr, list, parent)
  {
    hide KidOff, SubOff, EntriesLen, Good, KidLaid, HeadLaid;
  }

  /** One more header offset. */
  lemma HeadMore(m: Offsets, t: Tree, names: seq<string>, path: Path, hdr: nat, at: nat, subs: nat, k: nat)
    requires Within(names, t) && Ordered(names) && Level(m, t, names, path, hdr, at, subs, k, 0) && k < |names|
    ensures var m' := m.(hdr := m.hdr[path + [names[k]] := KidOff(t, names, at, k)]);
      Level(m', t, names, path, hdr, at, subs, k + 1, 0) && SameAside(m, m', path) && SameAt(m, m', path)
  {
    hide KidOff, Within;
    var m' := m.(hdr := m.hdr[path + [names[k]] := KidOff(t, names, at, k)]);
    forall j | 0 <= j < k + 1
      ensures HeadLaid(m', t, names, path, at, j)
    {
      if j < k {
        NamesDiffer(names, j, k);
        assert (path + [names[j]])[|path|] == names[j] && (path + [names[k]])[|path|] == names[k];
        assert HeadLaid(m, t, names, path, at, j);
      }
    }
  }

  class Layouter {
    var hdrOff: map<Path, nat>
    var dotOff: map<Path, nat>
    var dotdotOff: map<Path, nat>
    var parentHdr: map<Path, nat>

    ghost function M(): Offsets
      reads this
    {
      Offsets(hdrOff, dotOff, dotdotOff, parentHdr)
    }

    constructor ()
      ensures M() == Offsets(map[], map[], map[], map[])
    {
      hdrOff, dotOff, dotdotOff, parentHdr := map[], map[], map[], map[];
    }

    /** The headers of the children and their data, one after the other. */
    method PlaceChildren(t: Tree, names: seq<string>, path: Path, at: nat, ghost m0: Offsets, ghost hdr: nat,
            ghost list: nat,
                         ghost parent: nat, ghost subs: nat) returns (off: nat)
      requires Within(names, t) && Ordered(names)
      requires Level(M(), t, names, path, hdr, at, subs, 0, 0) && SameAside(m0, M(), path)
        && Own(M(), path, hdr, list, parent)
      modifies this`hdrOff
      ensures off == KidOff(t, names, at, |names|)
      ensures Level(M(), t, names, path, hdr, at, subs, |names|, 0) && SameAside(m0, M(), path)
        && Own(M(), path, hdr, list, parent)
    {
      hide Level, SameAside, KidOff, SubOff, Good, Within, EntriesLen, SubsLen, Ordered, EntryLen, SameAt, PaddedName,
           AlignUp;
      off := at;
      OffsetEnds(t, names, at, subs);
      for k := 0 to |names|
        invariant off == KidOff(t, names, at, k)
        invariant Level(M(), t, names, path, hdr, at, subs, k, 0) && SameAside(m0, M(), path)
        invariant Own(M(), path, hdr, list, parent)
      {
        ghost var before := M();
        NextKid(t, names, at, subs, k);
        IsFolder(names, t);
        HeadMore(M(), t, names, path, hdr, at, subs, k);
        OwnSame(M(), path, hdr, list, parent, names[k], off);
        hdrOff := hdrOff[path + [names[k]] := off];
        AsideTwice(m0, before, M(), path);
        off := off + HEADER + PaddedName(names[k]);
        EntryLenIs(names[k], t.kids[names[k]]);
        var sz := |DataOf(t.kids[names[k]])|;
        if sz > 0 {
          off := off + AlignUp(sz);
        }
      }
    }

    /** layoutDir: the next free offset after the whole subtree. */
    method LayoutDir(t: Tree, path: Path, hdr: nat, list: nat, parent: nat) returns (off: nat)
      requires t.Folder? && Good(t)
      modifies this
      ensures off == list + TreeLen(t) && Laid(M(), t, path, hdr, list, parent)
      ensures SameAside(old(M()), M(), path)
      decreases t
    {
      hide Laid, Level, SameAside, KidOff, SubOff, Good, Within, EntriesLen, SubsLen, Ordered, TreeLen, EntryLen;
      ghost var m0 := M();
      hdrOff, parentHdr := hdrOff[path := hdr], parentHdr[path := parent];
      dotOff, dotdotOff := dotOff[path := list], dotdotOff[path := list + HEADER + PaddedName(".")];
      off := dotdotOff[path] + HEADER + PaddedName("..");
      var names := SortNames(t.kids.Keys);
      ghost var at, subs := StartDir(m0, M(), t, path, hdr, list, parent);
      off := PlaceChildren(t, names, path, off, m0, hdr, list, parent, subs);
      OffsetEnds(t, names, at, subs);
      for k := 0 to |names|
        invariant off == SubOff(t, names, subs, k)
        invariant Level(M(), t, names, path, hdr, at, subs, |names|, k) && SameAside(m0, M(), path)
        invariant Own(M(), path, hdr, list, parent)
      {
        ghost var before := M();
        NextKid(t, names, at, subs, k);
        KidIsGood(t, names, k);
        var kid := t.kids[names[k]];
        SameAsideNothing(before, path + [names[k]]);
        SubLenIs(kid);
        if kid.Folder? {
          HeadKnown(M(), t, names, path, hdr, at, subs, k);
          off := LayoutDir(kid, path + [names[k]], hdrOff[path + [names[k]]], off, hdr);
        }
        LevelMore(before, M(), t, names, path, hdr, at, subs, k);
        AsideChain(m0, before, M(), path, names[k]);
      }
      LevelDone(M(), t, path, hdr, list, parent);
      TreeLenIs(t);
    }
  }

  lemma IsFolder(names: seq<string>, t: Tree)
    requires Within(names, t)
    ensures t.Folder?
  {
  }

  lemma OwnSame(m: Offsets, path: Path, hdr: nat, list: nat, parent: nat, x: string, off: nat)
    requires Own(m, path, hdr, list, parent)
    ensures Own(m.(hdr := m.hdr[path + [x] := off]), path, hdr, list, parent)
  {
    assert |path + [x]| != |path|;
  }

  lemma StartDir(m0: Offsets, m: Offsets, t: Tree, path: Path, hdr: nat, list: nat, parent: nat) returns (at: nat,
          subs: nat)
    requires t.Folder? && Good(t)
    requires m == Offsets(m0.hdr[path := hdr], m0.dot[path := list],
      m0.dotdot[path := list + HEADER + PaddedName(".")], m0.parent[path := parent])
    ensures Within(Sorted(t.kids.Keys), t) && Ordered(Sorted(t.kids.Keys))
    ensures at == list + 64 && subs == list + 64 + EntriesLen(t, Sorted(t.kids.Keys))
    ensures Level(m, t, Sorted(t.kids.Keys), path, hdr, at, subs, 0, 0) && SameAside(m0, m, path)
      && Own(m, path, hdr, list, parent)
    ensures PaddedName(".") == 16 && PaddedName("..") == 16 && at == KidOff(t, Sorted(t.kids.Keys), at, 0)
  {
    hide EntriesLen, Good, Within;
    SortedWithin(t);
    at, subs := list + 64, list + 64 + EntriesLen(t, Sorted(t.kids.Keys));
    OffsetEnds(t, Sorted(t.kids.Keys), at, subs);
  }

  lemma AsideTwice(a: Offsets, b: Offsets, c: Offsets, path: Path)
    requires SameAside(a, b, path) && SameAside(b, c, path)
    ensures SameAside(a, c, path)
  {
    forall p: Path | !(path <= p)
      ensures SameAt(a, c, p)
    {
      assert SameAt(a, b, p) && SameAt(b, c, p);
    }
  }

  lemma EntryLenIs(name: string, t: Tree)
    requires Good(t)
    ensures EntryLen(name, t) == HEADER + PaddedName(name) + if |DataOf(t)| > 0 then AlignUp(|DataOf(t)|) else 0
  {
    hide DataOf, PaddedName;
  }

  lemma SubLenIs(t: Tree)
    requires Good(t)
    ensures SubLen(t) == if t.Folder? then TreeLen(t) else 0
  {
  }

  lemma TreeLenIs(t: Tree)
    requires t.Folder? && Good(t)
    ensures Within(Sorted(t.kids.Keys), t)
    ensures TreeLen(t) == 64 + EntriesLen(t, Sorted(t.kids.Keys)) + SubsLen(t, Sorted(t.kids.Keys))
  {
  }

  lemma HeadKnown(m: Offsets, t: Tree, names: seq<string>, path: Path, hdr: nat, at: nat, subs: nat, k: nat)
    requires Within(names, t) && Level(m, t, names, path, hdr, at, subs, |names|, k) && k < |names|
    ensures path + [names[k]] in m.hdr && m.hdr[path + [names[k]]] == KidOff(t, names, at, k)
  {
    assert HeadLaid(m, t, names, path, at, k);
  }
}
