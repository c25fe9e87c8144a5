/** pkg/oci/flatten.go: replaying layer entries by changing a tree of nodes in place. */
module OciApply {
  import opened Options
  import opened Names
  import opened OciTrees
  import opened OciLayer
  import opened OciDiffProof

  // ----- On values: records applied in order, stopping at a bad name.

  function ApplyRecords(t: Tree, records: seq<Record>): Option<Tree>
    decreases |records|
  {
    if records == [] then Some(t)
    else
      match Parse(records[0])
      case Skip => ApplyRecords(t, records[1..])
      case BadName => None
      case Apply(i) => ApplyRecords(ApplyItem(t, i.path, i.payload), records[1..])
  }

  ghost predicate AllEmitted(items: seq<Item>) {
    forall i :: i in items ==> FilePath(i.path) && Emitted(i.payload)
  }

  lemma {:induction false} RenderedApplied(t: Tree, items: seq<Item>)
    requires Writable(items) && AllEmitted(items)
    ensures ApplyRecords(t, RenderedAll([], items)) == Some(ApplyAll(t, items))
    decreases |items|
  {
    hide Parse, Rendered, ApplyItem;
    if items != [] {
      assert items[0] in items;
      assert [] + items[0].path == items[0].path;
      ParseRendered([], items[0]);
      RenderedApplied(ApplyItem(t, items[0].path, items[0].payload), items[1..]);
    }
  }

  lemma EmittedUnder(x: string, items: seq<Item>)
    requires FileName(x) && AllEmitted(items)
    ensures AllEmitted(Under(x, items))
  {
    hide FileName, Emitted;
    var u := Under(x, items);
    forall i | i in u
      ensures FilePath(i.path) && Emitted(i.payload)
    {
      var k :| 0 <= k < |u| && u[k] == i;
      assert items[k] in items;
      assert i.path == [x] + items[k].path;
    }
  }

  lemma {:induction false} SubtreeEmitted(n: Tree, x: string)
    requires FileName(x) && WellFormed(n)
    ensures AllEmitted(Subtree(n, x))
    decreases n, 1, 0
  {
    hide FileName;
    if n.IsDir() {
      SubtreeKidsEmitted(n, Sorted(n.kids.Keys));
      EmittedUnder(x, SubtreeKids(n, Sorted(n.kids.Keys)));
    }
  }

  lemma {:induction false} SubtreeKidsEmitted(n: Tree, names: seq<string>)
    requires WellFormed(n) && forall x :: x in names ==> x in n.kids
    ensures AllEmitted(SubtreeKids(n, names))
    decreases n, 0, |names|
  {
    hide FileName, FilePath, Emitted;
    if names != [] {
      assert names[0] in names;
      SubtreeEmitted(n.kids[names[0]], names[0]);
      SubtreeKidsEmitted(n, names[1..]);
    }
  }

  /** Everything in a diff of well-formed trees survives being written and parsed. */
  lemma {:induction false} DiffEmitted(o: Tree, n: Tree)
    requires WellFormed(o) && WellFormed(n)
    ensures AllEmitted(Diff(o, n))
    decreases n, 2, 0
  {
    hide AllEmitted;
    SortedElements(o.kids.Keys + n.kids.Keys);
    DiffNamesEmitted(o, n, Sorted(o.kids.Keys + n.kids.Keys));
  }

  lemma {:induction false} DiffNamesEmitted(o: Tree, n: Tree, names: seq<string>)
    requires WellFormed(o) && WellFormed(n) && forall x :: x in names ==> x in o.kids || x in n.kids
    ensures AllEmitted(DiffNames(o, n, names))
    decreases n, 1, |names|
  {
    hide FileName, FilePath, Emitted, DiffName;
    if names != [] {
      assert names[0] in names;
      DiffNameEmitted(o, n, names[0]);
      DiffNamesEmitted(o, n, names[1..]);
    }
  }

  lemma {:induction false} DiffNameEmitted(o: Tree, n: Tree, x: string)
    requires WellFormed(o) && WellFormed(n) && (x in o.kids || x in n.kids)
    ensures AllEmitted(DiffName(o, n, x))
    decreases n, 0, 0
  {
    hide FileName, Changed, Subtree, Diff;
    if x in n.kids {
      SubtreeEmitted(n.kids[x], x);
      if x in o.kids {
        DiffEmitted(o.kids[x], n.kids[x]);
        EmittedUnder(x, Diff(o.kids[x], n.kids[x]));
      }
    }
  }

  /** The layer written for the pair, replayed on the old tree, gives the new one: if and only if the
      pair is faithful, and never fails. */
  lemma LayerRoundTrip(o: Tree, n: Tree)
    requires WellFormed(o) && WellFormed(n)
    ensures var r := ApplyRecords(o, RenderedAll([], Diff(o, n)));
      r.Some? && (ViewKids(r.value) == ViewKids(n) <==> Faithful(o, n))
  {
    DiffEmitted(o, n);
    RenderedApplied(o, Diff(o, n));
    DiffRoundTrip(o, n);
  }
}
