/** pkg/image/mem.go: the editable in-memory image. */
module MemImage {
  import opened Bytes
  import opened Names
  import opened ImageGraph

  class Node {
    ghost const id: nat
    var inode: Inode
    var nlink: int
    var children: seq<Child>

    constructor (inode: Inode, nlink: int, ghost id: nat)
      ensures this.inode == inode && this.nlink == nlink && children == [] && this.id == id
    {
      this.inode, this.nlink, this.children, this.id := inode, nlink, [], id;
    }

    predicate IsDir()
      reads this
    {
      DirBit in inode.meta.types
    }
  }

  datatype Child = Child(name: string, node: Node)

  datatype Error = BadName | Exists | NotExist | NotDir | NotEmpty

  datatype Result<T> = Ok(value: T) | Err(error: Error)

  ghost function EntriesOf(cs: seq<Child>): (es: seq<Entry>)
    ensures |es| == |cs| && forall i :: 0 <= i < |cs| ==> es[i] == Entry(cs[i].name, cs[i].node.id)
  {
    seq(|cs|, i requires 0 <= i < |cs| => Entry(cs[i].name, cs[i].node.id))
  }

  ghost function RecordOf(n: Node): Record
    reads n
  {
    Record(n.inode, n.nlink, EntriesOf(n.children))
  }

  ghost function Records(all: seq<Node>): (rs: seq<Record>)
    reads all
    ensures |rs| == |all| && forall i :: 0 <= i < |all| ==> rs[i] == RecordOf(all[i])
  {
    seq(|all|, i requires 0 <= i < |all| reads all => RecordOf(all[i]))
  }

  /** Every child is one of all, and knows its place there. */
  ghost predicate Closed(all: seq<Node>)
    reads all
  {
    && (forall i :: 0 <= i < |all| ==> all[i].id == i)
    && (forall i :: 0 <= i < |all| ==> KnownAll(all, all[i].children))
  }

  ghost predicate KnownAll(all: seq<Node>, cs: seq<Child>) {
    forall j :: 0 <= j < |cs| ==> Known(all, cs[j].node)
  }

  ghost predicate Known(all: seq<Node>, n: Node) {
    n.id < |all| && all[n.id] == n
  }

  lemma EntriesMore(cs: seq<Child>, c: Child)
    ensures EntriesOf(cs + [c]) == EntriesOf(cs) + [Entry(c.name, c.node.id)]
  {
  }

  lemma EntriesLess(cs: seq<Child>, k: nat)
    requires k < |cs|
    ensures EntriesOf(cs[..k] + cs[k + 1..]) == EntriesOf(cs)[..k] + EntriesOf(cs)[k + 1..]
  {
  }

  /** The records after d got one more child, a new one, and perhaps one more link. */
  lemma NewRecords(all: seq<Node>, rs: seq<Record>, d: Node, name: string, n: Node, links: int)
    requires |rs| == |all| && n.id == |rs| && d.id < |all| && all[d.id] == d
    requires forall i :: 0 <= i < |all| && i != d.id ==> RecordOf(all[i]) == rs[i]
    requires |d.children| > 0 && d.children[|d.children| - 1] == Child(name, n)
    requires rs[d.id] == Record(d.inode, d.nlink - links, EntriesOf(d.children[..|d.children| - 1]))
    ensures Records(all + [n]) == Entered(rs + [RecordOf(n)], d.id, Entry(name, n.id), links)
  {
    var cs := d.children[..|d.children| - 1];
    EntriesMore(cs, Child(name, n));
    assert d.children == cs + [Child(name, n)];
    assert Records(all + [n])[d.id] == RecordOf(d);
  }

  /** Known nodes stay known. */
  lemma NewClosed(all: seq<Node>, d: Node, name: string, n: Node)
    requires n.id == |all| && d.id < |all| && all[d.id] == d && n.children == []
    requires forall i :: 0 <= i < |all| ==> all[i].id == i
    requires forall i :: 0 <= i < |all| && i != d.id ==> KnownAll(all, all[i].children)
    requires |d.children| > 0 && d.children[|d.children| - 1] == Child(name, n)
    requires KnownAll(all, d.children[..|d.children| - 1])
    ensures Closed(all + [n])
  {
    var more, cs := all + [n], d.children[..|d.children| - 1];
    forall i | 0 <= i < |more|
      ensures KnownAll(more, more[i].children)
    {
      if i == d.id {
        assert d.children == cs + [Child(name, n)];
        KnownMore(all, n, cs);
      } else if i < |all| {
        KnownMore(all, n, all[i].children);
      }
    }
  }

  lemma KnownMore(all: seq<Node>, n: Node, cs: seq<Child>)
    requires KnownAll(all, cs)
    ensures KnownAll(all + [n], cs)
  {
    forall j | 0 <= j < |cs|
      ensures Known(all + [n], cs[j].node)
    {
      assert Known(all, cs[j].node);
    }
  }

  lemma LinkedRecords(all: seq<Node>, rs: seq<Record>, odd: map<nat, nat>, d: Node, name: string, n: Node)
    requires |rs| == |all| && n.id < |all| && all[n.id] == n && d.id < |all| && all[d.id] == d && n != d
    requires forall i :: 0 <= i < |all| && i != d.id && i != n.id ==> RecordOf(all[i]) == rs[i]
    requires |d.children| > 0 && d.children[|d.children| - 1] == Child(name, n)
    requires rs[d.id] == Record(d.inode, d.nlink, EntriesOf(d.children[..|d.children| - 1]))
    requires RecordOf(n) == rs[n.id].(nlink := rs[n.id].nlink + 1)
    ensures State(Records(all), odd) == AfterLink(State(rs, odd), d.id, name, n.id)
  {
    var cs := d.children[..|d.children| - 1];
    EntriesMore(cs, Child(name, n));
    assert d.children == cs + [Child(name, n)];
    assert Records(all)[d.id] == RecordOf(d);
  }

  lemma LinkedClosed(all: seq<Node>, d: Node, name: string, n: Node)
    requires d.id < |all| && all[d.id] == d && Known(all, n)
    requires forall i :: 0 <= i < |all| ==> all[i].id == i
    requires forall i :: 0 <= i < |all| && i != d.id ==> KnownAll(all, all[i].children)
    requires |d.children| > 0 && d.children[|d.children| - 1] == Child(name, n)
    requires KnownAll(all, d.children[..|d.children| - 1])
    ensures Closed(all)
  {
    var cs := d.children[..|d.children| - 1];
    assert d.children == cs + [Child(name, n)];
    assert KnownAll(all, d.children);
  }

  lemma RemovedRecords(all: seq<Node>, rs: seq<Record>, odd: map<nat, nat>, d: Node, cs: seq<Child>,
                       k: nat, n: Node, links: int)
    requires |rs| == |all| && n.id < |all| && all[n.id] == n && d.id < |all| && all[d.id] == d && n != d
    requires forall i :: 0 <= i < |all| && i != d.id && i != n.id ==> RecordOf(all[i]) == rs[i]
    requires k < |cs| && cs[k].node == n && d.children == cs[..k] + cs[k + 1..]
    requires rs[d.id] == Record(d.inode, d.nlink + links, EntriesOf(cs))
    requires RecordOf(n) == rs[n.id].(nlink := rs[n.id].nlink - 1)
    requires links == if n.IsDir() then 1 else 0
    ensures State(Records(all), odd) == AfterRemove(State(rs, odd), d.id, k)
  {
    EntriesLess(cs, k);
    assert Records(all)[d.id] == RecordOf(d);
  }

  lemma RemovedClosed(all: seq<Node>, d: Node, cs: seq<Child>, k: nat)
    requires d.id < |all| && all[d.id] == d
    requires forall i :: 0 <= i < |all| ==> all[i].id == i
    requires forall i :: 0 <= i < |all| && i != d.id ==> KnownAll(all, all[i].children)
    requires k < |cs| && KnownAll(all, cs) && d.children == cs[..k] + cs[k + 1..]
    ensures Closed(all)
  {
    forall j | 0 <= j < |d.children|
      ensures Known(all, d.children[j].node)
    {
      assert d.children[j] == cs[if j < k then j else j + 1];
      assert Known(all, cs[if j < k then j else j + 1].node);
    }
    assert KnownAll(all, d.children);
  }

  ghost function RemoveResult(s: State, d: nat, name: string): Result<()>
    requires d < |s.nodes|
  {
    var es := s.nodes[d].children;
    if !Present(es, name) then Err(NotExist)
    else if CanRemove(s, d, IndexOf(es, name)) then Ok(())
    else Err(NotEmpty)
  }

  function TypedMeta(meta: Meta, types: set<TypeBit>): (m: Meta)
    ensures m.types == types && m.perm == meta.perm && m.uid == meta.uid && m.gid == meta.gid
    ensures m.xattrs == meta.xattrs
  {
    meta.(types := types)
  }

  /** Mknod: the type bits are taken as they are if one of them is special. */
  function DeviceTypes(types: set<TypeBit>): (kept: set<TypeBit>)
    ensures kept == types <==> types * SPECIAL != {} || types == {DeviceBit}
    ensures kept != types ==> kept == {DeviceBit}
  {
    if types * SPECIAL == {} then {DeviceBit} else types
  }

  class Mem {
    const root: Node
    ghost var all: seq<Node>
    ghost var odd: map<nat, nat>

    ghost predicate Valid()
      reads this, all
    {
      all != [] && all[0] == root && Closed(all) && Kept(View())
    }

    /** The image as a value. */
    ghost function View(): State
      reads this, all
    {
      State(Records(all), odd)
    }

    /** NewMem. */
    constructor (meta: Meta)
      ensures Valid() && fresh(root) && root.IsDir() && all == [root]
      ensures View() == Empty(Inode(TypedMeta(meta, {DirBit}), [], "", 0))
    {
      var inode := Inode(TypedMeta(meta, {DirBit}), [], "", 0);
      var n := new Node(inode, 2, 0);
      root, all, odd := n, [n], map[];
      new;
      EmptyKept(inode);
      assert View().nodes == Empty(inode).nodes;
    }

    /** find: the first child of that name. */
    method Find(d: Node, name: string) returns (found: bool, k: nat)
      ensures found ==> k < |d.children| && d.children[k].name == name
      ensures found <==> Present(EntriesOf(d.children), name)
    {
      k := 0;
      while k < |d.children|
        invariant k <= |d.children| && forall i :: 0 <= i < k ==> d.children[i].name != name
      {
        if d.children[k].name == name {
          assert EntriesOf(d.children)[k].name == name;
          return true, k;
        }
        k := k + 1;
      }
      found := false;
    }

    /** newChild: a node that has no name yet. */
    method NewChild(d: Node, name: string, meta: Meta, types: set<TypeBit>) returns (r: Result<Node>)
      ensures r.Ok? <==> ValidName(name) && !Present(EntriesOf(d.children), name)
      ensures r.Err? ==> r.error == if ValidName(name) then Exists else BadName
      ensures r.Ok? ==>
        && fresh(r.value) && r.value.inode == Inode(TypedMeta(meta, types), [], "", 0)
        && r.value.nlink == 1 && r.value.children == [] && r.value.id == |all|
    {
      if !ValidName(name) {
        return Err(BadName);
      }
      var found, _ := Find(d, name);
      if found {
        return Err(Exists);
      }
      var n := new Node(Inode(TypedMeta(meta, types), [], "", 0), 1, |all|);
      return Ok(n);
    }

    lemma ChildKnown(d: Node, i: nat)
      requires Valid() && d in all && i < |d.children|
      ensures d.children[i].node in all && d.children[i].node != d && Known(all, d.children[i].node)
      ensures EntriesOf(d.children)[i] == Entry(d.children[i].name, d.children[i].node.id)
      ensures !d.children[i].node.IsDir() ==> d.children[i].node.children == []
      ensures View().nodes[d.children[i].node.id] == RecordOf(d.children[i].node)
    {
      hide Counted;
      Place(d);
      NotInItself(View(), d.id, i);
      assert KnownAll(all, d.children) && Known(all, d.children[i].node);
      assert DirectoryOk(View(), d.children[i].node.id);
    }

    lemma Place(d: Node)
      requires Valid() && d in all
      ensures d.id < |all| && all[d.id] == d && View().nodes[d.id] == RecordOf(d)
    {
    }

    method Mkdir(d: Node, name: string, meta: Meta) returns (r: Result<Node>)
      requires Valid() && d in all && d.IsDir()
      modifies this`all, d
      ensures Valid()
      ensures r.Ok? <==> CanAdd(old(View()), d.id, name)
      ensures r.Err? ==> View() == old(View()) && all == old(all)
      ensures r.Err? ==> r.error == if ValidName(name) then Exists else BadName
      ensures r.Ok? ==>
        && fresh(r.value) && all == old(all) + [r.value]
        && View() == AfterMkdir(old(View()), d.id, name, Inode(TypedMeta(meta, {DirBit}), [], "", 0))
    {
      hide Kept, EntriesOf, Records, KnownAll, Entered, EntryAdded;
      ghost var s, rs, before := View(), Records(all), all;
      Place(d);
      r := NewChild(d, name, meta, {DirBit});
      if r.Err? {
        return;
      }
      var n := r.value;
      n.nlink := 2;
      d.nlink := d.nlink + 1;
      d.children := d.children + [Child(name, n)];
      all := all + [n];
      assert d.children[..|d.children| - 1] == old(d.children);
      assert forall i :: 0 <= i < |before| && i != d.id ==>
          before[i] != d && before[i].children == old(before[i].children);
      NewRecords(before, rs, d, name, n, 1);
      NewClosed(before, d, name, n);
      MkdirKeeps(s, d.id, name, n.inode);
    }

    /** add, for a new node with one link. */
    method Add(d: Node, name: string, n: Node)
      requires Valid() && d in all && CanAdd(View(), d.id, name)
      requires n !in all && n.id == |all| && n.nlink == 1 && n.children == []
      modifies this`all, this`odd, d
      ensures Valid() && all == old(all) + [n] && n.inode == old(n.inode)
      ensures View() == AfterMake(old(View()), d.id, name, n.inode)
    {
      hide Kept, EntriesOf, Records, KnownAll, Entered, EntryAdded;
      ghost var s, rs, before := View(), Records(all), all;
      Place(d);
      d.children := d.children + [Child(name, n)];
      all := all + [n];
      if n.IsDir() {
        odd := odd[n.id := d.id];
      }
      assert d.children[..|d.children| - 1] == old(d.children);
      assert forall i :: 0 <= i < |before| && i != d.id ==>
          before[i] != d && before[i].children == old(before[i].children);
      NewRecords(before, rs, d, name, n, 0);
      NewClosed(before, d, name, n);
      MakeKeeps(s, d.id, name, n.inode);
    }

    method Create(d: Node, name: string, content: seq<byte>, meta: Meta) returns (r: Result<Node>)
      requires Valid() && d in all && d.IsDir()
      modifies this`all, this`odd, d
      ensures Valid()
      ensures r.Ok? <==> CanAdd(old(View()), d.id, name)
      ensures r.Err? ==> View() == old(View()) && all == old(all)
      ensures r.Err? ==> r.error == if ValidName(name) then Exists else BadName
      ensures r.Ok? ==>
        && fresh(r.value) && all == old(all) + [r.value]
        && View() == AfterMake(old(View()), d.id, name, Inode(TypedMeta(meta, {}), content, "", 0))
    {
      hide Kept, Closed, EntriesOf, Records, AfterMake;
      Place(d);
      r := NewChild(d, name, meta, {});
      if r.Err? {
        return;
      }
      r.value.inode := r.value.inode.(content := content);
      Add(d, name, r.value);
    }

    method Symlink(d: Node, name: string, target: string, meta: Meta) returns (r: Result<()>)
      requires Valid() && d in all && d.IsDir()
      modifies this`all, this`odd, d
      ensures Valid()
      ensures r.Ok? <==> CanAdd(old(View()), d.id, name)
      ensures r.Err? ==> View() == old(View()) && all == old(all)
      ensures r.Err? ==> r.error == if ValidName(name) then Exists else BadName
      ensures r.Ok? ==>
        && |all| == |old(all)| + 1 && all == old(all) + [all[|old(all)|]] && fresh(all[|old(all)|])
        && View() == AfterMake(old(View()), d.id, name, Inode(TypedMeta(meta, {SymlinkBit}), [], target, 0))
    {
      hide Kept, Closed, EntriesOf, Records, AfterMake;
      Place(d);
      var c := NewChild(d, name, meta, {SymlinkBit});
      if c.Err? {
        return Err(c.error);
      }
      c.value.inode := c.value.inode.(link := target);
      Add(d, name, c.value);
      return Ok(());
    }

    method Mknod(d: Node, name: string, rdev: nat, meta: Meta) returns (r: Result<()>)
      requires Valid() && d in all && d.IsDir()
      modifies this`all, this`odd, d
      ensures Valid()
      ensures r.Ok? <==> CanAdd(old(View()), d.id, name)
      ensures r.Err? ==> View() == old(View()) && all == old(all)
      ensures r.Err? ==> r.error == if ValidName(name) then Exists else BadName
      ensures r.Ok? ==>
        && |all| == |old(all)| + 1 && all == old(all) + [all[|old(all)|]] && fresh(all[|old(all)|])
        && View() == AfterMake(old(View()), d.id, name, Inode(TypedMeta(meta, DeviceTypes(meta.types)), [], "", rdev))
    {
      hide Kept, Closed, EntriesOf, Records, AfterMake;
      Place(d);
      var types := meta.types;
      if types * SPECIAL == {} {
        types := {DeviceBit};
      }
      var c := NewChild(d, name, meta, types);
      if c.Err? {
        return Err(c.error);
      }
      c.value.inode := c.value.inode.(rdev := rdev);
      Add(d, name, c.value);
      return Ok(());
    }

    /** target is a handle that Create returned. */
    method Link(d: Node, name: string, target: Node) returns (r: Result<()>)
      requires Valid() && d in all && d.IsDir() && target in all && !target.IsDir()
      modifies d, target
      ensures Valid() && all == old(all)
      ensures r.Ok? <==> CanAdd(old(View()), d.id, name)
      ensures r.Err? ==> View() == old(View()) && r.error == if ValidName(name) then Exists else BadName
      ensures r.Ok? ==> View() == AfterLink(old(View()), d.id, name, target.id)
    {
      hide Kept, EntriesOf, Records, KnownAll, AfterLink, EntryAdded;
      ghost var s, rs := View(), Records(all);
      Place(d);
      Place(target);
      if !ValidName(name) {
        return Err(BadName);
      }
      var found, _ := Find(d, name);
      if found {
        return Err(Exists);
      }
      target.nlink := target.nlink + 1;
      d.children := d.children + [Child(name, target)];
      assert d.children[..|d.children| - 1] == old(d.children);
      assert forall i :: 0 <= i < |all| && i != d.id ==> all[i] != d && all[i].children == old(all[i].children);
      LinkedRecords(all, rs, odd, d, name, target);
      LinkedClosed(all, d, name, target);
      LinkKeeps(s, d.id, name, target.id);
      return Ok(());
    }

    /** Remove, once entry i has been found and may go. */
    method Detach(d: Node, i: nat, n: Node)
      requires Valid() && d in all && i < |d.children| && n == d.children[i].node && n in all && n != d
      requires CanRemove(View(), d.id, i)
      modifies d, n
      ensures Valid() && all == old(all) && View() == AfterRemove(old(View()), d.id, i)
    {
      hide Kept, EntriesOf, Records, KnownAll, AfterRemove, CanRemove, EntryRemoved;
      ghost var s, rs := View(), Records(all);
      Place(d);
      Place(n);
      if n.IsDir() {
        d.nlink := d.nlink - 1;
      }
      n.nlink := n.nlink - 1;
      d.children := d.children[..i] + d.children[i + 1..];
      RemovedRecords(all, rs, odd, d, old(d.children), i, n, if n.IsDir() then 1 else 0);
      RemovedClosed(all, d, old(d.children), i);
      RemoveKeeps(s, d.id, i);
    }

    method Remove(d: Node, name: string) returns (r: Result<()>)
      requires Valid() && d in all && d.IsDir()
      modifies all
      ensures Valid() && all == old(all)
      ensures r == RemoveResult(old(View()), d.id, name)
      ensures r.Err? ==> View() == old(View())
      ensures r.Ok? ==> View() == AfterRemove(old(View()), d.id, IndexOf(old(View()).nodes[d.id].children, name))
    {
      hide Kept, EntriesOf, Records, Closed, IndexOf, AfterRemove;
      Place(d);
      var i: nat := 0;
      while i < |d.children|
        invariant i <= |d.children| && forall j :: 0 <= j < i ==> d.children[j].name != name
      {
        if d.children[i].name == name {
          var n := d.children[i].node;
          IndexIs(EntriesOf(d.children), name, i);
          ChildKnown(d, i);
          if n.IsDir() {
            if |n.children| != 0 {
              return Err(NotEmpty);
            }
          }
          Detach(d, i, n);
          return Ok(());
        }
        i := i + 1;
      }
      IndexIs(EntriesOf(d.children), name, i);
      return Err(NotExist);
    }
  }
}
