/** pkg/cpio/reader.go: building a tree of shared nodes from the members of an archive. */
module CpioReader {
  import opened Options
  import opened Modes
  import opened Names
  import opened Bytes
  import opened Text
  import opened Files
  import opened CpioFormat
  import Words

  // ----- The node graph the reader builds; a node is known by its position.

  datatype Meta = Meta(mode: Mode, uid: nat, gid: nat, mtime: nat)

  datatype Kid = Kid(name: string, node: nat)

  /** The bytes of a file: none, or a stretch of the archive. */
  datatype Content = NoContent | At(off: nat, size: nat)

  datatype Node = Node(meta: Meta, nlink: nat, kids: seq<Kid>, link: string, rdev: nat, content: Content)
  {
    predicate IsDir() {
      meta.mode.kind == Dir
    }
  }

  datatype Graph = Graph(nodes: seq<Node>, inoMap: map<nat, nat>)

  datatype ReadError = BadMagic | BadHeader | BadName

  datatype Result<T> = Ok(value: T) | Err(error: ReadError)

  const ROOT_META := Meta(Mode(Dir, 0x1ED, 0), 0, 0, 0)

  /** A directory made up for a member that comes before its parent. */
  const PLACEHOLDER := Node(ROOT_META, 2, [], "", 0, NoContent)

  ghost predicate Closed(g: Graph) {
    && |g.nodes| > 0
    && (forall p, i :: 0 <= p < |g.nodes| && 0 <= i < |g.nodes[p].kids| ==> g.nodes[p].kids[i].node < |g.nodes|)
    && (forall v :: v in g.inoMap ==> g.inoMap[v] < |g.nodes|)
  }

  /** The position of the first child of that name. */
  function FindKid(kids: seq<Kid>, name: string): (r: Option<nat>)
    ensures r.Some? ==> r.value < |kids| && kids[r.value].name == name
  {
    if kids == [] then None
    else if kids[0].name == name then Some(0)
    else match FindKid(kids[1..], name) case None => None case Some(i) => Some(i + 1)
  }

  function WithKid(g: Graph, dir: nat, k: Kid): Graph
    requires dir < |g.nodes|
  {
    g.(nodes := g.nodes[dir := g.nodes[dir].(kids := g.nodes[dir].kids + [k])])
  }

  /** childDir: the child of that name, whatever it is, or a placeholder. */
  function ChildDir(g: Graph, dir: nat, c: string): (r: (Graph, nat))
    requires Closed(g) && dir < |g.nodes|
    ensures Closed(r.0) && r.1 < |r.0.nodes| && |r.0.nodes| >= |g.nodes|
  {
    match FindKid(g.nodes[dir].kids, c)
    case Some(i) => (g, g.nodes[dir].kids[i].node)
    case None => (WithKid(g.(nodes := g.nodes + [PLACEHOLDER]), dir, Kid(c, |g.nodes|)), |g.nodes|)
  }

  function Descend(g: Graph, dir: nat, comps: seq<string>): (r: (Graph, nat))
    requires Closed(g) && dir < |g.nodes|
    ensures Closed(r.0) && r.1 < |r.0.nodes| && |r.0.nodes| >= |g.nodes|
    decreases |comps|
  {
    if comps == [] then (g, dir)
    else
      var (g', d) := ChildDir(g, dir, comps[0]);
      Descend(g', d, comps[1..])
  }

  /** The last step of link: adopt the metadata of a directory, replace a child, or add one. */
  function Attach(g: Graph, dir: nat, leaf: string, p: nat): (r: Graph)
    requires Closed(g) && dir < |g.nodes| && p < |g.nodes|
    ensures Closed(r)
  {
    match FindKid(g.nodes[dir].kids, leaf)
    case None => WithKid(g, dir, Kid(leaf, p))
    case Some(i) =>
      var was := g.nodes[dir].kids[i].node;
      if g.nodes[p].IsDir() && g.nodes[was].IsDir() then
        g.(nodes := g.nodes[was := g.nodes[was].(meta := g.nodes[p].meta, nlink := g.nodes[p].nlink)])
      else g.(nodes := g.nodes[dir := g.nodes[dir].(kids := g.nodes[dir].kids[i := Kid(leaf, p)])])
  }

  function Link(g: Graph, comps: seq<string>, p: nat): (r: Result<Graph>)
    requires Closed(g) && p < |g.nodes| && comps != []
    ensures r.Ok? ==> Closed(r.value)
  {
    if exists c :: c in comps && !ValidName(c) then Err(BadName)
    else
      var (g', dir) := Descend(g, 0, comps[..|comps| - 1]);
      Ok(Attach(g', dir, comps[|comps| - 1], p))
  }

  /** The node of the first child of that name. */
  function KidAt(g: Graph, dir: nat, name: string): Option<nat>
    requires dir < |g.nodes|
  {
    match FindKid(g.nodes[dir].kids, name)
    case None => None
    case Some(i) => Some(g.nodes[dir].kids[i].node)
  }

  /** A name leads to the child it led to, or to a new directory of mode 0755 with nothing in it. */
  lemma ChildDirFinds(g: Graph, dir: nat, c: string)
    requires Closed(g) && dir < |g.nodes|
    ensures var (g', d) := ChildDir(g, dir, c);
      && KidAt(g', dir, c) == Some(d)
      && (KidAt(g, dir, c).Some? ==> g' == g)
      && (KidAt(g, dir, c).None? ==>
            && d == |g.nodes| && |g'.nodes| == |g.nodes| + 1 && g'.inoMap == g.inoMap
            && g'.nodes[d] == Node(Meta(Mode(Dir, 0x1ED, 0), 0, 0, 0), 2, [], "", 0, NoContent)
            && (forall x :: x != c ==> KidAt(g', dir, x) == KidAt(g, dir, x))
            && g'.nodes[dir] == g.nodes[dir].(kids := g'.nodes[dir].kids)
            && forall q :: 0 <= q < |g.nodes| && q != dir ==> g'.nodes[q] == g.nodes[q])
  {
    if KidAt(g, dir, c).None? {
      forall x
        ensures FindKid(g.nodes[dir].kids + [Kid(c, |g.nodes|)], x) ==
                if FindKid(g.nodes[dir].kids, x).None? && x == c then Some(|g.nodes[dir].kids|)
                else FindKid(g.nodes[dir].kids, x)
      {
        FindAppended(g.nodes[dir].kids, Kid(c, |g.nodes|), x);
      }
    }
  }

  lemma {:induction false} FindAppended(kids: seq<Kid>, k: Kid, x: string)
    ensures FindKid(kids + [k], x) ==
      if FindKid(kids, x).None? && x == k.name then Some(|kids|) else FindKid(kids, x)
    decreases |kids|
  {
    if kids != [] {
      assert (kids + [k])[1..] == kids[1..] + [k];
      FindAppended(kids[1..], k, x);
    }
  }

  lemma {:induction false} FindReplaced(kids: seq<Kid>, i: nat, k: Kid, x: string)
    requires i < |kids| && kids[i].name == k.name
    ensures FindKid(kids[i := k], x) == FindKid(kids, x)
    decreases |kids|
  {
    if i > 0 {
      assert kids[i := k][1..] == kids[1..][i - 1 := k];
      FindReplaced(kids[1..], i - 1, k, x);
    } else {
      assert kids[i := k][1..] == kids[1..];
    }
  }

  /** A leaf leads to the node that is linked, or to a directory that was there and is now as that one says; every other
      name leads where it did, and no other node changes. */
  lemma AttachHangs(g: Graph, dir: nat, leaf: string, p: nat)
    requires Closed(g) && dir < |g.nodes| && p < |g.nodes|
    ensures var g' := Attach(g, dir, leaf, p);
      && |g'.nodes| == |g.nodes| && g'.inoMap == g.inoMap && KidAt(g', dir, leaf).Some?
      && var q := KidAt(g', dir, leaf).value;
      && (if KidAt(g, dir, leaf).Some? && g.nodes[p].IsDir() && g.nodes[KidAt(g, dir, leaf).value].IsDir()
          then Some(q) == KidAt(g, dir, leaf) && g'.nodes[q] == g.nodes[q].(meta := g.nodes[p].meta, nlink := g.nodes[p].nlink)
          else q == p && g'.nodes[dir] == g.nodes[dir].(kids := g'.nodes[dir].kids))
      && (forall x :: x != leaf ==> KidAt(g', dir, x) == KidAt(g, dir, x))
      && forall r :: 0 <= r < |g.nodes| && r != dir && r != q ==> g'.nodes[r] == g.nodes[r]
  {
    var kids := g.nodes[dir].kids;
    match FindKid(kids, leaf) {
      case None =>
        forall x
          ensures FindKid(kids + [Kid(leaf, p)], x) ==
                  if FindKid(kids, x).None? && x == leaf then Some(|kids|) else FindKid(kids, x)
        {
          FindAppended(kids, Kid(leaf, p), x);
        }
      case Some(i) =>
        FirstOfName(kids, leaf, i);
        forall x
          ensures FindKid(kids[i := Kid(leaf, p)], x) == FindKid(kids, x)
          ensures x != leaf && FindKid(kids, x).Some? ==> FindKid(kids, x).value != i
        {
          FindReplaced(kids, i, Kid(leaf, p), x);
        }
    }
  }

  lemma FirstOfName(kids: seq<Kid>, name: string, i: nat)
    requires FindKid(kids, name) == Some(i)
    ensures i < |kids| && kids[i].name == name
  {
  }

  /** splitPath: the components that are neither empty nor a dot. */
  function SplitPath(name: string): seq<string> {
    Kept(Split(name))
  }

  function Kept(parts: seq<string>): seq<string> {
    if parts == [] then []
    else if parts[0] == "" || parts[0] == "." then Kept(parts[1..])
    else [parts[0]] + Kept(parts[1..])
  }

  lemma {:induction false} KeptAll(parts: seq<string>)
    requires ValidPath(parts)
    ensures Kept(parts) == parts
    decreases |parts|
  {
    if parts != [] {
      assert parts[0] in parts;
      KeptAll(parts[1..]);
      assert [parts[0]] + parts[1..] == parts;
    }
  }

  /** A joined path of valid names splits into them again. */
  lemma SplitPathOfJoin(parts: seq<string>)
    requires parts != [] && ValidPath(parts)
    ensures SplitPath(Join(parts)) == parts
  {
    SplitJoin(parts);
    KeptAll(parts);
  }

  /** Splitting keeps the components in order, and only "" and "." are left out. */
  lemma {:induction false} KeptJoins(a: seq<string>, x: string)
    ensures Kept(a + [x]) == Kept(a) + if x == "" || x == "." then [] else [x]
    decreases |a|
  {
    if a == [] {
      assert [x][1..] == [];
    } else {
      assert (a + [x])[1..] == a[1..] + [x];
      KeptJoins(a[1..], x);
    }
  }

  /** The node a member describes, whose body starts at off. */
  function NodeOf(dev: seq<byte>, h: Header, off: nat): Node {
    var mode := ModeFromUnix(h.mode);
    Node(Meta(mode, h.uid, h.gid, h.mtime), h.nlink, [],
         if mode.kind == Symlink then StringOf(Slice(dev, off, h.filesize)) else "",
         if mode.kind == CharDevice || mode.kind == BlockDevice then Words.Or(h.rdevmajor * 256, h.rdevminor,
             Words.WIDTH)
         else 0,
         if mode.kind == Regular && h.filesize > 0 then At(off, h.filesize) else NoContent)
  }

  /** A regular file with more than one name. */
  predicate Linked(h: Header) {
    ModeFromUnix(h.mode).kind == Regular && h.nlink >= 2
  }

  function AddEntry(g: Graph, dev: seq<byte>, h: Header, name: string, off: nat): (r: Result<Graph>)
    requires Closed(g)
    ensures r.Ok? ==> Closed(r.value)
  {
    var comps := SplitPath(name);
    if comps == [] then Ok(g)
    else if Linked(h) && h.ino in g.inoMap then
      var p := g.inoMap[h.ino];
      var g' := if h.filesize > 0 then g.(nodes := g.nodes[p := g.nodes[p].(content := At(off, h.filesize))]) else g;
      Link(g', comps, p)
    else
      var p := |g.nodes|;
      var g' := Graph(g.nodes + [NodeOf(dev, h, off)], if Linked(h) then g.inoMap[h.ino := p] else g.inoMap);
      Link(g', comps, p)
  }

  function Root(): (g: Graph)
    ensures Closed(g)
  {
    Graph([PLACEHOLDER], map[])
  }

  /** read: the members from pos on, up to the trailer. */
  function ReadFrom(g: Graph, dev: seq<byte>, pos: nat): (r: Result<Graph>)
    requires Closed(g)
    ensures r.Ok? ==> Closed(r.value)
    decreases |dev| - pos
  {
    var parsed := ParseHeader(Slice(dev, pos, HEADER_SIZE));
    match parsed
    case NotNewc => Err(BadMagic)
    case BadField => Err(BadHeader)
    case Parsed(h) =>
      var name := TrimNul(Slice(dev, pos + HEADER_SIZE, h.namesize));
      if name == TRAILER_NAME then Ok(g)
      else
        var off := pos + HEADER_SIZE + NAlign(h.namesize);
        match AddEntry(g, dev, h, name, off)
        case Err(e) => Err(e)
        case Ok(g') =>
          PastEnd(dev, pos);
          ReadFrom(g', dev, Align4(off + h.filesize))
  }

  /** Past the end of a device there are only zeros, and no magic. */
  lemma PastEnd(dev: seq<byte>, pos: nat)
    ensures pos >= |dev| ==> ParseHeader(Slice(dev, pos, HEADER_SIZE)) == NotNewc
  {
    if pos >= |dev| {
      assert Slice(dev, pos, HEADER_SIZE)[..6][0] == 0;
    }
  }

  // ----- The reader.

  class Reader {
    const dev: File
    var nodes: seq<Node>
    var inoMap: map<nat, nat>

    ghost function G(): Graph
      reads this
    {
      Graph(nodes, inoMap)
    }

    constructor (dev: File)
      ensures this.dev == dev && G() == Root()
    {
      this.dev := dev;
      nodes, inoMap := [PLACEHOLDER], map[];
    }

    method Find(dir: nat, name: string) returns (r: Option<nat>)
      requires dir < |nodes|
      ensures r == FindKid(nodes[dir].kids, name)
    {
      var kids := nodes[dir].kids;
      var i := 0;
      while i < |kids|
        invariant 0 <= i <= |kids|
        invariant FindKid(kids, name) == match FindKid(kids[i..], name) case None => None case Some(j) => Some(i + j)
      {
        if kids[i].name == name {
          return Some(i);
        }
        assert kids[i..][1..] == kids[i + 1..];
        i := i + 1;
      }
      return None;
    }

    method EnsureChild(dir: nat, c: string) returns (d: nat)
      requires Closed(G()) && dir < |nodes|
      modifies this`nodes
      ensures (G(), d) == ChildDir(old(G()), dir, c)
    {
      var found := Find(dir, c);
      match found {
        case Some(i) => return nodes[dir].kids[i].node;
        case None =>
          d := |nodes|;
          nodes := nodes + [PLACEHOLDER];
          nodes := nodes[dir := nodes[dir].(kids := nodes[dir].kids + [Kid(c, d)])];
      }
    }

    method LinkAt(comps: seq<string>, p: nat) returns (r: Result<()>)
      requires Closed(G()) && p < |nodes| && comps != []
      modifies this`nodes
      ensures match Link(old(G()), comps, p)
              case Err(e) => r == Err(e)
              case Ok(g) => r == Ok(()) && G() == g
    {
      hide Descend, ChildDir, Attach, FindKid;
      for k := 0 to |comps|
        invariant forall c :: c in comps[..k] ==> ValidName(c)
      {
        if !ValidName(comps[k]) {
          assert comps[k] in comps;
          return Err(BadName);
        }
      }
      assert comps[..|comps|] == comps;
      ghost var goal := Descend(G(), 0, comps[..|comps| - 1]);
      var dir: nat := 0;
      assert comps[0..|comps| - 1] == comps[..|comps| - 1];
      for k := 0 to |comps| - 1
        invariant Closed(G()) && dir < |nodes| && p < |nodes|
        invariant goal == Descend(G(), dir, comps[k..|comps| - 1])
      {
        DescendStep(G(), dir, comps[k..|comps| - 1]);
        assert comps[k..|comps| - 1][1..] == comps[k + 1..|comps| - 1];
        ghost var before := G();
        dir := EnsureChild(dir, comps[k]);
      }
      DescendDone(G(), dir, comps[|comps| - 1..|comps| - 1]);
      AttachNode(dir, comps[|comps| - 1], p);
      return Ok(());
    }

    method AttachNode(dir: nat, leaf: string, p: nat)
      requires Closed(G()) && dir < |nodes| && p < |nodes|
      modifies this`nodes
      ensures G() == Attach(old(G()), dir, leaf, p)
    {
      var found := Find(dir, leaf);
      match found {
        case Some(i) =>
          var was := nodes[dir].kids[i].node;
          if nodes[p].IsDir() && nodes[was].IsDir() {
            nodes := nodes[was := nodes[was].(meta := nodes[p].meta, nlink := nodes[p].nlink)];
          } else {
            nodes := nodes[dir := nodes[dir].(kids := nodes[dir].kids[i := Kid(leaf, p)])];
          }
        case None =>
          nodes := nodes[dir := nodes[dir].(kids := nodes[dir].kids + [Kid(leaf, p)])];
      }
    }

    method Add(h: Header, name: string, off: nat) returns (r: Result<()>)
      requires Closed(G())
      modifies this
      ensures match AddEntry(old(G()), dev.data, h, name, off)
              case Err(e) => r == Err(e)
              case Ok(g) => r == Ok(()) && G() == g && Closed(g)
    {
      hide Link, SplitPath, NodeOf;
      var comps := SplitPath(name);
      if comps == [] {
        return Ok(());
      }
      if Linked(h) && h.ino in inoMap {
        var p := inoMap[h.ino];
        if h.filesize > 0 {
          nodes := nodes[p := nodes[p].(content := At(off, h.filesize))];
        }
        r := LinkAt(comps, p);
        return;
      }
      var n := BuildNode(h, off);
      var p := |nodes|;
      nodes := nodes + [n];
      if Linked(h) {
        inoMap := inoMap[h.ino := p];
      }
      r := LinkAt(comps, p);
    }

    method BuildNode(h: Header, off: nat) returns (n: Node)
      ensures n == NodeOf(dev.data, h, off) && n.kids == []
    {
      hide Slice, StringOf, ModeFromUnix, Words.Or;
      var mode := ModeFromUnix(h.mode);
      n := Node(Meta(mode, h.uid, h.gid, h.mtime), h.nlink, [], "", 0, NoContent);
      match mode.kind {
        case Symlink =>
          var buf := dev.Read(off, h.filesize);
          n := n.(link := StringOf(buf));
        case CharDevice => n := n.(rdev := Words.Or(h.rdevmajor * 256, h.rdevminor, Words.WIDTH));
        case BlockDevice => n := n.(rdev := Words.Or(h.rdevmajor * 256, h.rdevminor, Words.WIDTH));
        case Regular =>
          if h.filesize > 0 {
            n := n.(content := At(off, h.filesize));
          }
        case _ =>
      }
    }

    /** read: members until the trailer, on any device. */
    method Read() returns (r: Result<()>)
      requires G() == Root()
      modifies this
      ensures match ReadFrom(Root(), dev.data, 0)
              case Err(e) => r == Err(e)
              case Ok(g) => r == Ok(()) && G() == g
    {
      hide AddEntry, ParseHeader, TrimNul, Slice, NAlign;
      ghost var goal := ReadFrom(Root(), dev.data, 0);
      var pos := 0;
      while true
        invariant Closed(G()) && goal == ReadFrom(G(), dev.data, pos)
        decreases |dev.data| - pos
      {
        var head := dev.Read(pos, HEADER_SIZE);
        PastEnd(dev.data, pos);
        match ParseHeader(head) {
          case NotNewc => return Err(BadMagic);
          case BadField => return Err(BadHeader);
          case Parsed(h) =>
            var nameBuf := dev.Read(pos + HEADER_SIZE, h.namesize);
            var name := TrimNul(nameBuf);
            if name == TRAILER_NAME {
              return Ok(());
            }
            var off := pos + HEADER_SIZE + NAlign(h.namesize);
            var added := Add(h, name, off);
            if added.Err? {
              return Err(added.error);
            }
            pos := Align4(off + h.filesize);
        }
      }
    }
  }

  lemma DescendStep(g: Graph, dir: nat, comps: seq<string>)
    requires Closed(g) && dir < |g.nodes| && comps != []
    ensures var (g', d) := ChildDir(g, dir, comps[0]);
      Descend(g, dir, comps) == Descend(g', d, comps[1..])
  {
  }

  lemma DescendDone(g: Graph, dir: nat, comps: seq<string>)
    requires Closed(g) && dir < |g.nodes| && comps == []
    ensures Descend(g, dir, comps) == (g, dir)
  {
  }
}
