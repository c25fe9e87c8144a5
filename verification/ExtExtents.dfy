/** pkg/ext/extents.go: extent nodes, and what the reader makes of a tree of them. */
module ExtExtents {
  import opened Sizes
  import opened Options
  import opened Bytes
  import opened Files
  import opened ExtLayout

  const EXTENT_MAGIC: nat := 0xF30A
  const EXTENT_HEADER: nat := 12
  const EXTENT_ENTRY: nat := 12
  const INLINE_EXTENTS: nat := 4
  const MAX_DEPTH: nat := 5
  const ROOT_SIZE: nat := 60

  /** length file blocks from logical on lie at start on the device. */
  datatype Leaf = Leaf(logical: nat, length: nat, start: nat)

  /** The file blocks from logical on are mapped by the node in block. */
  datatype Child = Child(logical: nat, block: nat)

  // ----- Bytes.

  function HeaderBytes(entries: nat, max: nat, depth: nat): (s: seq<byte>)
    ensures |s| == EXTENT_HEADER
  {
    LE(EXTENT_MAGIC, 2) + LE(entries, 2) + LE(max, 2) + LE(depth, 2) + LE(0, 4)
  }

  function LeafBytes(e: Leaf): (s: seq<byte>)
    ensures |s| == EXTENT_ENTRY
  {
    LE(e.logical, 4) + LE(e.length, 2) + LE(e.start / TWO32, 2) + LE(e.start % TWO32, 4)
  }

  function ChildBytes(e: Child): (s: seq<byte>)
    ensures |s| == EXTENT_ENTRY
  {
    LE(e.logical, 4) + LE(e.block % TWO32, 4) + LE(e.block / TWO32, 2) + LE(0, 2)
  }

  function Magic(node: seq<byte>): nat {
    Get(Little, node, 0, 2)
  }

  function Entries(node: seq<byte>): nat {
    Get(Little, node, 2, 2)
  }

  function Depth(node: seq<byte>): nat {
    Get(Little, node, 6, 2)
  }

  /** Where entry i starts. */
  function EntryOff(i: nat): nat {
    EXTENT_HEADER + EXTENT_ENTRY * i
  }

  /** The entries that lie within the node. */
  function Count(node: seq<byte>): nat {
    if |node| < EXTENT_HEADER then 0
    else if (|node| - EXTENT_HEADER) / EXTENT_ENTRY < Entries(node) then (|node| - EXTENT_HEADER) / EXTENT_ENTRY
    else Entries(node)
  }

  /** A length above 32768 marks an uninitialised extent. */
  function RunLength(raw: nat): nat {
    if raw > EXTENT_MAX_LEN then raw - EXTENT_MAX_LEN else raw
  }

  function LeafAt(node: seq<byte>, i: nat): Leaf {
    var o := EntryOff(i);
    Leaf(Get(Little, node, o, 4), RunLength(Get(Little, node, o + 4, 2)),
         Get(Little, node, o + 6, 2) * TWO32 + Get(Little, node, o + 8, 4))
  }

  function ChildAt(node: seq<byte>, i: nat): Child {
    var o := EntryOff(i);
    Child(Get(Little, node, o, 4), Get(Little, node, o + 8, 2) * TWO32 + Get(Little, node, o + 4, 4))
  }

  function Leaves(node: seq<byte>): seq<Leaf> {
    seq(Count(node), i requires 0 <= i => LeafAt(node, i))
  }

  function Children(node: seq<byte>): seq<Child> {
    seq(Count(node), i requires 0 <= i => ChildAt(node, i))
  }

  lemma HeaderParses(node: seq<byte>, entries: nat, max: nat, depth: nat)
    requires entries < TWO16 && depth < TWO16 && Slice(node, 0, EXTENT_HEADER) == HeaderBytes(entries, max, depth)
    ensures Magic(node) == EXTENT_MAGIC && Entries(node) == entries && Depth(node) == depth
  {
    hide LE, Slice, Get;
    Widths();
    var m, e, x, d, z := LE(EXTENT_MAGIC, 2), LE(entries, 2), LE(max, 2), LE(depth, 2), LE(0, 4);
    GetPart([], EXTENT_MAGIC, 2, e + x + d + z);
    assert [] + m + (e + x + d + z) == m + e + x + d + z;
    GetPart(m, entries, 2, x + d + z);
    assert m + e + (x + d + z) == m + e + x + d + z;
    GetPart(m + e + x, depth, 2, z);
    GetOfSlice(Little, node, 0, EXTENT_HEADER, 0, 2);
    GetOfSlice(Little, node, 0, EXTENT_HEADER, 2, 2);
    GetOfSlice(Little, node, 0, EXTENT_HEADER, 6, 2);
  }

  /** A node says how many entries it could hold. */
  lemma HeaderMax(node: seq<byte>, entries: nat, max: nat, depth: nat)
    requires max < TWO16 && Slice(node, 0, EXTENT_HEADER) == HeaderBytes(entries, max, depth)
    ensures Get(Little, node, 0, 2) == 0xF30A && Get(Little, node, 4, 2) == max
  {
    hide LE, Slice, Get;
    Widths();
    var m, e, x, d, z := LE(EXTENT_MAGIC, 2), LE(entries, 2), LE(max, 2), LE(depth, 2), LE(0, 4);
    GetPart([], EXTENT_MAGIC, 2, e + x + d + z);
    assert [] + m + (e + x + d + z) == m + e + x + d + z;
    GetPart(m + e, max, 2, d + z);
    assert m + e + x + (d + z) == m + e + x + d + z;
    GetOfSlice(Little, node, 0, EXTENT_HEADER, 0, 2);
    GetOfSlice(Little, node, 0, EXTENT_HEADER, 4, 2);
  }

  lemma Wide(v: nat)
    requires v < TWO48
    ensures v / TWO32 < TWO16 && v / TWO32 * TWO32 + v % TWO32 == v
  {
  }

  lemma LeafParses(node: seq<byte>, i: nat, e: Leaf)
    requires Slice(node, EntryOff(i), EXTENT_ENTRY) == LeafBytes(e)
    requires e.logical < TWO32 && e.length <= EXTENT_MAX_LEN && e.start < TWO48
    ensures LeafAt(node, i) == e
  {
    hide LE, Slice, Get;
    Widths();
    Wide(e.start);
    var a, b, c, d := LE(e.logical, 4), LE(e.length, 2), LE(e.start / TWO32, 2), LE(e.start % TWO32, 4);
    GetPart([], e.logical, 4, b + c + d);
    assert [] + a + (b + c + d) == a + b + c + d;
    GetPart(a, e.length, 2, c + d);
    assert a + b + (c + d) == a + b + c + d;
    GetPart(a + b, e.start / TWO32, 2, d);
    GetPart(a + b + c, e.start % TWO32, 4, []);
    assert a + b + c + d + [] == a + b + c + d;
    GetOfSlice(Little, node, EntryOff(i), EXTENT_ENTRY, 0, 4);
    GetOfSlice(Little, node, EntryOff(i), EXTENT_ENTRY, 4, 2);
    GetOfSlice(Little, node, EntryOff(i), EXTENT_ENTRY, 6, 2);
    GetOfSlice(Little, node, EntryOff(i), EXTENT_ENTRY, 8, 4);
  }

  lemma ChildParses(node: seq<byte>, i: nat, e: Child)
    requires Slice(node, EntryOff(i), EXTENT_ENTRY) == ChildBytes(e)
    requires e.logical < TWO32 && e.block < TWO48
    ensures ChildAt(node, i) == e
  {
    hide LE, Slice, Get;
    Widths();
    Wide(e.block);
    var a, b, c, d := LE(e.logical, 4), LE(e.block % TWO32, 4), LE(e.block / TWO32, 2), LE(0, 2);
    GetPart([], e.logical, 4, b + c + d);
    assert [] + a + (b + c + d) == a + b + c + d;
    GetPart(a, e.block % TWO32, 4, c + d);
    assert a + b + (c + d) == a + b + c + d;
    GetPart(a + b, e.block / TWO32, 2, d);
    GetOfSlice(Little, node, EntryOff(i), EXTENT_ENTRY, 0, 4);
    GetOfSlice(Little, node, EntryOff(i), EXTENT_ENTRY, 4, 4);
    GetOfSlice(Little, node, EntryOff(i), EXTENT_ENTRY, 8, 2);
  }

  // ----- What the reader finds: parseExtents, following at most fuel index nodes down.

  datatype Parsed = Blocks(list: seq<nat>) | BadMagic | BadDepth | OutOfFuel

  function RunOf(e: Leaf): seq<nat> {
    seq<nat>(e.length, k requires 0 <= k => e.start + k)
  }

  /** The device blocks of a list of extents, in order. */
  function Expand(leaves: seq<Leaf>): seq<nat> {
    if leaves == [] then [] else RunOf(leaves[0]) + Expand(leaves[1..])
  }

  function Then(first: Parsed, rest: Parsed): Parsed {
    if !first.Blocks? then first
    else if !rest.Blocks? then rest
    else Blocks(first.list + rest.list)
  }

  function Parse(dev: seq<byte>, bs: nat, node: seq<byte>, fuel: nat): Parsed
    decreases fuel, 1, 0
  {
    if Magic(node) != EXTENT_MAGIC then BadMagic
    else if Depth(node) > MAX_DEPTH then BadDepth
    else if Depth(node) == 0 then Blocks(Expand(Leaves(node)))
    else ParseAll(dev, bs, Children(node), fuel)
  }

  function ParseAll(dev: seq<byte>, bs: nat, children: seq<Child>, fuel: nat): Parsed
    decreases fuel, 0, |children|
  {
    if children == [] then Blocks([])
    else if fuel == 0 then OutOfFuel
    else Then(Parse(dev, bs, BlockAt(dev, bs, children[0].block), fuel - 1), ParseAll(dev, bs, children[1..], fuel))
  }

  /** More fuel changes nothing once there is enough. */
  lemma {:induction false} MoreFuel(dev: seq<byte>, bs: nat, node: seq<byte>, fuel: nat, more: nat)
    requires fuel <= more && Parse(dev, bs, node, fuel) != OutOfFuel
    ensures Parse(dev, bs, node, more) == Parse(dev, bs, node, fuel)
    decreases fuel, 1, 0
  {
    hide Magic, Depth, Leaves, Children, Expand;
    if Depth(node) > 0 && Magic(node) == EXTENT_MAGIC && Depth(node) <= MAX_DEPTH {
      MoreFuelAll(dev, bs, Children(node), fuel, more);
    }
  }

  lemma {:induction false} MoreFuelAll(dev: seq<byte>, bs: nat, children: seq<Child>, fuel: nat, more: nat)
    requires fuel <= more && ParseAll(dev, bs, children, fuel) != OutOfFuel
    ensures ParseAll(dev, bs, children, more) == ParseAll(dev, bs, children, fuel)
    decreases fuel, 0, |children|
  {
    hide Magic, Depth, Leaves, Children, Expand, BlockAt;
    if children != [] {
      var node := BlockAt(dev, bs, children[0].block);
      var first := Parse(dev, bs, node, fuel - 1);
      assert first != OutOfFuel;
      MoreFuel(dev, bs, node, fuel - 1, more - 1);
      if first.Blocks? {
        MoreFuelAll(dev, bs, children[1..], fuel, more);
      }
    }
  }

  lemma ThenThen(a: seq<nat>, first: Parsed, rest: Parsed)
    ensures first.Blocks? ==> Then(Blocks(a), Then(first, rest)) == Then(Blocks(a + first.list), rest)
    ensures !first.Blocks? ==> Then(Blocks(a), Then(first, rest)) == first
    ensures Then(Blocks([]), rest) == rest && Then(Blocks(a), Blocks([])) == Blocks(a)
  {
    assert a + [] == a;
    if rest.Blocks? {
      assert [] + rest.list == rest.list;
      if first.Blocks? {
        assert a + (first.list + rest.list) == a + first.list + rest.list;
      }
    }
  }

  lemma ParseRest(dev: seq<byte>, bs: nat, children: seq<Child>, i: nat, fuel: nat)
    requires i < |children| && ParseAll(dev, bs, children[i..], fuel) != OutOfFuel
    ensures fuel > 0
    ensures ParseAll(dev, bs, children[i..], fuel) ==
            Then(Parse(dev, bs, BlockAt(dev, bs, children[i].block), fuel - 1), ParseAll(dev, bs, children[i + 1..],
                fuel))
  {
    hide Parse, BlockAt, Then;
    assert children[i..][1..] == children[i + 1..];
  }

  /** parseExtents over the blocks of a device, for a walk that ends within fuel levels. */
  method ParseExtents(dev: File, bs: nat, node: seq<byte>, ghost fuel: nat) returns (r: Parsed)
    requires |node| >= EXTENT_HEADER && bs >= EXTENT_HEADER
    requires Parse(dev.data, bs, node, fuel) != OutOfFuel
    ensures r == Parse(dev.data, bs, node, fuel)
    decreases fuel
  {
    hide Magic, Depth, Entries, ParseAll, Expand, Then, LeafAt, ChildAt, BlockAt, Slice;
    if Magic(node) != EXTENT_MAGIC {
      return BadMagic;
    }
    var entries, depth := Entries(node), Depth(node);
    if depth > MAX_DEPTH {
      return BadDepth;
    }
    var out: seq<nat> := [];
    ghost var n := Count(node);
    var i := 0;
    if depth == 0 {
      NoLeaves(node);
      while i < entries && EntryOff(i) + EXTENT_ENTRY <= |node|
        invariant 0 <= i <= n && out == Expand(Leaves(node)[..i])
      {
        var leaf := LeafAt(node, i);
        OneMoreLeaf(node, i);
        for k := 0 to leaf.length
          invariant out == Expand(Leaves(node)[..i]) + RunOf(leaf)[..k]
        {
          out := out + [leaf.start + k];
        }
        assert RunOf(leaf)[..leaf.length] == RunOf(leaf);
        i := i + 1;
      }
      assert Leaves(node)[..n] == Leaves(node);
      return Blocks(out);
    }
    ghost var children, all := Children(node), ParseAll(dev.data, bs, Children(node), fuel);
    assert children[0..] == children;
    ThenThen([], all, all);
    while i < entries && EntryOff(i) + EXTENT_ENTRY <= |node|
      invariant 0 <= i <= n && all == Then(Blocks(out), ParseAll(dev.data, bs, children[i..], fuel))
      invariant ParseAll(dev.data, bs, children[i..], fuel) != OutOfFuel
    {
      var child := ChildAt(node, i);
      ParseRest(dev.data, bs, children, i, fuel);
      var buf := dev.Read(child.block * bs, bs);
      ghost var sub', rest := Parse(dev.data, bs, buf, fuel - 1), ParseAll(dev.data, bs, children[i + 1..], fuel);
      IsBlock(dev.data, bs, child.block, buf);
      NotOut(sub', rest);
      ThenThen(out, sub', rest);
      var sub := ParseExtents(dev, bs, buf, fuel - 1);
      if !sub.Blocks? {
        return sub;
      }
      out := out + sub.list;
      i := i + 1;
    }
    AllParsed(dev.data, bs, fuel);
    assert children[n..] == [];
    ThenThen(out, all, all);
    return Blocks(out);
  }

  lemma NotOut(first: Parsed, rest: Parsed)
    requires Then(first, rest) != OutOfFuel
    ensures first != OutOfFuel && (first.Blocks? ==> rest != OutOfFuel)
  {
  }

  lemma IsBlock(dev: seq<byte>, bs: nat, b: nat, buf: seq<byte>)
    requires buf == Slice(dev, b * bs, bs)
    ensures buf == BlockAt(dev, bs, b)
  {
  }

  lemma AllParsed(dev: seq<byte>, bs: nat, fuel: nat)
    ensures ParseAll(dev, bs, [], fuel) == Blocks([])
  {
  }

  lemma NoLeaves(node: seq<byte>)
    ensures Expand(Leaves(node)[..0]) == []
  {
  }

  lemma OneMoreLeaf(node: seq<byte>, i: nat)
    requires i < Count(node)
    ensures Expand(Leaves(node)[..i + 1]) == Expand(Leaves(node)[..i]) + RunOf(LeafAt(node, i))
  {
    hide LeafAt, RunOf;
    assert Leaves(node)[..i + 1] == Leaves(node)[..i] + [LeafAt(node, i)];
    ExpandAppend(Leaves(node)[..i], [LeafAt(node, i)]);
    assert Expand([LeafAt(node, i)]) == RunOf(LeafAt(node, i)) + Expand([]);
  }

  // ----- A well-formed tree: depths count down to the leaves, and logical numbers are positions.

  /** Extents that follow one another from file block at on. */
  predicate Numbered(leaves: seq<Leaf>, at: nat) {
    leaves == [] || (leaves[0].logical == at && Numbered(leaves[1..], at + leaves[0].length))
  }

  function Join(first: seq<nat>, rest: Option<seq<nat>>): Option<seq<nat>> {
    if rest.None? then None else Some(first + rest.value)
  }

  /** The blocks below a node of a given depth whose first file block is at. */
  function Strict(dev: seq<byte>, bs: nat, node: seq<byte>, depth: nat, at: nat): Option<seq<nat>>
    decreases depth, 1, 0
  {
    if Magic(node) != EXTENT_MAGIC || Depth(node) != depth || depth > MAX_DEPTH then None
    else if depth == 0 then if Numbered(Leaves(node), at) then Some(Expand(Leaves(node))) else None
    else StrictAll(dev, bs, Children(node), depth, at)
  }

  function StrictAll(dev: seq<byte>, bs: nat, children: seq<Child>, depth: nat, at: nat): Option<seq<nat>>
    decreases depth, 0, |children|
  {
    if children == [] then Some([])
    else if depth == 0 || children[0].logical != at then None
    else
      var first := Strict(dev, bs, BlockAt(dev, bs, children[0].block), depth - 1, at);
      if first.None? then None
      else Join(first.value, StrictAll(dev, bs, children[1..], depth, at + |first.value|))
  }

  /** The reader gets the blocks of a well-formed tree. */
  lemma {:induction false} StrictIsParsed(dev: seq<byte>, bs: nat, node: seq<byte>, depth: nat, at: nat)
    requires Strict(dev, bs, node, depth, at).Some?
    ensures Parse(dev, bs, node, depth) == Blocks(Strict(dev, bs, node, depth, at).value)
    decreases depth, 1, 0
  {
    hide Magic, Depth, Leaves, Children, Expand, Numbered;
    if depth > 0 {
      StrictAllIsParsed(dev, bs, Children(node), depth, at);
    }
  }

  lemma {:induction false} StrictAllIsParsed(dev: seq<byte>, bs: nat, children: seq<Child>, depth: nat, at: nat)
    requires StrictAll(dev, bs, children, depth, at).Some?
    ensures ParseAll(dev, bs, children, depth) == Blocks(StrictAll(dev, bs, children, depth, at).value)
    decreases depth, 0, |children|
  {
    hide Magic, Depth, Leaves, Children, Expand, Numbered, BlockAt;
    if children != [] {
      var node := BlockAt(dev, bs, children[0].block);
      StrictIsParsed(dev, bs, node, depth - 1, at);
      StrictAllIsParsed(dev, bs, children[1..], depth, at + |Strict(dev, bs, node, depth - 1, at).value|);
    }
  }

  /** The blocks that hold the nodes below a list of children. */
  function Visited(dev: seq<byte>, bs: nat, children: seq<Child>, depth: nat): set<nat>
    decreases depth, |children|
  {
    if children == [] || depth == 0 then {}
    else
      {children[0].block} +
      (if depth == 1 then {} else Visited(dev, bs, Children(BlockAt(dev, bs, children[0].block)), depth - 1)) +
      Visited(dev, bs, children[1..], depth)
  }

  /** A tree is read from its own blocks alone. */
  lemma {:induction false} StrictFrame(d: seq<byte>, d': seq<byte>, bs: nat, s: set<nat>, children: seq<Child>,
          depth: nat, at: nat)
    requires OnlyIn(d, d', bs, s) && Visited(d, bs, children, depth) !! s
    ensures StrictAll(d', bs, children, depth, at) == StrictAll(d, bs, children, depth, at)
    ensures Visited(d', bs, children, depth) == Visited(d, bs, children, depth)
    decreases depth, |children|
  {
    hide Magic, Depth, Leaves, Children, Expand, Numbered, BlockAt;
    if children != [] && depth > 0 {
      var b := children[0].block;
      var node := BlockAt(d, bs, b);
      assert BlockAt(d', bs, b) == node;
      if depth > 1 {
        StrictFrame(d, d', bs, s, Children(node), depth - 1, at);
      }
      var first := Strict(d, bs, node, depth - 1, at);
      StrictFrame(d, d', bs, s, children[1..], depth, if first.Some? then at + |first.value| else at);
    }
  }

  lemma JoinJoin(a: seq<nat>, b: seq<nat>, rest: Option<seq<nat>>)
    ensures Join(a, Join(b, rest)) == Join(a + b, rest)
  {
    if rest.Some? {
      assert a + (b + rest.value) == a + b + rest.value;
    }
  }

  lemma JoinNothing(rest: Option<seq<nat>>)
    ensures Join([], rest) == rest
  {
    if rest.Some? {
      assert [] + rest.value == rest.value;
    }
  }

  lemma {:induction false} VisitedAppend(dev: seq<byte>, bs: nat, a: seq<Child>, b: seq<Child>, depth: nat)
    ensures Visited(dev, bs, a + b, depth) == Visited(dev, bs, a, depth) + Visited(dev, bs, b, depth)
    decreases |a|
  {
    hide Children, BlockAt;
    if a == [] {
      assert a + b == b;
    } else if depth > 0 {
      assert (a + b)[1..] == a[1..] + b && (a + b)[0] == a[0];
      VisitedAppend(dev, bs, a[1..], b, depth);
    }
  }

  lemma {:induction false} StrictAppend(dev: seq<byte>, bs: nat, a: seq<Child>, b: seq<Child>, depth: nat, at: nat)
    ensures var first := StrictAll(dev, bs, a, depth, at);
      StrictAll(dev, bs, a + b, depth, at) ==
      if first.None? then None else Join(first.value, StrictAll(dev, bs, b, depth, at + |first.value|))
    decreases |a|
  {
    hide Magic, Depth, Leaves, Children, Expand, Numbered, BlockAt, Strict;
    if a == [] {
      assert a + b == b;
      JoinNothing(StrictAll(dev, bs, b, depth, at));
    } else if depth > 0 && a[0].logical == at {
      assert (a + b)[1..] == a[1..] + b && (a + b)[0] == a[0];
      var first := Strict(dev, bs, BlockAt(dev, bs, a[0].block), depth - 1, at);
      if first.Some? {
        StrictAppend(dev, bs, a[1..], b, depth, at + |first.value|);
        var x := StrictAll(dev, bs, a[1..], depth, at + |first.value|);
        if x.Some? {
          JoinJoin(first.value, x.value, StrictAll(dev, bs, b, depth, at + |first.value + x.value|));
        }
      }
    }
  }

  // ----- Extents of a list of blocks.

  lemma {:induction false} ExpandAppend(a: seq<Leaf>, b: seq<Leaf>)
    ensures Expand(a + b) == Expand(a) + Expand(b)
    decreases |a|
  {
    if a == [] {
      assert a + b == b;
    } else {
      assert (a + b)[1..] == a[1..] + b;
      ExpandAppend(a[1..], b);
    }
  }

  /** The file blocks of a list of extents. */
  function Length(leaves: seq<Leaf>): nat {
    |Expand(leaves)|
  }

  lemma {:induction false} NumberedAppend(a: seq<Leaf>, b: seq<Leaf>, at: nat)
    ensures Numbered(a + b, at) <==> Numbered(a, at) && Numbered(b, at + Length(a))
    decreases |a|
  {
    if a == [] {
      assert a + b == b;
    } else {
      assert (a + b)[1..] == a[1..] + b;
      NumberedAppend(a[1..], b, at + a[0].length);
    }
  }

  /** What contiguousRuns promises: leaves list data in order from file block 0 on, none too long,
      and none ending early where its blocks run on. */
  ghost predicate RunsOf(leaves: seq<Leaf>, data: seq<nat>) {
    && Expand(leaves) == data && Numbered(leaves, 0)
    && (forall k :: 0 <= k < |leaves| ==> 0 < leaves[k].length <= EXTENT_MAX_LEN)
    && (forall k :: 0 < k < |leaves| && leaves[k - 1].start + leaves[k - 1].length == leaves[k].start ==>
          leaves[k - 1].length == EXTENT_MAX_LEN)
  }

  /** contiguousRuns. */
  method ContiguousRuns(data: seq<nat>) returns (runs: seq<Leaf>)
    ensures RunsOf(runs, data) && |runs| <= |data|
  {
    hide Expand, Numbered, RunOf, RunsOf;
    runs := [];
    RunsOfNothing(data);
    var logical, i := 0, 0;
    while i < |data|
      invariant 0 <= i == logical <= |data| && |runs| <= i
      invariant RunsOf(runs, data[..i])
      invariant i < |data| && runs != [] ==> Ended(runs, data[i])
    {
      var j := i + 1;
      while j < |data| && data[j] == data[j - 1] + 1
        invariant i < j <= |data|
        invariant forall k :: i <= k < j ==> data[k] == data[i] + (k - i)
      {
        j := j + 1;
      }
      var runLen, phys := j - i, data[i];
      while runLen > 0
        invariant 0 <= runLen <= j - i && logical == j - runLen && phys == data[i] + (j - i - runLen)
        invariant |runs| <= logical && RunsOf(runs, data[..logical])
        invariant runs != [] && runLen == j - i ==> Ended(runs, phys)
        invariant runLen < j - i ==> runs != [] && runs[|runs| - 1].start + runs[|runs| - 1].length == phys
        invariant 0 < runLen < j - i ==> runs[|runs| - 1].length == EXTENT_MAX_LEN
      {
        var clen := if runLen > EXTENT_MAX_LEN then EXTENT_MAX_LEN else runLen;
        var run := Leaf(logical, clen, phys);
        OneMoreRun(runs, run, data);
        runs := runs + [run];
        logical := logical + clen;
        phys := phys + clen;
        runLen := runLen - clen;
      }
      i := j;
    }
    assert data[..|data|] == data;
  }

  /** The blocks from next on are no part of the last extent, or it is full. */
  ghost predicate Ended(runs: seq<Leaf>, next: nat)
    requires runs != []
  {
    var last := runs[|runs| - 1];
    last.start + last.length == next ==> last.length == EXTENT_MAX_LEN
  }

  lemma RunsOfNothing(data: seq<nat>)
    ensures RunsOf([], data[..0])
  {
  }

  lemma OneMoreRun(runs: seq<Leaf>, run: Leaf, data: seq<nat>)
    requires run.logical + run.length <= |data| && 0 < run.length <= EXTENT_MAX_LEN
    requires RunsOf(runs, data[..run.logical]) && (runs != [] ==> Ended(runs, run.start))
    requires forall k :: run.logical <= k < run.logical + run.length ==> data[k] == run.start + (k - run.logical)
    ensures RunsOf(runs + [run], data[..run.logical + run.length])
  {
    ExpandAppend(runs, [run]);
    NumberedAppend(runs, [run], 0);
    assert Expand([run]) == RunOf(run) + Expand([]);
    assert RunOf(run) == data[run.logical..run.logical + run.length];
    assert data[..run.logical + run.length] == data[..run.logical] + data[run.logical..run.logical + run.length];
  }
}
