/** pkg/ext/format.go and reader.go: direct and indirect block pointers. */
module ExtIndirect {
  import opened Sizes
  import opened Bytes
  import opened Files
  import opened Alloc
  import opened RunAllocation
  import opened ExtLayout

  const DIRECT_BLOCKS: nat := 12
  const TOTAL_POINTERS: nat := 15

  datatype MapError = Full | TooLarge

  datatype Mapped<T> = Done(value: T) | Failed(error: MapError)

  // ----- What the reader finds.

  /** The little-endian 32-bit pointers of a block. */
  function Pointers(block: seq<byte>): (p: seq<nat>)
    ensures |p| == |block| / 4
  {
    seq<nat>(|block| / 4, i requires 0 <= i => Get(Little, block, 4 * i, 4))
  }

  /** The block numbers below the pointer blk, at most room of them. Level 0 is a data block. */
  function Walk(data: seq<byte>, bs: nat, level: nat, blk: nat, room: nat): (out: seq<nat>)
    requires room > 0
    ensures |out| <= room
    decreases level, 0
  {
    if level == 0 then [blk]
    else if blk == 0 then []
    else Gather(data, bs, level - 1, Pointers(BlockAt(data, bs, blk)), room)
  }

  function Gather(data: seq<byte>, bs: nat, level: nat, ptrs: seq<nat>, room: nat): (out: seq<nat>)
    ensures |out| <= room
    decreases level, |ptrs|
  {
    if ptrs == [] || room == 0 then []
    else
      var sub := Walk(data, bs, level, ptrs[0], room);
      sub + Gather(data, bs, level, ptrs[1..], room - |sub|)
  }

  /** The index blocks that walk visits. */
  function Nodes(data: seq<byte>, bs: nat, level: nat, blk: nat, room: nat): set<nat>
    requires room > 0
    decreases level, 0
  {
    if level == 0 || blk == 0 then {}
    else {blk} + NodesOf(data, bs, level - 1, Pointers(BlockAt(data, bs, blk)), room)
  }

  function NodesOf(data: seq<byte>, bs: nat, level: nat, ptrs: seq<nat>, room: nat): set<nat>
    decreases level, |ptrs|
  {
    if ptrs == [] || room == 0 then {}
    else
      Nodes(data, bs, level, ptrs[0], room) +
      NodesOf(data, bs, level, ptrs[1..], room - |Walk(data, bs, level, ptrs[0], room)|)
  }

  /** A walk reads nothing but its index blocks. */
  lemma {:induction false} WalkFrame(d: seq<byte>, d': seq<byte>, bs: nat, s: set<nat>, level: nat, blk: nat, room: nat)
    requires room > 0 && OnlyIn(d, d', bs, s) && Nodes(d, bs, level, blk, room) !! s
    ensures Walk(d', bs, level, blk, room) == Walk(d, bs, level, blk, room)
    ensures Nodes(d', bs, level, blk, room) == Nodes(d, bs, level, blk, room)
    decreases level, 0
  {
    if level > 0 && blk != 0 {
      assert BlockAt(d', bs, blk) == BlockAt(d, bs, blk);
      GatherFrame(d, d', bs, s, level - 1, Pointers(BlockAt(d, bs, blk)), room);
    }
  }

  lemma {:induction false} GatherFrame(d: seq<byte>, d': seq<byte>, bs: nat, s: set<nat>, level: nat, ptrs: seq<nat>,
          room: nat)
    requires OnlyIn(d, d', bs, s) && NodesOf(d, bs, level, ptrs, room) !! s
    ensures Gather(d', bs, level, ptrs, room) == Gather(d, bs, level, ptrs, room)
    ensures NodesOf(d', bs, level, ptrs, room) == NodesOf(d, bs, level, ptrs, room)
    decreases level, |ptrs|
  {
    hide OnlyIn;
    if ptrs != [] && room > 0 {
      WalkFrame(d, d', bs, s, level, ptrs[0], room);
      GatherFrame(d, d', bs, s, level, ptrs[1..], room - |Walk(d, bs, level, ptrs[0], room)|);
    }
  }

  /** One more pointer. */
  lemma {:induction false} GatherSnoc(d: seq<byte>, bs: nat, level: nat, ptrs: seq<nat>, p: nat, room: nat)
    requires |Gather(d, bs, level, ptrs, room)| < room
    ensures var rest := room - |Gather(d, bs, level, ptrs, room)|;
      && Gather(d, bs, level, ptrs + [p], room) == Gather(d, bs, level, ptrs, room) + Walk(d, bs, level, p, rest)
      && NodesOf(d, bs, level, ptrs + [p], room) == NodesOf(d, bs, level, ptrs, room) + Nodes(d, bs, level, p, rest)
    decreases |ptrs|
  {
    hide Walk, Nodes;
    if ptrs == [] {
      assert ([p])[1..] == [];
      var sub := Walk(d, bs, level, p, room);
      assert Gather(d, bs, level, [], room - |sub|) == [];
      assert NodesOf(d, bs, level, [], room - |sub|) == {};
      assert [] + [p] == [p];
    } else {
      var sub := Walk(d, bs, level, ptrs[0], room);
      GatherSnoc(d, bs, level, ptrs[1..], p, room - |sub|);
      assert (ptrs + [p])[1..] == ptrs[1..] + [p];
    }
  }

  /** Pointers past the point where room runs out are not looked at. */
  lemma {:induction false} GatherEnough(d: seq<byte>, bs: nat, level: nat, ptrs: seq<nat>, more: seq<nat>, room: nat)
    requires |Gather(d, bs, level, ptrs, room)| == room || more == []
    ensures Gather(d, bs, level, ptrs + more, room) == Gather(d, bs, level, ptrs, room)
    ensures NodesOf(d, bs, level, ptrs + more, room) == NodesOf(d, bs, level, ptrs, room)
    decreases |ptrs|
  {
    hide Walk, Nodes;
    if more == [] {
      assert ptrs + more == ptrs;
    } else if ptrs != [] && room > 0 {
      var sub := Walk(d, bs, level, ptrs[0], room);
      GatherEnough(d, bs, level, ptrs[1..], more, room - |sub|);
      assert (ptrs + more)[1..] == ptrs[1..] + more;
    }
  }

  // ----- The reader.

  function Room(need: nat, out: seq<nat>): nat {
    if |out| < need then need - |out| else 0
  }

  function Found(data: seq<byte>, bs: nat, level: nat, blk: nat, room: nat): seq<nat> {
    if room == 0 then [] else Walk(data, bs, level, blk, room)
  }

  /** readIndirect, appending to out until it holds need blocks. */
  method ReadIndirect(dev: File, bs: nat, blk: nat, level: nat, need: nat, out: seq<nat>) returns (r: seq<nat>)
    requires level > 0
    ensures r == out + Found(dev.data, bs, level, blk, Room(need, out))
    decreases level
  {
    hide Slice, Walk, BlockAt, Gather, Found, Pointers, Get;
    r := out;
    ghost var room := Room(need, out);
    FoundBelow(dev.data, bs, level, blk, room);
    if blk == 0 {
      return;
    }
    var buf := dev.Read(blk * bs, bs);
    ghost var ptrs := Pointers(buf);
    BlockIs(dev.data, bs, blk, buf);
    GatherBase(dev.data, bs, level - 1, room);
    assert ptrs[..0] == [];
    var i := 0;
    while i < bs / 4 && |r| < need
      invariant 0 <= i <= bs / 4
      invariant r == out + Gather(dev.data, bs, level - 1, ptrs[..i], room)
    {
      ghost var before := r;
      var ptr := Get(Little, buf, 4 * i, 4);
      NextPointer(dev.data, bs, level - 1, buf, i, room, out);
      if level == 1 {
        FoundData(dev.data, bs, ptr, Room(need, r));
        r := r + [ptr];
      } else {
        r := ReadIndirect(dev, bs, ptr, level - 1, need, r);
      }
      assert r == before + Found(dev.data, bs, level - 1, ptr, Room(need, before));
      i := i + 1;
    }
    GatherEnough(dev.data, bs, level - 1, ptrs[..i], ptrs[i..], room);
    assert ptrs[..i] + ptrs[i..] == ptrs;
  }

  lemma FoundBelow(data: seq<byte>, bs: nat, level: nat, blk: nat, room: nat)
    requires level > 0
    ensures Found(data, bs, level, blk, room) ==
            if blk == 0 then [] else Gather(data, bs, level - 1, Pointers(BlockAt(data, bs, blk)), room)
  {
  }

  lemma FoundData(data: seq<byte>, bs: nat, p: nat, room: nat)
    ensures Found(data, bs, 0, p, room) == if room == 0 then [] else [p]
  {
  }

  lemma BlockIs(data: seq<byte>, bs: nat, blk: nat, buf: seq<byte>)
    requires buf == Slice(data, blk * bs, bs)
    ensures buf == BlockAt(data, bs, blk)
  {
  }

  lemma GatherBase(data: seq<byte>, bs: nat, level: nat, room: nat)
    ensures Gather(data, bs, level, [], room) == [] && NodesOf(data, bs, level, [], room) == {}
  {
  }

  lemma NextPointer(data: seq<byte>, bs: nat, level: nat, buf: seq<byte>, i: nat, room: nat, out: seq<nat>)
    requires i < |buf| / 4
    ensures var g, p := Gather(data, bs, level, Pointers(buf)[..i], room), Get(Little, buf, 4 * i, 4);
      out + Gather(data, bs, level, Pointers(buf)[..i + 1], room) == out + g + Found(data, bs, level, p, room - |g|)
  {
    hide Gather, Walk, Slice, Get;
    var ptrs, p := Pointers(buf), Get(Little, buf, 4 * i, 4);
    var g := Gather(data, bs, level, ptrs[..i], room);
    assert ptrs[..i] + [p] == ptrs[..i + 1];
    if |g| < room {
      GatherSnoc(data, bs, level, ptrs[..i], p, room);
    } else {
      GatherEnough(data, bs, level, ptrs[..i], [p], room);
    }
  }

  /** What the reader has after the direct pointers and the first levels of indirection. */
  function Through(data: seq<byte>, bs: nat, block: seq<nat>, need: nat, levels: nat): (out: seq<nat>)
    requires |block| == TOTAL_POINTERS && levels <= 3
    ensures |out| <= need
  {
    if levels == 0 then block[..if need < DIRECT_BLOCKS then need else DIRECT_BLOCKS]
    else
      var out := Through(data, bs, block, need, levels - 1);
      out + Found(data, bs, levels, block[DIRECT_BLOCKS + levels - 1], Room(need, out))
  }

  function IndexOf(data: seq<byte>, bs: nat, block: seq<nat>, need: nat, levels: nat): set<nat>
    requires |block| == TOTAL_POINTERS && levels <= 3
  {
    if levels == 0 then {}
    else
      IndexOf(data, bs, block, need, levels - 1) +
      NodesBelow(data, bs, levels, block[DIRECT_BLOCKS + levels - 1], Room(need, Through(data, bs, block, need,
          levels - 1)))
  }

  function NodesBelow(data: seq<byte>, bs: nat, level: nat, blk: nat, room: nat): set<nat> {
    if room == 0 then {} else Nodes(data, bs, level, blk, room)
  }

  /** blockList for an inode without extents. It never has more than need blocks to cut off. */
  method BlockList(dev: File, bs: nat, block: seq<nat>, need: nat) returns (out: seq<nat>)
    requires |block| == TOTAL_POINTERS
    ensures out == Through(dev.data, bs, block, need, 3)
  {
    hide Found;
    out := [];
    var i := 0;
    while i < DIRECT_BLOCKS && |out| < need
      invariant 0 <= i == |out| <= DIRECT_BLOCKS && i <= need && out == block[..i]
    {
      out := out + [block[i]];
      i := i + 1;
    }
    var level := 1;
    while level <= 3
      invariant 1 <= level <= 4 && out == Through(dev.data, bs, block, need, level - 1)
    {
      FoundNothing(dev.data, bs, level, block[DIRECT_BLOCKS + level - 1]);
      if |out| >= need {
        ThroughDone(dev.data, bs, block, need, level - 1);
        break;
      }
      out := ReadIndirect(dev, bs, block[DIRECT_BLOCKS + level - 1], level, need, out);
      level := level + 1;
    }
  }

  lemma FoundNothing(data: seq<byte>, bs: nat, level: nat, blk: nat)
    ensures Found(data, bs, level, blk, 0) == []
  {
  }

  lemma {:induction false} ThroughDone(data: seq<byte>, bs: nat, block: seq<nat>, need: nat, levels: nat)
    requires |block| == TOTAL_POINTERS && levels <= 3 && |Through(data, bs, block, need, levels)| >= need
    ensures Through(data, bs, block, need, 3) == Through(data, bs, block, need, levels)
    ensures IndexOf(data, bs, block, need, 3) == IndexOf(data, bs, block, need, levels)
    decreases 3 - levels
  {
    if levels < 3 {
      ThroughDone(data, bs, block, need, levels + 1);
    }
  }

  // ----- The writer.

  /** How many data blocks one pointer of a level reaches. */
  function Capacity(per: nat, level: nat): nat {
    if level == 0 then 1 else per * Capacity(per, level - 1)
  }

  /** The blocks from idx to next are mapped below blk, by the blocks of kids and no others. */
  ghost predicate Maps(dev: seq<byte>, bs: nat, level: nat, blk: nat, data: seq<nat>, idx: nat, next: nat,
          kids: set<nat>) {
    && idx < |data| && next == Lesser(idx + Capacity(bs / 4, level), |data|)
    && Walk(dev, bs, level, blk, |data| - idx) == data[idx..next]
    && Nodes(dev, bs, level, blk, |data| - idx) == kids
  }

  /** The first i pointers of an index block. */
  ghost predicate MapsSome(dev: seq<byte>, bs: nat, level: nat, ptrs: seq<nat>, data: seq<nat>, idx: nat, next: nat,
          kids: set<nat>) {
    && idx < |data| && next == Lesser(idx + |ptrs| * Capacity(bs / 4, level), |data|)
    && Gather(dev, bs, level, ptrs, |data| - idx) == data[idx..next]
    && NodesOf(dev, bs, level, ptrs, |data| - idx) == kids
  }

  /** buf starts with the pointers ptrs and is zero after them. */
  ghost predicate Holds(buf: seq<byte>, ptrs: seq<nat>) {
    |ptrs| <= |buf| / 4 && Pointers(buf) == ptrs + seq<nat>(|buf| / 4 - |ptrs|, _ => 0)
  }

  lemma ZerosHold(bs: nat)
    ensures Holds(Zeros(bs), [])
  {
    hide Get;
    forall i: nat | i < bs / 4
      ensures Pointers(Zeros(bs))[i] == 0
    {
      ZeroPointer(bs, 4 * i);
    }
    assert Pointers(Zeros(bs)) == [] + seq<nat>(bs / 4, _ => 0);
  }

  lemma ZeroPointer(bs: nat, off: nat)
    ensures Get(Little, Zeros(bs), off, 4) == 0
  {
    Widths();
    DecodeOfEncode(Little, 0, 4);
    assert Slice(Zeros(bs), off, 4) == [0, 0, 0, 0] == LE(0, 4);
  }

  lemma PutPointer(buf: seq<byte>, ptrs: seq<nat>, p: nat)
    requires Holds(buf, ptrs) && |ptrs| < |buf| / 4 && p < TWO32
    ensures var now := Spliced(buf, LE(p, 4), 4 * |ptrs|); |now| == |buf| && Holds(now, ptrs + [p])
  {
    hide Pointers, LE, Spliced;
    PointersPut(buf, |ptrs|, p);
    assert Pointers(buf)[|ptrs| := p] == ptrs + [p] + seq<nat>(|buf| / 4 - (|ptrs| + 1), _ => 0);
  }

  lemma PointersPut(buf: seq<byte>, k: nat, p: nat)
    requires k < |buf| / 4 && p < TWO32
    ensures var now := Spliced(buf, LE(p, 4), 4 * k); |now| == |buf| && Pointers(now) == Pointers(buf)[k := p]
  {
    hide Get, LE;
    var now := Spliced(buf, LE(p, 4), 4 * k);
    forall i: nat | i < |buf| / 4
      ensures Get(Little, now, 4 * i, 4) == if i == k then p else Get(Little, buf, 4 * i, 4)
    {
      PointerPut(buf, k, p, i);
    }
  }

  lemma PointerPut(buf: seq<byte>, k: nat, p: nat, i: nat)
    requires p < TWO32
    ensures Get(Little, Spliced(buf, LE(p, 4), 4 * k), 4 * i, 4) == if i == k then p else Get(Little, buf, 4 * i, 4)
  {
    hide LE, UnLE;
    if i == k {
      Widths();
      SliceOfWrite(buf, LE(p, 4), 4 * k);
      DecodeOfEncode(Little, p, 4);
    } else {
      SliceElsewhere(buf, LE(p, 4), 4 * k, 4 * i, 4);
    }
  }

  /** buildIndirect: one index block of a level, its subtree built before it is written. */
  method BuildIndirect(l: Layouter, level: nat, data: seq<nat>, idx: nat, ghost file: nat)
      returns (r: Mapped<nat>, next: nat)
    requires l.Valid() && level > 0 && idx < |data| && 0 in l.al.Used() && l.geo.totalBlocks <= TWO32
    requires l.geo.blockSize >= 4 && forall k :: 0 <= k < |data| ==> data[k] < TWO32
    modifies l`owner, l`curMeta, l`index, l.al, l.al.words, l.used, l.dev
    ensures l.Valid()
    ensures old(l.al.Used()) <= l.al.Used()
    ensures OnlyIn(old(l.dev.data), l.dev.data, l.geo.blockSize, l.al.Used() - old(l.al.Used()))
    ensures r.Done? ==> 0 < r.value < TWO32
    ensures r.Done? ==> Maps(l.dev.data, l.geo.blockSize, level, r.value, data, idx, next,
      l.al.Used() - old(l.al.Used()))
    ensures r.Done? ==> l.index == old(l.index) + (l.al.Used() - old(l.al.Used()))
    ensures r.Done? ==> l.owner == Owned(old(l.owner), l.al.Used() - old(l.al.Used()), Index(file))
    ensures r.Failed? ==> r.error == Full && FreeCount(l.al.Used(), l.geo.totalBlocks) == 0
    decreases level
  {
    hide Mirror, FreeCount, OnlyIn, Maps, MapsSome, Holds, Owned, LE, Layouter.Valid, Bitmap.Used, Spliced, Zeros;
    var bs := l.geo.blockSize;
    ghost var used0, index0, owner0, dev0 := l.al.Used(), l.index, l.owner, l.dev.data;
    next := idx;
    OnlyInNothing(dev0, bs, {});
    var b := l.AllocMetaBlock(file);
    if b.Err? {
      assert l.al.Used() - used0 == {};
      return Failed(Full), next;
    }
    var blk := b.value;
    var buf: seq<byte> := Zeros(bs);
    ghost var ptrs: seq<nat>, kids: set<nat> := [], {};
    ZerosHold(bs);
    SomeNothing(l.dev.data, bs, level - 1, data, idx);
    OwnedOne(owner0, blk, Index(file));
    var i := 0;
    while i < bs / 4 && next < |data|
      invariant 0 <= i == |ptrs| <= bs / 4 && |buf| == bs && next <= |data|
      invariant l.Valid() && used0 + {blk} <= l.al.Used() && kids == l.al.Used() - used0 - {blk}
      invariant OnlyIn(dev0, l.dev.data, bs, kids)
      invariant Holds(buf, ptrs)
      invariant MapsSome(l.dev.data, bs, level - 1, ptrs, data, idx, next, kids)
      invariant l.index == index0 + {blk} + kids
      invariant l.owner == Owned(owner0, {blk} + kids, Index(file))
    {
      ghost var used1, dev1, was := l.al.Used(), l.dev.data, next;
      var ptr: nat;
      if level == 1 {
        ptr := data[next];
        OneData(dev1, bs, data, next);
        NothingMore(dev1, bs, used1, l.owner, Index(file));
        next := next + 1;
      } else {
        var p, n := BuildIndirect(l, level - 1, data, next, file);
        next := n;
        if p.Failed? {
          OnlyInChain(dev0, dev1, l.dev.data, bs, kids, l.al.Used() - used1, l.al.Used() - used0);
          return Failed(Full), next;
        }
        ptr := p.value;
      }
      ghost var more := l.al.Used() - used1;
      Added(used0, used1, l.al.Used(), blk, kids, more);
      NextChild(dev1, l.dev.data, bs, level - 1, ptrs, ptr, data, idx, was, next, kids, more);
      OnlyInChain(dev0, dev1, l.dev.data, bs, kids, more, kids + more);
      OwnedTwice(owner0, {blk} + kids, more, Index(file));
      PutPointer(buf, ptrs, ptr);
      buf := Spliced(buf, LE(ptr, 4), 4 * i);
      ptrs, kids, i := ptrs + [ptr], kids + more, i + 1;
    }
    ghost var dev2 := l.dev.data;
    l.WriteBlock(blk, buf);
    NodeWritten(dev2, l.dev.data, bs, level, blk, buf, ptrs, data, idx, next, kids);
    OnlyInChain(dev0, dev2, l.dev.data, bs, kids, {blk}, l.al.Used() - used0);
    assert l.al.Used() - used0 == {blk} + kids;
    return Done(blk), next;
  }

  lemma Added(used0: set<nat>, used1: set<nat>, used2: set<nat>, blk: nat, kids: set<nat>, more: set<nat>)
    requires used0 + {blk} <= used1 <= used2 && kids == used1 - used0 - {blk} && more == used2 - used1
    ensures kids !! more && kids + more == used2 - used0 - {blk} && kids + more <= used2 - used0
    ensures {blk} + (kids + more) == {blk} + kids + more
  {
  }

  lemma NothingMore(dev: seq<byte>, bs: nat, used: set<nat>, owner: map<nat, Owner>, who: Owner)
    ensures used - used == {} && OnlyIn(dev, dev, bs, {}) && Owned(owner, {}, who) == owner
  {
    NoBlocks(used, owner, who);
  }

  lemma OwnedOne(owner: map<nat, Owner>, b: nat, who: Owner)
    ensures Owned(owner, {b} + {}, who) == owner[b := who]
  {
  }

  lemma OwnedTwice(owner: map<nat, Owner>, s: set<nat>, t: set<nat>, who: Owner)
    ensures Owned(Owned(owner, s, who), t, who) == Owned(owner, s + t, who)
  {
  }

  /** One more child, its blocks apart from those of the others. */
  lemma NextChild(d: seq<byte>, d': seq<byte>, bs: nat, level: nat, ptrs: seq<nat>, p: nat, data: seq<nat>,
                  idx: nat, was: nat, next: nat, kids: set<nat>, more: set<nat>)
    requires MapsSome(d, bs, level, ptrs, data, idx, was, kids) && was < |data|
    requires Maps(d', bs, level, p, data, was, next, more) && OnlyIn(d, d', bs, more) && kids !! more
    ensures MapsSome(d', bs, level, ptrs + [p], data, idx, next, kids + more) && next <= |data|
  {
    hide Gather, NodesOf, Walk, Nodes, OnlyIn, Capacity;
    var room, cap := |data| - idx, Capacity(bs / 4, level);
    GatherFrame(d, d', bs, more, level, ptrs, room);
    assert was == idx + |ptrs| * cap;
    assert |Gather(d, bs, level, ptrs, room)| == was - idx;
    GatherSnoc(d', bs, level, ptrs, p, room);
    assert (|ptrs| + 1) * cap == |ptrs| * cap + cap;
    assert data[idx..was] + data[was..next] == data[idx..next];
  }

  lemma NodeWritten(d: seq<byte>, d': seq<byte>, bs: nat, level: nat, blk: nat, buf: seq<byte>, ptrs: seq<nat>,
                    data: seq<nat>, idx: nat, next: nat, kids: set<nat>)
    requires level > 0 && blk != 0 && MapsSome(d, bs, level - 1, ptrs, data, idx, next, kids) && Holds(buf, ptrs)
    requires |buf| == bs && (|ptrs| == bs / 4 || next == |data|)
    requires OnlyIn(d, d', bs, {blk}) && blk !in kids && BlockAt(d', bs, blk) == buf
    ensures Maps(d', bs, level, blk, data, idx, next, {blk} + kids)
  {
    hide Gather, NodesOf, OnlyIn, BlockAt, Pointers;
    var room := |data| - idx;
    GatherFrame(d, d', bs, {blk}, level - 1, ptrs, room);
    var zeros := seq<nat>(bs / 4 - |ptrs|, _ => 0);
    GatherEnough(d', bs, level - 1, ptrs, zeros, room);
    if |ptrs| == bs / 4 {
      assert Capacity(bs / 4, level) == |ptrs| * Capacity(bs / 4, level - 1);
    } else {
      MulMono(|ptrs|, bs / 4, Capacity(bs / 4, level - 1));
    }
  }

  lemma SomeNothing(dev: seq<byte>, bs: nat, level: nat, data: seq<nat>, idx: nat)
    requires idx < |data|
    ensures MapsSome(dev, bs, level, [], data, idx, idx, {})
  {
  }

  lemma OneData(dev: seq<byte>, bs: nat, data: seq<nat>, idx: nat)
    requires idx < |data|
    ensures Maps(dev, bs, 0, data[idx], data, idx, idx + 1, {})
  {
  }

  /** The most blocks the direct pointers and the first levels reach. */
  function Reach(per: nat, levels: nat): nat {
    if levels == 0 then DIRECT_BLOCKS else Reach(per, levels - 1) + Capacity(per, levels)
  }

  /** The first next blocks of data are mapped by the first levels, through the index blocks kids. */
  ghost predicate MapsThrough(dev: seq<byte>, bs: nat, block: seq<nat>, data: seq<nat>, levels: nat, next: nat,
          kids: set<nat>) {
    && |block| == TOTAL_POINTERS && levels <= 3 && next == Lesser(Reach(bs / 4, levels), |data|)
    && Through(dev, bs, block, |data|, levels) == data[..next]
    && IndexOf(dev, bs, block, |data|, levels) == kids
  }

  /** What a mapping leaves alone: other blocks, and pointers not yet set. */
  lemma {:induction false} ThroughFrame(d: seq<byte>, d': seq<byte>, bs: nat, s: set<nat>, block: seq<nat>,
          block': seq<nat>,
                                        need: nat, levels: nat)
    requires |block| == |block'| == TOTAL_POINTERS && levels <= 3
    requires block'[..DIRECT_BLOCKS + levels] == block[..DIRECT_BLOCKS + levels]
    requires OnlyIn(d, d', bs, s) && IndexOf(d, bs, block, need, levels) !! s
    ensures Through(d', bs, block', need, levels) == Through(d, bs, block, need, levels)
    ensures IndexOf(d', bs, block', need, levels) == IndexOf(d, bs, block, need, levels)
    decreases levels
  {
    hide OnlyIn, Walk, Nodes;
    if levels == 0 {
      assert block'[..if need < DIRECT_BLOCKS then need else DIRECT_BLOCKS] ==
             block[..DIRECT_BLOCKS][..if need < DIRECT_BLOCKS then need else DIRECT_BLOCKS];
    } else {
      assert block'[..DIRECT_BLOCKS + levels - 1] == block'[..DIRECT_BLOCKS + levels][..DIRECT_BLOCKS + levels - 1];
      assert block[..DIRECT_BLOCKS + levels - 1] == block[..DIRECT_BLOCKS + levels][..DIRECT_BLOCKS + levels - 1];
      ThroughFrame(d, d', bs, s, block, block', need, levels - 1);
      var p := block[DIRECT_BLOCKS + levels - 1];
      assert block[..DIRECT_BLOCKS + levels][DIRECT_BLOCKS + levels - 1] == p;
      assert block'[..DIRECT_BLOCKS + levels][DIRECT_BLOCKS + levels - 1] == block'[DIRECT_BLOCKS + levels - 1];
      var room := Room(need, Through(d, bs, block, need, levels - 1));
      if room > 0 {
        WalkFrame(d, d', bs, s, levels, p, room);
      }
    }
  }

  lemma NextLevel(d: seq<byte>, d': seq<byte>, bs: nat, block: seq<nat>, p: nat, data: seq<nat>, level: nat,
                  was: nat, next: nat, kids: set<nat>, more: set<nat>)
    requires 1 <= level <= 3 && MapsThrough(d, bs, block, data, level - 1, was, kids) && was < |data|
    requires Maps(d', bs, level, p, data, was, next, more) && OnlyIn(d, d', bs, more) && kids !! more
    ensures MapsThrough(d', bs, block[DIRECT_BLOCKS + level - 1 := p], data, level, next, kids + more) && next <= |data|
  {
    hide OnlyIn, Walk, Nodes, Capacity;
    ThroughFrame(d, d', bs, more, block, block[DIRECT_BLOCKS + level - 1 := p], |data|, level - 1);
    assert data[..was] + data[was..next] == data[..next];
  }

  lemma NoMoreLevels(d: seq<byte>, bs: nat, block: seq<nat>, data: seq<nat>, level: nat, kids: set<nat>)
    requires 1 <= level <= 3 && MapsThrough(d, bs, block, data, level - 1, |data|, kids)
    ensures MapsThrough(d, bs, block, data, level, |data|, kids)
  {
  }

  lemma DirectBlocks(d: seq<byte>, bs: nat, block: seq<nat>, data: seq<nat>, next: nat)
    requires |block| == TOTAL_POINTERS && next == Lesser(DIRECT_BLOCKS, |data|) && block[..next] == data[..next]
    ensures MapsThrough(d, bs, block, data, 0, next, {})
  {
  }

  /** i_blocks: 512-byte sectors, in 32 bits. */
  function Sectors(blocks: nat, bs: nat): nat {
    blocks * (bs / 512) % TWO32
  }

  /** The sectors of so many data blocks and the blocks of their index. */
  function SectorsOf(blocks: nat, index: set<nat>, bs: nat): nat {
    Sectors(blocks + |index|, bs)
  }

  method FillDirect(data: seq<nat>) returns (block: seq<nat>, idx: nat)
    ensures idx <= |data|
    ensures forall d, bs :: MapsThrough(d, bs, block, data, 0, idx, {})
  {
    hide MapsThrough;
    block := seq<nat>(TOTAL_POINTERS, _ => 0);
    idx := 0;
    while idx < DIRECT_BLOCKS && idx < |data|
      invariant 0 <= idx <= DIRECT_BLOCKS && idx <= |data| && |block| == TOTAL_POINTERS
      invariant block[..idx] == data[..idx]
    {
      block := block[idx := data[idx]];
      idx := idx + 1;
    }
    forall d, bs
      ensures MapsThrough(d, bs, block, data, 0, idx, {})
    {
      DirectBlocks(d, bs, block, data, idx);
    }
  }

  /** The state some way through mapBlocks: before is what the run found. */
  datatype Before = Before(used: set<nat>, owner: map<nat, Owner>, dev: seq<byte>)

  ghost predicate Mapping(b: Before, l: Layouter, block: seq<nat>, data: seq<nat>, levels: nat, next: nat, file: nat)
    reads l, l.al, l.dev
  {
    && b.used <= l.al.Used() && l.index == l.al.Used() - b.used
    && OnlyIn(b.dev, l.dev.data, l.geo.blockSize, l.al.Used() - b.used)
    && l.owner == Owned(b.owner, l.al.Used() - b.used, Index(file))
    && MapsThrough(l.dev.data, l.geo.blockSize, block, data, levels, next, l.al.Used() - b.used)
  }

  /** One level of indirection, when there are blocks left for it. */
  method MapLevel(ghost b: Before, l: Layouter, level: nat, block: seq<nat>, data: seq<nat>, idx: nat, ghost file: nat)
      returns (r: Mapped<seq<nat>>, next: nat)
    requires l.Valid() && 0 in b.used && l.geo.totalBlocks <= TWO32 && 1 <= level <= 3
    requires l.geo.blockSize >= 4 && forall k :: 0 <= k < |data| ==> data[k] < TWO32
    requires |block| == TOTAL_POINTERS && idx <= |data| && Mapping(b, l, block, data, level - 1, idx, file)
    modifies l`owner, l`curMeta, l`index, l.al, l.al.words, l.used, l.dev
    ensures l.Valid()
    ensures r.Done? ==> |r.value| == TOTAL_POINTERS && next <= |data| && Mapping(b, l, r.value, data, level, next, file)
    ensures b.used <= l.al.Used() && OnlyIn(b.dev, l.dev.data, l.geo.blockSize, l.al.Used() - b.used)
    ensures r.Failed? ==> r == Failed(Full) && FreeCount(l.al.Used(), l.geo.totalBlocks) == 0
  {
    hide OnlyIn, Maps, MapsThrough, Owned, Bitmap.Used, Layouter.Valid, FreeCount;
    var bs := l.geo.blockSize;
    if idx == |data| {
      NoMoreLevels(l.dev.data, bs, block, data, level, l.al.Used() - b.used);
      return Done(block), idx;
    }
    ghost var used1, dev1 := l.al.Used(), l.dev.data;
    var p, n := BuildIndirect(l, level, data, idx, file);
    ghost var kids, more := used1 - b.used, l.al.Used() - used1;
    assert kids + more == l.al.Used() - b.used;
    OnlyInChain(b.dev, dev1, l.dev.data, bs, kids, more, kids + more);
    if p.Failed? {
      return Failed(Full), n;
    }
    NextLevel(dev1, l.dev.data, bs, block, p.value, data, level, idx, n, kids, more);
    OwnedTwice(b.owner, kids, more, Index(file));
    return Done(block[DIRECT_BLOCKS + level - 1 := p.value]), n;
  }

  /** The pointers of an inode list data, through the blocks taken since b, which are the index of
      the file and counted in its sectors. */
  ghost predicate MapsAll(b: Before, l: Layouter, block: seq<nat>, data: seq<nat>, sectors: nat, file: nat)
    reads l, l.al, l.dev
  {
    && |block| == TOTAL_POINTERS
    && Through(l.dev.data, l.geo.blockSize, block, |data|, 3) == data
    && IndexOf(l.dev.data, l.geo.blockSize, block, |data|, 3) == l.al.Used() - b.used
    && l.owner == Owned(b.owner, l.al.Used() - b.used, Index(file))
    && sectors == SectorsOf(|data|, l.al.Used() - b.used, l.geo.blockSize)
  }

  /** mapBlocks without extents: the 15 pointers of i_block and the sectors of i_blocks. */
  method MapBlocks(l: Layouter, data: seq<nat>, ghost file: nat) returns (r: Mapped<seq<nat>>, sectors: nat)
    requires l.Valid() && 0 in l.al.Used() && l.geo.totalBlocks <= TWO32 && l.index == {}
    requires l.geo.blockSize >= 4 && forall k :: 0 <= k < |data| ==> data[k] < TWO32
    modifies l`owner, l`curMeta, l`index, l.al, l.al.words, l.used, l.dev
    ensures l.Valid()
    ensures old(l.al.Used()) <= l.al.Used()
    ensures OnlyIn(old(l.dev.data), l.dev.data, l.geo.blockSize, l.al.Used() - old(l.al.Used()))
    ensures r.Done? ==>
      MapsAll(Before(old(l.al.Used()), old(l.owner), old(l.dev.data)), l, r.value, data, sectors, file)
    ensures r == Failed(TooLarge) ==> |data| > Reach(l.geo.blockSize / 4, 3)
    ensures r == Failed(Full) ==> FreeCount(l.al.Used(), l.geo.totalBlocks) == 0
    ensures r.Done? ==> |data| <= Reach(l.geo.blockSize / 4, 3)
  {
    hide FreeCount, MapsAll, Lesser, OnlyIn, Mapping, MapsThrough, Owned, Bitmap.Used, Layouter.Valid, Reach, Through,
         IndexOf, Sectors;
    ghost var b := Before(l.al.Used(), l.owner, l.dev.data);
    var block: seq<nat>, idx: nat := FillDirect(data);
    MappingStarts(b, l, block, data, idx, file);
    var m;
    m, idx := MapLevel(b, l, 1, block, data, idx, file);
    if m.Failed? {
      return Failed(Full), 0;
    }
    m, idx := MapLevel(b, l, 2, m.value, data, idx, file);
    if m.Failed? {
      return Failed(Full), 0;
    }
    m, idx := MapLevel(b, l, 3, m.value, data, idx, file);
    if m.Failed? {
      return Failed(Full), 0;
    }
    MappingEnds(b, l, m.value, data, idx, file);
    if idx < |data| {
      return Failed(TooLarge), 0;
    }
    return m, Sectors(|data| + l.curMeta, l.geo.blockSize);
  }

  lemma MappingStarts(b: Before, l: Layouter, block: seq<nat>, data: seq<nat>, idx: nat, file: nat)
    requires b == Before(l.al.Used(), l.owner, l.dev.data) && l.index == {}
    requires MapsThrough(l.dev.data, l.geo.blockSize, block, data, 0, idx, {})
    ensures Mapping(b, l, block, data, 0, idx, file) && |block| == TOTAL_POINTERS && idx <= |data|
  {
    hide OnlyIn, Owned, Bitmap.Used;
    NothingMore(b.dev, l.geo.blockSize, b.used, b.owner, Index(file));
  }

  lemma MappingEnds(b: Before, l: Layouter, block: seq<nat>, data: seq<nat>, idx: nat, file: nat)
    requires l.Valid() && Mapping(b, l, block, data, 3, idx, file)
    ensures |block| == TOTAL_POINTERS
      && if idx < |data| then |data| > Reach(l.geo.blockSize / 4, 3) else |data| <= Reach(l.geo.blockSize / 4, 3)
    ensures idx == |data| ==> MapsAll(b, l, block, data, Sectors(|data| + l.curMeta, l.geo.blockSize), file)
  {
    hide OnlyIn, Owned, Bitmap.Used, Bitmap.Valid, Mirror, Reach, MapsThrough, Through, IndexOf, Sectors;
    AllLevels(l.dev.data, l.geo.blockSize, block, data, idx, l.al.Used() - b.used);
  }

  lemma AllLevels(d: seq<byte>, bs: nat, block: seq<nat>, data: seq<nat>, next: nat, kids: set<nat>)
    requires MapsThrough(d, bs, block, data, 3, next, kids)
    ensures |block| == TOTAL_POINTERS && next == Lesser(Reach(bs / 4, 3), |data|)
    ensures next == |data| ==> Through(d, bs, block, |data|, 3) == data && IndexOf(d, bs, block, |data|, 3) == kids
  {
    assert data[..|data|] == data;
  }
}
