/** pkg/ext/emit.go: the block accounting of an ext layout run. */
module ExtLayout {
  import opened Sizes
  import opened Options
  import opened Alloc
  import opened Bytes
  import ExtGeometry
  import opened Files
  import opened RunAllocation

  /** What a block in use belongs to. */
  datatype Owner = Boot | Group(gr: nat) | Data(file: nat) | Attrs(file: nat) | Index(file: nat)

  const EXTENT_MAX_LEN: nat := 32768

  /** The contents of block b, zeros where the device was never written. */
  function BlockAt(data: seq<byte>, bs: nat, b: nat): (s: seq<byte>)
    ensures |s| == bs
  {
    Slice(data, b * bs, bs)
  }

  /** Only blocks of s differ between the two devices. */
  ghost predicate OnlyIn(data: seq<byte>, data': seq<byte>, bs: nat, s: set<nat>) {
    forall b: nat :: b !in s ==> BlockAt(data', bs, b) == BlockAt(data, bs, b)
  }

  lemma OnlyInChain(a: seq<byte>, b: seq<byte>, c: seq<byte>, bs: nat, s: set<nat>, t: set<nat>, u: set<nat>)
    requires OnlyIn(a, b, bs, s) && OnlyIn(b, c, bs, t) && s + t <= u
    ensures OnlyIn(a, c, bs, u)
  {
  }

  lemma OnlyInNothing(a: seq<byte>, bs: nat, s: set<nat>)
    ensures OnlyIn(a, a, bs, s)
  {
  }

  /** A write of whole blocks from block b on. */
  lemma BlocksWritten(data: seq<byte>, bs: nat, b: nat, p: seq<byte>, n: nat)
    requires |p| == n * bs
    ensures forall k: nat :: k < n ==> BlockAt(Spliced(data, p, b * bs), bs, b + k) == BlockAt(p, bs, k)
    ensures OnlyIn(data, Spliced(data, p, b * bs), bs, Span(b, b + n))
  {
    hide Spliced, BlockAt;
    forall k: nat | k < n
      ensures BlockAt(Spliced(data, p, b * bs), bs, b + k) == BlockAt(p, bs, k)
    {
      BlockInside(data, bs, b, p, n, k);
    }
    forall c: nat | c !in Span(b, b + n)
      ensures BlockAt(Spliced(data, p, b * bs), bs, c) == BlockAt(data, bs, c)
    {
      BlockOutside(data, bs, b, p, n, c);
    }
  }

  lemma BlockInside(data: seq<byte>, bs: nat, b: nat, p: seq<byte>, n: nat, k: nat)
    requires |p| == n * bs && k < n
    ensures BlockAt(Spliced(data, p, b * bs), bs, b + k) == BlockAt(p, bs, k)
  {
    hide Spliced, Slice;
    MulGap(k, n, bs);
    assert (b + k) * bs == b * bs + k * bs;
    SliceWithin(data, p, b * bs, k * bs, bs);
  }

  lemma BlockOutside(data: seq<byte>, bs: nat, b: nat, p: seq<byte>, n: nat, c: nat)
    requires |p| == n * bs && !(b <= c < b + n)
    ensures BlockAt(Spliced(data, p, b * bs), bs, c) == BlockAt(data, bs, c)
  {
    hide Spliced, Slice;
    if c < b {
      MulGap(c, b, bs);
    } else {
      assert (b + n) * bs == b * bs + n * bs;
      MulMono(b + n, c, bs);
    }
    SliceElsewhere(data, p, b * bs, c * bs, bs);
  }

  lemma BlockWritten(data: seq<byte>, bs: nat, b: nat, p: seq<byte>)
    requires |p| == bs
    ensures BlockAt(Spliced(data, p, b * bs), bs, b) == p
    ensures OnlyIn(data, Spliced(data, p, b * bs), bs, {b})
  {
    BlocksWritten(data, bs, b, p, 1);
    SliceOfWrite(data, p, b * bs);
    assert Span(b, b + 1) == {b};
  }

  const WRITE_CHUNK_BYTES: nat := 0x10_0000

  /** The first n blocks of a file hold its bytes, padded with zeros. */
  ghost predicate StoredUpTo(data: seq<byte>, bs: nat, blocks: seq<nat>, content: seq<byte>, n: nat) {
    n <= |blocks| && forall k :: 0 <= k < n ==> BlockAt(data, bs, blocks[k]) == BlockAt(content, bs, k)
  }

  function Elements(s: seq<nat>): set<nat> {
    set b | b in s
  }

  class Layouter {
    const geo: ExtGeometry.Geometry
    const al: Bitmap
    const used: array<bool>
    const dev: File
    const useExtents: bool
    var curMeta: nat // index blocks of the file being laid out
    ghost var index: set<nat> // the very blocks curMeta counts
    ghost var owner: map<nat, Owner>

    ghost predicate Valid()
      reads this, al, al.words, used
    {
      && al.Valid() && al.total == geo.totalBlocks == used.Length
      && geo.blockSize > 0 && geo.totalBlocks + 63 < TWO64
      && Mirror(used[..], al.Used())
      && owner.Keys == al.Used()
      && |index| == curMeta && index <= al.Used()
    }

    constructor (geo: ExtGeometry.Geometry, dev: File, useExtents: bool)
      requires geo.totalBlocks + 63 < TWO64 && geo.blockSize > 0
      ensures Valid() && this.geo == geo && this.dev == dev && this.useExtents == useExtents
      ensures fresh(this) && fresh(al) && fresh(al.words) && fresh(used)
      ensures al.Used() == {} && curMeta == 0
    {
      this.geo, this.dev, this.useExtents := geo, dev, useExtents;
      var bitmap := new Bitmap(geo.totalBlocks);
      al := bitmap;
      used := new bool[geo.totalBlocks](_ => false);
      curMeta, index, owner := 0, {}, map[];
    }

    /** mark: note a range in the mirror, up to the end of the device. */
    method Mark(start: nat, n: nat, ghost was: set<nat>)
      requires used.Length == geo.totalBlocks && Mirror(used[..], was)
      modifies used
      ensures Mirror(used[..], was + Span(start, start + n) * Span(0, geo.totalBlocks))
    {
      var i := start;
      while i < start + n && i < geo.totalBlocks
        invariant start <= i <= start + n
        invariant forall b :: 0 <= b < used.Length ==> (used[b] <==> b in was || start <= b < i)
      {
        used[i] := true;
        i := i + 1;
      }
    }

    /** reserve: a fixed region, marked in the mirror and in the allocator. */
    method Reserve(start: nat, n: nat, ghost who: Owner)
      requires Valid() && start + n <= geo.totalBlocks
      modifies this`owner, al, al.words, used
      ensures Valid()
      ensures al.Used() == old(al.Used()) + Span(start, start + n)
      ensures owner == Owned(old(owner), Span(start, start + n), who)
    {
      hide Mirror, Span, Owned, FreeCount, Bitmap.Valid, Bitmap.Used;
      SpanInside(start, n, geo.totalBlocks);
      NoWrap(start, n, geo.totalBlocks);
      Mark(start, n, al.Used());
      var _ := al.Reserve(start, n);
      owner := Owned(owner, Span(start, start + n), who);
    }

    method AllocOne(ghost who: Owner) returns (r: Result<nat>)
      requires Valid()
      modifies this`owner, al, al.words, used
      ensures Valid()
      ensures r == OrNoSpace(LowestFit(old(al.Used()), geo.totalBlocks, 0, 1))
      ensures r.Ok? <==> FreeCount(old(al.Used()), geo.totalBlocks) > 0
      ensures r.Err? ==> al.Used() == old(al.Used()) && owner == old(owner)
      ensures r.Ok? ==> r.value < geo.totalBlocks && r.value !in old(al.Used())
      ensures r.Ok? ==> al.Used() == old(al.Used()) + {r.value} && owner == old(owner)[r.value := who]
    {
      hide Mirror, LowestFit, FreeCount, Bitmap.Valid, Bitmap.Used;
      ghost var was := al.Used();
      AnyFree(was, geo.totalBlocks);
      r := al.Alloc(1);
      if r.Ok? {
        OneBlock(was, geo.totalBlocks, r.value);
        Mark(r.value, 1, was);
        owner := owner[r.value := who];
      }
    }

    /** allocMetaBlock: a block of the file's index, counted. */
    method AllocMetaBlock(ghost file: nat) returns (r: Result<nat>)
      requires Valid()
      modifies this`owner, this`curMeta, this`index, al, al.words, used
      ensures Valid()
      ensures r.Ok? <==> FreeCount(old(al.Used()), geo.totalBlocks) > 0
      ensures r.Err? ==> al.Used() == old(al.Used()) && owner == old(owner) && index == old(index)
      ensures r.Ok? ==> r.value < geo.totalBlocks && r.value !in old(al.Used())
      ensures r.Ok? ==> al.Used() == old(al.Used()) + {r.value} && owner == old(owner)[r.value := Index(file)]
      ensures r.Ok? ==> index == old(index) + {r.value} && curMeta == old(curMeta) + 1
    {
      hide Mirror, LowestFit, FreeCount, Bitmap.Valid, Bitmap.Used;
      r := AllocOne(Index(file));
      if r.Ok? {
        CountOneMore(index, old(al.Used()), r.value);
        curMeta := curMeta + 1;
        index := index + {r.value};
      }
    }

    /** newInode: start counting the index blocks of another file. */
    method ResetMeta()
      requires Valid()
      modifies this`curMeta, this`index
      ensures Valid() && index == {} && curMeta == 0
    {
      curMeta, index := 0, {};
    }

    function MaxRun(): nat {
      if useExtents then EXTENT_MAX_LEN else 0
    }

    /** Mark a list of runs and list their blocks. */
    method ListRuns(runs: seq<Run>, ghost was: set<nat>) returns (out: seq<nat>)
      requires used.Length == geo.totalBlocks && Mirror(used[..], was) && Blocks(runs) <= Span(0, geo.totalBlocks)
      modifies used
      ensures out == Flatten(runs) && Mirror(used[..], was + Blocks(runs))
    {
      hide Mirror, Span, Flatten, Blocks;
      out := [];
      NoRuns(was);
      assert runs[..0] == [];
      for k := 0 to |runs|
        invariant out == Flatten(runs[..k])
        invariant Mirror(used[..], was + Blocks(runs[..k]))
      {
        MoreRuns(runs, k, geo.totalBlocks, was);
        Mark(runs[k].start, runs[k].len, was + Blocks(runs[..k]));
        out := out + seq(runs[k].len, i requires 0 <= i => runs[k].start + i);
      }
      assert runs[..|runs|] == runs;
    }

    /** allocBlocks: n blocks in logical order, from several runs where one does not fit. */
    method AllocBlocks(n: nat, ghost who: Owner) returns (r: Result<seq<nat>>)
      requires Valid()
      modifies this`owner, al, al.words, used
      ensures Valid()
      ensures r.Ok? <==> FreeCount(old(al.Used()), geo.totalBlocks) >= n
      ensures r.Err? ==> al.Used() == old(al.Used()) && owner == old(owner)
      ensures r.Ok? ==> |r.value| == n && Distinct(r.value) && Elements(r.value) !! old(al.Used())
      ensures r.Ok? ==> al.Used() == old(al.Used()) + Elements(r.value)
      ensures r.Ok? ==> owner == Owned(old(owner), Elements(r.value), who)
      ensures r.Ok? && 0 < n && (useExtents ==> n <= 32768) ==> Whole(r.value, old(al.Used()), geo.totalBlocks)
    {
      hide Mirror, FreeCount, Chain, Span, Flatten, Blocks, Owned, Distinct, Bitmap.Valid, Bitmap.Used, Whole, Fits,
        NoneBelow;
      ghost var was := al.Used();
      if n == 0 {
        NoBlocks(was, owner, who);
        return Ok([]);
      }
      var s := AllocRuns(al, n, MaxRun(), true);
      if s.Err? {
        assert al.Used() == was;
        return Err(s.error);
      }
      ChainIsFree(was, geo.totalBlocks, n, MaxRun(), true);
      var out := ListRuns(s.value, was);
      assert Elements(out) == Blocks(s.value);
      if useExtents ==> n <= 32768 {
        RunIsWhole(s.value, was, geo.totalBlocks, n);
      }
      owner := Owned(owner, Elements(out), who);
      return Ok(out);
    }

    /** writeContent: stream a file into its blocks, consecutive blocks in one write. */
    method WriteContent(content: seq<byte>, blocks: seq<nat>)
      requires geo.blockSize > 0 && |blocks| == CeilDiv(|content|, geo.blockSize) && Distinct(blocks)
      modifies dev
      ensures StoredUpTo(dev.data, geo.blockSize, blocks, content, |blocks|)
      ensures OnlyIn(old(dev.data), dev.data, geo.blockSize, Elements(blocks))
    {
      hide StoredUpTo, OnlyIn, BlockAt, CeilDiv, Distinct, Slice, Zeros, Elements, Spliced;
      var bs := geo.blockSize;
      ghost var was := dev.data;
      var most := if WRITE_CHUNK_BYTES / bs > 1 then WRITE_CHUNK_BYTES / bs else 1;
      var perWrite := if most < |blocks| then most else |blocks|;
      NothingStored(was, bs, blocks, content);
      if perWrite == 0 {
        return;
      }
      var i := 0;
      while i < |blocks|
        invariant 0 <= i <= |blocks|
        invariant StoredUpTo(dev.data, bs, blocks, content, i)
        invariant OnlyIn(was, dev.data, bs, Elements(blocks))
      {
        var j := i + 1;
        while j < |blocks| && blocks[j] == blocks[j - 1] + 1 && j - i < perWrite
          invariant i < j <= |blocks|
          invariant Contiguous(blocks, i, j)
        {
          j := j + 1;
        }
        Ends(bs, |content|, |blocks|, i, j);
        var span, off := (j - i) * bs, i * bs;
        var n := if span < |content| - off then span else |content| - off;
        var buf := content[off..off + n] + Zeros(span - n);
        Padded(content, off, n, span);
        MoreStored(was, dev.data, bs, blocks, content, i, j, buf);
        dev.WriteAt(buf, blocks[i] * bs);
        i := j;
      }
    }

    method WriteBlock(b: nat, p: seq<byte>)
      requires |p| == geo.blockSize
      modifies dev
      ensures BlockAt(dev.data, geo.blockSize, b) == p
      ensures OnlyIn(old(dev.data), dev.data, geo.blockSize, {b})
    {
      BlockWritten(dev.data, geo.blockSize, b, p);
      dev.WriteAt(p, b * geo.blockSize);
    }
  }

  /** The blocks lie in a row exactly if so many were free in a row, and then in the lowest place. */
  ghost predicate Whole(blocks: seq<nat>, used: set<nat>, total: nat) {
    && (blocks == [] || (Contiguous(blocks, 0, |blocks|) <==> Fits(used, total, |blocks|)))
    && (blocks != [] && Contiguous(blocks, 0, |blocks|) ==> NoneBelow(used, total, blocks[0], |blocks|))
  }

  lemma RunIsWhole(runs: seq<Run>, used: set<nat>, total: nat, n: nat)
    requires 0 < n == |Flatten(runs)|
    requires |runs| == 1 <==> Fits(used, total, n)
    requires |runs| == 1 ==> runs[0].len == n && NoneBelow(used, total, runs[0].start, n)
    requires Blocks(runs) !! used && Blocks(runs) <= Span(0, total)
    requires forall b :: b in Flatten(runs) <==> b in Blocks(runs)
    ensures Whole(Flatten(runs), used, total)
  {
    hide NoneBelow, Blocks;
    var blocks := Flatten(runs);
    if |runs| == 1 {
      hide Fits;
      assert runs[1..] == [];
      assert forall i :: 0 <= i < n ==> blocks[i] == runs[0].start + i;
    } else {
      RowFits(blocks, used, total);
    }
  }

  lemma RowFits(blocks: seq<nat>, used: set<nat>, total: nat)
    requires blocks != [] && forall b :: b in blocks ==> b !in used && b in Span(0, total)
    ensures Contiguous(blocks, 0, |blocks|) ==> Fits(used, total, |blocks|)
  {
    if Contiguous(blocks, 0, |blocks|) {
      var s, n := blocks[0], |blocks|;
      forall b | b in Span(s, s + n)
        ensures b !in used
      {
        assert blocks[b - s] == b;
      }
      assert blocks[n - 1] in blocks;
      assert FreeRun(used, total, s, n);
    }
  }

  predicate Contiguous(blocks: seq<nat>, i: nat, j: nat)
  {
    i < j <= |blocks| && forall k :: i <= k < j ==> blocks[k] == blocks[i] + (k - i)
  }

  lemma NothingStored(data: seq<byte>, bs: nat, blocks: seq<nat>, content: seq<byte>)
    ensures StoredUpTo(data, bs, blocks, content, 0) && OnlyIn(data, data, bs, Elements(blocks))
  {
  }

  lemma Ends(bs: nat, size: nat, n: nat, i: nat, j: nat)
    requires bs > 0 && n == CeilDiv(size, bs) && i < j <= n
    ensures i * bs < size && (j - i) * bs == j * bs - i * bs && (j < n ==> j * bs <= size)
    ensures 0 <= i * bs < j * bs
  {
    CeilDivCovers(size, bs);
    MulGap(i, j, bs);
    MulMono(i, n - 1, bs);
    if j < n {
      MulMono(j, n - 1, bs);
    }
    assert (j - i) * bs == j * bs - i * bs;
  }

  lemma InRun(blocks: seq<nat>, i: nat, j: nat, b: nat)
    requires Contiguous(blocks, i, j)
    ensures b in Span(blocks[i], blocks[i] + (j - i)) ==> exists m :: i <= m < j && blocks[m] == b
  {
    if b in Span(blocks[i], blocks[i] + (j - i)) {
      assert blocks[i + (b - blocks[i])] == b;
    }
  }

  lemma NotInRun(blocks: seq<nat>, i: nat, j: nat, k: nat)
    requires Distinct(blocks) && Contiguous(blocks, i, j) && k < i
    ensures blocks[k] !in Span(blocks[i], blocks[i] + (j - i))
  {
    InRun(blocks, i, j, blocks[k]);
  }

  lemma Padded(content: seq<byte>, off: nat, n: nat, span: nat)
    requires off <= |content| && n == if span < |content| - off then span else |content| - off
    ensures content[off..off + n] + Zeros(span - n) == Slice(content, off, span)
  {
  }

  /** One more coalesced write. */
  lemma MoreStored(was: seq<byte>, data: seq<byte>, bs: nat, blocks: seq<nat>, content: seq<byte>, i: nat, j: nat,
                   buf: seq<byte>)
    requires bs > 0 && Distinct(blocks) && Contiguous(blocks, i, j) && i * bs < |content| && 0 <= i * bs < j * bs
    requires (j - i) * bs == j * bs - i * bs
    requires j == |blocks| || j * bs <= |content|
    requires buf == Slice(content, i * bs, (j - i) * bs)
    requires StoredUpTo(data, bs, blocks, content, i) && OnlyIn(was, data, bs, Elements(blocks))
    ensures var now := Spliced(data, buf, blocks[i] * bs);
      StoredUpTo(now, bs, blocks, content, j) && OnlyIn(was, now, bs, Elements(blocks))
  {
    var now := Spliced(data, buf, blocks[i] * bs);
    BlocksWritten(data, bs, blocks[i], buf, j - i);
    forall k | 0 <= k < j
      ensures BlockAt(now, bs, blocks[k]) == BlockAt(content, bs, k)
    {
      if k < i {
        NotInRun(blocks, i, j, k);
      } else {
        BlockOfSlice(content, bs, i, j, k);
      }
    }
    forall b | b in Span(blocks[i], blocks[i] + (j - i))
      ensures b in Elements(blocks)
    {
      assert b == blocks[i + (b - blocks[i])];
    }
  }

  lemma BlockOfSlice(content: seq<byte>, bs: nat, i: nat, j: nat, k: nat)
    requires i <= k < j && (j - i) * bs == j * bs - i * bs >= 0
    ensures BlockAt(Slice(content, i * bs, (j - i) * bs), bs, k - i) == BlockAt(content, bs, k)
  {
    MulGap(k, j, bs);
    assert (k - i) * bs == k * bs - i * bs;
    assert (k - i) * bs >= 0;
  }

  /** owner with every block of s given to who. */
  ghost function Owned(owner: map<nat, Owner>, s: set<nat>, who: Owner): (r: map<nat, Owner>)
    ensures r.Keys == owner.Keys + s
  {
    owner + map b | b in s :: who
  }

  /** flags is the set s, block by block. */
  ghost predicate Mirror(flags: seq<bool>, s: set<nat>) {
    forall b: nat :: b in s <==> b < |flags| && flags[b]
  }

  lemma NoWrap(start: nat, n: nat, total: nat)
    requires start + n <= total && total + 63 < TWO64
    ensures start < TWO64 && n < TWO64 && (start + n) % TWO64 == start + n
  {
  }

  lemma CountOneMore(index: set<nat>, was: set<nat>, b: nat)
    requires index <= was && b !in was
    ensures |index + {b}| == |index| + 1 && index + {b} <= was + {b}
  {
  }

  lemma SpanInside(start: nat, n: nat, total: nat)
    requires start + n <= total
    ensures Span(start, start + n) * Span(0, total) == Span(start, start + n)
  {
  }

  lemma OneBlock(was: set<nat>, total: nat, b: nat)
    requires LowestFit(was, total, 0, 1) == Some(b)
    ensures b < total && b !in was && Span(b, b + 1) == {b}
    ensures Span(b, b + 1) * Span(0, total) == {b}
  {
    assert b in Span(b, b + 1);
  }

  lemma NoBlocks(was: set<nat>, owner: map<nat, Owner>, who: Owner)
    ensures Elements([]) == {} && Distinct([]) && was + {} == was && Owned(owner, {}, who) == owner
  {
    assert owner + map[] == owner;
  }

  lemma NoRuns(was: set<nat>)
    ensures Flatten([]) == [] && was + Blocks([]) == was
  {
  }

  lemma {:induction false} MoreRuns(runs: seq<Run>, k: nat, total: nat, was: set<nat>)
    requires k < |runs| && Blocks(runs) <= Span(0, total)
    ensures was + Blocks(runs[..k + 1]) == was + Blocks(runs[..k]) + Taken(runs[k]) * Span(0, total)
    ensures Flatten(runs[..k + 1]) == Flatten(runs[..k]) + seq(runs[k].len, i requires 0 <= i => runs[k].start + i)
  {
    hide Span, Taken, Flatten, Blocks;
    assert runs[..k + 1] == runs[..k] + [runs[k]];
    assert runs == runs[..k + 1] + runs[k + 1..];
    BlocksAppend(runs[..k], [runs[k]]);
    BlocksAppend(runs[..k + 1], runs[k + 1..]);
    FlattenAppend(runs[..k], runs[k]);
    OneRun(runs[k]);
  }

  lemma OneRun(run: Run)
    ensures Blocks([run]) == Taken(run)
  {
  }

  lemma {:induction false} FlattenAppend(runs: seq<Run>, run: Run)
    ensures Flatten(runs + [run]) == Flatten(runs) + seq(run.len, i requires 0 <= i => run.start + i)
  {
    if runs == [] {
      assert Flatten([run]) == seq(run.len, i requires 0 <= i => run.start + i) + Flatten([]);
    } else {
      FlattenAppend(runs[1..], run);
      assert (runs + [run])[1..] == runs[1..] + [run];
    }
  }
}
