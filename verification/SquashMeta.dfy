/** pkg/squashfs/meta.go and reader.go: metadata streams in compressed 8 KiB blocks, and references into them. */
module SquashMeta {
  import opened Sizes
  import opened Options
  import opened Bytes
  import opened Files

  const META_BLOCK: nat := 8192
  const UNCOMPRESSED: nat := 0x8000

  /** A compressor: packing may fail, and unpacking too. */
  datatype Compressor = Compressor(pack: seq<byte> -> Option<seq<byte>>, unpack: seq<byte> -> Option<seq<byte>>)

  ghost predicate Faithful(c: Compressor) {
    forall x :: c.pack(x).Some? ==> c.unpack(c.pack(x).value) == Some(x)
  }

  // ----- One block.

  predicate Shrinks(c: Compressor, data: seq<byte>) {
    c.pack(data).Some? && |c.pack(data).value| < |data|
  }

  function Payload(c: Compressor, data: seq<byte>): seq<byte> {
    if Shrinks(c, data) then c.pack(data).value else data
  }

  /** metaBlock: a length with a flag for data stored as it is, and the payload. */
  function MetaBlock(c: Compressor, data: seq<byte>): (s: seq<byte>)
    ensures |s| == 2 + |Payload(c, data)|
    ensures c.pack(data).Some? && |c.pack(data).value| < |data| ==> s[2..] == c.pack(data).value
    ensures c.pack(data).None? || |c.pack(data).value| >= |data| ==> s[2..] == data
  {
    LE(|Payload(c, data)| + if Shrinks(c, data) then 0 else UNCOMPRESSED, 2) + Payload(c, data)
  }

  /** The first two bytes are the length of what follows; the top bit says that it is stored as it is. */
  lemma MetaHeader(c: Compressor, data: seq<byte>)
    requires |data| <= 8192
    ensures var s := MetaBlock(c, data);
      s[0] as int + 256 * s[1] as int ==
        if c.pack(data).Some? && |c.pack(data).value| < |data| then |s| - 2 else 0x8000 + |s| - 2
  {
    var v := |Payload(c, data)| + if Shrinks(c, data) then 0 else UNCOMPRESSED;
    assert LE(v, 2) == [v % 256] + LE(v / 256, 1) && LE(v / 256, 1) == [v / 256 % 256] + LE(v / 256 / 256, 0);
  }

  /** readMetaBlock: the bytes of a block and where the next one starts. */
  function ReadBlock(c: Compressor, dev: seq<byte>, pos: nat): (r: Option<(seq<byte>, nat)>)
    ensures r.Some? ==> pos + 2 <= |dev| && r.value.1 >= pos + 2
  {
    if pos + 2 > |dev| then None
    else
      var hdr := Get(Little, dev, pos, 2);
      var raw := Slice(dev, pos + 2, hdr % UNCOMPRESSED);
      var next := pos + 2 + hdr % UNCOMPRESSED;
      if hdr >= UNCOMPRESSED then Some((raw, next))
      else
        match c.unpack(raw)
        case None => None
        case Some(data) => Some((data, next))
  }

  /** A block written at pos is read back. */
  lemma BlockReads(c: Compressor, dev: seq<byte>, pos: nat, data: seq<byte>)
    requires Faithful(c) && |data| <= META_BLOCK
    requires pos + |MetaBlock(c, data)| <= |dev| && Slice(dev, pos, |MetaBlock(c, data)|) == MetaBlock(c, data)
    ensures ReadBlock(c, dev, pos) == Some((data, pos + |MetaBlock(c, data)|))
  {
    hide LE, UnLE, Slice;
    var p := Payload(c, data);
    var hdr := |p| + if Shrinks(c, data) then 0 else UNCOMPRESSED;
    Widths();
    DecodeOfEncode(Little, hdr, 2);
    var s := MetaBlock(c, data);
    SliceParts(dev, pos, LE(hdr, 2), p);
  }

  lemma SliceParts(dev: seq<byte>, pos: nat, a: seq<byte>, b: seq<byte>)
    requires Slice(dev, pos, |a| + |b|) == a + b
    ensures Slice(dev, pos, |a|) == a && Slice(dev, pos + |a|, |b|) == b
  {
    SliceConcat(dev, pos, |a|, |b|);
    assert Slice(dev, pos, |a|) == (a + b)[..|a|];
    assert Slice(dev, pos + |a|, |b|) == (a + b)[|a|..];
  }

  // ----- A stream of blocks.

  function Stream(c: Compressor, blocks: seq<seq<byte>>): seq<byte> {
    if blocks == [] then [] else Stream(c, blocks[..|blocks| - 1]) + MetaBlock(c, blocks[|blocks| - 1])
  }

  predicate Full(blocks: seq<seq<byte>>) {
    forall i :: 0 <= i < |blocks| ==> |blocks[i]| == 8192
  }

  /** Every block but the last is full. */
  predicate FullButLast(blocks: seq<seq<byte>>) {
    forall i :: 0 <= i < |blocks| - 1 ==> |blocks[i]| == 8192
  }

  predicate Sized(blocks: seq<seq<byte>>) {
    forall i :: 0 <= i < |blocks| ==> 0 < |blocks[i]| <= META_BLOCK
  }

  lemma SizedMore(blocks: seq<seq<byte>>, b: seq<byte>)
    requires Sized(blocks) && 0 < |b| <= META_BLOCK
    ensures Sized(blocks + [b])
  {
  }

  lemma {:induction false} StreamPrefix(c: Compressor, blocks: seq<seq<byte>>, k: nat, n: nat) returns (rest: seq<byte>)
    requires k <= n <= |blocks|
    ensures Stream(c, blocks[..n]) == Stream(c, blocks[..k]) + rest
    decreases n
  {
    hide MetaBlock;
    if k == n {
      rest := [];
    } else {
      var r := StreamPrefix(c, blocks, k, n - 1);
      assert blocks[..n][..n - 1] == blocks[..n - 1];
      rest := r + MetaBlock(c, blocks[n - 1]);
    }
  }

  lemma StreamMore(c: Compressor, blocks: seq<seq<byte>>, k: nat)
    requires k < |blocks|
    ensures Stream(c, blocks[..k + 1]) == Stream(c, blocks[..k]) + MetaBlock(c, blocks[k])
    ensures Flat(blocks[..k + 1]) == Flat(blocks[..k]) + blocks[k]
  {
    hide MetaBlock;
    assert blocks[..k + 1][..k] == blocks[..k];
  }

  lemma OneMoreChunk(c: Compressor, blocks: seq<seq<byte>>, b: seq<byte>)
    ensures Stream(c, blocks + [b]) == Stream(c, blocks) + MetaBlock(c, b)
    ensures Flat(blocks + [b]) == Flat(blocks) + b
  {
    hide MetaBlock;
    assert (blocks + [b])[..|blocks|] == blocks;
  }

  // ----- The writer.

  class MetaWriter {
    const comp: Compressor
    var buf: seq<byte>
    var out: seq<byte>
    var emitted: nat
    ghost var blocks: seq<seq<byte>> // the flushed chunks, uncompressed

    ghost predicate Valid()
      reads this
    {
      out == Stream(comp, blocks) && emitted == |out| % TWO32 && Sized(blocks) && Full(blocks) && |buf| < 8192
    }

    /** Everything written so far. */
    ghost function Written(): seq<byte>
      reads this
    {
      Flat(blocks) + buf
    }

    constructor (comp: Compressor)
      ensures Valid() && this.comp == comp && blocks == [] && buf == [] && Written() == []
    {
      this.comp := comp;
      buf, out, emitted, blocks := [], [], 0, [];
    }

    method Flush(n: nat)
      requires 0 < n <= |buf| && n <= META_BLOCK
      requires out == Stream(comp, blocks) && emitted == |out| % TWO32 && Sized(blocks)
      modifies this
      ensures out == Stream(comp, blocks) && emitted == |out| % TWO32 && Sized(blocks)
      ensures buf == old(buf[n..]) && blocks == old(blocks) + [old(buf[..n])] && Written() == old(Written())
    {
      hide MetaBlock, Sized, Stream, Flat;
      var chunk := buf[..n];
      SizedMore(blocks, chunk);
      OneMoreChunk(comp, blocks, chunk);
      var block := MetaBlock(comp, chunk);
      assert buf == chunk + buf[n..];
      assert Flat(blocks) + chunk + buf[n..] == Flat(blocks) + buf;
      AddMod(|out|, |block|);
      out := out + block;
      emitted := (emitted + |block|) % TWO32;
      buf := buf[n..];
      blocks := blocks + [chunk];
    }

    method Write(p: seq<byte>)
      requires Valid()
      modifies this
      ensures Valid() && Written() == old(Written()) + p
      ensures old(blocks) <= blocks
    {
      hide Stream, Flat;
      buf := buf + p;
      assert Flat(blocks) + buf == old(Written()) + p;
      while |buf| >= META_BLOCK
        invariant out == Stream(comp, blocks) && emitted == |out| % TWO32 && Sized(blocks) && Full(blocks)
        invariant Written() == old(Written()) + p && old(blocks) <= blocks
        decreases |buf|
      {
        Flush(META_BLOCK);
      }
    }

    method Finish()
      requires Valid()
      modifies this
      ensures out == Stream(comp, blocks) && Sized(blocks) && FullButLast(blocks)
      ensures buf == [] && Written() == old(Written()) && old(blocks) <= blocks
    {
      hide Stream, Flat;
      if |buf| > 0 {
        Flush(|buf|);
      }
    }

    /** ref: where the next byte will be. */
    method Ref() returns (block: nat, offset: nat)
      requires Valid()
      ensures block == |Stream(comp, blocks)| % TWO32 && offset == |buf| < META_BLOCK
    {
      return emitted, |buf|;
    }
  }

  // ----- The reader.

  /** The decompressed bytes, and where the block at each compressed offset starts among them. */
  datatype Table = Table(data: seq<byte>, starts: map<nat, nat>)

  /** readMetaTable from pos on. */
  function ReadFrom(c: Compressor, dev: seq<byte>, start: nat, pos: nat, end: nat, t: Table): Option<Table>
    requires start <= pos
    decreases end - pos
  {
    if pos >= end then Some(t)
    else
      match ReadBlock(c, dev, pos)
      case None => None
      case Some((block, next)) =>
        ReadFrom(c, dev, start, next, end, Table(t.data + block, t.starts[(pos - start) % TWO32 := |t.data|]))
  }

  method ReadMetaTable(c: Compressor, dev: File, start: nat, end: nat) returns (r: Option<Table>)
    ensures r == ReadFrom(c, dev.data, start, start, end, Table([], map[]))
  {
    hide ReadBlock;
    var t := Table([], map[]);
    var pos := start;
    while pos < end
      invariant start <= pos
      invariant ReadFrom(c, dev.data, start, start, end, Table([], map[])) == ReadFrom(c, dev.data, start, pos, end, t)
      decreases end - pos
    {
      var b := ReadBlock(c, dev.data, pos);
      if b.None? {
        return None;
      }
      BlockAdvances(c, dev.data, pos);
      t := Table(t.data + b.value.0, t.starts[(pos - start) % TWO32 := |t.data|]);
      pos := b.value.1;
    }
    return Some(t);
  }

  lemma BlockAdvances(c: Compressor, dev: seq<byte>, pos: nat)
    ensures ReadBlock(c, dev, pos).Some? ==> ReadBlock(c, dev, pos).value.1 > pos
  {
  }

  /** The table knows where every block of the list starts. */
  ghost predicate Knows(c: Compressor, t: Table, blocks: seq<seq<byte>>, n: nat) {
    n <= |blocks| && forall k :: 0 <= k < n ==>
      |Stream(c, blocks[..k])| in t.starts && t.starts[|Stream(c, blocks[..k])|] == |Flat(blocks[..k])|
  }

  /** Reading a region that starts with a stream goes through its blocks. */
  lemma {:induction false} StreamReads(c: Compressor, dev: seq<byte>, start: nat, end: nat, blocks: seq<seq<byte>>,
          k: nat, t: Table)
      returns (t': Table)
    requires Faithful(c) && Sized(blocks) && k <= |blocks|
    requires var s := Stream(c, blocks);
      start + |s| <= |dev| && start + |s| <= end && |s| < TWO32 && Slice(dev, start, |s|) == s
    requires t.data == Flat(blocks[..k]) && Knows(c, t, blocks, k)
    ensures ReadFrom(c, dev, start, start + |Stream(c, blocks[..k])|, end, t) ==
            ReadFrom(c, dev, start, start + |Stream(c, blocks)|, end, t')
    ensures t'.data == Flat(blocks) && Knows(c, t', blocks, |blocks|)
    decreases |blocks| - k
  {
    hide MetaBlock, Stream, Flat, ReadBlock, Slice;
    assert blocks[..|blocks|] == blocks;
    if k == |blocks| {
      t' := t;
    } else {
      StreamMore(c, blocks, k);
      var rest := StreamPrefix(c, blocks, k + 1, |blocks|);
      var at, b := Stream(c, blocks[..k]), MetaBlock(c, blocks[k]);
      assert Stream(c, blocks) == at + b + rest;
      SliceMiddle(dev, start, at, b, rest);
      BlockReads(c, dev, start + |at|, blocks[k]);
      BlockNotEmpty(c, blocks[k]);
      var next := Table(t.data + blocks[k], t.starts[|at| := |t.data|]);
      StartsDiffer(c, blocks, k);
      t' := StreamReads(c, dev, start, end, blocks, k + 1, next);
      var block := (blocks[k], start + |at + b|);
      assert ReadFrom(c, dev, start, start + |at|, end, t) == ReadFrom(c, dev, start, start + |at + b|, end, next);
    }
  }

  lemma BlockNotEmpty(c: Compressor, data: seq<byte>)
    ensures |MetaBlock(c, data)| >= 2
  {
  }

  lemma SliceMiddle(dev: seq<byte>, start: nat, a: seq<byte>, b: seq<byte>, r: seq<byte>)
    requires Slice(dev, start, |a + b + r|) == a + b + r
    ensures Slice(dev, start + |a|, |b|) == b
  {
    assert a + b + r == a + (b + r);
    SliceParts(dev, start, a, b + r);
    SliceParts(dev, start + |a|, b, r);
  }

  /** Blocks start at different places. */
  lemma StartsDiffer(c: Compressor, blocks: seq<seq<byte>>, k: nat)
    requires k <= |blocks|
    ensures forall j :: 0 <= j < k ==> |Stream(c, blocks[..j])| < |Stream(c, blocks[..k])|
  {
    hide Stream;
    forall j | 0 <= j < k
      ensures |Stream(c, blocks[..j])| < |Stream(c, blocks[..k])|
    {
      StreamMore(c, blocks, j);
      BlockNotEmpty(c, blocks[j]);
      var _ := StreamPrefix(c, blocks, j + 1, k);
    }
  }

  /** What is read after a stream does not unsettle it: later blocks have later offsets. */
  lemma {:induction false} ReadOn(c: Compressor, dev: seq<byte>, start: nat, pos: nat, end: nat, t: Table)
    requires start <= pos && end - start < TWO32 && ReadFrom(c, dev, start, pos, end, t).Some?
    ensures var r := ReadFrom(c, dev, start, pos, end, t).value;
      t.data <= r.data && forall x :: x in t.starts && x < pos - start ==> x in r.starts && r.starts[x] == t.starts[x]
    decreases end - pos
  {
    hide ReadBlock;
    if pos < end {
      match ReadBlock(c, dev, pos) {
        case Some((block, next)) =>
          BlockAdvances(c, dev, pos);
          ReadOn(c, dev, start, next, end, Table(t.data + block, t.starts[(pos - start) % TWO32 := |t.data|]));
      }
    }
  }

  /** A reference taken at blocks and buf resolves, in any region that starts with a longer stream, to
      the position the next byte was written at. */
  lemma {:induction false} RefResolves(c: Compressor, dev: seq<byte>, start: nat, end: nat, blocks: seq<seq<byte>>, was: seq<seq<byte>>,
                    buf: seq<byte>, t: Table)
    requires Faithful(c) && Sized(blocks) && end - start < TWO32
    requires var s := Stream(c, blocks); start + |s| <= |dev| && start + |s| <= end && Slice(dev, start, |s|) == s
    requires was <= blocks && |Flat(was) + buf| < |Flat(blocks)|
    requires ReadFrom(c, dev, start, start, end, Table([], map[])) == Some(t)
    ensures Flat(blocks) <= t.data
    ensures |Stream(c, was)| < TWO32 && |Stream(c, was)| in t.starts
    ensures t.starts[|Stream(c, was)|] + |buf| == |Flat(was) + buf|
  {
    hide Stream, Flat, ReadFrom, Slice;
    assert blocks[..0] == [];
    EmptyStream(c);
    var full := StreamReads(c, dev, start, end, blocks, 0, Table([], map[]));
    ReadOn(c, dev, start, start + |Stream(c, blocks)|, end, full);
    var k := |was|;
    assert was == blocks[..k];
    assert blocks[..|blocks|] == blocks;
    StartsDiffer(c, blocks, |blocks|);
  }

  lemma EmptyStream(c: Compressor)
    ensures Stream(c, []) == [] && Flat([]) == []
  {
  }

  /** A region that is exactly a stream is read whole. */
  lemma WholeStream(c: Compressor, dev: seq<byte>, start: nat, blocks: seq<seq<byte>>)
    requires Faithful(c) && Sized(blocks)
    requires var s := Stream(c, blocks); start + |s| <= |dev| && |s| < TWO32 && Slice(dev, start, |s|) == s
    ensures var r := ReadFrom(c, dev, start, start, start + |Stream(c, blocks)|, Table([], map[]));
      r.Some? && r.value.data == Flat(blocks)
  {
    hide Stream, Flat, Slice;
    assert blocks[..0] == [];
    EmptyStream(c);
    var t := StreamReads(c, dev, start, start + |Stream(c, blocks)|, blocks, 0, Table([], map[]));
  }

  // ----- Structures written one after the other, each with the reference taken before it.

  lemma {:induction false} ConcatSplit(parts: seq<seq<byte>>, k: nat, n: nat) returns (rest: seq<byte>)
    requires k < n <= |parts|
    ensures Flat(parts[..n]) == Flat(parts[..k]) + parts[k] + rest
    decreases n
  {
    if k == n - 1 {
      assert parts[..n][..k] == parts[..k];
      rest := [];
    } else {
      var r := ConcatSplit(parts, k, n - 1);
      assert parts[..n][..n - 1] == parts[..n - 1];
      rest := r + parts[n - 1];
    }
  }

  datatype Ref = Ref(block: nat, offset: nat)

  /** inodeAt and the lookup of readDir: a reference as a position in the decompressed table. */
  function At(t: Table, r: Ref): Option<nat> {
    if r.block in t.starts then Some(t.starts[r.block] + r.offset) else None
  }

  /** Where the writer stood when it took a reference. */
  datatype Mark = Mark(blocks: seq<seq<byte>>, buf: seq<byte>)

  ghost predicate Marked(c: Compressor, parts: seq<seq<byte>>, refs: seq<Ref>, marks: seq<Mark>,
          blocks: seq<seq<byte>>) {
    && |refs| == |marks| <= |parts|
    && forall k :: 0 <= k < |refs| ==> MarkRight(c, parts, k, refs[k], marks[k], blocks)
  }

  ghost predicate MarkRight(c: Compressor, parts: seq<seq<byte>>, k: nat, r: Ref, m: Mark, blocks: seq<seq<byte>>) {
    && k < |parts| && m.blocks <= blocks && Flat(m.blocks) + m.buf == Flat(parts[..k])
    && r == Ref(|Stream(c, m.blocks)| % TWO32, |m.buf|)
  }

  /** emitInode, again and again: a reference, then the bytes; at the end the stream goes to the device. */
  method WriteParts(c: Compressor, dev: File, start: nat, parts: seq<seq<byte>>)
      returns (refs: seq<Ref>, end: nat, ghost marks: seq<Mark>, ghost blocks: seq<seq<byte>>)
    modifies dev
    ensures |refs| == |parts| && Marked(c, parts, refs, marks, blocks) && Sized(blocks) && Flat(blocks) == Flat(parts)
    ensures FullButLast(blocks)
    ensures end == start + |Stream(c, blocks)| && Slice(dev.data, start, |Stream(c, blocks)|) == Stream(c, blocks)
    ensures Stream(c, blocks) == [] || end <= |dev.data|
  {
    hide Stream, Flat, Slice, MarkRight;
    var w := new MetaWriter(c);
    refs, marks := [], [];
    EmptyStream(c);
    NothingConcat(parts);
    for k := 0 to |parts|
      invariant w.Valid() && w.comp == c && fresh(w) && w.Written() == Flat(parts[..k])
      invariant |refs| == k && Marked(c, parts, refs, marks, w.blocks)
    {
      var block, offset := w.Ref();
      ghost var was := w.blocks;
      marks := marks + [Mark(w.blocks, w.buf)];
      refs := refs + [Ref(block, offset)];
      NewMark(c, parts, k, refs[k], marks[k]);
      w.Write(parts[k]);
      MarksKeep(c, parts, refs, marks, was, w.blocks, k);
      ConcatMore(parts, k);
    }
    assert parts[..|parts|] == parts;
    ghost var was := w.blocks;
    w.Finish();
    MarksKeep(c, parts, refs, marks, was, w.blocks, |parts|);
    blocks := w.blocks;
    assert Flat(blocks) + [] == Flat(blocks);
    SliceOfWrite(dev.data, w.out, start);
    dev.WriteAt(w.out, start);
    end := start + |w.out|;
  }

  lemma NewMark(c: Compressor, parts: seq<seq<byte>>, k: nat, r: Ref, m: Mark)
    requires k < |parts| && Flat(m.blocks) + m.buf == Flat(parts[..k])
    requires r == Ref(|Stream(c, m.blocks)| % TWO32, |m.buf|)
    ensures MarkRight(c, parts, k, r, m, m.blocks)
  {
  }

  lemma NothingConcat(parts: seq<seq<byte>>)
    ensures Flat(parts[..0]) == []
  {
  }

  lemma ConcatMore(parts: seq<seq<byte>>, k: nat)
    requires k < |parts|
    ensures Flat(parts[..k + 1]) == Flat(parts[..k]) + parts[k]
  {
    assert parts[..k + 1][..k] == parts[..k];
  }

  /** Marks stay right as the stream grows; the newest, if any, is right by itself. */
  lemma MarksKeep(c: Compressor, parts: seq<seq<byte>>, refs: seq<Ref>, marks: seq<Mark>, was: seq<seq<byte>>,
                  now: seq<seq<byte>>, k: nat)
    requires |refs| == |marks| <= |parts| && was <= now && k <= |refs| <= k + 1
    requires forall i :: 0 <= i < k ==> MarkRight(c, parts, i, refs[i], marks[i], was)
    requires |refs| > k ==> MarkRight(c, parts, k, refs[k], marks[k], was)
    ensures Marked(c, parts, refs, marks, now)
  {
    hide Stream, Flat;
    forall i | 0 <= i < |refs|
      ensures MarkRight(c, parts, i, refs[i], marks[i], now)
    {
      assert MarkRight(c, parts, i, refs[i], marks[i], was);
    }
  }

  /** Whatever follows the stream on the device, the reference of every non-empty structure leads to its bytes. */
  lemma {:induction false} PartsResolve(c: Compressor, dev: seq<byte>, start: nat, end: nat, parts: seq<seq<byte>>, refs: seq<Ref>,
                     marks: seq<Mark>, blocks: seq<seq<byte>>, t: Table, k: nat)
    requires Faithful(c) && Sized(blocks) && end - start < TWO32 && k < |refs| && Marked(c, parts, refs, marks, blocks)
    requires |refs| == |parts| && Flat(blocks) == Flat(parts) && parts[k] != []
    requires var s := Stream(c, blocks); start + |s| <= |dev| && start + |s| <= end && Slice(dev, start, |s|) == s
    requires ReadFrom(c, dev, start, start, end, Table([], map[])) == Some(t)
    ensures var at := At(t, refs[k]);
      at.Some? && at.value + |parts[k]| <= |t.data| && t.data[at.value..at.value + |parts[k]|] == parts[k]
  {
    hide Stream, Flat, Slice, ReadFrom;
    assert MarkRight(c, parts, k, refs[k], marks[k], blocks);
    var rest := ConcatSplit(parts, k, |parts|);
    assert parts[..|parts|] == parts;
    RefResolves(c, dev, start, end, blocks, marks[k].blocks, marks[k].buf, t);
    var before := Flat(parts[..k]);
    DivUnique(|Stream(c, marks[k].blocks)|, TWO32, 0, |Stream(c, marks[k].blocks)|);
    assert Flat(parts)[|before|..|before| + |parts[k]|] == parts[k];
    assert t.data[|before|..|before| + |parts[k]|] == Flat(blocks)[|before|..|before| + |parts[k]|];
  }
}
