/** pkg/ext/dir.go: directory blocks, whose last entry reaches to the end of the block. */
module ExtDir {
  import opened Sizes
  import opened Bytes
  import opened Text

  datatype Dentry = Dentry(ino: nat, name: string, ftype: byte)

  predicate ValidDentry(e: Dentry) {
    0 < e.ino < TWO32 && 0 < |e.name| <= 255 && ByteString(e.name)
  }

  ghost predicate ValidDentries(es: seq<Dentry>) {
    forall i :: 0 <= i < |es| ==> ValidDentry(es[i])
  }

  /** dentryLen: eight bytes and the name, rounded up to four. */
  function DentryLen(n: nat): (r: nat)
    ensures 8 + n <= r < 12 + n && r % 4 == 0
  {
    (8 + n + 3) / 4 * 4
  }

  /** putDentry. */
  function DentryBytes(e: Dentry, recLen: nat): (s: seq<byte>)
    requires |e.name| <= 255 && ByteString(e.name)
    ensures |s| == 8 + |e.name|
  {
    LE(e.ino, 4) + LE(recLen, 2) + [|e.name|] + [e.ftype] + NameBytes(e.name)
  }

  // ----- Where entries go.

  /** The offset of entry k in a block that starts with entry i. */
  function OffOf(es: seq<Dentry>, i: nat, k: nat): nat
    requires i <= k <= |es|
    decreases k
  {
    if k == i then 0 else OffOf(es, i, k - 1) + DentryLen(|es[k - 1].name|)
  }

  /** The end of the block that starts with entry i and holds the entries up to j at least. */
  function BlockEnd(es: seq<Dentry>, bs: nat, i: nat, j: nat): (r: nat)
    requires i <= j <= |es| && OffOf(es, i, j) <= bs
    ensures j <= r <= |es| && OffOf(es, i, r) <= bs && (r < |es| ==> OffOf(es, i, r + 1) > bs)
    decreases |es| - j
  {
    if j == |es| || OffOf(es, i, j + 1) > bs then j else BlockEnd(es, bs, i, j + 1)
  }

  /** A valid entry fits any block: packing makes progress. */
  lemma Progress(es: seq<Dentry>, bs: nat, i: nat)
    requires ValidDentries(es) && i < |es| && bs >= 1024
    ensures OffOf(es, i, i) <= bs && BlockEnd(es, bs, i, i) > i
  {
    assert ValidDentry(es[i]);
    assert OffOf(es, i, i + 1) == DentryLen(|es[i].name|);
  }

  // ----- Blocks.

  ghost predicate EntryAt(block: seq<byte>, off: nat, e: Dentry, recLen: nat) {
    ValidDentry(e) && Slice(block, off, 8 + |e.name|) == DentryBytes(e, recLen)
  }

  /** Entries i to j lie one after the other, each as long as it needs to be. */
  ghost predicate Placed(block: seq<byte>, es: seq<Dentry>, bs: nat, i: nat, j: nat) {
    && i <= j <= |es| && |block| == bs && OffOf(es, i, j) <= bs
    && forall k :: i <= k < j ==> EntryAt(block, OffOf(es, i, k), es[k], DentryLen(|es[k].name|))
  }

  /** The length stored for an entry: the last one of a block reaches to its end. */
  function RecLen(es: seq<Dentry>, bs: nat, i: nat, j: nat, k: nat): int
    requires i <= k < j <= |es|
  {
    if k == j - 1 then bs - OffOf(es, i, k) else DentryLen(|es[k].name|)
  }

  /** A finished block: no entry crosses its end, and the stored lengths add up to it. */
  ghost predicate Finished(block: seq<byte>, es: seq<Dentry>, bs: nat, i: nat, j: nat) {
    && i < j <= |es| && |block| == bs && OffOf(es, i, j) <= bs
    && forall k :: i <= k < j ==>
         RecLen(es, bs, i, j, k) >= 8 && EntryAt(block, OffOf(es, i, k), es[k], RecLen(es, bs, i, j, k))
  }

  /** The stored lengths of a block, added up. */
  function SumOfLengths(es: seq<Dentry>, bs: nat, i: nat, j: nat, k: nat): int
    requires i <= k <= j <= |es|
    decreases j - k
  {
    if k == j then 0 else RecLen(es, bs, i, j, k) + SumOfLengths(es, bs, i, j, k + 1)
  }

  lemma {:induction false} LengthsFill(es: seq<Dentry>, bs: nat, i: nat, j: nat, k: nat)
    requires i <= k < j <= |es|
    ensures SumOfLengths(es, bs, i, j, k) == bs - OffOf(es, i, k)
    decreases j - k
  {
    if k < j - 1 {
      LengthsFill(es, bs, i, j, k + 1);
    }
  }

  lemma {:induction false} OffsAscend(es: seq<Dentry>, i: nat, k: nat, m: nat)
    requires i <= k < m <= |es|
    ensures OffOf(es, i, k) + DentryLen(|es[k].name|) <= OffOf(es, i, m)
    decreases m
  {
    hide DentryLen;
    if k < m - 1 {
      OffsAscend(es, i, k, m - 1);
    }
  }

  /** The blocks of the entries from i on. */
  ghost predicate Blocks(blocks: seq<seq<byte>>, es: seq<Dentry>, bs: nat, i: nat)
    requires i <= |es| && bs >= 1024 && ValidDentries(es)
    decreases |es| - i
  {
    if i == |es| then blocks == []
    else
      Progress(es, bs, i);
      var j := BlockEnd(es, bs, i, i);
      blocks != [] && Finished(blocks[0], es, bs, i, j) && Blocks(blocks[1..], es, bs, j)
  }

  /** How many blocks the entries from i on take. */
  ghost function BlockCount(es: seq<Dentry>, bs: nat, i: nat): nat
    requires i <= |es|
    decreases |es| - i
  {
    if i == |es| || BlockEnd(es, bs, i, i) == i then 0 else 1 + BlockCount(es, bs, BlockEnd(es, bs, i, i))
  }

  ghost predicate SameNames(a: seq<Dentry>, b: seq<Dentry>) {
    |a| == |b| && forall i :: 0 <= i < |a| ==> a[i].name == b[i].name
  }

  lemma {:induction false} OffByNames(a: seq<Dentry>, b: seq<Dentry>, i: nat, k: nat)
    requires SameNames(a, b) && i <= k <= |a|
    ensures OffOf(a, i, k) == OffOf(b, i, k)
    decreases k
  {
    if i < k {
      OffByNames(a, b, i, k - 1);
    }
  }

  lemma {:induction false} EndByNames(a: seq<Dentry>, b: seq<Dentry>, bs: nat, i: nat, j: nat)
    requires SameNames(a, b) && i <= j <= |a| && OffOf(a, i, j) <= bs
    ensures OffOf(b, i, j) <= bs && BlockEnd(a, bs, i, j) == BlockEnd(b, bs, i, j)
    decreases |a| - j
  {
    OffByNames(a, b, i, j);
    if j < |a| {
      OffByNames(a, b, i, j + 1);
      if OffOf(a, i, j + 1) <= bs {
        EndByNames(a, b, bs, i, j + 1);
      }
    }
  }

  /** Only the names count. */
  lemma {:induction false} CountByNames(a: seq<Dentry>, b: seq<Dentry>, bs: nat, i: nat)
    requires SameNames(a, b) && i <= |a|
    ensures BlockCount(a, bs, i) == BlockCount(b, bs, i)
    decreases |a| - i
  {
    EndByNames(a, b, bs, i, i);
    if i < |a| && BlockEnd(a, bs, i, i) > i {
      CountByNames(a, b, bs, BlockEnd(a, bs, i, i));
    }
  }

  lemma OneMoreEntry(block: seq<byte>, es: seq<Dentry>, bs: nat, i: nat, j: nat)
    requires Placed(block, es, bs, i, j) && j < |es| && OffOf(es, i, j + 1) <= bs && ValidDentry(es[j])
    ensures Placed(Spliced(block, DentryBytes(es[j], DentryLen(|es[j].name|)), OffOf(es, i, j)), es, bs, i, j + 1)
  {
    hide DentryLen, Slice, EntryAt, OffOf, Spliced;
    NewEntry(block, es[j], DentryLen(|es[j].name|), OffOf(es, i, j));
    EntryAtEnd(es, bs, i, j);
    forall k | i <= k < j
      ensures EntryAt(Spliced(block, DentryBytes(es[j], DentryLen(|es[j].name|)), OffOf(es, i, j)), OffOf(es, i, k),
        es[k],
                      DentryLen(|es[k].name|))
    {
      OffsAscend(es, i, k, j);
      AtLeastEight(|es[k].name|);
      OldEntry(block, es[j], DentryLen(|es[j].name|), OffOf(es, i, j), OffOf(es, i, k), es[k], DentryLen(|es[k].name|));
    }
  }

  lemma EntryAtEnd(es: seq<Dentry>, bs: nat, i: nat, j: nat)
    requires i <= j < |es| && OffOf(es, i, j + 1) <= bs
    ensures OffOf(es, i, j) + 8 + |es[j].name| <= bs
  {
    AtLeastEight(|es[j].name|);
  }

  lemma NewEntry(block: seq<byte>, e: Dentry, recLen: nat, off: nat)
    requires ValidDentry(e)
    ensures EntryAt(Spliced(block, DentryBytes(e, recLen), off), off, e, recLen)
  {
    hide DentryBytes, Slice;
    SliceOfWrite(block, DentryBytes(e, recLen), off);
  }

  lemma OldEntry(block: seq<byte>, n: Dentry, recLen: nat, off: nat, at: nat, e: Dentry, was: nat)
    requires ValidDentry(n) && EntryAt(block, at, e, was) && at + 8 + |e.name| <= off
    ensures EntryAt(Spliced(block, DentryBytes(n, recLen), off), at, e, was)
  {
    hide DentryBytes, Slice;
    SliceElsewhere(block, DentryBytes(n, recLen), off, at, 8 + |e.name|);
  }

  /** flush: the last entry gets the rest of the block. */
  lemma Flushed(block: seq<byte>, es: seq<Dentry>, bs: nat, i: nat, j: nat)
    requires Placed(block, es, bs, i, j) && i < j
    ensures OffOf(es, i, j - 1) + 8 <= bs
    ensures Finished(Spliced(block, LE(bs - OffOf(es, i, j - 1), 2), OffOf(es, i, j - 1) + 4), es, bs, i, j)
  {
    hide EntryAt, LE, DentryLen, Spliced, RecLen, OffOf;
    OffsAscend(es, i, j - 1, j);
    AtLeastEight(|es[j - 1].name|);
    forall k | i <= k < j
      ensures RecLen(es, bs, i, j, k) >= 8
      ensures EntryAt(Spliced(block, LE(bs - OffOf(es, i, j - 1), 2), OffOf(es, i, j - 1) + 4), OffOf(es, i, k),
        es[k], RecLen(es, bs, i, j, k))
    {
      FlushedAt(block, es, bs, i, j, k);
    }
  }

  lemma AtLeastEight(n: nat)
    ensures DentryLen(n) >= 8 + n
  {
  }

  lemma FlushedAt(block: seq<byte>, es: seq<Dentry>, bs: nat, i: nat, j: nat, k: nat)
    requires Placed(block, es, bs, i, j) && i <= k < j && OffOf(es, i, j - 1) + 8 <= bs
    ensures RecLen(es, bs, i, j, k) >= 8
    ensures EntryAt(Spliced(block, LE(bs - OffOf(es, i, j - 1), 2), OffOf(es, i, j - 1) + 4), OffOf(es, i, k), es[k],
      RecLen(es, bs, i, j, k))
  {
    hide DentryLen, Slice, LE, OffOf, DentryBytes, Spliced, ValidDentry;
    var last := OffOf(es, i, j - 1);
    var p := LE(bs - last, 2);
    assert EntryAt(block, OffOf(es, i, k), es[k], DentryLen(|es[k].name|));
    AtLeastEight(|es[k].name|);
    if k < j - 1 {
      OffsAscend(es, i, k, j - 1);
      SliceElsewhere(block, p, last + 4, OffOf(es, i, k), 8 + |es[k].name|);
    } else {
      Patched(block, last, es[k], DentryLen(|es[k].name|), bs - last);
    }
  }

  lemma {:induction false} Patched(block: seq<byte>, off: nat, e: Dentry, was: nat, now: nat)
    requires EntryAt(block, off, e, was)
    ensures EntryAt(Spliced(block, LE(now, 2), off + 4), off, e, now)
  {
    hide Slice, LE, NameBytes;
    var p := LE(now, 2);
    var d := Spliced(block, p, off + 4);
    var n := 8 + |e.name|;
    SliceElsewhere(block, p, off + 4, off, 4);
    SliceOfWrite(block, p, off + 4);
    SliceElsewhere(block, p, off + 4, off + 6, n - 6);
    SliceConcat(d, off, 4, 2);
    SliceConcat(d, off, 6, n - 6);
    var s := DentryBytes(e, was);
    SubSlice(block, off, s, 0, 4);
    SubSlice(block, off, s, 6, n - 6);
    var rest := [|e.name|] + [e.ftype] + NameBytes(e.name);
    assert s == LE(e.ino, 4) + LE(was, 2) + rest;
    assert s[0..4] == LE(e.ino, 4) && s[6..n] == rest;
    assert DentryBytes(e, now) == LE(e.ino, 4) + LE(now, 2) + rest;
  }

  /** Followed by the blocks of the entries from i on, these are the blocks of all. */
  ghost predicate Leads(blocks: seq<seq<byte>>, es: seq<Dentry>, bs: nat, i: nat)
    requires i <= |es| && bs >= 1024 && ValidDentries(es)
  {
    forall rest :: Blocks(rest, es, bs, i) ==> Blocks(blocks + rest, es, bs, 0)
  }

  lemma LeadsNothing(es: seq<Dentry>, bs: nat)
    requires bs >= 1024 && ValidDentries(es)
    ensures Leads([], es, bs, 0)
  {
    hide Blocks;
    forall rest | Blocks(rest, es, bs, 0)
      ensures Blocks([] + rest, es, bs, 0)
    {
      assert [] + rest == rest;
    }
  }

  lemma LeadsAll(blocks: seq<seq<byte>>, es: seq<Dentry>, bs: nat)
    requires bs >= 1024 && ValidDentries(es) && Leads(blocks, es, bs, |es|)
    ensures Blocks(blocks, es, bs, 0)
  {
    hide Finished;
    assert Blocks([], es, bs, |es|);
    assert blocks + [] == blocks;
  }

  /** buildDirBlocks. */
  method BuildDirBlocks(es: seq<Dentry>, bs: nat) returns (blocks: seq<seq<byte>>)
    requires ValidDentries(es) && bs >= 1024
    ensures es != [] ==> Blocks(blocks, es, bs, 0)
    ensures es == [] ==> blocks == [Zeros(bs)]
  {
    hide Placed, Finished, Blocks, DentryBytes, DentryLen, ValidDentry, ValidDentries, Spliced, Leads, OffOf, LE, Zeros;
    blocks := [];
    var cur: seq<byte> := Zeros(bs);
    var off: nat, lastOff: nat := 0, 0;
    ghost var i := 0;
    NothingPlaced(cur, es, bs, 0);
    LeadsNothing(es, bs);
    for j := 0 to |es|
      invariant i <= j && (j > 0 ==> i < j) && (j == 0 ==> cur == Zeros(bs) && blocks == [])
      invariant Placed(cur, es, bs, i, j) && off == OffOf(es, i, j) <= bs && (i < j ==> lastOff == OffOf(es, i, j - 1))
      invariant i < |es| ==> OffOf(es, i, i) <= bs && BlockEnd(es, bs, i, i) == BlockEnd(es, bs, i, j)
      invariant Leads(blocks, es, bs, i)
    {
      var need := DentryLen(|es[j].name|);
      NextOff(es, i, j);
      if off + need > bs {
        Progress(es, bs, i);
        OffPositive(es, i, j);
        Flushed(cur, es, bs, i, j);
        if off > 0 {
          cur := Spliced(cur, LE(bs - lastOff, 2), lastOff + 4);
        }
        OneBlock(blocks, cur, es, bs, i, j);
        blocks := blocks + [cur];
        cur := Zeros(bs);
        off, lastOff := 0, 0;
        i := j;
        NothingPlaced(cur, es, bs, j);
      }
      NextOff(es, i, j);
      ValidLen(es, i, j);
      OneMoreEntry(cur, es, bs, i, j);
      cur := Spliced(cur, DentryBytes(es[j], need), off);
      lastOff := off;
      off := off + need;
    }
    if off > 0 {
      Flushed(cur, es, bs, i, |es|);
      cur := Spliced(cur, LE(bs - lastOff, 2), lastOff + 4);
      OneBlock(blocks, cur, es, bs, i, |es|);
    }
    OffPositive(es, i, |es|);
    blocks := blocks + [cur];
    if es != [] {
      LeadsAll(blocks, es, bs);
    }
  }

  lemma NothingPlaced(block: seq<byte>, es: seq<Dentry>, bs: nat, i: nat)
    requires |block| == bs && i <= |es|
    ensures Placed(block, es, bs, i, i) && OffOf(es, i, i) == 0
  {
  }

  lemma NextOff(es: seq<Dentry>, i: nat, j: nat)
    requires i <= j < |es|
    ensures OffOf(es, i, j + 1) == OffOf(es, i, j) + DentryLen(|es[j].name|)
  {
    hide DentryLen;
  }

  lemma OffPositive(es: seq<Dentry>, i: nat, j: nat)
    requires i <= j <= |es|
    ensures i < j ==> OffOf(es, i, j) > 0
  {
    if i < j {
      NextOff(es, i, j - 1);
    }
  }

  lemma ValidLen(es: seq<Dentry>, i: nat, j: nat)
    requires ValidDentries(es) && i <= j < |es|
    ensures ValidDentry(es[j]) && |es[j].name| <= 255 && ByteString(es[j].name)
    ensures DentryLen(|es[j].name|) <= 268 && (i == j ==> OffOf(es, i, j + 1) <= 268)
  {
    assert ValidDentry(es[j]);
    NextOff(es, i, j);
  }

  lemma OneBlock(blocks: seq<seq<byte>>, block: seq<byte>, es: seq<Dentry>, bs: nat, i: nat, j: nat)
    requires bs >= 1024 && ValidDentries(es) && i < j <= |es| && Finished(block, es, bs, i, j)
    requires OffOf(es, i, i) <= bs && j == BlockEnd(es, bs, i, i)
    requires Leads(blocks, es, bs, i)
    ensures Leads(blocks + [block], es, bs, j)
  {
    hide Finished, OffOf;
    forall rest | Blocks(rest, es, bs, j)
      ensures Blocks(blocks + [block] + rest, es, bs, 0)
    {
      assert ([block] + rest)[1..] == rest;
      assert Blocks([block] + rest, es, bs, i);
      assert blocks + [block] + rest == blocks + ([block] + rest);
    }
  }

  // ----- Reading.

  /** What parseDirBlock reports of the entry at an offset: nothing for a dead or overlong one. */
  function LiveEntry(b: seq<byte>, off: nat): (r: seq<Dentry>)
    requires off + 8 <= |b|
  {
    var ino, n := Get(Little, b, off, 4), b[off + 6];
    if ino != 0 && off + 8 + n <= |b| then [Dentry(ino, StringOf(b[off + 8..off + 8 + n]), b[off + 7])] else []
  }

  /** parseDirBlock from an offset on. */
  function Parse(b: seq<byte>, off: nat): seq<Dentry>
    decreases |b| - off
  {
    if off + 8 > |b| || Get(Little, b, off + 4, 2) < 8 then []
    else LiveEntry(b, off) + Parse(b, off + Get(Little, b, off + 4, 2))
  }

  lemma ParseStep(b: seq<byte>, off: nat)
    ensures Parse(b, off) == if off + 8 > |b| || Get(Little, b, off + 4, 2) < 8 then []
                             else LiveEntry(b, off) + Parse(b, off + Get(Little, b, off + 4, 2))
  {
  }

  /** parseDirBlock. */
  method ParseDirBlock(b: seq<byte>) returns (out: seq<Dentry>)
    ensures out == Parse(b, 0)
  {
    hide Get, LiveEntry, Parse;
    out := [];
    var off: nat := 0;
    assert [] + Parse(b, 0) == Parse(b, 0);
    while off + 8 <= |b|
      invariant out + Parse(b, off) == Parse(b, 0)
      decreases |b| - off
    {
      ParseStep(b, off);
      var recLen := Get(Little, b, off + 4, 2);
      if recLen < 8 {
        assert out + [] == out;
        return;
      }
      assert out + (LiveEntry(b, off) + Parse(b, off + recLen)) == out + LiveEntry(b, off) + Parse(b, off + recLen);
      out := out + LiveEntry(b, off);
      off := off + recLen;
    }
    ParseStep(b, off);
    assert out + [] == out;
  }

  /** An entry read where it lies; its length comes back in 16 bits. */
  lemma EntryReads(b: seq<byte>, off: nat, e: Dentry, recLen: nat)
    requires EntryAt(b, off, e, recLen) && off + 8 + |e.name| <= |b|
    ensures Get(Little, b, off, 4) == e.ino && Get(Little, b, off + 4, 2) == recLen % TWO16
    ensures b[off + 6] == |e.name| && b[off + 7] == e.ftype && StringOf(b[off + 8..off + 8 + |e.name|]) == e.name
  {
    hide Slice, LE, Get, NameBytes, StringOf;
    Widths();
    var s, n := DentryBytes(e, recLen), NameBytes(e.name);
    var a, r := LE(e.ino, 4), LE(recLen, 2);
    assert s == [] + a + (r + [|e.name|] + [e.ftype] + n);
    GetPart([], e.ino, 4, r + [|e.name|] + [e.ftype] + n);
    GetOfSlice(Little, b, off, |s|, 0, 4);
    SubSlice(b, off, s, 4, 2);
    assert s[4..6] == r;
    LengthReads(b, off, recLen);
    SubSlice(b, off, s, 6, 2);
    SubSlice(b, off, s, 8, |e.name|);
    assert s[6..8] == [|e.name|, e.ftype] && s[8..8 + |e.name|] == n;
    TwoBytes(b, off + 6, |e.name|, e.ftype);
    WholeSlice(b, off + 8, |e.name|);
    StringRead(e.name);
  }

  lemma LengthReads(b: seq<byte>, off: nat, recLen: nat)
    requires Slice(b, off + 4, 2) == LE(recLen, 2)
    ensures Get(Little, b, off + 4, 2) == recLen % TWO16
  {
    hide LE, UnLE, Slice;
    Widths();
    DecodeOfEncode(Little, recLen, 2);
  }

  lemma TwoBytes(b: seq<byte>, off: nat, x: byte, y: byte)
    requires off + 2 <= |b| && Slice(b, off, 2) == [x, y]
    ensures b[off] == x && b[off + 1] == y
  {
    assert Slice(b, off, 2)[0] == x && Slice(b, off, 2)[1] == y;
  }

  lemma WholeSlice(b: seq<byte>, off: nat, n: nat)
    requires off + n <= |b|
    ensures b[off..off + n] == Slice(b, off, n)
  {
  }

  /** A finished block reads back, unless its one entry claims all of 2^16 bytes, a length that is
      stored as zero. */
  lemma {:induction false} BlockReads(b: seq<byte>, es: seq<Dentry>, bs: nat, i: nat, j: nat, k: nat)
    requires Finished(b, es, bs, i, j) && i <= k < j && bs <= TWO16 && (bs < TWO16 || j - i > 1)
    ensures Parse(b, OffOf(es, i, k)) == es[k..j]
    decreases j - k
  {
    hide Get, Slice, StringOf, DentryBytes, DentryLen, Parse, OffOf, EntryAt;
    var off := OffOf(es, i, k);
    assert RecLen(es, bs, i, j, k) >= 8 && EntryAt(b, off, es[k], RecLen(es, bs, i, j, k));
    OffsAscend(es, i, k, j);
    AtLeastEight(|es[k].name|);
    EntryReads(b, off, es[k], RecLen(es, bs, i, j, k));
    EntryIsValid(b, off, es[k], RecLen(es, bs, i, j, k));
    LengthFits(es, bs, i, j, k);
    NextOff(es, i, k);
    ParseStep(b, off);
    assert es[k..j] == [es[k]] + es[k + 1..j];
    if k < j - 1 {
      BlockReads(b, es, bs, i, j, k + 1);
    } else {
      assert es[k + 1..j] == [];
      ParseStep(b, bs);
    }
  }

  lemma EntryIsValid(b: seq<byte>, off: nat, e: Dentry, recLen: nat)
    requires EntryAt(b, off, e, recLen)
    ensures ValidDentry(e)
  {
  }

  lemma LengthFits(es: seq<Dentry>, bs: nat, i: nat, j: nat, k: nat)
    requires i <= k < j <= |es| && OffOf(es, i, j) <= bs <= TWO16 && (bs < TWO16 || j - i > 1)
      && RecLen(es, bs, i, j, k) >= 8
    ensures RecLen(es, bs, i, j, k) % TWO16 == RecLen(es, bs, i, j, k)
  {
    hide DentryLen;
    if i < k {
      OffPositive(es, i, k);
      OffsAscend(es, i, k, j);
    } else if i < j - 1 {
      OffsAscend(es, i, k, j - 1);
      OffsAscend(es, i, j - 1, j);
      assert DentryLen(|es[j - 1].name|) >= 8;
    }
    DivUnique(RecLen(es, bs, i, j, k), TWO16, 0, RecLen(es, bs, i, j, k));
  }

  /** With blocks of 2^16 bytes an entry that has a block to itself is lost. */
  lemma LoneEntryLost(b: seq<byte>, es: seq<Dentry>, i: nat)
    requires Finished(b, es, TWO16, i, i + 1)
    ensures Parse(b, 0) == []
  {
    hide Get, Slice, StringOf, DentryBytes, DentryLen;
    assert RecLen(es, TWO16, i, i + 1, i) >= 8 && EntryAt(b, OffOf(es, i, i), es[i], RecLen(es, TWO16, i, i + 1, i));
    OffsAscend(es, i, i, i + 1);
    EntryReads(b, 0, es[i], TWO16);
  }

  function ParseAll(blocks: seq<seq<byte>>): seq<Dentry> {
    if blocks == [] then [] else Parse(blocks[0], 0) + ParseAll(blocks[1..])
  }

  /** No block of 2^16 bytes holds a single entry. */
  ghost predicate NoneAlone(es: seq<Dentry>, bs: nat, i: nat)
    requires i <= |es| && bs >= 1024 && ValidDentries(es)
    decreases |es| - i
  {
    bs < TWO16 || i == |es| ||
    (Progress(es, bs, i);
     var j := BlockEnd(es, bs, i, i);
     j - i > 1 && NoneAlone(es, bs, j))
  }

  /** The blocks of a directory read back exactly when every entry keeps its length. */
  lemma {:induction false} DirReads(blocks: seq<seq<byte>>, es: seq<Dentry>, bs: nat, i: nat)
    requires i <= |es| && 1024 <= bs <= TWO16 && ValidDentries(es) && Blocks(blocks, es, bs, i)
    ensures |ParseAll(blocks)| <= |es| - i
    ensures ParseAll(blocks) == es[i..] <==> NoneAlone(es, bs, i)
    decreases |es| - i
  {
    hide Finished, Parse, OffOf, ValidDentry;
    if i < |es| {
      Progress(es, bs, i);
      var j := BlockEnd(es, bs, i, i);
      DirReads(blocks[1..], es, bs, j);
      assert es[i..] == es[i..j] + es[j..];
      if bs < TWO16 || j - i > 1 {
        OffStart(es, i);
        BlockReads(blocks[0], es, bs, i, j, i);
        assert (es[i..j] + ParseAll(blocks[1..]) == es[i..j] + es[j..]) <==> ParseAll(blocks[1..]) == es[j..] by {
          SameTail(es[i..j], ParseAll(blocks[1..]), es[j..]);
        }
        if bs < TWO16 {
          SmallBlocks(es, bs, j);
        }
      } else {
        LoneEntryLost(blocks[0], es, i);
      }
    }
  }

  lemma SmallBlocks(es: seq<Dentry>, bs: nat, i: nat)
    requires i <= |es| && 1024 <= bs < TWO16 && ValidDentries(es)
    ensures NoneAlone(es, bs, i)
  {
  }

  /** A directory of 251 entries: the last name is long, and there is no room for it beside the others in 64 KiB. */
  function Crowd(): seq<Dentry> {
    seq<Dentry>(251, i requires 0 <= i < 251 =>
        if i == 0 then Dentry(2, ".", 2) else if i == 1 then Dentry(2, "..", 2) else Dentry(10 + i, LongName(i), 1))
  }

  function LongName(i: nat): (s: string)
    requires i < 256
    ensures |s| == 255 && ByteString(s)
  {
    seq(253, _ => 'n') + ['a' + (i / 16) as char] + ['a' + (i % 16) as char]
  }

  lemma {:induction false} CrowdOffsets(k: nat)
    requires 2 <= k <= 251
    ensures OffOf(Crowd(), 0, k) == 24 + 264 * (k - 2)
    decreases k
  {
    var es := Crowd();
    if k == 2 {
      assert OffOf(es, 0, 1) == DentryLen(|es[0].name|) == 12;
      assert OffOf(es, 0, 2) == 12 + DentryLen(|es[1].name|) == 24;
    } else {
      CrowdOffsets(k - 1);
      assert |es[k - 1].name| == 255;
    }
  }

  /** Such a directory is a valid one, and its last entry is lost. */
  lemma CrowdLosesOne()
    ensures ValidDentries(Crowd()) && !NoneAlone(Crowd(), TWO16, 0)
  {
    hide OffOf, LongName;
    var es := Crowd();
    assert forall i :: 0 <= i < |es| ==> ValidDentry(es[i]);
    Progress(es, TWO16, 0);
    var j := BlockEnd(es, TWO16, 0, 0);
    CrowdOffsets(2);
    CrowdOffsets(j);
    if j < 251 {
      CrowdOffsets(j + 1);
    }
    assert j == 250;
    Progress(es, TWO16, 250);
  }

  lemma OffStart(es: seq<Dentry>, i: nat)
    requires i <= |es|
    ensures OffOf(es, i, i) == 0
  {
  }

  lemma SameTail<T>(a: seq<T>, b: seq<T>, c: seq<T>)
    ensures a + b == a + c <==> b == c
  {
    if a + b == a + c {
      assert b == (a + b)[|a|..];
      assert c == (a + c)[|a|..];
    }
  }

  /** Every block size up to 32 KiB gives a directory back. */
  method BuildThenParse(es: seq<Dentry>, bs: nat) returns (out: seq<Dentry>)
    requires ValidDentries(es) && 1024 <= bs <= TWO16 && es != []
    ensures out == es <==> NoneAlone(es, bs, 0)
  {
    hide Blocks, Parse, NoneAlone, ValidDentry;
    var blocks := BuildDirBlocks(es, bs);
    DirReads(blocks, es, bs, 0);
    assert es[0..] == es;
    out := [];
    assert blocks[0..] == blocks && [] + ParseAll(blocks) == ParseAll(blocks);
    for k := 0 to |blocks|
      invariant out + ParseAll(blocks[k..]) == ParseAll(blocks)
    {
      var more := ParseDirBlock(blocks[k]);
      assert blocks[k..][0] == blocks[k] && blocks[k..][1..] == blocks[k + 1..];
      assert out + (more + ParseAll(blocks[k + 1..])) == out + more + ParseAll(blocks[k + 1..]);
      out := out + more;
    }
    assert blocks[|blocks|..] == [] && out + [] == out;
  }
}
