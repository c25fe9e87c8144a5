/** pkg/ext/xattr_area.go: attributes in the space left over in an inode, and in a block of their own. */
module ExtXattrArea {
  import opened Sizes
  import opened Options
  import opened Bytes
  import opened Text
  import opened ExtXattr

  const XATTR_MAGIC: nat := 0xEA020000
  const BLOCK_HEADER: nat := 32
  const IBODY_HEADER: nat := 4

  ghost predicate ShortNames(x: map<string, seq<byte>>) {
    forall n :: n in x ==> |SplitName(n).1| <= 255 && ByteString(SplitName(n).1)
  }

  lemma ShortEntries(es: seq<Entry>, x: map<string, seq<byte>>)
    requires ListsNames(es, x, x.Keys) && ShortNames(x)
    ensures ValidEntries(es)
  {
    hide SplitFrom, JoinFrom;
    forall i | 0 <= i < |es|
      ensures ValidEntry(es[i])
    {
      assert es[i] == EntryOf(x, NameOf(es[i])) && NameOf(es[i]) in x.Keys;
    }
  }

  // ----- In the inode.

  /** encodeXattrIbody. */
  method EncodeIbody(es: seq<Entry>, space: nat) returns (r: Option<seq<byte>>)
    requires ValidEntries(es)
    ensures r.Some? <==> es == [] || IBODY_HEADER + AreaSize(es) <= space
    ensures r.Some? && es == [] ==> r.value == []
    ensures r.Some? && es != [] ==>
      |r.value| == space && Get(Little, r.value, 0, 4) == 0xEA02_0000 && AreaHolds(r.value[IBODY_HEADER..], es, 0)
  {
    hide AreaSize, ValidEntry, Placed, AreaHolds, Get, LE, Pow256;
    if es == [] {
      return Some([]);
    }
    if IBODY_HEADER + AreaSize(es) > space {
      return None;
    }
    var area := EncodeArea(space - IBODY_HEADER, es, 0);
    if area.None? {
      return None;
    }
    EncodedHolds([], area.value, es);
    assert [] + area.value == area.value;
    var buf := LE(XATTR_MAGIC, 4) + area.value;
    assert buf[IBODY_HEADER..] == area.value;
    Widths();
    GetPart([], XATTR_MAGIC, 4, area.value);
    assert [] + LE(XATTR_MAGIC, 4) + area.value == buf;
    return Some(buf);
  }

  /** What an inode body says. */
  function IbodyAttrs(area: seq<byte>): map<string, seq<byte>> {
    if |area| >= IBODY_HEADER + 4 && Get(Little, area, 0, 4) == XATTR_MAGIC
    then DecodeFrom(area[IBODY_HEADER..], 0, 0, map[]) else map[]
  }

  /** decodeXattrIbody. */
  method DecodeIbody(area: seq<byte>) returns (x: map<string, seq<byte>>)
    ensures x == IbodyAttrs(area)
  {
    hide Get, DecodeFrom;
    if |area| < IBODY_HEADER + 4 {
      return map[];
    }
    if Get(Little, area, 0, 4) != XATTR_MAGIC {
      return map[];
    }
    x := DecodeArea(area[IBODY_HEADER..], 0, 0);
  }

  /** Attributes kept in the inode come back, but for the empty name. */
  lemma IbodyReads(es: seq<Entry>, x: map<string, seq<byte>>, body: seq<byte>)
    requires ListsNames(es, x, x.Keys) && |body| <= TWO16
    requires es == [] ==> body == []
    requires es != [] ==> |body| >= IBODY_HEADER && Get(Little, body, 0, 4) == XATTR_MAGIC
    requires es != [] ==> AreaHolds(body[IBODY_HEADER..], es, 0)
    ensures IbodyAttrs(body) == x <==> "" !in x
  {
    hide ListsNames, AreaHolds, Get, DecodeFrom, AreaSize;
    ListedEmpty(es, x);
    if es != [] {
      HoldsMeans(body[IBODY_HEADER..], es, 0);
      DecodeIsInverse(body[IBODY_HEADER..], es, 0, x);
    }
  }

  lemma HoldsMeans(whole: seq<byte>, es: seq<Entry>, base: nat)
    requires AreaHolds(whole, es, base)
    ensures |whole| >= base + 4
  {
    AreaAtLeast(es);
  }

  lemma ListedEmpty(es: seq<Entry>, x: map<string, seq<byte>>)
    requires ListsNames(es, x, x.Keys)
    ensures es == [] <==> x == map[]
  {
    if x.Keys == {} {
      assert x == map[];
    }
  }

  lemma AreaAtLeast(es: seq<Entry>)
    ensures AreaSize(es) >= 4
  {
  }

  // ----- In a block of its own.

  /** Everything but the hash of each entry is as it was. */
  ghost predicate OnlyHashes(a: seq<byte>, b: seq<byte>, es: seq<Entry>, base: nat) {
    && |a| == |b|
    && (forall at: nat, n: nat {:trigger Slice(b, at, n)} ::
          ClearOfHashes(es, base, at, n) ==> Slice(b, at, n) == Slice(a, at, n))
  }

  ghost predicate ClearOfHashes(es: seq<Entry>, base: nat, at: nat, n: nat) {
    base <= at && forall k :: 0 <= k < |es| ==> at + n <= HashAt(es, base, k) || HashAt(es, base, k) + 4 <= at
  }

  function HashAt(es: seq<Entry>, base: nat, k: nat): nat
    requires k <= |es|
  {
    base + EntriesLen(es, k) + 12
  }

  lemma HashesApart(a: seq<byte>, b: seq<byte>, es: seq<Entry>, base: nat)
    requires AreaHolds(a, es, base) && OnlyHashes(a, b, es, base)
    ensures AreaHolds(b, es, base)
  {
    hide Head, Slice, NameBytes, EntriesLen, ValuesLen, EntryLen, Align4, ValidEntry, ByteAt, ClearOfHashes;
    forall k | 0 <= k < |es|
      ensures EntryIn(b, es, base, k)
    {
      assert EntryIn(a, es, base, k);
      PartsClear(es, base, |a| - base, k);
      var off, val := base + EntriesLen(es, k), ValueOff(es, |a| - base, k);
      assert Slice(b, off, 12) == Slice(a, off, 12);
      assert Slice(b, off + ENTRY, |es[k].name|) == Slice(a, off + ENTRY, |es[k].name|);
      assert Slice(b, base + val, |es[k].value|) == Slice(a, base + val, |es[k].value|);
    }
    EndClear(es, base);
    var off := base + EntriesLen(es, |es|);
    assert Slice(b, off, 2) == Slice(a, off, 2);
    assert ByteAt(b, off) == Slice(b, off, 2)[0] && ByteAt(b, off + 1) == Slice(b, off, 2)[1];
    assert ByteAt(a, off) == Slice(a, off, 2)[0] && ByteAt(a, off + 1) == Slice(a, off, 2)[1];
  }

  /** An entry's fixed part, name and value are clear of every entry's hash. */
  lemma PartsClear(es: seq<Entry>, base: nat, size: nat, k: nat)
    requires k < |es| && size >= AreaSize(es)
    ensures ClearOfHashes(es, base, base + EntriesLen(es, k), 12)
    ensures ClearOfHashes(es, base, base + EntriesLen(es, k) + ENTRY, |es[k].name|)
    ensures ValueOff(es, size, k) >= 0 && ClearOfHashes(es, base, base + ValueOff(es, size, k), |es[k].value|)
  {
    hide EntriesLen, ValuesLen, EntryLen, Align4, AreaSize;
    Room(es, size, k);
    ValuesStep(es, k);
    EntryAtLeast(es[k]);
    forall j | 0 <= j < |es|
      ensures j < k ==> EntriesLen(es, j) + 16 <= EntriesLen(es, k)
      ensures j > k ==> EntriesLen(es, k) + EntryLen(es[k]) <= EntriesLen(es, j)
      ensures EntriesLen(es, j) + 16 <= ValueOff(es, size, k)
    {
      EntryAtLeast(es[j]);
      if j < k {
        LensAscend(es, j, k);
      } else if j > k {
        LensAscend(es, k, j);
      }
      EveryValueAfter(es, size, j, k);
    }
  }

  lemma EveryValueAfter(es: seq<Entry>, size: nat, j: nat, k: nat)
    requires j < |es| && k < |es| && size >= AreaSize(es)
    ensures EntriesLen(es, j) + ENTRY <= ValueOff(es, size, k)
  {
    hide EntryLen, Align4;
    LensAscend(es, j, |es|);
    LensAscend(es, k, |es|);
    EntryAtLeast(es[j]);
    ValuesStep(es, k);
  }

  lemma EndClear(es: seq<Entry>, base: nat)
    ensures ClearOfHashes(es, base, base + EntriesLen(es, |es|), 2)
  {
    hide EntriesLen, ValuesLen, EntryLen, Align4;
    forall j | 0 <= j < |es|
      ensures EntriesLen(es, j) + 16 <= EntriesLen(es, |es|)
    {
      LensAscend(es, j, |es|);
      EntryAtLeast(es[j]);
    }
  }

  /** One hash more: what was clear of all of them still is as it was. */
  lemma OneHash(a: seq<byte>, b: seq<byte>, es: seq<Entry>, base: nat, k: nat, h: nat)
    requires OnlyHashes(a, b, es, base) && k < |es| && HashAt(es, base, k) + 4 <= |b|
    ensures OnlyHashes(a, Spliced(b, LE(h, 4), HashAt(es, base, k)), es, base)
  {
    hide Slice, Spliced, LE, HashAt;
    var c := Spliced(b, LE(h, 4), HashAt(es, base, k));
    forall at: nat, n: nat | ClearOfHashes(es, base, at, n)
      ensures Slice(c, at, n) == Slice(a, at, n)
    {
      SliceElsewhere(b, LE(h, 4), HashAt(es, base, k), at, n);
      assert Slice(b, at, n) == Slice(a, at, n);
    }
  }

  /** The entry hash is a function of the name and of the value padded to whole words, if the value is there. */
  type EntryHash = (seq<byte>, seq<byte>) -> nat

  function HashOf(block: seq<byte>, off: nat, nameLen: nat, entryHash: EntryHash): nat {
    var valOff, valSize := Get(Little, block, off + 2, 2), Get(Little, block, off + 8, 4);
    entryHash(Slice(block, off + ENTRY, nameLen),
              if valSize > 0 && valOff + Align4(valSize) <= |block| then Slice(block, valOff, Align4(valSize)) else [])
  }

  /** The hash of entry k: of its name, and of its value with the bytes that make whole words of it. */
  function StoredHash(block: seq<byte>, es: seq<Entry>, k: nat, entryHash: EntryHash): nat
    requires k < |es| && ValidEntry(es[k]) && BLOCK_HEADER <= |block| && ValueOff(es, |block| - BLOCK_HEADER, k) >= 0
  {
    entryHash(NameBytes(es[k].name),
              if es[k].value == [] then []
              else Slice(block, BLOCK_HEADER + ValueOff(es, |block| - BLOCK_HEADER, k), Align4(|es[k].value|)))
  }

  /** The hashes of the first k entries are in place, and total was made of them. */
  ghost predicate Hashed(block: seq<byte>, r: seq<byte>, es: seq<Entry>, k: nat, entryHash: EntryHash,
                         blockHash: (nat, nat) -> nat, total: nat)
    requires BLOCK_HEADER <= |block|
    decreases k
  {
    if k == 0 then total == 0
    else
      && k <= |es| && ValidEntry(es[k - 1]) && ValueOff(es, |block| - BLOCK_HEADER, k - 1) >= 0
      && var h := StoredHash(block, es, k - 1, entryHash);
      && Slice(r, HashAt(es, BLOCK_HEADER, k - 1), 4) == LE(h, 4)
      && exists before :: Hashed(block, r, es, k - 1, entryHash, blockHash, before) && total == blockHash(before, h)
  }

  /** The hash of every entry, up to one that looks like the end of the list, and the one they make in the header. */
  ghost predicate HashesRight(block: seq<byte>, es: seq<Entry>, entryHash: EntryHash, blockHash: (nat, nat) -> nat) {
    && BLOCK_HEADER <= |block|
    && exists total ::
      Hashed(block, block, es, Visible(es, 0), entryHash, blockHash, total) && Slice(block, 12, 4) == LE(total, 4)
  }

  /** What the loop computes at entry k. */
  lemma HashReads(block: seq<byte>, r: seq<byte>, es: seq<Entry>, k: nat, entryHash: EntryHash)
    requires BLOCK_HEADER <= |block| <= TWO16 && k < |es| && OnlyHashes(block, r, es, BLOCK_HEADER)
    requires AreaHolds(block, es, BLOCK_HEADER) && AreaHolds(r, es, BLOCK_HEADER)
    ensures ValidEntry(es[k]) && ValueOff(es, |block| - BLOCK_HEADER, k) >= 0
    ensures HashOf(r, BLOCK_HEADER + EntriesLen(es, k), |es[k].name|, entryHash) == StoredHash(block, es, k, entryHash)
  {
    hide Slice, Get, EntriesLen, ValuesLen, Align4, Head, NameBytes, EntryLen, ClearOfHashes, AreaHolds;
    var size := |block| - BLOCK_HEADER;
    EntryRead(r, es, BLOCK_HEADER, k);
    HeldAt(r, es, BLOCK_HEADER, k);
    PadClear(es, size, k, block);
    var e, off, val := es[k], BLOCK_HEADER + EntriesLen(es, k), BLOCK_HEADER + ValueOff(es, size, k);
    if e.value != [] {
      HeadReads(r, off, e, val);
      OffsetFits(val, |e.value|, |block|);
      assert Slice(r, val, Align4(|e.value|)) == Slice(block, val, Align4(|e.value|));
    }
  }

  lemma HeldAt(whole: seq<byte>, es: seq<Entry>, base: nat, k: nat)
    requires AreaHolds(whole, es, base) && k < |es|
    ensures |whole| - base >= AreaSize(es) && ValueOff(es, |whole| - base, k) >= 0
    ensures ValidEntry(es[k]) && Slice(whole, base + EntriesLen(es, k), 12) ==
                                 Head(es[k], base + ValueOff(es, |whole| - base, k))
    ensures Slice(whole, base + EntriesLen(es, k) + ENTRY, |es[k].name|) == NameBytes(es[k].name)
  {
    hide Slice, EntriesLen, ValuesLen, Head, NameBytes, ValidEntry, AreaSize;
    assert EntryIn(whole, es, base, k);
  }

  /** A value and its padding are clear of every hash, and inside the block. */
  lemma PadClear(es: seq<Entry>, size: nat, k: nat, block: seq<byte>)
    requires k < |es| && size >= AreaSize(es) && |block| == BLOCK_HEADER + size
    ensures ValueOff(es, size, k) >= 0
    ensures ValueOff(es, size, k) + |es[k].value| <= ValueOff(es, size, k) + Align4(|es[k].value|) <= size
    ensures ClearOfHashes(es, BLOCK_HEADER, BLOCK_HEADER + ValueOff(es, size, k), Align4(|es[k].value|))
  {
    hide EntriesLen, ValuesLen, Align4, EntryLen, AreaSize;
    Room(es, size, k);
    ValuesStep(es, k);
    forall j | 0 <= j < |es|
      ensures EntriesLen(es, j) + ENTRY <= ValueOff(es, size, k)
    {
      EveryValueAfter(es, size, j, k);
    }
  }

  lemma {:induction false} HashedFrame(block: seq<byte>, r: seq<byte>, r': seq<byte>, es: seq<Entry>, k: nat,
                                       entryHash: EntryHash, blockHash: (nat, nat) -> nat, total: nat)
    requires BLOCK_HEADER <= |block| && k <= |es| && Hashed(block, r, es, k, entryHash, blockHash, total)
    requires forall j :: 0 <= j < k ==>
      Slice(r', HashAt(es, BLOCK_HEADER, j), 4) == Slice(r, HashAt(es, BLOCK_HEADER, j), 4)
    ensures Hashed(block, r', es, k, entryHash, blockHash, total)
    decreases k
  {
    hide Slice, StoredHash, HashAt, LE;
    if k > 0 {
      var h := StoredHash(block, es, k - 1, entryHash);
      var before :| Hashed(block, r, es, k - 1, entryHash, blockHash, before) && total == blockHash(before, h);
      HashedFrame(block, r, r', es, k - 1, entryHash, blockHash, before);
    }
  }

  /** One more entry is hashed. */
  lemma HashedMore(block: seq<byte>, r: seq<byte>, es: seq<Entry>, k: nat, entryHash: EntryHash,
                   blockHash: (nat, nat) -> nat, total: nat)
    requires BLOCK_HEADER <= |block| && k < |es| && Hashed(block, r, es, k, entryHash, blockHash, total)
    requires ValidEntry(es[k]) && ValueOff(es, |block| - BLOCK_HEADER, k) >= 0
    ensures var h := StoredHash(block, es, k, entryHash);
      Hashed(block, Spliced(r, LE(h, 4), HashAt(es, BLOCK_HEADER, k)), es, k + 1, entryHash, blockHash,
             blockHash(total, h))
  {
    hide Slice, Spliced, LE, StoredHash, EntriesLen, Hashed;
    var h := StoredHash(block, es, k, entryHash);
    var at := HashAt(es, BLOCK_HEADER, k);
    var r' := Spliced(r, LE(h, 4), at);
    SliceOfWrite(r, LE(h, 4), at);
    forall j | 0 <= j < k
      ensures Slice(r', HashAt(es, BLOCK_HEADER, j), 4) == Slice(r, HashAt(es, BLOCK_HEADER, j), 4)
    {
      LensAscend(es, j, k);
      EntryAtLeast(es[j]);
      SliceElsewhere(r, LE(h, 4), at, HashAt(es, BLOCK_HEADER, j), 4);
    }
    HashedFrame(block, r, r', es, k, entryHash, blockHash, total);
    HashedIs(block, r', es, k, entryHash, blockHash, total);
  }

  lemma HashedIs(block: seq<byte>, r: seq<byte>, es: seq<Entry>, k: nat, entryHash: EntryHash,
                 blockHash: (nat, nat) -> nat, total: nat)
    requires BLOCK_HEADER <= |block| && k < |es| && Hashed(block, r, es, k, entryHash, blockHash, total)
    requires ValidEntry(es[k]) && ValueOff(es, |block| - BLOCK_HEADER, k) >= 0
    requires Slice(r, HashAt(es, BLOCK_HEADER, k), 4) == LE(StoredHash(block, es, k, entryHash), 4)
    ensures Hashed(block, r, es, k + 1, entryHash, blockHash, blockHash(total, StoredHash(block, es, k, entryHash)))
  {
    hide Slice, LE, StoredHash, EntriesLen, HashAt;
  }

  /** The hash of the header does not touch those of the entries. */
  lemma HashedUnder(block: seq<byte>, r: seq<byte>, es: seq<Entry>, k: nat, entryHash: EntryHash,
                    blockHash: (nat, nat) -> nat, total: nat)
    requires BLOCK_HEADER <= |block| && k <= |es| && Hashed(block, r, es, k, entryHash, blockHash, total)
    ensures Hashed(block, Spliced(r, LE(total, 4), 12), es, k, entryHash, blockHash, total)
    ensures Slice(Spliced(r, LE(total, 4), 12), 12, 4) == LE(total, 4)
  {
    hide Slice, Spliced, LE, Hashed, EntriesLen;
    var r' := Spliced(r, LE(total, 4), 12);
    SliceOfWrite(r, LE(total, 4), 12);
    forall j | 0 <= j < |es|
      ensures Slice(r', HashAt(es, BLOCK_HEADER, j), 4) == Slice(r, HashAt(es, BLOCK_HEADER, j), 4)
    {
      SliceElsewhere(r, LE(total, 4), 12, HashAt(es, BLOCK_HEADER, j), 4);
    }
    HashedFrame(block, r, r', es, k, entryHash, blockHash, total);
  }

  lemma HeaderKeeps(block: seq<byte>, r: seq<byte>, es: seq<Entry>, total: nat)
    requires BLOCK_HEADER <= |r| && OnlyHashes(block, r, es, BLOCK_HEADER)
    ensures OnlyHashes(block, Spliced(r, LE(total, 4), 12), es, BLOCK_HEADER)
  {
    hide Slice, Spliced, LE, HashAt;
    forall at: nat, n: nat | ClearOfHashes(es, BLOCK_HEADER, at, n)
      ensures Slice(Spliced(r, LE(total, 4), 12), at, n) == Slice(block, at, n)
    {
      SliceElsewhere(r, LE(total, 4), 12, at, n);
      assert Slice(r, at, n) == Slice(block, at, n);
    }
  }

  /** The hashes do not take part in what is hashed. */
  lemma {:induction false} HashedSelf(block: seq<byte>, r: seq<byte>, es: seq<Entry>, k: nat, entryHash: EntryHash,
                                      blockHash: (nat, nat) -> nat, total: nat)
    requires BLOCK_HEADER <= |block| && k <= |es| && Hashed(block, r, es, k, entryHash, blockHash, total)
    requires AreaHolds(block, es, BLOCK_HEADER) && OnlyHashes(block, r, es, BLOCK_HEADER)
    ensures Hashed(r, r, es, k, entryHash, blockHash, total)
    decreases k
  {
    hide Slice, HashAt, LE, AreaHolds, StoredHash, OnlyHashes, EntriesLen, ValuesLen;
    if k > 0 {
      var h := StoredHash(block, es, k - 1, entryHash);
      var before :| Hashed(block, r, es, k - 1, entryHash, blockHash, before) && total == blockHash(before, h);
      HashedSelf(block, r, es, k - 1, entryHash, blockHash, before);
      HashedSame(block, r, es, k - 1, entryHash);
      HashedIs(r, r, es, k - 1, entryHash, blockHash, before);
    }
  }

  lemma HashedSame(block: seq<byte>, r: seq<byte>, es: seq<Entry>, k: nat, entryHash: EntryHash)
    requires BLOCK_HEADER <= |block| && k < |es| && ValidEntry(es[k]) && ValueOff(es, |block| - BLOCK_HEADER, k) >= 0
    requires AreaHolds(block, es, BLOCK_HEADER) && OnlyHashes(block, r, es, BLOCK_HEADER)
    ensures |r| == |block| && StoredHash(r, es, k, entryHash) == StoredHash(block, es, k, entryHash)
  {
    hide Slice, HashAt, LE, AreaHolds, NameBytes, Align4, ClearOfHashes, ValuesLen;
    var size := |block| - BLOCK_HEADER;
    HeldAt(block, es, BLOCK_HEADER, k);
    PadClear(es, size, k, block);
    var at := BLOCK_HEADER + ValueOff(es, size, k);
    assert Slice(r, at, Align4(|es[k].value|)) == Slice(block, at, Align4(|es[k].value|));
  }

  lemma NothingHashed(block: seq<byte>, r: seq<byte>, es: seq<Entry>, entryHash: EntryHash,
                      blockHash: (nat, nat) -> nat)
    requires BLOCK_HEADER <= |block|
    ensures Hashed(block, r, es, 0, entryHash, blockHash, 0)
  {
  }

  lemma EntryShows(whole: seq<byte>, es: seq<Entry>, k: nat)
    requires AreaHolds(whole, es, BLOCK_HEADER) && k < |es| && |whole| <= TWO16
    ensures BLOCK_HEADER + EntriesLen(es, k) + ENTRY <= |whole|
    ensures EndsList(es[k]) <==>
      whole[BLOCK_HEADER + EntriesLen(es, k)] == 0 && whole[BLOCK_HEADER + EntriesLen(es, k) + 1] == 0
  {
    hide EntriesLen, Get, Slice, StringOf, AreaHolds;
    EntryRead(whole, es, BLOCK_HEADER, k);
  }

  /** The walk ends behind the last entry, or before one that looks like the end of the list. */
  lemma WalkEnds(whole: seq<byte>, es: seq<Entry>, k: nat)
    requires AreaHolds(whole, es, BLOCK_HEADER) && k <= |es| && |whole| <= TWO16
    requires forall j :: 0 <= j < k ==> !EndsList(es[j])
    requires
      || BLOCK_HEADER + EntriesLen(es, k) + ENTRY > |whole|
      || (whole[BLOCK_HEADER + EntriesLen(es, k)] == 0 && whole[BLOCK_HEADER + EntriesLen(es, k) + 1] == 0)
    ensures k == Visible(es, 0)
  {
    hide EntriesLen, Get, Slice, StringOf, AreaHolds;
    if k < |es| {
      EntryRead(whole, es, BLOCK_HEADER, k);
    }
    VisibleUpTo(es, 0, k);
  }

  lemma {:induction false} VisibleUpTo(es: seq<Entry>, from: nat, k: nat)
    requires from <= k <= |es| && (forall j :: from <= j < k ==> !EndsList(es[j])) && (k == |es| || EndsList(es[k]))
    ensures Visible(es, from) == k
    decreases k - from
  {
    if from < k {
      VisibleUpTo(es, from + 1, k);
    }
  }

  /** hashXattrBlock: it walks the entries as a reader does and changes nothing but hashes. */
  method HashBlock(block: seq<byte>, ghost es: seq<Entry>, entryHash: EntryHash, blockHash: (nat, nat) -> nat)
    returns (r: seq<byte>)
    requires BLOCK_HEADER <= |block| <= TWO16 && AreaHolds(block, es, BLOCK_HEADER)
    ensures |r| == |block| && AreaHolds(r, es, BLOCK_HEADER) && Slice(r, 0, 12) == Slice(block, 0, 12)
    ensures Slice(r, 16, 16) == Slice(block, 16, 16)
    ensures HashesRight(r, es, entryHash, blockHash)
  {
    hide AreaHolds, Get, Slice, Spliced, LE, EntriesLen, OnlyHashes, EntryLen, ValidEntry, Align4, HashOf, Hashed,
      StoredHash, EndsList;
    NothingHashed(block, block, es, entryHash, blockHash);
    r := block;
    var off: nat, total: nat := BLOCK_HEADER, 0;
    ghost var k: nat := 0;
    SameHashes(block, es);
    StartsAtZero(es);
    while off + ENTRY <= |r|
      invariant k <= |es| && off == BLOCK_HEADER + EntriesLen(es, k)
      invariant |r| == |block| && OnlyHashes(block, r, es, BLOCK_HEADER) && AreaHolds(r, es, BLOCK_HEADER)
      invariant Slice(r, 0, 12) == Slice(block, 0, 12) && Slice(r, 16, 16) == Slice(block, 16, 16)
      invariant Hashed(block, r, es, k, entryHash, blockHash, total) && forall j :: 0 <= j < k ==> !EndsList(es[j])
      decreases |es| - k
    {
      var nameLen, index := r[off], r[off + 1];
      if nameLen == 0 && index == 0 {
        break;
      }
      ListEnds(r, es, BLOCK_HEADER, k);
      EntryRead(r, es, BLOCK_HEADER, k);
      NextEntry(es, k);
      var h := HashOf(r, off, nameLen, entryHash);
      HashKept(block, r, es, k, h);
      HashReads(block, r, es, k, entryHash);
      assert !EndsList(es[k]) by { EntryShows(r, es, k); }
      HashedMore(block, r, es, k, entryHash, blockHash, total);
      r := Spliced(r, LE(h, 4), off + 12);
      total := blockHash(total, h);
      off := off + Align4(ENTRY + nameLen);
      k := k + 1;
    }
    WalkEnds(r, es, k);
    HashedUnder(block, r, es, k, entryHash, blockHash, total);
    SliceElsewhere(r, LE(total, 4), 12, 0, 12);
    SliceElsewhere(r, LE(total, 4), 12, 16, 16);
    HeaderApart(r, es, LE(total, 4), 12);
    HeaderKeeps(block, r, es, total);
    r := Spliced(r, LE(total, 4), 12);
    HashedSelf(block, r, es, k, entryHash, blockHash, total);
  }

  lemma HashKept(block: seq<byte>, r: seq<byte>, es: seq<Entry>, k: nat, h: nat)
    requires AreaHolds(block, es, BLOCK_HEADER) && OnlyHashes(block, r, es, BLOCK_HEADER)
    requires k < |es| && BLOCK_HEADER + EntriesLen(es, k) + ENTRY <= |r|
    ensures OnlyHashes(block, Spliced(r, LE(h, 4), BLOCK_HEADER + EntriesLen(es, k) + 12), es, BLOCK_HEADER)
    ensures AreaHolds(Spliced(r, LE(h, 4), BLOCK_HEADER + EntriesLen(es, k) + 12), es, BLOCK_HEADER)
    ensures Slice(Spliced(r, LE(h, 4), BLOCK_HEADER + EntriesLen(es, k) + 12), 0, 12) == Slice(r, 0, 12)
    ensures Slice(Spliced(r, LE(h, 4), BLOCK_HEADER + EntriesLen(es, k) + 12), 16, 16) == Slice(r, 16, 16)
  {
    hide AreaHolds, Slice, Spliced, LE, EntriesLen, OnlyHashes;
    OneHash(block, r, es, BLOCK_HEADER, k, h);
    SliceElsewhere(r, LE(h, 4), BLOCK_HEADER + EntriesLen(es, k) + 12, 0, 12);
    SliceElsewhere(r, LE(h, 4), BLOCK_HEADER + EntriesLen(es, k) + 12, 16, 16);
    HashesApart(block, Spliced(r, LE(h, 4), BLOCK_HEADER + EntriesLen(es, k) + 12), es, BLOCK_HEADER);
  }

  lemma StartsAtZero(es: seq<Entry>)
    ensures EntriesLen(es, 0) == 0
  {
  }

  lemma SameHashes(a: seq<byte>, es: seq<Entry>)
    ensures OnlyHashes(a, a, es, BLOCK_HEADER)
  {
  }

  /** After the last entry comes the zero one. */
  lemma ListEnds(whole: seq<byte>, es: seq<Entry>, base: nat, k: nat)
    requires AreaHolds(whole, es, base) && k <= |es| && base + EntriesLen(es, k) + ENTRY <= |whole|
    requires whole[base + EntriesLen(es, k)] != 0 || whole[base + EntriesLen(es, k) + 1] != 0
    ensures k < |es|
  {
    hide EntriesLen, EntryIn;
  }

  /** The header is not part of the area. */
  lemma HeaderApart(whole: seq<byte>, es: seq<Entry>, p: seq<byte>, at: nat)
    requires AreaHolds(whole, es, BLOCK_HEADER) && at + |p| <= BLOCK_HEADER
    ensures AreaHolds(Spliced(whole, p, at), es, BLOCK_HEADER)
  {
    hide Slice, Spliced, LE, EntriesLen, Head, NameBytes;
    var b := Spliced(whole, p, at);
    AreaAtLeast(es);
    forall k | 0 <= k < |es|
      ensures EntryIn(b, es, BLOCK_HEADER, k)
    {
      assert EntryIn(whole, es, BLOCK_HEADER, k);
      var off, val := BLOCK_HEADER + EntriesLen(es, k), ValueOff(es, |whole| - BLOCK_HEADER, k);
      SliceElsewhere(whole, p, at, off, 12);
      SliceElsewhere(whole, p, at, off + ENTRY, |es[k].name|);
      SliceElsewhere(whole, p, at, BLOCK_HEADER + val, |es[k].value|);
    }
  }

  /** encodeXattrBlock. */
  method EncodeBlock(es: seq<Entry>, blockSize: nat, entryHash: EntryHash, blockHash: (nat, nat) -> nat)
    returns (r: Option<seq<byte>>)
    requires ValidEntries(es) && BLOCK_HEADER <= blockSize <= TWO16
    ensures r.Some? <==> BLOCK_HEADER + AreaSize(es) <= blockSize
    ensures r.Some? ==> |r.value| == blockSize && AreaHolds(r.value, es, BLOCK_HEADER)
    ensures r.Some? ==> HashesRight(r.value, es, entryHash, blockHash)
    ensures r.Some? ==> Get(Little, r.value, 0, 4) == 0xEA02_0000
    ensures r.Some? ==> Get(Little, r.value, 4, 4) == 1 && Get(Little, r.value, 8, 4) == 1
  {
    hide AreaSize, ValidEntry, Placed, AreaHolds, LE, Slice, Get, HashesRight;
    var header := BlockHeader();
    var area := EncodeArea(blockSize - BLOCK_HEADER, es, BLOCK_HEADER);
    if area.None? {
      return None;
    }
    EncodedHolds(header, area.value, es);
    var block := header + area.value;
    var hashed := HashBlock(block, es, entryHash, blockHash);
    SlicePrefix(header, area.value, 0, 12);
    HeaderReads(hashed);
    return Some(hashed);
  }

  function BlockHeader(): (h: seq<byte>)
    ensures |h| == BLOCK_HEADER
  {
    LE(XATTR_MAGIC, 4) + LE(1, 4) + LE(1, 4) + Zeros(20)
  }

  lemma HeaderReads(block: seq<byte>)
    requires Slice(block, 0, 12) == Slice(BlockHeader(), 0, 12)
    ensures Get(Little, block, 0, 4) == XATTR_MAGIC && Get(Little, block, 4, 4) == 1 && Get(Little, block, 8, 4) == 1
  {
    hide LE, Slice, Zeros;
    var h := BlockHeader();
    var m, one := LE(XATTR_MAGIC, 4), LE(1, 4);
    Widths();
    GetPart([], XATTR_MAGIC, 4, one + one + Zeros(20));
    GetPart(m, 1, 4, one + Zeros(20));
    GetPart(m + one, 1, 4, Zeros(20));
    assert h == [] + m + (one + one + Zeros(20)) == m + one + (one + Zeros(20)) == (m + one) + one + Zeros(20);
    SameGet(block, h, 0);
    SameGet(block, h, 4);
    SameGet(block, h, 8);
  }

  lemma SameGet(a: seq<byte>, b: seq<byte>, off: nat)
    requires Slice(a, 0, 12) == Slice(b, 0, 12) && off + 4 <= 12
    ensures Get(Little, a, off, 4) == Get(Little, b, off, 4)
  {
    hide Slice, Get;
    GetOfSlice(Little, a, 0, 12, off, 4);
    GetOfSlice(Little, b, 0, 12, off, 4);
  }

  /** What an attribute block says. */
  function BlockAttrs(block: seq<byte>): map<string, seq<byte>> {
    if |block| >= BLOCK_HEADER + 4 && Get(Little, block, 0, 4) == XATTR_MAGIC
    then DecodeFrom(block, 0, BLOCK_HEADER, map[]) else map[]
  }

  /** decodeXattrBlock. */
  method DecodeBlock(block: seq<byte>) returns (x: map<string, seq<byte>>)
    ensures x == BlockAttrs(block)
  {
    hide Get, DecodeFrom;
    if |block| < BLOCK_HEADER + 4 {
      return map[];
    }
    if Get(Little, block, 0, 4) != XATTR_MAGIC {
      return map[];
    }
    x := DecodeArea(block, BLOCK_HEADER, 0);
  }

  /** Attributes kept in a block come back, whatever the hashes are and whatever checksum is put in the header. */
  lemma {:induction false} BlockReads(es: seq<Entry>, x: map<string, seq<byte>>, block: seq<byte>, checksum: nat)
    requires ListsNames(es, x, x.Keys) && |block| <= TWO16 && AreaHolds(block, es, BLOCK_HEADER)
    requires Get(Little, block, 0, 4) == XATTR_MAGIC
    ensures BlockAttrs(block) == x <==> "" !in x
    ensures BlockAttrs(Spliced(block, LE(checksum, 4), 16)) == BlockAttrs(block)
  {
    hide ListsNames, AreaHolds, Get, DecodeFrom, LE, Spliced, Slice;
    var stamped := Spliced(block, LE(checksum, 4), 16);
    HoldsMeans(block, es, BLOCK_HEADER);
    HeaderApart(block, es, LE(checksum, 4), 16);
    SliceElsewhere(block, LE(checksum, 4), 16, 0, 12);
    SameGet(block, stamped, 0);
    DecodeIsInverse(block, es, BLOCK_HEADER, x);
    DecodeHeld(block, es, BLOCK_HEADER, 0);
    DecodeHeld(stamped, es, BLOCK_HEADER, 0);
    assert EntriesLen(es, 0) == 0;
  }
}
