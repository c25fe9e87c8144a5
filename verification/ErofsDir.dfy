/** pkg/erofs/dirent.go and reader.go: directories packed into 4096-byte blocks. */
module ErofsDir {
  import opened Sizes
  import opened Names
  import opened Bytes
  import opened Text

  const BLOCK: nat := 4096
  const DIRENT: nat := 12

  /** A name, the number of its inode and a file type. */
  datatype Dentry = Dentry(name: string, nid: nat, ftype: byte)

  predicate ValidDentry(e: Dentry) {
    0 < |e.name| <= 255 && ByteString(e.name) && NoNul(e.name) && e.nid < TWO64
  }

  ghost predicate ValidDentries(es: seq<Dentry>) {
    forall i :: 0 <= i < |es| ==> ValidDentry(es[i])
  }

  // ----- Writing.

  /** The bytes of the names from i to j. */
  function NamesLen(es: seq<Dentry>, i: nat, j: nat): nat
    requires i <= j <= |es|
    decreases j - i
  {
    if i == j then 0 else NamesLen(es, i, j - 1) + |es[j - 1].name|
  }

  /** Whether the entries from i to j fit a block together. */
  predicate Fits(es: seq<Dentry>, i: nat, j: nat)
    requires i <= j <= |es|
  {
    (j - i) * DIRENT + NamesLen(es, i, j) <= BLOCK
  }

  /** Where the greedy block that starts at i and holds the entries up to j at least ends. */
  function BlockEnd(es: seq<Dentry>, i: nat, j: nat): (r: nat)
    requires i <= j <= |es| && Fits(es, i, j)
    ensures j <= r <= |es| && Fits(es, i, r) && (r < |es| ==> !Fits(es, i, r + 1))
    ensures (r - i) * 12 + NamesLen(es, i, r) <= 4096
    ensures r < |es| ==> (r + 1 - i) * 12 + NamesLen(es, i, r + 1) > 4096
    decreases |es| - j
  {
    if j == |es| || !Fits(es, i, j + 1) then j else BlockEnd(es, i, j + 1)
  }

  /** A valid entry fits an empty block: packing makes progress. */
  lemma Progress(es: seq<Dentry>, i: nat)
    requires ValidDentries(es) && i < |es|
    ensures Fits(es, i, i) && BlockEnd(es, i, i) > i
  {
    assert ValidDentry(es[i]);
    assert NamesLen(es, i, i + 1) == NamesLen(es, i, i) + |es[i].name|;
  }

  /** Where the name of entry k of a block goes. */
  function NameOff(es: seq<Dentry>, k: nat): nat
    requires k <= |es|
  {
    |es| * DIRENT + NamesLen(es, 0, k)
  }

  function DirentBytes(e: Dentry, nameoff: nat): (s: seq<byte>)
    ensures |s| == DIRENT
  {
    LE(e.nid, 8) + LE(nameoff, 2) + [e.ftype] + [0]
  }

  /** A record: the number of the inode, where the name is, the type of the inode and a zero. */
  lemma DirentLayout(block: seq<byte>, es: seq<Dentry>, k: nat)
    requires Encoded(block, es, |es|) && k < |es|
    ensures Get(Little, block, 12 * k, 8) == es[k].nid && block[12 * k + 10] == es[k].ftype && block[12 * k + 11] == 0
    ensures Get(Little, block, 12 * k + 8, 2) == 12 * |es| + NamesLen(es, 0, k) <= 4096
  {
    hide LE, Slice, Pow256, ValidDentry, NamesLen;
    Widths();
    var e, off := es[k], NameOff(es, k);
    assert EntryEncoded(block, es, k);
    NameOffs(es, k, |es|);
    ValidAt(es, k);
    var b := DirentBytes(e, off);
    var n, o := LE(e.nid, 8), LE(off, 2);
    GetPart([], e.nid, 8, o + [e.ftype] + [0]);
    assert [] + n + (o + [e.ftype] + [0]) == b;
    GetPart(n, off, 2, [e.ftype] + [0]);
    assert n + o + ([e.ftype] + [0]) == b;
    GetOfSlice(Little, block, 12 * k, 12, 0, 8);
    GetOfSlice(Little, block, 12 * k, 12, 8, 2);
    SubSlice(block, 12 * k, b, 10, 1);
    SubSlice(block, 12 * k, b, 11, 1);
    assert ByteAt(block, 12 * k + 10) == Slice(block, 12 * k + 10, 1)[0] == b[10..11][0];
    assert ByteAt(block, 12 * k + 11) == Slice(block, 12 * k + 11, 1)[0] == b[11..12][0];
  }

  /** The first k entries of a block are in place, and there are zeros where names are still to come. */
  ghost predicate Encoded(block: seq<byte>, es: seq<Dentry>, k: nat) {
    && |block| == BLOCK && k <= |es| && ValidDentries(es) && Fits(es, 0, |es|)
    && (forall i :: 0 <= i < k ==> EntryEncoded(block, es, i))
    && (forall x :: NameOff(es, k) <= x < BLOCK ==> block[x] == 0)
  }

  ghost predicate EntryEncoded(block: seq<byte>, es: seq<Dentry>, i: nat)
    requires i < |es|
  {
    && ByteString(es[i].name)
    && Slice(block, i * DIRENT, DIRENT) == DirentBytes(es[i], NameOff(es, i))
    && Slice(block, NameOff(es, i), |es[i].name|) == NameBytes(es[i].name)
  }

  lemma {:induction false} NamesAscend(es: seq<Dentry>, i: nat, j: nat, k: nat)
    requires i <= j <= k <= |es|
    ensures NamesLen(es, i, j) + NamesLen(es, j, k) == NamesLen(es, i, k)
    decreases k - j
  {
    if j < k {
      NamesAscend(es, i, j, k - 1);
    }
  }

  lemma NameOffs(es: seq<Dentry>, i: nat, k: nat)
    requires i < k <= |es|
    ensures |es| * DIRENT <= NameOff(es, i) && NameOff(es, i) + |es[i].name| == NameOff(es, i + 1) <= NameOff(es, k)
    ensures NameOff(es, |es|) == |es| * DIRENT + NamesLen(es, 0, |es|) >= NameOff(es, k)
  {
    NamesAscend(es, 0, i + 1, k);
    NamesAscend(es, 0, k, |es|);
  }

  /** encodeDirBlock. */
  method EncodeDirBlock(es: seq<Dentry>) returns (block: seq<byte>)
    requires ValidDentries(es) && Fits(es, 0, |es|)
    ensures Encoded(block, es, |es|)
  {
    hide Slice, EntryEncoded, ValidDentry, DirentBytes, NamesLen, Spliced;
    block := Zeros(BLOCK);
    var nameoff := |es| * DIRENT;
    NoNames(es);
    for k := 0 to |es|
      invariant nameoff == NameOff(es, k) && Encoded(block, es, k)
    {
      NameOffs(es, k, k + 1);
      ValidAt(es, k);
      OneMoreEntry(block, es, k);
      block := Spliced(block, DirentBytes(es[k], nameoff), k * DIRENT);
      block := Spliced(block, NameBytes(es[k].name), nameoff);
      nameoff := nameoff + |es[k].name|;
    }
  }

  lemma NoNames(es: seq<Dentry>)
    ensures NamesLen(es, 0, 0) == 0
  {
  }

  lemma ValidAt(es: seq<Dentry>, k: nat)
    requires ValidDentries(es) && k < |es|
    ensures ByteString(es[k].name) && NoNul(es[k].name) && 0 < |es[k].name| <= 255 && es[k].nid < TWO64
  {
    assert ValidDentry(es[k]);
  }

  lemma OneMoreEntry(block: seq<byte>, es: seq<Dentry>, k: nat)
    requires k < |es| && Encoded(block, es, k) && ByteString(es[k].name)
    ensures var b := Spliced(block, DirentBytes(es[k], NameOff(es, k)), k * DIRENT);
      Encoded(Spliced(b, NameBytes(es[k].name), NameOff(es, k)), es, k + 1)
  {
    hide Slice, DirentBytes, NamesLen, ValidDentry, NameBytes;
    var d, n := DirentBytes(es[k], NameOff(es, k)), NameBytes(es[k].name);
    var b := Spliced(block, d, k * DIRENT);
    var c := Spliced(b, n, NameOff(es, k));
    NameOffs(es, k, k + 1);
    assert k * DIRENT + DIRENT <= |es| * DIRENT;
    SliceOfWrite(block, d, k * DIRENT);
    SliceElsewhere(b, n, NameOff(es, k), k * DIRENT, DIRENT);
    SliceOfWrite(b, n, NameOff(es, k));
    forall i | 0 <= i < k
      ensures EntryEncoded(c, es, i)
    {
      assert EntryEncoded(block, es, i);
      NameOffs(es, i, k);
      SliceElsewhere(block, d, k * DIRENT, i * DIRENT, DIRENT);
      SliceElsewhere(b, n, NameOff(es, k), i * DIRENT, DIRENT);
      SliceElsewhere(block, d, k * DIRENT, NameOff(es, i), |es[i].name|);
      SliceElsewhere(b, n, NameOff(es, k), NameOff(es, i), |es[i].name|);
    }
    assert EntryEncoded(c, es, k);
    forall x | NameOff(es, k + 1) <= x < BLOCK
      ensures c[x] == 0
    {
      assert ByteAt(c, x) == ByteAt(b, x) == ByteAt(block, x);
    }
  }

  /** The blocks of the entries from i on. */
  ghost predicate Packed(data: seq<byte>, es: seq<Dentry>, i: nat)
    requires i <= |es| && ValidDentries(es)
    decreases |es| - i
  {
    if i == |es| then data == []
    else
      Progress(es, i);
      var j := BlockEnd(es, i, i);
      |data| >= BLOCK && Encoded(data[..BLOCK], es[i..j], j - i) && Packed(data[BLOCK..], es, j)
  }

  /** The greedy loop of packDir. */
  method PackSorted(es: seq<Dentry>) returns (out: seq<byte>)
    requires ValidDentries(es)
    ensures Packed(out, es, 0) && |out| % 4096 == 0
  {
    hide Encoded, ValidDentry, NamesLen, Packed;
    out := [];
    var i := 0;
    NothingPacked(es);
    while i < |es|
      invariant 0 <= i <= |es| && |out| % BLOCK == 0
      invariant forall rest :: Packed(rest, es, i) ==> Packed(out + rest, es, 0)
    {
      Progress(es, i);
      var names := 0;
      var j := i;
      NoNamesFrom(es, i);
      while j < |es| && (j - i + 1) * DIRENT + names + |es[j].name| <= BLOCK
        invariant i <= j <= |es| && names == NamesLen(es, i, j) && Fits(es, i, j)
        invariant BlockEnd(es, i, i) == BlockEnd(es, i, j)
      {
        OneMoreName(es, i, j);
        names := names + |es[j].name|;
        j := j + 1;
      }
      if j < |es| {
        OneMoreName(es, i, j);
      }
      ShiftNames(es, i, j);
      var block := EncodeDirBlock(es[i..j]);
      SizeOf(block, es[i..j]);
      forall rest | Packed(rest, es, j)
        ensures Packed(out + block + rest, es, 0)
      {
        OneBlock(block, rest, es, i);
        assert out + block + rest == out + (block + rest);
      }
      out := out + block;
      i := j;
    }
    assert out + [] == out;
  }

  lemma SizeOf(block: seq<byte>, es: seq<Dentry>)
    requires Encoded(block, es, |es|)
    ensures |block| == BLOCK
  {
  }

  lemma NothingPacked(es: seq<Dentry>)
    requires ValidDentries(es)
    ensures Packed([], es, |es|) && forall rest: seq<byte> :: [] + rest == rest
  {
  }

  lemma NoNamesFrom(es: seq<Dentry>, i: nat)
    requires i <= |es|
    ensures NamesLen(es, i, i) == 0
  {
  }

  lemma OneMoreName(es: seq<Dentry>, i: nat, j: nat)
    requires i <= j < |es|
    ensures NamesLen(es, i, j + 1) == NamesLen(es, i, j) + |es[j].name|
  {
  }

  lemma {:induction false} ShiftNames(es: seq<Dentry>, i: nat, j: nat)
    requires i <= j <= |es|
    ensures NamesLen(es[i..j], 0, j - i) == NamesLen(es, i, j)
    ensures ValidDentries(es) ==> ValidDentries(es[i..j])
    decreases j
  {
    if i < j {
      ShiftNames(es, i, j - 1);
      ShorterNames(es[i..j], j - i - 1);
      assert es[i..j][..j - i - 1] == es[i..j - 1];
    }
  }

  lemma {:induction false} ShorterNames(es: seq<Dentry>, n: nat)
    requires n <= |es|
    ensures NamesLen(es[..n], 0, n) == NamesLen(es, 0, n)
    decreases n
  {
    if n > 0 {
      ShorterNames(es, n - 1);
      ShorterNames(es[..n], n - 1);
      assert es[..n][..n - 1] == es[..n - 1];
    }
  }

  lemma {:induction false} OneBlock(block: seq<byte>, rest: seq<byte>, es: seq<Dentry>, i: nat)
    requires ValidDentries(es) && i < |es| && Fits(es, i, i)
    requires var j := BlockEnd(es, i, i);
      Packed(rest, es, j) && Encoded(block, es[i..j], j - i)
    ensures Packed(block + rest, es, i)
  {
    hide NamesLen, EntryEncoded;
    Progress(es, i);
    assert (block + rest)[..BLOCK] == block && (block + rest)[BLOCK..] == rest;
  }

  datatype Target = Target(nid: nat, ftype: byte)

  function Listed(entries: map<string, Target>, names: seq<string>): (es: seq<Dentry>)
    requires forall x :: x in names ==> x in entries
    ensures |es| == |names|
  {
    seq(|names|, i requires 0 <= i < |names| =>
      assert names[i] in names; Dentry(names[i], entries[names[i]].nid, entries[names[i]].ftype))
  }

  predicate ValidTargets(entries: map<string, Target>) {
    forall x :: x in entries ==> 0 < |x| <= 255 && ByteString(x) && NoNul(x) && entries[x].nid < TWO64
  }

  /** packDir: the entries by name, greedily. */
  method PackDir(entries: map<string, Target>) returns (out: seq<byte>)
    requires ValidTargets(entries)
    ensures forall x :: x in Sorted(entries.Keys) ==> x in entries
    ensures ValidDentries(Listed(entries, Sorted(entries.Keys)))
    ensures Packed(out, Listed(entries, Sorted(entries.Keys)), 0) && |out| % BLOCK == 0
  {
    hide Packed;
    var names := SortNames(entries.Keys);
    SortedElements(entries.Keys);
    var es := Listed(entries, names);
    forall i | 0 <= i < |es|
      ensures ValidDentry(es[i])
    {
      assert names[i] in names;
    }
    out := PackSorted(es);
  }

  // ----- Reading.

  datatype Found = Found(name: string, nid: nat)

  /** A name offset within a block. */
  function OffAt(block: seq<byte>, k: nat): nat {
    Get(Little, block, k * DIRENT + 8, 2) % BLOCK
  }

  function NameEnd(block: seq<byte>, k: nat, ndir: nat): nat {
    var end := if k + 1 < ndir then OffAt(block, k + 1) else |block|;
    if end > |block| || end < OffAt(block, k) then |block| else end
  }

  /** What entry k of a block adds: nothing when its offset is out of place or its name is not for a tree. */
  function EntryOf(block: seq<byte>, k: nat, ndir: nat): seq<Found> {
    var off := OffAt(block, k);
    if off < OffAt(block, 0) || off > |block| then []
    else
      var name := TrimNul(block[off..NameEnd(block, k, ndir)]);
      if name == "." || name == ".." || name == "" then [] else [Found(name, Get(Little, block, k * DIRENT, 8))]
  }

  function EntriesFrom(block: seq<byte>, k: nat, ndir: nat): seq<Found>
    decreases ndir - k
  {
    if k >= ndir then [] else EntryOf(block, k, ndir) + EntriesFrom(block, k + 1, ndir)
  }

  function BlockEntries(block: seq<byte>): seq<Found> {
    if |block| < DIRENT || OffAt(block, 0) < DIRENT || OffAt(block, 0) > |block| then []
    else EntriesFrom(block, 0, OffAt(block, 0) / DIRENT)
  }

  function Entries(data: seq<byte>): seq<Found> {
    if data == [] then []
    else if |data| <= BLOCK then BlockEntries(data)
    else BlockEntries(data[..BLOCK]) + Entries(data[BLOCK..])
  }

  datatype Outcome = Kids(list: seq<Found>) | BadName

  ghost predicate AllValid(fs: seq<Found>) {
    forall f :: f in fs ==> ValidName(f.name)
  }

  /** One block of readDir; AddChild refuses names that no tree may hold. */
  method ReadBlock(block: seq<byte>) returns (r: Outcome)
    ensures r == if AllValid(BlockEntries(block)) then Kids(BlockEntries(block)) else BadName
  {
    hide EntryOf, OffAt, ValidName;
    if |block| < DIRENT || OffAt(block, 0) < DIRENT || OffAt(block, 0) > |block| {
      return Kids([]);
    }
    var ndir := OffAt(block, 0) / DIRENT;
    var out: seq<Found> := [];
    assert [] + EntriesFrom(block, 0, ndir) == EntriesFrom(block, 0, ndir);
    for k := 0 to ndir
      invariant BlockEntries(block) == out + EntriesFrom(block, k, ndir)
      invariant AllValid(out)
    {
      var e := EntryOf(block, k, ndir);
      AtMostOne(block, k, ndir);
      if e != [] && !ValidName(e[0].name) {
        assert e[0] in BlockEntries(block);
        return BadName;
      }
      assert out + (e + EntriesFrom(block, k + 1, ndir)) == out + e + EntriesFrom(block, k + 1, ndir);
      out := out + e;
    }
    assert out + [] == out;
    return Kids(out);
  }

  /** readDir, on the bytes of a directory. */
  method ReadDir(data: seq<byte>) returns (r: Outcome)
    ensures r == if AllValid(Entries(data)) then Kids(Entries(data)) else BadName
  {
    hide ValidName, BlockEntries, Entries;
    var out: seq<Found> := [];
    var base := 0;
    assert data[0..] == data;
    NoEntries();
    assert out + Entries(data) == Entries(data);
    while base < |data|
      invariant 0 <= base && Entries(data) == out + (if base < |data| then Entries(data[base..]) else [])
      invariant AllValid(out)
      decreases |data| - base
    {
      var block := data[base..base + Lesser(BLOCK, |data| - base)];
      FirstBlock(data, base);
      var kids := ReadBlock(block);
      ghost var rest := if base + BLOCK < |data| then Entries(data[base + BLOCK..]) else [];
      Spread(out, BlockEntries(block), rest);
      if kids.BadName? {
        return BadName;
      }
      out := out + kids.list;
      base := base + BLOCK;
    }
    assert out + [] == out;
    return Kids(out);
  }

  lemma NoEntries()
    ensures Entries([]) == []
  {
  }

  lemma Spread(a: seq<Found>, b: seq<Found>, c: seq<Found>)
    ensures a + (b + c) == a + b + c
    ensures !AllValid(b) ==> !AllValid(a + (b + c))
    ensures AllValid(a) && AllValid(b) ==> AllValid(a + b)
  {
    hide ValidName;
    if !AllValid(b) {
      var f :| f in b && !ValidName(f.name);
      assert f in a + (b + c);
    }
  }

  lemma AtMostOne(block: seq<byte>, k: nat, ndir: nat)
    ensures |EntryOf(block, k, ndir)| <= 1
  {
  }

  lemma FirstBlock(data: seq<byte>, base: nat)
    requires base < |data|
    ensures var block := data[base..base + Lesser(BLOCK, |data| - base)];
      Entries(data[base..]) == BlockEntries(block) + if base + BLOCK < |data| then Entries(data[base + BLOCK..]) else []
  {
    hide BlockEntries;
    var d := data[base..];
    if |d| <= BLOCK {
      assert d == data[base..base + Lesser(BLOCK, |data| - base)];
    } else {
      assert d[..BLOCK] == data[base..base + BLOCK] && d[BLOCK..] == data[base + BLOCK..];
    }
  }

  // ----- A packed directory reads back.

  /** The names a tree gets: all but the dots. */
  function Shown(es: seq<Dentry>, i: nat): seq<Found>
    requires i <= |es|
    decreases |es| - i
  {
    if i == |es| then [] else ShownEntry(es[i]) + Shown(es, i + 1)
  }

  function ShownEntry(e: Dentry): seq<Found> {
    if e.name == "." || e.name == ".." then [] else [Found(e.name, e.nid)]
  }

  lemma DirentReads(block: seq<byte>, es: seq<Dentry>, k: nat)
    requires Encoded(block, es, |es|) && k < |es|
    ensures OffAt(block, k) == NameOff(es, k) && Get(Little, block, k * DIRENT, 8) == es[k].nid
      && NameOff(es, k) < BLOCK
  {
    hide LE, Get, Slice, NamesLen;
    assert EntryEncoded(block, es, k);
    ValidAt(es, k);
    NameOffs(es, k, |es|);
    Widths();
    var a, b := LE(es[k].nid, 8), LE(NameOff(es, k), 2);
    var s := DirentBytes(es[k], NameOff(es, k));
    assert s == [] + a + (b + [es[k].ftype] + [0]);
    GetPart([], es[k].nid, 8, b + [es[k].ftype] + [0]);
    assert s == a + b + ([es[k].ftype] + [0]);
    GetPart(a, NameOff(es, k), 2, [es[k].ftype] + [0]);
    GetOfSlice(Little, block, k * DIRENT, DIRENT, 0, 8);
    GetOfSlice(Little, block, k * DIRENT, DIRENT, 8, 2);
  }

  lemma EntryReads(block: seq<byte>, es: seq<Dentry>, k: nat)
    requires Encoded(block, es, |es|) && k < |es|
    ensures EntryOf(block, k, |es|) == ShownEntry(es[k])
  {
    hide Get, Slice, OffAt, Encoded, TrimNul, NameBytes, NamesLen;
    DirentReads(block, es, k);
    DirentReads(block, es, 0);
    NameOffs(es, k, |es|);
    EncodedSize(block, es);
    ValidAt(es, k);
    NameOffStart(es, k);
    var end := NameEnd(block, k, |es|);
    if k + 1 < |es| {
      DirentReads(block, es, k + 1);
    }
    NameReads(block, es, k, end);
  }

  lemma NameOffStart(es: seq<Dentry>, k: nat)
    requires k < |es|
    ensures NameOff(es, 0) == |es| * DIRENT <= NameOff(es, k)
  {
    NamesAscend(es, 0, 0, k);
  }

  lemma EncodedSize(block: seq<byte>, es: seq<Dentry>)
    requires Encoded(block, es, |es|)
    ensures |block| == BLOCK && ValidDentries(es) && NameOff(es, |es|) <= BLOCK
  {
  }

  /** A name ends where the next begins, or with the zeros behind the last. */
  lemma NameReads(block: seq<byte>, es: seq<Dentry>, k: nat, end: nat)
    requires Encoded(block, es, |es|) && k < |es|
    requires end == if k + 1 < |es| then NameOff(es, k + 1) else BLOCK
    ensures NameOff(es, k) <= end <= |block| && TrimNul(block[NameOff(es, k)..end]) == es[k].name
  {
    hide TrimNul, NameBytes, NamesLen;
    assert EntryEncoded(block, es, k);
    ValidAt(es, k);
    NameOffs(es, k, |es|);
    var off, n := NameOff(es, k), NameBytes(es[k].name);
    assert block[off..off + |n|] == Slice(block, off, |n|) == n;
    if k + 1 < |es| {
      TrimNulOfAll(es[k].name);
    } else if off + |n| == BLOCK {
      TrimNulOfAll(es[k].name);
    } else {
      var z := block[off + |n|..];
      assert block[off..end] == n + z;
      TrimNulOfName(es[k].name, z);
    }
  }

  lemma {:induction false} EntriesRead(block: seq<byte>, es: seq<Dentry>, k: nat)
    requires Encoded(block, es, |es|) && k <= |es|
    ensures EntriesFrom(block, k, |es|) == Shown(es, k)
    decreases |es| - k
  {
    hide EntryOf, Encoded, ShownEntry;
    if k < |es| {
      EntryReads(block, es, k);
      EntriesRead(block, es, k + 1);
    }
  }

  lemma BlockReads(block: seq<byte>, es: seq<Dentry>)
    requires Encoded(block, es, |es|) && |es| > 0
    ensures BlockEntries(block) == Shown(es, 0)
  {
    hide Encoded, OffAt, EntriesFrom, NamesLen, Shown;
    EncodedSize(block, es);
    DirentReads(block, es, 0);
    NameOffStart(es, 0);
    EntriesRead(block, es, 0);
    DivUnique(|es| * DIRENT, DIRENT, |es|, 0);
  }

  lemma {:induction false} ShownSplit(es: seq<Dentry>, i: nat, j: nat)
    requires i <= j <= |es|
    ensures Shown(es, i) == Shown(es[i..j], 0) + Shown(es, j)
    decreases j - i
  {
    hide Shown;
    if i == j {
      assert es[i..j] == [];
      ShownStep(es[i..j], 0);
    } else {
      ShownSplit(es, i + 1, j);
      ShownTail(es[i..j], es[i + 1..j]);
      assert es[i..j][1..] == es[i + 1..j];
      ShownStep(es, i);
      ShownStep(es[i..j], 0);
    }
  }

  lemma ShownStep(es: seq<Dentry>, i: nat)
    requires i <= |es|
    ensures Shown(es, i) == if i == |es| then [] else ShownEntry(es[i]) + Shown(es, i + 1)
  {
    hide ShownEntry;
  }

  lemma {:induction false} ShownFrom(es: seq<Dentry>, k: nat)
    requires k <= |es|
    ensures Shown(es, k) == Shown(es[k..], 0)
    decreases |es| - k
  {
    hide ShownEntry;
    if k < |es| {
      ShownFrom(es, k + 1);
      ShownFrom(es[k..], 1);
      assert es[k..][1..] == es[k + 1..];
    }
  }

  lemma ShownTail(es: seq<Dentry>, tail: seq<Dentry>)
    requires |es| > 0 && tail == es[1..]
    ensures Shown(es, 0) == ShownEntry(es[0]) + Shown(tail, 0)
  {
    ShownFrom(es, 1);
  }

  /** A packed directory reads back as its entries, in order, without the dots. */
  lemma {:induction false} PackedReads(data: seq<byte>, es: seq<Dentry>, i: nat)
    requires i <= |es| && ValidDentries(es) && Packed(data, es, i)
    ensures Entries(data) == Shown(es, i)
    decreases |es| - i
  {
    hide Encoded, BlockEntries, NamesLen, ValidDentry, Shown;
    if i < |es| {
      Progress(es, i);
      var j := BlockEnd(es, i, i);
      BlockReads(data[..BLOCK], es[i..j]);
      PackedReads(data[BLOCK..], es, j);
      ShownSplit(es, i, j);
      SplitFirst(data);
    } else {
      NothingShown(es);
    }
  }

  lemma NothingShown(es: seq<Dentry>)
    ensures Shown(es, |es|) == []
  {
  }

  lemma SplitFirst(data: seq<byte>)
    requires |data| >= BLOCK
    ensures Entries(data) == BlockEntries(data[..BLOCK]) + Entries(data[BLOCK..])
  {
    hide BlockEntries;
    if |data| == BLOCK {
      assert data[..BLOCK] == data && data[BLOCK..] == [];
    }
  }

  /** packDir and readDir: the names but the dots, in order, with their inodes. */
  method PackThenRead(entries: map<string, Target>) returns (r: Outcome)
    requires ValidTargets(entries)
    requires forall x :: x in entries ==> x == "." || x == ".." || ValidName(x)
    ensures forall x :: x in Sorted(entries.Keys) ==> x in entries
    ensures r == Kids(Shown(Listed(entries, Sorted(entries.Keys)), 0))
  {
    hide Packed, Shown, ValidName;
    var data := PackDir(entries);
    ghost var es := Listed(entries, Sorted(entries.Keys));
    PackedReads(data, es, 0);
    r := ReadDir(data);
    ShownValid(entries, es, 0);
  }

  lemma {:induction false} ShownValid(entries: map<string, Target>, es: seq<Dentry>, i: nat)
    requires i <= |es| && forall k :: 0 <= k < |es| ==> es[k].name in entries
    requires forall x :: x in entries ==> x == "." || x == ".." || ValidName(x)
    ensures AllValid(Shown(es, i))
    decreases |es| - i
  {
    hide ValidName;
    if i < |es| {
      ShownValid(entries, es, i + 1);
    }
  }
}
