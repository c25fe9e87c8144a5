/** pkg/squashfs/writer.go and reader2.go: directory listings, cut into headers of at most 256 entries. */
module SquashListing {
  import opened Sizes
  import opened Options
  import opened Bytes

  const HEADER: nat := 12
  const ENTRY: nat := 8
  const MAX_RUN: nat := 256

  /** A name and where its inode was written. */
  datatype Entry = Entry(name: seq<byte>, block: nat, offset: nat, ino: nat, typ: nat)

  predicate ValidEntry(e: Entry) {
    0 < |e.name| <= TWO16 && e.block < TWO32 && e.offset < TWO16 && e.ino < TWO32 && 1 <= e.typ <= 14
  }

  ghost predicate ValidEntries(es: seq<Entry>) {
    forall i :: 0 <= i < |es| ==> ValidEntry(es[i])
  }

  /** basicType: the seven kinds of node, and behind them the same kinds in their extended encodings. */
  function BasicType(t: nat): (b: nat)
    ensures 1 <= t <= 14 ==> 1 <= b <= 7 && (t == b || t == b + 7)
  {
    if t >= 8 then t - 7 else t
  }

  // ----- Writing.

  /** An entry that may share the header of another: same inode block, a delta of 16 bits with sign. */
  predicate Shares(first: Entry, e: Entry) {
    e.block == first.block && -32768 <= e.ino - first.ino <= 32767
  }

  /** Where the run of entries from i on ends, j entries of it being sure. */
  function RunEnd(es: seq<Entry>, i: nat, j: nat): (r: nat)
    requires i <= j <= |es| && i < |es|
    ensures j <= r <= |es| && (i == j ==> i < r) && (j - i <= MAX_RUN ==> r - i <= MAX_RUN)
    ensures (forall k :: i <= k < j ==> Shares(es[i], es[k])) ==> forall k :: i <= k < r ==> Shares(es[i], es[k])
    ensures r == |es| || r - i >= 256 || es[r].block != es[i].block ||
            es[r].ino - es[i].ino < -0x8000 || es[r].ino - es[i].ino >= 0x8000
    decreases |es| - j
  {
    if j == |es| || j - i >= MAX_RUN || !Shares(es[i], es[j]) then j else RunEnd(es, i, j + 1)
  }

  function HeaderBytes(count: nat, block: nat, base: nat): (s: seq<byte>)
    ensures |s| == HEADER
  {
    LE(count, 4) + LE(block, 4) + LE(base, 4)
  }

  /** The 16 bits of a signed difference. */
  function Delta(ino: nat, base: nat): nat {
    (ino - base) % TWO16
  }

  function EntryBytes(e: Entry, base: nat): (s: seq<byte>)
    requires 0 < |e.name|
    ensures |s| == ENTRY + |e.name|
  {
    LE(e.offset, 2) + LE(Delta(e.ino, base), 2) + LE(BasicType(e.typ), 2) + LE(|e.name| - 1, 2) + e.name
  }

  ghost function EntriesBytes(es: seq<Entry>, i: nat, j: nat, base: nat): seq<byte>
    requires i <= j <= |es| && ValidEntries(es)
    decreases j - i
  {
    if i == j then [] else EntryBytes(es[i], base) + EntriesBytes(es, i + 1, j, base)
  }

  ghost function Listing(es: seq<Entry>, i: nat): seq<byte>
    requires i <= |es| && ValidEntries(es)
    decreases |es| - i
  {
    if i == |es| then []
    else
      var j := RunEnd(es, i, i);
      HeaderBytes(j - i - 1, es[i].block, es[i].ino) + EntriesBytes(es, i, j, es[i].ino) + Listing(es, j)
  }

  /** buildListing. */
  method BuildListing(es: seq<Entry>) returns (out: seq<byte>)
    requires ValidEntries(es)
    ensures out == Listing(es, 0)
  {
    hide HeaderBytes, EntryBytes, EntriesBytes, Listing, ValidEntry;
    out := [];
    var i := 0;
    while i < |es|
      invariant 0 <= i <= |es| && out + Listing(es, i) == Listing(es, 0)
    {
      var j := i;
      while j < |es| && j - i < MAX_RUN && Shares(es[i], es[j])
        invariant i <= j <= |es| && RunEnd(es, i, i) == RunEnd(es, i, j)
      {
        j := j + 1;
      }
      ListingIs(es, i);
      ghost var start, all := out, EntriesBytes(es, i, j, es[i].ino);
      out := out + HeaderBytes(j - i - 1, es[i].block, es[i].ino);
      ghost var head := out;
      NoEntries(es, j, es[i].ino);
      for k := i to j
        invariant out + EntriesBytes(es, k, j, es[i].ino) == head + all
      {
        EntriesStep(es, k, j, es[i].ino);
        out := out + EntryBytes(es[k], es[i].ino);
      }
      Joined(start, HeaderBytes(j - i - 1, es[i].block, es[i].ino), all, Listing(es, j), out);
      i := j;
    }
    NoListing(es);
  }

  lemma Joined(start: seq<byte>, head: seq<byte>, all: seq<byte>, rest: seq<byte>, out: seq<byte>)
    requires out + [] == start + head + all
    ensures out + rest == start + (head + all + rest)
  {
    assert out + [] == out;
    assert start + head + all + rest == start + (head + all + rest);
  }

  lemma {:induction false} ListingIs(es: seq<Entry>, i: nat)
    requires i < |es| && ValidEntries(es)
    ensures var j := RunEnd(es, i, i);
      Listing(es, i) == HeaderBytes(j - i - 1, es[i].block, es[i].ino) + EntriesBytes(es, i, j,
          es[i].ino) + Listing(es, j)
  {
    hide HeaderBytes, EntriesBytes;
  }

  lemma NoListing(es: seq<Entry>)
    requires ValidEntries(es)
    ensures Listing(es, |es|) == []
  {
  }

  lemma NoEntries(es: seq<Entry>, j: nat, base: nat)
    requires j <= |es| && ValidEntries(es)
    ensures EntriesBytes(es, j, j, base) == []
  {
  }

  lemma EntriesStep(es: seq<Entry>, k: nat, j: nat, base: nat)
    requires k < j <= |es| && ValidEntries(es)
    ensures |es[k].name| > 0
    ensures EntriesBytes(es, k, j, base) == EntryBytes(es[k], base) + EntriesBytes(es, k + 1, j, base)
  {
    hide EntryBytes;
    assert ValidEntry(es[k]);
  }

  // ----- Reading.

  /** What a listing says of an entry. The reader of this repository uses the name and the reference
      alone; the inode number is the header's plus the signed difference, and the type the basic one. */
  datatype Found = Found(name: seq<byte>, block: nat, offset: nat, ino: int, typ: nat)

  function Signed(v: nat): int {
    if v >= 0x8000 then v - TWO16 else v
  }

  /** The entries below one header; None stands for a name that runs past the listing. */
  function ParseEntries(l: seq<byte>, p: nat, count: nat, block: nat, base: nat): (r: Option<(seq<Found>, nat)>)
    ensures r.Some? ==> r.value.1 >= p
    decreases count
  {
    if count == 0 || p + ENTRY > |l| then Some(([], p))
    else
      var n := Get(Little, l, p + 6, 2) + 1;
      if p + ENTRY + n > |l| then None
      else
        var e := Found(Slice(l, p + ENTRY, n), block, Get(Little, l, p, 2), base + Signed(Get(Little, l, p + 2, 2)),
                       Get(Little, l, p + 4, 2));
        match ParseEntries(l, p + ENTRY + n, count - 1, block, base)
        case None => None
        case Some((rest, q)) => Some(([e] + rest, q))
  }

  /** readDir over a listing. */
  function Parse(l: seq<byte>, p: nat): Option<seq<Found>>
    decreases |l| - p
  {
    if p + HEADER > |l| then Some([])
    else
      match ParseEntries(l, p + HEADER, Get(Little, l, p, 4) + 1, Get(Little, l, p + 4, 4), Get(Little, l, p + 8, 4))
      case None => None
      case Some((es, q)) =>
        match Parse(l, q)
        case None => None
        case Some(rest) => Some(es + rest)
  }

  /** The entries below one header. */
  method ReadRun(l: seq<byte>, start: nat, count: nat, block: nat, base: nat) returns (r: Option<(seq<Found>, nat)>)
    ensures r == ParseEntries(l, start, count, block, base)
  {
    hide Get, Slice;
    var run: seq<Found> := [];
    var p: nat, i: nat := start, 0;
    ghost var goal := ParseEntries(l, start, count, block, base);
    RunPrepended(goal);
    while i < count && p + ENTRY <= |l|
      invariant 0 <= i <= count && start <= p
      invariant goal == PrependRun(run, ParseEntries(l, p, count - i, block, base))
      decreases count - i
    {
      var n := Get(Little, l, p + 6, 2) + 1;
      if p + ENTRY + n > |l| {
        return None;
      }
      var e := Found(Slice(l, p + ENTRY, n), block, Get(Little, l, p, 2), base + Signed(Get(Little, l, p + 2, 2)),
                     Get(Little, l, p + 4, 2));
      OneMore(run, e, ParseEntries(l, p + ENTRY + n, count - i - 1, block, base));
      run := run + [e];
      p := p + ENTRY + n;
      i := i + 1;
    }
    assert run + [] == run;
    return Some((run, p));
  }

  /** readDir, header by header. */
  method ReadListing(l: seq<byte>) returns (r: Option<seq<Found>>)
    ensures r == Parse(l, 0)
  {
    hide Get, ParseEntries, Prepend;
    var out: seq<Found> := [];
    var p: nat := 0;
    ghost var goal := Parse(l, 0);
    ParsePrepended(out, goal);
    while p + HEADER <= |l|
      invariant goal == Prepend(out, Parse(l, p))
      decreases |l| - p
    {
      var run := ReadRun(l, p + HEADER, Get(Little, l, p, 4) + 1, Get(Little, l, p + 4, 4), Get(Little, l, p + 8, 4));
      if run.None? {
        PrependNone(out);
        return None;
      }
      RunDone(out, run.value.0, Parse(l, run.value.1));
      out := out + run.value.0;
      p := run.value.1;
    }
    ParsePrepended(out, goal);
    return Some(out);
  }

  function Prepend(a: seq<Found>, r: Option<seq<Found>>): Option<seq<Found>> {
    match r case None => None case Some(b) => Some(a + b)
  }

  function PrependRun(a: seq<Found>, r: Option<(seq<Found>, nat)>): Option<(seq<Found>, nat)> {
    match r case None => None case Some((b, q)) => Some((a + b, q))
  }

  lemma ParsePrepended(a: seq<Found>, r: Option<seq<Found>>)
    ensures Prepend([], r) == r && Prepend(a, Some([])) == Some(a)
  {
    assert a + [] == a;
    if r.Some? {
      assert [] + r.value == r.value;
    }
  }

  lemma PrependNone(a: seq<Found>)
    ensures Prepend(a, None) == None
  {
  }

  lemma RunPrepended(r: Option<(seq<Found>, nat)>)
    ensures PrependRun([], r) == r
  {
    if r.Some? {
      assert [] + r.value.0 == r.value.0;
    }
  }

  lemma OneMore(a: seq<Found>, e: Found, r: Option<(seq<Found>, nat)>)
    ensures PrependRun(a, match r case None => None case Some((b, q)) => Some(([e] + b, q))) == PrependRun(a + [e], r)
  {
    if r.Some? {
      assert a + ([e] + r.value.0) == a + [e] + r.value.0;
    }
  }

  lemma RunDone(out: seq<Found>, run: seq<Found>, rest: Option<seq<Found>>)
    ensures Prepend(out, match rest case None => None case Some(more) => Some(run + more)) == Prepend(out + run, rest)
  {
    if rest.Some? {
      assert out + (run + rest.value) == out + run + rest.value;
    }
  }

  // ----- A listing reads back.

  function FoundOf(e: Entry): Found {
    Found(e.name, e.block, e.offset, e.ino, BasicType(e.typ))
  }

  /** The name, the reference and number of its inode, and the kind, whichever encoding the inode has. */
  predicate Leads(f: Found, e: Entry) {
    && f.name == e.name && f.block == e.block && f.offset == e.offset && f.ino == e.ino
    && 1 <= f.typ <= 7 && (e.typ == f.typ || e.typ == f.typ + 7)
  }

  function AllFound(es: seq<Entry>, i: nat, j: nat): seq<Found>
    requires i <= j <= |es|
  {
    seq(j - i, k requires 0 <= k < j - i => FoundOf(es[i + k]))
  }

  /** The signed difference is recovered from its 16 bits. */
  lemma DeltaReads(ino: nat, base: nat)
    requires -32768 <= ino - base <= 32767
    ensures base + Signed(Delta(ino, base)) == ino
  {
  }

  lemma EntryReads(l: seq<byte>, pre: seq<byte>, e: Entry, first: Entry, post: seq<byte>)
    requires ValidEntry(e) && l == pre + EntryBytes(e, first.ino) + post && Shares(first, e)
    ensures var p := |pre|;
      && Get(Little, l, p + 6, 2) + 1 == |e.name| && p + ENTRY + |e.name| <= |l|
      && Found(Slice(l, p + ENTRY, |e.name|), first.block, Get(Little, l, p, 2),
               first.ino + Signed(Get(Little, l, p + 2, 2)), Get(Little, l, p + 4, 2)) == FoundOf(e)
  {
    hide LE, Get, Slice, Delta;
    Widths();
    DeltaReads(e.ino, first.ino);
    DeltaFits(e.ino, first.ino);
    var a, b, c, d := LE(e.offset, 2), LE(Delta(e.ino, first.ino), 2), LE(BasicType(e.typ), 2), LE(|e.name| - 1, 2);
    assert l == pre + a + (b + c + d + e.name + post);
    GetPart(pre, e.offset, 2, b + c + d + e.name + post);
    assert l == pre + a + b + (c + d + e.name + post);
    GetPart(pre + a, Delta(e.ino, first.ino), 2, c + d + e.name + post);
    assert l == pre + a + b + c + (d + e.name + post);
    GetPart(pre + a + b, BasicType(e.typ), 2, d + e.name + post);
    assert l == pre + a + b + c + d + (e.name + post);
    GetPart(pre + a + b + c, |e.name| - 1, 2, e.name + post);
    assert l == (pre + a + b + c + d) + e.name + post;
    Part(pre + a + b + c + d, e.name, post);
  }

  lemma DeltaFits(ino: nat, base: nat)
    ensures Delta(ino, base) < TWO16
  {
  }

  lemma HeaderReads(l: seq<byte>, pre: seq<byte>, count: nat, block: nat, base: nat, post: seq<byte>)
    requires l == pre + HeaderBytes(count, block, base) + post && count < TWO32 && block < TWO32 && base < TWO32
    ensures var p := |pre|;
      p + HEADER <= |l| && Get(Little, l, p, 4) == count && Get(Little, l, p + 4, 4) == block && Get(Little, l, p + 8,
          4) == base
  {
    hide LE, Get;
    Widths();
    var a, b, c := LE(count, 4), LE(block, 4), LE(base, 4);
    assert l == pre + a + (b + c + post);
    GetPart(pre, count, 4, b + c + post);
    assert l == pre + a + b + (c + post);
    GetPart(pre + a, block, 4, c + post);
    assert l == pre + a + b + c + post;
    GetPart(pre + a + b, base, 4, post);
  }

  lemma {:induction false} EntriesRead(l: seq<byte>, pre: seq<byte>, es: seq<Entry>, i: nat, j: nat, first: Entry,
          post: seq<byte>)
    requires i <= j <= |es| && ValidEntries(es) && l == pre + EntriesBytes(es, i, j, first.ino) + post
    requires forall k :: i <= k < j ==> Shares(first, es[k])
    ensures ParseEntries(l, |pre|, j - i, first.block, first.ino) ==
            Some((AllFound(es, i, j), |pre| + |EntriesBytes(es, i, j, first.ino)|))
    decreases j - i
  {
    hide EntryBytes, EntriesBytes, ValidEntry, Get, Slice, Shares, FoundOf, ParseEntries;
    if i == j {
      NoEntries(es, j, first.ino);
      NothingParsed(l, |pre|, first.block, first.ino);
    } else {
      EntriesStep(es, i, j, first.ino);
      var b, rest := EntryBytes(es[i], first.ino), EntriesBytes(es, i + 1, j, first.ino);
      assert l == pre + b + (rest + post);
      EntryReads(l, pre, es[i], first, rest + post);
      assert l == (pre + b) + rest + post;
      EntriesRead(l, pre + b, es, i + 1, j, first, post);
      OneParsed(l, |pre|, j - i, first, es[i]);
      assert AllFound(es, i, j) == [FoundOf(es[i])] + AllFound(es, i + 1, j);
    }
  }

  lemma NothingParsed(l: seq<byte>, p: nat, block: nat, base: nat)
    ensures ParseEntries(l, p, 0, block, base) == Some(([], p))
  {
  }

  lemma OneParsed(l: seq<byte>, p: nat, count: nat, first: Entry, e: Entry)
    requires count > 0 && Get(Little, l, p + 6, 2) + 1 == |e.name| && p + ENTRY + |e.name| <= |l|
    requires Found(Slice(l, p + ENTRY, |e.name|), first.block, Get(Little, l, p, 2),
                   first.ino + Signed(Get(Little, l, p + 2, 2)), Get(Little, l, p + 4, 2)) == FoundOf(e)
    requires ParseEntries(l, p + ENTRY + |e.name|, count - 1, first.block, first.ino).Some?
    ensures var rest := ParseEntries(l, p + ENTRY + |e.name|, count - 1, first.block, first.ino).value;
      ParseEntries(l, p, count, first.block, first.ino) == Some(([FoundOf(e)] + rest.0, rest.1))
  {
    hide Get, Slice, FoundOf;
  }

  lemma {:induction false} ListingReads(l: seq<byte>, pre: seq<byte>, es: seq<Entry>, i: nat)
    requires i <= |es| && ValidEntries(es) && l == pre + Listing(es, i)
    ensures Parse(l, |pre|) == Some(AllFound(es, i, |es|))
    decreases |es| - i
  {
    hide HeaderBytes, EntryBytes, EntriesBytes, Listing, ValidEntry, ValidEntries, Get, Slice, FoundOf, ParseEntries;
    if i == |es| {
      NoListing(es);
    } else {
      var j := RunEnd(es, i, i);
      ListingIs(es, i);
      OneValid(es, i);
      var h, b, rest := HeaderBytes(j - i - 1, es[i].block, es[i].ino), EntriesBytes(es, i, j, es[i].ino), Listing(es,
          j);
      assert l == pre + h + (b + rest);
      HeaderReads(l, pre, j - i - 1, es[i].block, es[i].ino, b + rest);
      assert l == (pre + h) + b + rest;
      EntriesRead(l, pre + h, es, i, j, es[i], rest);
      assert l == (pre + h + b) + rest;
      ListingReads(l, pre + h + b, es, j);
      assert AllFound(es, i, |es|) == AllFound(es, i, j) + AllFound(es, j, |es|);
    }
  }

  lemma OneValid(es: seq<Entry>, i: nat)
    requires i < |es| && ValidEntries(es)
    ensures es[i].block < TWO32 && es[i].ino < TWO32
  {
    assert ValidEntry(es[i]);
  }

  /** Reading a directory listing gives its names and references back, in order. */
  lemma ListingRoundTrip(es: seq<Entry>)
    requires ValidEntries(es)
    ensures Parse(Listing(es, 0), 0) == Some(AllFound(es, 0, |es|))
    ensures var found := Parse(Listing(es, 0), 0).value;
      && |found| == |es|
      && forall k :: 0 <= k < |es| ==> Leads(found[k], es[k])
  {
    hide Parse, Listing;
    forall k | 0 <= k < |es|
      ensures Leads(AllFound(es, 0, |es|)[k], es[k])
    {
      assert ValidEntry(es[k]);
    }
    assert Listing(es, 0) == [] + Listing(es, 0);
    ListingReads(Listing(es, 0), [], es, 0);
  }
}
