/** pkg/qcow2/writer.go: a flat device stored sparsely in a host file. */
module Qcow2Writer {
  import opened Sizes
  import opened Options
  import opened Bytes
  import opened Files
  import opened Qcow2Format

  datatype Status = Done | EndOfFile | Failed

  /** What the guest sees at i while the tables are still in memory. */
  function View(l2map: map<nat, nat>, data: seq<byte>, i: nat): byte {
    if i / CLUSTER in l2map then ByteAt(data, l2map[i / CLUSTER] * CLUSTER + i % CLUSTER) else 0
  }

  /** Guest clusters inside the disk, each with a host cluster of its own below nextHost. */
  ghost predicate MapOk(l2map: map<nat, nat>, nextHost: nat, size: nat) {
    && (forall gc :: gc in l2map ==> gc * CLUSTER < size && 1 <= l2map[gc] < nextHost)
    && (forall a, b :: a in l2map && b in l2map && l2map[a] == l2map[b] ==> a == b)
  }

  ghost predicate Shows(l2map: map<nat, nat>, data: seq<byte>, disk: seq<byte>) {
    forall i: nat {:trigger ByteAt(disk, i)} {:trigger View(l2map, data, i)} ::
      View(l2map, data, i) == ByteAt(disk, i)
  }

  ghost predicate ZeroFrom(data: seq<byte>, lo: nat) {
    forall j: nat {:trigger ByteAt(data, j)} :: lo <= j ==> ByteAt(data, j) == 0
  }

  predicate AllZero(s: seq<byte>) {
    forall i :: 0 <= i < |s| ==> s[i] == 0
  }

  /** The guest clusters into which a byte of p falls that is not zero, when p is written at off. */
  function Inked(p: seq<byte>, off: nat): set<nat> {
    set k | 0 <= k < |p| && p[k] != 0 :: (off + k) / CLUSTER
  }

  lemma InkedMore(a: seq<byte>, b: seq<byte>, off: nat)
    ensures Inked(a + b, off) == Inked(a, off) + Inked(b, off + |a|)
  {
    var p := a + b;
    forall gc
      ensures gc in Inked(p, off) <==> gc in Inked(a, off) || gc in Inked(b, off + |a|)
    {
      if gc in Inked(a, off) {
        var k :| 0 <= k < |a| && a[k] != 0 && (off + k) / CLUSTER == gc;
        assert p[k] == a[k];
      }
      if gc in Inked(b, off + |a|) {
        var k :| 0 <= k < |b| && b[k] != 0 && (off + |a| + k) / CLUSTER == gc;
        assert p[|a| + k] == b[k];
      }
    }
  }

  lemma InkedChunk(chunk: seq<byte>, at: nat)
    requires at % CLUSTER + |chunk| <= CLUSTER
    ensures Inked(chunk, at) == if AllZero(chunk) then {} else {at / CLUSTER}
  {
    forall k | 0 <= k < |chunk| && chunk[k] != 0
      ensures (at + k) / CLUSTER == at / CLUSTER
    {
    }
    if !AllZero(chunk) {
      var k :| 0 <= k < |chunk| && chunk[k] != 0;
      assert at / CLUSTER in Inked(chunk, at);
    }
  }

  lemma NothingInked(off: nat)
    ensures Inked([], off) == {}
  {
  }

  /** The clusters of ink were added to a map, each with a new host cluster where it had none. */
  ghost predicate Grew(was: map<nat, nat>, host: nat, now: map<nat, nat>, next: nat, ink: set<nat>) {
    && now.Keys == was.Keys + ink && next == host + |now| - |was|
    && forall gc :: gc in was ==> gc in now && now[gc] == was[gc]
  }

  lemma GrewNot(m: map<nat, nat>, host: nat, ink: set<nat>)
    requires ink <= m.Keys
    ensures Grew(m, host, m, host, ink)
  {
    assert m.Keys + ink == m.Keys;
  }

  lemma GrewOne(m: map<nat, nat>, host: nat, gc: nat)
    requires gc !in m
    ensures Grew(m, host, m[gc := host], host + 1, {gc})
  {
    assert m[gc := host].Keys == m.Keys + {gc};
  }

  lemma GrewTwice(a: map<nat, nat>, i: nat, b: map<nat, nat>, j: nat, c: map<nat, nat>, k: nat, ink: set<nat>,
                  more: set<nat>)
    requires Grew(a, i, b, j, ink) && Grew(b, j, c, k, more)
    ensures Grew(a, i, c, k, ink + more)
  {
    assert c.Keys == a.Keys + (ink + more);
  }

  /** Writing a chunk into its host cluster writes it to the disk and nowhere else. */
  lemma ChunkWritten(l2map: map<nat, nat>, data: seq<byte>, disk: seq<byte>, host: nat, chunk: seq<byte>, at: nat,
                     nextHost: nat, size: nat)
    requires MapOk(l2map, nextHost, size) && Shows(l2map, data, disk)
    requires at % CLUSTER + |chunk| <= CLUSTER
    requires if at / CLUSTER in l2map then l2map[at / CLUSTER] == host
             else host == nextHost && ZeroFrom(data, host * CLUSTER)
    ensures Shows(l2map[at / CLUSTER := host], Spliced(data, chunk, host * CLUSTER + at % CLUSTER), Spliced(disk,
      chunk, at))
  {
    hide Spliced;
    forall i: nat
      ensures View(l2map[at / CLUSTER := host], Spliced(data, chunk, host * CLUSTER + at % CLUSTER), i) ==
              ByteAt(Spliced(disk, chunk, at), i)
    {
      assert View(l2map, data, i) == ByteAt(disk, i);
      if i / CLUSTER == at / CLUSTER {
        SameHost(data, disk, host, chunk, at / CLUSTER, at % CLUSTER, i % CLUSTER);
      } else if i / CLUSTER in l2map {
        OtherHost(data, host, chunk, at % CLUSTER, l2map[i / CLUSTER], i % CLUSTER);
      }
    }
  }

  lemma SameHost(data: seq<byte>, disk: seq<byte>, host: nat, chunk: seq<byte>, gc: nat, inCl: nat, k: nat)
    requires ByteAt(data, host * CLUSTER + k) == ByteAt(disk, gc * CLUSTER + k)
    ensures ByteAt(Spliced(data, chunk, host * CLUSTER + inCl), host * CLUSTER + k) ==
            ByteAt(Spliced(disk, chunk, gc * CLUSTER + inCl), gc * CLUSTER + k)
  {
  }

  lemma OtherHost(data: seq<byte>, host: nat, chunk: seq<byte>, inCl: nat, other: nat, k: nat)
    requires inCl + |chunk| <= CLUSTER && k < CLUSTER && other != host
    ensures ByteAt(Spliced(data, chunk, host * CLUSTER + inCl), other * CLUSTER + k) == ByteAt(data,
      other * CLUSTER + k)
  {
    if other < host {
      assert other * CLUSTER + k < host * CLUSTER;
    } else {
      assert other * CLUSTER >= (host + 1) * CLUSTER;
    }
  }

  /** Clusters that were never handed out stay zero. */
  lemma RestStaysZero(data: seq<byte>, host: nat, chunk: seq<byte>, inCl: nat, nextHost: nat)
    requires inCl + |chunk| <= CLUSTER && host <= nextHost && ZeroFrom(data, nextHost * CLUSTER)
    ensures ZeroFrom(Spliced(data, chunk, host * CLUSTER + inCl),
      (if host < nextHost then nextHost else host + 1) * CLUSTER)
  {
  }

  /** The bytes of the disk inside one cluster are bytes of its host cluster. */
  lemma ClusterBytes(l2map: map<nat, nat>, data: seq<byte>, disk: seq<byte>, at: nat, n: nat)
    requires Shows(l2map, data, disk) && at % CLUSTER + n <= CLUSTER
    ensures Slice(disk, at, n) ==
            if at / CLUSTER in l2map then Slice(data, l2map[at / CLUSTER] * CLUSTER + at % CLUSTER, n) else Zeros(n)
  {
    forall k | 0 <= k < n
      ensures (at + k) / CLUSTER == at / CLUSTER && (at + k) % CLUSTER == at % CLUSTER + k
      ensures Slice(disk, at, n)[k] == View(l2map, data, at + k)
    {
    }
  }

  lemma WroteNothing(d: seq<byte>, off: nat)
    ensures Spliced(d, [], off) == d
  {
  }

  lemma SplicedTwice(d: seq<byte>, a: seq<byte>, b: seq<byte>, off: nat)
    requires off + |a| + |b| <= |d|
    ensures Spliced(Spliced(d, a, off), b, off + |a|) == Spliced(d, a + b, off)
  {
    var l, r := Spliced(Spliced(d, a, off), b, off + |a|), Spliced(d, a + b, off);
    assert |l| == |r|;
    forall i | 0 <= i < |l|
      ensures l[i] == r[i]
    {
      assert ByteAt(l, i) == ByteAt(r, i);
    }
  }

  lemma OneMoreChunk(was: seq<byte>, p: seq<byte>, written: nat, n: nat, off: nat, m: map<nat, nat>, host: nat,
                     m1: map<nat, nat>, host1: nat, m2: map<nat, nat>, host2: nat)
    requires written + n <= |p| && off + |p| <= |was|
    requires Grew(m, host, m1, host1, Inked(p[..written], off))
    requires Grew(m1, host1, m2, host2, Inked(p[written..written + n], off + written))
    ensures Spliced(Spliced(was, p[..written], off), p[written..written + n], off + written) ==
            Spliced(was, p[..written + n], off)
    ensures Grew(m, host, m2, host2, Inked(p[..written + n], off))
  {
    hide Spliced, Inked, Grew;
    var a, b := p[..written], p[written..written + n];
    assert a + b == p[..written + n];
    SplicedTwice(was, a, b, off);
    InkedMore(a, b, off);
    GrewTwice(m, host, m1, host1, m2, host2, Inked(a, off), Inked(b, off + written));
  }

  // ----- The metadata written by Finalize.

  function L2Entry(l2map: map<nat, nat>, gc: nat): nat {
    if gc in l2map then l2map[gc] * CLUSTER + FLAG_COPIED else 0
  }

  function L2Table(l2map: map<nat, nat>, idx: nat): (t: seq<nat>)
    ensures |t| == L2_ENTRIES
  {
    seq<nat>(L2_ENTRIES, j requires 0 <= j => L2Entry(l2map, idx * L2_ENTRIES + j))
  }

  /** The L1 slots that need an L2 table. */
  function L1Used(l2map: map<nat, nat>): set<nat> {
    set gc | gc in l2map :: gc / L2_ENTRIES
  }

  /** e points at the L2 table of slot idx, somewhere in the clusters [lo, hi). */
  ghost predicate SlotOk(data: seq<byte>, l2map: map<nat, nat>, e: nat, idx: nat, lo: nat, hi: nat) {
    && FLAG_COPIED + lo * CLUSTER <= e && e + CLUSTER <= FLAG_COPIED + hi * CLUSTER
    && (e - FLAG_COPIED) % CLUSTER == 0
    && TableAt(data, e - FLAG_COPIED, L2Table(l2map, idx))
  }

  /** Every slot in done has its table, every other slot is empty. */
  ghost predicate L1Ok(data: seq<byte>, l2map: map<nat, nat>, l1: seq<nat>, done: set<nat>, lo: nat, hi: nat) {
    forall idx: nat :: idx < |l1| ==> if idx in done then SlotOk(data, l2map, l1[idx], idx, lo, hi) else l1[idx] == 0
  }

  lemma NothingDone(data: seq<byte>, l2map: map<nat, nat>, l1: seq<nat>, lo: nat)
    requires forall i :: 0 <= i < |l1| ==> l1[i] == 0
    ensures L1Ok(data, l2map, l1, {}, lo, lo) && Agree(data, data, 0, lo * CLUSTER)
  {
  }

  lemma SlotKept(d: seq<byte>, e: seq<byte>, l2map: map<nat, nat>, l1: seq<nat>, done: set<nat>, lo: nat, hi: nat,
          hi': nat)
    requires L1Ok(d, l2map, l1, done, lo, hi) && Agree(d, e, lo * CLUSTER, hi * CLUSTER) && hi <= hi'
    ensures L1Ok(e, l2map, l1, done, lo, hi')
  {
    forall idx: nat | idx < |l1| && idx in done
      ensures SlotOk(e, l2map, l1[idx], idx, lo, hi')
    {
      assert SlotOk(d, l2map, l1[idx], idx, lo, hi);
      TableElsewhere(d, e, lo * CLUSTER, hi * CLUSTER, l1[idx] - FLAG_COPIED, L2Table(l2map, idx));
    }
  }

  lemma SlotAdded(d: seq<byte>, l2map: map<nat, nat>, l1: seq<nat>, done: set<nat>, lo: nat, hi: nat, idx: nat)
    requires L1Ok(d, l2map, l1, done, lo, hi) && lo <= hi && idx < |l1|
    ensures var e := Spliced(d, TableBytes(L2Table(l2map, idx)), hi * CLUSTER);
      var slot: nat := hi * CLUSTER + FLAG_COPIED;
      L1Ok(e, l2map, l1[idx := slot], done + {idx}, lo, hi + 1) && Agree(d, e, 0, hi * CLUSTER)
  {
    var e := Spliced(d, TableBytes(L2Table(l2map, idx)), hi * CLUSTER);
    SlotKept(d, e, l2map, l1, done, lo, hi, hi + 1);
    TableReadsBack(d, L2Table(l2map, idx), hi * CLUSTER);
    assert SlotOk(e, l2map, hi * CLUSTER + FLAG_COPIED, idx, lo, hi + 1);
  }

  ghost predicate IsLeast(m: nat, s: set<nat>) {
    m in s && forall x :: x in s ==> m <= x
  }

  /** The elements of a set, in increasing order. */
  method SortedElements(s: set<nat>) returns (r: seq<nat>)
    ensures |r| == |s| && (forall x :: x in r <==> x in s)
    ensures forall i, j :: 0 <= i < j < |r| ==> r[i] < r[j]
  {
    r := [];
    var rest := s;
    while rest != {}
      invariant rest <= s && |r| + |rest| == |s|
      invariant forall x :: x in r <==> x in s && x !in rest
      invariant forall i, j :: 0 <= i < j < |r| ==> r[i] < r[j]
      invariant forall i, y :: 0 <= i < |r| && y in rest ==> r[i] < y
    {
      var m := Least(rest);
      r := r + [m];
      rest := rest - {m};
    }
  }

  method Least(s: set<nat>) returns (m: nat)
    requires s != {}
    ensures m in s && forall x :: x in s && x != m ==> m < x
  {
    LeastExists(s);
    m :| m in s && forall x :: x in s ==> m <= x;
  }

  lemma {:induction false} LeastExists(s: set<nat>)
    requires s != {}
    ensures exists m :: IsLeast(m, s)
    decreases |s|
  {
    var a :| a in s;
    if s == {a} {
      assert IsLeast(a, s);
    } else {
      LeastExists(s - {a});
      var m :| IsLeast(m, s - {a});
      assert s == (s - {a}) + {a};
      assert IsLeast(if a < m then a else m, s);
    }
  }

  // ----- Reference counts.

  /** rb refcount blocks and rt table clusters are just enough for used clusters and themselves. */
  ghost predicate Covers(used: nat, rb: nat, rt: nat) {
    rb == CeilDiv(used + rt + rb, REFCOUNTS_PER_CLUSTER) && rt == CeilDiv(rb * 8, CLUSTER)
  }

  /** rb blocks and rt table clusters would be enough. */
  ghost predicate Suffices(used: nat, rb: nat, rt: nat) {
    used + rt + rb <= rb * REFCOUNTS_PER_CLUSTER && rb * 8 <= rt * CLUSTER
  }

  /** A file of total clusters can count used clusters and its refcounts, and none of fewer could. */
  ghost predicate IsSmallest(total: nat, used: nat) {
    && (exists rb, rt :: Suffices(used, rb, rt) && total == used + rt + rb)
    && forall rb, rt :: Suffices(used, rb, rt) ==> total <= used + rt + rb
  }

  /** The sizing loop: its iterates rise, stay below every sufficient pair, and so meet the least one. */
  method SizeRefcounts(used: nat) returns (rb: nat, rt: nat)
    requires used > 0
    ensures Covers(used, rb, rt) && Suffices(used, rb, rt)
    ensures forall b, t :: Suffices(used, b, t) ==> rb <= b && rt <= t
  {
    rb, rt := 1, 1;
    while true
      invariant 1 <= rb <= used + 2 && 1 <= rt <= used + 2
      invariant rb <= CeilDiv(used + rt + rb, REFCOUNTS_PER_CLUSTER)
      invariant rt <= CeilDiv(CeilDiv(used + rt + rb, REFCOUNTS_PER_CLUSTER) * 8, CLUSTER)
      invariant forall b, t :: Suffices(used, b, t) ==> rb <= b && rt <= t
      decreases 2 * used + 4 - rb - rt
    {
      var total := used + rt + rb;
      var nrb: nat := CeilDiv(total, REFCOUNTS_PER_CLUSTER);
      var nrt: nat := CeilDiv(nrb * 8, CLUSTER);
      if nrb == rb && nrt == rt {
        break;
      }
      forall b: nat, t: nat | Suffices(used, b, t)
        ensures nrb <= b && nrt <= t
      {
        assert rb <= b && rt <= t;
      }
      rb, rt := nrb, nrt;
    }
  }

  /** Refcount blocks that count the first total clusters once. */
  function RefcountBytes(total: nat, size: nat): (b: seq<byte>)
    ensures |b| == size
  {
    seq<byte>(size, i requires 0 <= i => if i % 2 == 1 && i / 2 < total then 1 else 0)
  }

  ghost predicate CountedOnce(data: seq<byte>, rtOff: nat, total: nat) {
    forall c: nat :: c < total ==> RefcountOf(data, rtOff, c) == 1
  }

  /** The table entry for cluster c points at its block, which counts c once. */
  ghost predicate CountAt(data: seq<byte>, used: nat, rt: nat, c: nat) {
    var rbOff := (used + rt) * CLUSTER;
    && Entry(data, used * CLUSTER, c / REFCOUNTS_PER_CLUSTER) == rbOff + c / REFCOUNTS_PER_CLUSTER * CLUSTER
    && Get(Big, data, rbOff + 2 * c, 2) == 1
  }

  ghost predicate CountsAt(data: seq<byte>, used: nat, rb: nat, rt: nat) {
    forall c: nat :: c < used + rt + rb ==> CountAt(data, used, rt, c)
  }

  lemma OneCount(total: nat, size: nat, c: nat)
    requires c < total && 2 * c + 2 <= size
    ensures Get(Big, RefcountBytes(total, size), 2 * c, 2) == 1
  {
    var s := Slice(RefcountBytes(total, size), 2 * c, 2);
    assert s[0] == RefcountBytes(total, size)[2 * c] == 0;
    assert s[1] == RefcountBytes(total, size)[2 * c + 1] == 1;
    assert s == [0, 1] && s[..1] == [0];
    assert UnBE([0]) == 0;
  }

  function BlockPointers(rbOff: nat, rb: nat): (p: seq<nat>)
    ensures |p| == rb
  {
    seq<nat>(rb, b requires 0 <= b => rbOff + b * CLUSTER)
  }

  /** A file after the refcount blocks and then the refcount table were written past cluster used. */
  function WithRefcounts(d: seq<byte>, used: nat, rb: nat, rt: nat): seq<byte>
    requires Suffices(used, rb, rt)
  {
    var rbOff := (used + rt) * CLUSTER;
    var blocks := RefcountBytes(used + rt + rb, rb * CLUSTER);
    Spliced(Spliced(d, blocks, rbOff), TableBytes(BlockPointers(rbOff, rb)) + Zeros(rt * CLUSTER - 8 * rb),
        used * CLUSTER)
  }

  lemma RefcountsWritten(d: seq<byte>, used: nat, rb: nat, rt: nat)
    requires Suffices(used, rb, rt)
    ensures Agree(d, WithRefcounts(d, used, rb, rt), 0, used * CLUSTER)
    ensures (used + rt + rb) * CLUSTER < TWO63 ==> CountsAt(WithRefcounts(d, used, rb, rt), used, rb, rt)
  {
    hide CountAt;
    if (used + rt + rb) * CLUSTER < TWO63 {
      forall c: nat | c < used + rt + rb
        ensures CountAt(WithRefcounts(d, used, rb, rt), used, rt, c)
      {
        CountReads(d, used, rb, rt, c);
      }
    }
  }

  lemma CountReads(d: seq<byte>, used: nat, rb: nat, rt: nat, c: nat)
    requires Suffices(used, rb, rt) && (used + rt + rb) * CLUSTER < TWO63 && c < used + rt + rb
    ensures CountAt(WithRefcounts(d, used, rb, rt), used, rt, c)
  {
    hide Spliced, TableBytes, RefcountBytes, Slice, Zeros, Entry;
    var rtOff, rbOff, total := used * CLUSTER, (used + rt) * CLUSTER, used + rt + rb;
    var blocks, ptrs := RefcountBytes(total, rb * CLUSTER), BlockPointers(rbOff, rb);
    var pad := TableBytes(ptrs) + Zeros(rt * CLUSTER - 8 * rb);
    var e := Spliced(d, blocks, rbOff);
    var b := c / REFCOUNTS_PER_CLUSTER;
    PointerReads(e, ptrs, rt * CLUSTER - 8 * rb, rtOff, b);
    assert ptrs[b] == rbOff + b * CLUSTER;
    SliceElsewhere(e, pad, rtOff, rbOff + 2 * c, 2);
    SliceWithin(d, blocks, rbOff, 2 * c, 2);
    OneCount(total, rb * CLUSTER, c);
  }

  lemma {:induction false} PointerReads(e: seq<byte>, ptrs: seq<nat>, pad: nat, off: nat, b: nat)
    requires b < |ptrs|
    ensures Entry(Spliced(e, TableBytes(ptrs) + Zeros(pad), off), off, b) == ptrs[b] % TWO64
  {
    hide TableBytes, Spliced, Zeros, Encode, Decode, Slice;
    var p := TableBytes(ptrs) + Zeros(pad);
    TableEntry(ptrs, b);
    SliceWithin(e, p, off, 8 * b, 8);
    SlicePrefix(TableBytes(ptrs), Zeros(pad), 8 * b, 8);
    EntryDecodes(Spliced(e, p, off), off, b, ptrs[b]);
  }

  // ----- The finished file.

  /** The end of the last cluster that holds part of the disk. */
  function Padded(size: nat): nat {
    CeilDiv(size, CLUSTER) * CLUSTER
  }

  /** data is an image of disk, zeros up to the end of its last cluster, over the given number of
      clusters, each counted once. */
  ghost predicate ImageOf(data: seq<byte>, disk: seq<byte>, clusters: nat) {
    && |data| == clusters * CLUSTER
    && var parsed := ParseHeader(Slice(data, 0, HEADER_LEN));
    && parsed.Some?
    && parsed.value.clusterBits == 16 && parsed.value.size == |disk| < TWO63 && parsed.value.l1TableOffset < TWO63
    && (forall i: nat :: i < Padded(|disk|) ==> GuestByte(data, parsed.value, i) == Some(ByteAt(disk, i)))
    && TidyTables(data, parsed.value) && Fitting(parsed.value, clusters)
    && CountedOnce(data, parsed.value.refTableOffset, clusters)
  }

  /** Version 3, counts of 16 bits, and tables at the start of clusters that are just long enough: a cluster of the
      first counts 2^28 clusters, and an entry of the second maps 512 MiB. */
  predicate Fitting(h: Header, clusters: nat) {
    && h.version == 3 && h.refcountOrder == 4 && h.l1TableOffset % 65536 == 0 && h.refTableOffset % 65536 == 0
    && (h.refTableClusters - 1) * 0x1000_0000 < clusters <= h.refTableClusters * 0x1000_0000
    && (h.l1Size - 1) * 0x2000_0000 < h.size <= h.l1Size * 0x2000_0000
  }

  lemma TablesFit(h: Header, used: nat, rb: nat, rt: nat)
    requires h.version == 3 && h.refcountOrder == 4 && h.l1TableOffset % CLUSTER == 0 && h.refTableOffset % CLUSTER == 0
    requires used > 0 && Covers(used, rb, rt) && h.refTableClusters == rt && h.l1Size == CeilDiv(h.size, CLUSTER * L2_ENTRIES)
    ensures Fitting(h, used + rt + rb)
  {
    hide CeilDiv;
    CeilDivCovers(used + rt + rb, REFCOUNTS_PER_CLUSTER);
    CeilDivCovers(rb * 8, CLUSTER);
    CeilDivCovers(h.size, CLUSTER * L2_ENTRIES);
    if h.size == 0 {
      CeilDivBound(h.size, CLUSTER * L2_ENTRIES, 0);
    }
  }

  /** The offset and length fields of the format are wide enough. */
  predicate FitsFormat(size: nat, l1Size: nat, clusters: nat) {
    size < TWO63 && l1Size < TWO32 && clusters * CLUSTER <= TWO56
  }

  lemma FlaggedEntry(off: nat)
    requires off < TWO56 && off % 512 == 0
    ensures off + FLAG_COPIED < TWO64
    ensures Masked(off + FLAG_COPIED) == off && !Compressed(off + FLAG_COPIED) && (off + FLAG_COPIED) % 2 == 0
  {
    var e, k := off + FLAG_COPIED, off / 512;
    assert off == 512 * k;
    DivUnique(e, TWO56, 128, off);
    DivUnique(e, TWO62, 2, off);
    DivUnique(e, 2, 256 * k + TWO62, 0);
  }

  lemma EntryIs(data: seq<byte>, off: nat, entries: seq<nat>, i: nat)
    requires TableAt(data, off, entries) && i < |entries|
    ensures entries[i] < TWO64 ==> Entry(data, off, i) == entries[i]
  {
    hide Entry;
    assert Entry(data, off, i) == entries[i] % TWO64;
  }

  lemma ClusterAligned(off: nat)
    requires off % CLUSTER == 0
    ensures off % 512 == 0
  {
    var k := off / CLUSTER;
    assert off == 512 * (128 * k);
    DivUnique(off, 512, 128 * k, 0);
  }

  /** What a reader finds in L1 slot idx. */
  lemma L1Leads(data: seq<byte>, l2map: map<nat, nat>, l1: seq<nat>, lo: nat, hi: nat, idx: nat)
    requires L1Ok(data, l2map, l1, L1Used(l2map), lo, hi) && TableAt(data, hi * CLUSTER, l1)
    requires 1 <= lo && hi * CLUSTER <= TWO56 && idx < |l1|
    ensures var off := Masked(Entry(data, hi * CLUSTER, idx));
      if idx in L1Used(l2map) then off > 0 && TableAt(data, off, L2Table(l2map, idx)) else off == 0
  {
    hide Entry, Masked, L1Used, L2Table, TableAt;
    EntryIs(data, hi * CLUSTER, l1, idx);
    if idx in L1Used(l2map) {
      assert SlotOk(data, l2map, l1[idx], idx, lo, hi);
      var off := l1[idx] - FLAG_COPIED;
      ClusterAligned(off);
      FlaggedEntry(off);
    } else {
      ZeroEntry();
    }
  }

  lemma ClustersBelow(c: nat, lo: nat)
    requires 1 <= c < lo && lo * CLUSTER <= TWO56
    ensures 0 < c * CLUSTER < TWO56 && c * CLUSTER % 512 == 0
  {
    assert c * CLUSTER == 512 * (128 * c);
    DivUnique(c * CLUSTER, 512, 128 * c, 0);
  }

  /** What a reader finds for guest cluster gc in its L2 table. */
  lemma L2Leads(data: seq<byte>, l2map: map<nat, nat>, off: nat, lo: nat, size: nat, gc: nat)
    requires TableAt(data, off, L2Table(l2map, gc / L2_ENTRIES))
    requires MapOk(l2map, lo, size) && lo * CLUSTER <= TWO56
    ensures var e := Entry(data, off, gc % L2_ENTRIES);
      && !Compressed(e)
      && if gc in l2map then !ReadsZero(e) && Masked(e) == l2map[gc] * CLUSTER else ReadsZero(e)
  {
    hide Entry, Masked, Compressed;
    assert L2Table(l2map, gc / L2_ENTRIES)[gc % L2_ENTRIES] == L2Entry(l2map, gc);
    assert Entry(data, off, gc % L2_ENTRIES) == L2Entry(l2map, gc) % TWO64;
    if gc in l2map {
      ClustersBelow(l2map[gc], lo);
      FlaggedEntry(l2map[gc] * CLUSTER);
    } else {
      ZeroEntry();
    }
  }

  /** The tables of a finished file lead from a guest cluster to its host cluster. */
  lemma TablesLead(data: seq<byte>, l2map: map<nat, nat>, size: nat, l1: seq<nat>, h: Header, lo: nat, hi: nat, gc: nat)
    requires h.clusterBits == 16 && h.l1Size == |l1| && h.l1TableOffset == hi * CLUSTER
    requires MapOk(l2map, lo, size) && 1 <= lo <= hi && hi * CLUSTER <= TWO56
    requires L1Ok(data, l2map, l1, L1Used(l2map), lo, hi) && TableAt(data, hi * CLUSTER, l1)
    requires gc / L2_ENTRIES < |l1|
    ensures HostOffset(data, h, gc) == Some(if gc in l2map then l2map[gc] * CLUSTER else 0)
  {
    hide Entry, Masked, Compressed, TableAt, L1Ok, MapOk, ReadsZero, L1Used;
    ClusterSize();
    L1Leads(data, l2map, l1, lo, hi, gc / L2_ENTRIES);
    if gc / L2_ENTRIES in L1Used(l2map) {
      L2Leads(data, l2map, Masked(Entry(data, hi * CLUSTER, gc / L2_ENTRIES)), lo, size, gc);
    } else {
      UsedSlot(l2map, gc);
    }
  }

  lemma UsedSlot(l2map: map<nat, nat>, gc: nat)
    ensures gc in l2map ==> gc / L2_ENTRIES in L1Used(l2map)
  {
  }

  lemma ClusterSize()
    ensures Pow2(16) == CLUSTER
  {
    assert Pow2(4) == 16;
    assert Pow2(8) == 256;
    assert Pow2(12) == 4096;
  }

  lemma ZeroEntry()
    ensures Masked(0) == 0 && !Compressed(0)
  {
  }

  /** Every used entry of both levels is a cluster's offset and the flag that it has one owner. */
  lemma TablesAreTidy(data: seq<byte>, l2map: map<nat, nat>, size: nat, l1: seq<nat>, h: Header, lo: nat, hi: nat)
    requires h.l1Size == |l1| && h.l1TableOffset == hi * CLUSTER
    requires MapOk(l2map, lo, size) && 1 <= lo <= hi && hi * CLUSTER <= TWO56
    requires L1Ok(data, l2map, l1, L1Used(l2map), lo, hi) && TableAt(data, hi * CLUSTER, l1)
    ensures TidyTables(data, h)
  {
    hide Entry, Masked, L1Used, L2Table, TableAt, MapOk, Tidy;
    forall idx: nat | idx < |l1|
      ensures TidySlot(data, Entry(data, hi * CLUSTER, idx))
    {
      EntryIs(data, hi * CLUSTER, l1, idx);
      L1Leads(data, l2map, l1, lo, hi, idx);
      if idx in L1Used(l2map) {
        assert SlotOk(data, l2map, l1[idx], idx, lo, hi);
        var off := l1[idx] - FLAG_COPIED;
        TidyEntry(off);
        TableIsTidy(data, l2map, off, idx, lo, size);
      } else {
        TidyNothing();
      }
    }
  }

  lemma TidyNothing()
    ensures Tidy(0)
  {
  }

  lemma TidyEntry(off: nat)
    requires 0 < off < TWO56 && off % CLUSTER == 0
    ensures off + FLAG_COPIED < TWO64 && Tidy(off + FLAG_COPIED) && Masked(off + FLAG_COPIED) == off
  {
    ClusterAligned(off);
    FlaggedEntry(off);
  }

  lemma TableIsTidy(data: seq<byte>, l2map: map<nat, nat>, off: nat, idx: nat, lo: nat, size: nat)
    requires TableAt(data, off, L2Table(l2map, idx)) && MapOk(l2map, lo, size) && lo * CLUSTER <= TWO56
    ensures forall j: nat :: j < L2_ENTRIES ==> Tidy(Entry(data, off, j))
  {
    hide Entry, Masked, Tidy;
    forall j: nat | j < L2_ENTRIES
      ensures Tidy(Entry(data, off, j))
    {
      var gc := idx * L2_ENTRIES + j;
      EntryIs(data, off, L2Table(l2map, idx), j);
      assert L2Table(l2map, idx)[j] == L2Entry(l2map, gc);
      if gc in l2map {
        ClustersBelow(l2map[gc], lo);
        TidyEntry(l2map[gc] * CLUSTER);
      } else {
        TidyNothing();
      }
    }
  }

  lemma TablesShowDisk(data: seq<byte>, disk: seq<byte>, l2map: map<nat, nat>, l1: seq<nat>, h: Header, lo: nat,
          hi: nat)
    requires h.clusterBits == 16 && h.l1Size == |l1| && h.l1TableOffset == hi * CLUSTER
    requires |l1| == CeilDiv(|disk|, CLUSTER * L2_ENTRIES)
    requires MapOk(l2map, lo, |disk|) && 1 <= lo <= hi && hi * CLUSTER <= TWO56
    requires L1Ok(data, l2map, l1, L1Used(l2map), lo, hi) && TableAt(data, hi * CLUSTER, l1)
    requires Shows(l2map, data, disk)
    ensures forall i: nat :: i < Padded(|disk|) ==> GuestByte(data, h, i) == Some(ByteAt(disk, i))
  {
    hide HostOffset, L1Ok, TableAt, MapOk;
    ClusterSize();
    forall i: nat | i < Padded(|disk|)
      ensures GuestByte(data, h, i) == Some(ByteAt(disk, i))
    {
      SlotExists(i, |disk|);
      TablesLead(data, l2map, |disk|, l1, h, lo, hi, i / CLUSTER);
      HostIsNotHeader(l2map, lo, |disk|);
      assert View(l2map, data, i) == ByteAt(disk, i);
    }
  }

  lemma SlotExists(i: nat, size: nat)
    requires i < Padded(size)
    ensures i / CLUSTER / L2_ENTRIES < CeilDiv(size, CLUSTER * L2_ENTRIES)
  {
    hide CeilDiv;
    var per := CLUSTER * L2_ENTRIES;
    if size == 0 {
      CeilDivBound(size, CLUSTER, 0);
    }
    CeilDivCovers(size, CLUSTER);
    CeilDivCovers(size, per);
    var q, s := i / CLUSTER, i / CLUSTER / L2_ENTRIES;
    assert q * CLUSTER <= i && s * L2_ENTRIES <= q;
    assert q < CeilDiv(size, CLUSTER);
    assert s * per <= q * CLUSTER < size;
    assert s * per < CeilDiv(size, per) * per;
  }

  lemma HostIsNotHeader(l2map: map<nat, nat>, nextHost: nat, size: nat)
    requires MapOk(l2map, nextHost, size)
    ensures forall gc :: gc in l2map ==> l2map[gc] >= 1
  {
  }

  /** Data clusters that a later stage left alone still show the disk. */
  lemma ShowsKept(l2map: map<nat, nat>, d: seq<byte>, e: seq<byte>, disk: seq<byte>, nextHost: nat, size: nat)
    requires MapOk(l2map, nextHost, size) && Shows(l2map, d, disk) && Agree(d, e, CLUSTER, nextHost * CLUSTER)
    ensures Shows(l2map, e, disk)
  {
    forall i: nat
      ensures View(l2map, e, i) == ByteAt(disk, i)
    {
      assert View(l2map, d, i) == ByteAt(disk, i);
      if i / CLUSTER in l2map {
        var at := l2map[i / CLUSTER] * CLUSTER + i % CLUSTER;
        assert ByteAt(d, at) == ByteAt(e, at);
      }
    }
  }

  lemma CountsKept(d: seq<byte>, e: seq<byte>, used: nat, rb: nat, rt: nat)
    requires Suffices(used, rb, rt) && CountsAt(d, used, rb, rt)
    requires Agree(d, e, used * CLUSTER, (used + rt + rb) * CLUSTER)
    ensures CountsAt(e, used, rb, rt) && CountedOnce(e, used * CLUSTER, used + rt + rb)
  {
    forall c: nat | c < used + rt + rb
      ensures CountAt(e, used, rt, c) && RefcountOf(e, used * CLUSTER, c) == 1
    {
      assert CountAt(d, used, rt, c);
      AgreeSlice(d, e, used * CLUSTER, (used + rt + rb) * CLUSTER, used * CLUSTER + 8 * (c / REFCOUNTS_PER_CLUSTER), 8);
      AgreeSlice(d, e, used * CLUSTER, (used + rt + rb) * CLUSTER, (used + rt) * CLUSTER + 2 * c, 2);
    }
  }

  /** A zeroed buffer with a 16-bit 1 put at the place of each of the first total clusters. */
  method RefcountBuffer(total: nat, size: nat) returns (b: seq<byte>)
    requires 2 * total <= size
    ensures b == RefcountBytes(total, size)
  {
    var blocks := new byte[size](_ => 0);
    for c := 0 to total
      invariant blocks[..] == RefcountBytes(c, size)
    {
      ghost var was := blocks[..];
      blocks[2 * c], blocks[2 * c + 1] := 0, 1;
      assert blocks[..] == was[2 * c := 0][2 * c + 1 := 1];
      NextCount(c, size);
    }
    return blocks[..];
  }

  /** The L1 table at cluster hi leads to L2 tables in the clusters [lo, hi). */
  ghost predicate Mapped(data: seq<byte>, l2map: map<nat, nat>, l1: seq<nat>, lo: nat, hi: nat) {
    L1Ok(data, l2map, l1, L1Used(l2map), lo, hi) && TableAt(data, hi * CLUSTER, l1)
  }

  lemma MappingKept(d: seq<byte>, e: seq<byte>, l2map: map<nat, nat>, l1: seq<nat>, lo: nat, hi: nat, used: nat)
    requires Mapped(d, l2map, l1, lo, hi) && 1 <= lo <= hi && used == hi + CeilDiv(|l1| * 8, CLUSTER)
    requires Agree(d, e, CLUSTER, used * CLUSTER)
    ensures Mapped(e, l2map, l1, lo, hi)
  {
    hide L1Ok, L1Used, TableAt, CeilDiv;
    CeilDivCovers(|l1| * 8, CLUSTER);
    SlotKept(d, e, l2map, l1, L1Used(l2map), lo, hi, hi);
    TableElsewhere(d, e, CLUSTER, used * CLUSTER, hi * CLUSTER, l1);
  }

  lemma L1Written(d: seq<byte>, l2map: map<nat, nat>, l1: seq<nat>, lo: nat, hi: nat)
    requires L1Ok(d, l2map, l1, L1Used(l2map), lo, hi) && lo <= hi
    ensures Mapped(Spliced(d, TableBytes(l1), hi * CLUSTER), l2map, l1, lo, hi)
    ensures Agree(d, Spliced(d, TableBytes(l1), hi * CLUSTER), 0, hi * CLUSTER)
  {
    hide L1Ok, TableBytes, L1Used;
    var e := Spliced(d, TableBytes(l1), hi * CLUSTER);
    SlotKept(d, e, l2map, l1, L1Used(l2map), lo, hi, hi);
    TableReadsBack(d, l1, hi * CLUSTER);
  }

  lemma L1Fits(l2map: map<nat, nat>, nextHost: nat, size: nat)
    requires MapOk(l2map, nextHost, size)
    ensures forall idx :: idx in L1Used(l2map) ==> idx < CeilDiv(size, CLUSTER * L2_ENTRIES)
  {
  }

  lemma MapOkLater(l2map: map<nat, nat>, nextHost: nat, later: nat, size: nat)
    requires MapOk(l2map, nextHost, size) && nextHost <= later
    ensures MapOk(l2map, later, size)
  {
  }

  /** The header and the truncation leave every cluster but the first alone. */
  lemma LastWrites(d: seq<byte>, h: Header, clusters: nat)
    requires clusters >= 1
    ensures var data := Slice(Spliced(d, h.Marshal(), 0), 0, clusters * CLUSTER);
      && |data| == clusters * CLUSTER && ZeroFrom(data, clusters * CLUSTER)
      && Agree(d, data, CLUSTER, clusters * CLUSTER)
      && Slice(data, 0, HEADER_LEN) == Slice(h.Marshal(), 0, HEADER_LEN)
  {
    MarshalSize(h);
    var w := Spliced(d, h.Marshal(), 0);
    var data := Slice(w, 0, clusters * CLUSTER);
    SliceWithin(d, h.Marshal(), 0, 0, HEADER_LEN);
    forall i: nat | i < clusters * CLUSTER
      ensures ByteAt(data, i) == ByteAt(w, i)
    {
      assert data[i] == ByteAt(w, 0 + i);
    }
    AgreeSlice(data, w, 0, clusters * CLUSTER, 0, HEADER_LEN);
  }

  /** What Finalize has written when only the header is missing: the L1 table l1 at cluster hi, and rt table clusters
      and rb blocks of refcounts from cluster used on; data2 is the file before the refcounts. */
  datatype Stages = Stages(data2: seq<byte>, l1: seq<nat>, hi: nat, used: nat, rb: nat, rt: nat)
  {
    ghost predicate Right(data0: seq<byte>, data3: seq<byte>, disk: seq<byte>, l2map: map<nat, nat>, lo: nat,
                          clusters: nat, h: Header)
    {
      && |l1| == CeilDiv(|disk|, CLUSTER * L2_ENTRIES) && clusters == used + rt + rb
      && h == Header(3, 16, |disk|, |l1|, hi * CLUSTER, used * CLUSTER, rt, 4)
      && lo <= hi && used == hi + CeilDiv(|l1| * 8, CLUSTER)
      && Agree(data0, data2, 0, lo * CLUSTER) && Mapped(data2, l2map, l1, lo, hi)
      && Covers(used, rb, rt) && Suffices(used, rb, rt) && data3 == WithRefcounts(data2, used, rb, rt)
      && Agree(data2, data3, 0, used * CLUSTER)
    }

    /** The stages put together: each leaves what the earlier ones wrote alone. */
    lemma Assembled(data0: seq<byte>, data3: seq<byte>, data: seq<byte>, disk: seq<byte>, l2map: map<nat, nat>, lo: nat,
                    clusters: nat, h: Header)
      requires Right(data0, data3, disk, l2map, lo, clusters, h)
      requires 1 <= lo && MapOk(l2map, lo, |disk|) && Shows(l2map, data0, disk)
      requires |data| == clusters * CLUSTER && Agree(data3, data, CLUSTER, clusters * CLUSTER)
      requires Slice(data, 0, HEADER_LEN) == Slice(h.Marshal(), 0, HEADER_LEN)
      ensures Shows(l2map, data, disk)
      ensures FitsFormat(|disk|, |l1|, clusters) ==> ImageOf(data, disk, clusters)
    {
      hide Shows, MapOk, L1Ok, Spliced, Slice, WithRefcounts, TableAt, CountsAt, CountedOnce, GuestByte, Covers, L1Used, TidyTables,
        Fitting, CeilDiv, Padded;
      AgreeDown(data2, data3, data, 0, used * CLUSTER, CLUSTER, clusters * CLUSTER);
      AgreeDown(data0, data2, data, 0, lo * CLUSTER, CLUSTER, used * CLUSTER);
      ShowsKept(l2map, data0, data, disk, lo, |disk|);
      if FitsFormat(|disk|, |l1|, clusters) {
        MappingKept(data2, data, l2map, l1, lo, hi, used);
        TablesShowDisk(data, disk, l2map, l1, h, lo, hi);
        TablesAreTidy(data, l2map, |disk|, l1, h, lo, hi);
        assert CountedOnce(data, used * CLUSTER, clusters) by {
          RefcountsWritten(data2, used, rb, rt);
          CountsKept(data3, data, used, rb, rt);
        }
        assert rt < TWO32 && Fitting(h, clusters) by {
          TableIsSmall(used, rb, rt);
          TablesFit(h, used, rb, rt);
        }
        HeaderRoundTrip(h);
      }
    }
  }

  lemma TableIsSmall(used: nat, rb: nat, rt: nat)
    requires Covers(used, rb, rt) && (used + rt + rb) * CLUSTER <= TWO56
    ensures rt < TWO32
  {
  }

  lemma AgreeDown(a: seq<byte>, b: seq<byte>, c: seq<byte>, lo: nat, hi: nat, lo': nat, hi': nat)
    requires Agree(a, b, lo, hi) && Agree(b, c, lo', hi') && lo <= lo' && hi <= hi'
    ensures Agree(a, c, lo', hi)
  {
    forall i: nat | lo' <= i < hi
      ensures ByteAt(a, i) == ByteAt(c, i)
    {
      assert ByteAt(a, i) == ByteAt(b, i);
    }
  }

  lemma NextCount(c: nat, size: nat)
    requires 2 * c + 2 <= size
    ensures RefcountBytes(c, size)[2 * c := 0][2 * c + 1 := 1] == RefcountBytes(c + 1, size)
  {
  }

  /** A zeroed buffer with the entries put at its start, big-endian. */
  method TableBuffer(entries: seq<nat>, size: nat) returns (b: seq<byte>)
    requires 8 * |entries| <= size
    ensures b == TableBytes(entries) + Zeros(size - 8 * |entries|)
  {
    hide Spliced, TableBytes, Zeros;
    b := Zeros(size);
    EmptyTable(entries, size);
    for i := 0 to |entries|
      invariant b == TableBytes(entries[..i]) + Zeros(size - 8 * i)
    {
      TableGrows(entries, i, size);
      b := Spliced(b, Encode(Big, entries[i], 8), 8 * i);
    }
    assert entries[..|entries|] == entries;
  }

  class Writer {
    const f: File
    const size: nat
    const l1Size: nat
    var l2map: map<nat, nat> // guest cluster -> host cluster
    var nextHost: nat        // next free host cluster, cluster 0 being the header
    var finalized: bool
    ghost var disk: seq<byte> // the flat device

    ghost predicate Valid()
      reads this, f
    {
      && |disk| == size && size > 0
      && l1Size == CeilDiv(size, CLUSTER * L2_ENTRIES)
      && nextHost >= 1
      && MapOk(l2map, nextHost, size)
      && Shows(l2map, f.data, disk)
      && ZeroFrom(f.data, nextHost * CLUSTER)
    }

    /** NewWriter over a host file that holds nothing past its first cluster. */
    constructor (f: File, virtualSize: nat)
      requires virtualSize > 0 && ZeroFrom(f.data, CLUSTER)
      ensures Valid() && this.f == f && size == virtualSize && !finalized
      ensures disk == Zeros(virtualSize) && l2map == map[] && nextHost == 1
    {
      this.f := f;
      size := virtualSize;
      l1Size := CeilDiv(virtualSize, CLUSTER * L2_ENTRIES);
      l2map := map[];
      nextHost := 1;
      finalized := false;
      disk := Zeros(virtualSize);
    }

    /** Store p at off; bytes is how many were written when ok. */
    method WriteAt(p: seq<byte>, off: int) returns (written: nat, status: Status)
      requires Valid()
      modifies this`l2map, this`nextHost, this`disk, f
      ensures Valid()
      ensures if off < 0 || off + |p| > size
              then status == Failed && written == 0 && disk == old(disk) && f.data == old(f.data)
                   && l2map == old(l2map) && nextHost == old(nextHost)
              else status == Done && written == |p| && disk == Spliced(old(disk), p, off)
                   && Grew(old(l2map), old(nextHost), l2map, nextHost, Inked(p, off))
    {
      hide Spliced, Shows, ZeroFrom, MapOk, View, Inked, Grew;
      if off < 0 || off + |p| > size {
        return 0, Failed;
      }
      written := 0;
      WroteNothing(disk, off);
      NothingInked(off);
      GrewNot(l2map, nextHost, {});
      var at: nat, rest := off, p;
      while |rest| > 0
        invariant Valid()
        invariant written + |rest| == |p| && at == off + written && rest == p[written..]
        invariant disk == Spliced(old(disk), p[..written], off)
        invariant Grew(old(l2map), old(nextHost), l2map, nextHost, Inked(p[..written], off))
      {
        var n: nat := CLUSTER - at % CLUSTER;
        if |rest| < n {
          n := |rest|;
        }
        assert rest[..n] == p[written..written + n] && rest[n..] == p[written + n..];
        ghost var before, host := l2map, nextHost;
        WriteChunk(rest[..n], at);
        OneMoreChunk(old(disk), p, written, n, off, old(l2map), old(nextHost), before, host, l2map, nextHost);
        written := written + n;
        at := at + n;
        rest := rest[n..];
      }
      assert p[..written] == p;
      return written, Done;
    }

    /** Write a table of 64-bit entries, big-endian, at off. */
    method WriteTable(entries: seq<nat>, off: nat)
      modifies f
      ensures f.data == Spliced(old(f.data), TableBytes(entries), off)
    {
      var b := TableBuffer(entries, 8 * |entries|);
      assert b == TableBytes(entries) + [] == TableBytes(entries);
      f.WriteAt(b, off);
    }

    /** One L2 table, filled from the guest clusters that fall under L1 slot idx. */
    method BuildL2(idx: nat) returns (t: seq<nat>)
      ensures t == L2Table(l2map, idx)
    {
      var l2 := new nat[L2_ENTRIES](_ => 0);
      var group: set<nat> := set gc: nat | gc in l2map && gc / L2_ENTRIES == idx;
      while |group| > 0
        invariant forall gc :: gc in group ==> gc in l2map && gc / L2_ENTRIES == idx
        invariant forall j: nat :: j < L2_ENTRIES ==>
          l2[j] == if idx * L2_ENTRIES + j in group then 0 else L2Entry(l2map, idx * L2_ENTRIES + j)
        decreases |group|
      {
        var gc: nat :| gc in group;
        l2[gc % L2_ENTRIES] := l2map[gc] * CLUSTER + FLAG_COPIED;
        group := group - {gc};
      }
      t := l2[..];
    }

    /** One L2 table per populated L1 slot, in slot order. */
    method WriteL2Tables(l1: array<nat>)
      requires l1.Length == l1Size && l1[..] == seq(l1Size, _ => 0)
      requires forall idx :: idx in L1Used(l2map) ==> idx < l1Size
      modifies this`nextHost, f, l1
      ensures nextHost == old(nextHost) + |L1Used(l2map)|
      ensures Agree(old(f.data), f.data, 0, old(nextHost) * CLUSTER)
      ensures L1Ok(f.data, l2map, l1[..], L1Used(l2map), old(nextHost), nextHost)
    {
      hide L1Ok, Agree, L2Table, TableBytes, Spliced;
      var idxs := SortedElements(L1Used(l2map));
      ghost var start, done: set<nat> := nextHost, {};
      NothingDone(f.data, l2map, l1[..], start);
      for k := 0 to |idxs|
        invariant nextHost == start + k
        invariant done == set i | 0 <= i < k :: idxs[i]
        invariant Agree(old(f.data), f.data, 0, start * CLUSTER)
        invariant L1Ok(f.data, l2map, l1[..], done, start, nextHost)
      {
        assert idxs[k] in idxs;
        var l2 := BuildL2(idxs[k]);
        SlotAdded(f.data, l2map, l1[..], done, start, nextHost, idxs[k]);
        ghost var before: seq<byte>, was: seq<nat> := f.data, l1[..];
        WriteTable(l2, nextHost * CLUSTER);
        AgreeDown(old(f.data), before, f.data, 0, start * CLUSTER, 0, nextHost * CLUSTER);
        var slot: nat := nextHost * CLUSTER + FLAG_COPIED;
        l1[idxs[k]] := slot;
        assert l1[..] == was[idxs[k] := slot];
        done := done + {idxs[k]};
        nextHost := nextHost + 1;
      }
      assert done == L1Used(l2map);
    }

    /** The refcount table and blocks, from cluster nextHost on. */
    method WriteRefcounts() returns (rtOff: nat, rt: nat, ghost rb: nat)
      requires nextHost > 0
      modifies this`nextHost, f
      ensures Covers(old(nextHost), rb, rt) && Suffices(old(nextHost), rb, rt)
      ensures IsSmallest(nextHost, old(nextHost))
      ensures rtOff == old(nextHost) * CLUSTER && nextHost == old(nextHost) + rt + rb
      ensures f.data == WithRefcounts(old(f.data), old(nextHost), rb, rt)
    {
      hide Spliced, TableBytes, Zeros, RefcountBytes, BlockPointers;
      var used, blocksWanted := nextHost, 0;
      blocksWanted, rt := SizeRefcounts(used);
      rb := blocksWanted;
      rtOff := used * CLUSTER;
      var rbOff := (used + rt) * CLUSTER;
      nextHost := used + rt + blocksWanted;
      var blocks := RefcountBuffer(nextHost, blocksWanted * CLUSTER);
      f.WriteAt(blocks, rbOff);
      var table := TableBuffer(BlockPointers(rbOff, blocksWanted), rt * CLUSTER);
      f.WriteAt(table, rtOff);
    }

    /** The L2 tables and then the L1 table that points at them. */
    method WriteMapping() returns (l1Off: nat, ghost l1: seq<nat>, ghost hi: nat)
      requires Valid()
      modifies this`nextHost, f
      ensures old(nextHost) <= hi && l1Off == hi * CLUSTER && nextHost == hi + CeilDiv(l1Size * 8, CLUSTER)
      ensures nextHost == old(BeforeRefcounts())
      ensures |l1| == l1Size && Mapped(f.data, l2map, l1, old(nextHost), hi)
      ensures Agree(old(f.data), f.data, 0, old(nextHost) * CLUSTER)
    {
      hide Shows, MapOk, ZeroFrom, L1Ok, L1Used, Agree, Spliced, TableBytes, Mapped;
      L1Fits(l2map, nextHost, size);
      ghost var lo := nextHost;
      var table := new nat[l1Size](_ => 0);
      WriteL2Tables(table);
      hi := nextHost;
      l1 := table[..];
      ghost var data1 := f.data;
      l1Off := nextHost * CLUSTER;
      nextHost := nextHost + CeilDiv(l1Size * 8, CLUSTER);
      WriteTable(table[..], l1Off);
      L1Written(data1, l2map, l1, lo, hi);
      AgreeDown(old(f.data), data1, f.data, 0, lo * CLUSTER, 0, hi * CLUSTER);
    }

    /** The last writes: the header over the first cluster, and the cut behind the last one. */
    method WriteHeader(h: Header)
      requires nextHost >= 1
      modifies f
      ensures |f.data| == nextHost * CLUSTER && ZeroFrom(f.data, nextHost * CLUSTER)
      ensures Agree(old(f.data), f.data, CLUSTER, nextHost * CLUSTER)
      ensures Slice(f.data, 0, HEADER_LEN) == Slice(h.Marshal(), 0, HEADER_LEN)
    {
      hide Agree, Spliced, Slice, ZeroFrom;
      LastWrites(f.data, h, nextHost);
      f.WriteAt(h.Marshal(), 0);
      f.Truncate(nextHost * CLUSTER);
    }

    /** The header, the data and the tables of both levels, in clusters. */
    ghost function BeforeRefcounts(): nat
      reads this`nextHost, this`l2map
    {
      nextHost + |L1Used(l2map)| + CeilDiv(l1Size * 8, CLUSTER)
    }

    /** The L2 tables, the L1 table and the refcounts, behind the data. */
    method WriteTables() returns (h: Header, ghost s: Stages)
      requires Valid()
      modifies this`nextHost, f
      ensures s.Right(old(f.data), f.data, disk, l2map, old(nextHost), nextHost, h) && old(nextHost) <= nextHost
      ensures IsSmallest(nextHost, old(BeforeRefcounts())) && |s.l1| == l1Size
    {
      hide Shows, MapOk, ZeroFrom, Mapped, Agree, Spliced, Slice, WithRefcounts, Covers, Suffices, IsSmallest, L1Used;
      ghost var l1, hi;
      var l1Off: nat;
      l1Off, l1, hi := WriteMapping();
      ghost var used, data2 := nextHost, f.data;
      var rtOff, rt, rb := WriteRefcounts();
      RefcountsWritten(data2, used, rb, rt);
      return Header(3, 16, size, l1Size, l1Off, rtOff, rt, 4), Stages(data2, l1, hi, used, rb, rt);
    }

    /** Write the L2 tables, L1 table, refcounts and header, and cut the file to size. The refcounts
        take no more clusters than they must. */
    method Finalize() returns (status: Status)
      requires Valid()
      modifies this`nextHost, this`finalized, f
      ensures Valid() && disk == old(disk) && finalized
      ensures old(finalized) ==> status == Failed && f.data == old(f.data)
      ensures !old(finalized) ==> status == Done
      ensures !old(finalized) && FitsFormat(size, l1Size, nextHost) ==> ImageOf(f.data, disk, nextHost)
      ensures !old(finalized) ==> IsSmallest(nextHost, old(BeforeRefcounts()))
    {
      hide Shows, MapOk, ZeroFrom, Agree, Slice, ImageOf, FitsFormat, IsSmallest, L1Used, Stages.Right, CeilDiv,
        Writer.BeforeRefcounts, Header.Marshal;
      if finalized {
        return Failed;
      }
      finalized := true;
      ghost var lo, data0 := nextHost, f.data;
      var h;
      ghost var s;
      h, s := WriteTables();
      ghost var data3 := f.data;
      WriteHeader(h);
      MapOkLater(l2map, lo, nextHost, size);
      s.Assembled(data0, data3, f.data, disk, l2map, lo, nextHost, h);
      return Done;
    }

    /** The part of a write that falls into one cluster. */
    method WriteChunk(chunk: seq<byte>, at: nat)
      requires Valid()
      requires at % CLUSTER + |chunk| <= CLUSTER && 0 < |chunk| && at + |chunk| <= size
      modifies this`l2map, this`nextHost, this`disk, f
      ensures Valid()
      ensures disk == Spliced(old(disk), chunk, at)
      ensures Grew(old(l2map), old(nextHost), l2map, nextHost, Inked(chunk, at))
    {
      hide Spliced, View, Slice, Inked, Grew;
      var gc := at / CLUSTER;
      InkedChunk(chunk, at);
      if gc !in l2map && !AllZero(chunk) {
        GrewOne(l2map, nextHost, gc);
      } else {
        GrewNot(l2map, nextHost, Inked(chunk, at));
      }
      disk := Spliced(disk, chunk, at);
      if gc !in l2map && AllZero(chunk) {
        ZeroChunk(l2map, f.data, old(disk), chunk, at);
        return;
      }
      var host: nat := if gc in l2map then l2map[gc] else nextHost;
      ChunkWritten(l2map, f.data, old(disk), host, chunk, at, nextHost, size);
      RestStaysZero(f.data, host, chunk, at % CLUSTER, nextHost);
      if gc !in l2map {
        nextHost := nextHost + 1;
        l2map := l2map[gc := host];
      }
      assert l2map == old(l2map)[gc := host];
      f.WriteAt(chunk, host * CLUSTER + at % CLUSTER);
    }

    /** The part of a read that falls into one cluster. */
    method FillChunk(p: array<byte>, n: nat, span: nat, at: nat)
      requires Valid() && at % CLUSTER + span <= CLUSTER
      requires n + span <= p.Length && p[n..] == Zeros(p.Length - n)
      modifies p
      ensures p[..n] == old(p[..n]) && p[n..n + span] == Slice(disk, at, span)
      ensures p[n + span..] == Zeros(p.Length - n - span)
    {
      hide Shows, View, MapOk, ZeroFrom, Slice, Zeros;
      var gc := at / CLUSTER;
      ClusterBytes(l2map, f.data, disk, at, span);
      ZerosSplit(p[..], p[..n], span, p.Length - n - span);
      if gc in l2map {
        f.ReadAt(p, n, span, l2map[gc] * CLUSTER + at % CLUSTER);
      }
    }

    /** Fill p from off. A read that starts inside the disk may run on to the end of its last
        cluster, where it finds zeros, before it is told about the end. */
    method ReadAt(p: array<byte>, off: int) returns (n: nat, status: Status)
      requires Valid()
      modifies p
      ensures off < 0 ==> status == Failed && n == 0 && p[..] == old(p[..])
      ensures off >= size ==> status == EndOfFile && n == 0 && p[..] == old(p[..])
      ensures 0 <= off < size ==> p[..] == Slice(disk, off, p.Length)
      ensures 0 <= off < size ==>
        if off + p.Length <= Padded(size) then status == Done && n == p.Length
        else status == EndOfFile && n == Padded(size) - off
    {
      hide Shows, View, MapOk, ZeroFrom, Slice, Zeros, Padded;
      if off < 0 {
        return 0, Failed;
      }
      if off >= size {
        return 0, EndOfFile;
      }
      Clear(p);
      n := 0;
      SpanFits(off, size, 0);
      while n < p.Length
        invariant n <= p.Length && off + n <= Padded(size)
        invariant n < p.Length && n > 0 ==> (off + n) % CLUSTER == 0
        invariant p[..n] == Slice(disk, off, n) && p[n..] == Zeros(p.Length - n)
      {
        var at: nat := off + n;
        if at >= size {
          EndIsPadded(at, size);
          SlicePastEnd(disk, at, p.Length - n);
          Joined(p[..], disk, off, n, p.Length - n);
          return n, EndOfFile;
        }
        var span: nat := CLUSTER - at % CLUSTER;
        if span > p.Length - n {
          span := p.Length - n;
        }
        SpanFits(at, size, span);
        FillChunk(p, n, span, at);
        Joined(p[..], disk, off, n, span);
        n := n + span;
      }
      assert p[..p.Length] == p[..];
      return n, Done;
    }
  }

  lemma Joined(p: seq<byte>, disk: seq<byte>, off: nat, n: nat, m: nat)
    requires n + m <= |p| && p[..n] == Slice(disk, off, n) && p[n..n + m] == Slice(disk, off + n, m)
    ensures p[..n + m] == Slice(disk, off, n + m)
    ensures n + m == |p| ==> p == Slice(disk, off, n + m)
  {
    SliceConcat(disk, off, n, m);
    assert p[..n + m] == p[..n] + p[n..n + m];
  }

  lemma SpanFits(at: nat, size: nat, span: nat)
    requires at < size && at % CLUSTER + span <= CLUSTER
    ensures at + span <= Padded(size)
    ensures at % CLUSTER + span == CLUSTER ==> (at + span) % CLUSTER == 0
  {
  }

  lemma EndIsPadded(at: nat, size: nat)
    requires size <= at <= Padded(size) && at % CLUSTER == 0
    ensures at == Padded(size)
  {
  }

  method Clear(p: array<byte>)
    modifies p
    ensures p[..] == Zeros(p.Length)
  {
    for i := 0 to p.Length
      invariant p[..i] == Zeros(i)
    {
      p[i] := 0;
    }
  }

  lemma ZerosSplit(s: seq<byte>, head: seq<byte>, n: nat, m: nat)
    requires s == head + Zeros(n + m)
    ensures s == head + Zeros(n) + Zeros(m)
    ensures s[..|head|] == head && s[|head|..|head| + n] == Zeros(n) && s[|head| + n..] == Zeros(m)
  {
  }

  lemma ZeroChunk(l2map: map<nat, nat>, data: seq<byte>, disk: seq<byte>, chunk: seq<byte>, at: nat)
    requires Shows(l2map, data, disk) && at / CLUSTER !in l2map && AllZero(chunk)
    requires at % CLUSTER + |chunk| <= CLUSTER
    ensures Shows(l2map, data, Spliced(disk, chunk, at))
  {
    forall i: nat
      ensures View(l2map, data, i) == ByteAt(Spliced(disk, chunk, at), i)
    {
      assert View(l2map, data, i) == ByteAt(disk, i);
      assert at <= i < at + |chunk| ==> i / CLUSTER == at / CLUSTER;
    }
  }
}
