/** pkg/qcow2/reader.go: any uncompressed image presented as a read-only device. */
module Qcow2Reader {
  import opened Sizes
  import opened Options
  import opened Bytes
  import opened Files
  import opened Qcow2Format
  import W = Qcow2Writer

  /** s is what the guest sees from off on. */
  ghost predicate ReadsAs(data: seq<byte>, h: Header, off: nat, s: seq<byte>) {
    forall k: nat :: k < |s| ==> GuestAt(data, h, off, k) == Some(s[k])
  }

  ghost function GuestAt(data: seq<byte>, h: Header, off: nat, k: nat): Option<byte> {
    GuestByte(data, h, off + k)
  }

  function AsInt64(v: nat): int {
    if v < TWO63 then v else v - TWO64
  }

  /** The L2 table at off, as the reader caches it. */
  function TableOf(data: seq<byte>, off: nat, n: nat): (t: seq<nat>)
    ensures |t| == n
  {
    seq<nat>(n, j requires 0 <= j => Entry(data, off, j))
  }

  lemma {:induction false} ClusterBounds(bits: nat)
    requires 9 <= bits <= 21
    ensures Pow2(bits) >= 512 && Pow2(bits) % 8 == 0
    decreases bits
  {
    if bits > 9 {
      ClusterBounds(bits - 1);
      assert Pow2(bits) == 2 * Pow2(bits - 1);
    } else {
      assert Pow2(2) == 4;
      assert Pow2(4) == 16;
      assert Pow2(6) == 64;
      assert Pow2(8) == 256;
      assert Pow2(9) == 512;
    }
  }

  lemma SameCluster(at: nat, k: nat, cs: nat)
    requires cs > 0 && Remainder(at, cs) + k < cs
    ensures Quotient(at + k, cs) == Quotient(at, cs) && Remainder(at + k, cs) == Remainder(at, cs) + k
  {
    var q, r := at / cs, at % cs;
    assert at + k == q * cs + (r + k);
    DivUnique(at + k, cs, q, r + k);
  }

  lemma NextCluster(at: nat, span: nat, cs: nat)
    requires cs > 0 && Remainder(at, cs) + span == cs
    ensures Remainder(at + span, cs) == 0
  {
    var q, r := at / cs, at % cs;
    assert at + span == q * cs + r + span == (q + 1) * cs;
    DivUnique(at + span, cs, q + 1, 0);
  }

  /** The end of the last cluster that holds part of the disk: a read goes on to it. */
  function ReadEnd(size: nat, cs: nat): (r: nat)
    requires cs > 0
    ensures size <= r < size + cs
    ensures r == size <==> Remainder(size, cs) == 0
  {
    if Remainder(size, cs) == 0 then size else size - Remainder(size, cs) + cs
  }

  lemma EndIsMultiple(size: nat, cs: nat)
    requires cs > 0
    ensures ReadEnd(size, cs) == ReadEnd(size, cs) / cs * cs
  {
    var q, r := size / cs, size % cs;
    assert size == q * cs + r;
    DivUnique(ReadEnd(size, cs), cs, if r == 0 then q else q + 1, 0);
  }

  /** A chunk that starts inside the disk ends there at most. */
  lemma ChunkInside(at: nat, size: nat, span: nat, cs: nat)
    requires cs > 0 && at < size && Remainder(at, cs) + span <= cs
    ensures at + span <= ReadEnd(size, cs)
  {
    var full := ReadEnd(size, cs) / cs;
    EndIsMultiple(size, cs);
    assert at == Quotient(at, cs) * cs + Remainder(at, cs);
    if Quotient(at, cs) >= full {
      MulMono(full, Quotient(at, cs), cs);
    } else {
      MulMono(Quotient(at, cs) + 1, full, cs);
    }
  }

  /** The only end of a cluster at or behind the end of the disk that a read comes to. */
  lemma EndOfChunks(at: nat, size: nat, cs: nat)
    requires cs > 0 && size <= at <= ReadEnd(size, cs) && Remainder(at, cs) == 0
    ensures at == ReadEnd(size, cs)
  {
    if at < ReadEnd(size, cs) {
      var k := at - size;
      if Remainder(size, cs) + k < cs {
        SameCluster(size, k, cs);
      }
    }
  }

  /** The guest bytes inside one cluster. */
  lemma ClusterReads(data: seq<byte>, h: Header, at: nat, n: nat, cs: nat, host: nat)
    requires cs == Pow2(h.clusterBits) && Remainder(at, cs) + n <= cs
    requires HostOffset(data, h, Quotient(at, cs)) == Some(host)
    ensures ReadsAs(data, h, at, if host == 0 then Zeros(n) else Slice(data, host + Remainder(at, cs), n))
  {
    hide HostOffset, Quotient, Remainder;
    forall k: nat | k < n
      ensures GuestAt(data, h, at, k) == Some(if host == 0 then 0 else ByteAt(data, host + Remainder(at, cs) + k))
    {
      SameCluster(at, k, cs);
    }
  }

  /** A cluster that is not supported stops every read inside it. */
  lemma ClusterFails(data: seq<byte>, h: Header, at: nat, cs: nat)
    requires cs == Pow2(h.clusterBits)
    requires HostOffset(data, h, Quotient(at, cs)) == None
    ensures GuestByte(data, h, at) == None
  {
    hide HostOffset, Quotient, Remainder;
  }

  class Reader {
    const f: File
    const h: Header
    const size: int
    const clusterSize: nat
    const l2Entries: nat
    const l1: seq<nat>
    var l2cache: map<nat, seq<nat>> // L1 index -> decoded L2 table

    ghost predicate Valid()
      reads this, f
    {
      && 9 <= h.clusterBits <= 21
      && size == AsInt64(h.size)
      && clusterSize == Pow2(h.clusterBits) && l2Entries == clusterSize / 8
      && l1 == TableOf(f.data, h.l1TableOffset, h.l1Size)
      && (forall k :: k in l2cache ==> k < |l1| && l2cache[k] == TableOf(f.data, Masked(l1[k]), l2Entries))
    }

    constructor (f: File, h: Header, l1: seq<nat>)
      requires 9 <= h.clusterBits <= 21 && l1 == TableOf(f.data, h.l1TableOffset, h.l1Size)
      ensures Valid() && this.f == f && this.h == h
    {
      this.f := f;
      this.h := h;
      size := AsInt64(h.size);
      clusterSize := Pow2(h.clusterBits);
      l2Entries := Pow2(h.clusterBits) / 8;
      this.l1 := l1;
      l2cache := map[];
    }

    /** The decoded L2 table behind an L1 slot, read from the file the first time. */
    method L2Table(l1idx: nat, off: nat) returns (t: seq<nat>)
      requires Valid() && l1idx < |l1| && off == Masked(l1[l1idx])
      modifies this`l2cache
      ensures Valid()
      ensures t == TableOf(f.data, off, l2Entries)
    {
      if l1idx in l2cache {
        return l2cache[l1idx];
      }
      t := DecodeTable(f, off, l2Entries);
      l2cache := l2cache[l1idx := t];
    }

    /** The host offset behind a guest cluster, -1 when it reads as zeros. */
    method FindHost(gc: nat) returns (host: Option<int>)
      requires Valid()
      modifies this`l2cache
      ensures Valid()
      ensures match HostOffset(f.data, h, gc)
        case None => host == None
        case Some(at) => host == Some(if at == 0 then -1 else at)
    {
      hide Entry, Masked, Compressed, Quotient, Remainder;
      ClusterBounds(h.clusterBits);
      var l1idx := Quotient(gc, l2Entries);
      if l1idx >= |l1| {
        return Some(-1);
      }
      assert l1[l1idx] == Entry(f.data, h.l1TableOffset, l1idx);
      var off := Masked(l1[l1idx]);
      if off == 0 {
        return Some(-1);
      }
      var l2 := L2Table(l1idx, off);
      var e := l2[Remainder(gc, l2Entries)];
      assert e == Entry(f.data, off, Remainder(gc, l2Entries));
      if Compressed(e) {
        return None;
      }
      if ReadsZero(e) {
        return Some(-1);
      }
      return Some(Masked(e));
    }

    /** Fill p from off, until it is full, the last cluster of the disk ends or a cluster is not
        supported. So a read stays inside the disk exactly when it ends there or the disk fills its
        last cluster. */
    method ReadAt(p: array<byte>, off: int) returns (n: nat, status: W.Status)
      requires Valid()
      modifies this`l2cache, p
      ensures Valid()
      ensures off < 0 ==> status == W.Failed && n == 0 && p[..] == old(p[..])
      ensures off >= 0 && off >= size ==> status == W.EndOfFile && n == 0 && p[..] == old(p[..])
      ensures 0 <= off < size ==> n <= p.Length && ReadsAs(f.data, h, off, p[..n]) && p[n..] == Zeros(p.Length - n)
      ensures 0 <= off < size ==>
        match status
        case Done => n == p.Length && off + n <= ReadEnd(size, clusterSize)
        case EndOfFile => n < p.Length && off + n == ReadEnd(size, clusterSize)
        case Failed => n < p.Length && off + n < size && GuestByte(f.data, h, off + n) == None
      ensures 0 <= off < size && status != W.Failed ==>
        (off + n <= size <==> off + p.Length <= size || Remainder(size, clusterSize) == 0)
    {
      hide HostOffset, GuestByte, ReadsAs, Zeros, Slice, Quotient, Remainder, ReadEnd;
      if off < 0 {
        return 0, W.Failed;
      }
      if off >= size {
        return 0, W.EndOfFile;
      }
      W.Clear(p);
      ClusterBounds(h.clusterBits);
      NothingRead(f.data, h, off);
      n := 0;
      while n < p.Length
        invariant Valid()
        invariant n <= p.Length && off + n <= ReadEnd(size, clusterSize)
        invariant n < p.Length && n > 0 ==> Remainder(off + n, clusterSize) == 0
        invariant ReadsAs(f.data, h, off, p[..n]) && p[n..] == Zeros(p.Length - n)
      {
        var at: nat := off + n;
        if at >= size {
          EndOfChunks(at, size, clusterSize);
          return n, W.EndOfFile;
        }
        var span: nat := clusterSize - Remainder(at, clusterSize);
        if span > p.Length - n {
          span := p.Length - n;
        } else {
          NextCluster(at, span, clusterSize);
        }
        ChunkInside(at, size, span, clusterSize);
        var ok := FillChunk(p, n, span, at);
        if !ok {
          return n, W.Failed;
        }
        MoreRead(f.data, h, off, p[..], n, span);
        n := n + span;
      }
      return n, W.Done;
    }

    /** The part of a read that falls into one cluster. */
    method FillChunk(p: array<byte>, n: nat, span: nat, at: nat) returns (ok: bool)
      requires Valid() && Remainder(at, clusterSize) + span <= clusterSize && 0 < span
      requires n + span <= p.Length && p[n..] == Zeros(p.Length - n)
      modifies this`l2cache, p
      ensures Valid() && p[..n] == old(p[..n])
      ensures ok ==> ReadsAs(f.data, h, at, p[n..n + span]) && p[n + span..] == Zeros(p.Length - n - span)
      ensures !ok ==> p[..] == old(p[..]) && GuestByte(f.data, h, at) == None
    {
      hide HostOffset, ReadsAs, Slice, Quotient;
      var host := FindHost(Quotient(at, clusterSize));
      if host.None? {
        ClusterFails(f.data, h, at, clusterSize);
        return false;
      }
      ClusterReads(f.data, h, at, span, clusterSize, if host.value < 0 then 0 else host.value);
      W.ZerosSplit(p[..], p[..n], span, p.Length - n - span);
      if host.value >= 0 {
        f.ReadAt(p, n, span, host.value + Remainder(at, clusterSize));
      }
      return true;
    }
  }

  lemma NothingRead(data: seq<byte>, h: Header, off: nat)
    ensures ReadsAs(data, h, off, [])
  {
  }

  lemma MoreRead(data: seq<byte>, h: Header, off: nat, p: seq<byte>, n: nat, span: nat)
    requires n + span <= |p| && ReadsAs(data, h, off, p[..n]) && ReadsAs(data, h, off + n, p[n..n + span])
    ensures ReadsAs(data, h, off, p[..n + span])
  {
    hide GuestByte;
    forall k: nat | k < n + span
      ensures GuestAt(data, h, off, k) == Some(p[k])
    {
      if k < n {
        assert p[..n][k] == p[k];
      } else {
        assert p[n..n + span][k - n] == p[k];
        assert GuestAt(data, h, off + n, k - n) == GuestAt(data, h, off, k);
      }
    }
  }

  /** A table of n big-endian 64-bit entries, read in one piece and decoded. */
  method DecodeTable(f: File, off: nat, n: nat) returns (t: seq<nat>)
    ensures t == TableOf(f.data, off, n)
  {
    var raw := f.Read(off, 8 * n);
    t := [];
    for i := 0 to n
      invariant t == TableOf(f.data, off, i)
    {
      GetOfSlice(Big, f.data, off, 8 * n, 8 * i, 8);
      t := t + [Get(Big, raw, 8 * i, 8)];
    }
  }

  /** Open: a reader for every file with a supported header. */
  method Open(f: File) returns (r: Option<Reader>)
    ensures r.Some? <==> ParseHeader(Slice(f.data, 0, HEADER_LEN)).Some? &&
                         ParseHeader(Slice(f.data, 0, HEADER_LEN)).value.l1TableOffset < TWO63
    ensures r.Some? ==> fresh(r.value) && r.value.Valid() && r.value.f == f
    ensures r.Some? ==> ParseHeader(Slice(f.data, 0, HEADER_LEN)) == Some(r.value.h)
  {
    var head := f.Read(0, HEADER_LEN);
    var parsed := ParseHeader(head);
    if parsed.None? || parsed.value.l1TableOffset >= TWO63 {
      return None;
    }
    var l1 := DecodeTable(f, parsed.value.l1TableOffset, parsed.value.l1Size);
    var reader := new Reader(f, parsed.value, l1);
    return Some(reader);
  }

  /** Finalize and Open are inverse: a reader over the finished file answers as the unfinished
      writer does, whatever is read (compare W.Writer.ReadAt). */
  method FinalizeThenRead(w: W.Writer, p: array<byte>, off: int) returns (n: nat, status: W.Status)
    requires w.Valid() && !w.finalized
    modifies w`nextHost, w`finalized, w.f, p
    ensures W.IsSmallest(w.nextHost, old(w.BeforeRefcounts()))
    ensures W.FitsFormat(w.size, w.l1Size, w.nextHost) ==>
      && (off < 0 ==> status == W.Failed && n == 0 && p[..] == old(p[..]))
      && (off >= w.size ==> status == W.EndOfFile && n == 0 && p[..] == old(p[..]))
      && (0 <= off < w.size ==>
            && p[..] == Slice(old(w.disk), off, p.Length)
            && if off + p.Length <= W.Padded(w.size) then status == W.Done && n == p.Length
               else status == W.EndOfFile && n == W.Padded(w.size) - off)
  {
    hide HostOffset, ParseHeader, W.FitsFormat, W.Padded, ReadEnd, W.IsSmallest, Remainder, Pow2;
    var s := w.Finalize();
    var r := Open(w.f);
    if r.None? {
      return 0, W.Failed;
    }
    n, status := r.value.ReadAt(p, off);
    if W.FitsFormat(w.size, w.l1Size, w.nextHost) && 0 <= off < w.size {
      W.ClusterSize();
      PaddedIsEnd(w.size);
      ReadIsDisk(w.f.data, r.value.h, w.disk, off, p[..], n, status);
    }
  }

  lemma PaddedIsEnd(size: nat)
    ensures ReadEnd(size, CLUSTER) == W.Padded(size)
  {
  }

  /** A read of an image of disk returns the bytes of disk and zeros behind it. */
  lemma ReadIsDisk(data: seq<byte>, h: Header, disk: seq<byte>, off: nat, p: seq<byte>, n: nat, status: W.Status)
    requires forall i: nat :: i < W.Padded(|disk|) ==> GuestByte(data, h, i) == Some(ByteAt(disk, i))
    requires n <= |p| && ReadsAs(data, h, off, p[..n]) && p[n..] == Zeros(|p| - n) && off < |disk|
    requires match status
      case Done => n == |p| && off + n <= W.Padded(|disk|)
      case EndOfFile => n < |p| && off + n == W.Padded(|disk|)
      case Failed => n < |p| && off + n < |disk| && GuestByte(data, h, off + n) == None
    ensures p == Slice(disk, off, |p|)
    ensures if off + |p| <= W.Padded(|disk|) then status == W.Done && n == |p|
            else status == W.EndOfFile && n == W.Padded(|disk|) - off
  {
    hide GuestByte, W.Padded;
    AtLeastDisk(|disk|);
    forall k: nat | k < |p|
      ensures p[k] == ByteAt(disk, off + k)
    {
      if k < n {
        assert GuestAt(data, h, off, k) == Some(p[..n][k]);
      } else {
        assert p[n..][k - n] == 0;
      }
    }
  }

  lemma AtLeastDisk(size: nat)
    ensures size <= W.Padded(size)
  {
  }

  /** A disk of one byte: two bytes are asked for, and two are read without a word about the end. */
  method OneByteDisk() returns (n: nat, status: W.Status)
    ensures n == 2 && status == W.Done
  {
    var f := new File();
    var w := new W.Writer(f, 1);
    var p := new byte[2];
    assert W.L1Used(w.l2map) == {};
    assert w.BeforeRefcounts() == 2;
    assert W.Suffices(2, 1, 1);
    n, status := FinalizeThenRead(w, p, 0);
  }
}
