/** pkg/qcow2, the on-disk format: what an image file means to whoever reads it. */
module Qcow2Format {
  import opened Sizes
  import opened Options
  import opened Bytes

  const CLUSTER: nat := 65536
  const L2_ENTRIES: nat := 8192
  const REFCOUNTS_PER_CLUSTER: nat := 32768
  const MAGIC: nat := 0x514649fb
  const HEADER_LEN: nat := 112
  const FLAG_COPIED: nat := TWO63

  datatype Header = Header(
    version: nat, clusterBits: nat, size: nat, l1Size: nat, l1TableOffset: nat,
    refTableOffset: nat, refTableClusters: nat, refcountOrder: nat)
  {
    function Fields(): seq<Field> {
      [Field(0, 4, MAGIC), Field(4, 4, version), Field(20, 4, clusterBits), Field(24, 8, size),
       Field(36, 4, l1Size), Field(40, 8, l1TableOffset), Field(48, 8, refTableOffset),
       Field(56, 4, refTableClusters), Field(96, 4, refcountOrder), Field(100, 4, HEADER_LEN)]
    }

    /** A full cluster, zero apart from the fields. */
    function Marshal(): seq<byte> {
      Put(Big, Zeros(CLUSTER), Fields())
    }
  }

  function ParseHeader(head: seq<byte>): Option<Header> {
    if |head| < HEADER_LEN || Get(Big, head, 0, 4) != MAGIC then None
    else
      var version := Get(Big, head, 4, 4);
      var bits := Get(Big, head, 20, 4);
      if version != 2 && version != 3 then None
      else if bits < 9 || bits > 21 then None
      else
        Some(Header(version, bits, Get(Big, head, 24, 8), Get(Big, head, 36, 4), Get(Big, head, 40, 8),
                    Get(Big, head, 48, 8), Get(Big, head, 56, 4),
                    if version == 3 then Get(Big, head, 96, 4) else 4))
  }

  // ----- Table entries: e & offsetMask, e & flagCompressed != 0, e & flagZero != 0.

  function Masked(e: nat): nat {
    e % TWO56 / 512 * 512
  }

  predicate Compressed(e: nat) {
    e / TWO62 % 2 == 1
  }

  predicate ReadsZero(e: nat) {
    e % 2 == 1 || Masked(e) == 0
  }

  /** The parts of a table entry: a flag for zeros, an offset in bits 9 to 55, and a flag for compressed clusters. */
  lemma EntryParts(zero: nat, low: nat, off: nat, high: nat, packed: nat, copied: nat)
    requires zero < 2 && low < 256 && off % 512 == 0 && off < TWO56 && high < 64 && packed < 2 && copied < 2
    ensures var e := zero + 2 * low + off + TWO56 * high + TWO62 * packed + TWO63 * copied;
      Masked(e) == off && (Compressed(e) <==> packed == 1) && (ReadsZero(e) <==> zero == 1 || off == 0)
  {
    var k := off / 512;
    assert off == 512 * k;
    var e := zero + 2 * low + off + TWO56 * high + TWO62 * packed + TWO63 * copied;
    DivUnique(e, TWO56, high + 64 * packed + 128 * copied, zero + 2 * low + off);
    DivUnique(zero + 2 * low + off, 512, k, zero + 2 * low);
    DivUnique(e, TWO62, packed + 2 * copied, zero + 2 * low + off + TWO56 * high);
    DivUnique(e, 2, low + 256 * k + TWO56 / 2 * high + TWO62 / 2 * packed + TWO63 / 2 * copied, zero);
  }

  function Entry(data: seq<byte>, table: nat, i: nat): nat {
    Get(Big, data, table + 8 * i, 8)
  }

  /** A table entry as the format wants it: nothing, or the offset of a cluster with bit 63 and no other bit set. */
  predicate Tidy(e: nat) {
    e == 0 || (e == Masked(e) + 0x8000_0000_0000_0000 && Masked(e) > 0 && Masked(e) % CLUSTER == 0)
  }

  /** Every entry of the first level is tidy, and every entry of the tables it leads to. */
  ghost predicate TidyTables(data: seq<byte>, h: Header) {
    forall i: nat :: i < h.l1Size ==> TidySlot(data, Entry(data, h.l1TableOffset, i))
  }

  ghost predicate TidySlot(data: seq<byte>, e: nat) {
    Tidy(e) && (e != 0 ==> forall j: nat :: j < L2_ENTRIES ==> Tidy(Entry(data, Masked(e), j)))
  }

  function Quotient(a: nat, b: nat): nat
    requires b > 0
  {
    a / b
  }

  function Remainder(a: nat, b: nat): (r: nat)
    requires b > 0
    ensures r < b
  {
    a % b
  }

  /** The host offset of a guest cluster: Some(0) when it reads as zeros, None when unsupported. */
  function HostOffset(data: seq<byte>, h: Header, gc: nat): Option<nat> {
    var perTable := Pow2(h.clusterBits) / 8;
    if perTable == 0 || Quotient(gc, perTable) >= h.l1Size then Some(0)
    else
      var l2 := Masked(Entry(data, h.l1TableOffset, Quotient(gc, perTable)));
      if l2 == 0 then Some(0)
      else
        var e := Entry(data, l2, Remainder(gc, perTable));
        if Compressed(e) then None else if ReadsZero(e) then Some(0) else Some(Masked(e))
  }

  function ByteInCluster(data: seq<byte>, host: Option<nat>, inCl: nat): Option<byte> {
    match host
    case None => None
    case Some(at) => Some(if at == 0 then 0 else ByteAt(data, at + inCl))
  }

  /** Byte i of the virtual disk held in an image file. */
  function GuestByte(data: seq<byte>, h: Header, i: nat): Option<byte> {
    var cs := Pow2(h.clusterBits);
    ByteInCluster(data, HostOffset(data, h, Quotient(i, cs)), Remainder(i, cs))
  }

  /** The reference count recorded for host cluster c by the refcount table at rtOff. */
  function RefcountOf(data: seq<byte>, rtOff: nat, c: nat): nat {
    Get(Big, data, Entry(data, rtOff, c / REFCOUNTS_PER_CLUSTER) + 2 * (c % REFCOUNTS_PER_CLUSTER), 2)
  }

  /** A file is opened for its magic number, version and cluster size, whatever else is in it. */
  lemma ParsesWhen(head: seq<byte>)
    ensures ParseHeader(head).Some? <==>
      && |head| >= 112 && Slice(head, 0, 4) == [0x51, 0x46, 0x49, 0xfb]
      && 2 <= Get(Big, head, 4, 4) <= 3 && 9 <= Get(Big, head, 20, 4) <= 21
  {
    hide Slice;
    MagicBytes();
    MagicIs(Slice(head, 0, 4));
  }

  lemma MagicIs(s: seq<byte>)
    requires |s| == 4
    ensures UnBE(s) == MAGIC <==> s == [0x51, 0x46, 0x49, 0xfb]
  {
    assert s[..3][..2] == s[..2] && s[..2][..1] == s[..1] && s[..1][..0] == [];
    var a: int, b: int, c: int, d: int := s[0], s[1], s[2], s[3];
    assert UnBE(s[..1]) == a;
    assert UnBE(s[..2]) == 256 * a + b;
    assert UnBE(s[..3]) == 256 * (256 * a + b) + c;
    assert UnBE(s) == 256 * (256 * (256 * a + b) + c) + d;
  }

  lemma MarshalSize(h: Header)
    ensures |h.Marshal()| == CLUSTER
  {
    PutSize(Big, Zeros(CLUSTER), h.Fields());
  }

  lemma HeaderRoundTrip(h: Header)
    requires h.version == 3 && 9 <= h.clusterBits <= 21
    requires h.size < TWO63 && h.l1Size < TWO32 && h.l1TableOffset < TWO63
    requires h.refTableOffset < TWO63 && h.refTableClusters < TWO32 && h.refcountOrder < TWO32
    ensures ParseHeader(Slice(h.Marshal(), 0, HEADER_LEN)) == Some(h)
  {
    hide Put, Get;
    var b, fs := h.Marshal(), h.Fields();
    Widths();
    forall k: nat | k < |fs|
      ensures Get(Big, Slice(b, 0, HEADER_LEN), fs[k].off, fs[k].len) == fs[k].value % Pow256(fs[k].len)
    {
      PutReads(Big, Zeros(CLUSTER), fs, k);
      GetOfSlice(Big, b, 0, HEADER_LEN, fs[k].off, fs[k].len);
    }
    assert fs[0] == Field(0, 4, MAGIC) && fs[1] == Field(4, 4, h.version) && fs[2] == Field(20, 4, h.clusterBits);
    assert fs[3] == Field(24, 8, h.size) && fs[4] == Field(36, 4, h.l1Size) && fs[5] == Field(40, 8, h.l1TableOffset);
    assert fs[6] == Field(48, 8, h.refTableOffset) && fs[7] == Field(56, 4, h.refTableClusters);
    assert fs[8] == Field(96, 4, h.refcountOrder);
  }

  /** A header is these numbers, most significant byte first, and zeros: no backing file, no encryption, no snapshot and
      no feature bit. */
  lemma HeaderLayout(h: Header)
    ensures var b := h.Marshal();
      && Slice(b, 0, 4) == [0x51, 0x46, 0x49, 0xfb] && Slice(b, 4, 4) == Encode(Big, h.version, 4)
      && Slice(b, 20, 4) == Encode(Big, h.clusterBits, 4) && Slice(b, 24, 8) == Encode(Big, h.size, 8)
      && Slice(b, 36, 4) == Encode(Big, h.l1Size, 4) && Slice(b, 40, 8) == Encode(Big, h.l1TableOffset, 8)
      && Slice(b, 48, 8) == Encode(Big, h.refTableOffset, 8) && Slice(b, 56, 4) == Encode(Big, h.refTableClusters, 4)
      && Slice(b, 96, 4) == Encode(Big, h.refcountOrder, 4) && Slice(b, 100, 4) == [0, 0, 0, 112]
      && Slice(b, 8, 12) == Zeros(12) && Slice(b, 32, 4) == Zeros(4) && Slice(b, 60, 36) == Zeros(36)
      && Slice(b, 104, CLUSTER - 104) == Zeros(CLUSTER - 104)
  {
    hide Encode, Slice, Put;
    MagicBytes();
    var fs := h.Fields();
    assert fs[0] == Field(0, 4, MAGIC) && fs[1] == Field(4, 4, h.version) && fs[2] == Field(20, 4, h.clusterBits);
    assert fs[3] == Field(24, 8, h.size) && fs[4] == Field(36, 4, h.l1Size) && fs[5] == Field(40, 8, h.l1TableOffset);
    assert fs[6] == Field(48, 8, h.refTableOffset) && fs[7] == Field(56, 4, h.refTableClusters);
    assert fs[8] == Field(96, 4, h.refcountOrder) && fs[9] == Field(100, 4, HEADER_LEN);
    forall k: nat | k < |fs|
      ensures Slice(h.Marshal(), fs[k].off, fs[k].len) == Encode(Big, fs[k].value, fs[k].len)
    {
      PutField(Big, Zeros(CLUSTER), fs, k);
    }
    PutElsewhere(Big, Zeros(CLUSTER), fs, 8, 12);
    PutElsewhere(Big, Zeros(CLUSTER), fs, 32, 4);
    PutElsewhere(Big, Zeros(CLUSTER), fs, 60, 36);
    PutElsewhere(Big, Zeros(CLUSTER), fs, 104, CLUSTER - 104);
    ZeroSlice(8, 12);
    ZeroSlice(32, 4);
    ZeroSlice(60, 36);
    ZeroSlice(104, CLUSTER - 104);
  }

  lemma ZeroSlice(at: nat, n: nat)
    ensures Slice(Zeros(CLUSTER), at, n) == Zeros(n)
  {
  }

  lemma MagicBytes()
    ensures Encode(Big, MAGIC, 4) == [0x51, 0x46, 0x49, 0xfb]
    ensures Encode(Big, HEADER_LEN, 4) == [0, 0, 0, 112]
  {
    assert BE(MAGIC, 4) == BE(0x514649, 3) + [0xfb];
    assert BE(0x514649, 3) == BE(0x5146, 2) + [0x49];
    assert BE(0x5146, 2) == BE(0x51, 1) + [0x46];
    assert BE(0x51, 1) == BE(0, 0) + [0x51];
    assert BE(112, 4) == BE(0, 3) + [112] && BE(0, 3) == BE(0, 2) + [0] && BE(0, 2) == BE(0, 1) + [0];
    assert BE(0, 1) == BE(0, 0) + [0];
  }

  // ----- Tables of 64-bit entries.

  function TableBytes(entries: seq<nat>): (b: seq<byte>)
    ensures |b| == 8 * |entries|
  {
    if entries == [] then []
    else TableBytes(entries[..|entries| - 1]) + Encode(Big, entries[|entries| - 1], 8)
  }

  /** The table at off holds entries, each cut to 64 bits. */
  ghost predicate TableAt(data: seq<byte>, off: nat, entries: seq<nat>) {
    forall i: nat :: i < |entries| ==> Entry(data, off, i) == entries[i] % TWO64
  }

  lemma {:induction false} TableEntry(entries: seq<nat>, i: nat)
    requires i < |entries|
    ensures Slice(TableBytes(entries), 8 * i, 8) == Encode(Big, entries[i], 8)
    decreases |entries|
  {
    var last := |entries| - 1;
    var init := TableBytes(entries[..last]);
    var b := TableBytes(entries);
    if i < last {
      TableEntry(entries[..last], i);
      assert Slice(b, 8 * i, 8) == Slice(init, 8 * i, 8);
    } else {
      assert Slice(b, 8 * last, 8) == Encode(Big, entries[last], 8);
    }
  }

  lemma EntryDecodes(data: seq<byte>, off: nat, i: nat, v: nat)
    requires Slice(data, off + 8 * i, 8) == Encode(Big, v, 8)
    ensures Entry(data, off, i) == v % TWO64
  {
    DecodeOfEncode(Big, v, 8);
    Widths();
  }

  lemma TableReadsBack(data: seq<byte>, entries: seq<nat>, off: nat)
    ensures TableAt(Spliced(data, TableBytes(entries), off), off, entries)
  {
    forall i: nat | i < |entries|
      ensures Entry(Spliced(data, TableBytes(entries), off), off, i) == entries[i] % TWO64
    {
      TableEntry(entries, i);
      SliceWithin(data, TableBytes(entries), off, 8 * i, 8);
      EntryDecodes(Spliced(data, TableBytes(entries), off), off, i, entries[i]);
    }
  }

  lemma TableElsewhere(d: seq<byte>, e: seq<byte>, lo: nat, hi: nat, off: nat, entries: seq<nat>)
    requires TableAt(d, off, entries) && Agree(d, e, lo, hi)
    requires lo <= off && off + 8 * |entries| <= hi
    ensures TableAt(e, off, entries)
  {
    forall i: nat | i < |entries|
      ensures Entry(e, off, i) == Entry(d, off, i)
    {
      AgreeSlice(d, e, lo, hi, off + 8 * i, 8);
    }
  }

  lemma EmptyTable(entries: seq<nat>, size: nat)
    ensures Zeros(size) == TableBytes(entries[..0]) + Zeros(size)
  {
  }

  /** Filling slot i of a zeroed table buffer. */
  lemma TableGrows(entries: seq<nat>, i: nat, size: nat)
    requires i < |entries| && 8 * |entries| <= size
    ensures Spliced(TableBytes(entries[..i]) + Zeros(size - 8 * i), Encode(Big, entries[i], 8), 8 * i) ==
            TableBytes(entries[..i + 1]) + Zeros(size - 8 * (i + 1))
  {
    assert entries[..i + 1][..i] == entries[..i];
    var l := Spliced(TableBytes(entries[..i]) + Zeros(size - 8 * i), Encode(Big, entries[i], 8), 8 * i);
    var r := TableBytes(entries[..i + 1]) + Zeros(size - 8 * (i + 1));
    assert |l| == |r|;
    forall k | 0 <= k < |l|
      ensures l[k] == r[k]
    {
      assert ByteAt(l, k) == l[k];
    }
  }
}
