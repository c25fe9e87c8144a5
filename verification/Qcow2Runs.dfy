/** pkg/qcow2: runs of writes, what they leave on the disk and how many clusters they cost. */
module Qcow2Runs {
  import opened Sizes
  import opened Options
  import opened Bytes
  import opened Files
  import opened Qcow2Format
  import opened Qcow2Writer

  datatype Write = Write(p: seq<byte>, off: int) {
    predicate Inside(size: nat) {
      0 <= off && off + |p| <= size
    }
  }

  /** The flat disk after the writes, those that are out of range having failed. */
  function Flattened(size: nat, ws: seq<Write>): (disk: seq<byte>)
    ensures |disk| == size
  {
    if ws == [] then Zeros(size)
    else
      var before, w := Flattened(size, ws[..|ws| - 1]), ws[|ws| - 1];
      if w.Inside(size) then Spliced(before, w.p, w.off) else before
  }

  /** The guest clusters into which a byte was written that is not zero. */
  function InkedBy(size: nat, ws: seq<Write>): set<nat> {
    if ws == [] then {}
    else
      var before, w := InkedBy(size, ws[..|ws| - 1]), ws[|ws| - 1];
      if w.Inside(size) then before + Inked(w.p, w.off) else before
  }

  /** The groups of 8192 clusters that have a table of their own. */
  function Groups(clusters: set<nat>): set<nat> {
    set gc | gc in clusters :: gc / L2_ENTRIES
  }

  /** The header, the data, a table for every group and the table of the tables, in clusters. */
  function Needed(size: nat, clusters: set<nat>): nat {
    1 + |clusters| + |Groups(clusters)| + CeilDiv(CeilDiv(size, CLUSTER * L2_ENTRIES) * 8, CLUSTER)
  }

  /** A new disk, and the writes one after the other. */
  method WriteAll(size: nat, ws: seq<Write>) returns (w: Writer)
    requires size > 0
    ensures fresh(w) && fresh(w.f) && w.Valid() && !w.finalized && w.size == size
    ensures w.disk == Flattened(size, ws)
    ensures w.l2map.Keys == InkedBy(size, ws) && w.nextHost == 1 + |w.l2map|
  {
    hide Spliced, Shows, ZeroFrom, MapOk, Inked, Grew, Flattened, InkedBy;
    var f := new File();
    NothingStored(size);
    w := new Writer(f, size);
    assert ws[..0] == [];
    for k := 0 to |ws|
      invariant fresh(w) && fresh(w.f) && w.Valid() && !w.finalized && w.size == size
      invariant w.disk == Flattened(size, ws[..k])
      invariant w.l2map.Keys == InkedBy(size, ws[..k]) && w.nextHost == 1 + |w.l2map|
    {
      OneMore(size, ws, k);
      ghost var before, host := w.l2map, w.nextHost;
      var _, _ := w.WriteAt(ws[k].p, ws[k].off);
      if ws[k].Inside(size) {
        Counted(before, host, w.l2map, w.nextHost, Inked(ws[k].p, ws[k].off));
      }
    }
    assert ws[..|ws|] == ws;
  }

  lemma NothingStored(size: nat)
    ensures ZeroFrom([], CLUSTER) && Flattened(size, []) == Zeros(size) && InkedBy(size, []) == {}
  {
  }

  lemma OneMore(size: nat, ws: seq<Write>, k: nat)
    requires k < |ws|
    ensures ws[k].Inside(size) ==>
      && Flattened(size, ws[..k + 1]) == Spliced(Flattened(size, ws[..k]), ws[k].p, ws[k].off)
      && InkedBy(size, ws[..k + 1]) == InkedBy(size, ws[..k]) + Inked(ws[k].p, ws[k].off)
    ensures !ws[k].Inside(size) ==>
      Flattened(size, ws[..k + 1]) == Flattened(size, ws[..k]) && InkedBy(size, ws[..k + 1]) == InkedBy(size, ws[..k])
  {
    hide Spliced, Inked;
    assert ws[..k + 1][..k] == ws[..k] && ws[..k + 1][k] == ws[k];
  }

  lemma Counted(was: map<nat, nat>, host: nat, now: map<nat, nat>, next: nat, ink: set<nat>)
    requires Grew(was, host, now, next, ink) && host == 1 + |was|
    ensures next == 1 + |now| && now.Keys == was.Keys + ink
  {
  }

  /** The finished image of a run of writes holds the flat disk, and a data cluster exactly for what was not zero. */
  method StoreAll(size: nat, ws: seq<Write>) returns (w: Writer)
    requires size > 0
    ensures fresh(w) && fresh(w.f) && w.Valid() && w.l2map.Keys == InkedBy(size, ws)
    ensures IsSmallest(w.nextHost, Needed(size, InkedBy(size, ws)))
    ensures FitsFormat(size, CeilDiv(size, CLUSTER * L2_ENTRIES), w.nextHost) ==>
      ImageOf(w.f.data, Flattened(size, ws), w.nextHost)
  {
    hide Shows, ZeroFrom, MapOk, Inked, IsSmallest, FitsFormat, ImageOf, Flattened, InkedBy, CeilDiv;
    w := WriteAll(size, ws);
    assert |w.l2map| == |w.l2map.Keys| && L1Used(w.l2map) == Groups(w.l2map.Keys);
    var _ := w.Finalize();
  }

  lemma {:induction false} ZerosLeaveNothing(size: nat, ws: seq<Write>)
    requires forall k :: 0 <= k < |ws| ==> AllZero(ws[k].p)
    ensures InkedBy(size, ws) == {} && Flattened(size, ws) == Zeros(size)
  {
    if ws != [] {
      var w := ws[|ws| - 1];
      ZerosLeaveNothing(size, ws[..|ws| - 1]);
      if w.Inside(size) {
        assert Inked(w.p, w.off) == {};
        var z := Spliced(Zeros(size), w.p, w.off);
        forall i | 0 <= i < |z|
          ensures z[i] == Zeros(size)[i]
        {
          assert ByteAt(z, i) == z[i];
        }
      }
    }
  }

  /** However many zeros are written to a disk of up to 4 TiB, its image has four clusters. */
  method StoreZeros(size: nat, ws: seq<Write>) returns (w: Writer)
    requires 0 < size <= 0x400_0000_0000 && forall k :: 0 <= k < |ws| ==> AllZero(ws[k].p)
    ensures w.nextHost == 4 && |w.f.data| == 4 * CLUSTER && ImageOf(w.f.data, Zeros(size), 4)
  {
    hide ImageOf, InkedBy, Flattened, AllZero;
    ZerosLeaveNothing(size, ws);
    w := StoreAll(size, ws);
    assert Groups({}) == {};
    OneTable(size);
    assert Suffices(2, 1, 1);
    ImageSize(w.f.data, Zeros(size), 4);
  }

  lemma OneTable(size: nat)
    requires 0 < size <= 0x400_0000_0000
    ensures 1 <= CeilDiv(size, CLUSTER * L2_ENTRIES) <= L2_ENTRIES
    ensures CeilDiv(CeilDiv(size, CLUSTER * L2_ENTRIES) * 8, CLUSTER) == 1
  {
    CeilDivBound(size, CLUSTER * L2_ENTRIES, L2_ENTRIES);
    CeilDivCovers(size, CLUSTER * L2_ENTRIES);
  }

  lemma ImageSize(data: seq<byte>, disk: seq<byte>, clusters: nat)
    requires ImageOf(data, disk, clusters)
    ensures |data| == clusters * CLUSTER
  {
  }
}
