/** Random-access files, as the engines see a device or a host file. */
module Files {
  import opened Bytes

  class File {
    var data: seq<byte>

    constructor ()
      ensures data == []
    {
      data := [];
    }

    method WriteAt(p: seq<byte>, off: nat)
      modifies this
      ensures data == Spliced(old(data), p, off)
    {
      data := Spliced(data, p, off);
    }

    /** Fill the zeroed bytes dst[lo..lo+n] from offset off; past the end of the file they stay zero. */
    method ReadAt(dst: array<byte>, lo: nat, n: nat, off: nat)
      requires lo + n <= dst.Length && dst[lo..lo + n] == Zeros(n)
      modifies dst
      ensures dst[..] == old(dst[..lo]) + Slice(data, off, n) + old(dst[lo + n..])
    {
      ghost var was := dst[..];
      var i := 0;
      while i < n && off + i < |data|
        invariant i <= n && (i > 0 ==> off + i <= |data|)
        invariant dst[..lo] == was[..lo] && dst[lo + i..] == was[lo + i..]
        invariant forall k :: lo <= k < lo + i ==> dst[k] == data[off + (k - lo)]
      {
        dst[lo + i] := data[off + i];
        i := i + 1;
      }
      Filled(was, dst[..], data, lo, n, off, i);
    }

    lemma Filled(was: seq<byte>, now: seq<byte>, d: seq<byte>, lo: nat, n: nat, off: nat, i: nat)
      requires i <= n && lo + n <= |was| == |now| && was[lo..lo + n] == Zeros(n)
      requires now[..lo] == was[..lo] && now[lo + i..] == was[lo + i..]
      requires (i > 0 ==> off + i <= |d|) && (i == n || off + i >= |d|)
      requires forall k :: lo <= k < lo + i ==> now[k] == d[off + (k - lo)]
      ensures now == was[..lo] + Slice(d, off, n) + was[lo + n..]
    {
      forall k | lo <= k < lo + n
        ensures now[k] == ByteAt(d, off + (k - lo))
      {
        if k >= lo + i {
          assert now[k] == now[lo + i..][k - lo - i] == was[lo..lo + n][k - lo];
        }
      }
      assert now[lo..lo + n] == Slice(d, off, n);
      assert now[lo + n..] == now[lo + i..][n - i..];
    }

    /** Read n bytes at off into a fresh zeroed buffer. */
    method Read(off: nat, n: nat) returns (b: seq<byte>)
      ensures b == Slice(data, off, n)
    {
      var buf := new byte[n](_ => 0);
      assert buf[..] == Zeros(n) == buf[0..n];
      ReadAt(buf, 0, n, off);
      assert buf[..] == [] + Slice(data, off, n) + [];
      return buf[..];
    }

    method Truncate(size: nat)
      modifies this
      ensures data == Slice(old(data), 0, size)
    {
      data := Slice(data, 0, size);
    }
  }
}
