/** Byte strings, fixed-width integer fields in both byte orders, and growable files. */
module Bytes {
  import opened Sizes

  type byte = x: int | 0 <= x < 256

  function Pow256(n: nat): (r: nat)
    ensures r >= 1
  {
    if n == 0 then 1 else 256 * Pow256(n - 1)
  }

  // ----- Integers as bytes. A value that does not fit loses its high bytes, as a Go conversion does.

  /** The low n bytes of v, most significant first. */
  function BE(v: nat, n: nat): (s: seq<byte>)
    ensures |s| == n
    decreases n, v
  {
    if n == 0 then [] else BE(v / 256, n - 1) + [v % 256]
  }

  function UnBE(s: seq<byte>): nat {
    if s == [] then 0 else 256 * UnBE(s[..|s| - 1]) + s[|s| - 1]
  }

  /** The low n bytes of v, least significant first. */
  function LE(v: nat, n: nat): (s: seq<byte>)
    ensures |s| == n
    decreases n, v
  {
    if n == 0 then [] else [v % 256] + LE(v / 256, n - 1)
  }

  function UnLE(s: seq<byte>): nat {
    if s == [] then 0 else s[0] + 256 * UnLE(s[1..])
  }

  lemma DivUnique(v: nat, m: nat, q: nat, r: nat)
    requires r < m && v == q * m + r
    ensures v / m == q && v % m == r
  {
    var x, y := v / m, v % m;
    assert x * m + y == q * m + r;
    if x < q {
      MulGap(x, q, m);
    } else if x > q {
      MulGap(q, x, m);
    }
  }

  lemma MulGap(a: int, b: int, m: nat)
    requires a < b
    ensures a * m + m <= b * m
  {
    assert (b - a - 1) * m >= 0;
  }

  lemma ModStep(v: nat, p: nat)
    requires p > 0
    ensures v % (256 * p) == v / 256 % p * 256 + v % 256
  {
    var q, r := v / 256 / p, v / 256 % p;
    assert v == 256 * (q * p + r) + v % 256 == q * (256 * p) + (256 * r + v % 256);
    DivUnique(v, 256 * p, q, 256 * r + v % 256);
  }

  lemma {:induction false} UnBEOfBE(v: nat, n: nat)
    ensures UnBE(BE(v, n)) == v % Pow256(n)
    decreases n
  {
    if n > 0 {
      UnBEOfBE(v / 256, n - 1);
      assert BE(v, n)[..n - 1] == BE(v / 256, n - 1);
      ModStep(v, Pow256(n - 1));
    }
  }

  lemma {:induction false} UnLEOfLE(v: nat, n: nat)
    ensures UnLE(LE(v, n)) == v % Pow256(n)
    decreases n
  {
    if n > 0 {
      UnLEOfLE(v / 256, n - 1);
      assert LE(v, n)[1..] == LE(v / 256, n - 1);
      ModStep(v, Pow256(n - 1));
    }
  }

  datatype Order = Big | Little

  /** Which byte of a number is where: the most significant one first, or last. */
  lemma {:induction false} EncodedByte(o: Order, v: nat, n: nat, i: nat)
    requires i < n
    ensures Encode(o, v, n)[i] == v / Pow256(if o.Big? then n - 1 - i else i) % 256
    decreases n
  {
    if o.Big? && i < n - 1 {
      EncodedByte(o, v / 256, n - 1, i);
      DivTwice(v, Pow256(n - 2 - i));
    } else if o.Little? && i > 0 {
      EncodedByte(o, v / 256, n - 1, i - 1);
      DivTwice(v, Pow256(i - 1));
    }
  }

  lemma DivTwice(v: nat, p: nat)
    requires p > 0
    ensures v / 256 / p == v / (256 * p)
  {
    var q, r := v / 256 / p, v / 256 % p;
    assert v == 256 * (q * p + r) + v % 256 == q * (256 * p) + (256 * r + v % 256);
    DivUnique(v, 256 * p, q, 256 * r + v % 256);
  }

  function Encode(o: Order, v: nat, n: nat): (s: seq<byte>)
    ensures |s| == n
  {
    if o.Big? then BE(v, n) else LE(v, n)
  }

  function Decode(o: Order, s: seq<byte>): nat {
    if o.Big? then UnBE(s) else UnLE(s)
  }

  lemma DecodeOfEncode(o: Order, v: nat, n: nat)
    ensures Decode(o, Encode(o, v, n)) == v % Pow256(n)
  {
    UnBEOfBE(v, n);
    UnLEOfLE(v, n);
  }

  lemma Widths()
    ensures Pow256(2) == TWO16
    ensures Pow256(4) == TWO32
    ensures Pow256(6) == 0x1_0000_0000_0000
    ensures Pow256(8) == TWO64
  {
    assert Pow256(4) == TWO16 * Pow256(2);
    assert Pow256(6) == TWO16 * Pow256(4);
    assert Pow256(8) == TWO16 * Pow256(6);
  }

  // ----- Files: bytes past the end read as zero, a write past the end grows the file with zeros.

  function Zeros(n: nat): (s: seq<byte>)
    ensures |s| == n && forall i :: 0 <= i < n ==> s[i] == 0
  {
    seq(n, _ => 0)
  }

  function ByteAt(data: seq<byte>, i: nat): byte {
    if i < |data| then data[i] else 0
  }

  /** The n bytes from off on. */
  function Slice(data: seq<byte>, off: nat, n: nat): (s: seq<byte>)
    ensures |s| == n
    ensures forall i :: 0 <= i < n ==> s[i] == ByteAt(data, off + i)
  {
    seq<byte>(n, i requires 0 <= i => ByteAt(data, off + i))
  }

  /** data after writing p at off. */
  function Spliced(data: seq<byte>, p: seq<byte>, off: nat): (s: seq<byte>)
    ensures |s| == if p == [] || off + |p| <= |data| then |data| else off + |p|
    ensures forall i: nat {:trigger ByteAt(s, i)} ::
      ByteAt(s, i) == if off <= i < off + |p| then p[i - off] else ByteAt(data, i)
  {
    if p == [] then data
    else
      seq(if off + |p| <= |data| then |data| else off + |p|,
          i requires 0 <= i => if off <= i < off + |p| then p[i - off] else ByteAt(data, i))
  }

  lemma SliceOfWrite(data: seq<byte>, p: seq<byte>, off: nat)
    ensures Slice(Spliced(data, p, off), off, |p|) == p
  {
  }

  lemma SliceElsewhere(data: seq<byte>, p: seq<byte>, off: nat, at: nat, n: nat)
    requires at + n <= off || off + |p| <= at
    ensures Slice(Spliced(data, p, off), at, n) == Slice(data, at, n)
  {
  }

  /** Two files agree on [lo, hi). */
  ghost predicate Agree(d: seq<byte>, e: seq<byte>, lo: nat, hi: nat) {
    forall i: nat {:trigger ByteAt(d, i)} {:trigger ByteAt(e, i)} :: lo <= i < hi ==> ByteAt(d, i) == ByteAt(e, i)
  }

  lemma AgreeSlice(d: seq<byte>, e: seq<byte>, lo: nat, hi: nat, off: nat, n: nat)
    requires Agree(d, e, lo, hi) && lo <= off && off + n <= hi
    ensures Slice(d, off, n) == Slice(e, off, n)
  {
    assert forall i :: 0 <= i < n ==> Slice(d, off, n)[i] == Slice(e, off, n)[i];
  }

  lemma SliceWithin(data: seq<byte>, p: seq<byte>, off: nat, at: nat, n: nat)
    requires at + n <= |p|
    ensures Slice(Spliced(data, p, off), off + at, n) == Slice(p, at, n)
  {
  }

  lemma SliceConcat(data: seq<byte>, off: nat, n: nat, m: nat)
    ensures Slice(data, off, n) + Slice(data, off + n, m) == Slice(data, off, n + m)
  {
  }

  lemma SlicePastEnd(data: seq<byte>, off: nat, n: nat)
    ensures |data| <= off || n == 0 ==> Slice(data, off, n) == Zeros(n)
  {
  }

  lemma SlicePrefix(a: seq<byte>, z: seq<byte>, at: nat, n: nat)
    requires at + n <= |a|
    ensures Slice(a + z, at, n) == Slice(a, at, n)
  {
  }

  // ----- Records: fixed fields written into a buffer.

  datatype Field = Field(off: nat, len: nat, value: nat)

  ghost predicate Apart(fs: seq<Field>) {
    forall i, j :: 0 <= i < j < |fs| ==> fs[i].off + fs[i].len <= fs[j].off
  }

  /** b with every field written at its offset. */
  function Put(o: Order, b: seq<byte>, fs: seq<Field>): seq<byte>
    decreases |fs|
  {
    if fs == [] then b else Put(o, Spliced(b, Encode(o, fs[0].value, fs[0].len), fs[0].off), fs[1..])
  }

  function Get(o: Order, b: seq<byte>, off: nat, len: nat): nat {
    Decode(o, Slice(b, off, len))
  }

  lemma GetOfSlice(o: Order, b: seq<byte>, from: nat, n: nat, off: nat, len: nat)
    requires off + len <= n
    ensures Get(o, Slice(b, from, n), off, len) == Get(o, b, from + off, len)
  {
    assert Slice(Slice(b, from, n), off, len) == Slice(b, from + off, len);
  }

  /** Bytes that no field covers are left alone. */
  lemma {:induction false} PutElsewhere(o: Order, b: seq<byte>, fs: seq<Field>, at: nat, n: nat)
    requires forall f :: f in fs ==> at + n <= f.off || f.off + f.len <= at
    ensures Slice(Put(o, b, fs), at, n) == Slice(b, at, n)
    decreases |fs|
  {
    if fs != [] {
      var b' := Spliced(b, Encode(o, fs[0].value, fs[0].len), fs[0].off);
      assert fs[0] in fs;
      SliceElsewhere(b, Encode(o, fs[0].value, fs[0].len), fs[0].off, at, n);
      PutElsewhere(o, b', fs[1..], at, n);
    }
  }

  /** Every field of a record is where it was put. */
  lemma {:induction false} PutField(o: Order, b: seq<byte>, fs: seq<Field>, k: nat)
    requires Apart(fs) && k < |fs|
    ensures Slice(Put(o, b, fs), fs[k].off, fs[k].len) == Encode(o, fs[k].value, fs[k].len)
    decreases k
  {
    hide Slice, Spliced, Encode;
    var f := fs[0];
    var b' := Spliced(b, Encode(o, f.value, f.len), f.off);
    if k == 0 {
      SliceOfWrite(b, Encode(o, f.value, f.len), f.off);
      PutElsewhere(o, b', fs[1..], f.off, f.len);
    } else {
      PutField(o, b', fs[1..], k - 1);
    }
  }

  /** Every field of a record reads back. */
  lemma PutReads(o: Order, b: seq<byte>, fs: seq<Field>, k: nat)
    requires Apart(fs) && k < |fs|
    ensures Get(o, Put(o, b, fs), fs[k].off, fs[k].len) == fs[k].value % Pow256(fs[k].len)
  {
    PutField(o, b, fs, k);
    DecodeOfEncode(o, fs[k].value, fs[k].len);
  }

  lemma {:induction false} PutSize(o: Order, b: seq<byte>, fs: seq<Field>)
    requires forall f :: f in fs ==> f.off + f.len <= |b|
    ensures |Put(o, b, fs)| == |b|
    decreases |fs|
  {
    if fs != [] {
      assert fs[0] in fs;
      PutSize(o, Spliced(b, Encode(o, fs[0].value, fs[0].len), fs[0].off), fs[1..]);
    }
  }

  /** Part of what was read. */
  lemma SubSlice(data: seq<byte>, off: nat, s: seq<byte>, k: nat, n: nat)
    requires Slice(data, off, |s|) == s && k + n <= |s|
    ensures Slice(data, off + k, n) == s[k..k + n]
  {
    SliceConcat(data, off, k, n);
    SliceConcat(data, off, k + n, |s| - k - n);
    assert s == Slice(data, off, k) + Slice(data, off + k, n) + Slice(data, off + k + n, |s| - k - n);
  }

  // ----- A number within a byte string.

  /** A field between two others. */
  lemma Part(a: seq<byte>, b: seq<byte>, c: seq<byte>)
    ensures Slice(a + b + c, |a|, |b|) == b
  {
  }

  lemma GetPart(a: seq<byte>, v: nat, n: nat, c: seq<byte>)
    requires v < Pow256(n)
    ensures Get(Little, a + LE(v, n) + c, |a|, n) == v
  {
    hide LE, UnLE, Slice, Pow256;
    Part(a, LE(v, n), c);
    DecodeOfEncode(Little, v, n);
    DivUnique(v, Pow256(n), 0, v);
  }

  // ----- Joined byte strings.

  function Flat(parts: seq<seq<byte>>): seq<byte> {
    if parts == [] then [] else Flat(parts[..|parts| - 1]) + parts[|parts| - 1]
  }

  // ----- Counting in 32 bits.

  lemma AddMod(a: nat, b: nat)
    ensures (a % TWO32 + b) % TWO32 == (a + b) % TWO32
  {
    var q, r := a / TWO32, a % TWO32;
    var q', r' := (r + b) / TWO32, (r + b) % TWO32;
    DivUnique(a + b, TWO32, q + q', r');
  }

  // ----- Rounding up.

  function CeilDiv(a: nat, b: nat): nat
    requires b > 0
  {
    (a + b - 1) / b
  }

  /** The next multiple of four. */
  function Align4(n: nat): (r: nat)
    ensures n <= r < n + 4 && r % 4 == 0
  {
    (n + 3) / 4 * 4
  }

  lemma MulMono(a: nat, b: nat, c: nat)
    requires a <= b
    ensures a * c <= b * c
  {
  }

  lemma CeilDivBound(x: nat, d: nat, q: nat)
    requires d > 0 && x <= q * d
    ensures CeilDiv(x, d) <= q
  {
    if (x + d - 1) / d > q {
      MulMono(q + 1, (x + d - 1) / d, d);
    }
  }

  lemma CeilDivCovers(x: nat, d: nat)
    requires d > 0
    ensures x <= CeilDiv(x, d) * d && (x > 0 ==> (CeilDiv(x, d) - 1) * d < x)
  {
    var q, r := (x + d - 1) / d, (x + d - 1) % d;
    assert x + d - 1 == q * d + r;
  }

  function Lesser(a: nat, b: nat): nat {
    if a < b then a else b
  }
}
