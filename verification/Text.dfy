/** Strings as bytes on disk. */
module Text {
  import opened Bytes

  /** The bytes of a Go string. */
  predicate ByteString(s: string) {
    forall i :: 0 <= i < |s| ==> s[i] as int < 256
  }

  function NameBytes(s: string): (b: seq<byte>)
    requires ByteString(s)
    ensures |b| == |s|
  {
    seq<byte>(|s|, i requires 0 <= i < |s| => s[i] as int)
  }

  /** trimNUL: what comes before the first NUL. */
  function TrimNul(b: seq<byte>): (s: string)
    ensures ByteString(s)
  {
    if b == [] || b[0] == 0 then "" else [b[0] as char] + TrimNul(b[1..])
  }

  predicate NoNul(s: string) {
    forall i :: 0 <= i < |s| ==> s[i] as int != 0
  }

  function UpToNul(s: string): (r: string)
    ensures |r| <= |s| && r == s[..|r|] && NoNul(r)
    ensures r == s <==> NoNul(s)
  {
    if s == "" || s[0] as int == 0 then "" else [s[0]] + UpToNul(s[1..])
  }

  /** What is found of a string that ends at a NUL or at the end of its space. */
  lemma {:induction false} TrimNulOfString(s: string, z: seq<byte>)
    requires ByteString(s) && (z == [] || z[0] == 0)
    ensures TrimNul(NameBytes(s) + z) == UpToNul(s)
    decreases |s|
  {
    var b := NameBytes(s) + z;
    if s != "" {
      assert b[1..] == NameBytes(s[1..]) + z;
      TrimNulOfString(s[1..], z);
    }
  }

  lemma TrimNulOfName(s: string, z: seq<byte>)
    requires ByteString(s) && NoNul(s) && z != [] && z[0] == 0
    ensures TrimNul(NameBytes(s) + z) == s
  {
    TrimNulOfString(s, z);
  }

  /** A name that fills its space has no NUL to find. */
  lemma TrimNulOfAll(s: string)
    requires ByteString(s) && NoNul(s)
    ensures TrimNul(NameBytes(s)) == s
  {
    TrimNulOfString(s, []);
    assert NameBytes(s) + [] == NameBytes(s);
  }

  function StringOf(b: seq<byte>): string {
    seq(|b|, i requires 0 <= i < |b| => b[i] as char)
  }

  lemma StringRead(s: string)
    requires ByteString(s)
    ensures StringOf(NameBytes(s)) == s
  {
  }
}
