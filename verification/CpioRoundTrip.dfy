/** Reading an archive back: the members as bytes, then the graph they build. */
module CpioRoundTrip {
  import opened Sizes
  import opened Names
  import opened Bytes
  import opened Text
  import opened CpioFormat
  import opened CpioReader
  import opened CpioWriter
  import opened CpioArchive
  import opened CpioListing
  import opened CpioGraph
  import opened CpioReplay

  // ----- Members on a device.

  /** The device starts with the bytes a. */
  ghost predicate Starts(dev: seq<byte>, a: seq<byte>) {
    Slice(dev, 0, |a|) == a
  }

  lemma Within(dev: seq<byte>, a: seq<byte>, pre: seq<byte>, mid: seq<byte>, post: seq<byte>)
    requires Starts(dev, a) && a == pre + mid + post
    ensures Slice(dev, |pre|, |mid|) == mid
  {
    forall i | 0 <= i < |mid|
      ensures ByteAt(dev, |pre| + i) == mid[i]
    {
      assert Slice(dev, 0, |a|)[|pre| + i] == a[|pre| + i];
    }
  }

  lemma WithinSlice(dev: seq<byte>, pos: nat, s: seq<byte>, pre: seq<byte>, mid: seq<byte>, post: seq<byte>)
    requires Slice(dev, pos, |s|) == s && s == pre + mid + post
    ensures Slice(dev, pos + |pre|, |mid|) == mid
  {
    forall i | 0 <= i < |mid|
      ensures ByteAt(dev, pos + |pre| + i) == mid[i]
    {
      assert Slice(dev, pos, |s|)[|pre| + i] == s[|pre| + i];
    }
  }

  lemma PartsOf(m: Member)
    requires ValidMember(m)
    ensures MemberBytes(m) ==
      Marshalled(m.header) + NameRegion(m.name) + m.body + Zeros(Align4(|m.body|) - |m.body|)
    ensures |MemberBytes(m)| == HEADER_SIZE + NAlign(|m.name| + 1) + Align4(|m.body|)
  {
    hide Marshalled, NameRegion, NAlign, Align4, Zeros;
  }

  lemma NextMember(pos: nat, m: Member)
    requires pos % 4 == 0 && ValidMember(m)
    ensures Align4(pos + HEADER_SIZE + NAlign(m.header.namesize) + m.header.filesize) == pos + |MemberBytes(m)|
  {
    hide Align4, NAlign, MemberBytes;
    PartsOf(m);
    Fours(pos, HEADER_SIZE + NAlign(|m.name| + 1));
    AlignMore(pos + HEADER_SIZE + NAlign(|m.name| + 1), |m.body|);
  }

  /** A member found at pos parses to itself, and is followed by the next one. */
  lemma MemberParses(dev: seq<byte>, pos: nat, m: Member)
    requires pos % 4 == 0 && ValidMember(m) && Slice(dev, pos, |MemberBytes(m)|) == MemberBytes(m)
    ensures ParseHeader(Slice(dev, pos, HEADER_SIZE)) == Parsed(m.header)
    ensures TrimNul(Slice(dev, pos + HEADER_SIZE, m.header.namesize)) == m.name
    ensures var off := pos + HEADER_SIZE + NAlign(m.header.namesize);
      Slice(dev, off, m.header.filesize) == m.body && Align4(off + m.header.filesize) == pos + |MemberBytes(m)|
  {
    hide Slice, Marshalled, NameBytes, ParseHeader, TrimNul, Zeros, Align4, NAlign, MemberBytes, NameRegion;
    var s, h, r, z := MemberBytes(m), Marshalled(m.header), NameRegion(m.name), Zeros(Align4(|m.body|) - |m.body|);
    PartsOf(m);
    assert s == [] + h + (r + m.body + z);
    WithinSlice(dev, pos, s, [], h, r + m.body + z);
    HeaderRoundTrip(m.header);
    NameSplits(m.name);
    var n := |m.name| + 1;
    assert s == h + r[..n] + (r[n..] + m.body + z) by {
      assert r == r[..n] + r[n..];
    }
    WithinSlice(dev, pos, s, h, r[..n], r[n..] + m.body + z);
    WithinSlice(dev, pos, s, h + r, m.body, z);
    NextMember(pos, m);
  }

  lemma NameSplits(name: string)
    requires ByteString(name) && NoNul(name)
    ensures |NameRegion(name)| >= |name| + 1 && TrimNul(NameRegion(name)[..|name| + 1]) == name
  {
    TrimNulOfName(name, [0]);
    assert NameRegion(name)[..|name| + 1] == NameBytes(name) + [0];
  }

  lemma AlignMore(a: nat, n: nat)
    requires a % 4 == 0
    ensures Align4(a + n) == a + Align4(n)
  {
    DivUnique(a + n + 3, 4, a / 4 + (n + 3) / 4, (n + 3) % 4);
  }

  ghost predicate ValidMembers(ms: seq<Member>) {
    forall i :: 0 <= i < |ms| ==> ValidMember(ms[i])
  }

  lemma BytesNamed(ms: seq<Member>, k: nat)
    requires ValidMembers(ms) && k <= |ms|
    ensures NamesAreBytes(ms[..k])
  {
  }

  /** Where member k starts. */
  ghost function Off(ms: seq<Member>, k: nat): nat
    requires ValidMembers(ms) && k <= |ms|
  {
    BytesNamed(ms, k);
    |MembersBytes(ms[..k])|
  }

  ghost function BodyOff(ms: seq<Member>, k: nat): nat
    requires ValidMembers(ms) && k < |ms|
  {
    Off(ms, k) + HEADER_SIZE + NAlign(ms[k].header.namesize)
  }

  lemma {:induction false} BytesBefore(ms: seq<Member>, k: nat, n: nat) returns (rest: seq<byte>)
    requires ValidMembers(ms) && k <= n <= |ms|
    ensures NamesAreBytes(ms[..k]) && NamesAreBytes(ms[..n])
    ensures MembersBytes(ms[..n]) == MembersBytes(ms[..k]) + rest
    decreases n
  {
    hide MemberBytes;
    BytesNamed(ms, k);
    BytesNamed(ms, n);
    if k == n {
      rest := [];
    } else {
      var r := BytesBefore(ms, k, n - 1);
      assert ms[..n][..n - 1] == ms[..n - 1];
      rest := r + MemberBytes(ms[n - 1]);
    }
  }

  lemma NextOff(ms: seq<Member>, k: nat)
    requires ValidMembers(ms) && k < |ms|
    ensures NamesAreBytes(ms[..k]) && NamesAreBytes(ms[..k + 1])
    ensures MembersBytes(ms[..k + 1]) == MembersBytes(ms[..k]) + MemberBytes(ms[k])
    ensures Off(ms, k + 1) == Off(ms, k) + |MemberBytes(ms[k])| && Off(ms, k) % 4 == 0
  {
    hide MemberBytes;
    BytesNamed(ms, k);
    BytesNamed(ms, k + 1);
    assert ms[..k + 1][..k] == ms[..k];
  }

  /** Member k of an archive is found where it starts. */
  lemma MemberFound(dev: seq<byte>, ms: seq<Member>, k: nat)
    requires ValidMembers(ms) && NamesAreBytes(ms) && k < |ms| && Starts(dev, Padded(MembersBytes(ms)))
    ensures Slice(dev, Off(ms, k), |MemberBytes(ms[k])|) == MemberBytes(ms[k])
  {
    hide MemberBytes, MembersBytes, Starts;
    NextOff(ms, k);
    var rest := BytesBefore(ms, k + 1, |ms|);
    assert ms[..|ms|] == ms;
    var pad := Zeros(PadOf(|MembersBytes(ms)|));
    var pre, mid := MembersBytes(ms[..k]), MemberBytes(ms[k]);
    assert Padded(MembersBytes(ms)) == pre + mid + (rest + pad);
    Within(dev, Padded(MembersBytes(ms)), pre, mid, rest + pad);
  }

  /** What the reader does with the members from k on: it stops at the first one named like the trailer. */
  ghost function Replay(g: Graph, dev: seq<byte>, ms: seq<Member>, k: nat): (r: CpioReader.Result<Graph>)
    requires Closed(g) && ValidMembers(ms) && k <= |ms|
    ensures r.Ok? ==> Closed(r.value)
    decreases |ms| - k
  {
    if k == |ms| || ms[k].name == TRAILER_NAME then Ok(g)
    else
      match AddEntry(g, dev, ms[k].header, ms[k].name, BodyOff(ms, k))
      case Err(e) => Err(e)
      case Ok(g') => Replay(g', dev, ms, k + 1)
  }

  /** Reading an archive is replaying its members, whose last is the trailer. */
  lemma {:induction false} ReadIsReplay(g: Graph, dev: seq<byte>, ms: seq<Member>, k: nat)
    requires Closed(g) && ValidMembers(ms) && NamesAreBytes(ms) && Starts(dev, Padded(MembersBytes(ms)))
    requires k < |ms| && ms[|ms| - 1] == Trailer()
    ensures ReadFrom(g, dev, Off(ms, k)) == Replay(g, dev, ms, k)
    decreases |ms| - k
  {
    hide Slice, AddEntry, ParseHeader, TrimNul, MembersBytes, MemberBytes, Starts, NAlign, ValidMembers, Padded, Off;
    NextOff(ms, k);
    MemberFound(dev, ms, k);
    OneValidMember(ms, k);
    MemberParses(dev, Off(ms, k), ms[k]);
    if ms[k].name != TRAILER_NAME {
      match AddEntry(g, dev, ms[k].header, ms[k].name, BodyOff(ms, k)) {
        case Err(e) =>
        case Ok(g') =>
          if k + 1 < |ms| {
            ReadIsReplay(g', dev, ms, k + 1);
          }
      }
    }
  }

  lemma OneValidMember(ms: seq<Member>, k: nat)
    requires ValidMembers(ms) && k < |ms|
    ensures ValidMember(ms[k])
  {
  }

  // ----- The members of a run.

  ghost function Members(c: Run): seq<Member>
    requires Sound(c)
  {
    MembersOf(Strings(c.es), c.n, |c.es|) + [Trailer()]
  }

  lemma {:induction false} MemberIndex(c: Run, k: nat, i: nat)
    requires Sound(c) && i < k <= |c.es|
    ensures MembersOf(Strings(c.es), c.n, k)[i] == MemberAt(c, i)
    decreases k
  {
    hide MemberOf, Listing, Numbered, Consistent;
    if i < k - 1 {
      MemberIndex(c, k - 1, i);
    }
  }

  lemma {:induction false} FewOccurrences(es: seq<PathEntry>, k: Key)
    ensures Occurrences(es, k) <= |es|
    decreases |es|
  {
    if es != [] {
      FewOccurrences(es[..|es| - 1], k);
    }
  }

  lemma MemberOfValid(e: PathEntry, ino: nat, occ: nat, withBody: bool)
    requires Fits(e.node) && ino < TWO32 && occ < TWO32
    requires |e.path| + 1 < TWO32 && ByteString(e.path) && NoNul(e.path)
    ensures ValidMember(MemberOf(e, ino, occ, withBody))
  {
    hide ModeToUnix, ModeFromUnix;
    ModeRoundTrip(e.node.meta.mode);
  }

  lemma MemberValid(c: Run, i: nat)
    requires Sound(c) && i < |c.es|
    ensures ValidMember(MemberAt(c, i))
  {
    hide Listing, Consistent, Join, Occurrences, MemberOf, ValidMember, Fits;
    KnownKey(c, i);
    FittingEntry(c, i);
    FewOccurrences(Strings(c.es), KeyAt(c, i));
    var e := Strings(c.es)[i];
    assert |e.path| + 1 < TWO32 && ByteString(e.path) && NoNul(e.path);
    MemberOfValid(e, Ino(c, i), Occ(c, i), LastName(c, i) == i);
  }

  lemma TrailerValid()
    ensures ValidMember(Trailer())
  {
  }

  lemma MembersValid(c: Run)
    requires Sound(c)
    ensures |Members(c)| == |c.es| + 1 && ValidMembers(Members(c)) && NamesAreBytes(Members(c))
    ensures forall i :: 0 <= i < |c.es| ==> Members(c)[i] == MemberAt(c, i)
    ensures Members(c)[|c.es|] == Trailer()
  {
    hide Sound, MemberAt, MembersOf;
    forall i | 0 <= i < |c.es|
      ensures Members(c)[i] == MemberAt(c, i) && ValidMember(MemberAt(c, i))
    {
      MemberIndex(c, |c.es|, i);
      MemberValid(c, i);
    }
    TrailerValid();
  }

  /** Where the reader stops: the first entry named like the trailer, or the trailer itself. */
  ghost predicate StopsAt(c: Run, stop: nat) {
    && stop <= |c.es|
    && (forall i :: 0 <= i < stop ==> Join(c.es[i].path) != TRAILER_NAME)
    && (stop < |c.es| ==> Join(c.es[stop].path) == TRAILER_NAME)
  }

  lemma {:induction false} Replayed(c: Run, g: Graph, ptrs: seq<nat>, stop: nat) returns (g': Graph, all: seq<nat>)
    requires Sound(c) && Closed(g) && Built(c, g, ptrs) && |ptrs| <= stop && StopsAt(c, stop)
    requires ValidMembers(Members(c)) && NamesAreBytes(Members(c)) && Starts(c.dev, Padded(MembersBytes(Members(c))))
    ensures |Members(c)| == |c.es| + 1 && Replay(g, c.dev, Members(c), |ptrs|) == CpioReader.Ok(g')
    ensures |all| == stop && Built(c, g', all)
    decreases stop - |ptrs|
  {
    hide Sound, Built, Members, MemberAt, Slice, Closed, AddEntry, Starts, Padded, MembersBytes, MemberBytes,
         ValidMembers, NamesAreBytes, Off, NAlign;
    var k := |ptrs|;
    MembersValid(c);
    NameAt(c, k);
    if k == stop {
      g', all := g, ptrs;
    } else {
      MemberFound(c.dev, Members(c), k);
      NextOff(Members(c), k);
      MemberValid(c, k);
      MemberParses(c.dev, Off(Members(c), k), MemberAt(c, k));
      FitsBody(c, k);
      var mid, p := MemberAdded(c, g, ptrs, BodyOff(Members(c), k));
      BuiltIs(c, mid, ptrs + [p]);
      g', all := Replayed(c, mid, ptrs + [p], stop);
    }
  }

  lemma NameAt(c: Run, k: nat)
    requires Sound(c) && k <= |c.es|
    ensures k < |c.es| ==> MemberAt(c, k).name == Join(c.es[k].path)
    ensures Trailer().name == TRAILER_NAME
  {
    hide Sound, Join;
  }

  lemma FitsBody(c: Run, k: nat)
    requires Sound(c) && k < |c.es|
    ensures MemberAt(c, k).header.filesize == |MemberAt(c, k).body|
  {
    hide Sound, Join;
  }
}
