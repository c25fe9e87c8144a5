/** pkg/cpio/writer.go: streaming an archive to a device. */
module CpioArchive {
  import opened Modes
  import opened Bytes
  import opened Text
  import opened Files
  import opened CpioFormat
  import opened CpioWriter

  const CHUNK: nat := 65536

  /** The whole archive, zero-padded to a multiple of 512. */
  ghost function ArchiveBytes(ms: seq<Member>): (s: seq<byte>)
    requires NamesAreBytes(ms)
  {
    Padded(MembersBytes(ms) + MemberBytes(Trailer()))
  }

  function Padded(s: seq<byte>): (p: seq<byte>)
    ensures |p| % 512 == 0 && |s| <= |p| < |s| + 512 && p[..|s|] == s && p[|s|..] == Zeros(|p| - |s|)
  {
    PadFits(|s|);
    s + Zeros(PadOf(|s|))
  }

  function PadOf(n: nat): nat {
    if n % PAD_TO == 0 then 0 else PAD_TO - n % PAD_TO
  }

  lemma PadFits(n: nat)
    ensures (n + PadOf(n)) % PAD_TO == 0
  {
  }

  class CWriter {
    const dev: File
    var pos: nat
    ghost var out: seq<byte>

    ghost predicate Valid()
      reads this, dev
    {
      |out| == pos && Slice(dev.data, 0, pos) == out
    }

    constructor (dev: File)
      ensures Valid() && this.dev == dev && out == []
    {
      this.dev := dev;
      pos, out := 0, [];
    }

    method Write(p: seq<byte>)
      requires Valid()
      modifies this, dev
      ensures Valid() && out == old(out) + p
    {
      SliceElsewhere(dev.data, p, pos, 0, pos);
      SliceOfWrite(dev.data, p, pos);
      dev.WriteAt(p, pos);
      SliceConcat(dev.data, 0, pos, |p|);
      pos := pos + |p|;
      out := out + p;
    }

    method WritePad(n: nat)
      requires Valid()
      modifies this, dev
      ensures Valid() && out == old(out) + Zeros(n)
    {
      if n > 0 {
        Write(Zeros(n));
      } else {
        assert Zeros(0) == [];
      }
    }

    method Pad4(ghost body: seq<byte>)
      requires Valid() && |body| <= |out| && (|out| - |body|) % 4 == 0
      modifies this, dev
      ensures Valid() && out == old(out) + Zeros(Align4(|body|) - |body|) && pos % 4 == 0
    {
      var rem := pos % 4;
      SameRest(pos, |body|);
      if rem != 0 {
        WritePad(4 - rem);
      } else {
        assert out + Zeros(0) == out;
      }
    }

    method WriteName(name: string)
      requires Valid() && ByteString(name)
      modifies this, dev
      ensures Valid() && out == old(out) + NameRegion(name)
    {
      var n := NameBytes(name) + [0];
      Write(n);
      WritePad(NAlign(|n|) - |n|);
      assert [0] + Zeros(NAlign(|n|) - |n|) == Zeros(NAlign(|name| + 1) - |name|);
    }

    method StreamContent(content: seq<byte>)
      requires Valid()
      modifies this, dev
      ensures Valid() && out == old(out) + content
    {
      var off := 0;
      while off < |content|
        invariant 0 <= off <= |content| && Valid() && out == old(out) + content[..off]
      {
        var n := Lesser(CHUNK, |content| - off);
        assert content[..off] + content[off..off + n] == content[..off + n];
        Write(content[off..off + n]);
        off := off + n;
      }
      assert content[..off] == content;
    }

    method WriteEntry(e: PathEntry, ino: nat, occ: nat, withBody: bool)
      requires Valid() && pos % 4 == 0 && Fits(e.node) && ByteString(e.path)
      modifies this, dev
      ensures Valid() && pos % 4 == 0
      ensures out == old(out) + MemberBytes(MemberOf(e, ino, occ, withBody))
    {
      hide Marshalled, NameRegion, Align4, ModeToUnix, MemberOf, MemberBytes, Zeros, NameBytes, Fits, Slice;
      MemberParts(e, ino, occ, withBody);
      ghost var m := MemberOf(e, ino, occ, withBody);
      WriteHead(e, ino, occ, withBody);
      ghost var head := out;
      NothingToPad();
      if e.node.Leaf? && e.node.meta.mode.kind == Symlink {
        Write(NameBytes(e.node.link));
        Pad4(m.body);
      } else if e.node.Leaf? && e.node.meta.mode.kind == Regular && withBody {
        StreamContent(e.node.content);
        Pad4(m.body);
      }
      assert out == head + m.body + Zeros(Align4(|m.body|) - |m.body|);
      MemberIs(old(out), m);
    }

    method WriteHead(e: PathEntry, ino: nat, occ: nat, withBody: bool)
      requires Valid() && pos % 4 == 0 && Fits(e.node) && ByteString(e.path)
      modifies this, dev
      ensures Valid() && pos % 4 == 0
      ensures out == old(out) + (Marshalled(MemberOf(e, ino, occ, withBody).header) + NameRegion(e.path))
    {
      hide Marshalled, NameRegion, MemberOf, Fits;
      var h := HeaderOf(e, ino, occ, withBody);
      var b := Marshal(h);
      Write(b);
      WriteName(e.path);
      HeadAligned(h, e.path);
    }

    lemma MemberParts(e: PathEntry, ino: nat, occ: nat, withBody: bool)
      requires Fits(e.node) && ByteString(e.path)
      ensures var m, t := MemberOf(e, ino, occ, withBody), e.node;
        && m.name == e.path
        && (t.Leaf? ==> ByteString(t.link))
        && m.body ==
           if t.Leaf? && t.meta.mode.kind == Symlink then NameBytes(t.link)
           else if t.Leaf? && t.meta.mode.kind == Regular && withBody then t.content
           else []
    {
    }

    /** The header of one name, field by field as writeEntry fills it. */
    method HeaderOf(e: PathEntry, ino: nat, occ: nat, withBody: bool) returns (h: Header)
      requires Fits(e.node)
      ensures h == MemberOf(e, ino, occ, withBody).header
    {
      var t := e.node;
      var kind := t.meta.mode.kind;
      var filesize := 0;
      if t.Leaf? && kind == Symlink {
        filesize := |t.link|;
      } else if t.Leaf? && kind == Regular && withBody {
        filesize := |t.content|;
      }
      h := Header(ino, ModeToUnix(t.meta.mode), t.meta.uid, t.meta.gid, occ, t.meta.mtime, filesize, 0, 0, 0, 0,
          |e.path| + 1);
      if t.Folder? {
        h := h.(nlink := t.nlink);
      }
      if t.Leaf? && (kind == CharDevice || kind == BlockDevice) {
        h := h.(rdevmajor := t.rdev / 256, rdevminor := t.rdev % 256);
      }
    }

    method PadArchive()
      requires Valid()
      modifies this, dev
      ensures Valid() && out == Padded(old(out))
    {
      var rem := pos % PAD_TO;
      if rem != 0 {
        WritePad(PAD_TO - rem);
      } else {
        assert out + Zeros(0) == out;
      }
    }

    method WriteMembers(entries: seq<PathEntry>, n: Numbers)
      requires Valid() && out == [] && AllFit(entries) && KeysKnown(entries, n)
      modifies this, dev
      ensures Valid()
      ensures NamesAreBytes(MembersOf(entries, n, |entries|)) && out == MembersBytes(MembersOf(entries, n, |entries|))
    {
      hide MemberOf, MemberBytes, MembersOf, MembersBytes, NamesAreBytes, Fits, ByteString, Slice;
      NoMembers(entries, n);
      for i := 0 to |entries|
        invariant Valid() && pos % 4 == 0
        invariant NamesAreBytes(MembersOf(entries, n, i)) && out == MembersBytes(MembersOf(entries, n, i))
      {
        MembersMore(entries, n, i);
        var key := KeyOf(entries[i]);
        WriteEntry(entries[i], n.ino[key], n.occ[key], n.last[key] == i);
      }
    }

    method WriteArchive(root: Tree) returns (ghost es: seq<PathEntry>, ghost n: Numbers)
      requires Valid() && out == [] && root.Folder? && GoodNames(root)
      requires AllFit(Strings(Collect(root, [])))
      modifies this, dev
      ensures Valid() && es == Strings(Collect(root, [])) && Numbered(es, n) && KeysKnown(es, n)
      ensures NamesAreBytes(MembersOf(es, n, |es|)) && out == ArchiveBytes(MembersOf(es, n, |es|))
    {
      hide MembersOf, MembersBytes, NamesAreBytes, Numbered, Strings, Collect, KeysKnown, GoodNames, AllFit, Padded,
           MemberBytes;
      var entries := CollectInto(root, "", [], []);
      assert [] + Strings(Collect(root, [])) == Strings(Collect(root, []));
      var numbers := Number(entries);
      NumberedKeys(entries, numbers);
      es, n := entries, numbers;
      WriteMembers(entries, numbers);
      WriteTrailer();
      PadArchive();
    }

    method WriteTrailer()
      requires Valid()
      modifies this, dev
      ensures Valid() && out == old(out) + MemberBytes(Trailer())
    {
      hide Marshalled, NameRegion;
      var b := Marshal(Trailer().header);
      Write(b);
      WriteName(TRAILER_NAME);
      NothingToPad();
      MemberIs(old(out), Trailer());
    }
  }

  lemma SameRest(pos: nat, n: nat)
    requires n <= pos && (pos - n) % 4 == 0
    ensures n % 4 == pos % 4
    ensures pos % 4 == 0 ==> Align4(n) == n
    ensures pos % 4 != 0 ==> Align4(n) == n + 4 - pos % 4 && (pos + 4 - pos % 4) % 4 == 0
  {
    var q, r := n / 4, n % 4;
    DivUnique(pos, 4, (pos - n) / 4 + q, r);
    if r == 0 {
      DivUnique(n + 3, 4, q, 3);
    } else {
      DivUnique(n + 3, 4, q + 1, r - 1);
      DivUnique(pos + 4 - r, 4, pos / 4 + 1, 0);
    }
  }

  lemma NothingToPad()
    ensures Align4(0) == 0 && Zeros(0) == []
  {
  }

  lemma HeadAligned(h: Header, name: string)
    requires ByteString(name)
    ensures |Marshalled(h) + NameRegion(name)| % 4 == 0
  {
    hide Marshalled;
  }

  lemma MemberIs(was: seq<byte>, m: Member)
    requires ByteString(m.name)
    ensures was + (Marshalled(m.header) + NameRegion(m.name)) + m.body + Zeros(Align4(|m.body|) - |m.body|) ==
            was + MemberBytes(m)
  {
  }

  lemma NumberedKeys(es: seq<PathEntry>, n: Numbers)
    requires Numbered(es, n)
    ensures KeysKnown(es, n)
  {
  }

  lemma NoMembers(es: seq<PathEntry>, n: Numbers)
    requires AllFit(es) && KeysKnown(es, n)
    ensures NamesAreBytes(MembersOf(es, n, 0)) && MembersBytes(MembersOf(es, n, 0)) == []
  {
  }

  lemma MembersMore(es: seq<PathEntry>, n: Numbers, i: nat)
    requires AllFit(es) && KeysKnown(es, n) && i < |es| && NamesAreBytes(MembersOf(es, n, i))
    ensures Fits(es[i].node) && ByteString(es[i].path)
    ensures var key := KeyOf(es[i]);
      var m := MemberOf(es[i], n.ino[key], n.occ[key], n.last[key] == i);
      && MembersOf(es, n, i + 1) == MembersOf(es, n, i) + [m] && ByteString(m.name)
        && NamesAreBytes(MembersOf(es, n, i + 1))
      && MembersBytes(MembersOf(es, n, i + 1)) == MembersBytes(MembersOf(es, n, i)) + MemberBytes(m)
  {
    hide MemberBytes, Fits, KeyOf;
    assert MembersOf(es, n, i + 1)[..i] == MembersOf(es, n, i);
  }
}
