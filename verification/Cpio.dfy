/** pkg/cpio/header.go and const.go: newc headers and the bytes of an archive member. */
module CpioFormat {
  import opened Sizes
  import opened Modes
  import opened Options
  import opened Bytes
  import opened Text

  const HEADER_SIZE: nat := 110
  const PAD_TO: nat := 512
  const TRAILER_NAME: string := "TRAILER!!!"

  // ----- File modes.

  predicate ValidMode(m: Mode) {
    m.special < 8
  }

  /** The file type bits of st_mode, in units of 2^12. */
  function TypeCode(k: Kind): nat {
    match k
    case Socket => 12
    case Symlink => 10
    case Regular => 8
    case BlockDevice => 6
    case Dir => 4
    case CharDevice => 2
    case Fifo => 1
  }

  function KindOf(code: nat): Kind {
    match code
    case 4 => Dir
    case 10 => Symlink
    case 2 => CharDevice
    case 6 => BlockDevice
    case 1 => Fifo
    case 12 => Socket
    case _ => Regular
  }

  /** modeToUnix; the bits it ors together are disjoint. */
  function ModeToUnix(m: Mode): nat {
    m.perm + m.special * 0x200 + TypeCode(m.kind) * 0x1000
  }

  function ModeFromUnix(v: nat): Mode {
    Mode(KindOf(v / 0x1000 % 16), v % 0x200, v / 0x200 % 8)
  }

  lemma ModeRoundTrip(m: Mode)
    requires ValidMode(m)
    ensures ModeFromUnix(ModeToUnix(m)) == m && ModeToUnix(m) < TWO32
  {
    var v := ModeToUnix(m);
    assert v / 0x1000 == TypeCode(m.kind);
    assert v / 0x200 == m.special + TypeCode(m.kind) * 8;
  }

  // ----- Hexadecimal fields.

  function Digit(d: nat): byte
    requires d < 16
  {
    if d < 10 then 48 + d else 87 + d
  }

  /** A hexadecimal digit of either case. */
  function UnDigit(c: byte): Option<nat> {
    if 48 <= c <= 57 then Some(c - 48)
    else if 97 <= c <= 102 then Some(c - 87)
    else if 65 <= c <= 70 then Some(c - 55)
    else None
  }

  /** v in n digits, leading zeros included. */
  function Hex(v: nat, n: nat): (s: seq<byte>)
    ensures |s| == n
    decreases n, v
  {
    if n == 0 then [] else Hex(v / 16, n - 1) + [Digit(v % 16)]
  }

  function UnHex(s: seq<byte>): Option<nat> {
    if s == [] then Some(0)
    else
      var high, low := UnHex(s[..|s| - 1]), UnDigit(s[|s| - 1]);
      if high.None? || low.None? then None else Some(16 * high.value + low.value)
  }

  function Pow16(n: nat): nat {
    if n == 0 then 1 else 16 * Pow16(n - 1)
  }

  lemma {:induction false} UnHexOfHex(v: nat, n: nat)
    requires v < Pow16(n)
    ensures UnHex(Hex(v, n)) == Some(v)
    decreases n
  {
    if n > 0 {
      UnHexOfHex(v / 16, n - 1);
      var s := Hex(v, n);
      assert s[..n - 1] == Hex(v / 16, n - 1);
    }
  }

  lemma EightDigits(v: nat)
    requires v < TWO32
    ensures UnHex(Hex(v, 8)) == Some(v)
  {
    assert Pow16(4) == TWO16;
    assert Pow16(8) == TWO32;
    UnHexOfHex(v, 8);
  }

  // ----- Headers.

  datatype Header = Header(ino: nat, mode: nat, uid: nat, gid: nat, nlink: nat, mtime: nat, filesize: nat,
                           devmajor: nat, devminor: nat, rdevmajor: nat, rdevminor: nat, namesize: nat)
  {
    /** In archive order, the unused checksum last. */
    function Fields(): (f: seq<nat>)
      ensures |f| == 13
    {
      [ino, mode, uid, gid, nlink, mtime, filesize, devmajor, devminor, rdevmajor, rdevminor, namesize, 0]
    }

    predicate Fits() {
      forall i :: 0 <= i < 13 ==> Fields()[i] < TWO32
    }
  }

  /** 070701 */
  const MAGIC: seq<byte> := [48, 55, 48, 55, 48, 49]

  /** 070702, the checksummed variant, read but not written. */
  const MAGIC_CRC: seq<byte> := [48, 55, 48, 55, 48, 50]

  /** Eight digits for each value. */
  function HexAll(f: seq<nat>): (s: seq<byte>)
    ensures |s| == 8 * |f|
  {
    if f == [] then [] else HexAll(f[..|f| - 1]) + Hex(f[|f| - 1], 8)
  }

  function Marshalled(h: Header): (s: seq<byte>)
    ensures |s| == HEADER_SIZE
  {
    MAGIC + HexAll(h.Fields())
  }

  /** marshal. */
  method Marshal(h: Header) returns (b: seq<byte>)
    ensures b == Marshalled(h)
  {
    b := MAGIC;
    var f := h.Fields();
    assert f[..0] == [];
    for i := 0 to |f|
      invariant b == MAGIC + HexAll(f[..i])
    {
      assert f[..i + 1][..i] == f[..i];
      assert MAGIC + (HexAll(f[..i]) + Hex(f[i], 8)) == MAGIC + HexAll(f[..i]) + Hex(f[i], 8);
      b := b + Hex(f[i], 8);
    }
    assert f[..|f|] == f;
  }

  /** The text of a header: the magic number and thirteen fields of eight digits, in this order. */
  lemma HeaderText(h: Header)
    ensures var b := Marshalled(h);
      && b[..6] == [0x30, 0x37, 0x30, 0x37, 0x30, 0x31] && b[6..14] == Hex(h.ino, 8) && b[14..22] == Hex(h.mode, 8)
      && b[22..30] == Hex(h.uid, 8) && b[30..38] == Hex(h.gid, 8) && b[38..46] == Hex(h.nlink, 8)
      && b[46..54] == Hex(h.mtime, 8) && b[54..62] == Hex(h.filesize, 8) && b[62..70] == Hex(h.devmajor, 8)
      && b[70..78] == Hex(h.devminor, 8) && b[78..86] == Hex(h.rdevmajor, 8) && b[86..94] == Hex(h.rdevminor, 8)
      && b[94..102] == Hex(h.namesize, 8) && b[102..110] == Hex(0, 8)
  {
    assert Marshalled(h)[..6] == MAGIC;
    hide Hex, HexAll, Marshalled;
    FieldText(h, 0);
    FieldText(h, 1);
    FieldText(h, 2);
    FieldText(h, 3);
    FieldText(h, 4);
    FieldText(h, 5);
    FieldText(h, 6);
    FieldText(h, 7);
    FieldText(h, 8);
    FieldText(h, 9);
    FieldText(h, 10);
    FieldText(h, 11);
    FieldText(h, 12);
  }

  lemma FieldText(h: Header, i: nat)
    requires i < 13
    ensures Marshalled(h)[6 + 8 * i..14 + 8 * i] == Hex(h.Fields()[i], 8)
  {
    hide Hex, HexAll;
    var f := h.Fields();
    HexField(f, i);
    assert Marshalled(h)[6 + 8 * i..14 + 8 * i] == HexAll(f)[8 * i..8 * i + 8];
  }

  lemma {:induction false} HexField(f: seq<nat>, i: nat)
    requires i < |f|
    ensures HexAll(f)[8 * i..8 * i + 8] == Hex(f[i], 8)
    decreases |f|
  {
    hide Hex;
    var last := |f| - 1;
    if i < last {
      HexField(f[..last], i);
      assert HexAll(f)[8 * i..8 * i + 8] == HexAll(f[..last])[8 * i..8 * i + 8];
    }
  }

  /** The digits are lower case, and are read in either case. */
  lemma DigitsRead(d: nat)
    requires d < 16
    ensures Digit(d) == "0123456789abcdef"[d] as int
    ensures UnDigit("0123456789abcdef"[d] as int) == UnDigit("0123456789ABCDEF"[d] as int) == Some(d)
  {
  }

  datatype ParsedHeader = NotNewc | BadField | Parsed(header: Header)

  /** Field i of a header. */
  function FieldAt(b: seq<byte>, i: nat): Option<nat>
    requires |b| == HEADER_SIZE && i < 13
  {
    UnHex(b[6 + 8 * i..14 + 8 * i])
  }

  function ParseHeader(b: seq<byte>): ParsedHeader
    requires |b| == HEADER_SIZE
  {
    if b[..6] != MAGIC && b[..6] != MAGIC_CRC then NotNewc
    else if exists i :: 0 <= i < 13 && FieldAt(b, i).None? then BadField
    else
      Parsed(Header(FieldAt(b, 0).value, FieldAt(b, 1).value, FieldAt(b, 2).value, FieldAt(b, 3).value,
                    FieldAt(b, 4).value, FieldAt(b, 5).value, FieldAt(b, 6).value, FieldAt(b, 7).value,
                    FieldAt(b, 8).value, FieldAt(b, 9).value, FieldAt(b, 10).value, FieldAt(b, 11).value))
  }

  lemma {:induction false} HexAllAt(f: seq<nat>, i: nat)
    requires i < |f|
    ensures HexAll(f)[8 * i..8 * i + 8] == Hex(f[i], 8)
    decreases |f|
  {
    hide Hex;
    if i < |f| - 1 {
      HexAllAt(f[..|f| - 1], i);
      assert HexAll(f)[8 * i..8 * i + 8] == HexAll(f[..|f| - 1])[8 * i..8 * i + 8];
    }
  }

  lemma HeaderField(h: Header, i: nat)
    requires h.Fits() && i < 13
    ensures FieldAt(Marshalled(h), i) == Some(h.Fields()[i])
  {
    hide Hex, UnHex, HexAll;
    HexAllAt(h.Fields(), i);
    EightDigits(h.Fields()[i]);
    assert Marshalled(h)[6 + 8 * i..14 + 8 * i] == HexAll(h.Fields())[8 * i..8 * i + 8];
  }

  lemma HeaderRoundTrip(h: Header)
    requires h.Fits()
    ensures ParseHeader(Marshalled(h)) == Parsed(h)
  {
    hide FieldAt, HexAll;
    forall i: nat | i < 13
      ensures FieldAt(Marshalled(h), i) == Some(h.Fields()[i])
    {
      HeaderField(h, i);
    }
    assert Marshalled(h)[..6] == MAGIC;
    HeaderField(h, 0); HeaderField(h, 1); HeaderField(h, 2); HeaderField(h, 3); HeaderField(h, 4); HeaderField(h, 5);
    HeaderField(h, 6); HeaderField(h, 7); HeaderField(h, 8); HeaderField(h, 9); HeaderField(h, 10); HeaderField(h, 11);
  }

  // ----- Members.

  /** The size of the name region, so that header and name together are a multiple of four. */
  function NAlign(namesize: nat): (n: nat)
    ensures namesize <= n < namesize + 4 && (110 + n) % 4 == 0
  {
    (namesize + 1) / 4 * 4 + 2
  }

  /** An archive member: its header, its path and its body. */
  datatype Member = Member(header: Header, name: string, body: seq<byte>)

  predicate ValidMember(m: Member) {
    && m.header.Fits() && ByteString(m.name) && NoNul(m.name)
    && m.header.namesize == |m.name| + 1 && m.header.filesize == |m.body|
  }

  function NameRegion(name: string): (s: seq<byte>)
    requires ByteString(name)
    ensures |s| == NAlign(|name| + 1)
  {
    NameBytes(name) + Zeros(NAlign(|name| + 1) - |name|)
  }

  lemma Fours(a: nat, b: nat)
    requires a % 4 == 0 && b % 4 == 0
    ensures (a + b) % 4 == 0
  {
    DivUnique(a + b, 4, a / 4 + b / 4, 0);
  }

  /** Everything up to the next member; a member starts at a multiple of four. */
  function MemberBytes(m: Member): (s: seq<byte>)
    requires ByteString(m.name)
    ensures |s| % 4 == 0 && |s| >= HEADER_SIZE
  {
    Fours(HEADER_SIZE + NAlign(|m.name| + 1), Align4(|m.body|));
    Marshalled(m.header) + NameRegion(m.name) + m.body + Zeros(Align4(|m.body|) - |m.body|)
  }

  function Trailer(): Member {
    Member(Header(0, 0, 0, 0, 1, 0, 0, 0, 0, 0, 0, |TRAILER_NAME| + 1), TRAILER_NAME, [])
  }

  ghost predicate NamesAreBytes(ms: seq<Member>) {
    forall i :: 0 <= i < |ms| ==> ByteString(ms[i].name)
  }

  /** Members one after the other. */
  ghost function MembersBytes(ms: seq<Member>): (s: seq<byte>)
    requires NamesAreBytes(ms)
    ensures |s| % 4 == 0
  {
    if ms == [] then []
    else
      Fours(|MembersBytes(ms[..|ms| - 1])|, |MemberBytes(ms[|ms| - 1])|);
      MembersBytes(ms[..|ms| - 1]) + MemberBytes(ms[|ms| - 1])
  }
}
