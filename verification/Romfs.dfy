/** pkg/romfs: file headers, and the tree a reader finds by following them. */
module RomfsFormat {
  import opened Sizes
  import opened Modes
  import opened Names
  import opened Bytes
  import opened Text
  import opened Files
  import Words

  const HEADER: nat := 16
  const MAX_NAME: nat := 256
  const FLAG_EXEC: nat := 8
  const TYPE_HARDLINK: nat := 0
  const TYPE_DIR: nat := 1

  function AlignUp(v: nat): (r: nat)
    ensures v <= r < v + 16 && r % 16 == 0
  {
    (v + 15) / 16 * 16
  }

  function PaddedName(name: string): (r: nat)
    ensures |name| < r <= |name| + 16 && r % 16 == 0
  {
    AlignUp(|name| + 1)
  }

  /** An offset without its flag bits. */
  function Mask(v: nat): (r: nat)
    ensures r <= v && r % 16 == 0
  {
    v / 16 * 16
  }

  // ----- Types.

  function TypeOf(k: Kind): nat {
    match k
    case Dir => 1
    case Regular => 2
    case Symlink => 3
    case BlockDevice => 4
    case CharDevice => 5
    case Socket => 6
    case Fifo => 7
  }

  /** Any of the three execute bits. */
  predicate Executable(p: Perm) {
    p % 2 == 1 || p / 8 % 2 == 1 || p / 64 % 2 == 1
  }

  function ModeOf(typ: nat, exec: bool): Mode {
    match typ
    case 1 => Mode(Dir, 0x1ED, 0)
    case 3 => Mode(Symlink, 0x1FF, 0)
    case 4 => Mode(BlockDevice, 0x1A4, 0)
    case 5 => Mode(CharDevice, 0x1A4, 0)
    case 6 => Mode(Socket, 0x1A4, 0)
    case 7 => Mode(Fifo, 0x1A4, 0)
    case _ => if exec then Mode(Regular, 0x1ED, 0) else Mode(Regular, 0x1A4, 0)
  }

  // ----- The checksum.

  /** The big-endian words of s, added up. */
  function SumWords(s: seq<byte>): nat {
    if |s| < 4 then 0 else UnBE(s[..4]) + SumWords(s[4..])
  }

  /** What makes the words sum to zero in 32 bits. */
  function Checksum(s: seq<byte>): (r: nat)
    ensures r < TWO32
  {
    (0 - SumWords(s)) % TWO32
  }

  /** fixChecksum on a header whose checksum field is zero. */
  function WithChecksum(raw: seq<byte>): (s: seq<byte>)
    requires |raw| >= HEADER
    ensures |s| == |raw|
  {
    raw[..12] + BE(Checksum(raw), 4) + raw[16..]
  }

  lemma {:induction false} SumAppend(a: seq<byte>, b: seq<byte>)
    requires |a| % 4 == 0
    ensures SumWords(a + b) == SumWords(a) + SumWords(b)
    decreases |a|
  {
    if a == [] {
      assert a + b == b;
    } else {
      assert (a + b)[..4] == a[..4] && (a + b)[4..] == a[4..] + b;
      SumAppend(a[4..], b);
    }
  }

  lemma OneWord(s: seq<byte>)
    requires |s| == 4
    ensures SumWords(s) == UnBE(s)
  {
    assert s[..4] == s && s[4..] == [];
  }

  /** A checked header sums to zero. */
  lemma ChecksumZeroes(raw: seq<byte>)
    requires |raw| >= HEADER && raw[12..16] == Zeros(4)
    ensures SumWords(WithChecksum(raw)) % TWO32 == 0
  {
    hide SumWords, UnBE, BE;
    var a, z, c, r := raw[..12], Zeros(4), BE(Checksum(raw), 4), raw[16..];
    assert raw == a + (z + r);
    assert WithChecksum(raw) == a + (c + r);
    SumAppend(a, z + r);
    SumAppend(z, r);
    SumAppend(a, c + r);
    SumAppend(c, r);
    OneWord(z);
    OneWord(c);
    Widths();
    UnBEOfBE(Checksum(raw), 4);
    UnBEOfBE(0, 4);
    assert BE(0, 4) == z by {
      FourZeros();
    }
    var s := SumWords(raw);
    Negated(s);
  }

  lemma FourZeros()
    ensures BE(0, 4) == Zeros(4)
  {
    assert BE(0, 1) == [0];
    assert BE(0, 2) == [0, 0];
    assert BE(0, 3) == [0, 0, 0];
    assert BE(0, 4) == [0, 0, 0, 0];
  }

  lemma Negated(s: nat)
    ensures ((0 - s) % TWO32 + s) % TWO32 == 0 && (0 - s) % TWO32 % TWO32 == (0 - s) % TWO32
  {
  }

  // ----- Headers.

  /** A file header and its name, checksum included. */
  function EntryBytes(name: string, next: nat, flags: nat, spec: nat, size: nat): (s: seq<byte>)
    requires ByteString(name)
    ensures |s| == HEADER + PaddedName(name)
  {
    WithChecksum(RawEntry(name, next, flags, spec, size))
  }

  function RawEntry(name: string, next: nat, flags: nat, spec: nat, size: nat): (s: seq<byte>)
    requires ByteString(name)
    ensures |s| == HEADER + PaddedName(name)
  {
    BE(Mask(next) + flags, 4) + BE(spec, 4) + BE(size,
        4) + Zeros(4) + NameBytes(name) + Zeros(PaddedName(name) - |name|)
  }

  lemma EntrySums(name: string, next: nat, flags: nat, spec: nat, size: nat)
    requires ByteString(name)
    ensures SumWords(EntryBytes(name, next, flags, spec, size)) % TWO32 == 0
  {
    hide SumWords, BE;
    ChecksumZeroes(RawEntry(name, next, flags, spec, size));
  }

  datatype Head = Head(next: nat, spec: nat, size: nat)
  {
    function Type(): nat {
      next % 8
    }

    predicate Exec() {
      next / 8 % 2 == 1
    }
  }

  function HeadAt(dev: seq<byte>, off: nat): Head {
    Head(Get(Big, dev, off, 4), Get(Big, dev, off + 4, 4), Get(Big, dev, off + 8, 4))
  }

  function NameAt(dev: seq<byte>, off: nat): string {
    TrimNul(Slice(dev, off % TWO32, MAX_NAME))
  }

  /** A header as it stands on the device. */
  ghost predicate EntryAt(dev: seq<byte>, off: nat, name: string, next: nat, flags: nat, spec: nat, size: nat) {
    && ByteString(name) && off + HEADER + PaddedName(name) < TWO32
    && Slice(dev, off, HEADER + PaddedName(name)) == EntryBytes(name, next, flags, spec, size)
  }

  lemma EntryFields(name: string, next: nat, flags: nat, spec: nat, size: nat)
    requires ByteString(name) && next < TWO32 && flags < 16 && spec < TWO32 && size < TWO32
    ensures var s := EntryBytes(name, next, flags, spec, size);
      && s[..4] == BE(Mask(next) + flags, 4) && s[4..8] == BE(spec, 4) && s[8..12] == BE(size, 4)
      && s[16..] == NameBytes(name) + Zeros(PaddedName(name) - |name|)
  {
    hide BE, SumWords, Zeros, NameBytes;
    var raw, n := RawEntry(name, next, flags, spec, size), NameBytes(name) + Zeros(PaddedName(name) - |name|);
    var a, b, c, z := BE(Mask(next) + flags, 4), BE(spec, 4), BE(size, 4), Zeros(4);
    assert raw == a + b + c + z + n;
    assert raw[..12] == a + b + c && raw[16..] == n;
  }

  /** The fields of a header read back. */
  lemma HeadReads(dev: seq<byte>, off: nat, name: string, next: nat, flags: nat, spec: nat, size: nat)
    requires EntryAt(dev, off, name, next, flags, spec, size)
    requires next < TWO32 && next % 16 == 0 && flags < 16 && spec < TWO32 && size < TWO32
    ensures HeadAt(dev, off) == Head(next + flags, spec, size)
  {
    hide BE, UnBE, Slice, EntryBytes;
    EntryFields(name, next, flags, spec, size);
    var s := EntryBytes(name, next, flags, spec, size);
    Widths();
    FieldIs(dev, off, s, 0, next + flags);
    FieldIs(dev, off, s, 4, spec);
    FieldIs(dev, off, s, 8, size);
  }

  lemma FieldIs(dev: seq<byte>, off: nat, s: seq<byte>, k: nat, v: nat)
    requires Slice(dev, off, |s|) == s && k + 4 <= |s| && s[k..k + 4] == BE(v, 4) && v < TWO32
    ensures Get(Big, dev, off + k, 4) == v
  {
    hide BE, UnBE;
    Widths();
    UnBEOfBE(v, 4);
    SubSlice(dev, off, s, k, 4);
  }

  /** What the reader makes of a name: at most its first 256 bytes, up to the first NUL. */
  function Shown(name: string): (r: string)
    ensures |r| <= MAX_NAME && NoNul(r) && r <= name
  {
    UpToNul(if |name| <= MAX_NAME then name else name[..MAX_NAME])
  }

  /** The names that are read as they were written. */
  predicate Fits(name: string) {
    NoNul(name) && |name| <= MAX_NAME
  }

  lemma ShownIsName(name: string)
    ensures Shown(name) == name <==> Fits(name)
  {
  }

  /** A padded name, read back from where it was written. */
  lemma PaddedNameReads(dev: seq<byte>, off: nat, name: string)
    requires ByteString(name) && off < TWO32
    requires Slice(dev, off, PaddedName(name)) == NameBytes(name) + Zeros(PaddedName(name) - |name|)
    ensures NameAt(dev, off) == Shown(name)
  {
    hide TrimNul, Slice, NameAt, Shown, PaddedName, NameBytes;
    var padded := PaddedName(name);
    assert padded > |name|;
    if |name| < MAX_NAME {
      ShortNameReads(dev, off, name, padded);
    } else {
      LongNameReads(dev, off, name, padded);
    }
  }

  lemma ShortNameReads(dev: seq<byte>, off: nat, name: string, padded: nat)
    requires ByteString(name) && off < TWO32 && |name| < MAX_NAME && |name| < padded <= MAX_NAME
    requires Slice(dev, off, padded) == NameBytes(name) + Zeros(padded - |name|)
    ensures NameAt(dev, off) == Shown(name)
  {
    hide TrimNul, Slice, NameBytes;
    var z := Zeros(padded - |name|);
    SliceConcat(dev, off, padded, MAX_NAME - padded);
    var rest := Slice(dev, off + padded, MAX_NAME - padded);
    assert NameBytes(name) + z + rest == NameBytes(name) + (z + rest);
    TrimNulOfString(name, z + rest);
  }

  lemma LongNameReads(dev: seq<byte>, off: nat, name: string, padded: nat)
    requires ByteString(name) && off < TWO32 && |name| >= MAX_NAME && padded > |name|
    requires Slice(dev, off, padded) == NameBytes(name) + Zeros(padded - |name|)
    ensures NameAt(dev, off) == Shown(name)
  {
    hide TrimNul, Slice;
    var n := NameBytes(name) + Zeros(padded - |name|);
    SubSlice(dev, off, n, 0, MAX_NAME);
    var head := name[..MAX_NAME];
    assert n[0..MAX_NAME] == NameBytes(head) + [];
    assert |name| == MAX_NAME ==> head == name;
    TrimNulOfString(head, []);
  }

  lemma NameReads(dev: seq<byte>, off: nat, name: string, next: nat, flags: nat, spec: nat, size: nat)
    requires EntryAt(dev, off, name, next, flags, spec, size)
    requires next < TWO32 && flags < 16 && spec < TWO32 && size < TWO32
    ensures NameAt(dev, off + HEADER) == Shown(name)
  {
    hide BE, EntryBytes, NameAt, Slice, Shown;
    EntryFields(name, next, flags, spec, size);
    var s := EntryBytes(name, next, flags, spec, size);
    SubSlice(dev, off, s, HEADER, PaddedName(name));
    assert s[HEADER..HEADER + PaddedName(name)] == s[16..];
    PaddedNameReads(dev, off + HEADER, name);
  }

  // ----- The reader.

  /** A node as the reader builds it. */
  datatype Found = Found(mode: Mode, link: string, rdev: nat, content: seq<byte>, kids: seq<(string, Found)>)

  datatype Outcome<T> = Read(value: T) | BadName | OutOfFuel

  /** Every place a header can be. */
  function Places(): set<nat> {
    set i: nat | i < TWO32 && i % 16 == 0
  }

  /** readDir from a header on: off is where the chain continues, seen the headers passed, fuel how
      deep directories and hard links are followed. */
  function ReadChain(dev: seq<byte>, off: nat, seen: set<nat>, fuel: nat): Outcome<seq<(string, Found)>>
    requires off < TWO32 && off % 16 == 0
    decreases fuel, 1, Places() - seen
  {
    if off == 0 || off in seen then Read([])
    else
      assert off in Places();
      var h, name := HeadAt(dev, off), NameAt(dev, off + HEADER);
      HeadFits(dev, off);
      if name == "." || name == ".." || name == "" then ReadChain(dev, Mask(h.next), seen + {off}, fuel)
      else
        var n := ReadNode(dev, off, name, fuel);
        if !n.Read? then Failed(n)
        else if !ValidName(name) then BadName
        else
          var rest := ReadChain(dev, Mask(h.next), seen + {off}, fuel);
          if !rest.Read? then rest else Read([(name, n.value)] + rest.value)
  }

  function Failed<A, B>(o: Outcome<A>): Outcome<B>
    requires !o.Read?
  {
    if o.BadName? then BadName else OutOfFuel
  }

  lemma HeadFits(dev: seq<byte>, off: nat)
    ensures HeadAt(dev, off).next < TWO32 && HeadAt(dev, off).spec < TWO32
  {
    hide Slice;
    FourBytes(Slice(dev, off, 4));
    FourBytes(Slice(dev, off + 4, 4));
  }

  lemma FourBytes(s: seq<byte>)
    requires |s| == 4
    ensures UnBE(s) < TWO32
  {
    var a, b, c := s[..3], s[..3][..2], s[..3][..2][..1];
    assert UnBE(c) == c[0] by {
      assert c[..0] == [];
    }
    assert UnBE(b) == 256 * UnBE(c) + b[1];
    assert UnBE(a) == 256 * UnBE(b) + a[2];
    assert UnBE(s) == 256 * UnBE(a) + s[3];
  }

  /** node: the data of a hard link's target is sought behind the name of the link. */
  function ReadNode(dev: seq<byte>, off: nat, name: string, fuel: nat): Outcome<Found>
    decreases fuel, 0
  {
    var h := HeadAt(dev, off);
    HeadFits(dev, off);
    if h.Type() == TYPE_HARDLINK then
      if fuel == 0 then OutOfFuel else ReadNode(dev, Mask(h.spec), name, fuel - 1)
    else
      var mode, data := ModeOf(h.Type(), h.Exec()), (off + HEADER + PaddedName(name)) % TWO32;
      match mode.kind
      case Dir =>
        if fuel == 0 then OutOfFuel
        else
          var kids := ReadChain(dev, Mask(h.spec), {}, fuel - 1);
          if kids.Read? then Read(Found(mode, "", 0, [], kids.value)) else Failed(kids)
      case Symlink => Read(Found(mode, StringOf(Slice(dev, data, h.size)), 0, [], []))
      case CharDevice => Read(Found(mode, "", DeviceOf(h.spec), [], []))
      case BlockDevice => Read(Found(mode, "", DeviceOf(h.spec), [], []))
      case Fifo => Read(Found(mode, "", 0, [], []))
      case Socket => Read(Found(mode, "", 0, [], []))
      case Regular => Read(Found(mode, "", 0, Slice(dev, data, h.size), []))
  }

  /** uint64(spec>>16)<<8 | uint64(spec&0xffff) */
  function DeviceOf(spec: nat): nat {
    Words.Or(spec / TWO16 * 256, spec % TWO16, Words.WIDTH)
  }

  /** A device number keeps 16 bits of its major and 8 of its minor. */
  lemma DeviceReads(rdev: nat)
    ensures DeviceOf(DeviceSpec(rdev)) == rdev % TWO24
  {
    hide Words.Or, Pow2;
    var high, minor := rdev / 256, rdev % 256;
    var major := high % TWO16;
    DivUnique(major * TWO16 + minor, TWO16, major, minor);
    assert rdev == high * 256 + minor && high == high / TWO16 * TWO16 + major;
    DivUnique(rdev, TWO24, high / TWO16, major * 256 + minor);
    Words.AllOnesValue();
    Words.OrOfHigh(256, major, minor, Words.WIDTH);
    assert major * 256 == 256 * major;
  }

  /** major<<16 | minor, in 32 bits. */
  function DeviceSpec(rdev: nat): (r: nat)
    ensures r < TWO32
  {
    rdev / 256 % TWO16 * TWO16 + rdev % 256
  }

  /** readDir, for a walk that ends: the chain by the headers already seen, the descent within fuel. */
  method ReadDir(dev: File, start: nat, ghost fuel: nat) returns (r: Outcome<seq<(string, Found)>>)
    requires start < TWO32 && start % 16 == 0 && ReadChain(dev.data, start, {}, fuel) != OutOfFuel
    ensures r == ReadChain(dev.data, start, {}, fuel)
    decreases fuel, 1
  {
    hide HeadAt, NameAt, ReadNode, ValidName;
    var off: nat := start;
    var seen: set<nat> := {};
    var kids: seq<(string, Found)> := [];
    ghost var goal := ReadChain(dev.data, start, {}, fuel);
    Prepended(kids, goal);
    while off != 0
      invariant off < TWO32 && off % 16 == 0
      invariant goal == Prepend(kids, ReadChain(dev.data, off, seen, fuel)) && goal != OutOfFuel
      decreases Places() - seen
    {
      if off in seen {
        break; // a malformed cycle
      }
      var h, name := HeadAt(dev.data, off), NameAt(dev.data, off + HEADER);
      HeadFits(dev.data, off);
      assert off in Places();
      if name != "." && name != ".." && name != "" {
        var n := Node(dev, off, name, fuel);
        if !n.Read? {
          return Failed(n);
        }
        if !ValidName(name) {
          return BadName;
        }
        PrependMore(kids, (name, n.value), ReadChain(dev.data, Mask(h.next), seen + {off}, fuel));
        kids := kids + [(name, n.value)];
      }
      seen := seen + {off};
      off := Mask(h.next);
    }
    Prepended(kids, goal);
    return Read(kids);
  }

  function Prepend(a: seq<(string, Found)>, r: Outcome<seq<(string, Found)>>): Outcome<seq<(string, Found)>> {
    if r.Read? then Read(a + r.value) else r
  }

  lemma Prepended(a: seq<(string, Found)>, r: Outcome<seq<(string, Found)>>)
    ensures Prepend([], r) == r && Prepend(a, Read([])) == Read(a)
  {
    assert a + [] == a;
    if r.Read? {
      assert [] + r.value == r.value;
    }
  }

  lemma PrependMore(a: seq<(string, Found)>, k: (string, Found), r: Outcome<seq<(string, Found)>>)
    ensures Prepend(a, if r.Read? then Read([k] + r.value) else r) == Prepend(a + [k], r)
  {
    if r.Read? {
      assert a + ([k] + r.value) == a + [k] + r.value;
    }
  }

  /** node. */
  method Node(dev: File, off: nat, name: string, ghost fuel: nat) returns (r: Outcome<Found>)
    requires ReadNode(dev.data, off, name, fuel) != OutOfFuel
    ensures r == ReadNode(dev.data, off, name, fuel)
    decreases fuel, 0
  {
    hide HeadAt, ReadChain, Slice, StringOf, DeviceOf, ModeOf, PaddedName;
    var h := HeadAt(dev.data, off);
    HeadFits(dev.data, off);
    if h.Type() == TYPE_HARDLINK {
      r := Node(dev, Mask(h.spec), name, fuel - 1);
      return;
    }
    var mode, data := ModeOf(h.Type(), h.Exec()), (off + HEADER + PaddedName(name)) % TWO32;
    match mode.kind {
      case Dir =>
        var kids := ReadDir(dev, Mask(h.spec), fuel - 1);
        return if kids.Read? then Read(Found(mode, "", 0, [], kids.value)) else Failed(kids);
      case Symlink =>
        var target := dev.Read(data, h.size);
        return Read(Found(mode, StringOf(target), 0, [], []));
      case CharDevice => return Read(Found(mode, "", DeviceOf(h.spec), [], []));
      case BlockDevice => return Read(Found(mode, "", DeviceOf(h.spec), [], []));
      case Fifo => return Read(Found(mode, "", 0, [], []));
      case Socket => return Read(Found(mode, "", 0, [], []));
      case Regular =>
        var content := dev.Read(data, h.size);
        return Read(Found(mode, "", 0, content, []));
    }
  }
}
