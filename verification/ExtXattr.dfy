/** pkg/ext/xattr.go: extended attributes, entries growing up and values growing down. */
module ExtXattr {
  import opened Sizes
  import opened Options
  import opened Names
  import opened Bytes
  import opened Text

  const ENTRY: nat := 16

  // ----- Names.

  datatype Prefix = Prefix(index: byte, text: string)

  /** In the order they are tried: the longest match first. */
  const PREFIXES: seq<Prefix> :=
    [Prefix(2, "system.posix_acl_access"), Prefix(3, "system.posix_acl_default"), Prefix(8, "system.richacl"),
     Prefix(1, "user."), Prefix(4, "trusted."), Prefix(6, "security."), Prefix(7, "system.")]

  predicate StartsWith(s: string, p: string) {
    |p| <= |s| && s[..|p|] == p
  }

  predicate EndsWithDot(p: string) {
    p != "" && p[|p| - 1] == '.'
  }

  datatype Entry = Entry(index: byte, name: string, value: seq<byte>)

  /** splitXattrName, from prefix k on. */
  function SplitFrom(name: string, k: nat): (byte, string)
    decreases |PREFIXES| - k
  {
    if k >= |PREFIXES| then (0, name)
    else if PREFIXES[k].text == name then (PREFIXES[k].index, "")
    else if StartsWith(name, PREFIXES[k].text) && EndsWithDot(PREFIXES[k].text) then
      (PREFIXES[k].index, name[|PREFIXES[k].text|..])
    else SplitFrom(name, k + 1)
  }

  function SplitName(name: string): (byte, string) {
    SplitFrom(name, 0)
  }

  /** What the numbers stand for: dotted prefixes are cut off, the others are whole names. */
  lemma KnownPrefixes(rest: string)
    ensures SplitName("user." + rest) == (1, rest) && SplitName("trusted." + rest) == (4, rest)
    ensures SplitName("security." + rest) == (6, rest)
    ensures SplitName("system.posix_acl_access") == (2, "") && SplitName("system.posix_acl_default") == (3, "")
    ensures SplitName("system.richacl") == (8, "")
    ensures rest !in {"posix_acl_access", "posix_acl_default", "richacl"} ==> SplitName("system." + rest) == (7, rest)
  {
    hide SplitFrom, StartsWith, EndsWithDot;
    Cut("user.", rest, 3);
    Cut("trusted.", rest, 4);
    Cut("security.", rest, 5);
    if rest !in {"posix_acl_access", "posix_acl_default", "richacl"} {
      Cut("system.", rest, 6);
    }
    WholeName(0);
    WholeName(1);
    WholeName(2);
  }

  lemma Cut(p: string, rest: string, k: nat)
    requires 3 <= k < |PREFIXES| && PREFIXES[k].text == p
    requires k == 6 ==> rest !in {"posix_acl_access", "posix_acl_default", "richacl"}
    ensures SplitName(p + rest) == (PREFIXES[k].index, rest)
  {
    var name := p + rest;
    hide SplitFrom;
    forall j | 0 <= j < k
      ensures SplitFrom(name, j) == SplitFrom(name, j + 1)
    {
      if j < 3 {
        NotWhole(p, rest, j, k);
      } else {
        assert PREFIXES[j].text[1] != p[1];
      }
      Passed(name, j);
    }
    Steps(name, 0, k);
    assert name[|p|..] == rest;
    Found(name, rest, k);
  }

  lemma NotWhole(p: string, rest: string, j: nat, k: nat)
    requires j < 3 <= k < |PREFIXES| && PREFIXES[k].text == p
    requires k == 6 ==> rest !in {"posix_acl_access", "posix_acl_default", "richacl"}
    ensures p + rest != PREFIXES[j].text && !EndsWithDot(PREFIXES[j].text)
  {
    if k == 6 {
      AfterSystem(rest);
    } else {
      assert PREFIXES[j].text[1] == 'y';
      assert (p + rest)[1] == p[1] != 'y';
    }
  }

  lemma AfterSystem(rest: string)
    ensures "system." + rest == "system.posix_acl_access" ==> rest == "posix_acl_access"
    ensures "system." + rest == "system.posix_acl_default" ==> rest == "posix_acl_default"
    ensures "system." + rest == "system.richacl" ==> rest == "richacl"
  {
    assert ("system." + rest)[7..] == rest;
    assert "system.posix_acl_access"[7..] == "posix_acl_access" && "system.richacl"[7..] == "richacl";
    assert "system.posix_acl_default"[7..] == "posix_acl_default";
  }

  lemma Passed(name: string, k: nat)
    requires k < |PREFIXES| && PREFIXES[k].text != name
    requires !StartsWith(name, PREFIXES[k].text) || !EndsWithDot(PREFIXES[k].text)
    ensures SplitFrom(name, k) == SplitFrom(name, k + 1)
  {
  }

  lemma Found(name: string, rest: string, k: nat)
    requires k < |PREFIXES| && name == PREFIXES[k].text + rest && (rest == "" || EndsWithDot(PREFIXES[k].text))
    ensures SplitFrom(name, k) == (PREFIXES[k].index, rest)
  {
    assert name[..|PREFIXES[k].text|] == PREFIXES[k].text && name[|PREFIXES[k].text|..] == rest;
  }

  lemma {:induction false} Steps(name: string, i: nat, k: nat)
    requires i <= k <= |PREFIXES| && forall j :: i <= j < k ==> SplitFrom(name, j) == SplitFrom(name, j + 1)
    ensures SplitFrom(name, i) == SplitFrom(name, k)
    decreases k - i
  {
    hide SplitFrom;
    if i < k {
      Steps(name, i + 1, k);
    }
  }

  lemma WholeName(k: nat)
    requires k < 3
    ensures SplitName(PREFIXES[k].text) == (PREFIXES[k].index, "")
  {
    var name := PREFIXES[k].text;
    hide SplitFrom;
    forall j | 0 <= j < k
      ensures SplitFrom(name, j) == SplitFrom(name, j + 1)
    {
      assert |PREFIXES[j].text| != |name|;
      Passed(name, j);
    }
    Steps(name, 0, k);
    assert name + "" == name;
    Found(name, "", k);
  }

  /** joinXattrName, from prefix k on. */
  function JoinFrom(index: byte, rest: string, k: nat): string
    decreases |PREFIXES| - k
  {
    if k >= |PREFIXES| then rest
    else if PREFIXES[k].index == index then
      if !EndsWithDot(PREFIXES[k].text) && rest == "" then PREFIXES[k].text else PREFIXES[k].text + rest
    else JoinFrom(index, rest, k + 1)
  }

  function JoinName(index: byte, rest: string): string {
    JoinFrom(index, rest, 0)
  }

  /** The prefix an index stands for is the one it was found with. */
  lemma {:induction false} JoinFinds(rest: string, m: nat, k: nat)
    requires k <= m < |PREFIXES|
    ensures JoinFrom(PREFIXES[m].index, rest, k) == PREFIXES[m].text + rest
    decreases m - k
  {
    if k < m {
      assert PREFIXES[k].index != PREFIXES[m].index;
      JoinFinds(rest, m, k + 1);
    } else if rest == "" {
      assert PREFIXES[m].text + rest == PREFIXES[m].text;
    }
  }

  lemma {:induction false} JoinWhole(rest: string, k: nat)
    ensures JoinFrom(0, rest, k) == rest
    decreases |PREFIXES| - k
  {
    if k < |PREFIXES| {
      assert PREFIXES[k].index != 0;
      JoinWhole(rest, k + 1);
    }
  }

  lemma {:induction false} JoinSplitFrom(name: string, k: nat)
    ensures JoinName(SplitFrom(name, k).0, SplitFrom(name, k).1) == name
    ensures SplitFrom(name, k) == (0, "") ==> name == ""
    decreases |PREFIXES| - k
  {
    hide JoinFrom;
    if k >= |PREFIXES| {
      JoinWhole(name, 0);
    } else if PREFIXES[k].text == name {
      JoinFinds("", k, 0);
      assert PREFIXES[k].text + "" == name;
      assert PREFIXES[k].index != 0;
    } else if StartsWith(name, PREFIXES[k].text) && EndsWithDot(PREFIXES[k].text) {
      JoinFinds(name[|PREFIXES[k].text|..], k, 0);
      assert PREFIXES[k].text + name[|PREFIXES[k].text|..] == name;
      assert PREFIXES[k].index != 0;
    } else {
      JoinSplitFrom(name, k + 1);
    }
  }

  /** joinXattrName inverts splitXattrName, on every name; only the empty one looks like a terminator. */
  lemma JoinOfSplit(name: string)
    ensures JoinName(SplitName(name).0, SplitName(name).1) == name
    ensures SplitName(name) == (0, "") ==> name == ""
  {
    JoinSplitFrom(name, 0);
  }

  // ----- The order on disk.

  predicate EntryBefore(a: Entry, b: Entry) {
    if a.index != b.index then a.index < b.index
    else if |a.name| != |b.name| then |a.name| < |b.name|
    else Before(a.name, b.name)
  }

  function EntryOf(x: map<string, seq<byte>>, name: string): Entry
    requires name in x
  {
    Entry(SplitName(name).0, SplitName(name).1, x[name])
  }

  /** The name an entry stands for. */
  function NameOf(e: Entry): string {
    JoinName(e.index, e.name)
  }

  lemma EntryNamed(x: map<string, seq<byte>>, name: string)
    requires name in x
    ensures NameOf(EntryOf(x, name)) == name
  {
    hide SplitFrom, JoinFrom;
    JoinOfSplit(name);
  }

  lemma BeforeTotal(a: Entry, b: Entry)
    requires NameOf(a) != NameOf(b)
    ensures EntryBefore(a, b) || EntryBefore(b, a)
  {
    hide JoinFrom;
    BeforeOrders(a.name, b.name);
  }

  lemma BeforeTransitive(a: Entry, b: Entry, c: Entry)
    requires EntryBefore(a, b) && EntryBefore(b, c)
    ensures EntryBefore(a, c)
  {
    if a.index == b.index == c.index && |a.name| == |b.name| == |c.name| {
      BeforeTrans(a.name, b.name, c.name);
    }
  }

  ghost predicate InOrder(es: seq<Entry>) {
    forall i, j :: 0 <= i < j < |es| ==> EntryBefore(es[i], es[j])
  }

  /** es lists the attributes of x whose names are in done, each once. */
  ghost predicate ListsNames(es: seq<Entry>, x: map<string, seq<byte>>, done: set<string>) {
    && done <= x.Keys && |es| == |done|
    && (forall i :: 0 <= i < |es| ==> NameOf(es[i]) in done && es[i] == EntryOf(x, NameOf(es[i])))
    && (forall n :: n in done ==> exists i :: 0 <= i < |es| && NameOf(es[i]) == n)
  }

  /** sortedXattrs: by index, then length of the rest, then the rest. */
  method SortedXattrs(x: map<string, seq<byte>>) returns (es: seq<Entry>)
    ensures InOrder(es) && ListsNames(es, x, x.Keys)
    ensures forall i, j :: 0 <= i < j < |es| ==> AsOnDisk(es[i], es[j])
  {
    hide EntryOf, NameOf, EntryBefore, ListsNames, AsOnDisk;
    es := [];
    NothingListed(x);
    var rest := x.Keys;
    while rest != {}
      invariant rest <= x.Keys && InOrder(es) && ListsNames(es, x, x.Keys - rest)
      invariant forall i, n :: 0 <= i < |es| && n in rest ==> EntryBefore(es[i], EntryOf(x, n))
      decreases |rest|
    {
      var m := FirstEntry(x, rest);
      assert x.Keys - (rest - {m}) == (x.Keys - rest) + {m};
      ListsMore(es, x, x.Keys - rest, m);
      es := es + [EntryOf(x, m)];
      rest := rest - {m};
    }
    assert x.Keys - rest == x.Keys;
    forall i, j | 0 <= i < j < |es|
      ensures AsOnDisk(es[i], es[j])
    {
      BeforeOnDisk(es[i], es[j]);
    }
  }

  /** By index, then by the length of the rest, then by the rest. */
  predicate AsOnDisk(a: Entry, b: Entry) {
    && a.index <= b.index
    && (a.index == b.index ==> |a.name| <= |b.name| && (|a.name| == |b.name| ==> Before(a.name, b.name)))
  }

  lemma BeforeOnDisk(a: Entry, b: Entry)
    requires EntryBefore(a, b)
    ensures AsOnDisk(a, b)
  {
    hide Before;
  }

  lemma NothingListed(x: map<string, seq<byte>>)
    ensures ListsNames([], x, {}) && x.Keys - x.Keys == {}
  {
  }

  lemma ListsMore(es: seq<Entry>, x: map<string, seq<byte>>, done: set<string>, m: string)
    requires ListsNames(es, x, done) && m in x && m !in done
    ensures ListsNames(es + [EntryOf(x, m)], x, done + {m})
  {
    hide EntryOf, NameOf;
    EntryNamed(x, m);
    var more := es + [EntryOf(x, m)];
    forall n | n in done + {m}
      ensures exists i :: 0 <= i < |more| && NameOf(more[i]) == n
    {
      if n == m {
        assert NameOf(more[|es|]) == n;
      } else {
        var i :| 0 <= i < |es| && NameOf(es[i]) == n;
        assert NameOf(more[i]) == n;
      }
    }
  }

  predicate IsFirstEntry(x: map<string, seq<byte>>, rest: set<string>, m: string)
    requires rest <= x.Keys
  {
    m in rest && forall n :: n in rest && n != m ==> EntryBefore(EntryOf(x, m), EntryOf(x, n))
  }

  method FirstEntry(x: map<string, seq<byte>>, rest: set<string>) returns (m: string)
    requires rest != {} && rest <= x.Keys
    ensures IsFirstEntry(x, rest, m)
  {
    hide EntryOf, NameOf, EntryBefore;
    FirstEntryExists(x, rest);
    m :| IsFirstEntry(x, rest, m);
  }

  lemma {:induction false} FirstEntryExists(x: map<string, seq<byte>>, rest: set<string>)
    requires rest != {} && rest <= x.Keys
    ensures exists m :: IsFirstEntry(x, rest, m)
    decreases |rest|
  {
    hide EntryOf, NameOf, EntryBefore;
    var a :| a in rest;
    if rest != {a} {
      FirstEntryExists(x, rest - {a});
      var m :| IsFirstEntry(x, rest - {a}, m);
      EntryNamed(x, a);
      EntryNamed(x, m);
      BeforeTotal(EntryOf(x, a), EntryOf(x, m));
      var best := if EntryBefore(EntryOf(x, a), EntryOf(x, m)) then a else m;
      forall n | n in rest && n != best
        ensures EntryBefore(EntryOf(x, best), EntryOf(x, n))
      {
        if best == a && n != m {
          BeforeTransitive(EntryOf(x, a), EntryOf(x, m), EntryOf(x, n));
        }
      }
      assert IsFirstEntry(x, rest, best);
    } else {
      assert IsFirstEntry(x, rest, a);
    }
  }

  // ----- An area.

  function EntryLen(e: Entry): (n: nat)
    ensures n >= ENTRY + |e.name|
  {
    Align4(ENTRY + |e.name|)
  }

  /** The entries take this much from the front, the values that much from the back. */
  function EntriesLen(es: seq<Entry>, k: nat): nat
    requires k <= |es|
  {
    if k == 0 then 0 else EntriesLen(es, k - 1) + EntryLen(es[k - 1])
  }

  function ValuesLen(es: seq<Entry>, k: nat): nat
    requires k <= |es|
  {
    if k == 0 then 0 else ValuesLen(es, k - 1) + Align4(|es[k - 1].value|)
  }

  /** xattrAreaSize: entries, values and the terminator. */
  function AreaSize(es: seq<Entry>): nat {
    4 + EntriesLen(es, |es|) + ValuesLen(es, |es|)
  }

  lemma {:induction false} LensAscend(es: seq<Entry>, j: nat, k: nat)
    requires j < k <= |es|
    ensures EntriesLen(es, j) + EntryLen(es[j]) <= EntriesLen(es, k)
    ensures ValuesLen(es, j) + Align4(|es[j].value|) <= ValuesLen(es, k)
    decreases k
  {
    hide EntryLen, Align4;
    if j < k - 1 {
      LensAscend(es, j, k - 1);
    }
  }

  predicate ValidEntry(e: Entry) {
    |e.name| <= 255 && ByteString(e.name)
  }

  ghost predicate ValidEntries(es: seq<Entry>) {
    forall i :: 0 <= i < |es| ==> ValidEntry(es[i])
  }

  /** Where the value of entry k starts, values being laid down from the end of the area. */
  function ValueOff(es: seq<Entry>, size: nat, k: nat): int
    requires k < |es|
  {
    size - ValuesLen(es, k + 1)
  }

  /** The fixed part of an entry up to its hash. */
  function Head(e: Entry, valueOff: nat): (s: seq<byte>)
    requires |e.name| <= 255
    ensures |s| == 12
  {
    [|e.name|] + [e.index] + LE(valueOff, 2) + LE(0, 4) + LE(|e.value|, 4)
  }

  /** Entry k and its value are in the area, whatever the hash of the entry says. */
  ghost predicate EntryPlaced(area: seq<byte>, es: seq<Entry>, base: nat, k: nat)
    requires k < |es|
  {
    var e, off, val := es[k], EntriesLen(es, k), ValueOff(es, |area|, k);
    && ValidEntry(e) && val >= 0
    && Slice(area, off, 12) == Head(e, base + val)
    && Slice(area, off + ENTRY, |e.name|) == NameBytes(e.name)
    && Slice(area, val, |e.value|) == e.value
  }

  /** The first k entries are placed, and the middle is still zero. */
  ghost predicate Placed(area: seq<byte>, es: seq<Entry>, base: nat, k: nat) {
    && k <= |es| && |area| >= AreaSize(es)
    && (forall i :: 0 <= i < k ==> EntryPlaced(area, es, base, i))
    && (forall x :: EntriesLen(es, k) <= x < |area| - ValuesLen(es, k) ==> area[x] == 0)
  }

  /** encodeXattrArea: None when the attributes do not fit. */
  method EncodeArea(size: nat, es: seq<Entry>, base: nat) returns (r: Option<seq<byte>>)
    requires ValidEntries(es)
    ensures r.Some? <==> size >= AreaSize(es)
    ensures r.Some? ==> |r.value| == size && Placed(r.value, es, base, |es|)
  {
    hide Placed, Head, Slice, Spliced, ValidEntry, EntryLen, Align4;
    if size < AreaSize(es) {
      return None;
    }
    var area: seq<byte> := Zeros(size);
    var entOff: nat := 0;
    var valEnd: int := size;
    NothingPlaced(size, es, base);
    for k := 0 to |es|
      invariant |area| == size && Placed(area, es, base, k)
      invariant entOff == EntriesLen(es, k) && valEnd == size - ValuesLen(es, k)
    {
      Room(es, size, k);
      valEnd := valEnd - Align4(|es[k].value|);
      PlaceOne(area, es, base, k);
      ValidAt(es, k);
      area := Spliced(area, es[k].value, valEnd);
      area := Spliced(area, Head(es[k], base + valEnd), entOff);
      area := Spliced(area, LE(0, 4), entOff + 12); // e_hash
      area := Spliced(area, NameBytes(es[k].name), entOff + ENTRY);
      entOff := entOff + EntryLen(es[k]);
    }
    Room(es, size, |es|);
    Terminated(area, es, base);
    area := Spliced(area, LE(0, 4), entOff);
    return Some(area);
  }

  lemma NothingPlaced(size: nat, es: seq<Entry>, base: nat)
    requires size >= AreaSize(es)
    ensures Placed(Zeros(size), es, base, 0)
  {
  }

  lemma ValidAt(es: seq<Entry>, k: nat)
    requires ValidEntries(es) && k < |es|
    ensures ValidEntry(es[k]) && |es[k].name| <= 255 && ByteString(es[k].name)
  {
  }

  /** Entries and values never meet: four bytes for the terminator are between them. */
  lemma Room(es: seq<Entry>, size: nat, k: nat)
    requires k <= |es| && size >= AreaSize(es)
    ensures EntriesLen(es, k) + 4 <= size - ValuesLen(es, k)
    ensures k < |es| ==> EntriesLen(es, k) + EntryLen(es[k]) + 4 <= ValueOff(es, size, k)
    ensures k < |es| ==> EntriesLen(es, k + 1) == EntriesLen(es, k) + EntryLen(es[k])
    ensures k < |es| ==> ValuesLen(es, k + 1) == ValuesLen(es, k) + Align4(|es[k].value|)
  {
    hide EntryLen, Align4;
    if k < |es| {
      LensAscend(es, k, |es|);
      if k + 1 < |es| {
        LensAscend(es, k + 1, |es|);
      }
    }
  }

  function Written(area: seq<byte>, es: seq<Entry>, base: nat, k: nat): seq<byte>
    requires k < |es| && ValidEntry(es[k]) && ValueOff(es, |area|, k) >= 0
  {
    var val, off := ValueOff(es, |area|, k), EntriesLen(es, k);
    var a := Spliced(area, es[k].value, val);
    var b := Spliced(a, Head(es[k], base + val), off);
    var c := Spliced(b, LE(0, 4), off + 12);
    Spliced(c, NameBytes(es[k].name), off + ENTRY)
  }

  lemma PlaceOne(area: seq<byte>, es: seq<Entry>, base: nat, k: nat)
    requires Placed(area, es, base, k) && k < |es| && ValidEntries(es)
    ensures ValidEntry(es[k]) && ValueOff(es, |area|, k) >= 0
    ensures |Written(area, es, base, k)| == |area| && Placed(Written(area, es, base, k), es, base, k + 1)
  {
    hide Head, Slice, Spliced, NameBytes, LE, EntryLen, Align4, Written;
    ValidAt(es, k);
    Room(es, |area|, k);
    WrittenOne(area, es, base, k);
    forall i | 0 <= i < k
      ensures EntryPlaced(Written(area, es, base, k), es, base, i)
    {
      assert EntryPlaced(area, es, base, i);
      EarlierKept(area, es, base, i, k);
    }
    forall x | EntriesLen(es, k + 1) <= x < |area| - ValuesLen(es, k + 1)
      ensures Written(area, es, base, k)[x] == 0
    {
      MiddleKept(area, es, base, k, x);
    }
  }

  lemma {:induction false} WrittenOne(area: seq<byte>, es: seq<Entry>, base: nat, k: nat)
    requires k < |es| && ValidEntry(es[k]) && |area| >= AreaSize(es)
    requires EntriesLen(es, k) + EntryLen(es[k]) + 4 <= ValueOff(es, |area|, k)
    ensures |Written(area, es, base, k)| == |area| && EntryPlaced(Written(area, es, base, k), es, base, k)
  {
    hide Head, Slice, NameBytes, LE, AreaSize, EntriesLen, Spliced;
    var e, val, off := es[k], ValueOff(es, |area|, k), EntriesLen(es, k);
    var h, n := Head(e, base + val), NameBytes(e.name);
    var a := Spliced(area, e.value, val);
    var b := Spliced(a, h, off);
    var c := Spliced(b, LE(0, 4), off + 12);
    var d := Spliced(c, n, off + ENTRY);
    SliceOfWrite(area, e.value, val);
    SliceElsewhere(a, h, off, val, |e.value|);
    SliceElsewhere(b, LE(0, 4), off + 12, val, |e.value|);
    SliceElsewhere(c, n, off + ENTRY, val, |e.value|);
    SliceOfWrite(a, h, off);
    SliceElsewhere(b, LE(0, 4), off + 12, off, 12);
    SliceElsewhere(c, n, off + ENTRY, off, 12);
    SliceOfWrite(c, n, off + ENTRY);
  }

  /** What an entry and its value do not touch. */
  lemma OtherKept(area: seq<byte>, es: seq<Entry>, base: nat, k: nat, at: nat, n: nat)
    requires k < |es| && ValidEntry(es[k]) && ValueOff(es, |area|, k) >= 0
    requires at + n <= EntriesLen(es, k) || EntriesLen(es, k) + EntryLen(es[k]) <= at
    requires at + n <= ValueOff(es, |area|, k) || ValueOff(es, |area|, k) + |es[k].value| <= at
    ensures Slice(Written(area, es, base, k), at, n) == Slice(area, at, n)
  {
    hide Head, Slice, NameBytes, LE, EntriesLen, Spliced;
    var e, val, off := es[k], ValueOff(es, |area|, k), EntriesLen(es, k);
    var h, m := Head(e, base + val), NameBytes(e.name);
    var a := Spliced(area, e.value, val);
    var b := Spliced(a, h, off);
    var c := Spliced(b, LE(0, 4), off + 12);
    SliceElsewhere(area, e.value, val, at, n);
    SliceElsewhere(a, h, off, at, n);
    SliceElsewhere(b, LE(0, 4), off + 12, at, n);
    SliceElsewhere(c, m, off + ENTRY, at, n);
  }

  lemma EarlierKept(area: seq<byte>, es: seq<Entry>, base: nat, i: nat, k: nat)
    requires i < k < |es| && ValidEntry(es[k]) && |area| >= AreaSize(es) && EntryPlaced(area, es, base, i)
    requires EntriesLen(es, k) + EntryLen(es[k]) + 4 <= ValueOff(es, |area|, k)
    requires |Written(area, es, base, k)| == |area|
    ensures EntryPlaced(Written(area, es, base, k), es, base, i)
  {
    hide Head, Slice, NameBytes, Written, EntriesLen, AreaSize, ValuesLen, EntryLen, Align4;
    LensAscend(es, i, k);
    ValuesStep(es, i);
    ValuesStep(es, k);
    EntryAtLeast(es[i]);
    OtherKept(area, es, base, k, EntriesLen(es, i), 12);
    OtherKept(area, es, base, k, EntriesLen(es, i) + ENTRY, |es[i].name|);
    OtherKept(area, es, base, k, ValueOff(es, |area|, i), |es[i].value|);
  }

  lemma EntryAtLeast(e: Entry)
    ensures EntryLen(e) >= ENTRY + |e.name|
  {
  }

  lemma ValuesStep(es: seq<Entry>, k: nat)
    requires k < |es|
    ensures ValuesLen(es, k + 1) == ValuesLen(es, k) + Align4(|es[k].value|) && Align4(|es[k].value|) >= |es[k].value|
  {
  }

  lemma MiddleKept(area: seq<byte>, es: seq<Entry>, base: nat, k: nat, x: nat)
    requires Placed(area, es, base, k) && k < |es| && ValidEntry(es[k])
    requires EntriesLen(es, k) + EntryLen(es[k]) + 4 <= ValueOff(es, |area|, k)
    requires EntriesLen(es, k) + EntryLen(es[k]) <= x < ValueOff(es, |area|, k)
    requires |Written(area, es, base, k)| == |area|
    ensures Written(area, es, base, k)[x] == 0
  {
    hide Written, EntryPlaced, EntryLen;
    ValuesStep(es, k);
    OtherKept(area, es, base, k, x, 1);
    assert Slice(Written(area, es, base, k), x, 1)[0] == Slice(area, x, 1)[0];
  }

  lemma Terminated(area: seq<byte>, es: seq<Entry>, base: nat)
    requires Placed(area, es, base, |es|) && EntriesLen(es, |es|) + 4 <= |area| - ValuesLen(es, |es|)
    ensures Spliced(area, LE(0, 4), EntriesLen(es, |es|)) == area
  {
    hide LE, EntriesLen, ValuesLen, EntryPlaced, Spliced;
    FourZeros();
    var off := EntriesLen(es, |es|);
    assert area[off] == 0 && area[off + 1] == 0 && area[off + 2] == 0 && area[off + 3] == 0;
    SpliceSame(area, LE(0, 4), off);
  }

  lemma SpliceSame(data: seq<byte>, p: seq<byte>, off: nat)
    requires off + |p| <= |data| && forall i :: 0 <= i < |p| ==> data[off + i] == p[i]
    ensures Spliced(data, p, off) == data
  {
  }

  lemma FourZeros()
    ensures LE(0, 4) == [0, 0, 0, 0]
  {
    assert LE(0, 1) == [0];
    assert LE(0, 2) == [0, 0];
    assert LE(0, 3) == [0, 0, 0];
  }

  // ----- Reading an area.

  /** The area is what follows base in whole: every entry where the offsets say, and a zero entry after the last. */
  ghost predicate EntryIn(whole: seq<byte>, es: seq<Entry>, base: nat, k: nat)
    requires k < |es| && base <= |whole|
  {
    var e, off, val := es[k], base + EntriesLen(es, k), ValueOff(es, |whole| - base, k);
    && ValidEntry(e) && val >= 0
    && Slice(whole, off, 12) == Head(e, base + val)
    && Slice(whole, off + ENTRY, |e.name|) == NameBytes(e.name)
    && Slice(whole, base + val, |e.value|) == e.value
  }

  ghost predicate AreaHolds(whole: seq<byte>, es: seq<Entry>, base: nat) {
    && base + AreaSize(es) <= |whole|
    && (forall k :: 0 <= k < |es| ==> EntryIn(whole, es, base, k))
    && ByteAt(whole, base + EntriesLen(es, |es|)) == 0 && ByteAt(whole, base + EntriesLen(es, |es|) + 1) == 0
  }

  lemma EncodedHolds(prefix: seq<byte>, area: seq<byte>, es: seq<Entry>)
    requires Placed(area, es, |prefix|, |es|)
    ensures AreaHolds(prefix + area, es, |prefix|)
  {
    hide Head, Slice, NameBytes, EntriesLen, ValuesLen, EntryLen, Align4, ValidEntry, ByteAt;
    var base, whole := |prefix|, prefix + area;
    Room(es, |area|, |es|);
    forall k | 0 <= k < |es|
      ensures EntryIn(whole, es, base, k)
    {
      assert EntryPlaced(area, es, base, k);
      var e, off, val := es[k], EntriesLen(es, k), ValueOff(es, |area|, k);
      SliceAfter(prefix, area, off, 12);
      SliceAfter(prefix, area, off + ENTRY, |e.name|);
      SliceAfter(prefix, area, val, |e.value|);
    }
    ByteAfter(prefix, area, EntriesLen(es, |es|));
    ByteAfter(prefix, area, EntriesLen(es, |es|) + 1);
  }

  lemma SliceAfter(prefix: seq<byte>, area: seq<byte>, off: nat, n: nat)
    ensures Slice(prefix + area, |prefix| + off, n) == Slice(area, off, n)
  {
  }

  lemma ByteAfter(prefix: seq<byte>, area: seq<byte>, i: nat)
    requires i < |area|
    ensures ByteAt(prefix + area, |prefix| + i) == area[i]
  {
  }

  /** decodeXattrArea over whole[start..] from off on, with out read so far. */
  function DecodeFrom(whole: seq<byte>, valueBase: nat, off: nat, out: map<string, seq<byte>>)
    : map<string, seq<byte>>
    decreases |whole| - off
  {
    if off + ENTRY > |whole| then out
    else
      var nameLen, index := whole[off], whole[off + 1];
      if nameLen == 0 && index == 0 then out
      else if off + ENTRY + nameLen > |whole| then out
      else
        var valOff := Get(Little, whole, off + 2, 2) - valueBase;
        var valSize := Get(Little, whole, off + 8, 4);
        var name := JoinName(index, StringOf(Slice(whole, off + ENTRY, nameLen)));
        if valOff < 0 || valOff + valSize > |whole| then out
        else
          DecodeFrom(whole, valueBase, off + Align4(ENTRY + nameLen), out[name := Slice(whole, valOff, valSize)])
  }

  method DecodeArea(whole: seq<byte>, start: nat, valueBase: nat) returns (out: map<string, seq<byte>>)
    ensures out == DecodeFrom(whole, valueBase, start, map[])
  {
    hide Get, Slice, JoinName, StringOf, Align4;
    out := map[];
    var off: nat := start;
    while off + ENTRY <= |whole|
      invariant DecodeFrom(whole, valueBase, start, map[]) == DecodeFrom(whole, valueBase, off, out)
      decreases |whole| - off
    {
      var nameLen, index := whole[off], whole[off + 1];
      if nameLen == 0 && index == 0 {
        break;
      }
      if off + ENTRY + nameLen > |whole| {
        break;
      }
      var valOff := Get(Little, whole, off + 2, 2) - valueBase;
      var valSize := Get(Little, whole, off + 8, 4);
      var name := JoinName(index, StringOf(Slice(whole, off + ENTRY, nameLen)));
      if valOff < 0 || valOff + valSize > |whole| {
        break;
      }
      out := out[name := Slice(whole, valOff, valSize)];
      off := off + Align4(ENTRY + nameLen);
    }
  }

  /** The fields of the fixed part. */
  lemma HeadReads(whole: seq<byte>, off: nat, e: Entry, v: nat)
    requires |e.name| <= 255 && off + 12 <= |whole| && Slice(whole, off, 12) == Head(e, v)
    ensures whole[off] == |e.name| && whole[off + 1] == e.index
    ensures Get(Little, whole, off + 2, 2) == v % TWO16 && Get(Little, whole, off + 8, 4) == |e.value| % TWO32
  {
    hide LE, UnLE, Slice, Pow256;
    var h := Head(e, v);
    SubSlice(whole, off, h, 0, 1);
    SubSlice(whole, off, h, 1, 1);
    SubSlice(whole, off, h, 2, 2);
    SubSlice(whole, off, h, 8, 4);
    assert ByteAt(whole, off) == Slice(whole, off + 0, 1)[0] == h[0..1][0];
    assert ByteAt(whole, off + 1) == Slice(whole, off + 1, 1)[0] == h[1..2][0];
    assert h[2..4] == LE(v, 2);
    assert h[8..12] == LE(|e.value|, 4);
    DecodeOfEncode(Little, v, 2);
    DecodeOfEncode(Little, |e.value|, 4);
    Widths();
  }

  function MapOf(es: seq<Entry>, k: nat): map<string, seq<byte>>
    requires k <= |es|
  {
    if k == 0 then map[] else MapOf(es, k - 1)[NameOf(es[k - 1]) := es[k - 1].value]
  }

  predicate EndsList(e: Entry) {
    e.index == 0 && e.name == ""
  }

  /** The entries up to the first one that looks like the end of the list. */
  function Visible(es: seq<Entry>, k: nat): (n: nat)
    requires k <= |es|
    ensures k <= n <= |es|
    decreases |es| - k
  {
    if k == |es| || EndsList(es[k]) then k else Visible(es, k + 1)
  }

  lemma {:induction false} DecodeHeld(whole: seq<byte>, es: seq<Entry>, base: nat, k: nat)
    requires AreaHolds(whole, es, base) && |whole| <= TWO16 && k <= |es|
    ensures DecodeFrom(whole, 0, base + EntriesLen(es, k), MapOf(es, k)) == MapOf(es, Visible(es, k))
    decreases |es| - k
  {
    hide Head, Slice, NameBytes, EntryLen, Align4, Get, EntryIn, JoinFrom, StringOf, EntriesLen, MapOf, ValuesLen;
    var off := base + EntriesLen(es, k);
    if k < |es| {
      EntryRead(whole, es, base, k);
      if !EndsList(es[k]) {
        NextEntry(es, k);
        DecodeHeld(whole, es, base, k + 1);
      }
    }
  }

  lemma NextEntry(es: seq<Entry>, k: nat)
    requires k < |es|
    ensures EntriesLen(es, k + 1) == EntriesLen(es, k) + Align4(ENTRY + |es[k].name|)
    ensures MapOf(es, k + 1) == MapOf(es, k)[NameOf(es[k]) := es[k].value]
  {
  }

  /** What the loop sees at entry k. */
  lemma EntryRead(whole: seq<byte>, es: seq<Entry>, base: nat, k: nat)
    requires AreaHolds(whole, es, base) && |whole| <= TWO16 && k < |es|
    ensures base + EntriesLen(es, k) + ENTRY + |es[k].name| <= |whole|
    ensures whole[base + EntriesLen(es, k)] == |es[k].name| && whole[base + EntriesLen(es, k) + 1] == es[k].index
    ensures Get(Little, whole, base + EntriesLen(es, k) + 8, 4) == |es[k].value|
    ensures Get(Little, whole, base + EntriesLen(es, k) + 2, 2) + |es[k].value| <= |whole|
    ensures Slice(whole, Get(Little, whole, base + EntriesLen(es, k) + 2, 2), |es[k].value|) == es[k].value
    ensures StringOf(Slice(whole, base + EntriesLen(es, k) + ENTRY, |es[k].name|)) == es[k].name
  {
    hide Head, Slice, NameBytes, EntryLen, Align4, Get, StringOf, EntriesLen, ValuesLen;
    var e, off, val := es[k], base + EntriesLen(es, k), ValueOff(es, |whole| - base, k);
    assert EntryIn(whole, es, base, k);
    Room(es, |whole| - base, k);
    EntryAtLeast(e);
    ValuesStep(es, k);
    HeadReads(whole, off, e, base + val);
    StringRead(e.name);
    OffsetFits(base + val, |e.value|, |whole|);
    EmptySlice(whole, base + val, (base + val) % TWO16, e.value);
  }

  /** Only the offset of an empty value at the very end can wrap. */
  lemma OffsetFits(v: nat, n: nat, size: nat)
    requires v + n <= size <= TWO16
    ensures v % TWO16 + n <= size && n % TWO32 == n && (n > 0 ==> v % TWO16 == v)
  {
  }

  lemma EmptySlice(whole: seq<byte>, v: nat, w: nat, value: seq<byte>)
    requires Slice(whole, v, |value|) == value && (|value| > 0 ==> w == v)
    ensures Slice(whole, w, |value|) == value
  {
  }

  // ----- The map that comes back.

  lemma {:induction false} MapOfHas(es: seq<Entry>, k: nat, n: string)
    requires k <= |es|
    ensures n in MapOf(es, k) <==> exists i :: 0 <= i < k && NameOf(es[i]) == n
    decreases k
  {
    hide NameOf;
    if k > 0 {
      MapOfHas(es, k - 1, n);
      if NameOf(es[k - 1]) != n && n in MapOf(es, k) {
        var i :| 0 <= i < k - 1 && NameOf(es[i]) == n;
      }
    }
  }

  lemma ListedValue(es: seq<Entry>, x: map<string, seq<byte>>, i: nat)
    requires ListsNames(es, x, x.Keys) && i < |es|
    ensures NameOf(es[i]) in x && es[i].value == x[NameOf(es[i])]
  {
    hide NameOf;
    assert es[i] == EntryOf(x, NameOf(es[i]));
  }

  lemma {:induction false} MapOfValues(es: seq<Entry>, x: map<string, seq<byte>>, k: nat, n: string)
    requires ListsNames(es, x, x.Keys) && k <= |es| && n in MapOf(es, k)
    ensures n in x && MapOf(es, k)[n] == x[n]
    decreases k
  {
    hide NameOf, ListsNames;
    if k > 0 {
      ListedValue(es, x, k - 1);
      if NameOf(es[k - 1]) != n {
        MapOfValues(es, x, k - 1, n);
      }
    }
  }

  /** All the entries give back all the attributes. */
  lemma MapOfAll(es: seq<Entry>, x: map<string, seq<byte>>)
    requires ListsNames(es, x, x.Keys)
    ensures MapOf(es, |es|) == x
  {
    hide NameOf, MapOf, EntryOf;
    forall n
      ensures n in MapOf(es, |es|) <==> n in x
    {
      MapOfHas(es, |es|, n);
    }
    forall n | n in x
      ensures MapOf(es, |es|)[n] == x[n]
    {
      MapOfValues(es, x, |es|, n);
    }
  }

  lemma {:induction false} VisibleStops(es: seq<Entry>, k: nat)
    requires k <= |es|
    ensures Visible(es, k) < |es| ==> EndsList(es[Visible(es, k)])
    ensures forall i :: k <= i < Visible(es, k) ==> !EndsList(es[i])
    decreases |es| - k
  {
    if k < |es| && !EndsList(es[k]) {
      VisibleStops(es, k + 1);
    }
  }

  /** The attribute with the empty name is what ends a list. */
  lemma OnlyEmptyEnds(e: Entry, x: map<string, seq<byte>>, n: string)
    requires n in x && e == EntryOf(x, n)
    ensures EndsList(e) <==> n == ""
    ensures EndsList(e) ==> NameOf(e) == ""
  {
    JoinOfSplit(n);
  }

  /** What can be read is everything, unless the empty name is among the attributes. */
  lemma VisibleIsAll(es: seq<Entry>, x: map<string, seq<byte>>)
    requires ListsNames(es, x, x.Keys)
    ensures MapOf(es, Visible(es, 0)) == x <==> "" !in x
  {
    hide NameOf, MapOf, EntryOf, Visible;
    VisibleStops(es, 0);
    var v := Visible(es, 0);
    forall i | 0 <= i < |es|
      ensures EndsList(es[i]) <==> NameOf(es[i]) == ""
    {
      EntryNamed(x, NameOf(es[i]));
      OnlyEmptyEnds(es[i], x, NameOf(es[i]));
    }
    if "" in x {
      var i :| 0 <= i < |es| && NameOf(es[i]) == "";
      MapOfHas(es, v, "");
    } else {
      MapOfAll(es, x);
    }
  }

  /** Decoding an encoded area: nothing is lost or changed, and the empty name is the one that cannot be kept. */
  lemma {:induction false} DecodeIsInverse(whole: seq<byte>, es: seq<Entry>, base: nat, x: map<string, seq<byte>>)
    requires AreaHolds(whole, es, base) && |whole| <= TWO16 && ListsNames(es, x, x.Keys)
    ensures DecodeFrom(whole, 0, base, map[]) == x <==> "" !in x
    ensures "" !in x ==> DecodeFrom(whole, 0, base, map[]) == x
  {
    hide EntryIn, ListsNames, Visible, DecodeFrom;
    DecodeHeld(whole, es, base, 0);
    VisibleIsAll(es, x);
    assert EntriesLen(es, 0) == 0 && MapOf(es, 0) == map[];
  }
}
