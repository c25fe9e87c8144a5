/** Directory entry names: their order, their validity, and slash-separated paths of them. */
module Names {

  // ----- The order sort.Strings uses.

  predicate Before(a: string, b: string) {
    if b == [] then false
    else if a == [] then true
    else a[0] < b[0] || (a[0] == b[0] && Before(a[1..], b[1..]))
  }

  lemma {:induction false} BeforeOrders(a: string, b: string)
    ensures !(Before(a, b) && Before(b, a))
    ensures a != b ==> Before(a, b) || Before(b, a)
    ensures !Before(a, a)
    decreases |a|
  {
    if a != [] && b != [] && a[0] == b[0] {
      BeforeOrders(a[1..], b[1..]);
      if a[1..] == b[1..] {
        assert a == [a[0]] + a[1..] == b;
      }
      BeforeOrders(a[1..], a[1..]);
    } else if a != [] {
      BeforeOrders(a[1..], a[1..]);
    }
  }

  /** a is a proper beginning of b, or has the smaller character where they first differ. */
  lemma {:induction false} BeforeIs(a: string, b: string)
    ensures Before(a, b) <==>
      exists k :: 0 <= k <= |a| && k < |b| && a[..k] == b[..k] && (k == |a| || a[k] < b[k])
    decreases |a|
  {
    if a != [] && b != [] && a[0] == b[0] {
      BeforeIs(a[1..], b[1..]);
      if Before(a[1..], b[1..]) {
        var k :| 0 <= k <= |a[1..]| && k < |b[1..]| && a[1..][..k] == b[1..][..k] && (k == |a[1..]| || a[1..][k] < b[1..][k]);
        assert a[..k + 1] == [a[0]] + a[1..][..k] && b[..k + 1] == [b[0]] + b[1..][..k];
      }
      if k: int :| 0 <= k <= |a| && k < |b| && a[..k] == b[..k] && (k == |a| || a[k] < b[k]) {
        assert k > 0;
        assert a[1..][..k - 1] == a[..k][1..] == b[..k][1..] == b[1..][..k - 1];
      }
    } else if Before(a, b) {
      assert a[..0] == b[..0];
    }
  }

  lemma {:induction false} BeforeTrans(a: string, b: string, c: string)
    requires Before(a, b) && Before(b, c)
    ensures Before(a, c)
    decreases |a|
  {
    if a != [] && a[0] == b[0] && b[0] == c[0] {
      BeforeTrans(a[1..], b[1..], c[1..]);
    }
  }

  ghost predicate Ordered(s: seq<string>) {
    forall i, j :: 0 <= i < j < |s| ==> Before(s[i], s[j])
  }

  /** s lists the names, each once, in order. */
  ghost predicate Lists(s: seq<string>, names: set<string>) {
    Ordered(s) && forall x :: x in s <==> x in names
  }

  ghost predicate IsFirst(m: string, names: set<string>) {
    m in names && forall x :: x in names && x != m ==> Before(m, x)
  }

  lemma {:induction false} FirstExists(names: set<string>)
    requires names != {}
    ensures exists m :: IsFirst(m, names)
    decreases |names|
  {
    var a :| a in names;
    if names == {a} {
      assert IsFirst(a, names);
    } else {
      FirstExists(names - {a});
      var m :| IsFirst(m, names - {a});
      BeforeOrders(a, m);
      var best := if Before(a, m) then a else m;
      forall x | x in names && x != best
        ensures Before(best, x)
      {
        if best == a && x != m {
          BeforeTrans(a, m, x);
        }
      }
      assert IsFirst(best, names);
    }
  }

  lemma FirstIsUnique(a: string, b: string, names: set<string>)
    requires IsFirst(a, names) && IsFirst(b, names)
    ensures a == b
  {
    BeforeOrders(a, b);
  }

  /** The names in order. */
  ghost function Sorted(names: set<string>): (s: seq<string>)
    ensures Lists(s, names)
    decreases |names|
  {
    if names == {} then []
    else
      FirstExists(names);
      var m :| IsFirst(m, names);
      var rest := Sorted(names - {m});
      SortedCons(m, names, rest);
      [m] + rest
  }

  lemma OrderedIsDistinct(names: seq<string>)
    requires Ordered(names)
    ensures forall i, j :: 0 <= i < j < |names| ==> names[i] != names[j]
  {
    forall i, j | 0 <= i < j < |names|
      ensures names[i] != names[j]
    {
      BeforeOrders(names[i], names[j]);
    }
  }

  lemma SortedElements(names: set<string>)
    ensures forall x :: x in Sorted(names) <==> x in names
  {
  }

  lemma SortedCons(m: string, names: set<string>, rest: seq<string>)
    requires IsFirst(m, names) && Lists(rest, names - {m})
    ensures Lists([m] + rest, names)
  {
    var s := [m] + rest;
    forall i, j | 0 <= i < j < |s|
      ensures Before(s[i], s[j])
    {
      assert s[j] in rest;
    }
  }

  /** There is one ordered listing. */
  lemma {:induction false} ListingIsUnique(a: seq<string>, b: seq<string>, names: set<string>)
    requires Lists(a, names) && Lists(b, names)
    ensures a == b
    decreases |a|
  {
    EmptyListing(a, names);
    EmptyListing(b, names);
    if a != [] {
      HeadIsFirst(a, names);
      HeadIsFirst(b, names);
      FirstIsUnique(a[0], b[0], names);
      TailLists(a, names);
      TailLists(b, names);
      ListingIsUnique(a[1..], b[1..], names - {a[0]});
    }
  }

  lemma EmptyListing(a: seq<string>, names: set<string>)
    requires Lists(a, names)
    ensures a == [] <==> names == {}
    ensures a != [] ==> a[0] in names
  {
    if a != [] {
      assert a[0] in a;
    }
  }

  lemma HeadIsFirst(a: seq<string>, names: set<string>)
    requires a != [] && Lists(a, names)
    ensures IsFirst(a[0], names)
  {
    forall x | x in names && x != a[0]
      ensures Before(a[0], x)
    {
      var i :| 0 <= i < |a| && a[i] == x;
    }
  }

  lemma TailLists(a: seq<string>, names: set<string>)
    requires a != [] && Lists(a, names)
    ensures Lists(a[1..], names - {a[0]})
  {
    forall x | x in a[1..]
      ensures x in names && x != a[0]
    {
      var i :| 0 <= i < |a[1..]| && a[1..][i] == x;
      assert Before(a[0], a[i + 1]);
      BeforeOrders(a[0], a[0]);
      assert a[i + 1] in a;
    }
    forall x | x in names - {a[0]}
      ensures x in a[1..]
    {
      var i :| 0 <= i < |a| && a[i] == x;
      assert a[1..][i - 1] == x;
    }
  }

  /** sort.Strings over the keys of a map. */
  method SortNames(names: set<string>) returns (s: seq<string>)
    ensures s == Sorted(names)
  {
    s := [];
    var rest := names;
    while rest != {}
      invariant rest <= names
      invariant Lists(s, names - rest)
      invariant forall x, y :: x in s && y in rest ==> Before(x, y)
      decreases |rest|
    {
      var m := First(rest);
      Appended(s, names - rest, m, rest);
      assert names - (rest - {m}) == (names - rest) + {m};
      s := s + [m];
      rest := rest - {m};
    }
    assert names - rest == names;
    ListingIsUnique(s, Sorted(names), names);
  }

  method First(names: set<string>) returns (m: string)
    requires names != {}
    ensures IsFirst(m, names)
  {
    FirstExists(names);
    m :| m in names && forall x :: x in names && x != m ==> Before(m, x);
  }

  lemma Appended(s: seq<string>, done: set<string>, m: string, rest: set<string>)
    requires Lists(s, done) && IsFirst(m, rest)
    requires forall x, y :: x in s && y in rest ==> Before(x, y)
    ensures Lists(s + [m], done + {m})
    ensures forall x, y :: x in s + [m] && y in rest - {m} ==> Before(x, y)
  {
    var t := s + [m];
    forall i, j | 0 <= i < j < |t|
      ensures Before(t[i], t[j])
    {
      assert t[i] in s;
    }
  }

  // ----- Validity and paths.

  /** image.ValidName: not empty, not a dot entry, no separator. */
  predicate ValidName(name: string) {
    name != "" && name != "." && name != ".." && '/' !in name
  }

  /** strings.Split(s, "/") */
  function Split(s: string): (parts: seq<string>)
    ensures |parts| >= 1
  {
    if s == "" then [""]
    else
      var rest := Split(s[1..]);
      if s[0] == '/' then [""] + rest else [[s[0]] + rest[0]] + rest[1..]
  }

  /** path.Clean on the parts of a path: drop empty and "." parts, let ".." cancel the part before
      it, and at the root nothing. What is kept so far is done. */
  function CleanParts(parts: seq<string>, done: seq<string>, rooted: bool): seq<string>
    decreases |parts|
  {
    if parts == [] then done
    else
      var p := parts[0];
      if p == "" || p == "." then CleanParts(parts[1..], done, rooted)
      else if p != ".." then CleanParts(parts[1..], done + [p], rooted)
      else if done != [] && done[|done| - 1] != ".." then CleanParts(parts[1..], done[..|done| - 1], rooted)
      else if rooted then CleanParts(parts[1..], done, rooted)
      else CleanParts(parts[1..], done + [p], rooted)
  }

  /** The components of path.Clean(s). */
  function Components(s: string): seq<string> {
    CleanParts(Split(s), [], s != "" && s[0] == '/')
  }

  /** Components joined with slashes. */
  function Join(parts: seq<string>): string {
    if parts == [] then ""
    else if |parts| == 1 then parts[0]
    else parts[0] + "/" + Join(parts[1..])
  }

  lemma {:induction false} SplitNoSlash(s: string)
    requires '/' !in s
    ensures Split(s) == [s]
    decreases |s|
  {
    if s != "" {
      SplitNoSlash(s[1..]);
      assert [s[0]] + s[1..] == s;
    }
  }

  lemma {:induction false} SplitAtSlash(a: string, rest: string)
    requires '/' !in a
    ensures Split(a + "/" + rest) == [a] + Split(rest)
    decreases |a|
  {
    var s := a + "/" + rest;
    if a == "" {
      assert s[1..] == rest;
    } else {
      SplitAtSlash(a[1..], rest);
      assert s[1..] == a[1..] + "/" + rest;
      assert [a[0]] + a[1..] == a;
    }
  }

  ghost predicate ValidPath(parts: seq<string>) {
    forall p :: p in parts ==> ValidName(p)
  }

  /** Splitting a joined path gives its components, plus an empty one for a trailing slash. */
  lemma {:induction false} SplitJoin(parts: seq<string>)
    requires parts != [] && ValidPath(parts)
    ensures Split(Join(parts)) == parts
    ensures Split(Join(parts) + "/") == parts + [""]
    ensures Join(parts) != "" && Join(parts)[0] != '/'
    decreases |parts|
  {
    hide Split;
    var a := parts[0];
    assert a in parts;
    SplitNoSlash(a);
    SplitNoSlash("");
    if |parts| == 1 {
      assert a + "/" + "" == a + "/";
      SplitAtSlash(a, "");
    } else {
      SplitJoin(parts[1..]);
      SplitAtSlash(a, Join(parts[1..]));
      SplitAtSlash(a, Join(parts[1..]) + "/");
      assert Join(parts) + "/" == a + "/" + (Join(parts[1..]) + "/");
    }
  }

  lemma {:induction false} CleanKeeps(parts: seq<string>, done: seq<string>, rooted: bool, tail: seq<string>)
    requires ValidPath(parts) && (tail == [] || tail == [""])
    ensures CleanParts(parts + tail, done, rooted) == done + parts
    decreases |parts|
  {
    if parts == [] {
      assert parts + tail == tail;
    } else {
      assert parts[0] in parts;
      CleanKeeps(parts[1..], done + [parts[0]], rooted, tail);
      assert (parts + tail)[1..] == parts[1..] + tail;
      assert done + [parts[0]] + parts[1..] == done + parts;
    }
  }

  /** A path of valid names survives joining and cleaning, with or without a trailing slash. */
  lemma ComponentsOfJoin(parts: seq<string>)
    requires parts != [] && ValidPath(parts)
    ensures Components(Join(parts)) == parts
    ensures Components(Join(parts) + "/") == parts
  {
    SplitJoin(parts);
    CleanKeeps(parts, [], false, []);
    CleanKeeps(parts, [], false, [""]);
    assert parts + [] == parts;
  }

  /** Empty and "." parts go, ".." takes the part before it away, stays at the front of a relative path and goes at
      the front of a rooted one. */
  lemma DotsCleaned(a: string, path: seq<string>)
    requires ValidName(a) && path != [] && ValidPath(path)
    ensures var s := Join(path);
      && Components("/" + s) == path && Components("./" + s) == path && Components(a + "/" + s) == [a] + path
      && Components(a + "//" + s) == [a] + path && Components(a + "/../" + s) == path
      && Components("../" + s) == [".."] + path && Components("/../" + s) == path
  {
    hide Split, CleanParts;
    var s := Join(path);
    SplitJoin(path);
    forall b | '/' !in b
      ensures Split(b + "/" + s) == [b] + path
    {
      SplitAtSlash(b, s);
    }
    assert "" + "/" + s == "/" + s && "." + "/" + s == "./" + s && ".." + "/" + s == "../" + s;
    SplitAtSlash("", "../" + s);
    SplitAtSlash(a, "/" + s);
    SplitAtSlash(a, "../" + s);
    assert "" + "/" + ("../" + s) == "/../" + s && a + "/" + ("/" + s) == a + "//" + s;
    assert a + "/" + ("../" + s) == a + "/../" + s;
    DotParts(a, path);
  }

  lemma DotParts(a: string, path: seq<string>)
    requires ValidName(a) && ValidPath(path)
    ensures CleanParts([""] + path, [], true) == path && CleanParts(["."] + path, [], false) == path
    ensures CleanParts([a] + path, [], false) == [a] + path
    ensures CleanParts([a] + ([""] + path), [], false) == [a] + path
    ensures CleanParts([a] + ([".."] + path), [], false) == path
    ensures CleanParts([".."] + path, [], false) == [".."] + path
    ensures CleanParts([""] + ([".."] + path), [], true) == path
  {
    assert path + [] == path && [] + path == path && [] + [a] == [a] && [] + [".."] == [".."];
    forall done: seq<string>, rooted: bool
      ensures CleanParts(path, done, rooted) == done + path
    {
      CleanKeeps(path, done, rooted, []);
    }
    forall p: string, rest: seq<string>
      ensures ([p] + rest)[1..] == rest
    {
    }
  }

  /** A name is valid exactly if it is a path of one component, and not the way up. */
  lemma ValidIsComponent(name: string)
    ensures ValidName(name) <==> Components(name) == [name] && name != ".."
  {
    if '/' !in name {
      SplitNoSlash(name);
      assert [name][1..] == [] && [] + [name] == [name];
      assert Components(name) == CleanParts([name], [], false);
      assert CleanParts([], [name], false) == [name] && CleanParts([], [], false) == [];
    } else {
      NoSlashLeft(Split(name), [], name != "" && name[0] == '/');
      SplitHasNone(name);
      assert forall p :: p in Components(name) ==> '/' !in p;
      assert name in [name];
    }
  }

  lemma {:induction false} SplitHasNone(s: string)
    ensures forall p :: p in Split(s) ==> '/' !in p
    decreases |s|
  {
    if s != "" {
      SplitHasNone(s[1..]);
      var rest := Split(s[1..]);
      assert rest[0] in rest;
    }
  }

  lemma {:induction false} NoSlashLeft(parts: seq<string>, done: seq<string>, rooted: bool)
    ensures forall p :: p in CleanParts(parts, done, rooted) ==> p in parts || p in done
    decreases |parts|
  {
    if parts != [] {
      var p := parts[0];
      NoSlashLeft(parts[1..], done, rooted);
      NoSlashLeft(parts[1..], done + [p], rooted);
      if done != [] {
        NoSlashLeft(parts[1..], done[..|done| - 1], rooted);
      }
    }
  }

  /** path.Join of a prefix that is empty or joined already with one more name. */
  lemma {:induction false} JoinMore(parts: seq<string>, name: string)
    ensures Join(parts + [name]) == if parts == [] then name else Join(parts) + "/" + name
    decreases |parts|
  {
    if |parts| == 1 {
      assert (parts + [name])[1..] == [name];
    } else if parts != [] {
      JoinMore(parts[1..], name);
      assert (parts + [name])[1..] == parts[1..] + [name];
    }
  }
}
