/** pkg/alloc/alloc.go: an allocation spread over several runs, rolled back when it fails. */
module RunAllocation {
  import opened Options
  import opened Alloc

  // ----- What one call may hand out, as a function of the used set.

  /** One run of at most want blocks: all of want when that fits, otherwise what the allocator
      has. A capable allocator gives a prefix of its lowest free run, a plain one is asked for
      half as much until that fits. */
  function AtMost(used: set<nat>, total: nat, want: nat, capable: bool): (r: Option<Run>)
    requires want > 0
    ensures r.Some? ==> 0 < r.value.len <= want && FreeRun(used, total, r.value.start, r.value.len)
  {
    match LowestFit(used, total, 0, want)
    case Some(start) => Some(Run(start, want))
    case None => if capable then LowestPrefix(used, total, want) else Halving(used, total, want / 2)
  }

  function Halving(used: set<nat>, total: nat, want: nat): (r: Option<Run>)
    ensures r.Some? ==> 0 < r.value.len <= want && FreeRun(used, total, r.value.start, r.value.len)
  {
    if want == 0 then None
    else
      match LowestFit(used, total, 0, want)
      case Some(start) => Some(Run(start, want))
      case None => Halving(used, total, want / 2)
  }

  /** len is what is left of want after halving it a number of times. */
  predicate Halved(want: nat, len: nat) {
    len == want || (want > 0 && Halved(want / 2, len))
  }

  /** Halving stops at the first length that fits anywhere, and takes the lowest such run. */
  lemma {:induction false} HalvingIsFirst(used: set<nat>, total: nat, want: nat)
    ensures match Halving(used, total, want)
      case None => forall w: nat :: 0 < w && Halved(want, w) ==> !Fits(used, total, w)
      case Some(run) =>
        && Halved(want, run.len) && NoneBelow(used, total, run.start, run.len)
        && (forall w: nat :: run.len < w && Halved(want, w) ==> !Fits(used, total, w))
    decreases want
  {
    HalvedIsLess(want);
    if want > 0 {
      FitsWhen(used, total, want);
      HalvedIsLess(want / 2);
      HalvingIsFirst(used, total, want / 2);
    }
  }

  lemma {:induction false} HalvedIsLess(want: nat)
    ensures forall w: nat :: Halved(want, w) ==> w <= want
  {
    if want > 0 {
      HalvedIsLess(want / 2);
    }
  }

  /** The whole request is served exactly when so many blocks are free in a row, by the lowest such run.
      Otherwise a capable allocator serves the beginning of its lowest free run, and a plain one the
      first half, quarter and so on of the request that fits. */
  lemma WholeWhenItFits(used: set<nat>, total: nat, want: nat, capable: bool)
    requires want > 0
    ensures AtMost(used, total, want, capable).Some? <==> Fits(used, total, 1)
    ensures AtMost(used, total, want, capable).Some? ==>
      BestRun(used, total, AtMost(used, total, want, capable).value, want, capable)
  {
    hide LowestFit, Halving, LowestPrefix;
    FitsWhen(used, total, want);
    PrefixWhen(used, total, want);
    HalvedIsLess(want / 2);
    HalvingIsFirst(used, total, want / 2);
    AtMostServes(used, total, want, capable);
    AnyFree(used, total);
    FitsWhen(used, total, 1);
  }

  ghost predicate BestRun(used: set<nat>, total: nat, run: Run, want: nat, capable: bool) {
    && 0 < run.len <= want && FreeRun(used, total, run.start, run.len)
    && (run.len == want <==> Fits(used, total, want))
    && (run.len == want || !capable ==> NoneBelow(used, total, run.start, run.len))
    && (run.len < want ==>
          if capable then IsLowestPrefix(used, total, run, want)
          else Halved(want, run.len) && (forall w: nat :: run.len < w && Halved(want, w) ==> !Fits(used, total, w)))
  }

  function Cap(left: nat, maxRun: nat): nat {
    if 0 < maxRun < left then maxRun else left
  }

  /** The runs that left blocks are spread over, None when they cannot all be placed. */
  function Chain(used: set<nat>, total: nat, left: nat, maxRun: nat, capable: bool): Option<seq<Run>>
    decreases left
  {
    if left == 0 then Some([])
    else
      match AtMost(used, total, Cap(left, maxRun), capable)
      case None => None
      case Some(run) => Prepend([run], Chain(used + Taken(run), total, left - run.len, maxRun, capable))
  }

  function Prepend(runs: seq<Run>, rest: Option<seq<Run>>): Option<seq<Run>> {
    match rest
    case None => None
    case Some(more) => Some(runs + more)
  }

  // ----- What a chain of runs is good for.

  /** The block numbers of the runs, in order. */
  function Flatten(runs: seq<Run>): seq<nat> {
    if runs == [] then []
    else seq(runs[0].len, i requires 0 <= i => runs[0].start + i) + Flatten(runs[1..])
  }

  ghost predicate Distinct(s: seq<nat>) {
    forall i, j :: 0 <= i < j < |s| ==> s[i] != s[j]
  }

  /** The blocks still free. */
  function FreeCount(used: set<nat>, total: nat): nat {
    |Span(0, total) - used|
  }

  lemma FewerThan(s: set<nat>, t: set<nat>)
    requires s <= t
    ensures |s| <= |t|
  {
    assert t == s + (t - s);
  }

  lemma {:induction false} SpanSize(a: nat, b: nat)
    requires a <= b
    ensures |Span(a, b)| == b - a
    decreases b
  {
    if a < b {
      SpanSize(a, b - 1);
      assert Span(a, b) == Span(a, b - 1) + {b - 1};
    } else {
      assert Span(a, b) == {};
    }
  }

  /** One block is free exactly when the lowest free block exists. */
  lemma AnyFree(used: set<nat>, total: nat)
    ensures LowestFit(used, total, 0, 1).None? <==> FreeCount(used, total) == 0
  {
    var free := Span(0, total) - used;
    match LowestFit(used, total, 0, 1) {
      case Some(s) =>
        assert s in Span(s, s + 1);
        assert s in free;
      case None =>
        if free != {} {
          var b :| b in free;
          assert Span(b, b + 1) == {b};
          LowestFitIsLeast(used, total, 0, 1, b);
        }
    }
  }

  lemma {:induction false} HalvingReachesOne(used: set<nat>, total: nat, want: nat)
    requires want > 0 && FreeCount(used, total) > 0
    ensures Halving(used, total, want).Some?
    decreases want
  {
    AnyFree(used, total);
    if want > 1 {
      HalvingReachesOne(used, total, want / 2);
    }
  }

  /** Some run is handed out exactly when some block is free, with or without AllocUpTo. */
  lemma AtMostServes(used: set<nat>, total: nat, want: nat, capable: bool)
    requires want > 0
    ensures AtMost(used, total, want, capable).Some? <==> FreeCount(used, total) > 0
  {
    AnyFree(used, total);
    if LowestFit(used, total, 0, want).None? && FreeCount(used, total) > 0 && !capable {
      if want == 1 {
        assert false;
      }
      HalvingReachesOne(used, total, want / 2);
    }
    match AtMost(used, total, want, capable) {
      case None =>
      case Some(run) =>
        assert run.start in Span(run.start, run.start + run.len);
        assert run.start in Span(0, total) - used;
    }
  }

  lemma FreeCountAfter(used: set<nat>, total: nat, run: Run)
    requires FreeRun(used, total, run.start, run.len)
    ensures FreeCount(used + Taken(run), total) == FreeCount(used, total) - run.len
  {
    var taken := Taken(run);
    SpanSize(run.start, run.start + run.len);
    assert Span(0, total) - used == (Span(0, total) - (used + taken)) + taken;
  }

  /** A chain exists exactly when enough blocks are free, fragmented or not. */
  lemma {:induction false} ChainExists(used: set<nat>, total: nat, left: nat, maxRun: nat, capable: bool)
    ensures Chain(used, total, left, maxRun, capable).Some? <==> FreeCount(used, total) >= left
    decreases left
  {
    hide FreeCount, AtMost, Taken;
    if left > 0 {
      AtMostServes(used, total, Cap(left, maxRun), capable);
      match AtMost(used, total, Cap(left, maxRun), capable) {
        case None =>
        case Some(run) =>
          var used' := used + Taken(run);
          FreeCountAfter(used, total, run);
          ChainExists(used', total, left - run.len, maxRun, capable);
      }
    }
  }

  /** A chain is made of distinct blocks that were free, in runs within the cap. */
  lemma {:induction false} ChainIsFree(used: set<nat>, total: nat, left: nat, maxRun: nat, capable: bool)
    requires Chain(used, total, left, maxRun, capable).Some?
    ensures var runs := Chain(used, total, left, maxRun, capable).value;
      && |Flatten(runs)| == left
      && Distinct(Flatten(runs))
      && (forall b :: b in Flatten(runs) <==> b in Blocks(runs))
      && Blocks(runs) !! used && Blocks(runs) <= Span(0, total)
      && (forall r :: r in runs ==> 0 < r.len && (maxRun > 0 ==> r.len <= maxRun))
    decreases left
  {
    hide AtMost, LowestFit, Chain, Flatten, Blocks, Distinct, Taken, Span, FreeRun, Cap;
    FirstRun(used, total, left, maxRun, capable);
    if left > 0 {
      var run := AtMost(used, total, Cap(left, maxRun), capable).value;
      var used' := used + Taken(run);
      ChainIsFree(used', total, left - run.len, maxRun, capable);
      RunFirst(run, Chain(used', total, left - run.len, maxRun, capable).value);
    }
  }

  /** The first run of a chain, and the chain of what is left. */
  lemma FirstRun(used: set<nat>, total: nat, left: nat, maxRun: nat, capable: bool)
    requires Chain(used, total, left, maxRun, capable).Some?
    ensures left == 0 ==>
      var runs := Chain(used, total, left, maxRun, capable).value;
      runs == [] && Flatten(runs) == [] && Blocks(runs) == {} && Distinct(Flatten(runs))
    ensures left > 0 ==>
      && Cap(left, maxRun) > 0 && AtMost(used, total, Cap(left, maxRun), capable).Some?
      && var run := AtMost(used, total, Cap(left, maxRun), capable).value;
         var rest := Chain(used + Taken(run), total, left - run.len, maxRun, capable);
      && 0 < run.len <= left && (maxRun > 0 ==> run.len <= maxRun) && rest.Some?
      && Chain(used, total, left, maxRun, capable).value == [run] + rest.value
      && Taken(run) !! used && Taken(run) <= Span(0, total)
  {
    hide AtMost;
    if left > 0 {
      AtMostIsFree(used, total, Cap(left, maxRun), capable);
    }
  }

  /** One more run before the others. */
  lemma RunFirst(run: Run, rest: seq<Run>)
    requires Distinct(Flatten(rest)) && (forall b :: b in Flatten(rest) <==> b in Blocks(rest))
    requires Blocks(rest) !! Taken(run)
    ensures |Flatten([run] + rest)| == run.len + |Flatten(rest)| && Distinct(Flatten([run] + rest))
    ensures forall b :: b in Flatten([run] + rest) <==> b in Blocks([run] + rest)
    ensures Blocks([run] + rest) == Taken(run) + Blocks(rest)
  {
    hide Blocks, Taken;
    var all := [run] + rest;
    assert all[1..] == rest;
    var first := seq(run.len, i requires 0 <= i => run.start + i);
    FirstBlocks(run, first);
    BlocksFirst(run, rest);
    assert Flatten(all) == first + Flatten(rest);
    forall i, j | 0 <= i < j < |Flatten(all)|
      ensures Flatten(all)[i] != Flatten(all)[j]
    {
      if i < run.len <= j {
        assert Flatten(rest)[j - run.len] in Flatten(rest);
        assert first[i] in first;
      } else if run.len <= i {
        assert Flatten(all)[i] == Flatten(rest)[i - run.len] && Flatten(all)[j] == Flatten(rest)[j - run.len];
      }
    }
  }

  lemma BlocksFirst(run: Run, rest: seq<Run>)
    ensures Blocks([run] + rest) == Taken(run) + Blocks(rest)
  {
    assert ([run] + rest)[1..] == rest;
  }

  lemma FirstBlocks(run: Run, first: seq<nat>)
    requires first == seq(run.len, i requires 0 <= i => run.start + i)
    ensures forall b :: b in first <==> b in Taken(run)
  {
    forall b | b in Taken(run)
      ensures b in first
    {
      assert first[b - run.start] == b;
    }
  }

  lemma {:induction false} BlocksAppend(runs: seq<Run>, more: seq<Run>)
    ensures Blocks(runs + more) == Blocks(runs) + Blocks(more)
  {
    if runs == [] {
      assert runs + more == more;
    } else {
      BlocksAppend(runs[1..], more);
      assert (runs + more)[1..] == runs[1..] + more;
    }
  }

  /** Every run of a chain is the best one for what is left behind the runs before it. */
  lemma {:induction false} ChainIsBest(used: set<nat>, total: nat, left: nat, maxRun: nat, capable: bool, k: nat)
    requires Chain(used, total, left, maxRun, capable).Some?
    requires k < |Chain(used, total, left, maxRun, capable).value|
    ensures var runs := Chain(used, total, left, maxRun, capable).value;
      && |Flatten(runs[..k])| < left
      && BestRun(used + Blocks(runs[..k]), total, runs[k], Cap(left - |Flatten(runs[..k])|, maxRun), capable)
    decreases left
  {
    hide AtMost, LowestFit, Chain, FreeRun, Cap, BestRun;
    FirstRun(used, total, left, maxRun, capable);
    var run := AtMost(used, total, Cap(left, maxRun), capable).value;
    var runs := Chain(used, total, left, maxRun, capable).value;
    if k == 0 {
      assert runs[..0] == [] && used + Blocks([]) == used;
      WholeWhenItFits(used, total, Cap(left, maxRun), capable);
    } else {
      var used' := used + Taken(run);
      var rest := Chain(used', total, left - run.len, maxRun, capable).value;
      ChainIsBest(used', total, left - run.len, maxRun, capable, k - 1);
      assert runs[..k] == [run] + rest[..k - 1] && runs[k] == rest[k - 1];
      BlocksFirst(run, rest[..k - 1]);
      assert used' + Blocks(rest[..k - 1]) == used + Blocks(runs[..k]);
      assert runs[..k][1..] == rest[..k - 1];
    }
  }

  /** A request within the cap is served by one run exactly when so many blocks are free in a row. */
  lemma OneRunWhenItFits(used: set<nat>, total: nat, n: nat, maxRun: nat, capable: bool)
    requires 0 < n && Cap(n, maxRun) == n && Chain(used, total, n, maxRun, capable).Some?
    ensures var runs := Chain(used, total, n, maxRun, capable).value;
      && (|runs| == 1 <==> Fits(used, total, n))
      && (|runs| == 1 ==> runs[0].len == n && NoneBelow(used, total, runs[0].start, n))
  {
    hide AtMost, LowestFit, Chain, FreeRun, Fits, NoneBelow;
    var runs := Chain(used, total, n, maxRun, capable).value;
    FirstRun(used, total, n, maxRun, capable);
    ChainIsBest(used, total, n, maxRun, capable, 0);
    ChainIsFree(used, total, n, maxRun, capable);
    assert runs[..0] == [] && used + Blocks([]) == used;
    assert Flatten(runs) == seq(runs[0].len, i requires 0 <= i => runs[0].start + i) + Flatten(runs[1..]);
    if runs[0].len == n {
      FirstRun(used + Taken(runs[0]), total, 0, maxRun, capable);
    }
  }

  // ----- The methods.

  /** allocAtMost: capable says whether the allocator implements AllocUpTo. */
  method AllocAtMost(a: Bitmap, want: nat, capable: bool) returns (r: Result<Run>)
    requires a.Valid() && want > 0
    modifies a`hint, a`marked, a.words
    ensures a.Valid()
    ensures r == OrNoSpace(AtMost(old(a.Used()), a.total, want, capable))
    ensures r.Ok? <==> Fits(old(a.Used()), a.total, 1)
    ensures r.Ok? ==> BestRun(old(a.Used()), a.total, r.value, want, capable)
    ensures a.Used() == old(a.Used()) + if r.Ok? then Taken(r.value) else {}
  {
    hide Fits, BestRun, NoneBelow, FreeRun, LowestFit, LowestPrefix, Span, Bitmap.Used;
    WholeWhenItFits(a.Used(), a.total, want, capable);
    var s := a.Alloc(want);
    if s.Ok? {
      return Ok(Run(s.value, want));
    }
    assert a.Used() == old(a.Used());
    if capable {
      r := a.AllocUpTo(want);
      return r;
    }
    // Plain allocator: halve the request until a run fits.
    var w: nat := want / 2;
    while w > 0
      invariant a.Valid() && a.Used() == old(a.Used())
      invariant AtMost(a.Used(), a.total, want, capable) == Halving(a.Used(), a.total, w)
    {
      s := a.Alloc(w);
      if s.Ok? {
        return Ok(Run(s.value, w));
      }
      w := w / 2;
    }
    return Err(NoSpace);
  }

  ghost predicate InRange(runs: seq<Run>, total: nat) {
    forall r :: r in runs ==> r.start + r.len <= total
  }

  /** now is the used set that was there before together with runs, which were free then. */
  ghost predicate Holding(now: set<nat>, used: set<nat>, runs: seq<Run>, total: nat) {
    now == used + Blocks(runs) && Blocks(runs) !! used && InRange(runs, total)
  }

  lemma HoldingNothing(used: set<nat>, total: nat)
    ensures Holding(used, used, [], total) && used == used + Blocks([])
  {
  }

  lemma HoldingIs(now: set<nat>, used: set<nat>, runs: seq<Run>, total: nat)
    requires Holding(now, used, runs, total)
    ensures now == used + Blocks(runs) && Blocks(runs) !! used && InRange(runs, total)
  {
  }

  lemma HoldingMore(now: set<nat>, used: set<nat>, runs: seq<Run>, run: Run, total: nat)
    requires Holding(now, used, runs, total)
    requires Taken(run) !! now && run.start + run.len <= total
    ensures Holding(now + Taken(run), used, runs + [run], total)
  {
    BlocksAppend(runs, [run]);
    assert Blocks([run]) == Taken(run);
  }

  /** Give back every run of a failed allocation. */
  lemma TakenIs(run: Run)
    ensures Taken(run) == Span(run.start, run.start + run.len)
  {
  }

  lemma NoBlocksLeft()
    ensures Blocks([]) == {}
  {
  }

  method Release(a: Bitmap, runs: seq<Run>, ghost used: set<nat>)
    requires a.Valid() && Holding(a.Used(), used, runs, a.total)
    modifies a`hint, a`marked, a.words
    ensures a.Valid() && a.Used() == used
  {
    hide Blocks, Taken, Span, Bitmap.Used;
    assert runs[0..] == runs;
    for k := 0 to |runs|
      invariant a.Valid()
      invariant used <= a.Used() <= used + Blocks(runs[k..])
      invariant Blocks(runs[k..]) !! used && InRange(runs, a.total)
    {
      assert runs[k] in runs;
      assert runs[k..] == [runs[k]] + runs[k + 1..];
      BlocksFirst(runs[k], runs[k + 1..]);
      TakenIs(runs[k]);
      var _ := a.Free(runs[k].start, runs[k].len);
    }
    assert runs[|runs|..] == [];
    NoBlocksLeft();
  }

  method AllocRuns(a: Bitmap, n: nat, maxRun: nat, capable: bool) returns (r: Result<seq<Run>>)
    requires a.Valid()
    modifies a`hint, a`marked, a.words
    ensures a.Valid()
    ensures r == OrNoSpace(Chain(old(a.Used()), a.total, n, maxRun, capable))
    ensures r.Ok? <==> FreeCount(old(a.Used()), a.total) >= n
    ensures r.Ok? && 0 < n && (maxRun == 0 || n <= maxRun) ==>
      && (|r.value| == 1 <==> Fits(old(a.Used()), a.total, n))
      && (|r.value| == 1 ==> r.value[0].len == n && NoneBelow(old(a.Used()), a.total, r.value[0].start, n))
    ensures a.Used() == old(a.Used()) + if r.Ok? then Blocks(r.value) else {}
  {
    hide Chain, AtMost, FreeCount, Span, FreeRun, Blocks, Prepend, Taken, Holding, Cap, Fits, BestRun, NoneBelow;
    ghost var used := a.Used();
    ghost var plan := Chain(used, a.total, n, maxRun, capable);
    ChainExists(used, a.total, n, maxRun, capable);
    ChainDone(used, a.total, maxRun, capable);
    if 0 < n && (maxRun == 0 || n <= maxRun) && plan.Some? {
      CapIs(n, maxRun);
      OneRunWhenItFits(used, a.total, n, maxRun, capable);
    }
    HoldingNothing(used, a.total);
    PrependLaws([], plan);
    if n == 0 {
      return Ok([]);
    }
    var runs: seq<Run> := [];
    var left: nat := n;
    while left > 0
      invariant a.Valid()
      invariant Holding(a.Used(), used, runs, a.total)
      invariant plan == Prepend(runs, Chain(a.Used(), a.total, left, maxRun, capable))
    {
      ghost var before := a.Used();
      var want := Cap(left, maxRun);
      ChainStep(before, a.total, left, maxRun, capable);
      var s := AllocAtMost(a, want, capable);
      if s.Err? {
        PrependLaws(runs, None);
        assert a.Used() == before;
        Release(a, runs, used);
        return Err(s.error);
      }
      HoldingMore(before, used, runs, s.value, a.total);
      PrependAppend(runs, s.value, Chain(a.Used(), a.total, left - s.value.len, maxRun, capable));
      runs := runs + [s.value];
      left := left - s.value.len;
    }
    PrependLaws(runs, Some([]));
    ChainDone(a.Used(), a.total, maxRun, capable);
    HoldingIs(a.Used(), used, runs, a.total);
    return Ok(runs);
  }

  lemma CapIs(n: nat, maxRun: nat)
    requires maxRun == 0 || n <= maxRun
    ensures Cap(n, maxRun) == n
  {
  }

  lemma ChainDone(used: set<nat>, total: nat, maxRun: nat, capable: bool)
    ensures Chain(used, total, 0, maxRun, capable) == Some([])
  {
  }

  lemma PrependLaws(runs: seq<Run>, rest: Option<seq<Run>>)
    ensures Prepend([], rest) == rest
    ensures Prepend(runs, None) == None
    ensures Prepend(runs, Some([])) == Some(runs)
  {
    assert runs + [] == runs;
    if rest.Some? {
      assert [] + rest.value == rest.value;
    }
  }

  lemma PrependAppend(runs: seq<Run>, run: Run, rest: Option<seq<Run>>)
    ensures Prepend(runs, Prepend([run], rest)) == Prepend(runs + [run], rest)
  {
    if rest.Some? {
      assert runs + ([run] + rest.value) == runs + [run] + rest.value;
    }
  }

  lemma ChainStep(used: set<nat>, total: nat, left: nat, maxRun: nat, capable: bool)
    requires left > 0
    ensures Cap(left, maxRun) > 0
    ensures var one := AtMost(used, total, Cap(left, maxRun), capable);
      if one.None? then Chain(used, total, left, maxRun, capable) == None
      else
        && 0 < one.value.len <= left && Taken(one.value) !! used && one.value.start + one.value.len <= total
        && Chain(used, total, left, maxRun, capable) ==
           Prepend([one.value], Chain(used + Taken(one.value), total, left - one.value.len, maxRun, capable))
  {
    hide AtMost, Span, FreeRun;
    AtMostIsFree(used, total, Cap(left, maxRun), capable);
  }

  lemma AtMostIsFree(used: set<nat>, total: nat, want: nat, capable: bool)
    requires want > 0
    ensures match AtMost(used, total, want, capable)
      case None => true
      case Some(run) => run.start + run.len <= total && Taken(run) !! used
  {
    hide AtMost;
  }
}
