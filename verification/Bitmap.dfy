/** pkg/alloc: first-fit block allocation over a bitmap of 64-bit words. */
module Alloc {
  import opened Sizes
  import opened Options
  import opened Words

  datatype AllocError = NoSpace | ZeroLength | OutOfRange

  datatype Result<T> = Ok(value: T) | Err(error: AllocError)

  datatype Run = Run(start: nat, len: nat)

  // ----- The specification: a plain set of used blocks below a total.

  /** The blocks a, a+1, ..., b-1. */
  function Span(a: nat, b: nat): (s: set<nat>)
  {
    set i: nat | a <= i < b && Within(i, a, b)
  }

  predicate Within(i: nat, a: nat, b: nat) {
    a <= i < b
  }

  predicate FreeRun(used: set<nat>, total: nat, start: nat, n: nat) {
    start + n <= total && Span(start, start + n) !! used
  }

  /** No run of n free blocks begins below limit. */
  ghost predicate NoneBelow(used: set<nat>, total: nat, limit: nat, n: nat) {
    forall s: nat :: s < limit ==> !FreeRun(used, total, s, n)
  }

  /** The naive first fit: try every start in turn. */
  function LowestFit(used: set<nat>, total: nat, from: nat, n: nat): (r: Option<nat>)
    ensures r.Some? ==> from <= r.value && FreeRun(used, total, r.value, n)
    decreases total + 1 - from
  {
    if from + n > total then None
    else if FreeRun(used, total, from, n) then Some(from)
    else LowestFit(used, total, from + 1, n)
  }

  /** LowestFit finds the least start there is. */
  lemma {:induction false} LowestFitIsLeast(used: set<nat>, total: nat, from: nat, n: nat, s: nat)
    requires from <= s && FreeRun(used, total, s, n)
    ensures LowestFit(used, total, from, n).Some? && LowestFit(used, total, from, n).value <= s
    decreases total + 1 - from
  {
    if from < s && !FreeRun(used, total, from, n) {
      LowestFitIsLeast(used, total, from + 1, n, s);
    }
  }

  lemma FirstFit(used: set<nat>, total: nat, start: nat, n: nat)
    requires FreeRun(used, total, start, n) && NoneBelow(used, total, start, n)
    ensures LowestFit(used, total, 0, n) == Some(start)
  {
    LowestFitIsLeast(used, total, 0, n, start);
  }

  lemma NothingFits(used: set<nat>, total: nat, n: nat)
    requires n > 0 && NoneBelow(used, total, total, n)
    ensures LowestFit(used, total, 0, n) == None
  {
  }

  /** How many of the blocks from start on are free, up to n. */
  function FreePrefix(used: set<nat>, total: nat, start: nat, n: nat): (got: nat)
    ensures got <= n && (start <= total ==> FreeRun(used, total, start, got))
    ensures got < n ==> start + got >= total || start + got in used
    decreases n
  {
    if n == 0 || start >= total || start in used then 0
    else 1 + FreePrefix(used, total, start + 1, n - 1)
  }

  function OrNoSpace<T>(o: Option<T>): Result<T> {
    match o
    case None => Err(NoSpace)
    case Some(v) => Ok(v)
  }

  /** As much of the lowest free run as n asks for: it goes on to n blocks, a used block or the end. */
  function LowestPrefix(used: set<nat>, total: nat, n: nat): (r: Option<Run>)
    ensures n > 0 && r.Some? ==> 0 < r.value.len <= n && FreeRun(used, total, r.value.start, r.value.len)
    ensures r.Some? ==> AsFarAs(used, total, r.value, n)
  {
    match LowestFit(used, total, 0, 1)
    case None => None
    case Some(start) =>
      assert start in Span(start, start + 1);
      Some(Run(start, FreePrefix(used, total, start, n)))
  }

  /** No run of at most n blocks that begins where this one does is longer. */
  predicate AsFarAs(used: set<nat>, total: nat, run: Run, n: nat) {
    run.len < n ==> run.start + run.len >= total || run.start + run.len in used
  }

  /** Some n free blocks lie in a row. */
  ghost predicate Fits(used: set<nat>, total: nat, n: nat) {
    exists s: nat :: FreeRun(used, total, s, n)
  }

  /** First fit finds a run exactly when there is one, and no lower one fits. */
  lemma FitsWhen(used: set<nat>, total: nat, n: nat)
    ensures LowestFit(used, total, 0, n).Some? <==> Fits(used, total, n)
    ensures LowestFit(used, total, 0, n).Some? ==>
      && FreeRun(used, total, LowestFit(used, total, 0, n).value, n)
      && NoneBelow(used, total, LowestFit(used, total, 0, n).value, n)
  {
    forall s: nat | FreeRun(used, total, s, n)
      ensures LowestFit(used, total, 0, n).Some? && LowestFit(used, total, 0, n).value <= s
    {
      LowestFitIsLeast(used, total, 0, n, s);
    }
  }

  /** The blocks of one run. */
  function Taken(run: Run): set<nat> {
    Span(run.start, run.start + run.len)
  }

  /** The blocks of a list of runs. */
  function Blocks(runs: seq<Run>): set<nat> {
    if runs == [] then {} else Taken(runs[0]) + Blocks(runs[1..])
  }

  /** A free run of at most n blocks with nothing free before it and no more behind it. */
  ghost predicate IsLowestPrefix(used: set<nat>, total: nat, run: Run, n: nat) {
    && 0 < run.len <= n && FreeRun(used, total, run.start, run.len)
    && NoneBelow(used, total, run.start, 1) && AsFarAs(used, total, run, n)
  }

  lemma PrefixTaken(used: set<nat>, total: nat, start: nat, got: nat, n: nat)
    requires 0 < got <= n && FreeRun(used, total, start, got) && NoneBelow(used, total, start, 1)
    requires got < n ==> start + got == total || start + got in used
    ensures LowestPrefix(used, total, n) == Some(Run(start, got))
  {
    PartIsFree(used, total, start, got, 1);
    FirstFit(used, total, start, 1);
    PrefixLength(used, total, start, got, n);
  }

  lemma PrefixWhen(used: set<nat>, total: nat, n: nat)
    requires n > 0
    ensures LowestPrefix(used, total, n).Some? <==> Fits(used, total, 1)
    ensures LowestPrefix(used, total, n).Some? ==>
      IsLowestPrefix(used, total, LowestPrefix(used, total, n).value, n)
  {
    FitsWhen(used, total, 1);
  }

  lemma {:induction false} PrefixLength(used: set<nat>, total: nat, start: nat, got: nat, n: nat)
    requires got <= n && FreeRun(used, total, start, got)
    requires got < n ==> start + got == total || start + got in used
    ensures FreePrefix(used, total, start, n) == got
    decreases n
  {
    if got > 0 {
      assert start in Span(start, start + got);
      assert Span(start + 1, start + got) <= Span(start, start + got);
      PrefixLength(used, total, start + 1, got - 1, n - 1);
    }
  }

  /** The lowest free run, cut to n, is as long as any free run cut to n exactly if it has n blocks or
      one block more than it has fits nowhere. */
  lemma LongestWhen(used: set<nat>, total: nat, n: nat)
    requires n > 0 && LowestPrefix(used, total, n).Some?
    ensures var run := LowestPrefix(used, total, n).value;
      (forall s: nat, m: nat :: m <= n && FreeRun(used, total, s, m) ==> m <= run.len) <==>
      run.len == n || LowestFit(used, total, 0, run.len + 1).None?
  {
    hide FreeRun, LowestFit;
    var len := LowestPrefix(used, total, n).value.len;
    forall s: nat, m: nat | len < m <= n && FreeRun(used, total, s, m)
      ensures LowestFit(used, total, 0, len + 1).Some?
    {
      PartIsFree(used, total, s, m, len + 1);
      LowestFitIsLeast(used, total, 0, len + 1, s);
    }
    if len < n && LowestFit(used, total, 0, len + 1).Some? {
      assert FreeRun(used, total, LowestFit(used, total, 0, len + 1).value, len + 1);
    }
  }

  lemma PartIsFree(used: set<nat>, total: nat, s: nat, m: nat, k: nat)
    requires FreeRun(used, total, s, m) && k <= m
    ensures FreeRun(used, total, s, k)
  {
    assert Span(s, s + k) <= Span(s, s + m);
  }

  /** Of the blocks 0, 2 and 3, block 0 is taken: a run of one where two blocks lie together. */
  lemma LowestIsShorter()
    ensures LowestPrefix({1}, 4, 3) == Some(Run(0, 1)) && FreeRun({1}, 4, 2, 2)
  {
    assert Span(0, 1) == {0} && Span(2, 4) == {2, 3};
    FirstFit({1}, 4, 0, 1);
    PrefixLength({1}, 4, 0, 1, 3);
  }

  /** A free stretch shorter than n followed by used blocks adds no candidate. */
  lemma NoneBelowStep(used: set<nat>, total: nat, from: nat, end: nat, next: nat, n: nat)
    requires from <= end <= next <= total && end - from < n
    requires NoneBelow(used, total, from, n)
    requires Span(end, next) <= used && (end == next ==> end == total || from == end)
    ensures NoneBelow(used, total, next, n)
  {
    forall s: nat | from <= s < next
      ensures !FreeRun(used, total, s, n)
    {
      if end < next {
        var hit := if s < end then end else s;
        assert hit in Span(end, next) && hit in Span(s, s + n);
      }
    }
  }

  class Bitmap {
    const total: nat
    const words: array<nat>
    var hint: nat // no block below hint is free
    ghost var marked: set<nat> // the positions of the set bits, padding included

    ghost predicate Shaped()
      reads this, words
    {
      && total + 63 < TWO64
      && words.Length == (total + 63) / 64
      && marked <= Span(0, 64 * words.Length)
      && (forall k :: 0 <= k < words.Length ==> IsWord(words[k]))
      && (forall k: nat, b: nat {:trigger Bit(words[k], b)} ::
            k < words.Length && b < 64 ==> (Bit(words[k], b) <==> 64 * k + b in marked))
    }

    ghost predicate Valid()
      reads this, words
    {
      && Shaped()
      && Span(total, 64 * words.Length) <= marked
      && hint <= total
      && Span(0, hint) <= marked
    }

    /** The abstract state: which of the managed blocks are in use. */
    ghost function Used(): (s: set<nat>)
      reads this
    {
      marked * Span(0, total)
    }

    constructor (total: nat)
      requires total + 63 < TWO64
      ensures Valid() && this.total == total && fresh(words)
      ensures Used() == {}
    {
      this.total := total;
      words := new nat[(total + 63) / 64](_ => 0);
      hint := 0;
      marked := {};
      new;
      forall k: nat, b: nat | k < words.Length && b < 64
        ensures !Bit(words[k], b)
      {
        ZeroBits(b);
      }
      var i := total;
      while i < 64 * words.Length
        invariant total <= i <= 64 * words.Length
        invariant Shaped() && hint == 0
        invariant marked == Span(total, i)
      {
        Mark(i);
        i := i + 1;
      }
    }

    method Mark(i: nat)
      requires Shaped() && i < 64 * words.Length
      modifies this`marked, words
      ensures Shaped() && marked == old(marked) + {i}
    {
      ghost var was := words[i / 64];
      words[i / 64] := Or(words[i / 64], Pow2(i % 64), WIDTH);
      marked := marked + {i};
      WordOps(was, Pow2(i % 64));
      OneBitOps(was, i % 64);
      forall k: nat, b: nat | k < words.Length && b < 64
        ensures Bit(words[k], b) <==> 64 * k + b in marked
      {
        assert k != i / 64 ==> words[k] == old(words[k]);
        assert Bit(old(words[k]), b) <==> 64 * k + b in old(marked);
      }
    }

    method Unmark(i: nat)
      requires Shaped() && i < 64 * words.Length
      modifies this`marked, words
      ensures Shaped() && marked == old(marked) - {i}
    {
      ghost var was := words[i / 64];
      words[i / 64] := AndNot(words[i / 64], Pow2(i % 64), WIDTH);
      marked := marked - {i};
      WordOps(was, Pow2(i % 64));
      OneBitOps(was, i % 64);
      forall k: nat, b: nat | k < words.Length && b < 64
        ensures Bit(words[k], b) <==> 64 * k + b in marked
      {
        assert k != i / 64 ==> words[k] == old(words[k]);
        assert Bit(old(words[k]), b) <==> 64 * k + b in old(marked);
      }
    }

    /** The lowest free block at or after from, or total. */
    method FirstFree(from: nat) returns (r: nat)
      requires Valid()
      ensures r <= total && (from <= total ==> from <= r)
      ensures Span(from, r) <= marked
      ensures r < total ==> r !in marked
    {
      if from >= total {
        return total;
      }
      var i := from / 64;
      var w := Or(words[i], LowMask(from % 64), WIDTH); // pretend bits before from are used
      WordOps(words[i], LowMask(from % 64));
      LowMaskOps(words[i], from % 64);
      while true
        invariant from / 64 <= i < words.Length
        invariant IsWord(w)
        invariant forall b: nat :: b < 64 ==> (Bit(w, b) <==> 64 * i + b < from || 64 * i + b in marked)
        invariant Span(from, 64 * i) <= marked
        decreases words.Length - i
      {
        if w != ALL_ONES {
          LowestClear(w);
          r := i * 64 + TrailingZeros(Not(w, WIDTH));
          assert !Bit(w, r - 64 * i);
          forall j: nat | 64 * i <= j < r
            ensures j in marked || j < from
          {
            assert Bit(w, j - 64 * i);
          }
          return;
        }
        forall j: nat | 64 * i <= j < 64 * (i + 1)
          ensures j in marked || j < from
        {
          OnesBits(j - 64 * i);
          assert Bit(w, j - 64 * i);
        }
        i := i + 1;
        if i >= words.Length {
          return total;
        }
        w := words[i];
      }
    }

    /** The lowest used block at or after from, or total: the end of a free run. */
    method FirstUsed(from: nat) returns (r: nat)
      requires Valid()
      ensures r <= total && (from <= total ==> from <= r)
      ensures Span(from, r) !! marked
      ensures r < total ==> r in marked
    {
      if from >= total {
        return total;
      }
      var i := from / 64;
      var w := AndNot(words[i], LowMask(from % 64), WIDTH); // ignore bits before from
      WordOps(words[i], LowMask(from % 64));
      LowMaskOps(words[i], from % 64);
      while true
        invariant from / 64 <= i < words.Length
        invariant IsWord(w)
        invariant forall b: nat :: b < 64 ==> (Bit(w, b) <==> 64 * i + b >= from && 64 * i + b in marked)
        invariant Span(from, 64 * i) !! marked
        decreases words.Length - i
      {
        if w != 0 {
          LowestSet(w);
          var end := i * 64 + TrailingZeros(w);
          assert Bit(w, end - 64 * i);
          forall j: nat | 64 * i <= j < end
            ensures j !in marked || j < from
          {
            assert !Bit(w, j - 64 * i);
          }
          return if end <= total then end else total;
        }
        forall j: nat | 64 * i <= j < 64 * (i + 1)
          ensures j !in marked || j < from
        {
          ZeroBits(j - 64 * i);
          assert !Bit(w, j - 64 * i);
        }
        i := i + 1;
        if i >= words.Length {
          return total;
        }
        w := words[i];
      }
    }

    /** Mark [start, end) as used and move the hint up to the next free block. */
    method Take(start: nat, end: nat)
      requires Valid() && end <= total
      modifies this`hint, this`marked, words
      ensures Valid()
      ensures Used() == old(Used()) + Span(start, end)
    {
      var j := start;
      while j < end
        invariant start <= j && (j <= end || j == start)
        invariant Valid()
        invariant marked == old(marked) + Span(start, j)
      {
        Mark(j);
        j := j + 1;
      }
      hint := FirstFree(hint);
    }

    /** Reserve the lowest run of n free blocks, failing only when there is none. */
    method Alloc(n: nat) returns (r: Result<nat>)
      requires Valid()
      modifies this`hint, this`marked, words
      ensures Valid()
      ensures r == if n == 0 then Err(ZeroLength) else OrNoSpace(LowestFit(old(Used()), total, 0, n))
      ensures r.Ok? <==> n > 0 && Fits(old(Used()), total, n)
      ensures r.Ok? ==> FreeRun(old(Used()), total, r.value, n) && NoneBelow(old(Used()), total, r.value, n)
      ensures Used() == old(Used()) + if r.Ok? then Span(r.value, r.value + n) else {}
    {
      if n == 0 {
        return Err(ZeroLength);
      }
      ghost var used := Used();
      FitsWhen(used, total, n);
      var i := FirstFree(hint);
      NoneBelowStep(used, total, 0, 0, i, n);
      while i < total
        invariant i <= total && (i < total ==> i !in marked)
        invariant unchanged(this) && unchanged(words)
        invariant NoneBelow(used, total, i, n)
        decreases total - i
      {
        var end := FirstUsed(i);
        if end - i >= n {
          FirstFit(used, total, i, n);
          Take(i, i + n);
          return Ok(i);
        }
        var next := FirstFree(end);
        NoneBelowStep(used, total, i, end, next, n);
        i := next;
      }
      NothingFits(used, total, n);
      return Err(NoSpace);
    }

    /** Reserve up to n blocks of the lowest free run, failing only when nothing is free. */
    method AllocUpTo(n: nat) returns (r: Result<Run>)
      requires Valid()
      modifies this`hint, this`marked, words
      ensures Valid()
      ensures r == if n == 0 then Err(ZeroLength) else OrNoSpace(LowestPrefix(old(Used()), total, n))
      ensures r.Ok? <==> n > 0 && Fits(old(Used()), total, 1)
      ensures r.Ok? ==> IsLowestPrefix(old(Used()), total, r.value, n)
      ensures Used() == old(Used()) + if r.Ok? then Taken(r.value) else {}
    {
      if n == 0 {
        return Err(ZeroLength);
      }
      hide FreePrefix, LowestFit, LowestPrefix, Fits, IsLowestPrefix;
      ghost var used := Used();
      PrefixWhen(used, total, n);
      var start := FirstFree(hint);
      NoneBelowStep(used, total, 0, 0, start, 1);
      if start >= total {
        NothingFits(used, total, 1);
        return Err(NoSpace);
      }
      var end := FirstUsed(start);
      var got := if end - start < n then end - start else n;
      PrefixTaken(used, total, start, got, n);
      Take(start, start + got);
      return Ok(Run(start, got));
    }

    /** Release [start, start+n), with 64-bit wrap-around in the range end. */
    method Free(start: nat, n: nat) returns (r: Result<()>)
      requires Valid() && start < TWO64 && n < TWO64
      modifies this`hint, this`marked, words
      ensures Valid()
      ensures r == if (start + n) % TWO64 <= total then Ok(()) else Err(OutOfRange)
      ensures Used() == old(Used()) - if r.Ok? then Span(start, (start + n) % TWO64) else {}
    {
      var end := (start + n) % TWO64;
      if end > total {
        return Err(OutOfRange);
      }
      var j := start;
      while j < end
        invariant start <= j && (j <= end || j == start)
        invariant Shaped() && hint == old(hint)
        invariant marked == old(marked) - Span(start, j)
      {
        Unmark(j);
        j := j + 1;
      }
      if start < hint {
        hint := start; // keep first-fit exact: freed blocks come back into play
      }
      return Ok(());
    }

    /** Mark [start, start+n) as used, with 64-bit wrap-around in the range end. */
    method Reserve(start: nat, n: nat) returns (r: Result<()>)
      requires Valid() && start < TWO64 && n < TWO64
      modifies this`hint, this`marked, words
      ensures Valid()
      ensures r == if (start + n) % TWO64 <= total then Ok(()) else Err(OutOfRange)
      ensures Used() == old(Used()) + if r.Ok? then Span(start, (start + n) % TWO64) else {}
    {
      var end := (start + n) % TWO64;
      if end > total {
        return Err(OutOfRange);
      }
      Take(start, end);
      return Ok(());
    }
  }
}
