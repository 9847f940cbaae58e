/**
 Splitting an ND-range into work groups: the local sizes that clEnqueueNDRangeKernel chooses
 when the application leaves them open, src/openclon12/kernel_tasks.cpp.
 */
module WorkGroups {
  import opened Wrappers
  import opened Arithmetic

  const MAX_THREADS_PER_GROUP := 1024
  const MAX_GROUPS_PER_DIMENSION := 65535

  function MaxDim(d: nat): nat {
    if d == 2 then 64 else 1024
  }

  // The table that the source searches; 103 is not in it.
  const PRIMES: seq<nat> :=
    [2, 3, 5, 7, 11, 13, 17, 19, 23, 29, 31, 37, 41, 43, 47, 53, 59, 61, 67, 71, 73, 79, 83, 89, 97, 101, 107, 109,
     113, 127]

  const END: nat := 30

  /** The smallest and the largest wave size of the device. */
  datatype Waves = Waves(first: nat, second: nat)

  /** The local sizes, the groups in every dimension, the threads in a group, and how far
      each dimension got in the table. */
  datatype Split = Split(Local: seq<nat>, Dispatch: seq<nat>, Threads: nat, Cursor: seq<nat>)

  predicate Shaped(s: Split) {
    |s.Local| == |s.Dispatch| == |s.Cursor| == 3 && s.Cursor[0] <= END && s.Cursor[1] <= END && s.Cursor[2] <= END
  }

  function FactorAt(k: nat): (f: nat)
    requires k < END
    ensures f > 1
  {
    PRIMES[k]
  }

  /** No later factor of the table is of use to the dimension. */
  predicate Exhausted(s: Split, d: nat, f: nat, w: Waves)
    requires Shaped(s) && d < 3
  {
    || s.Dispatch[d] < f
    || (s.Threads * f > w.second && s.Threads < w.first && s.Dispatch[d] <= MAX_GROUPS_PER_DIMENSION)
    || s.Threads * f > MAX_THREADS_PER_GROUP
    || s.Local[d] * f > MaxDim(d)
  }

  /** Moves a dimension to the next factor that divides its groups. */
  function Advance(s: Split, d: nat, w: Waves): (r: Split)
    requires Shaped(s) && d < 3
    ensures Shaped(r) && r.Local == s.Local && r.Dispatch == s.Dispatch && r.Threads == s.Threads
    ensures s.Cursor[d] <= r.Cursor[d] && r.Cursor == s.Cursor[d := r.Cursor[d]]
    decreases END - s.Cursor[d]
  {
    if s.Cursor[d] == END then s
    else
      var f := FactorAt(s.Cursor[d]);
      if Exhausted(s, d, f, w) then s.(Cursor := s.Cursor[d := END])
      else if s.Dispatch[d] % f == 0 then s
      else Advance(s.(Cursor := s.Cursor[d := s.Cursor[d] + 1]), d, w)
  }

  /** Moves a factor from the groups to the local size. */
  function Expand(s: Split, d: nat): (r: Split)
    requires Shaped(s) && d < 3 && s.Cursor[d] < END
    ensures Shaped(r)
  {
    Moved(s, d, FactorAt(s.Cursor[d]))
  }

  function Moved(s: Split, d: nat, f: nat): (r: Split)
    requires Shaped(s) && d < 3 && f > 0
    ensures Shaped(r)
  {
    Split(s.Local[d := s.Local[d] * f], s.Dispatch[d := s.Dispatch[d] / f], s.Threads * f, s.Cursor)
  }

  predicate LargeEnough(s: Split, d: nat, w: Waves)
    requires Shaped(s) && d < 3
  {
    (s.Threads == w.first || s.Threads > w.second) && s.Dispatch[d] <= MAX_GROUPS_PER_DIMENSION
  }

  function GroupsLeft(s: Split): nat
    requires Shaped(s)
  {
    s.Dispatch[0] + s.Dispatch[1] + s.Dispatch[2]
  }

  lemma {:induction false} AdvanceFinds(s: Split, d: nat, w: Waves)
    requires Shaped(s) && d < 3
    ensures var r := Advance(s, d, w);
      r.Cursor[d] < END ==>
        var f := FactorAt(r.Cursor[d]); !Exhausted(s, d, f, w) && s.Dispatch[d] % f == 0
    decreases END - s.Cursor[d]
  {
    if s.Cursor[d] < END {
      var f := FactorAt(s.Cursor[d]);
      if !Exhausted(s, d, f, w) && s.Dispatch[d] % f != 0 {
        AdvanceFinds(s.(Cursor := s.Cursor[d := s.Cursor[d] + 1]), d, w);
      }
    }
  }

  lemma Shrinks(n: nat, f: nat)
    requires f > 1 && n >= f && n % f == 0
    ensures n / f < n && (n / f) * f == n
  {
    var q := n / f;
    assert n == f * q + n % f;
    assert q > 0;
    Monotone(q, 2, f);
  }

  lemma ExpandShrinks(s: Split, d: nat, w: Waves)
    requires Shaped(s) && d < 3
    ensures var a := Advance(s, d, w);
      a.Cursor[d] < END ==> GroupsLeft(Expand(a, d)) < GroupsLeft(s)
  {
    AdvanceFinds(s, d, w);
    var a := Advance(s, d, w);
    if a.Cursor[d] < END {
      Shrinks(s.Dispatch[d], FactorAt(a.Cursor[d]));
    }
  }

  datatype PassResult = PassResult(split: Split, progress: bool)

  /** One pass over the dimensions from d on, each of which takes at most one factor. */
  function Pass(s: Split, d: nat, workDim: nat, w: Waves, progress: bool): (r: PassResult)
    requires Shaped(s) && workDim <= 3
    ensures Shaped(r.split) && GroupsLeft(r.split) <= GroupsLeft(s)
    ensures r.progress && !progress ==> GroupsLeft(r.split) < GroupsLeft(s)
    decreases 3 - d
  {
    if d >= workDim then PassResult(s, progress)
    else
      var a := Advance(s, d, w);
      ExpandShrinks(s, d, w);
      if a.Cursor[d] == END then Pass(a, d + 1, workDim, w, progress)
      else
        var e := Expand(a, d);
        if LargeEnough(e, d, w) then PassResult(e, false) else Pass(e, d + 1, workDim, w, true)
  }

  function Search(s: Split, workDim: nat, w: Waves): (r: Split)
    requires Shaped(s) && workDim <= 3
    ensures Shaped(r)
    decreases GroupsLeft(s)
  {
    var p := Pass(s, 0, workDim, w, false);
    if p.progress then Search(p.split, workDim, w) else p.split
  }

  /** Whether the fallback takes all the groups of a dimension for its local size. */
  predicate Takes(s: Split, d: nat, w: Waves)
    requires Shaped(s) && d < 3
  {
    && s.Threads < w.first && 1 < s.Dispatch[d] <= MAX_THREADS_PER_GROUP
    && s.Dispatch[d] * s.Threads <= MAX_THREADS_PER_GROUP
  }

  function Take(s: Split, d: nat): (r: Split)
    requires Shaped(s) && d < 3
    ensures Shaped(r)
  {
    s.(Local := s.Local[d := s.Local[d] * s.Dispatch[d]], Threads := s.Threads * s.Dispatch[d],
       Dispatch := s.Dispatch[d := 1])
  }

  /** What the fallback makes of the dimensions below n. */
  function FallbackUpTo(s: Split, n: nat, w: Waves): (r: Split)
    requires Shaped(s) && n <= 3
    ensures Shaped(r)
  {
    if n == 0 then s
    else
      var r := FallbackUpTo(s, n - 1, w);
      if Takes(r, n - 1, w) then Take(r, n - 1) else r
  }

  function Initial(global: seq<nat>): Split
    requires |global| == 3
  {
    Split([1, 1, 1], global, 1, [0, 0, 0])
  }

  // ---------------------------------------------------------------------------------
  // What every step keeps
  // ---------------------------------------------------------------------------------

  /** Groups of the local size tile the global size, and groups are no larger than allowed. */
  ghost predicate Tiling(s: Split, global: seq<nat>) {
    && Shaped(s) && |global| == 3
    && (forall d :: 0 <= d < 3 ==> s.Local[d] >= 1 && s.Local[d] * s.Dispatch[d] == global[d])
    && s.Threads == s.Local[0] * s.Local[1] * s.Local[2] <= MAX_THREADS_PER_GROUP
  }

  ghost predicate WithinDims(s: Split, d: nat)
    requires Shaped(s) && d < 3
  {
    s.Local[d] <= MaxDim(d)
  }

  ghost predicate AllWithinDims(s: Split)
    requires Shaped(s)
  {
    forall d :: 0 <= d < 3 ==> WithinDims(s, d)
  }

  lemma Regroup3(x: nat, y: nat, z: nat, f: nat)
    ensures (x * f) * y * z == x * y * z * f && x * (y * f) * z == x * y * z * f && x * y * (z * f) == x * y * z * f
  {
    assert x * y * (z * f) == x * y * z * f;
    assert (x * f) * y == x * y * f;
    assert x * (y * f) == x * y * f;
    assert x * y * f * z == x * y * z * f;
  }

  /** Moving a factor that divides the groups keeps the tiling. */
  lemma MoveKeepsTiling(s: Split, d: nat, f: nat, global: seq<nat>)
    requires Tiling(s, global) && d < 3 && f >= 1 && s.Dispatch[d] % f == 0
    requires s.Threads * f <= MAX_THREADS_PER_GROUP
    ensures Tiling(Moved(s, d, f), global)
  {
    var l, n := s.Local[d], s.Dispatch[d];
    var q := n / f;
    assert n == f * q;
    assert (l * f) * q == l * (f * q);
    Monotone(l, 1, f);
    Regroup3(s.Local[0], s.Local[1], s.Local[2], f);
  }

  lemma MoveKeepsDims(s: Split, d: nat, f: nat)
    requires Shaped(s) && AllWithinDims(s) && d < 3 && f >= 1 && s.Local[d] * f <= MaxDim(d)
    ensures AllWithinDims(Moved(s, d, f))
  {
    var r := Moved(s, d, f);
    forall i | 0 <= i < 3 ensures WithinDims(r, i) {
      if i != d {
        assert WithinDims(s, i);
      }
    }
  }

  lemma AdvanceKeepsTiling(s: Split, d: nat, w: Waves, global: seq<nat>)
    requires Tiling(s, global) && AllWithinDims(s) && d < 3
    ensures Tiling(Advance(s, d, w), global) && AllWithinDims(Advance(s, d, w))
  {
    forall i | 0 <= i < 3 ensures WithinDims(Advance(s, d, w), i) {
      assert WithinDims(s, i);
    }
  }

  lemma ExpandKeepsTiling(s: Split, d: nat, w: Waves, global: seq<nat>)
    requires Tiling(s, global) && AllWithinDims(s) && d < 3
    requires Advance(s, d, w).Cursor[d] < END
    ensures var e := Expand(Advance(s, d, w), d); Tiling(e, global) && AllWithinDims(e)
  {
    var a := Advance(s, d, w);
    AdvanceFinds(s, d, w);
    AdvanceKeepsTiling(s, d, w, global);
    MoveKeepsTiling(a, d, FactorAt(a.Cursor[d]), global);
    MoveKeepsDims(a, d, FactorAt(a.Cursor[d]));
  }

  lemma {:induction false} PassKeepsTiling(s: Split, d: nat, workDim: nat, w: Waves, progress: bool, global: seq<nat>)
    requires Tiling(s, global) && AllWithinDims(s) && workDim <= 3
    ensures var r := Pass(s, d, workDim, w, progress).split; Tiling(r, global) && AllWithinDims(r)
    decreases 3 - d
  {
    if d < workDim {
      var a := Advance(s, d, w);
      if a.Cursor[d] == END {
        AdvanceKeepsTiling(s, d, w, global);
        PassKeepsTiling(a, d + 1, workDim, w, progress, global);
        return;
      }
      ExpandKeepsTiling(s, d, w, global);
      if !LargeEnough(Expand(a, d), d, w) {
        PassKeepsTiling(Expand(a, d), d + 1, workDim, w, true, global);
      }
    }
  }

  /** Through the whole factor search, the groups tile the global size, no group has more than
      1024 threads and no dimension of it more than its maximum. */
  lemma {:induction false} SearchKeepsTiling(s: Split, workDim: nat, w: Waves, global: seq<nat>)
    requires Tiling(s, global) && AllWithinDims(s) && workDim <= 3
    ensures var r := Search(s, workDim, w); Tiling(r, global) && AllWithinDims(r)
    decreases GroupsLeft(s)
  {
    PassKeepsTiling(s, 0, workDim, w, false, global);
    var p := Pass(s, 0, workDim, w, false);
    if p.progress {
      SearchKeepsTiling(p.split, workDim, w, global);
    }
  }

  /** The fallback keeps the tiling and the bound on the threads. */
  lemma {:induction false} FallbackKeepsTiling(s: Split, n: nat, w: Waves, global: seq<nat>)
    requires Tiling(s, global) && n <= 3
    ensures Tiling(FallbackUpTo(s, n, w), global)
  {
    if n > 0 {
      FallbackKeepsTiling(s, n - 1, w, global);
      var r := FallbackUpTo(s, n - 1, w);
      if Takes(r, n - 1, w) {
        OneGroup(r.Dispatch[n - 1]);
        MoveKeepsTiling(r, n - 1, r.Dispatch[n - 1], global);
      }
    }
  }

  /** A dimension is left alone by the fallback or becomes a single group. */
  ghost predicate LeftOrTaken(s: Split, r: Split, d: nat)
    requires Shaped(s) && Shaped(r) && d < 3
  {
    || (r.Local[d] == s.Local[d] && r.Dispatch[d] == s.Dispatch[d])
    || (r.Local[d] == s.Local[d] * s.Dispatch[d] && r.Dispatch[d] == 1 && s.Threads < r.Threads)
  }

  /** There is a full wave, or no more than one group in the dimension, or too many for one
      group to take them. */
  ghost predicate NothingToTake(r: Split, d: nat, w: Waves)
    requires Shaped(r) && d < 3
  {
    r.Threads >= w.first || r.Dispatch[d] <= 1 || r.Dispatch[d] * r.Threads > MAX_THREADS_PER_GROUP
  }

  /** The fallback leaves no dimension that could still be taken when a wave is not full, and
      takes nothing when one is. */
  lemma {:induction false} FallbackIsComplete(s: Split, n: nat, w: Waves)
    requires Shaped(s) && n <= 3 && s.Threads >= 1
    ensures var r := FallbackUpTo(s, n, w);
      && s.Threads <= r.Threads && (s.Threads >= w.first ==> r == s)
      && (forall d :: 0 <= d < n ==> NothingToTake(r, d, w) && LeftOrTaken(s, r, d))
  {
    if n > 0 {
      FallbackIsComplete(s, n - 1, w);
      FallbackLeavesLater(s, n - 1, n - 1, w);
      var r := FallbackUpTo(s, n - 1, w);
      Monotone(r.Dispatch[n - 1], 1, r.Threads);
      if Takes(r, n - 1, w) {
        var t := Take(r, n - 1);
        Monotone(r.Threads, 2, r.Dispatch[n - 1]);
        forall d | 0 <= d < n - 1 ensures NothingToTake(t, d, w) && LeftOrTaken(s, t, d) {
          assert NothingToTake(r, d, w) && LeftOrTaken(s, r, d);
          Monotone(r.Dispatch[d], r.Threads, t.Threads);
        }
      }
    }
  }

  lemma OneGroup(n: nat)
    requires n > 0
    ensures n % n == 0 && n / n == 1
  {
    DivModUnique(n, n, 1, 0);
  }

  lemma NoMoreThanThreads(s: Split, global: seq<nat>, d: nat)
    requires Tiling(s, global) && d < 3
    ensures s.Local[d] <= s.Threads
  {
    var x, y, z := s.Local[0], s.Local[1], s.Local[2];
    Monotone(x, 1, y);
    Monotone(y, 1, x);
    Monotone(x * y, 1, z);
    Monotone(z, 1, x * y);
  }

  // ---------------------------------------------------------------------------------
  // How far the search goes
  // ---------------------------------------------------------------------------------

  /** None of the first k factors of the table divides n. */
  ghost predicate NoneDivides(n: nat, k: nat)
    requires k <= END
  {
    forall i :: 0 <= i < k ==> n % FactorAt(i) != 0
  }

  /** A factor overshoots the largest wave from some number of threads below the smallest one
      that was reached. */
  ghost predicate Overshoots(threads: nat, f: nat, w: Waves) {
    w.first > 0 && (if threads < w.first then threads else w.first - 1) * f > w.second
  }

  /** Why a dimension did not get past a factor. */
  ghost predicate StoppedAt(s: Split, d: nat, k: nat, w: Waves)
    requires Shaped(s) && d < 3 && k <= END
  {
    k == END
    || s.Dispatch[d] < FactorAt(k)
    || (Overshoots(s.Threads, FactorAt(k), w) && s.Dispatch[d] <= MAX_GROUPS_PER_DIMENSION)
    || s.Threads * FactorAt(k) > MAX_THREADS_PER_GROUP
    || s.Local[d] * FactorAt(k) > MaxDim(d)
  }

  ghost predicate StoppedAfter(s: Split, d: nat, k: nat, w: Waves)
    requires Shaped(s) && d < 3
  {
    k <= END && NoneDivides(s.Dispatch[d], k) && StoppedAt(s, d, k, w)
  }

  /** No factor that a dimension went past divides the groups that are left in it. */
  ghost predicate Searched(s: Split, d: nat, w: Waves)
    requires Shaped(s) && d < 3
  {
    if s.Cursor[d] < END then NoneDivides(s.Dispatch[d], s.Cursor[d]) else exists k :: StoppedAfter(s, d, k, w)
  }

  ghost predicate AllSearched(s: Split, w: Waves)
    requires Shaped(s)
  {
    forall d :: 0 <= d < 3 ==> Searched(s, d, w)
  }

  lemma {:induction false} AdvanceSearches(s: Split, d: nat, w: Waves)
    requires Shaped(s) && d < 3 && Searched(s, d, w)
    ensures Searched(Advance(s, d, w), d, w)
    decreases END - s.Cursor[d]
  {
    if s.Cursor[d] < END {
      var f := FactorAt(s.Cursor[d]);
      var r := Advance(s, d, w);
      if Exhausted(s, d, f, w) {
        assert StoppedAfter(r, d, s.Cursor[d], w);
      } else if s.Dispatch[d] % f != 0 {
        var next := s.(Cursor := s.Cursor[d := s.Cursor[d] + 1]);
        if next.Cursor[d] == END {
          assert StoppedAfter(next, d, END, w);
        }
        AdvanceSearches(next, d, w);
      }
    }
  }

  lemma DivisorOfQuotient(n: nat, f: nat, g: nat)
    requires f > 0 && g > 0 && n % f == 0 && (n / f) % g == 0
    ensures n % g == 0
  {
    var q := n / f / g;
    assert n == f * (n / f) && n / f == g * q;
    assert n == g * (f * q) by {
      assert f * (g * q) == g * (f * q);
    }
    DivModUnique(n, g, f * q, 0);
  }

  lemma ExpandSearches(s: Split, d: nat, e: nat, w: Waves)
    requires Shaped(s) && d < 3 && e < 3 && Searched(s, e, w)
    requires s.Cursor[d] < END && s.Dispatch[d] % FactorAt(s.Cursor[d]) == 0
    ensures Searched(Expand(s, d), e, w)
  {
    var f := FactorAt(s.Cursor[d]);
    var r := Expand(s, d);
    if e == d {
      forall i | 0 <= i < s.Cursor[d] ensures r.Dispatch[d] % FactorAt(i) != 0 {
        if r.Dispatch[d] % FactorAt(i) == 0 {
          DivisorOfQuotient(s.Dispatch[d], f, FactorAt(i));
        }
      }
    } else if s.Cursor[e] == END {
      var k: nat :| StoppedAfter(s, e, k, w);
      MoreThreads(s.Threads, f, if k < END then FactorAt(k) else 1, w);
      assert StoppedAfter(r, e, k, w);
    }
  }

  lemma MoreThreads(threads: nat, f: nat, g: nat, w: Waves)
    requires f >= 1
    ensures threads * g <= threads * f * g
    ensures Overshoots(threads, g, w) ==> Overshoots(threads * f, g, w)
  {
    Monotone(threads, 1, f);
    Monotone(g, threads, threads * f);
    if w.first > 0 {
      Monotone(g, if threads < w.first then threads else w.first - 1,
               if threads * f < w.first then threads * f else w.first - 1);
    }
  }

  lemma OthersSearched(s: Split, d: nat, e: nat, w: Waves)
    requires Shaped(s) && d < 3 && e < 3 && Searched(s, e, w)
    ensures Searched(Advance(s, d, w), e, w)
  {
    if e == d {
      AdvanceSearches(s, d, w);
    } else if s.Cursor[e] == END {
      var k: nat :| StoppedAfter(s, e, k, w);
      assert StoppedAfter(Advance(s, d, w), e, k, w);
    }
  }

  lemma AdvanceKeepsSearched(s: Split, d: nat, w: Waves)
    requires Shaped(s) && d < 3 && AllSearched(s, w)
    ensures AllSearched(Advance(s, d, w), w)
  {
    forall e | 0 <= e < 3 ensures Searched(Advance(s, d, w), e, w) {
      OthersSearched(s, d, e, w);
    }
  }

  lemma ExpandKeepsSearched(s: Split, d: nat, w: Waves)
    requires Shaped(s) && d < 3 && AllSearched(s, w) && Advance(s, d, w).Cursor[d] < END
    ensures AllSearched(Expand(Advance(s, d, w), d), w)
  {
    var a := Advance(s, d, w);
    AdvanceKeepsSearched(s, d, w);
    AdvanceFinds(s, d, w);
    forall e | 0 <= e < 3 ensures Searched(Expand(a, d), e, w) {
      ExpandSearches(a, d, e, w);
    }
  }

  lemma {:induction false} PassKeepsSearched(s: Split, d: nat, workDim: nat, w: Waves, progress: bool)
    requires Shaped(s) && workDim <= 3 && AllSearched(s, w)
    ensures AllSearched(Pass(s, d, workDim, w, progress).split, w)
    decreases 3 - d
  {
    if d < workDim {
      var a := Advance(s, d, w);
      if a.Cursor[d] == END {
        AdvanceKeepsSearched(s, d, w);
        PassKeepsSearched(a, d + 1, workDim, w, progress);
        return;
      }
      ExpandKeepsSearched(s, d, w);
      if !LargeEnough(Expand(a, d), d, w) {
        PassKeepsSearched(Expand(a, d), d + 1, workDim, w, true);
      }
    }
  }

  /** Through the whole search, no factor that was stepped over divides the groups left. */
  lemma {:induction false} SearchKeepsSearched(s: Split, workDim: nat, w: Waves)
    requires Shaped(s) && workDim <= 3 && AllSearched(s, w)
    ensures AllSearched(Search(s, workDim, w), w)
    decreases GroupsLeft(s)
  {
    PassKeepsSearched(s, 0, workDim, w, false);
    var p := Pass(s, 0, workDim, w, false);
    if p.progress {
      SearchKeepsSearched(p.split, workDim, w);
    }
  }

  ghost predicate Unmoved(s: Split, r: Split, d: nat)
    requires Shaped(s) && Shaped(r) && d < 3
  {
    r.Local[d] == s.Local[d] && r.Dispatch[d] == s.Dispatch[d]
  }

  /** A dimension has moved one factor, the next one in the table that divides its groups. */
  ghost predicate MovedNext(s: Split, r: Split, d: nat)
    requires Shaped(s) && Shaped(r) && d < 3
  {
    && s.Cursor[d] <= r.Cursor[d] < END && s.Dispatch[d] % FactorAt(r.Cursor[d]) == 0
    && r.Local[d] == s.Local[d] * FactorAt(r.Cursor[d]) && r.Dispatch[d] == s.Dispatch[d] / FactorAt(r.Cursor[d])
    && NoneBetween(s.Dispatch[d], s.Cursor[d], r.Cursor[d])
  }

  /** No factor of the table from the k-th to before the m-th divides n. */
  ghost predicate NoneBetween(n: nat, k: nat, m: nat)
    requires m <= END
  {
    forall i :: k <= i < m ==> n % FactorAt(i) != 0
  }

  lemma NoneFrom(n: nat, k: nat, m: nat)
    requires k < m <= END && n % FactorAt(k) != 0 && NoneBetween(n, k + 1, m)
    ensures NoneBetween(n, k, m)
  {
  }

  lemma {:induction false} AdvanceSkips(s: Split, d: nat, w: Waves)
    requires Shaped(s) && d < 3
    ensures Advance(s, d, w).Cursor[d] < END ==> NoneBetween(s.Dispatch[d], s.Cursor[d], Advance(s, d, w).Cursor[d])
    decreases END - s.Cursor[d]
  {
    if s.Cursor[d] < END {
      var k := s.Cursor[d];
      var f := FactorAt(k);
      if !Exhausted(s, d, f, w) && s.Dispatch[d] % f != 0 {
        var next := s.(Cursor := s.Cursor[d := k + 1]);
        AdvanceSkips(next, d, w);
        var m := Advance(next, d, w).Cursor[d];
        assert Advance(s, d, w).Cursor[d] == m;
        if m < END {
          NoneFrom(s.Dispatch[d], k, m);
        }
      }
    }
  }

  /** In one pass every dimension moves one factor or none, and if the search goes on, every
      dimension that did not move is done. */
  lemma {:induction false} PassIsOneRound(s: Split, d: nat, workDim: nat, w: Waves, progress: bool, e: nat)
    requires Shaped(s) && workDim <= 3 && e < 3
    ensures var r := Pass(s, d, workDim, w, progress);
      && (e < d || e >= workDim ==> Unmoved(s, r.split, e) && r.split.Cursor[e] == s.Cursor[e])
      && (Unmoved(s, r.split, e) || MovedNext(s, r.split, e))
      && (r.progress && d <= e < workDim ==> MovedNext(s, r.split, e) || r.split.Cursor[e] == END)
    decreases 3 - d
  {
    if d < workDim {
      var a := Advance(s, d, w);
      AdvanceFinds(s, d, w);
      AdvanceSkips(s, d, w);
      if a.Cursor[d] == END {
        PassIsOneRound(a, d + 1, workDim, w, progress, e);
      } else if !LargeEnough(Expand(a, d), d, w) {
        PassIsOneRound(Expand(a, d), d + 1, workDim, w, true, e);
      }
    }
  }

  /** Why the search is over: a group is large enough, or no dimension has a factor left. */
  ghost predicate Finished(s: Split, workDim: nat, w: Waves)
    requires Shaped(s) && workDim <= 3
  {
    || ((s.Threads == w.first || s.Threads > w.second)
        && exists d: nat :: d < workDim && s.Dispatch[d] <= MAX_GROUPS_PER_DIMENSION)
    || forall d: nat :: d < workDim ==> s.Cursor[d] == END
  }

  lemma {:induction false} PassFinishes(s: Split, d: nat, workDim: nat, w: Waves, progress: bool)
    requires Shaped(s) && workDim <= 3
    requires progress || forall i: nat :: i < d && i < workDim ==> s.Cursor[i] == END
    ensures var r := Pass(s, d, workDim, w, progress); !r.progress ==> Finished(r.split, workDim, w)
    decreases 3 - d
  {
    if d < workDim {
      var a := Advance(s, d, w);
      if a.Cursor[d] == END {
        PassFinishes(a, d + 1, workDim, w, progress);
      } else if !LargeEnough(Expand(a, d), d, w) {
        PassFinishes(Expand(a, d), d + 1, workDim, w, true);
      }
    }
  }

  /** The search goes on until then. */
  lemma {:induction false} SearchFinishes(s: Split, workDim: nat, w: Waves)
    requires Shaped(s) && workDim <= 3
    ensures Finished(Search(s, workDim, w), workDim, w)
    decreases GroupsLeft(s)
  {
    PassFinishes(s, 0, workDim, w, false);
    var p := Pass(s, 0, workDim, w, false);
    if p.progress {
      SearchFinishes(p.split, workDim, w);
    }
  }

  /** No dimension has more groups than one dispatch can launch. */
  ghost predicate OneDispatch(s: Split)
    requires Shaped(s)
  {
    s.Dispatch[0] <= MAX_GROUPS_PER_DIMENSION && s.Dispatch[1] <= MAX_GROUPS_PER_DIMENSION
    && s.Dispatch[2] <= MAX_GROUPS_PER_DIMENSION
  }

  /** The threads are at most those of the largest wave, or one factor more than a number that
      was between the smallest and the largest wave, and not just the smallest. */
  ghost predicate FitsWaves(threads: nat, w: Waves) {
    threads <= w.second || exists k, before: nat :: OneFactorMore(threads, k, before, w)
  }

  ghost predicate OneFactorMore(threads: nat, k: nat, before: nat, w: Waves) {
    k < END && threads == before * FactorAt(k) && w.first <= before <= w.second && (before == w.first ==> before == 1)
  }

  /** While the search goes on, the threads have not reached the smallest wave exactly, nor
      gone beyond the largest. */
  ghost predicate GoesOn(threads: nat, w: Waves) {
    threads <= w.second && (threads == w.first ==> threads == 1)
  }

  lemma FewerGroups(n: nat, f: nat)
    requires f > 1
    ensures n / f <= n
  {
    Monotone(n / f, 1, f);
  }

  lemma ExpandFitsWaves(s: Split, d: nat, w: Waves)
    requires Shaped(s) && d < 3 && OneDispatch(s) && GoesOn(s.Threads, w) && Advance(s, d, w).Cursor[d] < END
    ensures var e := Expand(Advance(s, d, w), d);
      && OneDispatch(e) && FitsWaves(e.Threads, w)
      && (!LargeEnough(e, d, w) ==> GoesOn(e.Threads, w))
  {
    var a := Advance(s, d, w);
    var k := a.Cursor[d];
    AdvanceFinds(s, d, w);
    FewerGroups(s.Dispatch[d], FactorAt(k));
    if s.Threads * FactorAt(k) > w.second {
      assert OneFactorMore(s.Threads * FactorAt(k), k, s.Threads, w);
    }
  }

  lemma {:induction false} PassFitsWaves(s: Split, d: nat, workDim: nat, w: Waves, progress: bool)
    requires Shaped(s) && workDim <= 3 && OneDispatch(s) && GoesOn(s.Threads, w)
    ensures var r := Pass(s, d, workDim, w, progress);
      OneDispatch(r.split) && FitsWaves(r.split.Threads, w) && (r.progress ==> GoesOn(r.split.Threads, w))
    decreases 3 - d
  {
    if d < workDim {
      var a := Advance(s, d, w);
      if a.Cursor[d] == END {
        PassFitsWaves(a, d + 1, workDim, w, progress);
        return;
      }
      ExpandFitsWaves(s, d, w);
      if !LargeEnough(Expand(a, d), d, w) {
        PassFitsWaves(Expand(a, d), d + 1, workDim, w, true);
      }
    }
  }

  /** Unless a dimension has more groups than one dispatch can launch, the search does not
      overshoot the largest wave, but for a last factor when the smallest one is passed. */
  lemma {:induction false} SearchFitsWaves(s: Split, workDim: nat, w: Waves)
    requires Shaped(s) && workDim <= 3 && OneDispatch(s) && GoesOn(s.Threads, w)
    ensures FitsWaves(Search(s, workDim, w).Threads, w)
    decreases GroupsLeft(s)
  {
    PassFitsWaves(s, 0, workDim, w, false);
    var p := Pass(s, 0, workDim, w, false);
    if p.progress {
      SearchFitsWaves(p.split, workDim, w);
    }
  }

  // ---------------------------------------------------------------------------------
  // The whole choice
  // ---------------------------------------------------------------------------------

  function Partition(workDim: nat, global: seq<nat>, w: Waves): (r: Split)
    requires workDim <= 3 && |global| == 3
    ensures Shaped(r)
  {
    FallbackUpTo(Search(Initial(global), workDim, w), workDim, w)
  }

  lemma InitialIsFine(global: seq<nat>, w: Waves)
    requires |global| == 3
    ensures Tiling(Initial(global), global) && AllWithinDims(Initial(global)) && AllSearched(Initial(global), w)
  {
    var s := Initial(global);
    forall d | 0 <= d < 3 ensures WithinDims(s, d) && Searched(s, d, w) {}
  }

  /** Whatever the sizes, the groups chosen tile the ND-range and have at most 1024 threads;
      the dimensions that are not used have local size 1. */
  lemma PartitionTiles(workDim: nat, global: seq<nat>, w: Waves)
    requires workDim <= 3 && |global| == 3 && forall d :: workDim <= d < 3 ==> global[d] == 1
    ensures Tiling(Partition(workDim, global, w), global)
    ensures forall d :: workDim <= d < 3 ==> Partition(workDim, global, w).Local[d] == 1
  {
    InitialIsFine(global, w);
    SearchKeepsTiling(Initial(global), workDim, w, global);
    FallbackKeepsTiling(Search(Initial(global), workDim, w), workDim, w, global);
    var r := Partition(workDim, global, w);
    forall d | workDim <= d < 3 ensures r.Local[d] == 1 {
      FactorsOfOne(r.Local[d], r.Dispatch[d]);
    }
  }

  /** Every dimension that is used ends in a full wave, in a single group, or in more groups
      than could be put into one. */
  lemma PartitionIsComplete(workDim: nat, global: seq<nat>, w: Waves, d: nat)
    requires d < workDim <= 3 && |global| == 3
    ensures NothingToTake(Partition(workDim, global, w), d, w)
  {
    InitialIsFine(global, w);
    SearchKeepsTiling(Initial(global), workDim, w, global);
    var s := Search(Initial(global), workDim, w);
    NoMoreThanThreads(s, global, 0);
    FallbackIsComplete(s, workDim, w);
  }

  lemma FactorsOfOne(x: nat, y: nat)
    requires x * y == 1
    ensures x == 1
  {
    if x >= 2 && y >= 1 {
      Monotone(x, 1, y);
    }
  }

  /** The maximum of the third dimension, 64, is kept exactly unless the fallback takes all
      its groups and there are more than 64 work items in it. */
  lemma MaximaHoldExactlyWhen(workDim: nat, global: seq<nat>, w: Waves)
    requires workDim <= 3 && |global| == 3
    ensures AllWithinDims(Partition(workDim, global, w)) <==>
      !(workDim == 3 && global[2] > MaxDim(2) && Takes(FallbackUpTo(Search(Initial(global), workDim, w), 2, w), 2, w))
  {
    InitialIsFine(global, w);
    var s := Search(Initial(global), workDim, w);
    SearchKeepsTiling(Initial(global), workDim, w, global);
    FallbackKeepsTiling(s, workDim, w, global);
    FallbackLeavesLater(s, if workDim < 2 then workDim else 2, 2, w);
    var r := Partition(workDim, global, w);
    NoMoreThanThreads(r, global, 0);
    NoMoreThanThreads(r, global, 1);
    assert WithinDims(s, 2) && WithinDims(r, 0) && WithinDims(r, 1);
    if workDim == 3 {
      FallbackKeepsTiling(s, 2, w, global);
    }
    assert AllWithinDims(r) <==> WithinDims(r, 2);
  }

  lemma {:induction false} FallbackLeavesLater(s: Split, n: nat, d: nat, w: Waves)
    requires Shaped(s) && n <= d < 3
    ensures FallbackUpTo(s, n, w).Local[d] == s.Local[d] && FallbackUpTo(s, n, w).Dispatch[d] == s.Dispatch[d]
  {
    if n > 0 {
      FallbackLeavesLater(s, n - 1, d, w);
    }
  }

  /** In the sizes of the call: the maxima are kept with fewer dimensions, with at most 64 work
      items in the third one, and with more than a group can have. */
  lemma MaximaHoldIf(workDim: nat, global: seq<nat>, w: Waves)
    requires workDim <= 3 && |global| == 3
    requires workDim < 3 || global[2] <= MaxDim(2) || global[2] > MAX_THREADS_PER_GROUP || w.first <= 1
    ensures AllWithinDims(Partition(workDim, global, w))
  {
    MaximaHoldExactlyWhen(workDim, global, w);
    if workDim == 3 {
      InitialIsFine(global, w);
      var s := Search(Initial(global), 3, w);
      SearchKeepsTiling(Initial(global), 3, w, global);
      FallbackKeepsTiling(s, 2, w, global);
      var r := FallbackUpTo(s, 2, w);
      NoMoreThanThreads(r, global, 2);
      Monotone(r.Dispatch[2], r.Local[2], r.Threads);
      assert r.Local[2] * r.Dispatch[2] == global[2];
    }
  }

  /** No factor of the table can be moved to the local size of a dimension. */
  ghost predicate Stuck(s: Split, d: nat, w: Waves)
    requires Shaped(s) && d < 3
  {
    forall k :: 0 <= k < END && s.Dispatch[d] % FactorAt(k) == 0 ==> Exhausted(s, d, FactorAt(k), w)
  }

  lemma {:induction false} PassFindsNothing(s: Split, d: nat, workDim: nat, w: Waves)
    requires Shaped(s) && workDim <= 3 && forall e :: d <= e < workDim ==> Stuck(s, e, w)
    ensures var p := Pass(s, d, workDim, w, false); !p.progress && p.split.(Cursor := s.Cursor) == s
    decreases 3 - d
  {
    if d < workDim {
      AdvanceFinds(s, d, w);
      var a := Advance(s, d, w);
      assert Stuck(s, d, w);
      forall e | d < e < workDim ensures Stuck(a, e, w) {
        assert Stuck(s, e, w);
      }
      PassFindsNothing(a, d + 1, workDim, w);
    }
  }

  lemma SearchFindsNothing(s: Split, workDim: nat, w: Waves)
    requires Shaped(s) && workDim <= 3 && forall e :: 0 <= e < workDim ==> Stuck(s, e, w)
    ensures Search(s, workDim, w).(Cursor := s.Cursor) == s
  {
    PassFindsNothing(s, 0, workDim, w);
  }

  /** A third dimension with up to 1024 work items, more than 64 and a multiple of no factor up
      to 64, breaks its maximum on any device with waves of several threads: the search finds
      nothing, and the fallback puts all of the items into one group. */
  lemma ThirdMaximumBreaks(n: nat, w: Waves)
    requires MaxDim(2) < n <= MAX_THREADS_PER_GROUP && w.first > 1
    requires forall k :: 0 <= k < END && FactorAt(k) <= MaxDim(2) ==> n % FactorAt(k) != 0
    ensures Partition(3, [1, 1, n], w).Local == [1, 1, n]
    ensures !WithinDims(Partition(3, [1, 1, n], w), 2)
  {
    var s := Initial([1, 1, n]);
    forall e | 0 <= e < 3 ensures Stuck(s, e, w) {}
    SearchFindsNothing(s, 3, w);
    var r := Search(s, 3, w);
    assert !Takes(r, 0, w) && !Takes(r, 1, w) && Takes(r, 2, w);
    assert FallbackUpTo(r, 0, w) == r;
    assert FallbackUpTo(r, 1, w) == r;
    assert FallbackUpTo(r, 2, w) == r;
  }

  /** For example 67 work items on a device with waves of four. */
  lemma ThirdMaximumCanBreak()
    ensures var r := Partition(3, [1, 1, 67], Waves(4, 4)); r.Local[2] == 67 && !WithinDims(r, 2)
  {
    ThirdMaximumBreaks(67, Waves(4, 4));
  }

  lemma NoFactorDivides(k: nat)
    requires k < END
    ensures 10609 % FactorAt(k) != 0
  {
  }

  /** The number 103 is not in the table: 103 * 103 work items go into groups of a single
      thread each, on a device that could have used groups of 103. */
  lemma OneHundredAndThreeIsMissed()
    ensures 10609 == 103 * 103 && Tiling(Split([103, 1, 1], [103, 1, 1], 103, [0, 0, 0]), [10609, 1, 1])
    ensures var r := Partition(1, [10609, 1, 1], Waves(128, 128));
      r.Local == [1, 1, 1] && r.Dispatch == [10609, 1, 1]
  {
    var s, w := Initial([10609, 1, 1]), Waves(128, 128);
    forall k | 0 <= k < END ensures s.Dispatch[0] % FactorAt(k) != 0 {
      NoFactorDivides(k);
    }
    assert Stuck(s, 0, w);
    SearchFindsNothing(s, 1, w);
    var r := Search(s, 1, w);
    assert !Takes(r, 0, w);
    assert FallbackUpTo(r, 0, w) == r;
  }

  // ---------------------------------------------------------------------------------
  // The loops
  // ---------------------------------------------------------------------------------

  /** Looks for the next factor that divides the groups of a dimension. */
  method FindFactor(s: Split, d: nat, w: Waves) returns (r: Split)
    requires Shaped(s) && d < 3
    ensures r == Advance(s, d, w)
  {
    r := s;
    while r.Cursor[d] != END
      invariant Shaped(r) && Advance(r, d, w) == Advance(s, d, w)
      decreases END - r.Cursor[d]
    {
      var factor := FactorAt(r.Cursor[d]);
      if r.Dispatch[d] < factor
        || (r.Threads * factor > w.second && r.Threads < w.first && r.Dispatch[d] <= MAX_GROUPS_PER_DIMENSION)
        || r.Threads * factor > MAX_THREADS_PER_GROUP
        || r.Local[d] * factor > MaxDim(d) {
        r := r.(Cursor := r.Cursor[d := END]);
        break;
      }
      if r.Dispatch[d] % factor == 0 {
        break;
      }
      r := r.(Cursor := r.Cursor[d := r.Cursor[d] + 1]);
    }
  }

  /** One pass of the search over the dimensions. */
  method SearchPass(s: Split, workDim: nat, w: Waves) returns (r: Split, progress: bool)
    requires Shaped(s) && workDim <= 3
    ensures PassResult(r, progress) == Pass(s, 0, workDim, w, false)
  {
    r, progress := s, false;
    var dimension := 0;
    while dimension < workDim
      invariant dimension <= workDim && Shaped(r)
      invariant Pass(r, dimension, workDim, w, progress) == Pass(s, 0, workDim, w, false)
    {
      r := FindFactor(r, dimension, w);
      if r.Cursor[dimension] != END {
        r := Expand(r, dimension);
        progress := true;
        if (r.Threads == w.first || r.Threads > w.second) && r.Dispatch[dimension] <= MAX_GROUPS_PER_DIMENSION {
          progress := false;
          break;
        }
      }
      dimension := dimension + 1;
    }
  }

  /** The search, and the fallback if it did not find enough threads for a wave. */
  method ChooseLocalSizes(workDim: nat, global: seq<nat>, w: Waves) returns (r: Split)
    requires workDim <= 3 && |global| == 3
    ensures r == Partition(workDim, global, w)
  {
    r := Initial(global);
    var progress := true;
    while progress
      invariant Shaped(r)
      invariant Search(Initial(global), workDim, w) == if progress then Search(r, workDim, w) else r
      decreases progress, GroupsLeft(r)
    {
      r, progress := SearchPass(r, workDim, w);
    }
    r := Fallback(r, workDim, w);
  }

  method Fallback(s: Split, workDim: nat, w: Waves) returns (r: Split)
    requires Shaped(s) && workDim <= 3
    ensures r == FallbackUpTo(s, workDim, w)
  {
    r := s;
    var dimension := 0;
    while dimension < workDim && r.Threads < w.first
      invariant dimension <= workDim && r == FallbackUpTo(s, dimension, w)
    {
      if 1 < r.Dispatch[dimension] <= MAX_THREADS_PER_GROUP
        && r.Dispatch[dimension] * r.Threads <= MAX_THREADS_PER_GROUP {
        r := Take(r, dimension);
      }
      dimension := dimension + 1;
    }
    EnoughThreadsStay(s, dimension, workDim, w);
  }

  /** Once a group has enough threads for a wave, the fallback is over. */
  lemma {:induction false} EnoughThreadsStay(s: Split, n: nat, m: nat, w: Waves)
    requires Shaped(s) && n <= m <= 3 && (n == m || FallbackUpTo(s, n, w).Threads >= w.first)
    ensures FallbackUpTo(s, m, w) == FallbackUpTo(s, n, w)
  {
    if n < m {
      EnoughThreadsStay(s, n, m - 1, w);
    }
  }

  // ---------------------------------------------------------------------------------
  // Sizes that are given
  // ---------------------------------------------------------------------------------

  datatype LocalSizeError = CL_INVALID_WORK_GROUP_SIZE | CL_INVALID_WORK_ITEM_SIZE

  /** The sizes of a call: the number of dimensions, the global sizes, the local sizes that the
      application gives and those that the kernel requires, each perhaps missing. */
  datatype Request = Request(workDim: nat, global: seq<nat>, given: Option<seq<nat>>, required: Option<seq<nat>>)

  ghost predicate Positive(sizes: Option<seq<nat>>) {
    sizes.Some? ==> |sizes.value| == 3 && forall d :: 0 <= d < 3 ==> sizes.value[d] > 0
  }

  ghost predicate IsRequest(q: Request) {
    && 1 <= q.workDim <= 3 && |q.global| == 3 && Positive(q.given) && Positive(q.required)
    && forall d :: q.workDim <= d < 3 ==> q.global[d] == 1
  }

  function LocalSize(q: Request, d: nat): (size: nat)
    requires IsRequest(q) && d < 3
    ensures size > 0
  {
    if d >= q.workDim then 1
    else if q.given.Some? then q.given.value[d]
    else if q.required.Some? then q.required.value[d]
    else 1
  }

  function DimensionError(q: Request, d: nat): Option<LocalSizeError>
    requires IsRequest(q) && d < 3
  {
    if q.given.Some? && q.given.value[d] > 65535 then Some(CL_INVALID_WORK_GROUP_SIZE)
    else if q.required.Some? && q.given.Some? && q.required.value[d] != q.given.value[d] then
      Some(CL_INVALID_WORK_GROUP_SIZE)
    else if q.global[d] % LocalSize(q, d) != 0 then Some(CL_INVALID_WORK_GROUP_SIZE)
    else if LocalSize(q, d) > MaxDim(d) then Some(CL_INVALID_WORK_ITEM_SIZE)
    else None
  }

  /** The first error among the dimensions below n. */
  function FirstError(q: Request, n: nat): Option<LocalSizeError>
    requires IsRequest(q) && n <= 3
  {
    if n == 0 then None
    else
      var e := FirstError(q, n - 1);
      if e.Some? then e else DimensionError(q, n - 1)
  }

  function GroupSize(q: Request): nat
    requires IsRequest(q)
  {
    LocalSize(q, 0) * LocalSize(q, 1) * LocalSize(q, 2)
  }

  datatype Checked = Valid(local: seq<nat>, dispatch: seq<nat>) | Invalid(error: LocalSizeError)

  function Check(q: Request): Checked
    requires IsRequest(q)
  {
    var e := FirstError(q, q.workDim);
    if e.Some? then Invalid(e.value)
    else if GroupSize(q) > MAX_THREADS_PER_GROUP then Invalid(CL_INVALID_WORK_GROUP_SIZE)
    else Valid([LocalSize(q, 0), LocalSize(q, 1), LocalSize(q, 2)], [Groups(q, 0), Groups(q, 1), Groups(q, 2)])
  }

  function Groups(q: Request, d: nat): nat
    requires IsRequest(q) && d < 3
  {
    q.global[d] / LocalSize(q, d)
  }

  lemma {:induction false} FirstErrorMeans(q: Request, n: nat)
    requires IsRequest(q) && n <= 3
    ensures FirstError(q, n) == None <==> forall d :: 0 <= d < n ==> DimensionError(q, d) == None
  {
    if n > 0 {
      FirstErrorMeans(q, n - 1);
    }
  }

  ghost predicate Acceptable(q: Request, d: nat)
    requires IsRequest(q) && d < q.workDim
  {
    && (q.given.Some? && q.required.Some? ==> q.given.value[d] == q.required.value[d])
    && q.global[d] % LocalSize(q, d) == 0 && LocalSize(q, d) <= MaxDim(d)
  }

  /** Sizes that are given or required are accepted exactly if they agree, divide the global
      sizes and are within the maxima. */
  lemma AcceptedExactlyWhen(q: Request)
    requires IsRequest(q)
    ensures Check(q).Valid?
      <==> GroupSize(q) <= MAX_THREADS_PER_GROUP && forall d: nat :: d < q.workDim ==> Acceptable(q, d)
  {
    FirstErrorMeans(q, q.workDim);
    forall d: nat | d < q.workDim ensures DimensionError(q, d) == None <==> Acceptable(q, d) {}
  }

  ghost predicate TakenAsGiven(q: Request, d: nat, local: nat, dispatch: nat)
    requires IsRequest(q) && d < 3
  {
    local == LocalSize(q, d) <= MaxDim(d) && local * dispatch == q.global[d]
  }

  /** Then they are taken as they are, and tile the ND-range. */
  lemma AcceptedSizesTile(q: Request, d: nat)
    requires IsRequest(q) && Check(q).Valid? && d < 3
    ensures TakenAsGiven(q, d, Check(q).local[d], Check(q).dispatch[d])
  {
    AcceptedExactlyWhen(q);
    assert d < q.workDim ==> Acceptable(q, d);
    GroupsTile(q, d);
    assert Check(q).local[d] == LocalSize(q, d) && Check(q).dispatch[d] == Groups(q, d);
  }

  /** The local size of a dimension is within the limits of its type, as required and divides
      the global size, but is more than the dimension can have. */
  ghost predicate TooLong(q: Request, d: nat)
    requires IsRequest(q) && d < q.workDim
  {
    && (q.given.Some? ==> q.given.value[d] <= 65535)
    && (q.given.Some? && q.required.Some? ==> q.given.value[d] == q.required.value[d])
    && q.global[d] % LocalSize(q, d) == 0 && LocalSize(q, d) > MaxDim(d)
  }

  /** The one error that is not about the work group is reported exactly if the first dimension
      that is not acceptable is too long. */
  lemma WorkItemErrorExactlyWhen(q: Request)
    requires IsRequest(q)
    ensures Check(q) == Invalid(CL_INVALID_WORK_ITEM_SIZE)
      <==> exists d: nat :: d < q.workDim && TooLong(q, d) && forall e: nat :: e < d ==> Acceptable(q, e)
  {
    if exists d: nat :: d < q.workDim && TooLong(q, d) && forall e: nat :: e < d ==> Acceptable(q, e) {
      var d: nat :| d < q.workDim && TooLong(q, d) && forall e: nat :: e < d ==> Acceptable(q, e);
      FirstErrorMeans(q, d);
      forall e | 0 <= e < d ensures DimensionError(q, e) == None {
        assert Acceptable(q, e);
      }
      assert FirstError(q, d + 1) == Some(CL_INVALID_WORK_ITEM_SIZE);
      FirstErrorStays(q, d + 1, q.workDim);
    } else if FirstError(q, q.workDim).Some? {
      var d := FirstErrorAt(q, q.workDim);
    }
  }

  lemma {:induction false} FirstErrorAt(q: Request, n: nat) returns (d: nat)
    requires IsRequest(q) && n <= q.workDim && FirstError(q, n).Some?
    ensures d < n && FirstError(q, n) == DimensionError(q, d)
    ensures forall e: nat :: e < d ==> Acceptable(q, e)
    ensures FirstError(q, n) == Some(CL_INVALID_WORK_ITEM_SIZE) <==> TooLong(q, d)
  {
    if FirstError(q, n - 1).Some? {
      d := FirstErrorAt(q, n - 1);
    } else {
      d := n - 1;
      FirstErrorMeans(q, d);
      forall e: nat | e < d ensures Acceptable(q, e) {
        assert DimensionError(q, e) == None;
      }
    }
  }

  lemma GroupsTile(q: Request, d: nat)
    requires IsRequest(q) && d < 3 && (d < q.workDim ==> Acceptable(q, d))
    ensures LocalSize(q, d) * Groups(q, d) == q.global[d]
  {
    assert q.global[d] == LocalSize(q, d) * Groups(q, d) + q.global[d] % LocalSize(q, d);
  }

  lemma {:induction false} FirstErrorStays(q: Request, n: nat, m: nat)
    requires IsRequest(q) && n <= m <= 3 && FirstError(q, n).Some?
    ensures FirstError(q, m) == FirstError(q, n)
  {
    if n < m {
      FirstErrorStays(q, n, m - 1);
    }
  }

  method CheckLocalSizes(q: Request) returns (r: Checked)
    requires IsRequest(q)
    ensures r == Check(q)
  {
    var LocalSizes := [1, 1, 1];
    for i := 0 to q.workDim
      invariant FirstError(q, i) == None && |LocalSizes| == 3
      invariant forall d :: 0 <= d < 3 ==> LocalSizes[d] == if d < i then LocalSize(q, d) else 1
    {
      var size, error := LocalSize(q, i), None;
      if q.given.Some? && q.given.value[i] > 65535 {
        error := Some(CL_INVALID_WORK_GROUP_SIZE);
      } else if q.required.Some? && q.given.Some? && q.required.value[i] != q.given.value[i] {
        error := Some(CL_INVALID_WORK_GROUP_SIZE);
      } else if q.global[i] % size != 0 {
        error := Some(CL_INVALID_WORK_GROUP_SIZE);
      } else if size > MaxDim(i) {
        error := Some(CL_INVALID_WORK_ITEM_SIZE);
      }
      assert error == DimensionError(q, i);
      if error.Some? {
        FirstErrorStays(q, i + 1, q.workDim);
        return Invalid(error.value);
      }
      LocalSizes := LocalSizes[i := size];
    }
    if LocalSizes[0] * LocalSizes[1] * LocalSizes[2] > MAX_THREADS_PER_GROUP {
      return Invalid(CL_INVALID_WORK_GROUP_SIZE);
    }
    assert LocalSizes == [LocalSize(q, 0), LocalSize(q, 1), LocalSize(q, 2)];
    r := Valid(LocalSizes, [Groups(q, 0), Groups(q, 1), Groups(q, 2)]);
  }
}
