/**
 Objects whose residency is managed, and the least-recently-used list of those that are
 resident: include/d3d12translationlayer/Residency.h and the two trimming scans of
 src/d3d12translationlayer/Residency.cpp.
 */
module Residency {
  import opened Wrappers

  // The D3D object behind a ManagedObject, an ID3D12Pageable pointer.
  type Handle = nat

  datatype ResidencyStatus = RESIDENT | EVICTED

  class ManagedObject {
    const pUnderlying: Handle
    const Size: nat
    var Status: ResidencyStatus
    var LastUsedFenceValue: nat
    var LastUsedTimestamp: nat
    var CommandListsUsedOn: seq<bool>
    var PinCount: nat
    // Whether some fence the object waits for before it may be unpinned is still pending.
    var PinWaitsPending: bool
    var Flink: ManagedObject
    var Blink: ManagedObject

    constructor (underlying: Handle, size: nat)
      ensures pUnderlying == underlying && Size == size && Status == RESIDENT
      ensures LastUsedFenceValue == 0 && LastUsedTimestamp == 0 && !IsPinned()
      ensures CommandListsUsedOn == [false, false]
      ensures Flink == this && Blink == this
    {
      pUnderlying, Size, Status := underlying, size, RESIDENT;
      LastUsedFenceValue, LastUsedTimestamp := 0, 0;
      CommandListsUsedOn := [false, false];
      PinCount, PinWaitsPending := 0, false;
      Flink, Blink := this, this;
    }

    predicate IsPinned()
      reads this`PinCount, this`PinWaitsPending
    {
      PinCount > 0 || PinWaitsPending
    }
  }

  // ---------------------------------------------------------------------------------
  // Sequences of objects
  // ---------------------------------------------------------------------------------

  /** The same element at two places. */
  ghost predicate Repeated<T>(s: seq<T>, i: nat, j: nat)
    requires i < |s| && j < |s|
  {
    s[i] == s[j]
  }

  // Naming the comparison keeps the quantifier from being tried on every pair of indices.
  ghost predicate Distinct<T>(s: seq<T>) {
    forall i, j :: 0 <= i < j < |s| ==> !Repeated(s, i, j)
  }

  lemma DistinctAt<T>(s: seq<T>, i: nat)
    requires Distinct(s) && i < |s|
    ensures forall j :: 0 <= j < |s| && j != i ==> s[j] != s[i]
  {
    forall j | 0 <= j < |s| && j != i ensures s[j] != s[i] {
      assert if i < j then !Repeated(s, i, j) else !Repeated(s, j, i);
    }
  }

  ghost predicate Within<T>(s: seq<T>, t: set<T>) {
    forall i :: 0 <= i < |s| ==> s[i] in t
  }

  lemma {:induction false} DistinctFits<T>(s: seq<T>, t: set<T>)
    requires Distinct(s) && Within(s, t)
    ensures |s| <= |t|
  {
    if s != [] {
      DistinctAt(s, 0);
      DropAtIsDistinct(s, 0);
      assert Within(DropAt(s, 0), t - {s[0]});
      DistinctFits(DropAt(s, 0), t - {s[0]});
    }
  }

  /** A distinct sequence as long as the set it stays within reaches every element. */
  lemma Position<T>(s: seq<T>, t: set<T>, x: T) returns (k: nat)
    requires Distinct(s) && Within(s, t) && |s| == |t| && x in t
    ensures k < |s| && s[k] == x
  {
    if forall i :: 0 <= i < |s| ==> s[i] != x {
      DistinctFits(s, t - {x});
      assert false;
    }
    k :| 0 <= k < |s| && s[k] == x;
  }

  ghost function DropAt<T>(s: seq<T>, k: nat): (r: seq<T>)
    requires k < |s|
    ensures |r| == |s| - 1
    ensures forall i :: 0 <= i < |r| ==> r[i] == s[if i < k then i else i + 1]
  {
    s[..k] + s[k + 1..]
  }

  /** The first n elements of s without those in gone, in their order. */
  ghost function MinusUpTo<T>(s: seq<T>, gone: set<T>, n: nat): seq<T>
    requires n <= |s|
  {
    if n == 0 then []
    else if s[n - 1] in gone then MinusUpTo(s, gone, n - 1)
    else MinusUpTo(s, gone, n - 1) + [s[n - 1]]
  }

  ghost function Minus<T>(s: seq<T>, gone: set<T>): seq<T> {
    MinusUpTo(s, gone, |s|)
  }

  lemma {:induction false} MinusPrefix<T>(a: seq<T>, b: seq<T>, gone: set<T>, n: nat)
    requires n <= |a| && n <= |b| && a[..n] == b[..n]
    ensures MinusUpTo(a, gone, n) == MinusUpTo(b, gone, n)
  {
    if n > 0 {
      assert a[n - 1] == a[..n][n - 1] == b[n - 1];
      assert a[..n - 1] == a[..n][..n - 1] == b[..n - 1];
      MinusPrefix(a, b, gone, n - 1);
    }
  }

  lemma {:induction false} MinusConcat<T>(a: seq<T>, b: seq<T>, gone: set<T>, n: nat)
    requires n <= |b|
    ensures MinusUpTo(a + b, gone, |a| + n) == Minus(a, gone) + MinusUpTo(b, gone, n)
  {
    if n == 0 {
      MinusPrefix(a + b, a, gone, |a|);
    } else {
      MinusConcat(a, b, gone, n - 1);
    }
  }

  lemma {:induction false} MinusTwice<T>(s: seq<T>, g: set<T>, h: set<T>, n: nat)
    requires n <= |s|
    ensures Minus(MinusUpTo(s, g, n), h) == MinusUpTo(s, g + h, n)
  {
    if n > 0 {
      MinusTwice(s, g, h, n - 1);
      if s[n - 1] !in g {
        MinusConcat(MinusUpTo(s, g, n - 1), [s[n - 1]], h, 1);
      }
    }
  }

  lemma {:induction false} MinusNothing<T>(s: seq<T>, gone: set<T>, n: nat)
    requires n <= |s| && forall i :: 0 <= i < n ==> s[i] !in gone
    ensures MinusUpTo(s, gone, n) == s[..n]
  {
    if n > 0 {
      MinusNothing(s, gone, n - 1);
    }
  }

  lemma {:induction false} MinusMembers<T>(s: seq<T>, gone: set<T>, n: nat)
    requires n <= |s|
    ensures forall x :: x in MinusUpTo(s, gone, n) <==> x in s[..n] && x !in gone
  {
    if n > 0 {
      MinusMembers(s, gone, n - 1);
      assert s[..n] == s[..n - 1] + [s[n - 1]];
    }
  }

  lemma MinusHas<T>(s: seq<T>, gone: set<T>)
    ensures forall x :: x in Minus(s, gone) <==> x in s && x !in gone
  {
    MinusMembers(s, gone, |s|);
    assert s[..|s|] == s;
  }

  lemma DropAtIsDistinct<T>(s: seq<T>, k: nat)
    requires k < |s| && Distinct(s)
    ensures Distinct(DropAt(s, k))
  {
    var r := DropAt(s, k);
    forall i, j | 0 <= i < j < |r| ensures !Repeated(r, i, j) {
      assert !Repeated(s, if i < k then i else i + 1, if j < k then j else j + 1);
    }
  }

  lemma InsertBehindHead<T>(head: T, s: seq<T>, x: T)
    ensures [head, x] + ([head] + s)[1..] == [head] + ([x] + s)
  {
  }

  lemma AppendBehindHead<T>(head: T, s: seq<T>, x: T)
    ensures [head] + s + [x] == [head] + (s + [x])
  {
  }

  lemma DropBehindHead<T>(head: T, s: seq<T>, k: nat)
    requires k < |s|
    ensures DropAt([head] + s, k + 1) == [head] + DropAt(s, k)
  {
  }

  lemma AppendedIsDistinct<T>(s: seq<T>, x: T)
    requires Distinct(s) && x !in s
    ensures Distinct(s + [x])
  {
    forall i, j | 0 <= i < j < |s + [x]| ensures !Repeated(s + [x], i, j) {
      assert j < |s| ==> !Repeated(s, i, j);
    }
  }

  lemma InsertedIsDistinct<T>(s: seq<T>, x: T)
    requires s != [] && Distinct(s) && x !in s
    ensures Distinct([s[0], x] + s[1..])
  {
    var r := [s[0], x] + s[1..];
    forall i, j | 0 <= i < j < |r| ensures !Repeated(r, i, j) {
      if i != 1 && j != 1 {
        assert !Repeated(s, if i == 0 then 0 else i - 1, j - 1);
      }
    }
  }

  lemma DropAtMembers<T>(s: seq<T>, k: nat)
    requires k < |s| && Distinct(s)
    ensures forall x :: x in DropAt(s, k) <==> x in s && x != s[k]
  {
    DistinctAt(s, k);
    assert s == s[..k] + [s[k]] + s[k + 1..];
  }

  lemma MinusAt<T>(s: seq<T>, k: nat)
    requires k < |s| && Distinct(s)
    ensures Minus(s, {s[k]}) == DropAt(s, k)
  {
    var gone := {s[k]};
    var rest := s[k + 1..];
    DistinctAt(s, k);
    assert s == s[..k] + ([s[k]] + rest);
    assert Minus(s[..k], gone) == s[..k] by {
      MinusNothing(s[..k], gone, k);
    }
    assert Minus([s[k]] + rest, gone) == rest by {
      MinusConcat([s[k]], rest, gone, |rest|);
      MinusNothing(rest, gone, |rest|);
      assert MinusUpTo([s[k]], gone, 1) == MinusUpTo([s[k]], gone, 0);
    }
    MinusConcat(s[..k], [s[k]] + rest, gone, |rest| + 1);
  }

  // Recursion on an index rather than on a suffix keeps this cheap to unfold.
  ghost function SizeUpTo(objs: seq<ManagedObject>, n: nat): nat
    requires n <= |objs|
  {
    if n == 0 then 0 else SizeUpTo(objs, n - 1) + objs[n - 1].Size
  }

  ghost function TotalSize(objs: seq<ManagedObject>): nat {
    SizeUpTo(objs, |objs|)
  }

  lemma {:induction false} SizeOfPrefix(a: seq<ManagedObject>, b: seq<ManagedObject>, n: nat)
    requires n <= |a| && n <= |b| && forall i :: 0 <= i < n ==> a[i] == b[i]
    ensures SizeUpTo(a, n) == SizeUpTo(b, n)
  {
    if n > 0 {
      SizeOfPrefix(a, b, n - 1);
    }
  }

  lemma {:induction false} SizeOfConcat(a: seq<ManagedObject>, b: seq<ManagedObject>, n: nat)
    requires n <= |b|
    ensures SizeUpTo(a + b, |a| + n) == TotalSize(a) + SizeUpTo(b, n)
  {
    if n == 0 {
      SizeOfPrefix(a + b, a, |a|);
    } else {
      SizeOfConcat(a, b, n - 1);
    }
  }

  lemma TotalSizeConcat(a: seq<ManagedObject>, b: seq<ManagedObject>)
    ensures TotalSize(a + b) == TotalSize(a) + TotalSize(b)
  {
    SizeOfConcat(a, b, |b|);
  }

  lemma TotalSizeWithout(s: seq<ManagedObject>, k: nat)
    requires k < |s|
    ensures TotalSize(s) == TotalSize(DropAt(s, k)) + s[k].Size
  {
    assert s == s[..k] + ([s[k]] + s[k + 1..]);
    TotalSizeConcat(s[..k], [s[k]] + s[k + 1..]);
    TotalSizeConcat([s[k]], s[k + 1..]);
    TotalSizeConcat(s[..k], s[k + 1..]);
    assert SizeUpTo([s[k]], 1) == SizeUpTo([s[k]], 0) + s[k].Size;
  }

  lemma SizeOfOneMore(s: seq<ManagedObject>, o: ManagedObject)
    ensures TotalSize(s + [o]) == TotalSize(s) + o.Size
    ensures TotalSize([o] + s) == TotalSize(s) + o.Size
  {
    assert SizeUpTo([o], 1) == SizeUpTo([o], 0) + o.Size;
    TotalSizeConcat(s, [o]);
    TotalSizeConcat([o], s);
  }

  ghost function Handles(objs: seq<ManagedObject>): (r: seq<Handle>)
    ensures |r| == |objs|
  {
    seq(|objs|, i requires 0 <= i < |objs| => objs[i].pUnderlying)
  }

  // ---------------------------------------------------------------------------------
  // What the scans look at
  // ---------------------------------------------------------------------------------

  /** The fields of an object that decide whether it may be evicted, at one moment. */
  datatype Snapshot = Snapshot(obj: ManagedObject, fence: nat, stamp: nat, pinned: bool)

  ghost function Snap(o: ManagedObject): Snapshot
    reads o`LastUsedFenceValue, o`LastUsedTimestamp, o`PinCount, o`PinWaitsPending
  {
    Snapshot(o, o.LastUsedFenceValue, o.LastUsedTimestamp, o.IsPinned())
  }

  /** s is what the objects look like now, in their order. */
  ghost predicate Shows(s: seq<Snapshot>, objs: seq<ManagedObject>)
    reads objs`LastUsedFenceValue, objs`LastUsedTimestamp, objs`PinCount, objs`PinWaitsPending
  {
    |s| == |objs| && forall i :: 0 <= i < |objs| ==> s[i] == Snap(objs[i])
  }

  ghost function HandlesOf(s: seq<Snapshot>): (r: seq<Handle>)
    ensures |r| == |s|
  {
    seq(|s|, i requires 0 <= i < |s| => s[i].obj.pUnderlying)
  }

  lemma HandlesOfOneMore(list: seq<Handle>, s: seq<Snapshot>, x: Snapshot)
    ensures list + HandlesOf(s + [x]) == list + HandlesOf(s) + [x.obj.pUnderlying]
    ensures HandlesOf(s + [x]) == HandlesOf(s) + [x.obj.pUnderlying]
  {
  }

  ghost function SizeOfFirst(s: seq<Snapshot>, n: nat): nat
    requires n <= |s|
  {
    if n == 0 then 0 else SizeOfFirst(s, n - 1) + s[n - 1].obj.Size
  }

  lemma {:induction false} SizeOfFirstPrefix(a: seq<Snapshot>, b: seq<Snapshot>, n: nat)
    requires n <= |a| <= |b| && a == b[..|a|]
    ensures SizeOfFirst(a, n) == SizeOfFirst(b, n)
  {
    if n > 0 {
      SizeOfFirstPrefix(a, b, n - 1);
    }
  }

  /** Before each of the victims was evicted, the usage was not yet under budget. */
  ghost predicate EachNeeded(victims: seq<Snapshot>, usage: int, budget: int) {
    forall j :: 0 <= j < |victims| ==> usage - SizeOfFirst(victims, j) >= budget
  }

  /** Evicting the victims has brought usage down to current, and each was needed. */
  ghost predicate Spent(victims: seq<Snapshot>, usage: int, budget: int, current: int) {
    current == usage - SizeOfFirst(victims, |victims|) && EachNeeded(victims, usage, budget)
  }

  lemma OneMoreVictim(victims: seq<Snapshot>, x: Snapshot, usage: int, budget: int, current: int)
    requires Spent(victims, usage, budget, current) && current >= budget
    ensures Spent(victims + [x], usage, budget, current - x.obj.Size)
  {
    forall j | 0 <= j <= |victims|
      ensures SizeOfFirst(victims + [x], j) == SizeOfFirst(victims, j)
    {
      SizeOfFirstPrefix(victims, victims + [x], j);
    }
  }

  /** victims is the shortest prefix of candidates whose eviction brings usage under budget,
      or all of them when that is not enough. */
  ghost predicate ShortestPrefix(victims: seq<Snapshot>, candidates: seq<Snapshot>, usage: int, budget: int) {
    && victims <= candidates
    && EachNeeded(victims, usage, budget)
    && (victims == candidates || usage - SizeOfFirst(victims, |victims|) < budget)
  }

  /** A scan that dealt with the first m entries has taken the shortest prefix of what is
      evictable, which is all that is evictable among the m. */
  ghost predicate Trimmed(r: Rule, s: seq<Snapshot>, m: nat, victims: seq<Snapshot>, usage: int, budget: int) {
    && m <= |s| && victims == Chosen(r, s[..m])
    && ShortestPrefix(victims, Chosen(r, s), usage, budget)
  }

  /** Least recently used first, by fence and by time stamp. */
  ghost predicate Sorted(s: seq<Snapshot>) {
    SortedUpTo(s, |s|)
  }

  ghost predicate Precedes(x: Snapshot, y: Snapshot) {
    x.fence <= y.fence && x.stamp <= y.stamp
  }

  ghost predicate SortedUpTo(s: seq<Snapshot>, n: nat)
    requires n <= |s|
  {
    n < 2 || (SortedUpTo(s, n - 1) && Precedes(s[n - 2], s[n - 1]))
  }

  lemma {:induction false} SortedAt(s: seq<Snapshot>, n: nat, i: nat, j: nat)
    requires n <= |s| && SortedUpTo(s, n) && i <= j < n
    ensures Precedes(s[i], s[j])
  {
    if i < j {
      if j < n - 1 {
        SortedAt(s, n - 1, i, j);
      } else {
        SortedAt(s, n - 1, i, j - 1);
      }
    }
  }

  lemma SortedDrop(s: seq<Snapshot>, k: nat)
    requires k < |s| && Sorted(s)
    ensures Sorted(DropAt(s, k))
  {
    var rest := DropAt(s, k);
    forall i | 0 < i < |rest|
      ensures Precedes(rest[i - 1], rest[i])
    {
      SortedAt(s, |s|, if i - 1 < k then i - 1 else i, if i < k then i else i + 1);
    }
    SortedFromPairs(rest, |rest|);
  }

  lemma {:induction false} SortedAppend(s: seq<Snapshot>, x: Snapshot, n: nat)
    requires n <= |s| && SortedUpTo(s, n)
    requires n == |s| ==> forall i :: 0 <= i < |s| ==> Precedes(s[i], x)
    ensures SortedUpTo(s + [x], n)
    ensures n == |s| ==> Sorted(s + [x])
  {
    if n >= 2 {
      SortedAppend(s, x, n - 1);
    }
  }

  lemma {:induction false} SortedPrefix(s: seq<Snapshot>, n: nat, m: nat)
    requires m <= n <= |s| && SortedUpTo(s, n)
    ensures SortedUpTo(s, m)
  {
    if m < n {
      SortedPrefix(s, n - 1, m);
    }
  }

  /** A list whose neighbours are in order is sorted. */
  lemma {:induction false} SortedFromPairs(s: seq<Snapshot>, n: nat)
    requires n <= |s| && forall i :: 0 < i < n ==> Precedes(s[i - 1], s[i])
    ensures SortedUpTo(s, n)
  {
    if n >= 2 {
      SortedFromPairs(s, n - 1);
    }
  }

  /** The tests a scan makes before it looks at the pin: last used no later than a fence,
      and, when a cutoff is given, strictly before it. */
  datatype Rule = Rule(fence: nat, cutoff: Option<int>)

  ghost predicate Passes(r: Rule, x: Snapshot) {
    x.fence <= r.fence && (r.cutoff.Some? ==> x.stamp < r.cutoff.value)
  }

  ghost predicate Evictable(r: Rule, x: Snapshot) {
    Passes(r, x) && !x.pinned
  }

  ghost function Chosen(r: Rule, s: seq<Snapshot>): (c: seq<Snapshot>)
    ensures forall x <- c :: x in s && Evictable(r, x)
    ensures forall x <- s :: Evictable(r, x) ==> x in c
  {
    if s == [] then []
    else if Evictable(r, s[0]) then [s[0]] + Chosen(r, s[1..])
    else Chosen(r, s[1..])
  }

  ghost function Spared(r: Rule, s: seq<Snapshot>): (c: seq<Snapshot>)
    ensures forall x <- c :: x in s && !Evictable(r, x)
    ensures forall x <- s :: !Evictable(r, x) ==> x in c
  {
    if s == [] then []
    else if Evictable(r, s[0]) then Spared(r, s[1..])
    else [s[0]] + Spared(r, s[1..])
  }

  lemma {:induction false} ChosenConcat(r: Rule, a: seq<Snapshot>, b: seq<Snapshot>)
    ensures Chosen(r, a + b) == Chosen(r, a) + Chosen(r, b)
  {
    if a == [] {
      assert a + b == b;
    } else {
      assert (a + b)[1..] == a[1..] + b;
      ChosenConcat(r, a[1..], b);
    }
  }

  lemma {:induction false} SparedConcat(r: Rule, a: seq<Snapshot>, b: seq<Snapshot>)
    ensures Spared(r, a + b) == Spared(r, a) + Spared(r, b)
  {
    if a == [] {
      assert a + b == b;
    } else {
      assert (a + b)[1..] == a[1..] + b;
      SparedConcat(r, a[1..], b);
    }
  }

  lemma {:induction false} ChosenOrSpared(r: Rule, s: seq<Snapshot>)
    ensures |Chosen(r, s)| + |Spared(r, s)| == |s|
  {
    if s != [] {
      ChosenOrSpared(r, s[1..]);
    }
  }

  lemma {:induction false} NothingChosen(r: Rule, s: seq<Snapshot>)
    requires forall x :: x in s ==> !Evictable(r, x)
    ensures Chosen(r, s) == [] && Spared(r, s) == s
  {
    if s != [] {
      NothingChosen(r, s[1..]);
    }
  }

  /** On a sorted list, giving up at the first entry that fails the tests loses nothing:
      everything evictable lies before it. */
  lemma EarlyExitIsExact(r: Rule, s: seq<Snapshot>, m: nat)
    requires Sorted(s) && m < |s| && !Passes(r, s[m])
    ensures Chosen(r, s) == Chosen(r, s[..m])
    ensures Spared(r, s) == Spared(r, s[..m]) + s[m..]
  {
    forall x | x in s[m..]
      ensures !Passes(r, x)
    {
      var j :| m <= j < |s| && s[j] == x;
      SortedAt(s, |s|, m, j);
    }
    assert s == s[..m] + s[m..];
    ChosenConcat(r, s[..m], s[m..]);
    SparedConcat(r, s[..m], s[m..]);
    NothingChosen(r, s[m..]);
  }

  /** Taking entries out of a sorted list leaves it sorted. */
  lemma {:induction false} SparedIsSorted(r: Rule, s: seq<Snapshot>, n: nat)
    requires n <= |s| && SortedUpTo(s, n)
    ensures Sorted(Spared(r, s[..n]))
  {
    if n > 0 {
      SparedIsSorted(r, s, n - 1);
      TakeOneMore(r, s, n - 1);
      var front := Spared(r, s[..n - 1]);
      var all := Spared(r, s[..n]);
      forall i | 0 < i < |all|
        ensures Precedes(all[i - 1], all[i])
      {
        if i < |front| {
          SortedAt(front, |front|, i - 1, i);
        } else {
          assert front[i - 1] in front;
          var h :| 0 <= h < n - 1 && s[h] == front[i - 1];
          SortedAt(s, n, h, n - 1);
        }
      }
      SortedFromPairs(all, |all|);
    }
  }

  /** Where the scan is after dealing with the first m entries of s: the unpinned ones are
      gone and the pinned ones are still at the front of the list. */
  ghost function Scanned(r: Rule, s: seq<Snapshot>, m: nat): seq<Snapshot>
    requires m <= |s|
  {
    Spared(r, s[..m]) + s[m..]
  }

  lemma ChosenOfPrefix(r: Rule, s: seq<Snapshot>, m: nat)
    requires m <= |s|
    ensures Chosen(r, s[..m]) <= Chosen(r, s)
  {
    assert s == s[..m] + s[m..];
    ChosenConcat(r, s[..m], s[m..]);
  }

  lemma ScannedIsSorted(r: Rule, s: seq<Snapshot>, m: nat)
    requires m <= |s| && Sorted(s)
    ensures Sorted(Scanned(r, s, m))
  {
    SortedPrefix(s, |s|, m);
    SparedIsSorted(r, s, m);
    var front := Spared(r, s[..m]);
    var all := Scanned(r, s, m);
    forall i | 0 < i < |all|
      ensures Precedes(all[i - 1], all[i])
    {
      if i < |front| {
        SortedAt(front, |front|, i - 1, i);
      } else if i == |front| {
        assert front[i - 1] in front;
        var h :| 0 <= h < m && s[h] == front[i - 1];
        SortedAt(s, |s|, h, m);
      } else {
        SortedAt(s, |s|, m + i - 1 - |front|, m + i - |front|);
      }
    }
    SortedFromPairs(all, |all|);
  }

  /** A scan that has dealt with the first m entries of s and now stands at position k of
      the list, having put the unpinned ones among the m into victims. */
  ghost predicate Scanning(r: Rule, s: seq<Snapshot>, m: nat, k: nat, list: seq<Snapshot>, victims: seq<Snapshot>) {
    && m <= |s|
    && (forall i :: 0 <= i < m ==> Passes(r, s[i]))
    && list == Scanned(r, s, m)
    && victims == Chosen(r, s[..m])
    && k <= |Spared(r, s[..m])|
  }

  lemma TakeOneMore(r: Rule, s: seq<Snapshot>, m: nat)
    requires m < |s|
    ensures Chosen(r, s[..m + 1]) == Chosen(r, s[..m]) + (if Evictable(r, s[m]) then [s[m]] else [])
    ensures Spared(r, s[..m + 1]) == Spared(r, s[..m]) + (if Evictable(r, s[m]) then [] else [s[m]])
  {
    assert s[..m + 1] == s[..m] + [s[m]];
    ChosenConcat(r, s[..m], [s[m]]);
    SparedConcat(r, s[..m], [s[m]]);
  }

  lemma SparedArePinned(r: Rule, s: seq<Snapshot>, m: nat)
    requires m <= |s| && forall i :: 0 <= i < m ==> Passes(r, s[i])
    ensures forall i :: 0 <= i < |Spared(r, s[..m])| ==>
      Spared(r, s[..m])[i].pinned && Passes(r, Spared(r, s[..m])[i])
  {
    forall i | 0 <= i < |Spared(r, s[..m])|
      ensures Spared(r, s[..m])[i].pinned && Passes(r, Spared(r, s[..m])[i])
    {
      assert Spared(r, s[..m])[i] in Spared(r, s[..m]);
    }
  }

  /** An entry that stays does not change the list. */
  lemma ScannedSame(r: Rule, s: seq<Snapshot>, m: nat)
    requires m < |s| && !Evictable(r, s[m])
    ensures Scanned(r, s, m + 1) == Scanned(r, s, m) && Chosen(r, s[..m + 1]) == Chosen(r, s[..m])
    ensures |Spared(r, s[..m + 1])| == |Spared(r, s[..m])| + 1
  {
    TakeOneMore(r, s, m);
    assert s[m..] == [s[m]] + s[m + 1..];
  }

  /** Stepping over a pinned entry. */
  lemma ScanPinned(r: Rule, s: seq<Snapshot>, m: nat, k: nat, list: seq<Snapshot>, victims: seq<Snapshot>)
    returns (m': nat)
    requires Scanning(r, s, m, k, list, victims) && k < |list|
    requires Passes(r, list[k]) && list[k].pinned
    ensures m <= m' <= m + 1 && Scanning(r, s, m', k + 1, list, victims)
  {
    if k < |Spared(r, s[..m])| {
      m' := m;
    } else {
      m' := m + 1;
      assert list[k] == s[m];
      ScannedSame(r, s, m);
    }
  }

  /** Evicting the entry the scan stands at and starting over from the head. */
  lemma ScanEvict(r: Rule, s: seq<Snapshot>, m: nat, k: nat, list: seq<Snapshot>, victims: seq<Snapshot>)
    requires Scanning(r, s, m, k, list, victims) && k < |list|
    requires Passes(r, list[k]) && !list[k].pinned
    ensures m < |s| && list[k] == s[m]
    ensures Scanning(r, s, m + 1, 0, DropAt(list, k), victims + [list[k]])
  {
    SparedArePinned(r, s, m);
    TakeOneMore(r, s, m);
    assert list[..k] == Spared(r, s[..m]) && list[k + 1..] == s[m + 1..];
  }

  /** A scan that ends because it reached the end or an entry that fails the tests has
      evicted everything evictable, provided the list was sorted. */
  lemma ScanDone(r: Rule, s: seq<Snapshot>, m: nat, k: nat, list: seq<Snapshot>, victims: seq<Snapshot>)
    requires Scanning(r, s, m, k, list, victims) && Sorted(s)
    requires k == |list| || (k < |list| && !Passes(r, list[k]))
    ensures victims == Chosen(r, s) && list == Spared(r, s)
  {
    SparedArePinned(r, s, m);
    if m == |s| {
      assert s[..m] == s;
    } else {
      EarlyExitIsExact(r, s, m);
    }
  }

  // ---------------------------------------------------------------------------------
  // The intrusive list. A LIST_ENTRY is identified with the object it is embedded in,
  // and the list head with an object that is never tracked.
  // ---------------------------------------------------------------------------------

  /** Following Flink from each element leads to the next, from the last one back to the
      first; Blink goes the other way round. */
  ghost predicate Ring(all: seq<ManagedObject>)
    reads all`Flink, all`Blink
  {
    && |all| > 0
    && Distinct(all)
    && (forall i {:trigger all[i].Flink} :: 0 <= i < |all| ==> all[i].Flink == all[After(all, i)])
    && (forall i {:trigger all[i].Blink} :: 0 <= i < |all| ==> all[i].Blink == all[Before(all, i)])
  }

  function After<T>(s: seq<T>, i: nat): (j: nat)
    requires i < |s|
    ensures j < |s|
  {
    if i + 1 == |s| then 0 else i + 1
  }

  function Before<T>(s: seq<T>, i: nat): (j: nat)
    requires i < |s|
    ensures j < |s|
  {
    if i == 0 then |s| - 1 else i - 1
  }

  /** The neighbours of an element once the one at position k is gone. */
  lemma DropAtNeighbours<T>(s: seq<T>, k: nat, i: nat)
    requires 0 < k < |s| && i < |s| - 1
    ensures var rest := DropAt(s, k);
      var j := if i < k then i else i + 1;
      && rest[i] == s[j]
      && rest[After(rest, i)] == s[if j == k - 1 then After(s, k) else After(s, j)]
      && rest[Before(rest, i)] == s[if j == After(s, k) then k - 1 else Before(s, j)]
  {
  }

  method InsertHeadList(listHead: ManagedObject, entry: ManagedObject, ghost all: seq<ManagedObject>)
    requires Ring(all) && all[0] == listHead && entry !in all
    modifies listHead`Flink, listHead.Flink`Blink, entry`Flink, entry`Blink
    ensures Ring([listHead, entry] + all[1..])
  {
    var nextEntry := listHead.Flink;
    ghost var next := if |all| == 1 then 0 else 1;
    assert nextEntry == all[next];
    DistinctAt(all, 0);
    DistinctAt(all, next);
    InsertedIsDistinct(all, entry);
    entry.Flink := nextEntry;
    entry.Blink := listHead;
    assert nextEntry.Blink == listHead;
    nextEntry.Blink := entry;
    listHead.Flink := entry;
  }

  method InsertTailList(listHead: ManagedObject, entry: ManagedObject, ghost all: seq<ManagedObject>)
    requires Ring(all) && all[0] == listHead && entry !in all
    modifies listHead`Blink, listHead.Blink`Flink, entry`Flink, entry`Blink
    ensures Ring(all + [entry])
  {
    var prevEntry := listHead.Blink;
    assert prevEntry == all[|all| - 1];
    DistinctAt(all, 0);
    DistinctAt(all, |all| - 1);
    AppendedIsDistinct(all, entry);
    entry.Flink := listHead;
    entry.Blink := prevEntry;
    assert prevEntry.Flink == listHead;
    prevEntry.Flink := entry;
    listHead.Blink := entry;
  }

  /** Unlinks the entry at position k; its own links are left dangling. */
  method RemoveEntryList(entry: ManagedObject, ghost all: seq<ManagedObject>, ghost k: nat)
    requires Ring(all) && 0 < k < |all| && all[k] == entry
    modifies entry.Blink`Flink, entry.Flink`Blink
    ensures Ring(DropAt(all, k))
  {
    var nextEntry := entry.Flink;
    var prevEntry := entry.Blink;
    assert prevEntry == all[k - 1] && nextEntry == all[After(all, k)];
    DistinctAt(all, k - 1);
    DistinctAt(all, After(all, k));
    prevEntry.Flink := nextEntry;
    nextEntry.Blink := prevEntry;
    ghost var rest := DropAt(all, k);
    forall i | 0 <= i < |rest|
      ensures rest[i].Flink == rest[After(rest, i)] && rest[i].Blink == rest[Before(rest, i)]
    {
      DropAtNeighbours(all, k, i);
    }
    DropAtIsDistinct(all, k);
  }

  // ---------------------------------------------------------------------------------
  // The cache
  // ---------------------------------------------------------------------------------

  class LRUCache {
    const ResidentObjectListHead: ManagedObject
    var NumResidentObjects: nat
    var NumEvictedObjects: nat
    var ResidentSize: nat

    ghost var Resident: seq<ManagedObject>  // the linked objects, least recently used first
    ghost var Tracked: set<ManagedObject>

    /** The list holds exactly the resident objects and the counters count them. */
    ghost predicate Valid()
      reads this, ResidentObjectListHead, Tracked`Status, Tracked`Flink, Tracked`Blink
    {
      && Linked()
      && (forall o {:trigger o.Status} :: o in Tracked ==> (o.Status == RESIDENT <==> o in Resident))
      && NumResidentObjects == |Resident|
      && NumResidentObjects + NumEvictedObjects == |Tracked|
      && ResidentSize == TotalSize(Resident)
    }

    constructor ()
      ensures Valid() && Tracked == {} && Resident == []
      ensures fresh(ResidentObjectListHead)
    {
      var head := new ManagedObject(0, 0);
      ResidentObjectListHead := head;
      NumResidentObjects, NumEvictedObjects, ResidentSize := 0, 0, 0;
      Resident, Tracked := [], {};
      new;
      assert Chain() == [ResidentObjectListHead];
    }

    /** The list head and the linked objects, in order. */
    ghost function Chain(): seq<ManagedObject>
      reads this`Resident
    {
      [ResidentObjectListHead] + Resident
    }

    ghost predicate Linked()
      reads this, ResidentObjectListHead, Tracked`Flink, Tracked`Blink
    {
      ResidentObjectListHead !in Tracked && Within(Resident, Tracked) && Ring(Chain())
    }

    lemma Neighbours(i: nat)
      requires Linked() && i <= |Resident|
      ensures Chain()[i].Flink == Chain()[if i == |Resident| then 0 else i + 1]
      ensures Chain()[i].Blink == Chain()[if i == 0 then |Resident| else i - 1]
    {
    }

    lemma ResidentIsDistinct()
      requires Linked()
      ensures Distinct(Resident)
    {
      forall i, j | 0 <= i < j < |Resident|
        ensures !Repeated(Resident, i, j)
      {
        assert !Repeated(Chain(), i + 1, j + 1);
      }
    }

    method LinkFirst(o: ManagedObject)
      requires Linked() && o in Tracked && o !in Resident
      modifies this`Resident, ResidentObjectListHead`Flink, ResidentObjectListHead`Blink, Tracked`Flink, Tracked`Blink
      ensures Linked() && Resident == [o] + old(Resident)
    {
      Neighbours(0);
      ghost var all := Chain();
      InsertHeadList(ResidentObjectListHead, o, all);
      InsertBehindHead(ResidentObjectListHead, Resident, o);
      Resident := [o] + Resident;
    }

    method LinkLast(o: ManagedObject)
      requires Linked() && o in Tracked && o !in Resident
      modifies this`Resident, ResidentObjectListHead`Flink, ResidentObjectListHead`Blink, Tracked`Flink, Tracked`Blink
      ensures Linked() && Resident == old(Resident) + [o]
    {
      Neighbours(0);
      ghost var all := Chain();
      InsertTailList(ResidentObjectListHead, o, all);
      AppendBehindHead(ResidentObjectListHead, Resident, o);
      Resident := Resident + [o];
    }

    method UnlinkAt(o: ManagedObject, ghost k: nat)
      requires Linked() && k < |Resident| && Resident[k] == o
      modifies this`Resident, ResidentObjectListHead`Flink, ResidentObjectListHead`Blink, Tracked`Flink, Tracked`Blink
      ensures Linked() && Resident == DropAt(old(Resident), k)
    {
      Neighbours(k + 1);
      ghost var all := Chain();
      RemoveEntryList(o, all, k + 1);
      DropBehindHead(ResidentObjectListHead, Resident, k);
      Resident := DropAt(Resident, k);
    }

    /** Takes a resident object out of the list. */
    method Unlink(o: ManagedObject) returns (ghost k: nat)
      requires Linked() && o in Resident
      modifies this`Resident, ResidentObjectListHead`Flink, ResidentObjectListHead`Blink, Tracked`Flink, Tracked`Blink
      ensures Linked() && k < old(|Resident|) && old(Resident)[k] == o
      ensures Resident == DropAt(old(Resident), k)
      ensures forall x :: x in Resident <==> x in old(Resident) && x != o
    {
      ResidentIsDistinct();
      k :| 0 <= k < |Resident| && Resident[k] == o;
      DropAtMembers(Resident, k);
      UnlinkAt(o, k);
    }

    /** Starts tracking a new object; a resident one goes to the stale end of the list. */
    method Insert(o: ManagedObject)
      requires Valid() && o !in Tracked && o != ResidentObjectListHead
      modifies this, ResidentObjectListHead`Flink, ResidentObjectListHead`Blink, Tracked`Flink
      modifies Tracked`Blink, o`Flink, o`Blink
      ensures Valid() && Tracked == old(Tracked) + {o}
      ensures Resident == if o.Status == RESIDENT then [o] + old(Resident) else old(Resident)
    {
      Tracked := Tracked + {o};
      if o.Status == RESIDENT {
        SizeOfOneMore(Resident, o);
        LinkFirst(o);
        NumResidentObjects := NumResidentObjects + 1;
        ResidentSize := ResidentSize + o.Size;
      } else {
        NumEvictedObjects := NumEvictedObjects + 1;
      }
    }

    method Remove(o: ManagedObject) returns (ghost k: nat)
      requires Valid() && o in Tracked
      modifies this, ResidentObjectListHead`Flink, ResidentObjectListHead`Blink, Tracked`Flink, Tracked`Blink
      ensures Valid() && Tracked == old(Tracked) - {o}
      ensures o.Status == EVICTED ==> Resident == old(Resident)
      ensures o.Status == RESIDENT ==>
        k < old(|Resident|) && old(Resident)[k] == o && Resident == DropAt(old(Resident), k)
    {
      if o.Status == RESIDENT {
        k := Unlink(o);
        TotalSizeWithout(old(Resident), k);
        NumResidentObjects := NumResidentObjects - 1;
        ResidentSize := ResidentSize - o.Size;
      } else {
        k := 0;
        SomethingIsEvicted(o);
        NumEvictedObjects := NumEvictedObjects - 1;
      }
      Tracked := Tracked - {o};
    }

    lemma SomethingIsEvicted(o: ManagedObject)
      requires Valid() && o in Tracked && o.Status == EVICTED
      ensures NumEvictedObjects > 0
    {
      ResidentIsDistinct();
      DistinctFits(Resident, Tracked - {o});
    }

    /** An object that was just used goes to the recent end of the list. */
    method ObjectReferenced(o: ManagedObject) returns (ghost k: nat)
      requires Valid() && o in Tracked && o.Status == RESIDENT
      modifies this`Resident, ResidentObjectListHead`Flink, ResidentObjectListHead`Blink, Tracked`Flink, Tracked`Blink
      ensures Valid() && k < old(|Resident|) && old(Resident)[k] == o
      ensures Resident == DropAt(old(Resident), k) + [o]
    {
      k := Unlink(o);
      TotalSizeWithout(old(Resident), k);
      SizeOfOneMore(Resident, o);
      LinkLast(o);
    }

    method MakeResident(o: ManagedObject)
      requires Valid() && o in Tracked && o.Status == EVICTED
      modifies this, ResidentObjectListHead`Flink, ResidentObjectListHead`Blink, Tracked`Flink, Tracked`Blink, o`Status
      ensures Valid() && Tracked == old(Tracked)
      ensures Resident == old(Resident) + [o] && o.Status == RESIDENT
    {
      SomethingIsEvicted(o);
      SizeOfOneMore(Resident, o);
      o.Status := RESIDENT;
      LinkLast(o);
      NumEvictedObjects := NumEvictedObjects - 1;
      NumResidentObjects := NumResidentObjects + 1;
      ResidentSize := ResidentSize + o.Size;
    }

    method Evict(o: ManagedObject) returns (ghost k: nat)
      requires Valid() && o in Tracked && o.Status == RESIDENT && !o.IsPinned()
      modifies this, ResidentObjectListHead`Flink, ResidentObjectListHead`Blink, Tracked`Flink, Tracked`Blink, o`Status
      ensures Valid() && Tracked == old(Tracked)
      ensures k < old(|Resident|) && old(Resident)[k] == o
      ensures Resident == DropAt(old(Resident), k) && o.Status == EVICTED
    {
      o.Status := EVICTED;
      k := Unlink(o);
      TotalSizeWithout(old(Resident), k);
      NumResidentObjects := NumResidentObjects - 1;
      ResidentSize := ResidentSize - o.Size;
      NumEvictedObjects := NumEvictedObjects + 1;
    }

    method GetResidentListHead() returns (o: ManagedObject?)
      requires Valid()
      ensures Resident == [] ==> o == null
      ensures Resident != [] ==> o == Resident[0]
    {
      Neighbours(0);
      if ResidentObjectListHead.Flink == ResidentObjectListHead {
        o := null;
      } else {
        o := ResidentObjectListHead.Flink;
      }
    }

    /** o is where an iteration stands after k steps; the list head comes after the last
        object. */
    ghost predicate At(o: ManagedObject, k: nat)
      reads this`Resident
    {
      k <= |Resident| && o == if k < |Resident| then Resident[k] else ResidentObjectListHead
    }

    method First() returns (o: ManagedObject)
      requires Linked()
      ensures At(o, 0) && (o == ResidentObjectListHead <==> Resident == [])
    {
      Neighbours(0);
      o := ResidentObjectListHead.Flink;
      AtHeadAtEnd(o, 0);
    }

    method Following(o: ManagedObject, ghost k: nat) returns (next: ManagedObject)
      requires Linked() && k < |Resident| && At(o, k)
      ensures At(next, k + 1)
    {
      Neighbours(k + 1);
      next := o.Flink;
    }

    lemma AtHeadAtEnd(o: ManagedObject, k: nat)
      requires Linked() && At(o, k)
      ensures o == ResidentObjectListHead <==> k == |Resident|
    {
    }

    /** Evicts the object a scan stands at. */
    method EvictAt(o: ManagedObject, ghost k: nat, ghost now: seq<Snapshot>)
      requires Valid() && k < |Resident| && At(o, k) && !o.IsPinned() && Shows(now, Resident)
      modifies this, ResidentObjectListHead`Flink, ResidentObjectListHead`Blink, Tracked`Flink, Tracked`Blink, o`Status
      ensures Valid() && Tracked == old(Tracked)
      ensures Shows(DropAt(now, k), Resident)
    {
      ResidentIsDistinct();
      ghost var was := Resident;
      ghost var at := Evict(o);
      assert at == k by { assert was[at] == was[k]; }
    }

    /** What a scan does with an entry that passed its tests: a pinned one is stepped over,
        any other is evicted and the scan starts over from the head of the list. */
    method SkipOrEvict(entry: ManagedObject, ghost r: Rule, ghost s: seq<Snapshot>, ghost m: nat, ghost k: nat,
        ghost now: seq<Snapshot>, ghost victims: seq<Snapshot>)
      returns (next: ManagedObject, evicted: bool, ghost m': nat, ghost k': nat, ghost now': seq<Snapshot>)
      requires Valid() && Shows(now, Resident) && At(entry, k) && k < |now|
      requires Scanning(r, s, m, k, now, victims) && Passes(r, now[k])
      modifies this, ResidentObjectListHead`Flink, ResidentObjectListHead`Blink
      modifies Tracked`Flink, Tracked`Blink, Tracked`Status
      ensures Valid() && Tracked == old(Tracked) && Shows(now', Resident) && At(next, k')
      ensures next == ResidentObjectListHead <==> k' == |now'|
      ensures evicted <==> !now[k].pinned
      ensures evicted ==> |now'| < |now| && Scanning(r, s, m', k', now', victims + [now[k]])
      ensures !evicted ==> now' == now && k' == k + 1 && Scanning(r, s, m', k', now', victims)
    {
      evicted := !entry.IsPinned();
      if evicted {
        ScanEvict(r, s, m, k, now, victims);
        EvictAt(entry, k, now);
        now', m', k' := DropAt(now, k), m + 1, 0;
        next := First();
      } else {
        m' := ScanPinned(r, s, m, k, now, victims);
        now', k' := now, k + 1;
        next := Following(entry, k);
      }
      AtHeadAtEnd(next, k');
    }

    /** Evicts everything unpinned that was last used long enough ago and is complete on
        the GPU, and nothing else. */
    method TrimAgedAllocations(fenceValue: nat, evictionList: seq<Handle>, currentTimeStamp: nat, minDelta: nat,
        ghost s: seq<Snapshot>)
      returns (list: seq<Handle>, ghost victims: seq<Snapshot>)
      requires Valid() && Shows(s, Resident) && Sorted(s)
      modifies this, ResidentObjectListHead`Flink, ResidentObjectListHead`Blink
      modifies Tracked`Flink, Tracked`Blink, Tracked`Status
      ensures Valid() && Tracked == old(Tracked)
      ensures victims == Chosen(Rule(fenceValue, Some(currentTimeStamp - minDelta)), s)
      ensures Shows(Spared(Rule(fenceValue, Some(currentTimeStamp - minDelta)), s), Resident)
      ensures list == evictionList + HandlesOf(victims)
    {
      ghost var r := Rule(fenceValue, Some(currentTimeStamp - minDelta));
      ghost var m: nat, k: nat, now := 0, 0, s;
      list, victims := evictionList, [];
      var entry := First();
      while entry != ResidentObjectListHead
        invariant Valid() && Tracked == old(Tracked) && Shows(now, Resident) && At(entry, k)
        invariant entry == ResidentObjectListHead <==> k == |now|
        invariant Scanning(r, s, m, k, now, victims)
        invariant list == evictionList + HandlesOf(victims)
        decreases |now|, |now| - k
      {
        if currentTimeStamp - entry.LastUsedTimestamp <= minDelta {
          assert !Passes(r, now[k]);
          break;
        }
        if entry.LastUsedFenceValue > fenceValue {
          assert !Passes(r, now[k]);
          break;
        }
        var evicted;
        var tested := entry;
        ghost var x := now[k];
        entry, evicted, m, k, now := SkipOrEvict(entry, r, s, m, k, now, victims);
        if evicted {
          HandlesOfOneMore(evictionList, victims, x);
          list, victims := list + [tested.pUnderlying], victims + [x];
        }
      }
      ScanDone(r, s, m, k, now, victims);
    }

    /** Evicts, in list order, unpinned objects last used no later than the fence, stopping
        as soon as the usage is under budget. */
    method TrimToSyncPointInclusive(usage: int, budget: int, fenceValue: nat, ghost s: seq<Snapshot>)
      returns (list: seq<Handle>, ghost victims: seq<Snapshot>, ghost m: nat)
      requires Valid() && Shows(s, Resident) && Sorted(s)
      modifies this, ResidentObjectListHead`Flink, ResidentObjectListHead`Blink
      modifies Tracked`Flink, Tracked`Blink, Tracked`Status
      ensures Valid() && Tracked == old(Tracked)
      ensures Trimmed(Rule(fenceValue, None), s, m, victims, usage, budget)
      ensures forall i :: 0 <= i < m ==> s[i].fence <= fenceValue
      ensures Shows(Scanned(Rule(fenceValue, None), s, m), Resident)
      ensures list == HandlesOf(victims)
    {
      ghost var r := Rule(fenceValue, None);
      ghost var k: nat, now := 0, s;
      m, list, victims := 0, [], [];
      var currentUsage := usage;
      var entry := First();
      while entry != ResidentObjectListHead
        invariant Valid() && Tracked == old(Tracked) && Shows(now, Resident) && At(entry, k)
        invariant entry == ResidentObjectListHead <==> k == |now|
        invariant Scanning(r, s, m, k, now, victims)
        invariant list == HandlesOf(victims)
        invariant Spent(victims, usage, budget, currentUsage)
        decreases |now|, |now| - k
      {
        if currentUsage < budget {
          break;
        }
        if entry.LastUsedFenceValue > fenceValue {
          assert !Passes(r, now[k]);
          break;
        }
        var evicted;
        var tested := entry;
        ghost var x := now[k];
        entry, evicted, m, k, now := SkipOrEvict(entry, r, s, m, k, now, victims);
        if evicted {
          HandlesOfOneMore([], victims, x);
          OneMoreVictim(victims, x, usage, budget, currentUsage);
          list, victims := list + [tested.pUnderlying], victims + [x];
          currentUsage := currentUsage - tested.Size;
        }
      }
      ChosenOfPrefix(r, s, m);
      if currentUsage >= budget {
        ScanDone(r, s, m, k, now, victims);
      }
    }
  }
}
