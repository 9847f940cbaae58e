/**
 Making the objects of a command list resident before it runs:
 ResidencyManager::ProcessPagingWork of src/d3d12translationlayer/Residency.cpp.
 Every EnqueueMakeResident call succeeds here.
 */
module Paging {
  import opened Wrappers
  import opened FenceTimeline
  import opened Residency

  /** What reached the D3D device, in the order of the calls. */
  class PagingDevice {
    var Enqueued: seq<Handle>
    var Evicted: seq<Handle>
    // The value of AsyncThreadFence, one more for every batch.
    var FenceValue: nat

    constructor ()
      ensures Enqueued == [] && Evicted == [] && FenceValue == 0
    {
      Enqueued, Evicted, FenceValue := [], [], 0;
    }

    method EnqueueMakeResident(batch: seq<Handle>)
      modifies this`Enqueued, this`FenceValue
      ensures Enqueued == old(Enqueued) + batch && FenceValue == old(FenceValue) + 1
    {
      Enqueued, FenceValue := Enqueued + batch, FenceValue + 1;
    }

    /** Nothing pinned and nothing the GPU may still use can be evicted. */
    method Evict(list: seq<Handle>, ghost victims: seq<Snapshot>, ghost completed: nat)
      requires list == HandlesOf(victims) && Idle(victims, completed)
      modifies this`Evicted
      ensures Evicted == old(Evicted) + list
    {
      Evicted := Evicted + list;
    }
  }

  ghost predicate Idle(victims: seq<Snapshot>, completed: nat) {
    forall i :: 0 <= i < |victims| ==> !victims[i].pinned && victims[i].fence <= completed
  }

  /** An entry of the scratch list is first the object and later what lies behind it. */
  datatype ResidentScratchSpace = Managed(pManagedObject: ManagedObject) | Underlying(pUnderlying: Handle)

  // ---------------------------------------------------------------------------------
  // Order of the resident list
  // ---------------------------------------------------------------------------------

  ghost predicate OrderedUpTo(objs: seq<ManagedObject>, n: nat)
    requires n <= |objs|
    reads objs`LastUsedFenceValue, objs`LastUsedTimestamp, objs`PinCount, objs`PinWaitsPending
  {
    n < 2 || (OrderedUpTo(objs, n - 1) && Precedes(Snap(objs[n - 2]), Snap(objs[n - 1])))
  }

  lemma {:induction false} OrderedIsSorted(objs: seq<ManagedObject>, s: seq<Snapshot>, n: nat)
    requires Shows(s, objs) && n <= |objs|
    ensures OrderedUpTo(objs, n) <==> SortedUpTo(s, n)
  {
    if n >= 2 {
      OrderedIsSorted(objs, s, n - 1);
    }
  }

  /** The present view of some objects. */
  ghost function ViewUpTo(objs: seq<ManagedObject>, n: nat): (s: seq<Snapshot>)
    requires n <= |objs|
    reads objs`LastUsedFenceValue, objs`LastUsedTimestamp, objs`PinCount, objs`PinWaitsPending
    ensures |s| == n
  {
    if n == 0 then [] else ViewUpTo(objs, n - 1) + [Snap(objs[n - 1])]
  }

  ghost function View(objs: seq<ManagedObject>): seq<Snapshot>
    reads objs`LastUsedFenceValue, objs`LastUsedTimestamp, objs`PinCount, objs`PinWaitsPending
  {
    ViewUpTo(objs, |objs|)
  }

  lemma ViewShowsAll(objs: seq<ManagedObject>)
    ensures Shows(View(objs), objs)
  {
    ViewShows(objs, |objs|);
    assert objs[..|objs|] == objs;
  }

  lemma {:induction false} ViewShows(objs: seq<ManagedObject>, n: nat)
    requires n <= |objs|
    ensures Shows(ViewUpTo(objs, n), objs[..n])
  {
    if n > 0 {
      ViewShows(objs, n - 1);
    }
  }

  lemma OrderedView(objs: seq<ManagedObject>) returns (s: seq<Snapshot>)
    requires OrderedUpTo(objs, |objs|)
    ensures Shows(s, objs) && Sorted(s)
  {
    s := ViewUpTo(objs, |objs|);
    ViewShows(objs, |objs|);
    assert objs[..|objs|] == objs;
    OrderedIsSorted(objs, s, |s|);
  }

  /** No recorded use lies in the future. */
  ghost predicate Bounded(objs: set<ManagedObject>, fence: nat, stamp: nat)
    reads objs`LastUsedFenceValue, objs`LastUsedTimestamp
  {
    forall o {:trigger o.LastUsedFenceValue} {:trigger o.LastUsedTimestamp} :: o in objs ==>
      o.LastUsedFenceValue <= fence && o.LastUsedTimestamp <= stamp
  }

  lemma AppendIsOrdered(objs: seq<ManagedObject>, s: seq<Snapshot>, o: ManagedObject, t: set<ManagedObject>)
    requires Shows(s, objs) && Sorted(s) && Within(objs, t)
    requires Bounded(t, o.LastUsedFenceValue, o.LastUsedTimestamp)
    ensures OrderedUpTo(objs + [o], |objs| + 1)
  {
    SortedAppend(s, Snap(o), |s|);
    assert Shows(s + [Snap(o)], objs + [o]);
    OrderedIsSorted(objs + [o], s + [Snap(o)], |objs| + 1);
  }

  /** The other objects of the list, in their order, are as sorted as the list was. */
  lemma OthersAreSorted(objs: seq<ManagedObject>, o: ManagedObject, t: set<ManagedObject>) returns (s: seq<Snapshot>)
    requires OrderedUpTo(objs, |objs|) && Distinct(objs) && Within(objs, t)
    ensures Shows(s, Minus(objs, {o})) && Sorted(s) && Within(Minus(objs, {o}), t - {o})
  {
    s := OrderedView(objs);
    if k :| 0 <= k < |objs| && objs[k] == o {
      MinusAt(objs, k);
      DistinctAt(objs, k);
      SortedDrop(s, k);
      s := DropAt(s, k);
    } else {
      MinusNothing(objs, {o}, |objs|);
      assert objs[..|objs|] == objs;
    }
  }

  lemma MinusOne(objs: seq<ManagedObject>, o: ManagedObject)
    requires Distinct(objs)
    ensures forall k :: 0 <= k < |objs| && objs[k] == o ==> Minus(objs, {o}) == DropAt(objs, k)
    ensures o !in objs ==> Minus(objs, {o}) == objs
  {
    forall k | 0 <= k < |objs| && objs[k] == o ensures Minus(objs, {o}) == DropAt(objs, k) {
      MinusAt(objs, k);
    }
    if o !in objs {
      MinusNothing(objs, {o}, |objs|);
      assert objs[..|objs|] == objs;
    }
  }

  method EnsureResident(lru: LRUCache, o: ManagedObject) returns (wasEvicted: bool)
    requires lru.Valid() && o in lru.Tracked
    modifies lru, lru.ResidentObjectListHead`Flink, lru.ResidentObjectListHead`Blink
    modifies lru.Tracked`Flink, lru.Tracked`Blink, o`Status
    ensures lru.Valid() && lru.Tracked == old(lru.Tracked) && o.Status == RESIDENT
    ensures wasEvicted <==> old(o.Status) == EVICTED
    ensures Minus(lru.Resident, {o}) == Minus(old(lru.Resident), {o})
  {
    wasEvicted := o.Status == EVICTED;
    if wasEvicted {
      MinusConcat(lru.Resident, [o], {o}, 1);
      assert MinusUpTo([o], {o}, 1) == MinusUpTo([o], {o}, 0);
      lru.MakeResident(o);
    }
  }

  method MoveToRecentEnd(lru: LRUCache, o: ManagedObject)
    requires lru.Valid() && o in lru.Tracked && o.Status == RESIDENT
    modifies lru`Resident, lru.ResidentObjectListHead`Flink, lru.ResidentObjectListHead`Blink
    modifies lru.Tracked`Flink, lru.Tracked`Blink
    ensures lru.Valid() && lru.Resident == Minus(old(lru.Resident), {o}) + [o]
  {
    lru.ResidentIsDistinct();
    ghost var was := lru.Resident;
    ghost var k := lru.ObjectReferenced(o);
    MinusAt(was, k);
  }

  /** What one object of the set goes through: it becomes resident, its last use becomes
      now, and it moves to the recent end of the list. */
  method Touch(lru: LRUCache, o: ManagedObject, id: nat, time: nat) returns (wasEvicted: bool)
    requires lru.Valid() && o in lru.Tracked && Bounded(lru.Tracked, id, time)
    requires OrderedUpTo(lru.Resident, |lru.Resident|)
    modifies lru, lru.ResidentObjectListHead`Flink, lru.ResidentObjectListHead`Blink
    modifies lru.Tracked`Flink, lru.Tracked`Blink
    modifies o`Status, o`LastUsedFenceValue, o`LastUsedTimestamp
    ensures lru.Valid() && lru.Tracked == old(lru.Tracked) && Bounded(lru.Tracked, id, time)
    ensures OrderedUpTo(lru.Resident, |lru.Resident|)
    ensures wasEvicted <==> old(o.Status) == EVICTED
    ensures o.Status == RESIDENT && o.LastUsedFenceValue == id && o.LastUsedTimestamp == time
    ensures lru.Resident == Minus(old(lru.Resident), {o}) + [o]
  {
    lru.ResidentIsDistinct();
    ghost var rest := Minus(lru.Resident, {o});
    ghost var s := OthersAreSorted(lru.Resident, o, lru.Tracked);
    wasEvicted := EnsureResident(lru, o);
    o.LastUsedFenceValue := id;
    o.LastUsedTimestamp := time;
    MoveToRecentEnd(lru, o);
    AppendIsOrdered(rest, s, o, lru.Tracked);
  }

  /** No object occurs twice among the first n. */
  ghost predicate NoRepeatUpTo(objs: seq<ManagedObject>, n: nat)
    requires n <= |objs|
  {
    n == 0 || (NoRepeatUpTo(objs, n - 1) && forall j :: 0 <= j < n - 1 ==> objs[j] != objs[n - 1])
  }

  lemma {:induction false} NoRepeatAt(objs: seq<ManagedObject>, n: nat, i: nat, j: nat)
    requires n <= |objs| && NoRepeatUpTo(objs, n) && i < j < n
    ensures objs[i] != objs[j]
  {
    if j < n - 1 {
      NoRepeatAt(objs, n - 1, i, j);
    }
  }

  /** Those of the first n objects that are evicted, in their order. */
  ghost function EvictedUpTo(objs: seq<ManagedObject>, n: nat): (r: seq<ManagedObject>)
    requires n <= |objs|
    reads objs`Status
  {
    if n == 0 then []
    else if objs[n - 1].Status == EVICTED then EvictedUpTo(objs, n - 1) + [objs[n - 1]]
    else EvictedUpTo(objs, n - 1)
  }

  ghost predicate UsedNow(objs: set<ManagedObject>, id: nat, time: nat)
    reads objs`Status, objs`LastUsedFenceValue, objs`LastUsedTimestamp
  {
    forall o <- objs :: o.Status == RESIDENT && o.LastUsedFenceValue == id && o.LastUsedTimestamp == time
  }

  ghost predicate StampedNow(objs: set<ManagedObject>, time: nat)
    reads objs`LastUsedTimestamp
  {
    forall o <- objs :: o.LastUsedTimestamp == time
  }

  ghost predicate Gathered(list: seq<ResidentScratchSpace>, size: nat, pending: seq<ManagedObject>) {
    && size == TotalSize(pending)
    && |list| == |pending|
    && forall i :: 0 <= i < |list| ==> list[i] == Managed(pending[i])
  }

  lemma TouchedOneMore(was: seq<ManagedObject>, used: set<ManagedObject>, objs: seq<ManagedObject>, i: nat)
    requires i < |objs| && NoRepeatUpTo(objs, |objs|)
    ensures Minus(Minus(was, used) + objs[..i], {objs[i]}) + [objs[i]] == Minus(was, used + {objs[i]}) + objs[..i + 1]
  {
    NotAmongFirst(objs, i);
    MinusTwice(was, used, {objs[i]}, |was|);
    MinusOfFront(Minus(was, used), objs[..i], objs[i]);
    assert objs[..i + 1] == objs[..i] + [objs[i]];
  }

  lemma MinusOfFront(rest: seq<ManagedObject>, before: seq<ManagedObject>, o: ManagedObject)
    requires forall j :: 0 <= j < |before| ==> before[j] != o
    ensures Minus(rest + before, {o}) + [o] == Minus(rest, {o}) + (before + [o])
  {
    MinusNothing(before, {o}, |before|);
    assert before[..|before|] == before;
    MinusConcat(rest, before, {o}, |before|);
  }

  lemma NotAmongFirst(objs: seq<ManagedObject>, i: nat)
    requires i < |objs| && NoRepeatUpTo(objs, |objs|)
    ensures forall j :: 0 <= j < i ==> objs[..i][j] != objs[i]
  {
    forall j | 0 <= j < i ensures objs[..i][j] != objs[i] {
      NoRepeatAt(objs, |objs|, j, i);
    }
  }

  ghost function FirstOf(objs: seq<ManagedObject>, n: nat): set<ManagedObject>
    requires n <= |objs|
  {
    if n == 0 then {} else FirstOf(objs, n - 1) + {objs[n - 1]}
  }

  lemma {:induction false} NotSeenBefore(objs: seq<ManagedObject>, i: nat, n: nat)
    requires n <= i < |objs| && NoRepeatUpTo(objs, |objs|)
    ensures objs[i] !in FirstOf(objs, n)
  {
    if n > 0 {
      NotSeenBefore(objs, i, n - 1);
      NoRepeatAt(objs, |objs|, n - 1, i);
    }
  }

  lemma {:induction false} FirstOfIsWithin(objs: seq<ManagedObject>, t: set<ManagedObject>, n: nat)
    requires n <= |objs| && Within(objs, t)
    ensures FirstOf(objs, n) <= t
    ensures forall j :: 0 <= j < n ==> objs[j] in FirstOf(objs, n)
  {
    if n > 0 {
      FirstOfIsWithin(objs, t, n - 1);
    }
  }

  /** The list of resident objects is sound and in order of last use. */
  ghost predicate InOrder(lru: LRUCache, id: nat, time: nat)
    reads lru, lru.ResidentObjectListHead, lru.Tracked
  {
    lru.Valid() && Bounded(lru.Tracked, id, time) && OrderedUpTo(lru.Resident, |lru.Resident|)
  }

  /** One round of the loop below. */
  method MarkOne(lru: LRUCache, o: ManagedObject, id: nat, time: nat,
      list: seq<ResidentScratchSpace>, size: nat, ghost pending: seq<ManagedObject>, ghost used: set<ManagedObject>)
    returns (list': seq<ResidentScratchSpace>, size': nat, ghost pending': seq<ManagedObject>)
    requires InOrder(lru, id, time) && o in lru.Tracked && Gathered(list, size, pending)
    requires o !in used && UsedNow(used, id, time)
    modifies lru, lru.ResidentObjectListHead`Flink, lru.ResidentObjectListHead`Blink
    modifies lru.Tracked`Flink, lru.Tracked`Blink
    modifies o`Status, o`LastUsedFenceValue, o`LastUsedTimestamp
    ensures InOrder(lru, id, time) && lru.Tracked == old(lru.Tracked)
    ensures UsedNow(used + {o}, id, time)
    ensures lru.Resident == Minus(old(lru.Resident), {o}) + [o]
    ensures Gathered(list', size', pending')
    ensures pending' == if old(o.Status) == EVICTED then pending + [o] else pending
  {
    list', size', pending' := list, size, pending;
    var wasEvicted := Touch(lru, o, id, time);
    if wasEvicted {
      SizeOfOneMore(pending, o);
      list', size', pending' := list + [Managed(o)], size + o.Size, pending + [o];
    }
  }

  /** The first i objects of the set are in use and at the recent end, behind what was there. */
  ghost predicate Marked(lru: LRUCache, was: seq<ManagedObject>, objs: seq<ManagedObject>, i: nat,
      used: set<ManagedObject>, id: nat, time: nat)
    requires i <= |objs|
    reads lru, lru.ResidentObjectListHead, lru.Tracked, used
  {
    && InOrder(lru, id, time)
    && used == FirstOf(objs, i) && used <= lru.Tracked && UsedNow(used, id, time)
    && lru.Resident == Minus(was, used) + objs[..i]
  }

  method MarkNext(lru: LRUCache, o: ManagedObject, id: nat, time: nat,
      list: seq<ResidentScratchSpace>, size: nat, ghost pending: seq<ManagedObject>,
      ghost was: seq<ManagedObject>, ghost used: set<ManagedObject>, ghost objs: seq<ManagedObject>, ghost i: nat)
    returns (list': seq<ResidentScratchSpace>, size': nat, ghost pending': seq<ManagedObject>)
    requires i < |objs| && o == objs[i] && NoRepeatUpTo(objs, |objs|) && o in lru.Tracked
    requires Marked(lru, was, objs, i, used, id, time) && Gathered(list, size, pending)
    modifies lru, lru.ResidentObjectListHead`Flink, lru.ResidentObjectListHead`Blink
    modifies lru.Tracked`Flink, lru.Tracked`Blink
    modifies o`Status, o`LastUsedFenceValue, o`LastUsedTimestamp
    ensures lru.Tracked == old(lru.Tracked) && o !in used
    ensures Marked(lru, was, objs, i + 1, used + {o}, id, time) && Gathered(list', size', pending')
    ensures pending' == if old(o.Status) == EVICTED then pending + [o] else pending
  {
    TouchedOneMore(was, used, objs, i);
    NotSeenBefore(objs, i, i);
    list', size', pending' := MarkOne(lru, o, id, time, list, size, pending, used);
  }

  lemma MarkedNoneOrAll(was: seq<ManagedObject>, objs: seq<ManagedObject>)
    ensures Minus(was, {}) + objs[..0] == was && objs[..|objs|] == objs
  {
    MinusNothing(was, {}, |was|);
    assert was[..|was|] == was;
  }

  /** Marks every object of the set as used by the current command list and gathers those
      that have to be made resident. */
  method MarkUsed(lru: LRUCache, objs: seq<ManagedObject>, id: nat, time: nat)
    returns (list: seq<ResidentScratchSpace>, size: nat, ghost pending: seq<ManagedObject>)
    requires InOrder(lru, id, time) && Within(objs, lru.Tracked) && NoRepeatUpTo(objs, |objs|)
    modifies lru, lru.ResidentObjectListHead`Flink, lru.ResidentObjectListHead`Blink
    modifies lru.Tracked`Flink, lru.Tracked`Blink
    modifies lru.Tracked`Status, lru.Tracked`LastUsedFenceValue, lru.Tracked`LastUsedTimestamp
    ensures InOrder(lru, id, time) && lru.Tracked == old(lru.Tracked)
    ensures UsedNow(FirstOf(objs, |objs|), id, time)
    ensures lru.Resident == Minus(old(lru.Resident), FirstOf(objs, |objs|)) + objs
    ensures forall o <- lru.Tracked :: o !in FirstOf(objs, |objs|) ==>
      o.LastUsedFenceValue == old(o.LastUsedFenceValue) && o.LastUsedTimestamp == old(o.LastUsedTimestamp)
    ensures pending == old(EvictedUpTo(objs, |objs|)) && Gathered(list, size, pending)
  {
    list, size, pending := [], 0, [];
    ghost var was := lru.Resident;
    ghost var used: set<ManagedObject> := {};
    MarkedNoneOrAll(was, objs);
    for i := 0 to |objs|
      invariant lru.Tracked == old(lru.Tracked)
      invariant Marked(lru, was, objs, i, used, id, time) && Gathered(list, size, pending)
      invariant forall o <- lru.Tracked :: o !in used ==>
        o.Status == old(o.Status) && o.LastUsedFenceValue == old(o.LastUsedFenceValue)
        && o.LastUsedTimestamp == old(o.LastUsedTimestamp)
      invariant pending == old(EvictedUpTo(objs, i))
    {
      list, size, pending := MarkNext(lru, objs[i], id, time, list, size, pending, was, used, objs, i);
      used := used + {objs[i]};
    }
  }

  // ---------------------------------------------------------------------------------
  // Batches
  // ---------------------------------------------------------------------------------

  /** The first made entries of the scratch list have been handed over, the rest still name
      the objects. */
  ghost predicate HandedOver(list: seq<ResidentScratchSpace>, pending: seq<ManagedObject>, made: nat) {
    && made <= |pending| == |list|
    && (forall i :: 0 <= i < made ==> list[i] == Underlying(pending[i].pUnderlying))
    && (forall i :: made <= i < |list| ==> list[i] == Managed(pending[i]))
  }

  /** Converts one entry after the other while the sum of the sizes fits. The index is moved
      only when an object did not fit. */
  method GatherBatch(list: seq<ResidentScratchSpace>, index: nat, available: nat, ghost pending: seq<ManagedObject>)
    returns (list': seq<ResidentScratchSpace>, index': nat, batchSize: nat, count: nat)
    requires HandedOver(list, pending, index)
    ensures HandedOver(list', pending, index + count)
    ensures batchSize == SizeUpTo(pending, index + count) - SizeUpTo(pending, index) <= available
    ensures index + count < |pending| ==> index' == index + count
    ensures index + count < |pending| ==> batchSize + pending[index + count].Size > available
  {
    list', index', batchSize, count := list, index, 0, 0;
    var i := index;
    while i < |list'|
      invariant i == index + count && HandedOver(list', pending, i)
      invariant batchSize == SizeUpTo(pending, i) - SizeUpTo(pending, index) <= available
      decreases |pending| - i
    {
      var o := list'[i].pManagedObject;
      if batchSize + o.Size > available {
        index' := i;
        break;
      }
      batchSize, count := batchSize + o.Size, count + 1;
      list' := list'[i := Underlying(o.pUnderlying)];
      i := i + 1;
    }
  }

  /** Converts whatever is left. */
  method GatherRest(list: seq<ResidentScratchSpace>, index: nat, ghost pending: seq<ManagedObject>)
    returns (list': seq<ResidentScratchSpace>)
    requires HandedOver(list, pending, index)
    ensures HandedOver(list', pending, |pending|)
  {
    list' := list;
    for i := index to |list|
      invariant HandedOver(list', pending, i)
    {
      list' := list'[i := Underlying(list'[i].pManagedObject.pUnderlying)];
    }
  }

  /** Hands count entries from start on to the device. */
  method EnqueueEntries(device: PagingDevice, list: seq<ResidentScratchSpace>, start: nat, count: nat,
      ghost pending: seq<ManagedObject>, ghost made: nat)
    requires HandedOver(list, pending, made) && start + count <= made
    modifies device`Enqueued, device`FenceValue
    ensures device.Enqueued == old(device.Enqueued) + Handles(pending)[start..start + count]
  {
    var batch := seq(count, i requires 0 <= i < count => list[start + i].pUnderlying);
    assert batch == Handles(pending)[start..start + count];
    device.EnqueueMakeResident(batch);
  }

  // ---------------------------------------------------------------------------------
  // Making room
  // ---------------------------------------------------------------------------------

  ghost predicate AllPinned(now: seq<Snapshot>) {
    forall i :: 0 <= i < |now| ==> now[i].pinned
  }

  /** Everything that was last used by the current command list is pinned. */
  ghost predicate CurrentPinned(now: seq<Snapshot>, id: nat) {
    forall i :: 0 <= i < |now| && now[i].fence >= id ==> now[i].pinned
  }

  /** The first object of the list that is not pinned. The walk has no test for the end of
      the list: when every object is pinned it runs over the list head. */
  method FirstUnpinned(lru: LRUCache, ghost now: seq<Snapshot>)
    returns (o: ManagedObject?, ranOver: bool, ghost h: nat)
    requires lru.Valid() && Shows(now, lru.Resident)
    ensures ranOver <==> now != [] && AllPinned(now)
    ensures !ranOver ==> (o == null <==> now == [])
    ensures !ranOver && o != null ==>
      h < |now| && lru.Resident[h] == o && !now[h].pinned && forall i :: 0 <= i < h ==> now[i].pinned
  {
    h, ranOver := 0, false;
    o := lru.GetResidentListHead();
    if o == null {
      return;
    }
    while o.IsPinned()
      invariant o != null && h < |now| && o == lru.Resident[h]
      invariant forall i :: 0 <= i < h ==> now[i].pinned
      decreases |now| - h
    {
      var next := lru.Following(o, h);
      lru.AtHeadAtEnd(next, h + 1);
      h := h + 1;
      if next == lru.ResidentObjectListHead {
        ranOver := true;
        return;
      }
      o := next;
    }
  }

  /** None of the victims belongs to the set in use. */
  ghost predicate Outside(victims: seq<Snapshot>, used: set<ManagedObject>) {
    forall i :: 0 <= i < |victims| ==> victims[i].obj !in used
  }

  /** The list while paging: what it looks like, in order, with everything in use on it. */
  ghost predicate Stage(lru: LRUCache, now: seq<Snapshot>, used: set<ManagedObject>, id: nat)
    reads lru, lru.ResidentObjectListHead, lru.Tracked
  {
    && lru.Valid() && Shows(now, lru.Resident) && Sorted(now)
    && used <= lru.Tracked
    && forall o <- used :: o.Status == RESIDENT && o.LastUsedFenceValue == id
  }

  lemma ChosenAreOld(r: Rule, s: seq<Snapshot>, used: set<ManagedObject>, id: nat)
    requires forall i :: 0 <= i < |s| ==> s[i].obj in used ==> s[i].fence == id
    requires r.fence < id
    ensures Idle(Chosen(r, s), r.fence) && Outside(Chosen(r, s), used)
  {
    var c := Chosen(r, s);
    forall i | 0 <= i < |c|
      ensures !c[i].pinned && c[i].fence <= r.fence && c[i].obj !in used
    {
      assert c[i] in c;
    }
  }

  lemma ScannedKeeps(r: Rule, s: seq<Snapshot>, m: nat, i: nat)
    requires m <= |s| && i < |s| && !Evictable(r, s[i])
    ensures s[i] in Scanned(r, s, m)
  {
    if i < m {
      assert s[i] in s[..m];
    } else {
      assert s[i] in s[m..];
    }
  }

  /** Trimming to a sync point below the current command list leaves alone what that uses. */
  lemma CurrentStays(r: Rule, s: seq<Snapshot>, m: nat, id: nat)
    requires m <= |s| && r.fence < id
    ensures CurrentPinned(Scanned(r, s, m), id) <==> CurrentPinned(s, id)
  {
    var now := Scanned(r, s, m);
    if CurrentPinned(s, id) {
      forall i | 0 <= i < |now| && now[i].fence >= id ensures now[i].pinned {
        ScannedWasThere(r, s, m, i);
      }
    }
    if CurrentPinned(now, id) {
      forall i | 0 <= i < |s| && s[i].fence >= id ensures s[i].pinned {
        ScannedKeeps(r, s, m, i);
      }
    }
  }

  lemma ScannedWasThere(r: Rule, s: seq<Snapshot>, m: nat, i: nat)
    requires m <= |s| && i < |Scanned(r, s, m)|
    ensures Scanned(r, s, m)[i] in s
  {
    var front := Spared(r, s[..m]);
    if i < |front| {
      assert front[i] in front;
      assert front[i] in s[..m];
    } else {
      assert Scanned(r, s, m)[i] == s[m + i - |front|];
    }
  }

  /** A victim exists whenever something unpinned is old enough and the usage is too high. */
  lemma SomethingGoes(r: Rule, s: seq<Snapshot>, h: nat, victims: seq<Snapshot>, usage: int, budget: int)
    requires h < |s| && Evictable(r, s[h]) && usage >= budget
    requires ShortestPrefix(victims, Chosen(r, s), usage, budget)
    ensures victims != []
  {
    assert s[h] in Chosen(r, s);
  }

  /** What trimming to a sync point below the current command list leaves and takes. */
  lemma TrimOutcome(r: Rule, s: seq<Snapshot>, h: nat, victims: seq<Snapshot>, m: nat,
      used: set<ManagedObject>, id: nat, usage: int, budget: int)
    requires StalestUnpinned(s, h, r.fence) && Sorted(s) && r.fence < id && r.cutoff == None
    requires forall i :: 0 <= i < |s| ==> s[i].obj in used ==> s[i].fence == id
    requires Trimmed(r, s, m, victims, usage, budget)
    ensures Sorted(Scanned(r, s, m)) && |Scanned(r, s, m)| == |s| - |victims|
    ensures usage >= budget ==> victims != []
    ensures Idle(victims, r.fence) && Outside(victims, used)
    ensures Minimal(Trim(s, Scanned(r, s, m), r.fence, victims), usage, budget, id)
  {
    ChosenOrSpared(r, s[..m]);
    ScanConserves(r, s, m);
    if victims == Chosen(r, s) {
      NothingIdleLeft(r, s, m);
    }
    ScannedIsSorted(r, s, m);
    ChosenAreOld(r, s, used, id);
    if usage >= budget {
      SomethingGoes(r, s, h, victims, usage, budget);
    }
  }

  /** Evicts, up to the budget, what was last used no later than a value that is complete. */
  method TrimIdle(lru: LRUCache, device: PagingDevice, waited: nat, usage: int, budget: int, ghost completed: nat,
      ghost now: seq<Snapshot>, ghost used: set<ManagedObject>, ghost h: nat, ghost id: nat)
    returns (ghost now': seq<Snapshot>, ghost victims: seq<Snapshot>)
    requires Stage(lru, now, used, id) && waited < id && waited <= completed
    requires StalestUnpinned(now, h, waited)
    modifies lru, lru.ResidentObjectListHead`Flink, lru.ResidentObjectListHead`Blink
    modifies lru.Tracked`Flink, lru.Tracked`Blink, lru.Tracked`Status
    modifies device`Evicted
    ensures lru.Tracked == old(lru.Tracked) && Stage(lru, now', used, id)
    ensures |now'| <= |now| && (usage >= budget ==> |now'| < |now|)
    ensures device.Evicted == old(device.Evicted) + HandlesOf(victims)
    ensures Idle(victims, completed) && Outside(victims, used)
    ensures Minimal(Trim(now, now', waited, victims), usage, budget, id)
    ensures CurrentPinned(now', id) <==> CurrentPinned(now, id)
  {
    ghost var r := Rule(waited, None);
    InUseIsRecent(lru, now, used, id);
    var list;
    ghost var m;
    list, victims, m := lru.TrimToSyncPointInclusive(usage, budget, waited, now);
    now' := Scanned(r, now, m);
    TrimOutcome(r, now, h, victims, m, used, id, usage, budget);
    CurrentStays(r, now, m, id);
    StillResident(lru, r, now, m, used, id);
    device.Evict(list, victims, completed);
  }

  /** Waits until the GPU is done with the head object and evicts what is idle by then. */
  method WaitAndTrim(lru: LRUCache, device: PagingDevice, immCtx: Timeline, waitFor: nat, usage: int, budget: int,
      ghost now: seq<Snapshot>, ghost used: set<ManagedObject>, ghost h: nat)
    returns (ghost now': seq<Snapshot>, ghost victims: seq<Snapshot>)
    requires immCtx.Valid() && Stage(lru, now, used, immCtx.CommandListID)
    requires StalestUnpinned(now, h, waitFor) && waitFor < immCtx.CommandListID
    modifies lru, lru.ResidentObjectListHead`Flink, lru.ResidentObjectListHead`Blink
    modifies lru.Tracked`Flink, lru.Tracked`Blink, lru.Tracked`Status
    modifies device`Evicted, immCtx`Completed
    ensures immCtx.Valid() && old(immCtx.Completed) <= immCtx.Completed
    ensures lru.Tracked == old(lru.Tracked) && Stage(lru, now', used, immCtx.CommandListID)
    ensures |now'| <= |now| && (usage >= budget ==> |now'| < |now|)
    ensures device.Evicted == old(device.Evicted) + HandlesOf(victims)
    ensures Idle(victims, immCtx.Completed) && Outside(victims, used)
    ensures Minimal(Trim(now, now', waitFor, victims), usage, budget, immCtx.CommandListID)
    ensures CurrentPinned(now', immCtx.CommandListID) <==> CurrentPinned(now, immCtx.CommandListID)
  {
    immCtx.WaitForSignalled(waitFor);
    now', victims := TrimIdle(lru, device, waitFor, usage, budget, immCtx.Completed, now, used, h,
                              immCtx.CommandListID);
  }

  lemma InUseIsRecent(lru: LRUCache, now: seq<Snapshot>, used: set<ManagedObject>, id: nat)
    requires Stage(lru, now, used, id)
    ensures forall i :: 0 <= i < |now| ==> now[i].obj in used ==> now[i].fence == id
    ensures forall o <- used :: Snap(o) in now
  {
    forall o <- used
      ensures Snap(o) in now
    {
      var i :| 0 <= i < |now| && lru.Resident[i] == o;
      assert now[i] == Snap(o);
    }
  }

  lemma StillResident(lru: LRUCache, r: Rule, s: seq<Snapshot>, m: nat, used: set<ManagedObject>, id: nat)
    requires lru.Valid() && m <= |s| && Shows(Scanned(r, s, m), lru.Resident)
    requires r.fence < id && used <= lru.Tracked
    requires forall o <- used :: Snap(o) in s && o.LastUsedFenceValue == id
    ensures forall o <- used :: o.Status == RESIDENT
  {
    var now := Scanned(r, s, m);
    forall o <- used
      ensures o in lru.Resident
    {
      var i :| 0 <= i < |s| && s[i] == Snap(o);
      ScannedKeeps(r, s, m, i);
      var j :| 0 <= j < |now| && now[j] == Snap(o);
      assert lru.Resident[j] == o;
    }
  }

  // ---------------------------------------------------------------------------------
  // What is evicted
  // ---------------------------------------------------------------------------------

  /** Everything on the list is still there or among the victims, and as often as before. */
  ghost predicate Conserved(before: seq<Snapshot>, after: seq<Snapshot>, victims: seq<Snapshot>) {
    multiset(before) == multiset(after) + multiset(victims)
  }

  lemma {:induction false} ChosenAndSpared(r: Rule, s: seq<Snapshot>)
    ensures Conserved(s, Spared(r, s), Chosen(r, s))
  {
    if s != [] {
      ChosenAndSpared(r, s[1..]);
      assert s == [s[0]] + s[1..];
    }
  }

  lemma ScanConserves(r: Rule, s: seq<Snapshot>, m: nat)
    requires m <= |s|
    ensures Conserved(s, Scanned(r, s, m), Chosen(r, s[..m]))
  {
    ChosenAndSpared(r, s[..m]);
    assert s == s[..m] + s[m..];
  }

  /** One trim after a wait: the list before and after it, the fence that was waited for, and
      what was evicted. */
  datatype Trim = Trim(before: seq<Snapshot>, after: seq<Snapshot>, fence: nat, victims: seq<Snapshot>)

  ghost predicate NoneIdle(s: seq<Snapshot>, fence: nat) {
    forall i :: 0 <= i < |s| ==> s[i].pinned || s[i].fence > fence
  }

  /** When a trim takes all it may, nothing idle is left. */
  lemma NothingIdleLeft(r: Rule, s: seq<Snapshot>, m: nat)
    requires m <= |s| && r.cutoff == None && Chosen(r, s[..m]) == Chosen(r, s)
    ensures NoneIdle(Scanned(r, s, m), r.fence)
  {
    assert s == s[..m] + s[m..];
    ChosenConcat(r, s[..m], s[m..]);
    assert Chosen(r, s[m..]) == [];
    var after := Scanned(r, s, m);
    forall i | 0 <= i < |after| ensures after[i].pinned || after[i].fence > r.fence {
      if i < |Spared(r, s[..m])| {
        assert after[i] in Spared(r, s[..m]);
      } else {
        assert after[i] in s[m..];
      }
    }
  }

  /** The fence is that of the stalest unpinned object, and no more is evicted than brings the
      usage under budget: the shortest prefix of what is idle, or all of it. */
  ghost predicate Minimal(t: Trim, usage: int, budget: int, id: nat) {
    && t.fence < id && (exists h :: StalestUnpinned(t.before, h, t.fence))
    && ShortestPrefix(t.victims, Chosen(Rule(t.fence, None), t.before), usage, budget)
    && Conserved(t.before, t.after, t.victims) && Idle(t.victims, t.fence)
    && (usage - SizeOfFirst(t.victims, |t.victims|) < budget || NoneIdle(t.after, t.fence))
  }

  ghost predicate StalestUnpinned(s: seq<Snapshot>, h: nat, fence: nat) {
    h < |s| && !s[h].pinned && s[h].fence == fence && forall i :: 0 <= i < h ==> s[i].pinned
  }

  /** The trim leads from one list to another and adds its victims to those so far. */
  ghost predicate Step(t: Trim, now: seq<Snapshot>, now': seq<Snapshot>, victims: seq<Snapshot>,
      victims': seq<Snapshot>, usage: int, budget: int, id: nat) {
    t.before == now && t.after == now' && victims' == victims + t.victims && Minimal(t, usage, budget, id)
  }

  /** The trims of the passes one after another, each with what was still owed then. */
  datatype Trims = NoTrim | AndThen(earlier: Trims, owed: int, last: Trim)

  ghost function VictimsOf(trims: Trims): seq<Snapshot> {
    match trims
    case NoTrim => []
    case AndThen(earlier, _, t) => VictimsOf(earlier) + t.victims
  }

  /** They lead from one list to another, and none of them evicted more than was needed for
      the objects that had not been handed over. */
  ghost predicate TrimmedBy(trims: Trims, start: seq<Snapshot>, now: seq<Snapshot>, pending: seq<ManagedObject>,
      usage: nat, budget: nat, id: nat) {
    match trims
    case NoTrim => now == start
    case AndThen(earlier, owed, t) =>
      && t.after == now && Minimal(t, usage + owed, budget, id) && (exists n :: StillOwed(owed, pending, n))
      && TrimmedBy(earlier, start, t.before, pending, usage, budget, id)
  }

  ghost predicate StillOwed(owed: int, pending: seq<ManagedObject>, n: nat) {
    n < |pending| && Owed(owed, pending, n)
  }

  /** The trims so far, behind what was evicted before them. */
  ghost predicate Trimming(trims: Trims, start: seq<Snapshot>, now: seq<Snapshot>, aged: seq<Snapshot>,
      victims: seq<Snapshot>, pending: seq<ManagedObject>, usage: nat, budget: nat, id: nat) {
    && victims == aged + VictimsOf(trims)
    && TrimmedBy(trims, start, now, pending, usage, budget, id)
    && (trims.AndThen? ==> !RestFits(pending, 0, usage, budget))
  }

  lemma OneMoreTrim(trims: Trims, t: Trim, owed: int, start: seq<Snapshot>, now: seq<Snapshot>, now': seq<Snapshot>,
      aged: seq<Snapshot>, victims: seq<Snapshot>, victims': seq<Snapshot>, pending: seq<ManagedObject>, made: nat,
      usage: nat, budget: nat, id: nat)
    requires Trimming(trims, start, now, aged, victims, pending, usage, budget, id)
    requires Step(t, now, now', victims, victims', usage + owed, budget, id)
    requires StillOwed(owed, pending, made) && !RestFits(pending, 0, usage, budget)
    ensures Trimming(AndThen(trims, owed, t), start, now', aged, victims', pending, usage, budget, id)
  {
  }

  lemma {:induction false} TrimsConserve(trims: Trims, start: seq<Snapshot>, now: seq<Snapshot>,
      pending: seq<ManagedObject>, usage: nat, budget: nat, id: nat)
    requires TrimmedBy(trims, start, now, pending, usage, budget, id)
    ensures Conserved(start, now, VictimsOf(trims))
  {
    match trims
    case NoTrim =>
    case AndThen(earlier, _, t) =>
      TrimsConserve(earlier, start, t.before, pending, usage, budget, id);
  }

  /** What a call evicts from the list it starts with. First go exactly the unpinned objects
      that the GPU is seen to be done with and that were last used before the cutoff; then what
      the trims evict, and that is nothing if all that is to be made resident fits into the
      budget. */
  ghost predicate Evictions(seen: nat, start: seq<Snapshot>, trims: Trims, victims: seq<Snapshot>,
      now: seq<Snapshot>, cutoff: int, pending: seq<ManagedObject>, usage: nat, budget: nat, id: nat) {
    Trimming(trims, FreshOf(start, seen, cutoff), now, AgedOf(start, seen, cutoff), victims, pending, usage, budget, id)
  }

  ghost predicate AgedAmong(start: seq<Snapshot>, victims: seq<Snapshot>, seen: nat, cutoff: int) {
    forall i :: 0 <= i < |start| && Aged(start[i], seen, cutoff) ==> start[i] in victims
  }

  // What eviction by age takes from a list and what it leaves. These names for the scan keep
  // its recursion out of the contracts that pass the lists on.
  ghost function AgedOf(s: seq<Snapshot>, seen: nat, cutoff: int): seq<Snapshot> {
    Chosen(Rule(seen, Some(cutoff)), s)
  }

  ghost function FreshOf(s: seq<Snapshot>, seen: nat, cutoff: int): seq<Snapshot> {
    Spared(Rule(seen, Some(cutoff)), s)
  }

  lemma ChosenAreAged(s: seq<Snapshot>, victims: seq<Snapshot>, seen: nat, cutoff: int)
    requires victims == AgedOf(s, seen, cutoff)
    ensures AgedAmong(s, victims, seen, cutoff) && AllAged(victims, seen, cutoff)
  {
    forall i | 0 <= i < |victims| ensures Aged(victims[i], seen, cutoff) {
      assert victims[i] in victims;
    }
    forall i | 0 <= i < |s| && Aged(s[i], seen, cutoff) ensures s[i] in victims {
      assert s[i] in s && Evictable(Rule(seen, Some(cutoff)), s[i]);
    }
  }

  /** What goes first and what the trims evict together leave the rest. */
  lemma JoinConserved(start: seq<Snapshot>, mid: seq<Snapshot>, now: seq<Snapshot>, aged: seq<Snapshot>,
      more: seq<Snapshot>, seen: nat, cutoff: int)
    requires Conserved(start, mid, aged) && Conserved(mid, now, more) && AgedAmong(start, aged, seen, cutoff)
    ensures Conserved(start, now, aged + more) && AgedAmong(start, aged + more, seen, cutoff)
  {
  }

  ghost function ObjectsOf(s: seq<Snapshot>): (r: seq<ManagedObject>)
    ensures |r| == |s| && forall i :: 0 <= i < |r| ==> r[i] == s[i].obj
  {
    seq(|s|, i requires 0 <= i < |s| => s[i].obj)
  }

  lemma {:induction false} OnceEach(s: seq<Snapshot>, n: nat, x: Snapshot)
    requires Distinct(ObjectsOf(s)) && n <= |s|
    ensures multiset(s[..n])[x] <= 1
  {
    if n > 0 {
      OnceEach(s, n - 1, x);
      assert s[..n] == s[..n - 1] + [s[n - 1]];
      if s[n - 1] == x && x in s[..n - 1] {
        var i :| 0 <= i < n - 1 && s[i] == x;
        DistinctAt(ObjectsOf(s), i);
      }
    }
  }

  lemma Listed(s: seq<Snapshot>, x: Snapshot) returns (k: nat)
    requires multiset(s)[x] > 0
    ensures k < |s| && s[k] == x && x.obj in ObjectsOf(s)
  {
    assert x in s;
    k :| 0 <= k < |s| && s[k] == x;
    assert ObjectsOf(s)[k] == x.obj;
  }

  /** The objects of the list at the start that have gone are exactly the victims. */
  lemma GoneIsVictim(start: seq<Snapshot>, now: seq<Snapshot>, victims: seq<Snapshot>, o: ManagedObject)
    requires Distinct(ObjectsOf(start)) && Conserved(start, now, victims)
    ensures o in ObjectsOf(start) <==> o in ObjectsOf(now) || o in ObjectsOf(victims)
    ensures !(o in ObjectsOf(now) && o in ObjectsOf(victims))
  {
    if o in ObjectsOf(start) {
      var k :| 0 <= k < |start| && ObjectsOf(start)[k] == o;
      assert start[k] in start && multiset(start)[start[k]] > 0;
      var l;
      if multiset(now)[start[k]] > 0 {
        l := Listed(now, start[k]);
      } else {
        l := Listed(victims, start[k]);
      }
    }
    if o in ObjectsOf(now) {
      var i :| 0 <= i < |now| && ObjectsOf(now)[i] == o;
      var k := Listed(start, now[i]);
      if o in ObjectsOf(victims) {
        var j :| 0 <= j < |victims| && ObjectsOf(victims)[j] == o;
        var l := Listed(start, victims[j]);
        DistinctAt(ObjectsOf(start), k);
        assert start[..|start|] == start;
        assert victims[j] == now[i] && multiset(victims)[now[i]] > 0;
        OnceEach(start, |start|, now[i]);
      }
    }
    if o in ObjectsOf(victims) {
      var j :| 0 <= j < |victims| && ObjectsOf(victims)[j] == o;
      var l := Listed(start, victims[j]);
    }
  }

  // ---------------------------------------------------------------------------------
  // The loop
  // ---------------------------------------------------------------------------------

  /** RanOver: the walk for an unpinned object ran over the end of the list. */
  datatype Outcome = AllEnqueued | RanOver

  datatype Room = RoomMade | NothingToTrim | NoUnpinnedObject

  /** The victims so far, all of them idle and none of them in use, went to the device
      after log. */
  ghost predicate Gone(device: PagingDevice, log: seq<Handle>, victims: seq<Snapshot>, completed: nat,
      used: set<ManagedObject>)
    reads device`Evicted
  {
    device.Evicted == log + HandlesOf(victims) && Idle(victims, completed) && Outside(victims, used)
  }

  lemma GoneJoin(device: PagingDevice, log: seq<Handle>, before: seq<Snapshot>, more: seq<Snapshot>,
      was: nat, completed: nat, used: set<ManagedObject>)
    requires Idle(before, was) && Outside(before, used) && was <= completed
    requires Gone(device, log + HandlesOf(before), more, completed, used)
    ensures Gone(device, log, before + more, completed, used)
  {
    assert HandlesOf(before) + HandlesOf(more) == HandlesOf(before + more);
  }

  /** Looks for the stalest object that may go, and unless it belongs to the current command
      list waits for it and trims. */
  method MakeRoom(lru: LRUCache, device: PagingDevice, immCtx: Timeline, lastSubmitted: nat, usage: int, budget: int,
      ghost now: seq<Snapshot>, ghost used: set<ManagedObject>, ghost log: seq<Handle>, ghost victims: seq<Snapshot>)
    returns (room: Room, ghost now': seq<Snapshot>, ghost victims': seq<Snapshot>, ghost trim: Trim)
    requires immCtx.Valid() && Stage(lru, now, used, immCtx.CommandListID)
    requires lastSubmitted + 1 == immCtx.CommandListID && Gone(device, log, victims, immCtx.Completed, used)
    modifies lru, lru.ResidentObjectListHead`Flink, lru.ResidentObjectListHead`Blink
    modifies lru.Tracked`Flink, lru.Tracked`Blink, lru.Tracked`Status
    modifies device`Evicted, immCtx`Completed
    ensures old(immCtx.Completed) <= immCtx.Completed
    ensures immCtx.Valid() && lru.Tracked == old(lru.Tracked) && Stage(lru, now', used, immCtx.CommandListID)
    ensures Gone(device, log, victims', immCtx.Completed, used)
    ensures room == NoUnpinnedObject <==> now != [] && AllPinned(now)
    ensures room == NothingToTrim ==> now == [] || !CurrentPinned(now, immCtx.CommandListID)
    ensures room != RoomMade ==> now' == now && victims' == victims
    ensures room == RoomMade ==> Step(trim, now, now', victims, victims', usage, budget, immCtx.CommandListID)
    ensures room == RoomMade ==> |now'| <= |now| && (usage >= budget ==> |now'| < |now|)
    ensures CurrentPinned(now', immCtx.CommandListID) <==> CurrentPinned(now, immCtx.CommandListID)
  {
    var head, ranOver;
    ghost var h;
    now', victims', trim := now, victims, Trim([], [], 0, []);
    head, ranOver, h := FirstUnpinned(lru, now);
    if ranOver {
      room := NoUnpinnedObject;
    } else if head == null || head.LastUsedFenceValue > lastSubmitted {
      room := NothingToTrim;
    } else {
      room := RoomMade;
      ghost var more, was := [], immCtx.Completed;
      now', more := WaitAndTrim(lru, device, immCtx, head.LastUsedFenceValue, usage, budget, now, used, h);
      GoneJoin(device, log, victims, more, was, immCtx.Completed, used);
      victims', trim := victims + more, Trim(now, now', head.LastUsedFenceValue, more);
    }
  }

  lemma {:induction false} SizeIsMonotone(objs: seq<ManagedObject>, m: nat, n: nat)
    requires m <= n <= |objs|
    ensures SizeUpTo(objs, m) <= SizeUpTo(objs, n)
  {
    if m < n {
      SizeIsMonotone(objs, m, n - 1);
    }
  }

  /** size is what the objects from the n-th on take up. */
  ghost predicate Owed(size: int, pending: seq<ManagedObject>, n: nat)
    requires n <= |pending|
  {
    size == TotalSize(pending) - SizeUpTo(pending, n)
  }

  /** A pass that hands nothing over has too much left to stay under budget. */
  lemma NoBatchMeansOverBudget(pending: seq<ManagedObject>, made: nat, size: int, usage: nat, budget: nat)
    requires made < |pending| && Owed(size, pending, made)
    requires budget <= usage || pending[made].Size > budget - usage
    ensures usage + size >= budget
  {
    SizeIsMonotone(pending, made + 1, |pending|);
  }

  /** All objects from the n-th on fit into the space that is available. */
  ghost predicate RestFits(pending: seq<ManagedObject>, n: nat, usage: nat, budget: nat)
    requires n <= |pending|
  {
    n == |pending| || (usage < budget && TotalSize(pending) - SizeUpTo(pending, n) <= budget - usage)
  }

  /** Some object from the n-th on can never be batched: there is no space at all, or it is
      too large for it. */
  ghost predicate NeverFits(pending: seq<ManagedObject>, n: nat, usage: nat, budget: nat)
    requires n <= |pending|
  {
    n < |pending| && (budget <= usage || exists i :: n <= i < |pending| && pending[i].Size > budget - usage)
  }

  /** What the longest batch that fits comes to. */
  lemma GreedyBatch(pending: seq<ManagedObject>, made: nat, made': nat, usage: nat, budget: nat)
    requires made <= made' <= |pending| && made < |pending| && usage < budget
    requires SizeUpTo(pending, made') - SizeUpTo(pending, made) <= budget - usage
    requires made' < |pending| ==> SizeUpTo(pending, made' + 1) - SizeUpTo(pending, made) > budget - usage
    ensures made' == |pending| <==> RestFits(pending, made, usage, budget)
    ensures NeverFits(pending, made, usage, budget) ==> NeverFits(pending, made', usage, budget)
  {
    if made' < |pending| {
      SizeIsMonotone(pending, made' + 1, |pending|);
    }
    if NeverFits(pending, made, usage, budget) {
      var i :| made <= i < |pending| && pending[i].Size > budget - usage;
      if i < made' {
        SizeIsMonotone(pending, made, i);
        SizeIsMonotone(pending, i + 1, made');
      }
    }
  }

  /** The first made pending objects, and nothing else, went to the device after log. */
  ghost predicate Sent(device: PagingDevice, log: seq<Handle>, pending: seq<ManagedObject>, made: nat)
    requires made <= |pending|
    reads device`Enqueued
  {
    device.Enqueued == log + Handles(pending)[..made]
  }

  /** One batch: as many objects as fit into the available space. */
  method SendBatch(device: PagingDevice, list: seq<ResidentScratchSpace>, index: nat, size: int, available: nat,
      ghost pending: seq<ManagedObject>, ghost log: seq<Handle>)
    returns (list': seq<ResidentScratchSpace>, index': nat, size': int, count: nat)
    requires HandedOver(list, pending, index) && Sent(device, log, pending, index) && Owed(size, pending, index)
    modifies device`Enqueued, device`FenceValue
    ensures HandedOver(list', pending, index + count) && Sent(device, log, pending, index + count)
    ensures Owed(size', pending, index + count)
    ensures index + count < |pending| ==> index' == index + count
    ensures SizeUpTo(pending, index + count) - SizeUpTo(pending, index) <= available
    ensures index + count < |pending| ==> SizeUpTo(pending, index + count + 1) - SizeUpTo(pending, index) > available
  {
    var batchSize;
    list', index', batchSize, count := GatherBatch(list, index, available, pending);
    EnqueueEntries(device, list', index, count, pending, index + count);
    JoinHandles(log, pending, index, index + count);
    size' := size - batchSize;
  }

  /** Everything that is left, whether it fits or not. */
  method SendRest(device: PagingDevice, list: seq<ResidentScratchSpace>, index: nat,
      ghost pending: seq<ManagedObject>, ghost log: seq<Handle>)
    requires HandedOver(list, pending, index) && Sent(device, log, pending, index)
    modifies device`Enqueued, device`FenceValue
    ensures Sent(device, log, pending, |pending|)
  {
    var list' := GatherRest(list, index, pending);
    EnqueueEntries(device, list', index, |list| - index, pending, |pending|);
    JoinHandles(log, pending, index, |pending|);
  }

  lemma SentAll(device: PagingDevice, log: seq<Handle>, pending: seq<ManagedObject>)
    requires Sent(device, log, pending, |pending|)
    ensures device.Enqueued == log + Handles(pending)
  {
    assert Handles(pending)[..|pending|] == Handles(pending);
  }

  lemma JoinHandles(log: seq<Handle>, pending: seq<ManagedObject>, m: nat, n: nat)
    requires m <= n <= |pending|
    ensures log + Handles(pending)[..m] + Handles(pending)[m..n] == log + Handles(pending)[..n]
  {
    assert Handles(pending)[..m] + Handles(pending)[m..n] == Handles(pending)[..n];
  }

  /** How far paging got: made objects handed over, the rest still owed. */
  ghost predicate Underway(device: PagingDevice, log: seq<Handle>, list: seq<ResidentScratchSpace>,
      pending: seq<ManagedObject>, made: nat, index: nat, size: int)
    reads device`Enqueued
  {
    && made == index < |pending|
    && HandedOver(list, pending, made) && Sent(device, log, pending, made) && Owed(size, pending, made)
  }

  /** The batch of a pass, if there is any space. */
  method BatchWhatFits(device: PagingDevice, list: seq<ResidentScratchSpace>, made: nat, index: nat, size: int,
      usage: nat, budget: nat, ghost pending: seq<ManagedObject>, ghost log: seq<Handle>)
    returns (list': seq<ResidentScratchSpace>, made': nat, index': nat, size': int)
    requires Underway(device, log, list, pending, made, index, size)
    modifies device`Enqueued, device`FenceValue
    ensures made <= made' && HandedOver(list', pending, made') && Sent(device, log, pending, made')
    ensures made' < |pending| ==> Underway(device, log, list', pending, made', index', size')
    ensures made' == made ==> usage + size' >= budget
    ensures made' == |pending| <==> RestFits(pending, made, usage, budget)
    ensures NeverFits(pending, made, usage, budget) ==> NeverFits(pending, made', usage, budget)
  {
    list', made', index', size' := list, made, index, size;
    if budget - usage > 0 {
      var count;
      list', index', size', count := SendBatch(device, list, index, size, budget - usage, pending, log);
      made' := made + count;
      GreedyBatch(pending, made, made', usage, budget);
    }
    if made' == made {
      NoBatchMeansOverBudget(pending, made', size', usage, budget);
    }
  }

  /** The rest of a pass that left something over: make room, or force the rest when there is
      nothing left to evict. */
  method RoomOrRest(lru: LRUCache, device: PagingDevice, immCtx: Timeline, lastSubmitted: nat, usage: int, budget: nat,
      list: seq<ResidentScratchSpace>, index: nat, ghost pending: seq<ManagedObject>,
      ghost now: seq<Snapshot>, ghost used: set<ManagedObject>,
      ghost log: seq<Handle>, ghost gone: seq<Handle>, ghost victims: seq<Snapshot>)
    returns (done: bool, outcome: Outcome, ghost now': seq<Snapshot>, ghost victims': seq<Snapshot>, ghost trim: Trim)
    requires immCtx.Valid() && Stage(lru, now, used, immCtx.CommandListID) && now != []
    requires lastSubmitted + 1 == immCtx.CommandListID && Gone(device, gone, victims, immCtx.Completed, used)
    requires HandedOver(list, pending, index) && Sent(device, log, pending, index)
    modifies lru, lru.ResidentObjectListHead`Flink, lru.ResidentObjectListHead`Blink
    modifies lru.Tracked`Flink, lru.Tracked`Blink, lru.Tracked`Status
    modifies device`Enqueued, device`FenceValue, device`Evicted, immCtx`Completed
    ensures old(immCtx.Completed) <= immCtx.Completed
    ensures immCtx.Valid() && lru.Tracked == old(lru.Tracked) && Stage(lru, now', used, immCtx.CommandListID)
    ensures Gone(device, gone, victims', immCtx.Completed, used)
    ensures done && outcome == RanOver <==> AllPinned(now)
    ensures done && outcome == AllEnqueued ==>
      Sent(device, log, pending, |pending|) && !CurrentPinned(now, immCtx.CommandListID)
    ensures done ==> now' == now && victims' == victims
    ensures !done ==> Step(trim, now, now', victims, victims', usage, budget, immCtx.CommandListID)
    ensures !done ==> Sent(device, log, pending, index) && |now'| <= |now| && (usage >= budget ==> |now'| < |now|)
    ensures CurrentPinned(now', immCtx.CommandListID) <==> CurrentPinned(now, immCtx.CommandListID)
  {
    var room;
    done, outcome := true, AllEnqueued;
    room, now', victims', trim :=
      MakeRoom(lru, device, immCtx, lastSubmitted, usage, budget, now, used, gone, victims);
    if room == NoUnpinnedObject {
      outcome := RanOver;
    } else if room == NothingToTrim {
      SendRest(device, list, index, pending, log);
    } else {
      done := false;
    }
  }

  /** How a pass ends, and what it keeps when it does not end the loop. */
  ghost predicate PassRule(pending: seq<ManagedObject>, made: nat, made': nat, usage: nat, budget: nat,
      now: seq<Snapshot>, now': seq<Snapshot>, id: nat, done: bool, outcome: Outcome)
    requires made <= made' <= |pending|
  {
    && (RestFits(pending, made, usage, budget) ==> done && outcome == AllEnqueued)
    && (done && outcome == RanOver <==> AllPinned(now) && !RestFits(pending, made, usage, budget))
    && (done && outcome == AllEnqueued && NeverFits(pending, made, usage, budget) ==> !CurrentPinned(now, id))
    && (NeverFits(pending, made, usage, budget) ==> NeverFits(pending, made', usage, budget))
    && (CurrentPinned(now', id) <==> CurrentPinned(now, id))
  }

  /** One pass of the loop: batch what fits; when something did not, make room, or force the
      rest when there is nothing left to evict. */
  method Pass(lru: LRUCache, device: PagingDevice, immCtx: Timeline, lastSubmitted: nat, usage: nat, budget: nat,
      list: seq<ResidentScratchSpace>, made: nat, index: nat, size: int, ghost pending: seq<ManagedObject>,
      ghost now: seq<Snapshot>, ghost used: set<ManagedObject>,
      ghost log: seq<Handle>, ghost gone: seq<Handle>, ghost victims: seq<Snapshot>)
    returns (done: bool, outcome: Outcome, list': seq<ResidentScratchSpace>, made': nat, index': nat, size': int,
      ghost now': seq<Snapshot>, ghost victims': seq<Snapshot>, ghost trim: Trim)
    requires immCtx.Valid() && Stage(lru, now, used, immCtx.CommandListID) && now != []
    requires lastSubmitted + 1 == immCtx.CommandListID && Gone(device, gone, victims, immCtx.Completed, used)
    requires Underway(device, log, list, pending, made, index, size)
    modifies lru, lru.ResidentObjectListHead`Flink, lru.ResidentObjectListHead`Blink
    modifies lru.Tracked`Flink, lru.Tracked`Blink, lru.Tracked`Status
    modifies device`Enqueued, device`FenceValue, device`Evicted, immCtx`Completed
    ensures old(immCtx.Completed) <= immCtx.Completed
    ensures immCtx.Valid() && lru.Tracked == old(lru.Tracked) && Stage(lru, now', used, immCtx.CommandListID)
    ensures Gone(device, gone, victims', immCtx.Completed, used)
    ensures made <= made' <= |pending|
    ensures PassRule(pending, made, made', usage, budget, now, now', immCtx.CommandListID, done, outcome)
    ensures !done ==> Underway(device, log, list', pending, made', index', size')
    ensures !done ==> |pending| - made' + |now'| < |pending| - made + |now|
    ensures done && outcome == AllEnqueued ==> Sent(device, log, pending, |pending|)
    ensures done ==> now' == now && victims' == victims
    ensures !done ==> Step(trim, now, now', victims, victims', usage + size', budget, immCtx.CommandListID)
  {
    done, outcome, now', victims', trim := true, AllEnqueued, now, victims, Trim([], [], 0, []);
    list', made', index', size' := BatchWhatFits(device, list, made, index, size, usage, budget, pending, log);
    if made' < |list| {
      done, outcome, now', victims', trim :=
        RoomOrRest(lru, device, immCtx, lastSubmitted, usage + size', budget, list', index', pending, now, used, log,
                   gone, victims);
    }
  }

  /** How paging ends. It runs over the end of the list only if not everything fits and all
      that the current command list uses is pinned. That is enough if something never fits,
      and so it is if not everything fits and everything resident is pinned. */
  ghost predicate EndsAsItMust(outcome: Outcome, pending: seq<ManagedObject>, usage: nat, budget: nat,
      currentPinned: bool, allPinned: bool)
  {
    && (outcome == RanOver ==> !RestFits(pending, 0, usage, budget) && currentPinned)
    && (NeverFits(pending, 0, usage, budget) ==> (outcome == RanOver <==> currentPinned))
    && (allPinned ==> (outcome == RanOver <==> !RestFits(pending, 0, usage, budget)))
  }

  /** The loop goes from its start to the state before a pass. */
  ghost predicate CameFrom(pending: seq<ManagedObject>, made: nat, usage: nat, budget: nat, start: seq<Snapshot>,
      now: seq<Snapshot>, id: nat)
    requires made <= |pending|
  {
    && ((made == 0 && now == start) || (!RestFits(pending, 0, usage, budget) && !AllPinned(start)))
    && (NeverFits(pending, 0, usage, budget) ==> NeverFits(pending, made, usage, budget))
    && (CurrentPinned(now, id) <==> CurrentPinned(start, id))
  }

  lemma LastPass(pending: seq<ManagedObject>, made: nat, made': nat, usage: nat, budget: nat, start: seq<Snapshot>,
      now: seq<Snapshot>, now': seq<Snapshot>, id: nat, done: bool, outcome: Outcome)
    requires made <= made' <= |pending| && CameFrom(pending, made, usage, budget, start, now, id)
    requires PassRule(pending, made, made', usage, budget, now, now', id, done, outcome)
    ensures !done ==> CameFrom(pending, made', usage, budget, start, now', id)
    ensures done ==>
      EndsAsItMust(outcome, pending, usage, budget, CurrentPinned(start, id), AllPinned(start))
  {
  }

  /** The set in use is on the list. */
  lemma SomethingIsResident(lru: LRUCache, now: seq<Snapshot>, used: set<ManagedObject>, id: nat)
    requires Stage(lru, now, used, id) && used != {}
    ensures now != []
  {
    var o :| o in used;
    InUseIsRecent(lru, now, used, id);
    assert Snap(o) in now;
  }

  /** The loop over the passes. Every pass but the last hands an object over or evicts one,
      although usage and budget are never read again. */
  method EnqueuePending(lru: LRUCache, device: PagingDevice, immCtx: Timeline, usage: nat, budget: nat,
      scratch: seq<ResidentScratchSpace>, sizeToMakeResident: nat,
      ghost pending: seq<ManagedObject>, ghost start: seq<Snapshot>, ghost used: set<ManagedObject>,
      ghost gone: seq<Handle>, ghost aged: seq<Snapshot>)
    returns (outcome: Outcome, ghost now: seq<Snapshot>, ghost victims: seq<Snapshot>, ghost trims: Trims)
    requires immCtx.Valid() && Stage(lru, start, used, immCtx.CommandListID) && used != {}
    requires Gone(device, gone, aged, immCtx.Completed, used)
    requires pending != [] && HandedOver(scratch, pending, 0) && sizeToMakeResident == TotalSize(pending)
    modifies lru, lru.ResidentObjectListHead`Flink, lru.ResidentObjectListHead`Blink
    modifies lru.Tracked`Flink, lru.Tracked`Blink, lru.Tracked`Status
    modifies device`Enqueued, device`FenceValue, device`Evicted, immCtx`Completed
    ensures old(immCtx.Completed) <= immCtx.Completed
    ensures immCtx.Valid() && lru.Tracked == old(lru.Tracked) && Stage(lru, now, used, immCtx.CommandListID)
    ensures outcome == AllEnqueued ==> Sent(device, old(device.Enqueued), pending, |pending|)
    ensures outcome == RanOver ==> AllPinned(now)
    ensures EndsAsItMust(outcome, pending, usage, budget, CurrentPinned(start, immCtx.CommandListID), AllPinned(start))
    ensures Gone(device, gone, victims, immCtx.Completed, used)
    ensures Trimming(trims, start, now, aged, victims, pending, usage, budget, immCtx.CommandListID)
  {
    var list, made: nat, index: nat, size: int := scratch, 0, 0, sizeToMakeResident;
    ghost var id, log := immCtx.CommandListID, device.Enqueued;
    now, victims, trims := start, aged, NoTrim;
    var done;
    while true
      invariant old(immCtx.Completed) <= immCtx.Completed
      invariant immCtx.Valid() && lru.Tracked == old(lru.Tracked)
      invariant Stage(lru, now, used, id)
      invariant Underway(device, log, list, pending, made, index, size)
      invariant Gone(device, gone, victims, immCtx.Completed, used)
      invariant CameFrom(pending, made, usage, budget, start, now, id)
      invariant Trimming(trims, start, now, aged, victims, pending, usage, budget, id)
      decreases |pending| - made + |now|
    {
      SomethingIsResident(lru, now, used, id);
      ghost var made0, now0, victims0, trim := made, now, victims, Trim([], [], 0, []);
      done, outcome, list, made, index, size, now, victims, trim :=
        Pass(lru, device, immCtx, immCtx.CommandListID - 1, usage, budget, list, made, index, size,
             pending, now, used, log, gone, victims);
      LastPass(pending, made0, made, usage, budget, start, now0, now, id, done, outcome);
      if done {
        break;
      }
      OneMoreTrim(trims, trim, size, start, now0, now, aged, victims0, victims, pending, made, usage, budget, id);
      trims := AndThen(trims, size, trim);
    }
  }

  lemma PinnedStay(r: Rule, s: seq<Snapshot>)
    ensures AllPinned(s) ==> Spared(r, s) == s
  {
    if AllPinned(s) {
      NothingChosen(r, s);
    }
  }

  /** What evicting everything old enough leaves and takes. */
  lemma AgedOutcome(r: Rule, s: seq<Snapshot>, used: set<ManagedObject>, id: nat)
    requires Sorted(s) && r.fence < id
    requires forall i :: 0 <= i < |s| ==> s[i].obj in used ==> s[i].fence == id
    ensures Sorted(Spared(r, s)) && Scanned(r, s, |s|) == Spared(r, s)
    ensures Idle(Chosen(r, s), r.fence) && Outside(Chosen(r, s), used)
    ensures CurrentPinned(Spared(r, s), id) <==> CurrentPinned(s, id)
    ensures AllPinned(s) ==> AllPinned(Spared(r, s))
  {
    assert s[..|s|] == s && Scanned(r, s, |s|) == Spared(r, s);
    SparedIsSorted(r, s, |s|);
    ChosenAreOld(r, s, used, id);
    CurrentStays(r, s, |s|, id);
    PinnedStay(r, s);
  }

  method TrimAged(lru: LRUCache, device: PagingDevice, waited: nat, time: nat, gracePeriod: nat,
      ghost used: set<ManagedObject>, ghost s: seq<Snapshot>, ghost id: nat)
    returns (ghost now: seq<Snapshot>, ghost victims: seq<Snapshot>)
    requires Stage(lru, s, used, id) && waited < id
    modifies lru, lru.ResidentObjectListHead`Flink, lru.ResidentObjectListHead`Blink
    modifies lru.Tracked`Flink, lru.Tracked`Blink, lru.Tracked`Status
    modifies device`Evicted
    ensures lru.Tracked == old(lru.Tracked) && Stage(lru, now, used, id)
    ensures Gone(device, old(device.Evicted), victims, waited, used)
    ensures victims == AgedOf(s, waited, time - gracePeriod)
    ensures now == FreshOf(s, waited, time - gracePeriod)
  {
    ghost var r := Rule(waited, Some(time - gracePeriod));
    InUseIsRecent(lru, s, used, id);
    AgedOutcome(r, s, used, id);
    var list;
    list, victims := lru.TrimAgedAllocations(waited, [], time, gracePeriod, s);
    now := Spared(r, s);
    StillResident(lru, r, s, |s|, used, id);
    assert list == HandlesOf(victims);
    if list != [] {
      device.Evict(list, victims, waited);
    }
  }

  method EvictComplete(lru: LRUCache, device: PagingDevice, immCtx: Timeline, time: nat, gracePeriod: nat,
      ghost used: set<ManagedObject>, ghost s: seq<Snapshot>)
    returns (ghost now: seq<Snapshot>, ghost victims: seq<Snapshot>)
    requires immCtx.Valid() && Stage(lru, s, used, immCtx.CommandListID)
    modifies lru, lru.ResidentObjectListHead`Flink, lru.ResidentObjectListHead`Blink
    modifies lru.Tracked`Flink, lru.Tracked`Blink, lru.Tracked`Status
    modifies device`Evicted, immCtx`Completed
    ensures immCtx.Valid() && lru.Tracked == old(lru.Tracked) && Stage(lru, now, used, immCtx.CommandListID)
    ensures forall o <- lru.Tracked ::
      o.LastUsedFenceValue == old(o.LastUsedFenceValue) && o.LastUsedTimestamp == old(o.LastUsedTimestamp)
    ensures Gone(device, old(device.Evicted), victims, immCtx.Completed, used)
    ensures old(immCtx.Completed) <= immCtx.Completed
    ensures victims == AgedOf(s, immCtx.Completed, time - gracePeriod)
    ensures now == FreshOf(s, immCtx.Completed, time - gracePeriod)
    ensures Conserved(s, now, victims)
    ensures CurrentPinned(now, immCtx.CommandListID) <==> CurrentPinned(s, immCtx.CommandListID)
    ensures AllPinned(s) ==> AllPinned(now)
  {
    InUseIsRecent(lru, s, used, immCtx.CommandListID);
    var waited := immCtx.GetCompletedValue();
    ChosenAndSpared(Rule(waited, Some(time - gracePeriod)), s);
    AgedOutcome(Rule(waited, Some(time - gracePeriod)), s, used, immCtx.CommandListID);
    now, victims := TrimAged(lru, device, waited, time, gracePeriod, used, s, immCtx.CommandListID);
  }

  /** Evicts what has not been used for a while and is complete on the GPU. */
  method EvictAged(lru: LRUCache, device: PagingDevice, immCtx: Timeline, time: nat, gracePeriod: nat,
      ghost used: set<ManagedObject>, ghost s: seq<Snapshot>)
    returns (ghost now: seq<Snapshot>, ghost victims: seq<Snapshot>)
    requires immCtx.Valid() && Stage(lru, s, used, immCtx.CommandListID)
    modifies lru, lru.ResidentObjectListHead`Flink, lru.ResidentObjectListHead`Blink
    modifies lru.Tracked`Flink, lru.Tracked`Blink, lru.Tracked`Status
    modifies device`Evicted, immCtx`Completed
    ensures immCtx.Valid() && lru.Tracked == old(lru.Tracked) && Stage(lru, now, used, immCtx.CommandListID)
    ensures forall o <- lru.Tracked ::
      o.LastUsedFenceValue == old(o.LastUsedFenceValue) && o.LastUsedTimestamp == old(o.LastUsedTimestamp)
    ensures Gone(device, old(device.Evicted), victims, immCtx.Completed, used)
    ensures old(immCtx.Completed) <= immCtx.Completed
    ensures victims == AgedOf(s, immCtx.Completed, time - gracePeriod)
    ensures now == FreshOf(s, immCtx.Completed, time - gracePeriod)
    ensures Conserved(s, now, victims) && AgedAmong(s, victims, immCtx.Completed, time - gracePeriod)
    ensures AllAged(victims, immCtx.Completed, time - gracePeriod)
    ensures CurrentPinned(now, immCtx.CommandListID) <==> CurrentPinned(s, immCtx.CommandListID)
    ensures AllPinned(s) ==> AllPinned(now)
  {
    now, victims := EvictComplete(lru, device, immCtx, time, gracePeriod, used, s);
    ChosenAreAged(s, victims, immCtx.Completed, time - gracePeriod);
  }

  /** What evicting leaves alone: when the objects were last used. */
  ghost predicate Settled(tracked: set<ManagedObject>, used: set<ManagedObject>, id: nat, time: nat)
    reads tracked`LastUsedFenceValue, tracked`LastUsedTimestamp, used`LastUsedTimestamp
  {
    Bounded(tracked, id, time) && StampedNow(used, time)
  }

  /** The two kinds of eviction, and the loop when something has to be made resident. */
  method EvictAndEnqueue(lru: LRUCache, device: PagingDevice, immCtx: Timeline, currentTime: nat, usage: nat,
      budget: nat, gracePeriod: nat, list: seq<ResidentScratchSpace>, size: nat,
      ghost pending: seq<ManagedObject>, ghost start: seq<Snapshot>, ghost used: set<ManagedObject>,
      ghost inUse: bool, ghost all: bool)
    returns (outcome: Outcome, ghost now: seq<Snapshot>, ghost victims: seq<Snapshot>, ghost seen: nat,
      ghost trims: Trims)
    requires immCtx.Valid() && Stage(lru, start, used, immCtx.CommandListID) && Gathered(list, size, pending)
    requires (inUse <==> CurrentPinned(start, immCtx.CommandListID)) && (all <==> AllPinned(start))
    requires used == {} ==> pending == []
    modifies lru, lru.ResidentObjectListHead`Flink, lru.ResidentObjectListHead`Blink
    modifies lru.Tracked`Flink, lru.Tracked`Blink, lru.Tracked`Status
    modifies device`Enqueued, device`FenceValue, device`Evicted, immCtx`Completed
    ensures immCtx.Valid() && lru.Tracked == old(lru.Tracked) && Stage(lru, now, used, immCtx.CommandListID)
    ensures forall o <- lru.Tracked ::
      o.LastUsedFenceValue == old(o.LastUsedFenceValue) && o.LastUsedTimestamp == old(o.LastUsedTimestamp)
    ensures Gone(device, old(device.Evicted), victims, immCtx.Completed, used)
    ensures outcome == AllEnqueued ==> Sent(device, old(device.Enqueued), pending, |pending|)
    ensures outcome == RanOver ==> AllPinned(now)
    ensures EndsAsItMust(outcome, pending, usage, budget, inUse, all)
    ensures old(immCtx.Completed) <= seen <= immCtx.Completed
    ensures Conserved(start, now, victims)
    ensures AgedAmong(start, victims, seen, currentTime - gracePeriod)
    ensures trims.NoTrim? ==> AllAged(victims, seen, currentTime - gracePeriod)
    ensures Evictions(seen, start, trims, victims, now, currentTime - gracePeriod, pending, usage, budget,
                      immCtx.CommandListID)
  {
    ghost var mid, aged;
    mid, aged := EvictAged(lru, device, immCtx, currentTime, gracePeriod, used, start);
    seen := immCtx.Completed;
    outcome, now, victims, trims := EnqueueIfAny(lru, device, immCtx, usage, budget, list, size, pending, mid, used,
                                                 old(device.Evicted), aged);
    JoinConserved(start, mid, now, aged, VictimsOf(trims), seen, currentTime - gracePeriod);
  }

  /** The loop, when something has to be made resident. */
  method EnqueueIfAny(lru: LRUCache, device: PagingDevice, immCtx: Timeline, usage: nat, budget: nat,
      list: seq<ResidentScratchSpace>, size: nat, ghost pending: seq<ManagedObject>, ghost start: seq<Snapshot>,
      ghost used: set<ManagedObject>, ghost gone: seq<Handle>, ghost aged: seq<Snapshot>)
    returns (outcome: Outcome, ghost now: seq<Snapshot>, ghost victims: seq<Snapshot>, ghost trims: Trims)
    requires immCtx.Valid() && Stage(lru, start, used, immCtx.CommandListID) && Gathered(list, size, pending)
    requires Gone(device, gone, aged, immCtx.Completed, used) && (used == {} ==> pending == [])
    modifies lru, lru.ResidentObjectListHead`Flink, lru.ResidentObjectListHead`Blink
    modifies lru.Tracked`Flink, lru.Tracked`Blink, lru.Tracked`Status
    modifies device`Enqueued, device`FenceValue, device`Evicted, immCtx`Completed
    ensures old(immCtx.Completed) <= immCtx.Completed
    ensures immCtx.Valid() && lru.Tracked == old(lru.Tracked) && Stage(lru, now, used, immCtx.CommandListID)
    ensures outcome == AllEnqueued ==> Sent(device, old(device.Enqueued), pending, |pending|)
    ensures outcome == RanOver ==> AllPinned(now)
    ensures EndsAsItMust(outcome, pending, usage, budget, CurrentPinned(start, immCtx.CommandListID), AllPinned(start))
    ensures forall o <- lru.Tracked ::
      o.LastUsedFenceValue == old(o.LastUsedFenceValue) && o.LastUsedTimestamp == old(o.LastUsedTimestamp)
    ensures Gone(device, gone, victims, immCtx.Completed, used)
    ensures Conserved(start, now, VictimsOf(trims)) && victims == aged + VictimsOf(trims)
    ensures Trimming(trims, start, now, aged, victims, pending, usage, budget, immCtx.CommandListID)
  {
    outcome, now, victims, trims := AllEnqueued, start, aged, NoTrim;
    if list != [] {
      outcome, now, victims, trims := EnqueuePending(lru, device, immCtx, usage, budget, list, size,
                                                     pending, start, used, gone, aged);
    }
    TrimsConserve(trims, start, now, pending, usage, budget, immCtx.CommandListID);
  }

  /** Everything that the current command list has used so far is pinned, and so is the set. */
  ghost predicate InUseIsPinned(lru: LRUCache, masterSet: seq<ManagedObject>, id: nat)
    reads lru`Resident, lru.Resident, masterSet
  {
    RecentArePinned(lru.Resident, id) && ArePinned(masterSet)
  }

  ghost predicate RecentArePinned(objs: seq<ManagedObject>, id: nat)
    reads objs`LastUsedFenceValue, objs`PinCount, objs`PinWaitsPending
  {
    forall o <- objs :: o.LastUsedFenceValue >= id ==> o.IsPinned()
  }

  ghost predicate ArePinned(objs: seq<ManagedObject>)
    reads objs`PinCount, objs`PinWaitsPending
  {
    forall o <- objs :: o.IsPinned()
  }

  /** Everything that is resident is pinned, and so is the set. */
  ghost predicate EverythingIsPinned(lru: LRUCache, masterSet: seq<ManagedObject>)
    reads lru`Resident, lru.Resident, masterSet
  {
    ArePinned(lru.Resident) && ArePinned(masterSet)
  }

  lemma {:induction false} FirstOfIsSet(objs: seq<ManagedObject>, n: nat)
    requires n <= |objs|
    ensures forall o :: o in FirstOf(objs, n) <==> o in objs[..n]
  {
    if n > 0 {
      FirstOfIsSet(objs, n - 1);
      assert objs[..n] == objs[..n - 1] + [objs[n - 1]];
    }
  }

  /** Who is on the list once the set has been marked. */
  lemma MarkedMembers(was: seq<ManagedObject>, objs: seq<ManagedObject>)
    ensures forall o :: o in Minus(was, FirstOf(objs, |objs|)) + objs <==> o in was || o in objs
  {
    FirstOfIsSet(objs, |objs|);
    assert objs[..|objs|] == objs;
    MinusHas(was, FirstOf(objs, |objs|));
  }

  lemma ViewOfPins(objs: seq<ManagedObject>, now: seq<Snapshot>, id: nat)
    requires Shows(now, objs)
    ensures CurrentPinned(now, id) <==> RecentArePinned(objs, id)
    ensures AllPinned(now) <==> ArePinned(objs)
  {
    forall o <- objs ensures Snap(o) in now {
      var i :| 0 <= i < |objs| && objs[i] == o;
      assert now[i] == Snap(o);
    }
  }

  /** Marks the set; marking changes no pins. */
  method MarkPinned(lru: LRUCache, masterSet: seq<ManagedObject>, id: nat, time: nat)
    returns (list: seq<ResidentScratchSpace>, size: nat, ghost pending: seq<ManagedObject>)
    requires InOrder(lru, id, time) && Within(masterSet, lru.Tracked) && NoRepeatUpTo(masterSet, |masterSet|)
    modifies lru, lru.ResidentObjectListHead`Flink, lru.ResidentObjectListHead`Blink
    modifies lru.Tracked`Flink, lru.Tracked`Blink
    modifies lru.Tracked`Status, lru.Tracked`LastUsedFenceValue, lru.Tracked`LastUsedTimestamp
    ensures InOrder(lru, id, time) && lru.Tracked == old(lru.Tracked)
    ensures UsedNow(FirstOf(masterSet, |masterSet|), id, time)
    ensures forall o :: o in lru.Resident <==> o in old(lru.Resident) || o in masterSet
    ensures forall o <- lru.Tracked :: o !in masterSet ==>
      o.LastUsedFenceValue == old(o.LastUsedFenceValue) && o.LastUsedTimestamp == old(o.LastUsedTimestamp)
    ensures pending == old(EvictedUpTo(masterSet, |masterSet|)) && Gathered(list, size, pending)
    ensures RecentArePinned(lru.Resident, id) <==> old(InUseIsPinned(lru, masterSet, id))
    ensures ArePinned(lru.Resident) <==> old(EverythingIsPinned(lru, masterSet))
  {
    ghost var was := lru.Resident;
    FirstOfIsSet(masterSet, |masterSet|);
    assert masterSet[..|masterSet|] == masterSet;
    MarkedMembers(was, masterSet);
    list, size, pending := MarkUsed(lru, masterSet, id, time);
    if RecentArePinned(lru.Resident, id) {
      forall o <- was | old(o.LastUsedFenceValue) >= id ensures o.IsPinned() {
        assert o in lru.Resident;
      }
      forall o <- masterSet ensures o.IsPinned() {
        assert o in lru.Resident;
      }
    }
    assert RecentArePinned(lru.Resident, id) ==> old(InUseIsPinned(lru, masterSet, id));
  }

  /** Marking changes nothing of the objects outside the set, and puts no others on the list. */
  ghost predicate Marking(was: seq<Snapshot>, now: seq<Snapshot>, masterSet: seq<ManagedObject>) {
    && (forall i :: 0 <= i < |was| && was[i].obj !in masterSet ==> was[i] in now)
    && forall i :: 0 <= i < |now| && now[i].obj !in masterSet ==> now[i] in was
  }

  lemma OthersAsBefore(was: seq<Snapshot>, before: seq<ManagedObject>, masterSet: seq<ManagedObject>,
      now: seq<Snapshot>, after: seq<ManagedObject>)
    requires |was| == |before| && Shows(now, after)
    requires forall i :: 0 <= i < |before| ==>
      was[i].obj == before[i] && (before[i] !in masterSet ==> was[i] == Snap(before[i]))
    requires forall o :: o in after <==> o in before || o in masterSet
    ensures Marking(was, now, masterSet)
  {
    forall i | 0 <= i < |was| && was[i].obj !in masterSet ensures was[i] in now {
      assert before[i] in after;
      var j :| 0 <= j < |after| && after[j] == before[i];
      assert now[j] == was[i];
    }
    forall i | 0 <= i < |now| && now[i].obj !in masterSet ensures now[i] in was {
      assert after[i] in before;
      var j :| 0 <= j < |before| && before[j] == after[i];
      assert was[j] == now[i];
    }
  }

  lemma ViewOfMarked(lru: LRUCache, was: seq<Snapshot>, before: seq<ManagedObject>, masterSet: seq<ManagedObject>,
      id: nat, time: nat)
    returns (now: seq<Snapshot>)
    requires InOrder(lru, id, time) && |was| == |before|
    requires forall i :: 0 <= i < |before| ==>
      was[i].obj == before[i] && (before[i] !in masterSet ==> was[i] == Snap(before[i]))
    requires forall o :: o in lru.Resident <==> o in before || o in masterSet
    ensures Shows(now, lru.Resident) && Sorted(now) && Distinct(ObjectsOf(now)) && Marking(was, now, masterSet)
    ensures CurrentPinned(now, id) <==> RecentArePinned(lru.Resident, id)
    ensures AllPinned(now) <==> ArePinned(lru.Resident)
  {
    now := OrderedView(lru.Resident);
    ViewOfPins(lru.Resident, now, id);
    lru.ResidentIsDistinct();
    assert ObjectsOf(now) == lru.Resident;
    OthersAsBefore(was, before, masterSet, now, lru.Resident);
  }

  /** Marks the set, and looks at the list. */
  method MarkAndView(lru: LRUCache, masterSet: seq<ManagedObject>, id: nat, time: nat, ghost was: seq<Snapshot>)
    returns (list: seq<ResidentScratchSpace>, size: nat, ghost pending: seq<ManagedObject>, ghost now: seq<Snapshot>)
    requires Shows(was, lru.Resident)
    requires InOrder(lru, id, time) && Within(masterSet, lru.Tracked) && NoRepeatUpTo(masterSet, |masterSet|)
    modifies lru, lru.ResidentObjectListHead`Flink, lru.ResidentObjectListHead`Blink
    modifies lru.Tracked`Flink, lru.Tracked`Blink
    modifies lru.Tracked`Status, lru.Tracked`LastUsedFenceValue, lru.Tracked`LastUsedTimestamp
    ensures lru.Tracked == old(lru.Tracked)
    ensures Settled(lru.Tracked, FirstOf(masterSet, |masterSet|), id, time)
    ensures Stage(lru, now, FirstOf(masterSet, |masterSet|), id)
    ensures Distinct(ObjectsOf(now)) && Marking(was, now, masterSet)
    ensures pending == old(EvictedUpTo(masterSet, |masterSet|)) && Gathered(list, size, pending)
    ensures FirstOf(masterSet, |masterSet|) == {} ==> pending == []
    ensures CurrentPinned(now, id) <==> old(InUseIsPinned(lru, masterSet, id))
    ensures AllPinned(now) <==> old(EverythingIsPinned(lru, masterSet))
  {
    FirstOfIsWithin(masterSet, lru.Tracked, |masterSet|);
    ghost var before := lru.Resident;
    list, size, pending := MarkPinned(lru, masterSet, id, time);
    now := ViewOfMarked(lru, was, before, masterSet, id, time);
  }

  /** What a call met with: what the list looked like before, the objects that had to be made
      resident, whether what was in use, or everything, was pinned, what the list looked like
      once the set was marked, the value the GPU was first seen to have reached, the trims, and
      what the list looks like at the end. */
  datatype History = History(was: seq<Snapshot>, pending: seq<ManagedObject>, inUsePinned: bool, allPinned: bool,
                             start: seq<Snapshot>, seen: nat, trims: Trims, end: seq<Snapshot>)

  /** Outside the set, the objects that are resident at the end are those that were resident
      before and are not among the victims. */
  lemma ResidentAtTheEnd(was: seq<Snapshot>, masterSet: seq<ManagedObject>, start: seq<Snapshot>, end: seq<Snapshot>,
      victims: seq<Snapshot>, o: ManagedObject)
    requires Marking(was, start, masterSet) && Distinct(ObjectsOf(start)) && Conserved(start, end, victims)
    requires o !in masterSet
    ensures o in ObjectsOf(end) <==> o in ObjectsOf(was) && o !in ObjectsOf(victims)
  {
    GoneIsVictim(start, end, victims, o);
    if o in ObjectsOf(was) {
      var i :| 0 <= i < |was| && ObjectsOf(was)[i] == o;
      var k := Listed(start, was[i]);
    }
    if o in ObjectsOf(start) {
      var i :| 0 <= i < |start| && ObjectsOf(start)[i] == o;
      var k := Listed(was, start[i]);
    }
  }

  /** What was unpinned, complete and old enough on the list before is among the victims. */
  lemma AgedIsVictim(was: seq<Snapshot>, masterSet: seq<ManagedObject>, start: seq<Snapshot>, victims: seq<Snapshot>,
      seen: nat, cutoff: int, i: nat)
    requires Marking(was, start, masterSet) && AgedAmong(start, victims, seen, cutoff)
    requires i < |was| && was[i].obj !in masterSet && Aged(was[i], seen, cutoff)
    ensures was[i].obj in ObjectsOf(victims)
  {
    var j := Listed(start, was[i]);
    var k := Listed(victims, was[i]);
  }

  /** All of it on one list: mark the set, evict, enqueue. */
  method PageIn(lru: LRUCache, device: PagingDevice, immCtx: Timeline, masterSet: seq<ManagedObject>,
      currentTime: nat, usage: nat, budget: nat, gracePeriod: nat, ghost was: seq<Snapshot>)
    returns (outcome: Outcome, ghost victims: seq<Snapshot>, ghost h: History)
    requires immCtx.Valid() && InOrder(lru, immCtx.CommandListID, currentTime)
    requires Shows(was, lru.Resident)
    requires Within(masterSet, lru.Tracked) && NoRepeatUpTo(masterSet, |masterSet|)
    modifies lru, lru.ResidentObjectListHead`Flink, lru.ResidentObjectListHead`Blink
    modifies lru.Tracked`Flink, lru.Tracked`Blink, lru.Tracked`Status
    modifies lru.Tracked`LastUsedFenceValue, lru.Tracked`LastUsedTimestamp
    modifies device`Enqueued, device`FenceValue, device`Evicted, immCtx`Completed
    ensures immCtx.Valid() && lru.Tracked == old(lru.Tracked)
    ensures Stage(lru, h.end, FirstOf(masterSet, |masterSet|), immCtx.CommandListID)
    ensures Settled(lru.Tracked, FirstOf(masterSet, |masterSet|), immCtx.CommandListID, currentTime)
    ensures Gone(device, old(device.Evicted), victims, immCtx.Completed, FirstOf(masterSet, |masterSet|))
    ensures h.was == was && h.pending == old(EvictedUpTo(masterSet, |masterSet|))
    ensures h.inUsePinned == old(InUseIsPinned(lru, masterSet, immCtx.CommandListID))
    ensures h.allPinned == old(EverythingIsPinned(lru, masterSet))
    ensures outcome == AllEnqueued ==> Sent(device, old(device.Enqueued), h.pending, |h.pending|)
    ensures old(immCtx.Completed) <= h.seen <= immCtx.Completed
    ensures Paged(h, outcome, victims, masterSet, usage, budget, currentTime - gracePeriod, immCtx.CommandListID)
  {
    var list, size;
    ghost var pending, now;
    ghost var tracked, used := lru.Tracked, FirstOf(masterSet, |masterSet|);
    ghost var inUse := InUseIsPinned(lru, masterSet, immCtx.CommandListID);
    ghost var all := EverythingIsPinned(lru, masterSet);
    list, size, pending, now := MarkAndView(lru, masterSet, immCtx.CommandListID, currentTime, was);
    ghost var start, seen, trims := now, 0, NoTrim;
    outcome, now, victims, seen, trims := EvictAndEnqueue(lru, device, immCtx, currentTime, usage, budget, gracePeriod,
                                             list, size, pending, now, used, inUse, all);
    h := History(was, pending, inUse, all, start, seen, trims, now);
    EvictionsAre(was, masterSet, start, now, victims, seen, currentTime - gracePeriod);
    assert Settled(tracked, used, immCtx.CommandListID, currentTime);
  }

  /** How a call ends and what it evicts: everything outside the set that the GPU was seen to be
      done with, that was last used before the cutoff and is unpinned; beyond that, trim by
      trim, no more than was needed; and nothing else. */
  ghost predicate Paged(h: History, outcome: Outcome, victims: seq<Snapshot>, masterSet: seq<ManagedObject>,
      usage: nat, budget: nat, cutoff: int, id: nat) {
    && EndsAsItMust(outcome, h.pending, usage, budget, h.inUsePinned, h.allPinned)
    && (outcome == RanOver ==> AllPinned(h.end))
    && AllAgedGone(h.was, masterSet, victims, h.seen, cutoff)
    && (h.trims.NoTrim? ==> AllAged(victims, h.seen, cutoff))
    && OthersStay(h.was, masterSet, h.end, victims)
    && Evictions(h.seen, h.start, h.trims, victims, h.end, cutoff, h.pending, usage, budget, id)
  }

  /** Unpinned, complete on the GPU and last used before the cutoff. */
  predicate Aged(x: Snapshot, seen: nat, cutoff: int) {
    !x.pinned && x.fence <= seen && x.stamp < cutoff
  }

  ghost predicate AllAgedGone(was: seq<Snapshot>, masterSet: seq<ManagedObject>, victims: seq<Snapshot>, seen: nat,
      cutoff: int) {
    forall i :: 0 <= i < |was| && was[i].obj !in masterSet && Aged(was[i], seen, cutoff) ==>
      was[i].obj in ObjectsOf(victims)
  }

  ghost predicate AllAged(victims: seq<Snapshot>, seen: nat, cutoff: int) {
    forall i :: 0 <= i < |victims| ==> Aged(victims[i], seen, cutoff)
  }

  ghost predicate OthersStay(was: seq<Snapshot>, masterSet: seq<ManagedObject>, end: seq<Snapshot>,
      victims: seq<Snapshot>) {
    && (forall i :: 0 <= i < |end| && end[i].obj !in masterSet ==>
          end[i].obj in ObjectsOf(was) && end[i].obj !in ObjectsOf(victims))
    && forall i :: 0 <= i < |was| && was[i].obj !in masterSet ==>
         (was[i].obj in ObjectsOf(end) <==> was[i].obj !in ObjectsOf(victims))
  }

  lemma EvictionsAre(was: seq<Snapshot>, masterSet: seq<ManagedObject>, start: seq<Snapshot>, end: seq<Snapshot>,
      victims: seq<Snapshot>, seen: nat, cutoff: int)
    requires Conserved(start, end, victims) && AgedAmong(start, victims, seen, cutoff)
    requires Marking(was, start, masterSet) && Distinct(ObjectsOf(start))
    ensures AllAgedGone(was, masterSet, victims, seen, cutoff) && OthersStay(was, masterSet, end, victims)
  {
    forall i | 0 <= i < |was| && was[i].obj !in masterSet && Aged(was[i], seen, cutoff)
      ensures was[i].obj in ObjectsOf(victims)
    {
      AgedIsVictim(was, masterSet, start, victims, seen, cutoff, i);
    }
    forall i | 0 <= i < |was| && was[i].obj !in masterSet
      ensures was[i].obj in ObjectsOf(end) <==> was[i].obj !in ObjectsOf(victims)
    {
      assert ObjectsOf(was)[i] == was[i].obj;
      ResidentAtTheEnd(was, masterSet, start, end, victims, was[i].obj);
    }
    forall i | 0 <= i < |end| && end[i].obj !in masterSet
      ensures end[i].obj in ObjectsOf(was) && end[i].obj !in ObjectsOf(victims)
    {
      assert ObjectsOf(end)[i] == end[i].obj;
      ResidentAtTheEnd(was, masterSet, start, end, victims, end[i].obj);
    }
  }

  lemma StageIsConsistent(lru: LRUCache, now: seq<Snapshot>, used: set<ManagedObject>, id: nat, time: nat)
    requires Stage(lru, now, used, id) && Bounded(lru.Tracked, id, time)
    ensures InOrder(lru, id, time)
  {
    OrderedIsSorted(lru.Resident, now, |now|);
  }

  /** What the end of paging means for the objects. */
  lemma PagingConcludes(lru: LRUCache, end: seq<Snapshot>, outcome: Outcome, victims: seq<Snapshot>,
      masterSet: seq<ManagedObject>, completed: nat, id: nat, time: nat)
    requires Stage(lru, end, FirstOf(masterSet, |masterSet|), id)
    requires Settled(lru.Tracked, FirstOf(masterSet, |masterSet|), id, time)
    requires Idle(victims, completed) && Outside(victims, FirstOf(masterSet, |masterSet|))
    requires outcome == RanOver ==> AllPinned(end)
    ensures InOrder(lru, id, time)
    ensures forall o <- masterSet ::
      o.Status == RESIDENT && o.LastUsedFenceValue == id && o.LastUsedTimestamp == time
    ensures forall v <- victims :: !v.pinned && v.fence <= completed && v.obj !in masterSet
    ensures outcome == RanOver ==> forall o <- lru.Resident :: o.IsPinned()
  {
    FirstOfIsSet(masterSet, |masterSet|);
    assert masterSet[..|masterSet|] == masterSet;
    StageIsConsistent(lru, end, FirstOf(masterSet, |masterSet|), id, time);
    if outcome == RanOver {
      ViewOfPins(lru.Resident, end, id);
    }
  }

  /** The same, by what it means for the objects. */
  method PageInSet(lru: LRUCache, device: PagingDevice, immCtx: Timeline, masterSet: seq<ManagedObject>,
      currentTime: nat, usage: nat, budget: nat, gracePeriod: nat)
    returns (outcome: Outcome, ghost victims: seq<Snapshot>, ghost h: History)
    requires immCtx.Valid() && InOrder(lru, immCtx.CommandListID, currentTime)
    requires Within(masterSet, lru.Tracked) && NoRepeatUpTo(masterSet, |masterSet|)
    modifies lru, lru.ResidentObjectListHead`Flink, lru.ResidentObjectListHead`Blink
    modifies lru.Tracked`Flink, lru.Tracked`Blink, lru.Tracked`Status
    modifies lru.Tracked`LastUsedFenceValue, lru.Tracked`LastUsedTimestamp
    modifies device`Enqueued, device`FenceValue, device`Evicted, immCtx`Completed
    ensures immCtx.Valid() && InOrder(lru, immCtx.CommandListID, currentTime) && lru.Tracked == old(lru.Tracked)
    ensures forall o <- masterSet ::
      o.Status == RESIDENT && o.LastUsedFenceValue == immCtx.CommandListID && o.LastUsedTimestamp == currentTime
    ensures outcome == AllEnqueued ==> device.Enqueued == old(device.Enqueued) + Handles(h.pending)
    ensures device.Evicted == old(device.Evicted) + HandlesOf(victims)
    ensures forall v <- victims :: !v.pinned && v.fence <= immCtx.Completed && v.obj !in masterSet
    ensures outcome == RanOver ==> forall o <- lru.Resident :: o.IsPinned()
    ensures h.was == old(View(lru.Resident)) && Shows(h.end, lru.Resident)
    ensures h.pending == old(EvictedUpTo(masterSet, |masterSet|))
    ensures h.inUsePinned == old(InUseIsPinned(lru, masterSet, immCtx.CommandListID))
    ensures h.allPinned == old(EverythingIsPinned(lru, masterSet))
    ensures old(immCtx.Completed) <= h.seen <= immCtx.Completed
    ensures Paged(h, outcome, victims, masterSet, usage, budget, currentTime - gracePeriod, immCtx.CommandListID)
  {
    ghost var log, was := device.Enqueued, View(lru.Resident);
    ViewShowsAll(lru.Resident);
    outcome, victims, h := PageIn(lru, device, immCtx, masterSet, currentTime, usage, budget, gracePeriod, was);
    if outcome == AllEnqueued {
      SentAll(device, log, h.pending);
    }
    PagingConcludes(lru, h.end, outcome, victims, masterSet, immCtx.Completed, immCtx.CommandListID, currentTime);
  }

  // ---------------------------------------------------------------------------------
  // Residency sets
  // ---------------------------------------------------------------------------------

  /** The objects a command list uses. A flag in each object keeps the set free of repeats. */
  class ResidencySet {
    const CommandListIndex: nat
    var Set: seq<ManagedObject>

    ghost predicate Valid()
      reads this, Set`CommandListsUsedOn
    {
      && NoRepeatUpTo(Set, |Set|)
      && (forall i :: 0 <= i < |Set| ==>
            CommandListIndex < |Set[i].CommandListsUsedOn| && Set[i].CommandListsUsedOn[CommandListIndex])
    }

    constructor Open(commandListType: nat)
      ensures Valid() && Set == [] && CommandListIndex == commandListType
    {
      CommandListIndex, Set := commandListType, [];
    }

    method Insert(o: ManagedObject) returns (inserted: bool)
      requires Valid() && CommandListIndex < |o.CommandListsUsedOn|
      modifies this`Set, o`CommandListsUsedOn
      ensures Valid() && o.CommandListsUsedOn == old(o.CommandListsUsedOn)[CommandListIndex := true]
      ensures inserted <==> !old(o.CommandListsUsedOn[CommandListIndex])
      ensures Set == if inserted then old(Set) + [o] else old(Set)
    {
      inserted := !o.CommandListsUsedOn[CommandListIndex];
      if inserted {
        o.CommandListsUsedOn := o.CommandListsUsedOn[CommandListIndex := true];
        NoRepeatPrefix(Set, Set + [o], |Set|);
        Set := Set + [o];
      }
    }

    /** Clears the flags; the set itself stays for the submission. */
    method Close()
      requires Valid()
      modifies Set`CommandListsUsedOn
      ensures NoRepeatUpTo(Set, |Set|)
      ensures forall i :: 0 <= i < |Set| ==>
        Set[i].CommandListsUsedOn == old(Set[i].CommandListsUsedOn)[CommandListIndex := false]
    {
      for n := 0 to |Set|
        invariant forall i :: 0 <= i < n ==>
          Set[i].CommandListsUsedOn == old(Set[i].CommandListsUsedOn)[CommandListIndex := false]
        invariant forall i :: n <= i < |Set| ==> Set[i].CommandListsUsedOn == old(Set[i].CommandListsUsedOn)
      {
        forall i | n < i < |Set| ensures Set[i] != Set[n] { NoRepeatAt(Set, |Set|, n, i); }
        forall i | 0 <= i < n ensures Set[i] != Set[n] { NoRepeatAt(Set, |Set|, i, n); }
        Set[n].CommandListsUsedOn := Set[n].CommandListsUsedOn[CommandListIndex := false];
      }
    }
  }

  lemma {:induction false} NoRepeatPrefix(a: seq<ManagedObject>, b: seq<ManagedObject>, n: nat)
    requires n <= |a| <= |b| && a == b[..|a|] && NoRepeatUpTo(a, n)
    ensures NoRepeatUpTo(b, n)
  {
    if n > 0 {
      NoRepeatPrefix(a, b, n - 1);
    }
  }

  // ---------------------------------------------------------------------------------
  // The manager
  // ---------------------------------------------------------------------------------

  class ResidencyManager {
    const LRU: LRUCache
    const Device: PagingDevice
    const ImmCtx: Timeline
    // The latest reading of the performance counter.
    ghost var Clock: nat

    /** What holds between any two calls: the cache is sound, its list is in order of last
        use, and no recorded use lies in the future. */
    ghost predicate Consistent()
      reads this, LRU, LRU.ResidentObjectListHead, LRU.Tracked, ImmCtx
    {
      ImmCtx.Valid() && InOrder(LRU, ImmCtx.CommandListID, Clock)
    }

    constructor (device: PagingDevice, immCtx: Timeline)
      requires immCtx.Valid()
      ensures Consistent() && LRU.Tracked == {} && LRU.Resident == [] && Device == device && ImmCtx == immCtx
      ensures Clock == 0
      ensures fresh(LRU) && fresh(LRU.ResidentObjectListHead)
    {
      LRU := new LRUCache();
      Device, ImmCtx, Clock := device, immCtx, 0;
    }

    /** The object was last used no later than those on the list, and not in the future. */
    ghost predicate FitsStaleEnd(o: ManagedObject)
      reads this, LRU, LRU.Resident, ImmCtx, o
    {
      && o.LastUsedFenceValue <= ImmCtx.CommandListID && o.LastUsedTimestamp <= Clock
      && (o.Status == RESIDENT && LRU.Resident != [] ==> Precedes(Snap(o), Snap(LRU.Resident[0])))
    }

    /** A resident object goes to the stale end of the list, which keeps the list in order
        exactly if the object belongs there. One that was never used does. */
    method BeginTrackingObject(o: ManagedObject)
      requires Consistent() && o !in LRU.Tracked && o != LRU.ResidentObjectListHead
      modifies LRU, LRU.ResidentObjectListHead`Flink, LRU.ResidentObjectListHead`Blink
      modifies LRU.Tracked`Flink, LRU.Tracked`Blink, o`Flink, o`Blink
      ensures LRU.Valid() && LRU.Tracked == old(LRU.Tracked) + {o}
      ensures LRU.Resident == if o.Status == RESIDENT then [o] + old(LRU.Resident) else old(LRU.Resident)
      ensures Consistent() <==> old(FitsStaleEnd(o))
      ensures o.LastUsedFenceValue == 0 && o.LastUsedTimestamp == 0 ==> Consistent()
    {
      ghost var s := OrderedView(LRU.Resident);
      LRU.Insert(o);
      if o.Status == RESIDENT {
        PrependIsOrdered(old(LRU.Resident), s, o);
      }
    }

    method EndTrackingObject(o: ManagedObject)
      requires Consistent() && o in LRU.Tracked
      modifies LRU, LRU.ResidentObjectListHead`Flink, LRU.ResidentObjectListHead`Blink
      modifies LRU.Tracked`Flink, LRU.Tracked`Blink
      ensures Consistent() && LRU.Tracked == old(LRU.Tracked) - {o}
      ensures LRU.Resident == Minus(old(LRU.Resident), {o})
    {
      ghost var s := OrderedView(LRU.Resident);
      LRU.ResidentIsDistinct();
      MinusOne(LRU.Resident, o);
      ghost var k := LRU.Remove(o);
      if o.Status == RESIDENT {
        SortedDrop(s, k);
        OrderedIsSorted(LRU.Resident, DropAt(s, k), |s| - 1);
      }
    }

    /** Makes the objects of a command list resident. With the set went exactly those that
        were evicted, each once and in the order of the set; what was evicted was idle on
        the GPU, unpinned and not in the set. Whether the walk for an unpinned object runs
        over the end of the list depends on pins and sizes, see EndsAsItMust. */
    method ProcessPagingWork(masterSet: seq<ManagedObject>, currentTime: nat, usage: nat, budget: nat,
        gracePeriod: nat)
      returns (outcome: Outcome, ghost victims: seq<Snapshot>, ghost h: History)
      requires Consistent() && Clock <= currentTime
      requires Within(masterSet, LRU.Tracked) && NoRepeatUpTo(masterSet, |masterSet|)
      modifies this, LRU, LRU.ResidentObjectListHead`Flink, LRU.ResidentObjectListHead`Blink
      modifies LRU.Tracked`Flink, LRU.Tracked`Blink, LRU.Tracked`Status
      modifies LRU.Tracked`LastUsedFenceValue, LRU.Tracked`LastUsedTimestamp
      modifies Device, ImmCtx`Completed
      ensures Consistent() && LRU.Tracked == old(LRU.Tracked)
      ensures forall o <- masterSet ::
        o.Status == RESIDENT && o.LastUsedFenceValue == ImmCtx.CommandListID && o.LastUsedTimestamp == currentTime
      ensures h.pending == old(EvictedUpTo(masterSet, |masterSet|))
      ensures outcome == AllEnqueued ==>
        Device.Enqueued == old(Device.Enqueued) + Handles(h.pending)
      ensures Device.Evicted == old(Device.Evicted) + HandlesOf(victims)
      ensures forall v <- victims :: !v.pinned && v.fence <= ImmCtx.Completed && v.obj !in masterSet
      ensures outcome == RanOver ==> forall o <- LRU.Resident :: o.IsPinned()
      ensures h.inUsePinned == old(InUseIsPinned(LRU, masterSet, ImmCtx.CommandListID))
      ensures h.allPinned == old(EverythingIsPinned(LRU, masterSet))
      ensures (exists o <- masterSet :: !o.IsPinned()) ==> outcome == AllEnqueued
      ensures h.was == old(View(LRU.Resident)) && Shows(h.end, LRU.Resident)
      ensures old(ImmCtx.Completed) <= h.seen <= ImmCtx.Completed
      ensures Paged(h, outcome, victims, masterSet, usage, budget, currentTime - gracePeriod, ImmCtx.CommandListID)
    {
      Clock := currentTime;
      outcome, victims, h := PageInSet(LRU, Device, ImmCtx, masterSet, currentTime, usage, budget, gracePeriod);
    }
  }

  method NewManager() returns (manager: ResidencyManager)
    ensures fresh(manager) && fresh(manager.LRU) && fresh(manager.LRU.ResidentObjectListHead)
    ensures fresh(manager.Device) && fresh(manager.ImmCtx)
    ensures manager.Consistent() && manager.Clock == 0
    ensures manager.LRU.Tracked == {} && manager.LRU.Resident == []
  {
    var device := new PagingDevice();
    var immCtx := new Timeline();
    manager := new ResidencyManager(device, immCtx);
  }

  /** A manager that tracks one object, evicted and pinned. */
  method OnePinnedObject() returns (manager: ResidencyManager, o: ManagedObject)
    ensures fresh(manager) && fresh(manager.LRU) && fresh(manager.LRU.ResidentObjectListHead)
    ensures fresh(manager.Device) && fresh(manager.ImmCtx) && fresh(o)
    ensures manager.Consistent() && manager.Clock == 0
    ensures manager.LRU.Tracked == {o} && manager.LRU.Resident == []
    ensures o.Status == EVICTED && o.IsPinned() && o.Size == 10
  {
    manager := NewManager();
    o := new ManagedObject(7, 10);
    o.Status, o.PinCount := EVICTED, 1;
    manager.BeginTrackingObject(o);
  }

  /** One pinned object of ten bytes that has to be made resident, and no budget at all: the
      walk runs over the end of the list. */
  method PinnedObjectRunsOver() returns (outcome: Outcome)
    ensures outcome == RanOver
  {
    var manager, o := OnePinnedObject();
    NeverFitsAlone(o);
    assert [o][0] == o && Within([o], manager.LRU.Tracked);
    assert InUseIsPinned(manager.LRU, [o], manager.ImmCtx.CommandListID);
    ghost var victims, h;
    outcome, victims, h := manager.ProcessPagingWork([o], 0, 0, 0, 0);
    assert h.pending == [o] && EndsAsItMust(outcome, h.pending, 0, 0, true, h.allPinned);
  }

  lemma NeverFitsAlone(o: ManagedObject)
    requires o.Status == EVICTED
    ensures EvictedUpTo([o], 1) == [o] && NeverFits([o], 0, 0, 0) && NoRepeatUpTo([o], 1)
  {
    assert EvictedUpTo([o], 0) == [] && NoRepeatUpTo([o], 0);
  }

  lemma PrependIsOrdered(objs: seq<ManagedObject>, s: seq<Snapshot>, o: ManagedObject)
    requires Shows(s, objs) && Sorted(s)
    ensures OrderedUpTo([o] + objs, |[o] + objs|) <==> objs == [] || Precedes(Snap(o), Snap(objs[0]))
  {
    SortedPrepend(Snap(o), s, |s|);
    OrderedIsSorted([o] + objs, [Snap(o)] + s, |s| + 1);
  }

  lemma {:induction false} SortedPrepend(x: Snapshot, s: seq<Snapshot>, n: nat)
    requires n <= |s| && SortedUpTo(s, n)
    ensures SortedUpTo([x] + s, n + 1) <==> n == 0 || Precedes(x, s[0])
  {
    if n > 1 {
      SortedPrepend(x, s, n - 1);
    }
  }
}
