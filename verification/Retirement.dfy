/**
 Deferred deletion of objects the GPU may still use: DeferredDeletionQueueManager of
 include/d3d12translationlayer/ImmediateContext.hpp and TrimDeletedObjects,
 ResourceAllocationFallback of src/d3d12translationlayer/ImmediateContext.cpp.
 */
module Retirement {
  import opened FenceTimeline
  import opened CommandLists

  datatype Retired = Retired(handle: nat, lastCommandListID: nat)

  // What the two getters report for an empty queue.
  const NO_FENCE := 0xFFFF_FFFF_FFFF_FFFF

  function FrontFence(queue: seq<Retired>): nat {
    if queue == [] then NO_FENCE else queue[0].lastCommandListID
  }

  function SyncPoint(objects: seq<Retired>, suballocations: seq<Retired>): nat {
    if FrontFence(objects) <= FrontFence(suballocations) then FrontFence(objects) else FrontFence(suballocations)
  }

  ghost predicate NotBeyond(queue: seq<Retired>, id: nat) {
    forall i :: 0 <= i < |queue| ==> queue[i].lastCommandListID <= id
  }

  lemma RestNotBeyond(queue: seq<Retired>, destroyed: seq<Retired>, rest: seq<Retired>, id: nat)
    requires queue == destroyed + rest && NotBeyond(queue, id)
    ensures NotBeyond(rest, id)
  {
    assert forall i :: 0 <= i < |rest| ==> rest[i] == queue[|destroyed| + i];
  }

  /** The entries that are gone were at the front, and the GPU is done with them. */
  ghost predicate Popped(was: seq<Retired>, queue: seq<Retired>, completed: nat) {
    queue == was || (was != [] && was[0].lastCommandListID <= completed && Popped(was[1..], queue, completed))
  }

  lemma {:induction false} PoppedLater(was: seq<Retired>, destroyed: seq<Retired>, queue: seq<Retired>, completed: nat)
    requires was == destroyed + queue
    requires forall i :: 0 <= i < |destroyed| ==> destroyed[i].lastCommandListID <= completed
    ensures Popped(was, queue, completed)
  {
    if destroyed != [] {
      assert was[0] == destroyed[0] && was[1..] == destroyed[1..] + queue;
      PoppedLater(was[1..], destroyed[1..], queue, completed);
    } else {
      assert queue == was;
    }
  }

  lemma {:induction false} PoppedNotBeyond(was: seq<Retired>, queue: seq<Retired>, completed: nat, id: nat)
    requires Popped(was, queue, completed) && NotBeyond(was, id)
    ensures NotBeyond(queue, id)
  {
    if queue != was {
      PoppedNotBeyond(was[1..], queue, completed, id);
    }
  }

  lemma {:induction false} PoppedTwice(was: seq<Retired>, mid: seq<Retired>, queue: seq<Retired>, seen: nat,
      completed: nat)
    requires Popped(was, mid, seen) && Popped(mid, queue, completed) && seen <= completed
    ensures Popped(was, queue, completed)
  {
    if was != mid {
      PoppedTwice(was[1..], mid, queue, seen, completed);
    }
  }

  /** The value the fallback waits for can be reached exactly when something is queued. */
  lemma SyncPointIsReachable(objects: seq<Retired>, suballocations: seq<Retired>, id: nat)
    requires NotBeyond(objects, id) && NotBeyond(suballocations, id) && id < NO_FENCE
    ensures SyncPoint(objects, suballocations) <= id <==> objects != [] || suballocations != []
    ensures SyncPoint(objects, suballocations) > id ==> SyncPoint(objects, suballocations) == NO_FENCE
  {
    if objects != [] {
      assert objects[0].lastCommandListID <= id;
    }
    if suballocations != [] {
      assert suballocations[0].lastCommandListID <= id;
    }
  }

  /** The oldest entry can go once the GPU is seen at a value. */
  predicate ReadyAt(queue: seq<Retired>, seen: nat) {
    queue != [] && queue[0].lastCommandListID <= seen
  }

  /** Freed is what the fallback reports; WaitsForever is a wait that cannot end. */
  datatype FallbackOutcome = Freed(memory: bool) | WaitsForever

  /** What the GPU is seen to have reached when a trim looks at the front of each queue. */
  datatype Readings = Readings(objects: nat, suballocations: nat)

  /** Readings that a trim can make between two command list IDs: below the second, in order. */
  ghost predicate Possible(from: nat, r: Readings, id: nat) {
    from <= r.objects <= r.suballocations < id
  }

  /** What the fallback reports, by what its first trim sees and by what the trim sees that
      follows the submission. */
  function FallbackOutcomeOf(objects: seq<Retired>, suballocations: seq<Retired>, id: nat, immediate: bool,
                             first: Readings, notified: Readings): FallbackOutcome {
    if ReadyAt(objects, first.objects) || ReadyAt(suballocations, first.suballocations) then Freed(true)
    else OutcomeOfWaiting(objects, suballocations, id, immediate, notified)
  }

  /** The same when the first trim frees nothing. Memory freed by the second trim goes
      unnoticed when it empties both queues, which it does if it sees the current ID reached
      where it looks first. */
  function OutcomeOfWaiting(objects: seq<Retired>, suballocations: seq<Retired>, id: nat, immediate: bool,
                            notified: Readings): FallbackOutcome {
    if objects == [] && suballocations == [] then (if immediate then WaitsForever else Freed(false))
    else if SyncPoint(objects, suballocations) < id then Freed(true)
    else Freed(immediate && (if objects != [] then notified.objects else notified.suballocations) < id)
  }

  /** A trim frees something if it sees the sync point reached, and nothing if it does not. */
  lemma SyncPointDecides(objects: seq<Retired>, suballocations: seq<Retired>, seen: Readings, id: nat)
    requires Possible(0, seen, id) && id <= NO_FENCE
    ensures SyncPoint(objects, suballocations) <= seen.objects ==>
      ReadyAt(objects, seen.objects) || ReadyAt(suballocations, seen.suballocations)
    ensures SyncPoint(objects, suballocations) >= id ==>
      !ReadyAt(objects, seen.objects) && !ReadyAt(suballocations, seen.suballocations)
  {
  }

  /** After a submission that was waited for, the queues are empty if the current ID was seen
      where the trim looked first, and otherwise the sync point is what it was. */
  lemma EmptiedOrUnchanged(objects: seq<Retired>, suballocations: seq<Retired>, left: seq<Retired>,
                           leftSub: seq<Retired>, id: nat, notified: Readings)
    requires NotBeyond(objects, id) && NotBeyond(suballocations, id) && id < NO_FENCE
    requires SyncPoint(objects, suballocations) == id && Possible(0, notified, id + 1)
    requires NotBeyond(left, id) && NotBeyond(leftSub, id)
    requires if ReadyAt(objects, notified.objects) then NotBeyond(objects, notified.objects) ==> left == []
             else left == objects
    requires if ReadyAt(suballocations, notified.suballocations)
             then NotBeyond(suballocations, notified.suballocations) ==> leftSub == []
             else leftSub == suballocations
    ensures if OutcomeOfWaiting(objects, suballocations, id, true, notified) == Freed(true)
            then SyncPoint(left, leftSub) == id else left == [] && leftSub == []
  {
    SyncPointIsReachable(objects, suballocations, id);
    SyncPointIsReachable(left, leftSub, id);
  }

  /** What a wait for the sync point leaves of the queues, and how far it gets. */
  ghost predicate Waited(objects: seq<Retired>, suballocations: seq<Retired>, left: seq<Retired>,
                         leftSub: seq<Retired>, id: nat, immediate: bool, notified: Readings, completed: nat) {
    var syncPoint := SyncPoint(objects, suballocations);
    && NotBeyond(objects, id) && NotBeyond(suballocations, id) && NotBeyond(left, id) && NotBeyond(leftSub, id)
    && Possible(0, notified, id + 1)
    && (syncPoint < id || immediate ==> syncPoint <= completed)
    && if immediate && syncPoint == id then
      && (if ReadyAt(objects, notified.objects) then NotBeyond(objects, notified.objects) ==> left == []
          else left == objects)
      && (if ReadyAt(suballocations, notified.suballocations)
          then NotBeyond(suballocations, notified.suballocations) ==> leftSub == []
          else leftSub == suballocations)
    else
      left == objects && leftSub == suballocations
  }

  /** The trim after the wait then reports what the outcome says. */
  lemma WaitingDecides(objects: seq<Retired>, suballocations: seq<Retired>, left: seq<Retired>,
                       leftSub: seq<Retired>, id: nat, immediate: bool, notified: Readings, seen: Readings)
    requires id < NO_FENCE && (immediate ==> SyncPoint(objects, suballocations) <= id)
    requires Waited(objects, suballocations, left, leftSub, id, immediate, notified, seen.objects)
    requires Possible(0, seen, if immediate && SyncPoint(objects, suballocations) == id then id + 1 else id)
    ensures SyncPoint(left, leftSub) in {SyncPoint(objects, suballocations), NO_FENCE}
    ensures OutcomeOfWaiting(objects, suballocations, id, immediate, notified)
      == Freed(ReadyAt(left, seen.objects) || ReadyAt(leftSub, seen.suballocations))
    ensures immediate && OutcomeOfWaiting(objects, suballocations, id, immediate, notified) == Freed(false) ==>
      left == [] && leftSub == [] && (objects != [] || suballocations != [])
  {
    SyncPointIsReachable(objects, suballocations, id);
    if immediate && SyncPoint(objects, suballocations) == id {
      EmptiedOrUnchanged(objects, suballocations, left, leftSub, id, notified);
      SyncPointDecides(left, leftSub, seen, id + 1);
    } else {
      SyncPointDecides(left, leftSub, seen, id);
    }
  }

  /** Whatever the GPU does meanwhile, the immediate context is told of freed memory: exactly
      when something is queued under a command list that has been submitted before. */
  lemma FreedForCertainExactlyWhen(objects: seq<Retired>, suballocations: seq<Retired>, id: nat)
    requires NotBeyond(objects, id) && NotBeyond(suballocations, id) && 0 < id < NO_FENCE
    ensures (forall first, notified :: Possible(0, first, id) && Possible(first.suballocations, notified, id + 1) ==>
        FallbackOutcomeOf(objects, suballocations, id, true, first, notified) == Freed(true))
      <==> SyncPoint(objects, suballocations) < id
  {
    SyncPointIsReachable(objects, suballocations, id);
    var first, notified := Readings(0, 0), Readings(id, id);
    assert Possible(0, first, id) && Possible(first.suballocations, notified, id + 1);
    if SyncPoint(objects, suballocations) >= id {
      assert FallbackOutcomeOf(objects, suballocations, id, true, first, notified) != Freed(true);
    }
  }

  /** One object queued under the current ID 5, and the GPU reaches 5 before the trim that
      follows the submission: the object is destroyed and the fallback reports failure. */
  lemma FreedMemoryGoesUnnoticed()
    ensures Possible(4, Readings(4, 4), 5) && Possible(4, Readings(5, 5), 6)
    ensures FallbackOutcomeOf([Retired(7, 5)], [], 5, true, Readings(4, 4), Readings(5, 5)) == Freed(false)
  {
  }

  class DeferredDeletionQueueManager {
    var Objects: seq<Retired>
    var Suballocations: seq<Retired>

    ghost predicate Valid(t: Timeline)
      reads this, t
    {
      t.Valid() && NotBeyond(Objects, t.CommandListID) && NotBeyond(Suballocations, t.CommandListID)
    }

    constructor ()
      ensures Objects == [] && Suballocations == []
    {
      Objects, Suballocations := [], [];
    }

    /** An object the GPU is done with needs no queue; any other waits for its command list. */
    method AddObjectToDeferredDeletionQueue(handle: nat, lastCommandListID: nat, t: Timeline)
      requires Valid(t) && lastCommandListID <= t.CommandListID
      modifies this`Objects, t`Completed
      ensures Valid(t) && old(t.Completed) <= t.Completed
      ensures if lastCommandListID <= t.Completed then Objects == old(Objects)
              else Objects == old(Objects) + [Retired(handle, lastCommandListID)]
    {
      var completed := t.GetCompletedValue();
      if !(lastCommandListID <= completed) {
        Objects := Objects + [Retired(handle, lastCommandListID)];
      }
    }

    /** Pops one queue while its front is ready, reading the fence anew for every entry; seen
        is what the first of these readings gave. */
    method TrimQueue(queue: seq<Retired>, t: Timeline, deviceBeingDestroyed: bool)
      returns (rest: seq<Retired>, destroyed: seq<Retired>, ghost seen: nat)
      requires t.Valid()
      modifies t`Completed
      ensures t.Valid() && old(t.Completed) <= seen <= t.Completed
      ensures queue == destroyed + rest
      ensures forall i :: 0 <= i < |destroyed| ==> deviceBeingDestroyed || destroyed[i].lastCommandListID <= t.Completed
      ensures rest != [] ==> !deviceBeingDestroyed && rest[0].lastCommandListID > old(t.Completed)
      ensures !deviceBeingDestroyed ==> (destroyed != [] <==> ReadyAt(queue, seen))
      ensures NotBeyond(queue, seen) ==> rest == []
    {
      rest, destroyed, seen := queue, [], t.Completed;
      while rest != []
        invariant t.Valid() && old(t.Completed) <= seen <= t.Completed
        invariant queue == destroyed + rest
        invariant destroyed == [] ==> seen == t.Completed
        invariant destroyed != [] && !deviceBeingDestroyed ==> ReadyAt(queue, seen)
        invariant forall i :: 0 <= i < |destroyed| ==>
          deviceBeingDestroyed || destroyed[i].lastCommandListID <= t.Completed
        decreases |rest|
      {
        var completed := t.GetCompletedValue();
        if destroyed == [] {
          seen := completed;
        }
        assert queue[|destroyed|] == rest[0];
        if !(rest[0].lastCommandListID <= completed || deviceBeingDestroyed) {
          break;
        }
        destroyed, rest := destroyed + [rest[0]], rest[1..];
      }
    }

    /** Destroys only what the GPU is done with, from the front of each queue, and everything
        that was ready on entry up to the first entry that was not. */
    method TrimDeletedObjects(t: Timeline, deviceBeingDestroyed: bool)
      returns (any: bool, objects: seq<Retired>, suballocations: seq<Retired>, ghost seen: Readings)
      requires Valid(t)
      modifies this, t`Completed
      ensures Valid(t) && Possible(old(t.Completed), seen, t.CommandListID) && seen.suballocations <= t.Completed
      ensures old(Objects) == objects + Objects && old(Suballocations) == suballocations + Suballocations
      ensures any <==> objects != [] || suballocations != []
      ensures if any then |Objects| + |Suballocations| < old(|Objects| + |Suballocations|)
              else Objects == old(Objects) && Suballocations == old(Suballocations)
      ensures forall i :: 0 <= i < |objects| ==> deviceBeingDestroyed || objects[i].lastCommandListID <= t.Completed
      ensures forall i :: 0 <= i < |suballocations| ==>
        deviceBeingDestroyed || suballocations[i].lastCommandListID <= t.Completed
      ensures Objects != [] ==> !deviceBeingDestroyed && Objects[0].lastCommandListID > old(t.Completed)
      ensures Suballocations != [] ==> !deviceBeingDestroyed && Suballocations[0].lastCommandListID > old(t.Completed)
      ensures !deviceBeingDestroyed ==> (objects != [] <==> ReadyAt(old(Objects), seen.objects))
      ensures !deviceBeingDestroyed ==> (suballocations != [] <==> ReadyAt(old(Suballocations), seen.suballocations))
      ensures NotBeyond(old(Objects), seen.objects) ==> Objects == []
      ensures NotBeyond(old(Suballocations), seen.suballocations) ==> Suballocations == []
    {
      ghost var was, wasSub, seenObjects, seenSub := Objects, Suballocations, 0, 0;
      Objects, objects, seenObjects := TrimQueue(Objects, t, deviceBeingDestroyed);
      Suballocations, suballocations, seenSub := TrimQueue(Suballocations, t, deviceBeingDestroyed);
      any := objects != [] || suballocations != [];
      seen := Readings(seenObjects, seenSub);
      RestNotBeyond(was, objects, Objects, t.CommandListID);
      RestNotBeyond(wasSub, suballocations, Suballocations, t.CommandListID);
    }

    /** A trim while the device lives on. */
    method TrimReady(t: Timeline) returns (any: bool, ghost seen: Readings)
      requires Valid(t)
      modifies this, t`Completed
      ensures Valid(t) && Possible(old(t.Completed), seen, t.CommandListID) && seen.suballocations <= t.Completed
      ensures Popped(old(Objects), Objects, t.Completed) && Popped(old(Suballocations), Suballocations, t.Completed)
      ensures if any then |Objects| + |Suballocations| < old(|Objects| + |Suballocations|)
              else Objects == old(Objects) && Suballocations == old(Suballocations)
      ensures any <==>
        ReadyAt(old(Objects), seen.objects) || ReadyAt(old(Suballocations), seen.suballocations)
      ensures !ReadyAt(old(Objects), seen.objects) ==> Objects == old(Objects)
      ensures !ReadyAt(old(Suballocations), seen.suballocations) ==> Suballocations == old(Suballocations)
      ensures NotBeyond(old(Objects), seen.objects) ==> Objects == []
      ensures NotBeyond(old(Suballocations), seen.suballocations) ==> Suballocations == []
    {
      var objects, suballocations;
      any, objects, suballocations, seen := TrimDeletedObjects(t, false);
      PoppedLater(old(Objects), objects, Objects, t.Completed);
      PoppedLater(old(Suballocations), suballocations, Suballocations, t.Completed);
    }

    /** A submission ends with a notification of the context, which trims. */
    method SubmitAndNotify(manager: CommandListManager) returns (ghost seen: Readings)
      requires manager.Valid() && Valid(manager.m_Fence)
      modifies this, manager, manager.m_Fence
      ensures manager.Valid() && Valid(manager.m_Fence)
      ensures Submitted(old(manager.State()), manager.State(), old(manager.m_Fence.Completed),
                          manager.m_Fence.Completed)
      ensures Popped(old(Objects), Objects, manager.m_Fence.Completed)
      ensures Popped(old(Suballocations), Suballocations, manager.m_Fence.Completed)
      ensures old(manager.m_Fence.Completed) <= manager.m_Fence.Completed
      ensures NotBeyond(Objects, old(manager.m_Fence.CommandListID))
      ensures NotBeyond(Suballocations, old(manager.m_Fence.CommandListID))
      ensures Possible(old(manager.m_Fence.Completed), seen, manager.m_Fence.CommandListID)
      ensures !ReadyAt(old(Objects), seen.objects) ==> Objects == old(Objects)
      ensures !ReadyAt(old(Suballocations), seen.suballocations) ==> Suballocations == old(Suballocations)
      ensures NotBeyond(old(Objects), seen.objects) ==> Objects == []
      ensures NotBeyond(old(Suballocations), seen.suballocations) ==> Suballocations == []
    {
      ghost var id, was, wasSub := manager.m_Fence.CommandListID, Objects, Suballocations;
      manager.SubmitCommandListImpl();
      var any;
      any, seen := TrimReady(manager.m_Fence);
      PoppedNotBeyond(was, Objects, manager.m_Fence.Completed, id);
      PoppedNotBeyond(wasSub, Suballocations, manager.m_Fence.Completed, id);
    }

    /** What happens when an allocation fails: trim, else wait for the oldest retired object
        and trim again. With nothing queued the sync point is ~0, and the immediate context
        waits for a value that no command list will ever signal. A sync point that is the
        current ID is waited for by submitting, which trims already. */
    method ResourceAllocationFallback(manager: CommandListManager, immediate: bool)
      returns (outcome: FallbackOutcome, ghost first: Readings, ghost notified: Readings)
      requires manager.Valid() && Valid(manager.m_Fence) && manager.m_Fence.CommandListID < NO_FENCE
      requires immediate && SyncPoint(Objects, Suballocations) == manager.m_Fence.CommandListID ==>
        manager.HasCommands()
      modifies this, manager, manager.m_Fence
      ensures Possible(old(manager.m_Fence.Completed), first, old(manager.m_Fence.CommandListID))
      ensures Possible(first.suballocations, notified, old(manager.m_Fence.CommandListID) + 1)
      ensures Popped(old(Objects), Objects, manager.m_Fence.Completed)
      ensures Popped(old(Suballocations), Suballocations, manager.m_Fence.Completed)
      ensures if immediate && old(manager.m_Fence.CommandListID <= SyncPoint(Objects, Suballocations)) then
                Submitted(old(manager.State()), manager.State(), old(manager.m_Fence.Completed),
                          manager.m_Fence.Completed)
              else manager.State() == old(manager.State())
      ensures outcome == old(FallbackOutcomeOf(Objects, Suballocations, manager.m_Fence.CommandListID, immediate,
                                               first, notified))
      ensures outcome == WaitsForever <==> immediate && old(Objects) == [] && old(Suballocations) == []
      ensures outcome == Freed(true) ==> |Objects| + |Suballocations| < old(|Objects| + |Suballocations|)
      ensures immediate && outcome == Freed(false) ==>
        Objects == [] && Suballocations == [] && (old(Objects) != [] || old(Suballocations) != [])
    {
      var id := manager.m_Fence.CommandListID;
      var any;
      any, first := TrimReady(manager.m_Fence);
      notified := Readings(first.suballocations, first.suballocations);
      if any {
        return Freed(true), first, notified;
      }
      outcome, notified := WaitAndTrimAgain(manager, immediate);
    }

    /** Waits for the sync point. The current ID is waited for by submitting first, and the
        notification of that submission trims; a later value is never signalled. */
    method WaitForSyncPoint(manager: CommandListManager, immediate: bool, syncPoint: nat)
      returns (forever: bool, ghost notified: Readings)
      requires manager.Valid() && Valid(manager.m_Fence) && syncPoint == SyncPoint(Objects, Suballocations)
      requires immediate && syncPoint == manager.m_Fence.CommandListID ==> manager.HasCommands()
      modifies this, manager, manager.m_Fence
      ensures Valid(manager.m_Fence)
      ensures Possible(old(manager.m_Fence.Completed), notified, old(manager.m_Fence.CommandListID) + 1)
      ensures Popped(old(Objects), Objects, manager.m_Fence.Completed)
      ensures Popped(old(Suballocations), Suballocations, manager.m_Fence.Completed)
      ensures old(manager.m_Fence.Completed) <= manager.m_Fence.Completed
      ensures forever <==> immediate && old(manager.m_Fence.CommandListID) < syncPoint
      ensures if immediate && old(manager.m_Fence.CommandListID) <= syncPoint then
                Submitted(old(manager.State()), manager.State(), old(manager.m_Fence.Completed),
                          manager.m_Fence.Completed)
              else manager.State() == old(manager.State())
      ensures !forever ==>
        Waited(old(Objects), old(Suballocations), Objects, Suballocations, old(manager.m_Fence.CommandListID),
               immediate, notified, manager.m_Fence.Completed)
    {
      notified := Readings(manager.m_Fence.Completed, manager.m_Fence.Completed);
      if manager.m_Fence.CommandListID <= syncPoint && immediate {
        notified := SubmitAndNotify(manager);
        if manager.m_Fence.CommandListID <= syncPoint {
          return true, notified;
        }
      }
      var _ := manager.WaitForFenceValueInternal(immediate, syncPoint);
      forever := false;
    }

    /** The rest of the fallback, after a first trim that freed nothing. */
    method WaitAndTrimAgain(manager: CommandListManager, immediate: bool)
      returns (outcome: FallbackOutcome, ghost notified: Readings)
      requires manager.Valid() && Valid(manager.m_Fence) && manager.m_Fence.CommandListID < NO_FENCE
      requires immediate && SyncPoint(Objects, Suballocations) == manager.m_Fence.CommandListID ==>
        manager.HasCommands()
      modifies this, manager, manager.m_Fence
      ensures Possible(old(manager.m_Fence.Completed), notified, old(manager.m_Fence.CommandListID) + 1)
      ensures Popped(old(Objects), Objects, manager.m_Fence.Completed)
      ensures Popped(old(Suballocations), Suballocations, manager.m_Fence.Completed)
      ensures old(manager.m_Fence.Completed) <= manager.m_Fence.Completed
      ensures if immediate && old(manager.m_Fence.CommandListID <= SyncPoint(Objects, Suballocations)) then
                Submitted(old(manager.State()), manager.State(), old(manager.m_Fence.Completed),
                          manager.m_Fence.Completed)
              else manager.State() == old(manager.State())
      ensures outcome == old(OutcomeOfWaiting(Objects, Suballocations, manager.m_Fence.CommandListID, immediate,
                                              notified))
      ensures outcome == Freed(true) ==> |Objects| + |Suballocations| < old(|Objects| + |Suballocations|)
      ensures immediate && outcome == Freed(false) ==>
        Objects == [] && Suballocations == [] && (old(Objects) != [] || old(Suballocations) != [])
    {
      ghost var id := manager.m_Fence.CommandListID;
      SyncPointIsReachable(Objects, Suballocations, id);
      var syncPoint := SyncPoint(Objects, Suballocations);
      var forever;
      forever, notified := WaitForSyncPoint(manager, immediate, syncPoint);
      if forever {
        return WaitsForever, notified;
      }
      ghost var seen, left, leftSub, waited := Readings(0, 0), Objects, Suballocations, manager.m_Fence.Completed;
      var newSyncPoint := SyncPoint(Objects, Suballocations);
      if newSyncPoint < NO_FENCE && newSyncPoint != syncPoint {
        return Freed(true), notified;
      }
      var any;
      any, seen := TrimReady(manager.m_Fence);
      PoppedTwice(old(Objects), left, Objects, waited, manager.m_Fence.Completed);
      PoppedTwice(old(Suballocations), leftSub, Suballocations, waited, manager.m_Fence.Completed);
      WaitingDecides(old(Objects), old(Suballocations), left, leftSub, id, immediate, notified, seen);
      outcome := Freed(any);
    }
  }
}
