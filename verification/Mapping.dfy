/**
 Mapping a resource for the CPU waits for the GPU: SynchronizeForMap and WaitForFenceValue of
 src/d3d12translationlayer/ImmediateContext.cpp.
 */
module Mapping {
  import opened CommandLists
  import opened ResourceStates
  import opened StateTracking
  import opened ResourceRuns

  datatype MapType =
    | MAP_TYPE_READ | MAP_TYPE_WRITE | MAP_TYPE_READWRITE | MAP_TYPE_WRITE_DISCARD | MAP_TYPE_WRITE_NOOVERWRITE

  /** A use of a subresource by a command list. */
  datatype Use = Use(fence: nat, writes: bool)

  /** Reading on the CPU gets on with readers on the GPU, everything else with nobody. */
  predicate Conflicts(mapType: MapType, u: Use) {
    mapType == MAP_TYPE_READ ==> u.writes
  }

  /** Either waits, or submits the current command list if that is the one to wait for and
      says whether the GPU got there. */
  method WaitForFenceValue(manager: CommandListManager, fenceValue: nat, doNotWait: bool) returns (ok: bool)
    requires manager.Valid() && fenceValue <= manager.m_Fence.CommandListID
    requires !doNotWait && fenceValue == manager.m_Fence.CommandListID ==> manager.HasCommands()
    modifies manager, manager.m_Fence
    ensures manager.Valid()
    ensures ok <==> fenceValue <= manager.m_Fence.Completed
    ensures !doNotWait ==> ok
    ensures !doNotWait ==> manager.m_NumFlushesWithNoReadback == 0
    ensures doNotWait && fenceValue < old(manager.m_Fence.CommandListID) ==>
      manager.m_NumFlushesWithNoReadback == old(manager.m_NumFlushesWithNoReadback)
    ensures if fenceValue == old(manager.m_Fence.CommandListID) then
              Submitted(old(manager.State()), manager.State(), old(manager.m_Fence.Completed),
                        manager.m_Fence.Completed)
            else manager.State() == old(manager.State())
  {
    if doNotWait {
      if fenceValue == manager.m_Fence.CommandListID {
        manager.SubmitCommandList();
      }
      var completed := manager.m_Fence.GetCompletedValue();
      return fenceValue <= completed;
    }
    ok := manager.WaitForFenceValue(fenceValue);
  }

  /** The fence value of the last command list that keeps a mapping from going ahead. */
  function FenceFor(mapType: MapType, s: SubresourceState): nat {
    if mapType == MAP_TYPE_READ then s.WriteFenceValue else s.ReadFenceValue
  }

  /** Whatever the tracked fences cover and the mapping conflicts with is done once the GPU
      has reached a value. */
  ghost predicate NoConflictInFlight(mapType: MapType, s: SubresourceState, completed: nat) {
    forall u: Use :: Covers(s, u.fence, u.writes) && Conflicts(mapType, u) ==> u.fence <= completed
  }

  /** True means that no use that conflicts with the mapping is still in flight, and without
      doNotWait the answer is always true. */
  method SynchronizeForMap(manager: CommandListManager, currentState: CCurrentResourceState, subresource: nat,
      mapType: MapType, doNotWait: bool)
    returns (ok: bool)
    requires manager.Valid() && currentState.Valid() && subresource < currentState.m_spSubresourceState.Length
    requires FencesOrdered(currentState.Map[subresource], manager.m_Fence.CommandListID)
    requires !doNotWait && FenceFor(mapType, currentState.Map[subresource]) == manager.m_Fence.CommandListID ==>
      manager.HasCommands()
    modifies manager, manager.m_Fence
    ensures manager.Valid() && (!doNotWait ==> ok)
    ensures ok <==> NoConflictInFlight(mapType, currentState.Map[subresource], manager.m_Fence.Completed)
    ensures ok <==> FenceFor(mapType, currentState.Map[subresource]) <= manager.m_Fence.Completed
    ensures if FenceFor(mapType, currentState.Map[subresource]) == old(manager.m_Fence.CommandListID) then
              Submitted(old(manager.State()), manager.State(), old(manager.m_Fence.Completed),
                        manager.m_Fence.Completed)
            else manager.State() == old(manager.State())
    ensures !doNotWait ==> manager.m_NumFlushesWithNoReadback == 0
    ensures doNotWait && FenceFor(mapType, currentState.Map[subresource]) < old(manager.m_Fence.CommandListID) ==>
      manager.m_NumFlushesWithNoReadback
      == if mapType == MAP_TYPE_READ || mapType == MAP_TYPE_READWRITE then 0
         else old(manager.m_NumFlushesWithNoReadback)
  {
    if mapType == MAP_TYPE_READ || mapType == MAP_TYPE_READWRITE {
      manager.ReadbackInitiated();
    }
    var state := currentState.GetSubresourceState(subresource);
    var fenceValue := if mapType == MAP_TYPE_READ then state.WriteFenceValue else state.ReadFenceValue;
    ok := WaitForFenceValue(manager, fenceValue, doNotWait);
    ghost var last := Use(fenceValue, mapType == MAP_TYPE_READ);
    assert Covers(state, last.fence, last.writes) && Conflicts(mapType, last);
  }

  /** No command list that used the subresource in the run, and conflicts with the mapping, is
      still in flight. */
  ghost predicate RunIsDone(simultaneous: bool, cur: seq<SubresourceState>, steps: seq<Step>, i: nat,
      mapType: MapType, completed: nat)
    requires IsRun(simultaneous, cur, steps) && i < |cur|
  {
    forall j | 0 <= j < |steps| && Uses(simultaneous, cur, steps, j, i) ::
      Conflicts(mapType, Use(steps[j].fence, Writes(steps, j, i))) ==> steps[j].fence <= completed
  }

  lemma NoConflictOfTheRun(simultaneous: bool, cur: seq<SubresourceState>, steps: seq<Step>, i: nat,
      mapType: MapType, completed: nat)
    requires IsRun(simultaneous, cur, steps) && i < |cur| && cur[i] == SubresourceState(0, 0, 0)
    requires NoConflictInFlight(mapType, TrackedAfter(simultaneous, cur, steps, |steps|)[i], completed)
    ensures RunIsDone(simultaneous, cur, steps, i, mapType, completed)
  {
    forall j | 0 <= j < |steps| && Uses(simultaneous, cur, steps, j, i)
        && Conflicts(mapType, Use(steps[j].fence, Writes(steps, j, i)))
      ensures steps[j].fence <= completed
    {
      EveryUseIsCovered(simultaneous, cur, steps, |steps|, j, i);
      var u := Use(steps[j].fence, Writes(steps, j, i));
      assert Covers(TrackedAfter(simultaneous, cur, steps, |steps|)[i], u.fence, u.writes);
    }
  }

  /** For a resource in the state that a run of transitions has left, true means that none of
      the uses of that run that conflict with the mapping is still in flight. */
  method SynchronizeAfterRun(manager: CommandListManager, currentState: CCurrentResourceState, subresource: nat,
      mapType: MapType, doNotWait: bool, ghost cur: seq<SubresourceState>, ghost steps: seq<Step>)
    returns (ok: bool)
    requires manager.Valid() && currentState.Valid() && subresource < |cur| == |currentState.Map|
    requires IsRun(currentState.m_bSimultaneousAccess, cur, steps) && cur[subresource] == SubresourceState(0, 0, 0)
    requires currentState.Map == TrackedAfter(currentState.m_bSimultaneousAccess, cur, steps, |steps|)
    requires steps != [] ==> steps[|steps| - 1].fence <= manager.m_Fence.CommandListID
    requires !doNotWait && FenceFor(mapType, currentState.Map[subresource]) == manager.m_Fence.CommandListID ==>
      manager.HasCommands()
    modifies manager, manager.m_Fence
    ensures manager.Valid() && (!doNotWait ==> ok)
    ensures ok ==>
      RunIsDone(currentState.m_bSimultaneousAccess, cur, steps, subresource, mapType, manager.m_Fence.Completed)
  {
    FencesStayOrdered(currentState.m_bSimultaneousAccess, cur, steps, |steps|, subresource);
    ok := SynchronizeForMap(manager, currentState, subresource, mapType, doNotWait);
    if ok {
      NoConflictOfTheRun(currentState.m_bSimultaneousAccess, cur, steps, subresource, mapType,
                         manager.m_Fence.Completed);
    }
  }
}
