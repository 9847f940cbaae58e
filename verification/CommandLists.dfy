/**
 Pools of objects that are recycled along the GPU time line, and the submission of command
 lists that drives it: CFencePool and CBoundedFencePool of
 include/d3d12translationlayer/Util.hpp, and src/d3d12translationlayer/CommandListManager.cpp.
 */
module CommandLists {
  import opened Wrappers
  import opened FenceTimeline

  /** A pooled object and the fence value after which the GPU no longer uses it. */
  datatype PoolEntry<T> = PoolEntry(fence: nat, resource: T)

  /** Every entry was returned under a fence that has been signalled, later entries under
      later fences. */
  ghost predicate Pooled<T>(pool: seq<PoolEntry<T>>, id: nat) {
    && (forall i :: 0 <= i < |pool| ==> pool[i].fence < id)
    && (forall i, j :: 0 <= i < j < |pool| ==> pool[i].fence <= pool[j].fence)
  }

  class CFencePool<T> {
    var m_Pool: seq<PoolEntry<T>>

    constructor ()
      ensures m_Pool == []
    {
      m_Pool := [];
    }

    method ReturnToPool(resource: T, fence: nat)
      modifies this
      ensures m_Pool == old(m_Pool) + [PoolEntry(fence, resource)]
    {
      m_Pool := m_Pool + [PoolEntry(fence, resource)];
    }

    /** The oldest pooled object if the GPU is done with it, and otherwise nothing, when the
        caller creates a new one. */
    method RetrieveFromPool(completed: nat) returns (resource: Option<T>)
      modifies this
      ensures resource.Some? <==> old(m_Pool) != [] && old(m_Pool)[0].fence <= completed
      ensures resource.Some? ==> resource.value == old(m_Pool)[0].resource && m_Pool == old(m_Pool)[1..]
      ensures resource.None? ==> m_Pool == old(m_Pool)
    {
      if m_Pool == [] || completed < m_Pool[0].fence {
        return None;
      }
      resource := Some(m_Pool[0].resource);
      m_Pool := m_Pool[1..];
    }

    /** Drops the oldest object once it has been idle for long enough, one for each call. */
    method Trim(trimThreshold: nat, completed: nat)
      modifies this
      ensures if old(m_Pool) != [] && old(m_Pool)[0].fence + trimThreshold <= completed
              then m_Pool == old(m_Pool)[1..] else m_Pool == old(m_Pool)
    {
      if m_Pool == [] || completed < m_Pool[0].fence {
        return;
      }
      if completed - m_Pool[0].fence >= trimThreshold {
        m_Pool := m_Pool[1..];
      }
    }
  }

  const MAX_IN_FLIGHT_DEPTH := 1024

  // A command allocator, known by the number of allocators created before it.
  type Allocator = nat

  /** The allocators are the numbers below created; each is in the pool or the current one. */
  ghost predicate Accounted(pool: seq<PoolEntry<Allocator>>, others: seq<Allocator>, created: nat) {
    && |pool| + |others| == created
    && (forall i :: 0 <= i < |pool| ==> pool[i].resource < created)
    && (forall i :: 0 <= i < |others| ==> others[i] < created)
    && (forall i, j :: 0 <= i < j < |pool| ==> pool[i].resource != pool[j].resource)
    && (forall i, j :: 0 <= i < |pool| && 0 <= j < |others| ==> pool[i].resource != others[j])
  }

  /** Each pooled allocator carries the ID of the last command list recorded into it. */
  ghost predicate CarriesLastUse(pool: seq<PoolEntry<Allocator>>, lastUse: seq<nat>) {
    forall i :: 0 <= i < |pool| ==> pool[i].resource < |lastUse| && pool[i].fence == lastUse[pool[i].resource]
  }

  /** The books of the allocators: others are those not in the pool. */
  ghost predicate Kept(pool: seq<PoolEntry<Allocator>>, others: seq<Allocator>, lastUse: seq<nat>, id: nat) {
    && Pooled(pool, id)
    && Accounted(pool, others, |lastUse|)
    && CarriesLastUse(pool, lastUse)
  }

  lemma NewAllocatorIsKept(pool: seq<PoolEntry<Allocator>>, lastUse: seq<nat>, id: nat)
    requires Kept(pool, [], lastUse, id)
    ensures Kept(pool, [|lastUse|], lastUse + [0], id)
  {
  }

  lemma RecycledAllocatorIsKept(pool: seq<PoolEntry<Allocator>>, lastUse: seq<nat>, id: nat)
    requires pool != [] && Kept(pool, [], lastUse, id)
    ensures Kept(pool[1..], [pool[0].resource], lastUse, id)
  {
  }

  lemma ReturnedAllocatorIsKept(pool: seq<PoolEntry<Allocator>>, current: Allocator, lastUse: seq<nat>, id: nat)
    requires Kept(pool, [current], lastUse, id) && current < |lastUse|
    ensures Kept(pool + [PoolEntry(id, current)], [], lastUse[current := id], id + 1)
  {
    assert [current][0] == current;
  }

  /** How the next allocator is found: the oldest one, which the GPU must be done with, or one
      more than there were, but not if the oldest was known to be ready. */
  ghost predicate Prepared(pool: seq<PoolEntry<Allocator>>, created: nat, known: nat,
                           left: seq<PoolEntry<Allocator>>, allocator: Allocator, created': nat, completed: nat) {
    if created' == created then
      pool != [] && pool[0].fence <= completed && allocator == pool[0].resource && left == pool[1..]
    else
      && created' == created + 1 && allocator == created && left == pool
      && (pool == [] || (known < pool[0].fence && |pool| < MAX_IN_FLIGHT_DEPTH))
  }

  /** The pool, the allocator in use, how many there are, their last uses and the current ID. */
  datatype Lists = Lists(pool: seq<PoolEntry<Allocator>>, current: Allocator, created: nat, lastUse: seq<nat>, id: nat)

  /** One submission: the current allocator was pooled under the current ID, which is its last
      use, and the next allocator was prepared from that pool for the next ID. */
  ghost predicate Submitted(s: Lists, s': Lists, known: nat, completed: nat) {
    && s'.id == s.id + 1
    && s.current < |s.lastUse| && s.lastUse[s.current := s.id] <= s'.lastUse
    && Prepared(s.pool + [PoolEntry(s.id, s.current)], s.created, known, s'.pool, s'.current, s'.created, completed)
  }

  class CommandListManager {
    const m_Fence: Timeline
    var m_NumFlushesWithNoReadback: nat
    var m_NumCommands: nat
    var m_NumDispatches: nat
    var m_pCommandAllocator: Allocator
    var m_AllocatorPool: seq<PoolEntry<Allocator>>
    var m_NumAllocators: nat
    // For every allocator the ID of the last submitted command list recorded into it.
    ghost var LastUse: seq<nat>

    /** Between two calls: one allocator is being recorded into, the others are pooled, and
        there are never more than the in-flight depth allows. */
    ghost predicate Valid()
      reads this, m_Fence
    {
      && m_Fence.Valid()
      && m_pCommandAllocator < |LastUse| && LastUse[m_pCommandAllocator] <= m_Fence.Completed
      && Kept(m_AllocatorPool, [m_pCommandAllocator], LastUse, m_Fence.CommandListID)
      && m_NumAllocators == |LastUse|
      && m_NumAllocators <= MAX_IN_FLIGHT_DEPTH
    }

    /** While no allocator is current. */
    ghost predicate BetweenLists()
      reads this, m_Fence
    {
      && m_Fence.Valid()
      && Kept(m_AllocatorPool, [], LastUse, m_Fence.CommandListID)
      && m_NumAllocators == |LastUse|
      && m_NumAllocators <= MAX_IN_FLIGHT_DEPTH
    }

    ghost function State(): Lists
      reads this`m_AllocatorPool, this`m_pCommandAllocator, this`m_NumAllocators, this`LastUse, m_Fence`CommandListID
    {
      Lists(m_AllocatorPool, m_pCommandAllocator, m_NumAllocators, LastUse, m_Fence.CommandListID)
    }

    predicate HasCommands()
      reads this
    {
      m_NumCommands > 0
    }

    constructor ()
      ensures Valid() && fresh(m_Fence) && m_Fence.CommandListID == 1 && m_NumAllocators == 1
      ensures m_NumFlushesWithNoReadback == 0 && m_NumCommands == 0 && m_NumDispatches == 0
    {
      var fence := new Timeline();
      m_Fence := fence;
      m_NumFlushesWithNoReadback, m_NumCommands, m_NumDispatches := 0, 0, 0;
      m_AllocatorPool, m_NumAllocators, m_pCommandAllocator := [], 0, 0;
      LastUse := [];
      new;
      PrepareNewCommandList();
    }

    method ReadbackInitiated()
      modifies this`m_NumFlushesWithNoReadback
      ensures m_NumFlushesWithNoReadback == 0
    {
      m_NumFlushesWithNoReadback := 0;
    }

    method ResetCommandListTrackingData()
      modifies this`m_NumCommands, this`m_NumDispatches
      ensures m_NumCommands == 0 && m_NumDispatches == 0
    {
      m_NumCommands, m_NumDispatches := 0, 0;
    }

    method DispatchCommandAdded()
      modifies this`m_NumCommands, this`m_NumDispatches
      ensures m_NumCommands == old(m_NumCommands) + 1 && m_NumDispatches == old(m_NumDispatches) + 1
    {
      m_NumCommands, m_NumDispatches := m_NumCommands + 1, m_NumDispatches + 1;
    }

    /** Reusing an allocator's memory is allowed once the GPU is done with the last command
        list recorded into it. */
    method ResetAllocator(allocator: Allocator)
      requires allocator < |LastUse| && LastUse[allocator] <= m_Fence.Completed
      modifies this`m_pCommandAllocator
      ensures m_pCommandAllocator == allocator
    {
      m_pCommandAllocator := allocator;
    }

    /** Takes the oldest allocator when the GPU is done with it, creates one while the depth
        allows it, and otherwise waits. The value waited for has been signalled, so waiting
        never submits another command list. */
    method PrepareNewCommandList()
      requires BetweenLists()
      modifies this, m_Fence
      ensures Valid() && m_NumCommands == 0 && m_Fence.CommandListID == old(m_Fence.CommandListID)
      ensures m_NumDispatches == 0
      ensures m_NumFlushesWithNoReadback == old(m_NumFlushesWithNoReadback) || m_NumFlushesWithNoReadback == 0
      ensures m_Fence.Completed >= old(m_Fence.Completed)
      ensures old(LastUse) <= LastUse
      ensures Prepared(old(m_AllocatorPool), old(m_NumAllocators), old(m_Fence.Completed),
                       m_AllocatorPool, m_pCommandAllocator, m_NumAllocators, m_Fence.Completed)
      decreases 1, 0
    {
      var currentFence := m_Fence.GetCompletedValue();
      ghost var id := m_Fence.CommandListID;
      if m_AllocatorPool == [] || (currentFence < m_AllocatorPool[0].fence && |m_AllocatorPool| < MAX_IN_FLIGHT_DEPTH) {
        NewAllocatorIsKept(m_AllocatorPool, LastUse, m_Fence.CommandListID);
        m_pCommandAllocator := m_NumAllocators;
        m_NumAllocators, LastUse := m_NumAllocators + 1, LastUse + [0];
        assert Kept(m_AllocatorPool, [m_pCommandAllocator], LastUse, id);
      } else {
        var head := m_AllocatorPool[0];
        RecycledAllocatorIsKept(m_AllocatorPool, LastUse, m_Fence.CommandListID);
        if currentFence < head.fence {
          var _ := WaitForFenceValue(head.fence);
        }
        m_AllocatorPool := m_AllocatorPool[1..];
        ResetAllocator(head.resource);
        assert Kept(m_AllocatorPool, [m_pCommandAllocator], LastUse, id);
      }
      ResetCommandListTrackingData();
    }

    /** Closes the command list, runs it, pools its allocator under its ID, signals the ID
        and prepares the next list. Counting on, the next ID is the only one not signalled. */
    method SubmitCommandListImpl()
      requires Valid()
      modifies this, m_Fence
      ensures Valid() && m_NumCommands == 0 && m_NumDispatches == 0
      ensures m_NumFlushesWithNoReadback == old(m_NumFlushesWithNoReadback) || m_NumFlushesWithNoReadback == 0
      ensures m_Fence.CommandListID == old(m_Fence.CommandListID) + 1
      ensures m_Fence.Completed >= old(m_Fence.Completed)
      ensures Submitted(old(State()), State(), old(m_Fence.Completed), m_Fence.Completed)
      decreases 2, 0
    {
      ReturnCurrentAllocator();
      m_Fence.SubmitFence();
      PrepareNewCommandList();
    }

    method ReturnCurrentAllocator()
      requires Valid()
      modifies this`m_AllocatorPool, this`LastUse
      ensures LastUse == old(LastUse[m_pCommandAllocator := m_Fence.CommandListID])
      ensures m_AllocatorPool == old(m_AllocatorPool) + [PoolEntry(m_Fence.CommandListID, m_pCommandAllocator)]
      ensures Kept(m_AllocatorPool, [], LastUse, m_Fence.CommandListID + 1)
    {
      ReturnedAllocatorIsKept(m_AllocatorPool, m_pCommandAllocator, LastUse, m_Fence.CommandListID);
      m_AllocatorPool := m_AllocatorPool + [PoolEntry(m_Fence.CommandListID, m_pCommandAllocator)];
      LastUse := LastUse[m_pCommandAllocator := m_Fence.CommandListID];
    }

    method SubmitCommandList()
      requires Valid()
      modifies this, m_Fence
      ensures Valid() && m_NumCommands == 0 && m_NumDispatches == 0
      ensures m_NumFlushesWithNoReadback == old(m_NumFlushesWithNoReadback) + 1 || m_NumFlushesWithNoReadback == 0
      ensures m_Fence.CommandListID == old(m_Fence.CommandListID) + 1
      ensures m_Fence.Completed >= old(m_Fence.Completed)
      ensures Submitted(old(State()), State(), old(m_Fence.Completed), m_Fence.Completed)
      decreases 2, 1
    {
      m_NumFlushesWithNoReadback := m_NumFlushesWithNoReadback + 1;
      SubmitCommandListImpl();
    }

    /** Enough was recorded and nobody seems to wait for it, or memory should be freed. */
    predicate WorthSubmitting(uploadHeapSpace: nat, maxUploadHeapSpace: nat)
      reads this
    {
      || ((m_NumCommands > 1000 || m_NumDispatches > 512) && m_NumFlushesWithNoReadback < 50)
      || uploadHeapSpace > maxUploadHeapSpace
    }

    /** Submits, once, if it is worth it and the GPU is idle. */
    method SubmitCommandListIfNeeded(uploadHeapSpace: nat, maxUploadHeapSpace: nat)
      requires Valid()
      modifies this, m_Fence
      ensures Valid()
      ensures m_Fence.CommandListID == old(m_Fence.CommandListID)
        || m_Fence.CommandListID == old(m_Fence.CommandListID) + 1
      ensures m_Fence.CommandListID > old(m_Fence.CommandListID) ==>
        old(WorthSubmitting(uploadHeapSpace, maxUploadHeapSpace)) && m_Fence.Completed >= old(m_Fence.CommandListID) - 1
      ensures m_Fence.CommandListID == old(m_Fence.CommandListID) ==>
        old(WorthSubmitting(uploadHeapSpace, maxUploadHeapSpace)) ==> m_Fence.Completed < m_Fence.CommandListID - 1
      ensures if m_Fence.CommandListID == old(m_Fence.CommandListID) then State() == old(State())
              else Submitted(old(State()), State(), old(m_Fence.Completed), m_Fence.Completed)
    {
      var enoughCommands := m_NumCommands > 1000 || m_NumDispatches > 512;
      var opportunisticFlush := m_NumFlushesWithNoReadback < 50;
      if (enoughCommands && opportunisticFlush) || uploadHeapSpace > maxUploadHeapSpace {
        var completed := m_Fence.GetCompletedValue();
        if completed == m_Fence.CommandListID - 1 {
          SubmitCommandListImpl();
        }
      }
    }

    method PrepForCommandQueueSync()
      requires Valid()
      modifies this, m_Fence
      ensures Valid() && m_NumCommands == 0
      ensures m_NumFlushesWithNoReadback == old(m_NumFlushesWithNoReadback) || m_NumFlushesWithNoReadback == 0
      ensures m_Fence.CommandListID
        == if old(m_NumCommands) > 0 then old(m_Fence.CommandListID) + 1 else old(m_Fence.CommandListID)
      ensures if old(m_NumCommands) > 0 then Submitted(old(State()), State(), old(m_Fence.Completed), m_Fence.Completed)
              else State() == old(State())
    {
      if HasCommands() {
        SubmitCommandListImpl();
      }
    }

    /** Everything recorded so far is covered by the value returned. */
    method EnsureFlushedAndFenced() returns (fenceValue: nat)
      requires Valid()
      modifies this, m_Fence
      ensures Valid() && m_NumCommands == 0 && fenceValue + 1 == m_Fence.CommandListID
      ensures m_NumFlushesWithNoReadback == 0
      ensures m_Fence.CommandListID
        == if old(m_NumCommands) > 0 then old(m_Fence.CommandListID) + 1 else old(m_Fence.CommandListID)
      ensures if old(m_NumCommands) > 0 then Submitted(old(State()), State(), old(m_Fence.Completed), m_Fence.Completed)
              else State() == old(State())
    {
      m_NumFlushesWithNoReadback := 0;
      PrepForCommandQueueSync();
      fenceValue := m_Fence.CommandListID - 1;
    }

    method WaitForCompletion()
      requires Valid()
      modifies this, m_Fence
      ensures Valid() && m_NumCommands == 0 && m_Fence.Completed + 1 == m_Fence.CommandListID
      ensures m_Fence.CommandListID
        == if old(m_NumCommands) > 0 then old(m_Fence.CommandListID) + 1 else old(m_Fence.CommandListID)
      ensures if old(m_NumCommands) > 0 then Submitted(old(State()), State(), old(m_Fence.Completed), m_Fence.Completed)
              else State() == old(State())
    {
      var fenceValue := EnsureFlushedAndFenced();
      m_Fence.WaitForSignalled(fenceValue);
    }

    method WaitForFenceValue(fenceValue: nat) returns (ok: bool)
      requires m_Fence.Valid()
      requires m_Fence.CommandListID <= fenceValue ==>
        Valid() && HasCommands() && fenceValue == m_Fence.CommandListID
      modifies this, m_Fence
      ensures ok && m_Fence.Valid() && fenceValue <= m_Fence.Completed && old(m_Fence.Completed) <= m_Fence.Completed
      ensures m_NumFlushesWithNoReadback == 0
      ensures fenceValue < old(m_Fence.CommandListID) ==> State() == old(State())
      ensures fenceValue == old(m_Fence.CommandListID) ==>
        Valid() && Submitted(old(State()), State(), old(m_Fence.Completed), m_Fence.Completed)
      decreases if m_Fence.CommandListID <= fenceValue then 3 else 0, 3
    {
      m_NumFlushesWithNoReadback := 0;
      ok := WaitForFenceValueInternal(true, fenceValue);
    }

    /** Waiting for the current list submits it first on the immediate context's thread; any
        other thread is told that it cannot wait. Returning true means the GPU got there. */
    method WaitForFenceValueInternal(isImmediateContextThread: bool, fenceValue: nat) returns (ok: bool)
      requires m_Fence.Valid()
      requires isImmediateContextThread && m_Fence.CommandListID <= fenceValue ==>
        Valid() && HasCommands() && fenceValue == m_Fence.CommandListID
      modifies this, m_Fence
      ensures m_Fence.Valid() && old(m_Fence.Completed) <= m_Fence.Completed
      ensures m_NumFlushesWithNoReadback == old(m_NumFlushesWithNoReadback) || m_NumFlushesWithNoReadback == 0
      ensures ok <==> isImmediateContextThread || fenceValue < old(m_Fence.CommandListID)
      ensures ok ==> fenceValue <= m_Fence.Completed
      ensures fenceValue < old(m_Fence.CommandListID) || !isImmediateContextThread ==> State() == old(State())
      ensures fenceValue == old(m_Fence.CommandListID) && isImmediateContextThread ==>
        Valid() && Submitted(old(State()), State(), old(m_Fence.Completed), m_Fence.Completed)
      decreases if m_Fence.CommandListID <= fenceValue then 3 else 0, 2
    {
      if m_Fence.CommandListID <= fenceValue {
        if !isImmediateContextThread {
          return false;
        }
        SubmitCommandListImpl();
      }
      var completed := m_Fence.GetCompletedValue();
      if completed < fenceValue {
        m_Fence.WaitForSignalled(fenceValue);
      }
      ok := true;
    }
  }
}
