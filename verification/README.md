# Verified model of the D3D12 resource managers of OpenCLOn12

OpenCLOn12 maps OpenCL onto D3D12. The hard part of that is recycling: memory, descriptors, command
allocators and retired objects may be reused only when the GPU, which runs behind the CPU, is done with
them. This project models the managers that decide when that is so, the trackers that turn requested
resource states into barriers, the splitting of ND-ranges into dispatches, and the layout and copy code,
and proves that they keep their promises for all inputs and over whole runs.

Check it with `dafny verify dfyconfig.toml` (Dafny 4.11).

## How it is built

The GPU is an abstract time line (`FenceTimeline.dfy`): submitting signals the fence with the current
command list ID and moves on to the next ID; the completed value only grows and never passes what has
been signalled. Waiting for a value that has not been signalled is a precondition failure, so every proof
that calls a wait also proves that the wait ends.

| file | what it models |
|---|---|
| `Wrappers.dfy`, `Arithmetic.dfy` | the option type; the few facts of non-linear arithmetic that the others need |
| `FenceTimeline.dfy` | the fence, as the CPU sees it |
| `Residency.dfy` | the intrusive list and the LRU cache of resident objects with its two scans |
| `Paging.dfy` | residency sets and `ProcessPagingWork` |
| `RingBuffer.dfy` | `CFencedRingBuffer`, ledger, wrap padding and all |
| `OnlineHeaps.dfy` | descriptor heaps that roll over: `ReserveSlots`, `RollOverHeap` |
| `DescriptorHeaps.dfy` | `CDescriptorHeapManager`, free address ranges over a growing list of heaps |
| `CommandLists.dfy` | fence pools and the submit, signal and wait protocol of `CommandListManager` |
| `Retirement.dfy` | the deferred deletion queues and the fallback of failed allocations |
| `ResourceStates.dfy` | what one transition request does, and replaying barriers on the GPU's states |
| `StateTracking.dfy` | the "all the same, or one by one" encodings of per-subresource states |
| `Transitions.dfy` | `ResourceStateManager`: requests, barriers, applying all pending transitions |
| `ResourceRuns.dfy` | whole runs of transitions of one resource |
| `Mapping.dfy` | `SynchronizeForMap` |
| `Subresources.dfy` | subresource numbering, view subsets, their iterator |
| `WorkGroups.dfy` | the local-size search of `clEnqueueNDRangeKernel`, and the checks of given sizes |
| `DispatchTiling.dfy` | work-properties chunks and sub-dispatches |
| `Layout.dfy`, `Copies.dfy` | placement of subresources in memory; uploads and depth/stencil (de)interleaving |

Classes that the source updates in place are classes here, with the source's fields and its branches; a
ghost field gives the abstract value (the linked objects in order, the live windows, the outstanding
slots, the state of every subresource). The methods are proved against functions on those values, and the
promises are lemmas about the functions.

## What turned out not to hold

* `CViewSubresourceSubset` iterates a subset with an empty range of array slices all the same, one range
  of mip levels for each plane. `Subresources.VisitsExactlyWhen` gives the exact condition.
* The fallback of the local-size search can exceed the maximum of 64 work items in the third dimension.
  `WorkGroups.MaximaHoldExactlyWhen` gives the exact condition, `WorkGroups.MaximaHoldIf` a simple one for
  the sizes of a call; `WorkGroups.ThirdMaximumBreaks` gives a family of inputs and
  `WorkGroups.ThirdMaximumCanBreak` one of them.
* The comment before the fallback says that what is left of every dimension is a prime above 128. The table
  of primes lacks 103, so a multiple of it can be left (`WorkGroups.OneHundredAndThreeIsMissed`), and the
  limits stop the search earlier, so 67 can be (`WorkGroups.ThirdMaximumCanBreak`).
  `WorkGroups.SearchKeepsSearched` states what is true instead.
* `ResourceAllocationFallback` is to report whether memory was freed, and on the immediate context it need
  not. If the sync point is the current command list ID it submits, the submission trims, and when the GPU
  has reached the ID by then both queues become empty: the sync point is then ~0 and the last trim finds
  nothing, so that the allocation fails although objects were destroyed.
  `Retirement.FreedMemoryGoesUnnoticed` is an input; `Retirement.FallbackOutcomeOf` is the exact result, by
  what the trims see of the GPU; `Retirement.FreedForCertainExactlyWhen` is what a caller can tell before:
  success is certain exactly if something is queued under an earlier command list.
* With both deletion queues empty the sync point is ~0 from the start, and the immediate context waits for
  it forever, exactly then (`Retirement.DeferredDeletionQueueManager.ResourceAllocationFallback`).
* The walk for an unpinned object in `ProcessPagingWork` has no test for the end of the list.
  `Paging.PinnedObjectRunsOver` is an input on which it runs over the end.
  `Paging.ResidencyManager.ProcessPagingWork` says when, by `Paging.EndsAsItMust`: (i) never if what has to
  be made resident fits into the budget together; (ii) if some object can never fit, because there is no
  budget left or the object is larger than what is left, exactly if everything that the current command
  list uses is pinned; (iii) otherwise only if that is so, and always if everything resident and the set
  are pinned.
* `BeginTrackingObject` puts any resident object at the stale end, which breaks the order of last use exactly
  if the object was used later than the list (`Paging.ResidencyManager.BeginTrackingObject`).
* `CFencedRingBuffer::Allocate` asserts that a request is below half the size. Nothing proved here needs it.

## Model

| member | source | states |
|---|---|---|
| `FenceTimeline.Timeline.WaitForSignalled` | src/d3d12translationlayer/CommandListManager.cpp:336-346 | A wait is for a value that has been signalled; after it the GPU has reached the value. |
| `Residency.InsertHeadList` | include/d3d12translationlayer/Util.hpp:184-199 | The list stays a ring of Flink and Blink with the entry right behind the head. |
| `Residency.InsertTailList` | include/d3d12translationlayer/Util.hpp:201-216 | The list stays a ring with the entry last. |
| `Residency.RemoveEntryList` | include/d3d12translationlayer/Util.hpp:167-182 | The list stays a ring of the other entries in their order. |
| `Residency.LRUCache.Insert` | include/d3d12translationlayer/Residency.h:228-240 | A tracked object more; the list holds exactly the resident ones, the counters count list, evicted objects and sizes; a resident object goes to the stale end. |
| `Residency.LRUCache.Remove` | include/d3d12translationlayer/Residency.h:242-254 | A tracked object less, with list and counters still in agreement and the order of the others kept. |
| `Residency.LRUCache.ObjectReferenced` | include/d3d12translationlayer/Residency.h:259-265 | The object, and no other, moves to the recent end. |
| `Residency.LRUCache.MakeResident` | include/d3d12translationlayer/Residency.h:267-277 | An evicted object becomes resident at the recent end; list and counters stay in agreement. |
| `Residency.LRUCache.Evict` | include/d3d12translationlayer/Residency.h:279-290 | A resident, unpinned object leaves the list and becomes evicted; resident and evicted objects still add up to the tracked ones. |
| `Residency.LRUCache.TrimAgedAllocations` | src/d3d12translationlayer/Residency.cpp:46-76 | On a list in order of last use, exactly the unpinned objects that are old enough and complete on the GPU are evicted, in list order, in spite of the early exits. |
| `Residency.LRUCache.TrimToSyncPointInclusive` | src/d3d12translationlayer/Residency.cpp:11-44 | What is evicted is the shortest prefix of the eligible objects that brings usage under budget, or all of them. |
| `Residency.EarlyExitIsExact` | src/d3d12translationlayer/Residency.cpp:19-26 | Stopping a scan at the first entry that fails the tests loses no eligible entry of a sorted list. |
| `Residency.ScanDone` | src/d3d12translationlayer/Residency.cpp:30-43 | Restarting from the head after every eviction and stepping over pinned entries still covers the whole list. |
| `Residency.ScannedIsSorted` | src/d3d12translationlayer/Residency.cpp:36-41 | The list a scan leaves behind is in order of last use, by fence and by time. |
| `Paging.Touch` | src/d3d12translationlayer/Residency.cpp:118-136 | Marking an object as used now makes it resident, keeps the list in order of last use and the order of the others. |
| `Paging.MarkUsed` | src/d3d12translationlayer/Residency.cpp:117-136 | The whole set is resident, used now and at the recent end in its order; the objects gathered are those that were evicted, in the order of the set. |
| `Paging.GatherBatch` | src/d3d12translationlayer/Residency.cpp:171-188 | A batch is the longest run of pending objects, from the next one on, that fits into the available space. |
| `Paging.FirstUnpinned` | src/d3d12translationlayer/Residency.cpp:204-208 | The walk finds the stalest unpinned object, nothing on an empty list, and runs over the end of the list exactly if the list is not empty and all objects on it are pinned. |
| `Paging.CurrentStays` | src/d3d12translationlayer/Residency.cpp:204-249 | Trimming to a sync point below the current command list leaves it open or not, as it was, whether everything last used by that list is pinned. |
| `Paging.WaitAndTrim` | src/d3d12translationlayer/Residency.cpp:241-249 | The wait is for a value below the current command list ID; what is evicted is unpinned, complete on the GPU and not in the set, and is the shortest run of idle objects that brings usage under budget, or all that is idle; something is evicted whenever usage is not under budget. |
| `Paging.NothingIdleLeft` | src/d3d12translationlayer/Residency.cpp:19-43 | When a trim does not bring usage under budget, nothing unpinned that the fence covers is left on the list. |
| `Paging.MakeRoom` | src/d3d12translationlayer/Residency.cpp:204-249 | No unpinned object is found exactly if the list is not empty and all pinned; nothing is trimmed only if an unpinned object of the current command list, or no object, is found; otherwise something goes whenever usage is not under budget. |
| `Paging.NoBatchMeansOverBudget` | src/d3d12translationlayer/Residency.cpp:160-200 | A pass that batches nothing has too much left to stay under budget, so that trimming takes something. |
| `Paging.GreedyBatch` | src/d3d12translationlayer/Residency.cpp:160-200 | The longest batch that fits is all that is left exactly if all of it fits into the budget together; an object that can never fit is in no batch. |
| `Paging.Pass` | src/d3d12translationlayer/Residency.cpp:158-256 | Every pass but the last hands an object over or evicts one: objects to enqueue plus resident objects strictly decrease. |
| `Paging.EnqueuePending` | src/d3d12translationlayer/Residency.cpp:154-257 | The loop over the passes ends, although usage and budget are never read again. |
| `Paging.EvictAndEnqueue` | src/d3d12translationlayer/Residency.cpp:138-258 | First go exactly the unpinned objects that the GPU is seen to be done with and that were last used before the cutoff; beyond that only what the trims evict, each no more than was needed for what was still owed, and nothing if all of it fits; everything else stays. |
| `Paging.GoneIsVictim` | src/d3d12translationlayer/Residency.cpp:138-258 | From the marking of the set to the end, an object leaves the list exactly if it is among the victims. |
| `Paging.ResidentAtTheEnd` | src/d3d12translationlayer/Residency.cpp:101-263 | Outside the set, exactly those objects are resident at the end that were before and are not among the victims. |
| `Paging.PageIn` | src/d3d12translationlayer/Residency.cpp:117-262 | Every evicted object of the set is enqueued exactly once, in the order of the set, over all batches and the forced rest. |
| `Paging.ResidencyManager.ProcessPagingWork` | src/d3d12translationlayer/Residency.cpp:101-263 | All objects of the set are resident, used now, and those that were evicted are enqueued once each and in order; whatever reaches Evict was unpinned, complete on the GPU and not in the set; the order of last use holds again. Every object outside the set that was unpinned, complete when the GPU was first looked at and not used for longer than the grace period is evicted; beyond those only what the trims needed, and nothing if all sizes fit together; the other objects stay resident. The walk never runs over the end of the list if all sizes fit together; if one of them can never fit, it does so if and only if all that the current command list uses is pinned; in between, only if that is so, and certainly if everything resident is pinned. |
| `Paging.PinnedObjectRunsOver` | src/d3d12translationlayer/Residency.cpp:204-208 | An input on which the walk runs over the end: one pinned, evicted object and no budget. |
| `Paging.ResidencyManager.BeginTrackingObject` | include/d3d12translationlayer/Residency.h:326-335 | The list stays in order of last use exactly if the object was last used no later than what is on it; so it was if it was never used. |
| `Paging.ResidencyManager.EndTrackingObject` | include/d3d12translationlayer/Residency.h:337-342 | The object leaves the list, the others stay in their order, and the list stays in order of last use. |
| `Paging.ResidencySet.Insert` | include/d3d12translationlayer/Residency.h:135-151 | The flags keep the set free of repeats; the result says whether the object is new. |
| `Paging.ResidencySet.Close` | include/d3d12translationlayer/Residency.h:161-169 | The flag of every member, and no other flag, is cleared. |
| `RingBuffer.CFencedRingBuffer.Allocate` | include/d3d12translationlayer/ImmediateContext.hpp:113-159 | Succeeds exactly if a ledger entry can take the request and it fits between tail and head, padding included; the window lies inside the buffer and is added to the live ones; a failure adds at most padding. |
| `RingBuffer.FitsExactlyWhen` | include/d3d12translationlayer/ImmediateContext.hpp:132-153 | A request fits if any contiguous free slots at or behind the tail could take it, and gets the first such slots. |
| `RingBuffer.CFencedRingBuffer.Deallocate` | include/d3d12translationlayer/ImmediateContext.hpp:161-184 | Gives back exactly the live windows whose fence the GPU has reached, in spite of the early exit. |
| `RingBuffer.CFencedRingBuffer.MoveToNextLedgerEntry` | include/d3d12translationlayer/ImmediateContext.hpp:213-231 | Fails exactly if the next of the 16 entries is taken; the invariant holds either way. |
| `RingBuffer.LiveWindowsAreDisjoint` | include/d3d12translationlayer/ImmediateContext.hpp:132-153 | In every reachable state, two live windows share no slot, wherever the tail has wrapped. |
| `RingBuffer.LedgerCountsTheSpan` | include/d3d12translationlayer/ImmediateContext.hpp:150-173 | In every reachable state the counts of the ledger add up to the tail less the freed end. |
| `RingBuffer.DueIsTaken` | include/d3d12translationlayer/ImmediateContext.hpp:163-177 | The counts of the due entries are exactly what the due windows took, whichever ledger slots they are in. |
| `RingBuffer.DuePrefix` | include/d3d12translationlayer/ImmediateContext.hpp:161-184 | The due windows are the oldest ones, so that adding their counts to the head frees their slots and no others. |
| `RingBuffer.ReleaseKeepsInv` | include/d3d12translationlayer/ImmediateContext.hpp:161-184 | Releasing keeps the invariant. |
| `RingBuffer.TakeKeepsInv` | include/d3d12translationlayer/ImmediateContext.hpp:146-153 | Taking slots at the tail keeps the invariant. |
| `RingBuffer.MoveKeepsInv` | include/d3d12translationlayer/ImmediateContext.hpp:213-231 | Moving to the next ledger entry keeps the invariant, available or not. |
| `OnlineHeaps.OnlineDescriptorHeap.SwitchHeap` | src/d3d12translationlayer/ImmediateContext.cpp:256-278 | The heap doubles up to the maximum and the old one is retired under the current ID; at the maximum the old one joins the pool under the current ID, and the oldest pooled one is taken if the GPU has reached the command list it was given back under, which it was not known to have done if a new heap is made. |
| `OnlineHeaps.OnlineDescriptorHeap.RollOverHeap` | src/d3d12translationlayer/ImmediateContext.cpp:247-287 | Another heap is in use, by a switch as above, and its ring buffer is empty. |
| `OnlineHeaps.NewReservationIsKept` | src/d3d12translationlayer/ImmediateContext.cpp:289-311 | Over every run, no slot of any heap is reserved twice while the GPU is not done with both uses: a new window shares no slot with what may still be in use of its heap. |
| `OnlineHeaps.SwitchIsKept` | src/d3d12translationlayer/ImmediateContext.cpp:256-282 | So it stays when the heap is switched: the heap taken is new or done with, and a heap given back is not used after the command list it was given back under. |
| `OnlineHeaps.OnlineDescriptorHeap.ReserveSlots` | src/d3d12translationlayer/ImmediateContext.cpp:289-311 | Contiguous slots inside the heap are reserved under the current command list, with at most one roll-over, and one only if the request did not fit; without one the heap stays, with one it is another; over every run no slot is reserved twice while the GPU is not done with both uses. |
| `OnlineHeaps.OnlineDescriptorHeap.PostSubmitNotification` | src/d3d12translationlayer/ImmediateContext.cpp:237-243 | After a submission the slots of all completed command lists, and of no others, are free again. |
| `DescriptorHeaps.ReturnRange` | include/d3d12translationlayer/ImmediateContext.hpp:320-354 | Giving a slot back keeps the free list sorted, disjoint and without empty ranges, and frees that slot and no other; a range that it touches grows, and only without one the list gets longer. |
| `DescriptorHeaps.TakeFirst` | include/d3d12translationlayer/ImmediateContext.hpp:286-292 | The lowest free slot, and no other, is taken, and the free list stays well-formed. |
| `DescriptorHeaps.InsertRange` | include/d3d12translationlayer/ImmediateContext.hpp:338-343 | A range of its own, put in front of the first one behind it, keeps the list sorted and disjoint. |
| `DescriptorHeaps.GrowUp` | include/d3d12translationlayer/ImmediateContext.hpp:331-335 | Growing a range over the slot behind it does not run into the next range. |
| `DescriptorHeaps.SlotMoved` | include/d3d12translationlayer/ImmediateContext.hpp:275-360 | Free and outstanding slots partition every heap before and after one slot changes sides. |
| `DescriptorHeaps.CDescriptorHeapManager.AllocateHeap` | include/d3d12translationlayer/ImmediateContext.hpp:362-373 | The new heap is at the address the device chose, all of it free. |
| `DescriptorHeaps.CDescriptorHeapManager.AllocateHeapSlot` | include/d3d12translationlayer/ImmediateContext.hpp:275-303 | The slot handed out was not outstanding, is the lowest free one of the first heap that has any, and lies in that heap; a heap is added only if none has a free slot, and at the address the device chose; if no two heaps overlap, neither does the slot with any outstanding one. |
| `DescriptorHeaps.OutstandingSlotsAreApart` | include/d3d12translationlayer/ImmediateContext.hpp:275-373 | If the heaps lie at disjoint addresses, no two outstanding slots overlap. |
| `DescriptorHeaps.CDescriptorHeapManager.FreeHeapSlot` | include/d3d12translationlayer/ImmediateContext.hpp:305-360 | The slot, and only it, is no longer outstanding, and the same invariant holds. |
| `CommandLists.CFencePool.RetrieveFromPool` | include/d3d12translationlayer/Util.hpp:511-524 | An object is recycled exactly if the oldest one is complete on the GPU. |
| `CommandLists.CFencePool.Trim` | include/d3d12translationlayer/Util.hpp:526-545 | At most one object is dropped, the oldest, once it is idle for the threshold. |
| `CommandLists.CommandListManager.PrepareNewCommandList` | src/d3d12translationlayer/CommandListManager.cpp:112-162 | The next allocator is the oldest pooled one, and then the GPU has reached its fence, or one more than there were, and then the oldest was not known to be ready and fewer than 1024 are pooled; every allocator is known with the last command list recorded into it, which is complete when it is reset; the blocking wait never submits. |
| `CommandLists.CommandListManager.SubmitCommandListImpl` | src/d3d12translationlayer/CommandListManager.cpp:179-194 | The pool gains the current allocator under the ID that is signalled, the next allocator is prepared from that pool, the next ID is current, and the invariant holds again. |
| `CommandLists.ReturnedAllocatorIsKept` | src/d3d12translationlayer/CommandListManager.cpp:186-191 | Pooling the current allocator under the ID just signalled keeps the pool in fence order, without repeats, and every entry under the last use of its allocator. |
| `CommandLists.CommandListManager.SubmitCommandListIfNeeded` | src/d3d12translationlayer/CommandListManager.cpp:76-108 | Submits exactly when it is worth it and everything submitted before is complete, and once; otherwise nothing changes. |
| `CommandLists.CommandListManager.EnsureFlushedAndFenced` | src/d3d12translationlayer/CommandListManager.cpp:256-272 | Recorded commands are submitted, once, and nothing is submitted without; the value returned is the last one signalled, so that it covers all commands recorded so far. |
| `CommandLists.CommandListManager.WaitForCompletion` | src/d3d12translationlayer/CommandListManager.cpp:294-305 | Recorded commands are submitted, and afterwards the GPU is done with everything submitted. |
| `CommandLists.CommandListManager.WaitForFenceValueInternal` | src/d3d12translationlayer/CommandListManager.cpp:316-346 | True means that the GPU has reached the value; waiting for a value below the current ID submits nothing, waiting for the current one submits once, and only on the immediate context's thread. |
| `Retirement.SyncPointIsReachable` | src/d3d12translationlayer/ImmediateContext.cpp:195-211 | The sync point can be reached exactly if something is queued. |
| `Retirement.DeferredDeletionQueueManager.AddObjectToDeferredDeletionQueue` | src/d3d12translationlayer/ImmediateContext.cpp:162-171 | An object is queued exactly if the GPU may still use it. |
| `Retirement.DeferredDeletionQueueManager.TrimDeletedObjects` | src/d3d12translationlayer/ImmediateContext.cpp:174-192 | Only objects that the GPU is done with are destroyed, from the front of each queue, and none that was ready in front of the first that was not is left; a queue loses something exactly if its front was ready at the first look. |
| `Retirement.PoppedTwice` | src/d3d12translationlayer/ImmediateContext.cpp:174-192 | One trim after another still removes only entries that the GPU is done with, from the front. |
| `Retirement.DeferredDeletionQueueManager.ResourceAllocationFallback` | src/d3d12translationlayer/ImmediateContext.cpp:1482-1517 | Waits forever exactly on the immediate context with both queues empty. Otherwise the result is that of FallbackOutcomeOf, by what the trims see: the immediate context reports failure only after the trim of its own submission has emptied both queues. Whatever happens, only entries that the GPU is done with leave the queues, from the front, and a command list is submitted exactly on the immediate context when the sync point has not been submitted. |
| `Retirement.WaitingDecides` | src/d3d12translationlayer/ImmediateContext.cpp:1489-1516 | After the wait for the sync point, with or without a submission that trims, the last trim frees something exactly in the cases of FallbackOutcomeOf. |
| `Retirement.FreedForCertainExactlyWhen` | src/d3d12translationlayer/ImmediateContext.cpp:1482-1517 | On the immediate context success is reported whatever the GPU does meanwhile if and only if something is queued under a command list submitted before. |
| `Retirement.FreedMemoryGoesUnnoticed` | src/d3d12translationlayer/ImmediateContext.cpp:1506-1516 | An input for which an object is destroyed and failure is reported. |
| `ResourceStates.DestinationIsMet` | src/d3d12translationlayer/ResourceState.cpp:163-193 | With or without a barrier the state has all bits of the destination, exactly those under StateMatchExact, and a barrier is required exactly if the state changes. |
| `ResourceStates.RequestIsMet` | src/d3d12translationlayer/ResourceState.cpp:216-279 | Without simultaneous access, the subresource ends up in a state that has all bits requested; its barrier starts from the tracked state and leads to the new one. |
| `ResourceStates.RecordedExactlyWhen` | src/d3d12translationlayer/ResourceState.cpp:236-279 | A barrier is emitted exactly if the state must change. A request counts as a use exactly if it does not carry NotUsedInCommandListIfNoStateChange or the state must change; then the read fence is that of the command list, and the write fence too exactly if the state reached is a write state; otherwise nothing is recorded. |
| `ResourceStates.ReadsAccumulate` | src/d3d12translationlayer/ResourceState.cpp:177-192 | Read states accumulate, so that going back to a way of reading seen before takes no barrier; once a write is involved the state is exactly the one requested. |
| `ResourceStates.SimultaneousRequestIsMet` | src/d3d12translationlayer/ResourceState.cpp:235-259 | With simultaneous access only a write in the same command list makes a barrier necessary; reads in the same command list add up, and the first use takes the state requested. |
| `ResourceStates.StatesStayExclusive` | src/d3d12translationlayer/ResourceState.cpp:184-191 | Read states are accumulated but a write state is never combined with another state. |
| `ResourceStates.UsesAreCovered` | src/d3d12translationlayer/ResourceState.cpp:260-279 | WriteFence <= ReadFence <= current ID stays true, earlier uses stay covered and a request that is a use is covered, with simultaneous access as well. |
| `ResourceStates.OneByOneReplays` | src/d3d12translationlayer/ResourceState.cpp:214-279 | Replaying the barriers of the loop over the subresources always finds StateBefore, and leads to the tracked states. |
| `ResourceStates.AllAtOnceReplays` | src/d3d12translationlayer/ResourceState.cpp:203-279 | So does replaying the one barrier for all subresources. |
| `ResourceStates.FastPathAgrees` | src/d3d12translationlayer/ResourceState.cpp:203-279 | The fast path and the loop track the same states and fences and do the same on the GPU. |
| `StateTracking.CDesiredResourceState.SetSubresourceState` | src/d3d12translationlayer/ResourceState.cpp:28-41 | The encoding stands for the map with one request changed, whether it was "all the same" or not. |
| `StateTracking.CDesiredResourceState.SetResourceState` | src/d3d12translationlayer/ResourceState.cpp:21-25 | The encoding stands for the map with the same request everywhere. |
| `StateTracking.CDesiredResourceState.GetSubresourceInfo` | src/d3d12translationlayer/ResourceState.cpp:11-18 | What is read is what the map holds. |
| `StateTracking.CCurrentResourceState.SetSubresourceState` | src/d3d12translationlayer/ResourceState.cpp:76-80 | The encoding stands for the map with one state changed. |
| `StateTracking.CCurrentResourceState.ConvertToSubresourceTracking` | src/d3d12translationlayer/ResourceState.cpp:50-58 | Switching to one state per subresource changes the encoding but not the map. |
| `StateTracking.CCurrentResourceState.GetSubresourceState` | src/d3d12translationlayer/ResourceState.cpp:83-90 | What is read is what the map holds. |
| `Transitions.Decide` | src/d3d12translationlayer/ResourceState.cpp:235-259 | The in/out destination, the barrier and the use flag come out as one request demands. |
| `Transitions.AllRounds` | src/d3d12translationlayer/ResourceState.cpp:214-279 | One round for all subresources, or one for each, leave every subresource in its new state and emit exactly their barriers. |
| `Transitions.ResourceStateManager.ProcessTransitioningResource` | src/d3d12translationlayer/ResourceState.cpp:195-289 | The tracked states become the new ones, the barriers are appended, and nothing is requested any more. |
| `Transitions.ResourceStateManager.ApplyAllResourceTransitions` | src/d3d12translationlayer/ResourceState.cpp:329-348 | Every pending resource is processed once and the list ends empty; replaying the barriers on the GPU finds every state a barrier expects and leads to the states tracked now. |
| `Transitions.ResourceStateManager.ForEachTransitioningResource` | include/d3d12translationlayer/ResourceState.hpp:196-211 | Each pending resource is processed once, in list order, without touching the others, and the list ends empty. |
| `Transitions.BarriersFitTheGpu` | include/d3d12translationlayer/ResourceState.hpp:194-211 | The barriers of all pending resources together fit each of them, and leave every other resource as it is. |
| `Transitions.AppliedMeetsRequests` | src/d3d12translationlayer/ResourceState.cpp:216-279 | After applying, each requested subresource has all bits requested (exactly those under StateMatchExact), each other one is unchanged. |
| `Transitions.AppliedRecordsUses` | src/d3d12translationlayer/ResourceState.cpp:216-279 | After applying, exactly the subresources that are used carry the fence of the command list, and those left in a write state as their write fence too. |
| `Transitions.ResourceStateManager.TransitionResource` | src/d3d12translationlayer/ResourceState.cpp:109-117 | The request holds for the whole resource, which is in the list once. |
| `Transitions.ResourceStateManager.TransitionSubresource` | src/d3d12translationlayer/ResourceState.cpp:145-154 | The request holds for one subresource, the only one whatever the index if there is one, and the others keep theirs. |
| `Transitions.ResourceStateManager.TransitionSubresources` | src/d3d12translationlayer/ResourceState.cpp:120-142 | Exactly the members of the view subset get the request, by the whole-resource shortcut or by the loop; without array slices, those that the iteration visits. |
| `ResourceRuns.GpuFollowsTracking` | src/d3d12translationlayer/ResourceState.cpp:195-289 | Over every run of transitions, every barrier finds the state it expects and the GPU's states are the tracked ones. |
| `ResourceRuns.EveryUseIsCovered` | src/d3d12translationlayer/ResourceState.cpp:236-279 | Over every run, no request that is a use (by its state, its flags and whether the state had to change) is later than the tracked read fence, and none that writes is later than the tracked write fence. |
| `ResourceRuns.FencesStayOrdered` | src/d3d12translationlayer/ResourceState.cpp:260-279 | Over every run, the write fence is not above the read fence, and that not above the current ID. |
| `Mapping.SynchronizeForMap` | src/d3d12translationlayer/ImmediateContext.cpp:1737-1763 | True exactly if nothing that the tracked fences cover and the mapping conflicts with is in flight: no writer for MAP_READ, nobody otherwise; without DoNotWait it is always true. A mapping for reading, and any wait, resets the count of flushes without readback; otherwise, with DoNotWait, it stays. |
| `Mapping.NoConflictOfTheRun` | src/d3d12translationlayer/ImmediateContext.cpp:1756-1760 | For a resource that a run of transitions has reached, then no conflicting use of the whole run is in flight. |
| `Mapping.SynchronizeAfterRun` | src/d3d12translationlayer/ImmediateContext.cpp:1737-1763 | The two together, for any run: true means that the GPU has completed every use in it that conflicts with the mapping. |
| `Mapping.WaitForFenceValue` | src/d3d12translationlayer/ImmediateContext.cpp:1766-1784 | The answer is whether the GPU has reached the value; the current command list is submitted exactly if it is the one asked for, and otherwise nothing is. |
| `Subresources.DecomposeCompose` | include/d3d12translationlayer/SubresourceHelpers.hpp:50-69 | Mip level, array slice and plane come back from the index. |
| `Subresources.ComposeDecompose` | include/d3d12translationlayer/SubresourceHelpers.hpp:50-69 | Every index is that of a mip level, array slice and plane. |
| `Subresources.NumberedInOrder` | include/d3d12translationlayer/SubresourceHelpers.hpp:50-55 | Subresources are numbered with mip levels innermost, then array slices, then planes. |
| `Subresources.PlaneRoundTrip` | include/d3d12translationlayer/SubresourceHelpers.hpp:76-90 | Index and plane come back from the index with the plane added. |
| `Subresources.IncludesTheBox` | src/d3d12translationlayer/SubresourceHelpers.cpp:564-573 | The ranges of a subset inside the resource hold exactly its box of mip levels, array slices and planes. |
| `Subresources.ReduceKeepsMembers` | src/d3d12translationlayer/SubresourceHelpers.cpp:443-464 | Coalescing the ranges into one leaves the members unchanged. |
| `Subresources.WholePlanesAreOneRange` | src/d3d12translationlayer/SubresourceHelpers.cpp:443-464 | All mip levels and array slices of some planes, if the end fits into a byte, are always coalesced and iterated as one range. |
| `Subresources.WholeIffAll` | src/d3d12translationlayer/SubresourceHelpers.cpp:467-470 | IsWholeResource holds exactly if the members are all subresources. |
| `Subresources.ReducedWholeIffAll` | src/d3d12translationlayer/SubresourceHelpers.cpp:467-470 | The same for a reduced subset, and reducing does not change the answer. |
| `Subresources.VisitsIncrease` | src/d3d12translationlayer/SubresourceHelpers.cpp:517-530 | Iteration goes through increasing indices, so none comes twice. |
| `Subresources.VisitsAreExact` | src/d3d12translationlayer/SubresourceHelpers.cpp:497-530 | Iteration visits every member exactly once and nothing else. |
| `Subresources.NoSlicesStillVisits` | src/d3d12translationlayer/SubresourceHelpers.cpp:497-530 | An empty subset that is visited: one plane, no array slices. |
| `Subresources.VisitsExactlyWhen` | src/d3d12translationlayer/SubresourceHelpers.cpp:497-530 | Iteration visits exactly the members if and only if there is an array slice, or no mip level, or no plane. |
| `Subresources.StepsUndoEachOther` | src/d3d12translationlayer/SubresourceHelpers.cpp:517-548 | Stepping back undoes a step forward, and the other way round. |
| `Subresources.MinMaxAreTight` | src/d3d12translationlayer/SubresourceHelpers.cpp:479-488 | MinSubresource and MaxSubresource are the tightest bounds of the members. |
| `Subresources.CViewSubresourceSubset.constructor` | src/d3d12translationlayer/SubresourceHelpers.cpp:336-343 | A constructed subset has the members of its box and is whole exactly if the box is. |
| `Subresources.CViewSubresourceIterator.Increment` | src/d3d12translationlayer/SubresourceHelpers.cpp:517-530 | Moves to the next position, planes outside and array slices inside. |
| `Subresources.CViewSubresourceIterator.Decrement` | src/d3d12translationlayer/SubresourceHelpers.cpp:533-548 | Moves to the previous position. |
| `WorkGroups.SearchKeepsTiling` | src/openclon12/kernel_tasks.cpp:475-540 | Through the whole search, local size times groups is the global size in every dimension, the threads are the product of the local sizes and at most 1024, and no dimension exceeds its maximum. |
| `WorkGroups.SearchKeepsSearched` | src/openclon12/kernel_tasks.cpp:494-519 | No factor that a dimension stepped over divides the groups left in it, and a dimension that gave up ran into one of the limits; into that of the largest wave only from below the smallest one, and when one dispatch can launch its groups. |
| `WorkGroups.SearchFinishes` | src/openclon12/kernel_tasks.cpp:489-540 | The search stops only when the smallest wave is met exactly or the largest exceeded, with a dimension that one dispatch can launch, or every dimension is done. |
| `WorkGroups.SearchFitsWaves` | src/openclon12/kernel_tasks.cpp:476-538 | As long as one dispatch can launch all groups, a group does not exceed the largest wave, but for a last factor taken when the smallest wave was passed. |
| `WorkGroups.Pass` | src/openclon12/kernel_tasks.cpp:488-540 | A pass that makes progress leaves fewer groups, so the search ends. |
| `WorkGroups.PassIsOneRound` | src/openclon12/kernel_tasks.cpp:491-539 | In one pass every dimension takes at most one factor, the next one of the table that divides its groups, and if the search goes on every dimension that took none is done. |
| `WorkGroups.PartitionTiles` | src/openclon12/kernel_tasks.cpp:429-556 | Search and fallback together keep the tiling and the bound of 1024 threads; unused dimensions have local size 1. |
| `WorkGroups.FallbackKeepsTiling` | src/openclon12/kernel_tasks.cpp:542-555 | The fallback keeps the tiling and the bound of 1024 threads. |
| `WorkGroups.FallbackIsComplete` | src/openclon12/kernel_tasks.cpp:542-555 | The fallback takes nothing when there is a full wave, whole dimensions otherwise, and leaves none that could still be taken. |
| `WorkGroups.PartitionIsComplete` | src/openclon12/kernel_tasks.cpp:474-556 | In the end there is a full wave, or every dimension has a single group or too many for a group to take them. |
| `WorkGroups.MaximaHoldExactlyWhen` | src/openclon12/kernel_tasks.cpp:542-555 | The maxima of all dimensions are kept if and only if the fallback does not take a third dimension of more than 64 work items. |
| `WorkGroups.MaximaHoldIf` | src/openclon12/kernel_tasks.cpp:542-555 | The maxima are kept with fewer than three dimensions, with at most 64 or more than 1024 work items in the third, and with single-thread waves. |
| `WorkGroups.ThirdMaximumBreaks` | src/openclon12/kernel_tasks.cpp:474-555 | They are broken for every third dimension of 65 to 1024 work items without a factor up to 64, when the other dimensions are 1 and waves have several threads. |
| `WorkGroups.ThirdMaximumCanBreak` | src/openclon12/kernel_tasks.cpp:542-555 | An input whose third local size is 67. |
| `WorkGroups.OneHundredAndThreeIsMissed` | src/openclon12/kernel_tasks.cpp:481-485 | 103 * 103 work items are left in groups of one thread, where groups of 103 would have tiled them. |
| `WorkGroups.ChooseLocalSizes` | src/openclon12/kernel_tasks.cpp:474-555 | The loops, with their cursors, breaks and flags, compute the search and the fallback that the lemmas are about. |
| `WorkGroups.CheckLocalSizes` | src/openclon12/kernel_tasks.cpp:438-473 | The loop reports the first error in the order of the source. |
| `WorkGroups.AcceptedExactlyWhen` | src/openclon12/kernel_tasks.cpp:438-473 | Given or required sizes are accepted exactly if they agree, divide the global sizes and are within the maxima. |
| `WorkGroups.WorkItemErrorExactlyWhen` | src/openclon12/kernel_tasks.cpp:438-464 | CL_INVALID_WORK_ITEM_SIZE is reported exactly if the first dimension that is not acceptable is so only for its maximum. |
| `WorkGroups.AcceptedSizesTile` | src/openclon12/kernel_tasks.cpp:446-465 | Accepted sizes are used as they are and tile the ND-range. |
| `DispatchTiling.WriteChunks` | src/openclon12/kernel_tasks.cpp:163-193 | The k-th chunk holds the group offsets of the k-th iteration. |
| `DispatchTiling.RecordDispatches` | src/openclon12/kernel_tasks.cpp:756-776 | The k-th sub-dispatch reads the chunk written for its own iteration and launches the groups that are left of each dimension, up to the maximum. |
| `DispatchTiling.DispatchIsLegal` | src/openclon12/kernel_tasks.cpp:766-768 | Every extent is between 1 and 65535, and only groups of the ND-range are launched. |
| `DispatchTiling.EveryGroupExactlyOnce` | src/openclon12/kernel_tasks.cpp:756-776 | Every group of the ND-range is launched by exactly one sub-dispatch. |
| `Layout.Align` | include/d3d12translationlayer/Util.hpp:129-147 | The least multiple of the alignment that is not below the value. |
| `Layout.MaskingAligns` | include/d3d12translationlayer/Util.hpp:134-138 | For every power of two, the number whose bits are those of value + alignment - 1 with the low ones masked off is that multiple. |
| `Layout.MaskingWords` | include/d3d12translationlayer/Util.hpp:134-138 | On 64-bit words, the masking for the alignment 512 gives the next word with nine low zero bits. |
| `Layout.InitializeSubresourceDescs` | src/d3d12translationlayer/Resource.cpp:467-496 | The loops place the subresources one behind the other in array, plane, mip order, each at the next aligned offset. |
| `Layout.PlacedInOrder` | src/d3d12translationlayer/Resource.cpp:474-495 | A subresource ends before any later one in that order starts. |
| `Layout.PlacedTightly` | src/d3d12translationlayer/Resource.cpp:474-495 | A subresource starts at the least aligned offset behind the one before it. |
| `Layout.PositionsDiffer` | src/d3d12translationlayer/Resource.cpp:484-484 | No two positions in that order are the same subresource. |
| `Layout.LayoutIsSound` | src/d3d12translationlayer/Resource.cpp:590-596 | Any two subresources are disjoint in memory and 512-aligned, and GetResourceSize takes in the bytes of all of them. |
| `Layout.ResourceSizeIsLeast` | src/d3d12translationlayer/Resource.cpp:590-596 | GetResourceSize is the least size that takes in the bytes of all subresources. |
| `Layout.PositionIsArrayThenPlane` | include/d3d12translationlayer/SubresourceHelpers.hpp:71-74 | The order in memory is that of the array-then-plane index. |
| `Layout.LastIsLast` | src/d3d12translationlayer/Resource.cpp:592-592 | The last subresource of the plane-major numbering is the last one in memory as well. |
| `Copies.UploadDataToMappedBuffer` | src/d3d12translationlayer/ImmediateContext.cpp:830-859 | On both paths every byte of every row of every slice ends up in its place, and nothing behind the last row changes. |
| `Copies.OneCopyMovesRows` | src/d3d12translationlayer/ImmediateContext.cpp:842-851 | One copy of everything moves every row to its place if the pitches that matter agree. |
| `Copies.CellsConverted` | src/d3d12translationlayer/ImmediateContext.cpp:862-900 | The nested loops convert every cell once, from its old value, whatever the pitches. |
| `Copies.RestStays` | src/d3d12translationlayer/ImmediateContext.cpp:862-900 | Bytes that belong to no cell stay as they are. |
| `Copies.DepthStencilDeInterleavingUpload` | src/d3d12translationlayer/ImmediateContext.cpp:903-924 | Depth or stencil of every pixel goes to an image of its own, by the masks and shifts of the format. |
| `Copies.DepthStencilInterleavingReadback` | src/d3d12translationlayer/ImmediateContext.cpp:927-948 | Depth or stencil is added to every pixel. |
| `Copies.PlaneBytes` | src/d3d12translationlayer/ImmediateContext.cpp:903-924 | Which bytes of a pixel are its depth and its stencil. |
| `Copies.JoinedBytes` | src/d3d12translationlayer/ImmediateContext.cpp:927-938 | To which bytes of an R24G8 pixel depth and stencil are added. |
| `Copies.JoinedWord` | src/d3d12translationlayer/ImmediateContext.cpp:939-945 | Adding to an R32G8X24 pixel is a bitwise or of 64-bit words. |
| `Copies.DepthBits` | src/d3d12translationlayer/ImmediateContext.cpp:941-942 | It adds the depth to the low 32 bits and leaves the others. |
| `Copies.StencilBits` | src/d3d12translationlayer/ImmediateContext.cpp:943-944 | It adds the stencil to the eight bits above and leaves the others. |
| `Copies.SwapMovesColors` | src/d3d12translationlayer/ImmediateContext.cpp:951-960 | Red and blue of a 10-bit pixel change places, green and alpha stay. |
| `Copies.PixelRoundTrip` | src/d3d12translationlayer/ImmediateContext.cpp:903-948 | Taking a pixel apart and adding its parts to zeros restores all of an R24G8 pixel and the low 40 bits of an R32G8X24 one. |
| `Copies.ImageRoundTrip` | src/d3d12translationlayer/ImmediateContext.cpp:862-948 | So it is for every pixel of an image of any size and pitches. |
| `Copies.SwapIsItsOwnInverse` | src/d3d12translationlayer/ImmediateContext.cpp:951-960 | Swapping red and blue of a 10-bit pixel twice changes nothing. |

## Left out

- Paging.ResidencyManager.ProcessPagingWork: every EnqueueMakeResident call succeeds; after a failed call the source counts the objects of the batch as made resident although they are not, so neither exactly-once nor the end of the loop is claimed for that.
- Paging.ResidencyManager.ProcessPagingWork: budget, usage and grace period are inputs; querying the budget and the floating-point pressure formula are not modelled, nor is the GPU-side wait for the asynchronous fence.
- Residency.LRUCache.Evict: an object is pinned by its count or by a flag that says whether pin waits are pending; polling the fences of the waits is not modelled, so pins do not change during a call.
- Residency.InsertHeadList: a LIST_ENTRY is identified with the object that embeds it, and the list head with an object that is never tracked.
- Transitions.ResourceStateManager.ApplyAllResourceTransitions: the transition list is a sequence of resources rather than a ring of entries (the ring operations are in Residency.dfy), and recording the barriers into the command list is not modelled.
- ResourceRuns.GpuFollowsTracking: for resources without simultaneous access only; for the others the GPU promotes states on its own, and only the encodings and the fences are proved.
- CommandLists.CommandListManager.SubmitCommandListImpl: running the residency set and the notification after a submission are modelled in Paging.dfy, OnlineHeaps.dfy and Retirement.dfy, not called from here; the fallback in Retirement.dfy runs the notification after it.
- OnlineHeaps.OnlineDescriptorHeap.PostSubmitNotification: one heap only; the trim of the deletion queues is in Retirement.dfy, and that of the buffer pools is CFencePool.Trim.
- Retirement.DeferredDeletionQueueManager.ResourceAllocationFallback: one thread at a time; the branch for a sync point that other threads have moved is there, but nothing moves it.
- Transitions.ResourceStateManager.TransitionSubresources: indices that an empty subset visits outside the resource, where the source writes out of bounds.
- CommandLists.CommandListManager.PrepareNewCommandList: CBoundedFencePool::RetrieveFromPool is written out in its only caller.
- Mapping.WaitForFenceValue: blocking is seen by the fence value reached and by the flush count only; the model does not tell a wait from progress that the GPU makes meanwhile.
- RingBuffer.CFencedRingBuffer.Allocate: the ledger mask is a sequence of booleans rather than the bits of a word; fences are not decreasing, at least 1 and above the completed value, as the command list ID is.
- DescriptorHeaps.CDescriptorHeapManager.FreeHeapSlot: running out of memory, after which the source loses the slot, is not modelled.
- Layout.InitializeSubresourceDescs: footprint sizes (depth pitch times depth) are inputs; the format tables behind them are not modelled.
- Layout.Align: mathematical integers, on which MaskingAligns masks bits; on 64-bit words only the alignment 512 is looked at.
- Copies.UploadDataToMappedBuffer: at least one row and one slice; with none the source's size computation wraps.
- Copies.MemcpySubresource: the loops of this copy and of the two interleaving copies have the same shape and share one body, with the conversion of a cell as a parameter.
- DispatchTiling.WriteChunks: a chunk holds the group offsets, and positions in the buffer are counted in chunks; the other work properties and their bytes are written by the compiler, which is not part of this model.
- WorkGroups.ChooseLocalSizes: the four local arrays of the search are kept in one record.
- WorkGroups.CheckLocalSizes: local sizes are positive and global sizes fit into 32 bits; the checks before and after it (handles, offsets, arguments) are one-branch facts.
- 32- and 64-bit wrap-around of sizes, fence values and products: mathematical integers are used.
- Locks, device removal, COM errors and exceptions.
- D3D12, DXCore, GL and WGL calls, the scheduling of commands, the shader compiler, the buddy allocators, format conversion, images and samplers, printf decoding, caching of shaders.
