/**
 Whole runs: what the transitions of one resource, applied again and again, come to.
 */
module ResourceRuns {
  import opened Wrappers
  import opened ResourceStates
  import opened Transitions

  /** One round of transitions: the requests, the command list they are for, and whether the
      resource is treated as a whole. */
  datatype Step = Step(want: seq<SubresourceInfo>, fence: nat, atOnce: bool)

  /** The tracked states after the first n rounds. */
  ghost function TrackedAfter(simultaneous: bool, cur: seq<SubresourceState>, steps: seq<Step>,
      n: nat): (r: seq<SubresourceState>)
    requires n <= |steps| && forall i :: 0 <= i < |steps| ==> |steps[i].want| == |cur|
    ensures |r| == |cur|
  {
    if n == 0 then cur
    else
      NextUpTo(simultaneous, TrackedAfter(simultaneous, cur, steps, n - 1), steps[n - 1].want, steps[n - 1].fence,
               |cur|)
  }

  ghost function At(handle: nat, simultaneous: bool, cur: seq<SubresourceState>, steps: seq<Step>, n: nat): Pending
    requires n < |steps| && forall i :: 0 <= i < |steps| ==> |steps[i].want| == |cur|
  {
    Pending(handle, simultaneous, steps[n].atOnce, TrackedAfter(simultaneous, cur, steps, n), steps[n].want)
  }

  /** A run as the manager makes it: the fast path only where both encodings allow it, and
      command lists in order. */
  ghost predicate IsRun(simultaneous: bool, cur: seq<SubresourceState>, steps: seq<Step>) {
    && cur != [] && (forall i :: 0 <= i < |steps| ==> |steps[i].want| == |cur|)
    && (forall i :: 0 <= i < |steps| ==> Sound(At(0, simultaneous, cur, steps, i)))
    && (forall i :: 0 < i < |steps| ==> steps[i - 1].fence <= steps[i].fence)
  }

  /** All barriers of the first n rounds. */
  ghost function EmittedUpTo(handle: nat, simultaneous: bool, cur: seq<SubresourceState>, steps: seq<Step>,
      n: nat): seq<Barrier>
    requires IsRun(simultaneous, cur, steps) && n <= |steps|
  {
    if n == 0 then []
    else
      EmittedUpTo(handle, simultaneous, cur, steps, n - 1)
      + BarriersOf(At(0, simultaneous, cur, steps, n - 1).(handle := handle), steps[n - 1].fence)
  }

  /** Without simultaneous access, the barriers of a whole run always find the states they
      expect on the GPU, and leave the states that are tracked. */
  lemma {:induction false} GpuFollowsTracking(handle: nat, cur: seq<SubresourceState>, steps: seq<Step>, n: nat)
    requires IsRun(false, cur, steps) && n <= |steps|
    ensures Replay(StatesOf(cur), handle, EmittedUpTo(handle, false, cur, steps, n))
      == Some(StatesOf(TrackedAfter(false, cur, steps, n)))
  {
    if n > 0 {
      var p := At(0, false, cur, steps, n - 1).(handle := handle);
      assert Sound(At(0, false, cur, steps, n - 1));
      GpuFollowsTracking(handle, cur, steps, n - 1);
      OwnReplay(p, steps[n - 1].fence);
      ReplayThen(StatesOf(cur), StatesOf(p.cur), handle, EmittedUpTo(handle, false, cur, steps, n - 1),
                 BarriersOf(p, steps[n - 1].fence));
    }
  }

  /** The request of a round makes its command list a user of a subresource. */
  ghost predicate Uses(simultaneous: bool, cur: seq<SubresourceState>, steps: seq<Step>, j: nat, i: nat)
    requires IsRun(simultaneous, cur, steps) && j < |steps| && i < |cur|
  {
    IsUse(simultaneous, TrackedAfter(simultaneous, cur, steps, j)[i], steps[j].want[i], steps[j].fence)
  }

  ghost predicate Writes(steps: seq<Step>, j: nat, i: nat)
    requires j < |steps| && i < |steps[j].want|
  {
    IsD3D12WriteState(steps[j].want[i].State, steps[j].want[i].Flags)
  }

  lemma {:induction false} FencesStayOrdered(simultaneous: bool, cur: seq<SubresourceState>, steps: seq<Step>, n: nat,
      i: nat)
    requires IsRun(simultaneous, cur, steps) && n <= |steps| && i < |cur| && cur[i] == SubresourceState(0, 0, 0)
    ensures FencesOrdered(TrackedAfter(simultaneous, cur, steps, n)[i], if n == 0 then 0 else steps[n - 1].fence)
  {
    if n > 0 {
      FencesStayOrdered(simultaneous, cur, steps, n - 1, i);
      UsesAreCovered(simultaneous, TrackedAfter(simultaneous, cur, steps, n - 1)[i], steps[n - 1].want[i],
                     steps[n - 1].fence);
    }
  }

  /** Over a whole run, the tracked fences are in order and cover every use there has been:
      no use is later than the read fence, no write later than the write fence. */
  lemma {:induction false} EveryUseIsCovered(simultaneous: bool, cur: seq<SubresourceState>, steps: seq<Step>, n: nat,
      j: nat, i: nat)
    requires IsRun(simultaneous, cur, steps) && j < n <= |steps| && i < |cur| && cur[i] == SubresourceState(0, 0, 0)
    requires Uses(simultaneous, cur, steps, j, i)
    ensures Covers(TrackedAfter(simultaneous, cur, steps, n)[i], steps[j].fence, Writes(steps, j, i))
  {
    var before := TrackedAfter(simultaneous, cur, steps, n - 1)[i];
    FencesStayOrdered(simultaneous, cur, steps, n - 1, i);
    UsesAreCovered(simultaneous, before, steps[n - 1].want[i], steps[n - 1].fence);
    if j < n - 1 {
      EveryUseIsCovered(simultaneous, cur, steps, n - 1, j, i);
      assert Covers(before, steps[j].fence, Writes(steps, j, i));
    }
  }
}
