/**
 The manager that turns requested states into barriers: ResourceStateManager of
 include/d3d12translationlayer/ResourceState.hpp and
 src/d3d12translationlayer/ResourceState.cpp.
 */
module Transitions {
  import opened Wrappers
  import opened ResourceStates
  import opened StateTracking
  import opened Subresources

  class Resource {
    const handle: nat
    const NumSubresources: nat
    const m_DesiredState: CDesiredResourceState
    const m_currentState: CCurrentResourceState

    ghost predicate Valid()
      reads m_DesiredState, m_DesiredState.m_spSubresourceInfo, m_currentState, m_currentState.m_spSubresourceState
    {
      && m_DesiredState.Valid() && m_currentState.Valid()
      && m_DesiredState.m_spSubresourceInfo.Length == NumSubresources
      && m_currentState.m_spSubresourceState.Length == NumSubresources
    }

    ghost function Snapshot(): (p: Pending)
      requires Valid()
      reads m_DesiredState, m_DesiredState.m_spSubresourceInfo, m_currentState, m_currentState.m_spSubresourceState
      ensures Sound(p) && |p.cur| == NumSubresources && p.handle == handle
    {
      Pending(handle, m_currentState.m_bSimultaneousAccess,
              m_currentState.m_bAllSubresourcesSame && m_DesiredState.m_bAllSubresourcesSame,
              m_currentState.Map, m_DesiredState.Map)
    }

    /** The transitions find the resource as p, or have found it so and been applied. */
    ghost predicate HasReached(p: Pending, applied: bool, fence: nat)
      reads m_DesiredState, m_DesiredState.m_spSubresourceInfo, m_currentState, m_currentState.m_spSubresourceState
    {
      && Valid() && Sound(p) && p.handle == handle
      && (applied ==> m_currentState.Map == AppliedTo(p, fence))
      && (applied ==> m_DesiredState.Map == Fill(NumSubresources, NOTHING_REQUESTED))
      && (!applied ==> Snapshot() == p)
    }

    constructor (handle: nat, numSubresources: nat, simultaneousAccess: bool)
      requires numSubresources > 0
      ensures Valid() && this.handle == handle && NumSubresources == numSubresources
      ensures fresh(m_DesiredState) && fresh(m_DesiredState.m_spSubresourceInfo)
      ensures fresh(m_currentState) && fresh(m_currentState.m_spSubresourceState)
      ensures m_currentState.m_bSimultaneousAccess == simultaneousAccess
    {
      this.handle, NumSubresources := handle, numSubresources;
      m_DesiredState := new CDesiredResourceState(numSubresources);
      m_currentState := new CCurrentResourceState(numSubresources, simultaneousAccess);
    }
  }

  /** The new barriers for a resource: one for all subresources, or one by one. */
  ghost function NewBarriers(resource: nat, atOnce: bool, simultaneous: bool, cur: seq<SubresourceState>,
      want: seq<SubresourceInfo>, fence: nat): seq<Barrier>
    requires |cur| == |want| > 0
  {
    if atOnce then BarrierFor(resource, None, Process(simultaneous, cur[0], want[0], fence))
    else BarriersUpTo(resource, simultaneous, cur, want, fence, |cur|)
  }

  /** What the loop over the subresources has come to after i rounds: the tracked states and
      the new barriers. */
  datatype LoopState = LoopState(states: seq<SubresourceState>, barriers: seq<Barrier>)

  ghost function Rounds(resource: nat, atOnce: bool, simultaneous: bool, cur: seq<SubresourceState>,
      want: seq<SubresourceInfo>, fence: nat, i: nat): (r: LoopState)
    requires i <= |cur| == |want|
    ensures |r.states| == |cur|
  {
    if i == 0 then LoopState(cur, [])
    else
      Round(resource, atOnce, simultaneous, Rounds(resource, atOnce, simultaneous, cur, want, fence, i - 1),
            want[i - 1],
            fence, i - 1)
  }

  ghost function Round(resource: nat, atOnce: bool, simultaneous: bool, l: LoopState, want: SubresourceInfo, fence: nat,
      i: nat): (r: LoopState)
    requires i < |l.states|
    ensures |r.states| == |l.states|
  {
    var o := Process(simultaneous, l.states[i], want, fence);
    LoopState(if atOnce then Fill(|l.states|, o.next) else l.states[i := o.next],
              l.barriers + BarrierFor(resource, if atOnce then None else Some(i), o))
  }

  lemma {:induction false} OneByOneRounds(resource: nat, simultaneous: bool, cur: seq<SubresourceState>,
      want: seq<SubresourceInfo>, fence: nat, i: nat)
    requires i <= |cur| == |want|
    ensures Rounds(resource, false, simultaneous, cur, want, fence, i)
      == LoopState(NextUpTo(simultaneous, cur, want, fence, i) + cur[i..],
                   BarriersUpTo(resource, simultaneous, cur, want, fence, i))
  {
    if i == 0 {
      assert NextUpTo(simultaneous, cur, want, fence, 0) + cur[0..] == cur;
    } else {
      var before := Rounds(resource, false, simultaneous, cur, want, fence, i - 1);
      OneByOneRounds(resource, simultaneous, cur, want, fence, i - 1);
      OneByOneRound(before, resource, simultaneous, cur, want, fence, i - 1);
      assert Rounds(resource, false, simultaneous, cur, want, fence, i)
        == Round(resource, false, simultaneous, before, want[i - 1], fence, i - 1);
    }
  }

  lemma OneByOneRound(l: LoopState, resource: nat, simultaneous: bool, cur: seq<SubresourceState>,
      want: seq<SubresourceInfo>, fence: nat, i: nat)
    requires i < |cur| == |want|
    requires l.states == NextUpTo(simultaneous, cur, want, fence, i) + cur[i..]
    requires l.barriers == BarriersUpTo(resource, simultaneous, cur, want, fence, i)
    ensures Round(resource, false, simultaneous, l, want[i], fence, i)
      == LoopState(NextUpTo(simultaneous, cur, want, fence, i + 1) + cur[i + 1..],
                   BarriersUpTo(resource, simultaneous, cur, want, fence, i + 1))
  {
    OneByOneStates(simultaneous, cur, want, fence, i);
  }

  lemma OneByOneStates(simultaneous: bool, cur: seq<SubresourceState>, want: seq<SubresourceInfo>, fence: nat, i: nat)
    requires i < |cur| == |want|
    ensures var s := NextUpTo(simultaneous, cur, want, fence, i) + cur[i..];
      s[i] == cur[i]
      && s[i := Process(simultaneous, cur[i], want[i], fence).next]
        == NextUpTo(simultaneous, cur, want, fence, i + 1) + cur[i + 1..]
  {
  }

  /** In the end every subresource is left in its new state, with or without the fast path. */
  lemma AllRounds(resource: nat, atOnce: bool, simultaneous: bool, cur: seq<SubresourceState>,
      want: seq<SubresourceInfo>, fence: nat)
    requires |cur| == |want| > 0
    requires atOnce ==> AllSame(cur) && AllSame(want)
    ensures Rounds(resource, atOnce, simultaneous, cur, want, fence, if atOnce then 1 else |cur|)
      == LoopState(NextUpTo(simultaneous, cur, want, fence, |cur|),
                   NewBarriers(resource, atOnce, simultaneous, cur, want, fence))
  {
    if atOnce {
      var none := Rounds(resource, atOnce, simultaneous, cur, want, fence, 0);
      var one := Rounds(resource, atOnce, simultaneous, cur, want, fence, 1);
      assert none == LoopState(cur, []);
      assert one == Round(resource, atOnce, simultaneous, none, want[0], fence, 0);
      assert one.states == NextUpTo(simultaneous, cur, want, fence, |cur|);
    } else {
      OneByOneRounds(resource, simultaneous, cur, want, fence, |cur|);
      var next := NextUpTo(simultaneous, cur, want, fence, |cur|);
      assert next + cur[|cur|..] == next;
    }
  }

  /** The state that the request on one subresource leads to, and whether that takes a
      barrier. */
  method DecideState(simultaneous: bool, state: SubresourceState, info: SubresourceInfo, fence: nat)
    returns (after: State, barrier: bool)
    requires info.State != UNKNOWN
    ensures after == After(simultaneous, state, info, fence)
    ensures barrier ==
      ((!simultaneous || fence == state.WriteFenceValue)
       && TransitionRequired(state.State, info.State, info.Flags).required)
    ensures barrier ==> after == TransitionRequired(state.State, info.State, info.Flags).after
  {
    after, barrier := info.State, false;
    if !simultaneous || fence == state.WriteFenceValue {
      var t := TransitionRequired(state.State, after, info.Flags);
      after, barrier := t.after, t.required;
    } else if fence == state.ReadFenceValue {
      after := after | state.State;
    }
  }

  /** What the request on one subresource comes to: the state it ends up in, whether that
      takes a barrier, and whether the command list counts as using it. */
  method Decide(simultaneous: bool, state: SubresourceState, info: SubresourceInfo, fence: nat)
    returns (after: State, barrier: bool, used: bool, next: SubresourceState)
    requires info.State != UNKNOWN
    ensures var o := Process(simultaneous, state, info, fence);
      && o == Outcome(next, if barrier then Some((state.State, after)) else None, used)
  {
    after, barrier := DecideState(simultaneous, state, info, fence);
    used := (info.Flags & NOT_USED_IF_NO_STATE_CHANGE) == 0 || barrier;
    next := if used then Touched(state, after, info.Flags, fence) else state;
  }

  // ---------------------------------------------------------------------------------
  // All pending resources
  // ---------------------------------------------------------------------------------

  /** A resource as its transitions find it. */
  datatype Pending = Pending(handle: nat, simultaneous: bool, atOnce: bool, cur: seq<SubresourceState>,
                             want: seq<SubresourceInfo>)

  ghost predicate Sound(p: Pending) {
    |p.cur| == |p.want| > 0 && (p.atOnce ==> AllSame(p.cur) && AllSame(p.want))
  }

  ghost predicate AllSound(ps: seq<Pending>) {
    forall i :: 0 <= i < |ps| ==> Sound(ps[i])
  }

  ghost function BarriersOf(p: Pending, fence: nat): seq<Barrier>
    requires Sound(p)
  {
    NewBarriers(p.handle, p.atOnce, p.simultaneous, p.cur, p.want, fence)
  }

  ghost function AppliedTo(p: Pending, fence: nat): seq<SubresourceState>
    requires Sound(p)
  {
    NextUpTo(p.simultaneous, p.cur, p.want, fence, |p.cur|)
  }

  /** The barriers for the first n pending resources. */
  ghost function AllBarriersUpTo(ps: seq<Pending>, fence: nat, n: nat): seq<Barrier>
    requires n <= |ps| && AllSound(ps)
  {
    if n == 0 then [] else AllBarriersUpTo(ps, fence, n - 1) + BarriersOf(ps[n - 1], fence)
  }

  ghost predicate AllFor(bs: seq<Barrier>, resource: nat) {
    forall i :: 0 <= i < |bs| ==> bs[i].resource == resource
  }

  lemma {:induction false} OneByOneIsOwn(resource: nat, simultaneous: bool, cur: seq<SubresourceState>,
      want: seq<SubresourceInfo>, fence: nat, n: nat)
    requires n <= |cur| == |want|
    ensures AllFor(BarriersUpTo(resource, simultaneous, cur, want, fence, n), resource)
  {
    if n > 0 {
      OneByOneIsOwn(resource, simultaneous, cur, want, fence, n - 1);
    }
  }

  ghost predicate NoneFor(bs: seq<Barrier>, resource: nat) {
    forall i :: 0 <= i < |bs| ==> bs[i].resource != resource
  }

  /** Barriers for other resources leave a resource as it is. */
  lemma {:induction false} ForeignReplay(gpu: seq<State>, resource: nat, bs: seq<Barrier>, n: nat)
    requires NoneFor(bs, resource) && n <= |bs|
    ensures ReplayUpTo(gpu, resource, bs, n) == Some(gpu)
  {
    if n > 0 {
      ForeignReplay(gpu, resource, bs, n - 1);
    }
  }

  lemma OwnReplay(p: Pending, fence: nat)
    requires Sound(p) && !p.simultaneous
    ensures Replay(StatesOf(p.cur), p.handle, BarriersOf(p, fence)) == Some(StatesOf(AppliedTo(p, fence)))
  {
    if p.atOnce {
      AllAtOnceReplays(p.handle, p.cur, p.want, fence);
    } else {
      OneByOneReplays(p.handle, p.cur, p.want, fence, |p.cur|);
      var next := AppliedTo(p, fence);
      assert next + p.cur[|p.cur|..] == next;
    }
  }

  lemma OtherReplay(gpu: seq<State>, resource: nat, p: Pending, fence: nat)
    requires Sound(p) && p.handle != resource
    ensures Replay(gpu, resource, BarriersOf(p, fence)) == Some(gpu)
  {
    BarriersAreOwn(p, fence);
    ForeignReplay(gpu, resource, BarriersOf(p, fence), |BarriersOf(p, fence)|);
  }

  lemma BarriersAreOwn(p: Pending, fence: nat)
    requires Sound(p)
    ensures AllFor(BarriersOf(p, fence), p.handle)
  {
    OneByOneIsOwn(p.handle, p.simultaneous, p.cur, p.want, fence, |p.cur|);
  }

  /** None of the resources from the k-th to before the n-th has the handle. */
  ghost predicate OthersFrom(ps: seq<Pending>, resource: nat, k: nat, n: nat)
    requires n <= |ps|
  {
    forall i :: k <= i < n ==> ps[i].handle != resource
  }

  lemma {:induction false} NoneForOthers(resource: nat, ps: seq<Pending>, fence: nat, n: nat)
    requires n <= |ps| && AllSound(ps) && OthersFrom(ps, resource, 0, n)
    ensures NoneFor(AllBarriersUpTo(ps, fence, n), resource)
  {
    if n > 0 {
      NoneForOthers(resource, ps, fence, n - 1);
      BarriersAreOwn(ps[n - 1], fence);
    }
  }

  /** The barriers for all pending resources leave every other resource as it is. */
  lemma OthersReplay(gpu: seq<State>, resource: nat, ps: seq<Pending>, fence: nat, n: nat)
    requires n <= |ps| && AllSound(ps) && OthersFrom(ps, resource, 0, n)
    ensures Replay(gpu, resource, AllBarriersUpTo(ps, fence, n)) == Some(gpu)
  {
    NoneForOthers(resource, ps, fence, n);
    ForeignReplay(gpu, resource, AllBarriersUpTo(ps, fence, n), |AllBarriersUpTo(ps, fence, n)|);
  }

  ghost predicate OnlyOneWith(ps: seq<Pending>, resource: nat, k: nat)
    requires k < |ps|
  {
    ps[k].handle == resource && forall i :: 0 <= i < |ps| && i != k ==> ps[i].handle != resource
  }

  /** The barriers of a resource follow others that leave it alone. */
  lemma ReachedReplay(ps: seq<Pending>, resource: nat, fence: nat, k: nat)
    requires k < |ps| && AllSound(ps) && OnlyOneWith(ps, resource, k) && !ps[k].simultaneous
    ensures Replay(StatesOf(ps[k].cur), resource, AllBarriersUpTo(ps, fence, k + 1))
      == Some(StatesOf(AppliedTo(ps[k], fence)))
  {
    var before, after := StatesOf(ps[k].cur), StatesOf(AppliedTo(ps[k], fence));
    OthersReplay(before, resource, ps, fence, k);
    OwnReplay(ps[k], fence);
    NextReplay(before, before, after, resource, ps, fence, k + 1);
  }

  /** The barriers for the first n resources take a resource from one state to another. */
  ghost predicate Leads(before: seq<State>, after: seq<State>, resource: nat, ps: seq<Pending>, fence: nat, n: nat)
    requires n <= |ps| && AllSound(ps)
  {
    Replay(before, resource, AllBarriersUpTo(ps, fence, n)) == Some(after)
  }

  /** The barriers of other resources that follow change nothing. */
  lemma {:induction false} LaterReplay(before: seq<State>, after: seq<State>, resource: nat, ps: seq<Pending>,
      fence: nat, k: nat, n: nat)
    requires k <= n <= |ps| && AllSound(ps) && OthersFrom(ps, resource, k, n)
    requires Leads(before, after, resource, ps, fence, k)
    ensures Leads(before, after, resource, ps, fence, n)
  {
    if k < n {
      LaterReplay(before, after, resource, ps, fence, k, n - 1);
      StillReplay(before, after, resource, ps, fence, n);
    }
  }

  lemma StillReplay(before: seq<State>, after: seq<State>, resource: nat, ps: seq<Pending>, fence: nat, n: nat)
    requires 0 < n <= |ps| && AllSound(ps) && ps[n - 1].handle != resource
    requires Leads(before, after, resource, ps, fence, n - 1)
    ensures Leads(before, after, resource, ps, fence, n)
  {
    OtherReplay(after, resource, ps[n - 1], fence);
    NextReplay(before, after, after, resource, ps, fence, n);
  }

  /** The barriers for all pending resources find each of them in its tracked states and
      leave it in its new ones. */
  lemma AllReplay(ps: seq<Pending>, resource: nat, fence: nat, k: nat)
    requires k < |ps| && AllSound(ps) && OnlyOneWith(ps, resource, k) && !ps[k].simultaneous
    ensures Replay(StatesOf(ps[k].cur), resource, AllBarriersUpTo(ps, fence, |ps|))
      == Some(StatesOf(AppliedTo(ps[k], fence)))
  {
    var before, after := StatesOf(ps[k].cur), StatesOf(AppliedTo(ps[k], fence));
    ReachedReplay(ps, resource, fence, k);
    LaterReplay(before, after, resource, ps, fence, k + 1, |ps|);
  }

  lemma NextReplay(before: seq<State>, mid: seq<State>, after: seq<State>, resource: nat, ps: seq<Pending>, fence: nat,
      n: nat)
    requires 0 < n <= |ps| && AllSound(ps)
    requires Replay(before, resource, AllBarriersUpTo(ps, fence, n - 1)) == Some(mid)
    requires Replay(mid, resource, BarriersOf(ps[n - 1], fence)) == Some(after)
    ensures Replay(before, resource, AllBarriersUpTo(ps, fence, n)) == Some(after)
  {
    ReplayThen(before, mid, resource, AllBarriersUpTo(ps, fence, n - 1), BarriersOf(ps[n - 1], fence));
  }

  /** Two resources share neither their handle nor their states. */
  ghost predicate Separate(a: Resource, b: Resource) {
    && a.handle != b.handle
    && a.m_DesiredState != b.m_DesiredState
    && a.m_DesiredState.m_spSubresourceInfo != b.m_DesiredState.m_spSubresourceInfo
    && a.m_currentState != b.m_currentState
    && a.m_currentState.m_spSubresourceState != b.m_currentState.m_spSubresourceState
  }

  /** A resource enters the list at its head, and only if it is not there. */
  ghost function WithPending(rs: seq<Resource>, r: Resource): seq<Resource> {
    if r in rs then rs else [r] + rs
  }

  /** A resource that is in the list already, or shares nothing with those that are. */
  ghost predicate MayJoin(rs: seq<Resource>, r: Resource) {
    r in rs || forall i :: 0 <= i < |rs| ==> Separate(r, rs[i])
  }

  ghost predicate AllSeparate(rs: seq<Resource>) {
    forall i, j :: 0 <= i < j < |rs| ==> Separate(rs[i], rs[j])
  }

  /** The first n resources have had their transitions applied, the others not yet. */
  ghost predicate HaveReached(rs: seq<Resource>, ps: seq<Pending>, n: nat, fence: nat)
    requires |rs| == |ps|
    reads Footprint(rs)
  {
    forall i :: 0 <= i < |rs| ==> rs[i].HasReached(ps[i], i < n, fence)
  }

  /** Replaying the barriers on the states the resources had on the GPU finds every state a
      barrier expects, and leads to the states tracked now. */
  ghost predicate GpuAgrees(rs: seq<Resource>, ps: seq<Pending>, bs: seq<Barrier>)
    requires |rs| == |ps|
    reads Footprint(rs)
  {
    forall i :: 0 <= i < |rs| && !ps[i].simultaneous ==>
      Replay(StatesOf(ps[i].cur), rs[i].handle, bs) == Some(StatesOf(rs[i].m_currentState.Map))
  }

  /** So it is once all transitions have been applied; resources that were not pending stay
      in their states. */
  lemma BarriersFitTheGpu(rs: seq<Resource>, ps: seq<Pending>, fence: nat)
    requires |rs| == |ps| && AllSeparate(rs) && HaveReached(rs, ps, |ps|, fence)
    ensures AllSound(ps) && GpuAgrees(rs, ps, AllBarriersUpTo(ps, fence, |ps|))
    ensures forall gpu, other: nat :: (forall i :: 0 <= i < |rs| ==> rs[i].handle != other) ==>
      Replay(gpu, other, AllBarriersUpTo(ps, fence, |ps|)) == Some(gpu)
  {
    assert forall i :: 0 <= i < |rs| ==> rs[i].HasReached(ps[i], true, fence);
    forall i | 0 <= i < |rs| && !ps[i].simultaneous
      ensures Replay(StatesOf(ps[i].cur), rs[i].handle, AllBarriersUpTo(ps, fence, |ps|))
        == Some(StatesOf(rs[i].m_currentState.Map))
    {
      assert forall j :: 0 <= j < |rs| && j != i ==> if i < j then Separate(rs[i], rs[j]) else Separate(rs[j], rs[i]);
      AllReplay(ps, rs[i].handle, fence, i);
    }
    forall gpu, other: nat | forall i :: 0 <= i < |rs| ==> rs[i].handle != other
      ensures Replay(gpu, other, AllBarriersUpTo(ps, fence, |ps|)) == Some(gpu)
    {
      OthersReplay(gpu, other, ps, fence, |ps|);
    }
  }

  /** Every requested subresource has all the bits requested, exactly those if an exact match
      was requested, and every other one is as it was. */
  lemma AppliedMeetsRequests(p: Pending, fence: nat, i: nat)
    requires Sound(p) && !p.simultaneous && i < |p.cur|
    ensures p.want[i].State == UNKNOWN ==> AppliedTo(p, fence)[i] == p.cur[i]
    ensures p.want[i].State != UNKNOWN ==> Contains(AppliedTo(p, fence)[i].State, p.want[i].State)
    ensures p.want[i].State != UNKNOWN && (p.want[i].Flags & STATE_MATCH_EXACT) != 0 ==>
      AppliedTo(p, fence)[i].State == p.want[i].State
  {
    if p.want[i].State != UNKNOWN {
      RequestIsMet(p.cur[i], p.want[i], fence);
    }
  }

  /** After applying, exactly the subresources that are used carry the fence of the command
      list, those left in a write state as their write fence too; the others are unchanged. */
  lemma AppliedRecordsUses(p: Pending, fence: nat, i: nat)
    requires Sound(p) && i < |p.cur|
    ensures var next := AppliedTo(p, fence)[i];
      if IsUse(p.simultaneous, p.cur[i], p.want[i], fence) then
        && next.ReadFenceValue == fence
        && next.WriteFenceValue
           == if IsD3D12WriteState(next.State, p.want[i].Flags) then fence else p.cur[i].WriteFenceValue
      else next == p.cur[i]
  {
    RecordedExactlyWhen(p.simultaneous, p.cur[i], p.want[i], fence);
  }

  ghost function Footprint(rs: seq<Resource>): set<object> {
    (set r | r in rs :: r.m_DesiredState) + (set r | r in rs :: r.m_DesiredState.m_spSubresourceInfo)
    + (set r | r in rs :: r.m_currentState) + (set r | r in rs :: r.m_currentState.m_spSubresourceState)
  }

  lemma ReachedAreSound(rs: seq<Resource>, ps: seq<Pending>, fence: nat)
    requires |rs| == |ps| && HaveReached(rs, ps, 0, fence)
    ensures AllSound(ps)
  {
    assert forall i :: 0 <= i < |rs| ==> rs[i].HasReached(ps[i], i < 0, fence);
  }

  class ResourceStateManager {
    // The resources whose list entries are in the transition list.
    var m_TransitionList: seq<Resource>
    var m_vResourceBarriers: seq<Barrier>

    ghost predicate Valid()
      reads this
    {
      AllSeparate(m_TransitionList)
    }

    constructor ()
      ensures Valid() && m_TransitionList == [] && m_vResourceBarriers == []
    {
      m_TransitionList, m_vResourceBarriers := [], [];
    }

    predicate IsTransitionPending(r: Resource)
      reads this
    {
      r in m_TransitionList
    }

    method EnsurePending(r: Resource)
      requires Valid() && MayJoin(m_TransitionList, r)
      modifies this`m_TransitionList
      ensures Valid() && IsTransitionPending(r)
      ensures m_TransitionList == WithPending(old(m_TransitionList), r)
    {
      if !IsTransitionPending(r) {
        m_TransitionList := [r] + m_TransitionList;
      }
    }

    /** Requests a state for the whole resource. */
    method TransitionResource(r: Resource, info: SubresourceInfo)
      requires Valid() && r.Valid() && MayJoin(m_TransitionList, r)
      modifies this`m_TransitionList, r.m_DesiredState, r.m_DesiredState.m_spSubresourceInfo
      ensures Valid() && IsTransitionPending(r) && r.Valid() && r.m_DesiredState.Map == Fill(r.NumSubresources, info)
      ensures m_TransitionList == WithPending(old(m_TransitionList), r)
    {
      r.m_DesiredState.SetResourceState(info);
      EnsurePending(r);
    }

    /** Requests a state for one subresource; a resource with one takes any index for it. */
    method TransitionSubresource(r: Resource, subresourceIndex: nat, info: SubresourceInfo)
      requires Valid() && r.Valid() && MayJoin(m_TransitionList, r)
      requires subresourceIndex < r.NumSubresources || r.NumSubresources == 1
      modifies this`m_TransitionList, r.m_DesiredState, r.m_DesiredState.m_spSubresourceInfo
      ensures Valid() && IsTransitionPending(r) && r.Valid()
      ensures |old(r.m_DesiredState.Map)| == r.NumSubresources
      ensures r.m_DesiredState.Map
        == old(r.m_DesiredState.Map)[(if r.NumSubresources == 1 then 0 else subresourceIndex) := info]
      ensures m_TransitionList == WithPending(old(m_TransitionList), r)
    {
      r.m_DesiredState.SetSubresourceState(subresourceIndex, info);
      EnsurePending(r);
    }

    method SetRange(r: Resource, first: nat, last: nat, info: SubresourceInfo)
      requires r.Valid() && (first < last ==> last <= r.NumSubresources)
      modifies r.m_DesiredState, r.m_DesiredState.m_spSubresourceInfo
      ensures r.Valid() && |old(r.m_DesiredState.Map)| == r.NumSubresources
      ensures forall k :: 0 <= k < r.NumSubresources ==>
        r.m_DesiredState.Map[k] == if first <= k < last then info else old(r.m_DesiredState.Map)[k]
    {
      var i := first;
      while i < last
        modifies r.m_DesiredState, r.m_DesiredState.m_spSubresourceInfo
        invariant r.Valid() && first <= i && (if first < last then i <= last else i == first)
        invariant forall k :: 0 <= k < r.NumSubresources ==>
          r.m_DesiredState.Map[k] == if first <= k < i then info else old(r.m_DesiredState.Map)[k]
      {
        r.m_DesiredState.SetSubresourceState(i, info);
        i := i + 1;
      }
      assert i == if first < last then last else first;
    }

    /** Range by range, every visited subresource gets the request and no other one does. */
    method SetRanges(r: Resource, subresources: CViewSubresourceSubset, info: SubresourceInfo)
      requires r.Valid() && subresources.m_BeginArray <= subresources.m_EndArray
      requires subresources.m_BeginPlane <= subresources.m_EndPlane
      requires forall k :: k in Visits(subresources.Value()) ==> k < r.NumSubresources
      modifies r.m_DesiredState, r.m_DesiredState.m_spSubresourceInfo
      ensures r.Valid() && |old(r.m_DesiredState.Map)| == r.NumSubresources
      ensures forall k :: 0 <= k < r.NumSubresources ==>
        r.m_DesiredState.Map[k] == if k in Visits(subresources.Value()) then info else old(r.m_DesiredState.Map)[k]
    {
      ghost var s := subresources.Value();
      ghost var done := [];
      var it := new CViewSubresourceIterator(subresources, subresources.m_BeginArray, subresources.m_BeginPlane);
      while !(it.m_CurrentArraySlice == subresources.m_BeginArray && it.m_CurrentPlaneSlice == subresources.m_EndPlane)
        modifies it, r.m_DesiredState, r.m_DesiredState.m_spSubresourceInfo
        invariant r.Valid() && it.m_Subresources == subresources
        invariant s.BeginArray <= it.m_CurrentArraySlice <= s.EndArray
        invariant it.m_CurrentArraySlice < s.EndArray || it.m_CurrentArraySlice == s.BeginArray
        invariant s.BeginPlane <= it.m_CurrentPlaneSlice <= s.EndPlane
        invariant it.m_CurrentPlaneSlice == s.EndPlane ==> it.m_CurrentArraySlice == s.BeginArray
        invariant done + VisitsFrom(s, it.m_CurrentArraySlice, it.m_CurrentPlaneSlice) == Visits(s)
        invariant forall k :: 0 <= k < r.NumSubresources ==>
          r.m_DesiredState.Map[k] == if k in done then info else old(r.m_DesiredState.Map)[k]
        decreases s.EndPlane - it.m_CurrentPlaneSlice, s.EndArray - it.m_CurrentArraySlice
      {
        ghost var a, p := it.m_CurrentArraySlice, it.m_CurrentPlaneSlice;
        var first := Start(subresources.Value(), it.m_CurrentArraySlice, it.m_CurrentPlaneSlice);
        var last := End(subresources.Value(), it.m_CurrentArraySlice, it.m_CurrentPlaneSlice);
        RowFits(s, a, p, done, r.NumSubresources);
        SetRange(r, first, last, info);
        it.Increment();
        VisitsStep(s, a, p, done);
        forall k: nat ensures k in done + Range(first, last) <==> k in done || first <= k < last {
          MembersOfBoth(done, first, last, k);
        }
        done := done + Range(first, last);
      }
    }

    /** Requests a state for a subset of the subresources, at once if it is the whole
        resource. Either way, exactly the members of the subset get the request, unless it has
        no array slices: then those do that the iteration visits all the same, which must not
        lie outside the resource. */
    method TransitionSubresources(r: Resource, subresources: CViewSubresourceSubset, info: SubresourceInfo,
        ghost box: Subset)
      requires Valid() && r.Valid() && MayJoin(m_TransitionList, r)
      requires InBounds(box) && Total(box) == r.NumSubresources
      requires subresources.Value() == if Reducible(box) then Reduced(box) else box
      requires box.BeginArray < box.EndArray || forall k :: k in Visits(subresources.Value()) ==> k < r.NumSubresources
      modifies this`m_TransitionList, r.m_DesiredState, r.m_DesiredState.m_spSubresourceInfo
      ensures Valid() && IsTransitionPending(r) && r.Valid() && |old(r.m_DesiredState.Map)| == r.NumSubresources
      ensures box.BeginArray < box.EndArray ==> forall k :: 0 <= k < r.NumSubresources ==>
        r.m_DesiredState.Map[k] == if Includes(box, k) then info else old(r.m_DesiredState.Map)[k]
      ensures box.BeginArray == box.EndArray ==> forall k :: 0 <= k < r.NumSubresources ==>
        r.m_DesiredState.Map[k]
        == if k in Visits(subresources.Value()) then info else old(r.m_DesiredState.Map)[k]
      ensures m_TransitionList == WithPending(old(m_TransitionList), r)
    {
      SubsetFits(subresources.Value(), box);
      if IsWholeResource(subresources.Value()) {
        assert Includes(box, 0);
        r.m_DesiredState.SetResourceState(info);
      } else {
        SetRanges(r, subresources, info);
      }
      EnsurePending(r);
    }

    /** One round of the loop over the subresources of a resource; all of them count as one
        when both encodings say that they are all the same. */
    method ProcessSubresource(r: Resource, i: nat, atOnce: bool, fence: nat, ghost base: seq<Barrier>,
        ghost l: LoopState)
      requires r.Valid() && i < r.NumSubresources
      requires atOnce ==> i == 0 && r.m_currentState.m_bAllSubresourcesSame
      requires r.m_currentState.Map == l.states && m_vResourceBarriers == base + l.barriers
      modifies r.m_currentState, r.m_currentState.m_spSubresourceState, this`m_vResourceBarriers
      ensures r.Valid()
      ensures var next := Round(r.handle, atOnce, r.m_currentState.m_bSimultaneousAccess, l, r.m_DesiredState.Map[i],
                                fence, i);
        && r.m_currentState.Map == next.states && m_vResourceBarriers == base + next.barriers
    {
      var currentState := r.m_currentState;
      var info := r.m_DesiredState.GetSubresourceInfo(i);
      var state := currentState.GetSubresourceState(i);
      if info.State == UNKNOWN {
        assert l.barriers + [] == l.barriers;
        return;
      }
      var after, barrier, used, next := Decide(currentState.m_bSimultaneousAccess, state, info, fence);
      if barrier {
        var b := Barrier(r.handle, if atOnce then None else Some(i), state.State, after);
        m_vResourceBarriers := m_vResourceBarriers + [b];
      }
      if used {
        if atOnce {
          currentState.SetResourceState(next);
        } else {
          currentState.SetSubresourceState(i, next);
        }
      }
    }

    /** The loop over the subresources. */
    method ProcessAll(r: Resource, atOnce: bool, fence: nat, ghost cur: seq<SubresourceState>,
        ghost want: seq<SubresourceInfo>)
      requires r.Valid() && cur == r.m_currentState.Map && want == r.m_DesiredState.Map
      requires atOnce ==> r.m_currentState.m_bAllSubresourcesSame
      modifies r.m_currentState, r.m_currentState.m_spSubresourceState, this`m_vResourceBarriers
      ensures r.Valid()
      ensures var l := Rounds(r.handle, atOnce, r.m_currentState.m_bSimultaneousAccess, cur, want, fence,
                              if atOnce then 1 else |cur|);
        && r.m_currentState.Map == l.states
        && m_vResourceBarriers == old(m_vResourceBarriers) + l.barriers
    {
      var numSubresources := if atOnce then 1 else r.NumSubresources;
      ghost var base := m_vResourceBarriers;
      ghost var l := LoopState(cur, []);
      for i := 0 to numSubresources
        modifies r.m_currentState, r.m_currentState.m_spSubresourceState, this`m_vResourceBarriers
        invariant r.Valid()
        invariant l == Rounds(r.handle, atOnce, r.m_currentState.m_bSimultaneousAccess, cur, want, fence, i)
        invariant r.m_currentState.Map == l.states && m_vResourceBarriers == base + l.barriers
        invariant atOnce && i == 0 ==> r.m_currentState.m_bAllSubresourcesSame
      {
        ProcessSubresource(r, i, atOnce, fence, base, l);
        l := Round(r.handle, atOnce, r.m_currentState.m_bSimultaneousAccess, l, want[i], fence, i);
      }
    }

    /** Turns the requests on a resource into barriers and new tracked states. */
    method ProcessTransitioningResource(r: Resource, fence: nat)
      requires r.Valid()
      modifies r.m_currentState, r.m_currentState.m_spSubresourceState, this`m_vResourceBarriers
      modifies r.m_DesiredState, r.m_DesiredState.m_spSubresourceInfo
      ensures r.HasReached(old(r.Snapshot()), true, fence)
      ensures m_vResourceBarriers == old(m_vResourceBarriers) + BarriersOf(old(r.Snapshot()), fence)
    {
      var atOnce := r.m_currentState.m_bAllSubresourcesSame && r.m_DesiredState.m_bAllSubresourcesSame;
      ghost var cur, want := r.m_currentState.Map, r.m_DesiredState.Map;
      ProcessAll(r, atOnce, fence, cur, want);
      AllRounds(r.handle, atOnce, r.m_currentState.m_bSimultaneousAccess, cur, want, fence);
      r.m_DesiredState.SetResourceState(NOTHING_REQUESTED);
    }

    /** Processes one pending resource, which leaves the others alone, and takes it off the
        list. */
    method ProcessEntry(list: seq<Resource>, k: nat, fence: nat, ghost ps: seq<Pending>)
      requires k < |list| == |ps| && AllSeparate(list) && HaveReached(list, ps, k, fence)
      requires m_TransitionList == list[k..]
      modifies list[k].m_currentState, list[k].m_currentState.m_spSubresourceState, this
      modifies list[k].m_DesiredState, list[k].m_DesiredState.m_spSubresourceInfo
      ensures HaveReached(list, ps, k + 1, fence) && m_TransitionList == list[k + 1..]
      ensures m_vResourceBarriers == old(m_vResourceBarriers) + BarriersOf(ps[k], fence)
    {
      assert list[k].HasReached(ps[k], false, fence);
      ProcessTransitioningResource(list[k], fence);
      m_TransitionList := m_TransitionList[1..];
      forall i | 0 <= i < |list| ensures list[i].HasReached(ps[i], i < k + 1, fence) {
        if i != k {
          assert old(list[i].HasReached(ps[i], i < k, fence));
          assert if i < k then Separate(list[i], list[k]) else Separate(list[k], list[i]);
        }
      }
    }

    /** Processes every pending resource once, and empties the list. */
    method ForEachTransitioningResource(fence: nat, ghost ps: seq<Pending>)
      requires Valid() && |ps| == |m_TransitionList| && HaveReached(m_TransitionList, ps, 0, fence)
      requires m_vResourceBarriers == []
      modifies this, Footprint(m_TransitionList)
      ensures Valid() && m_TransitionList == []
      ensures HaveReached(old(m_TransitionList), ps, |ps|, fence)
      ensures AllSound(ps) && m_vResourceBarriers == AllBarriersUpTo(ps, fence, |ps|)
    {
      var list := m_TransitionList;
      ghost var foot := Footprint(list);
      ReachedAreSound(list, ps, fence);
      for k := 0 to |list|
        modifies this, foot
        invariant HaveReached(list, ps, k, fence)
        invariant m_vResourceBarriers == AllBarriersUpTo(ps, fence, k)
        invariant m_TransitionList == list[k..]
      {
        ProcessEntry(list, k, fence, ps);
      }
    }

    /** The barriers of all pending resources fit the states the resources have on the GPU. */
    method ApplyAllResourceTransitions(fence: nat, ghost ps: seq<Pending>)
      requires Valid() && |ps| == |m_TransitionList| && HaveReached(m_TransitionList, ps, 0, fence)
      modifies this, Footprint(m_TransitionList)
      ensures Valid() && m_TransitionList == []
      ensures HaveReached(old(m_TransitionList), ps, |ps|, fence)
      ensures AllSound(ps) && m_vResourceBarriers == AllBarriersUpTo(ps, fence, |ps|)
      ensures GpuAgrees(old(m_TransitionList), ps, m_vResourceBarriers)
    {
      ghost var list := m_TransitionList;
      m_vResourceBarriers := [];
      ForEachTransitioningResource(fence, ps);
      BarriersFitTheGpu(list, ps, fence);
    }
  }
}
