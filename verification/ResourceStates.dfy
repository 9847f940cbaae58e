/**
 States of the subresources of a resource and the transitions between them:
 include/d3d12translationlayer/ResourceState.hpp and
 src/d3d12translationlayer/ResourceState.cpp.
 */
module ResourceStates {
  import opened Wrappers

  // D3D12_RESOURCE_STATES, a set of bits; 0 is the common state.
  type State = bv32

  const UNKNOWN: State := 0x8000

  // Render target, unordered access, depth write, stream out, copy dest, resolve dest, video
  // decode write, video process write.
  const ALL_WRITE_BITS: State := 0x4 | 0x8 | 0x10 | 0x100 | 0x400 | 0x1000 | 0x2_0000 | 0x8_0000

  // SubresourceTransitionFlags
  type Flags = bv8

  const NO_FLAGS: Flags := 0
  const STATE_MATCH_EXACT: Flags := 1
  const FORCE_WRITE_STATE: Flags := 2
  const NOT_USED_IF_NO_STATE_CHANGE: Flags := 4

  datatype SubresourceInfo = SubresourceInfo(State: State, Flags: Flags)

  const NOTHING_REQUESTED := SubresourceInfo(UNKNOWN, NO_FLAGS)

  datatype SubresourceState = SubresourceState(WriteFenceValue: nat, ReadFenceValue: nat, State: State)

  predicate IsD3D12WriteState(state: State, flags: Flags) {
    (state & ALL_WRITE_BITS) != 0 || (flags & FORCE_WRITE_STATE) != 0
  }

  /** The state has all the bits of another one. */
  predicate Contains(state: State, bits: State) {
    (state & bits) == bits
  }

  datatype Transition = Transition(required: bool, after: State)

  function TransitionRequired(current: State, destination: State, flags: Flags): Transition {
    if current == destination then Transition(false, destination)
    else if (flags & STATE_MATCH_EXACT) != 0 then Transition(true, destination)
    else if Contains(current, destination) then Transition(false, current)
    else if !IsD3D12WriteState(destination, NO_FLAGS) && !IsD3D12WriteState(current, NO_FLAGS) then
      Transition(true, destination | current)
    else Transition(true, destination)
  }

  /** What one request does to one subresource: its new state and the states of the barrier,
      if there is one. */
  datatype Outcome = Outcome(next: SubresourceState, barrier: Option<(State, State)>, used: bool)

  function Process(simultaneous: bool, current: SubresourceState, want: SubresourceInfo, fence: nat): Outcome {
    if want.State == UNKNOWN then Outcome(current, None, false)
    else
      var t := TransitionRequired(current.State, want.State, want.Flags);
      var barrier :=
        if (!simultaneous || fence == current.WriteFenceValue) && t.required then Some((current.State, t.after))
        else None;
      var used := (want.Flags & NOT_USED_IF_NO_STATE_CHANGE) == 0 || barrier.Some?;
      Outcome(if used then Touched(current, After(simultaneous, current, want, fence), want.Flags, fence) else current,
              barrier, used)
  }

  /** The state a used subresource ends up in. With simultaneous access only a write in the
      same command list calls for a transition; a read there adds to the state. */
  function After(simultaneous: bool, current: SubresourceState, want: SubresourceInfo, fence: nat): State {
    if !simultaneous || fence == current.WriteFenceValue then
      TransitionRequired(current.State, want.State, want.Flags).after
    else if fence == current.ReadFenceValue then want.State | current.State
    else want.State
  }

  function Touched(current: SubresourceState, after: State, flags: Flags, fence: nat): SubresourceState {
    SubresourceState(if IsD3D12WriteState(after, flags) then fence else current.WriteFenceValue, fence, after)
  }

  // ---------------------------------------------------------------------------------
  // One request
  // ---------------------------------------------------------------------------------

  lemma UnionContains(w: State, c: State)
    ensures Contains(w | c, w) && Contains(w, w)
    ensures w | c == c ==> Contains(c, w)
  {
  }

  /** The destination is met with or without a barrier; a barrier changes the state. */
  lemma DestinationIsMet(current: State, destination: State, flags: Flags)
    ensures var t := TransitionRequired(current, destination, flags);
      && Contains(t.after, destination)
      && ((flags & STATE_MATCH_EXACT) != 0 ==> t.after == destination)
      && (t.required <==> t.after != current)
  {
    UnionContains(destination, current);
  }

  /** Without simultaneous access a request is met: the new state has all the bits asked for,
      exactly those when an exact match is asked for; a barrier starts from the old state and
      changes it, and without one the state stays. */
  lemma RequestIsMet(current: SubresourceState, want: SubresourceInfo, fence: nat)
    requires want.State != UNKNOWN
    ensures var o := Process(false, current, want, fence);
      && Contains(o.next.State, want.State)
      && ((want.Flags & STATE_MATCH_EXACT) != 0 ==> o.next.State == want.State)
      && (o.barrier.Some? ==>
            o.barrier.value == (current.State, o.next.State) && current.State != o.next.State && o.used)
      && (o.barrier.None? ==> o.next.State == current.State)
  {
    DestinationIsMet(current.State, want.State, want.Flags);
  }

  /** The state is not one that the request can do with, and the GPU does not promote it on
      its own: the resource lacks simultaneous access, or this command list has written it. */
  predicate MustChange(simultaneous: bool, current: SubresourceState, want: SubresourceInfo, fence: nat) {
    && (!simultaneous || fence == current.WriteFenceValue)
    && if (want.Flags & STATE_MATCH_EXACT) != 0 then current.State != want.State
       else !Contains(current.State, want.State)
  }

  /** A request makes the command list a user of the subresource unless it says that it is
      none where the state need not change. */
  predicate IsUse(simultaneous: bool, current: SubresourceState, want: SubresourceInfo, fence: nat) {
    && want.State != UNKNOWN
    && ((want.Flags & NOT_USED_IF_NO_STATE_CHANGE) == 0 || MustChange(simultaneous, current, want, fence))
  }

  lemma RequiredExactlyWhen(current: State, destination: State, flags: Flags)
    ensures TransitionRequired(current, destination, flags).required
      <==> if (flags & STATE_MATCH_EXACT) != 0 then current != destination else !Contains(current, destination)
  {
    UnionContains(destination, current);
  }

  /** A barrier is emitted exactly if the state must change. Exactly the uses are recorded:
      the read fence becomes that of the command list, the write fence as well if the state
      reached is one of writing and only then, and what is no use changes nothing. */
  lemma RecordedExactlyWhen(simultaneous: bool, current: SubresourceState, want: SubresourceInfo, fence: nat)
    ensures var o := Process(simultaneous, current, want, fence);
      && (o.used <==> IsUse(simultaneous, current, want, fence))
      && (o.barrier.Some? <==> want.State != UNKNOWN && MustChange(simultaneous, current, want, fence))
      && (o.used ==> o.next.ReadFenceValue == fence)
      && (o.used ==>
            o.next.WriteFenceValue
            == if IsD3D12WriteState(o.next.State, want.Flags) then fence else current.WriteFenceValue)
      && (!o.used ==> o.next == current)
  {
    RequiredExactlyWhen(current.State, want.State, want.Flags);
  }

  /** Reading in another way adds to the state, so that going back to any of the ways so far
      takes no barrier. As soon as a write is involved, the state is the one asked for. */
  lemma ReadsAccumulate(current: State, destination: State, next: State, flags: Flags)
    requires (flags & STATE_MATCH_EXACT) == 0
    ensures var after := TransitionRequired(current, destination, flags).after;
      var reading := !IsD3D12WriteState(destination, NO_FLAGS) && !IsD3D12WriteState(current, NO_FLAGS);
      && (reading || Contains(current, destination) ==> Contains(after, current))
      && (!reading && !Contains(current, destination) ==> after == destination)
      && (Contains(after, next) ==> !TransitionRequired(after, next, flags).required)
  {
    UnionContains(destination, current);
    UnionContains(current, destination);
    assert destination | current == current | destination;
  }

  /** With simultaneous access a request is met as well. Only a write by the same command list
      makes a barrier necessary; after a read by the same command list the states add up, and
      a subresource that the command list has not used yet starts from the state requested. */
  lemma SimultaneousRequestIsMet(current: SubresourceState, want: SubresourceInfo, fence: nat)
    requires want.State != UNKNOWN && FencesOrdered(current, fence)
    ensures var o := Process(true, current, want, fence);
      && (o.used ==> Contains(o.next.State, want.State))
      && (o.barrier.Some? ==> fence == current.WriteFenceValue && o.barrier.value == (current.State, o.next.State))
      && (o.used && current.WriteFenceValue < fence == current.ReadFenceValue ==>
            o.next.State == want.State | current.State)
      && (o.used && current.ReadFenceValue < fence ==> o.next.State == want.State)
      && (o.barrier.None? && current.WriteFenceValue == fence ==> o.next.State == current.State)
  {
    AfterContains(true, current, want, fence);
    DestinationIsMet(current.State, want.State, want.Flags);
  }

  lemma AfterContains(simultaneous: bool, current: SubresourceState, want: SubresourceInfo, fence: nat)
    ensures Contains(After(simultaneous, current, want, fence), want.State)
  {
    if !simultaneous || fence == current.WriteFenceValue {
      DestinationIsMet(current.State, want.State, want.Flags);
    } else {
      UnionContains(want.State, current.State);
    }
  }

  /** Write states are exclusive: they stand alone. */
  predicate Exclusive(state: State) {
    (state & ALL_WRITE_BITS) != 0 ==> state & (state - 1) == 0
  }

  /** From exclusive states, requests for exclusive states lead to exclusive states only. */
  lemma StatesStayExclusive(current: SubresourceState, want: SubresourceInfo, fence: nat)
    requires Exclusive(current.State) && Exclusive(want.State)
    ensures Exclusive(Process(false, current, want, fence).next.State)
  {
    var w, c := want.State, current.State;
    assert (w & ALL_WRITE_BITS) == 0 && (c & ALL_WRITE_BITS) == 0 ==> (w | c) & ALL_WRITE_BITS == 0;
  }

  /** The last writer is no later than the last use, and neither lies in the future. */
  predicate FencesOrdered(s: SubresourceState, fence: nat) {
    s.WriteFenceValue <= s.ReadFenceValue <= fence
  }

  /** A use is covered when the fences a reader or writer would wait for are not below it. */
  predicate Covers(s: SubresourceState, fence: nat, writes: bool) {
    fence <= s.ReadFenceValue && (writes ==> fence <= s.WriteFenceValue)
  }

  lemma TouchedIsCovered(current: SubresourceState, after: State, want: SubresourceInfo, fence: nat)
    requires FencesOrdered(current, fence)
    requires IsD3D12WriteState(want.State, want.Flags) ==> IsD3D12WriteState(after, want.Flags)
    ensures var next := Touched(current, after, want.Flags, fence);
      && FencesOrdered(next, fence)
      && (forall f, w :: Covers(current, f, w) ==> Covers(next, f, w))
      && Covers(next, fence, IsD3D12WriteState(want.State, want.Flags))
  {
  }

  lemma DestinationKeepsWrites(current: State, destination: State, flags: Flags)
    requires IsD3D12WriteState(destination, flags)
    ensures IsD3D12WriteState(TransitionRequired(current, destination, flags).after, flags)
  {
    WritesAreNoticed(current, destination, flags);
  }

  /** The fences stay in order, everything that was covered stays covered, and the request
      itself is covered if it is a use. */
  lemma UsesAreCovered(simultaneous: bool, current: SubresourceState, want: SubresourceInfo, fence: nat)
    requires FencesOrdered(current, fence)
    ensures var o := Process(simultaneous, current, want, fence);
      && FencesOrdered(o.next, fence)
      && (forall f, w :: Covers(current, f, w) ==> Covers(o.next, f, w))
      && (IsUse(simultaneous, current, want, fence) ==>
            Covers(o.next, fence, IsD3D12WriteState(want.State, want.Flags)))
  {
    RecordedExactlyWhen(simultaneous, current, want, fence);
    var after := After(simultaneous, current, want, fence);
    if IsD3D12WriteState(want.State, want.Flags) {
      DestinationKeepsWrites(current.State, want.State, want.Flags);
      WritesAreNoticed(current.State, want.State, want.Flags);
    }
    TouchedIsCovered(current, after, want, fence);
  }

  /** A request that writes is recognised as a write whatever state it ends up in. */
  lemma WritesAreNoticed(c: State, w: State, flags: Flags)
    requires IsD3D12WriteState(w, flags)
    ensures IsD3D12WriteState(w | c, flags)
    ensures Contains(c, w) ==> IsD3D12WriteState(c, flags)
  {
    if (w & ALL_WRITE_BITS) != 0 {
      WriteBitsSpread(c, w);
    }
  }

  lemma WriteBitsSpread(c: State, w: State)
    requires (w & ALL_WRITE_BITS) != 0
    ensures ((w | c) & ALL_WRITE_BITS) != 0
    ensures (c & w) == w ==> (c & ALL_WRITE_BITS) != 0
  {
  }

  // ---------------------------------------------------------------------------------
  // One resource: all subresources at once, or one by one
  // ---------------------------------------------------------------------------------

  /** subresource None stands for D3D12_RESOURCE_BARRIER_ALL_SUBRESOURCES. */
  datatype Barrier = Barrier(resource: nat, subresource: Option<nat>, before: State, after: State)

  /** The state every subresource is left in. */
  ghost function NextUpTo(simultaneous: bool, cur: seq<SubresourceState>, want: seq<SubresourceInfo>, fence: nat,
      n: nat): (r: seq<SubresourceState>)
    requires n <= |cur| == |want|
    ensures |r| == n && forall i :: 0 <= i < n ==> r[i] == Process(simultaneous, cur[i], want[i], fence).next
  {
    if n == 0 then []
    else NextUpTo(simultaneous, cur, want, fence, n - 1) + [Process(simultaneous, cur[n - 1], want[n - 1], fence).next]
  }

  ghost function BarrierFor(resource: nat, subresource: Option<nat>, o: Outcome): seq<Barrier> {
    if o.barrier.None? then []
    else [Barrier(resource, subresource, o.barrier.value.0, o.barrier.value.1)]
  }

  /** The barriers for the first n subresources, taken one by one. */
  ghost function BarriersUpTo(resource: nat, simultaneous: bool, cur: seq<SubresourceState>, want: seq<SubresourceInfo>,
      fence: nat, n: nat): seq<Barrier>
    requires n <= |cur| == |want|
  {
    if n == 0 then [] else
      BarriersUpTo(resource, simultaneous, cur, want, fence, n - 1)
      + BarrierFor(resource, Some(n - 1), Process(simultaneous, cur[n - 1], want[n - 1], fence))
  }

  /** Whether every subresource is in the state a barrier on it expects. */
  ghost predicate Expected(gpu: seq<State>, b: Barrier) {
    match b.subresource
    case None => forall i :: 0 <= i < |gpu| ==> gpu[i] == b.before
    case Some(k) => k < |gpu| && gpu[k] == b.before
  }

  ghost function Applied(gpu: seq<State>, b: Barrier): (r: seq<State>)
    requires Expected(gpu, b)
    ensures |r| == |gpu|
  {
    match b.subresource
    case None => seq(|gpu|, i => b.after)
    case Some(k) => gpu[k := b.after]
  }

  /** The state of one resource on the GPU after the first n barriers; None as soon as a
      barrier expects another state than the actual one. */
  ghost function ReplayUpTo(gpu: seq<State>, resource: nat, bs: seq<Barrier>, n: nat): (r: Option<seq<State>>)
    requires n <= |bs|
    ensures r.Some? ==> |r.value| == |gpu|
  {
    if n == 0 then Some(gpu)
    else
      var g := ReplayUpTo(gpu, resource, bs, n - 1);
      if g.None? || bs[n - 1].resource != resource then g
      else if Expected(g.value, bs[n - 1]) then Some(Applied(g.value, bs[n - 1]))
      else None
  }

  ghost function Replay(gpu: seq<State>, resource: nat, bs: seq<Barrier>): Option<seq<State>> {
    ReplayUpTo(gpu, resource, bs, |bs|)
  }

  ghost function StatesOf(s: seq<SubresourceState>): (r: seq<State>)
    ensures |r| == |s|
  {
    seq(|s|, i requires 0 <= i < |s| => s[i].State)
  }

  lemma {:induction false} ReplayPrefix(gpu: seq<State>, resource: nat, a: seq<Barrier>, b: seq<Barrier>, n: nat)
    requires n <= |a|
    ensures ReplayUpTo(gpu, resource, a + b, n) == ReplayUpTo(gpu, resource, a, n)
  {
    if n > 0 {
      ReplayPrefix(gpu, resource, a, b, n - 1);
    }
  }

  /** Replaying more barriers goes on from where the first ones led. */
  lemma {:induction false} ReplayConcat(gpu: seq<State>, mid: seq<State>, resource: nat, a: seq<Barrier>,
      b: seq<Barrier>,
      n: nat)
    requires Replay(gpu, resource, a) == Some(mid) && n <= |b|
    ensures ReplayUpTo(gpu, resource, a + b, |a| + n) == ReplayUpTo(mid, resource, b, n)
  {
    if n == 0 {
      ReplayPrefix(gpu, resource, a, b, |a|);
    } else {
      ReplayConcat(gpu, mid, resource, a, b, n - 1);
    }
  }

  /** The tracked states while the first n subresources have been processed. */
  ghost function Midway(cur: seq<SubresourceState>, want: seq<SubresourceInfo>, fence: nat, n: nat): (r: seq<State>)
    requires n <= |cur| == |want|
    ensures |r| == |cur|
  {
    StatesOf(NextUpTo(false, cur, want, fence, n) + cur[n..])
  }

  lemma MidwayStep(cur: seq<SubresourceState>, want: seq<SubresourceInfo>, fence: nat, n: nat)
    requires n < |cur| == |want|
    ensures Midway(cur, want, fence, n)[n] == cur[n].State
    ensures Midway(cur, want, fence, n + 1)
      == Midway(cur, want, fence, n)[n := Process(false, cur[n], want[n], fence).next.State]
  {
  }

  lemma ReplayOne(gpu: seq<State>, resource: nat, k: nat, o: Outcome)
    requires k < |gpu|
    requires o.barrier.Some? ==> o.barrier.value == (gpu[k], o.next.State)
    requires o.barrier.None? ==> o.next.State == gpu[k]
    ensures Replay(gpu, resource, BarrierFor(resource, Some(k), o)) == Some(gpu[k := o.next.State])
  {
    var b := BarrierFor(resource, Some(k), o);
    assert ReplayUpTo(gpu, resource, b, 0) == Some(gpu);
    if b != [] {
      assert Expected(gpu, b[0]);
    } else {
      assert gpu == gpu[k := o.next.State];
    }
  }

  /** Subresource by subresource, the replay finds the tracked states and leads to the new
      ones. */
  lemma {:induction false} OneByOneReplays(resource: nat, cur: seq<SubresourceState>, want: seq<SubresourceInfo>,
      fence: nat, n: nat)
    requires n <= |cur| == |want|
    ensures Replay(StatesOf(cur), resource, BarriersUpTo(resource, false, cur, want, fence, n))
      == Some(Midway(cur, want, fence, n))
  {
    if n == 0 {
      assert NextUpTo(false, cur, want, fence, 0) + cur[0..] == cur;
    } else {
      var mid := Midway(cur, want, fence, n - 1);
      var o := Process(false, cur[n - 1], want[n - 1], fence);
      var a, b := BarriersUpTo(resource, false, cur, want, fence, n - 1), BarrierFor(resource, Some(n - 1), o);
      OneByOneReplays(resource, cur, want, fence, n - 1);
      OutcomeStates(cur[n - 1], want[n - 1], fence);
      MidwayStep(cur, want, fence, n - 1);
      ReplayOne(mid, resource, n - 1, o);
      assert BarriersUpTo(resource, false, cur, want, fence, n) == a + b;
      ReplayThen(StatesOf(cur), mid, resource, a, b);
    }
  }

  lemma OutcomeStates(current: SubresourceState, want: SubresourceInfo, fence: nat)
    ensures var o := Process(false, current, want, fence);
      && (o.barrier.Some? ==> o.barrier.value == (current.State, o.next.State))
      && (o.barrier.None? ==> o.next.State == current.State)
  {
    if want.State != UNKNOWN {
      RequestIsMet(current, want, fence);
    }
  }

  lemma ReplayThen(gpu: seq<State>, mid: seq<State>, resource: nat, a: seq<Barrier>, b: seq<Barrier>)
    requires Replay(gpu, resource, a) == Some(mid)
    ensures Replay(gpu, resource, a + b) == Replay(mid, resource, b)
  {
    ReplayConcat(gpu, mid, resource, a, b, |b|);
  }

  ghost predicate AllSame<T>(s: seq<T>) {
    s != [] && forall i :: 0 <= i < |s| ==> s[i] == s[0]
  }

  /** The fast path, one barrier for the whole resource, leads to the same states. */
  lemma AllAtOnceReplays(resource: nat, cur: seq<SubresourceState>, want: seq<SubresourceInfo>, fence: nat)
    requires |cur| == |want| && AllSame(cur) && AllSame(want)
    ensures Replay(StatesOf(cur), resource, BarrierFor(resource, None, Process(false, cur[0], want[0], fence)))
      == Some(StatesOf(NextUpTo(false, cur, want, fence, |cur|)))
  {
    var o := Process(false, cur[0], want[0], fence);
    var b := BarrierFor(resource, None, o);
    var now := StatesOf(NextUpTo(false, cur, want, fence, |cur|));
    OutcomeStates(cur[0], want[0], fence);
    if b != [] {
      assert ReplayUpTo(StatesOf(cur), resource, b, 0) == Some(StatesOf(cur));
      assert Expected(StatesOf(cur), b[0]);
      assert Applied(StatesOf(cur), b[0]) == now;
    } else {
      assert now == StatesOf(cur);
    }
  }

  /** So the fast path and the loop over the subresources agree in the states they track and
      in what their barriers do on the GPU. */
  lemma FastPathAgrees(resource: nat, cur: seq<SubresourceState>, want: seq<SubresourceInfo>, fence: nat)
    requires |cur| == |want| && AllSame(cur) && AllSame(want)
    ensures Replay(StatesOf(cur), resource, BarrierFor(resource, None, Process(false, cur[0], want[0], fence)))
      == Replay(StatesOf(cur), resource, BarriersUpTo(resource, false, cur, want, fence, |cur|))
    ensures forall i :: 0 <= i < |cur| ==>
      NextUpTo(false, cur, want, fence, |cur|)[i] == Process(false, cur[0], want[0], fence).next
  {
    AllAtOnceReplays(resource, cur, want, fence);
    OneByOneReplays(resource, cur, want, fence, |cur|);
    assert NextUpTo(false, cur, want, fence, |cur|) + cur[|cur|..] == NextUpTo(false, cur, want, fence, |cur|);
  }
}
