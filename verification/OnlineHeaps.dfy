/**
 Shader-visible descriptor heaps: RollOverHeap, ReserveSlots and PostSubmitNotification of
 src/d3d12translationlayer/ImmediateContext.cpp.
 */
module OnlineHeaps {
  import opened Wrappers
  import opened FenceTimeline
  import opened CommandLists
  import opened RingBuffer

  // A descriptor heap, known by the number of heaps created before it.
  type HeapId = nat

  /** Slots of one heap that were handed out to a command list. */
  datatype Reservation = Reservation(heap: HeapId, offset: nat, count: nat, fence: nat)

  /** What has been handed out, the heaps that were given back and under which command list,
      the heap in use and the live windows of its ring buffer. */
  datatype Books = Books(rs: seq<Reservation>, given: seq<PoolEntry<HeapId>>, current: HeapId, numHeaps: nat,
                         size: nat, live: seq<Window>)

  predicate ShareSlot(a: Reservation, b: Reservation) {
    a.heap == b.heap && a.offset < b.offset + b.count && b.offset < a.offset + a.count
  }

  /** No slot is reserved by two command lists, or twice by one, while the GPU is not done with
      both of them. */
  ghost predicate NoSlotTwice(rs: seq<Reservation>, completed: nat) {
    forall i, j :: 0 <= i < j < |rs| && rs[i].fence > completed && rs[j].fence > completed ==> !ShareSlot(rs[i], rs[j])
  }

  ghost predicate IsWindow(r: Reservation, w: Window, size: nat)
    requires size > 0
  {
    w.start % size == r.offset && w.count == r.count && w.fence == r.fence
  }

  ghost predicate HasWindow(r: Reservation, size: nat, live: seq<Window>)
    requires size > 0
  {
    exists k :: 0 <= k < |live| && IsWindow(r, live[k], size)
  }

  /** What the GPU may still use of the current heap is live in the ring buffer. */
  ghost predicate Backed(b: Books, completed: nat)
    requires b.size > 0
  {
    forall i :: 0 <= i < |b.rs| && b.rs[i].heap == b.current && b.rs[i].fence > completed ==>
      HasWindow(b.rs[i], b.size, b.live)
  }

  /** Nothing on the heap is used after the command list it was given back under. */
  ghost predicate DoneBy(rs: seq<Reservation>, e: PoolEntry<HeapId>) {
    forall i :: 0 <= i < |rs| && rs[i].heap == e.resource ==> rs[i].fence <= e.fence
  }

  ghost predicate NotGiven(given: seq<PoolEntry<HeapId>>, heap: HeapId) {
    forall k :: 0 <= k < |given| ==> given[k].resource != heap
  }

  /** The heaps that were given back are distinct and done with. */
  ghost predicate GivenBack(rs: seq<Reservation>, given: seq<PoolEntry<HeapId>>, numHeaps: nat) {
    && (forall k :: 0 <= k < |given| ==> given[k].resource < numHeaps)
    && (forall k, l :: 0 <= k < l < |given| ==> given[k].resource != given[l].resource)
    && (forall k :: 0 <= k < |given| ==> DoneBy(rs, given[k]))
  }

  ghost predicate BooksHold(b: Books, completed: nat, id: nat) {
    && b.size > 0 && b.current < b.numHeaps
    && (forall i :: 0 <= i < |b.rs| ==> b.rs[i].heap < b.numHeaps && b.rs[i].fence <= id)
    && GivenBack(b.rs, b.given, b.numHeaps) && NotGiven(b.given, b.current)
    && Backed(b, completed) && NoSlotTwice(b.rs, completed)
  }

  /** The books stay in order while the GPU makes progress and command lists are submitted. */
  lemma KeptLater(b: Books, completed: nat, id: nat, completed': nat, id': nat)
    requires BooksHold(b, completed, id) && completed <= completed' && id <= id'
    ensures BooksHold(b, completed', id')
  {
  }

  ghost predicate Apart(v: Window, w: Window, size: nat)
    requires size > 0
  {
    v.start % size + v.count <= w.start % size || w.start % size + w.count <= v.start % size
  }

  ghost predicate AllApart(live: seq<Window>, size: nat)
    requires size > 0
  {
    forall i, j :: 0 <= i < j < |live| ==> Apart(live[i], live[j], size)
  }

  /** No two live windows of a ring buffer share a slot, as intervals of slots. */
  lemma LiveWindowsAreApart(ring: Ring, live: seq<Window>, last: nat, released: nat)
    requires Inv(ring, live, last, released)
    ensures AllApart(live, ring.size)
  {
    forall i, j | 0 <= i < j < |live| ensures Apart(live[i], live[j], ring.size) {
      var v, w := live[i].start % ring.size, live[j].start % ring.size;
      LiveWindowsAreDisjoint(ring, live, last, released, i, j, if v < w then w else v);
      NonEmpty(ring, live, last, released, i);
      NonEmpty(ring, live, last, released, j);
    }
  }

  /** A new window shares no slot with those that were live before. */
  lemma NewReservationIsKept(b: Books, live: seq<Window>, r: Reservation, completed: nat, id: nat)
    requires BooksHold(b, completed, id) && r.heap == b.current && r.fence <= id && AllApart(live, b.size)
    requires |b.live| < |live| && b.live == live[..|b.live|] && IsWindow(r, live[|live| - 1], b.size)
    ensures BooksHold(b.(rs := b.rs + [r], live := live), completed, id)
  {
    var rs := b.rs + [r];
    forall i | 0 <= i < |b.rs| && b.rs[i].heap == b.current && b.rs[i].fence > completed
      ensures HasWindow(b.rs[i], b.size, live) && !ShareSlot(b.rs[i], r)
    {
      var k :| 0 <= k < |b.live| && IsWindow(b.rs[i], b.live[k], b.size);
      assert live[k] == b.live[k];
      assert Apart(live[k], live[|live| - 1], b.size);
    }
    assert HasWindow(r, b.size, live);
    forall k | 0 <= k < |b.given| ensures DoneBy(rs, b.given[k]) {
      assert DoneBy(b.rs, b.given[k]);
    }
  }

  lemma NonEmpty(ring: Ring, ws: seq<Window>, last: nat, released: nat, k: nat)
    requires Inv(ring, ws, last, released) && k < |ws|
    ensures ws[k].count > 0
  {
    ChainIsNonEmpty(ws, |ws|, ring.head - ring.size, ring.tail, k);
  }

  lemma {:induction false} ChainIsNonEmpty(ws: seq<Window>, n: nat, lo: nat, hi: nat, k: nat)
    requires k < n <= |ws| && Chained(ws, n, lo, hi)
    ensures ws[k].count > 0
  {
    if k < n - 1 {
      ChainIsNonEmpty(ws, n - 1, lo, ws[n - 1].start, k);
    }
  }

  /** More windows behind the live ones change nothing. */
  lemma MoreWindows(b: Books, live: seq<Window>, completed: nat, id: nat)
    requires BooksHold(b, completed, id) && |b.live| <= |live| && b.live == live[..|b.live|]
    ensures BooksHold(b.(live := live), completed, id)
  {
    forall i | 0 <= i < |b.rs| && b.rs[i].heap == b.current && b.rs[i].fence > completed
      ensures HasWindow(b.rs[i], b.size, live)
    {
      var k :| 0 <= k < |b.live| && IsWindow(b.rs[i], b.live[k], b.size);
      assert live[k] == b.live[k];
    }
  }

  /** Windows that are given back belong to nothing the GPU may still use. */
  lemma FewerWindows(b: Books, p: nat, completed: nat, id: nat)
    requires BooksHold(b, completed, id) && p <= |b.live| && forall k :: 0 <= k < p ==> b.live[k].fence <= completed
    ensures BooksHold(b.(live := b.live[p..]), completed, id)
  {
    forall i | 0 <= i < |b.rs| && b.rs[i].heap == b.current && b.rs[i].fence > completed
      ensures HasWindow(b.rs[i], b.size, b.live[p..])
    {
      var k :| 0 <= k < |b.live| && IsWindow(b.rs[i], b.live[k], b.size);
      assert b.live[p..][k - p] == b.live[k];
    }
  }

  lemma InsertGiven(rs: seq<Reservation>, given: seq<PoolEntry<HeapId>>, numHeaps: nat, i: nat, e: PoolEntry<HeapId>)
    requires GivenBack(rs, given, numHeaps) && i <= |given|
    requires NotGiven(given, e.resource) && e.resource < numHeaps && DoneBy(rs, e)
    ensures GivenBack(rs, given[..i] + [e] + given[i..], numHeaps)
  {
  }

  lemma RemoveGiven(rs: seq<Reservation>, given: seq<PoolEntry<HeapId>>, numHeaps: nat, i: nat)
    requires GivenBack(rs, given, numHeaps) && i < |given|
    ensures GivenBack(rs, given[..i] + given[i + 1..], numHeaps)
    ensures NotGiven(given[..i] + given[i + 1..], given[i].resource)
  {
  }

  /** Giving the current heap back and starting a new one. */
  lemma NewHeapIsKept(b: Books, i: nat, size: nat, completed: nat, id: nat)
    requires BooksHold(b, completed, id) && i <= |b.given| && size > 0
    ensures var given := b.given[..i] + [PoolEntry(id, b.current)] + b.given[i..];
      BooksHold(Books(b.rs, given, b.numHeaps, b.numHeaps + 1, size, []), completed, id)
  {
    InsertGiven(b.rs, b.given, b.numHeaps, i, PoolEntry(id, b.current));
    var given := b.given[..i] + [PoolEntry(id, b.current)] + b.given[i..];
    assert GivenBack(b.rs, given, b.numHeaps + 1);
  }

  /** Giving the current heap back and taking one that the GPU is done with. */
  lemma RecycledHeapIsKept(b: Books, i: nat, size: nat, completed: nat, id: nat)
    requires BooksHold(b, completed, id) && i < |b.given| && size > 0 && b.given[i].fence <= completed
    ensures var given := b.given[..i] + b.given[i + 1..] + [PoolEntry(id, b.current)];
      BooksHold(Books(b.rs, given, b.given[i].resource, b.numHeaps, size, []), completed, id)
  {
    var e, others := PoolEntry(id, b.current), b.given[..i] + b.given[i + 1..];
    RemoveGiven(b.rs, b.given, b.numHeaps, i);
    InsertGiven(b.rs, others, b.numHeaps, |others|, e);
    assert others[..|others|] + [e] + others[|others|..] == others + [e];
    assert DoneBy(b.rs, b.given[i]);
  }

  /** The heap in use, its size, the heaps given back and the number of all of them. */
  datatype HeapState = HeapState(heap: HeapId, size: nat, retired: seq<PoolEntry<HeapId>>,
                                 pool: seq<PoolEntry<HeapId>>, numHeaps: nat)

  ghost predicate NewHeap(s: HeapState, s': HeapState) {
    s'.heap == s.numHeaps && s'.numHeaps == s.numHeaps + 1
  }

  /** A heap takes the place of another one under a command list. While it can grow it does,
      and the old heap is retired; at full size the old heap joins the pool, and the oldest
      pooled heap is taken if the GPU is done with it, which it was not known to be otherwise. */
  ghost predicate Switched(s: HeapState, s': HeapState, maxSize: nat, id: nat, known: nat, completed: nat) {
    && s'.size == (if s.size * 2 <= maxSize then s.size * 2 else maxSize)
    && if s.size < maxSize then
      NewHeap(s, s') && s'.retired == s.retired + [PoolEntry(id, s.heap)] && s'.pool == s.pool
    else if s'.numHeaps == s.numHeaps then
      && s'.retired == s.retired && s.pool != [] && s'.heap == s.pool[0].resource && s.pool[0].fence <= completed
      && s'.pool == s.pool[1..] + [PoolEntry(id, s.heap)]
    else
      && s'.retired == s.retired && NewHeap(s, s') && (s.pool == [] || known < s.pool[0].fence)
      && s'.pool == s.pool + [PoolEntry(id, s.heap)]
  }

  ghost function BooksOf(s: HeapState, rs: seq<Reservation>, live: seq<Window>): Books {
    Books(rs, s.retired + s.pool, s.heap, s.numHeaps, s.size, live)
  }

  lemma SwitchIsKept(s: HeapState, s': HeapState, rs: seq<Reservation>, live: seq<Window>, maxSize: nat, id: nat,
      known: nat, completed: nat)
    requires BooksHold(BooksOf(s, rs, live), completed, id) && s.size <= maxSize
    requires Switched(s, s', maxSize, id, known, completed)
    ensures BooksHold(BooksOf(s', rs, []), completed, id) && s'.heap != s.heap
  {
    var b, given := BooksOf(s, rs, live), PoolEntry(id, s.heap);
    var i, n := |s.retired|, |b.given|;
    if s.size < maxSize {
      NewHeapIsKept(b, i, s'.size, completed, id);
      assert b.given[..i] + [given] + b.given[i..] == s'.retired + s'.pool;
    } else if s'.numHeaps == s.numHeaps {
      assert b.given[i] == s.pool[0];
      RecycledHeapIsKept(b, i, s'.size, completed, id);
      assert b.given[..i] + b.given[i + 1..] + [given] == s'.retired + s'.pool;
    } else {
      NewHeapIsKept(b, n, s'.size, completed, id);
      assert b.given[..n] + [given] + b.given[n..] == s'.retired + s'.pool;
    }
  }

  /** A switch of heaps or none, and then a reservation or none: the windows of the heap in use
      were live and have stayed so. */
  lemma ReservedIsKept(s: HeapState, s': HeapState, rs: seq<Reservation>, was: seq<Window>, live: seq<Window>,
      r: Option<Reservation>, switched: bool, maxSize: nat, id: nat, known: nat, completed: nat)
    requires BooksHold(BooksOf(s, rs, was), known, id) && known <= completed && s.size <= maxSize
    requires if switched then Switched(s, s', maxSize, id, known, completed) else s' == s && |was| <= |live|
    requires !switched ==> was == live[..|was|]
    requires s'.size > 0 && AllApart(live, s'.size)
    requires r.Some? ==>
      && r.value.heap == s'.heap && r.value.fence <= id
      && (if switched then live != [] else |was| < |live|) && IsWindow(r.value, live[|live| - 1], s'.size)
    ensures BooksHold(BooksOf(s', rs + (if r.Some? then [r.value] else []), live), completed, id)
    ensures switched ==> s'.heap != s.heap
  {
    KeptLater(BooksOf(s, rs, was), known, id, completed, id);
    var b := BooksOf(s', rs, if switched then [] else was);
    if switched {
      SwitchIsKept(s, s', rs, was, maxSize, id, known, completed);
    }
    if r.Some? {
      NewReservationIsKept(b, live, r.value, completed, id);
    } else {
      assert rs + [] == rs;
      MoreWindows(b, live, completed, id);
    }
  }

  class OnlineDescriptorHeap {
    const m_MaxHeapSize: nat
    var NumDescriptors: nat
    var m_pDescriptorHeap: HeapId
    var m_DescriptorRingBuffer: CFencedRingBuffer
    const m_HeapPool: CFencePool<HeapId>
    var NumHeaps: nat

    // The heaps given up while growing, with the command list they are deleted after.
    ghost var Retired: seq<PoolEntry<HeapId>>
    ghost var Reservations: seq<Reservation>  // all that was ever handed out

    /** The heap and the pool of those it takes turns with. */
    ghost predicate HeapsValid(t: Timeline)
      reads this`m_pDescriptorHeap, this`NumDescriptors, this`NumHeaps, m_HeapPool, t
    {
      && t.Valid()
      && 0 < NumDescriptors <= m_MaxHeapSize
      && m_pDescriptorHeap < NumHeaps
      && Pooled(m_HeapPool.m_Pool, t.CommandListID + 1)
      && (forall i :: 0 <= i < |m_HeapPool.m_Pool| ==> m_HeapPool.m_Pool[i].resource < NumHeaps)
    }

    ghost predicate Formed(t: Timeline)
      reads this`m_pDescriptorHeap, this`NumDescriptors, this`NumHeaps, this`m_DescriptorRingBuffer, m_HeapPool
      reads m_DescriptorRingBuffer, m_DescriptorRingBuffer.m_Ledger, t
    {
      && HeapsValid(t)
      && m_DescriptorRingBuffer.Valid()
      && m_DescriptorRingBuffer.m_Size == NumDescriptors
      && m_DescriptorRingBuffer.Last <= t.CommandListID
      && m_DescriptorRingBuffer.Released <= t.Completed
    }

    ghost function Heaps(): HeapState
      reads this`m_pDescriptorHeap, this`NumDescriptors, this`Retired, this`NumHeaps, m_HeapPool
    {
      HeapState(m_pDescriptorHeap, NumDescriptors, Retired, m_HeapPool.m_Pool, NumHeaps)
    }

    ghost function TheBooks(): Books
      reads this, m_HeapPool, m_DescriptorRingBuffer
    {
      BooksOf(Heaps(), Reservations, m_DescriptorRingBuffer.Live)
    }

    /** In every reachable state no slot is in use twice. */
    ghost predicate Valid(t: Timeline)
      reads this, m_HeapPool, m_DescriptorRingBuffer, m_DescriptorRingBuffer.m_Ledger, t
    {
      Formed(t) && BooksHold(TheBooks(), t.Completed, t.CommandListID)
    }

    constructor (numDescriptors: nat, maxHeapSize: nat, t: Timeline)
      requires 0 < numDescriptors <= maxHeapSize && t.Valid()
      ensures Valid(t) && NumDescriptors == numDescriptors && fresh(m_HeapPool) && fresh(m_DescriptorRingBuffer)
      ensures Reservations == []
    {
      Retired, Reservations := [], [];
      m_MaxHeapSize, NumDescriptors := maxHeapSize, numDescriptors;
      m_pDescriptorHeap, NumHeaps := 0, 1;
      m_DescriptorRingBuffer := new CFencedRingBuffer(numDescriptors);
      m_HeapPool := new CFencePool<HeapId>();
    }

    /** Puts a heap in the place of a full one. While it can grow it does, and the old heap
        is retired for deferred deletion; at full size heaps take turns, and one comes back
        only when the GPU has reached the command list it was given back under. */
    method SwitchHeap(t: Timeline)
      requires HeapsValid(t)
      modifies this`NumDescriptors, this`m_pDescriptorHeap, this`NumHeaps, this`Retired, m_HeapPool, t`Completed
      ensures HeapsValid(t) && old(t.Completed) <= t.Completed
      ensures Switched(old(Heaps()), Heaps(), m_MaxHeapSize, t.CommandListID, old(t.Completed), t.Completed)
    {
      if NumDescriptors < m_MaxHeapSize {
        Retired := Retired + [PoolEntry(t.CommandListID, m_pDescriptorHeap)];
        NumDescriptors := if NumDescriptors * 2 < m_MaxHeapSize then NumDescriptors * 2 else m_MaxHeapSize;
        m_pDescriptorHeap, NumHeaps := NumHeaps, NumHeaps + 1;
      } else {
        m_HeapPool.ReturnToPool(m_pDescriptorHeap, t.CommandListID);
        var completed := t.GetCompletedValue();
        var heap := m_HeapPool.RetrieveFromPool(completed);
        if heap.Some? {
          m_pDescriptorHeap := heap.value;
        } else {
          m_pDescriptorHeap, NumHeaps := NumHeaps, NumHeaps + 1;
        }
      }
    }

    /** Switches heaps and starts over with an empty ring buffer. */
    method RollOverHeap(t: Timeline)
      requires HeapsValid(t)
      modifies this, m_HeapPool, t`Completed
      ensures Formed(t) && fresh(m_DescriptorRingBuffer) && fresh(m_DescriptorRingBuffer.m_Ledger)
      ensures m_DescriptorRingBuffer.Live == [] && Reservations == old(Reservations)
      ensures old(t.Completed) <= t.Completed && old(NumDescriptors) <= NumDescriptors
      ensures Switched(old(Heaps()), Heaps(), m_MaxHeapSize, t.CommandListID, old(t.Completed), t.Completed)
      ensures forall n: nat, fence :: 0 < fence && n <= NumDescriptors ==>
        CanTake(m_DescriptorRingBuffer.Fields(), n, fence)
    {
      SwitchHeap(t);
      m_DescriptorRingBuffer := new CFencedRingBuffer(NumDescriptors);
    }

    /** The last live window is the reservation. */
    ghost predicate Reserved(offset: nat, numSlots: nat, fence: nat)
      reads this`m_pDescriptorHeap, this`m_DescriptorRingBuffer, this`NumDescriptors, m_DescriptorRingBuffer`Live
    {
      var live := m_DescriptorRingBuffer.Live;
      && live != [] && NumDescriptors > 0 && offset + numSlots <= NumDescriptors
      && IsWindow(Reservation(m_pDescriptorHeap, offset, numSlots, fence), live[|live| - 1], NumDescriptors)
    }

    /** What was live stays so, and a reservation adds to it. */
    ghost predicate MoreLive(was: seq<Window>, reserved: bool)
      reads this`m_DescriptorRingBuffer, m_DescriptorRingBuffer`Live
    {
      var live := m_DescriptorRingBuffer.Live;
      |was| <= |live| && was == live[..|was|] && (reserved ==> |was| < |live|)
    }

    method TryReserve(numSlots: nat, t: Timeline) returns (ok: bool, offset: nat)
      requires Formed(t) && numSlots <= NumDescriptors
      modifies m_DescriptorRingBuffer, m_DescriptorRingBuffer.m_Ledger
      ensures Formed(t)
      ensures ok <==> old(CanTake(m_DescriptorRingBuffer.Fields(), numSlots, t.CommandListID))
      ensures ok && numSlots > 0 ==> Reserved(offset, numSlots, t.CommandListID)
      ensures MoreLive(old(m_DescriptorRingBuffer.Live), ok && numSlots > 0)
    {
      ok, offset := m_DescriptorRingBuffer.Allocate(numSlots, t.CommandListID);
    }

    /** Reserves contiguous slots for the current command list, rolling over at most once, and
        then to another heap. Together with the invariant: whatever the run so far, the slots
        are used by no command list that the GPU is not done with. */
    method ReserveSlots(numSlots: nat, t: Timeline) returns (offset: nat, rollOvers: nat)
      requires Valid(t) && numSlots <= NumDescriptors
      modifies this, m_HeapPool, m_DescriptorRingBuffer, m_DescriptorRingBuffer.m_Ledger, t`Completed
      ensures Valid(t)
      ensures numSlots > 0 ==> Reserved(offset, numSlots, t.CommandListID)
      ensures rollOvers == if old(CanTake(m_DescriptorRingBuffer.Fields(), numSlots, t.CommandListID)) then 0 else 1
      ensures Reservations
        == old(Reservations)
           + if numSlots > 0 then [Reservation(m_pDescriptorHeap, offset, numSlots, t.CommandListID)] else []
      ensures rollOvers == 0 ==> Heaps() == old(Heaps()) && m_DescriptorRingBuffer == old(m_DescriptorRingBuffer)
      ensures rollOvers == 1 ==>
        && m_pDescriptorHeap != old(m_pDescriptorHeap)
        && Switched(old(Heaps()), Heaps(), m_MaxHeapSize, t.CommandListID, old(t.Completed), t.Completed)
    {
      ghost var was, live := Heaps(), m_DescriptorRingBuffer.Live;
      offset, rollOvers := FindSlots(numSlots, t);
      ghost var r :=
        if numSlots > 0 then Some(Reservation(m_pDescriptorHeap, offset, numSlots, t.CommandListID)) else None;
      Book(was, live, r, rollOvers == 1, old(t.Completed), t);
    }

    /** The heap in use has been switched, or is the same with more live windows. */
    ghost predicate Moved(was: HeapState, live: seq<Window>, switched: bool, known: nat, t: Timeline)
      reads this`m_pDescriptorHeap, this`NumDescriptors, this`Retired, this`NumHeaps, m_HeapPool
      reads this`m_DescriptorRingBuffer, m_DescriptorRingBuffer`Live, t
    {
      if switched then Switched(was, Heaps(), m_MaxHeapSize, t.CommandListID, known, t.Completed)
      else Heaps() == was && MoreLive(live, false)
    }

    /** Notes the reservation that was made, if any. */
    ghost method Book(was: HeapState, live: seq<Window>, r: Option<Reservation>, switched: bool, known: nat,
        t: Timeline)
      requires Formed(t) && known <= t.Completed && was.size <= m_MaxHeapSize
      requires BooksHold(BooksOf(was, Reservations, live), known, t.CommandListID)
      requires Moved(was, live, switched, known, t)
      requires r.Some? ==>
        && r.value.heap == m_pDescriptorHeap && r.value.fence == t.CommandListID
        && Reserved(r.value.offset, r.value.count, r.value.fence)
        && (!switched ==> |live| < |m_DescriptorRingBuffer.Live|)
      modifies this`Reservations
      ensures Valid(t) && Reservations == old(Reservations) + if r.Some? then [r.value] else []
      ensures switched ==> m_pDescriptorHeap != was.heap
    {
      LiveAreApart(t);
      ReservedIsKept(was, Heaps(), Reservations, live, m_DescriptorRingBuffer.Live, r, switched, m_MaxHeapSize,
                     t.CommandListID, known, t.Completed);
      Reservations := Reservations + if r.Some? then [r.value] else [];
    }

    lemma LiveAreApart(t: Timeline)
      requires Formed(t)
      ensures AllApart(m_DescriptorRingBuffer.Live, NumDescriptors)
    {
      var ring := m_DescriptorRingBuffer;
      LiveWindowsAreApart(ring.Fields(), ring.Live, ring.Last, ring.Released);
    }

    /** Another heap has room for anything that fits into a heap. */
    method RetryElsewhere(numSlots: nat, t: Timeline) returns (ok: bool, offset: nat)
      requires Formed(t) && numSlots <= NumDescriptors
      modifies this, m_HeapPool, t`Completed
      ensures Formed(t) && fresh(m_DescriptorRingBuffer) && fresh(m_DescriptorRingBuffer.m_Ledger)
      ensures ok && Reservations == old(Reservations) && old(t.Completed) <= t.Completed
      ensures numSlots <= NumDescriptors
      ensures numSlots > 0 ==> Reserved(offset, numSlots, t.CommandListID)
      ensures Switched(old(Heaps()), Heaps(), m_MaxHeapSize, t.CommandListID, old(t.Completed), t.Completed)
    {
      RollOverHeap(t);
      ok, offset := TryReserve(numSlots, t);
    }

    /** The loop. */
    method FindSlots(numSlots: nat, t: Timeline) returns (offset: nat, rollOvers: nat)
      requires Formed(t) && numSlots <= NumDescriptors
      modifies this, m_HeapPool, m_DescriptorRingBuffer, m_DescriptorRingBuffer.m_Ledger, t`Completed
      ensures Formed(t) && old(t.Completed) <= t.Completed && Reservations == old(Reservations)
      ensures numSlots > 0 ==> Reserved(offset, numSlots, t.CommandListID)
      ensures rollOvers == if old(CanTake(m_DescriptorRingBuffer.Fields(), numSlots, t.CommandListID)) then 0 else 1
      ensures Moved(old(Heaps()), old(m_DescriptorRingBuffer.Live), rollOvers == 1, old(t.Completed), t)
      ensures rollOvers == 0 ==> m_DescriptorRingBuffer == old(m_DescriptorRingBuffer)
      ensures rollOvers == 0 && numSlots > 0 ==>
        old(|m_DescriptorRingBuffer.Live|) < |m_DescriptorRingBuffer.Live|
    {
      ghost var can := CanTake(m_DescriptorRingBuffer.Fields(), numSlots, t.CommandListID);
      var ok;
      rollOvers := 0;
      ok, offset := TryReserve(numSlots, t);
      while !ok
        invariant Formed(t) && numSlots <= NumDescriptors && Reservations == old(Reservations)
        invariant m_DescriptorRingBuffer == old(m_DescriptorRingBuffer) || fresh(m_DescriptorRingBuffer)
        invariant m_DescriptorRingBuffer.m_Ledger == old(m_DescriptorRingBuffer.m_Ledger)
          || fresh(m_DescriptorRingBuffer.m_Ledger)
        invariant ok && numSlots > 0 ==> Reserved(offset, numSlots, t.CommandListID)
        invariant old(t.Completed) <= t.Completed
        invariant !ok ==> rollOvers == 0 && t.Completed == old(t.Completed)
        invariant rollOvers == if can || !ok then 0 else 1
        invariant rollOvers == 0 ==>
          && Heaps() == old(Heaps()) && m_DescriptorRingBuffer == old(m_DescriptorRingBuffer)
          && MoreLive(old(m_DescriptorRingBuffer.Live), ok && numSlots > 0)
        invariant rollOvers == 1 ==>
          Switched(old(Heaps()), Heaps(), m_MaxHeapSize, t.CommandListID, old(t.Completed), t.Completed)
        decreases !ok
      {
        ok, offset := RetryElsewhere(numSlots, t);
        rollOvers := rollOvers + 1;
      }
    }

    /** After a submission the slots of completed command lists are free again, and only those. */
    method PostSubmitNotification(t: Timeline) returns (ghost p: nat)
      requires Valid(t)
      modifies m_DescriptorRingBuffer, m_DescriptorRingBuffer.m_Ledger, t`Completed
      ensures Valid(t)
      ensures p <= |old(m_DescriptorRingBuffer.Live)|
        && m_DescriptorRingBuffer.Live == old(m_DescriptorRingBuffer.Live)[p..]
      ensures forall k :: 0 <= k < p ==> old(m_DescriptorRingBuffer.Live)[k].fence <= t.Completed
      ensures forall k :: 0 <= k < |m_DescriptorRingBuffer.Live| ==> m_DescriptorRingBuffer.Live[k].fence > t.Completed
    {
      ghost var b := TheBooks();
      var completed := t.GetCompletedValue();
      p := m_DescriptorRingBuffer.Deallocate(completed);
      KeptLater(b, old(t.Completed), t.CommandListID, t.Completed, t.CommandListID);
      FewerWindows(b, p, t.Completed, t.CommandListID);
    }
  }
}
