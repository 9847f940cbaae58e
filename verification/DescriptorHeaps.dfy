/**
 CPU-only descriptor slots in a growing list of heaps, each with a list of free address
 ranges: CDescriptorHeapManager of include/d3d12translationlayer/ImmediateContext.hpp.
 */
module DescriptorHeaps {
  import opened Arithmetic

  datatype SFreeRange = SFreeRange(Start: nat, End: nat)

  datatype SHeapEntry = SHeapEntry(Base: nat, FreeList: seq<SFreeRange>)

  /** One slot of one heap. */
  datatype Slot = Slot(heap: nat, ptr: nat)

  // ---------------------------------------------------------------------------------
  // One free list
  // ---------------------------------------------------------------------------------

  /** An address at which a slot may start or end. */
  ghost predicate Aligned(base: nat, size: nat, ptr: nat)
    requires size > 0
  {
    base <= ptr && (ptr - base) % size == 0
  }

  lemma AlignedGap(base: nat, size: nat, x: nat, y: nat)
    requires size > 0 && Aligned(base, size, x) && Aligned(base, size, y)
    ensures x < y ==> x + size <= y
    ensures Aligned(base, size, x + size)
  {
    var p, q := (x - base) / size, (y - base) / size;
    assert x - base == size * p && y - base == size * q;
    assert x + size - base == size * (p + 1);
    DivModUnique(x + size - base, size, p + 1, 0);
    if x < y {
      Monotone(size, q, p);
      Monotone(size, p + 1, q);
    }
  }

  ghost predicate WellFormed(base: nat, limit: nat, size: nat, list: seq<SFreeRange>)
    requires size > 0
  {
    && (forall i :: 0 <= i < |list| ==>
          base <= list[i].Start < list[i].End <= limit
          && Aligned(base, size, list[i].Start) && Aligned(base, size, list[i].End))
    && (forall i, j :: 0 <= i < j < |list| ==> list[i].End <= list[j].Start)
  }

  ghost predicate Covers(range: SFreeRange, ptr: nat) {
    range.Start <= ptr < range.End
  }

  /** The slot at an address is free. */
  ghost predicate FreeIn(list: seq<SFreeRange>, ptr: nat) {
    exists i :: 0 <= i < |list| && Covers(list[i], ptr)
  }

  /** list' is list with one slot more or less. */
  ghost predicate FreeExcept(base: nat, size: nat, list: seq<SFreeRange>, list': seq<SFreeRange>, ptr: nat)
    requires size > 0
  {
    forall x: nat :: Aligned(base, size, x) && x != ptr ==> (FreeIn(list', x) <==> FreeIn(list, x))
  }

  /** Replacing one range keeps the slots of all the others. */
  lemma RangeReplaced(list: seq<SFreeRange>, i: nat, r: SFreeRange, x: nat)
    requires i < |list| && (Covers(r, x) <==> Covers(list[i], x))
    ensures FreeIn(list[i := r], x) <==> FreeIn(list, x)
  {
    var list' := list[i := r];
    if FreeIn(list, x) {
      var j :| 0 <= j < |list| && Covers(list[j], x);
      assert Covers(list'[j], x);
    }
    if FreeIn(list', x) {
      var j :| 0 <= j < |list'| && Covers(list'[j], x);
      assert Covers(list[j], x);
    }
  }

  /** Adding a range adds its slots. */
  lemma RangeInserted(list: seq<SFreeRange>, i: nat, r: SFreeRange, x: nat)
    requires i <= |list|
    ensures FreeIn(list[..i] + [r] + list[i..], x) <==> FreeIn(list, x) || Covers(r, x)
  {
    var list' := list[..i] + [r] + list[i..];
    if FreeIn(list, x) {
      var j :| 0 <= j < |list| && Covers(list[j], x);
      assert Covers(list'[if j < i then j else j + 1], x);
    }
    if Covers(r, x) {
      assert Covers(list'[i], x);
    }
    if FreeIn(list', x) {
      var j :| 0 <= j < |list'| && Covers(list'[j], x);
      if j != i {
        assert Covers(list[if j < i then j else j - 1], x);
      }
    }
  }

  /** Taking the first slot of a range with more than one. */
  ghost function Shrunk(list: seq<SFreeRange>, size: nat): seq<SFreeRange>
    requires list != []
  {
    list[0 := SFreeRange(list[0].Start + size, list[0].End)]
  }

  lemma ShrinkFirst(base: nat, limit: nat, size: nat, list: seq<SFreeRange>)
    requires size > 0 && WellFormed(base, limit, size, list) && list != []
    requires list[0].Start + size != list[0].End
    ensures WellFormed(base, limit, size, Shrunk(list, size))
    ensures FreeExcept(base, size, list, Shrunk(list, size), list[0].Start)
    ensures FreeIn(list, list[0].Start) && !FreeIn(Shrunk(list, size), list[0].Start)
  {
    var p, r := list[0].Start, SFreeRange(list[0].Start + size, list[0].End);
    var list' := Shrunk(list, size);
    assert |list'| == |list| && list'[0] == r;
    AlignedGap(base, size, p, list[0].End);
    assert forall j :: 0 < j < |list'| ==> list'[j] == list[j];
    assert WellFormed(base, limit, size, list');
    assert Covers(list[0], p);
    assert !FreeIn(list', p) by {
      assert forall j :: 0 <= j < |list'| ==> p < list'[j].Start;
    }
    forall x: nat | Aligned(base, size, x) && x != p
      ensures FreeIn(list', x) <==> FreeIn(list, x)
    {
      AlignedGap(base, size, p, x);
      assert list' == list[0 := r];
      RangeReplaced(list, 0, r, x);
    }
  }

  /** Taking the only slot of the first range. */
  lemma DropFirst(base: nat, limit: nat, size: nat, list: seq<SFreeRange>)
    requires size > 0 && WellFormed(base, limit, size, list) && list != []
    requires list[0].Start + size == list[0].End
    ensures WellFormed(base, limit, size, list[1..]) && FreeExcept(base, size, list, list[1..], list[0].Start)
    ensures FreeIn(list, list[0].Start) && !FreeIn(list[1..], list[0].Start)
  {
    var p := list[0].Start;
    assert Covers(list[0], p);
    assert forall j :: 0 <= j < |list[1..]| ==> list[1..][j] == list[j + 1];
    assert list == list[1..][..0] + [list[0]] + list[1..][0..];
    forall x: nat | Aligned(base, size, x) && x != p
      ensures FreeIn(list[1..], x) <==> FreeIn(list, x)
    {
      AlignedGap(base, size, p, x);
      RangeInserted(list[1..], 0, list[0], x);
    }
  }

  /** Giving a slot back to the range that starts right behind it. */
  lemma GrowDown(base: nat, limit: nat, size: nat, list: seq<SFreeRange>, i: nat, p: nat)
    requires size > 0 && WellFormed(base, limit, size, list) && i < |list|
    requires Aligned(base, size, p) && list[i].Start == p + size
    requires forall j :: 0 <= j < i ==> list[j].End < p
    ensures WellFormed(base, limit, size, list[i := SFreeRange(p, list[i].End)])
    ensures FreeIn(list[i := SFreeRange(p, list[i].End)], p)
    ensures FreeExcept(base, size, list, list[i := SFreeRange(p, list[i].End)], p)
  {
    var r := SFreeRange(p, list[i].End);
    assert Covers(list[i := r][i], p);
    forall x: nat | Aligned(base, size, x) && x != p
      ensures FreeIn(list[i := r], x) <==> FreeIn(list, x)
    {
      AlignedGap(base, size, p, x);
      RangeReplaced(list, i, r, x);
    }
  }

  /** Giving a slot back to the range that ends right in front of it. */
  lemma GrowUp(base: nat, limit: nat, size: nat, list: seq<SFreeRange>, i: nat, p: nat)
    requires size > 0 && WellFormed(base, limit, size, list) && i < |list|
    requires Aligned(base, size, p) && list[i].End == p && !FreeIn(list, p) && p + size <= limit
    ensures WellFormed(base, limit, size, list[i := SFreeRange(list[i].Start, p + size)])
    ensures FreeIn(list[i := SFreeRange(list[i].Start, p + size)], p)
    ensures FreeExcept(base, size, list, list[i := SFreeRange(list[i].Start, p + size)], p)
  {
    var r := SFreeRange(list[i].Start, p + size);
    assert Covers(list[i := r][i], p);
    AlignedGap(base, size, p, p);
    forall j | i < j < |list|
      ensures p + size <= list[j].Start
    {
      assert !Covers(list[j], p);
      AlignedGap(base, size, p, list[j].Start);
    }
    forall x: nat | Aligned(base, size, x) && x != p
      ensures FreeIn(list[i := r], x) <==> FreeIn(list, x)
    {
      AlignedGap(base, size, p, x);
      RangeReplaced(list, i, r, x);
    }
  }

  /** Giving a slot back as a range of its own, in front of the i-th. */
  lemma InsertRange(base: nat, limit: nat, size: nat, list: seq<SFreeRange>, i: nat, p: nat)
    requires size > 0 && WellFormed(base, limit, size, list) && i <= |list|
    requires Aligned(base, size, p) && p + size <= limit
    requires forall j :: 0 <= j < i ==> list[j].End < p
    requires i < |list| ==> p < list[i].Start
    ensures WellFormed(base, limit, size, list[..i] + [SFreeRange(p, p + size)] + list[i..])
    ensures FreeIn(list[..i] + [SFreeRange(p, p + size)] + list[i..], p)
    ensures FreeExcept(base, size, list, list[..i] + [SFreeRange(p, p + size)] + list[i..], p)
  {
    var r := SFreeRange(p, p + size);
    AlignedGap(base, size, p, p);
    if i < |list| {
      AlignedGap(base, size, p, list[i].Start);
    }
    InsertWellFormed(base, limit, size, list, i, r);
    RangeInserted(list, i, r, p);
    forall x: nat | Aligned(base, size, x) && x != p
      ensures FreeIn(list[..i] + [r] + list[i..], x) <==> FreeIn(list, x)
    {
      AlignedGap(base, size, p, x);
      RangeInserted(list, i, r, x);
    }
  }

  lemma InsertWellFormed(base: nat, limit: nat, size: nat, list: seq<SFreeRange>, i: nat, r: SFreeRange)
    requires size > 0 && WellFormed(base, limit, size, list) && i <= |list|
    requires WellFormed(base, limit, size, [r])
    requires forall j :: 0 <= j < i ==> list[j].End <= r.Start
    requires i < |list| ==> r.End <= list[i].Start
    ensures WellFormed(base, limit, size, list[..i] + [r] + list[i..])
  {
    var list' := list[..i] + [r] + list[i..];
    assert [r][0] == r;
    forall j | i <= j < |list|
      ensures r.End <= list[j].Start
    {
      assert j == i || list[i].End <= list[j].Start;
    }
    forall j, k | 0 <= j < k < |list'|
      ensures list'[j].End <= list'[k].Start
    {
    }
  }

  // ---------------------------------------------------------------------------------
  // The manager
  // ---------------------------------------------------------------------------------

  ghost predicate Heap(entry: SHeapEntry, numDescriptors: nat, size: nat)
    requires size > 0
  {
    WellFormed(entry.Base, entry.Base + numDescriptors * size, size, entry.FreeList)
  }

  ghost predicate SlotOf(entry: SHeapEntry, numDescriptors: nat, size: nat, ptr: nat)
    requires size > 0
  {
    Aligned(entry.Base, size, ptr) && ptr < entry.Base + numDescriptors * size
  }

  /** In every heap the free slots and the outstanding ones partition all slots. */
  ghost predicate Partitioned(heaps: seq<SHeapEntry>, n: nat, size: nat, out: set<Slot>)
    requires size > 0
  {
    && (forall h :: 0 <= h < |heaps| ==> Heap(heaps[h], n, size))
    && (forall h, p :: 0 <= h < |heaps| && SlotOf(heaps[h], n, size, p) ==>
          (FreeIn(heaps[h].FreeList, p) <==> Slot(h, p) !in out))
    && (forall s <- out :: s.heap < |heaps| && SlotOf(heaps[s.heap], n, size, s.ptr))
  }

  /** The addresses that the device chose for the heaps. */
  ghost function Bases(heaps: seq<SHeapEntry>): (r: seq<nat>)
    ensures |r| == |heaps| && forall h :: 0 <= h < |heaps| ==> r[h] == heaps[h].Base
  {
    seq(|heaps|, h requires 0 <= h < |heaps| => heaps[h].Base)
  }

  /** Two stretches of addresses that have nothing in common. */
  predicate Apart(x: nat, y: nat, length: nat) {
    x + length <= y || y + length <= x
  }

  /** No two heaps overlap. */
  ghost predicate AllApart(bases: seq<nat>, length: nat) {
    forall i, j :: 0 <= i < j < |bases| ==> Apart(bases[i], bases[j], length)
  }

  /** If the device puts the heaps at disjoint addresses, no two outstanding slots overlap. */
  lemma OutstandingSlotsAreApart(heaps: seq<SHeapEntry>, n: nat, size: nat, out: set<Slot>, a: Slot, b: Slot)
    requires size > 0 && Partitioned(heaps, n, size, out) && AllApart(Bases(heaps), n * size)
    requires a in out && b in out && a != b
    ensures Apart(a.ptr, b.ptr, size)
  {
    LimitIsAligned(heaps[a.heap].Base, n, size, a.ptr);
    LimitIsAligned(heaps[b.heap].Base, n, size, b.ptr);
    if a.heap == b.heap {
      AlignedGap(heaps[a.heap].Base, size, a.ptr, b.ptr);
      AlignedGap(heaps[a.heap].Base, size, b.ptr, a.ptr);
    } else {
      var bases := Bases(heaps);
      assert if a.heap < b.heap then Apart(bases[a.heap], bases[b.heap], n * size)
             else Apart(bases[b.heap], bases[a.heap], n * size);
    }
  }

  lemma NewSlotIsApart(heaps: seq<SHeapEntry>, n: nat, size: nat, out: set<Slot>, slot: Slot)
    requires size > 0 && Partitioned(heaps, n, size, out + {slot}) && slot !in out
    ensures AllApart(Bases(heaps), n * size) ==> forall s <- out :: Apart(s.ptr, slot.ptr, size)
  {
    if AllApart(Bases(heaps), n * size) {
      forall s <- out ensures Apart(s.ptr, slot.ptr, size) {
        OutstandingSlotsAreApart(heaps, n, size, out + {slot}, s, slot);
      }
    }
  }

  lemma BasesKept(heaps: seq<SHeapEntry>, h: nat, list: seq<SFreeRange>)
    requires h < |heaps|
    ensures Bases(heaps[h := heaps[h].(FreeList := list)]) == Bases(heaps)
  {
  }

  /** The list of free heaps names each heap with free ranges once, and no other. */
  ghost predicate FreeHeapsListed(heaps: seq<SHeapEntry>, free: seq<nat>) {
    && (forall i :: 0 <= i < |free| ==> free[i] < |heaps| && heaps[free[i]].FreeList != [])
    && (forall i, j :: 0 <= i < j < |free| ==> free[i] != free[j])
    && (forall h :: 0 <= h < |heaps| && heaps[h].FreeList != [] ==> h in free)
  }

  /** One slot of one heap changed sides. */
  lemma SlotMoved(heaps: seq<SHeapEntry>, n: nat, size: nat, out: set<Slot>, h: nat, list: seq<SFreeRange>, p: nat,
      out': set<Slot>)
    requires size > 0 && Partitioned(heaps, n, size, out) && h < |heaps| && SlotOf(heaps[h], n, size, p)
    requires Heap(heaps[h].(FreeList := list), n, size)
    requires FreeExcept(heaps[h].Base, size, heaps[h].FreeList, list, p)
    requires out' == if FreeIn(list, p) then out - {Slot(h, p)} else out + {Slot(h, p)}
    ensures Partitioned(heaps[h := heaps[h].(FreeList := list)], n, size, out')
  {
  }

  lemma FreeHeapsKept(heaps: seq<SHeapEntry>, free: seq<nat>, h: nat, list: seq<SFreeRange>)
    requires FreeHeapsListed(heaps, free) && h < |heaps| && heaps[h].FreeList != [] && list != []
    ensures FreeHeapsListed(heaps[h := heaps[h].(FreeList := list)], free)
  {
  }

  lemma FreeAgain(heaps: seq<SHeapEntry>, free: seq<nat>, h: nat, list: seq<SFreeRange>)
    requires FreeHeapsListed(heaps, free) && h < |heaps| && heaps[h].FreeList == [] && list != []
    ensures FreeHeapsListed(heaps[h := heaps[h].(FreeList := list)], free + [h])
  {
    var heaps' := heaps[h := heaps[h].(FreeList := list)];
    forall g | 0 <= g < |heaps'| && heaps'[g].FreeList != []
      ensures g in free + [h]
    {
      assert g == h || g in free;
    }
  }

  lemma FrontIsFull(heaps: seq<SHeapEntry>, free: seq<nat>)
    requires FreeHeapsListed(heaps, free) && free != []
    ensures FreeHeapsListed(heaps[free[0] := heaps[free[0]].(FreeList := [])], free[1..])
  {
    var heaps' := heaps[free[0] := heaps[free[0]].(FreeList := [])];
    forall h | 0 <= h < |heaps'| && heaps'[h].FreeList != []
      ensures h in free[1..]
    {
      assert h in free;
    }
  }

  lemma FirstIsLowest(base: nat, limit: nat, size: nat, free: seq<SFreeRange>)
    requires size > 0 && WellFormed(base, limit, size, free) && free != []
    ensures forall x :: FreeIn(free, x) ==> free[0].Start <= x
  {
    forall x | FreeIn(free, x) ensures free[0].Start <= x {
      var i :| 0 <= i < |free| && Covers(free[i], x);
      assert i == 0 || free[0].End <= free[i].Start;
    }
  }

  /** Takes the first slot of the first range; a range that is used up disappears. */
  method TakeFirst(free: seq<SFreeRange>, size: nat, ghost base: nat, ghost limit: nat)
    returns (ptr: nat, list: seq<SFreeRange>)
    requires size > 0 && WellFormed(base, limit, size, free) && free != []
    ensures Aligned(base, size, ptr) && ptr < limit && FreeIn(free, ptr) && !FreeIn(list, ptr)
    ensures forall x :: FreeIn(free, x) ==> ptr <= x
    ensures WellFormed(base, limit, size, list) && FreeExcept(base, size, free, list, ptr)
  {
    ptr := free[0].Start;
    var first := SFreeRange(ptr + size, free[0].End);
    if first.Start == first.End {
      DropFirst(base, limit, size, free);
      list := free[1..];
    } else {
      ShrinkFirst(base, limit, size, free);
      list := free[0 := first];
      assert list == Shrunk(free, size);
    }
    FirstIsLowest(base, limit, size, free);
  }

  class CDescriptorHeapManager {
    const m_NumDescriptors: nat
    const m_DescriptorSize: nat
    var m_Heaps: seq<SHeapEntry>
    var m_FreeHeaps: seq<nat>

    ghost var Outstanding: set<Slot>

    ghost predicate Valid()
      reads this
    {
      && m_NumDescriptors > 0 && m_DescriptorSize > 0
      && Partitioned(m_Heaps, m_NumDescriptors, m_DescriptorSize, Outstanding)
      && FreeHeapsListed(m_Heaps, m_FreeHeaps)
    }

    constructor (numDescriptors: nat, descriptorSize: nat)
      requires numDescriptors > 0 && descriptorSize > 0
      ensures Valid() && Outstanding == {} && m_Heaps == []
      ensures m_NumDescriptors == numDescriptors && m_DescriptorSize == descriptorSize
    {
      m_NumDescriptors, m_DescriptorSize := numDescriptors, descriptorSize;
      m_Heaps, m_FreeHeaps, Outstanding := [], [], {};
    }

    /** Adds a heap, all of it free, at the address the device chose for it. */
    method AllocateHeap(heapBase: nat)
      requires Valid()
      modifies this`m_Heaps, this`m_FreeHeaps
      ensures Valid() && |m_Heaps| == old(|m_Heaps|) + 1 && m_Heaps[..old(|m_Heaps|)] == old(m_Heaps)
      ensures m_Heaps[old(|m_Heaps|)].Base == heapBase && m_FreeHeaps == old(m_FreeHeaps) + [old(|m_Heaps|)]
    {
      var limit := heapBase + m_NumDescriptors * m_DescriptorSize;
      WholeHeapIsFree(heapBase, m_NumDescriptors, m_DescriptorSize);
      m_Heaps := m_Heaps + [SHeapEntry(heapBase, [SFreeRange(heapBase, limit)])];
      m_FreeHeaps := m_FreeHeaps + [|m_Heaps| - 1];
    }

    /** Hands out a slot that nobody has, the lowest free one of the first heap that has any,
        growing only when every heap is full. */
    method AllocateHeapSlot(newHeapBase: nat) returns (ret: Slot)
      requires Valid()
      modifies this
      ensures Valid() && ret !in old(Outstanding) && Outstanding == old(Outstanding) + {ret}
      ensures ret.heap == (if old(m_FreeHeaps) == [] then old(|m_Heaps|) else old(m_FreeHeaps)[0]) < |m_Heaps|
      ensures SlotOf(m_Heaps[ret.heap], m_NumDescriptors, m_DescriptorSize, ret.ptr)
      ensures forall x: nat :: x < ret.ptr && SlotOf(m_Heaps[ret.heap], m_NumDescriptors, m_DescriptorSize, x) ==>
        Slot(ret.heap, x) in old(Outstanding)
      ensures Bases(m_Heaps) == old(Bases(m_Heaps)) + if old(m_FreeHeaps) == [] then [newHeapBase] else []
      ensures AllApart(Bases(m_Heaps), m_NumDescriptors * m_DescriptorSize) ==>
        forall s <- old(Outstanding) :: Apart(s.ptr, ret.ptr, m_DescriptorSize)
    {
      if m_FreeHeaps == [] {
        AllocateHeap(newHeapBase);
      }
      var index := m_FreeHeaps[0];
      var ptr := TakeSlot(index);
      ret := Slot(index, ptr);
      NewSlotIsApart(m_Heaps, m_NumDescriptors, m_DescriptorSize, old(Outstanding), ret);
    }

    /** The first free slot of the heap at the front of the list of free heaps. */
    method TakeSlot(index: nat) returns (ptr: nat)
      requires Valid() && m_FreeHeaps != [] && index == m_FreeHeaps[0]
      modifies this
      ensures Valid() && Slot(index, ptr) !in old(Outstanding) && Outstanding == old(Outstanding) + {Slot(index, ptr)}
      ensures Bases(m_Heaps) == old(Bases(m_Heaps))
      ensures SlotOf(m_Heaps[index], m_NumDescriptors, m_DescriptorSize, ptr)
      ensures forall x: nat :: x < ptr && SlotOf(m_Heaps[index], m_NumDescriptors, m_DescriptorSize, x) ==>
        Slot(index, x) in old(Outstanding)
    {
      var entry, list := m_Heaps[index], [];
      ptr, list := TakeFirst(entry.FreeList, m_DescriptorSize, entry.Base,
                             entry.Base + m_NumDescriptors * m_DescriptorSize);
      SlotMoved(m_Heaps, m_NumDescriptors, m_DescriptorSize, Outstanding, index, list, ptr,
                Outstanding + {Slot(index, ptr)});
      if list == [] {
        FrontIsFull(m_Heaps, m_FreeHeaps);
        m_FreeHeaps := m_FreeHeaps[1..];
      } else {
        FreeHeapsKept(m_Heaps, m_FreeHeaps, index, list);
      }
      BasesKept(m_Heaps, index, list);
      m_Heaps := m_Heaps[index := entry.(FreeList := list)];
      Outstanding := Outstanding + {Slot(index, ptr)};
    }

    /** Takes a slot back into the free list of its heap, merging it with a range it touches. */
    method FreeHeapSlot(slot: Slot)
      requires Valid() && slot in Outstanding
      modifies this
      ensures Valid() && Outstanding == old(Outstanding) - {slot}
      ensures Bases(m_Heaps) == old(Bases(m_Heaps))
    {
      var entry := m_Heaps[slot.heap];
      LimitIsAligned(entry.Base, m_NumDescriptors, m_DescriptorSize, slot.ptr);
      var list := ReturnRange(entry.FreeList, slot.ptr, m_DescriptorSize, entry.Base,
                              entry.Base + m_NumDescriptors * m_DescriptorSize);
      if entry.FreeList == [] {
        FreeAgain(m_Heaps, m_FreeHeaps, slot.heap, list);
        m_FreeHeaps := m_FreeHeaps + [slot.heap];
      } else {
        FreeHeapsKept(m_Heaps, m_FreeHeaps, slot.heap, list);
      }
      SlotMoved(m_Heaps, m_NumDescriptors, m_DescriptorSize, Outstanding, slot.heap, list, slot.ptr,
                Outstanding - {slot});
      BasesKept(m_Heaps, slot.heap, list);
      m_Heaps := m_Heaps[slot.heap := entry.(FreeList := list)];
      Outstanding := Outstanding - {slot};
    }
  }

  /** The walk over a free list: a range that starts or ends at the slot grows, otherwise the
      slot becomes a range of its own in its place. */
  method ReturnRange(free: seq<SFreeRange>, p: nat, size: nat, ghost base: nat, ghost limit: nat)
    returns (list: seq<SFreeRange>)
    requires size > 0 && WellFormed(base, limit, size, free) && !FreeIn(free, p)
    requires Aligned(base, size, p) && p + size <= limit
    ensures WellFormed(base, limit, size, list) && list != []
    ensures FreeIn(list, p) && FreeExcept(base, size, free, list, p)
    ensures |list| == if Touched(free, p, size) then |free| else |free| + 1
  {
    var i := 0;
    while i < |free|
      invariant i <= |free| && forall j :: 0 <= j < i ==> free[j].End < p
    {
      var range := free[i];
      if range.Start == p + size {
        GrowDown(base, limit, size, free, i, p);
        return free[i := SFreeRange(p, range.End)];
      }
      if range.End == p {
        GrowUp(base, limit, size, free, i, p);
        return free[i := SFreeRange(range.Start, p + size)];
      }
      assert !Covers(range, p) && range.End != p;
      if range.Start > p {
        InsertRange(base, limit, size, free, i, p);
        NoneTouched(base, limit, size, free, i, p);
        return free[..i] + [SFreeRange(p, p + size)] + free[i..];
      }
      i := i + 1;
    }
    InsertRange(base, limit, size, free, |free|, p);
    assert free[..|free|] + [SFreeRange(p, p + size)] + free[|free|..] == free + [SFreeRange(p, p + size)];
    list := free + [SFreeRange(p, p + size)];
  }

  /** A range ends where the slot starts, or starts where it ends. */
  ghost predicate Touched(free: seq<SFreeRange>, p: nat, size: nat) {
    exists i :: 0 <= i < |free| && (free[i].Start == p + size || free[i].End == p)
  }

  lemma NoneTouched(base: nat, limit: nat, size: nat, free: seq<SFreeRange>, i: nat, p: nat)
    requires size > 0 && WellFormed(base, limit, size, free) && i < |free| && Aligned(base, size, p)
    requires (forall j :: 0 <= j < i ==> free[j].End < p) && p < free[i].Start != p + size
    ensures !Touched(free, p, size)
  {
    assert p + size < free[i].Start by {
      AlignedGap(base, size, p, free[i].Start);
    }
    forall j | 0 <= j < |free| ensures free[j].Start != p + size && free[j].End != p {
      RangesFollow(base, limit, size, free, i, j);
    }
  }

  lemma RangesFollow(base: nat, limit: nat, size: nat, free: seq<SFreeRange>, i: nat, j: nat)
    requires size > 0 && WellFormed(base, limit, size, free) && i < |free| && j < |free|
    ensures free[j].Start < free[j].End && (i < j ==> free[i].Start < free[j].Start)
  {
    if i < j {
      assert free[i].End <= free[j].Start;
    }
  }

  lemma LimitIsAligned(base: nat, n: nat, size: nat, p: nat)
    requires size > 0 && Aligned(base, size, p) && p < base + n * size
    ensures p + size <= base + n * size
  {
    assert n * size == size * n;
    DivModUnique(n * size, size, n, 0);
    AlignedGap(base, size, p, base + n * size);
  }

  lemma WholeHeapIsFree(base: nat, n: nat, size: nat)
    requires n > 0 && size > 0
    ensures var entry := SHeapEntry(base, [SFreeRange(base, base + n * size)]);
      Heap(entry, n, size) && forall p :: SlotOf(entry, n, size, p) ==> FreeIn(entry.FreeList, p)
  {
    var list := [SFreeRange(base, base + n * size)];
    Monotone(size, 1, n);
    assert n * size == size * n;
    DivModUnique(n * size, size, n, 0);
    DivModUnique(0, size, 0, 0);
    forall p | SlotOf(SHeapEntry(base, list), n, size, p)
      ensures FreeIn(list, p)
    {
      assert Covers(list[0], p);
    }
  }
}
