/**
 The layout of CPU-accessible resources with many subresources: InitializeSubresourceDescs and
 GetResourceSize of src/d3d12translationlayer/Resource.cpp, Align of
 include/d3d12translationlayer/Util.hpp.
 */
module Layout {
  import opened Arithmetic
  import opened Subresources

  const TEXTURE_DATA_PLACEMENT_ALIGNMENT := 512

  /** The least multiple of the alignment that is not below the value. */
  function Align(value: nat, alignment: nat): (r: nat)
    requires alignment > 0
    ensures value <= r < value + alignment && r % alignment == 0
  {
    var q := (value + alignment - 1) / alignment;
    assert value + alignment - 1 == alignment * q + (value + alignment - 1) % alignment;
    DivModUnique(alignment * q, alignment, q, 0);
    alignment * q
  }

  function Pow2(k: nat): (r: nat)
    ensures r > 0
  {
    if k == 0 then 1 else 2 * Pow2(k - 1)
  }

  function Bit(n: nat, i: nat): bool {
    if i == 0 then n % 2 == 1 else Bit(n / 2, i - 1)
  }

  /** r is n with its k lowest bits masked off. */
  ghost predicate Masked(r: nat, n: nat, k: nat) {
    forall i: nat :: Bit(r, i) <==> i >= k && Bit(n, i)
  }

  /** For a power of two the source masks bits off, which is the same multiple. */
  lemma MaskingAligns(value: nat, k: nat, r: nat)
    requires Masked(r, value + Pow2(k) - 1, k)
    ensures r == Align(value, Pow2(k))
  {
    MaskedIsMultiple(value + Pow2(k) - 1, k, r);
    assert Pow2(k) * ((value + Pow2(k) - 1) / Pow2(k)) == Align(value, Pow2(k));
  }

  lemma {:induction false} MaskedIsMultiple(n: nat, k: nat, r: nat)
    requires Masked(r, n, k)
    ensures r == Pow2(k) * (n / Pow2(k))
    decreases k
  {
    if k == 0 {
      BitsDetermine(r, n);
    } else {
      forall i: nat ensures Bit(r / 2, i) <==> i >= k - 1 && Bit(n / 2, i) {
        assert Bit(r, i + 1) <==> i + 1 >= k && Bit(n, i + 1);
      }
      MaskedIsMultiple(n / 2, k - 1, r / 2);
      assert !Bit(r, 0);
      HalfFirst(n, Pow2(k - 1));
    }
  }

  lemma {:induction false} BitsDetermine(a: nat, b: nat)
    requires forall i: nat :: Bit(a, i) <==> Bit(b, i)
    ensures a == b
    decreases a + b
  {
    assert Bit(a, 0) <==> Bit(b, 0);
    if a + b > 0 {
      forall i: nat ensures Bit(a / 2, i) <==> Bit(b / 2, i) {
        assert Bit(a, i + 1) <==> Bit(b, i + 1);
      }
      BitsDetermine(a / 2, b / 2);
    }
  }

  lemma HalfFirst(n: nat, m: nat)
    requires m > 0
    ensures n / (2 * m) == n / 2 / m
  {
    var q := n / 2 / m;
    var low := n / 2 % m;
    assert n / 2 == m * q + low;
    assert n == 2 * m * q + (2 * low + n % 2);
    DivModUnique(n, 2 * m, q, 2 * low + n % 2);
  }

  /** The same on the 64-bit words of the source, for the alignment of placements. */
  lemma MaskingWords(value: bv64)
    requires value <= 0xFFFF_FFFF_FFFF_FE00
    ensures var r := (value + 511) & !511; r >= value && r - value < 512 && r & 511 == 0
  {
  }

  /** A resource with mip levels, array slices and planes; footprint sizes are inputs, by
      subresource. */
  datatype Shape = Shape(MipLevels: nat, ArraySize: nat, PlaneCount: nat, sizes: seq<nat>)

  ghost predicate IsShape(r: Shape) {
    r.MipLevels > 0 && r.ArraySize > 0 && r.PlaneCount > 0 && |r.sizes| == NumSubresources(r)
  }

  function NumSubresources(r: Shape): nat {
    r.MipLevels * r.ArraySize * r.PlaneCount
  }

  /** Position k in memory: array slices of planes of mip levels. */
  function PositionAt(k: nat, r: Shape): Index
    requires r.MipLevels > 0 && r.PlaneCount > 0
  {
    DivMod(k, r.MipLevels);
    DivMod(k / r.MipLevels, r.PlaneCount);
    Index(k % r.MipLevels, k / r.MipLevels / r.PlaneCount, k / r.MipLevels % r.PlaneCount)
  }

  /** The subresource at position k. */
  function SubresourceAt(k: nat, r: Shape): nat
    requires r.MipLevels > 0 && r.PlaneCount > 0
  {
    ComposeSubresourceIdxExtended(PositionAt(k, r), r.MipLevels, r.ArraySize)
  }

  function PositionOf(i: Index, r: Shape): nat {
    r.MipLevels * (r.PlaneCount * i.slice + i.plane) + i.mip
  }

  /** The position is the index in the order that the source calls array, then plane. */
  lemma PositionIsArrayThenPlane(i: Index, r: Shape)
    ensures PositionOf(i, r) == ComposeSubresourceIdxArrayThenPlane(r.MipLevels, r.PlaneCount, i)
  {
    assert r.MipLevels * (r.PlaneCount * i.slice + i.plane)
      == r.MipLevels * (r.PlaneCount * i.slice) + r.MipLevels * i.plane;
    assert r.MipLevels * (r.PlaneCount * i.slice) == i.slice * r.PlaneCount * r.MipLevels;
  }

  lemma PositionOfAt(i: Index, r: Shape)
    requires i.mip < r.MipLevels && i.plane < r.PlaneCount
    ensures PositionAt(PositionOf(i, r), r) == i
  {
    DivModUnique(PositionOf(i, r), r.MipLevels, r.PlaneCount * i.slice + i.plane, i.mip);
    DivModUnique(r.PlaneCount * i.slice + i.plane, r.PlaneCount, i.slice, i.plane);
  }

  lemma PositionAtOf(k: nat, r: Shape)
    requires r.MipLevels > 0 && r.PlaneCount > 0
    ensures var i := PositionAt(k, r); i.mip < r.MipLevels && i.plane < r.PlaneCount && PositionOf(i, r) == k
  {
    DivMod(k, r.MipLevels);
    DivMod(k / r.MipLevels, r.PlaneCount);
  }

  /** There are as many positions as subresources. */
  lemma PositionsAreCounted(k: nat, r: Shape)
    requires IsShape(r)
    ensures k < NumSubresources(r) <==> PositionAt(k, r).slice < r.ArraySize
  {
    var i := PositionAt(k, r);
    PositionAtOf(k, r);
    var row := r.PlaneCount * i.slice + i.plane;
    assert NumSubresources(r) == r.MipLevels * (r.PlaneCount * r.ArraySize) by {
      assert r.MipLevels * r.ArraySize * r.PlaneCount == r.MipLevels * (r.ArraySize * r.PlaneCount);
    }
    if i.slice < r.ArraySize {
      Monotone(r.PlaneCount, i.slice + 1, r.ArraySize);
      assert r.PlaneCount * (i.slice + 1) == r.PlaneCount * i.slice + r.PlaneCount;
      Monotone(r.MipLevels, row + 1, r.PlaneCount * r.ArraySize);
      assert r.MipLevels * (row + 1) == r.MipLevels * row + r.MipLevels;
    } else {
      Monotone(r.PlaneCount, r.ArraySize, i.slice);
      Monotone(r.MipLevels, r.PlaneCount * r.ArraySize, row);
    }
  }

  /** Every position holds a subresource, and no two the same one. */
  lemma SubresourceFits(k: nat, r: Shape)
    requires IsShape(r) && k < NumSubresources(r)
    ensures SubresourceAt(k, r) < NumSubresources(r)
    ensures DecomposeSubresourceIdxExtended(SubresourceAt(k, r), r.MipLevels, r.ArraySize) == PositionAt(k, r)
  {
    PositionsAreCounted(k, r);
    PositionAtOf(k, r);
    DecomposeCompose(PositionAt(k, r), r.MipLevels, r.ArraySize);
    PlaneBound(SubresourceAt(k, r), r.MipLevels, r.ArraySize, r.PlaneCount);
  }

  lemma PositionsDiffer(j: nat, k: nat, r: Shape)
    requires IsShape(r) && j < NumSubresources(r) && k < NumSubresources(r) && j != k
    ensures SubresourceAt(j, r) != SubresourceAt(k, r)
  {
    SubresourceFits(j, r);
    SubresourceFits(k, r);
    PositionAtOf(j, r);
    PositionAtOf(k, r);
  }

  /** The last subresource is the last in memory as well. */
  lemma LastIsLast(r: Shape)
    requires IsShape(r)
    ensures NumSubresources(r) > 0 && SubresourceAt(NumSubresources(r) - 1, r) == NumSubresources(r) - 1
  {
    var i := Index(r.MipLevels - 1, r.ArraySize - 1, r.PlaneCount - 1);
    Product(r.MipLevels, r.ArraySize);
    Product(r.MipLevels * r.ArraySize, r.PlaneCount);
    Nested(i, r.MipLevels, r.ArraySize);
    assert r.MipLevels * (r.ArraySize - 1) == r.MipLevels * r.ArraySize - r.MipLevels;
    var both := r.MipLevels * r.ArraySize;
    assert both * (r.PlaneCount - 1) == both * r.PlaneCount - both;
    assert ComposeSubresourceIdxExtended(i, r.MipLevels, r.ArraySize) == NumSubresources(r) - 1;
    assert PositionOf(i, r) == NumSubresources(r) - 1 by {
      var planes := r.PlaneCount * r.ArraySize;
      assert r.PlaneCount * (r.ArraySize - 1) == planes - r.PlaneCount;
      assert r.MipLevels * (planes - 1) == r.MipLevels * planes - r.MipLevels;
      assert r.MipLevels * planes == both * r.PlaneCount;
    }
    PositionOfAt(i, r);
  }

  // ---------------------------------------------------------------------------------
  // Offsets
  // ---------------------------------------------------------------------------------

  function SizeAt(k: nat, r: Shape): nat
    requires IsShape(r) && k < NumSubresources(r)
  {
    SubresourceFits(k, r);
    r.sizes[SubresourceAt(k, r)]
  }

  /** The offset of position k, from that of the first subresource. */
  function OffsetAt(k: nat, r: Shape, first: nat): nat
    requires IsShape(r) && k < NumSubresources(r)
  {
    if k == 0 then first
    else Align(OffsetAt(k - 1, r, first) + SizeAt(k - 1, r), TEXTURE_DATA_PLACEMENT_ALIGNMENT)
  }

  /** Subresources lie in array, plane, mip order and do not overlap. */
  lemma {:induction false} PlacedInOrder(j: nat, k: nat, r: Shape, first: nat)
    requires IsShape(r) && j < k < NumSubresources(r)
    ensures OffsetAt(j, r, first) + SizeAt(j, r) <= OffsetAt(k, r, first)
  {
    if j < k - 1 {
      PlacedInOrder(j, k - 1, r, first);
    }
  }

  /** A subresource starts at the least aligned offset behind the one before it. */
  lemma PlacedTightly(k: nat, r: Shape, first: nat, x: nat)
    requires IsShape(r) && 0 < k < NumSubresources(r)
    requires OffsetAt(k - 1, r, first) + SizeAt(k - 1, r) <= x && x % TEXTURE_DATA_PLACEMENT_ALIGNMENT == 0
    ensures OffsetAt(k, r, first) <= x
  {
  }

  /** All of them are aligned if the first one is. */
  lemma AllAligned(k: nat, r: Shape, first: nat)
    requires IsShape(r) && k < NumSubresources(r) && first % TEXTURE_DATA_PLACEMENT_ALIGNMENT == 0
    ensures OffsetAt(k, r, first) % TEXTURE_DATA_PLACEMENT_ALIGNMENT == 0
  {
  }

  /** The offsets, by subresource. */
  ghost predicate IsLayout(offsets: seq<nat>, r: Shape, first: nat)
    requires IsShape(r)
  {
    |offsets| == NumSubresources(r) && forall k: nat :: k < NumSubresources(r) ==> Placed(offsets, k, r, first)
  }

  ghost predicate Placed(offsets: seq<nat>, k: nat, r: Shape, first: nat)
    requires IsShape(r) && k < NumSubresources(r) && |offsets| == NumSubresources(r)
  {
    SubresourceFits(k, r);
    offsets[SubresourceAt(k, r)] == OffsetAt(k, r, first)
  }

  function GetResourceSize(offsets: seq<nat>, r: Shape): int
    requires IsShape(r) && |offsets| == NumSubresources(r)
  {
    LastIsLast(r);
    var last := NumSubresources(r) - 1;
    r.sizes[last] as int + (offsets[last] as int - offsets[0])
  }

  /** Two subresources never share a byte, every offset is aligned, and the resource size
      takes in the bytes of all subresources. */
  lemma LayoutIsSound(offsets: seq<nat>, r: Shape, first: nat, s: nat, t: nat)
    requires IsShape(r) && IsLayout(offsets, r, first) && first % TEXTURE_DATA_PLACEMENT_ALIGNMENT == 0
    requires s < NumSubresources(r) && t < NumSubresources(r)
    ensures s != t ==> offsets[s] + r.sizes[s] <= offsets[t] || offsets[t] + r.sizes[t] <= offsets[s]
    ensures offsets[s] % TEXTURE_DATA_PLACEMENT_ALIGNMENT == 0
    ensures offsets[0] == first <= offsets[s] && offsets[s] + r.sizes[s] <= offsets[0] + GetResourceSize(offsets, r)
  {
    var j, k := KthOf(s, r), KthOf(t, r);
    PlacedAt(offsets, r, first, s);
    PlacedAt(offsets, r, first, t);
    if j < k {
      PlacedInOrder(j, k, r, first);
    } else if k < j {
      PlacedInOrder(k, j, r, first);
    }
    AllAligned(j, r, first);
    AllInside(offsets, r, first, j);
  }

  /** GetResourceSize is the least size that takes in the bytes of all subresources. */
  lemma ResourceSizeIsLeast(offsets: seq<nat>, r: Shape, first: nat, size: int)
    requires IsShape(r) && IsLayout(offsets, r, first)
    ensures (forall s: nat :: s < NumSubresources(r) ==> offsets[s] + r.sizes[s] <= offsets[0] + size)
      <==> GetResourceSize(offsets, r) <= size
  {
    LastIsLast(r);
    var last := NumSubresources(r) - 1;
    if GetResourceSize(offsets, r) <= size {
      forall s: nat | s < NumSubresources(r) ensures offsets[s] + r.sizes[s] <= offsets[0] + size {
        PlacedAt(offsets, r, first, s);
        AllInside(offsets, r, first, KthOf(s, r));
      }
    } else {
      assert !(offsets[last] + r.sizes[last] <= offsets[0] + size);
    }
  }

  lemma PlacedAt(offsets: seq<nat>, r: Shape, first: nat, s: nat)
    requires IsShape(r) && IsLayout(offsets, r, first) && s < NumSubresources(r)
    ensures KthOf(s, r) < NumSubresources(r) && SubresourceAt(KthOf(s, r), r) == s
    ensures offsets[s] == OffsetAt(KthOf(s, r), r, first) && r.sizes[s] == SizeAt(KthOf(s, r), r)
  {
    KthIsThere(s, r);
    assert Placed(offsets, KthOf(s, r), r, first);
  }

  lemma AllInside(offsets: seq<nat>, r: Shape, first: nat, j: nat)
    requires IsShape(r) && IsLayout(offsets, r, first) && j < NumSubresources(r)
    ensures offsets[0] == first <= OffsetAt(j, r, first)
    ensures OffsetAt(j, r, first) + SizeAt(j, r) <= offsets[0] + GetResourceSize(offsets, r)
  {
    var last := NumSubresources(r) - 1;
    LastIsLast(r);
    FirstIsFirst(r);
    assert Placed(offsets, 0, r, first) && Placed(offsets, last, r, first);
    if j < last {
      PlacedInOrder(j, last, r, first);
    }
    if 0 < j {
      PlacedInOrder(0, j, r, first);
    }
  }

  lemma FirstIsFirst(r: Shape)
    requires IsShape(r)
    ensures NumSubresources(r) > 0 && SubresourceAt(0, r) == 0
  {
    LastIsLast(r);
    Nested(Index(0, 0, 0), r.MipLevels, r.ArraySize);
    assert PositionAt(0, r) == Index(0, 0, 0);
  }

  /** The position of a subresource. */
  function KthOf(s: nat, r: Shape): nat
    requires r.MipLevels > 0 && r.ArraySize > 0
  {
    PositionOf(DecomposeSubresourceIdxExtended(s, r.MipLevels, r.ArraySize), r)
  }

  lemma KthIsThere(s: nat, r: Shape)
    requires IsShape(r) && s < NumSubresources(r)
    ensures KthOf(s, r) < NumSubresources(r) && SubresourceAt(KthOf(s, r), r) == s
  {
    var i := DecomposeSubresourceIdxExtended(s, r.MipLevels, r.ArraySize);
    ComposeDecompose(s, r.MipLevels, r.ArraySize);
    PlaneBound(s, r.MipLevels, r.ArraySize, r.PlaneCount);
    PositionOfAt(i, r);
    PositionsAreCounted(KthOf(s, r), r);
  }

  /** The loops over array slices, planes and mip levels. */
  method InitializeSubresourceDescs(r: Shape, m_SubresourcePlacement: array<nat>)
    requires IsShape(r) && m_SubresourcePlacement.Length == NumSubresources(r)
    modifies m_SubresourcePlacement
    ensures m_SubresourcePlacement.Length > 0
    ensures IsLayout(m_SubresourcePlacement[..], r, old(m_SubresourcePlacement[0]))
  {
    FirstIsFirst(r);
    var lastSubresource := 0;
    ghost var k := 0;
    ghost var first := m_SubresourcePlacement[0];
    for slice := 0 to r.ArraySize
      invariant k == r.MipLevels * (r.PlaneCount * slice)
      invariant Filled(m_SubresourcePlacement[..], r, first, k, lastSubresource)
    {
      for plane := 0 to r.PlaneCount
        invariant k == r.MipLevels * (r.PlaneCount * slice + plane)
        invariant Filled(m_SubresourcePlacement[..], r, first, k, lastSubresource)
      {
        for mip := 0 to r.MipLevels
          invariant k == r.MipLevels * (r.PlaneCount * slice + plane) + mip
          invariant Filled(m_SubresourcePlacement[..], r, first, k, lastSubresource)
        {
          var currentSubresource := ComposeSubresourceIdxExtended(Index(mip, slice, plane), r.MipLevels, r.ArraySize);
          NextPosition(Index(mip, slice, plane), k, r);
          if k == 0 {
            FirstFilled(m_SubresourcePlacement[..], r, first);
            FirstIsFirst(r);
          } else {
            NextFilled(m_SubresourcePlacement[..], r, first, k, lastSubresource);
          }
          if currentSubresource != 0 {
            m_SubresourcePlacement[currentSubresource] :=
              Align(m_SubresourcePlacement[lastSubresource] + r.sizes[lastSubresource],
                    TEXTURE_DATA_PLACEMENT_ALIGNMENT);
          }
          lastSubresource := currentSubresource;
          k := k + 1;
        }
        assert r.MipLevels * (r.PlaneCount * slice + plane + 1)
          == r.MipLevels * (r.PlaneCount * slice + plane) + r.MipLevels;
      }
      assert r.PlaneCount * (slice + 1) == r.PlaneCount * slice + r.PlaneCount;
    }
    AllPositionsFilled(k, r);
  }

  /** The first k positions have their offsets. */
  ghost predicate Filled(offsets: seq<nat>, r: Shape, first: nat, k: nat, lastSubresource: nat)
    requires IsShape(r)
  {
    && |offsets| == NumSubresources(r) && k <= NumSubresources(r)
    && (forall j: nat :: j < k ==> Placed(offsets, j, r, first))
    && (k == 0 ==> lastSubresource == 0 && 0 < |offsets| && offsets[0] == first)
    && (k > 0 ==> lastSubresource == SubresourceAt(k - 1, r))
  }

  lemma NextPosition(i: Index, k: nat, r: Shape)
    requires IsShape(r) && i.mip < r.MipLevels
    requires i.plane < r.PlaneCount && i.slice < r.ArraySize && k == PositionOf(i, r)
    ensures k < NumSubresources(r) && SubresourceAt(k, r) == ComposeSubresourceIdxExtended(i, r.MipLevels, r.ArraySize)
  {
    PositionOfAt(i, r);
    PositionsAreCounted(k, r);
  }

  /** The first subresource has its offset already. */
  lemma FirstFilled(offsets: seq<nat>, r: Shape, first: nat)
    requires IsShape(r) && Filled(offsets, r, first, 0, 0)
    ensures 0 < NumSubresources(r) && Filled(offsets, r, first, 1, 0)
  {
    FirstIsFirst(r);
    forall j: nat | j < 1 ensures Placed(offsets, j, r, first) {}
  }

  /** Every other one gets it from the one before, which is the last one that was placed. */
  lemma NextFilled(offsets: seq<nat>, r: Shape, first: nat, k: nat, lastSubresource: nat)
    requires IsShape(r) && Filled(offsets, r, first, k, lastSubresource) && 0 < k < NumSubresources(r)
    ensures var current := SubresourceAt(k, r);
      && 0 < current < |offsets| && lastSubresource < |offsets|
      && Filled(offsets[current := OffsetAt(k, r, first)], r, first, k + 1, current)
      && OffsetAt(k, r, first)
         == Align(offsets[lastSubresource] + r.sizes[lastSubresource], TEXTURE_DATA_PLACEMENT_ALIGNMENT)
  {
    FirstIsFirst(r);
    SubresourceFits(k, r);
    SubresourceFits(k - 1, r);
    PositionsDiffer(0, k, r);
    assert Placed(offsets, k - 1, r, first);
    var next := offsets[SubresourceAt(k, r) := OffsetAt(k, r, first)];
    forall j: nat | j < k + 1 ensures Placed(next, j, r, first) {
      if j < k {
        SubresourceFits(j, r);
        PositionsDiffer(j, k, r);
        assert Placed(offsets, j, r, first);
      }
    }
  }

  lemma AllPositionsFilled(k: nat, r: Shape)
    requires IsShape(r) && k == r.MipLevels * (r.PlaneCount * r.ArraySize)
    ensures k == NumSubresources(r)
  {
    assert r.MipLevels * r.ArraySize * r.PlaneCount == r.MipLevels * (r.ArraySize * r.PlaneCount);
  }
}
