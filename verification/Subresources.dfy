/**
 Subresource numbering and the boxes of subresources that views cover:
 include/d3d12translationlayer/SubresourceHelpers.hpp and
 src/d3d12translationlayer/SubresourceHelpers.cpp.
 */
module Subresources {
  import opened Arithmetic

  datatype Index = Index(mip: nat, slice: nat, plane: nat)

  /** Planes of array slices of mip levels. */
  function ComposeSubresourceIdxExtended(i: Index, mips: nat, arrays: nat): nat {
    i.mip + i.slice * mips + i.plane * mips * arrays
  }

  function DecomposeSubresourceIdxExtended(subresource: nat, mips: nat, arrays: nat): Index
    requires mips > 0 && arrays > 0
  {
    Product(mips, arrays);
    DivMod(subresource, mips);
    DivMod(subresource / mips, arrays);
    DivMod(subresource, mips * arrays);
    Index(subresource % mips, (subresource / mips) % arrays, subresource / (mips * arrays))
  }

  function ComposeSubresourceIdxArrayThenPlane(mips: nat, planes: nat, i: Index): nat {
    i.slice * planes * mips + i.plane * mips + i.mip
  }

  function ConvertSubresourceIndexAddPlane(subresource: nat, perPlane: nat, plane: nat): nat {
    subresource + perPlane * plane
  }

  function ConvertSubresourceIndexRemovePlane(subresource: nat, perPlane: nat): nat
    requires perPlane > 0
  {
    subresource % perPlane
  }

  function GetPlaneIdxFromSubresourceIdx(subresource: nat, perPlane: nat): nat
    requires perPlane > 0
  {
    subresource / perPlane
  }

  lemma Product(x: nat, y: nat)
    ensures x * y >= 0 && (x > 0 && y > 0 ==> x * y > 0)
  {
  }

  /** The same number, one factor at a time. */
  lemma Nested(i: Index, mips: nat, arrays: nat)
    ensures ComposeSubresourceIdxExtended(i, mips, arrays) == mips * (i.slice + arrays * i.plane) + i.mip
    ensures ComposeSubresourceIdxExtended(i, mips, arrays) == mips * arrays * i.plane + (mips * i.slice + i.mip)
  {
    assert mips * (i.slice + arrays * i.plane) == mips * i.slice + mips * (arrays * i.plane);
    assert i.plane * mips * arrays == mips * arrays * i.plane == mips * (arrays * i.plane);
  }

  lemma BelowProduct(mip: nat, slice: nat, mips: nat, arrays: nat)
    requires mip < mips && slice < arrays
    ensures mips * slice + mip < mips * arrays
  {
    Monotone(mips, slice + 1, arrays);
    assert mips * (slice + 1) == mips * slice + mips;
  }

  lemma DecomposeCompose(i: Index, mips: nat, arrays: nat)
    requires i.mip < mips && i.slice < arrays
    ensures DecomposeSubresourceIdxExtended(ComposeSubresourceIdxExtended(i, mips, arrays), mips, arrays) == i
  {
    var s := ComposeSubresourceIdxExtended(i, mips, arrays);
    Nested(i, mips, arrays);
    Product(mips, arrays);
    DivModUnique(s, mips, i.slice + arrays * i.plane, i.mip);
    DivModUnique(i.slice + arrays * i.plane, arrays, i.plane, i.slice);
    BelowProduct(i.mip, i.slice, mips, arrays);
    DivModUnique(s, mips * arrays, i.plane, mips * i.slice + i.mip);
  }

  /** Every number is that of a mip level, array slice and plane, and of one only. */
  lemma ComposeDecompose(subresource: nat, mips: nat, arrays: nat)
    requires mips > 0 && arrays > 0
    ensures var i := DecomposeSubresourceIdxExtended(subresource, mips, arrays);
      i.mip < mips && i.slice < arrays && ComposeSubresourceIdxExtended(i, mips, arrays) == subresource
  {
    var row := subresource / mips;
    DivMod(subresource, mips);
    DivMod(row, arrays);
    var i := Index(subresource % mips, row % arrays, row / arrays);
    Nested(i, mips, arrays);
    DecomposeCompose(i, mips, arrays);
  }

  /** The plane is the last digit: the index within a plane and the plane come back. */
  lemma PlaneRoundTrip(subresource: nat, perPlane: nat, plane: nat)
    requires subresource < perPlane
    ensures var s := ConvertSubresourceIndexAddPlane(subresource, perPlane, plane);
      && ConvertSubresourceIndexRemovePlane(s, perPlane) == subresource
      && GetPlaneIdxFromSubresourceIdx(s, perPlane) == plane
  {
    DivModUnique(subresource + perPlane * plane, perPlane, plane, subresource);
  }

  /** A subset as its fields: the ends are exclusive. */
  datatype Subset = Subset(BeginMip: nat, EndMip: nat, BeginArray: nat, EndArray: nat, BeginPlane: nat, EndPlane: nat,
                           MipLevels: nat, ArraySlices: nat, PlaneCount: nat)

  function Start(s: Subset, slice: nat, plane: nat): nat {
    ComposeSubresourceIdxExtended(Index(s.BeginMip, slice, plane), s.MipLevels, s.ArraySlices)
  }

  function End(s: Subset, slice: nat, plane: nat): nat {
    ComposeSubresourceIdxExtended(Index(s.EndMip, slice, plane), s.MipLevels, s.ArraySlices)
  }

  ghost predicate InRow(s: Subset, slice: nat, plane: nat, k: nat) {
    Start(s, slice, plane) <= k < End(s, slice, plane)
  }

  /** A subresource belongs to a subset when its mip level, array slice and plane do. */
  ghost predicate Includes(s: Subset, k: nat) {
    exists a: nat, p: nat ::
      s.BeginArray <= a < s.EndArray && s.BeginPlane <= p < s.EndPlane && InRow(s, a, p, k)
  }

  /** Mip levels are innermost, then array slices, then planes. */
  predicate Before(i: Index, j: Index) {
    i.plane < j.plane || (i.plane == j.plane && (i.slice < j.slice || (i.slice == j.slice && i.mip < j.mip)))
  }

  /** Subresources are numbered in that order. */
  lemma NumberedInOrder(i: Index, j: Index, mipLevels: nat, arraySize: nat)
    requires i.mip < mipLevels && j.mip < mipLevels && i.slice < arraySize && j.slice < arraySize && Before(i, j)
    ensures ComposeSubresourceIdxExtended(i, mipLevels, arraySize)
      < ComposeSubresourceIdxExtended(j, mipLevels, arraySize)
  {
    Nested(i, mipLevels, arraySize);
    Nested(j, mipLevels, arraySize);
    var r, t := i.slice + arraySize * i.plane, j.slice + arraySize * j.plane;
    if i.plane < j.plane {
      Monotone(arraySize, i.plane + 1, j.plane);
      assert arraySize * (i.plane + 1) == arraySize * i.plane + arraySize;
    }
    if r < t {
      Monotone(mipLevels, r + 1, t);
      assert mipLevels * (r + 1) == mipLevels * r + mipLevels;
    }
  }

  ghost predicate InBounds(s: Subset) {
    && s.BeginMip <= s.EndMip <= s.MipLevels && s.BeginArray <= s.EndArray <= s.ArraySlices
    && s.BeginPlane <= s.EndPlane <= s.PlaneCount
    && s.MipLevels > 0 && s.ArraySlices > 0 && s.PlaneCount > 0
  }

  function Total(s: Subset): nat {
    s.MipLevels * s.ArraySlices * s.PlaneCount
  }

  ghost predicate InBox(s: Subset, i: Index) {
    s.BeginMip <= i.mip < s.EndMip && s.BeginArray <= i.slice < s.EndArray && s.BeginPlane <= i.plane < s.EndPlane
  }

  lemma RowOf(s: Subset, a: nat, p: nat, k: nat)
    requires InBounds(s) && a < s.ArraySlices
    ensures InRow(s, a, p, k) <==>
      var i := DecomposeSubresourceIdxExtended(k, s.MipLevels, s.ArraySlices);
      i.slice == a && i.plane == p && s.BeginMip <= i.mip < s.EndMip
  {
    var i := DecomposeSubresourceIdxExtended(k, s.MipLevels, s.ArraySlices);
    ComposeDecompose(k, s.MipLevels, s.ArraySlices);
    if InRow(s, a, p, k) {
      var mip := k - Start(s, a, p) + s.BeginMip;
      DecomposeCompose(Index(mip, a, p), s.MipLevels, s.ArraySlices);
    }
  }

  /** Inside the resource, a subset is its box. */
  lemma IncludesTheBox(s: Subset, k: nat)
    requires InBounds(s)
    ensures Includes(s, k) <==> InBox(s, DecomposeSubresourceIdxExtended(k, s.MipLevels, s.ArraySlices))
  {
    var i := DecomposeSubresourceIdxExtended(k, s.MipLevels, s.ArraySlices);
    if Includes(s, k) {
      var a: nat, p: nat :|
        s.BeginArray <= a < s.EndArray && s.BeginPlane <= p < s.EndPlane && InRow(s, a, p, k);
      RowOf(s, a, p, k);
    }
    if InBox(s, i) {
      RowOf(s, i.slice, i.plane, k);
    }
  }

  lemma PlaneBound(k: nat, mips: nat, arrays: nat, plane: nat)
    requires mips > 0 && arrays > 0
    ensures DecomposeSubresourceIdxExtended(k, mips, arrays).plane < plane <==> k < mips * arrays * plane
  {
    var i := DecomposeSubresourceIdxExtended(k, mips, arrays);
    ComposeDecompose(k, mips, arrays);
    Nested(i, mips, arrays);
    BelowProduct(i.mip, i.slice, mips, arrays);
    Product(mips, arrays);
    if i.plane < plane {
      Monotone(mips * arrays, i.plane + 1, plane);
      assert mips * arrays * (i.plane + 1) == mips * arrays * i.plane + mips * arrays;
    } else {
      Monotone(mips * arrays, plane, i.plane);
    }
  }

  // ---------------------------------------------------------------------------------
  // Reduce and IsWholeResource
  // ---------------------------------------------------------------------------------

  /** All mip levels and array slices, and an end that fits into the bytes it is stored in. */
  predicate Reducible(s: Subset) {
    && s.BeginMip == 0 && s.EndMip == s.MipLevels && s.BeginArray == 0 && s.EndArray == s.ArraySlices
    && ComposeSubresourceIdxExtended(Index(0, 0, s.EndPlane), s.MipLevels, s.ArraySlices) < 255
  }

  /** One range of mip levels in place of all the planes. */
  function Reduced(s: Subset): Subset {
    s.(BeginArray := 0, EndArray := 1, BeginPlane := 0, EndPlane := 1,
       BeginMip := ComposeSubresourceIdxExtended(Index(0, 0, s.BeginPlane), s.MipLevels, s.ArraySlices),
       EndMip := ComposeSubresourceIdxExtended(Index(0, 0, s.EndPlane), s.MipLevels, s.ArraySlices))
  }

  lemma ReducedIncludes(s: Subset, k: nat)
    ensures Includes(Reduced(s), k)
      <==> s.MipLevels * s.ArraySlices * s.BeginPlane <= k < s.MipLevels * s.ArraySlices * s.EndPlane
  {
    var r := Reduced(s);
    Nested(Index(0, 0, s.BeginPlane), s.MipLevels, s.ArraySlices);
    Nested(Index(0, 0, s.EndPlane), s.MipLevels, s.ArraySlices);
    Nested(Index(r.BeginMip, 0, 0), s.MipLevels, s.ArraySlices);
    Nested(Index(r.EndMip, 0, 0), s.MipLevels, s.ArraySlices);
    assert InRow(r, 0, 0, k) <==> r.BeginMip <= k < r.EndMip;
  }

  lemma ReduceKeepsMembers(s: Subset, k: nat)
    requires InBounds(s) && Reducible(s)
    ensures Includes(Reduced(s), k) <==> Includes(s, k)
  {
    ReducedIncludes(s, k);
    IncludesTheBox(s, k);
    ComposeDecompose(k, s.MipLevels, s.ArraySlices);
    PlaneBound(k, s.MipLevels, s.ArraySlices, s.BeginPlane);
    PlaneBound(k, s.MipLevels, s.ArraySlices, s.EndPlane);
  }

  predicate IsWholeResource(s: Subset) {
    && s.BeginMip == 0 && s.BeginArray == 0 && s.BeginPlane == 0
    && s.EndMip * s.EndArray * s.EndPlane == Total(s)
  }

  ghost predicate IncludesAll(s: Subset) {
    forall k: nat :: k < Total(s) ==> Includes(s, k)
  }

  lemma LargestProduct(x: nat, y: nat, m: nat, n: nat)
    requires x <= m && y <= n && m > 0 && n > 0
    ensures x * y <= m * n
    ensures x * y == m * n <==> x == m && y == n
  {
    Monotone(x, y, n);
    Monotone(n, x, m);
    if x < m {
      Monotone(n, x + 1, m);
      assert n * (x + 1) == n * x + n;
    } else if y < n {
      Monotone(m, y + 1, n);
      assert m * (y + 1) == m * y + m;
    }
  }

  lemma FullBox(s: Subset)
    requires InBounds(s)
    ensures s.EndMip * s.EndArray * s.EndPlane == Total(s)
      <==> s.EndMip == s.MipLevels && s.EndArray == s.ArraySlices && s.EndPlane == s.PlaneCount
  {
    LargestProduct(s.EndMip, s.EndArray, s.MipLevels, s.ArraySlices);
    Product(s.MipLevels, s.ArraySlices);
    LargestProduct(s.EndMip * s.EndArray, s.EndPlane, s.MipLevels * s.ArraySlices, s.PlaneCount);
  }

  /** A subset that claims to be the whole resource is, and the other way round. */
  lemma WholeIffAll(s: Subset)
    requires InBounds(s)
    ensures IsWholeResource(s) <==> IncludesAll(s)
  {
    FullBox(s);
    if IsWholeResource(s) {
      forall k: nat | k < Total(s) ensures Includes(s, k) {
        IncludesTheBox(s, k);
        ComposeDecompose(k, s.MipLevels, s.ArraySlices);
        PlaneBound(k, s.MipLevels, s.ArraySlices, s.PlaneCount);
      }
    }
    if IncludesAll(s) {
      CornersCovered(s);
    }
  }

  lemma CornersCovered(s: Subset)
    requires InBounds(s) && IncludesAll(s)
    ensures s.BeginMip == 0 && s.BeginArray == 0 && s.BeginPlane == 0
    ensures s.EndMip == s.MipLevels && s.EndArray == s.ArraySlices && s.EndPlane == s.PlaneCount
  {
    CornerCovered(s, Index(0, 0, 0));
    CornerCovered(s, Index(s.MipLevels - 1, s.ArraySlices - 1, s.PlaneCount - 1));
  }

  lemma CornerCovered(s: Subset, i: Index)
    requires InBounds(s) && IncludesAll(s)
    requires i.mip < s.MipLevels && i.slice < s.ArraySlices && i.plane < s.PlaneCount
    ensures InBox(s, i)
  {
    var k := ComposeSubresourceIdxExtended(i, s.MipLevels, s.ArraySlices);
    DecomposeCompose(i, s.MipLevels, s.ArraySlices);
    PlaneBound(k, s.MipLevels, s.ArraySlices, s.PlaneCount);
    IncludesTheBox(s, k);
  }

  /** The same once the subset has been reduced. */
  lemma ReducedWholeIffAll(s: Subset)
    requires InBounds(s) && Reducible(s)
    ensures IsWholeResource(Reduced(s)) <==> IncludesAll(s)
    ensures IsWholeResource(Reduced(s)) <==> IsWholeResource(s)
  {
    WholeIffAll(s);
    FullBox(s);
    Nested(Index(0, 0, s.BeginPlane), s.MipLevels, s.ArraySlices);
    Nested(Index(0, 0, s.EndPlane), s.MipLevels, s.ArraySlices);
    Product(s.MipLevels, s.ArraySlices);
    Cancel(s.MipLevels * s.ArraySlices, s.EndPlane, s.PlaneCount);
    Cancel(s.MipLevels * s.ArraySlices, s.BeginPlane, 0);
  }

  lemma Cancel(n: nat, x: nat, y: nat)
    requires n > 0
    ensures n * x == n * y <==> x == y
  {
    Monotone(n, x + 1, y);
    Monotone(n, y + 1, x);
    assert n * (x + 1) == n * x + n && n * (y + 1) == n * y + n;
  }

  // ---------------------------------------------------------------------------------
  // Iteration: planes outside, array slices inside, a range of mip levels at a time
  // ---------------------------------------------------------------------------------

  function Range(first: nat, last: nat): (r: seq<nat>)
    ensures |r| == if first < last then last - first else 0
    ensures forall i :: 0 <= i < |r| ==> r[i] == first + i
  {
    if first < last then seq(last - first, i => first + i) else []
  }

  /** The subresources visited from an array slice and plane on. */
  ghost function VisitsFrom(s: Subset, a: nat, p: nat): seq<nat>
    requires a < s.EndArray || a == s.BeginArray
    decreases s.EndPlane - p, s.EndArray - a
  {
    if s.EndPlane <= p then []
    else
      Range(Start(s, a, p), End(s, a, p))
      + if s.EndArray <= a + 1 then VisitsFrom(s, s.BeginArray, p + 1) else VisitsFrom(s, a + 1, p)
  }

  ghost function Visits(s: Subset): seq<nat> {
    VisitsFrom(s, s.BeginArray, s.BeginPlane)
  }

  ghost predicate StrictlyIncreasing(v: seq<nat>) {
    forall i, j :: 0 <= i < j < |v| ==> v[i] < v[j]
  }

  /** A row ends before the next one starts: the rows lie inside the resource, or there is
      only one. */
  ghost predicate RowsInOrder(s: Subset) {
    || (s.EndMip <= s.MipLevels && s.EndArray <= s.ArraySlices)
    || (s.EndArray <= s.BeginArray + 1 && s.EndPlane <= s.BeginPlane + 1)
  }

  lemma NextRow(s: Subset, a: nat, p: nat)
    requires s.BeginMip <= s.EndMip <= s.MipLevels
    ensures a + 1 < s.ArraySlices ==> End(s, a, p) <= Start(s, a + 1, p)
    ensures a < s.ArraySlices ==> End(s, a, p) <= Start(s, s.BeginArray, p + 1)
  {
    Nested(Index(s.EndMip, a, p), s.MipLevels, s.ArraySlices);
    Nested(Index(s.BeginMip, a + 1, p), s.MipLevels, s.ArraySlices);
    Nested(Index(s.BeginMip, s.BeginArray, p + 1), s.MipLevels, s.ArraySlices);
    var row := a + s.ArraySlices * p;
    assert s.ArraySlices * (p + 1) == s.ArraySlices * p + s.ArraySlices;
    Monotone(s.MipLevels, row + 1, s.BeginArray + s.ArraySlices * (p + 1));
    Monotone(s.MipLevels, row + 1, a + 1 + s.ArraySlices * p);
    assert s.MipLevels * (row + 1) == s.MipLevels * row + s.MipLevels;
  }

  lemma Joined(x: seq<nat>, y: seq<nat>, mid: nat)
    requires StrictlyIncreasing(x) && StrictlyIncreasing(y)
    requires (forall k :: k in x ==> k < mid) && (forall k :: k in y ==> mid <= k)
    ensures StrictlyIncreasing(x + y)
  {
    forall i, j | 0 <= i < j < |x + y| ensures (x + y)[i] < (x + y)[j] {
      if i < |x| <= j {
        assert x[i] in x && y[j - |x|] in y;
      }
    }
  }

  /** Subresources are visited in increasing order, so none of them twice. */
  lemma {:induction false} VisitsIncrease(s: Subset, a: nat, p: nat)
    requires s.BeginMip <= s.EndMip && RowsInOrder(s)
    requires s.BeginArray <= a < s.EndArray && s.BeginPlane <= p
    ensures StrictlyIncreasing(VisitsFrom(s, a, p))
    ensures forall k :: k in VisitsFrom(s, a, p) ==> Start(s, a, p) <= k
    decreases s.EndPlane - p, s.EndArray - a
  {
    if p < s.EndPlane {
      var row := Range(Start(s, a, p), End(s, a, p));
      var rest := if s.EndArray <= a + 1 then VisitsFrom(s, s.BeginArray, p + 1) else VisitsFrom(s, a + 1, p);
      if s.EndMip <= s.MipLevels && s.EndArray <= s.ArraySlices {
        NextRow(s, a, p);
      }
      Nested(Index(s.BeginMip, a, p), s.MipLevels, s.ArraySlices);
      Nested(Index(s.EndMip, a, p), s.MipLevels, s.ArraySlices);
      if s.EndArray <= a + 1 {
        VisitsIncrease(s, s.BeginArray, p + 1);
      } else {
        VisitsIncrease(s, a + 1, p);
      }
      Joined(row, rest, End(s, a, p));
    }
  }

  /** The rows from an array slice and plane on. */
  ghost predicate Ahead(s: Subset, a: nat, p: nat, a': nat, p': nat) {
    s.BeginArray <= a' < s.EndArray && p' < s.EndPlane && (p < p' || (p == p' && a <= a'))
  }

  ghost predicate IncludedFrom(s: Subset, a: nat, p: nat, k: nat) {
    exists a': nat, p': nat :: Ahead(s, a, p, a', p') && InRow(s, a', p', k)
  }

  lemma NextIncludes(s: Subset, a: nat, p: nat, k: nat)
    requires s.BeginArray <= a < s.EndArray && p < s.EndPlane
    ensures IncludedFrom(s, a, p, k) <==>
      || InRow(s, a, p, k)
      || (if s.EndArray <= a + 1 then IncludedFrom(s, s.BeginArray, p + 1, k) else IncludedFrom(s, a + 1, p, k))
  {
    if InRow(s, a, p, k) {
      assert Ahead(s, a, p, a, p);
    }
    if IncludedFrom(s, a, p, k) {
      var a': nat, p': nat :| Ahead(s, a, p, a', p') && InRow(s, a', p', k);
      var next := Next(s, Position(a, p));
      assert (a' == a && p' == p) || Ahead(s, next.slice, next.plane, a', p');
    }
    if s.EndArray <= a + 1 && IncludedFrom(s, s.BeginArray, p + 1, k) {
      var a': nat, p': nat :| Ahead(s, s.BeginArray, p + 1, a', p') && InRow(s, a', p', k);
      assert Ahead(s, a, p, a', p');
    }
    if a + 1 < s.EndArray && IncludedFrom(s, a + 1, p, k) {
      var a': nat, p': nat :| Ahead(s, a + 1, p, a', p') && InRow(s, a', p', k);
      assert Ahead(s, a, p, a', p');
    }
  }

  lemma {:induction false} VisitsFromIncludes(s: Subset, a: nat, p: nat, k: nat)
    requires s.BeginArray <= a < s.EndArray
    ensures k in VisitsFrom(s, a, p) <==> IncludedFrom(s, a, p, k)
    decreases s.EndPlane - p, s.EndArray - a
  {
    if p < s.EndPlane {
      NextIncludes(s, a, p, k);
      InRange(Start(s, a, p), End(s, a, p), k);
      if s.EndArray <= a + 1 {
        VisitsFromIncludes(s, s.BeginArray, p + 1, k);
      } else {
        VisitsFromIncludes(s, a + 1, p, k);
      }
    }
  }

  lemma InRange(first: nat, last: nat, k: nat)
    ensures k in Range(first, last) <==> first <= k < last
  {
    if first <= k < last {
      assert Range(first, last)[k - first] == k;
    }
  }

  /** Every member is visited exactly once, and nothing else is. */
  lemma VisitsAreExact(s: Subset)
    requires s.BeginMip <= s.EndMip && RowsInOrder(s) && s.BeginArray < s.EndArray
    ensures StrictlyIncreasing(Visits(s)) && forall k :: k in Visits(s) <==> Includes(s, k)
  {
    VisitsIncrease(s, s.BeginArray, s.BeginPlane);
    forall k: nat ensures k in Visits(s) <==> Includes(s, k) {
      VisitsFromIncludes(s, s.BeginArray, s.BeginPlane, k);
      if Includes(s, k) {
        var a: nat, p: nat :|
          s.BeginArray <= a < s.EndArray && s.BeginPlane <= p < s.EndPlane && InRow(s, a, p, k);
        assert Ahead(s, s.BeginArray, s.BeginPlane, a, p);
      }
      if IncludedFrom(s, s.BeginArray, s.BeginPlane, k) {
        var a: nat, p: nat :| Ahead(s, s.BeginArray, s.BeginPlane, a, p) && InRow(s, a, p, k);
        assert s.BeginPlane <= p;
      }
    }
  }

  lemma OnePlaneWithoutSlices(s: Subset)
    requires s.BeginArray == s.EndArray && s.BeginPlane + 1 == s.EndPlane
    ensures Visits(s) == Range(Start(s, s.BeginArray, s.BeginPlane), End(s, s.BeginArray, s.BeginPlane))
  {
    assert VisitsFrom(s, s.BeginArray, s.EndPlane) == [];
  }

  /** A box of all mip levels and array slices whose end fits into a byte is always coalesced,
      and then iterated as a single range. */
  lemma WholePlanesAreOneRange(box: Subset)
    requires InBounds(box) && box.BeginMip == 0 && box.EndMip == box.MipLevels
    requires box.BeginArray == 0 && box.EndArray == box.ArraySlices
    requires box.MipLevels * box.ArraySlices * box.EndPlane < 255
    ensures Reducible(box)
    ensures Visits(Reduced(box))
      == Range(box.MipLevels * box.ArraySlices * box.BeginPlane, box.MipLevels * box.ArraySlices * box.EndPlane)
  {
    var r := Reduced(box);
    Nested(Index(0, 0, box.BeginPlane), box.MipLevels, box.ArraySlices);
    Nested(Index(0, 0, box.EndPlane), box.MipLevels, box.ArraySlices);
    assert VisitsFrom(r, 0, 1) == [];
    assert Start(r, 0, 0) == r.BeginMip && End(r, 0, 0) == r.EndMip;
  }

  lemma OneInRange(first: nat)
    ensures Range(first, first + 1) == [first]
  {
  }

  /** An empty range of array slices is visited all the same, once for each plane: with one
      mip level and one plane, the slice the range starts at. */
  lemma NoSlicesStillVisits(s: Subset, a: nat)
    requires s == Subset(0, 1, a, a, 0, 1, 1, a + 1, 1)
    ensures InBounds(s) && Visits(s) == [a] && forall k: nat :: !Includes(s, k)
  {
    OnePlaneWithoutSlices(s);
    assert Start(s, a, 0) == a && End(s, a, 0) == a + 1;
    OneInRange(a);
  }

  /** So iteration visits exactly the members unless there are planes and mip levels but no
      array slices. */
  lemma VisitsExactlyWhen(s: Subset)
    requires InBounds(s)
    ensures (forall k :: k in Visits(s) <==> Includes(s, k))
      <==> s.BeginArray < s.EndArray || s.BeginMip == s.EndMip || s.BeginPlane == s.EndPlane
  {
    if s.BeginArray < s.EndArray {
      VisitsAreExact(s);
    } else if s.BeginMip == s.EndMip {
      NoMipsNoVisits(s, s.BeginArray, s.BeginPlane);
      forall k: nat ensures !Includes(s, k) {}
    } else if s.BeginPlane < s.EndPlane {
      var k := Start(s, s.BeginArray, s.BeginPlane);
      Nested(Index(s.BeginMip, s.BeginArray, s.BeginPlane), s.MipLevels, s.ArraySlices);
      Nested(Index(s.EndMip, s.BeginArray, s.BeginPlane), s.MipLevels, s.ArraySlices);
      InRange(k, End(s, s.BeginArray, s.BeginPlane), k);
      assert k in Visits(s) && !Includes(s, k);
    }
  }

  lemma {:induction false} NoMipsNoVisits(s: Subset, a: nat, p: nat)
    requires s.BeginMip == s.EndMip && (a < s.EndArray || a == s.BeginArray)
    ensures VisitsFrom(s, a, p) == []
    decreases s.EndPlane - p, s.EndArray - a
  {
    if p < s.EndPlane {
      if s.EndArray <= a + 1 {
        NoMipsNoVisits(s, s.BeginArray, p + 1);
      } else {
        NoMipsNoVisits(s, a + 1, p);
      }
    }
  }

  // ---------------------------------------------------------------------------------
  // The classes
  // ---------------------------------------------------------------------------------

  class CViewSubresourceSubset {
    var m_BeginMip: nat
    var m_EndMip: nat
    var m_BeginArray: nat
    var m_EndArray: nat
    var m_BeginPlane: nat
    var m_EndPlane: nat
    const m_MipLevels: nat
    const m_ArraySlices: nat
    const m_PlaneCount: nat

    function Value(): Subset
      reads this
    {
      Subset(m_BeginMip, m_EndMip, m_BeginArray, m_EndArray, m_BeginPlane, m_EndPlane, m_MipLevels, m_ArraySlices,
             m_PlaneCount)
    }

    /** Reducing changes the fields but not the members, and whether they are all there are. */
    constructor (box: Subset)
      requires InBounds(box)
      ensures Value() == if Reducible(box) then Reduced(box) else box
      ensures forall k: nat :: Includes(Value(), k) <==> Includes(box, k)
      ensures IsWholeResource(Value()) <==> IncludesAll(box)
      ensures box.BeginArray < box.EndArray ==> Iterable(Value())
    {
      m_BeginMip, m_EndMip, m_BeginArray, m_EndArray := box.BeginMip, box.EndMip, box.BeginArray, box.EndArray;
      m_BeginPlane, m_EndPlane := box.BeginPlane, box.EndPlane;
      m_MipLevels, m_ArraySlices, m_PlaneCount := box.MipLevels, box.ArraySlices, box.PlaneCount;
      new;
      Reduce();
      ReduceIsSafe(box);
    }

    method Reduce()
      modifies this
      ensures Value() == if Reducible(old(Value())) then Reduced(old(Value())) else old(Value())
    {
      if m_BeginMip == 0 && m_EndMip == m_MipLevels && m_BeginArray == 0 && m_EndArray == m_ArraySlices {
        var startSubresource := ComposeSubresourceIdxExtended(Index(0, 0, m_BeginPlane), m_MipLevels, m_ArraySlices);
        var endSubresource := ComposeSubresourceIdxExtended(Index(0, 0, m_EndPlane), m_MipLevels, m_ArraySlices);
        if endSubresource < 255 {
          m_BeginArray, m_EndArray := 0, 1;
          m_BeginPlane, m_EndPlane := 0, 1;
          m_BeginMip, m_EndMip := startSubresource, endSubresource;
        }
      }
    }
  }

  /** What the iterator asserts, and what every subset with an array slice meets. */
  ghost predicate Iterable(s: Subset) {
    s.BeginMip <= s.EndMip && s.BeginPlane <= s.EndPlane && RowsInOrder(s) && s.BeginArray < s.EndArray
  }

  lemma ReduceIsSafe(box: Subset)
    requires InBounds(box)
    ensures var s := if Reducible(box) then Reduced(box) else box;
      && (forall k: nat :: Includes(s, k) <==> Includes(box, k))
      && (IsWholeResource(s) <==> IncludesAll(box))
      && (box.BeginArray < box.EndArray ==> Iterable(s))
  {
    if Reducible(box) {
      forall k: nat ensures Includes(Reduced(box), k) <==> Includes(box, k) {
        ReduceKeepsMembers(box, k);
      }
      ReducedWholeIffAll(box);
      Nested(Index(0, 0, box.BeginPlane), box.MipLevels, box.ArraySlices);
      Nested(Index(0, 0, box.EndPlane), box.MipLevels, box.ArraySlices);
      Monotone(box.MipLevels * box.ArraySlices, box.BeginPlane, box.EndPlane);
    } else {
      WholeIffAll(box);
    }
  }

  /** The members of a subset of the resource are subresources of it. */
  lemma MembersFit(s: Subset)
    requires InBounds(s)
    ensures forall k: nat :: Includes(s, k) ==> k < Total(s)
  {
    forall k: nat | Includes(s, k) ensures k < Total(s) {
      IncludesTheBox(s, k);
      PlaneBound(k, s.MipLevels, s.ArraySlices, s.PlaneCount);
    }
  }

  /** The members of a row that is visited, where all that is visited fits into a resource. */
  lemma RowFits(s: Subset, a: nat, p: nat, done: seq<nat>, count: nat)
    requires (a < s.EndArray || a == s.BeginArray) && p < s.EndPlane
    requires done + VisitsFrom(s, a, p) == Visits(s) && forall k :: k in Visits(s) ==> k < count
    ensures Start(s, a, p) < End(s, a, p) ==> End(s, a, p) <= count
  {
    var first, last := Start(s, a, p), End(s, a, p);
    if first < last {
      InRange(first, last, last - 1);
      assert last - 1 in VisitsFrom(s, a, p);
      assert last - 1 in Visits(s);
    }
  }

  lemma Regroup<T>(x: seq<T>, y: seq<T>, z: seq<T>)
    ensures x + y + z == x + (y + z)
  {
  }

  lemma MembersOfBoth(x: seq<nat>, first: nat, last: nat, k: nat)
    ensures k in x + Range(first, last) <==> k in x || first <= k < last
  {
    InRange(first, last, k);
  }

  /** One step of the iteration: a range is visited and the rest is left. */
  lemma VisitsStep(s: Subset, a: nat, p: nat, done: seq<nat>)
    requires (a < s.EndArray || a == s.BeginArray) && p < s.EndPlane
    requires done + VisitsFrom(s, a, p) == Visits(s)
    ensures var next := Next(s, Position(a, p));
      done + Range(Start(s, a, p), End(s, a, p)) + VisitsFrom(s, next.slice, next.plane) == Visits(s)
  {
    var next := Next(s, Position(a, p));
    assert VisitsFrom(s, a, p) == Range(Start(s, a, p), End(s, a, p)) + VisitsFrom(s, next.slice, next.plane);
    Regroup(done, Range(Start(s, a, p), End(s, a, p)), VisitsFrom(s, next.slice, next.plane));
  }

  /** What a subset of a resource is good for, reduced or not: it is the whole resource if its
      box is, and unless there are no array slices, iterating it visits the members of the
      box, all of them subresources. */
  lemma SubsetFits(s: Subset, box: Subset)
    requires InBounds(box) && s == if Reducible(box) then Reduced(box) else box
    ensures s.BeginArray <= s.EndArray && s.BeginPlane <= s.EndPlane
    ensures IsWholeResource(s) <==> IncludesAll(box)
    ensures box.BeginArray < box.EndArray ==> forall k: nat :: k in Visits(s) ==> k < Total(box)
    ensures box.BeginArray < box.EndArray ==> forall k: nat :: k in Visits(s) <==> Includes(box, k)
  {
    ReduceIsSafe(box);
    MembersFit(box);
    if box.BeginArray < box.EndArray {
      VisitsAreExact(s);
      forall k: nat ensures (k in Visits(s) ==> k < Total(box)) && (k in Visits(s) <==> Includes(box, k)) {
        assert Includes(s, k) <==> Includes(box, k);
      }
    }
  }

  datatype Position = Position(slice: nat, plane: nat)

  /** The position after another, planes outside. */
  function Next(s: Subset, at: Position): Position {
    if s.EndArray <= at.slice + 1 then Position(s.BeginArray, at.plane + 1) else Position(at.slice + 1, at.plane)
  }

  function Prev(s: Subset, at: Position): Position
    requires s.BeginArray < s.EndArray && (at.slice <= s.BeginArray ==> s.BeginPlane < at.plane)
  {
    if at.slice <= s.BeginArray then Position(s.EndArray - 1, at.plane - 1) else Position(at.slice - 1, at.plane)
  }

  ghost predicate Inside(s: Subset, at: Position) {
    s.BeginArray <= at.slice < s.EndArray && s.BeginPlane <= at.plane < s.EndPlane
  }

  /** Stepping back undoes a step forward from anywhere in the subset, and the other way
      round from anywhere but the beginning. */
  lemma StepsUndoEachOther(s: Subset, at: Position)
    ensures Inside(s, at) ==> Prev(s, Next(s, at)) == at
    ensures s.BeginArray <= at.slice < s.EndArray && s.BeginPlane <= at.plane ==>
      at != Position(s.BeginArray, s.BeginPlane) ==>
      Next(s, Prev(s, at)) == at
  {
  }

  function MinSubresource(s: Subset): nat {
    Start(s, s.BeginArray, s.BeginPlane)
  }

  function MaxSubresource(s: Subset): nat
    requires s.BeginArray < s.EndArray && s.BeginPlane < s.EndPlane
  {
    var last := Prev(s, Position(s.BeginArray, s.EndPlane));
    End(s, last.slice, last.plane)
  }

  /** The members lie between the two ends, and the ends are members; the upper one is
      exclusive. */
  ghost predicate TightBounds(s: Subset, first: nat, last: nat) {
    && first < last && Includes(s, first) && Includes(s, last - 1)
    && forall k: nat :: Includes(s, k) ==> first <= k < last
  }

  lemma MinMaxAreTight(s: Subset)
    requires Iterable(s) && s.BeginMip < s.EndMip && s.BeginPlane < s.EndPlane
    ensures TightBounds(s, MinSubresource(s), MaxSubresource(s))
  {
    var a, p := s.EndArray - 1, s.EndPlane - 1;
    var first, last := MinSubresource(s), MaxSubresource(s);
    assert Includes(s, first) by {
      RowIsNotEmpty(s, s.BeginArray, s.BeginPlane);
    }
    assert last == End(s, a, p);
    assert Includes(s, last - 1) by {
      RowIsNotEmpty(s, a, p);
    }
    MembersBetween(s, first);
    forall k: nat | Includes(s, k) ensures first <= k < last {
      MembersBetween(s, k);
    }
  }

  lemma RowIsNotEmpty(s: Subset, a: nat, p: nat)
    requires s.BeginMip < s.EndMip
    ensures InRow(s, a, p, Start(s, a, p)) && Start(s, a, p) < End(s, a, p) && InRow(s, a, p, End(s, a, p) - 1)
  {
    Nested(Index(s.BeginMip, a, p), s.MipLevels, s.ArraySlices);
    Nested(Index(s.EndMip, a, p), s.MipLevels, s.ArraySlices);
  }

  lemma MembersBetween(s: Subset, k: nat)
    requires Includes(s, k)
    ensures s.BeginArray < s.EndArray && s.BeginPlane < s.EndPlane
    ensures Start(s, s.BeginArray, s.BeginPlane) <= k < End(s, s.EndArray - 1, s.EndPlane - 1)
  {
    var a: nat, p: nat :|
      s.BeginArray <= a < s.EndArray && s.BeginPlane <= p < s.EndPlane && InRow(s, a, p, k);
    assert Start(s, a, p) <= k < End(s, a, p);
    assert Start(s, s.BeginArray, s.BeginPlane) <= Start(s, a, p) by {
      RowsGrow(s, s.BeginArray, s.BeginPlane, a, p);
    }
    assert End(s, a, p) <= End(s, s.EndArray - 1, s.EndPlane - 1) by {
      RowsGrow(s, a, p, s.EndArray - 1, s.EndPlane - 1);
    }
  }

  lemma RowsGrow(s: Subset, a: nat, p: nat, a': nat, p': nat)
    requires a <= a' && p <= p'
    ensures Start(s, a, p) <= Start(s, a', p') && End(s, a, p) <= End(s, a', p')
  {
    Nested(Index(s.BeginMip, a, p), s.MipLevels, s.ArraySlices);
    Nested(Index(s.BeginMip, a', p'), s.MipLevels, s.ArraySlices);
    Nested(Index(s.EndMip, a, p), s.MipLevels, s.ArraySlices);
    Nested(Index(s.EndMip, a', p'), s.MipLevels, s.ArraySlices);
    Monotone(s.ArraySlices, p, p');
    Monotone(s.MipLevels, a + s.ArraySlices * p, a' + s.ArraySlices * p');
  }

  class CViewSubresourceIterator {
    const m_Subresources: CViewSubresourceSubset
    var m_CurrentArraySlice: nat
    var m_CurrentPlaneSlice: nat

    function At(): Position
      reads this
    {
      Position(m_CurrentArraySlice, m_CurrentPlaneSlice)
    }

    constructor (subresources: CViewSubresourceSubset, slice: nat, plane: nat)
      ensures m_Subresources == subresources && At() == Position(slice, plane)
    {
      m_Subresources, m_CurrentArraySlice, m_CurrentPlaneSlice := subresources, slice, plane;
    }

    // The source asserts that there is a slice to leave; without one, a build that does not
    // check goes on to the next plane.
    method Increment()
      modifies this
      ensures At() == Next(m_Subresources.Value(), old(At()))
    {
      m_CurrentArraySlice := m_CurrentArraySlice + 1;
      if m_CurrentArraySlice >= m_Subresources.m_EndArray {
        m_CurrentArraySlice := m_Subresources.m_BeginArray;
        m_CurrentPlaneSlice := m_CurrentPlaneSlice + 1;
      }
    }

    method Decrement()
      requires m_Subresources.m_BeginArray < m_Subresources.m_EndArray
      requires m_CurrentArraySlice <= m_Subresources.m_BeginArray ==> m_Subresources.m_BeginPlane < m_CurrentPlaneSlice
      modifies this
      ensures At() == Prev(m_Subresources.Value(), old(At()))
    {
      if m_CurrentArraySlice <= m_Subresources.m_BeginArray {
        m_CurrentArraySlice := m_Subresources.m_EndArray;
        m_CurrentPlaneSlice := m_CurrentPlaneSlice - 1;
      }
      m_CurrentArraySlice := m_CurrentArraySlice - 1;
    }
  }
}
