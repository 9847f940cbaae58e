/**
 Dispatches of more groups than one call can launch: the work-properties chunks that the
 ExecuteKernel constructor writes and the sub-dispatches that RecordImpl records,
 src/openclon12/kernel_tasks.cpp.
 */
module DispatchTiling {
  import opened Arithmetic

  const MAX: nat := 65535  // D3D12_CS_DISPATCH_MAX_THREAD_GROUPS_PER_DIMENSION

  datatype Dims = Dims(x: nat, y: nat, z: nat)

  ghost predicate NotEmpty(dims: Dims) {
    dims.x >= 1 && dims.y >= 1 && dims.z >= 1
  }

  function Iterations(dim: nat): (n: nat)
    requires dim >= 1
    ensures n >= 1
  {
    (dim - 1) / MAX + 1
  }

  /** How many groups the t-th of n iterations launches in one dimension. */
  function Extent(t: nat, dim: nat): int
    requires dim >= 1
  {
    if t == Iterations(dim) - 1 then dim - MAX * (Iterations(dim) - 1) else MAX
  }

  /** What a chunk of work properties says about the position of its groups. */
  datatype Chunk = Chunk(group_id_offset_x: nat, group_id_offset_y: nat, group_id_offset_z: nat)

  datatype SubDispatch = SubDispatch(chunk: Chunk, extent: Dims)

  /** Which iteration of the three loops comes k-th. */
  function TileOf(k: nat, ny: nat, nz: nat): Dims
    requires ny >= 1 && nz >= 1
  {
    DivMod(k, nz);
    DivMod(k / nz, ny);
    Dims(k / nz / ny, k / nz % ny, k % nz)
  }

  function ChunkOf(k: nat, ny: nat, nz: nat): Chunk
    requires ny >= 1 && nz >= 1
  {
    var t := TileOf(k, ny, nz);
    Chunk(t.x * MAX, t.y * MAX, t.z * MAX)
  }

  function Count(dims: Dims): nat
    requires NotEmpty(dims)
  {
    Iterations(dims.z) * (Iterations(dims.y) * Iterations(dims.x))
  }

  lemma TileIsKth(x: nat, y: nat, z: nat, ny: nat, nz: nat)
    requires y < ny && z < nz
    ensures TileOf(nz * (ny * x + y) + z, ny, nz) == Dims(x, y, z)
  {
    DivModUnique(nz * (ny * x + y) + z, nz, ny * x + y, z);
    DivModUnique(ny * x + y, ny, x, y);
  }

  lemma KthIsTile(k: nat, ny: nat, nz: nat)
    requires ny >= 1 && nz >= 1
    ensures var t := TileOf(k, ny, nz); t.y < ny && t.z < nz && k == nz * (ny * t.x + t.y) + t.z
  {
    DivMod(k, nz);
    DivMod(k / nz, ny);
  }

  /** The count of iterations is that of the numbers below it. */
  lemma TilesAreCounted(dims: Dims, k: nat)
    requires NotEmpty(dims)
    ensures k < Count(dims) <==> TileOf(k, Iterations(dims.y), Iterations(dims.z)).x < Iterations(dims.x)
  {
    var nx, ny, nz := Iterations(dims.x), Iterations(dims.y), Iterations(dims.z);
    var t := TileOf(k, ny, nz);
    KthIsTile(k, ny, nz);
    var row := ny * t.x + t.y;
    if t.x < nx {
      Monotone(ny, t.x + 1, nx);
      assert ny * (t.x + 1) == ny * t.x + ny;
      Monotone(nz, row + 1, ny * nx);
      assert nz * (row + 1) == nz * row + nz;
    } else {
      Monotone(ny, nx, t.x);
      Monotone(nz, ny * nx, row);
    }
  }

  // ---------------------------------------------------------------------------------
  // One dimension
  // ---------------------------------------------------------------------------------

  /** Extents are between 1 and the maximum, and the iterations do not reach beyond the
      dimension. */
  lemma ExtentFits(t: nat, dim: nat)
    requires dim >= 1 && t < Iterations(dim)
    ensures 1 <= Extent(t, dim) <= MAX && t * MAX + Extent(t, dim) <= dim
  {
  }

  /** A group is in an iteration if that starts the last one not after it. */
  lemma GroupIsInItsIteration(g: nat, t: nat, dim: nat)
    requires g < dim && t < Iterations(dim)
    ensures g / MAX < Iterations(dim)
    ensures t * MAX <= g < t * MAX + Extent(t, dim) <==> t == g / MAX
  {
  }

  // ---------------------------------------------------------------------------------
  // The loops
  // ---------------------------------------------------------------------------------

  /** Writes the chunks in the order of the loops. */
  method WriteChunks(dims: Dims) returns (chunks: array<Chunk>)
    requires NotEmpty(dims)
    ensures fresh(chunks) && chunks.Length == Count(dims)
    ensures forall k :: 0 <= k < chunks.Length ==> chunks[k] == ChunkOf(k, Iterations(dims.y), Iterations(dims.z))
  {
    var numX, numY, numZ := Iterations(dims.x), Iterations(dims.y), Iterations(dims.z);
    chunks := new Chunk[Count(dims)](_ => Chunk(0, 0, 0));
    var next := 0;
    for x := 0 to numX
      invariant next == numZ * (numY * x)
      invariant next <= chunks.Length && forall k :: 0 <= k < next ==> chunks[k] == ChunkOf(k, numY, numZ)
    {
      for y := 0 to numY
        invariant next == numZ * (numY * x + y)
        invariant next <= chunks.Length && forall k :: 0 <= k < next ==> chunks[k] == ChunkOf(k, numY, numZ)
      {
        for z := 0 to numZ
          invariant next == numZ * (numY * x + y) + z
          invariant next <= chunks.Length && forall k :: 0 <= k < next ==> chunks[k] == ChunkOf(k, numY, numZ)
        {
          TileIsKth(x, y, z, numY, numZ);
          TilesAreCounted(dims, next);
          chunks[next] := Chunk(x * MAX, y * MAX, z * MAX);
          next := next + 1;
        }
        assert numZ * (numY * x + y + 1) == numZ * (numY * x + y) + numZ;
      }
      assert numY * (x + 1) == numY * x + numY;
    }
  }

  /** The k-th sub-dispatch: the k-th chunk, which places it, and its extent. */
  ghost predicate IsKth(d: SubDispatch, k: nat, dims: Dims)
    requires NotEmpty(dims)
  {
    var t := TileOf(k, Iterations(dims.y), Iterations(dims.z));
    && d.chunk == ChunkOf(k, Iterations(dims.y), Iterations(dims.z))
    && d.extent.x == Extent(t.x, dims.x) && d.extent.y == Extent(t.y, dims.y) && d.extent.z == Extent(t.z, dims.z)
  }

  /** Reads the chunks back in the order of its own loops. */
  method RecordDispatches(dims: Dims, chunks: array<Chunk>) returns (dispatches: seq<SubDispatch>)
    requires NotEmpty(dims) && chunks.Length == Count(dims)
    requires forall k :: 0 <= k < chunks.Length ==> chunks[k] == ChunkOf(k, Iterations(dims.y), Iterations(dims.z))
    ensures |dispatches| == Count(dims)
    ensures forall k :: 0 <= k < |dispatches| ==> IsKth(dispatches[k], k, dims)
  {
    var numX, numY, numZ := Iterations(dims.x), Iterations(dims.y), Iterations(dims.z);
    dispatches := [];
    for x := 0 to numX
      invariant |dispatches| == numZ * (numY * x)
      invariant forall k :: 0 <= k < |dispatches| ==> IsKth(dispatches[k], k, dims)
    {
      for y := 0 to numY
        invariant |dispatches| == numZ * (numY * x + y)
        invariant forall k :: 0 <= k < |dispatches| ==> IsKth(dispatches[k], k, dims)
      {
        for z := 0 to numZ
          invariant |dispatches| == numZ * (numY * x + y) + z
          invariant forall k :: 0 <= k < |dispatches| ==> IsKth(dispatches[k], k, dims)
        {
          TileIsKth(x, y, z, numY, numZ);
          TilesAreCounted(dims, |dispatches|);
          ExtentFits(x, dims.x);
          ExtentFits(y, dims.y);
          ExtentFits(z, dims.z);
          var extent := Dims(if x == numX - 1 then dims.x - MAX * (numX - 1) else MAX,
                             if y == numY - 1 then dims.y - MAX * (numY - 1) else MAX,
                             if z == numZ - 1 then dims.z - MAX * (numZ - 1) else MAX);
          dispatches := dispatches + [SubDispatch(chunks[|dispatches|], extent)];
        }
        assert numZ * (numY * x + y + 1) == numZ * (numY * x + y) + numZ;
      }
      assert numY * (x + 1) == numY * x + numY;
    }
  }

  // ---------------------------------------------------------------------------------
  // What is launched
  // ---------------------------------------------------------------------------------

  /** A sub-dispatch launches a group: the group's ID, less the offset the kernel adds, is
      one of those the dispatch call counts through. */
  ghost predicate Launches(d: SubDispatch, g: Dims) {
    && d.chunk.group_id_offset_x <= g.x < d.chunk.group_id_offset_x + d.extent.x
    && d.chunk.group_id_offset_y <= g.y < d.chunk.group_id_offset_y + d.extent.y
    && d.chunk.group_id_offset_z <= g.z < d.chunk.group_id_offset_z + d.extent.z
  }

  ghost predicate Inside(g: Dims, dims: Dims) {
    g.x < dims.x && g.y < dims.y && g.z < dims.z
  }

  /** Every extent is one that a dispatch call takes, and only groups of the ND-range are
      launched. */
  lemma DispatchIsLegal(d: SubDispatch, k: nat, dims: Dims)
    requires NotEmpty(dims) && k < Count(dims) && IsKth(d, k, dims)
    ensures 1 <= d.extent.x <= MAX && 1 <= d.extent.y <= MAX && 1 <= d.extent.z <= MAX
    ensures forall g :: Launches(d, g) ==> Inside(g, dims)
  {
    var t := TileOf(k, Iterations(dims.y), Iterations(dims.z));
    TilesAreCounted(dims, k);
    KthIsTile(k, Iterations(dims.y), Iterations(dims.z));
    ExtentFits(t.x, dims.x);
    ExtentFits(t.y, dims.y);
    ExtentFits(t.z, dims.z);
  }

  /** The number of the only sub-dispatch that launches a group. */
  function DispatchOf(g: Dims, dims: Dims): nat
    requires NotEmpty(dims)
  {
    Iterations(dims.z) * (Iterations(dims.y) * (g.x / MAX) + g.y / MAX) + g.z / MAX
  }

  /** Every group of the ND-range is launched by exactly one of the sub-dispatches. */
  lemma EveryGroupExactlyOnce(g: Dims, dims: Dims, d: SubDispatch, k: nat)
    requires NotEmpty(dims) && Inside(g, dims) && k < Count(dims) && IsKth(d, k, dims)
    ensures DispatchOf(g, dims) < Count(dims)
    ensures Launches(d, g) <==> k == DispatchOf(g, dims)
  {
    var ny, nz := Iterations(dims.y), Iterations(dims.z);
    var t := TileOf(k, ny, nz);
    TilesAreCounted(dims, k);
    KthIsTile(k, ny, nz);
    GroupIsInItsIteration(g.x, t.x, dims.x);
    GroupIsInItsIteration(g.y, t.y, dims.y);
    GroupIsInItsIteration(g.z, t.z, dims.z);
    TileIsKth(g.x / MAX, g.y / MAX, g.z / MAX, ny, nz);
    TilesAreCounted(dims, DispatchOf(g, dims));
  }
}
