/**
 Copies between images of bytes with pitches: UploadDataToMappedBuffer and the depth/stencil
 (de)interleaving copies of src/d3d12translationlayer/ImmediateContext.cpp.
 */
module Copies {
  import opened Arithmetic

  type byte = bv8

  /** Cells of bytes in rows: the distance between rows, that between the cells of a row, and
      the bytes of a cell. */
  datatype Grid = Grid(outer: nat, inner: nat, cell: nat)

  function At(g: Grid, i: nat, j: nat): nat {
    g.outer * i + g.inner * j
  }

  /** The bytes of a cell, if they are all there. */
  function Cell(s: seq<byte>, g: Grid, i: nat, j: nat): seq<byte> {
    if At(g, i, j) + g.cell <= |s| then s[At(g, i, j)..At(g, i, j) + g.cell] else []
  }

  ghost predicate Apart(g: Grid, columns: nat) {
    g.cell <= g.inner && g.inner * columns <= g.outer
  }

  /** The last cell lies inside the image. */
  ghost predicate Fits(s: seq<byte>, g: Grid, rows: nat, columns: nat) {
    rows > 0 && columns > 0 ==> At(g, rows - 1, columns - 1) + g.cell <= |s|
  }

  ghost predicate Before(i: nat, j: nat, i': nat, j': nat) {
    i < i' || (i == i' && j < j')
  }

  lemma CellFits(s: seq<byte>, g: Grid, rows: nat, columns: nat, i: nat, j: nat)
    requires Fits(s, g, rows, columns) && i < rows && j < columns
    ensures At(g, i, j) + g.cell <= |s|
  {
    Monotone(g.outer, i, rows - 1);
    Monotone(g.inner, j, columns - 1);
  }

  /** A cell ends before a later one starts. */
  lemma CellsInOrder(g: Grid, columns: nat, i: nat, j: nat, i': nat, j': nat)
    requires Apart(g, columns) && j < columns && j' < columns && Before(i, j, i', j')
    ensures At(g, i, j) + g.cell <= At(g, i', j')
  {
    if i == i' {
      Monotone(g.inner, j + 1, j');
      assert g.inner * (j + 1) == g.inner * j + g.inner;
    } else {
      Monotone(g.outer, i + 1, i');
      assert g.outer * (i + 1) == g.outer * i + g.outer;
      Monotone(g.inner, j + 1, columns);
      assert g.inner * (j + 1) == g.inner * j + g.inner;
    }
  }

  /** Bytes written over others; nothing if there is no room for them. */
  function Put(s: seq<byte>, at: nat, bytes: seq<byte>): (r: seq<byte>)
    ensures |r| == |s|
  {
    if at + |bytes| <= |s| then s[..at] + bytes + s[at + |bytes|..] else s
  }

  lemma PutCell(s: seq<byte>, g: Grid, columns: nat, i: nat, j: nat, bytes: seq<byte>, a: nat, b: nat)
    requires Apart(g, columns) && j < columns && b < columns && |bytes| == g.cell && At(g, i, j) + g.cell <= |s|
    ensures Cell(Put(s, At(g, i, j), bytes), g, a, b) == if a == i && b == j then bytes else Cell(s, g, a, b)
  {
    if Before(a, b, i, j) {
      CellsInOrder(g, columns, a, b, i, j);
    } else if Before(i, j, a, b) {
      CellsInOrder(g, columns, i, j, a, b);
    }
  }

  /** What becomes of a cell of the destination, given that of the source. */
  type Convert = (seq<byte>, seq<byte>) -> seq<byte>

  ghost predicate Keeps(convert: Convert, d: Grid, s: Grid) {
    forall x, y :: |x| == d.cell && |y| == s.cell ==> |convert(x, y)| == d.cell
  }

  /** The destination after i rows and j more cells, in the order of the loops. */
  ghost function Converted(dst: seq<byte>, d: Grid, src: seq<byte>, s: Grid, convert: Convert, columns: nat, i: nat,
      j: nat): (r: seq<byte>)
    ensures |r| == |dst|
    decreases i, j
  {
    if j > 0 then
      Put(Converted(dst, d, src, s, convert, columns, i, j - 1), At(d, i, j - 1),
          convert(Cell(dst, d, i, j - 1), Cell(src, s, i, j - 1)))
    else if i > 0 then Converted(dst, d, src, s, convert, columns, i - 1, columns)
    else dst
  }

  /** Every cell that the loops have passed is converted, and no other one has changed. */
  lemma {:induction false} CellsConverted(dst: seq<byte>, d: Grid, src: seq<byte>, s: Grid, convert: Convert, rows: nat,
      columns: nat, i: nat, j: nat, a: nat, b: nat)
    requires Apart(d, columns) && Fits(dst, d, rows, columns) && Fits(src, s, rows, columns) && Keeps(convert, d, s)
    requires i <= rows && j <= columns && (j > 0 ==> i < rows) && a < rows && b < columns
    ensures Cell(Converted(dst, d, src, s, convert, columns, i, j), d, a, b)
      == if Before(a, b, i, j) then convert(Cell(dst, d, a, b), Cell(src, s, a, b)) else Cell(dst, d, a, b)
    decreases i, j
  {
    if j > 0 {
      CellsConverted(dst, d, src, s, convert, rows, columns, i, j - 1, a, b);
      CellFits(dst, d, rows, columns, i, j - 1);
      CellFits(src, s, rows, columns, i, j - 1);
      var bytes := convert(Cell(dst, d, i, j - 1), Cell(src, s, i, j - 1));
      PutCell(Converted(dst, d, src, s, convert, columns, i, j - 1), d, columns, i, j - 1, bytes, a, b);
    } else if i > 0 {
      CellsConverted(dst, d, src, s, convert, rows, columns, i - 1, columns, a, b);
    }
  }

  /** Bytes in no cell stay as they are. */
  lemma {:induction false} RestStays(dst: seq<byte>, d: Grid, src: seq<byte>, s: Grid, convert: Convert, rows: nat,
      columns: nat, i: nat, j: nat, k: nat)
    requires Fits(dst, d, rows, columns) && Fits(src, s, rows, columns) && Keeps(convert, d, s)
    requires i <= rows && j <= columns && (j > 0 ==> i < rows) && k < |dst|
    requires forall a: nat, b: nat :: a < rows && b < columns ==> !(At(d, a, b) <= k < At(d, a, b) + d.cell)
    ensures Converted(dst, d, src, s, convert, columns, i, j)[k] == dst[k]
    decreases i, j
  {
    if j > 0 {
      RestStays(dst, d, src, s, convert, rows, columns, i, j - 1, k);
      CellFits(dst, d, rows, columns, i, j - 1);
      CellFits(src, s, rows, columns, i, j - 1);
      assert !(At(d, i, j - 1) <= k < At(d, i, j - 1) + d.cell);
    } else if i > 0 {
      RestStays(dst, d, src, s, convert, rows, columns, i - 1, columns, k);
    }
  }

  method Memcpy(dst: array<byte>, at: nat, bytes: seq<byte>)
    requires at + |bytes| <= dst.Length
    modifies dst
    ensures dst[..] == Put(old(dst[..]), at, bytes)
  {
    for k := 0 to |bytes|
      invariant forall i :: 0 <= i < k ==> dst[at + i] == bytes[i]
      invariant forall i :: 0 <= i < dst.Length && !(at <= i < at + k) ==> dst[i] == old(dst[i])
    {
      dst[at + k] := bytes[k];
    }
  }

  /** The two nested loops that all of these copies have. */
  method CopyCells(dst: array<byte>, d: Grid, src: array<byte>, s: Grid, convert: Convert, rows: nat, columns: nat)
    requires dst != src && Apart(d, columns) && Fits(dst[..], d, rows, columns) && Fits(src[..], s, rows, columns)
    requires Keeps(convert, d, s)
    modifies dst
    ensures dst[..] == Converted(old(dst[..]), d, src[..], s, convert, columns, rows, 0)
  {
    ghost var was, from := dst[..], src[..];
    for i := 0 to rows
      invariant dst[..] == Converted(was, d, from, s, convert, columns, i, 0)
    {
      for j := 0 to columns
        invariant dst[..] == Converted(was, d, from, s, convert, columns, i, j)
      {
        CellFits(was, d, rows, columns, i, j);
        CellFits(from, s, rows, columns, i, j);
        CellsConverted(was, d, from, s, convert, rows, columns, i, j, i, j);
        var bytes := convert(Cell(dst[..], d, i, j), Cell(src[..], s, i, j));
        Memcpy(dst, At(d, i, j), bytes);
      }
    }
  }

  // ---------------------------------------------------------------------------------
  // Uploading
  // ---------------------------------------------------------------------------------

  function TakeSource(old': seq<byte>, source: seq<byte>): seq<byte> {
    source
  }

  /** Row-by-row copy of the slices of an image. */
  method MemcpySubresource(dst: array<byte>, d: Grid, src: array<byte>, s: Grid, numSlices: nat, numRows: nat)
    requires dst != src && d.cell == s.cell && Apart(d, numRows)
    requires Fits(dst[..], d, numSlices, numRows) && Fits(src[..], s, numSlices, numRows)
    modifies dst
    ensures dst[..] == Converted(old(dst[..]), d, src[..], s, TakeSource, numRows, numSlices, 0)
  {
    CopyCells(dst, d, src, s, TakeSource, numSlices, numRows);
  }

  /** One copy of everything from the first byte to the last does the same to every row when
      the pitches that matter agree. */
  lemma OneCopyMovesRows(dst: seq<byte>, d: Grid, src: seq<byte>, s: Grid, slices: nat, rows: nat, z: nat, y: nat)
    requires z < slices && y < rows && d.cell == s.cell
    requires (d.inner == s.inner || rows == 1) && (d.outer == s.outer || slices == 1)
    requires Fits(dst, d, slices, rows) && Fits(src, s, slices, rows)
    ensures At(d, slices - 1, rows - 1) == At(s, slices - 1, rows - 1)
    ensures Cell(Put(dst, 0, src[..At(d, slices - 1, rows - 1) + d.cell]), d, z, y) == Cell(src, s, z, y)
  {
    CellFits(dst, d, slices, rows, z, y);
    CellFits(src, s, slices, rows, z, y);
    Monotone(d.outer, z, slices - 1);
    Monotone(d.inner, y, rows - 1);
    if rows == 1 {
      assert y == 0;
    }
    if slices == 1 {
      assert z == 0;
    }
    assert d.inner * y == s.inner * y && d.inner * (rows - 1) == s.inner * (rows - 1);
    assert d.outer * z == s.outer * z && d.outer * (slices - 1) == s.outer * (slices - 1);
    assert At(d, z, y) == At(s, z, y);
    PutPrefix(dst, src, At(d, slices - 1, rows - 1) + d.cell, At(d, z, y), d.cell);
  }

  lemma PutPrefix(dst: seq<byte>, src: seq<byte>, copySize: nat, at: nat, n: nat)
    requires at + n <= copySize <= |src| && copySize <= |dst|
    ensures Put(dst, 0, src[..copySize])[at..at + n] == src[at..at + n]
  {
    assert dst[..0] == [];
  }

  /** The image in the mapped buffer: slices of rows of bytes. */
  datatype Placement = Placement(Height: nat, Depth: nat, RowPitch: nat)

  /** Every byte of every row of every slice is in its place, and nothing behind the last row
      has been touched. */
  ghost predicate Uploaded(now: seq<byte>, was: seq<byte>, d: Grid, src: seq<byte>, s: Grid, slices: nat, rows: nat)
    requires slices > 0 && rows > 0
  {
    && |now| == |was|
    && (forall z: nat, y: nat :: z < slices && y < rows ==> Cell(now, d, z, y) == Cell(src, s, z, y))
    && (forall k :: At(d, slices - 1, rows - 1) + d.cell <= k < |now| ==> now[k] == was[k])
  }

  lemma OneCopyUploads(was: seq<byte>, d: Grid, src: seq<byte>, s: Grid, slices: nat, rows: nat)
    requires slices > 0 && rows > 0 && d.cell == s.cell
    requires (d.inner == s.inner || rows == 1) && (d.outer == s.outer || slices == 1)
    requires Fits(was, d, slices, rows) && Fits(src, s, slices, rows)
    ensures At(d, slices - 1, rows - 1) + d.cell <= |src|
    ensures Uploaded(Put(was, 0, src[..At(d, slices - 1, rows - 1) + d.cell]), was, d, src, s, slices, rows)
  {
    OneCopyMovesRows(was, d, src, s, slices, rows, 0, 0);
    forall z: nat, y: nat | z < slices && y < rows
      ensures Cell(Put(was, 0, src[..At(d, slices - 1, rows - 1) + d.cell]), d, z, y) == Cell(src, s, z, y)
    {
      OneCopyMovesRows(was, d, src, s, slices, rows, z, y);
    }
  }

  lemma RowByRowUploads(was: seq<byte>, d: Grid, src: seq<byte>, s: Grid, slices: nat, rows: nat)
    requires slices > 0 && rows > 0 && d.cell == s.cell && Apart(d, rows)
    requires Fits(was, d, slices, rows) && Fits(src, s, slices, rows)
    ensures Uploaded(Converted(was, d, src, s, TakeSource, rows, slices, 0), was, d, src, s, slices, rows)
  {
    var now := Converted(was, d, src, s, TakeSource, rows, slices, 0);
    forall z: nat, y: nat | z < slices && y < rows ensures Cell(now, d, z, y) == Cell(src, s, z, y) {
      CellsConverted(was, d, src, s, TakeSource, slices, rows, slices, 0, z, y);
    }
    forall k: nat | At(d, slices - 1, rows - 1) + d.cell <= k < |now| ensures now[k] == was[k] {
      BehindTheLast(d, slices, rows, k);
      RestStays(was, d, src, s, TakeSource, slices, rows, slices, 0, k);
    }
  }

  /** The fast path: one copy, with a last row that need not be padded. */
  method CopyAtOnce(dst: array<byte>, d: Grid, src: array<byte>, s: Grid, slices: nat, rows: nat)
    requires dst != src && slices > 0 && rows > 0 && d.cell == s.cell
    requires (d.inner == s.inner || rows == 1) && (d.outer == s.outer || slices == 1)
    requires Fits(dst[..], d, slices, rows) && Fits(src[..], s, slices, rows)
    modifies dst
    ensures Uploaded(dst[..], old(dst[..]), d, src[..], s, slices, rows)
  {
    ghost var was, from := dst[..], src[..];
    OneCopyUploads(was, d, from, s, slices, rows);
    var copySize := d.outer * (slices - 1) + d.inner * (rows - 1) + d.cell;
    var bytes := src[..copySize];
    assert bytes == from[..copySize];
    Memcpy(dst, 0, bytes);
    assert dst[..] == Put(was, 0, from[..At(d, slices - 1, rows - 1) + d.cell]);
  }

  /** The slow path: row by row. */
  method CopyRows(dst: array<byte>, d: Grid, src: array<byte>, s: Grid, slices: nat, rows: nat)
    requires dst != src && slices > 0 && rows > 0 && d.cell == s.cell && Apart(d, rows)
    requires Fits(dst[..], d, slices, rows) && Fits(src[..], s, slices, rows)
    modifies dst
    ensures Uploaded(dst[..], old(dst[..]), d, src[..], s, slices, rows)
  {
    RowByRowUploads(dst[..], d, src[..], s, slices, rows);
    MemcpySubresource(dst, d, src, s, slices, rows);
  }

  /** Fast path or slow path, the image is uploaded. */
  method UploadDataToMappedBuffer(pData: array<byte>, srcPitch: nat, srcDepth: nat, pMappedData: array<byte>,
      placement: Placement, numRows: nat, depthPitch: nat, tightRowPitch: nat)
    requires pData != pMappedData && 1 <= numRows <= placement.Height && placement.Depth >= 1
    requires tightRowPitch <= placement.RowPitch && placement.RowPitch * numRows <= depthPitch
    requires Fits(pMappedData[..], Grid(depthPitch, placement.RowPitch, tightRowPitch), placement.Depth, numRows)
    requires Fits(pData[..], Grid(srcDepth, srcPitch, tightRowPitch), placement.Depth, numRows)
    modifies pMappedData
    ensures Uploaded(pMappedData[..], old(pMappedData[..]), Grid(depthPitch, placement.RowPitch, tightRowPitch),
                     pData[..], Grid(srcDepth, srcPitch, tightRowPitch), placement.Depth, numRows)
  {
    var d, s := Grid(depthPitch, placement.RowPitch, tightRowPitch), Grid(srcDepth, srcPitch, tightRowPitch);
    if (placement.RowPitch == srcPitch || placement.Height == 1) && (depthPitch == srcDepth || placement.Depth == 1) {
      CopyAtOnce(pMappedData, d, pData, s, placement.Depth, numRows);
    } else {
      CopyRows(pMappedData, d, pData, s, placement.Depth, numRows);
    }
  }

  lemma BehindTheLast(d: Grid, rows: nat, columns: nat, k: nat)
    requires rows > 0 && columns > 0 && At(d, rows - 1, columns - 1) + d.cell <= k
    ensures forall a: nat, b: nat :: a < rows && b < columns ==> !(At(d, a, b) <= k < At(d, a, b) + d.cell)
  {
    forall a: nat, b: nat | a < rows && b < columns ensures !(At(d, a, b) <= k < At(d, a, b) + d.cell) {
      Monotone(d.outer, a, rows - 1);
      Monotone(d.inner, b, columns - 1);
    }
  }

  // ---------------------------------------------------------------------------------
  // Depth and stencil
  // ---------------------------------------------------------------------------------

  datatype Format = R24G8 | R32G8X24

  function PixelSize(f: Format): nat {
    if f == R24G8 then 4 else 8
  }

  /** Depth takes four bytes, stencil one. */
  function PlaneSize(plane: bool): nat {
    if plane then 1 else 4
  }

  function Load32(b: seq<byte>): bv32
    requires |b| == 4
  {
    (b[0] as bv32) | ((b[1] as bv32) << 8) | ((b[2] as bv32) << 16) | ((b[3] as bv32) << 24)
  }

  function Store32(v: bv32): seq<byte> {
    [(v & 0xFF) as byte, ((v >> 8) & 0xFF) as byte, ((v >> 16) & 0xFF) as byte, ((v >> 24) & 0xFF) as byte]
  }

  function Load64(b: seq<byte>): bv64
    requires |b| == 8
  {
    (Load32(b[..4]) as bv64) | ((Load32(b[4..]) as bv64) << 32)
  }

  function Store64(v: bv64): seq<byte> {
    Store32((v & 0xFFFF_FFFF) as bv32) + Store32((v >> 32) as bv32)
  }

  lemma LoadStore32(v: bv32)
    ensures Load32(Store32(v)) == v
  {
  }

  lemma LoadStore64(v: bv64)
    ensures Load64(Store64(v)) == v
  {
    LoadStore32((v & 0xFFFF_FFFF) as bv32);
    LoadStore32((v >> 32) as bv32);
    assert Store64(v)[..4] == Store32((v & 0xFFFF_FFFF) as bv32);
    assert Store64(v)[4..] == Store32((v >> 32) as bv32);
  }

  lemma StoreLoad32(b: seq<byte>)
    requires |b| == 4
    ensures Store32(Load32(b)) == b
  {
  }

  /** The depth or the stencil of a pixel. */
  function PlaneOf(f: Format, plane: bool, pixel: seq<byte>): seq<byte> {
    if |pixel| != PixelSize(f) then []
    else if f == R24G8 then
      if !plane then Store32(Load32(pixel) & 0x00FF_FFFF) else [((Load32(pixel) & 0xFF00_0000) >> 24) as byte]
    else
      if !plane then Store32((Load64(pixel) & 0xFFFF_FFFF) as bv32)
      else [((Load64(pixel) & 0xFF_0000_0000) >> 32) as byte]
  }

  /** A pixel with the depth or the stencil added to it. */
  function Joined(f: Format, plane: bool, pixel: seq<byte>, value: seq<byte>): seq<byte> {
    if |pixel| != PixelSize(f) || |value| != PlaneSize(plane) then []
    else if f == R24G8 then
      if !plane then Store32(Load32(pixel) | (Load32(value) & 0x00FF_FFFF))
      else Store32(Load32(pixel) | (((value[0] & 0xFF) as bv32) << 24))
    else
      if !plane then Store64(Load64(pixel) | ((Load32(value) & 0xFFFF_FFFF) as bv64))
      else Store64(Load64(pixel) | (((value[0] & 0xFF) as bv64) << 32))
  }

  /** Which bytes of a pixel are its depth and its stencil. */
  lemma PlaneBytes(f: Format, b: seq<byte>)
    requires |b| == PixelSize(f)
    ensures PlaneOf(f, false, b) == if f == R24G8 then [b[0], b[1], b[2], 0] else b[..4]
    ensures PlaneOf(f, true, b) == if f == R24G8 then [b[3]] else [b[4]]
  {
    if f == R24G8 {
      PlaneBytes24(b);
    } else {
      PlaneBytes40(b);
    }
  }

  lemma PlaneBytes24(b: seq<byte>)
    requires |b| == 4
    ensures Store32(Load32(b) & 0x00FF_FFFF) == [b[0], b[1], b[2], 0]
    ensures ((Load32(b) & 0xFF00_0000) >> 24) as byte == b[3]
  {
  }

  lemma PlaneBytes40(b: seq<byte>)
    requires |b| == 8
    ensures Store32((Load64(b) & 0xFFFF_FFFF) as bv32) == b[..4]
    ensures ((Load64(b) & 0xFF_0000_0000) >> 32) as byte == b[4]
  {
    var low, high := Load32(b[..4]), Load32(b[4..]);
    Halves(low, high);
    StoreLoad32(b[..4]);
    FirstByte(b[4..]);
  }

  lemma Halves(low: bv32, high: bv32)
    ensures (((low as bv64) | ((high as bv64) << 32)) & 0xFFFF_FFFF) as bv32 == low
    ensures ((((low as bv64) | ((high as bv64) << 32)) & 0xFF_0000_0000) >> 32) as byte == (high & 0xFF) as byte
  {
  }

  lemma FirstByte(b: seq<byte>)
    requires |b| == 4
    ensures (Load32(b) & 0xFF) as byte == b[0]
  {
  }

  function Or(x: seq<byte>, y: seq<byte>): (r: seq<byte>)
    requires |x| == |y|
    ensures |r| == |x| && forall i :: 0 <= i < |r| ==> r[i] == x[i] | y[i]
  {
    seq(|x|, i requires 0 <= i < |x| => x[i] | y[i])
  }

  /** To which bytes of an R24G8 pixel a depth or a stencil is added. */
  lemma JoinedBytes(b: seq<byte>, depth: seq<byte>, stencil: byte)
    requires |b| == 4 && |depth| == 4
    ensures Joined(R24G8, false, b, depth) == Or(b[..3], depth[..3]) + [b[3]]
    ensures Joined(R24G8, true, b, [stencil]) == b[3 := b[3] | stencil]
  {
  }

  /** As 64-bit words, adding to an R32G8X24 pixel is a bitwise or. */
  lemma JoinedWord(b: seq<byte>, depth: seq<byte>, stencil: byte)
    requires |b| == 8 && |depth| == 4
    ensures Load64(Joined(R32G8X24, false, b, depth)) == Load64(b) | ((Load32(depth) & 0xFFFF_FFFF) as bv64)
    ensures Load64(Joined(R32G8X24, true, b, [stencil])) == Load64(b) | (((stencil & 0xFF) as bv64) << 32)
  {
    LoadStore64(Load64(b) | ((Load32(depth) & 0xFFFF_FFFF) as bv64));
    LoadStore64(Load64(b) | (((stencil & 0xFF) as bv64) << 32));
  }

  /** The depth goes to the low 32 bits, the stencil to the eight above, and the others stay. */
  lemma DepthBits(v: bv64, d: bv32)
    ensures var r := v | ((d & 0xFFFF_FFFF) as bv64);
      (r & 0xFFFF_FFFF) as bv32 == (v & 0xFFFF_FFFF) as bv32 | d && r >> 32 == v >> 32
  {
  }

  lemma StencilBits(v: bv64, s: byte)
    ensures var r := v | (((s & 0xFF) as bv64) << 32);
      && r & 0xFFFF_FFFF == v & 0xFFFF_FFFF && r >> 40 == v >> 40
      && ((r >> 32) & 0xFF) as byte == ((v >> 32) & 0xFF) as byte | s
  {
  }

  function Zeros(n: nat): (r: seq<byte>)
    ensures |r| == n
  {
    seq(n, _ => 0)
  }

  /** What a round trip keeps of a pixel: all of it, or all but the unused bytes. */
  function Kept(f: Format, pixel: seq<byte>): seq<byte>
    requires |pixel| == PixelSize(f)
  {
    if f == R24G8 then pixel else pixel[..5] + Zeros(3)
  }

  lemma LoadZeros()
    ensures Load32(Zeros(4)) == 0 && Load64(Zeros(8)) == 0
  {
    assert Zeros(8)[..4] == Zeros(4) && Zeros(8)[4..] == Zeros(4);
  }

  lemma Recombine24(p: bv32)
    ensures
      (0 | ((p & 0x00FF_FFFF) & 0x00FF_FFFF)) | ((((((p & 0xFF00_0000) >> 24) as byte) & 0xFF) as bv32) << 24)
      == p
  {
  }

  lemma Recombine40(p: bv64)
    ensures
      (0 | ((((p & 0xFFFF_FFFF) as bv32) & 0xFFFF_FFFF) as bv64))
      | ((((((p & 0xFF_0000_0000) >> 32) as byte) & 0xFF) as bv64) << 32)
      == p & 0xFF_FFFF_FFFF
  {
  }

  lemma DepthJoined24(pixel: seq<byte>)
    requires |pixel| == 4
    ensures Joined(R24G8, false, Zeros(4), PlaneOf(R24G8, false, pixel))
      == Store32(0 | ((Load32(pixel) & 0x00FF_FFFF) & 0x00FF_FFFF))
  {
    LoadZeros();
    LoadStore32(Load32(pixel) & 0x00FF_FFFF);
  }

  lemma StencilJoined24(half: bv32, pixel: seq<byte>)
    requires |pixel| == 4 && half == 0 | ((Load32(pixel) & 0x00FF_FFFF) & 0x00FF_FFFF)
    ensures Joined(R24G8, true, Store32(half), PlaneOf(R24G8, true, pixel)) == pixel
  {
    LoadStore32(half);
    Recombine24(Load32(pixel));
    StoreLoad32(pixel);
  }

  lemma DepthJoined40(pixel: seq<byte>)
    requires |pixel| == 8
    ensures Joined(R32G8X24, false, Zeros(8), PlaneOf(R32G8X24, false, pixel))
      == Store64(0 | ((((Load64(pixel) & 0xFFFF_FFFF) as bv32) & 0xFFFF_FFFF) as bv64))
  {
    LoadZeros();
    LoadStore32((Load64(pixel) & 0xFFFF_FFFF) as bv32);
  }

  lemma StencilJoined40(half: bv64, pixel: seq<byte>)
    requires |pixel| == 8 && half == 0 | ((((Load64(pixel) & 0xFFFF_FFFF) as bv32) & 0xFFFF_FFFF) as bv64)
    ensures Joined(R32G8X24, true, Store64(half), PlaneOf(R32G8X24, true, pixel))
      == Store64(Load64(pixel) & 0xFF_FFFF_FFFF)
  {
    LoadStore64(half);
    Recombine40(Load64(pixel));
  }

  /** The low five bytes of a pixel. */
  lemma LowFiveBytes(pixel: seq<byte>)
    requires |pixel| == 8
    ensures Store64(Load64(pixel) & 0xFF_FFFF_FFFF) == pixel[..5] + Zeros(3)
  {
    assert Store32(Load32(pixel[..4])) == pixel[..4] by {
      StoreLoad32(pixel[..4]);
    }
    assert Store32(Load32(pixel[4..]) & 0xFF) == LowByteOf(pixel[4..]) by {
      LowByte(pixel[4..]);
    }
    assert Store64(Load64(pixel) & 0xFF_FFFF_FFFF) == pixel[..4] + LowByteOf(pixel[4..]) by {
      StoreLow(Load32(pixel[..4]), Load32(pixel[4..]), pixel[..4], LowByteOf(pixel[4..]));
    }
    FiveBytes(pixel);
  }

  lemma StoreLow(low: bv32, high: bv32, a: seq<byte>, b: seq<byte>)
    requires Store32(low) == a && Store32(high & 0xFF) == b
    ensures Store64(((low as bv64) | ((high as bv64) << 32)) & 0xFF_FFFF_FFFF) == a + b
  {
    HalvesOfLow(low, high);
  }

  function LowByteOf(b: seq<byte>): seq<byte>
    requires |b| == 4
  {
    [b[0]] + Zeros(3)
  }

  lemma FiveBytes(pixel: seq<byte>)
    requires |pixel| == 8
    ensures pixel[..4] + LowByteOf(pixel[4..]) == pixel[..5] + Zeros(3)
  {
  }

  lemma HalvesOfLow(low: bv32, high: bv32)
    ensures Store64(((low as bv64) | ((high as bv64) << 32)) & 0xFF_FFFF_FFFF) == Store32(low) + Store32(high & 0xFF)
  {
    var v := ((low as bv64) | ((high as bv64) << 32)) & 0xFF_FFFF_FFFF;
    assert (v & 0xFFFF_FFFF) as bv32 == low && (v >> 32) as bv32 == high & 0xFF;
  }

  lemma LowByte(b: seq<byte>)
    requires |b| == 4
    ensures Store32(Load32(b) & 0xFF) == LowByteOf(b)
  {
  }

  /** A pixel taken apart and put together again is what it was, as far as it is used. */
  lemma PixelRoundTrip(f: Format, pixel: seq<byte>)
    requires |pixel| == PixelSize(f)
    ensures Joined(f, true, Joined(f, false, Zeros(PixelSize(f)), PlaneOf(f, false, pixel)), PlaneOf(f, true, pixel))
      == Kept(f, pixel)
  {
    if f == R24G8 {
      DepthJoined24(pixel);
      StencilJoined24(0 | ((Load32(pixel) & 0x00FF_FFFF) & 0x00FF_FFFF), pixel);
    } else {
      DepthJoined40(pixel);
      StencilJoined40(0 | ((((Load64(pixel) & 0xFFFF_FFFF) as bv32) & 0xFFFF_FFFF) as bv64), pixel);
      LowFiveBytes(pixel);
    }
  }

  function Deinterleaving(f: Format, plane: bool): Convert {
    (old': seq<byte>, pixel: seq<byte>) => PlaneOf(f, plane, pixel)
  }

  function Interleaving(f: Format, plane: bool): Convert {
    (pixel: seq<byte>, value: seq<byte>) => Joined(f, plane, pixel, value)
  }

  function Pixels(f: Format, rowPitch: nat): Grid {
    Grid(rowPitch, PixelSize(f), PixelSize(f))
  }

  function Values(plane: bool, rowPitch: nat): Grid {
    Grid(rowPitch, PlaneSize(plane), PlaneSize(plane))
  }

  lemma ConversionsKeepSizes(f: Format, plane: bool, p: nat, q: nat)
    ensures Keeps(Deinterleaving(f, plane), Values(plane, p), Pixels(f, q))
    ensures Keeps(Interleaving(f, plane), Pixels(f, q), Values(plane, p))
  {
  }

  /** Writes the depth or the stencil of every pixel to an image of its own. */
  method DepthStencilDeInterleavingUpload(f: Format, plane: bool, src: array<byte>, srcRowPitch: nat, dst: array<byte>,
      dstRowPitch: nat, width: nat, height: nat)
    requires dst != src && PlaneSize(plane) * width <= dstRowPitch
    requires Fits(dst[..], Values(plane, dstRowPitch), height, width)
    requires Fits(src[..], Pixels(f, srcRowPitch), height, width)
    modifies dst
    ensures dst[..] == Converted(old(dst[..]), Values(plane, dstRowPitch), src[..], Pixels(f, srcRowPitch),
                                 Deinterleaving(f, plane), width, height, 0)
  {
    ConversionsKeepSizes(f, plane, dstRowPitch, srcRowPitch);
    CopyCells(dst, Values(plane, dstRowPitch), src, Pixels(f, srcRowPitch), Deinterleaving(f, plane), height, width);
  }

  /** Adds the depth or the stencil to every pixel. */
  method DepthStencilInterleavingReadback(f: Format, plane: bool, src: array<byte>, srcRowPitch: nat, dst: array<byte>,
      dstRowPitch: nat, width: nat, height: nat)
    requires dst != src && PixelSize(f) * width <= dstRowPitch
    requires Fits(dst[..], Pixels(f, dstRowPitch), height, width)
    requires Fits(src[..], Values(plane, srcRowPitch), height, width)
    modifies dst
    ensures dst[..] == Converted(old(dst[..]), Pixels(f, dstRowPitch), src[..], Values(plane, srcRowPitch),
                                 Interleaving(f, plane), width, height, 0)
  {
    ConversionsKeepSizes(f, plane, srcRowPitch, dstRowPitch);
    CopyCells(dst, Pixels(f, dstRowPitch), src, Values(plane, srcRowPitch), Interleaving(f, plane), height, width);
  }

  /** Taking an image apart into depth and stencil, whatever those images held, and adding
      both to an image of zeros restores every pixel, as far as it is used. */
  lemma ImageRoundTrip(f: Format, image: seq<byte>, depth: seq<byte>, stencil: seq<byte>, result: seq<byte>,
      pitch: nat, depthPitch: nat, stencilPitch: nat, resultPitch: nat, width: nat, height: nat, x: nat, y: nat)
    requires x < width && y < height
    requires Fits(image, Pixels(f, pitch), height, width) && Fits(result, Pixels(f, resultPitch), height, width)
    requires Fits(depth, Values(false, depthPitch), height, width)
    requires Fits(stencil, Values(true, stencilPitch), height, width)
    requires Apart(Values(false, depthPitch), width) && Apart(Values(true, stencilPitch), width)
    requires Apart(Pixels(f, resultPitch), width)
    requires Cell(result, Pixels(f, resultPitch), y, x) == Zeros(PixelSize(f))
    ensures var d := Converted(depth, Values(false, depthPitch), image, Pixels(f, pitch), Deinterleaving(f, false),
                               width, height, 0);
      var s := Converted(stencil, Values(true, stencilPitch), image, Pixels(f, pitch), Deinterleaving(f, true), width,
                         height, 0);
      var r := Converted(result, Pixels(f, resultPitch), d, Values(false, depthPitch), Interleaving(f, false), width,
                         height, 0);
      var t := Converted(r, Pixels(f, resultPitch), s, Values(true, stencilPitch), Interleaving(f, true), width,
                         height, 0);
      |Cell(image, Pixels(f, pitch), y, x)| == PixelSize(f)
      && Cell(t, Pixels(f, resultPitch), y, x) == Kept(f, Cell(image, Pixels(f, pitch), y, x))
  {
    var d := Converted(depth, Values(false, depthPitch), image, Pixels(f, pitch), Deinterleaving(f, false), width,
                       height, 0);
    var s := Converted(stencil, Values(true, stencilPitch), image, Pixels(f, pitch), Deinterleaving(f, true), width,
                       height, 0);
    var r := Converted(result, Pixels(f, resultPitch), d, Values(false, depthPitch), Interleaving(f, false), width,
                       height, 0);
    CellFits(image, Pixels(f, pitch), height, width, y, x);
    ConversionsKeepSizes(f, false, depthPitch, pitch);
    ConversionsKeepSizes(f, true, stencilPitch, pitch);
    ConversionsKeepSizes(f, false, depthPitch, resultPitch);
    ConversionsKeepSizes(f, true, stencilPitch, resultPitch);
    CellsConverted(depth, Values(false, depthPitch), image, Pixels(f, pitch), Deinterleaving(f, false), height, width,
                   height, 0, y, x);
    CellsConverted(stencil, Values(true, stencilPitch), image, Pixels(f, pitch), Deinterleaving(f, true), height,
                   width, height, 0, y, x);
    CellsConverted(result, Pixels(f, resultPitch), d, Values(false, depthPitch), Interleaving(f, false), height,
                   width, height, 0, y, x);
    CellsConverted(r, Pixels(f, resultPitch), s, Values(true, stencilPitch), Interleaving(f, true), height, width,
                   height, 0, y, x);
    PixelRoundTrip(f, Cell(image, Pixels(f, pitch), y, x));
  }

  // Swapping red and blue of a pixel with ten bits for each color.
  function Swap10bitRBPixel(pixel: bv32): bv32 {
    (pixel & ((3 << 30) | (0x3FF << 10))) | ((pixel & (0x3FF << 20)) >> 20) | ((pixel & 0x3FF) << 20)
  }

  /** Red and blue change places, green and alpha stay. */
  lemma SwapMovesColors(pixel: bv32)
    ensures var r := Swap10bitRBPixel(pixel);
      && r & 0x3FF == (pixel >> 20) & 0x3FF && (r >> 20) & 0x3FF == pixel & 0x3FF
      && (r >> 10) & 0x3FF == (pixel >> 10) & 0x3FF && r >> 30 == pixel >> 30
  {
  }

  /** Swapping twice changes nothing. */
  lemma SwapIsItsOwnInverse(pixel: bv32)
    ensures Swap10bitRBPixel(Swap10bitRBPixel(pixel)) == pixel
  {
  }
}
