/** Copying decoded tiles into a window buffer, against cropping the whole raster. */
module CogStitch {
  import opened Arith
  import opened Bytes
  import opened Results
  import opened CogModel
  import opened CogWindow

  // ---- The simple form: crop the whole raster -------------------------------

  /** A whole raster of `m`'s dimensions, row-major. */
  predicate IsRaster<T>(values: seq<T>, m: CogMetadata) {
    |values| == m.width * m.height
  }

  /** Where the window's part of raster row `row` starts. */
  function RowStart(m: CogMetadata, w: RasterPixelWindow, row: nat): (start: nat)
    requires w.Within(m) && row < w.height
    ensures start + w.width <= m.width * m.height
  {
    RowMajorBound(w.rowOff + row, w.colOff + w.width - 1, m.width, m.height);
    RowMajor(w.rowOff + row, m.width, w.colOff)
  }

  /** The window's part of raster row `row`. */
  function CropRow<T>(values: seq<T>, m: CogMetadata, w: RasterPixelWindow, row: nat): (s: seq<T>)
    requires IsRaster(values, m) && w.Within(m) && row < w.height
    ensures |s| == w.width
  {
    values[RowStart(m, w, row)..][..w.width]
  }

  function CropRows<T>(values: seq<T>, m: CogMetadata, w: RasterPixelWindow, rows: nat): (s: seq<seq<T>>)
    requires IsRaster(values, m) && w.Within(m) && rows <= w.height
    ensures |s| == rows && AllLen(s, w.width)
  {
    seq(rows, y requires 0 <= y < rows => CropRow(values, m, w, y))
  }

  /** The window of the whole raster. */
  function Crop<T>(values: seq<T>, m: CogMetadata, w: RasterPixelWindow): seq<T>
    requires IsRaster(values, m) && w.Within(m)
  {
    Flatten(CropRows(values, m, w, w.height))
  }

  /** Position of raster cell (c, r) in a window buffer. */
  function CellIndex(w: RasterPixelWindow, c: int, r: int): int {
    (r - w.rowOff) * w.width + (c - w.colOff)
  }

  lemma CellIndexBound(w: RasterPixelWindow, c: int, r: int)
    requires w.Contains(c, r)
    ensures 0 <= CellIndex(w, c, r) < w.height * w.width
  {
    RowMajorBound(r - w.rowOff, c - w.colOff, w.width, w.height);
  }

  lemma CropRowCell<T>(values: seq<T>, m: CogMetadata, w: RasterPixelWindow, y: nat, x: nat)
    requires IsRaster(values, m) && w.Within(m) && y < w.height && x < w.width
    ensures RowMajor(w.rowOff + y, m.width, w.colOff + x) < |values|
    ensures CropRow(values, m, w, y)[x] == values[RowMajor(w.rowOff + y, m.width, w.colOff + x)]
  {
    var start := RowStart(m, w, y);
    assert RowMajor(w.rowOff + y, m.width, w.colOff + x) == start + x;
  }

  /** Sample (y, x) of the crop is raster sample (rowOff + y, colOff + x). */
  lemma CropAt<T>(values: seq<T>, m: CogMetadata, w: RasterPixelWindow, y: nat, x: nat)
    requires IsRaster(values, m) && w.Within(m) && y < w.height && x < w.width
    ensures |Crop(values, m, w)| == w.height * w.width
    ensures RowMajor(y, w.width, x) < |Crop(values, m, w)|
    ensures RowMajor(w.rowOff + y, m.width, w.colOff + x) < |values|
    ensures Crop(values, m, w)[RowMajor(y, w.width, x)] == values[RowMajor(w.rowOff + y, m.width, w.colOff + x)]
  {
    var rows := CropRows(values, m, w, w.height);
    FlattenLength(rows, w.width);
    FlattenIndex(rows, w.width, y, x);
    CropRowCell(values, m, w, y, x);
    assert rows[y] == CropRow(values, m, w, y);
  }

  lemma CropCell<T>(values: seq<T>, m: CogMetadata, w: RasterPixelWindow, c: nat, r: nat)
    requires IsRaster(values, m) && w.Within(m) && w.Contains(c, r)
    ensures |Crop(values, m, w)| == w.height * w.width
    ensures 0 <= CellIndex(w, c, r) < |Crop(values, m, w)|
    ensures RowMajor(r, m.width, c) < |values|
    ensures Crop(values, m, w)[CellIndex(w, c, r)] == values[RowMajor(r, m.width, c)]
  {
    CropAt(values, m, w, r - w.rowOff, c - w.colOff);
  }

  /** A window buffer that agrees with the raster on every window cell is the crop. */
  lemma CropUnique<T>(out: seq<T>, values: seq<T>, m: CogMetadata, w: RasterPixelWindow)
    requires IsRaster(values, m) && w.Within(m) && |out| == w.height * w.width
    requires forall c: nat, r: nat :: w.Contains(c, r) ==> HoldsCell(out, values, m, w, c, r)
    ensures out == Crop(values, m, w)
  {
    CropCell(values, m, w, w.colOff, w.rowOff);
    forall k | 0 <= k < |out|
      ensures out[k] == Crop(values, m, w)[k]
    {
      var r, c := w.rowOff + k / w.width, w.colOff + k % w.width;
      IndexToCell(w, k);
      assert HoldsCell(out, values, m, w, c, r);
      CropCell(values, m, w, c, r);
    }
  }

  lemma IndexToCell(w: RasterPixelWindow, k: nat)
    requires w.width > 0 && k < w.height * w.width
    ensures w.Contains(w.colOff + k % w.width, w.rowOff + k / w.width)
    ensures CellIndex(w, w.colOff + k % w.width, w.rowOff + k / w.width) == k
  {
    RowMajorSplit(k, w.width, w.height);
  }

  predicate HoldsCell<T(==)>(out: seq<T>, values: seq<T>, m: CogMetadata, w: RasterPixelWindow, c: nat, r: nat) {
    && 0 <= CellIndex(w, c, r) < |out|
    && RowMajor(r, m.width, c) < |values|
    && out[CellIndex(w, c, r)] == values[RowMajor(r, m.width, c)]
  }

  /** One more row of the crop. */
  lemma CropRowsStep<T>(values: seq<T>, m: CogMetadata, w: RasterPixelWindow, row: nat)
    requires IsRaster(values, m) && w.Within(m) && row < w.height
    ensures Flatten(CropRows(values, m, w, row + 1)) == Flatten(CropRows(values, m, w, row)) + CropRow(values, m, w, row)
  {
    assert CropRows(values, m, w, row + 1)[..row] == CropRows(values, m, w, row);
  }

  /** The local reader's crop, which forms each row's start in 32 bits and so fails on tall or wide rasters. */
  method CropWindow<T>(values: seq<T>, m: CogMetadata, w: RasterPixelWindow) returns (r: Result<seq<T>, CogError>)
    requires IsRaster(values, m) && w.Within(m)
    ensures r == if RowMajor(w.rowOff + w.height - 1, m.width, w.colOff) < U32_LIMIT
                 then Ok(Crop(values, m, w)) else Err(RangeOverflow)
  {
    var out: seq<T> := [];
    var row := 0;
    while row < w.height
      invariant 0 <= row <= w.height
      invariant out == Flatten(CropRows(values, m, w, row))
      invariant row > 0 ==> RowMajor(w.rowOff + row - 1, m.width, w.colOff) < U32_LIMIT
    {
      var start := RowMajor(w.rowOff + row, m.width, w.colOff);
      if start >= U32_LIMIT {
        MulMono(w.rowOff + row, w.rowOff + w.height - 1, m.width);
        return Err(RangeOverflow);
      }
      RowMajorBound(w.rowOff + row, w.colOff + w.width - 1, m.width, m.height);
      CropRowsStep(values, m, w, row);
      out := out + values[start..start + w.width];
      row := row + 1;
    }
    return Ok(out);
  }

  // ---- Tiles ----------------------------------------------------------------

  function Min(a: int, b: int): int {
    if a < b then a else b
  }

  function Max(a: int, b: int): int {
    if a < b then b else a
  }

  predicate HasTile(m: CogMetadata, i: nat) {
    m.Tiled() && m.TilesAcross() > 0 && i / m.TilesAcross() < m.TilesDown()
  }

  /** The part of tile `i` that lies on the raster. */
  function LiveRect(m: CogMetadata, i: nat): (w: RasterPixelWindow)
    requires HasTile(m, i)
    ensures w.Within(m)
    ensures w.width <= m.tileWidth && w.height <= m.tileHeight
  {
    var col, row := i % m.TilesAcross(), i / m.TilesAcross();
    var x, y := BlockStart(m.width, m.tileWidth, col), BlockStart(m.height, m.tileHeight, row);
    RasterPixelWindow(x, y, Min(m.tileWidth, m.width - x), Min(m.tileHeight, m.height - y))
  }

  /** Position `x` of a line of `total` falls in size-`d` block `q` exactly when it is in the block's live part. */
  lemma LiveLine(x: nat, total: nat, d: nat, q: nat)
    requires d > 0 && x < total && q * d < total
    ensures x / d == q <==> q * d <= x < q * d + Min(d, total - q * d)
  {
    DivUnique(x, d, q);
  }

  /** A raster pixel is in tile `i` exactly when it is in the tile's live rectangle. */
  lemma LiveRectExact(m: CogMetadata, i: nat, c: nat, r: nat)
    requires HasTile(m, i) && c < m.width && r < m.height
    ensures PixelInTile(m, i, c, r) <==> LiveRect(m, i).Contains(c, r)
  {
    var col, row := i % m.TilesAcross(), i / m.TilesAcross();
    var x, y := BlockStart(m.width, m.tileWidth, col), BlockStart(m.height, m.tileHeight, row);
    LiveLine(c, m.width, m.tileWidth, col);
    LiveLine(r, m.height, m.tileHeight, row);
    var live := LiveRect(m, i);
    assert live.colOff == x && live.width == Min(m.tileWidth, m.width - x);
    assert live.rowOff == y && live.height == Min(m.tileHeight, m.height - y);
    assert PixelInTile(m, i, c, r) <==> c / m.tileWidth == col && r / m.tileHeight == row;
  }

  /** Index of the tile holding pixel (c, r). */
  function TileOf(m: CogMetadata, c: nat, r: nat): nat
    requires m.Tiled()
  {
    RowMajor(r / m.tileHeight, m.TilesAcross(), c / m.tileWidth)
  }

  lemma RowMajorIff(row: nat, width: nat, col: nat, i: nat)
    requires col < width
    ensures i == RowMajor(row, width, col) <==> i / width == row && i % width == col
  {
    DivModOf(row, width, col);
  }

  lemma PixelInGrid(m: CogMetadata, c: nat, r: nat)
    requires m.Tiled() && c < m.width && r < m.height
    ensures c / m.tileWidth < m.TilesAcross() && r / m.tileHeight < m.TilesDown()
  {
    DivCeilCovers(m.width, m.tileWidth, c);
    DivCeilCovers(m.height, m.tileHeight, r);
  }

  lemma TileOfHas(m: CogMetadata, c: nat, r: nat)
    requires m.Tiled() && c < m.width && r < m.height
    ensures HasTile(m, TileOf(m, c, r))
  {
    hide DivCeil;
    PixelInGrid(m, c, r);
    RowMajorIff(r / m.tileHeight, m.TilesAcross(), c / m.tileWidth, TileOf(m, c, r));
  }

  /** Pixel (c, r) is in tile `i` exactly when `i` is the row-major index of the pixel's tile. */
  lemma TileOfExact(m: CogMetadata, c: nat, r: nat, i: nat)
    requires m.Tiled() && c < m.width && r < m.height && m.TilesAcross() > 0
    ensures PixelInTile(m, i, c, r) <==> i == TileOf(m, c, r)
  {
    hide DivCeil;
    PixelInGrid(m, c, r);
    RowMajorIff(r / m.tileHeight, m.TilesAcross(), c / m.tileWidth, i);
  }

  /** Every window pixel belongs to exactly one planned tile, and that tile is planned once. */
  lemma EachCellOnce(m: CogMetadata, w: RasterPixelWindow, c: nat, r: nat) returns (k: nat)
    requires m.Tiled() && w.Within(m) && w.Contains(c, r)
    ensures k < |WindowBlock(m, w).Indices()| && WindowBlock(m, w).Indices()[k] == TileOf(m, c, r)
    ensures forall j :: 0 <= j < |WindowBlock(m, w).Indices()| && WindowBlock(m, w).Indices()[j] == TileOf(m, c, r) ==> j == k
  {
    TileOfHas(m, c, r);
    TileOfExact(m, c, r, TileOf(m, c, r));
    PlanExact(m, w);
    var plan := WindowBlock(m, w).Indices();
    assert TileMeetsWindow(m, w, TileOf(m, c, r)) by {
      assert PixelInTile(m, TileOf(m, c, r), c, r);
    }
    k :| 0 <= k < |plan| && plan[k] == TileOf(m, c, r);
  }

  // ---- The fast form: copy each tile's overlap --------------------------------

  datatype CopySpan = CopySpan(
    srcWidth: u32, srcHeight: u32, dstCol: u32, dstRow: u32, copyWidth: u32, copyHeight: u32)

  /** A block of a line that meets the interval [off, off + size) overlaps it, and stays on the line. */
  lemma OverlapLine(off: nat, size: nat, total: nat, d: nat, q: nat)
    requires d > 0 && size > 0 && off + size <= total
    requires off / d <= q <= (off + size - 1) / d
    ensures q * d < off + size && q * d < total && off < q * d + Min(d, total - q * d)
  {
    DivUnique(off, d, off / d);
    DivUnique(off + size - 1, d, (off + size - 1) / d);
    MulMono(off / d, q, d);
    MulMono(q, (off + size - 1) / d, d);
  }

  /** The overlap of a tile and the window. The tile must meet the window: the subtractions are unsigned. */
  function TileCopySpan(m: CogMetadata, w: RasterPixelWindow, tileCol: u32, tileRow: u32): (s: CopySpan)
    requires m.Tiled() && w.Within(m) && WindowBlock(m, w).Has(tileRow, tileCol)
    ensures s.copyWidth > 0 && s.copyHeight > 0
    ensures tileCol * m.tileWidth <= s.dstCol && s.dstCol + s.copyWidth <= tileCol * m.tileWidth + s.srcWidth
    ensures tileRow * m.tileHeight <= s.dstRow && s.dstRow + s.copyHeight <= tileRow * m.tileHeight + s.srcHeight
    ensures w.colOff <= s.dstCol && s.dstCol + s.copyWidth <= w.colOff + w.width
    ensures w.rowOff <= s.dstRow && s.dstRow + s.copyHeight <= w.rowOff + w.height
  {
    OverlapLine(w.colOff, w.width, m.width, m.tileWidth, tileCol);
    OverlapLine(w.rowOff, w.height, m.height, m.tileHeight, tileRow);
    var tileX := tileCol * m.tileWidth;
    var tileY := tileRow * m.tileHeight;
    var srcWidth := Min(m.tileWidth, m.width - tileX);
    var srcHeight := Min(m.tileHeight, m.height - tileY);
    var dstCol := Max(w.colOff, tileX);
    var dstRow := Max(w.rowOff, tileY);
    var copyEndCol := Min(w.colOff + w.width, tileX + srcWidth);
    var copyEndRow := Min(w.rowOff + w.height, tileY + srcHeight);
    CopySpan(srcWidth, srcHeight, dstCol, dstRow, copyEndCol - dstCol, copyEndRow - dstRow)
  }

  /** The span is exactly the overlap: a window pixel is copied if and only if it is in the tile. */
  lemma SpanExact(m: CogMetadata, w: RasterPixelWindow, i: nat, c: nat, r: nat)
    requires m.Tiled() && w.Within(m) && w.Contains(c, r) && m.TilesAcross() > 0
    requires i % m.TilesAcross() < U32_LIMIT && i / m.TilesAcross() < U32_LIMIT
    requires WindowBlock(m, w).Has(i / m.TilesAcross(), i % m.TilesAcross())
    ensures var s := TileCopySpan(m, w, i % m.TilesAcross(), i / m.TilesAcross());
            PixelInTile(m, i, c, r) <==> s.dstCol <= c < s.dstCol + s.copyWidth && s.dstRow <= r < s.dstRow + s.copyHeight
  {
    BlockInGrid(m, w);
    LiveRectExact(m, i, c, r);
  }

  /** Overwrite a run of `out` with a run of `tile`. */
  method CopySlice<T>(tile: seq<T>, out: array<T>, dstStart: u32, srcStart: u32, count: u32)
    requires dstStart + count <= out.Length && srcStart + count <= |tile|
    modifies out
    ensures CopiedRow(tile, old(out[..]), out[..], dstStart, srcStart, count)
  {
    forall k | 0 <= k < count {
      out[dstStart + k] := tile[srcStart + k];
    }
  }

  /** Bounds on one copied row of one of the two buffers: `rect` is the buffer's rectangle of the raster. */
  lemma RowRunBounds(rect: RasterPixelWindow, col: nat, row: nat, count: nat, limit: nat)
    requires rect.colOff <= col && count > 0 && col + count <= rect.colOff + rect.width
    requires rect.rowOff <= row < rect.rowOff + rect.height
    requires rect.height * rect.width <= limit
    ensures 0 <= (row - rect.rowOff) * rect.width
    ensures (row - rect.rowOff) * rect.width + (col - rect.colOff) + count <= rect.height * rect.width <= limit
  {
    RowMajorBound(row - rect.rowOff, col - rect.colOff + count - 1, rect.width, rect.height);
  }

  lemma LiveArea(m: CogMetadata, i: nat)
    requires HasTile(m, i)
    ensures LiveRect(m, i).height * LiveRect(m, i).width <= m.tileWidth * m.tileHeight
  {
    MulMono(LiveRect(m, i).height, m.tileHeight, LiveRect(m, i).width);
    MulMono(LiveRect(m, i).width, m.tileWidth, m.tileHeight);
  }

  /** The span, in terms of the tile's live rectangle. */
  lemma SpanOfLive(m: CogMetadata, w: RasterPixelWindow, i: nat)
    requires m.Tiled() && w.Within(m) && m.TilesAcross() > 0 && HasTile(m, i)
    requires i % m.TilesAcross() < U32_LIMIT && i / m.TilesAcross() < U32_LIMIT
    requires WindowBlock(m, w).Has(i / m.TilesAcross(), i % m.TilesAcross())
    ensures var s, live := TileCopySpan(m, w, i % m.TilesAcross(), i / m.TilesAcross()), LiveRect(m, i);
            && live.colOff == i % m.TilesAcross() * m.tileWidth && live.rowOff == i / m.TilesAcross() * m.tileHeight
            && s.srcWidth == live.width && s.srcHeight == live.height
            && live.colOff <= s.dstCol && s.dstCol + s.copyWidth <= live.colOff + live.width
            && live.rowOff <= s.dstRow && s.dstRow + s.copyHeight <= live.rowOff + live.height
  {
  }

  predicate SpanInside(span: CopySpan, rect: RasterPixelWindow) {
    && rect.colOff <= span.dstCol && span.dstCol + span.copyWidth <= rect.colOff + rect.width
    && rect.rowOff <= span.dstRow && span.dstRow + span.copyHeight <= rect.rowOff + rect.height
  }

  /** Copy row `row` of the overlap. Every intermediate index is a 32-bit value. */
  method CopyTileRow<T>(tile: seq<T>, out: array<T>, w: RasterPixelWindow, span: CopySpan, tileX: u32, tileY: u32, row: u32,
                        ghost live: RasterPixelWindow, ghost before: seq<T>)
    requires span.copyWidth > 0 && row < span.copyHeight && SpanInside(span, live) && SpanInside(span, w)
    requires live.colOff == tileX && live.rowOff == tileY && live.width == span.srcWidth
    requires |tile| == live.height * live.width <= MAX_DECODED_CHUNK_BYTES
    requires out.Length == w.height * w.width <= MAX_WINDOW_ALLOCATION_BYTES
    requires RowsCopied(tile, before, out[..], live, w, span, row)
    modifies out
    ensures RowsCopied(tile, before, out[..], live, w, span, row + 1)
  {
    RowRunBounds(live, span.dstCol, span.dstRow + row, span.copyWidth, MAX_DECODED_CHUNK_BYTES);
    RowRunBounds(w, span.dstCol, span.dstRow + row, span.copyWidth, MAX_WINDOW_ALLOCATION_BYTES);
    var srcRow: u32 := span.dstRow + row - tileY;
    var srcBase: u32 := srcRow * span.srcWidth;
    var srcStart: u32 := srcBase + (span.dstCol - tileX);
    var dstRow: u32 := span.dstRow + row - w.rowOff;
    var dstBase: u32 := dstRow * w.width;
    var dstStart: u32 := dstBase + (span.dstCol - w.colOff);
    ghost var previous := out[..];
    CopySlice(tile, out, dstStart, srcStart, span.copyWidth);
    CopiedRowStep(tile, before, previous, out[..], live, w, span, row, dstStart, srcStart);
  }

  /** Copy one tile's overlap with the window into the window buffer, in 32-bit index arithmetic. */
  method CopyTile<T>(tile: seq<T>, out: array<T>, m: CogMetadata, w: RasterPixelWindow, i: u32)
    requires m.Tiled() && w.Within(m) && m.TilesAcross() > 0 && HasTile(m, i)
    requires WindowBlock(m, w).Has(i / m.TilesAcross(), i % m.TilesAcross())
    requires |tile| == LiveRect(m, i).height * LiveRect(m, i).width
    requires m.tileWidth * m.tileHeight <= MAX_DECODED_CHUNK_BYTES
    requires out.Length == w.height * w.width <= MAX_WINDOW_ALLOCATION_BYTES
    modifies out
    ensures TileCopied(tile, old(out[..]), out[..], LiveRect(m, i), w)
  {
    var tileCol: u32 := i % m.TilesAcross();
    var tileRow: u32 := i / m.TilesAcross();
    ghost var live := LiveRect(m, i);
    ghost var before := out[..];
    var span := TileCopySpan(m, w, tileCol, tileRow);
    SpanOfLive(m, w, i);
    LiveArea(m, i);
    var tileX: u32, tileY: u32 := tileCol * m.tileWidth, tileRow * m.tileHeight;
    CopyNothing(tile, before, live, w, span);
    var row: u32 := 0;
    while row < span.copyHeight
      invariant 0 <= row <= span.copyHeight
      invariant RowsCopied(tile, before, out[..], live, w, span, row)
    {
      CopyTileRow(tile, out, w, span, tileX, tileY, row, live, before);
      row := row + 1;
    }
    SpanIsOverlap(tile, before, out[..], m, w, i);
  }

  /** What a tile copy does to the window buffer. */
  ghost predicate TileCopied<T>(tile: seq<T>, before: seq<T>, after: seq<T>, live: RasterPixelWindow, w: RasterPixelWindow) {
    && |before| == |after|
    && forall c: nat, r: nat :: w.Contains(c, r) ==> CellCopied(tile, before, after, live, w, c, r)
  }

  /** Window cell (c, r) holds the tile's sample if the tile's live rectangle has it, and is unchanged otherwise. */
  ghost predicate CellCopied<T>(tile: seq<T>, before: seq<T>, after: seq<T>, live: RasterPixelWindow,
                                w: RasterPixelWindow, c: nat, r: nat)
  {
    && |before| == |after|
    && 0 <= CellIndex(w, c, r) < |after|
    && (live.Contains(c, r) ==> 0 <= CellIndex(live, c, r) < |tile|)
    && after[CellIndex(w, c, r)] == if live.Contains(c, r) then tile[CellIndex(live, c, r)] else before[CellIndex(w, c, r)]
  }

  ghost predicate InRows(span: CopySpan, rows: nat, c: nat, r: nat) {
    span.dstCol <= c < span.dstCol + span.copyWidth && span.dstRow <= r < span.dstRow + rows
  }

  /** The first `rows` rows of the span have been copied, and nothing else. */
  ghost predicate RowsCopied<T>(tile: seq<T>, before: seq<T>, after: seq<T>, live: RasterPixelWindow,
                                w: RasterPixelWindow, span: CopySpan, rows: nat)
  {
    && |before| == |after|
    && forall c: nat, r: nat :: w.Contains(c, r) ==> RowCellCopied(tile, before, after, live, w, span, rows, c, r)
  }

  ghost predicate RowCellCopied<T>(tile: seq<T>, before: seq<T>, after: seq<T>, live: RasterPixelWindow,
                                   w: RasterPixelWindow, span: CopySpan, rows: nat, c: nat, r: nat)
  {
    && 0 <= CellIndex(w, c, r) < |before| == |after|
    && (InRows(span, rows, c, r) ==> 0 <= CellIndex(live, c, r) < |tile|)
    && after[CellIndex(w, c, r)] == if InRows(span, rows, c, r) then tile[CellIndex(live, c, r)] else before[CellIndex(w, c, r)]
  }

  lemma CopyNothing<T>(tile: seq<T>, before: seq<T>, live: RasterPixelWindow, w: RasterPixelWindow, span: CopySpan)
    requires |before| == w.height * w.width
    ensures RowsCopied(tile, before, before, live, w, span, 0)
  {
    forall c: nat, r: nat | w.Contains(c, r)
      ensures RowCellCopied(tile, before, before, live, w, span, 0, c, r)
    {
      CellIndexBound(w, c, r);
    }
  }

  /** Copying every row of the span copies exactly the overlap of the window and the live rectangle. */
  lemma SpanIsOverlap<T>(tile: seq<T>, before: seq<T>, after: seq<T>, m: CogMetadata, w: RasterPixelWindow, i: nat)
    requires m.Tiled() && w.Within(m) && m.TilesAcross() > 0 && HasTile(m, i)
    requires i % m.TilesAcross() < U32_LIMIT && i / m.TilesAcross() < U32_LIMIT
    requires WindowBlock(m, w).Has(i / m.TilesAcross(), i % m.TilesAcross())
    requires var span := TileCopySpan(m, w, i % m.TilesAcross(), i / m.TilesAcross());
             RowsCopied(tile, before, after, LiveRect(m, i), w, span, span.copyHeight)
    ensures TileCopied(tile, before, after, LiveRect(m, i), w)
  {
    var span := TileCopySpan(m, w, i % m.TilesAcross(), i / m.TilesAcross());
    forall c: nat, r: nat | w.Contains(c, r)
      ensures CellCopied(tile, before, after, LiveRect(m, i), w, c, r)
    {
      SpanExact(m, w, i, c, r);
      LiveRectExact(m, i, c, r);
      assert RowCellCopied(tile, before, after, LiveRect(m, i), w, span, span.copyHeight, c, r);
    }
  }

  ghost predicate CopiedRow<T>(tile: seq<T>, before: seq<T>, after: seq<T>, dstStart: nat, srcStart: nat, count: nat) {
    && |after| == |before| && dstStart + count <= |after| && srcStart + count <= |tile|
    && forall k :: 0 <= k < |after| ==>
                     after[k] == if dstStart <= k < dstStart + count then tile[srcStart + (k - dstStart)] else before[k]
  }

  lemma CopiedRowStep<T>(tile: seq<T>, before: seq<T>, previous: seq<T>, after: seq<T>, live: RasterPixelWindow,
                         w: RasterPixelWindow, span: CopySpan, row: nat, dstStart: nat, srcStart: nat)
    requires RowsCopied(tile, before, previous, live, w, span, row)
    requires CopiedRow(tile, previous, after, dstStart, srcStart, span.copyWidth)
    requires w.colOff <= span.dstCol && span.dstCol + span.copyWidth <= w.colOff + w.width
    requires w.rowOff <= span.dstRow && live.rowOff <= span.dstRow && live.colOff <= span.dstCol
    requires dstStart == CellIndex(w, span.dstCol, span.dstRow + row)
    requires srcStart == CellIndex(live, span.dstCol, span.dstRow + row)
    ensures RowsCopied(tile, before, after, live, w, span, row + 1)
  {
    forall c: nat, r: nat | w.Contains(c, r)
      ensures RowCellCopied(tile, before, after, live, w, span, row + 1, c, r)
    {
      assert RowCellCopied(tile, before, previous, live, w, span, row, c, r);
      var k := CellIndex(w, c, r);
      if dstStart <= k < dstStart + span.copyWidth {
        var x := k - dstStart;
        RowMajorInjective(r - w.rowOff, c - w.colOff, span.dstRow + row - w.rowOff, span.dstCol - w.colOff + x, w.width);
      }
    }
  }

  /** Every window cell whose tile has been copied holds the raster's sample. */
  ghost predicate Stitched<T>(out: seq<T>, values: seq<T>, m: CogMetadata, w: RasterPixelWindow, done: seq<u32>)
    requires m.Tiled()
  {
    forall c: nat, r: nat :: w.Contains(c, r) && TileOf(m, c, r) in done ==> HoldsCell(out, values, m, w, c, r)
  }

  /** Copying the raster's own live tile extends the stitched part by that tile. */
  lemma StitchStep<T>(tile: seq<T>, before: seq<T>, after: seq<T>, values: seq<T>, m: CogMetadata,
                      w: RasterPixelWindow, done: seq<u32>, i: u32)
    requires m.Tiled() && w.Within(m) && IsRaster(values, m) && HasTile(m, i)
    requires Stitched(before, values, m, w, done)
    requires tile == Crop(values, m, LiveRect(m, i))
    requires TileCopied(tile, before, after, LiveRect(m, i), w)
    ensures Stitched(after, values, m, w, done + [i])
  {
    forall c: nat, r: nat | w.Contains(c, r) && TileOf(m, c, r) in done + [i]
      ensures HoldsCell(after, values, m, w, c, r)
    {
      assert CellCopied(tile, before, after, LiveRect(m, i), w, c, r);
      TileOfExact(m, c, r, i);
      LiveRectExact(m, i, c, r);
      if LiveRect(m, i).Contains(c, r) {
        CropCell(values, m, LiveRect(m, i), c, r);
      } else {
        assert HoldsCell(before, values, m, w, c, r);
      }
    }
  }

  /** Once every planned tile is copied, nothing of the fill value is left: the buffer is the crop. */
  lemma StitchComplete<T>(out: seq<T>, values: seq<T>, m: CogMetadata, w: RasterPixelWindow, plan: seq<u32>)
    requires m.Tiled() && w.Within(m) && IsRaster(values, m) && |out| == w.height * w.width
    requires plan == WindowBlock(m, w).Indices()
    requires Stitched(out, values, m, w, plan)
    ensures out == Crop(values, m, w)
  {
    forall c: nat, r: nat | w.Contains(c, r)
      ensures HoldsCell(out, values, m, w, c, r)
    {
      var k := EachCellOnce(m, w, c, r);
      assert plan[k] in plan;
    }
    CropUnique(out, values, m, w);
  }

  // ---- Any tiles are the tiles of some raster ----------------------------------------------

  /** Every planned tile has a buffer of its live rectangle's size. */
  ghost predicate TileShaped<T>(tiles: seq<seq<T>>, m: CogMetadata, plan: seq<u32>) {
    && |tiles| == |plan|
    && forall k :: 0 <= k < |plan| ==> HasTile(m, plan[k]) && |tiles[k]| == LiveRect(m, plan[k]).height * LiveRect(m, plan[k]).width
  }

  lemma PixelLive(m: CogMetadata, i: nat, c: nat, r: nat)
    requires m.Tiled() && c < m.width && r < m.height && HasTile(m, i) && i == TileOf(m, c, r)
    ensures LiveRect(m, i).Contains(c, r)
  {
    hide LiveRect, TileOf, PixelInTile;
    TileOfExact(m, c, r, i);
    LiveRectExact(m, i, c, r);
  }

  /** The sample a tile has for a pixel of its live rectangle. */
  function TileSample<T>(tile: seq<T>, m: CogMetadata, i: nat, c: nat, r: nat): T
    requires HasTile(m, i) && LiveRect(m, i).Contains(c, r) && |tile| == LiveRect(m, i).height * LiveRect(m, i).width
  {
    CellIndexBound(LiveRect(m, i), c, r);
    tile[CellIndex(LiveRect(m, i), c, r)]
  }

  /** The sample the tiles have for a pixel, if its tile is planned. */
  ghost function PixelSample<T>(tiles: seq<seq<T>>, m: CogMetadata, plan: seq<u32>, fill: T, c: nat, r: nat): T
    requires m.Tiled() && c < m.width && r < m.height && TileShaped(tiles, m, plan)
  {
    if k: nat :| k < |plan| && plan[k] == TileOf(m, c, r) then
      PixelLive(m, plan[k], c, r);
      TileSample(tiles[k], m, plan[k], c, r)
    else fill
  }

  lemma PixelSampleOf<T>(tiles: seq<seq<T>>, m: CogMetadata, plan: seq<u32>, fill: T, k: nat, c: nat, r: nat)
    requires m.Tiled() && TileShaped(tiles, m, plan) && StrictlyIncreasing(plan) && k < |plan|
    requires c < m.width && r < m.height && LiveRect(m, plan[k]).Contains(c, r)
    ensures PixelSample(tiles, m, plan, fill, c, r) == TileSample(tiles[k], m, plan[k], c, r)
  {
    hide LiveRect, TileOf, PixelInTile, TileSample;
    LiveRectExact(m, plan[k], c, r);
    TileOfExact(m, c, r, plan[k]);
    assert plan[k] == TileOf(m, c, r);
  }

  /** The raster whose planned tiles are the given ones. */
  ghost function RasterFrom<T>(tiles: seq<seq<T>>, m: CogMetadata, plan: seq<u32>, fill: T): (values: seq<T>)
    requires m.Tiled() && TileShaped(tiles, m, plan)
    ensures IsRaster(values, m)
  {
    seq(m.width * m.height, i requires 0 <= i < m.width * m.height => SampleNumber(tiles, m, plan, fill, i))
  }

  ghost function SampleNumber<T>(tiles: seq<seq<T>>, m: CogMetadata, plan: seq<u32>, fill: T, i: nat): T
    requires m.Tiled() && TileShaped(tiles, m, plan) && i < m.width * m.height
  {
    WidthPositive(m, i);
    RowMajorSplit(i, m.width, m.height);
    PixelSample(tiles, m, plan, fill, i % m.width, i / m.width)
  }

  lemma WidthPositive(m: CogMetadata, i: nat)
    requires i < m.width * m.height
    ensures m.width > 0 && i < m.height * m.width
  {
  }

  lemma SampleNumberOf<T>(tiles: seq<seq<T>>, m: CogMetadata, plan: seq<u32>, fill: T, c: nat, r: nat)
    requires m.Tiled() && TileShaped(tiles, m, plan) && c < m.width && r < m.height
    ensures RowMajor(r, m.width, c) < m.width * m.height
    ensures SampleNumber(tiles, m, plan, fill, RowMajor(r, m.width, c)) == PixelSample(tiles, m, plan, fill, c, r)
  {
    hide PixelSample, TileShaped;
    RowMajorBound(r, c, m.width, m.height);
    DivModOf(r, m.width, c);
  }

  /** Any buffers of the right sizes are the planned tiles of a raster. */
  lemma TilesOfRaster<T>(tiles: seq<seq<T>>, m: CogMetadata, plan: seq<u32>, fill: T, k: nat)
    requires m.Tiled() && TileShaped(tiles, m, plan) && StrictlyIncreasing(plan) && k < |plan|
    ensures Crop(RasterFrom(tiles, m, plan, fill), m, LiveRect(m, plan[k])) == tiles[k]
  {
    hide LiveRect, Crop, SampleNumber, PixelSample;
    var values, live := RasterFrom(tiles, m, plan, fill), LiveRect(m, plan[k]);
    forall c: nat, r: nat | live.Contains(c, r)
      ensures HoldsCell(tiles[k], values, m, live, c, r)
    {
      CellIndexBound(live, c, r);
      InsideRaster(m, live, c, r);
      SampleNumberOf(tiles, m, plan, fill, c, r);
      PixelSampleOf(tiles, m, plan, fill, k, c, r);
    }
    CropUnique(tiles[k], values, m, live);
  }

  lemma InsideRaster(m: CogMetadata, w: RasterPixelWindow, c: nat, r: nat)
    requires w.Within(m) && w.Contains(c, r)
    ensures c < m.width && r < m.height
  {
  }
}
