/** The entities of the remote COG reader: metadata, windows, plans, errors and ceilings. */
module CogModel {
  import opened Arith
  import opened Bytes
  import opened Results

  const MAX_REMOTE_IFD_ENTRIES: nat := 4_096
  const MAX_REMOTE_IFD_ENTRY_BYTES: nat := 65_536
  const MAX_REMOTE_METADATA_VALUE_BYTES: nat := 65_536
  const MAX_REMOTE_ASCII_BYTES: nat := 256
  const MAX_PLANNED_TILE_COUNT: nat := 65_536
  const MAX_COMPRESSED_CHUNK_BYTES: nat := 16_777_216
  const MAX_COVERED_CHUNK_BYTES: nat := 1_073_741_824
  const MAX_DECODED_CHUNK_BYTES: nat := 8_388_608
  const MAX_WINDOW_ALLOCATION_BYTES: nat := 1_073_741_824

  datatype RasterKind = FlowDir | FlowAcc

  datatype SampleType = U8 | I8 | F32 | I32

  /** Where a tile-index field keeps its values: in the IFD entry itself, or at an offset. */
  datatype IndexStorage = InlineScalar(value: u64) | OutOfLine(base: u64)

  datatype IndexDescriptor = IndexDescriptor(
    fieldType: u16, elementWidth: nat, count: u64, storage: IndexStorage)

  datatype CogMetadata = CogMetadata(
    width: u32, height: u32, tileWidth: u32, tileHeight: u32,
    originX: real, originY: real, pixelWidth: real, pixelHeight: real,
    nodata: string, sampleType: SampleType, compression: u16, predictor: u16,
    tileOffsets: IndexDescriptor, tileByteCounts: IndexDescriptor)
  {
    predicate Tiled() {
      tileWidth > 0 && tileHeight > 0
    }

    function TilesAcross(): (n: nat)
      requires Tiled()
    {
      DivCeil(width, tileWidth)
    }

    function TilesDown(): (n: nat)
      requires Tiled()
    {
      DivCeil(height, tileHeight)
    }
  }

  /** A half-open pixel window. */
  datatype RasterPixelWindow = RasterPixelWindow(colOff: u32, rowOff: u32, width: u32, height: u32)
  {
    predicate Contains(col: int, row: int) {
      colOff <= col < colOff + width && rowOff <= row < rowOff + height
    }

    /** Non-empty and inside a raster of the given size. */
    predicate Within(m: CogMetadata) {
      width > 0 && height > 0 && colOff + width <= m.width && rowOff + height <= m.height
    }
  }

  datatype Bbox = Bbox(minX: real, minY: real, maxX: real, maxY: real)
  {
    predicate Ordered() {
      minX <= maxX && minY <= maxY
    }
  }

  /** A half-open byte range of the remote object. */
  datatype ByteRange = ByteRange(start: nat, end: nat)
  {
    function Length(): int {
      end - start
    }

    predicate Inside(size: nat) {
      start <= end <= size
    }
  }

  /** The reasons the reader reports; free text in the source, one constructor each here. */
  datatype CogError =
    | NotNorthUp | NoIntersection
    | WindowColumnOverflow | WindowRowOverflow | TooManyTiles(count: nat) | TileIndexOverflow
    | RangeOverflow | OutsideObject(range: ByteRange)
    | BadHeader | BadIfd | MissingTag(tag: nat) | BadTag(tag: nat) | TooLong(tag: nat) | UnsupportedLayout
    | StoreFailure | BadResponse(what: nat)
    | IndexEntryOutOfRange | IndexNotScalar | CompressedTotalOverflow
    | ChunkRangeInvalid | ChunkTooLarge | CoveredTooLarge | DecodedTooLarge
    | InflateFailed | DecodedLength | UnsupportedPredictor | BadNodata
    | WindowTooLarge | TileTypeMismatch

  function DivCeil(a: nat, b: nat): nat
    requires b > 0
  {
    (a + b - 1) / b
  }

  /** `DivCeil(a, b)` counts the size-`b` blocks a length-`a` line touches. */
  lemma DivCeilCovers(a: nat, b: nat, x: nat)
    requires b > 0
    ensures x < a ==> x / b < DivCeil(a, b)
    ensures x < DivCeil(a, b) ==> x * b < a
    ensures DivCeil(a, b) * b < a + b
  {
    var n := DivCeil(a, b);
    DivUnique(a + b - 1, b, n);
    if x < a {
      DivMono(x, a - 1, b);
      DivModOf(1, b, 0);
      assert (a - 1 + b) / b == (a - 1) / b + 1 by {
        DivUnique(a - 1, b, (a - 1) / b);
        DivUnique(a - 1 + b, b, (a - 1) / b + 1);
        assert ((a - 1) / b + 1) * b == (a - 1) / b * b + b;
      }
    }
    if x < n {
      MulMono(x + 1, n, b);
      assert (x + 1) * b == x * b + b;
    }
  }

  /** First position of block `q` of a line. */
  function BlockStart(total: nat, d: nat, q: nat): (x: nat)
    requires d > 0 && q < DivCeil(total, d)
    ensures x == q * d < total
  {
    DivCeilCovers(total, d, q);
    q * d
  }
}
