/** A tile writer for the reader to be measured against: TIFF 6.0 section 15 tiles under the supported predictors. */
module CogWriter {
  import opened Arith
  import opened Bytes
  import opened CogDecode
  import opened CogModel
  import opened CogPredictor
  import opened CogStitch

  /** A row padded to the tile width. */
  function Padded<T>(row: seq<T>, width: nat, fill: T): (padded: seq<T>)
    requires |row| <= width
    ensures |padded| == width && row <= padded
  {
    row + seq(width - |row|, _ => fill)
  }

  lemma EncodedByteLength(predictor: nat, samples: seq<byte>)
    ensures |EncodeByteRow(predictor, samples)| == |samples|
  {
  }

  /** Row `y` of tile `i`: the live samples, padded and encoded; rows below the raster are zero. */
  function EncodeRow(m: CogMetadata, raster: Raster, live: RasterPixelWindow, y: nat): (row: seq<byte>)
    requires RasterOf(m, raster) && live.Within(m) && LiveTile(m, live) && y < m.tileHeight
    ensures |row| == m.tileWidth * SampleWidth(m.sampleType)
  {
    if y >= live.height then seq(m.tileWidth * SampleWidth(m.sampleType), _ => 0)
    else
      match raster
      case ByteRaster(v) =>
        var padded := Padded(CropRow(v, m, live, y), m.tileWidth, 0);
        EncodedByteLength(m.predictor, padded);
        EncodeByteRow(m.predictor, padded)
      case FloatRaster(v) => EncodeFloatRow(m.predictor, Padded(CropRow(v, m, live, y), m.tileWidth, 0))
      case IntRaster(v) => EncodeIntRow(m.predictor, Padded(CropRow(v, m, live, y), m.tileWidth, 0))
  }

  function EncodeRows(m: CogMetadata, raster: Raster, i: nat): (rows: seq<seq<byte>>)
    requires HasTile(m, i) && RasterOf(m, raster)
    ensures |rows| == m.tileHeight && AllLen(rows, m.tileWidth * SampleWidth(m.sampleType))
  {
    seq(m.tileHeight, y requires 0 <= y < m.tileHeight => EncodeRow(m, raster, LiveRect(m, i), y))
  }

  /** The inflated bytes of tile `i`. */
  function EncodeTile(m: CogMetadata, raster: Raster, i: nat): seq<byte>
    requires HasTile(m, i) && RasterOf(m, raster)
  {
    Flatten(EncodeRows(m, raster, i))
  }

  lemma RowStored(m: CogMetadata, raster: Raster, live: RasterPixelWindow, d: seq<byte>, y: nat)
    requires RasterOf(m, raster) && live.Within(m) && LiveTile(m, live) && |d| == TileBytes(m) && y < live.height
    requires TileRow(m, d, y) == EncodeRow(m, raster, live, y)
    ensures StoresRow(m, raster, live, d, y)
  {
    hide TileRow, EncodeByteRow, EncodeFloatRow, EncodeIntRow;
    match raster {
      case ByteRaster(v) =>
        assert StoresByteRow(m, TileRow(m, d, y), CropRow(v, m, live, y), Padded(CropRow(v, m, live, y), m.tileWidth, 0));
      case FloatRaster(v) =>
        assert StoresFloatRow(m, TileRow(m, d, y), CropRow(v, m, live, y), Padded(CropRow(v, m, live, y), m.tileWidth, 0));
      case IntRaster(v) =>
        assert StoresIntRow(m, TileRow(m, d, y), CropRow(v, m, live, y), Padded(CropRow(v, m, live, y), m.tileWidth, 0));
    }
  }

  lemma TileLength(m: CogMetadata, raster: Raster, i: nat)
    requires HasTile(m, i) && RasterOf(m, raster)
    ensures |EncodeTile(m, raster, i)| == TileBytes(m)
  {
    hide EncodeRow, RasterOf, EncodeRows;
    FlattenLength(EncodeRows(m, raster, i), m.tileWidth * SampleWidth(m.sampleType));
  }

  lemma RowOfTile(m: CogMetadata, raster: Raster, i: nat, y: nat)
    requires HasTile(m, i) && RasterOf(m, raster) && y < m.tileHeight && |EncodeTile(m, raster, i)| == TileBytes(m)
    ensures TileRow(m, EncodeTile(m, raster, i), y) == EncodeRow(m, raster, LiveRect(m, i), y)
  {
    hide EncodeRow, RasterOf, Flatten, LiveRect;
    var width := m.tileWidth * SampleWidth(m.sampleType);
    var d := EncodeTile(m, raster, i);
    RowSlice(EncodeRows(m, raster, i), width, y);
    assert d[y * width..][..width] == d[y * width..y * width + width];
  }

  /** Every tile of every raster can be stored, under every predictor, edge tiles included. */
  lemma TileStored(m: CogMetadata, raster: Raster, i: nat)
    requires HasTile(m, i) && RasterOf(m, raster)
    ensures StoresTile(m, raster, i, EncodeTile(m, raster, i))
  {
    hide EncodeRow, RasterOf, StoresRow, TileRow, EncodeTile, LiveRect, TileBytes, HasTile;
    var live, d := LiveRect(m, i), EncodeTile(m, raster, i);
    TileLength(m, raster, i);
    forall y: nat | y < live.height
      ensures StoresRow(m, raster, live, d, y)
    {
      RowOfTile(m, raster, i, y);
      RowStored(m, raster, live, d, y);
    }
  }

  /** Decoding an encoded tile gives the raster's samples under the tile's live rectangle. */
  lemma TileRoundTrip(env: Platform, m: CogMetadata, raster: Raster, i: nat)
    requires HasTile(m, i) && RasterOf(m, raster)
    ensures |EncodeTile(m, raster, i)| == TileBytes(m)
    ensures LiveSamples(env, m, i, EncodeTile(m, raster, i)) == WindowOf(env, m, raster, LiveRect(m, i))
  {
    hide EncodeTile, LiveSamples, WindowOf, StoresRow;
    TileStored(m, raster, i);
    StoredTileDecodes(env, m, raster, i, EncodeTile(m, raster, i));
  }
}
