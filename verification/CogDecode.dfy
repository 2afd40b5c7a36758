/** Decoding one compressed tile to its live samples, and a window from its tiles. */
module CogDecode {
  import opened Arith
  import opened Bytes
  import opened Results
  import opened CogModel
  import opened CogWindow
  import opened CogStitch
  import opened CogPredictor

  /** Foreign calls: DEFLATE with a read limit, text parsing, and the i32-to-f32 conversion. */
  datatype Platform = Platform(
    inflate: (seq<byte>, nat) -> Option<seq<byte>>,
    parseByte: string -> Option<byte>,
    parseSignedByte: string -> Option<byte>,
    parseI32: string -> Option<i32>,
    parseF32: string -> Option<u32>,
    floatOfI32: i32 -> u32,
    nan: u32)

  /** Decoded samples; a 32-bit float is its bit pattern. */
  datatype SampleBuffer = ByteBuffer(bytes: seq<byte>) | FloatBuffer(bits: seq<u32>)

  /** A whole raster before tiling, in its stored sample type. */
  datatype Raster = ByteRaster(bytes: seq<byte>) | FloatRaster(bits: seq<u32>) | IntRaster(ints: seq<i32>)

  function SampleWidth(t: SampleType): nat {
    if t.U8? || t.I8? then 1 else 4
  }

  predicate Supported(t: SampleType, predictor: nat) {
    predictor == 1 || (predictor == 2 && !t.F32?) || (predictor == 3 && t.F32?)
  }

  // ---- Rows: how a writer encodes them, and what the reader makes of them ------

  function EncodeByteRow(predictor: nat, samples: seq<byte>): seq<byte> {
    if predictor == 2 then EncodeBytes(samples) else samples
  }

  function EncodeFloatRow(predictor: nat, samples: seq<u32>): (row: seq<byte>)
    ensures |row| == 4 * |samples|
  {
    if predictor == 3 then EncodeFloats(samples) else WordBytes(samples)
  }

  function EncodeIntRow(predictor: nat, samples: seq<i32>): (row: seq<byte>)
    ensures |row| == 4 * |samples|
  {
    WordBytes(Unsigned(if predictor == 2 then EncodeI32(samples) else samples))
  }

  function ByteRow(predictor: nat, row: seq<byte>): (r: seq<byte>)
    ensures |r| == |row|
  {
    if predictor == 2 then UndoBytes(row) else row
  }

  function FloatRow(predictor: nat, row: seq<byte>): (r: seq<u32>)
    requires |row| % 4 == 0
    ensures |r| == |row| / 4
  {
    RowFloats(predictor, if predictor == 3 then UndoBytes(row) else row)
  }

  /** Float samples of a row whose byte differences are undone. */
  function RowFloats(predictor: nat, row: seq<byte>): (r: seq<u32>)
    requires |row| % 4 == 0
    ensures |r| == |row| / 4
  {
    if predictor == 3 then PlaneWords(row, |row| / 4) else Words(row)
  }

  function IntRow(predictor: nat, row: seq<byte>): (r: seq<i32>)
    requires |row| % 4 == 0
    ensures |r| == |row| / 4
  {
    Signed(Words(if predictor == 2 then UndoWordRow(row) else row))
  }

  /** Reading a row back inverts writing it, for every predictor and every padded width. */
  lemma ByteRowRoundTrip(predictor: nat, samples: seq<byte>)
    ensures ByteRow(predictor, EncodeByteRow(predictor, samples)) == samples
  {
    UndoEncodeBytes(samples);
  }

  lemma FloatRowRoundTrip(predictor: nat, samples: seq<u32>)
    ensures FloatRow(predictor, EncodeFloatRow(predictor, samples)) == samples
  {
    FloatPredictorRoundTrip(samples);
    WordsRoundTrip(samples);
  }

  lemma IntRowRoundTrip(predictor: nat, samples: seq<i32>)
    ensures IntRow(predictor, EncodeIntRow(predictor, samples)) == samples
  {
    IntegerPredictorRoundTrip(samples);
    SignedWords(samples);
  }

  // ---- One tile ------------------------------------------------------------------

  /** Replace the declared nodata by NaN and convert the rest to floats. */
  function NormalizeI32(env: Platform, values: seq<i32>, nodata: Option<i32>): (r: seq<u32>)
    ensures |r| == |values|
  {
    seq(|values|, i requires 0 <= i < |values| => NormalI32(env, values[i], nodata))
  }

  function NormalI32(env: Platform, value: i32, nodata: Option<i32>): u32 {
    if nodata == Some(value) then env.nan else env.floatOfI32(value)
  }

  function TileBytes(m: CogMetadata): nat {
    m.tileHeight * (m.tileWidth * SampleWidth(m.sampleType))
  }

  /** Row `y` of a tile's inflated bytes. */
  function TileRow(m: CogMetadata, d: seq<byte>, y: nat): (r: seq<byte>)
    requires |d| == TileBytes(m) && y < m.tileHeight
    ensures |r| == m.tileWidth * SampleWidth(m.sampleType)
  {
    RowFits(m.tileWidth * SampleWidth(m.sampleType), m.tileHeight, y);
    Row(d, m.tileWidth * SampleWidth(m.sampleType), y)
  }

  predicate LiveTile(m: CogMetadata, live: RasterPixelWindow) {
    live.width <= m.tileWidth && live.height <= m.tileHeight
  }

  function LiveByteRows(m: CogMetadata, live: RasterPixelWindow, d: seq<byte>, rows: nat): (s: seq<seq<byte>>)
    requires |d| == TileBytes(m) && SampleWidth(m.sampleType) == 1 && LiveTile(m, live) && rows <= live.height
    ensures |s| == rows && AllLen(s, live.width)
  {
    seq(rows, y requires 0 <= y < rows => ByteRow(m.predictor, TileRow(m, d, y))[..live.width])
  }

  function LiveFloatRows(m: CogMetadata, live: RasterPixelWindow, d: seq<byte>, rows: nat): (s: seq<seq<u32>>)
    requires |d| == TileBytes(m) && SampleWidth(m.sampleType) == 4 && LiveTile(m, live) && rows <= live.height
    ensures |s| == rows && AllLen(s, live.width)
  {
    seq(rows, y requires 0 <= y < rows => FloatRow(m.predictor, TileRow(m, d, y))[..live.width])
  }

  function LiveIntRows(m: CogMetadata, live: RasterPixelWindow, d: seq<byte>, rows: nat): (s: seq<seq<i32>>)
    requires |d| == TileBytes(m) && SampleWidth(m.sampleType) == 4 && LiveTile(m, live) && rows <= live.height
    ensures |s| == rows && AllLen(s, live.width)
  {
    seq(rows, y requires 0 <= y < rows => IntRow(m.predictor, TileRow(m, d, y))[..live.width])
  }

  /** The live samples of a tile, from its inflated bytes. */
  function LiveSamples(env: Platform, m: CogMetadata, i: nat, d: seq<byte>): SampleBuffer
    requires HasTile(m, i) && |d| == TileBytes(m)
  {
    var live := LiveRect(m, i);
    match m.sampleType
    case U8 => ByteBuffer(Flatten(LiveByteRows(m, live, d, live.height)))
    case I8 => ByteBuffer(Flatten(LiveByteRows(m, live, d, live.height)))
    case F32 => FloatBuffer(Flatten(LiveFloatRows(m, live, d, live.height)))
    case I32 => FloatBuffer(NormalizeI32(env, Flatten(LiveIntRows(m, live, d, live.height)), env.parseI32(m.nodata)))
  }

  /** What decoding a compressed chunk yields. */
  function DecodedChunk(env: Platform, compressed: seq<byte>, m: CogMetadata, i: nat): Result<SampleBuffer, CogError>
    requires HasTile(m, i)
  {
    if TileBytes(m) > MAX_DECODED_CHUNK_BYTES then Err(DecodedTooLarge)
    else match env.inflate(compressed, TileBytes(m) + 1)
      case None => Err(InflateFailed)
      case Some(d) =>
        if |d| != TileBytes(m) then Err(DecodedLength)
        else if !Supported(m.sampleType, m.predictor) then Err(UnsupportedPredictor)
        else Ok(LiveSamples(env, m, i, d))
  }

  /** A chunk decodes exactly when its tile is at most 8 MiB, the predictor suits its samples, and inflating it, with one
      byte to spare, gives exactly the tile's bytes. */
  lemma DecodedExact(env: Platform, compressed: seq<byte>, m: CogMetadata, i: nat)
    requires HasTile(m, i)
    ensures DecodedChunk(env, compressed, m, i).Ok? <==>
            var size := m.tileHeight * (m.tileWidth * (if m.sampleType.U8? || m.sampleType.I8? then 1 else 4));
            && size <= 8_388_608
            && (m.predictor == 1 || m.predictor == if m.sampleType.F32? then 3 else 2)
            && env.inflate(compressed, size + 1).Some? && |env.inflate(compressed, size + 1).value| == size
  {
    hide LiveSamples;
  }

  /** A window's buffer is at most 1 GiB. */
  lemma AllocationExact(m: CogMetadata, w: RasterPixelWindow)
    ensures AllocationFits(w, SampleWidth(m.sampleType)) <==>
            w.height * w.width * (if m.sampleType.U8? || m.sampleType.I8? then 1 else 4) <= 1_073_741_824
  {
  }

  /** Undo the declared predictor over the whole padded tile, in place. */
  method UndoPredictor(buf: array<byte>, m: CogMetadata)
    requires buf.Length == TileBytes(m) && Supported(m.sampleType, m.predictor)
    modifies buf
    ensures |buf[..]| == TileBytes(m)
    ensures forall y: nat :: y < m.tileHeight ==>
              TileRow(m, buf[..], y) == UndoneRow(m, TileRow(m, old(buf[..]), y))
  {
    if m.predictor == 2 && m.sampleType.I32? {
      UndoI32Rows(buf, m.tileWidth * 4, m.tileHeight);
    } else if m.predictor != 1 {
      UndoByteRows(buf, m.tileWidth * SampleWidth(m.sampleType), m.tileHeight);
    }
  }

  /** A tile row after the predictor is undone, still as bytes. */
  function UndoneRow(m: CogMetadata, row: seq<byte>): (r: seq<byte>)
  {
    if m.predictor == 1 then row
    else if m.sampleType.I32? then UndoWordRow(row)
    else UndoBytes(row)
  }

  /** Inflate a chunk, undo its predictor in place, and keep the live part of each row. */
  method DecodeOwnedChunk(env: Platform, compressed: seq<byte>, m: CogMetadata, i: nat)
    returns (r: Result<SampleBuffer, CogError>)
    requires HasTile(m, i)
    ensures r == DecodedChunk(env, compressed, m, i)
  {
    var expected := TileBytes(m);
    if expected > MAX_DECODED_CHUNK_BYTES {
      return Err(DecodedTooLarge);
    }
    var inflated := env.inflate(compressed, expected + 1);
    if inflated.None? {
      return Err(InflateFailed);
    }
    var d := inflated.value;
    if |d| != expected {
      return Err(DecodedLength);
    }
    if !Supported(m.sampleType, m.predictor) {
      return Err(UnsupportedPredictor);
    }
    var buf := new byte[|d|](k requires 0 <= k < |d| => d[k]);
    assert buf[..] == d;
    UndoPredictor(buf, m);
    var live := LiveRect(m, i);
    match m.sampleType {
      case U8 => var clipped := ClipBytes(buf[..], m, live, d); return Ok(ByteBuffer(clipped));
      case I8 => var clipped := ClipBytes(buf[..], m, live, d); return Ok(ByteBuffer(clipped));
      case F32 => var clipped := ClipFloats(buf[..], m, live, d); return Ok(FloatBuffer(clipped));
      case I32 =>
        var values := ClipInts(buf[..], m, live, d);
        return Ok(FloatBuffer(NormalizeI32(env, values, env.parseI32(m.nodata))));
    }
  }

  ghost predicate Undone(m: CogMetadata, before: seq<byte>, after: seq<byte>) {
    && |before| == |after| == TileBytes(m)
    && forall y: nat :: y < m.tileHeight ==> TileRow(m, after, y) == UndoneRow(m, TileRow(m, before, y))
  }

  method ClipBytes(buf: seq<byte>, m: CogMetadata, live: RasterPixelWindow, ghost d: seq<byte>) returns (clipped: seq<byte>)
    requires Undone(m, d, buf) && SampleWidth(m.sampleType) == 1 && LiveTile(m, live) && Supported(m.sampleType, m.predictor)
    ensures clipped == Flatten(LiveByteRows(m, live, d, live.height))
  {
    clipped := [];
    var y := 0;
    while y < live.height
      invariant 0 <= y <= live.height
      invariant clipped == Flatten(LiveByteRows(m, live, d, y))
    {
      assert LiveByteRows(m, live, d, y + 1)[..y] == LiveByteRows(m, live, d, y);
      clipped := clipped + TileRow(m, buf, y)[..live.width];
      y := y + 1;
    }
  }

  method ClipFloats(buf: seq<byte>, m: CogMetadata, live: RasterPixelWindow, ghost d: seq<byte>) returns (clipped: seq<u32>)
    requires Undone(m, d, buf) && m.sampleType.F32? && LiveTile(m, live) && Supported(m.sampleType, m.predictor)
    ensures clipped == Flatten(LiveFloatRows(m, live, d, live.height))
  {
    clipped := [];
    var y := 0;
    while y < live.height
      invariant 0 <= y <= live.height
      invariant clipped == Flatten(LiveFloatRows(m, live, d, y))
    {
      assert LiveFloatRows(m, live, d, y + 1)[..y] == LiveFloatRows(m, live, d, y);
      var part := TakeFloats(m.predictor, TileRow(m, buf, y), live.width);
      clipped := clipped + part;
      y := y + 1;
    }
  }

  method TakeFloats(predictor: nat, row: seq<byte>, count: nat) returns (part: seq<u32>)
    requires |row| % 4 == 0 && count <= |row| / 4
    ensures part == RowFloats(predictor, row)[..count]
  {
    hide PlaneWord, LeValue, Pow256;
    part := [];
    var column := 0;
    while column < count
      invariant 0 <= column <= count
      invariant part == RowFloats(predictor, row)[..column]
    {
      if predictor == 3 {
        part := part + [PlaneWord(row, |row| / 4, column)];
      } else {
        PowValues();
        part := part + [LeValue(row[4 * column..4 * column + 4])];
      }
      column := column + 1;
    }
  }

  method ClipInts(buf: seq<byte>, m: CogMetadata, live: RasterPixelWindow, ghost d: seq<byte>) returns (values: seq<i32>)
    requires Undone(m, d, buf) && m.sampleType.I32? && LiveTile(m, live) && Supported(m.sampleType, m.predictor)
    ensures values == Flatten(LiveIntRows(m, live, d, live.height))
  {
    values := [];
    var y := 0;
    while y < live.height
      invariant 0 <= y <= live.height
      invariant values == Flatten(LiveIntRows(m, live, d, y))
    {
      assert LiveIntRows(m, live, d, y + 1)[..y] == LiveIntRows(m, live, d, y);
      var part := TakeInts(TileRow(m, buf, y), live.width);
      values := values + part;
      y := y + 1;
    }
  }

  method TakeInts(row: seq<byte>, count: nat) returns (part: seq<i32>)
    requires |row| % 4 == 0 && count <= |row| / 4
    ensures part == Signed(Words(row))[..count]
  {
    part := [];
    var column := 0;
    while column < count
      invariant 0 <= column <= count
      invariant part == Signed(Words(row))[..column]
    {
      PowValues();
      part := part + [AsI32(LeValue(row[4 * column..4 * column + 4]))];
      column := column + 1;
    }
  }

  // ---- Tiles of a raster -----------------------------------------------------------

  predicate RasterOf(m: CogMetadata, raster: Raster) {
    match raster
    case ByteRaster(v) => SampleWidth(m.sampleType) == 1 && IsRaster(v, m)
    case FloatRaster(v) => m.sampleType.F32? && IsRaster(v, m)
    case IntRaster(v) => m.sampleType.I32? && IsRaster(v, m)
  }

  /** The simple form: normalize the whole raster, then crop it. */
  function WindowOf(env: Platform, m: CogMetadata, raster: Raster, w: RasterPixelWindow): SampleBuffer
    requires RasterOf(m, raster) && w.Within(m)
  {
    match raster
    case ByteRaster(v) => ByteBuffer(Crop(v, m, w))
    case FloatRaster(v) => FloatBuffer(Crop(v, m, w))
    case IntRaster(v) => FloatBuffer(Crop(NormalizeI32(env, v, env.parseI32(m.nodata)), m, w))
  }

  /** Sample (c, r) of a window, said of the raster as it is stored: bytes and floats as they are; an integer equal to
      the parsed nodata is NaN, any other is converted, and without a parsed nodata all are. */
  predicate CellSample(env: Platform, m: CogMetadata, raster: Raster, w: RasterPixelWindow, buffer: SampleBuffer, c: nat, r: nat) {
    var at, cell := (r - w.rowOff) * w.width + (c - w.colOff), r * m.width + c;
    match raster
    case ByteRaster(v) => buffer.ByteBuffer? && 0 <= at < |buffer.bytes| && cell < |v| && buffer.bytes[at] == v[cell]
    case FloatRaster(v) => buffer.FloatBuffer? && 0 <= at < |buffer.bits| && cell < |v| && buffer.bits[at] == v[cell]
    case IntRaster(v) =>
      && buffer.FloatBuffer? && 0 <= at < |buffer.bits| && cell < |v|
      && match env.parseI32(m.nodata)
         case None => buffer.bits[at] == env.floatOfI32(v[cell])
         case Some(nodata) =>
           (v[cell] == nodata ==> buffer.bits[at] == env.nan) && (v[cell] != nodata ==> buffer.bits[at] == env.floatOfI32(v[cell]))
  }

  function BufferLength(buffer: SampleBuffer): nat {
    match buffer
    case ByteBuffer(bytes) => |bytes|
    case FloatBuffer(bits) => |bits|
  }

  /** The buffer is the window of the raster, cell by cell. */
  ghost predicate WindowSamples(env: Platform, m: CogMetadata, raster: Raster, w: RasterPixelWindow, buffer: SampleBuffer) {
    && BufferLength(buffer) == w.height * w.width
    && forall c: nat, r: nat :: w.Contains(c, r) ==> CellSample(env, m, raster, w, buffer, c, r)
  }

  ghost predicate StoresByteRow(m: CogMetadata, row: seq<byte>, samples: seq<byte>, padded: seq<byte>) {
    |padded| == m.tileWidth && samples <= padded && row == EncodeByteRow(m.predictor, padded)
  }

  ghost predicate StoresFloatRow(m: CogMetadata, row: seq<byte>, samples: seq<u32>, padded: seq<u32>) {
    |padded| == m.tileWidth && samples <= padded && row == EncodeFloatRow(m.predictor, padded)
  }

  ghost predicate StoresIntRow(m: CogMetadata, row: seq<byte>, samples: seq<i32>, padded: seq<i32>) {
    |padded| == m.tileWidth && samples <= padded && row == EncodeIntRow(m.predictor, padded)
  }

  /** `d` is tile `i` of the raster as a writer lays it out: each live row padded in any way to the tile
      width and encoded with the declared predictor; rows below the raster are arbitrary. */
  ghost predicate StoresTile(m: CogMetadata, raster: Raster, i: nat, d: seq<byte>)
    requires HasTile(m, i) && RasterOf(m, raster)
  {
    var live := LiveRect(m, i);
    && |d| == TileBytes(m)
    && forall y: nat :: y < live.height ==> StoresRow(m, raster, live, d, y)
  }

  ghost predicate StoresRow(m: CogMetadata, raster: Raster, live: RasterPixelWindow, d: seq<byte>, y: nat)
    requires RasterOf(m, raster) && live.Within(m) && LiveTile(m, live) && |d| == TileBytes(m) && y < live.height
  {
    match raster
    case ByteRaster(v) => exists padded: seq<byte> :: StoresByteRow(m, TileRow(m, d, y), CropRow(v, m, live, y), padded)
    case FloatRaster(v) => exists padded: seq<u32> :: StoresFloatRow(m, TileRow(m, d, y), CropRow(v, m, live, y), padded)
    case IntRaster(v) => exists padded: seq<i32> :: StoresIntRow(m, TileRow(m, d, y), CropRow(v, m, live, y), padded)
  }

  /** Normalizing commutes with cropping. */
  lemma NormalizeCrop(env: Platform, v: seq<i32>, nodata: Option<i32>, m: CogMetadata, w: RasterPixelWindow)
    requires IsRaster(v, m) && w.Within(m)
    ensures NormalizeI32(env, Crop(v, m, w), nodata) == Crop(NormalizeI32(env, v, nodata), m, w)
  {
    var normal := NormalizeI32(env, v, nodata);
    var out := NormalizeI32(env, Crop(v, m, w), nodata);
    CropAt(v, m, w, 0, 0);
    forall c: nat, r: nat | w.Contains(c, r)
      ensures HoldsCell(out, normal, m, w, c, r)
    {
      CropCell(v, m, w, c, r);
    }
    CropUnique(out, normal, m, w);
  }

  /** What the simple form means, cell by cell. */
  lemma WindowOfSamples(env: Platform, m: CogMetadata, raster: Raster, w: RasterPixelWindow)
    requires RasterOf(m, raster) && w.Within(m)
    ensures WindowSamples(env, m, raster, w, WindowOf(env, m, raster, w))
  {
    hide Crop;
    forall c: nat, r: nat | w.Contains(c, r)
      ensures BufferLength(WindowOf(env, m, raster, w)) == w.height * w.width
      ensures CellSample(env, m, raster, w, WindowOf(env, m, raster, w), c, r)
    {
      match raster {
        case ByteRaster(v) => CropCell(v, m, w, c, r);
        case FloatRaster(v) => CropCell(v, m, w, c, r);
        case IntRaster(v) => CropCell(NormalizeI32(env, v, env.parseI32(m.nodata)), m, w, c, r);
      }
    }
    assert w.Contains(w.colOff, w.rowOff);
  }

  /** Decoding a stored tile gives exactly the raster's samples under the tile. */
  lemma StoredTileDecodes(env: Platform, m: CogMetadata, raster: Raster, i: nat, d: seq<byte>)
    requires HasTile(m, i) && RasterOf(m, raster) && StoresTile(m, raster, i, d)
    ensures LiveSamples(env, m, i, d) == WindowOf(env, m, raster, LiveRect(m, i))
  {
    var live := LiveRect(m, i);
    match raster {
      case ByteRaster(v) =>
        forall y: nat | y < live.height
          ensures LiveByteRows(m, live, d, live.height)[y] == CropRow(v, m, live, y)
        {
          assert StoresRow(m, raster, live, d, y);
          var padded: seq<byte> :| StoresByteRow(m, TileRow(m, d, y), CropRow(v, m, live, y), padded);
          ByteRowRoundTrip(m.predictor, padded);
        }
        assert LiveByteRows(m, live, d, live.height) == CropRows(v, m, live, live.height);
      case FloatRaster(v) =>
        forall y: nat | y < live.height
          ensures LiveFloatRows(m, live, d, live.height)[y] == CropRow(v, m, live, y)
        {
          assert StoresRow(m, raster, live, d, y);
          var padded: seq<u32> :| StoresFloatRow(m, TileRow(m, d, y), CropRow(v, m, live, y), padded);
          FloatRowRoundTrip(m.predictor, padded);
        }
        assert LiveFloatRows(m, live, d, live.height) == CropRows(v, m, live, live.height);
      case IntRaster(v) =>
        forall y: nat | y < live.height
          ensures LiveIntRows(m, live, d, live.height)[y] == CropRow(v, m, live, y)
        {
          assert StoresRow(m, raster, live, d, y);
          var padded: seq<i32> :| StoresIntRow(m, TileRow(m, d, y), CropRow(v, m, live, y), padded);
          IntRowRoundTrip(m.predictor, padded);
        }
        assert LiveIntRows(m, live, d, live.height) == CropRows(v, m, live, live.height);
        NormalizeCrop(env, v, env.parseI32(m.nodata), m, live);
    }
  }

  // ---- A window ----------------------------------------------------------------------

  function DirectionNodata(env: Platform, m: CogMetadata): Option<byte>
    requires SampleWidth(m.sampleType) == 1
  {
    if m.sampleType.U8? then env.parseByte(m.nodata) else env.parseSignedByte(m.nodata)
  }

  /** Byte rasters need a nodata value of their own type to prefill with. */
  predicate NodataUsable(env: Platform, m: CogMetadata) {
    match m.sampleType
    case U8 => env.parseByte(m.nodata).Some?
    case I8 => env.parseSignedByte(m.nodata).Some?
    case _ => true
  }

  predicate WindowAllocated(env: Platform, m: CogMetadata, w: RasterPixelWindow) {
    NodataUsable(env, m) && AllocationFits(w, SampleWidth(m.sampleType))
  }

  predicate AllocationFits(w: RasterPixelWindow, sampleWidth: nat) {
    w.height * w.width * sampleWidth <= MAX_WINDOW_ALLOCATION_BYTES
  }

  /** Cells of the window buffer. */
  function AllocationLength(w: RasterPixelWindow, sampleWidth: nat): (length: nat)
    requires sampleWidth > 0 && AllocationFits(w, sampleWidth)
    ensures length == w.height * w.width <= MAX_WINDOW_ALLOCATION_BYTES
  {
    MulMono(1, sampleWidth, w.height * w.width);
    w.height * w.width
  }

  /** The chunk decodes to tile `i` of the raster. */
  ghost predicate ChunkHolds(env: Platform, m: CogMetadata, raster: Raster, i: nat, chunk: seq<byte>)
    requires RasterOf(m, raster)
  {
    HasTile(m, i) && DecodedChunk(env, chunk, m, i) == Ok(WindowOf(env, m, raster, LiveRect(m, i)))
  }

  predicate ChunkDecodes(env: Platform, m: CogMetadata, i: nat, chunk: seq<byte>) {
    HasTile(m, i) && DecodedChunk(env, chunk, m, i).Ok?
  }

  /** Chunk `k` holds tile `plan[k]` of the raster, for every `k`. */
  ghost predicate ChunksHold(env: Platform, m: CogMetadata, raster: Raster, plan: seq<u32>, chunks: seq<seq<byte>>)
    requires RasterOf(m, raster)
  {
    |plan| == |chunks| && forall k :: 0 <= k < |plan| ==> ChunkHolds(env, m, raster, plan[k], chunks[k])
  }

  predicate Planned(m: CogMetadata, w: RasterPixelWindow, plan: seq<u32>) {
    m.Tiled() && w.Within(m) && plan == WindowBlock(m, w).Indices()
  }

  lemma PlannedTile(m: CogMetadata, w: RasterPixelWindow, plan: seq<u32>, k: nat)
    requires Planned(m, w, plan) && k < |plan|
    ensures HasTile(m, plan[k])
    ensures WindowBlock(m, w).Has(plan[k] / m.TilesAcross(), plan[k] % m.TilesAcross())
  {
    BlockInGrid(m, w);
    BlockExact(WindowBlock(m, w), m.TilesDown());
    assert plan[k] in WindowBlock(m, w).Indices();
  }

  /** Copy planned tile `k` into the window buffer. */
  method PlaceTile<T>(data: seq<T>, out: array<T>, m: CogMetadata, w: RasterPixelWindow, plan: seq<u32>, k: nat,
                      ghost values: seq<T>, ghost holds: bool)
    requires Planned(m, w, plan) && k < |plan| && HasTile(m, plan[k]) && IsRaster(values, m)
    requires |data| == LiveRect(m, plan[k]).height * LiveRect(m, plan[k]).width
    requires m.tileWidth * m.tileHeight <= MAX_DECODED_CHUNK_BYTES
    requires out.Length == w.height * w.width <= MAX_WINDOW_ALLOCATION_BYTES
    requires holds ==> Stitched(out[..], values, m, w, plan[..k]) && data == Crop(values, m, LiveRect(m, plan[k]))
    modifies out
    ensures holds ==> Stitched(out[..], values, m, w, plan[..k + 1])
  {
    ghost var before := out[..];
    PlannedTile(m, w, plan, k);
    CopyTile(data, out, m, w, plan[k]);
    assert plan[..k + 1] == plan[..k] + [plan[k]];
    if holds {
      StitchStep(data, before, out[..], values, m, w, plan[..k], plan[k]);
    }
  }

  /** Integer samples of a chunk before they are normalized. */
  function ChunkInts(env: Platform, m: CogMetadata, i: nat, chunk: seq<byte>): (ints: seq<i32>)
    requires HasTile(m, i) && m.sampleType.I32? && DecodedChunk(env, chunk, m, i).Ok?
    ensures |ints| == LiveRect(m, i).height * LiveRect(m, i).width
    ensures DecodedChunk(env, chunk, m, i) == Ok(FloatBuffer(NormalizeI32(env, ints, env.parseI32(m.nodata))))
  {
    var live, d := LiveRect(m, i), env.inflate(chunk, TileBytes(m) + 1).value;
    FlattenLength(LiveIntRows(m, live, d, live.height), live.width);
    Flatten(LiveIntRows(m, live, d, live.height))
  }

  ghost predicate AllDecode(env: Platform, m: CogMetadata, plan: seq<u32>, chunks: seq<seq<byte>>) {
    |chunks| == |plan| && forall k :: 0 <= k < |plan| ==> ChunkDecodes(env, m, plan[k], chunks[k])
  }

  lemma PlannedIncreases(m: CogMetadata, w: RasterPixelWindow, plan: seq<u32>)
    requires Planned(m, w, plan)
    ensures StrictlyIncreasing(plan)
  {
    PlanExact(m, w);
  }

  /** Whatever the chunks are, if they decode they hold the planned tiles of some raster. */
  lemma DecodedHoldRaster(env: Platform, chunks: seq<seq<byte>>, m: CogMetadata, w: RasterPixelWindow, plan: seq<u32>) returns (raster: Raster)
    requires Planned(m, w, plan) && AllDecode(env, m, plan, chunks)
    ensures RasterOf(m, raster) && ChunksHold(env, m, raster, plan, chunks)
  {
    PlannedIncreases(m, w, plan);
    if SampleWidth(m.sampleType) == 1 {
      raster := BytesHoldRaster(env, chunks, m, plan);
    } else if m.sampleType.F32? {
      raster := FloatsHoldRaster(env, chunks, m, plan);
    } else {
      raster := IntsHoldRaster(env, chunks, m, plan);
    }
  }

  lemma BytesHoldRaster(env: Platform, chunks: seq<seq<byte>>, m: CogMetadata, plan: seq<u32>) returns (raster: Raster)
    requires m.Tiled() && StrictlyIncreasing(plan) && AllDecode(env, m, plan, chunks) && SampleWidth(m.sampleType) == 1
    ensures RasterOf(m, raster) && ChunksHold(env, m, raster, plan, chunks)
  {
    hide DecodedChunk, LiveRect, Crop, RasterFrom, HasTile;
    forall k | 0 <= k < |plan|
      ensures ChunkDecodes(env, m, plan[k], chunks[k])
      ensures var d := DecodedChunk(env, chunks[k], m, plan[k]).value;
              d.ByteBuffer? && |d.bytes| == LiveRect(m, plan[k]).height * LiveRect(m, plan[k]).width
    {
      ChunkShape(env, chunks[k], m, plan[k]);
    }
    var tiles := seq(|plan|, k requires 0 <= k < |plan| => DecodedChunk(env, chunks[k], m, plan[k]).value.bytes);
    raster := ByteRaster(RasterFrom(tiles, m, plan, 0));
    forall k | 0 <= k < |plan|
      ensures ChunkHolds(env, m, raster, plan[k], chunks[k])
    {
      TilesOfRaster(tiles, m, plan, 0, k);
    }
  }

  lemma FloatsHoldRaster(env: Platform, chunks: seq<seq<byte>>, m: CogMetadata, plan: seq<u32>) returns (raster: Raster)
    requires m.Tiled() && StrictlyIncreasing(plan) && AllDecode(env, m, plan, chunks) && m.sampleType.F32?
    ensures RasterOf(m, raster) && ChunksHold(env, m, raster, plan, chunks)
  {
    hide DecodedChunk, LiveRect, Crop, RasterFrom, HasTile;
    forall k | 0 <= k < |plan|
      ensures ChunkDecodes(env, m, plan[k], chunks[k])
      ensures var d := DecodedChunk(env, chunks[k], m, plan[k]).value;
              d.FloatBuffer? && |d.bits| == LiveRect(m, plan[k]).height * LiveRect(m, plan[k]).width
    {
      ChunkShape(env, chunks[k], m, plan[k]);
    }
    var tiles := seq(|plan|, k requires 0 <= k < |plan| => DecodedChunk(env, chunks[k], m, plan[k]).value.bits);
    raster := FloatRaster(RasterFrom(tiles, m, plan, 0));
    forall k | 0 <= k < |plan|
      ensures ChunkHolds(env, m, raster, plan[k], chunks[k])
    {
      TilesOfRaster(tiles, m, plan, 0, k);
    }
  }

  lemma IntsHoldRaster(env: Platform, chunks: seq<seq<byte>>, m: CogMetadata, plan: seq<u32>) returns (raster: Raster)
    requires m.Tiled() && StrictlyIncreasing(plan) && AllDecode(env, m, plan, chunks) && m.sampleType.I32?
    ensures RasterOf(m, raster) && ChunksHold(env, m, raster, plan, chunks)
  {
    hide DecodedChunk, LiveRect, Crop, RasterFrom, HasTile, NormalizeI32, ChunkInts;
    assert forall k :: 0 <= k < |plan| ==> ChunkDecodes(env, m, plan[k], chunks[k]);
    var tiles := seq(|plan|, k requires 0 <= k < |plan| => ChunkInts(env, m, plan[k], chunks[k]));
    var values := RasterFrom(tiles, m, plan, 0);
    raster := IntRaster(values);
    forall k | 0 <= k < |plan|
      ensures ChunkHolds(env, m, raster, plan[k], chunks[k])
    {
      TilesOfRaster(tiles, m, plan, 0, k);
      NormalizeCrop(env, values, env.parseI32(m.nodata), m, LiveRect(m, plan[k]));
      assert tiles[k] == ChunkInts(env, m, plan[k], chunks[k]);
    }
  }

  lemma PlannedInside(m: CogMetadata, w: RasterPixelWindow, plan: seq<u32>)
    requires Planned(m, w, plan)
    ensures w.Within(m)
  {
  }

  /** Decode the planned tiles one by one and stitch them into one buffer prefilled with nodata.  Whatever the
      chunks, a success is exactly that all of them decode, and the buffer is then the window of the raster whose
      tiles they are. */
  method DecodeWindow(env: Platform, chunks: seq<seq<byte>>, m: CogMetadata, w: RasterPixelWindow, plan: seq<u32>,
                      ghost raster: Raster)
    returns (r: Result<SampleBuffer, CogError>)
    requires Planned(m, w, plan) && |chunks| == |plan| && RasterOf(m, raster)
    ensures !NodataUsable(env, m) ==> r == Err(BadNodata)
    ensures NodataUsable(env, m) && !AllocationFits(w, SampleWidth(m.sampleType)) ==> r == Err(WindowTooLarge)
    ensures WindowAllocated(env, m, w) && ChunksHold(env, m, raster, plan, chunks) ==> r == Ok(WindowOf(env, m, raster, w))
    ensures r.Ok? <==> WindowAllocated(env, m, w) && AllDecode(env, m, plan, chunks)
    ensures WindowAllocated(env, m, w) && ChunksHold(env, m, raster, plan, chunks) ==> WindowSamples(env, m, raster, w, r.value)
    ensures r.Ok? ==> exists stored :: RasterOf(m, stored) && ChunksHold(env, m, stored, plan, chunks)
                                       && r == Ok(WindowOf(env, m, stored, w)) && WindowSamples(env, m, stored, w, r.value)
  {
    hide WindowSamples;
    ghost var stored := raster;
    if AllDecode(env, m, plan, chunks) && !ChunksHold(env, m, raster, plan, chunks) {
      stored := DecodedHoldRaster(env, chunks, m, w, plan);
    }
    PlannedInside(m, w, plan);
    WindowOfSamples(env, m, stored, w);
    if SampleWidth(m.sampleType) == 1 {
      var nodata := DirectionNodata(env, m);
      if nodata.None? {
        return Err(BadNodata);
      }
      if !AllocationFits(w, 1) {
        return Err(WindowTooLarge);
      }
      r := DecodeByteWindow(env, chunks, m, w, plan, nodata.value, stored);
    } else {
      if !AllocationFits(w, 4) {
        return Err(WindowTooLarge);
      }
      var nodata := env.parseF32(m.nodata);
      r := DecodeFloatWindow(env, chunks, m, w, plan, if nodata.Some? then nodata.value else env.nan, stored);
    }
  }

  /** Decode planned tile `k` and copy it into the window buffer. */
  method DecodeByteTile(env: Platform, chunk: seq<byte>, m: CogMetadata, w: RasterPixelWindow, plan: seq<u32>, k: nat,
                        out: array<byte>, ghost raster: Raster)
    returns (e: Option<CogError>)
    requires Planned(m, w, plan) && k < |plan| && RasterOf(m, raster)
    requires SampleWidth(m.sampleType) == 1 && out.Length == w.height * w.width <= MAX_WINDOW_ALLOCATION_BYTES
    modifies out
    ensures e.Some? ==> !ChunkHolds(env, m, raster, plan[k], chunk)
    ensures e.None? ==> ChunkDecodes(env, m, plan[k], chunk)
    ensures e.None? && ChunkHolds(env, m, raster, plan[k], chunk) && Stitched(old(out[..]), raster.bytes, m, w, plan[..k])
            ==> Stitched(out[..], raster.bytes, m, w, plan[..k + 1])
  {
    PlannedTile(m, w, plan, k);
    var decoded := DecodeOwnedChunk(env, chunk, m, plan[k]);
    if decoded.Err? {
      return Some(decoded.error);
    }
    ChunkShape(env, chunk, m, plan[k]);
    if decoded.value.FloatBuffer? {
      return Some(TileTypeMismatch);
    }
    ghost var holds := ChunkHolds(env, m, raster, plan[k], chunk) && Stitched(out[..], raster.bytes, m, w, plan[..k]);
    PlaceTile(decoded.value.bytes, out, m, w, plan, k, raster.bytes, holds);
    return None;
  }

  method DecodeByteTiles(env: Platform, chunks: seq<seq<byte>>, m: CogMetadata, w: RasterPixelWindow, plan: seq<u32>,
                         out: array<byte>, ghost raster: Raster)
    returns (e: Option<CogError>)
    requires Planned(m, w, plan) && |chunks| == |plan| && RasterOf(m, raster)
    requires SampleWidth(m.sampleType) == 1 && out.Length == w.height * w.width <= MAX_WINDOW_ALLOCATION_BYTES
    modifies out
    ensures ChunksHold(env, m, raster, plan, chunks) ==> e.None? && Stitched(out[..], raster.bytes, m, w, plan)
    ensures e.None? ==> forall k :: 0 <= k < |plan| ==> ChunkDecodes(env, m, plan[k], chunks[k])
  {
    var k := 0;
    while k < |plan|
      invariant 0 <= k <= |plan|
      invariant ChunksHold(env, m, raster, plan, chunks) ==> Stitched(out[..], raster.bytes, m, w, plan[..k])
      invariant forall j :: 0 <= j < k ==> ChunkDecodes(env, m, plan[j], chunks[j])
    {
      e := DecodeByteTile(env, chunks[k], m, w, plan, k, out, raster);
      if e.Some? {
        return;
      }
      k := k + 1;
    }
    assert plan[..k] == plan;
    return None;
  }

  method DecodeByteWindow(env: Platform, chunks: seq<seq<byte>>, m: CogMetadata, w: RasterPixelWindow, plan: seq<u32>,
                          nodata: byte, ghost raster: Raster)
    returns (r: Result<SampleBuffer, CogError>)
    requires Planned(m, w, plan) && |chunks| == |plan| && RasterOf(m, raster)
    requires SampleWidth(m.sampleType) == 1 && AllocationFits(w, 1)
    ensures ChunksHold(env, m, raster, plan, chunks) ==> r == Ok(WindowOf(env, m, raster, w))
    ensures r.Ok? ==> forall k :: 0 <= k < |plan| ==> ChunkDecodes(env, m, plan[k], chunks[k])
  {
    var length := AllocationLength(w, 1);
    var out := new byte[length](_ => nodata);
    var e := DecodeByteTiles(env, chunks, m, w, plan, out, raster);
    if e.Some? {
      return Err(e.value);
    }
    if ChunksHold(env, m, raster, plan, chunks) {
      StitchComplete(out[..], raster.bytes, m, w, plan);
    }
    return Ok(ByteBuffer(out[..]));
  }

  /** The whole raster a float window is cut from. */
  ghost function FloatValues(env: Platform, m: CogMetadata, raster: Raster): (v: seq<u32>)
    requires RasterOf(m, raster) && SampleWidth(m.sampleType) == 4
    ensures IsRaster(v, m)
  {
    match raster
    case FloatRaster(v) => v
    case IntRaster(v) => NormalizeI32(env, v, env.parseI32(m.nodata))
  }

  /** Decode planned tile `k` and copy it into the window buffer. */
  method DecodeFloatTile(env: Platform, chunk: seq<byte>, m: CogMetadata, w: RasterPixelWindow, plan: seq<u32>, k: nat,
                        out: array<u32>, ghost raster: Raster)
    returns (e: Option<CogError>)
    requires Planned(m, w, plan) && k < |plan| && RasterOf(m, raster)
    requires SampleWidth(m.sampleType) == 4 && out.Length == w.height * w.width <= MAX_WINDOW_ALLOCATION_BYTES
    modifies out
    ensures e.Some? ==> !ChunkHolds(env, m, raster, plan[k], chunk)
    ensures e.None? ==> ChunkDecodes(env, m, plan[k], chunk)
    ensures e.None? && ChunkHolds(env, m, raster, plan[k], chunk) && Stitched(old(out[..]), FloatValues(env, m, raster), m, w, plan[..k])
            ==> Stitched(out[..], FloatValues(env, m, raster), m, w, plan[..k + 1])
  {
    PlannedTile(m, w, plan, k);
    var decoded := DecodeOwnedChunk(env, chunk, m, plan[k]);
    if decoded.Err? {
      return Some(decoded.error);
    }
    ChunkShape(env, chunk, m, plan[k]);
    if decoded.value.ByteBuffer? {
      return Some(TileTypeMismatch);
    }
    ghost var holds := ChunkHolds(env, m, raster, plan[k], chunk) && Stitched(out[..], FloatValues(env, m, raster), m, w, plan[..k]);
    PlaceTile(decoded.value.bits, out, m, w, plan, k, FloatValues(env, m, raster), holds);
    return None;
  }

  method DecodeFloatTiles(env: Platform, chunks: seq<seq<byte>>, m: CogMetadata, w: RasterPixelWindow, plan: seq<u32>,
                         out: array<u32>, ghost raster: Raster)
    returns (e: Option<CogError>)
    requires Planned(m, w, plan) && |chunks| == |plan| && RasterOf(m, raster)
    requires SampleWidth(m.sampleType) == 4 && out.Length == w.height * w.width <= MAX_WINDOW_ALLOCATION_BYTES
    modifies out
    ensures ChunksHold(env, m, raster, plan, chunks) ==> e.None? && Stitched(out[..], FloatValues(env, m, raster), m, w, plan)
    ensures e.None? ==> forall k :: 0 <= k < |plan| ==> ChunkDecodes(env, m, plan[k], chunks[k])
  {
    var k := 0;
    while k < |plan|
      invariant 0 <= k <= |plan|
      invariant ChunksHold(env, m, raster, plan, chunks) ==> Stitched(out[..], FloatValues(env, m, raster), m, w, plan[..k])
      invariant forall j :: 0 <= j < k ==> ChunkDecodes(env, m, plan[j], chunks[j])
    {
      e := DecodeFloatTile(env, chunks[k], m, w, plan, k, out, raster);
      if e.Some? {
        return;
      }
      k := k + 1;
    }
    assert plan[..k] == plan;
    return None;
  }

  method DecodeFloatWindow(env: Platform, chunks: seq<seq<byte>>, m: CogMetadata, w: RasterPixelWindow, plan: seq<u32>,
                          nodata: u32, ghost raster: Raster)
    returns (r: Result<SampleBuffer, CogError>)
    requires Planned(m, w, plan) && |chunks| == |plan| && RasterOf(m, raster)
    requires SampleWidth(m.sampleType) == 4 && AllocationFits(w, 4)
    ensures ChunksHold(env, m, raster, plan, chunks) ==> r == Ok(WindowOf(env, m, raster, w))
    ensures r.Ok? ==> forall k :: 0 <= k < |plan| ==> ChunkDecodes(env, m, plan[k], chunks[k])
  {
    var length := AllocationLength(w, 4);
    var out := new u32[length](_ => nodata);
    var e := DecodeFloatTiles(env, chunks, m, w, plan, out, raster);
    if e.Some? {
      return Err(e.value);
    }
    if ChunksHold(env, m, raster, plan, chunks) {
      StitchComplete(out[..], FloatValues(env, m, raster), m, w, plan);
    }
    return Ok(FloatBuffer(out[..]));
  }

  /** A decoded chunk has one sample per live cell, of the kind the sample type calls for. */
  lemma ChunkShape(env: Platform, compressed: seq<byte>, m: CogMetadata, i: nat)
    requires HasTile(m, i) && DecodedChunk(env, compressed, m, i).Ok?
    ensures m.tileWidth * m.tileHeight <= MAX_DECODED_CHUNK_BYTES
    ensures var n, buffer := LiveRect(m, i).height * LiveRect(m, i).width, DecodedChunk(env, compressed, m, i).value;
            if SampleWidth(m.sampleType) == 1 then buffer.ByteBuffer? && |buffer.bytes| == n
            else buffer.FloatBuffer? && |buffer.bits| == n
  {
    var live := LiveRect(m, i);
    var d := env.inflate(compressed, TileBytes(m) + 1).value;
    TileArea(m);
    if SampleWidth(m.sampleType) == 1 {
      FlattenLength(LiveByteRows(m, live, d, live.height), live.width);
    } else if m.sampleType.F32? {
      FlattenLength(LiveFloatRows(m, live, d, live.height), live.width);
    } else {
      FlattenLength(LiveIntRows(m, live, d, live.height), live.width);
    }
  }

  lemma TileArea(m: CogMetadata)
    ensures m.tileWidth * m.tileHeight <= TileBytes(m)
  {
    MulMono(m.tileWidth, m.tileWidth * SampleWidth(m.sampleType), m.tileHeight);
  }
}
