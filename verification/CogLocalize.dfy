/** Fetching a prepared window's chunks, and the whole path from a request to window samples. */
module CogLocalize {
  import opened Arith
  import opened Bytes
  import opened Results
  import opened CogModel
  import opened CogWindow
  import opened CogStitch
  import opened CogDecode
  import opened CogIfd
  import opened CogStore
  import opened CogIndex
  import opened CogFetch

  // ---- Ceilings on the compressed chunks ------------------------------------------------

  predicate ChunkValid(range: ByteRange, size: nat) {
    range.start < range.end <= size && range.Length() <= MAX_COMPRESSED_CHUNK_BYTES
  }

  /** Every chunk is non-empty, inside the object and below the chunk ceiling, and so is their total. */
  predicate CompressedValid(tiles: seq<ResolvedTile>, size: nat) {
    && (forall k :: 0 <= k < |tiles| ==> ChunkValid(tiles[k].range, size))
    && CompressedTotal(tiles) <= MAX_COVERED_CHUNK_BYTES
  }

  /** In bytes: a chunk is 1 to 16 MiB inside the object, and all of them together at most 1 GiB. */
  lemma CompressedExact(tiles: seq<ResolvedTile>, size: nat)
    ensures CompressedValid(tiles, size) <==>
            && (forall k :: 0 <= k < |tiles| ==>
                  var (start, end) := (tiles[k].range.start, tiles[k].range.end);
                  start < end <= size && end - start <= 16_777_216)
            && CompressedTotal(tiles) <= 1_073_741_824
  {
    hide CompressedTotal;
  }

  function TileChunks(tiles: seq<ResolvedTile>): (rs: seq<ByteRange>)
    ensures |rs| == |tiles|
  {
    seq(|tiles|, k requires 0 <= k < |tiles| => tiles[k].range)
  }

  lemma {:induction false} TotalOfTiles(tiles: seq<ResolvedTile>)
    ensures TotalLength(TileChunks(tiles)) == CompressedTotal(tiles)
  {
    if tiles == [] {
    } else {
      TotalOfTiles(tiles[..|tiles| - 1]);
      assert TileChunks(tiles)[..|tiles| - 1] == TileChunks(tiles[..|tiles| - 1]);
    }
  }

  lemma {:induction false} CompressedTotalPrefix(tiles: seq<ResolvedTile>, size: nat, k: nat)
    requires k <= |tiles| && forall j :: 0 <= j < |tiles| ==> ChunkValid(tiles[j].range, size)
    ensures CompressedTotal(tiles[..k]) <= CompressedTotal(tiles)
    decreases |tiles|
  {
    if k == |tiles| {
      assert tiles[..k] == tiles;
    } else {
      assert tiles[..|tiles| - 1][..k] == tiles[..k];
      CompressedTotalPrefix(tiles[..|tiles| - 1], size, k);
    }
  }

  /** Check every chunk range and the running total before any chunk is requested. */
  method ValidateCompressedRanges(plan: ResolvedTilePlan) returns (r: Result<seq<ByteRange>, CogError>)
    ensures r.Ok? <==> CompressedValid(plan.tiles, plan.objectSize)
    ensures r.Ok? ==> r.value == TileChunks(plan.tiles) && AllInside(r.value, plan.objectSize)
    ensures r.Ok? ==> TotalLength(r.value) == CompressedTotal(plan.tiles)
  {
    var tiles := plan.tiles;
    var aggregate := 0;
    var ranges: seq<ByteRange> := [];
    var k := 0;
    while k < |tiles|
      invariant 0 <= k <= |tiles|
      invariant ranges == TileChunks(tiles[..k]) && aggregate == CompressedTotal(tiles[..k]) <= MAX_COVERED_CHUNK_BYTES
      invariant forall j :: 0 <= j < k ==> ChunkValid(tiles[j].range, plan.objectSize)
    {
      var range := tiles[k].range;
      if range.start >= range.end {
        assert !ChunkValid(range, plan.objectSize);
        return Err(ChunkRangeInvalid);
      }
      var bytes := range.Length();
      if bytes > MAX_COMPRESSED_CHUNK_BYTES {
        assert !ChunkValid(range, plan.objectSize);
        return Err(ChunkTooLarge);
      }
      assert tiles[..k + 1][..k] == tiles[..k];
      aggregate := aggregate + bytes;
      if aggregate > MAX_COVERED_CHUNK_BYTES {
        if forall j :: 0 <= j < |tiles| ==> ChunkValid(tiles[j].range, plan.objectSize) {
          CompressedTotalPrefix(tiles, plan.objectSize, k + 1);
        }
        return Err(CoveredTooLarge);
      }
      if range.end > plan.objectSize {
        assert !ChunkValid(range, plan.objectSize);
        return Err(OutsideObject(range));
      }
      ranges := ranges + [range];
      k := k + 1;
    }
    assert tiles[..k] == tiles;
    TotalOfTiles(tiles);
    forall r | r in ranges
      ensures r.Inside(plan.objectSize)
    {
      var j :| 0 <= j < |ranges| && ranges[j] == r;
      assert ChunkValid(tiles[j].range, plan.objectSize);
    }
    return Ok(ranges);
  }

  // ---- What a stored raster is -------------------------------------------------------------

  /** The chunk the content's index names for tile `i` inflates to that tile of the raster. */
  ghost predicate ChunkStored(env: Platform, m: CogMetadata, content: seq<byte>, raster: Raster, i: u32)
    requires RasterOf(m, raster) && HasTile(m, i)
  {
    match ChunkOf(m.tileOffsets, m.tileByteCounts, content, i)
    case Err(_) => true
    case Ok((offset, count)) =>
      offset + count <= |content| ==>
        exists d: seq<byte> :: InflatesTo(env, m, content[offset..offset + count], d) && StoresTile(m, raster, i, d)
  }

  predicate InflatesTo(env: Platform, m: CogMetadata, chunk: seq<byte>, d: seq<byte>) {
    env.inflate(chunk, TileBytes(m) + 1) == Some(d)
  }

  /** The content stores the raster, tile by tile. */
  ghost predicate StoresRaster(env: Platform, m: CogMetadata, content: seq<byte>, raster: Raster) {
    && RasterOf(m, raster)
    && forall i: u32 :: HasTile(m, i) ==> ChunkStored(env, m, content, raster, i)
  }

  /** A stored chunk decodes to its tile of the raster. */
  lemma StoredChunkHolds(env: Platform, m: CogMetadata, content: seq<byte>, raster: Raster, tile: ResolvedTile)
    requires StoresRaster(env, m, content, raster) && HasTile(m, tile.index)
    requires Supported(m.sampleType, m.predictor) && TileBytes(m) <= MAX_DECODED_CHUNK_BYTES
    requires ResolvedFrom(m.tileOffsets, m.tileByteCounts, content, tile.index, tile) && tile.range.end <= |content|
    ensures tile.range.start <= tile.range.end
    ensures ChunkHolds(env, m, raster, tile.index, content[tile.range.start..tile.range.end])
  {
    hide ChunkOf, StoresTile, LiveSamples, WindowOf, HasTile, RasterOf, TileBytes;
    assert ChunkStored(env, m, content, raster, tile.index);
    var (offset, count) := ChunkOf(m.tileOffsets, m.tileByteCounts, content, tile.index).value;
    var chunk := content[offset..offset + count];
    var d :| InflatesTo(env, m, chunk, d) && StoresTile(m, raster, tile.index, d);
    StoredLength(m, raster, tile.index, d);
    StoredTileDecodes(env, m, raster, tile.index, d);
  }

  lemma StoredLength(m: CogMetadata, raster: Raster, i: nat, d: seq<byte>)
    requires HasTile(m, i) && RasterOf(m, raster) && StoresTile(m, raster, i, d)
    ensures |d| == TileBytes(m)
  {
  }

  // ---- Fetching ------------------------------------------------------------------------------

  datatype LocalizedRasterWindow = LocalizedRasterWindow(
    samples: SampleBuffer, headerBytes: nat, tileBytes: nat, tileCount: nat, windowPixels: nat)

  function TileIndices(tiles: seq<ResolvedTile>): (s: seq<u32>)
    ensures |s| == |tiles|
  {
    seq(|tiles|, k requires 0 <= k < |tiles| => tiles[k].index)
  }

  /** Every response has its range's length. */
  method CheckLengths(ranges: seq<ByteRange>, chunks: seq<seq<byte>>) returns (ok: bool)
    ensures ok <==> |chunks| == |ranges| && forall k :: 0 <= k < |ranges| ==> |chunks[k]| == ranges[k].Length()
  {
    if |chunks| != |ranges| {
      return false;
    }
    var k := 0;
    while k < |ranges|
      invariant 0 <= k <= |ranges|
      invariant forall j :: 0 <= j < k ==> |chunks[j]| == ranges[j].Length()
    {
      if |chunks[k]| != ranges[k].Length() {
        return false;
      }
      k := k + 1;
    }
    return true;
  }

  /** Fetch a prepared window's chunks and decode them.  Nothing is requested unless every chunk passes the
      ceilings, and then exactly the chunks are.  When the store serves a content that stores a raster, the
      call succeeds exactly when the ceilings and the nodata value allow it, and its samples are the crop of
      the whole raster. */
  method FetchWindow(store: ObjectStore, env: Platform, p: PreparedCogWindow, kind: RasterKind, bbox: Bbox,
                     ghost content: seq<byte>, ghost raster: Raster)
    returns (r: Result<LocalizedRasterWindow, CogError>)
    requires PreparedFor(p, kind, bbox, store.size) && RasterOf(p.metadata, raster)
    modifies store`trace
    ensures store.trace == old(store.trace) +
                           (if CompressedValid(p.plan.tiles, store.size) then TileChunks(p.plan.tiles) else [])
    ensures r.Ok? ==> r.value.tileBytes == CompressedTotal(p.plan.tiles) <= MAX_COVERED_CHUNK_BYTES
    ensures r.Ok? ==> r.value.headerBytes == p.headerBytes && r.value.tileCount == |p.plan.tiles|
    ensures r.Ok? ==> r.value.windowPixels == RowMajor(p.window.width, p.window.height, 0)
    ensures StoresPrepared(store, p, env, content, raster) ==>
              (r.Ok? <==> CompressedValid(p.plan.tiles, store.size) && WindowAllocated(env, p.metadata, p.window))
    ensures StoresPrepared(store, p, env, content, raster) && r.Ok? ==>
              p.window.Within(p.metadata) && r.value.samples == WindowOf(env, p.metadata, raster, p.window)
  {
    hide WindowOf, Planned, StoresRaster, ChunksHold, WindowAllocated, NodataUsable, AllocationFits, RasterOf, ResolvedFrom;
    PreparedPlan(p, kind, bbox, store.size);
    var ranges := ValidateCompressedRanges(p.plan);
    if ranges.Err? {
      return Err(ranges.error);
    }
    var reply := store.GetRanges(ranges.value);
    if reply.None? {
      return Err(StoreFailure);
    }
    var chunks := reply.value;
    var lengthsOk := CheckLengths(ranges.value, chunks);
    if !lengthsOk {
      return Err(BadResponse(3));
    }
    ghost var stored := StoresPrepared(store, p, env, content, raster);
    if stored {
      ChunksServed(env, p, kind, bbox, content, raster, chunks);
    }
    var samples := DecodeWindow(env, chunks, p.metadata, p.window, TileIndices(p.plan.tiles), raster);
    NodataReveal(env, p.metadata, p.window);
    if samples.Err? {
      return Err(samples.error);
    }
    return Ok(LocalizedRasterWindow(samples.value, p.headerBytes, CompressedSum(p.plan.tiles), |p.plan.tiles|,
                                    RowMajor(p.window.width, p.window.height, 0)));
  }

  function CompressedSum(tiles: seq<ResolvedTile>): nat
    requires forall k :: 0 <= k < |tiles| ==> tiles[k].range.start <= tiles[k].range.end
    ensures CompressedSum(tiles) == CompressedTotal(tiles)
  {
    if tiles == [] then 0 else CompressedSum(tiles[..|tiles| - 1]) + tiles[|tiles| - 1].range.Length()
  }

  lemma NodataReveal(env: Platform, m: CogMetadata, w: RasterPixelWindow)
    ensures WindowAllocated(env, m, w) <==> NodataUsable(env, m) && AllocationFits(w, SampleWidth(m.sampleType))
  {
  }

  /** The store serves a content that stores the raster and from which the window was prepared. */
  ghost predicate StoresPrepared(store: ObjectStore, p: PreparedCogWindow, env: Platform, content: seq<byte>, raster: Raster)
  {
    && store.Serves(content)
    && StoresRaster(env, p.metadata, content, raster)
    && forall k :: 0 <= k < |p.plan.tiles| ==>
         ResolvedFrom(p.metadata.tileOffsets, p.metadata.tileByteCounts, content, p.plan.tiles[k].index, p.plan.tiles[k])
  }

  lemma PreparedPlan(p: PreparedCogWindow, kind: RasterKind, bbox: Bbox, size: nat)
    requires PreparedFor(p, kind, bbox, size)
    ensures Planned(p.metadata, p.window, TileIndices(p.plan.tiles)) && p.window.Within(p.metadata)
    ensures ValidateMeritLayout(p.metadata, kind).None?
    ensures p.plan.objectSize == size && forall k :: 0 <= k < |p.plan.tiles| ==> p.plan.tiles[k].range.start <= p.plan.tiles[k].range.end
  {
    hide Planned, ValidateMeritLayout, FromBbox;
    var plan: seq<u32> :| PlanFor(p.metadata, kind, bbox, p.window, plan) && TilesIndexed(plan, p.plan.tiles);
    assert TileIndices(p.plan.tiles) == plan;
    PlannedWithin(p.metadata, p.window, plan);
  }

  lemma PlannedWithin(m: CogMetadata, w: RasterPixelWindow, plan: seq<u32>)
    requires Planned(m, w, plan)
    ensures w.Within(m)
  {
  }

  lemma ChunksServed(env: Platform, p: PreparedCogWindow, kind: RasterKind, bbox: Bbox, content: seq<byte>, raster: Raster,
                     chunks: seq<seq<byte>>)
    requires PreparedFor(p, kind, bbox, |content|) && StoresRaster(env, p.metadata, content, raster)
    requires CompressedValid(p.plan.tiles, |content|) && AllInside(TileChunks(p.plan.tiles), |content|)
    requires chunks == Slices(content, TileChunks(p.plan.tiles))
    requires forall k :: 0 <= k < |p.plan.tiles| ==>
               ResolvedFrom(p.metadata.tileOffsets, p.metadata.tileByteCounts, content, p.plan.tiles[k].index, p.plan.tiles[k])
    ensures RasterOf(p.metadata, raster)
    ensures ChunksHold(env, p.metadata, raster, TileIndices(p.plan.tiles), chunks)
  {
    hide Planned, StoresRaster, ChunkHolds, RasterOf, ResolvedFrom, PreparedFor;
    PreparedPlan(p, kind, bbox, |content|);
    StoredRasterOf(env, p.metadata, content, raster);
    var tiles := p.plan.tiles;
    forall k | 0 <= k < |tiles|
      ensures ChunkHolds(env, p.metadata, raster, TileIndices(tiles)[k], chunks[k])
    {
      hide HasTile;
      PlannedTile(p.metadata, p.window, TileIndices(tiles), k);
      MeritTileBytes(p.metadata, kind);
      assert ChunkValid(tiles[k].range, |content|);
      StoredChunkHolds(env, p.metadata, content, raster, tiles[k]);
    }
  }

  lemma StoredRasterOf(env: Platform, m: CogMetadata, content: seq<byte>, raster: Raster)
    requires StoresRaster(env, m, content, raster)
    ensures RasterOf(m, raster)
  {
  }

  lemma MeritTileBytes(m: CogMetadata, kind: RasterKind)
    requires ValidateMeritLayout(m, kind).None?
    ensures TileBytes(m) <= MAX_DECODED_CHUNK_BYTES && Supported(m.sampleType, m.predictor)
  {
  }

  // ---- From request to samples ---------------------------------------------------------------

  /** The content's own index lets every planned chunk through the ceilings. */
  ghost predicate ChunksFetchable(m: CogMetadata, content: seq<byte>, plan: seq<u32>) {
    && (forall i :: i in plan ==> ChunkFetchable(m, content, i))
    && ChunkSum(m.tileOffsets, m.tileByteCounts, content, plan) <= MAX_COVERED_CHUNK_BYTES
  }

  predicate ChunkFetchable(m: CogMetadata, content: seq<byte>, i: u32) {
    match ChunkOf(m.tileOffsets, m.tileByteCounts, content, i)
    case Ok((offset, count)) => ChunkValid(ByteRange(offset, offset + count), |content|)
    case Err(_) => false
  }

  lemma {:induction false} ResolvedTotal(m: CogMetadata, content: seq<byte>, plan: seq<u32>, tiles: seq<ResolvedTile>)
    requires AllResolved(m.tileOffsets, m.tileByteCounts, content, plan, tiles)
    ensures CompressedTotal(tiles) == ChunkSum(m.tileOffsets, m.tileByteCounts, content, plan)
  {
    if plan == [] {
    } else {
      hide ChunkOf;
      var n := |plan| - 1;
      assert AllResolved(m.tileOffsets, m.tileByteCounts, content, plan[..n], tiles[..n]);
      ResolvedTotal(m, content, plan[..n], tiles[..n]);
      assert ResolvedFrom(m.tileOffsets, m.tileByteCounts, content, plan[n], tiles[n]);
    }
  }

  /** The ceilings on resolved tiles are the ceilings on the content's index. */
  lemma FetchableIsValid(m: CogMetadata, content: seq<byte>, plan: seq<u32>, tiles: seq<ResolvedTile>)
    requires AllResolved(m.tileOffsets, m.tileByteCounts, content, plan, tiles)
    ensures CompressedValid(tiles, |content|) <==> ChunksFetchable(m, content, plan)
  {
    hide ChunkOf, ChunkSum, CompressedTotal, ChunkValid;
    ResolvedTotal(m, content, plan, tiles);
    forall k | 0 <= k < |plan|
      ensures ChunkValid(tiles[k].range, |content|) <==> ChunkFetchable(m, content, plan[k])
    {
      assert ResolvedFrom(m.tileOffsets, m.tileByteCounts, content, plan[k], tiles[k]);
    }
    if CompressedValid(tiles, |content|) {
      forall i | i in plan
        ensures ChunkFetchable(m, content, i)
      {
        var k :| 0 <= k < |plan| && plan[k] == i;
        assert ChunkValid(tiles[k].range, |content|);
      }
    }
    if ChunksFetchable(m, content, plan) {
      forall k | 0 <= k < |tiles|
        ensures ChunkValid(tiles[k].range, |content|)
      {
        assert plan[k] in plan;
      }
    }
  }

  /** The conditions under which a request for a window of a stored raster is answered. */
  ghost predicate Answerable(meta: Metadata, env: Platform, content: seq<byte>, kind: RasterKind, bbox: Bbox) {
    && Preparable(meta, content, kind, bbox)
    && var m := MetadataIn(meta, content).value;
       && WindowAllocated(env, m, FromBbox(m, bbox).value)
       && forall plan: seq<u32> :: PlanFor(m, kind, bbox, FromBbox(m, bbox).value, plan) ==> ChunksFetchable(m, content, plan)
  }

  /** The whole remote path.  For every store that serves a content storing a raster, a request is answered
      exactly when it is `Answerable`, and the answer is the window of the whole raster: what downloading,
      decoding and cropping everything would give.  The reported byte counts are the bytes requested. */
  method LocalizeWindow(store: ObjectStore, meta: Metadata, env: Platform, kind: RasterKind, bbox: Bbox,
                        ghost content: seq<byte>, ghost raster: Raster)
    returns (r: Result<LocalizedRasterWindow, CogError>)
    requires store.Serves(content)
    requires MetadataIn(meta, content).Ok? ==> StoresRaster(env, MetadataIn(meta, content).value, content, raster)
    modifies store`trace
    ensures r.Ok? <==> Answerable(meta, env, content, kind, bbox)
    ensures r.Ok? ==> WindowAnswer(meta, env, content, raster, bbox, r.value)
    ensures r.Ok? ==> old(store.trace) <= store.trace &&
                      r.value.headerBytes + r.value.tileBytes == TotalLength(Since(old(store.trace), store.trace))
    ensures Requested(old(store.trace), store.trace, store.size, 1_074_856_288)
  {
    assert LAYOUT_BYTES_CEILING + 16 * MAX_PLANNED_TILE_COUNT + MAX_COVERED_CHUNK_BYTES == 1_074_856_288;
    hide *;
    ghost var before := store.trace;
    ServedSize(store, content);
    var prepared := PrepareWindow(store, meta, kind, bbox, content);
    RequestedWeaken(before, store.trace, store.size, LAYOUT_BYTES_CEILING + 16 * MAX_PLANNED_TILE_COUNT,
                    LAYOUT_BYTES_CEILING + 16 * MAX_PLANNED_TILE_COUNT + MAX_COVERED_CHUNK_BYTES);
    if prepared.Err? {
      Unanswerable(meta, env, content, kind, bbox);
      return Err(prepared.error);
    }
    var p := prepared.value;
    ghost var mid := store.trace;
    PreparedStored(store, p, meta, env, content, raster);
    r := FetchWindow(store, env, p, kind, bbox, content, raster);
    AnswerableFrom(meta, env, content, kind, bbox, p, store.size);
    ChunkRequests(before, mid, store.trace, p.plan.tiles, store.size);
    if r.Ok? {
      AnswerFrom(meta, env, content, raster, kind, bbox, p, r.value);
    }
  }

  lemma ServedSize(store: ObjectStore, content: seq<byte>)
    requires store.Serves(content)
    ensures |content| == store.size
  {
  }

  /** The samples are those of the request's window of the raster. */
  ghost predicate WindowAnswer(meta: Metadata, env: Platform, content: seq<byte>, raster: Raster, bbox: Bbox,
                               answer: LocalizedRasterWindow)
  {
    && MetadataIn(meta, content).Ok?
    && var m := MetadataIn(meta, content).value;
       && FromBbox(m, bbox).Ok? && FromBbox(m, bbox).value.Within(m) && RasterOf(m, raster)
       && answer.samples == WindowOf(env, m, raster, FromBbox(m, bbox).value)
       && WindowSamples(env, m, raster, FromBbox(m, bbox).value, answer.samples)
       && PlacedBy(meta, content, m)
  }

  lemma Unanswerable(meta: Metadata, env: Platform, content: seq<byte>, kind: RasterKind, bbox: Bbox)
    requires !Preparable(meta, content, kind, bbox)
    ensures !Answerable(meta, env, content, kind, bbox)
  {
    hide Preparable;
  }

  lemma PreparedStored(store: ObjectStore, p: PreparedCogWindow, meta: Metadata, env: Platform, content: seq<byte>, raster: Raster)
    requires store.Serves(content) && PreparedFrom(p, meta, content)
    requires MetadataIn(meta, content).Ok? ==> StoresRaster(env, MetadataIn(meta, content).value, content, raster)
    ensures StoresPrepared(store, p, env, content, raster) && RasterOf(p.metadata, raster)
  {
    hide MetadataIn, ResolvedFrom, RasterOf;
  }

  lemma AnswerableFrom(meta: Metadata, env: Platform, content: seq<byte>, kind: RasterKind, bbox: Bbox, p: PreparedCogWindow, size: nat)
    requires Preparable(meta, content, kind, bbox) && PreparedFor(p, kind, bbox, size) && PreparedFrom(p, meta, content)
    requires |content| == size
    ensures Answerable(meta, env, content, kind, bbox) <==>
            CompressedValid(p.plan.tiles, size) && WindowAllocated(env, p.metadata, p.window)
  {
    hide Preparable, MetadataIn, WindowAllocated, CompressedValid, ChunksFetchable, ResolvedFrom, PlanFor;
    var plan: seq<u32> :| PlanFor(p.metadata, kind, bbox, p.window, plan) && TilesIndexed(plan, p.plan.tiles);
    PlanUnique(p.metadata, kind, bbox, p.window, plan);
    PlanWindowOf(p.metadata, kind, bbox, p.window, plan);
    assert AllResolved(p.metadata.tileOffsets, p.metadata.tileByteCounts, content, plan, p.plan.tiles);
    FetchableIsValid(p.metadata, content, plan, p.plan.tiles);
  }

  lemma ChunkRequests(before: seq<ByteRange>, mid: seq<ByteRange>, after: seq<ByteRange>, tiles: seq<ResolvedTile>, size: nat)
    requires Requested(before, mid, size, LAYOUT_BYTES_CEILING + 16 * MAX_PLANNED_TILE_COUNT)
    requires after == mid + (if CompressedValid(tiles, size) then TileChunks(tiles) else [])
    ensures Requested(before, after, size, LAYOUT_BYTES_CEILING + 16 * MAX_PLANNED_TILE_COUNT + MAX_COVERED_CHUNK_BYTES)
    ensures CompressedValid(tiles, size) ==>
              TotalLength(Since(before, after)) == TotalLength(Since(before, mid)) + CompressedTotal(tiles)
  {
    if CompressedValid(tiles, size) {
      TotalOfTiles(tiles);
      forall r | r in TileChunks(tiles)
        ensures r.Inside(size)
      {
        var k :| 0 <= k < |tiles| && TileChunks(tiles)[k] == r;
        assert ChunkValid(tiles[k].range, size);
      }
      RequestedMore(before, mid, TileChunks(tiles), size, LAYOUT_BYTES_CEILING + 16 * MAX_PLANNED_TILE_COUNT, MAX_COVERED_CHUNK_BYTES);
    } else {
      assert after == mid;
    }
  }

  lemma AnswerFrom(meta: Metadata, env: Platform, content: seq<byte>, raster: Raster, kind: RasterKind, bbox: Bbox,
                   p: PreparedCogWindow, answer: LocalizedRasterWindow)
    requires PreparedFor(p, kind, bbox, |content|) && PreparedFrom(p, meta, content) && RasterOf(p.metadata, raster)
    requires p.window.Within(p.metadata) && answer.samples == WindowOf(env, p.metadata, raster, p.window)
    ensures WindowAnswer(meta, env, content, raster, bbox, answer)
  {
    hide MetadataIn, WindowOf, RasterOf, PlanFor, ResolvedFrom, WindowSamples, PlacedBy;
    WindowOfSamples(env, p.metadata, raster, p.window);
    MetadataInPlaced(meta, content);
    var plan: seq<u32> :| PlanFor(p.metadata, kind, bbox, p.window, plan) && TilesIndexed(plan, p.plan.tiles);
    PlanWindowOf(p.metadata, kind, bbox, p.window, plan);
  }
}
