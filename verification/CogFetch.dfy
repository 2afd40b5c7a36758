/** Preparing and fetching a remote window, end to end. */
module CogFetch {
  import opened Arith
  import opened Bytes
  import opened Results
  import opened CogModel
  import opened CogWindow
  import opened CogStitch
  import opened CogDecode
  import opened CogIfd
  import opened CogStore
  import opened CogIndex

  /** Most bytes the directory part of preparation can request: header, entry count, entries, nodata text,
      and the two transform fields. */
  const LAYOUT_BYTES_CEILING: nat := DIRECTORY_BYTES_CEILING + MAX_REMOTE_ASCII_BYTES + 24 + 48

  const DIRECTORY_BYTES_CEILING: nat := 16 + 8 + MAX_REMOTE_IFD_ENTRY_BYTES

  datatype RemoteLayout = RemoteLayout(format: Format, metadata: CogMetadata, bytesRead: nat)
  {
    predicate Valid(size: nat) {
      && metadata.width > 0 && metadata.height > 0
      && DescriptorValid(format, metadata.tileOffsets, size) && DescriptorValid(format, metadata.tileByteCounts, size)
    }
  }

  // ---- The directory of a fully downloaded content -------------------------------------

  function NodataText(env: Metadata, source: AsciiSource, fetched: seq<byte>): Result<Option<string>, CogError> {
    match source
    case Absent => Ok(None)
    case Inline(bytes) =>
      var text := env.ascii(bytes);
      if text.None? then Err(BadTag(42_113)) else Ok(text)
    case Remote(_) =>
      var text := env.ascii(fetched);
      if text.None? then Err(BadTag(42_113)) else Ok(text)
  }

  /** The fields of the directory, read from the whole content. */
  function DirectoryOf(content: seq<byte>): (r: Result<Fields, CogError>)
    ensures r.Ok? ==> r.value.Valid(|content|)
  {
    var size := |content|;
    var headerRange :- CheckedRange(0, 16, size);
    var header :- ParseHeader(Slice(content, headerRange));
    var countRange :- CheckedRange(header.1, header.0.CountWidth(), size);
    var entryCount := ParseCount(header.0, Slice(content, countRange));
    var entriesRange :- EntriesRange(header.0, countRange.end, entryCount, size);
    var entries :- ParseEntries(header.0, Slice(content, entriesRange));
    FieldsOf(header.0, entries, size)
  }

  /** The metadata of a content, read with the whole content at hand. */
  function MetadataIn(env: Metadata, content: seq<byte>): Result<CogMetadata, CogError> {
    var fields :- DirectoryOf(content);
    var nodata :- NodataText(env, fields.nodata,
                             if fields.nodata.Remote? then Slice(content, fields.nodata.range) else []);
    MetadataOf(env, fields, nodata, Slice(content, fields.scaleRange), Slice(content, fields.tiepointRange))
  }

  /** The content's own transform fields place the raster. */
  predicate PlacedBy(env: Metadata, content: seq<byte>, m: CogMetadata) {
    DirectoryOf(content).Ok? &&
    var fields := DirectoryOf(content).value;
    Georeferenced(env, m, Slice(content, fields.scaleRange), Slice(content, fields.tiepointRange))
  }

  lemma MetadataInPlaced(env: Metadata, content: seq<byte>)
    ensures MetadataIn(env, content).Ok? ==> PlacedBy(env, content, MetadataIn(env, content).value)
  {
    hide DirectoryOf, NodataText, MetadataOf, Georeferenced;
    if DirectoryOf(content).Ok? {
      var fields := DirectoryOf(content).value;
      var text := NodataText(env, fields.nodata, if fields.nodata.Remote? then Slice(content, fields.nodata.range) else []);
      if text.Ok? {
        MetadataPlaced(env, fields, text.value, Slice(content, fields.scaleRange), Slice(content, fields.tiepointRange));
      }
    }
  }

  // ---- Reading the directory remotely -----------------------------------------------------

  /** What a method has requested since the transcript was `before`. */
  ghost predicate Requested(before: seq<ByteRange>, after: seq<ByteRange>, size: nat, ceiling: nat) {
    && before <= after
    && AllInside(after[|before|..], size)
    && TotalLength(after[|before|..]) <= ceiling
  }

  ghost function Since(before: seq<ByteRange>, after: seq<ByteRange>): seq<ByteRange>
    requires before <= after
  {
    after[|before|..]
  }

  lemma RequestedMore(before: seq<ByteRange>, mid: seq<ByteRange>, more: seq<ByteRange>, size: nat, ceiling: nat, extra: nat)
    requires Requested(before, mid, size, ceiling) && AllInside(more, size) && TotalLength(more) <= extra
    ensures Requested(before, mid + more, size, ceiling + extra)
    ensures TotalLength(Since(before, mid + more)) == TotalLength(Since(before, mid)) + TotalLength(more)
  {
    assert Since(before, mid + more) == Since(before, mid) + more;
    TotalLengthConcat(Since(before, mid), more);
  }

  lemma NothingRequested(before: seq<ByteRange>, size: nat)
    ensures Requested(before, before, size, 0) && TotalLength(Since(before, before)) == 0
  {
    assert Since(before, before) == [];
  }

  /** One checked request whose reply must have the requested length. */
  method FetchExact(store: ObjectStore, range: ByteRange, ghost before: seq<ByteRange>, ghost ceiling: nat)
    returns (r: Result<seq<byte>, CogError>)
    requires range.Inside(store.size) && Requested(before, store.trace, store.size, ceiling)
    modifies store`trace
    ensures store.trace == old(store.trace) + [range]
    ensures Requested(before, store.trace, store.size, ceiling + range.Length())
    ensures TotalLength(Since(before, store.trace)) == TotalLength(Since(before, old(store.trace))) + range.Length()
    ensures r.Ok? ==> |r.value| == range.Length()
    ensures forall content: seq<byte> :: store.Serves(content) ==> r == Ok(Slice(content, range))
  {
    var reply := store.GetRange(range);
    assert [range][..0] == [] && TotalLength([range]) == range.Length();
    RequestedMore(before, old(store.trace), [range], store.size, ceiling, range.Length());
    if reply.None? {
      return Err(StoreFailure);
    }
    if |reply.value| != range.Length() {
      return Err(BadResponse(0));
    }
    return Ok(reply.value);
  }

  /** Parse the directory's entries chunk by chunk. */
  method ReadEntries(f: Format, bs: seq<byte>) returns (r: Result<seq<IfdEntry>, CogError>)
    ensures r == ParseEntries(f, bs)
  {
    hide ParseEntry;
    var entries: seq<IfdEntry> := [];
    var rest := bs;
    assert forall tail: seq<IfdEntry> :: [] + tail == tail;
    while |rest| >= f.EntryWidth()
      invariant ParseEntries(f, bs) == match ParseEntries(f, rest)
                                       case Ok(tail) => Ok(entries + tail)
                                       case Err(e) => Err(e)
    {
      var entry := ParseEntry(f, rest[..f.EntryWidth()]);
      if entry.Err? {
        return Err(entry.error);
      }
      assert forall tail: seq<IfdEntry> :: entries + ([entry.value] + tail) == entries + [entry.value] + tail;
      entries := entries + [entry.value];
      rest := rest[f.EntryWidth()..];
    }
    assert entries + [] == entries;
    return Ok(entries);
  }

  /** Read the directory of the remote content: at most three bounded requests. */
  method ReadDirectory(store: ObjectStore, ghost before: seq<ByteRange>) returns (r: Result<(Fields, nat), CogError>)
    requires before == store.trace
    modifies store`trace
    ensures old(store.trace) <= store.trace && |store.trace| <= |old(store.trace)| + 3
    ensures Requested(before, store.trace, store.size, DIRECTORY_BYTES_CEILING)
    ensures r.Ok? ==> r.value.0.Valid(store.size) && r.value.1 == TotalLength(Since(before, store.trace))
    ensures forall content: seq<byte> :: store.Serves(content) ==> DirectoryAgrees(r, DirectoryOf(content))
  {
    hide ParseEntries, FieldsOf, ParseHeader, ParseCount, Requested;
    NothingRequested(before, store.size);
    RequestedWeaken(before, store.trace, store.size, 0, DIRECTORY_BYTES_CEILING);
    var headerRange := CheckedRange(0, 16, store.size);
    if headerRange.Err? {
      return Err(headerRange.error);
    }
    var headerBytes := FetchExact(store, headerRange.value, before, 0);
    RequestedWeaken(before, store.trace, store.size, 16, DIRECTORY_BYTES_CEILING);
    if headerBytes.Err? {
      return Err(headerBytes.error);
    }
    var header := ParseHeader(headerBytes.value);
    if header.Err? {
      return Err(header.error);
    }
    var (format, ifdOffset) := header.value;
    var countRange := CheckedRange(ifdOffset, format.CountWidth(), store.size);
    if countRange.Err? {
      return Err(countRange.error);
    }
    var countBytes := FetchExact(store, countRange.value, before, 16);
    RequestedWeaken(before, store.trace, store.size, 16 + format.CountWidth(), DIRECTORY_BYTES_CEILING);
    if countBytes.Err? {
      return Err(countBytes.error);
    }
    var entryCount := ParseCount(format, countBytes.value);
    var entriesRange := EntriesRange(format, countRange.value.end, entryCount, store.size);
    if entriesRange.Err? {
      return Err(entriesRange.error);
    }
    var entryBytes := FetchExact(store, entriesRange.value, before, 16 + format.CountWidth());
    RequestedWeaken(before, store.trace, store.size, 16 + format.CountWidth() + entriesRange.value.Length(),
                    DIRECTORY_BYTES_CEILING);
    if entryBytes.Err? {
      return Err(entryBytes.error);
    }
    var entries := ReadEntries(format, entryBytes.value);
    if entries.Err? {
      return Err(entries.error);
    }
    FieldsValid(format, entries.value, store.size);
    var fields := FieldsOf(format, entries.value, store.size);
    if fields.Err? {
      return Err(fields.error);
    }
    return Ok((fields.value, |headerBytes.value| + |countBytes.value| + |entryBytes.value|));
  }

  predicate DirectoryAgrees(r: Result<(Fields, nat), CogError>, spec: Result<Fields, CogError>) {
    match spec
    case Ok(fields) => r.Ok? && r.value.0 == fields
    case Err(e) => r == Err(e)
  }

  lemma FieldsValid(f: Format, entries: seq<IfdEntry>, size: nat)
    ensures FieldsOf(f, entries, size).Ok? ==> FieldsOf(f, entries, size).value.Valid(size)
  {
  }

  lemma RequestedWeaken(before: seq<ByteRange>, after: seq<ByteRange>, size: nat, ceiling: nat, more: nat)
    requires Requested(before, after, size, ceiling) && ceiling <= more
    ensures Requested(before, after, size, more)
  {
  }

  datatype Located = Located(text: Option<string>, scale: seq<byte>, tiepoint: seq<byte>, bytesRead: nat)

  /** Fetch the nodata text and the two transform fields: at most three more bounded requests. */
  method FetchValues(store: ObjectStore, env: Metadata, fields: Fields, ghost before: seq<ByteRange>)
    returns (r: Result<Located, CogError>)
    requires fields.Valid(store.size) && Requested(before, store.trace, store.size, DIRECTORY_BYTES_CEILING)
    modifies store`trace
    ensures r.Ok? ==> store.trace == old(store.trace) + (if fields.nodata.Remote? then [fields.nodata.range] else [])
                                     + [fields.scaleRange, fields.tiepointRange]
    ensures old(store.trace) <= store.trace && |store.trace| <= |old(store.trace)| + 3
    ensures Requested(before, store.trace, store.size, LAYOUT_BYTES_CEILING)
    ensures r.Ok? && |r.value.scale| == 24 && |r.value.tiepoint| == 48 ==>
              TotalLength(Since(before, store.trace)) == TotalLength(Since(before, old(store.trace))) + r.value.bytesRead
    ensures forall content: seq<byte> :: store.Serves(content) ==>
              match NodataText(env, fields.nodata, if fields.nodata.Remote? then Slice(content, fields.nodata.range) else [])
              case Err(e) => r == Err(e)
              case Ok(text) => r.Ok? && r.value.text == text && r.value.scale == Slice(content, fields.scaleRange) &&
                               r.value.tiepoint == Slice(content, fields.tiepointRange)
  {
    hide Requested, Since;
    var fetched: seq<byte> := [];
    RequestedWeaken(before, store.trace, store.size, DIRECTORY_BYTES_CEILING, LAYOUT_BYTES_CEILING);
    var asciiBytes := 0;
    if fields.nodata.Remote? {
      var reply := FetchExact(store, fields.nodata.range, before, DIRECTORY_BYTES_CEILING);
      RequestedWeaken(before, store.trace, store.size, DIRECTORY_BYTES_CEILING + fields.nodata.range.Length(), LAYOUT_BYTES_CEILING);
      if reply.Err? {
        return Err(reply.error);
      }
      fetched := reply.value;
      asciiBytes := |fetched|;
    }
    RequestedWeaken(before, store.trace, store.size, DIRECTORY_BYTES_CEILING + asciiBytes,
                    DIRECTORY_BYTES_CEILING + MAX_REMOTE_ASCII_BYTES);
    var text := NodataText(env, fields.nodata, fetched);
    if text.Err? {
      return Err(text.error);
    }
    ghost var mid := store.trace;
    var ranges := [fields.scaleRange, fields.tiepointRange];
    TwoRanges(ranges);
    var values := store.GetRanges(ranges);
    RequestedMore(before, mid, ranges, store.size, DIRECTORY_BYTES_CEILING + MAX_REMOTE_ASCII_BYTES, 72);
    if values.None? {
      return Err(StoreFailure);
    }
    if |values.value| != 2 {
      return Err(BadResponse(2));
    }
    return Ok(Located(text.value, values.value[0], values.value[1], asciiBytes + |values.value[0]| + |values.value[1]|));
  }

  lemma TwoRanges(ranges: seq<ByteRange>)
    requires |ranges| == 2
    ensures TotalLength(ranges) == ranges[0].Length() + ranges[1].Length()
  {
    assert ranges[..1][..0] == [] && ranges[..1][0] == ranges[0];
    assert TotalLength(ranges[..1]) == TotalLength([]) + ranges[0].Length();
  }

  /** Read the layout of a remote COG.  Whatever the store answers, every requested range is inside the
      content, the total is bounded by a constant, and a success reports exactly the bytes requested.  When
      the store serves a content, the answer is the one a full download would give. */
  method ReadRemoteLayout(store: ObjectStore, env: Metadata, ghost before: seq<ByteRange>)
    returns (r: Result<RemoteLayout, CogError>)
    requires before == store.trace
    modifies store`trace
    ensures old(store.trace) <= store.trace && |store.trace| <= |old(store.trace)| + 6
    ensures Requested(before, store.trace, store.size, LAYOUT_BYTES_CEILING)
    ensures r.Ok? ==> r.value.Valid(store.size) && r.value.bytesRead == TotalLength(Since(before, store.trace))
    ensures forall content: seq<byte> :: store.Serves(content) ==> LayoutAgrees(r, MetadataIn(env, content))
    ensures forall content: seq<byte> :: store.Serves(content) && r.Ok? ==> PlacedBy(env, content, r.value.metadata)
  {
    hide Requested, Since, DirectoryOf, NodataText, PlacedBy;
    forall content: seq<byte> | MetadataIn(env, content).Ok?
      ensures PlacedBy(env, content, MetadataIn(env, content).value)
    {
      MetadataInPlaced(env, content);
    }
    var directory := ReadDirectory(store, before);
    RequestedWeaken(before, store.trace, store.size, DIRECTORY_BYTES_CEILING, LAYOUT_BYTES_CEILING);
    if directory.Err? {
      return Err(directory.error);
    }
    var (fields, directoryBytes) := directory.value;
    var values := FetchValues(store, env, fields, before);
    if values.Err? {
      return Err(values.error);
    }
    var v := values.value;
    var metadata := MetadataOf(env, fields, v.text, v.scale, v.tiepoint);
    if metadata.Err? {
      return Err(metadata.error);
    }
    return Ok(RemoteLayout(fields.format, metadata.value, directoryBytes + v.bytesRead));
  }

  predicate LayoutAgrees(r: Result<RemoteLayout, CogError>, spec: Result<CogMetadata, CogError>) {
    match spec
    case Ok(m) => r.Ok? && r.value.metadata == m
    case Err(e) => r == Err(e)
  }

  // ---- Preparing a window ------------------------------------------------------------------

  function ExpectedTiles(m: CogMetadata): nat
    requires m.Tiled()
  {
    RowMajor(m.TilesDown(), m.TilesAcross(), 0)
  }

  /** A layout this reader materializes: deflated square tiles with one index entry each, samples of the kind the
      raster calls for, and no predictor or the one of that sample type. */
  predicate Materializable(m: CogMetadata, kind: RasterKind) {
    && m.tileWidth == m.tileHeight == 512
    && m.tileOffsets.count == m.tileByteCounts.count == ExpectedTiles(m)
    && m.sampleType in (match kind case FlowDir => {U8, I8} case FlowAcc => {F32, I32})
    && m.compression in {8, 32946}
    && m.predictor in (if m.sampleType.F32? then {1, 3} else {1, 2})
  }

  /** Why a layout is not one this reader materializes, if it is not. */
  function ValidateMeritLayout(m: CogMetadata, kind: RasterKind): (e: Option<CogError>)
    ensures e.None? <==> Materializable(m, kind)
    ensures e.None? ==> Supported(m.sampleType, m.predictor)
  {
    if m.tileWidth != 512 || m.tileHeight != 512 then Some(UnsupportedLayout)
    else if m.tileOffsets.count != ExpectedTiles(m) || m.tileByteCounts.count != ExpectedTiles(m) then Some(UnsupportedLayout)
    else if (SampleWidth(m.sampleType) == 1) != kind.FlowDir? then Some(UnsupportedLayout)
    else if m.compression != 8 && m.compression != 32946 then Some(UnsupportedLayout)
    else if !Supported(m.sampleType, m.predictor) then Some(UnsupportedLayout)
    else None
  }

  datatype PreparedCogWindow = PreparedCogWindow(
    metadata: CogMetadata, window: RasterPixelWindow, plan: ResolvedTilePlan, headerBytes: nat)

  /** The window and tile plan of a request, once the metadata is known. */
  method PlanWindow(m: CogMetadata, kind: RasterKind, bbox: Bbox) returns (r: Result<(RasterPixelWindow, seq<u32>), CogError>)
    requires m.width > 0 && m.height > 0
    ensures r.Ok? ==> PlanFor(m, kind, bbox, r.value.0, r.value.1)
    ensures r.Ok? <==> WindowPlannable(m, kind, bbox)
  {
    var e := ValidateMeritLayout(m, kind);
    if e.Some? {
      return Err(e.value);
    }
    var window := FromBbox(m, bbox);
    if window.Err? {
      return Err(window.error);
    }
    FromBboxExact(m, bbox);
    var plan := ForWindow(m, window.value);
    if plan.Err? {
      return Err(plan.error);
    }
    return Ok((window.value, plan.value));
  }

  /** The request's plan: a supported layout, the window of the box, and exactly its tiles. */
  predicate PlanFor(m: CogMetadata, kind: RasterKind, bbox: Bbox, w: RasterPixelWindow, plan: seq<u32>) {
    && ValidateMeritLayout(m, kind).None?
    && FromBbox(m, bbox) == Ok(w)
    && Planned(m, w, plan) && |plan| <= MAX_PLANNED_TILE_COUNT
  }

  /** The conditions under which a request can be planned. */
  predicate WindowPlannable(m: CogMetadata, kind: RasterKind, bbox: Bbox) {
    && ValidateMeritLayout(m, kind).None?
    && FromBbox(m, bbox).Ok?
    && FromBbox(m, bbox).value.Within(m)
    && WindowBlock(m, FromBbox(m, bbox).value).Count() <= MAX_PLANNED_TILE_COUNT
    && WindowBlock(m, FromBbox(m, bbox).value).LastIndex() < U32_LIMIT
  }

  /** A planned tile's index entries are reachable exactly when neither field is a multi-valued inline one. */
  lemma PlanReachable(f: Format, m: CogMetadata, w: RasterPixelWindow, plan: seq<u32>, size: nat)
    requires DescriptorValid(f, m.tileOffsets, size) && DescriptorValid(f, m.tileByteCounts, size) && size < U64_LIMIT
    requires Planned(m, w, plan)
    requires m.tileOffsets.count == ExpectedTiles(m) && m.tileByteCounts.count == ExpectedTiles(m)
    ensures AllReachable(m.tileOffsets, m.tileByteCounts, plan, size) <==> ScalarInline(m.tileOffsets) && ScalarInline(m.tileByteCounts)
  {
    PlanExact(m, w);
    var block := WindowBlock(m, w).Indices();
    assert plan[0] in block && plan[0] in plan;
    forall i | i in plan
      ensures i < m.tileOffsets.count
      ensures EntryReachable(m.tileOffsets, i, size) <==> ScalarInline(m.tileOffsets)
      ensures EntryReachable(m.tileByteCounts, i, size) <==> ScalarInline(m.tileByteCounts)
    {
      assert i in block;
      Reachable(f, m.tileOffsets, i, size);
      Reachable(f, m.tileByteCounts, i, size);
    }
  }

  predicate ScalarInline(d: IndexDescriptor) {
    d.storage.InlineScalar? ==> d.count == 1
  }

  lemma Reachable(f: Format, d: IndexDescriptor, i: u32, size: nat)
    requires DescriptorValid(f, d, size) && i < d.count && size < U64_LIMIT
    ensures EntryReachable(d, i, size) <==> ScalarInline(d)
  {
    RowMajorBound(i, d.elementWidth - 1, d.elementWidth, d.count);
  }

  /** The conditions under which a window of a content can be prepared. */
  ghost predicate Preparable(env: Metadata, content: seq<byte>, kind: RasterKind, bbox: Bbox) {
    && MetadataIn(env, content).Ok?
    && var m := MetadataIn(env, content).value;
       && WindowPlannable(m, kind, bbox)
       && ScalarInline(m.tileOffsets) && ScalarInline(m.tileByteCounts)
       && forall plan: seq<u32> :: PlanFor(m, kind, bbox, FromBbox(m, bbox).value, plan) ==>
            ChunksSummable(m.tileOffsets, m.tileByteCounts, content, plan)
  }

  /** Prepare a window.  Whatever the store answers, every requested range is inside the content, and a
      success reports exactly the bytes requested: a layout part below a constant, plus a fixed cost per
      covered tile, whatever the number of tiles in the raster.  When the store serves a content,
      preparation succeeds exactly under `Preparable`, and the plan is the content's own. */
  method PrepareWindow(store: ObjectStore, env: Metadata, kind: RasterKind, bbox: Bbox, ghost content: seq<byte>)
    returns (r: Result<PreparedCogWindow, CogError>)
    modifies store`trace
    ensures Requested(old(store.trace), store.trace, store.size, LAYOUT_BYTES_CEILING + 16 * MAX_PLANNED_TILE_COUNT)
    ensures r.Ok? ==> r.value.headerBytes == TotalLength(Since(old(store.trace), store.trace))
    ensures r.Ok? ==>
              r.value.headerBytes <= LAYOUT_BYTES_CEILING
                                     + |r.value.plan.tiles| * EntryCost(r.value.metadata.tileOffsets, r.value.metadata.tileByteCounts)
    ensures r.Ok? ==> PreparedFor(r.value, kind, bbox, store.size)
    ensures store.Serves(content) ==> (r.Ok? <==> Preparable(env, content, kind, bbox))
    ensures store.Serves(content) && r.Ok? ==> PreparedFrom(r.value, env, content)
  {
    hide *;
    ghost var before := store.trace;
    var layout := ReadRemoteLayout(store, env, before);
    RequestedWeaken(before, store.trace, store.size, LAYOUT_BYTES_CEILING, LAYOUT_BYTES_CEILING + 16 * MAX_PLANNED_TILE_COUNT);
    if layout.Err? {
      NotPreparable(env, content, kind, bbox, layout, store.Serves(content));
      return Err(layout.error);
    }
    LayoutServed(env, content, layout.value, store.Serves(content), store.size);
    var m := layout.value.metadata;
    var planned := PlanWindow(m, kind, bbox);
    if planned.Err? {
      Unplannable(env, content, kind, bbox, m, store.Serves(content));
      return Err(planned.error);
    }
    var (window, plan) := planned.value;
    PlannableServed(env, content, kind, bbox, m, window, plan, store.Serves(content));
    r := ResolvePrepared(store, layout.value, kind, bbox, window, plan, before, content);
    if r.Ok? {
      PreparedStep(env, content, kind, bbox, layout.value.metadata, window, plan, r.value, store.size, store.Serves(content));
    }
  }

  lemma LayoutServed(env: Metadata, content: seq<byte>, layout: RemoteLayout, served: bool, size: nat)
    requires layout.Valid(size)
    requires served ==> LayoutAgrees(Ok(layout), MetadataIn(env, content))
    ensures served ==> MetadataIn(env, content) == Ok(layout.metadata)
    ensures layout.metadata.width > 0 && layout.metadata.height > 0
  {
    hide MetadataIn;
  }

  lemma NotPreparable(env: Metadata, content: seq<byte>, kind: RasterKind, bbox: Bbox, r: Result<RemoteLayout, CogError>, served: bool)
    requires r.Err? && (served ==> LayoutAgrees(r, MetadataIn(env, content)))
    ensures served ==> !Preparable(env, content, kind, bbox)
  {
    hide MetadataIn;
  }

  lemma Unplannable(env: Metadata, content: seq<byte>, kind: RasterKind, bbox: Bbox, m: CogMetadata, served: bool)
    requires !WindowPlannable(m, kind, bbox) && (served ==> MetadataIn(env, content) == Ok(m))
    ensures served ==> !Preparable(env, content, kind, bbox)
  {
    hide MetadataIn, WindowPlannable;
  }

  /** With the plan at hand, preparation can go on exactly when the index entries are readable and summable. */
  lemma PlannableServed(env: Metadata, content: seq<byte>, kind: RasterKind, bbox: Bbox, m: CogMetadata, w: RasterPixelWindow,
                        plan: seq<u32>, served: bool)
    requires PlanFor(m, kind, bbox, w, plan) && WindowPlannable(m, kind, bbox)
    requires served ==> MetadataIn(env, content) == Ok(m)
    ensures served ==>
              (Preparable(env, content, kind, bbox) <==>
               ScalarInline(m.tileOffsets) && ScalarInline(m.tileByteCounts) &&
               ChunksSummable(m.tileOffsets, m.tileByteCounts, content, plan))
  {
    PlanUnique(m, kind, bbox, w, plan);
    PlanWindowOf(m, kind, bbox, w, plan);
    hide MetadataIn, WindowPlannable, PlanFor, ChunksSummable;
  }

  lemma PreparedStep(env: Metadata, content: seq<byte>, kind: RasterKind, bbox: Bbox, m: CogMetadata, w: RasterPixelWindow,
                     plan: seq<u32>, p: PreparedCogWindow, size: nat, served: bool)
    requires PlanFor(m, kind, bbox, w, plan) && p.metadata == m && p.window == w && TilesIndexed(plan, p.plan.tiles)
    requires p.plan.objectSize == size && p.plan.compressedBytes == CompressedTotal(p.plan.tiles)
    requires served ==> MetadataIn(env, content) == Ok(m)
    requires served ==> AllResolved(m.tileOffsets, m.tileByteCounts, content, plan, p.plan.tiles)
    ensures |p.plan.tiles| == |plan|
    ensures PreparedFor(p, kind, bbox, size)
    ensures served ==> PreparedFrom(p, env, content)
  {
    hide MetadataIn, PlanFor, ResolvedFrom;
  }

  lemma PlanWindowOf(m: CogMetadata, kind: RasterKind, bbox: Bbox, w: RasterPixelWindow, plan: seq<u32>)
    requires PlanFor(m, kind, bbox, w, plan)
    ensures FromBbox(m, bbox) == Ok(w)
  {
  }

  /** The index half of preparation. */
  method ResolvePrepared(store: ObjectStore, layout: RemoteLayout, kind: RasterKind, bbox: Bbox, window: RasterPixelWindow,
                         plan: seq<u32>, ghost before: seq<ByteRange>, ghost content: seq<byte>)
    returns (r: Result<PreparedCogWindow, CogError>)
    requires layout.Valid(store.size) && PlanFor(layout.metadata, kind, bbox, window, plan)
    requires Requested(before, store.trace, store.size, LAYOUT_BYTES_CEILING)
    requires layout.bytesRead == TotalLength(Since(before, store.trace))
    modifies store`trace
    ensures Requested(before, store.trace, store.size, LAYOUT_BYTES_CEILING + 16 * MAX_PLANNED_TILE_COUNT)
    ensures r.Ok? ==> r.value.metadata == layout.metadata && r.value.window == window && TilesIndexed(plan, r.value.plan.tiles)
    ensures r.Ok? ==> r.value.plan.objectSize == store.size && r.value.plan.compressedBytes == CompressedTotal(r.value.plan.tiles)
    ensures r.Ok? ==> r.value.headerBytes == TotalLength(Since(before, store.trace))
    ensures r.Ok? ==> r.value.headerBytes
                      <= LAYOUT_BYTES_CEILING + |plan| * EntryCost(layout.metadata.tileOffsets, layout.metadata.tileByteCounts)
    ensures store.Serves(content) ==>
              (r.Ok? <==> ScalarInline(layout.metadata.tileOffsets) && ScalarInline(layout.metadata.tileByteCounts) &&
                          ChunksSummable(layout.metadata.tileOffsets, layout.metadata.tileByteCounts, content, plan))
    ensures store.Serves(content) && r.Ok? ==>
              AllResolved(layout.metadata.tileOffsets, layout.metadata.tileByteCounts, content, plan, r.value.plan.tiles)
  {
    hide Planned, FromBbox, ValidateMeritLayout, EntryCost, ChunksSummable, AllResolved, PlanRanges, AllReachable;
    var m := layout.metadata;
    PlanOf(m, kind, bbox, window, plan);
    PlanReachable(layout.format, m, window, plan, store.size);
    ghost var mid := store.trace;
    var resolved := ResolvePlan(store, m.tileOffsets, m.tileByteCounts, plan, content);
    IndexRequests(before, mid, store.trace, m, plan, store.size);
    if resolved.Err? {
      return Err(resolved.error);
    }
    var (tilePlan, indexBytes) := resolved.value;
    PlanRangesCost(m.tileOffsets, m.tileByteCounts, plan, store.size);
    return Ok(PreparedCogWindow(m, window, tilePlan, layout.bytesRead + indexBytes));
  }

  lemma PlanOf(m: CogMetadata, kind: RasterKind, bbox: Bbox, w: RasterPixelWindow, plan: seq<u32>)
    requires PlanFor(m, kind, bbox, w, plan)
    ensures Planned(m, w, plan) && |plan| <= MAX_PLANNED_TILE_COUNT
    ensures m.Tiled() && m.tileOffsets.count == ExpectedTiles(m) && m.tileByteCounts.count == ExpectedTiles(m)
  {
  }

  /** What the index requests add to the transcript. */
  lemma IndexRequests(before: seq<ByteRange>, mid: seq<ByteRange>, after: seq<ByteRange>, m: CogMetadata, plan: seq<u32>, size: nat)
    requires Requested(before, mid, size, LAYOUT_BYTES_CEILING) && |plan| <= MAX_PLANNED_TILE_COUNT
    requires Typed(m.tileOffsets) && Typed(m.tileByteCounts)
    requires after == mid + (if AllReachable(m.tileOffsets, m.tileByteCounts, plan, size)
                             then PlanRanges(m.tileOffsets, m.tileByteCounts, plan, size) else [])
    ensures Requested(before, after, size, LAYOUT_BYTES_CEILING + 16 * MAX_PLANNED_TILE_COUNT)
    ensures AllReachable(m.tileOffsets, m.tileByteCounts, plan, size) ==>
              TotalLength(Since(before, after)) == TotalLength(Since(before, mid)) + |plan| * EntryCost(m.tileOffsets, m.tileByteCounts)
  {
    if AllReachable(m.tileOffsets, m.tileByteCounts, plan, size) {
      var cost := EntryCost(m.tileOffsets, m.tileByteCounts);
      PlanRangesCost(m.tileOffsets, m.tileByteCounts, plan, size);
      CostCeiling(|plan|, cost);
      RequestedMore(before, mid, PlanRanges(m.tileOffsets, m.tileByteCounts, plan, size), size, LAYOUT_BYTES_CEILING,
                    16 * MAX_PLANNED_TILE_COUNT);
    } else {
      assert after == mid;
      RequestedWeaken(before, mid, size, LAYOUT_BYTES_CEILING, LAYOUT_BYTES_CEILING + 16 * MAX_PLANNED_TILE_COUNT);
    }
  }

  lemma CostCeiling(n: nat, cost: nat)
    requires n <= MAX_PLANNED_TILE_COUNT && cost <= 16
    ensures n * cost <= 16 * MAX_PLANNED_TILE_COUNT
  {
    MulMono(n, MAX_PLANNED_TILE_COUNT, cost);
  }

  lemma PlanUnique(m: CogMetadata, kind: RasterKind, bbox: Bbox, w: RasterPixelWindow, plan: seq<u32>)
    requires PlanFor(m, kind, bbox, w, plan)
    ensures forall other: seq<u32> :: PlanFor(m, kind, bbox, w, other) ==> other == plan
  {
  }

  /** The prepared window is the plan of its request, resolved inside the content. */
  ghost predicate PreparedFor(p: PreparedCogWindow, kind: RasterKind, bbox: Bbox, size: nat) {
    && p.plan.objectSize == size
    && p.plan.compressedBytes == CompressedTotal(p.plan.tiles)
    && exists plan: seq<u32> :: PlanFor(p.metadata, kind, bbox, p.window, plan) && TilesIndexed(plan, p.plan.tiles)
  }

  /** The prepared window describes this content. */
  ghost predicate PreparedFrom(p: PreparedCogWindow, env: Metadata, content: seq<byte>) {
    && MetadataIn(env, content) == Ok(p.metadata)
    && forall k :: 0 <= k < |p.plan.tiles| ==>
         ResolvedFrom(p.metadata.tileOffsets, p.metadata.tileByteCounts, content, p.plan.tiles[k].index, p.plan.tiles[k])
  }
}
