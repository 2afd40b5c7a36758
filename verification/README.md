# pourpoint: verified model

pourpoint delineates watersheds from remote hydrography. This project models the parts of it whose correctness rests
on arithmetic, byte layouts or interleavings, and proves what each part is for.

**Windowed COG reading** (`Cog*.dfy`, from `crates/core/src/cog.rs`). A remote tiled TIFF is never downloaded whole:
the reader parses one image directory under fixed ceilings, turns a bounding box into a pixel window, plans the
covering tiles, fetches only those tiles' index entries and chunks, undoes the TIFF 6.0 section 14 and Technical
Note 3 predictors in place, clips edge tiles and stitches one buffer. The main theorem,
`CogLocalize.LocalizeWindow`, says that for every store that serves a content storing a raster, a request is
answered exactly when its stated conditions hold, the samples are the window of the whole raster, and the reported
byte counts are the bytes requested. Under it lie the plan (exactly the tiles meeting the window), the stitch (each
cell once, nothing of the prefill left), the predictors (inverse to their encoders), the lazy tile index (equal to
the materialized arrays) and the request trace (inside the object, bounded whatever the raster's size). `CogWriter`
and `CogObject` are a writer to measure the reader against, from tiles up to whole files:
`CogObject.LocalizeWritten` writes any raster, serves the file and reads a window of it back. `CogModel`, `CogIfd`,
`CogStore` hold the entities, the directory format and the object store, whose replies may be anything.

**Canonical WKB** (`Wkb*.dfy`, `LexOrder.dfy`, from `scripts/released_wheel_proof.py`). The reader of clause 8 of
OGC 06-103r4, ring normalization, the sort keys and the writer, at byte level. The reader accepts exactly the
encodings of that clause (`WkbReader`); the output has the stated orientation, start points and order (`WkbForm`).
Canonicalization gives one result exactly for the presentations of one geometry, and is idempotent with one
exception that is stated exactly. Both hold for every accepted input. Coordinates are 64-bit patterns; the one
hypothesis, `WkbBinary64.Binary64`, is what IEEE 754 binary64 is: which multiples of which power of two are values,
and that arithmetic rounds to a nearest one. `WkbBinary64` derives from it that every quantized coordinate survives
being written and read, at every magnitude; `WkbTheorems` states the results.

**The localized TIFF** (`TiffRead`, `TiffFields`, `TiffWrite`, `TiffRoundTrip`, `TiffExact`). The decoder for both
byte orders and both TIFF flavours, which files it accepts and what it makes of them, a writer of windows with any
scale and tie point, the fixture writer, and the round trip at byte level in all four layouts.

**Evidence** (`JsonDiff`, `JsonRecovery`, `JsonOrder`, `CandidateSearch`, `Proxy`, `ProxyExact`, `Decimal`,
`OrderedKeys`). The structural difference with RFC 6901 section 3 pointers, and what can be recovered from it; the
ordered candidate search, its ledger and the separate validation of that ledger; the byte-budget proxy, its
transcript and the separate validation of that transcript.

**Shared state** (`RasterCache`, `ParquetCache`, `Sealing`). The single-flight window cache and the sealing protocol
as interleaved steps of any number of participants, over all runs; the byte-range cache as a class whose contents
other readers and evictions may change between any two operations.

**Two assembly paths** (`Assembly`, `AssemblyExact`, from `engine.rs`, `assembly.rs` and `catchment_store.rs`).
Opening a store, the staged path through pre-merge units and the direct path, up to the geometries each gives to the
dissolve.

`Results`, `Arith` and `Bytes` are shared. Code that updates state is modelled by methods with loops or by classes;
each is tied to a function, and the lemmas are about those functions. Where a function is both what a method
computes and what its contract says, a lemma states its meaning without it: in the modules ending in `Exact`, in
`WkbForm`, `WkbReader` and `JsonOrder`, and beside the function elsewhere. Every loop and every function is total on
the inputs the program accepts, errors included.

## What the proofs found

Each of these is behaviour of the code as written. Where a promised property fails, the condition under which it
holds is proved in both directions.

- An inline BigTIFF tile-index field holding two LONG values is refused, although the materialized array has both
  (`CogIndex.InlinePairRefused`), and a single inline LONG is read together with the padding after it
  (`CogIndex.PaddingNotMasked`). `CogIndex.LazyIsMaterialized` gives the exact condition.
- `crop_window` forms row starts in 32 bits, so the local crop fails on rasters whose last row starts at 2^32 or
  above (`CogStitch.CropWindow`; the model's error stands for a panic in a debug build and a wrapped start in
  release); tile indices have the same limit (`CogWindow.ForWindow`).
- Canonicalization accepts an unclosed ring of exactly ten million points and writes it closed, with one point more
  than its own reader accepts (`WkbTheorems.FullRingRefused`, `WkbTheorems.CanonicalWkbIdempotent`).
- A removed JSON member and a member that became null are reported alike (`JsonRecovery.RemovalLooksLikeNull`).
  `JsonRecovery.SameDifferences` says exactly which documents have the same differences from a given one; among
  documents without null the differences determine the document (`JsonRecovery.NullFreeDetermined`).
- The pointer of the whole document is written "/", which also names the member with the empty name
  (`JsonRecovery.PointerNamesPlace` gives the exact condition; within one difference every pointer names one place).
- A call that finds another fetching takes its notifier, leaves the map, and only then listens; a notification in
  between is lost, and the call never returns though the window is published (`RasterCache.WakeupLost`).
  `RasterCache.ReturnsUnlessDoomed` says that this is the only way a call is stuck.
- A zero-length file already at a window's canonical path is a cache miss, is not replaced by the fetch, and is then
  returned as the window (`RasterCache.PresentFileAnswered`, `RasterCache.SafeIffCoherent`).

## Model

| member | source | states |
|---|---|---|
| `CogWindow.FromBboxExact` | crates/core/src/cog.rs:293-326 | In real arithmetic the window is exactly the raster cells whose one-pixel neighbourhood overlaps the box, inside the raster; refusal happens exactly when no column or no row qualifies |
| `CogWindow.WindowContainsTouchedCells` | crates/core/src/cog.rs:293-326 | Every raster cell touching the box is in the window, so a request that touches the raster is never refused |
| `CogWindow.RoundedWindow` | crates/core/src/cog.rs:293-326 | With rounded subtraction and division (relative error up to 10^-15, coarser than binary64) the computed window still holds every raster cell touching the box and no cell more than two pixels from it, and a request is refused only if no raster cell touches the box |
| `CogWindow.PlanExact` | crates/core/src/cog.rs:342-389 | The plan of an in-raster window is exactly the tiles sharing a pixel with it, strictly increasing, non-empty and below the descriptor count |
| `CogWindow.ForWindow` | crates/core/src/cog.rs:342-389 | The planning loop returns that plan, or the error of the first 32-bit overflow or of the tile ceiling |
| `CogWindow.PlanBlock` | crates/core/src/cog.rs:363-388 | The counting and the two nested loops yield the row-major block, refusing over 65536 tiles before building it |
| `CogWindow.TileMeetsIsBlock` | crates/core/src/cog.rs:342-362 | A tile shares a pixel with the window exactly when its row and column lie in the computed block |
| `CogWindow.CrossedAxesExact` | crates/core/src/cog.rs:203-221 | An axis is reported crossed exactly when the window spans several tiles on it |
| `CogStitch.CropAt` | crates/core/src/cog.rs:2137-2145 | Sample (y, x) of a crop is raster sample (row offset + y, column offset + x) |
| `CogStitch.CropUnique` | crates/core/src/cog.rs:2137-2145 | A buffer agreeing with the raster on every window cell is the crop |
| `CogStitch.CropWindow` | crates/core/src/cog.rs:2137-2145 | The local row-copying loop computes the crop exactly when the last row's start fits 32 bits; otherwise an error, standing for the source's panic or wrapped index |
| `CogStitch.LiveRectExact` | crates/core/src/cog.rs:1727-1796 | A raster pixel lies in a tile exactly when it lies in the tile's clipped rectangle |
| `CogStitch.TileOfExact` | crates/core/src/cog.rs:1887-1890 | Each raster pixel lies in exactly the tile its row-major index names |
| `CogStitch.EachCellOnce` | crates/core/src/cog.rs:1799-1843 | Each window cell belongs to exactly one planned tile, planned once, so it is written exactly once |
| `CogStitch.TileCopySpan` | crates/core/src/cog.rs:1892-1914 | The overlap of a planned tile and the window is non-empty and inside both; none of its unsigned subtractions underflows |
| `CogStitch.SpanExact` | crates/core/src/cog.rs:1892-1914 | A window cell is in the copied span exactly when it is in the tile |
| `CogStitch.CopyTile` | crates/core/src/cog.rs:1845-1885 | Copying a tile in 32-bit index arithmetic changes exactly the overlap, to the tile's samples, and stays inside both buffers |
| `CogStitch.CopyTileRow` | crates/core/src/cog.rs:1852-1863 | One row copy extends the copied rows by one; its destination and source indices fit 32 bits |
| `CogStitch.StitchStep` | crates/core/src/cog.rs:1808-1841 | Copying the raster's own live tile extends the stitched part by that tile |
| `CogStitch.StitchComplete` | crates/core/src/cog.rs:1799-1843 | Once all planned tiles are copied no prefill survives: the buffer is the crop of the whole raster |
| `CogStitch.TilesOfRaster` | crates/core/src/cog.rs:1799-1843 | Any tiles of the planned shapes are the crops of one raster under their live rectangles |
| `CogPredictor.UndoEncodeBytes` | crates/core/src/cog.rs:1684-1726 | Undoing wrapping byte differencing inverts the encoder of TIFF 6.0 section 14, for every row |
| `CogPredictor.EncodeUndoBytes` | crates/core/src/cog.rs:1684-1726 | And conversely: every stored byte row is the encoding of what it decodes to |
| `CogPredictor.UndoEncodeI32` | crates/core/src/cog.rs:1684-1726 | Undoing wrapping 32-bit differencing inverts the encoder |
| `CogPredictor.EncodeUndoI32` | crates/core/src/cog.rs:1684-1726 | And conversely, for every row of 32-bit integers |
| `CogPredictor.FloatPredictorRoundTrip` | crates/core/src/cog.rs:1684-1796 | Byte differencing across the planes and regathering with the padded plane stride gives back every sample of Technical Note 3's encoding |
| `CogPredictor.IntegerPredictorRoundTrip` | crates/core/src/cog.rs:1684-1796 | The integer predictor through little-endian words gives back every sample |
| `CogPredictor.UndoByteRows` | crates/core/src/cog.rs:1684-1726 | The in-place loops undo every padded row and nothing else |
| `CogPredictor.UndoI32Rows` | crates/core/src/cog.rs:1684-1726 | The in-place word loops undo every padded row and nothing else |
| `CogDecode.ByteRowRoundTrip` | crates/core/src/cog.rs:1684-1796 | Reading a byte row inverts writing it, for predictors 1 and 2 and every padded width |
| `CogDecode.FloatRowRoundTrip` | crates/core/src/cog.rs:1684-1796 | Reading a float row inverts writing it, for predictors 1 and 3 |
| `CogDecode.IntRowRoundTrip` | crates/core/src/cog.rs:1684-1796 | Reading a 32-bit integer row inverts writing it, for predictors 1 and 2 |
| `CogDecode.UndoPredictor` | crates/core/src/cog.rs:1684-1726 | The inflated tile is rewritten in place, each padded row to its undone row |
| `CogDecode.DecodeOwnedChunk` | crates/core/src/cog.rs:1636-1797 | Length ceiling, inflate, length check, predictor undo and clipping give the specified live samples or the same error |
| `CogDecode.ChunkShape` | crates/core/src/cog.rs:1636-1797 | Any accepted chunk decodes to one sample per live cell, of the buffer kind its sample type calls for |
| `CogDecode.DecodedExact` | crates/core/src/cog.rs:1636-1797 | A chunk decodes exactly when its tile is at most 8 MiB, the predictor suits its samples and inflating gives exactly the tile's bytes |
| `CogDecode.StoredTileDecodes` | crates/core/src/cog.rs:1636-1797 | Decoding the padded encoding of a tile gives the raster's samples under the tile's live rectangle |
| `CogWriter.TileStored` | crates/core/src/cog.rs:1684-1797 | Every tile of every raster has a padded encoding, edge tiles included, so what the decoding results assume of stored tiles can always be met |
| `CogWriter.TileRoundTrip` | crates/core/src/cog.rs:1636-1797 | Encoding a tile under any supported predictor and decoding it gives the raster's samples under its live rectangle |
| `CogDecode.NormalizeCrop` | crates/core/src/cog.rs:2160-2170 | Converting integer accumulation to floats commutes with cropping |
| `CogDecode.WindowOfSamples` | crates/core/src/cog.rs:2160-2170 | Cell by cell, of the raster as stored: an integer equal to the parsed nodata becomes NaN, every other is converted, all are when the nodata does not parse; bytes and floats stay |
| `CogDecode.DecodeWindow` | crates/core/src/cog.rs:1799-1843 | Succeeds exactly when the nodata value and the allocation are admissible and every chunk decodes; the buffer is then, cell by cell, the window of a raster whose tiles the chunks hold, and of the given raster if they hold its tiles |
| `CogDecode.DecodedHoldRaster` | crates/core/src/cog.rs:1799-1843 | Whatever chunks are accepted, there is one raster whose planned tiles they hold |
| `CogDecode.AllocationLength` | crates/core/src/cog.rs:1578-1600 | An admissible window has height times width cells, below the allocation ceiling |
| `CogDecode.AllocationExact` | crates/core/src/cog.rs:1578-1600 | A window is allocated exactly when its samples take at most 1 GiB |
| `CogIfd.EntryRoundTrip` | crates/core/src/cog.rs:572-596 | Parsing an encoded directory entry gives it back, for classic and BigTIFF |
| `CogIfd.EntriesRoundTrip` | crates/core/src/cog.rs:884-889 | Parsing an encoded directory gives its entries back in order |
| `CogIfd.CheckedRange` | crates/core/src/cog.rs:492-508 | A checked range has the asked start and length and lies inside the object |
| `CogIfd.DescriptorOf` | crates/core/src/cog.rs:731-777 | An accepted index descriptor is LONG or LONG8, inline exactly when it fits, and otherwise inside the object |
| `CogIfd.AsciiOf` | crates/core/src/cog.rs:635-692 | Text outside the entry is at most 256 bytes and inside the object |
| `CogIfd.FieldsOf` | crates/core/src/cog.rs:891-952 | Accepted fields have both index descriptors and both transform ranges inside the object |
| `CogIndex.LazyIsMaterialized` | crates/core/src/cog.rs:1062-1143 | Entry-by-entry lazy reading equals the fully materialized array exactly for lazily readable fields |
| `CogIndex.OutOfLineEntry` | crates/core/src/cog.rs:1062-1088 | An out-of-line entry is requested at its own offset and never fails |
| `CogIndex.InlinePairRefused` | crates/core/src/cog.rs:1070-1077 | Of two LONG values inline in a BigTIFF entry a full reading gives both, for every pair, and the lazy reader refuses both |
| `CogIndex.PaddingNotMasked` | crates/core/src/cog.rs:731-777 | Stray bytes after an inline LONG change the lazily read value but not the field's value |
| `CogIndex.PlanRangesCost` | crates/core/src/cog.rs:1145-1185 | The index requests lie inside the object and cost offset width plus count width of the out-of-line arrays per covered tile |
| `CogIndex.CollectRanges` | crates/core/src/cog.rs:1150-1185 | The collecting loop yields exactly the plan's ranges, and fails exactly when some entry is unreachable |
| `CogIndex.ServedTile` | crates/core/src/cog.rs:1186-1230 | The responses at a tile's position are the bytes of that tile's own entries |
| `CogIndex.ServedStep` | crates/core/src/cog.rs:1186-1230 | The responses each tile consumes decode to that tile's own offset and byte count |
| `CogIndex.DecodeResponses` | crates/core/src/cog.rs:1186-1230 | The consuming loop uses every response, none is left over, and fails on served content exactly when a 64-bit sum overflows |
| `CogIndex.ResolvePlan` | crates/core/src/cog.rs:1145-1231 | Exactly the plan's entries are requested; success means every tile has the chunk its materialized entries name, and the counted bytes are the requested bytes |
| `CogFetch.FetchExact` | crates/core/src/cog.rs:510-536 | Exactly one request, of the given range; the accounted bytes grow by its length and an accepted reply has it |
| `CogFetch.ReadDirectory` | crates/core/src/cog.rs:793-952 | At most three in-range requests under a constant ceiling; on served content the result is the directory of the content |
| `CogFetch.ReadRemoteLayout` | crates/core/src/cog.rs:793-1006 | At most six requests, their bytes bounded by a constant and reported exactly; on served content the layout is the one a full download would give, placed by the content's own transform fields |
| `CogIfd.MetadataPlaced` | crates/core/src/cog.rs:1040-1060 | Accepted metadata has the pixel size of the scale field, rows running downwards, and carries raster position (tie 0, tie 1) to (tie 3, tie 4) |
| `CogFetch.MetadataInPlaced` | crates/core/src/cog.rs:793-1006 | The same for the metadata of every content |
| `CogFetch.FetchValues` | crates/core/src/cog.rs:953-1006 | At most three further bounded requests; on success they are the nodata text's range, if remote, and the two transform ranges |
| `CogFetch.ValidateMeritLayout` | crates/core/src/cog.rs:1507-1576 | A layout is accepted exactly when it has 512-pixel tiles, one entry per tile in both index arrays, samples of the raster's kind, DEFLATE compression and a predictor of its sample type |
| `CogFetch.PlanWindow` | crates/core/src/cog.rs:1233-1262 | Layout check, window and plan succeed exactly when each of them does |
| `CogFetch.PlanReachable` | crates/core/src/cog.rs:1145-1185 | A validated layout's planned entries are reachable exactly when neither index field is multi-valued and inline |
| `CogFetch.PrepareWindow` | crates/core/src/cog.rs:1233-1270 | Header bytes are the bytes requested: a constant plus a fixed cost per covered tile, independent of the raster's tile count; success on served content is characterized exactly |
| `CogLocalize.ValidateCompressedRanges` | crates/core/src/cog.rs:1453-1505 | Ranges are released for fetching exactly when each and their total respect the ceilings and the object |
| `CogLocalize.CompressedExact` | crates/core/src/cog.rs:1453-1505 | In bytes: every chunk is 1 to 16 MiB inside the object, and all together at most 1 GiB |
| `CogLocalize.StoredChunkHolds` | crates/core/src/cog.rs:1373-1451 | The chunk named by the index of a stored raster decodes to its tile |
| `CogLocalize.FetchWindow` | crates/core/src/cog.rs:1373-1451 | Exactly the validated chunks are requested; on a stored raster the samples are the crop of the whole raster |
| `CogLocalize.LocalizeWindow` | crates/core/src/cog.rs:1233-1451 | End to end: answered exactly under stated conditions, the samples are the window of the whole raster, every request is inside the object and bounded, and the reported bytes are the requested bytes |
| `CogObject.MetadataRead` | crates/core/src/cog.rs:793-1006 | Reading the metadata of a written TIFF or BigTIFF gives back what was written, both index arrays and the nodata text included, inline or out of line, placed by the written transform; a text that does not decode is refused |
| `CogObject.ChunkRead` | crates/core/src/cog.rs:1062-1143 | The index of a written file names every chunk and its very bytes |
| `CogObject.RasterStored` | crates/core/src/cog.rs:1636-1797 | Every raster of every shape, sample type and predictor can be written to a file that stores it, so the hypotheses of the end-to-end result can be met |
| `CogObject.AnswerableWritten` | crates/core/src/cog.rs:1233-1270 | A request against a written file is answerable exactly when its window can be planned and allocated and the planned chunks respect the ceilings |
| `CogObject.LocalizeWritten` | crates/core/src/cog.rs:1233-1451 | Writing a raster as TIFF or BigTIFF, serving the file and reading a window remotely gives, cell by cell, the window of the raster in its written place, or fails exactly when the nodata text does not decode or a stated ceiling is passed |
| `WkbRing.AreaOfRotation` | scripts/released_wheel_proof.py:670-671 | The shoelace area does not depend on a ring's start point |
| `WkbRing.AreaOfReverse` | scripts/released_wheel_proof.py:670-671 | Reversal negates the shoelace area |
| `WkbRing.LeastRotationExact` | scripts/released_wheel_proof.py:681-684 | The chosen rotation is a rotation and no rotation is smaller |
| `WkbRing.LeastRotationComplete` | scripts/released_wheel_proof.py:681-684 | Two rings have the same least rotation exactly when one rotates to the other |
| `WkbRing.NormalRingComplete` | scripts/released_wheel_proof.py:674-685 | Two rings normalize alike exactly when they are one ring up to start point and, for non-zero area, direction |
| `WkbRing.NormalRingIdempotent` | scripts/released_wheel_proof.py:674-685 | Normalizing a normal ring changes nothing |
| `WkbRing.NormalizeRing` | scripts/released_wheel_proof.py:674-685 | Pop, reverse, rotate and close, step by step, compute the normal ring |
| `WkbForm.AreaFan` | scripts/released_wheel_proof.py:670-671 | The signed area of a ring is that of the triangles it fans into, positive when they run counter-clockwise |
| `WkbForm.NormalOrientation` | scripts/released_wheel_proof.py:678-680 | A normal exterior has non-negative area, a normal hole non-positive, and the absolute area is kept, for every ring |
| `WkbForm.NormalStart` | scripts/released_wheel_proof.py:681-684 | No other start point gives a lexicographically earlier ring |
| `WkbForm.StartsLeftmost` | scripts/released_wheel_proof.py:681-684 | So a normal ring starts at its leftmost point, the lowest of those |
| `WkbForm.BoxExact` | scripts/released_wheel_proof.py:688-692 | The box in a sort key holds every point and is touched on all four sides |
| `WkbForm.CanonicalFormed` | scripts/released_wheel_proof.py:695-706 | Canonical polygons: every ring the right way round from its earliest start, holes sorted by box, area and points, polygons by box, net area, number of holes and points |
| `WkbCanonical.RingKeyInjective` | scripts/released_wheel_proof.py:688-692 | A ring's sort key determines the ring |
| `WkbCanonical.PolygonKeyInjective` | scripts/released_wheel_proof.py:706 | The polygon sort key determines the polygon's content |
| `WkbCanonical.RingOrder` | scripts/released_wheel_proof.py:688-704 | The ring order is a weak order in which different normal rings are ordered |
| `WkbCanonical.PolygonOrder` | scripts/released_wheel_proof.py:706 | The same for polygons, so stable sorting is deterministic on contents |
| `WkbCanonical.CanonicalIdempotent` | scripts/released_wheel_proof.py:695-706 | Canonicalizing canonical polygons gives the same list |
| `WkbCanonical.CanonicalComplete` | scripts/released_wheel_proof.py:695-706 | Two geometries canonicalize alike exactly when rotating and reversing rings and permuting holes and polygons turns one into the other |
| `LexOrder.SortOfSorted` | scripts/released_wheel_proof.py:704-706 | Stable sorting is the identity on sorted input |
| `LexOrder.SortPermutation` | scripts/released_wheel_proof.py:704-706 | Sorting forgets the order of presentation |
| `WkbBinary64.QuantizedFaithful` | scripts/released_wheel_proof.py:675-714 | From the spacing of binary64: the quantized integer of any finite double, at every magnitude, survives division by a million, writing, reading and rounding |
| `WkbTheorems.WithinLimitFaithful` | scripts/released_wheel_proof.py:675-714 | Under the unit roundoff alone, a weaker hypothesis, the same for geometries of coordinates up to 2^50 millionths |
| `WkbTheorems.AcceptedFaithful` | scripts/released_wheel_proof.py:695-714 | Every coordinate of every accepted input survives being written and read |
| `WkbFormat.ParseGeometry` | scripts/released_wheel_proof.py:640-667 | The recursive reader always advances and stays inside the data, so it terminates on every input |
| `WkbFormat.ReadGeometry` | scripts/released_wheel_proof.py:640-667 | The offset-advancing loops compute the recursive reading, errors included |
| `WkbFormat.ReadRings` | scripts/released_wheel_proof.py:645-655 | The ring loop computes the recursive reading of a polygon |
| `WkbFormat.GeometryRoundTrip` | scripts/released_wheel_proof.py:707-715 | Reading written polygons gives them back and consumes every byte, exactly when every ring fits the limit |
| `WkbFormat.EncodeInjective` | scripts/released_wheel_proof.py:707-715 | Different finite multipolygons are written differently |
| `WkbReader.AcceptsExactly` | scripts/released_wheel_proof.py:640-667 | A byte string is read exactly when it encodes a polygon, or a multipolygon of members holding one polygon each, in either byte order at every level, rings finite and within the limit; and its polygons are the result |
| `WkbReader.LegalRead` | scripts/released_wheel_proof.py:640-667 | Every such encoding is read wherever it stands |
| `WkbReader.ReadLegal` | scripts/released_wheel_proof.py:640-667 | Whatever is read is one |
| `WkbTheorems.CanonicalWkbIdempotent` | scripts/released_wheel_proof.py:695-715 | For every accepted input over binary64 doubles, canonicalizing the output gives the same bytes, except exactly when a ring full to the reader's limit makes the output unreadable |
| `WkbTheorems.CanonicalWkbComplete` | scripts/released_wheel_proof.py:695-715 | Any two accepted inputs over binary64 doubles give the same bytes exactly when their quantized geometries are presentations of one geometry |
| `WkbTheorems.CanonicalWkbAccepts` | scripts/released_wheel_proof.py:695-706 | Accepted are exactly those encodings whose polygons have exterior rings and whose coordinates do not overflow when scaled |
| `WkbTheorems.CanonicalWkbFormed` | scripts/released_wheel_proof.py:695-715 | The output encodes a presentation of the input in canonical form and, unless a ring is full, reads back as it |
| `WkbTheorems.FullRingRefused` | scripts/released_wheel_proof.py:652-685 | The exception happens: an accepted ring at the limit whose canonical bytes are refused |
| `WkbSteps.Canonicalize` | scripts/released_wheel_proof.py:695-715 | The whole procedure with its loops computes `CanonicalWkb`, on every input |
| `WkbSteps.NormalizePolygons` | scripts/released_wheel_proof.py:699-705 | The normalizing loop fails exactly as specified and yields the normalized polygons |
| `WkbSteps.WriteGeometry` | scripts/released_wheel_proof.py:707-714 | The writing loops produce the encoding |
| `TiffRead.ParsePreamble` | scripts/released_wheel_proof.py:2582-2603 | An accepted preamble has 1 to 4096 entries, all inside the file |
| `TiffRead.ReadDirectory` | scripts/released_wheel_proof.py:2604-2612 | The dictionary-filling loop computes the specified directory or the duplicate-tag error |
| `TiffRead.DirectoryExact` | scripts/released_wheel_proof.py:2604-2612 | A directory is accepted exactly when its tags are pairwise distinct, and then maps each tag to its own entry |
| `TiffFields.EntryRead` | scripts/released_wheel_proof.py:2606-2612 | A packed directory entry is read back in all four layouts: both byte orders, TIFF and BigTIFF |
| `TiffFields.IntegersRead` | scripts/released_wheel_proof.py:2552-2573 | Any list of integers of any integer field type, inline or out of line, is read back in all four layouts |
| `TiffFields.DoublesRead` | scripts/released_wheel_proof.py:2552-2573 | Any list of doubles, inline or out of line, is read back bit for bit in all four layouts |
| `TiffFields.SamplesRead` | scripts/released_wheel_proof.py:2653-2654 | Unpacking packed samples gives them back, in both byte orders |
| `TiffRead.GatherChunks` | scripts/released_wheel_proof.py:2644-2651 | The chunk loop succeeds exactly when every chunk is inside the file and below the ceiling, and gives their concatenation and the greatest of their lengths |
| `TiffRead.ChunksExact` | scripts/released_wheel_proof.py:2644-2651 | The same of every prefix of the chunk list, for the function the loop computes |
| `TiffRead.DecodeLocalTiff` | scripts/released_wheel_proof.py:2576-2664 | The decoder with its loops computes `Decode`, on every file |
| `TiffRead.DecodeSound` | scripts/released_wheel_proof.py:2576-2664 | Whatever the file, an accepted window has one sample of the right type per cell, stays under both ceilings and has positive axes |
| `TiffExact.PreambleExact` | scripts/released_wheel_proof.py:2582-2603 | Exactly the headers of the two flavours, with a directory of 1 to 4096 entries inside the file, are accepted |
| `TiffExact.NumberExact` | scripts/released_wheel_proof.py:2552-2573 | What the bytes of one value of each field type say |
| `TiffExact.NumbersExact` | scripts/released_wheel_proof.py:2552-2573 | An accepted field has as many values as its count says, each read at its own place |
| `TiffExact.EntriesExact` | scripts/released_wheel_proof.py:2614-2664 | A directory gives a window exactly when its tags, defaults, chunk index, ceilings, sample count and transform are as listed, and then the listed samples and place |
| `TiffExact.DecodeExact` | scripts/released_wheel_proof.py:2576-2664 | The same for whole files |
| `TiffWrite.WriteFixture` | scripts/released_wheel_proof.py:2176-2206 | The writer's loop produces the specified bytes of the fixture's grid, or the misuse or does-not-fit error |
| `TiffWrite.FieldsIncrease` | scripts/released_wheel_proof.py:2189-2197 | The directory's tags strictly increase, as TIFF 6.0 section 2 demands |
| `TiffWrite.FixtureHolds` | scripts/released_wheel_proof.py:2176-2206 | In every layout, each entry, the scale, the tie point and the pixels sit at the offsets the entries announce |
| `TiffRoundTrip.DirectoryRead` | scripts/released_wheel_proof.py:2604-2612 | The decoder's directory of a written file holds every written field under its tag, in all four layouts |
| `TiffRoundTrip.PreambleRead` | scripts/released_wheel_proof.py:2582-2603 | The preamble of a written file is read back, in all four layouts |
| `TiffRoundTrip.RoundTrip` | scripts/released_wheel_proof.py:2576-2664 | A written window with any scale and tie point, in either byte order and either TIFF flavour, decodes exactly when it has cells, is below the chunk ceiling, has pixel sizes and the type its raster needs, and then to the same width, height, type and samples |
| `TiffRoundTrip.LayoutsAgree` | scripts/released_wheel_proof.py:2576-2664 | The decoder makes the same of one grid in any two layouts |
| `TiffRoundTrip.PlacementExact` | scripts/released_wheel_proof.py:2656-2664 | A window tied at its first pixel comes back in its place bit for bit exactly when both pixel sizes are finite and the northing is not negative zero; a coordinate is lost to a NaN exactly when it was one or its pixel size is not finite |
| `TiffRoundTrip.FixturePlaced` | scripts/released_wheel_proof.py:2176-2206 | A fixture's place and signed pixel height come back exactly when the height is finite and negative in sign and the northing is not negative zero |
| `TiffRoundTrip.GeotransformTied` | scripts/released_wheel_proof.py:2656-2664 | Whatever the file: where the arithmetic is exact, the decoded transform carries the tied raster position to its place |
| `JsonDiff.EscapeInjective` | scripts/released_wheel_proof.py:408-409 | The two-pass escaping is injective and removes the separator |
| `JsonDiff.EmptyIffIdentical` | scripts/released_wheel_proof.py:402-428 | The difference is empty exactly when the documents are identical |
| `JsonDiff.EveryEntryReports` | scripts/released_wheel_proof.py:402-428 | Every entry names a path where the documents differ, with the values there, null standing for absence |
| `JsonDiff.EveryPlaceCovered` | scripts/released_wheel_proof.py:402-428 | Every path where the documents differ has an entry at it, above it or inside it |
| `JsonDiff.PointersDistinct` | scripts/released_wheel_proof.py:402-428 | The pointers are pairwise distinct |
| `JsonDiff.TokensApart` | scripts/released_wheel_proof.py:409-419 | The token separator is unambiguous: pointers below different tokens differ |
| `JsonDiff.DifferenceExact` | scripts/released_wheel_proof.py:402-428 | The three results for whole documents |
| `JsonRecovery.EntryHasPlace` | scripts/released_wheel_proof.py:402-428 | Every entry is the entry of a path where the documents part, with that path's pointer and the two values there |
| `JsonRecovery.PlaceHasEntry` | scripts/released_wheel_proof.py:402-428 | And every such path has its entry |
| `JsonRecovery.EntryPlaceUnique` | scripts/released_wheel_proof.py:402-428 | Within one difference a pointer names one place |
| `JsonRecovery.PointerNamesPlace` | scripts/released_wheel_proof.py:402-428 | Two places of a document have one pointer exactly when they are the same place, or the whole document and its member with the empty name |
| `JsonRecovery.SameDifferences` | scripts/released_wheel_proof.py:402-428 | Two documents differ alike from a third exactly when they are equal up to removal or nulling of a part that is present and not null there |
| `JsonRecovery.NullFreeDetermined` | scripts/released_wheel_proof.py:402-428 | Among documents without null, equal differences mean equal documents |
| `JsonRecovery.RemovalLooksLikeNull` | scripts/released_wheel_proof.py:413-424 | Removing a non-null member of any object and setting it to null give equal, non-empty differences of different documents |
| `JsonOrder.EntriesInOrder` | scripts/released_wheel_proof.py:402-428 | The entries stand in the order of their places: keys in character order, indices rising |
| `OrderedKeys.SortedKeysIncrease` | scripts/released_wheel_proof.py:407 | Keys are visited once each, in increasing order |
| `CandidateSearch.CandidateDiagnostics.Start` | scripts/released_wheel_proof.py:112-118 | An attempt is opened exactly when none is open or accepted, the rank is next and the coordinate is valid |
| `CandidateSearch.CandidateDiagnostics.Reject` | scripts/released_wheel_proof.py:120-125 | The open attempt moves to the ledger with its code |
| `CandidateSearch.CandidateDiagnostics.Accept` | scripts/released_wheel_proof.py:127-131 | The open attempt ends the search |
| `CandidateSearch.CandidateDiagnostics.Evidence` | scripts/released_wheel_proof.py:137-142 | In every reachable state the ledger is complete exactly when no attempt is open |
| `CandidateSearch.CandidateDiagnostics.Exhausted` | scripts/released_wheel_proof.py:144-148 | Exhaustion carries the complete ledger, unless an attempt is open or accepted |
| `CandidateSearch.SelectOrderedCandidate` | scripts/released_wheel_proof.py:2787-2819 | The first candidate that is not rejected decides; a selection's ledger has one entry per earlier rank in order, and exhaustion's ledger covers every tried candidate |
| `CandidateSearch.ValidateCandidateRejections` | scripts/released_wheel_proof.py:2472-2493 | Of all JSON documents exactly the well-formed ledgers for the rank and case are accepted |
| `CandidateSearch.JudgeExact` | scripts/released_wheel_proof.py:2793-2818 | A candidate is accepted exactly when it is far enough, its attempt succeeds and the predicate holds; rejected exactly for its distance or, outside the negative case, under the name of the failure raised; any other failure ends the search |
| `CandidateSearch.RejectionExact` | scripts/released_wheel_proof.py:151-159 | A failure becomes a rejection exactly outside the negative case and under its own name |
| `CandidateSearch.EntryExact` | scripts/released_wheel_proof.py:2472-2493 | Exactly the entries with the three members, the right rank, a longitude and latitude, and a code of the case are accepted |
| `CandidateSearch.LedgerAccepted` | scripts/released_wheel_proof.py:2472-2493 | Every ledger the search can leave behind is well-formed, its codes permitted for its case |
| `CandidateSearch.DecisionUnique` | scripts/released_wheel_proof.py:2793-2818 | Only one rank can decide a search |
| `CandidateSearch.SelectAndVerify` | scripts/released_wheel_proof.py:2787-2819 | A selection's own evidence always passes the separate validation |
| `Decimal.ReadShow` | scripts/released_wheel_proof.py:585 | Reading a printed number gives it back |
| `Proxy.ParsedIsAllowed` | scripts/released_wheel_proof.py:576-591 | Whatever the header, an accepted range is non-empty, inside the object, not the whole of it and below the chunk ceiling |
| `ProxyExact.ParsedExact` | scripts/released_wheel_proof.py:576-591 | A header is accepted exactly when it spells two decimal numbers that close a part of the object under 16 MiB |
| `Proxy.RangeRoundTrip` | scripts/released_wheel_proof.py:576-591 | A formatted range is accepted exactly when it is allowed, and comes back |
| `Proxy.ValidateCompletedReads` | scripts/released_wheel_proof.py:777-805 | Exactly the non-empty transcripts whose every record checks are accepted |
| `ProxyExact.TranscriptExact` | scripts/released_wheel_proof.py:777-805 | What an acceptable line is: numbered, and for a raster read completed, of a released raster, its range, counts, tag and content range agreeing |
| `Proxy.ForwardedRecord` | scripts/released_wheel_proof.py:1834-1922 | A checked response yields a record that the transcript validation accepts and that counts for exactly its raster |
| `ProxyExact.CheckedExact` | scripts/released_wheel_proof.py:1899-1922 | A reply is passed on exactly when it is proper for what was asked: status, tag, size, and for a part its bytes and content range |
| `ProxyExact.RecordSays` | scripts/released_wheel_proof.py:1834-1854 | What each record says of an answered and of a failed request |
| `Proxy.ForwardedBounded` | scripts/released_wheel_proof.py:1875-1885 | What is forwarded is read-only, and a raster is only asked for an allowed part of itself |
| `Proxy.ProxyController.constructor` | scripts/released_wheel_proof.py:1818-1828 | A fresh controller is accounted for |
| `Proxy.ProxyController.LocalCandidate` | scripts/released_wheel_proof.py:1856-1866 | A valid candidate is answered with status 200, its tag and length, and its bytes exactly for a GET, and recorded; an invalid one leaves no record |
| `Proxy.ProxyController.Admit` | scripts/released_wheel_proof.py:1868-1885 | A request is let through exactly when its key is routable and, for a raster GET, its range parses and both running totals stay below their ceilings |
| `Proxy.ProxyController.Hosted` | scripts/released_wheel_proof.py:1868-1900 | Each outcome's whole new state; count, sum and maximum per raster stay those of the completed reads, strictly under their ceilings |
| `ProxyExact.TalliesExact` | scripts/released_wheel_proof.py:1895-1898 | Each completed read of a raster adds one and its own bytes to the counters, and no other record anything |
| `ProxyExact.LargestExact` | scripts/released_wheel_proof.py:1895-1898 | The third counter is the greatest of those bytes |
| `Proxy.TranscriptAccepted` | scripts/released_wheel_proof.py:777-805 | After any calls the transcript is accepted exactly when it is non-empty and holds no failed raster read and no other `.tif` key |
| `Proxy.Serve` | scripts/released_wheel_proof.py:1815-1900 | Over every session the accounting holds, records only grow, and acceptance of the transcript is characterized |
| `RasterCache.ExclusiveStep` | crates/core/src/raster_cache.rs:78-127 | Every step keeps at most one fetcher per path and the in-flight keys exactly the held paths |
| `RasterCache.RemovesOwnEntry` | crates/core/src/raster_cache.rs:122 | A remover removes the entry it inserted and no other |
| `RasterCache.FilesKept` | crates/core/src/raster_cache.rs:237-241 | No step changes or deletes a published file |
| `RasterCache.PublishedStep` | crates/core/src/raster_cache.rs:65-127 | An answer always names the caller's own path, with a file published there |
| `RasterCache.AwaitedStep` | crates/core/src/raster_cache.rs:80-101 | A waiter waits for a caller of its own path; an owner that has notified has returned |
| `RasterCache.EveryRun` | crates/core/src/raster_cache.rs:65-127 | All of these over every run of any number of callers: at most one fetcher per path, the in-flight keys exactly the held paths, and the rest |
| `RasterCache.SafeIffCoherent` | crates/core/src/raster_cache.rs:65-127 | Every answer of every run names a published file holding its window, exactly when every file found at the start holds its window |
| `RasterCache.PresentFileAnswered` | crates/core/src/cog.rs:2239-2243 | A file present at the start is answered with as it stands, an empty one after a fetch that does not replace it |
| `RasterCache.ColdFetch` | crates/core/src/raster_cache.rs:102-124 | With no file at the path a caller alone fetches, publishes exactly its window, and is answered with it, leaving no entry behind |
| `RasterCache.FetchReturned` | crates/core/src/raster_cache.rs:102-124 | A written fetch leaves the window at the caller's path, unless a file is there, and the caller returns that path; a failed one publishes nothing and the caller returns the failure |
| `RasterCache.LookedUp` | crates/core/src/raster_cache.rs:70-101 | A caller that finds a file with bytes, a woken waiter too, is answered with it; with none or an empty one it goes on; a failing lookup fails the call |
| `RasterCache.ReturnsUnlessDoomed` | crates/core/src/raster_cache.rs:78-101 | In every reachable state a call can still return exactly unless it listens to an owner that has already notified |
| `RasterCache.WakeupLost` | crates/core/src/raster_cache.rs:78-124 | That happens: the window is published and the second call never returns |
| `ParquetCache.KeyNamesRange` | crates/core/src/parquet_cache.rs:71-79 | A chunk key names one range of one artifact |
| `ParquetCache.ParquetRowGroupCache.Get` | crates/core/src/parquet_cache.rs:133-139 | A hit has the bytes of its range and counts itself, whatever evictions came before |
| `ParquetCache.ParquetRowGroupCache.Insert` | crates/core/src/parquet_cache.rs:142-144 | Inserting the right bytes keeps the cache coherent |
| `ParquetCache.CachingReader.GetBytes` | crates/core/src/parquet_cache.rs:316-353 | One range costs one count and is answered as the reader underneath would |
| `ParquetCache.CachingReader.LookUp` | crates/core/src/parquet_cache.rs:363-388 | The lookup loop fills in the hits and gathers the misses with their positions in order |
| `ParquetCache.CachingReader.FillIn` | crates/core/src/parquet_cache.rs:417-428 | The insertion loop leaves no gap and keeps the cache coherent |
| `ParquetCache.CachingReader.GetByteRanges` | crates/core/src/parquet_cache.rs:355-442 | In caller order, duplicates included, exactly the bytes of every range; hits plus misses rise by the number of ranges; the only failures are the reader's own and a wrong count |
| `ParquetCache.FilledCollect` | crates/core/src/parquet_cache.rs:430-439 | Collecting a filled answer omits nothing |
| `ParquetCache.Session` | crates/core/src/parquet_cache.rs:355-442 | Over any session each successful read is what an honest uncached reader answers |
| `Assembly.ProducePreMergeUnits` | crates/core/src/engine.rs:635-719 | Succeeds exactly when the rows decode, no id repeats and every id is on the level; the units carry each id's last geometry |
| `AssemblyExact.MaterialisableExact` | crates/core/src/engine.rs:635-719 | On an opened store units are produced exactly when no id repeats, the file reads, and every id has a decoding row on the level |
| `AssemblyExact.UnitsExact` | crates/core/src/engine.rs:635-719 | The units are the ids in the order given, each with its own row's geometry |
| `Assembly.IndexCatchmentsById` | crates/core/src/assembly.rs:227-241 | The indexing loop computes the specified map or the duplicate error |
| `Assembly.IndexExact` | crates/core/src/assembly.rs:227-241 | Indexing fails exactly when an id has two rows, and otherwise equals the last-wins map |
| `Assembly.FeedInOrder` | crates/core/src/assembly.rs:205-216 | Every id is visited once in increasing order and its own geometry fed, exactly when none is empty; otherwise the least id with an empty geometry is named |
| `Assembly.FeedExact` | crates/core/src/assembly.rs:205-216 | The same, for the function the loop computes |
| `Assembly.DissolveWatershed` | crates/core/src/engine.rs:834-879 | The staged loops feed, in id order, the override in the terminal's slot and every other unit's geometry, the later unit's if an id came twice, or name the least empty one |
| `Assembly.AssembleWatershed` | crates/core/src/assembly.rs:162-219 | The direct query, index, override and coverage check compute the specified outcome; once past them exactly the requested ids are fed in order, each with its stored geometry and the terminal with the override, or the least empty one is named |
| `AssemblyExact.DirectOutcome` | crates/core/src/assembly.rs:162-219 | When the direct path fails to query, names an undecodable row, or reports missing ids, and exactly which |
| `Assembly.QueriedExact` | crates/core/src/reader/catchment_store.rs:639-690 | A query of an opened store finds exactly the stored ids it asks for, each with its own row's geometry |
| `AssemblyExact.MetadataQueried` | crates/core/src/reader/catchment_store.rs:639-690 | A metadata query reads exactly when some stored row is asked for, and finds exactly those rows |
| `AssemblyExact.GeometriesQueried` | crates/core/src/reader/catchment_store.rs:639-690 | A geometry query succeeds exactly when nothing is asked for or the file reads and every row asked for decodes |
| `Assembly.SameMap` | crates/core/src/engine.rs:834-856 | Both paths end up with one map, the terminal replaced by the override |
| `Assembly.OpenCatchments` | crates/core/src/reader/catchment_store.rs:1470-1490 | Opening walks every row group and succeeds exactly when no id occurs twice |
| `Assembly.DuplicateBranchUnreachable` | crates/core/src/assembly.rs:227-241 | On an opened store the direct path never reports a duplicate, whatever is asked for |
| `Assembly.PathsAgree` | crates/core/src/engine.rs:635-719 | Whenever units can be produced from an opened store, their ids are distinct and both paths feed the same geometries in id order, the override in the terminal's slot, or name the same first empty unit |
| `Assembly.StagedRun` | crates/core/src/engine.rs:635-719 | Opening, producing units and dissolving them: whenever the staged run gets to the dissolve, the direct path's outcome is the same |
| `Sealing.PrivateStep` | scripts/seal_distant_seed.py:27-37 | No two sealers write one file, and the declaration is nobody's unfinished file |
| `Sealing.ImmutableStep` | scripts/seal_distant_seed.py:33-37 | No step changes a declaration once present |
| `Sealing.OneSealerStep` | scripts/seal_distant_seed.py:33-39 | Only an exclusive link made while the declaration was absent makes a sealer one that sealed |
| `Sealing.TidyStep` | scripts/seal_distant_seed.py:40-43 | Remaining temporary files belong to sealers at work, crashed or raising |
| `Sealing.EveryRun` | scripts/seal_distant_seed.py:19-43 | Every run keeps the invariants and only ever puts a whole validated value in place |
| `Sealing.SealingSafe` | scripts/seal_distant_seed.py:19-43 | For any number of sealers, failures and crash points: absent or one whole validated value, at most one "sealed", and a call that returned left no temporary file and a readable declaration |
| `Sealing.NeverRewritten` | scripts/seal_distant_seed.py:19-43 | Between any two moments of a run a present declaration is unchanged |
| `Sealing.AloneSeals` | scripts/seal_distant_seed.py:19-43 | A sealer alone on an absent declaration, with a valid value that reads back, returns "sealed" with exactly its bytes in place and no temporary file |
| `Sealing.FinishReturns` | scripts/seal_distant_seed.py:31-43 | A sealer ready to link returns "sealed" with its own value if the declaration is absent and "verified" with nothing changed if it is there |
| `Sealing.ResumeReturns` | scripts/seal_distant_seed.py:20-22 | A call on a present declaration returns "verified" exactly when it reads back, and changes nothing |
| `Sealing.InvalidRaises` | scripts/seal_distant_seed.py:23-24 | A failed probe or an invalid value raises before any file exists |
| `Sealing.FailureRaises` | scripts/seal_distant_seed.py:27-43 | A failed write or link raises; the temporary file is removed and no other name changes |
| `Sealing.CrashAnywhere` | scripts/seal_distant_seed.py:19-43 | A call may crash at any moment before it returns, leaving names and files as they are |
| `Sealing.ResumeNeverProbes` | scripts/seal_distant_seed.py:20-22 | Once the declaration is there, a sealer that has not passed the existence check never probes or writes, whatever the others do |
| `Sealing.ResumeStep` | scripts/seal_distant_seed.py:20-22 | Such a sealer's own steps leave the directory and every file as they are |

## Left out

- FromBboxExact: states the window in real arithmetic; `RoundedWindow` bounds what rounding can change, but NaN, infinities and saturating casts in `from_bbox` are not modelled.
- WindowContainsTouchedCells: real arithmetic; `RoundedWindow` is the statement for rounded operations.
- RoundedWindow: covers finite operands whose difference does not overflow.
- CropWindow: its error stands for a panic in a debug build and for a wrapped row start in a release build, which are not modelled apart.
- WithinLimitFaithful: stops at 2^50 millionths under the unit roundoff alone; `AcceptedFaithful` has no limit under the full binary64 model.
- DecodeOwnedChunk: inflating, parsing nodata text and converting 32-bit integers to floats are parameters of the platform.
- ReadRemoteLayout: decoding UTF-8 and parsing numbers in text are parameters; error messages are constructors of one error type.
- ResolvePlan: coalescing of neighbouring ranges inside the object store is not modelled; a request counts as asked.
- CropUnique: the float reader's replacement of nodata by NaN after cropping is not part of the comparison.
- RoundTrip: samples are already single-precision patterns; packing a wider double is not modelled.
- PlacementExact: for a NaN origin only that the result is a NaN is stated, as IEEE 754 leaves its payload open.
- LocalizeWritten: compression is any function that inflating undoes; the writer's index arrays are as wide as the format's offsets.
- DifferenceExact: floats are finite reals, so NaN, infinities and the sign of zero are not distinguished.
- ProxyController.Hosted: calls are sequential, as the counters change outside the lock; header lookup and percent-decoding of keys are parameters, and records are values, not JSON lines.
- RangeRoundTrip: Python's limit on the digits of an integer literal is not modelled.
- SelectOrderedCandidate: failures other than coded ones, spherical distance and the worker are parameters or left out.
- SafeIffCoherent: a remote object is assumed not to change while the cache is used; the canonical path carries no etag or version.
- ReturnsUnlessDoomed: says when a call can still return, not that it will; fairness, cancelled calls and hash collisions of remote paths in the raster cache are excluded.
- GetByteRanges: counters are unbounded, and moka's eviction policy is any coherent change of the cache.
- ProducePreMergeUnits: row validation of metadata that is not asked for is left out, and which of two simultaneous failures is reported is stated only for decoding and level errors.
- DissolveWatershed: the dissolve, its repair and its area are foreign; the model ends at their input.
- AssembleWatershed: the log output and the options are left out.
- SealingSafe: one declaration path; creating its directory and the probe itself are steps that may fail.
- Narrowing of 64-bit lengths to the platform's `usize`, and overflow of the total of index bytes, which the tile ceiling rules out.
- Python's recursion limit in the geometry reader and the JSON difference.
- The TIFF encoder of published windows, the local readers and the extent readers.
- Footer metadata caching, HTTP serving, subprocess and package checks, GeoJSON output, projections, telemetry, benches and plotting.
