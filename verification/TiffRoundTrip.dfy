/** Decoding what the writer wrote, in both byte orders and both TIFF flavours. */
module TiffRoundTrip {
  import opened Arith
  import opened Bytes
  import opened Results
  import opened TiffRead
  import opened TiffFields
  import opened TiffWrite

  function PreambleOf(lay: Layout): Preamble {
    Preamble(lay, FirstEntry(lay), ENTRY_COUNT)
  }

  // ---- The header -------------------------------------------------------------------------

  /** A word packed at `at` of a row that sits at the start of the file. */
  lemma HeaderWord(lay: Layout, data: seq<byte>, header: seq<byte>, at: nat, width: nat, v: nat)
    requires |header| <= |data| && data[..|header|] == header
    requires v < Pow256(width) && at + width <= |header| && header[at..at + width] == PackWord(lay, v, width)
    ensures lay.Unsigned(data, at, width) == v
  {
    hide PackWord, Pow256, Layout.Unsigned;
    assert data[0..|header|] == data[..|header|];
    SubSlice(data, 0, |header|, at, width);
    WordRead(lay, data, at, width, v);
  }

  lemma ClassicHeader(lay: Layout, data: seq<byte>)
    requires !lay.big && |data| >= 10 && data[..10] == Header(lay)
    ensures lay.Unsigned(data, 2, 2) == 42 && lay.Unsigned(data, 4, 4) == 8 && lay.Unsigned(data, 8, 2) == ENTRY_COUNT
  {
    hide PackWord;
    PowValues();
    var h := Header(lay);
    assert h[2..4] == PackWord(lay, 42, 2) && h[4..8] == PackWord(lay, 8, 4) && h[8..10] == PackWord(lay, ENTRY_COUNT, 2);
    HeaderWord(lay, data, h, 2, 2, 42);
    HeaderWord(lay, data, h, 4, 4, 8);
    HeaderWord(lay, data, h, 8, 2, ENTRY_COUNT);
  }

  lemma BigHeader(lay: Layout, data: seq<byte>)
    requires lay.big && |data| >= 24 && data[..24] == Header(lay)
    ensures lay.Unsigned(data, 2, 2) == 43 && lay.Unsigned(data, 4, 2) == 8 && lay.Unsigned(data, 6, 2) == 0
    ensures lay.Unsigned(data, 8, 8) == 16 && lay.Unsigned(data, 16, 8) == ENTRY_COUNT
  {
    hide PackWord;
    PowValues();
    var h := Header(lay);
    assert h[2..4] == PackWord(lay, 43, 2) && h[4..6] == PackWord(lay, 8, 2) && h[6..8] == PackWord(lay, 0, 2);
    assert h[8..16] == PackWord(lay, 16, 8) && h[16..24] == PackWord(lay, ENTRY_COUNT, 8);
    HeaderWord(lay, data, h, 2, 2, 43);
    HeaderWord(lay, data, h, 4, 2, 8);
    HeaderWord(lay, data, h, 6, 2, 0);
    HeaderWord(lay, data, h, 8, 8, 16);
    HeaderWord(lay, data, h, 16, 8, ENTRY_COUNT);
  }

  lemma OrderMark(lay: Layout, data: seq<byte>)
    requires FirstEntry(lay) <= |data| && data[..FirstEntry(lay)] == Header(lay)
    ensures data[..2] == if lay.little then [0x49, 0x49] else [0x4D, 0x4D]
  {
    hide PackWord;
    assert data[..2] == Header(lay)[..2];
  }

  lemma PreambleRead(data: seq<byte>, lay: Layout, g: Grid)
    requires Writable(g) && Holds(data, lay, g)
    ensures ParsePreamble(data) == Ok(PreambleOf(lay)) && Inside(data, PreambleOf(lay))
  {
    hide Header, PackSamples, PackDoubles, HoldsField, Layout.Unsigned;
    OrderMark(lay, data);
    assert data[0] == data[..2][0];
    assert Layout(data[0] == 0x49, lay.big) == lay;
    if lay.big {
      BigHeader(lay, data);
      MagicShared(lay, data);
    } else {
      ClassicHeader(lay, data);
    }
  }

  /** The magic number is read alike in both flavours. */
  lemma MagicShared(lay: Layout, data: seq<byte>)
    requires |data| >= 4
    ensures Layout(lay.little, false).Unsigned(data, 2, 2) == lay.Unsigned(data, 2, 2)
  {
  }

  // ---- The directory ----------------------------------------------------------------------

  function EntryOf(lay: Layout, g: Grid, k: nat): Entry
    requires Writable(g) && k < ENTRY_COUNT
  {
    Entry(Fields(lay, g)[k].kind, Fields(lay, g)[k].count, FieldOffset(lay, k))
  }

  lemma FieldRead(data: seq<byte>, lay: Layout, g: Grid, k: nat)
    requires Writable(g) && Inside(data, PreambleOf(lay)) && k < ENTRY_COUNT && HoldsField(data, lay, g, k)
    ensures TagAt(data, PreambleOf(lay), k) == Fields(lay, g)[k].tag
    ensures EntryAt(data, PreambleOf(lay), k) == EntryOf(lay, g, k)
    ensures var at := FieldOffset(lay, k) + lay.EntryWidth() - lay.InlineWidth();
            data[at..at + lay.InlineWidth()] == ValueBytes(lay, Fields(lay, g)[k])
  {
    hide Fields, PackEntry, TagAt, EntryAt, ValueBytes;
    PowValues();
    var f := Fields(lay, g)[k];
    TiffFields.EntryRead(data, PreambleOf(lay), k, f.tag, f.kind, f.count, ValueBytes(lay, f));
  }

  /** Every field under its tag. */
  ghost predicate Indexed(dir: TiffRead.Directory, lay: Layout, g: Grid)
    requires Writable(g)
  {
    forall k {:trigger Fields(lay, g)[k]} :: 0 <= k < ENTRY_COUNT ==>
      Fields(lay, g)[k].tag in dir && dir[Fields(lay, g)[k].tag] == EntryOf(lay, g, k)
  }

  lemma DirectoryRead(data: seq<byte>, lay: Layout, g: Grid)
    requires Writable(g) && Holds(data, lay, g) && Inside(data, PreambleOf(lay))
    ensures DirectoryUpTo(data, PreambleOf(lay), ENTRY_COUNT).Ok?
    ensures Indexed(DirectoryUpTo(data, PreambleOf(lay), ENTRY_COUNT).value, lay, g)
  {
    hide Fields, HoldsField, TagAt, EntryAt, DirectoryUpTo, PackSamples, FieldOffset, PackDoubles, Header, ValueBytes, EntryOf;
    FieldsIncrease(lay, g);
    var pre := PreambleOf(lay);
    forall k | 0 <= k < ENTRY_COUNT
      ensures TagAt(data, pre, k) == Fields(lay, g)[k].tag
      ensures EntryAt(data, pre, k) == EntryOf(lay, g, k)
    {
      FieldRead(data, lay, g, k);
    }
    DirectoryExact(data, pre, ENTRY_COUNT);
  }

  // ---- Values -----------------------------------------------------------------------------

  lemma ScalarPlaced(data: seq<byte>, lay: Layout, f: Field, e: Entry)
    requires Packable(f) && f.kind != 12 && e == Entry(f.kind, f.count, e.offset)
    requires e.offset + lay.EntryWidth() <= |data|
    requires var at := e.offset + lay.EntryWidth() - lay.InlineWidth();
             data[at..at + lay.InlineWidth()] == ValueBytes(lay, f)
    ensures IntegerKind(f.kind) && AllInRange(f.kind, [f.value])
    ensures Placed(data, lay, e, PackIntegers(lay, f.kind, [f.value]), 0)
  {
    hide PackWord;
    PowValues();
    var w := ValueWidth(f.kind);
    var at := e.offset + lay.EntryWidth() - lay.InlineWidth();
    assert Codes(f.kind, [f.value]) == [f.value];
    assert [f.value][1..] == [];
    assert PackIntegers(lay, f.kind, [f.value]) == PackWord(lay, f.value, w);
    SubSlice(data, at, lay.InlineWidth(), 0, w);
    assert ValueBytes(lay, f)[0..w] == PackWord(lay, f.value, w);
  }

  /** A short or long scalar is stored inside its entry. */
  lemma ScalarRead(dbl: Doubles, data: seq<byte>, lay: Layout, g: Grid, dir: TiffRead.Directory, k: nat, default: Option<int>)
    requires Writable(g) && Inside(data, PreambleOf(lay)) && k < ENTRY_COUNT && HoldsField(data, lay, g, k)
    requires Indexed(dir, lay, g) && EntriesInside(data, lay, dir) && Fields(lay, g)[k].kind != 12
    ensures Values(dbl, data, lay, dir[Fields(lay, g)[k].tag]) == Ok([Whole(Fields(lay, g)[k].value)])
    ensures Scalar(dbl, data, lay, dir, Fields(lay, g)[k].tag, default) == Ok(Fields(lay, g)[k].value)
  {
    hide Fields, ValueBytes, Placed, PackIntegers, FieldBytes, Values, IntegerKind, AllInRange;
    var f := Fields(lay, g)[k];
    var e := dir[f.tag];
    FieldRead(data, lay, g, k);
    ScalarPlaced(data, lay, f, e);
    IntegersRead(dbl, data, lay, e, [f.value], 0);
    assert seq(1, i requires 0 <= i < 1 => Whole([f.value][i])) == [Whole(f.value)];
  }

  lemma PointerPlaced(data: seq<byte>, lay: Layout, f: Field, e: Entry, bytes: seq<byte>)
    requires Packable(f) && f.kind == 12 && |bytes| == 8 * f.count && e == Entry(f.kind, f.count, e.offset)
    requires e.offset + lay.EntryWidth() <= |data|
    requires var at := e.offset + lay.EntryWidth() - lay.InlineWidth();
             data[at..at + lay.InlineWidth()] == ValueBytes(lay, f)
    requires f.value + |bytes| <= |data| && data[f.value..f.value + |bytes|] == bytes
    ensures Placed(data, lay, e, bytes, f.value)
  {
    hide PackWord;
    PowValues();
    assert ValueBytes(lay, f) == PackWord(lay, f.value, lay.InlineWidth());
  }

  /** A list of doubles is read where its entry points. */
  lemma ListRead(dbl: Doubles, data: seq<byte>, lay: Layout, g: Grid, dir: TiffRead.Directory, k: nat, values: seq<u64>)
    requires Writable(g) && Inside(data, PreambleOf(lay)) && k < ENTRY_COUNT && HoldsField(data, lay, g, k)
    requires Indexed(dir, lay, g) && EntriesInside(data, lay, dir)
    requires var f := Fields(lay, g)[k];
             && f.kind == 12 && f.count == |values| <= VALUE_LIMIT
             && f.value + 8 * |values| <= |data| && data[f.value..f.value + 8 * |values|] == PackDoubles(lay, values)
    ensures Values(dbl, data, lay, dir[Fields(lay, g)[k].tag]) == Ok(AsDoubles(values))
  {
    hide Fields, ValueBytes, Placed, PackDoubles, FieldBytes, Values;
    var f := Fields(lay, g)[k];
    FieldRead(data, lay, g, k);
    PointerPlaced(data, lay, f, dir[f.tag], PackDoubles(lay, values));
    DoublesRead(dbl, data, lay, dir[f.tag], values, f.value);
  }

  // ---- The round trip ---------------------------------------------------------------------

  /** What the decoder has in hand after the directory of a file that holds the grid. */
  ghost predicate Ready(data: seq<byte>, lay: Layout, g: Grid, dir: TiffRead.Directory)
    requires Writable(g)
  {
    Holds(data, lay, g) && Inside(data, PreambleOf(lay)) && Indexed(dir, lay, g) && EntriesInside(data, lay, dir)
  }

  lemma ReadyScalar(dbl: Doubles, data: seq<byte>, lay: Layout, g: Grid, dir: TiffRead.Directory, k: nat, default: Option<int>)
    requires Writable(g) && Ready(data, lay, g, dir) && EntriesInside(data, lay, dir)
    requires k < ENTRY_COUNT && Fields(lay, g)[k].kind != 12
    ensures Fields(lay, g)[k].tag in dir
    ensures Values(dbl, data, lay, dir[Fields(lay, g)[k].tag]) == Ok([Whole(Fields(lay, g)[k].value)])
    ensures Scalar(dbl, data, lay, dir, Fields(lay, g)[k].tag, default) == Ok(Fields(lay, g)[k].value)
  {
    hide Fields, Header, PackDoubles, PackSamples, HoldsField, Scalar, Values;
    ScalarRead(dbl, data, lay, g, dir, k, default);
  }

  lemma ShapeRead(dbl: Doubles, data: seq<byte>, lay: Layout, g: Grid, dir: TiffRead.Directory, kind: Kind)
    requires Writable(g) && Ready(data, lay, g, dir) && EntriesInside(data, lay, dir)
    ensures ReadShape(dbl, data, lay, dir, kind)
            == if g.width == 0 || g.height == 0 then Err(Dimensions)
               else if g.samples.U8? != (kind == FlowDir) then Err(SampleKind)
               else Ok(Shape(g.width, g.height, SampleWidth(kind)))
  {
    hide Ready, Scalar, Values, EntriesInside;
    ReadyScalar(dbl, data, lay, g, dir, 0, None);
    ReadyScalar(dbl, data, lay, g, dir, 1, None);
    ReadyScalar(dbl, data, lay, g, dir, 2, None);
    ReadyScalar(dbl, data, lay, g, dir, 3, Some(1));
    ReadyScalar(dbl, data, lay, g, dir, 6, Some(1));
    ReadyScalar(dbl, data, lay, g, dir, 10, Some(1));
  }

  lemma IntegersOfOne(dbl: Doubles, n: int)
    ensures Integers(dbl, [Whole(n)]) == Ok([n])
  {
    assert Integers(dbl, [Whole(n)][1..]) == Ok([]);
    assert [n] + [] == [n];
  }

  lemma IndexRead(dbl: Doubles, data: seq<byte>, lay: Layout, g: Grid, dir: TiffRead.Directory)
    requires Writable(g) && Ready(data, lay, g, dir) && EntriesInside(data, lay, dir)
    ensures ReadIndex(dbl, data, lay, dir) == Ok(([PixelsOffset(lay)], [PixelLength(g)]))
  {
    hide Ready, Scalar, Values, EntriesInside;
    ReadyScalar(dbl, data, lay, g, dir, 5, None);
    ReadyScalar(dbl, data, lay, g, dir, 8, None);
    IntegersOfOne(dbl, PixelsOffset(lay));
    IntegersOfOne(dbl, PixelLength(g));
    assert Fields(lay, g)[5].tag == 273 && Fields(lay, g)[8].tag == 279;
  }

  lemma ReadyList(dbl: Doubles, data: seq<byte>, lay: Layout, g: Grid, dir: TiffRead.Directory, k: nat)
    requires Writable(g) && Ready(data, lay, g, dir) && EntriesInside(data, lay, dir)
    requires 11 <= k < ENTRY_COUNT
    ensures Fields(lay, g)[k].tag in dir
    ensures Values(dbl, data, lay, dir[Fields(lay, g)[k].tag]) == Ok(AsDoubles(if k == 11 then Scale(g) else Tie(g)))
  {
    assert Fields(lay, g)[11] == Field(33550, 12, 3, ScaleOffset(lay)) && Fields(lay, g)[12] == Field(33922, 12, 6, TieOffset(lay));
    hide Fields, Header, PackDoubles, PackSamples, HoldsField, Values, AsDoubles;
    ListRead(dbl, data, lay, g, dir, k, if k == 11 then Scale(g) else Tie(g));
  }

  lemma GeotransformRead(dbl: Doubles, data: seq<byte>, lay: Layout, g: Grid, dir: TiffRead.Directory)
    requires Writable(g) && Ready(data, lay, g, dir) && EntriesInside(data, lay, dir)
    ensures ReadGeotransform(dbl, data, lay, dir)
            == if NonPositive(g.scaleX) || NonPositive(g.scaleY) then Err(TiffError.Geotransform) else Ok(Placement(dbl, g))
  {
    hide Ready, Values, EntriesInside, AsDoubles;
    ReadyList(dbl, data, lay, g, dir, 11);
    ReadyList(dbl, data, lay, g, dir, 12);
    assert Fields(lay, g)[11].tag == 33550 && Fields(lay, g)[12].tag == 33922;
    assert |AsDoubles(Scale(g))| == 3 && |AsDoubles(Tie(g))| == 6;
  }

  /** Where the decoder puts the grid. */
  function Placement(dbl: Doubles, g: Grid): Geotransform {
    Transform(
      dbl.minus(g.tieX, dbl.times(g.tieI, g.scaleX)), dbl.plus(g.tieY, dbl.times(g.tieJ, g.scaleY)),
      g.scaleX, Negate(g.scaleY))
  }

  lemma ChunksRead(data: seq<byte>, lay: Layout, g: Grid)
    requires Writable(g) && Holds(data, lay, g)
    ensures var n := PixelLength(g);
            ChunksUpTo(data, [PixelsOffset(lay)], [n], 1)
            == if n >= CHUNK_CEILING then Err(NoMargin) else Ok(Chunks(PixelBytes(lay, g), n))
  {
    hide PixelBytes, HoldsField, Header, PackDoubles;
    var n, at := PixelLength(g), PixelsOffset(lay);
    assert ChunksUpTo(data, [at], [n], 0) == Ok(Chunks([], 0));
    assert data[at..at + n] == data[at..];
    assert [] + PixelBytes(lay, g) == PixelBytes(lay, g);
  }

  lemma PositiveArea(g: Grid)
    requires Writable(g) && g.width > 0 && g.height > 0
    ensures g.width * g.height == g.samples.Count() > 0
  {
  }

  /** A grid comes back if it has cells, its bytes stay under the chunk ceiling, its pixels have a size and
      its samples are of the type the raster needs; otherwise the decoder refuses the file. */
  predicate Readable(g: Grid, kind: Kind) {
    && g.width > 0 && g.height > 0
    && (g.samples.U8? <==> kind == FlowDir)
    && PixelLength(g) < CHUNK_CEILING
    && !NonPositive(g.scaleX) && !NonPositive(g.scaleY)
  }

  function WindowOfGrid(dbl: Doubles, g: Grid): Window
    requires g.width >= 0 && g.height >= 0
  {
    var at := Placement(dbl, g);
    Window(g.width, g.height, g.samples, at.originX, at.originY, at.pixelWidth, at.pixelHeight, PixelLength(g))
  }

  lemma EntriesRead(dbl: Doubles, data: seq<byte>, lay: Layout, g: Grid, dir: TiffRead.Directory, kind: Kind)
    requires Writable(g) && Ready(data, lay, g, dir) && EntriesInside(data, lay, dir)
    ensures var r := DecodeEntries(dbl, data, lay, dir, kind);
            && (r.Ok? <==> Readable(g, kind))
            && (r.Ok? ==> r.value == WindowOfGrid(dbl, g))
  {
    hide Holds, Indexed, ReadShape, ReadIndex, ReadGeotransform, ChunksUpTo, PixelBytes, Placement, UnpackSamples, EntriesInside, Fields, NonPositive;
    ShapeRead(dbl, data, lay, g, dir, kind);
    IndexRead(dbl, data, lay, g, dir);
    ChunksRead(data, lay, g);
    GeotransformRead(dbl, data, lay, g, dir);
    if g.width > 0 && g.height > 0 && (g.samples.U8? <==> kind == FlowDir) {
      PositiveArea(g);
      PixelsRead(lay, g, kind);
      assert PixelLength(g) == g.width * g.height * SampleWidth(kind);
    }
  }

  lemma PixelsRead(lay: Layout, g: Grid, kind: Kind)
    requires g.samples.U8? <==> kind == FlowDir
    ensures |PixelBytes(lay, g)| == PixelLength(g) == g.samples.Count() * SampleWidth(kind)
    ensures UnpackSamples(kind, lay, PixelBytes(lay, g), g.samples.Count()) == g.samples
  {
    SamplesRead(kind, lay, g.samples);
  }

  /** Decoding a written file, in either byte order and either flavour: accepted exactly when the grid is readable,
      and then the very grid comes back. */
  lemma RoundTrip(dbl: Doubles, lay: Layout, g: Grid, kind: Kind)
    requires Writable(g)
    ensures var r := Decode(dbl, TiffBytes(lay, g), kind);
            && (r.Ok? <==> Readable(g, kind))
            && (r.Ok? ==> r.value == WindowOfGrid(dbl, g))
  {
    hide *;
    var data := TiffBytes(lay, g);
    FixtureHolds(lay, g);
    PreambleRead(data, lay, g);
    DirectoryRead(data, lay, g);
    RoundTripSteps(dbl, data, lay, g, kind);
  }

  lemma RoundTripSteps(dbl: Doubles, data: seq<byte>, lay: Layout, g: Grid, kind: Kind)
    requires Writable(g) && Holds(data, lay, g)
    requires ParsePreamble(data) == Ok(PreambleOf(lay)) && Inside(data, PreambleOf(lay))
    requires DirectoryUpTo(data, PreambleOf(lay), ENTRY_COUNT).Ok?
    requires Indexed(DirectoryUpTo(data, PreambleOf(lay), ENTRY_COUNT).value, lay, g)
    ensures var r := Decode(dbl, data, kind);
            && (r.Ok? <==> Readable(g, kind))
            && (r.Ok? ==> r.value == WindowOfGrid(dbl, g))
  {
    hide Holds, Indexed, Readable, Placement, PixelBytes, DecodeEntries, ParsePreamble, DirectoryUpTo, WindowOfGrid;
    EntriesRead(dbl, data, lay, g, DirectoryUpTo(data, PreambleOf(lay), ENTRY_COUNT).value, kind);
  }

  /** A file says the same in all four layouts. */
  lemma LayoutsAgree(dbl: Doubles, a: Layout, b: Layout, g: Grid, kind: Kind)
    requires Writable(g)
    ensures Decode(dbl, TiffBytes(a, g), kind).Ok? <==> Decode(dbl, TiffBytes(b, g), kind).Ok?
    ensures Decode(dbl, TiffBytes(a, g), kind).Ok? ==> Decode(dbl, TiffBytes(a, g), kind) == Decode(dbl, TiffBytes(b, g), kind)
  {
    hide *;
    RoundTrip(dbl, a, g, kind);
    RoundTrip(dbl, b, g, kind);
  }

  // ---- The placement ----------------------------------------------------------------------

  predicate NotANumber(bits: u64) {
    Abs(bits) > INFINITE
  }

  /** IEEE 754 sections 6.1 to 6.3, for zeros: zero times a non-negative double, taking away positive zero, adding it,
      and what a NaN makes of a sum or a difference. */
  ghost predicate ZeroLaws(dbl: Doubles) {
    && (forall x: u64 :: x < INFINITE ==> dbl.times(ZERO, x) == ZERO)
    && (forall x: u64 :: INFINITE <= x < NEGATIVE_ZERO ==> NotANumber(dbl.times(ZERO, x)))
    && (forall y: u64 :: !NotANumber(y) ==> dbl.minus(y, ZERO) == y)
    && (forall y: u64 :: !NotANumber(y) ==> dbl.plus(y, ZERO) == if y == NEGATIVE_ZERO then ZERO else y)
    && (forall y: u64, z: u64 :: NotANumber(y) || NotANumber(z) ==> NotANumber(dbl.plus(y, z)) && NotANumber(dbl.minus(y, z)))
  }

  /** A window tied at its first pixel, as published windows and fixtures are: the place and the pixel size come back
      bit for bit exactly when both sizes are finite and the northing is not negative zero; a coordinate is lost to a
      NaN exactly when it was one or its pixel size is not finite. */
  lemma PlacementExact(dbl: Doubles, g: Grid)
    requires ZeroLaws(dbl) && g.tieI == ZERO && g.tieJ == ZERO && g.scaleX < NEGATIVE_ZERO && g.scaleY < NEGATIVE_ZERO
    ensures !NotANumber(g.tieX) && !NotANumber(g.tieY) ==>
              (Placement(dbl, g) == Transform(g.tieX, g.tieY, g.scaleX, Negate(g.scaleY)) <==>
               Finite(g.scaleX) && Finite(g.scaleY) && g.tieY != NEGATIVE_ZERO)
    ensures NotANumber(Placement(dbl, g).originX) <==> NotANumber(g.tieX) || !Finite(g.scaleX)
    ensures NotANumber(Placement(dbl, g).originY) <==> NotANumber(g.tieY) || !Finite(g.scaleY)
  {
    var sx, sy := g.scaleX, g.scaleY;
    assert sx < INFINITE ==> dbl.times(ZERO, sx) == ZERO;
    assert sy < INFINITE ==> dbl.times(ZERO, sy) == ZERO;
    assert sx >= INFINITE ==> NotANumber(dbl.minus(g.tieX, dbl.times(ZERO, sx)));
    assert sy >= INFINITE ==> NotANumber(dbl.plus(g.tieY, dbl.times(ZERO, sy)));
  }

  /** The size of a fixture's pixel comes back with its sign exactly when it is written with a negative one. */
  lemma FixturePlaced(dbl: Doubles, samples: Samples, width: int, height: int, originY: u64, pixelHeight: u64)
    requires ZeroLaws(dbl) && !NotANumber(originY)
    ensures Placement(dbl, Fixture(samples, width, height, originY, pixelHeight)) == Transform(ZERO, originY, ONE, pixelHeight) <==>
            Finite(pixelHeight) && pixelHeight >= NEGATIVE_ZERO && originY != NEGATIVE_ZERO
  {
    PlacementExact(dbl, Fixture(samples, width, height, originY, pixelHeight));
  }

  /** Arithmetic that is exact where the decoder uses it, with `value` what a double denotes. */
  predicate ExactAt(dbl: Doubles, value: u64 -> real, i: u64, scale: u64, at: u64) {
    && value(dbl.times(i, scale)) == value(i) * value(scale)
    && value(dbl.minus(at, dbl.times(i, scale))) == value(at) - value(dbl.times(i, scale))
    && value(dbl.plus(at, dbl.times(i, scale))) == value(at) + value(dbl.times(i, scale))
  }

  /** The transform carries raster position (i, j) to (x, y). */
  predicate Carries(value: u64 -> real, geo: Geotransform, i: u64, j: u64, x: u64, y: u64) {
    && value(geo.originX) + value(i) * value(geo.pixelWidth) == value(x)
    && value(geo.originY) + value(j) * value(geo.pixelHeight) == value(y)
  }

  lemma TieCarried(dbl: Doubles, value: u64 -> real, sx: u64, sy: u64, i: u64, j: u64, x: u64, y: u64)
    requires value(Negate(sy)) == -value(sy) && ExactAt(dbl, value, i, sx, x) && ExactAt(dbl, value, j, sy, y)
    ensures Carries(value, Transform(dbl.minus(x, dbl.times(i, sx)), dbl.plus(y, dbl.times(j, sy)), sx, Negate(sy)), i, j, x, y)
  {
    assert value(j) * -value(sy) == -(value(j) * value(sy));
  }

  /** Whatever the file: an accepted geotransform has the file's pixel size, rows running downwards, and, where the
      arithmetic is exact, carries the tied raster position to its place. */
  lemma GeotransformTied(dbl: Doubles, value: u64 -> real, data: seq<byte>, lay: Layout, dir: TiffRead.Directory)
    requires EntriesInside(data, lay, dir) && ReadGeotransform(dbl, data, lay, dir).Ok?
    ensures 33550 in dir && 33922 in dir
    ensures Values(dbl, data, lay, dir[33550]).Ok? && Values(dbl, data, lay, dir[33922]).Ok?
    ensures var geo := ReadGeotransform(dbl, data, lay, dir).value;
            var scale, tie := Values(dbl, data, lay, dir[33550]).value, Values(dbl, data, lay, dir[33922]).value;
            && |scale| >= 2 && |tie| >= 6
            && var sx, sy := scale[0].AsDouble(dbl), scale[1].AsDouble(dbl);
               var i, j, x, y := tie[0].AsDouble(dbl), tie[1].AsDouble(dbl), tie[3].AsDouble(dbl), tie[4].AsDouble(dbl);
               && geo.pixelWidth == sx && geo.pixelHeight == Negate(sy)
               && (value(Negate(sy)) == -value(sy) && ExactAt(dbl, value, i, sx, x) && ExactAt(dbl, value, j, sy, y) ==>
                     Carries(value, geo, i, j, x, y))
  {
    hide Values, Negate, ExactAt, Carries;
    var scale, tie := Values(dbl, data, lay, dir[33550]).value, Values(dbl, data, lay, dir[33922]).value;
    var sx, sy := scale[0].AsDouble(dbl), scale[1].AsDouble(dbl);
    var i, j, x, y := tie[0].AsDouble(dbl), tie[1].AsDouble(dbl), tie[3].AsDouble(dbl), tie[4].AsDouble(dbl);
    if value(Negate(sy)) == -value(sy) && ExactAt(dbl, value, i, sx, x) && ExactAt(dbl, value, j, sy, y) {
      TieCarried(dbl, value, sx, sy, i, j, x, y);
    }
  }
}
