/** A writer of windows in all four layouts, with any scale and tie point, and the fixture writer, whose files are
    little-endian TIFF tied at the first pixel. */
module TiffWrite {
  import opened Arith
  import opened Bytes
  import opened LexOrder
  import opened Results
  import opened TiffRead
  import opened TiffFields

  /** A window: samples in row-major order, the size of a pixel, and the raster position that is tied to a place, all as
      doubles. */
  datatype Grid = Grid(
    samples: Samples, width: int, height: int, scaleX: u64, scaleY: u64, tieI: u64, tieJ: u64, tieX: u64, tieY: u64)

  /** What the fixture writer makes of its arguments. */
  function Fixture(samples: Samples, width: int, height: int, originY: u64, pixelHeight: u64): Grid {
    Grid(samples, width, height, ONE, Abs(pixelHeight), ZERO, ZERO, ZERO, originY)
  }

  datatype Field = Field(tag: u16, kind: u16, count: u32, value: u32)

  const LITTLE := Layout(true, false)
  const ENTRY_COUNT := 13

  // ---- Where everything is ----------------------------------------------------------------

  function FirstEntry(lay: Layout): nat {
    if lay.big then 24 else 10
  }

  function ScaleOffset(lay: Layout): nat {
    FirstEntry(lay) + ENTRY_COUNT * lay.EntryWidth() + lay.InlineWidth()
  }

  function TieOffset(lay: Layout): nat {
    ScaleOffset(lay) + 24
  }

  function PixelsOffset(lay: Layout): nat {
    TieOffset(lay) + 48
  }

  // ---- The bytes of a file ----------------------------------------------------------------

  predicate Fits(n: int) {
    0 <= n < U32_LIMIT
  }

  function PixelBytes(lay: Layout, g: Grid): seq<byte> {
    PackSamples(lay, g.samples)
  }

  function PixelLength(g: Grid): nat {
    g.samples.Count() * (if g.samples.U8? then 1 else 4)
  }

  predicate Writable(g: Grid) {
    g.width * g.height == g.samples.Count() && Fits(g.width) && Fits(g.height) && Fits(PixelLength(g))
  }

  /** The entries in the order the writer adds them. */
  function Fields(lay: Layout, g: Grid): (fields: seq<Field>)
    requires Writable(g)
    ensures |fields| == ENTRY_COUNT
  {
    [ Field(256, 4, 1, g.width), Field(257, 4, 1, g.height),
      Field(258, 3, 1, if g.samples.U8? then 8 else 32), Field(259, 3, 1, 1),
      Field(262, 3, 1, 1), Field(273, 4, 1, PixelsOffset(lay)), Field(277, 3, 1, 1),
      Field(278, 4, 1, g.height), Field(279, 4, 1, PixelLength(g)), Field(284, 3, 1, 1),
      Field(339, 3, 1, if g.samples.U8? then 1 else 3),
      Field(33550, 12, 3, ScaleOffset(lay)), Field(33922, 12, 6, TieOffset(lay)) ]
  }

  predicate FieldLess(a: Field, b: Field) {
    || a.tag < b.tag
    || (a.tag == b.tag && a.kind < b.kind)
    || (a.tag == b.tag && a.kind == b.kind && a.count < b.count)
    || (a.tag == b.tag && a.kind == b.kind && a.count == b.count && a.value < b.value)
  }

  predicate Increasing(fields: seq<Field>) {
    forall i, j :: 0 <= i < j < |fields| ==> fields[i].tag < fields[j].tag
  }

  lemma FieldsIncrease(lay: Layout, g: Grid)
    requires Writable(g)
    ensures Increasing(Fields(lay, g))
  {
  }

  /** Sorting keeps entries whose tags already increase. */
  lemma SortedFields(fields: seq<Field>)
    requires Increasing(fields)
    ensures SortBy(FieldLess, fields) == fields
  {
    SortOfSorted(FieldLess, fields);
  }

  /** A short scalar, a long scalar, or a list of doubles elsewhere in the file. */
  predicate Packable(f: Field) {
    if f.kind == 3 then f.count == 1 && f.value < 0x1_0000 else if f.kind == 4 then f.count == 1 else f.kind == 12 && f.count > 1
  }

  predicate AllPackable(fields: seq<Field>) {
    forall i :: 0 <= i < |fields| ==> Packable(fields[i])
  }

  lemma FieldsPackable(lay: Layout, g: Grid)
    requires Writable(g)
    ensures AllPackable(Fields(lay, g))
  {
  }

  /** The value field: a scalar on the left of it, or a pointer filling it. */
  function ValueBytes(lay: Layout, f: Field): (field: seq<byte>)
    requires Packable(f)
    ensures |field| == lay.InlineWidth()
  {
    PowValues();
    var width := if f.kind == 12 then lay.InlineWidth() else ValueWidth(f.kind);
    PackWord(lay, f.value, width) + seq(lay.InlineWidth() - width, _ => 0)
  }

  function FieldBytes(lay: Layout, f: Field): (row: seq<byte>)
    requires Packable(f)
    ensures |row| == lay.EntryWidth()
  {
    PowValues();
    PackEntry(lay, f.tag, f.kind, f.count, ValueBytes(lay, f))
  }

  function Rows(lay: Layout, fields: seq<Field>): (rows: seq<seq<byte>>)
    requires AllPackable(fields)
    ensures |rows| == |fields| && AllLen(rows, lay.EntryWidth())
  {
    seq(|fields|, i requires 0 <= i < |fields| => FieldBytes(lay, fields[i]))
  }

  /** Byte order, magic number, the directory's place and its number of entries. */
  function Header(lay: Layout): (h: seq<byte>)
    ensures |h| == FirstEntry(lay)
  {
    PowValues();
    (if lay.little then [0x49, 0x49] else [0x4D, 0x4D])
    + (if lay.big
       then PackWord(lay, 43, 2) + PackWord(lay, 8, 2) + PackWord(lay, 0, 2) + PackWord(lay, 16, 8) + PackWord(lay, ENTRY_COUNT, 8)
       else PackWord(lay, 42, 2) + PackWord(lay, 8, 4) + PackWord(lay, ENTRY_COUNT, 2))
  }

  function DirectoryBytes(lay: Layout, g: Grid): (raw: seq<byte>)
    requires Writable(g)
    ensures |raw| == ENTRY_COUNT * lay.EntryWidth()
  {
    FieldsPackable(lay, g);
    FlattenLength(Rows(lay, Fields(lay, g)), lay.EntryWidth());
    Flatten(Rows(lay, Fields(lay, g)))
  }

  function Scale(g: Grid): seq<u64> {
    [g.scaleX, g.scaleY, ZERO]
  }

  function Tie(g: Grid): seq<u64> {
    [g.tieI, g.tieJ, ZERO, g.tieX, g.tieY, ZERO]
  }

  /** The whole file. */
  function TiffBytes(lay: Layout, g: Grid): (data: seq<byte>)
    requires Writable(g)
    ensures |data| == PixelsOffset(lay) + PixelLength(g)
  {
    Header(lay) + DirectoryBytes(lay, g) + seq(lay.InlineWidth(), _ => 0)
    + PackDoubles(lay, Scale(g)) + PackDoubles(lay, Tie(g)) + PixelBytes(lay, g)
  }

  /** What the writer packs for one entry. */
  function FixtureRow(f: Field): (row: seq<byte>)
    requires Packable(f)
  {
    PowValues();
    LeBytes(f.tag, 2) + LeBytes(f.kind, 2) + LeBytes(f.count, 4)
    + if f.kind == 3 && f.count == 1 then LeBytes(f.value, 2) + [0, 0] else LeBytes(f.value, 4)
  }

  lemma FixtureRowBytes(f: Field)
    requires Packable(f)
    ensures FixtureRow(f) == FieldBytes(LITTLE, f)
  {
    hide LeBytes;
    PowValues();
    assert seq(2, _ => 0) == [0, 0];
    assert seq(0, _ => 0) == [];
    var field := ValueBytes(LITTLE, f);
    assert field == if f.kind == 3 then LeBytes(f.value, 2) + [0, 0] else LeBytes(f.value, 4);
  }

  /** The fixture's entries, with the offsets a little-endian TIFF of thirteen entries has. */
  function FixtureFields(samples: Samples, width: u32, height: u32, length: u32): seq<Field> {
    [ Field(256, 4, 1, width), Field(257, 4, 1, height),
      Field(258, 3, 1, if samples.U8? then 8 else 32), Field(259, 3, 1, 1),
      Field(262, 3, 1, 1), Field(273, 4, 1, 242), Field(277, 3, 1, 1),
      Field(278, 4, 1, height), Field(279, 4, 1, length), Field(284, 3, 1, 1),
      Field(339, 3, 1, if samples.U8? then 1 else 3),
      Field(33550, 12, 3, 170), Field(33922, 12, 6, 194) ]
  }

  lemma FixtureEntries(samples: Samples, width: int, height: int, originY: u64, pixelHeight: u64)
    ensures var g := Fixture(samples, width, height, originY, pixelHeight);
            Writable(g) ==> FixtureFields(samples, width, height, PixelLength(g)) == Fields(LITTLE, g)
  {
  }

  /** `_write_fixture_tiff`: misuse and values too wide for their fields are errors. */
  method WriteFixture(samples: Samples, width: int, height: int, originY: u64, pixelHeight: u64)
    returns (r: Result<seq<byte>, TiffError>)
    ensures var g := Fixture(samples, width, height, originY, pixelHeight);
            r == if g.width * g.height != g.samples.Count() then Err(SampleCount)
                 else if !Writable(g) then Err(DoesNotFit)
                 else Ok(TiffBytes(LITTLE, g))
  {
    ghost var g := Fixture(samples, width, height, originY, pixelHeight);
    hide SortBy, Fields, FixtureFields, FieldBytes, FixtureRow, PackDoubles, Header, PackSamples;
    FixtureEntries(samples, width, height, originY, pixelHeight);
    if width * height != samples.Count() {
      return Err(SampleCount);
    }
    var pixels := PackSamples(LITTLE, samples);
    if !Fits(width) || !Fits(height) || !Fits(|pixels|) {
      return Err(DoesNotFit);
    }
    FieldsIncrease(LITTLE, g);
    FieldsPackable(LITTLE, g);
    SortedFields(Fields(LITTLE, g));
    var entries := FixtureFields(samples, width, height, |pixels|);
    var fields := SortBy(FieldLess, entries);
    ghost var rows := Rows(LITTLE, fields);
    var output := Header(LITTLE);
    assert rows[..0] == [] && output + Flatten(rows[..0]) == output;
    for k := 0 to |fields|
      invariant output == Header(LITTLE) + Flatten(rows[..k])
    {
      assert rows[..k + 1][..k] == rows[..k];
      FixtureRowBytes(fields[k]);
      output := output + FixtureRow(fields[k]);
    }
    assert rows[..|fields|] == rows;
    output := output + [0, 0, 0, 0];
    assert [0, 0, 0, 0] == seq(LITTLE.InlineWidth(), _ => 0);
    output := output + PackDoubles(LITTLE, [ONE, Abs(pixelHeight), ZERO]);
    output := output + PackDoubles(LITTLE, [ZERO, ZERO, ZERO, ZERO, originY, ZERO]);
    output := output + pixels;
    return Ok(output);
  }

  // ---- Holding a grid ---------------------------------------------------------------------

  function FieldOffset(lay: Layout, k: nat): nat {
    FirstEntry(lay) + k * lay.EntryWidth()
  }

  /** Entry `k` of the file is field `k` of the grid. */
  predicate HoldsField(data: seq<byte>, lay: Layout, g: Grid, k: nat)
    requires Writable(g) && k < ENTRY_COUNT
  {
    && FieldOffset(lay, k) + lay.EntryWidth() <= |data| && Packable(Fields(lay, g)[k])
    && data[FieldOffset(lay, k)..FieldOffset(lay, k) + lay.EntryWidth()] == FieldBytes(lay, Fields(lay, g)[k])
  }

  /** A file holding the pieces of a grid at their offsets. */
  ghost predicate Holds(data: seq<byte>, lay: Layout, g: Grid)
    requires Writable(g)
  {
    && |data| == PixelsOffset(lay) + PixelLength(g)
    && data[..FirstEntry(lay)] == Header(lay)
    && (forall k :: 0 <= k < ENTRY_COUNT ==> HoldsField(data, lay, g, k))
    && data[ScaleOffset(lay)..ScaleOffset(lay) + 24] == PackDoubles(lay, Scale(g))
    && data[TieOffset(lay)..TieOffset(lay) + 48] == PackDoubles(lay, Tie(g))
    && data[PixelsOffset(lay)..] == PixelBytes(lay, g)
  }

  lemma Concatenated(h: seq<byte>, d: seq<byte>, z: seq<byte>, s: seq<byte>, t: seq<byte>, p: seq<byte>, data: seq<byte>)
    requires data == h + d + z + s + t + p
    ensures var a := |h| + |d|;
            var b := a + |z|;
            var c := b + |s|;
            var e := c + |t|;
            && data[..|h|] == h && data[|h|..a] == d && data[b..c] == s && data[c..e] == t && data[e..] == p
  {
  }

  /** The written file holds every piece where its entries say. */
  lemma FixtureHolds(lay: Layout, g: Grid)
    requires Writable(g)
    ensures Holds(TiffBytes(lay, g), lay, g)
  {
    hide Fields, FieldBytes, PackDoubles, Header, PackSamples, Flatten;
    var data := TiffBytes(lay, g);
    Concatenated(Header(lay), DirectoryBytes(lay, g), seq(lay.InlineWidth(), _ => 0), PackDoubles(lay, Scale(g)),
                 PackDoubles(lay, Tie(g)), PixelBytes(lay, g), data);
    forall k | 0 <= k < ENTRY_COUNT
      ensures HoldsField(data, lay, g, k)
    {
      RowHeld(data, lay, g, k);
    }
  }

  lemma RowHeld(data: seq<byte>, lay: Layout, g: Grid, k: nat)
    requires Writable(g) && k < ENTRY_COUNT && ScaleOffset(lay) <= |data|
    requires data[FirstEntry(lay)..FirstEntry(lay) + ENTRY_COUNT * lay.EntryWidth()] == DirectoryBytes(lay, g)
    ensures HoldsField(data, lay, g, k)
  {
    hide Fields, FieldBytes, Flatten;
    FieldsPackable(lay, g);
    var w := lay.EntryWidth();
    RowSlice(Rows(lay, Fields(lay, g)), w, k);
    SubSlice(data, FirstEntry(lay), ENTRY_COUNT * w, k * w, w);
  }
}
