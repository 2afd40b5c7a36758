/** A whole remote object for the reader to be measured against: a TIFF or BigTIFF file with one tiled image. */
module CogObject {
  import opened Arith
  import opened Bytes
  import opened Results
  import opened CogModel
  import opened CogWindow
  import opened CogStitch
  import opened CogDecode
  import opened CogIfd
  import opened CogStore
  import opened CogIndex
  import opened CogFetch
  import opened CogLocalize
  import opened CogWriter

  /** What the writer is told, apart from the samples; the transform fields are the bytes of their doubles, and the
      nodata text is given as its bytes. */
  datatype Image = Image(
    format: Format, width: u32, height: u32, tileWidth: u32, tileHeight: u32, sampleType: SampleType, predictor: u16,
    scale: seq<byte>, tiepoint: seq<byte>, nodata: Option<seq<byte>>)
  {
    predicate Valid() {
      && width > 0 && height > 0 && tileWidth > 0 && tileHeight > 0 && |scale| == 24 && |tiepoint| == 48
      && (nodata.Some? ==> 0 < |nodata.value| <= MAX_REMOTE_ASCII_BYTES)
    }

    /** Bytes of an offset, and of an index value. */
    function Width(): nat {
      format.InlineWidth()
    }

    function Text(): seq<byte> {
      if nodata.Some? then nodata.value else []
    }

    function EntryCount(): nat {
      if nodata.Some? then 16 else 15
    }
  }

  // ---- Where everything is ----------------------------------------------------------------

  function EntriesStart(im: Image): nat {
    16 + im.format.CountWidth()
  }

  function EntriesEnd(im: Image): (at: nat)
    ensures at >= EntriesStart(im)
  {
    EntriesStart(im) + im.EntryCount() * im.format.EntryWidth()
  }

  function ScaleStart(im: Image): nat {
    EntriesEnd(im) + im.Width()
  }

  function TieStart(im: Image): nat {
    ScaleStart(im) + 24
  }

  function TextStart(im: Image): nat {
    TieStart(im) + 48
  }

  function IndexStart(im: Image): nat {
    TextStart(im) + |im.Text()|
  }

  function LengthsStart(im: Image, n: nat): (at: nat)
    ensures at >= IndexStart(im)
  {
    IndexStart(im) + n * im.Width()
  }

  function ChunksStart(im: Image, n: nat): (at: nat)
    ensures at >= LengthsStart(im, n)
  {
    LengthsStart(im, n) + n * im.Width()
  }

  function ChunkStart(im: Image, chunks: seq<seq<byte>>, i: nat): nat
    requires i <= |chunks|
  {
    ChunksStart(im, |chunks|) + |Flatten(chunks[..i])|
  }

  function FileLength(im: Image, chunks: seq<seq<byte>>): nat {
    ChunkStart(im, chunks, |chunks|)
  }

  function Limit(f: Format): nat {
    if f.Classic? then U32_LIMIT else U64_LIMIT
  }

  /** There is a tile, and offsets of the format reach the end of the file. */
  predicate Storable(im: Image, chunks: seq<seq<byte>>) {
    chunks != [] && FileLength(im, chunks) < Limit(im.format)
  }

  // ---- The tile index ---------------------------------------------------------------------

  function Starts(im: Image, chunks: seq<seq<byte>>): (values: seq<nat>)
    ensures |values| == |chunks|
  {
    seq(|chunks|, i requires 0 <= i < |chunks| => ChunkStart(im, chunks, i))
  }

  function Lengths(chunks: seq<seq<byte>>): (values: seq<nat>)
    ensures |values| == |chunks|
  {
    seq(|chunks|, i requires 0 <= i < |chunks| => |chunks[i]|)
  }

  predicate AllBelow(values: seq<nat>, limit: nat) {
    forall i :: 0 <= i < |values| ==> values[i] < limit
  }

  lemma {:induction false} PrefixLength(chunks: seq<seq<byte>>, i: nat)
    requires i < |chunks|
    ensures |Flatten(chunks[..i])| + |chunks[i]| <= |Flatten(chunks)|
    ensures Flatten(chunks)[|Flatten(chunks[..i])|..|Flatten(chunks[..i])| + |chunks[i]|] == chunks[i]
    decreases |chunks|
  {
    var last := |chunks| - 1;
    if i < last {
      var init := chunks[..last];
      PrefixLength(init, i);
      assert init[..i] == chunks[..i];
      assert Flatten(chunks) == Flatten(init) + chunks[last];
    }
  }

  lemma CountBelow(n: nat, width: nat)
    requires width > 0
    ensures n <= n * width
  {
    MulMono(1, width, n);
  }

  lemma IndexBelow(im: Image, chunks: seq<seq<byte>>)
    requires Storable(im, chunks)
    ensures AllBelow(Starts(im, chunks), Limit(im.format)) && AllBelow(Lengths(chunks), Limit(im.format))
    ensures |chunks| < Limit(im.format)
  {
    CountBelow(|chunks|, im.Width());
    assert chunks[..|chunks|] == chunks;
    forall i | 0 <= i < |chunks|
      ensures ChunkStart(im, chunks, i) < Limit(im.format) && |chunks[i]| < Limit(im.format)
    {
      PrefixLength(chunks, i);
    }
  }

  /** One little-endian word a value. */
  function WordRows(f: Format, values: seq<nat>): (rows: seq<seq<byte>>)
    requires AllBelow(values, Limit(f))
    ensures |rows| == |values| && AllLen(rows, f.InlineWidth())
  {
    PowValues();
    seq(|values|, i requires 0 <= i < |values| => LeBytes(values[i], f.InlineWidth()))
  }

  function Words(f: Format, values: seq<nat>): (bs: seq<byte>)
    requires AllBelow(values, Limit(f))
    ensures |bs| == |values| * f.InlineWidth()
  {
    FlattenLength(WordRows(f, values), f.InlineWidth());
    Flatten(WordRows(f, values))
  }

  /** An index field: one value in its entry, or an array where the entry points. */
  function IndexOf(f: Format, values: seq<nat>, start: u64): IndexDescriptor
    requires AllBelow(values, Limit(f)) && 0 < |values| < Limit(f)
  {
    IndexDescriptor(if f.Classic? then 4 else 16, f.InlineWidth(), |values|,
                    if |values| == 1 then InlineScalar(values[0]) else OutOfLine(start))
  }

  lemma StartsBelow(im: Image, chunks: seq<seq<byte>>)
    requires Storable(im, chunks)
    ensures IndexStart(im) <= LengthsStart(im, |chunks|) <= ChunksStart(im, |chunks|) <= FileLength(im, chunks) < U64_LIMIT
  {
  }

  function Offsets(im: Image, chunks: seq<seq<byte>>): IndexDescriptor
    requires Storable(im, chunks)
  {
    IndexBelow(im, chunks);
    StartsBelow(im, chunks);
    IndexOf(im.format, Starts(im, chunks), IndexStart(im))
  }

  function Counts(im: Image, chunks: seq<seq<byte>>): IndexDescriptor
    requires Storable(im, chunks)
  {
    IndexBelow(im, chunks);
    StartsBelow(im, chunks);
    IndexOf(im.format, Lengths(chunks), LengthsStart(im, |chunks|))
  }

  // ---- The directory ----------------------------------------------------------------------

  function Bits(t: SampleType): u16 {
    8 * SampleWidth(t)
  }

  function FormatTag(t: SampleType): u16 {
    match t
    case U8 => 1
    case I8 => 2
    case F32 => 3
    case I32 => 2
  }

  function Long(tag: u16, value: u32): IfdEntry {
    IfdEntry(tag, 4, 1, value)
  }

  function IndexEntry(tag: u16, d: IndexDescriptor): IfdEntry {
    IfdEntry(tag, d.fieldType, d.count, match d.storage case InlineScalar(v) => v case OutOfLine(base) => base)
  }

  /** Text on the left of its entry, or where the entry points. */
  function TextEntry(im: Image, text: seq<byte>): IfdEntry
    requires |text| <= MAX_REMOTE_ASCII_BYTES
  {
    IfdEntry(42_113, 2, |text|, if |text| <= im.Width() then InlineText(text, im.Width()) else TextStart(im))
  }

  function InlineText(text: seq<byte>, width: nat): (v: u64)
    requires |text| <= width <= 8
    ensures v < Pow256(width)
  {
    PowValues();
    PowMono(|text|, width);
    PowMono(width, 8);
    LeValue(text)
  }

  lemma {:induction false} PowMono(j: nat, k: nat)
    requires j <= k
    ensures Pow256(j) <= Pow256(k)
  {
    if j < k {
      PowMono(j, k - 1);
    }
  }

  /** The entries every image has, in increasing tag order. */
  function ImageEntries(im: Image, chunks: seq<seq<byte>>): (es: seq<IfdEntry>)
    requires Storable(im, chunks)
    ensures |es| == 15
  {
    [ Long(256, im.width), Long(257, im.height), Long(258, Bits(im.sampleType)), Long(259, 8), Long(262, 1),
      Long(277, 1), Long(284, 1), Long(317, im.predictor), Long(322, im.tileWidth), Long(323, im.tileHeight),
      IndexEntry(324, Offsets(im, chunks)), IndexEntry(325, Counts(im, chunks)), Long(339, FormatTag(im.sampleType)),
      IfdEntry(33_550, 12, 3, ScaleStart(im)), IfdEntry(33_922, 12, 6, TieStart(im)) ]
  }

  /** The directory. */
  function Entries(im: Image, chunks: seq<seq<byte>>): (es: seq<IfdEntry>)
    requires im.Valid() && Storable(im, chunks)
    ensures |es| == im.EntryCount()
  {
    ImageEntries(im, chunks) + if im.nodata.Some? then [TextEntry(im, im.nodata.value)] else []
  }

  lemma IndexEncodable(im: Image, chunks: seq<seq<byte>>)
    requires Storable(im, chunks)
    ensures Encodable(im.format, IndexEntry(324, Offsets(im, chunks))) && Encodable(im.format, IndexEntry(325, Counts(im, chunks)))
    ensures Offsets(im, chunks).count == Counts(im, chunks).count == |chunks|
  {
    hide Flatten, ChunkStart;
    IndexBelow(im, chunks);
    StartsBelow(im, chunks);
    hide FileLength;
    assert FileLength(im, chunks) < Limit(im.format);
  }

  lemma EntriesEncodable(im: Image, chunks: seq<seq<byte>>)
    requires im.Valid() && Storable(im, chunks)
    ensures forall e :: e in Entries(im, chunks) ==> Encodable(im.format, e)
  {
    IndexEncodable(im, chunks);
    StartsBelow(im, chunks);
    hide Offsets, Counts, IndexEntry, Flatten, InlineText, LengthsStart;
    PowValues();
    assert TextStart(im) < Limit(im.format);
    forall e | e in Entries(im, chunks)
      ensures Encodable(im.format, e)
    {
      if e !in ImageEntries(im, chunks) {
        assert e == TextEntry(im, im.nodata.value);
      }
    }
  }

  lemma {:induction false} EncodedLength(f: Format, es: seq<IfdEntry>)
    requires forall e :: e in es ==> Encodable(f, e)
    ensures |EncodeEntries(f, es)| == |es| * f.EntryWidth()
  {
    if es != [] {
      EncodedLength(f, es[1..]);
    }
  }

  function Header(f: Format): (h: seq<byte>)
    ensures |h| == 16
  {
    PowValues();
    [0x49, 0x49] + if f.Classic? then LeBytes(42, 2) + LeBytes(16, 4) + [0, 0, 0, 0, 0, 0, 0, 0]
                   else LeBytes(43, 2) + LeBytes(8, 2) + LeBytes(0, 2) + LeBytes(16, 8)
  }

  function CountBytes(im: Image): (bs: seq<byte>)
    ensures |bs| == im.format.CountWidth()
  {
    PowValues();
    LeBytes(im.EntryCount(), im.format.CountWidth())
  }

  /** The directory, with no other after it. */
  function DirectoryBytes(im: Image, chunks: seq<seq<byte>>): (bs: seq<byte>)
    requires im.Valid() && Storable(im, chunks)
    ensures |bs| == im.EntryCount() * im.format.EntryWidth()
  {
    EntriesEncodable(im, chunks);
    EncodedLength(im.format, Entries(im, chunks));
    EncodeEntries(im.format, Entries(im, chunks))
  }

  /** Offsets, then lengths. */
  function IndexBytes(im: Image, chunks: seq<seq<byte>>): (bs: seq<byte>)
    requires Storable(im, chunks)
    ensures |bs| == 2 * (|chunks| * im.Width())
  {
    IndexBelow(im, chunks);
    Words(im.format, Starts(im, chunks)) + Words(im.format, Lengths(chunks))
  }

  /** Transform fields, nodata text and tile index. */
  function ValueBytes(im: Image, chunks: seq<seq<byte>>): (bs: seq<byte>)
    requires im.Valid() && Storable(im, chunks)
    ensures |bs| == 72 + |im.Text()| + 2 * (|chunks| * im.Width())
  {
    im.scale + im.tiepoint + im.Text() + IndexBytes(im, chunks)
  }

  function FileBytes(im: Image, chunks: seq<seq<byte>>): (content: seq<byte>)
    requires im.Valid() && Storable(im, chunks)
    ensures |content| == FileLength(im, chunks)
  {
    assert chunks[..|chunks|] == chunks;
    Header(im.format) + CountBytes(im) + DirectoryBytes(im, chunks) + seq(im.Width(), _ => 0) + ValueBytes(im, chunks) + Flatten(chunks)
  }

  // ---- Holding a file ---------------------------------------------------------------------

  ghost predicate HoldsDirectory(content: seq<byte>, im: Image, chunks: seq<seq<byte>>)
    requires im.Valid() && Storable(im, chunks)
  {
    && EntriesEnd(im) <= |content|
    && content[0..16] == Header(im.format)
    && content[16..EntriesStart(im)] == CountBytes(im)
    && content[EntriesStart(im)..EntriesEnd(im)] == DirectoryBytes(im, chunks)
  }

  ghost predicate HoldsValues(content: seq<byte>, im: Image, chunks: seq<seq<byte>>)
    requires im.Valid() && Storable(im, chunks)
  {
    && ChunksStart(im, |chunks|) <= |content|
    && content[ScaleStart(im)..TieStart(im)] == im.scale
    && content[TieStart(im)..TextStart(im)] == im.tiepoint
    && content[TextStart(im)..IndexStart(im)] == im.Text()
    && content[IndexStart(im)..ChunksStart(im, |chunks|)] == IndexBytes(im, chunks)
  }

  /** A file holding the pieces at their offsets. */
  ghost predicate Holds(content: seq<byte>, im: Image, chunks: seq<seq<byte>>)
    requires im.Valid() && Storable(im, chunks)
  {
    && |content| == FileLength(im, chunks) == ChunksStart(im, |chunks|) + |Flatten(chunks)|
    && HoldsDirectory(content, im, chunks) && HoldsValues(content, im, chunks)
    && content[ChunksStart(im, |chunks|)..] == Flatten(chunks)
  }

  lemma Concatenated(h: seq<byte>, n: seq<byte>, d: seq<byte>, z: seq<byte>, v: seq<byte>, c: seq<byte>, content: seq<byte>)
    requires content == h + n + d + z + v + c
    ensures var a := |h| + |n|;
            var b := a + |d|;
            var e := b + |z|;
            var g := e + |v|;
            && |content| == g + |c|
            && content[0..|h|] == h && content[|h|..a] == n && content[a..b] == d && content[e..g] == v && content[g..] == c
  {
  }

  lemma ValuesHeld(content: seq<byte>, im: Image, chunks: seq<seq<byte>>)
    requires im.Valid() && Storable(im, chunks) && ChunksStart(im, |chunks|) <= |content|
    requires content[ScaleStart(im)..ChunksStart(im, |chunks|)] == ValueBytes(im, chunks)
    ensures HoldsValues(content, im, chunks)
  {
    hide IndexBytes, EntriesEnd;
    var values, at, length := ValueBytes(im, chunks), ScaleStart(im), 72 + |im.Text()| + 2 * (|chunks| * im.Width());
    assert values[0..24] == im.scale && values[24..72] == im.tiepoint && values[72..72 + |im.Text()|] == im.Text();
    assert values[72 + |im.Text()|..length] == IndexBytes(im, chunks);
    SubSlice(content, at, length, 0, 24);
    SubSlice(content, at, length, 24, 48);
    SubSlice(content, at, length, 72, |im.Text()|);
    SubSlice(content, at, length, 72 + |im.Text()|, 2 * (|chunks| * im.Width()));
  }

  /** The written file holds every piece where its entries say. */
  lemma FileHolds(im: Image, chunks: seq<seq<byte>>)
    requires im.Valid() && Storable(im, chunks)
    ensures Holds(FileBytes(im, chunks), im, chunks)
  {
    hide Header, CountBytes, DirectoryBytes, ValueBytes, IndexBytes, Flatten;
    assert chunks[..|chunks|] == chunks;
    var content := FileBytes(im, chunks);
    Concatenated(Header(im.format), CountBytes(im), DirectoryBytes(im, chunks), seq(im.Width(), _ => 0), ValueBytes(im, chunks),
                 Flatten(chunks), content);
    ValuesHeld(content, im, chunks);
  }

  // ---- The directory read back ------------------------------------------------------------

  lemma HeaderRead(f: Format)
    ensures ParseHeader(Header(f)) == Ok((f, 16))
  {
    hide LeBytes, LeValue;
    PowValues();
    var h := Header(f);
    LeRoundTrip(42, 2);
    LeRoundTrip(43, 2);
    LeRoundTrip(8, 2);
    LeRoundTrip(0, 2);
    LeRoundTrip(16, 4);
    LeRoundTrip(16, 8);
    if f.Classic? {
      assert h[2..4] == LeBytes(42, 2) && h[4..8] == LeBytes(16, 4);
    } else {
      assert h[2..4] == LeBytes(43, 2) && h[4..6] == LeBytes(8, 2) && h[6..8] == LeBytes(0, 2) && h[8..16] == LeBytes(16, 8);
    }
  }

  lemma CountRead(im: Image)
    ensures ParseCount(im.format, CountBytes(im)) == im.EntryCount()
  {
    hide LeBytes, LeValue;
    PowValues();
    LeRoundTrip(im.EntryCount(), im.format.CountWidth());
    assert CountBytes(im)[0..im.format.CountWidth()] == CountBytes(im);
  }

  predicate Increasing(es: seq<IfdEntry>) {
    forall i, j :: 0 <= i < j < |es| ==> es[i].tag < es[j].tag
  }

  lemma {:induction false} LookupAt(es: seq<IfdEntry>, k: nat)
    requires Increasing(es) && k < |es|
    ensures Lookup(es, es[k].tag) == Some(es[k])
    decreases k
  {
    if k > 0 {
      LookupAt(es[1..], k - 1);
    }
  }

  lemma {:induction false} LookupAbsent(es: seq<IfdEntry>, tag: nat)
    requires forall i :: 0 <= i < |es| ==> es[i].tag != tag
    ensures Lookup(es, tag) == None
  {
    if es != [] {
      LookupAbsent(es[1..], tag);
    }
  }

  lemma EntriesIncrease(im: Image, chunks: seq<seq<byte>>)
    requires im.Valid() && Storable(im, chunks)
    ensures Increasing(Entries(im, chunks))
  {
    hide Offsets, Counts, InlineText;
  }

  lemma ScalarOf(es: seq<IfdEntry>, k: nat)
    requires Increasing(es) && k < |es| && es[k].fieldType == 4 && es[k].count == 1 && es[k].value < U32_LIMIT
    ensures InlineScalarOf(es, es[k].tag) == Ok(es[k].value)
  {
    hide Lookup;
    LookupAt(es, k);
  }

  /** An index field is described as it was written. */
  lemma DescribedIndex(f: Format, tag: u16, values: seq<nat>, start: u64, size: nat)
    requires AllBelow(values, Limit(f)) && 0 < |values| < Limit(f) && start + |values| * f.InlineWidth() <= size < U64_LIMIT
    ensures DescriptorOf(f, IndexEntry(tag, IndexOf(f, values, start)), size) == Ok(IndexOf(f, values, start))
  {
  }

  lemma DescribedIndexes(im: Image, chunks: seq<seq<byte>>, size: nat)
    requires Storable(im, chunks) && ChunksStart(im, |chunks|) <= size < U64_LIMIT
    ensures DescriptorOf(im.format, IndexEntry(324, Offsets(im, chunks)), size) == Ok(Offsets(im, chunks))
    ensures DescriptorOf(im.format, IndexEntry(325, Counts(im, chunks)), size) == Ok(Counts(im, chunks))
    ensures Offsets(im, chunks).count == Counts(im, chunks).count == |chunks|
  {
    hide DescriptorOf, IndexEntry, Flatten, IndexStart;
    IndexBelow(im, chunks);
    DescribedIndex(im.format, 324, Starts(im, chunks), IndexStart(im), size);
    DescribedIndex(im.format, 325, Lengths(chunks), LengthsStart(im, |chunks|), size);
  }

  /** Where the reader finds the nodata text. */
  function TextSource(im: Image): AsciiSource {
    match im.nodata
    case None => Absent
    case Some(text) => if |text| <= im.Width() then Inline(text) else Remote(ByteRange(TextStart(im), IndexStart(im)))
  }

  lemma {:induction false} TextBytes(text: seq<byte>, width: nat)
    requires |text| <= width && LeValue(text) < Pow256(width)
    ensures LeBytes(LeValue(text), width)[..|text|] == text
  {
    if text != [] {
      var v := LeValue(text);
      assert v % 256 == text[0] && v / 256 == LeValue(text[1..]);
      TextBytes(text[1..], width - 1);
      assert LeBytes(v, width)[1..][..|text| - 1] == text[1..];
    }
  }

  lemma TextRead(im: Image, es: seq<IfdEntry>, size: nat)
    requires im.Valid() && IndexStart(im) <= size < U64_LIMIT && Increasing(es)
    requires |es| == im.EntryCount() && (im.nodata.Some? ==> es[15] == TextEntry(im, im.nodata.value))
    requires im.nodata.None? ==> forall i :: 0 <= i < |es| ==> es[i].tag != 42_113
    ensures AsciiOf(im.format, es, 42_113, size) == Ok(TextSource(im))
  {
    hide LeBytes, LeValue, Lookup, TieStart;
    PowValues();
    if im.nodata.Some? {
      LookupAt(es, 15);
      var text := im.nodata.value;
      if |text| <= im.Width() {
        TextBytes(text, 8);
      }
    } else {
      LookupAbsent(es, 42_113);
    }
  }

  function FieldsIn(im: Image, chunks: seq<seq<byte>>): Fields
    requires Storable(im, chunks)
  {
    Fields(im.format, im.width, im.height, im.tileWidth, im.tileHeight,
           ByteRange(ScaleStart(im), TieStart(im)), ByteRange(TieStart(im), TextStart(im)), im.sampleType, 8, im.predictor,
           Offsets(im, chunks), Counts(im, chunks), TextSource(im))
  }

  /** The entries every image has, wherever they come from. */
  ghost predicate Lists(es: seq<IfdEntry>, im: Image, offsets: IfdEntry, counts: IfdEntry) {
    && Increasing(es) && |es| >= 15
    && es[0] == Long(256, im.width) && es[1] == Long(257, im.height) && es[2] == Long(258, Bits(im.sampleType))
    && es[3] == Long(259, 8) && es[4] == Long(262, 1) && es[5] == Long(277, 1) && es[6] == Long(284, 1)
    && es[7] == Long(317, im.predictor) && es[8] == Long(322, im.tileWidth) && es[9] == Long(323, im.tileHeight)
    && es[10] == offsets && es[11] == counts && es[12] == Long(339, FormatTag(im.sampleType))
    && es[13] == IfdEntry(33_550, 12, 3, es[13].value) && es[14] == IfdEntry(33_922, 12, 6, es[14].value)
  }

  lemma ScalarsRead(es: seq<IfdEntry>, im: Image, offsets: IfdEntry, counts: IfdEntry)
    requires Lists(es, im, offsets, counts)
    ensures InlineScalarOf(es, 256) == Ok(im.width) && InlineScalarOf(es, 257) == Ok(im.height)
    ensures InlineScalarOf(es, 258) == Ok(Bits(im.sampleType)) && InlineScalarOf(es, 259) == Ok(8)
    ensures InlineScalarOf(es, 262) == InlineScalarOf(es, 277) == InlineScalarOf(es, 284) == Ok(1)
    ensures InlineScalarOf(es, 317) == Ok(im.predictor) && InlineScalarOf(es, 339) == Ok(FormatTag(im.sampleType))
    ensures InlineScalarOf(es, 322) == Ok(im.tileWidth) && InlineScalarOf(es, 323) == Ok(im.tileHeight)
  {
    hide InlineScalarOf, Increasing, Bits, FormatTag;
    ScalarOf(es, 0);
    ScalarOf(es, 1);
    ScalarOf(es, 2);
    ScalarOf(es, 3);
    ScalarOf(es, 4);
    ScalarOf(es, 5);
    ScalarOf(es, 6);
    ScalarOf(es, 7);
    ScalarOf(es, 8);
    ScalarOf(es, 9);
    ScalarOf(es, 12);
  }

  lemma RequiredRead(es: seq<IfdEntry>, im: Image, offsets: IfdEntry, counts: IfdEntry)
    requires Lists(es, im, offsets, counts) && offsets.tag == 324 && counts.tag == 325
    ensures Required(es, 324) == Ok(offsets) && Required(es, 325) == Ok(counts)
    ensures Required(es, 33_550) == Ok(es[13]) && Required(es, 33_922) == Ok(es[14])
  {
    hide Lookup, Increasing;
    LookupAt(es, 10);
    LookupAt(es, 11);
    LookupAt(es, 13);
    LookupAt(es, 14);
  }

  lemma ListedFields(f: Format, es: seq<IfdEntry>, im: Image, offsets: IfdEntry, counts: IfdEntry, a: IndexDescriptor,
                     b: IndexDescriptor, text: AsciiSource, size: nat)
    requires Lists(es, im, offsets, counts) && offsets.tag == 324 && counts.tag == 325 && im.width > 0 && im.height > 0
    requires DescriptorOf(f, offsets, size) == Ok(a) && DescriptorOf(f, counts, size) == Ok(b) && a.count == b.count
    requires es[13].value + 24 <= size < U64_LIMIT && es[14].value + 48 <= size
    requires AsciiOf(f, es, 42_113, size) == Ok(text)
    ensures FieldsOf(f, es, size)
            == Ok(Fields(f, im.width, im.height, im.tileWidth, im.tileHeight, ByteRange(es[13].value, es[13].value + 24),
                         ByteRange(es[14].value, es[14].value + 48), im.sampleType, 8, im.predictor, a, b, text))
  {
    ScalarsRead(es, im, offsets, counts);
    RequiredRead(es, im, offsets, counts);
    assert SampleTypeOf(Bits(im.sampleType), FormatTag(im.sampleType)) == Some(im.sampleType);
    hide InlineScalarOf, Required, DescriptorOf, AsciiOf, Increasing, Bits, FormatTag, SampleTypeOf;
  }

  lemma EntriesListed(im: Image, chunks: seq<seq<byte>>)
    requires im.Valid() && Storable(im, chunks)
    ensures Lists(Entries(im, chunks), im, IndexEntry(324, Offsets(im, chunks)), IndexEntry(325, Counts(im, chunks)))
  {
    EntriesIncrease(im, chunks);
    hide Offsets, Counts, IndexEntry, Increasing, TextEntry, ScaleStart, TieStart, Bits, FormatTag;
  }

  lemma FieldsRead(im: Image, chunks: seq<seq<byte>>, size: nat)
    requires im.Valid() && Storable(im, chunks) && ChunksStart(im, |chunks|) <= size < U64_LIMIT
    ensures FieldsOf(im.format, Entries(im, chunks), size) == Ok(FieldsIn(im, chunks))
  {
    hide Flatten, IndexEntry, DescriptorOf, AsciiOf, TextSource, FieldsOf, Lists, TextEntry, Offsets, Counts, ScaleStart;
    var es := Entries(im, chunks);
    EntriesListed(im, chunks);
    EntriesIncrease(im, chunks);
    DescribedIndexes(im, chunks, size);
    TextListed(im, chunks);
    TextRead(im, es, size);
    IndexTags(im, chunks);
    ListedFields(im.format, es, im, IndexEntry(324, Offsets(im, chunks)), IndexEntry(325, Counts(im, chunks)), Offsets(im, chunks),
                 Counts(im, chunks), TextSource(im), size);
  }

  lemma TextListed(im: Image, chunks: seq<seq<byte>>)
    requires im.Valid() && Storable(im, chunks)
    ensures im.nodata.Some? ==> Entries(im, chunks)[15] == TextEntry(im, im.nodata.value)
    ensures im.nodata.None? ==> forall i :: 0 <= i < |Entries(im, chunks)| ==> Entries(im, chunks)[i].tag != 42_113
  {
    hide Offsets, Counts, TextEntry, Bits, FormatTag, ScaleStart, TieStart;
  }

  lemma IndexTags(im: Image, chunks: seq<seq<byte>>)
    requires Storable(im, chunks)
    ensures IndexEntry(324, Offsets(im, chunks)).tag == 324 && IndexEntry(325, Counts(im, chunks)).tag == 325
  {
    hide Offsets, Counts;
  }

  lemma DirectoryRead(content: seq<byte>, im: Image, chunks: seq<seq<byte>>)
    requires im.Valid() && Storable(im, chunks) && Holds(content, im, chunks)
    ensures DirectoryOf(content) == Ok(FieldsIn(im, chunks))
  {
    hide Header, CountBytes, ParseHeader, ParseCount, ParseEntries, FieldsOf, FieldsIn, EncodeEntries, Flatten, IndexBytes, Entries;
    HeaderRead(im.format);
    CountRead(im);
    EntriesEncodable(im, chunks);
    EntriesRoundTrip(im.format, Entries(im, chunks));
    FieldsRead(im, chunks, |content|);
  }

  /** The metadata of the file. */
  function Described(env: Metadata, im: Image, chunks: seq<seq<byte>>): CogMetadata
    requires im.Valid() && Storable(im, chunks)
  {
    Shape(env, im).(tileOffsets := Offsets(im, chunks), tileByteCounts := Counts(im, chunks))
  }

  /** The nodata text if there is one, else the one its sample type implies. */
  function NodataOf(env: Metadata, im: Image): string {
    if im.nodata.Some? && env.ascii(im.nodata.value).Some? then env.ascii(im.nodata.value).value
    else if im.sampleType.U8? then "255" else "-1"
  }

  predicate TextReadable(env: Metadata, im: Image) {
    im.nodata.Some? ==> env.ascii(im.nodata.value).Some?
  }

  /** The metadata before the tile index is known. */
  function Shape(env: Metadata, im: Image): CogMetadata
    requires im.Valid()
  {
    var s, t := Doubles(env, im.scale), Doubles(env, im.tiepoint);
    var unknown := IndexDescriptor(16, 8, 1, InlineScalar(0));
    CogMetadata(im.width, im.height, im.tileWidth, im.tileHeight, OriginX(s, t), OriginY(s, t), s[0], -s[1],
                NodataOf(env, im), im.sampleType, 8, im.predictor, unknown, unknown)
  }

  /** Reading the metadata of a written file gives back what was written, placed where its transform fields put it, or
      fails on a nodata text that does not decode. */
  lemma MetadataRead(env: Metadata, im: Image, chunks: seq<seq<byte>>)
    requires im.Valid() && Storable(im, chunks)
    ensures MetadataIn(env, FileBytes(im, chunks)) ==
            if TextReadable(env, im) then Ok(Described(env, im, chunks)) else Err(BadTag(42_113))
    ensures TextReadable(env, im) ==> Georeferenced(env, Described(env, im, chunks), im.scale, im.tiepoint)
  {
    hide DirectoryOf, FileBytes, Offsets, Counts, Flatten, Doubles, Header, IndexBytes, DirectoryBytes, CountBytes, MetadataOf, Described,
         Georeferenced;
    FileHolds(im, chunks);
    var content := FileBytes(im, chunks);
    DirectoryRead(content, im, chunks);
    var fields := FieldsIn(im, chunks);
    assert Slice(content, fields.scaleRange) == im.scale && Slice(content, fields.tiepointRange) == im.tiepoint;
    assert fields.nodata.Remote? ==> Slice(content, fields.nodata.range) == im.nodata.value;
    if TextReadable(env, im) {
      FieldsDescribed(env, im, chunks);
    }
  }

  lemma FieldsDescribed(env: Metadata, im: Image, chunks: seq<seq<byte>>)
    requires im.Valid() && Storable(im, chunks) && TextReadable(env, im)
    ensures MetadataOf(env, FieldsIn(im, chunks), if im.nodata.Some? then env.ascii(im.nodata.value) else None, im.scale, im.tiepoint)
            == Ok(Described(env, im, chunks))
    ensures Georeferenced(env, Described(env, im, chunks), im.scale, im.tiepoint)
  {
    MetadataPlaced(env, FieldsIn(im, chunks), if im.nodata.Some? then env.ascii(im.nodata.value) else None, im.scale, im.tiepoint);
    hide Offsets, Counts, Flatten, OriginX, OriginY, Doubles, TextSource, Georeferenced;
  }

  // ---- The tile index read back -----------------------------------------------------------

  lemma WordAt(f: Format, values: seq<nat>, i: nat)
    requires AllBelow(values, Limit(f)) && i < |values|
    ensures var w := f.InlineWidth();
            i * w + w <= |Words(f, values)| && LeValue(Words(f, values)[i * w..i * w + w]) == values[i]
  {
    hide Flatten, LeBytes, LeValue;
    PowValues();
    RowSlice(WordRows(f, values), f.InlineWidth(), i);
    LeRoundTrip(values[i], f.InlineWidth());
  }

  lemma IndexedEntry(f: Format, content: seq<byte>, values: seq<nat>, start: u64, i: u32)
    requires AllBelow(values, Limit(f)) && i < |values| < Limit(f) && start + |values| * f.InlineWidth() <= |content| < U64_LIMIT
    requires content[start..start + |values| * f.InlineWidth()] == Words(f, values)
    ensures LazyEntry(IndexOf(f, values, start), content, i) == Ok(values[i])
  {
    hide Words, LeValue;
    PowValues();
    if |values| > 1 {
      var w := f.InlineWidth();
      var at := start + i * w;
      WordAt(f, values, i);
      SubSlice(content, start, |values| * w, i * w, w);
      assert content[at..at + w][0..w] == content[at..at + w];
    }
  }

  /** The written index names every chunk. */
  lemma ChunkRead(content: seq<byte>, im: Image, chunks: seq<seq<byte>>, i: u32)
    requires im.Valid() && Storable(im, chunks) && Holds(content, im, chunks) && i < |chunks|
    ensures ChunkOf(Offsets(im, chunks), Counts(im, chunks), content, i) == Ok((ChunkStart(im, chunks, i), |chunks[i]|))
    ensures ChunkStart(im, chunks, i) + |chunks[i]| <= |content|
    ensures content[ChunkStart(im, chunks, i)..ChunkStart(im, chunks, i) + |chunks[i]|] == chunks[i]
  {
    hide Flatten, LazyEntry, IndexOf, IndexStart, Holds, LengthsStart, ChunksStart, ChunkStart, Words;
    IndexBelow(im, chunks);
    StartsBelow(im, chunks);
    IndexSplit(content, im, chunks);
    ChunkHeld(content, im, chunks, i);
    SpansOf(im, |chunks|);
    IndexedEntry(im.format, content, Starts(im, chunks), IndexStart(im), i);
    IndexedEntry(im.format, content, Lengths(chunks), LengthsStart(im, |chunks|), i);
  }

  lemma SpansOf(im: Image, n: nat)
    ensures LengthsStart(im, n) == IndexStart(im) + n * im.Width() && ChunksStart(im, n) == LengthsStart(im, n) + n * im.Width()
  {
  }

  lemma ChunkHeld(content: seq<byte>, im: Image, chunks: seq<seq<byte>>, i: u32)
    requires im.Valid() && Storable(im, chunks) && Holds(content, im, chunks) && i < |chunks|
    ensures ChunkStart(im, chunks, i) + |chunks[i]| <= |content|
    ensures content[ChunkStart(im, chunks, i)..ChunkStart(im, chunks, i) + |chunks[i]|] == chunks[i]
  {
    hide Flatten, HoldsDirectory, HoldsValues, ChunksStart;
    PrefixLength(chunks, i);
    var base, at := ChunksStart(im, |chunks|), |Flatten(chunks[..i])|;
    assert content[base..][at..at + |chunks[i]|] == content[base + at..base + at + |chunks[i]|];
  }

  lemma IndexSplit(content: seq<byte>, im: Image, chunks: seq<seq<byte>>)
    requires im.Valid() && Storable(im, chunks) && Holds(content, im, chunks)
    ensures AllBelow(Starts(im, chunks), Limit(im.format)) && AllBelow(Lengths(chunks), Limit(im.format))
    ensures ChunksStart(im, |chunks|) <= |content| < U64_LIMIT
    ensures content[IndexStart(im)..LengthsStart(im, |chunks|)] == Words(im.format, Starts(im, chunks))
    ensures content[LengthsStart(im, |chunks|)..ChunksStart(im, |chunks|)] == Words(im.format, Lengths(chunks))
  {
    hide Words, Flatten, Header, DirectoryBytes, CountBytes, IndexStart;
    IndexBelow(im, chunks);
    var half, at := |chunks| * im.Width(), IndexStart(im);
    var index := IndexBytes(im, chunks);
    assert index[0..half] == Words(im.format, Starts(im, chunks)) && index[half..2 * half] == Words(im.format, Lengths(chunks));
    SubSlice(content, at, 2 * half, 0, half);
    SubSlice(content, at, 2 * half, half, half);
  }

  // ---- Storing a raster -------------------------------------------------------------------

  /** The tile encoding does not depend on the tile index. */
  lemma EncodeTileShape(m: CogMetadata, a: IndexDescriptor, b: IndexDescriptor, raster: Raster, i: nat)
    requires HasTile(m, i) && RasterOf(m, raster)
    ensures var p := m.(tileOffsets := a, tileByteCounts := b);
            HasTile(p, i) && RasterOf(p, raster) && EncodeTile(p, raster, i) == EncodeTile(m, raster, i)
  {
    var p := m.(tileOffsets := a, tileByteCounts := b);
    hide Flatten;
    assert LiveRect(p, i) == LiveRect(m, i);
    assert EncodeRows(p, raster, i) == EncodeRows(m, raster, i);
  }

  /** Decompression undoes the writer's compression of whole tiles, read with one byte to spare. */
  ghost predicate Inverse(env: Platform, deflate: seq<byte> -> seq<byte>, length: nat) {
    forall d: seq<byte> :: |d| == length ==> env.inflate(deflate(d), length + 1) == Some(d)
  }

  function TileCount(m: CogMetadata): nat
    requires m.Tiled()
  {
    RowMajor(m.TilesDown(), m.TilesAcross(), 0)
  }

  lemma CountedTile(m: CogMetadata, i: nat)
    requires m.Tiled() && m.width > 0
    ensures HasTile(m, i) <==> i < TileCount(m)
  {
    DivCeilCovers(m.width, m.tileWidth, 0);
    RowBelow(i, m.TilesAcross(), m.TilesDown());
  }

  lemma RowBelow(i: nat, across: nat, down: nat)
    requires across > 0
    ensures i / across < down <==> i < RowMajor(down, across, 0)
  {
    if i < down * across {
      RowMajorSplit(i, across, down);
    }
    if i / across < down {
      RowMajorBound(i / across, i % across, across, down);
    }
  }

  /** The compressed tiles of a raster. */
  function Compressed(env: Metadata, im: Image, raster: Raster, deflate: seq<byte> -> seq<byte>): (chunks: seq<seq<byte>>)
    requires im.Valid() && RasterOf(Shape(env, im), raster)
    ensures |chunks| == TileCount(Shape(env, im))
  {
    seq(TileCount(Shape(env, im)), i requires 0 <= i < TileCount(Shape(env, im)) =>
      CountedTile(Shape(env, im), i);
      deflate(EncodeTile(Shape(env, im), raster, i)))
  }

  function CogBytes(env: Metadata, im: Image, raster: Raster, deflate: seq<byte> -> seq<byte>): seq<byte>
    requires im.Valid() && RasterOf(Shape(env, im), raster) && Storable(im, Compressed(env, im, raster, deflate))
  {
    FileBytes(im, Compressed(env, im, raster, deflate))
  }

  function Meta(env: Metadata, im: Image, raster: Raster, deflate: seq<byte> -> seq<byte>): CogMetadata
    requires im.Valid() && RasterOf(Shape(env, im), raster) && Storable(im, Compressed(env, im, raster, deflate))
  {
    Described(env, im, Compressed(env, im, raster, deflate))
  }

  /** Tile `i` of the written file inflates to an encoding of the raster's tile. */
  lemma TileWritten(meta: Metadata, env: Platform, im: Image, raster: Raster, deflate: seq<byte> -> seq<byte>, i: u32)
    requires im.Valid() && RasterOf(Shape(meta, im), raster) && Storable(im, Compressed(meta, im, raster, deflate))
    requires Inverse(env, deflate, TileBytes(Shape(meta, im))) && i < TileCount(Shape(meta, im))
    ensures var m := Meta(meta, im, raster, deflate);
            && RasterOf(m, raster) && HasTile(m, i)
            && InflatesTo(env, m, Compressed(meta, im, raster, deflate)[i], EncodeTile(m, raster, i))
            && StoresTile(m, raster, i, EncodeTile(m, raster, i))
  {
    hide Offsets, Counts, EncodeTile, Flatten, Storable, Shape, StoresTile, RasterOf, HasTile, TileBytes, TileCount;
    var shape, m := Shape(meta, im), Meta(meta, im, raster, deflate);
    var chunks := Compressed(meta, im, raster, deflate);
    ShapeCounted(meta, im, i);
    EncodeTileShape(shape, Offsets(im, chunks), Counts(im, chunks), raster, i);
    TileStored(m, raster, i);
    TileLength(m, raster, i);
    SameTileBytes(shape, Offsets(im, chunks), Counts(im, chunks));
  }

  lemma ShapeCounted(meta: Metadata, im: Image, i: nat)
    requires im.Valid()
    ensures HasTile(Shape(meta, im), i) <==> i < TileCount(Shape(meta, im))
  {
    hide HasTile, TileCount;
    CountedTile(Shape(meta, im), i);
  }

  lemma TileIndexed(meta: Metadata, env: Platform, im: Image, raster: Raster, deflate: seq<byte> -> seq<byte>, i: u32)
    requires im.Valid() && RasterOf(Shape(meta, im), raster) && Storable(im, Compressed(meta, im, raster, deflate))
    requires Inverse(env, deflate, TileBytes(Shape(meta, im))) && i < TileCount(Shape(meta, im))
    ensures var m := Meta(meta, im, raster, deflate);
            RasterOf(m, raster) && HasTile(m, i) && ChunkStored(env, m, CogBytes(meta, im, raster, deflate), raster, i)
  {
    hide FileBytes, Offsets, Counts, EncodeTile, Flatten, Storable, Shape, StoresTile, RasterOf, ChunkOf, HasTile, TileBytes, Holds, InflatesTo, Compressed;
    TileWritten(meta, env, im, raster, deflate, i);
    var chunks := Compressed(meta, im, raster, deflate);
    FileHolds(im, chunks);
    CompressedCount(meta, im, raster, deflate);
    ChunkRead(FileBytes(im, chunks), im, chunks, i);
  }

  lemma CompressedCount(env: Metadata, im: Image, raster: Raster, deflate: seq<byte> -> seq<byte>)
    requires im.Valid() && RasterOf(Shape(env, im), raster)
    ensures |Compressed(env, im, raster, deflate)| == TileCount(Shape(env, im))
  {
  }

  lemma SameTileBytes(m: CogMetadata, a: IndexDescriptor, b: IndexDescriptor)
    ensures TileBytes(m.(tileOffsets := a, tileByteCounts := b)) == TileBytes(m)
  {
  }

  /** The written file stores the raster: the reader's hypotheses can be met, for every raster. */
  lemma RasterStored(meta: Metadata, env: Platform, im: Image, raster: Raster, deflate: seq<byte> -> seq<byte>)
    requires im.Valid() && RasterOf(Shape(meta, im), raster) && Storable(im, Compressed(meta, im, raster, deflate))
    requires Inverse(env, deflate, TileBytes(Shape(meta, im)))
    ensures MetadataIn(meta, CogBytes(meta, im, raster, deflate)) ==
            if TextReadable(meta, im) then Ok(Meta(meta, im, raster, deflate)) else Err(BadTag(42_113))
    ensures TextReadable(meta, im) ==> Georeferenced(meta, Meta(meta, im, raster, deflate), im.scale, im.tiepoint)
    ensures StoresRaster(env, Meta(meta, im, raster, deflate), CogBytes(meta, im, raster, deflate), raster)
  {
    hide *;
    var chunks := Compressed(meta, im, raster, deflate);
    MetadataRead(meta, im, chunks);
    WrittenMeta(meta, im, raster, deflate);
    forall i: u32 | HasTile(Meta(meta, im, raster, deflate), i)
      ensures RasterOf(Meta(meta, im, raster, deflate), raster)
      ensures ChunkStored(env, Meta(meta, im, raster, deflate), CogBytes(meta, im, raster, deflate), raster, i)
    {
      TileIndexed(meta, env, im, raster, deflate, i);
    }
    AllStored(env, Meta(meta, im, raster, deflate), CogBytes(meta, im, raster, deflate), raster);
  }

  lemma WrittenMeta(meta: Metadata, im: Image, raster: Raster, deflate: seq<byte> -> seq<byte>)
    requires im.Valid() && RasterOf(Shape(meta, im), raster) && Storable(im, Compressed(meta, im, raster, deflate))
    ensures CogBytes(meta, im, raster, deflate) == FileBytes(im, Compressed(meta, im, raster, deflate))
    ensures Meta(meta, im, raster, deflate) == Described(meta, im, Compressed(meta, im, raster, deflate))
    ensures RasterOf(Meta(meta, im, raster, deflate), raster)
    ensures forall i: nat :: HasTile(Meta(meta, im, raster, deflate), i) <==> i < TileCount(Shape(meta, im))
  {
    hide Compressed, FileBytes, Storable, TileCount, Offsets, Counts, HasTile;
    forall i: nat
      ensures HasTile(Meta(meta, im, raster, deflate), i) <==> i < TileCount(Shape(meta, im))
    {
      ShapeCounted(meta, im, i);
      SameTiles(Shape(meta, im), Offsets(im, Compressed(meta, im, raster, deflate)), Counts(im, Compressed(meta, im, raster, deflate)), i);
    }
  }

  lemma SameTiles(m: CogMetadata, a: IndexDescriptor, b: IndexDescriptor, i: nat)
    ensures HasTile(m.(tileOffsets := a, tileByteCounts := b), i) <==> HasTile(m, i)
  {
  }

  lemma AllStored(env: Platform, m: CogMetadata, content: seq<byte>, raster: Raster)
    requires RasterOf(m, raster) && forall i: u32 :: HasTile(m, i) ==> ChunkStored(env, m, content, raster, i)
    ensures StoresRaster(env, m, content, raster)
  {
    hide RasterOf, HasTile, ChunkStored;
  }

  // ---- Answering a request ----------------------------------------------------------------

  /** Bytes of the planned chunks. */
  function PlannedLength(chunks: seq<seq<byte>>, plan: seq<u32>): nat {
    if plan == [] then 0
    else
      var i := plan[|plan| - 1];
      PlannedLength(chunks, plan[..|plan| - 1]) + if i < |chunks| then |chunks[i]| else 0
  }

  predicate ChunkSmall(chunk: seq<byte>) {
    0 < |chunk| <= MAX_COMPRESSED_CHUNK_BYTES
  }

  /** The planned chunks respect the ceilings. */
  predicate PlanSmall(chunks: seq<seq<byte>>, plan: seq<u32>) {
    && (forall i :: i in plan ==> i < |chunks| ==> ChunkSmall(chunks[i]))
    && PlannedLength(chunks, plan) <= MAX_COVERED_CHUNK_BYTES
  }

  predicate PlanBelow(chunks: seq<seq<byte>>, plan: seq<u32>) {
    forall i :: i in plan ==> i < |chunks|
  }

  lemma {:induction false} PlannedSum(content: seq<byte>, im: Image, chunks: seq<seq<byte>>, plan: seq<u32>)
    requires im.Valid() && Storable(im, chunks) && Holds(content, im, chunks) && PlanBelow(chunks, plan)
    ensures ChunkSum(Offsets(im, chunks), Counts(im, chunks), content, plan) == PlannedLength(chunks, plan)
  {
    hide Storable, Offsets, Counts, Holds, ChunkOf;
    if plan != [] {
      var last := plan[|plan| - 1];
      assert last in plan;
      var init := plan[..|plan| - 1];
      forall i | i in init
        ensures i < |chunks|
      {
        assert i in plan;
      }
      PlannedSum(content, im, chunks, init);
      ChunkRead(content, im, chunks, last);
    }
  }

  lemma ChunkAllowed(content: seq<byte>, im: Image, chunks: seq<seq<byte>>, m: CogMetadata, i: u32)
    requires im.Valid() && Storable(im, chunks) && Holds(content, im, chunks) && i < |chunks|
    requires m.tileOffsets == Offsets(im, chunks) && m.tileByteCounts == Counts(im, chunks)
    ensures ChunkFetchable(m, content, i) <==> ChunkSmall(chunks[i])
    ensures ChunkFits(m.tileOffsets, m.tileByteCounts, content, i)
  {
    hide Storable, Offsets, Counts, Holds, ChunkOf;
    HeldBelow(content, im, chunks);
    ChunkRead(content, im, chunks, i);
  }

  lemma HeldBelow(content: seq<byte>, im: Image, chunks: seq<seq<byte>>)
    requires im.Valid() && Storable(im, chunks) && Holds(content, im, chunks)
    ensures |content| < U64_LIMIT
  {
    hide Header, DirectoryBytes, IndexBytes, Flatten;
  }

  /** The ceilings on a written file's planned chunks are ceilings on the chunks written. */
  lemma PlanAllowed(content: seq<byte>, im: Image, chunks: seq<seq<byte>>, m: CogMetadata, plan: seq<u32>)
    requires im.Valid() && Storable(im, chunks) && Holds(content, im, chunks) && PlanBelow(chunks, plan)
    requires m.tileOffsets == Offsets(im, chunks) && m.tileByteCounts == Counts(im, chunks)
    ensures ChunksFetchable(m, content, plan) <==> PlanSmall(chunks, plan)
    ensures PlanSmall(chunks, plan) ==> ChunksSummable(m.tileOffsets, m.tileByteCounts, content, plan)
  {
    hide Storable, Offsets, Counts, Holds, ChunkFetchable, ChunkFits, ChunkSum, PlannedLength, ChunkSmall;
    PlannedSum(content, im, chunks, plan);
    forall i | i in plan
      ensures ChunkFetchable(m, content, i) <==> ChunkSmall(chunks[i])
      ensures ChunkFits(m.tileOffsets, m.tileByteCounts, content, i)
    {
      ChunkAllowed(content, im, chunks, m, i);
    }
  }

  lemma IndexesScalar(im: Image, chunks: seq<seq<byte>>)
    requires Storable(im, chunks)
    ensures ScalarInline(Offsets(im, chunks)) && ScalarInline(Counts(im, chunks))
  {
    hide Flatten;
  }

  lemma PlanInFile(m: CogMetadata, kind: RasterKind, bbox: Bbox, w: RasterPixelWindow, plan: seq<u32>)
    requires PlanFor(m, kind, bbox, w, plan)
    ensures forall i :: i in plan ==> HasTile(m, i)
  {
    hide HasTile, Planned, FromBbox, ValidateMeritLayout;
    forall i | i in plan
      ensures HasTile(m, i)
    {
      var k :| 0 <= k < |plan| && plan[k] == i;
      PlannedTile(m, w, plan, k);
    }
  }

  /** A request for a written raster is answered exactly when its window can be planned and allocated and the chunks
      the writer produced for the plan respect the ceilings. */
  ghost predicate WrittenAnswerable(env: Platform, m: CogMetadata, chunks: seq<seq<byte>>, kind: RasterKind, bbox: Bbox) {
    && WindowPlannable(m, kind, bbox)
    && WindowAllocated(env, m, FromBbox(m, bbox).value)
    && forall plan: seq<u32> :: PlanFor(m, kind, bbox, FromBbox(m, bbox).value, plan) ==> PlanSmall(chunks, plan)
  }

  lemma AnswerableWritten(meta: Metadata, env: Platform, content: seq<byte>, im: Image, chunks: seq<seq<byte>>, m: CogMetadata,
                          kind: RasterKind, bbox: Bbox)
    requires im.Valid() && Storable(im, chunks) && Holds(content, im, chunks)
    requires m.tileOffsets == Offsets(im, chunks) && m.tileByteCounts == Counts(im, chunks)
    requires MetadataIn(meta, content) == Ok(m) && forall i: nat :: HasTile(m, i) ==> i < |chunks|
    ensures Answerable(meta, env, content, kind, bbox) <==> WrittenAnswerable(env, m, chunks, kind, bbox)
  {
    hide Storable, Offsets, Counts, Holds, MetadataIn, HasTile, PlanSmall, ChunksFetchable, ChunksSummable, WindowAllocated, PlanFor,
         WindowPlannable, ScalarInline, FromBbox;
    IndexesScalar(im, chunks);
    if WindowPlannable(m, kind, bbox) {
      PlannableWindow(m, kind, bbox);
      var w := FromBbox(m, bbox).value;
      forall plan: seq<u32> | PlanFor(m, kind, bbox, w, plan)
        ensures ChunksFetchable(m, content, plan) <==> PlanSmall(chunks, plan)
        ensures PlanSmall(chunks, plan) ==> ChunksSummable(m.tileOffsets, m.tileByteCounts, content, plan)
      {
        PlanInFile(m, kind, bbox, w, plan);
        PlanAllowed(content, im, chunks, m, plan);
      }
    }
  }

  lemma PlannableWindow(m: CogMetadata, kind: RasterKind, bbox: Bbox)
    requires WindowPlannable(m, kind, bbox)
    ensures FromBbox(m, bbox).Ok?
  {
  }

  /** Write a raster, serve the file, and read a window of it remotely: the request is answered exactly when its
      window and chunks respect the ceilings, and the answer is the window of the raster written. */
  method LocalizeWritten(meta: Metadata, env: Platform, im: Image, raster: Raster, deflate: seq<byte> -> seq<byte>,
                         kind: RasterKind, bbox: Bbox)
    returns (r: Result<LocalizedRasterWindow, CogError>)
    requires im.Valid() && RasterOf(Shape(meta, im), raster) && Storable(im, Compressed(meta, im, raster, deflate))
    requires Inverse(env, deflate, TileBytes(Shape(meta, im)))
    ensures var m := Meta(meta, im, raster, deflate);
            && (r.Ok? <==> TextReadable(meta, im) && WrittenAnswerable(env, m, Compressed(meta, im, raster, deflate), kind, bbox))
            && (r.Ok? ==>
                  && Georeferenced(meta, m, im.scale, im.tiepoint)
                  && RasterOf(m, raster) && FromBbox(m, bbox).Ok? && FromBbox(m, bbox).value.Within(m)
                  && r.value.samples == WindowOf(env, m, raster, FromBbox(m, bbox).value)
                  && WindowSamples(env, m, raster, FromBbox(m, bbox).value, r.value.samples))
  {
    hide *;
    var chunks := Compressed(meta, im, raster, deflate);
    var content := FileBytes(im, chunks);
    WrittenMeta(meta, im, raster, deflate);
    CompressedCount(meta, im, raster, deflate);
    FileHolds(im, chunks);
    HeldBelow(content, im, chunks);
    RasterStored(meta, env, im, raster, deflate);
    DescribedIndexesOf(meta, im, chunks);
    var m := Described(meta, im, chunks);
    if TextReadable(meta, im) {
      AnswerableWritten(meta, env, content, im, chunks, m, kind, bbox);
    } else {
      Unreadable(meta, env, content, kind, bbox);
    }
    var store := Serve(content);
    r := LocalizeWindow(store, meta, env, kind, bbox, content, raster);
    if r.Ok? {
      AnswerOf(meta, env, content, raster, bbox, r.value, m);
    }
  }

  lemma Unreadable(meta: Metadata, env: Platform, content: seq<byte>, kind: RasterKind, bbox: Bbox)
    requires MetadataIn(meta, content).Err?
    ensures !Answerable(meta, env, content, kind, bbox)
  {
    hide MetadataIn;
  }

  lemma DescribedIndexesOf(meta: Metadata, im: Image, chunks: seq<seq<byte>>)
    requires im.Valid() && Storable(im, chunks)
    ensures Described(meta, im, chunks).tileOffsets == Offsets(im, chunks) && Described(meta, im, chunks).tileByteCounts == Counts(im, chunks)
  {
    hide Offsets, Counts;
  }

  lemma AnswerOf(meta: Metadata, env: Platform, content: seq<byte>, raster: Raster, bbox: Bbox, answer: LocalizedRasterWindow, m: CogMetadata)
    requires WindowAnswer(meta, env, content, raster, bbox, answer) && MetadataIn(meta, content) == Ok(m)
    ensures RasterOf(m, raster) && FromBbox(m, bbox).Ok? && FromBbox(m, bbox).value.Within(m)
    ensures answer.samples == WindowOf(env, m, raster, FromBbox(m, bbox).value)
    ensures WindowSamples(env, m, raster, FromBbox(m, bbox).value, answer.samples)
  {
    hide MetadataIn, RasterOf, FromBbox, WindowOf, WindowSamples, PlacedBy;
  }

  /** A store that serves a content. */
  method Serve(content: seq<byte>) returns (store: ObjectStore)
    requires |content| < U64_LIMIT
    ensures fresh(store) && store.Serves(content)
  {
    var reply: (nat, ByteRange) -> Option<seq<byte>> :=
      (n: nat, r: ByteRange) => if r.Inside(|content|) then Some(Slice(content, r)) else None;
    var replies: (nat, seq<ByteRange>) -> Option<seq<seq<byte>>> :=
      (n: nat, rs: seq<ByteRange>) => if AllInside(rs, |content|) then Some(Slices(content, rs)) else None;
    store := new ObjectStore(|content|, reply, replies);
  }
}
