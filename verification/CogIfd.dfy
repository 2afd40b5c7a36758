/** The TIFF directory of a remote COG: header, entries, and the fields the reader needs. */
module CogIfd {
  import opened Arith
  import opened Bytes
  import opened Results
  import opened CogModel
  import opened CogDecode

  datatype Format = Classic | BigTiff
  {
    function InlineWidth(): nat { if Classic? then 4 else 8 }
    function CountWidth(): nat { if Classic? then 2 else 8 }
    function EntryWidth(): nat { if Classic? then 12 else 20 }
  }

  datatype IfdEntry = IfdEntry(tag: u16, fieldType: u16, count: u64, value: u64)

  /** Floating-point and text decoding of metadata values. */
  datatype Metadata = Metadata(double: seq<byte> -> real, ascii: seq<byte> -> Option<string>)

  // ---- Little-endian fields ----------------------------------------------------

  function U16At(bs: seq<byte>, k: nat): u16
    requires k + 2 <= |bs|
  {
    PowValues();
    LeValue(bs[k..k + 2])
  }

  function U32At(bs: seq<byte>, k: nat): u32
    requires k + 4 <= |bs|
  {
    PowValues();
    LeValue(bs[k..k + 4])
  }

  function U64At(bs: seq<byte>, k: nat): u64
    requires k + 8 <= |bs|
  {
    PowValues();
    LeValue(bs[k..k + 8])
  }

  // ---- Ranges --------------------------------------------------------------------

  /** A range that ends inside the object, with its end formed in 64 bits. */
  function CheckedRange(start: nat, length: nat, size: nat): (r: Result<ByteRange, CogError>)
    ensures r.Ok? ==> r.value.Inside(size) && r.value.Length() == length && r.value.start == start
  {
    if start + length >= U64_LIMIT then Err(RangeOverflow)
    else if start + length > size then Err(OutsideObject(ByteRange(start, start + length)))
    else Ok(ByteRange(start, start + length))
  }

  // ---- Header and entries ----------------------------------------------------------

  function ParseHeader(h: seq<byte>): (r: Result<(Format, nat), CogError>)
    requires |h| == 16
    ensures r.Ok? ==> r.value.1 < U64_LIMIT
  {
    if h[0] != 0x49 || h[1] != 0x49 then Err(BadHeader)
    else if U16At(h, 2) == 42 then Ok((Classic, U32At(h, 4)))
    else if U16At(h, 2) != 43 || U16At(h, 4) != 8 || U16At(h, 6) != 0 then Err(BadHeader)
    else Ok((BigTiff, U64At(h, 8)))
  }

  function ParseCount(f: Format, bs: seq<byte>): nat
    requires |bs| == f.CountWidth()
  {
    if f.Classic? then U16At(bs, 0) else U64At(bs, 0)
  }

  /** The range of the directory's entries, after the entry-count and entry-byte ceilings. */
  function EntriesRange(f: Format, countEnd: nat, entryCount: nat, size: nat): (r: Result<ByteRange, CogError>)
    ensures r.Ok? ==> r.value.Inside(size) && r.value.Length() == entryCount * f.EntryWidth() <= MAX_REMOTE_IFD_ENTRY_BYTES
    ensures r.Ok? ==> 0 < entryCount <= MAX_REMOTE_IFD_ENTRIES
  {
    if entryCount == 0 || entryCount > MAX_REMOTE_IFD_ENTRIES then Err(BadIfd)
    else if entryCount * f.EntryWidth() > MAX_REMOTE_IFD_ENTRY_BYTES then Err(BadIfd)
    else CheckedRange(countEnd, entryCount * f.EntryWidth(), size)
  }

  function FieldWidth(fieldType: nat): Option<nat> {
    match fieldType
    case 1 => Some(1)
    case 2 => Some(1)
    case 3 => Some(2)
    case 4 => Some(4)
    case 5 => Some(8)
    case 12 => Some(8)
    case 16 => Some(8)
    case _ => None
  }

  function ParseEntry(f: Format, bs: seq<byte>): Result<IfdEntry, CogError>
    requires |bs| == f.EntryWidth()
  {
    var fieldType := U16At(bs, 2);
    if FieldWidth(fieldType).None? then Err(BadTag(U16At(bs, 0)))
    else if f.Classic? then Ok(IfdEntry(U16At(bs, 0), fieldType, U32At(bs, 4), U32At(bs, 8)))
    else Ok(IfdEntry(U16At(bs, 0), fieldType, U64At(bs, 4), U64At(bs, 12)))
  }

  /** The entries of whole `EntryWidth`-byte chunks, or the first chunk's error. */
  function ParseEntries(f: Format, bs: seq<byte>): Result<seq<IfdEntry>, CogError>
    decreases |bs|
  {
    if |bs| < f.EntryWidth() then Ok([])
    else
      var entry :- ParseEntry(f, bs[..f.EntryWidth()]);
      var rest :- ParseEntries(f, bs[f.EntryWidth()..]);
      Ok([entry] + rest)
  }

  /** The bytes a writer stores for one entry. */
  function EncodeEntry(f: Format, e: IfdEntry): (bs: seq<byte>)
    requires Encodable(f, e)
    ensures |bs| == f.EntryWidth()
  {
    PowValues();
    LeBytes(e.tag, 2) + LeBytes(e.fieldType, 2) +
    (if f.Classic? then LeBytes(e.count, 4) + LeBytes(e.value, 4) else LeBytes(e.count, 8) + LeBytes(e.value, 8))
  }

  predicate Encodable(f: Format, e: IfdEntry) {
    FieldWidth(e.fieldType).Some? && (f.Classic? ==> e.count < U32_LIMIT && e.value < U32_LIMIT)
  }

  function EncodeEntries(f: Format, es: seq<IfdEntry>): seq<byte>
    requires forall e :: e in es ==> Encodable(f, e)
  {
    if es == [] then [] else EncodeEntry(f, es[0]) + EncodeEntries(f, es[1..])
  }

  lemma EntryRoundTrip(f: Format, e: IfdEntry)
    requires Encodable(f, e)
    ensures ParseEntry(f, EncodeEntry(f, e)) == Ok(e)
  {
    PowValues();
    var bs := EncodeEntry(f, e);
    assert bs[0..2] == LeBytes(e.tag, 2);
    assert bs[2..4] == LeBytes(e.fieldType, 2);
    LeRoundTrip(e.tag, 2);
    LeRoundTrip(e.fieldType, 2);
    if f.Classic? {
      assert bs[4..8] == LeBytes(e.count, 4);
      assert bs[8..12] == LeBytes(e.value, 4);
      LeRoundTrip(e.count, 4);
      LeRoundTrip(e.value, 4);
    } else {
      assert bs[4..12] == LeBytes(e.count, 8);
      assert bs[12..20] == LeBytes(e.value, 8);
      LeRoundTrip(e.count, 8);
      LeRoundTrip(e.value, 8);
    }
  }

  /** A written directory reads back as the entries written, in order. */
  lemma {:induction false} EntriesRoundTrip(f: Format, es: seq<IfdEntry>)
    requires forall e :: e in es ==> Encodable(f, e)
    ensures ParseEntries(f, EncodeEntries(f, es)) == Ok(es)
  {
    if es == [] {
    } else {
      hide EncodeEntry, ParseEntry;
      var bs := EncodeEntries(f, es);
      EntryRoundTrip(f, es[0]);
      EntriesRoundTrip(f, es[1..]);
      assert bs[..f.EntryWidth()] == EncodeEntry(f, es[0]);
      assert bs[f.EntryWidth()..] == EncodeEntries(f, es[1..]);
      assert [es[0]] + es[1..] == es;
    }
  }

  /** The first entry with the tag. */
  function Lookup(entries: seq<IfdEntry>, tag: nat): Option<IfdEntry> {
    if entries == [] then None
    else if entries[0].tag == tag then Some(entries[0])
    else Lookup(entries[1..], tag)
  }

  // ---- Fields ------------------------------------------------------------------------

  function Required(entries: seq<IfdEntry>, tag: nat): Result<IfdEntry, CogError> {
    match Lookup(entries, tag)
    case None => Err(MissingTag(tag))
    case Some(e) => Ok(e)
  }

  /** One SHORT or LONG stored in the entry, with zero padding. */
  function InlineScalarOf(entries: seq<IfdEntry>, tag: nat): (r: Result<u32, CogError>)
  {
    var e :- Required(entries, tag);
    if (e.fieldType != 3 && e.fieldType != 4) || e.count != 1 then Err(BadTag(tag))
    else if e.value >= (if e.fieldType == 3 then 0x1_0000 else U32_LIMIT) then Err(BadTag(tag))
    else Ok(e.value)
  }

  /** The range of a fixed number of DOUBLE values. */
  function DoublesRange(e: IfdEntry, expected: nat, size: nat): (r: Result<ByteRange, CogError>)
    ensures r.Ok? ==> r.value.Inside(size) && r.value.Length() == 8 * expected
  {
    if e.fieldType != 12 then Err(BadTag(e.tag))
    else if e.count * 8 >= U64_LIMIT then Err(RangeOverflow)
    else if e.count * 8 > MAX_REMOTE_METADATA_VALUE_BYTES then Err(TooLong(e.tag))
    else if e.count != expected then Err(BadTag(e.tag))
    else CheckedRange(e.value, e.count * 8, size)
  }

  /** A tile-index array, described but not fetched. */
  function DescriptorOf(f: Format, e: IfdEntry, size: nat): (r: Result<IndexDescriptor, CogError>)
    ensures r.Ok? ==> DescriptorValid(f, r.value, size)
  {
    if e.count == 0 || (e.fieldType != 4 && e.fieldType != 16) then Err(BadTag(e.tag))
    else
      var width := if e.fieldType == 4 then 4 else 8;
      var bytes := e.count * width;
      if bytes >= U64_LIMIT then Err(RangeOverflow)
      else if bytes <= f.InlineWidth() then Ok(IndexDescriptor(e.fieldType, width, e.count, InlineScalar(e.value)))
      else if e.value + bytes >= U64_LIMIT then Err(RangeOverflow)
      else if e.value + bytes > size then Err(OutsideObject(ByteRange(e.value, e.value + bytes)))
      else Ok(IndexDescriptor(e.fieldType, width, e.count, OutOfLine(e.value)))
  }

  predicate DescriptorValid(f: Format, d: IndexDescriptor, size: nat) {
    && d.count > 0
    && ((d.fieldType == 4 && d.elementWidth == 4) || (d.fieldType == 16 && d.elementWidth == 8))
    && match d.storage
       case InlineScalar(_) => d.count * d.elementWidth <= f.InlineWidth()
       case OutOfLine(base) => d.count * d.elementWidth > f.InlineWidth() && base + d.count * d.elementWidth <= size
  }

  datatype AsciiSource = Absent | Inline(bytes: seq<byte>) | Remote(range: ByteRange)

  /** Where the nodata text is, after the length ceiling. */
  function AsciiOf(f: Format, entries: seq<IfdEntry>, tag: nat, size: nat): (r: Result<AsciiSource, CogError>)
    ensures r.Ok? && r.value.Remote? ==> r.value.range.Inside(size) && r.value.range.Length() <= MAX_REMOTE_ASCII_BYTES
  {
    match Lookup(entries, tag)
    case None => Ok(Absent)
    case Some(e) =>
      if e.fieldType != 2 || e.count == 0 then Err(BadTag(tag))
      else if e.count > MAX_REMOTE_ASCII_BYTES then Err(TooLong(tag))
      else if e.count <= f.InlineWidth() then
        PowValues();
        Ok(Inline(LeBytes(e.value, 8)[..e.count]))
      else
        var range :- CheckedRange(e.value, e.count, size);
        Ok(Remote(range))
  }

  function SampleTypeOf(bits: nat, format: nat): Option<SampleType> {
    if bits == 8 && format == 1 then Some(U8)
    else if bits == 8 && format == 2 then Some(I8)
    else if bits == 32 && format == 3 then Some(F32)
    else if bits == 32 && format == 2 then Some(I32)
    else None
  }

  /** What the entries say, before any further fetch. */
  datatype Fields = Fields(
    format: Format, width: u32, height: u32, tileWidth: u32, tileHeight: u32,
    scaleRange: ByteRange, tiepointRange: ByteRange, sampleType: SampleType,
    compression: u32, predictor: u32, tileOffsets: IndexDescriptor, tileByteCounts: IndexDescriptor,
    nodata: AsciiSource)
  {
    predicate Valid(size: nat) {
      && width > 0 && height > 0
      && scaleRange.Inside(size) && scaleRange.Length() == 24
      && tiepointRange.Inside(size) && tiepointRange.Length() == 48
      && DescriptorValid(format, tileOffsets, size) && DescriptorValid(format, tileByteCounts, size)
      && tileOffsets.count == tileByteCounts.count
      && (nodata.Remote? ==> nodata.range.Inside(size) && nodata.range.Length() <= MAX_REMOTE_ASCII_BYTES)
    }
  }

  function FieldsOf(f: Format, entries: seq<IfdEntry>, size: nat): (r: Result<Fields, CogError>)
    ensures r.Ok? ==> r.value.Valid(size)
  {
    var width :- InlineScalarOf(entries, 256);
    var height :- InlineScalarOf(entries, 257);
    if width == 0 || height == 0 then Err(BadTag(256))
    else
      var scale :- Required(entries, 33_550);
      var scaleRange :- DoublesRange(scale, 3, size);
      var tiepoint :- Required(entries, 33_922);
      var tiepointRange :- DoublesRange(tiepoint, 6, size);
      var offsets :- Required(entries, 324);
      var tileOffsets :- DescriptorOf(f, offsets, size);
      var counts :- Required(entries, 325);
      var tileByteCounts :- DescriptorOf(f, counts, size);
      if tileOffsets.count != tileByteCounts.count then Err(BadTag(325))
      else
        var tileWidth :- InlineScalarOf(entries, 322);
        var tileHeight :- InlineScalarOf(entries, 323);
        var bits :- InlineScalarOf(entries, 258);
        var compression :- InlineScalarOf(entries, 259);
        var photometric :- InlineScalarOf(entries, 262);
        var samples :- InlineScalarOf(entries, 277);
        var planar :- InlineScalarOf(entries, 284);
        var predictor :- InlineScalarOf(entries, 317);
        var sampleFormat :- InlineScalarOf(entries, 339);
        if photometric != 1 || samples != 1 || planar != 1 then Err(UnsupportedLayout)
        else match SampleTypeOf(bits, sampleFormat)
          case None => Err(UnsupportedLayout)
          case Some(t) =>
            var nodata :- AsciiOf(f, entries, 42_113, size);
            Ok(Fields(f, width, height, tileWidth, tileHeight, scaleRange, tiepointRange, t,
                      compression, predictor, tileOffsets, tileByteCounts, nodata))
  }

  function DefaultNodata(t: SampleType): string {
    if t.U8? then "255" else "-1"
  }

  // ---- Metadata ------------------------------------------------------------------------

  function Doubles(env: Metadata, bs: seq<byte>): (r: seq<real>)
    ensures |r| == |bs| / 8
  {
    seq(|bs| / 8, i requires 0 <= i < |bs| / 8 => env.double(bs[8 * i..8 * i + 8]))
  }

  /** The raster's corner: the tie point carried back to pixel (0, 0). */
  function OriginX(scale: seq<real>, tie: seq<real>): real
    requires |scale| == 3 && |tie| == 6
  {
    tie[3] - tie[0] * scale[0]
  }

  function OriginY(scale: seq<real>, tie: seq<real>): real
    requires |scale| == 3 && |tie| == 6
  {
    tie[4] + tie[1] * scale[1]
  }

  /** What the two transform fields mean: pixels are `scale` wide and, downwards, high, and raster position
      (tie[0], tie[1]) lies at (tie[3], tie[4]). */
  predicate Georeferenced(env: Metadata, m: CogMetadata, scale: seq<byte>, tie: seq<byte>)
    requires |scale| == 24 && |tie| == 48
  {
    && m.pixelWidth == env.double(scale[0..8]) && m.pixelHeight == -env.double(scale[8..16])
    && m.originX + env.double(tie[0..8]) * m.pixelWidth == env.double(tie[24..32])
    && m.originY + env.double(tie[8..16]) * m.pixelHeight == env.double(tie[32..40])
  }

  lemma TiePlaced(s: seq<real>, t: seq<real>)
    requires |s| == 3 && |t| == 6
    ensures OriginX(s, t) + t[0] * s[0] == t[3]
    ensures OriginY(s, t) + t[1] * -s[1] == t[4]
  {
  }

  /** Accepted metadata is placed by the transform fields. */
  lemma MetadataPlaced(env: Metadata, fields: Fields, nodata: Option<string>, scale: seq<byte>, tiepoint: seq<byte>)
    requires fields.width > 0 && fields.height > 0 && |scale| == 24 && |tiepoint| == 48
    ensures var r := MetadataOf(env, fields, nodata, scale, tiepoint);
            r.Ok? ==> Georeferenced(env, r.value, scale, tiepoint)
  {
    hide OriginX, OriginY;
    TiePlaced(Doubles(env, scale), Doubles(env, tiepoint));
  }

  /** Metadata from the fields, the fetched nodata text and the fetched transform values. */
  function MetadataOf(env: Metadata, fields: Fields, nodata: Option<string>, scale: seq<byte>, tiepoint: seq<byte>)
    : Result<CogMetadata, CogError>
    requires fields.width > 0 && fields.height > 0
  {
    if |scale| != 24 || |tiepoint| != 48 then Err(BadResponse(2))
    else if fields.compression >= 0x1_0000 then Err(BadTag(259))
    else if fields.predictor >= 0x1_0000 then Err(BadTag(317))
    else
      var s, t := Doubles(env, scale), Doubles(env, tiepoint);
      Ok(CogMetadata(fields.width, fields.height, fields.tileWidth, fields.tileHeight,
                     OriginX(s, t), OriginY(s, t), s[0], -s[1],
                     if nodata.Some? then nodata.value else DefaultNodata(fields.sampleType),
                     fields.sampleType, fields.compression, fields.predictor,
                     fields.tileOffsets, fields.tileByteCounts))
  }
}
