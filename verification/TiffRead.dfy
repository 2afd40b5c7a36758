/** Decoding a localized window: TIFF 6.0 section 2, and BigTIFF, in either byte order. */
module TiffRead {
  import opened Arith
  import opened Bytes
  import opened Results

  datatype TiffError =
    | ByteOrder | Magic | BigHeader | IfdTruncated | IfdCount | DuplicateTag
    | FieldKind | FieldTruncated | MissingTag | NotScalar | NotIntegral
    | Dimensions | SampleKind | MissingIndex | ChunkIndexes | NoMargin | ChunkTruncated | DecodedSize | Geotransform
    | SampleCount | DoesNotFit

  const WINDOW_CEILING := 1_073_741_824
  const CHUNK_CEILING := 8_388_608
  const DIRECTORY_LIMIT := 4096
  const VALUE_LIMIT := 10_000_000

  // ---- Doubles as bit patterns ------------------------------------------------------------

  const ZERO: u64 := 0
  const NEGATIVE_ZERO: u64 := 0x8000_0000_0000_0000
  const ONE: u64 := 0x3FF0_0000_0000_0000
  const INFINITE: u64 := 0x7FF0_0000_0000_0000

  /** Clear the sign bit. */
  function Abs(bits: u64): u64 {
    if bits < NEGATIVE_ZERO then bits else bits - NEGATIVE_ZERO
  }

  /** Flip the sign bit. */
  function Negate(bits: u64): u64 {
    if bits < NEGATIVE_ZERO then bits + NEGATIVE_ZERO else bits - NEGATIVE_ZERO
  }

  predicate Finite(bits: u64) {
    Abs(bits) < INFINITE
  }

  /** `x <= 0`, false of a NaN. */
  predicate NonPositive(bits: u64) {
    Abs(bits) <= INFINITE && (bits == ZERO || bits >= NEGATIVE_ZERO)
  }

  /** The operations of the host on doubles: widening a single, converting an integer, truncating to an integer
      (which fails on NaN and infinities), and rounded arithmetic. */
  datatype Doubles = Doubles(
    widen: u32 -> u64, ofInt: int -> u64, truncate: u64 -> Option<int>,
    times: (u64, u64) -> u64, plus: (u64, u64) -> u64, minus: (u64, u64) -> u64)

  // ---- Directory --------------------------------------------------------------------------

  datatype Layout = Layout(little: bool, big: bool) {
    function CountWidth(): nat { if big then 8 else 2 }
    function EntryWidth(): nat { if big then 20 else 12 }
    function InlineWidth(): nat { if big then 8 else 4 }

    function Unsigned(data: seq<byte>, offset: nat, width: nat): (v: nat)
      requires offset + width <= |data|
      ensures v < Pow256(width)
    {
      if little then LeValue(data[offset..offset + width]) else BeValue(data[offset..offset + width])
    }

    /** Two's complement. */
    function Signed(data: seq<byte>, offset: nat, width: nat): int
      requires offset + width <= |data|
    {
      var v := Unsigned(data, offset, width);
      if 2 * v < Pow256(width) then v else v - Pow256(width)
    }
  }

  datatype Preamble = Preamble(lay: Layout, first: nat, count: nat)

  /** The directory lies inside the file. */
  predicate Inside(data: seq<byte>, pre: Preamble) {
    pre.first + pre.count * pre.lay.EntryWidth() <= |data|
  }

  function ParsePreamble(data: seq<byte>): (r: Result<Preamble, TiffError>)
    ensures r.Ok? ==> 0 < r.value.count <= DIRECTORY_LIMIT && Inside(data, r.value)
  {
    if |data| < 8 || (data[..2] != [0x49, 0x49] && data[..2] != [0x4D, 0x4D]) then Err(ByteOrder)
    else
      var little := data[0] == 0x49;
      var magic := Layout(little, false).Unsigned(data, 2, 2);
      if magic != 42 && magic != 43 then Err(Magic)
      else
        var lay := Layout(little, magic == 43);
        if lay.big && (|data| < 16 || lay.Unsigned(data, 4, 2) != 8 || lay.Unsigned(data, 6, 2) != 0) then Err(BigHeader)
        else
          var ifd := if lay.big then lay.Unsigned(data, 8, 8) else lay.Unsigned(data, 4, 4);
          if ifd + lay.CountWidth() > |data| then Err(IfdTruncated)
          else
            var count := lay.Unsigned(data, ifd, lay.CountWidth());
            var pre := Preamble(lay, ifd + lay.CountWidth(), count);
            if count == 0 || count > DIRECTORY_LIMIT || !Inside(data, pre) then Err(IfdCount) else Ok(pre)
  }

  datatype Entry = Entry(kind: nat, count: nat, offset: nat)

  function EntryOffset(pre: Preamble, k: nat): nat {
    pre.first + k * pre.lay.EntryWidth()
  }

  lemma EntryInside(data: seq<byte>, pre: Preamble, k: nat)
    requires Inside(data, pre) && k < pre.count
    ensures EntryOffset(pre, k) + pre.lay.EntryWidth() <= |data|
  {
    var w := pre.lay.EntryWidth();
    assert (k + 1) * w <= pre.count * w;
  }

  function TagAt(data: seq<byte>, pre: Preamble, k: nat): nat
    requires Inside(data, pre) && k < pre.count
  {
    EntryInside(data, pre, k);
    pre.lay.Unsigned(data, EntryOffset(pre, k), 2)
  }

  function EntryAt(data: seq<byte>, pre: Preamble, k: nat): (e: Entry)
    requires Inside(data, pre) && k < pre.count
    ensures e.offset + pre.lay.EntryWidth() <= |data|
  {
    EntryInside(data, pre, k);
    var at := EntryOffset(pre, k);
    Entry(pre.lay.Unsigned(data, at + 2, 2), pre.lay.Unsigned(data, at + 4, pre.lay.InlineWidth()), at)
  }

  type Directory = map<nat, Entry>

  predicate EntriesInside(data: seq<byte>, lay: Layout, dir: Directory) {
    forall tag :: tag in dir ==> dir[tag].offset + lay.EntryWidth() <= |data|
  }

  /** The first `k` entries by tag; a tag may occur once. */
  function DirectoryUpTo(data: seq<byte>, pre: Preamble, k: nat): (r: Result<Directory, TiffError>)
    requires Inside(data, pre) && k <= pre.count
    ensures r.Ok? ==> EntriesInside(data, pre.lay, r.value)
  {
    if k == 0 then Ok(map[])
    else
      var dir :- DirectoryUpTo(data, pre, k - 1);
      if TagAt(data, pre, k - 1) in dir then Err(DuplicateTag)
      else Ok(dir[TagAt(data, pre, k - 1) := EntryAt(data, pre, k - 1)])
  }

  lemma {:induction false} DirectoryFailure(data: seq<byte>, pre: Preamble, j: nat, k: nat)
    requires Inside(data, pre) && j <= k <= pre.count && DirectoryUpTo(data, pre, j).Err?
    ensures DirectoryUpTo(data, pre, k) == DirectoryUpTo(data, pre, j)
  {
    hide TagAt, EntryAt;
    if j < k {
      DirectoryFailure(data, pre, j, k - 1);
    }
  }

  /** The loop that fills the dictionary of entries. */
  method ReadDirectory(data: seq<byte>, pre: Preamble) returns (r: Result<Directory, TiffError>)
    requires Inside(data, pre)
    ensures r == DirectoryUpTo(data, pre, pre.count)
  {
    hide TagAt, EntryAt;
    var dir: Directory := map[];
    for k := 0 to pre.count
      invariant DirectoryUpTo(data, pre, k) == Ok(dir)
    {
      var tag := TagAt(data, pre, k);
      if tag in dir {
        assert DirectoryUpTo(data, pre, k + 1) == Err(DuplicateTag);
        DirectoryFailure(data, pre, k + 1, pre.count);
        return Err(DuplicateTag);
      }
      dir := dir[tag := EntryAt(data, pre, k)];
    }
    return Ok(dir);
  }

  /** Accepted exactly when the tags are pairwise distinct, and then every entry is under its own tag. */
  lemma {:induction false} DirectoryExact(data: seq<byte>, pre: Preamble, k: nat)
    requires Inside(data, pre) && k <= pre.count
    ensures DirectoryUpTo(data, pre, k).Ok? <==>
            forall i, j :: 0 <= i < j < k ==> TagAt(data, pre, i) != TagAt(data, pre, j)
    ensures DirectoryUpTo(data, pre, k).Ok? ==>
              var dir := DirectoryUpTo(data, pre, k).value;
              && (forall i :: 0 <= i < k ==> TagAt(data, pre, i) in dir && dir[TagAt(data, pre, i)] == EntryAt(data, pre, i))
              && (forall tag :: tag in dir ==> exists i :: 0 <= i < k && tag == TagAt(data, pre, i))
  {
    hide TagAt, EntryAt;
    if k > 0 {
      DirectoryExact(data, pre, k - 1);
      var before := DirectoryUpTo(data, pre, k - 1);
      if before.Ok? && TagAt(data, pre, k - 1) in before.value {
        var i :| 0 <= i < k - 1 && TagAt(data, pre, k - 1) == TagAt(data, pre, i);
      }
    }
  }

  // ---- Field values -----------------------------------------------------------------------

  datatype Number = Whole(n: int) | Double(bits: u64) {
    /** `float(value)`. */
    function AsDouble(dbl: Doubles): u64 {
      match this
      case Whole(n) => dbl.ofInt(n)
      case Double(bits) => bits
    }

    /** `int(value)`. */
    function AsInt(dbl: Doubles): Option<int> {
      match this
      case Whole(n) => Some(n)
      case Double(bits) => dbl.truncate(bits)
    }
  }

  /** Bytes per value; zero for a field type the decoder does not know. */
  function ValueWidth(kind: nat): (w: nat)
    ensures w <= 8
  {
    match kind
    case 1 => 1
    case 2 => 1
    case 3 => 2
    case 4 => 4
    case 8 => 2
    case 11 => 4
    case 12 => 8
    case 16 => 8
    case 17 => 8
    case 18 => 8
    case _ => 0
  }

  function NumberAt(dbl: Doubles, lay: Layout, kind: nat, raw: seq<byte>, at: nat): Number
    requires ValueWidth(kind) > 0 && at + ValueWidth(kind) <= |raw|
  {
    PowValues();
    var width := ValueWidth(kind);
    if kind == 8 || kind == 17 then Whole(lay.Signed(raw, at, width))
    else if kind == 11 then Double(dbl.widen(lay.Unsigned(raw, at, width)))
    else if kind == 12 then Double(lay.Unsigned(raw, at, width))
    else Whole(lay.Unsigned(raw, at, width))
  }

  lemma NumberInside(i: nat, count: nat, width: nat)
    requires i < count
    ensures i * width + width <= count * width
  {
    assert (i + 1) * width <= count * width;
  }

  function Numbers(dbl: Doubles, lay: Layout, kind: nat, raw: seq<byte>, count: nat): (ns: seq<Number>)
    requires ValueWidth(kind) > 0 && |raw| == count * ValueWidth(kind)
    ensures |ns| == count
  {
    seq(count, i requires 0 <= i < count =>
        NumberInside(i, count, ValueWidth(kind)); NumberAt(dbl, lay, kind, raw, i * ValueWidth(kind)))
  }

  /** Python's clipped slice. */
  function Clipped(data: seq<byte>, start: nat, length: nat): seq<byte> {
    if start >= |data| then [] else if start + length >= |data| then data[start..] else data[start..start + length]
  }

  /** The bytes of a field: inside the entry when they fit, else where the entry points. */
  function RawField(data: seq<byte>, lay: Layout, e: Entry): seq<byte>
    requires e.offset + lay.EntryWidth() <= |data|
  {
    var length := ValueWidth(e.kind) * e.count;
    var at := e.offset + lay.EntryWidth() - lay.InlineWidth();
    if length <= lay.InlineWidth() then Clipped(data, at, length)
    else Clipped(data, lay.Unsigned(data, at, lay.InlineWidth()), length)
  }

  function Values(dbl: Doubles, data: seq<byte>, lay: Layout, e: Entry): (r: Result<seq<Number>, TiffError>)
    requires e.offset + lay.EntryWidth() <= |data|
    ensures r.Ok? ==> |r.value| == e.count <= VALUE_LIMIT
  {
    if ValueWidth(e.kind) == 0 || e.count > VALUE_LIMIT then Err(FieldKind)
    else
      var raw := RawField(data, lay, e);
      if |raw| != ValueWidth(e.kind) * e.count then Err(FieldTruncated)
      else Ok(Numbers(dbl, lay, e.kind, raw, e.count))
  }

  function Scalar(dbl: Doubles, data: seq<byte>, lay: Layout, dir: Directory, tag: nat, default: Option<int>)
    : Result<int, TiffError>
    requires EntriesInside(data, lay, dir)
  {
    if tag !in dir then
      if default.None? then Err(MissingTag) else Ok(default.value)
    else
      var values :- Values(dbl, data, lay, dir[tag]);
      if |values| != 1 then Err(NotScalar)
      else
        var n := values[0].AsInt(dbl);
        if n.None? then Err(NotIntegral) else Ok(n.value)
  }

  // ---- Samples ----------------------------------------------------------------------------

  datatype Kind = FlowDir | FlowAcc
  datatype Samples = U8(bytes: seq<byte>) | F32(bits: seq<u32>) {
    function Count(): nat {
      match this
      case U8(bytes) => |bytes|
      case F32(bits) => |bits|
    }
  }

  datatype Window = Window(
    width: nat, height: nat, samples: Samples,
    originX: u64, originY: u64, pixelWidth: u64, pixelHeight: u64, decodedChunkBytes: nat)

  datatype Shape = Shape(width: nat, height: nat, sampleWidth: nat)

  /** The six scalars, and the sample type the named raster must have. */
  function ReadShape(dbl: Doubles, data: seq<byte>, lay: Layout, dir: Directory, kind: Kind): (r: Result<Shape, TiffError>)
    requires EntriesInside(data, lay, dir)
    ensures r.Ok? ==> r.value.width > 0 && r.value.height > 0 && r.value.sampleWidth == SampleWidth(kind)
  {
    var width :- Scalar(dbl, data, lay, dir, 256, None);
    var height :- Scalar(dbl, data, lay, dir, 257, None);
    var bits :- Scalar(dbl, data, lay, dir, 258, None);
    var compression :- Scalar(dbl, data, lay, dir, 259, Some(1));
    var samplesPerPixel :- Scalar(dbl, data, lay, dir, 277, Some(1));
    var format :- Scalar(dbl, data, lay, dir, 339, Some(1));
    if width <= 0 || height <= 0 || compression != 1 || samplesPerPixel != 1 then Err(Dimensions)
    else if (kind == FlowDir && bits == 8 && format == 1) || (kind == FlowAcc && bits == 32 && format == 3)
    then Ok(Shape(width, height, SampleWidth(kind)))
    else Err(SampleKind)
  }

  function SampleWidth(kind: Kind): nat {
    if kind == FlowDir then 1 else 4
  }

  /** `int(value)` of every value. */
  function Integers(dbl: Doubles, values: seq<Number>): (r: Result<seq<int>, TiffError>)
    ensures r.Ok? ==> |r.value| == |values|
  {
    if values == [] then Ok([])
    else
      var n := values[0].AsInt(dbl);
      if n.None? then Err(NotIntegral)
      else
        var rest :- Integers(dbl, values[1..]);
        Ok([n.value] + rest)
  }

  function ChunkList(dbl: Doubles, data: seq<byte>, lay: Layout, dir: Directory, tag: nat): Result<seq<int>, TiffError>
    requires EntriesInside(data, lay, dir)
  {
    if tag !in dir then Err(MissingIndex)
    else
      var values :- Values(dbl, data, lay, dir[tag]);
      Integers(dbl, values)
  }

  datatype Chunks = Chunks(bytes: seq<byte>, largest: nat)

  /** The first `k` chunks, concatenated, and the size of the largest. */
  function ChunksUpTo(data: seq<byte>, offsets: seq<int>, counts: seq<int>, k: nat): (r: Result<Chunks, TiffError>)
    requires |offsets| == |counts| && k <= |offsets|
    ensures r.Ok? ==> r.value.largest < CHUNK_CEILING
  {
    if k == 0 then Ok(Chunks([], 0))
    else
      var before :- ChunksUpTo(data, offsets, counts, k - 1);
      var offset, count := offsets[k - 1], counts[k - 1];
      if CHUNK_CEILING - count < 1 then Err(NoMargin)
      else if offset < 0 || count < 0 || offset + count > |data| then Err(ChunkTruncated)
      else Ok(Chunks(before.bytes + data[offset..offset + count], if count > before.largest then count else before.largest))
  }

  lemma {:induction false} ChunksFailure(data: seq<byte>, offsets: seq<int>, counts: seq<int>, j: nat, k: nat)
    requires |offsets| == |counts| && j <= k <= |offsets| && ChunksUpTo(data, offsets, counts, j).Err?
    ensures ChunksUpTo(data, offsets, counts, k) == ChunksUpTo(data, offsets, counts, j)
  {
    if j < k {
      ChunksFailure(data, offsets, counts, j, k - 1);
    }
  }

  /** A chunk inside the file and below the ceiling. */
  predicate ChunkUsable(data: seq<byte>, offset: int, count: int) {
    0 <= offset && 0 <= count < CHUNK_CEILING && offset + count <= |data|
  }

  ghost predicate AllUsable(data: seq<byte>, offsets: seq<int>, counts: seq<int>)
    requires |offsets| == |counts|
  {
    forall i :: 0 <= i < |offsets| ==> ChunkUsable(data, offsets[i], counts[i])
  }

  function ChunkSlices(data: seq<byte>, offsets: seq<int>, counts: seq<int>): (slices: seq<seq<byte>>)
    requires |offsets| == |counts| && AllUsable(data, offsets, counts)
    ensures |slices| == |offsets|
  {
    seq(|offsets|, i requires 0 <= i < |offsets| => data[offsets[i]..offsets[i] + counts[i]])
  }

  /** `n` is the greatest of the numbers, zero when there are none. */
  ghost predicate Greatest(n: int, numbers: seq<int>) {
    && (forall i :: 0 <= i < |numbers| ==> numbers[i] <= n)
    && (if numbers == [] then n == 0 else n in numbers)
  }

  /** Gathering succeeds exactly when every chunk is usable, and gives all the chunks in order and the size of the
      largest of them. */
  lemma {:induction false} ChunksExact(data: seq<byte>, offsets: seq<int>, counts: seq<int>, k: nat)
    requires |offsets| == |counts| && k <= |offsets|
    ensures ChunksUpTo(data, offsets, counts, k).Ok? <==> AllUsable(data, offsets[..k], counts[..k])
    ensures ChunksUpTo(data, offsets, counts, k).Ok? ==>
              var chunks := ChunksUpTo(data, offsets, counts, k).value;
              && chunks.bytes == Flatten(ChunkSlices(data, offsets[..k], counts[..k]))
              && Greatest(chunks.largest, counts[..k])
  {
    if k > 0 {
      hide Flatten, ChunkSlices, Greatest, AllUsable;
      ChunksExact(data, offsets, counts, k - 1);
      var os, cs := offsets[..k], counts[..k];
      assert os[..k - 1] == offsets[..k - 1] && cs[..k - 1] == counts[..k - 1];
      UsableExtend(data, os, cs);
      if AllUsable(data, os, cs) {
        ChunksExtend(data, os, cs);
        GreatestExtend(ChunksUpTo(data, offsets, counts, k - 1).value.largest, cs);
      }
    }
  }

  lemma UsableExtend(data: seq<byte>, offsets: seq<int>, counts: seq<int>)
    requires |offsets| == |counts| > 0
    ensures var k := |offsets| - 1;
            AllUsable(data, offsets, counts) <==>
            AllUsable(data, offsets[..k], counts[..k]) && ChunkUsable(data, offsets[k], counts[k])
  {
    var k := |offsets| - 1;
    if AllUsable(data, offsets, counts) {
      forall i | 0 <= i < k
        ensures ChunkUsable(data, offsets[..k][i], counts[..k][i])
      {
        assert ChunkUsable(data, offsets[i], counts[i]);
      }
    }
    if AllUsable(data, offsets[..k], counts[..k]) && ChunkUsable(data, offsets[k], counts[k]) {
      forall i | 0 <= i < |offsets|
        ensures ChunkUsable(data, offsets[i], counts[i])
      {
        assert i < k ==> ChunkUsable(data, offsets[..k][i], counts[..k][i]);
      }
    }
  }

  lemma ChunksExtend(data: seq<byte>, offsets: seq<int>, counts: seq<int>)
    requires |offsets| == |counts| > 0 && AllUsable(data, offsets, counts)
    requires AllUsable(data, offsets[..|offsets| - 1], counts[..|offsets| - 1])
    ensures var k := |offsets| - 1;
            && ChunkUsable(data, offsets[k], counts[k])
            && Flatten(ChunkSlices(data, offsets, counts))
               == Flatten(ChunkSlices(data, offsets[..k], counts[..k])) + data[offsets[k]..offsets[k] + counts[k]]
  {
    var k := |offsets| - 1;
    assert ChunkUsable(data, offsets[k], counts[k]);
    assert ChunkSlices(data, offsets, counts)[..k] == ChunkSlices(data, offsets[..k], counts[..k]);
  }

  lemma GreatestExtend(n: int, numbers: seq<int>)
    requires numbers != [] && Greatest(n, numbers[..|numbers| - 1]) && numbers[|numbers| - 1] >= 0
    ensures Greatest(if numbers[|numbers| - 1] > n then numbers[|numbers| - 1] else n, numbers)
  {
    var last := |numbers| - 1;
    assert numbers == numbers[..last] + [numbers[last]];
    assert numbers[last] in numbers;
  }

  /** The loop that gathers the chunks into one buffer. */
  method GatherChunks(data: seq<byte>, offsets: seq<int>, counts: seq<int>) returns (r: Result<Chunks, TiffError>)
    requires |offsets| == |counts|
    ensures r == ChunksUpTo(data, offsets, counts, |offsets|)
    ensures r.Ok? <==> AllUsable(data, offsets, counts)
    ensures r.Ok? ==> r.value.bytes == Flatten(ChunkSlices(data, offsets, counts)) && Greatest(r.value.largest, counts)
  {
    hide Flatten, ChunkSlices, AllUsable, Greatest;
    ChunksExact(data, offsets, counts, |offsets|);
    assert offsets[..|offsets|] == offsets && counts[..|offsets|] == counts;
    var bytes: seq<byte> := [];
    var largest: nat := 0;
    for k := 0 to |offsets|
      invariant ChunksUpTo(data, offsets, counts, k) == Ok(Chunks(bytes, largest))
    {
      var offset, count := offsets[k], counts[k];
      if CHUNK_CEILING - count < 1 {
        assert ChunksUpTo(data, offsets, counts, k + 1) == Err(NoMargin);
        ChunksFailure(data, offsets, counts, k + 1, |offsets|);
        return Err(NoMargin);
      }
      if offset < 0 || count < 0 || offset + count > |data| {
        assert ChunksUpTo(data, offsets, counts, k + 1) == Err(ChunkTruncated);
        ChunksFailure(data, offsets, counts, k + 1, |offsets|);
        return Err(ChunkTruncated);
      }
      bytes := bytes + data[offset..offset + count];
      largest := if count > largest then count else largest;
    }
    return Ok(Chunks(bytes, largest));
  }

  function SingleAt(lay: Layout, raw: seq<byte>, i: nat): u32
    requires 4 * i + 4 <= |raw|
  {
    PowValues();
    lay.Unsigned(raw, 4 * i, 4)
  }

  function UnpackSamples(kind: Kind, lay: Layout, raw: seq<byte>, count: nat): (s: Samples)
    requires |raw| == count * SampleWidth(kind)
    ensures s.Count() == count && (s.U8? <==> kind == FlowDir)
  {
    if kind == FlowDir then U8(raw)
    else F32(seq(count, i requires 0 <= i < count => SingleAt(lay, raw, i)))
  }

  // ---- Geotransform -----------------------------------------------------------------------

  function OptionalValues(dbl: Doubles, data: seq<byte>, lay: Layout, dir: Directory, tag: nat): Result<seq<Number>, TiffError>
    requires EntriesInside(data, lay, dir)
  {
    if tag in dir then Values(dbl, data, lay, dir[tag]) else Ok([])
  }

  datatype Geotransform = Transform(originX: u64, originY: u64, pixelWidth: u64, pixelHeight: u64)

  /** Scale and tie point, both axes positive; rows run downwards. */
  function ReadGeotransform(dbl: Doubles, data: seq<byte>, lay: Layout, dir: Directory): (r: Result<Geotransform, TiffError>)
    requires EntriesInside(data, lay, dir)
    ensures r.Ok? ==> !NonPositive(r.value.pixelWidth) && !NonPositive(Negate(r.value.pixelHeight))
  {
    var scale :- OptionalValues(dbl, data, lay, dir, 33550);
    var tie :- OptionalValues(dbl, data, lay, dir, 33922);
    if |scale| < 2 || |tie| < 6 then Err(TiffError.Geotransform)
    else
      var sx, sy := scale[0].AsDouble(dbl), scale[1].AsDouble(dbl);
      if NonPositive(sx) || NonPositive(sy) then Err(TiffError.Geotransform)
      else
        Ok(Transform(
             dbl.minus(tie[3].AsDouble(dbl), dbl.times(tie[0].AsDouble(dbl), sx)),
             dbl.plus(tie[4].AsDouble(dbl), dbl.times(tie[1].AsDouble(dbl), sy)),
             sx, Negate(sy)))
  }

  // ---- The decoder ------------------------------------------------------------------------

  /** The two lists of the chunk index: strips if the file has strip offsets, else tiles. */
  function ReadIndex(dbl: Doubles, data: seq<byte>, lay: Layout, dir: Directory): (r: Result<(seq<int>, seq<int>), TiffError>)
    requires EntriesInside(data, lay, dir)
    ensures r.Ok? ==> |r.value.0| == |r.value.1| > 0
  {
    var offsets :- ChunkList(dbl, data, lay, dir, if 273 in dir then 273 else 324);
    var counts :- ChunkList(dbl, data, lay, dir, if 273 in dir then 279 else 325);
    if |offsets| != |counts| || offsets == [] then Err(ChunkIndexes) else Ok((offsets, counts))
  }

  function Assemble(dbl: Doubles, data: seq<byte>, lay: Layout, dir: Directory, kind: Kind, shape: Shape, gathered: Result<Chunks, TiffError>)
    : (r: Result<Window, TiffError>)
    requires EntriesInside(data, lay, dir) && shape.sampleWidth == SampleWidth(kind)
    ensures r.Ok? ==> r.value.width == shape.width && r.value.height == shape.height
    ensures r.Ok? ==> r.value.samples.Count() == shape.width * shape.height && (r.value.samples.U8? <==> kind == FlowDir)
    ensures r.Ok? ==> !NonPositive(r.value.pixelWidth) && !NonPositive(Negate(r.value.pixelHeight))
    ensures r.Ok? ==> gathered.Ok? && r.value.decodedChunkBytes == gathered.value.largest
  {
    var chunks :- gathered;
    if |chunks.bytes| != shape.width * shape.height * shape.sampleWidth then Err(DecodedSize)
    else
      var samples := UnpackSamples(kind, lay, chunks.bytes, shape.width * shape.height);
      var geo :- ReadGeotransform(dbl, data, lay, dir);
      Ok(Window(shape.width, shape.height, samples, geo.originX, geo.originY, geo.pixelWidth, geo.pixelHeight, chunks.largest))
  }

  /** Everything after the directory. */
  function DecodeEntries(dbl: Doubles, data: seq<byte>, lay: Layout, dir: Directory, kind: Kind): (r: Result<Window, TiffError>)
    requires EntriesInside(data, lay, dir)
  {
    var shape :- ReadShape(dbl, data, lay, dir, kind);
    var index :- ReadIndex(dbl, data, lay, dir);
    if WINDOW_CEILING - shape.width * shape.height * shape.sampleWidth < 1 then Err(NoMargin)
    else Assemble(dbl, data, lay, dir, kind, shape, ChunksUpTo(data, index.0, index.1, |index.0|))
  }

  /** What the decoder computes. */
  function Decode(dbl: Doubles, data: seq<byte>, kind: Kind): (r: Result<Window, TiffError>) {
    var pre :- ParsePreamble(data);
    var dir :- DirectoryUpTo(data, pre, pre.count);
    DecodeEntries(dbl, data, pre.lay, dir, kind)
  }

  /** The decoder step by step, with its loops. */
  method DecodeLocalTiff(dbl: Doubles, data: seq<byte>, kind: Kind) returns (r: Result<Window, TiffError>)
    ensures r == Decode(dbl, data, kind)
  {
    hide ParsePreamble, DirectoryUpTo, ReadShape, ReadIndex, ChunksUpTo, Assemble, AllUsable, Flatten, Greatest;
    var pre :- ParsePreamble(data);
    var dir :- ReadDirectory(data, pre);
    var shape :- ReadShape(dbl, data, pre.lay, dir, kind);
    var index :- ReadIndex(dbl, data, pre.lay, dir);
    if WINDOW_CEILING - shape.width * shape.height * shape.sampleWidth < 1 {
      return Err(NoMargin);
    }
    var gathered := GatherChunks(data, index.0, index.1);
    r := Assemble(dbl, data, pre.lay, dir, kind, shape, gathered);
  }

  /** Whatever the file, an accepted window is non-empty, holds one sample of the right type per cell, stays
      under both ceilings, and has a north-up geotransform. */
  lemma DecodeSound(dbl: Doubles, data: seq<byte>, kind: Kind)
    ensures var r := Decode(dbl, data, kind);
            r.Ok? ==>
              && r.value.width > 0 && r.value.height > 0
              && r.value.samples.Count() == r.value.width * r.value.height
              && (r.value.samples.U8? <==> kind == FlowDir)
              && r.value.width * r.value.height * SampleWidth(kind) < WINDOW_CEILING
              && r.value.decodedChunkBytes < CHUNK_CEILING
              && !NonPositive(r.value.pixelWidth) && !NonPositive(Negate(r.value.pixelHeight))
  {
    hide ParsePreamble, DirectoryUpTo, ReadShape, ReadIndex, ChunksUpTo, Assemble;
    var pre := ParsePreamble(data);
    if pre.Ok? && DirectoryUpTo(data, pre.value, pre.value.count).Ok? {
      var dir := DirectoryUpTo(data, pre.value, pre.value.count).value;
      var shape := ReadShape(dbl, data, pre.value.lay, dir, kind);
      var index := ReadIndex(dbl, data, pre.value.lay, dir);
      if shape.Ok? && index.Ok? {
        var gathered := ChunksUpTo(data, index.value.0, index.value.1, |index.value.0|);
        assert gathered.Ok? ==> gathered.value.largest < CHUNK_CEILING;
      }
    }
  }
}
