/** Resolving the planned tiles' byte ranges from only their own tile-index entries. */
module CogIndex {
  import opened Arith
  import opened Bytes
  import opened Results
  import opened CogModel
  import opened CogIfd
  import opened CogStore

  datatype ResolvedTile = ResolvedTile(index: u32, range: ByteRange)

  datatype ResolvedTilePlan = ResolvedTilePlan(objectSize: nat, tiles: seq<ResolvedTile>, compressedBytes: nat)

  // ---- One entry ---------------------------------------------------------------------

  /** The range of one entry of a tile-index array, or `None` when the value is in the directory. */
  function EntryRange(d: IndexDescriptor, index: u32, size: nat): (r: Result<Option<ByteRange>, CogError>)
    ensures r.Ok? && r.value.Some? ==> r.value.value.Inside(size) && r.value.value.Length() == d.elementWidth
    ensures r.Ok? ==> index < d.count && (r.value.Some? <==> d.storage.OutOfLine?)
  {
    if index >= d.count then Err(IndexEntryOutOfRange)
    else match d.storage
      case InlineScalar(_) => if d.count != 1 || index != 0 then Err(IndexNotScalar) else Ok(None)
      case OutOfLine(base) =>
        if base + index * d.elementWidth >= U64_LIMIT then Err(RangeOverflow)
        else
          var range :- CheckedRange(base + index * d.elementWidth, d.elementWidth, size);
          Ok(Some(range))
  }

  /** The value of one entry, from the directory or from the bytes fetched for it. */
  function EntryValue(d: IndexDescriptor, bytes: Option<seq<byte>>): Result<u64, CogError> {
    match d.storage
    case InlineScalar(value) => Ok(value)
    case OutOfLine(_) =>
      if bytes.None? || |bytes.value| != d.elementWidth then Err(BadResponse(0))
      else if d.fieldType == 4 && d.elementWidth == 4 then Ok(U32At(bytes.value, 0))
      else if d.fieldType == 16 && d.elementWidth == 8 then Ok(U64At(bytes.value, 0))
      else Err(BadTag(324))
  }

  // ---- The fully materialized array ------------------------------------------------------

  /** The bytes TIFF 6.0 section 2 gives a field's values: in the entry when they fit, else at the offset. */
  function FieldBytes(f: Format, d: IndexDescriptor, content: seq<byte>): (bs: seq<byte>)
    requires DescriptorValid(f, d, |content|)
    requires d.storage.InlineScalar? && f.Classic? ==> d.storage.value < U32_LIMIT
    ensures |bs| == d.count * d.elementWidth
  {
    PowValues();
    match d.storage
    case InlineScalar(value) => LeBytes(value, f.InlineWidth())[..d.count * d.elementWidth]
    case OutOfLine(base) => content[base..base + d.count * d.elementWidth]
  }

  /** Entry `i` of the array a reader that downloads the whole field would hold. */
  function Materialized(f: Format, d: IndexDescriptor, content: seq<byte>, i: nat): u64
    requires DescriptorValid(f, d, |content|) && i < d.count
    requires d.storage.InlineScalar? && f.Classic? ==> d.storage.value < U32_LIMIT
  {
    PowValues();
    RowMajorBound(i, d.elementWidth - 1, d.elementWidth, d.count);
    LeValue(FieldBytes(f, d, content)[i * d.elementWidth..][..d.elementWidth])
  }

  /** Fetching one entry and decoding it. */
  function LazyEntry(d: IndexDescriptor, content: seq<byte>, i: u32): Result<u64, CogError>
  {
    var range :- EntryRange(d, i, |content|);
    EntryValue(d, if range.Some? then Some(Slice(content, range.value)) else None)
  }

  /** An inline field can be resolved lazily: it is a single value, and its value field has no stray high
      bytes. (Two LONG values inline in a BigTIFF entry are refused.) */
  predicate LazilyReadable(d: IndexDescriptor) {
    d.storage.InlineScalar? ==> d.count == 1 && (d.elementWidth == 4 ==> d.storage.value < U32_LIMIT)
  }

  lemma OutOfLineEntry(f: Format, d: IndexDescriptor, content: seq<byte>, i: u32)
    requires DescriptorValid(f, d, |content|) && d.storage.OutOfLine? && i < d.count && |content| < U64_LIMIT
    ensures EntryRange(d, i, |content|) ==
            Ok(Some(ByteRange(d.storage.base + i * d.elementWidth, d.storage.base + i * d.elementWidth + d.elementWidth)))
    ensures LazyEntry(d, content, i) == Ok(Materialized(f, d, content, i))
  {
    hide LeValue;
    PowValues();
    RowMajorBound(i, d.elementWidth - 1, d.elementWidth, d.count);
    var start := d.storage.base + i * d.elementWidth;
    SubSlice(content, d.storage.base, d.count * d.elementWidth, i * d.elementWidth, d.elementWidth);
    var field := FieldBytes(f, d, content);
    assert field[i * d.elementWidth..][..d.elementWidth] == field[i * d.elementWidth..i * d.elementWidth + d.elementWidth];
    var bs := content[start..start + d.elementWidth];
    assert bs[0..d.elementWidth] == bs;
  }

  /** Lazy resolution agrees with the materialized array, entry by entry, exactly for the lazily readable
      fields; and then it never fails. */
  lemma LazyIsMaterialized(f: Format, d: IndexDescriptor, content: seq<byte>)
    requires DescriptorValid(f, d, |content|) && |content| < U64_LIMIT
    requires d.storage.InlineScalar? && f.Classic? ==> d.storage.value < U32_LIMIT
    ensures (forall i: u32 :: i < d.count ==> LazyEntry(d, content, i) == Ok(Materialized(f, d, content, i)))
            <==> LazilyReadable(d)
  {
    if d.storage.OutOfLine? {
      forall i: u32 | i < d.count
        ensures LazyEntry(d, content, i) == Ok(Materialized(f, d, content, i))
      {
        OutOfLineEntry(f, d, content, i);
      }
    } else {
      InlineEntry(f, d, content);
      assert (0 as u32) < d.count;
    }
  }

  lemma InlineEntry(f: Format, d: IndexDescriptor, content: seq<byte>)
    requires DescriptorValid(f, d, |content|) && d.storage.InlineScalar?
    requires f.Classic? ==> d.storage.value < U32_LIMIT
    ensures LazyEntry(d, content, 0) == Ok(Materialized(f, d, content, 0)) <==> LazilyReadable(d)
  {
    hide LeBytes, LeValue;
    PowValues();
    if d.count == 1 {
      var v, w := d.storage.value, f.InlineWidth();
      var bs := LeBytes(v, w);
      assert FieldBytes(f, d, content)[0..][..d.elementWidth] == bs[..d.elementWidth];
      LePrefix(v, w, d.elementWidth);
    }
  }

  /** The low bytes of a number are the number modulo a power of 256. */
  lemma {:induction false} LePrefix(v: nat, width: nat, k: nat)
    requires v < Pow256(width) && k <= width
    ensures LeValue(LeBytes(v, width)[..k]) == v % Pow256(k)
  {
    if k == 0 {
    } else {
      LePrefix(v / 256, width - 1, k - 1);
      var bs := LeBytes(v, width)[..k];
      assert bs[1..] == LeBytes(v / 256, width - 1)[..k - 1];
      ModDigit(v, Pow256(k - 1));
    }
  }

  lemma ModDigit(v: nat, p: nat)
    requires p > 0
    ensures v % (256 * p) == v % 256 + 256 * (v / 256 % p)
  {
    var q, r := v / 256 / p, v / 256 % p;
    assert v == 256 * (v / 256) + v % 256;
    assert v / 256 == q * p + r;
    assert v == q * (256 * p) + (256 * r + v % 256) by {
      assert 256 * (q * p) == q * (256 * p);
    }
    DivModOf(q, 256 * p, 256 * r + v % 256);
  }

  // ---- Resolving a plan --------------------------------------------------------------------

  function Optional(r: Option<ByteRange>): seq<ByteRange> {
    if r.Some? then [r.value] else []
  }

  predicate EntryReachable(d: IndexDescriptor, index: u32, size: nat) {
    EntryRange(d, index, size).Ok?
  }

  function RangeOrNone(d: IndexDescriptor, index: u32, size: nat): Option<ByteRange> {
    match EntryRange(d, index, size)
    case Ok(range) => range
    case Err(_) => None
  }

  /** The ranges one tile needs: its offset entry, then its byte-count entry, when stored out of line. */
  function TileRanges(offsets: IndexDescriptor, counts: IndexDescriptor, index: u32, size: nat): (rs: seq<ByteRange>)
  {
    Optional(RangeOrNone(offsets, index, size)) + Optional(RangeOrNone(counts, index, size))
  }

  lemma TileRangesCost(offsets: IndexDescriptor, counts: IndexDescriptor, index: u32, size: nat)
    requires EntryReachable(offsets, index, size) && EntryReachable(counts, index, size)
    ensures AllInside(TileRanges(offsets, counts, index, size), size)
    ensures TotalLength(TileRanges(offsets, counts, index, size)) == EntryCost(offsets, counts)
  {
    var a, b := RangeOrNone(offsets, index, size), RangeOrNone(counts, index, size);
    TotalLengthConcat(Optional(a), Optional(b));
  }

  /** Bytes of index entries fetched per covered tile. */
  function EntryCost(offsets: IndexDescriptor, counts: IndexDescriptor): nat {
    (if offsets.storage.OutOfLine? then offsets.elementWidth else 0) +
    (if counts.storage.OutOfLine? then counts.elementWidth else 0)
  }

  predicate AllReachable(offsets: IndexDescriptor, counts: IndexDescriptor, plan: seq<u32>, size: nat) {
    forall i :: i in plan ==> EntryReachable(offsets, i, size) && EntryReachable(counts, i, size)
  }

  /** The interleaved ranges of a plan, tile by tile. */
  function PlanRanges(offsets: IndexDescriptor, counts: IndexDescriptor, plan: seq<u32>, size: nat): (rs: seq<ByteRange>)
  {
    if plan == [] then []
    else PlanRanges(offsets, counts, plan[..|plan| - 1], size) + TileRanges(offsets, counts, plan[|plan| - 1], size)
  }

  /** Every index range is inside the content, and the ranges cost a fixed number of bytes per covered tile. */
  lemma {:induction false} PlanRangesCost(offsets: IndexDescriptor, counts: IndexDescriptor, plan: seq<u32>, size: nat)
    requires AllReachable(offsets, counts, plan, size)
    ensures AllInside(PlanRanges(offsets, counts, plan, size), size)
    ensures TotalLength(PlanRanges(offsets, counts, plan, size)) == |plan| * EntryCost(offsets, counts)
  {
    hide TileRanges, EntryCost, EntryReachable;
    if plan == [] {
    } else {
      var init, last := plan[..|plan| - 1], plan[|plan| - 1];
      assert last in plan;
      PlanRangesCost(offsets, counts, init, size);
      TileRangesCost(offsets, counts, last, size);
      TotalLengthConcat(PlanRanges(offsets, counts, init, size), TileRanges(offsets, counts, last, size));
      OneMore(|init|, EntryCost(offsets, counts));
    }
  }

  lemma OneMore(n: nat, cost: nat)
    ensures (n + 1) * cost == n * cost + cost
  {
  }

  /** The ranges of a prefix of the plan are a prefix of the plan's ranges. */
  lemma {:induction false} PlanRangesPrefix(offsets: IndexDescriptor, counts: IndexDescriptor, plan: seq<u32>, size: nat, k: nat)
    requires k <= |plan|
    ensures PlanRanges(offsets, counts, plan[..k], size) <= PlanRanges(offsets, counts, plan, size)
    decreases |plan|
  {
    if k == |plan| {
      assert plan[..k] == plan;
    } else {
      var init := plan[..|plan| - 1];
      assert init[..k] == plan[..k];
      PlanRangesPrefix(offsets, counts, init, size, k);
    }
  }

  lemma PlanRangesStep(offsets: IndexDescriptor, counts: IndexDescriptor, plan: seq<u32>, size: nat, k: nat)
    requires k < |plan|
    ensures PlanRanges(offsets, counts, plan[..k + 1], size) ==
            PlanRanges(offsets, counts, plan[..k], size) + TileRanges(offsets, counts, plan[k], size)
    ensures PlanRanges(offsets, counts, plan[..k + 1], size) <= PlanRanges(offsets, counts, plan, size)
  {
    assert plan[..k + 1][..k] == plan[..k];
    PlanRangesPrefix(offsets, counts, plan, size, k + 1);
  }

  /** Collect the ranges of a plan, tile by tile. */
  method CollectRanges(offsets: IndexDescriptor, counts: IndexDescriptor, plan: seq<u32>, size: nat)
    returns (r: Result<seq<ByteRange>, CogError>)
    ensures r.Ok? <==> AllReachable(offsets, counts, plan, size)
    ensures r.Ok? ==> r.value == PlanRanges(offsets, counts, plan, size)
  {
    var ranges: seq<ByteRange> := [];
    var k := 0;
    while k < |plan|
      invariant 0 <= k <= |plan|
      invariant AllReachable(offsets, counts, plan[..k], size)
      invariant ranges == PlanRanges(offsets, counts, plan[..k], size)
    {
      var index := plan[k];
      assert plan[..k + 1][..k] == plan[..k];
      var offsetRange := EntryRange(offsets, index, size);
      if offsetRange.Err? {
        assert !EntryReachable(offsets, index, size);
        return Err(offsetRange.error);
      }
      ranges := ranges + Optional(offsetRange.value);
      var countRange := EntryRange(counts, index, size);
      if countRange.Err? {
        assert !EntryReachable(counts, index, size);
        return Err(countRange.error);
      }
      ranges := ranges + Optional(countRange.value);
      k := k + 1;
    }
    assert plan[..k] == plan;
    return Ok(ranges);
  }

  /** Where a tile's chunk lies, read from the whole content. */
  function ChunkOf(offsets: IndexDescriptor, counts: IndexDescriptor, content: seq<byte>, index: u32): Result<(u64, u64), CogError>
  {
    var offset :- LazyEntry(offsets, content, index);
    var count :- LazyEntry(counts, content, index);
    Ok((offset, count))
  }

  /** Sum of the byte counts of the resolved tiles. */
  function CompressedTotal(tiles: seq<ResolvedTile>): int {
    if tiles == [] then 0 else CompressedTotal(tiles[..|tiles| - 1]) + tiles[|tiles| - 1].range.Length()
  }

  /** Resolved tile `k` is the planned tile with the chunk its own index entries name. */
  ghost predicate ResolvedFrom(offsets: IndexDescriptor, counts: IndexDescriptor, content: seq<byte>, index: u32, tile: ResolvedTile) {
    && tile.index == index
    && ChunkOf(offsets, counts, content, index).Ok?
    && var (offset, count) := ChunkOf(offsets, counts, content, index).value;
       tile.range == ByteRange(offset, offset + count)
  }

  ghost predicate AllResolved(offsets: IndexDescriptor, counts: IndexDescriptor, content: seq<byte>, plan: seq<u32>, tiles: seq<ResolvedTile>) {
    |tiles| == |plan| && forall k :: 0 <= k < |plan| ==> ResolvedFrom(offsets, counts, content, plan[k], tiles[k])
  }

  function TileFrom(offsets: IndexDescriptor, counts: IndexDescriptor, index: u32, offsetBytes: Option<seq<byte>>,
                    countBytes: Option<seq<byte>>): (r: Result<ResolvedTile, CogError>)
    ensures r.Ok? ==> EntryValue(offsets, offsetBytes).Ok? && EntryValue(counts, countBytes).Ok?
    ensures r.Ok? ==> r.value.index == index && r.value.range.start <= r.value.range.end < U64_LIMIT
  {
    var offset :- EntryValue(offsets, offsetBytes);
    var count :- EntryValue(counts, countBytes);
    if offset + count >= U64_LIMIT then Err(RangeOverflow) else Ok(ResolvedTile(index, ByteRange(offset, offset + count)))
  }

  /** Decode one tile's chunk range from its own responses. */
  method ResolveTile(offsets: IndexDescriptor, counts: IndexDescriptor, index: u32, offsetBytes: Option<seq<byte>>,
                     countBytes: Option<seq<byte>>) returns (r: Result<ResolvedTile, CogError>)
    ensures r == TileFrom(offsets, counts, index, offsetBytes, countBytes)
  {
    var offset := EntryValue(offsets, offsetBytes);
    if offset.Err? {
      return Err(offset.error);
    }
    var count := EntryValue(counts, countBytes);
    if count.Err? {
      return Err(count.error);
    }
    if offset.value + count.value >= U64_LIMIT {
      return Err(RangeOverflow);
    }
    return Ok(ResolvedTile(index, ByteRange(offset.value, offset.value + count.value)));
  }

  /** With a serving store, the responses after the first `next` start with planned tile `k`'s own entries. */
  lemma ServedTile(offsets: IndexDescriptor, counts: IndexDescriptor, plan: seq<u32>, content: seq<byte>, k: nat,
                   responses: seq<seq<byte>>)
    requires AllReachable(offsets, counts, plan, |content|) && k < |plan|
    requires AllInside(PlanRanges(offsets, counts, plan, |content|), |content|)
    requires responses == Slices(content, PlanRanges(offsets, counts, plan, |content|))
    ensures var own := TileRanges(offsets, counts, plan[k], |content|);
            var next := |PlanRanges(offsets, counts, plan[..k], |content|)|;
            && next + |own| <= |responses|
            && AllInside(own, |content|)
            && forall j :: 0 <= j < |own| ==> responses[next + j] == Slice(content, own[j])
  {
    hide TileRanges;
    PlanRangesStep(offsets, counts, plan, |content|, k);
    var all := PlanRanges(offsets, counts, plan, |content|);
    var own := TileRanges(offsets, counts, plan[k], |content|);
    var next := |PlanRanges(offsets, counts, plan[..k], |content|)|;
    hide PlanRanges;
    forall j | 0 <= j < |own|
      ensures next + j < |all| && all[next + j] == own[j]
    {
      var upto := PlanRanges(offsets, counts, plan[..k], |content|) + own;
      assert upto[next + j] == own[j];
    }
    forall r | r in own
      ensures r.Inside(|content|)
    {
      var j :| 0 <= j < |own| && own[j] == r;
      assert all[next + j] in all;
    }
  }

  /** Field type and element width agree, as `DescriptorOf` makes them. */
  predicate Typed(d: IndexDescriptor) {
    (d.fieldType == 4 && d.elementWidth == 4) || (d.fieldType == 16 && d.elementWidth == 8)
  }

  /** Total of the byte counts the content's index gives the planned tiles. */
  function ChunkSum(offsets: IndexDescriptor, counts: IndexDescriptor, content: seq<byte>, plan: seq<u32>): nat {
    if plan == [] then 0
    else
      ChunkSum(offsets, counts, content, plan[..|plan| - 1]) +
      (match ChunkOf(offsets, counts, content, plan[|plan| - 1])
       case Ok((_, count)) => count
       case Err(_) => 0)
  }

  /** No chunk's end and no running total of byte counts overflows 64 bits. */
  predicate ChunksSummable(offsets: IndexDescriptor, counts: IndexDescriptor, content: seq<byte>, plan: seq<u32>) {
    && (forall i :: i in plan ==> ChunkFits(offsets, counts, content, i))
    && ChunkSum(offsets, counts, content, plan) < U64_LIMIT
  }

  predicate ChunkFits(offsets: IndexDescriptor, counts: IndexDescriptor, content: seq<byte>, index: u32) {
    match ChunkOf(offsets, counts, content, index)
    case Ok((offset, count)) => offset + count < U64_LIMIT
    case Err(_) => false
  }

  lemma {:induction false} ChunkSumPrefix(offsets: IndexDescriptor, counts: IndexDescriptor, content: seq<byte>, plan: seq<u32>, k: nat)
    requires k <= |plan|
    ensures ChunkSum(offsets, counts, content, plan[..k]) <= ChunkSum(offsets, counts, content, plan)
    decreases |plan|
  {
    if k == |plan| {
      assert plan[..k] == plan;
    } else {
      assert plan[..|plan| - 1][..k] == plan[..k];
      ChunkSumPrefix(offsets, counts, content, plan[..|plan| - 1], k);
    }
  }

  /** The entry value a served response decodes to is the lazily read entry, and it always decodes. */
  lemma ServedEntry(d: IndexDescriptor, content: seq<byte>, index: u32)
    requires Typed(d) && EntryReachable(d, index, |content|)
    ensures var range := EntryRange(d, index, |content|).value;
            && LazyEntry(d, content, index) == EntryValue(d, if range.Some? then Some(Slice(content, range.value)) else None)
            && LazyEntry(d, content, index).Ok?
  {
  }

  /** Response lengths match the ranges so far. */
  ghost predicate LengthsMatch(ranges: seq<ByteRange>, responses: seq<seq<byte>>) {
    |ranges| <= |responses| && forall j :: 0 <= j < |ranges| ==> |responses[j]| == ranges[j].Length()
  }

  /** A tile's responses, consumed in order from position `next`. */
  function OffsetBytes(offsets: IndexDescriptor, responses: seq<seq<byte>>, next: nat): Option<seq<byte>> {
    if offsets.storage.OutOfLine? && next < |responses| then Some(responses[next]) else None
  }

  function AfterOffset(offsets: IndexDescriptor, next: nat): nat {
    if offsets.storage.OutOfLine? then next + 1 else next
  }

  function CountBytes(offsets: IndexDescriptor, counts: IndexDescriptor, responses: seq<seq<byte>>, next: nat): Option<seq<byte>> {
    var after := AfterOffset(offsets, next);
    if counts.storage.OutOfLine? && after < |responses| then Some(responses[after]) else None
  }

  lemma TileLengths(offsets: IndexDescriptor, counts: IndexDescriptor, index: u32, size: nat, before: seq<ByteRange>,
                    responses: seq<seq<byte>>)
    requires EntryReachable(offsets, index, size) && EntryReachable(counts, index, size)
    requires LengthsMatch(before, responses) && |before + TileRanges(offsets, counts, index, size)| <= |responses|
    requires EntryValue(offsets, OffsetBytes(offsets, responses, |before|)).Ok?
    requires EntryValue(counts, CountBytes(offsets, counts, responses, |before|)).Ok?
    ensures LengthsMatch(before + TileRanges(offsets, counts, index, size), responses)
    ensures |TileRanges(offsets, counts, index, size)| ==
            (if offsets.storage.OutOfLine? then 1 else 0) + (if counts.storage.OutOfLine? then 1 else 0)
  {
  }

  /** What decoding has established about the first `k` planned tiles. */
  ghost predicate Progress(offsets: IndexDescriptor, counts: IndexDescriptor, done: seq<u32>, size: nat,
                           responses: seq<seq<byte>>, served: bool, content: seq<byte>,
                           tiles: seq<ResolvedTile>, compressedBytes: nat)
  {
    && LengthsMatch(PlanRanges(offsets, counts, done, size), responses)
    && TilesIndexed(done, tiles) && compressedBytes == CompressedTotal(tiles)
    && (served ==> AllResolved(offsets, counts, content, done, tiles))
    && (served ==> ChunksSummable(offsets, counts, content, done))
    && (served ==> compressedBytes == ChunkSum(offsets, counts, content, done))
  }

  lemma ProgressStep(offsets: IndexDescriptor, counts: IndexDescriptor, done: seq<u32>, index: u32, size: nat,
                     responses: seq<seq<byte>>, served: bool, content: seq<byte>,
                     tiles: seq<ResolvedTile>, compressedBytes: nat, tile: ResolvedTile)
    requires Progress(offsets, counts, done, size, responses, served, content, tiles, compressedBytes)
    requires LengthsMatch(PlanRanges(offsets, counts, done, size) + TileRanges(offsets, counts, index, size), responses)
    requires tile.index == index && tile.range.start <= tile.range.end < U64_LIMIT
    requires compressedBytes + tile.range.Length() < U64_LIMIT
    requires served ==> ResolvedFrom(offsets, counts, content, index, tile)
    ensures Progress(offsets, counts, done + [index], size, responses, served, content, tiles + [tile],
                     compressedBytes + tile.range.Length())
  {
    hide ChunkOf, TileRanges;
    assert (done + [index])[..|done|] == done;
    assert (tiles + [tile])[..|tiles|] == tiles;
  }

  /** Turn the responses into chunk ranges, each tile consuming its own responses in order. */
  method DecodeResponses(offsets: IndexDescriptor, counts: IndexDescriptor, plan: seq<u32>, size: nat,
                         responses: seq<seq<byte>>, ghost served: bool, ghost content: seq<byte>)
    returns (r: Result<(seq<ResolvedTile>, nat), CogError>)
    requires Typed(offsets) && Typed(counts) && AllReachable(offsets, counts, plan, size)
    requires AllInside(PlanRanges(offsets, counts, plan, size), size)
    requires |responses| == |PlanRanges(offsets, counts, plan, size)|
    requires served ==> |content| == size && responses == Slices(content, PlanRanges(offsets, counts, plan, size))
    ensures r.Ok? ==> Progress(offsets, counts, plan, size, responses, served, content, r.value.0, r.value.1)
    ensures served ==> (r.Ok? <==> ChunksSummable(offsets, counts, content, plan))
  {
    hide EntryRange, EntryValue, LazyEntry, ChunkOf, TileRanges, TileFrom, OffsetBytes, CountBytes;
    var next := 0;
    var tiles: seq<ResolvedTile> := [];
    var compressedBytes: nat := 0;
    var k := 0;
    while k < |plan|
      invariant 0 <= k <= |plan|
      invariant next == |PlanRanges(offsets, counts, plan[..k], size)|
      invariant Progress(offsets, counts, plan[..k], size, responses, served, content, tiles, compressedBytes)
    {
      hide PlanRanges, Progress, CompressedTotal, ChunkSum, ChunksSummable, AllInside, Slices, ChunkFits, ResolvedFrom;
      PlanRangesStep(offsets, counts, plan, size, k);
      assert plan[k] in plan;
      var offsetBytes := OffsetBytes(offsets, responses, next);
      var countBytes := CountBytes(offsets, counts, responses, next);
      TileServed(offsets, counts, plan, content, k, responses, size, served);
      var tile := ResolveTile(offsets, counts, plan[k], offsetBytes, countBytes);
      if tile.Err? {
        UnfitTile(offsets, counts, content, plan, k, served);
        return Err(tile.error);
      }
      if compressedBytes + tile.value.range.Length() >= U64_LIMIT {
        OverTotal(offsets, counts, plan, size, responses, served, content, tiles, compressedBytes, k, tile.value);
        return Err(CompressedTotalOverflow);
      }
      TileLengthsOf(offsets, counts, plan[..k], plan[k], size, responses, served, content, tiles, compressedBytes);
      ProgressStep(offsets, counts, plan[..k], plan[k], size, responses, served, content, tiles, compressedBytes, tile.value);
      assert plan[..k + 1] == plan[..k] + [plan[k]];
      compressedBytes := compressedBytes + tile.value.range.Length();
      tiles := tiles + [tile.value];
      next := AfterOffset(counts, AfterOffset(offsets, next));
      k := k + 1;
    }
    assert plan[..k] == plan;
    assert next == |responses|;
    return Ok((tiles, compressedBytes));
  }

  /** With a serving store, tile `k` resolves to its own chunk, or its chunk's end overflows. */
  lemma TileServed(offsets: IndexDescriptor, counts: IndexDescriptor, plan: seq<u32>, content: seq<byte>, k: nat,
                   responses: seq<seq<byte>>, size: nat, served: bool)
    requires Typed(offsets) && Typed(counts) && AllReachable(offsets, counts, plan, size) && k < |plan|
    requires AllInside(PlanRanges(offsets, counts, plan, size), size)
    requires served ==> |content| == size && responses == Slices(content, PlanRanges(offsets, counts, plan, size))
    ensures var next := |PlanRanges(offsets, counts, plan[..k], size)|;
            var tile := TileFrom(offsets, counts, plan[k], OffsetBytes(offsets, responses, next), CountBytes(offsets, counts, responses, next));
            && (served && tile.Ok? ==> ResolvedFrom(offsets, counts, content, plan[k], tile.value))
            && (served && tile.Err? ==> !ChunkFits(offsets, counts, content, plan[k]))
  {
    hide EntryValue, ChunkOf, OffsetBytes, CountBytes, PlanRanges, AllInside, AllReachable, Slices;
    if served {
      ServedStep(offsets, counts, plan, content, k, responses);
    }
  }

  lemma UnfitTile(offsets: IndexDescriptor, counts: IndexDescriptor, content: seq<byte>, plan: seq<u32>, k: nat, served: bool)
    requires k < |plan| && (served ==> !ChunkFits(offsets, counts, content, plan[k]))
    ensures served ==> !ChunksSummable(offsets, counts, content, plan)
  {
    assert plan[k] in plan;
  }

  lemma TileLengthsOf(offsets: IndexDescriptor, counts: IndexDescriptor, done: seq<u32>, index: u32, size: nat,
                      responses: seq<seq<byte>>, served: bool, content: seq<byte>,
                      tiles: seq<ResolvedTile>, compressedBytes: nat)
    requires Progress(offsets, counts, done, size, responses, served, content, tiles, compressedBytes)
    requires EntryReachable(offsets, index, size) && EntryReachable(counts, index, size)
    requires |PlanRanges(offsets, counts, done, size) + TileRanges(offsets, counts, index, size)| <= |responses|
    requires var next := |PlanRanges(offsets, counts, done, size)|;
             EntryValue(offsets, OffsetBytes(offsets, responses, next)).Ok? && EntryValue(counts, CountBytes(offsets, counts, responses, next)).Ok?
    ensures LengthsMatch(PlanRanges(offsets, counts, done, size) + TileRanges(offsets, counts, index, size), responses)
    ensures |TileRanges(offsets, counts, index, size)| ==
            (if offsets.storage.OutOfLine? then 1 else 0) + (if counts.storage.OutOfLine? then 1 else 0)
  {
    hide EntryValue, OffsetBytes, CountBytes, EntryReachable, TileRanges;
    TileLengths(offsets, counts, index, size, PlanRanges(offsets, counts, done, size), responses);
  }

  /** If the running total overflows at tile `k`, so does the plan's total. */
  lemma OverTotal(offsets: IndexDescriptor, counts: IndexDescriptor, plan: seq<u32>, size: nat,
                  responses: seq<seq<byte>>, served: bool, content: seq<byte>,
                  tiles: seq<ResolvedTile>, compressedBytes: nat, k: nat, tile: ResolvedTile)
    requires k < |plan|
    requires Progress(offsets, counts, plan[..k], size, responses, served, content, tiles, compressedBytes)
    requires served ==> ResolvedFrom(offsets, counts, content, plan[k], tile)
    requires compressedBytes + tile.range.Length() >= U64_LIMIT
    ensures served ==> !ChunksSummable(offsets, counts, content, plan)
  {
    hide ChunkOf;
    assert plan[..k + 1][..k] == plan[..k];
    ChunkSumPrefix(offsets, counts, content, plan, k + 1);
  }

  ghost predicate TilesIndexed(plan: seq<u32>, tiles: seq<ResolvedTile>) {
    |tiles| == |plan| && forall k :: 0 <= k < |plan| ==> tiles[k].index == plan[k] && tiles[k].range.start <= tiles[k].range.end
  }

  /** With a serving store, the responses tile `k` consumes are its own entries. */
  lemma ServedStep(offsets: IndexDescriptor, counts: IndexDescriptor, plan: seq<u32>, content: seq<byte>, k: nat,
                   responses: seq<seq<byte>>)
    requires Typed(offsets) && Typed(counts) && AllReachable(offsets, counts, plan, |content|) && k < |plan|
    requires AllInside(PlanRanges(offsets, counts, plan, |content|), |content|)
    requires responses == Slices(content, PlanRanges(offsets, counts, plan, |content|))
    ensures ChunkOf(offsets, counts, content, plan[k]).Ok?
    ensures var next := |PlanRanges(offsets, counts, plan[..k], |content|)|;
            var (offset, count) := ChunkOf(offsets, counts, content, plan[k]).value;
            && EntryValue(offsets, OffsetBytes(offsets, responses, next)) == Ok(offset)
            && EntryValue(counts, CountBytes(offsets, counts, responses, next)) == Ok(count)
  {
    hide EntryRange, EntryValue, LazyEntry, PlanRanges;
    assert plan[k] in plan;
    ServedTile(offsets, counts, plan, content, k, responses);
    ServedEntry(offsets, content, plan[k]);
    ServedEntry(counts, content, plan[k]);
    var next := |PlanRanges(offsets, counts, plan[..k], |content|)|;
    var own := TileRanges(offsets, counts, plan[k], |content|);
    ReachableKind(offsets, plan[k], |content|);
    ReachableKind(counts, plan[k], |content|);
    if offsets.storage.OutOfLine? {
      assert responses[next + 0] == Slice(content, own[0]);
    }
    if counts.storage.OutOfLine? {
      assert responses[next + (|own| - 1)] == Slice(content, own[|own| - 1]);
    }
  }

  lemma ReachableKind(d: IndexDescriptor, index: u32, size: nat)
    requires EntryReachable(d, index, size)
    ensures EntryRange(d, index, size).value == RangeOrNone(d, index, size)
    ensures RangeOrNone(d, index, size).Some? <==> d.storage.OutOfLine?
  {
  }

  /** Fetch exactly the planned tiles' index entries and turn them into chunk ranges.  When the store
      serves `content`, the call succeeds exactly when every entry is reachable and no 64-bit sum overflows,
      and every tile gets the chunk its own entries name.  Whatever the store answers, a success has
      consumed every response, and the bytes it counted are the bytes it asked for. */
  method ResolvePlan(store: ObjectStore, offsets: IndexDescriptor, counts: IndexDescriptor, plan: seq<u32>,
                     ghost content: seq<byte>)
    returns (r: Result<(ResolvedTilePlan, nat), CogError>)
    requires Typed(offsets) && Typed(counts)
    modifies store`trace
    ensures r.Ok? ==> AllReachable(offsets, counts, plan, store.size)
    ensures store.trace == old(store.trace) + (if AllReachable(offsets, counts, plan, store.size)
                                               then PlanRanges(offsets, counts, plan, store.size) else [])
    ensures r.Ok? ==> r.value.1 == TotalLength(PlanRanges(offsets, counts, plan, store.size))
    ensures r.Ok? ==> TilesIndexed(plan, r.value.0.tiles) && r.value.0.objectSize == store.size
    ensures r.Ok? ==> r.value.0.compressedBytes == CompressedTotal(r.value.0.tiles)
    ensures r.Ok? && store.Serves(content) ==> AllResolved(offsets, counts, content, plan, r.value.0.tiles)
    ensures store.Serves(content) ==>
              (r.Ok? <==> AllReachable(offsets, counts, plan, store.size) && ChunksSummable(offsets, counts, content, plan))
  {
    var ranges := CollectRanges(offsets, counts, plan, store.size);
    if ranges.Err? {
      return Err(ranges.error);
    }
    PlanRangesCost(offsets, counts, plan, store.size);
    var responses: seq<seq<byte>> := [];
    if ranges.value != [] {
      var answer := store.GetRanges(ranges.value);
      if answer.None? {
        return Err(StoreFailure);
      }
      responses := answer.value;
    }
    if |responses| != |ranges.value| {
      return Err(BadResponse(1));
    }
    ghost var served := store.Serves(content);
    assert served ==> responses == Slices(content, ranges.value);
    var decoded := DecodeResponses(offsets, counts, plan, store.size, responses, served, content);
    if decoded.Err? {
      return Err(decoded.error);
    }
    var (tiles, compressedBytes) := decoded.value;
    TotalBytesOf(ranges.value, responses);
    return Ok((ResolvedTilePlan(store.size, tiles, compressedBytes), TotalBytes(responses)));
  }

  // ---- Fields the lazy reader refuses or misreads ------------------------------------------

  /** The high bytes of a number are its quotient by a power of 256. */
  lemma {:induction false} LeSuffix(v: nat, width: nat, k: nat)
    requires v < Pow256(width) && k <= width
    ensures LeValue(LeBytes(v, width)[k..]) == v / Pow256(k)
  {
    if k == 0 {
      LeRoundTrip(v, width);
      assert LeBytes(v, width)[0..] == LeBytes(v, width);
    } else {
      LeSuffix(v / 256, width - 1, k - 1);
      assert LeBytes(v, width)[k..] == LeBytes(v / 256, width - 1)[k - 1..];
      DivDigit(v, Pow256(k - 1));
    }
  }

  lemma DivDigit(v: nat, p: nat)
    requires p > 0
    ensures v / (256 * p) == v / 256 / p
  {
    var q, r := v / 256 / p, v / 256 % p;
    assert v == 256 * (v / 256) + v % 256;
    assert v / 256 == q * p + r;
    assert v == q * (256 * p) + (256 * r + v % 256) by {
      assert 256 * (q * p) == q * (256 * p);
    }
    DivModOf(q, 256 * p, 256 * r + v % 256);
  }

  /** Two LONG values fit inside a BigTIFF entry: the materialized array has both, and the lazy reader refuses both. */
  lemma InlinePairRefused(first: u32, second: u32, content: seq<byte>)
    ensures var d := IndexDescriptor(4, 4, 2, InlineScalar(second * U32_LIMIT + first));
            && DescriptorValid(BigTiff, d, |content|)
            && Materialized(BigTiff, d, content, 0) == first && Materialized(BigTiff, d, content, 1) == second
            && LazyEntry(d, content, 0) == LazyEntry(d, content, 1) == Err(IndexNotScalar)
  {
    PowValues();
    var v: u64 := second * U32_LIMIT + first;
    var d := IndexDescriptor(4, 4, 2, InlineScalar(v));
    var bs := LeBytes(v, 8);
    hide LeBytes, LeValue;
    assert FieldBytes(BigTiff, d, content) == bs;
    assert bs[0..][..4] == bs[..4] && bs[4..][..4] == bs[4..];
    LePrefix(v, 8, 4);
    LeSuffix(v, 8, 4);
    DivModOf(second, U32_LIMIT, first);
  }

  /** A LONG inline in a BigTIFF entry is read with the padding after it: stray bytes there change the value. */
  lemma PaddingNotMasked(low: u32, padding: u32, content: seq<byte>)
    requires padding > 0
    ensures var d := IndexDescriptor(4, 4, 1, InlineScalar(padding * U32_LIMIT + low));
            && DescriptorValid(BigTiff, d, |content|)
            && LazyEntry(d, content, 0) == Ok(padding * U32_LIMIT + low)
            && Materialized(BigTiff, d, content, 0) == low
  {
    PowValues();
    var d := IndexDescriptor(4, 4, 1, InlineScalar(padding * U32_LIMIT + low));
    var bs := LeBytes(padding * U32_LIMIT + low, 8);
    assert FieldBytes(BigTiff, d, content)[0..][..4] == bs[..4];
    LePrefix(padding * U32_LIMIT + low, 8, 4);
    DivModOf(padding, U32_LIMIT, low);
  }
}
