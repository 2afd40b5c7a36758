/** Which files the decoder accepts, and what it makes of them, said of the fields of the directory. */
module TiffExact {
  import opened Arith
  import opened Bytes
  import opened Results
  import opened TiffRead
  import opened TiffFields

  // ---- The preamble -----------------------------------------------------------------------

  predicate Marked(data: seq<byte>, little: bool) {
    |data| >= 8 && data[0] == data[1] == if little then 0x49 else 0x4D
  }

  /** TIFF: 42, then a 32-bit offset; BigTIFF: 43, 8, 0, then a 64-bit one. */
  predicate Headed(data: seq<byte>, lay: Layout, ifd: nat) {
    && Marked(data, lay.little)
    && if lay.big then
         && |data| >= 16 && lay.Unsigned(data, 2, 2) == 43 && lay.Unsigned(data, 4, 2) == 8 && lay.Unsigned(data, 6, 2) == 0
         && lay.Unsigned(data, 8, 8) == ifd
       else lay.Unsigned(data, 2, 2) == 42 && lay.Unsigned(data, 4, 4) == ifd
  }

  /** The directory: its count of entries, from 1 to 4096, then the entries, 12 bytes each in TIFF, 20 in BigTIFF. */
  predicate Begun(data: seq<byte>, pre: Preamble, ifd: nat) {
    && pre.first == ifd + (if pre.lay.big then 8 else 2) <= |data|
    && pre.count == pre.lay.Unsigned(data, ifd, if pre.lay.big then 8 else 2)
    && 1 <= pre.count <= 4096 && pre.first + pre.count * (if pre.lay.big then 20 else 12) <= |data|
  }

  lemma PreambleExact(data: seq<byte>, pre: Preamble)
    ensures ParsePreamble(data) == Ok(pre) <==> exists ifd: nat :: Headed(data, pre.lay, ifd) && Begun(data, pre, ifd)
  {
    hide LeValue, BeValue;
    MarkExact(data);
    if ifd: nat :| Headed(data, pre.lay, ifd) && Begun(data, pre, ifd) {
      assert Layout(data[0] == 0x49, pre.lay.big) == pre.lay;
    }
    if ParsePreamble(data) == Ok(pre) {
      var lay := pre.lay;
      var ifd := if lay.big then lay.Unsigned(data, 8, 8) else lay.Unsigned(data, 4, 4);
      assert Headed(data, lay, ifd) && Begun(data, pre, ifd);
    }
  }

  lemma MarkExact(data: seq<byte>)
    ensures |data| >= 8 ==> (data[..2] == [0x49, 0x49] <==> Marked(data, true)) && (data[..2] == [0x4D, 0x4D] <==> Marked(data, false))
  {
    if |data| >= 8 {
      assert data[..2] == [data[0], data[1]];
    }
  }

  // ---- Numbers ----------------------------------------------------------------------------

  /** What the bytes of one value say: unsigned or two's complement integers, a single widened, a double as it is. */
  lemma NumberExact(dbl: Doubles, lay: Layout, kind: nat, raw: seq<byte>, at: nat)
    requires ValueWidth(kind) > 0 && at + ValueWidth(kind) <= |raw|
    ensures ValueWidth(kind) == if kind in {1, 2} then 1 else if kind in {3, 8} then 2 else if kind in {4, 11} then 4 else 8
    ensures kind in {1, 2, 3, 4, 8, 11, 12, 16, 17, 18}
    ensures var v, w := lay.Unsigned(raw, at, ValueWidth(kind)), Pow256(ValueWidth(kind));
            NumberAt(dbl, lay, kind, raw, at) ==
            match kind
            case 8 => Whole(if 2 * v < w then v else v - w)
            case 17 => Whole(if 2 * v < w then v else v - w)
            case 11 => Double(dbl.widen(v))
            case 12 => Double(v)
            case _ => Whole(v)
  {
    PowValues();
    hide Pow256;
  }

  lemma NumbersExact(dbl: Doubles, data: seq<byte>, lay: Layout, e: Entry)
    requires e.offset + lay.EntryWidth() <= |data| && Values(dbl, data, lay, e).Ok?
    ensures ValueWidth(e.kind) > 0 && |RawField(data, lay, e)| == e.count * ValueWidth(e.kind) && e.count <= 10_000_000
    ensures |Values(dbl, data, lay, e).value| == e.count
    ensures forall i :: 0 <= i < e.count ==>
              && i * ValueWidth(e.kind) + ValueWidth(e.kind) <= |RawField(data, lay, e)|
              && Values(dbl, data, lay, e).value[i] == NumberAt(dbl, lay, e.kind, RawField(data, lay, e), i * ValueWidth(e.kind))
  {
    hide ValueWidth, RawField, NumberAt;
    forall i | 0 <= i < e.count
      ensures i * ValueWidth(e.kind) + ValueWidth(e.kind) <= |RawField(data, lay, e)|
    {
      NumberInside(i, e.count, ValueWidth(e.kind));
    }
  }

  // ---- Fields -----------------------------------------------------------------------------

  /** The directory has the field, with these values. */
  predicate Field(dbl: Doubles, data: seq<byte>, lay: Layout, dir: Directory, tag: nat, values: seq<Number>)
    requires EntriesInside(data, lay, dir)
  {
    tag in dir && Values(dbl, data, lay, dir[tag]) == Ok(values)
  }

  /** The field is one number, this integer once truncated. */
  ghost predicate One(dbl: Doubles, data: seq<byte>, lay: Layout, dir: Directory, tag: nat, n: int)
    requires EntriesInside(data, lay, dir)
  {
    exists value: Number :: Field(dbl, data, lay, dir, tag, [value]) && value.AsInt(dbl) == Some(n)
  }

  /** The same, or absent where one is the default. */
  ghost predicate OneOrOne(dbl: Doubles, data: seq<byte>, lay: Layout, dir: Directory, tag: nat, n: int)
    requires EntriesInside(data, lay, dir)
  {
    if tag in dir then One(dbl, data, lay, dir, tag, n) else n == 1
  }

  ghost predicate Many(dbl: Doubles, data: seq<byte>, lay: Layout, dir: Directory, tag: nat, ns: seq<int>)
    requires EntriesInside(data, lay, dir)
  {
    exists values: seq<Number> :: Field(dbl, data, lay, dir, tag, values) && Truncated(dbl, values, ns)
  }

  predicate Truncated(dbl: Doubles, values: seq<Number>, ns: seq<int>) {
    |values| == |ns| && forall i :: 0 <= i < |ns| ==> values[i].AsInt(dbl) == Some(ns[i])
  }

  lemma ScalarExact(dbl: Doubles, data: seq<byte>, lay: Layout, dir: Directory, tag: nat, n: int)
    requires EntriesInside(data, lay, dir)
    ensures Scalar(dbl, data, lay, dir, tag, None) == Ok(n) <==> One(dbl, data, lay, dir, tag, n)
    ensures Scalar(dbl, data, lay, dir, tag, Some(1)) == Ok(n) <==> OneOrOne(dbl, data, lay, dir, tag, n)
  {
    hide Values;
    if tag in dir && Values(dbl, data, lay, dir[tag]).Ok? {
      var values := Values(dbl, data, lay, dir[tag]).value;
      if |values| == 1 {
        assert values == [values[0]];
      }
    }
  }

  lemma {:induction false} TruncatedExact(dbl: Doubles, values: seq<Number>, ns: seq<int>)
    ensures Integers(dbl, values) == Ok(ns) <==> Truncated(dbl, values, ns)
  {
    if values == [] {
    } else if ns != [] {
      TruncatedExact(dbl, values[1..], ns[1..]);
      if Truncated(dbl, values, ns) {
        assert forall i :: 0 <= i < |ns| - 1 ==> values[1..][i] == values[i + 1] && ns[1..][i] == ns[i + 1];
        assert ns == [ns[0]] + ns[1..];
      }
      if Integers(dbl, values) == Ok(ns) {
        assert ns[1..] == Integers(dbl, values[1..]).value;
        forall i | 0 <= i < |ns|
          ensures values[i].AsInt(dbl) == Some(ns[i])
        {
          assert i > 0 ==> values[1..][i - 1] == values[i] && ns[1..][i - 1] == ns[i];
        }
      }
    }
  }

  lemma ListExact(dbl: Doubles, data: seq<byte>, lay: Layout, dir: Directory, tag: nat, ns: seq<int>)
    requires EntriesInside(data, lay, dir)
    ensures ChunkList(dbl, data, lay, dir, tag) == Ok(ns) <==> Many(dbl, data, lay, dir, tag, ns)
  {
    hide Values, Integers, Truncated;
    if tag in dir && Values(dbl, data, lay, dir[tag]).Ok? {
      TruncatedExact(dbl, Values(dbl, data, lay, dir[tag]).value, ns);
    }
  }

  // ---- Accepted directories ---------------------------------------------------------------

  /** Positive dimensions, uncompressed, one sample a pixel, and the sample type of the named raster. */
  ghost predicate Shaped(dbl: Doubles, data: seq<byte>, lay: Layout, dir: Directory, kind: Kind, width: nat, height: nat)
    requires EntriesInside(data, lay, dir)
  {
    && width > 0 && height > 0 && One(dbl, data, lay, dir, 256, width) && One(dbl, data, lay, dir, 257, height)
    && OneOrOne(dbl, data, lay, dir, 259, 1) && OneOrOne(dbl, data, lay, dir, 277, 1)
    && (if kind == FlowDir then One(dbl, data, lay, dir, 258, 8) && OneOrOne(dbl, data, lay, dir, 339, 1)
        else One(dbl, data, lay, dir, 258, 32) && OneOrOne(dbl, data, lay, dir, 339, 3))
  }

  /** Strips if there are strip offsets, else tiles; as many counts as offsets, and some. */
  ghost predicate Indexes(dbl: Doubles, data: seq<byte>, lay: Layout, dir: Directory, offsets: seq<int>, counts: seq<int>)
    requires EntriesInside(data, lay, dir)
  {
    && |offsets| == |counts| > 0
    && (if 273 in dir then Many(dbl, data, lay, dir, 273, offsets) && Many(dbl, data, lay, dir, 279, counts)
        else Many(dbl, data, lay, dir, 324, offsets) && Many(dbl, data, lay, dir, 325, counts))
  }

  /** Two scales, neither zero nor negative, and a tie point; the window is placed by them, rows running downwards. */
  ghost predicate Placed(dbl: Doubles, data: seq<byte>, lay: Layout, dir: Directory, w: Window)
    requires EntriesInside(data, lay, dir)
  {
    exists scale, tie: seq<Number> ::
      && Field(dbl, data, lay, dir, 33550, scale) && Field(dbl, data, lay, dir, 33922, tie) && |scale| >= 2 && |tie| >= 6
      && PlacedBy(dbl, scale, tie, w)
  }

  predicate PlacedBy(dbl: Doubles, scale: seq<Number>, tie: seq<Number>, w: Window)
    requires |scale| >= 2 && |tie| >= 6
  {
    var sx, sy := scale[0].AsDouble(dbl), scale[1].AsDouble(dbl);
    && Positive(sx) && Positive(sy) && w.pixelWidth == sx && w.pixelHeight == Flipped(sy)
    && w.originX == dbl.minus(tie[3].AsDouble(dbl), dbl.times(tie[0].AsDouble(dbl), sx))
    && w.originY == dbl.plus(tie[4].AsDouble(dbl), dbl.times(tie[1].AsDouble(dbl), sy))
  }

  /** The sign bit flipped. */
  function Flipped(bits: u64): u64 {
    if bits < 0x8000_0000_0000_0000 then bits + 0x8000_0000_0000_0000 else bits - 0x8000_0000_0000_0000
  }

  /** Not `x <= 0`: a positive number, infinity, or a NaN, whose sign bit does not matter. */
  predicate Positive(bits: u64) {
    0 < bits < 0x8000_0000_0000_0000 || bits > 0xFFF0_0000_0000_0000
  }

  predicate Sampled(kind: Kind, lay: Layout, raw: seq<byte>, samples: Samples) {
    match samples
    case U8(bytes) => kind == FlowDir && bytes == raw
    case F32(bits) =>
      kind == FlowAcc && |raw| == 4 * |bits| && forall i :: 0 <= i < |bits| ==> 4 * i + 4 <= |raw| && bits[i] == lay.Unsigned(raw, 4 * i, 4)
  }

  function Width(kind: Kind): nat {
    if kind == FlowDir then 1 else 4
  }

  /** Every chunk is inside the file and under 8 MiB; together they are `raw`, and the longest is `largest` bytes. */
  ghost predicate Gathered(data: seq<byte>, offsets: seq<int>, counts: seq<int>, raw: seq<byte>, largest: int)
    requires |offsets| == |counts|
  {
    && (forall i :: 0 <= i < |offsets| ==> InFile(data, offsets[i], counts[i]))
    && raw == Flatten(seq(|offsets|, i requires 0 <= i < |offsets| => Part(data, offsets[i], counts[i])))
    && (forall i :: 0 <= i < |counts| ==> counts[i] <= largest) && (largest in counts || (counts == [] && largest == 0))
  }

  predicate InFile(data: seq<byte>, offset: int, count: int) {
    0 <= offset && 0 <= count < 8_388_608 && offset + count <= |data|
  }

  function Part(data: seq<byte>, offset: int, count: int): seq<byte> {
    if InFile(data, offset, count) then data[offset..offset + count] else []
  }

  ghost predicate Filled(dbl: Doubles, data: seq<byte>, lay: Layout, dir: Directory, kind: Kind, w: Window)
    requires EntriesInside(data, lay, dir)
  {
    exists offsets: seq<int>, counts: seq<int>, raw: seq<byte> ::
      && |offsets| == |counts| && Indexes(dbl, data, lay, dir, offsets, counts) && Gathered(data, offsets, counts, raw, w.decodedChunkBytes)
      && |raw| == w.width * w.height * Width(kind) && Sampled(kind, lay, raw, w.samples)
  }

  /** Everything the decoder asks of a directory, and the window it makes. */
  ghost predicate Accepts(dbl: Doubles, data: seq<byte>, lay: Layout, dir: Directory, kind: Kind, w: Window)
    requires EntriesInside(data, lay, dir)
  {
    && Shaped(dbl, data, lay, dir, kind, w.width, w.height) && w.width * w.height * Width(kind) < 1_073_741_824
    && Filled(dbl, data, lay, dir, kind, w) && Placed(dbl, data, lay, dir, w)
  }

  lemma ShapeExact(dbl: Doubles, data: seq<byte>, lay: Layout, dir: Directory, kind: Kind, width: nat, height: nat)
    requires EntriesInside(data, lay, dir)
    ensures ReadShape(dbl, data, lay, dir, kind) == Ok(Shape(width, height, Width(kind))) <==> Shaped(dbl, data, lay, dir, kind, width, height)
  {
    hide Scalar, One, OneOrOne, EntriesInside;
    ScalarExact(dbl, data, lay, dir, 256, width);
    ScalarExact(dbl, data, lay, dir, 257, height);
    ScalarExact(dbl, data, lay, dir, 258, if kind == FlowDir then 8 else 32);
    ScalarExact(dbl, data, lay, dir, 259, 1);
    ScalarExact(dbl, data, lay, dir, 277, 1);
    ScalarExact(dbl, data, lay, dir, 339, if kind == FlowDir then 1 else 3);
  }

  lemma IndexExact(dbl: Doubles, data: seq<byte>, lay: Layout, dir: Directory, offsets: seq<int>, counts: seq<int>)
    requires EntriesInside(data, lay, dir)
    ensures ReadIndex(dbl, data, lay, dir) == Ok((offsets, counts)) <==> Indexes(dbl, data, lay, dir, offsets, counts)
  {
    hide ChunkList, Many, EntriesInside;
    ListExact(dbl, data, lay, dir, if 273 in dir then 273 else 324, offsets);
    ListExact(dbl, data, lay, dir, if 273 in dir then 279 else 325, counts);
  }

  lemma GatheredExact(data: seq<byte>, offsets: seq<int>, counts: seq<int>, raw: seq<byte>, largest: nat)
    requires |offsets| == |counts|
    ensures ChunksUpTo(data, offsets, counts, |offsets|) == Ok(Chunks(raw, largest)) <==> Gathered(data, offsets, counts, raw, largest)
  {
    ChunksExact(data, offsets, counts, |offsets|);
    assert offsets[..|offsets|] == offsets && counts[..|offsets|] == counts;
    hide Flatten, ChunksUpTo;
    if AllUsable(data, offsets, counts) {
      assert ChunkSlices(data, offsets, counts) == seq(|offsets|, i requires 0 <= i < |offsets| => Part(data, offsets[i], counts[i]));
      GreatestOnce(counts, largest);
    }
  }

  lemma GreatestOnce(numbers: seq<int>, n: int)
    ensures forall m :: Greatest(m, numbers) && Greatest(n, numbers) ==> m == n
  {
  }

  lemma SamplesExact(kind: Kind, lay: Layout, raw: seq<byte>, count: nat, samples: Samples)
    requires |raw| == count * Width(kind)
    ensures UnpackSamples(kind, lay, raw, count) == samples <==> Sampled(kind, lay, raw, samples)
  {
    if Sampled(kind, lay, raw, samples) && samples.F32? {
      forall i | 0 <= i < |samples.bits|
        ensures SingleAt(lay, raw, i) == samples.bits[i]
      {
      }
    }
  }

  lemma PlacementRead(dbl: Doubles, data: seq<byte>, lay: Layout, dir: Directory, w: Window)
    requires EntriesInside(data, lay, dir)
    ensures ReadGeotransform(dbl, data, lay, dir) == Ok(Transform(w.originX, w.originY, w.pixelWidth, w.pixelHeight)) <==>
            Placed(dbl, data, lay, dir, w)
  {
    hide Values;
    if Placed(dbl, data, lay, dir, w) {
      var scale, tie: seq<Number> :|
        && Field(dbl, data, lay, dir, 33550, scale) && Field(dbl, data, lay, dir, 33922, tie) && |scale| >= 2 && |tie| >= 6
        && PlacedBy(dbl, scale, tie, w);
      assert Values(dbl, data, lay, dir[33550]) == Ok(scale) && Values(dbl, data, lay, dir[33922]) == Ok(tie);
    }
    if ReadGeotransform(dbl, data, lay, dir) == Ok(Transform(w.originX, w.originY, w.pixelWidth, w.pixelHeight)) {
      assert 33550 in dir && 33922 in dir;
      var scale, tie := Values(dbl, data, lay, dir[33550]).value, Values(dbl, data, lay, dir[33922]).value;
      assert PlacedBy(dbl, scale, tie, w);
    }
  }

  /** A directory is decoded to a window exactly when it is accepted with it. */
  lemma EntriesExact(dbl: Doubles, data: seq<byte>, lay: Layout, dir: Directory, kind: Kind, w: Window)
    requires EntriesInside(data, lay, dir)
    ensures DecodeEntries(dbl, data, lay, dir, kind) == Ok(w) <==> Accepts(dbl, data, lay, dir, kind, w)
  {
    hide ReadShape, ReadIndex, ChunksUpTo, ReadGeotransform, UnpackSamples, Shaped, Indexes, Gathered, Sampled, Placed, EntriesInside;
    PlacementRead(dbl, data, lay, dir, w);
    ShapeExact(dbl, data, lay, dir, kind, w.width, w.height);
    if DecodeEntries(dbl, data, lay, dir, kind) == Ok(w) {
      var index := ReadIndex(dbl, data, lay, dir).value;
      var chunks := ChunksUpTo(data, index.0, index.1, |index.0|).value;
      IndexExact(dbl, data, lay, dir, index.0, index.1);
      GatheredExact(data, index.0, index.1, chunks.bytes, chunks.largest);
      SamplesExact(kind, lay, chunks.bytes, w.width * w.height, w.samples);
      assert Filled(dbl, data, lay, dir, kind, w);
    }
    if Accepts(dbl, data, lay, dir, kind, w) {
      var offsets: seq<int>, counts: seq<int>, raw: seq<byte> :|
        && |offsets| == |counts| && Indexes(dbl, data, lay, dir, offsets, counts) && Gathered(data, offsets, counts, raw, w.decodedChunkBytes)
        && |raw| == w.width * w.height * Width(kind) && Sampled(kind, lay, raw, w.samples);
      IndexExact(dbl, data, lay, dir, offsets, counts);
      GatheredExact(data, offsets, counts, raw, w.decodedChunkBytes);
      SamplesExact(kind, lay, raw, w.width * w.height, w.samples);
    }
  }

  ghost predicate Distinct(data: seq<byte>, pre: Preamble)
    requires Inside(data, pre)
  {
    forall i, j :: 0 <= i < j < pre.count ==> TagAt(data, pre, i) != TagAt(data, pre, j)
  }

  /** Exactly the files with a sound header, distinct tags and an accepted directory are decoded, and to the window their
      fields describe. */
  lemma DecodeExact(dbl: Doubles, data: seq<byte>, kind: Kind, w: Window)
    ensures Decode(dbl, data, kind) == Ok(w) <==>
            exists pre: Preamble, ifd: nat ::
              && Headed(data, pre.lay, ifd) && Begun(data, pre, ifd) && Inside(data, pre) && Distinct(data, pre)
              && DirectoryUpTo(data, pre, pre.count).Ok?
              && Accepts(dbl, data, pre.lay, DirectoryUpTo(data, pre, pre.count).value, kind, w)
  {
    hide ParsePreamble, DirectoryUpTo, DecodeEntries, Accepts, Headed, Begun, TagAt;
    if Decode(dbl, data, kind) == Ok(w) {
      var pre := ParsePreamble(data).value;
      PreambleExact(data, pre);
      DirectoryExact(data, pre, pre.count);
      EntriesExact(dbl, data, pre.lay, DirectoryUpTo(data, pre, pre.count).value, kind, w);
    }
    if pre: Preamble, ifd: nat :|
      && Headed(data, pre.lay, ifd) && Begun(data, pre, ifd) && Inside(data, pre) && Distinct(data, pre)
      && DirectoryUpTo(data, pre, pre.count).Ok?
      && Accepts(dbl, data, pre.lay, DirectoryUpTo(data, pre, pre.count).value, kind, w) {
      PreambleExact(data, pre);
      EntriesExact(dbl, data, pre.lay, DirectoryUpTo(data, pre, pre.count).value, kind, w);
    }
  }
}
