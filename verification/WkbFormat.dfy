/** Well-known binary polygons and multipolygons (clause 8 of OGC 06-103r4): the reader and the writer. */
module WkbFormat {
  import opened Bytes
  import opened Results

  /** Coordinates as the bit patterns of their doubles. */
  datatype RawPoint = RawPoint(x: u64, y: u64)

  type RawRing = seq<RawPoint>
  type RawPolygon = seq<RawRing>

  datatype WkbError =
    | BadByteOrder | Truncated | RingSize | NonFinite | NotPolygon | UnsupportedKind
    | TrailingBytes | NoExterior | CoordinateOverflow

  const RING_LIMIT := 10_000_000

  // ---- Reading ---------------------------------------------------------------------------

  function Word(data: seq<byte>, offset: nat, little: bool): u32
    requires offset + 4 <= |data|
  {
    PowValues();
    if little then LeValue(data[offset..offset + 4]) else BeValue(data[offset..offset + 4])
  }

  function Double(data: seq<byte>, offset: nat, little: bool): u64
    requires offset + 8 <= |data|
  {
    PowValues();
    if little then LeValue(data[offset..offset + 8]) else BeValue(data[offset..offset + 8])
  }

  function ParseWord(data: seq<byte>, offset: nat, little: bool): (r: Result<(u32, nat), WkbError>)
    ensures r.Ok? ==> r.value.1 == offset + 4 <= |data|
  {
    if offset + 4 > |data| then Err(Truncated) else Ok((Word(data, offset, little), offset + 4))
  }

  function PointsAt(data: seq<byte>, offset: nat, little: bool, count: nat): (ring: RawRing)
    requires offset + 16 * count <= |data|
    ensures |ring| == count
  {
    seq(count, i requires 0 <= i < count =>
        RawPoint(Double(data, offset + 16 * i, little), Double(data, offset + 16 * i + 8, little)))
  }

  predicate AllFinite(finite: u64 -> bool, ring: RawRing) {
    forall p :: p in ring ==> finite(p.x) && finite(p.y)
  }

  function ParseRing(finite: u64 -> bool, limit: nat, data: seq<byte>, offset: nat, little: bool): (r: Result<(RawRing, nat), WkbError>)
    ensures r.Ok? ==> offset + 4 + 16 * |r.value.0| == r.value.1 <= |data|
  {
    var (count, start) :- ParseWord(data, offset, little);
    if count > limit || start + 16 * count > |data| then Err(RingSize)
    else
      var ring := PointsAt(data, start, little, count);
      if !AllFinite(finite, ring) then Err(NonFinite) else Ok((ring, start + 16 * count))
  }

  function ParseRings(finite: u64 -> bool, limit: nat, data: seq<byte>, offset: nat, little: bool, count: nat)
    : (r: Result<(RawPolygon, nat), WkbError>)
    ensures r.Ok? ==> |r.value.0| == count && offset + 4 * count <= r.value.1
    ensures r.Ok? && offset <= |data| ==> r.value.1 <= |data|
    decreases count
  {
    if count == 0 then Ok(([], offset))
    else
      var (ring, next) :- ParseRing(finite, limit, data, offset, little);
      var (rest, end) :- ParseRings(finite, limit, data, next, little, count - 1);
      Ok(([ring] + rest, end))
  }

  /** A polygon, or a multipolygon whose members each hold exactly one polygon. */
  function ParseGeometry(finite: u64 -> bool, limit: nat, data: seq<byte>, offset: nat): (r: Result<(seq<RawPolygon>, nat), WkbError>)
    ensures r.Ok? ==> offset < r.value.1 <= |data|
    decreases |data| - offset, 0, 0
  {
    if offset >= |data| || data[offset] > 1 then Err(BadByteOrder)
    else
      var little := data[offset] == 1;
      var (kind, start) :- ParseWord(data, offset + 1, little);
      if kind == 3 then
        var (count, first) :- ParseWord(data, start, little);
        var (polygon, end) :- ParseRings(finite, limit, data, first, little, count);
        Ok(([polygon], end))
      else if kind == 6 then
        var (count, first) :- ParseWord(data, start, little);
        ParseMembers(finite, limit, data, first, count)
      else Err(UnsupportedKind)
  }

  function ParseMembers(finite: u64 -> bool, limit: nat, data: seq<byte>, offset: nat, count: nat): (r: Result<(seq<RawPolygon>, nat), WkbError>)
    ensures r.Ok? ==> offset <= r.value.1 && |r.value.0| == count
    ensures r.Ok? && offset <= |data| ==> r.value.1 <= |data|
    decreases |data| - offset, 1, count
  {
    if count == 0 then Ok(([], offset))
    else
      var (nested, next) :- ParseGeometry(finite, limit, data, offset);
      if |nested| != 1 then Err(NotPolygon)
      else
        var (rest, end) :- ParseMembers(finite, limit, data, next, count - 1);
        Ok((nested + rest, end))
  }

  // ---- The reader's loops --------------------------------------------------------------------

  /** Read the rings of one polygon, advancing the offset ring by ring. */
  method ReadRings(finite: u64 -> bool, data: seq<byte>, first: nat, little: bool, count: nat)
    returns (r: Result<(RawPolygon, nat), WkbError>)
    ensures r == ParseRings(finite, RING_LIMIT, data, first, little, count)
  {
    hide ParseRing;
    var polygon: RawPolygon := [];
    var offset := first;
    var k := 0;
    assert forall rest: RawPolygon :: [] + rest == rest;
    while k < count
      invariant 0 <= k <= count
      invariant ParseRings(finite, RING_LIMIT, data, first, little, count) ==
                match ParseRings(finite, RING_LIMIT, data, offset, little, count - k)
                case Ok(tail) => Ok((polygon + tail.0, tail.1))
                case Err(e) => Err(e)
    {
      var ring := ParseRing(finite, RING_LIMIT, data, offset, little);
      if ring.Err? {
        return Err(ring.error);
      }
      assert forall rest: RawPolygon :: polygon + ([ring.value.0] + rest) == polygon + [ring.value.0] + rest;
      polygon := polygon + [ring.value.0];
      offset := ring.value.1;
      k := k + 1;
    }
    assert polygon + [] == polygon;
    return Ok((polygon, offset));
  }

  /** Read one geometry, recursively for the members of a multipolygon. */
  method ReadGeometry(finite: u64 -> bool, data: seq<byte>, start: nat) returns (r: Result<(seq<RawPolygon>, nat), WkbError>)
    ensures r == ParseGeometry(finite, RING_LIMIT, data, start)
    decreases |data| - start
  {
    hide ParseRings, Word;
    if start >= |data| || data[start] > 1 {
      return Err(BadByteOrder);
    }
    var little := data[start] == 1;
    var kind := ParseWord(data, start + 1, little);
    if kind.Err? {
      return Err(kind.error);
    }
    var count := ParseWord(data, kind.value.1, little);
    if kind.value.0 == 3 {
      if count.Err? {
        return Err(count.error);
      }
      var polygon := ReadRings(finite, data, count.value.1, little, count.value.0);
      if polygon.Err? {
        return Err(polygon.error);
      }
      return Ok(([polygon.value.0], polygon.value.1));
    }
    if kind.value.0 != 6 {
      return Err(UnsupportedKind);
    }
    if count.Err? {
      return Err(count.error);
    }
    ghost var first := count.value.1;
    var offset := count.value.1;
    var polygons: seq<RawPolygon> := [];
    var k := 0;
    assert forall rest: seq<RawPolygon> :: [] + rest == rest;
    while k < count.value.0
      invariant 0 <= k <= count.value.0
      invariant start < offset
      invariant ParseMembers(finite, RING_LIMIT, data, first, count.value.0) ==
                match ParseMembers(finite, RING_LIMIT, data, offset, count.value.0 - k)
                case Ok(tail) => Ok((polygons + tail.0, tail.1))
                case Err(e) => Err(e)
    {
      var nested := ReadGeometry(finite, data, offset);
      if nested.Err? {
        return Err(nested.error);
      }
      if |nested.value.0| != 1 {
        return Err(NotPolygon);
      }
      assert forall rest: seq<RawPolygon> :: polygons + (nested.value.0 + rest) == polygons + nested.value.0 + rest;
      polygons := polygons + nested.value.0;
      offset := nested.value.1;
      k := k + 1;
    }
    assert polygons + [] == polygons;
    return Ok((polygons, offset));
  }

  // ---- Writing -------------------------------------------------------------------------------

  function WordBytes(v: u32): (bs: seq<byte>)
    ensures |bs| == 4
  {
    PowValues();
    LeBytes(v, 4)
  }

  function DoubleBytes(v: u64): (bs: seq<byte>)
    ensures |bs| == 8
  {
    PowValues();
    LeBytes(v, 8)
  }

  function EncodePoints(ring: RawRing): (bs: seq<byte>)
    ensures |bs| == 16 * |ring|
  {
    if ring == [] then []
    else
      EncodePoints(ring[..|ring| - 1]) + DoubleBytes(ring[|ring| - 1].x) + DoubleBytes(ring[|ring| - 1].y)
  }

  function EncodeRing(ring: RawRing): seq<byte>
    requires |ring| < U32_LIMIT
  {
    WordBytes(|ring|) + EncodePoints(ring)
  }

  predicate RingCounts(polygon: RawPolygon) {
    |polygon| < U32_LIMIT && forall r :: r in polygon ==> |r| < U32_LIMIT
  }

  function EncodeRings(polygon: RawPolygon): seq<byte>
    requires forall r :: r in polygon ==> |r| < U32_LIMIT
  {
    if polygon == [] then [] else EncodeRing(polygon[0]) + EncodeRings(polygon[1..])
  }

  function EncodePolygon(polygon: RawPolygon): seq<byte>
    requires RingCounts(polygon)
  {
    [1] + WordBytes(3) + WordBytes(|polygon|) + EncodeRings(polygon)
  }

  function EncodePolygons(polygons: seq<RawPolygon>): seq<byte>
    requires forall p :: p in polygons ==> RingCounts(p)
  {
    if polygons == [] then [] else EncodePolygon(polygons[0]) + EncodePolygons(polygons[1..])
  }

  predicate Countable(polygons: seq<RawPolygon>) {
    |polygons| < U32_LIMIT && forall p :: p in polygons ==> RingCounts(p)
  }

  /** A little-endian multipolygon. */
  function EncodeGeometry(polygons: seq<RawPolygon>): seq<byte>
    requires Countable(polygons)
  {
    [1] + WordBytes(6) + WordBytes(|polygons|) + EncodePolygons(polygons)
  }

  // ---- Reading what was written ------------------------------------------------------------------

  /** `bs` stands at `offset` of `data`. */
  predicate At(data: seq<byte>, offset: nat, bs: seq<byte>) {
    offset + |bs| <= |data| && data[offset..offset + |bs|] == bs
  }

  lemma AtConcat(data: seq<byte>, offset: nat, a: seq<byte>, b: seq<byte>)
    ensures At(data, offset, a + b) <==> At(data, offset, a) && At(data, offset + |a|, b)
  {
    if At(data, offset, a + b) {
      assert data[offset..offset + |a|] == data[offset..offset + |a + b|][..|a|];
      assert data[offset + |a|..offset + |a| + |b|] == data[offset..offset + |a + b|][|a|..];
    }
    if At(data, offset, a) && At(data, offset + |a|, b) {
      assert data[offset..offset + |a + b|] == data[offset..offset + |a|] + data[offset + |a|..offset + |a| + |b|];
    }
  }

  lemma WordRoundTrip(data: seq<byte>, offset: nat, v: u32)
    requires At(data, offset, WordBytes(v))
    ensures ParseWord(data, offset, true) == Ok((v, offset + 4))
  {
    PowValues();
    LeRoundTrip(v, 4);
  }

  lemma DoubleRoundTrip(data: seq<byte>, offset: nat, v: u64)
    requires At(data, offset, DoubleBytes(v))
    ensures offset + 8 <= |data| && Double(data, offset, true) == v
  {
    PowValues();
    LeRoundTrip(v, 8);
  }

  lemma PointsAtStep(data: seq<byte>, offset: nat, n: nat)
    requires offset + 16 * (n + 1) <= |data|
    ensures PointsAt(data, offset, true, n + 1) ==
            PointsAt(data, offset, true, n) + [RawPoint(Double(data, offset + 16 * n, true), Double(data, offset + 16 * n + 8, true))]
  {
    hide Double;
  }

  lemma {:induction false} PointsRoundTrip(data: seq<byte>, offset: nat, ring: RawRing)
    requires At(data, offset, EncodePoints(ring))
    ensures offset + 16 * |ring| <= |data| && PointsAt(data, offset, true, |ring|) == ring
  {
    hide At, Double, DoubleBytes, PointsAt;
    AtLength(data, offset, EncodePoints(ring));
    if ring == [] {
    } else {
      var n := |ring| - 1;
      var init, x, y := EncodePoints(ring[..n]), DoubleBytes(ring[n].x), DoubleBytes(ring[n].y);
      AtConcat(data, offset, init + x, y);
      AtConcat(data, offset, init, x);
      PointsRoundTrip(data, offset, ring[..n]);
      DoubleRoundTrip(data, offset + 16 * n, ring[n].x);
      DoubleRoundTrip(data, offset + 16 * n + 8, ring[n].y);
      PointsAtStep(data, offset, n);
      assert ring == ring[..n] + [ring[n]];
    }
  }

  lemma AtLength(data: seq<byte>, offset: nat, bs: seq<byte>)
    requires At(data, offset, bs)
    ensures offset + |bs| <= |data|
  {
  }

  predicate FinitePolygon(finite: u64 -> bool, polygon: RawPolygon) {
    forall r :: r in polygon ==> AllFinite(finite, r)
  }

  predicate RingsFit(limit: nat, polygon: RawPolygon) {
    forall r :: r in polygon ==> |r| <= limit
  }

  lemma RingRoundTrip(finite: u64 -> bool, limit: nat, data: seq<byte>, offset: nat, ring: RawRing)
    requires |ring| < U32_LIMIT && At(data, offset, EncodeRing(ring)) && AllFinite(finite, ring)
    ensures ParseRing(finite, limit, data, offset, true) ==
            if |ring| <= limit then Ok((ring, offset + |EncodeRing(ring)|)) else Err(RingSize)
  {
    hide At, WordBytes, EncodePoints, AllFinite, PointsAt, Word;
    AtConcat(data, offset, WordBytes(|ring|), EncodePoints(ring));
    AtLength(data, offset, EncodeRing(ring));
    WordRoundTrip(data, offset, |ring|);
    PointsRoundTrip(data, offset + 4, ring);
  }

  lemma RingsFitSplit(limit: nat, first: RawRing, rest: RawPolygon)
    ensures RingsFit(limit, [first] + rest) <==> |first| <= limit && RingsFit(limit, rest)
  {
    assert first in [first] + rest;
    assert forall p :: p in rest ==> p in [first] + rest;
  }

  lemma FiniteSplit(finite: u64 -> bool, polygon: RawPolygon)
    requires FinitePolygon(finite, polygon) && polygon != []
    ensures AllFinite(finite, polygon[0]) && FinitePolygon(finite, polygon[1..])
  {
    hide AllFinite;
    assert polygon[0] in polygon;
    assert forall r :: r in polygon[1..] ==> r in polygon;
  }

  /** Written rings read back, or the first ring above the limit is refused. */
  lemma {:induction false} RingsRoundTrip(finite: u64 -> bool, limit: nat, data: seq<byte>, offset: nat, polygon: RawPolygon)
    requires (forall r :: r in polygon ==> |r| < U32_LIMIT) && FinitePolygon(finite, polygon)
    requires At(data, offset, EncodeRings(polygon))
    ensures ParseRings(finite, limit, data, offset, true, |polygon|) ==
            if RingsFit(limit, polygon) then Ok((polygon, offset + |EncodeRings(polygon)|)) else Err(RingSize)
    decreases |polygon|
  {
    hide At, EncodeRing, ParseRing, AllFinite, FinitePolygon;
    if polygon == [] {
    } else {
      FiniteSplit(finite, polygon);
      assert polygon[0] in polygon;
      var rest := polygon[1..];
      assert forall r :: r in rest ==> r in polygon;
      assert polygon == [polygon[0]] + rest;
      AtConcat(data, offset, EncodeRing(polygon[0]), EncodeRings(rest));
      RingRoundTrip(finite, limit, data, offset, polygon[0]);
      RingsFitSplit(limit, polygon[0], rest);
      hide RingsFit;
      if |polygon[0]| <= limit {
        RingsRoundTrip(finite, limit, data, offset + |EncodeRing(polygon[0])|, rest);
      }
    }
  }

  lemma PolygonRoundTrip(finite: u64 -> bool, limit: nat, data: seq<byte>, offset: nat, polygon: RawPolygon)
    requires RingCounts(polygon) && FinitePolygon(finite, polygon) && At(data, offset, EncodePolygon(polygon))
    ensures ParseGeometry(finite, limit, data, offset) ==
            if RingsFit(limit, polygon) then Ok(([polygon], offset + |EncodePolygon(polygon)|)) else Err(RingSize)
  {
    hide At, WordBytes, EncodeRings, ParseRings, ParseWord, FinitePolygon, RingsFit, RingCounts;
    RingCountsReveal(polygon);
    var one: seq<byte> := [1];
    AtConcat(data, offset, one + WordBytes(3) + WordBytes(|polygon|), EncodeRings(polygon));
    AtConcat(data, offset, one + WordBytes(3), WordBytes(|polygon|));
    AtConcat(data, offset, one, WordBytes(3));
    AtByte(data, offset);
    WordRoundTrip(data, offset + 1, 3);
    WordRoundTrip(data, offset + 5, |polygon|);
    RingsRoundTrip(finite, limit, data, offset + 9, polygon);
  }

  lemma RingCountsReveal(polygon: RawPolygon)
    requires RingCounts(polygon)
    ensures |polygon| < U32_LIMIT && forall r :: r in polygon ==> |r| < U32_LIMIT
  {
  }

  lemma AtByte(data: seq<byte>, offset: nat)
    requires At(data, offset, [1])
    ensures offset < |data| && data[offset] == 1
  {
    assert data[offset..offset + 1][0] == 1;
  }

  predicate AllRingsFit(limit: nat, polygons: seq<RawPolygon>) {
    forall p :: p in polygons ==> RingsFit(limit, p)
  }

  lemma AllRingsFitSplit(limit: nat, first: RawPolygon, rest: seq<RawPolygon>)
    ensures AllRingsFit(limit, [first] + rest) <==> RingsFit(limit, first) && AllRingsFit(limit, rest)
  {
    assert first in [first] + rest;
    assert forall p :: p in rest ==> p in [first] + rest;
  }

  lemma {:induction false} PolygonsRoundTrip(finite: u64 -> bool, limit: nat, data: seq<byte>, offset: nat, polygons: seq<RawPolygon>)
    requires forall p :: p in polygons ==> RingCounts(p) && FinitePolygon(finite, p)
    requires At(data, offset, EncodePolygons(polygons))
    ensures ParseMembers(finite, limit, data, offset, |polygons|) ==
            if AllRingsFit(limit, polygons) then Ok((polygons, offset + |EncodePolygons(polygons)|)) else Err(RingSize)
    decreases |polygons|
  {
    hide At, EncodePolygon, ParseGeometry, FinitePolygon, RingsFit, RingCounts;
    if polygons == [] {
    } else {
      assert polygons[0] in polygons;
      var rest := polygons[1..];
      assert forall p :: p in rest ==> p in polygons;
      assert polygons == [polygons[0]] + rest;
      AtConcat(data, offset, EncodePolygon(polygons[0]), EncodePolygons(rest));
      PolygonRoundTrip(finite, limit, data, offset, polygons[0]);
      AllRingsFitSplit(limit, polygons[0], rest);
      hide AllRingsFit;
      if RingsFit(limit, polygons[0]) {
        PolygonsRoundTrip(finite, limit, data, offset + |EncodePolygon(polygons[0])|, rest);
      }
    }
  }

  /** A written multipolygon reads back as itself, consuming every byte, unless a ring is above the limit. */
  lemma GeometryRoundTrip(finite: u64 -> bool, limit: nat, polygons: seq<RawPolygon>)
    requires Countable(polygons) && forall p :: p in polygons ==> FinitePolygon(finite, p)
    ensures ParseGeometry(finite, limit, EncodeGeometry(polygons), 0) ==
            if AllRingsFit(limit, polygons) then Ok((polygons, |EncodeGeometry(polygons)|)) else Err(RingSize)
  {
    hide At, WordBytes, EncodePolygons, ParseMembers, ParseWord, FinitePolygon, AllRingsFit, RingCounts;
    var data := EncodeGeometry(polygons);
    var one: seq<byte> := [1];
    AtWhole(data);
    AtConcat(data, 0, one + WordBytes(6) + WordBytes(|polygons|), EncodePolygons(polygons));
    AtConcat(data, 0, one + WordBytes(6), WordBytes(|polygons|));
    AtConcat(data, 0, one, WordBytes(6));
    AtByte(data, 0);
    WordRoundTrip(data, 1, 6);
    WordRoundTrip(data, 5, |polygons|);
    PolygonsRoundTrip(finite, limit, data, 9, polygons);
  }

  lemma AtWhole(data: seq<byte>)
    ensures At(data, 0, data)
  {
  }

  /** The writer is injective. */
  lemma EncodeInjective(finite: u64 -> bool, a: seq<RawPolygon>, b: seq<RawPolygon>)
    requires Countable(a) && forall p :: p in a ==> FinitePolygon(finite, p)
    requires Countable(b) && forall p :: p in b ==> FinitePolygon(finite, p)
    requires EncodeGeometry(a) == EncodeGeometry(b)
    ensures a == b
  {
    hide EncodeGeometry, ParseGeometry;
    GeometryRoundTrip(finite, U32_LIMIT, a);
    GeometryRoundTrip(finite, U32_LIMIT, b);
    CountableFits(a);
    CountableFits(b);
  }

  lemma CountableFits(polygons: seq<RawPolygon>)
    requires Countable(polygons)
    ensures AllRingsFit(U32_LIMIT, polygons)
  {
  }
}
