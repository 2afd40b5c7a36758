/** The steps `canonical_wkb` takes: read, normalize polygon by polygon, sort, and write ring by ring. */
module WkbSteps {
  import opened Bytes
  import opened Results
  import opened LexOrder
  import opened WkbFloats
  import opened WkbFormat
  import opened WkbRing
  import opened WkbCanonical
  import opened WkbBytes

  /** Quantize and normalize the holes one by one. */
  method NormalizeHoles(fl: Floats, raws: RawPolygon) returns (r: Result<seq<Ring>, WkbError>)
    ensures r == match RoundRings(fl, raws)
                 case Ok(rings) => Ok(NormalHoles(rings))
                 case Err(e) => Err(e)
  {
    hide RoundRing, NormalRing;
    var holes: seq<Ring> := [];
    ghost var rounded: seq<Ring> := [];
    var k := 0;
    assert raws[0..] == raws && forall rest: seq<Ring> :: [] + rest == rest;
    while k < |raws|
      invariant 0 <= k <= |raws|
      invariant holes == NormalHoles(rounded)
      invariant RoundRings(fl, raws) == match RoundRings(fl, raws[k..])
                                        case Ok(rest) => Ok(rounded + rest)
                                        case Err(e) => Err(e)
    {
      assert raws[k..][0] == raws[k] && raws[k..][1..] == raws[k + 1..];
      var ring := RoundRing(fl, raws[k]);
      if ring.Err? {
        return Err(ring.error);
      }
      var hole := NormalizeRing(ring.value, false);
      assert forall rest: seq<Ring> :: rounded + ([ring.value] + rest) == rounded + [ring.value] + rest;
      rounded := rounded + [ring.value];
      holes := holes + [hole];
      k := k + 1;
    }
    assert rounded + [] == rounded;
    return Ok(holes);
  }

  /** Quantize and normalize one polygon. */
  method NormalizePolygon(fl: Floats, raw: RawPolygon) returns (r: Result<NormalPolygon, WkbError>)
    requires raw != []
    ensures r == match RoundRings(fl, raw)
                 case Ok(p) => Ok(Normalize(p))
                 case Err(e) => Err(e)
  {
    hide RoundRing, NormalRing, NormalHoles;
    var first := RoundRing(fl, raw[0]);
    if first.Err? {
      return Err(first.error);
    }
    var exterior := NormalizeRing(first.value, true);
    var holes := NormalizeHoles(fl, raw[1..]);
    if holes.Err? {
      return Err(holes.error);
    }
    ghost var rest := RoundRings(fl, raw[1..]).value;
    assert ([first.value] + rest)[1..] == rest;
    return Ok(NormalPolygon(exterior, SortBy(RingLess, holes.value)));
  }

  /** Quantize and normalize every polygon, in the order read. */
  method NormalizePolygons(fl: Floats, raws: seq<RawPolygon>) returns (r: Result<seq<NormalPolygon>, WkbError>)
    ensures r == match RoundPolygons(fl, raws)
                 case Ok(ps) => Ok(NormalizeAll(ps))
                 case Err(e) => Err(e)
  {
    hide RoundRings, Normalize;
    var normalized: seq<NormalPolygon> := [];
    ghost var rounded: seq<Polygon> := [];
    var k := 0;
    assert raws[0..] == raws && forall rest: seq<Polygon> :: [] + rest == rest;
    while k < |raws|
      invariant 0 <= k <= |raws|
      invariant HasExteriors(rounded) && normalized == NormalizeAll(rounded)
      invariant RoundPolygons(fl, raws) == match RoundPolygons(fl, raws[k..])
                                           case Ok(rest) => Ok(rounded + rest)
                                           case Err(e) => Err(e)
    {
      assert raws[k..][0] == raws[k] && raws[k..][1..] == raws[k + 1..];
      if raws[k] == [] {
        return Err(NoExterior);
      }
      var p := NormalizePolygon(fl, raws[k]);
      if p.Err? {
        return Err(p.error);
      }
      ghost var q := RoundRings(fl, raws[k]).value;
      assert forall rest: seq<Polygon> :: rounded + ([q] + rest) == rounded + [q] + rest;
      rounded := rounded + [q];
      normalized := normalized + [p.value];
      k := k + 1;
    }
    assert rounded + [] == rounded;
    return Ok(normalized);
  }

  /** Write one ring, point by point. */
  method WriteRing(fl: Floats, ring: Ring) returns (output: seq<byte>)
    requires |ring| < U32_LIMIT
    ensures output == EncodeRing(RawRingOf(fl, ring))
  {
    output := WordBytes(|ring|);
    ghost var raw := RawRingOf(fl, ring);
    var k := 0;
    while k < |ring|
      invariant 0 <= k <= |ring|
      invariant output == WordBytes(|ring|) + EncodePoints(raw[..k])
    {
      assert raw[..k + 1][..k] == raw[..k];
      output := output + DoubleBytes(fl.Dequantize(ring[k].x)) + DoubleBytes(fl.Dequantize(ring[k].y));
      k := k + 1;
    }
    assert raw[..k] == raw;
  }

  lemma {:induction false} EncodeRingsSnoc(polygon: RawPolygon, last: RawRing)
    requires (forall r :: r in polygon ==> |r| < U32_LIMIT) && |last| < U32_LIMIT
    ensures EncodeRings(polygon + [last]) == EncodeRings(polygon) + EncodeRing(last)
    decreases |polygon|
  {
    hide EncodeRing;
    if polygon == [] {
      assert polygon + [last] == [last] && [last][1..] == [];
    } else {
      EncodeRingsSnoc(polygon[1..], last);
      assert (polygon + [last])[1..] == polygon[1..] + [last];
    }
  }

  lemma {:induction false} EncodePolygonsSnoc(polygons: seq<RawPolygon>, last: RawPolygon)
    requires (forall p :: p in polygons ==> RingCounts(p)) && RingCounts(last)
    ensures EncodePolygons(polygons + [last]) == EncodePolygons(polygons) + EncodePolygon(last)
    decreases |polygons|
  {
    hide EncodePolygon, RingCounts;
    if polygons == [] {
      assert polygons + [last] == [last] && [last][1..] == [];
    } else {
      EncodePolygonsSnoc(polygons[1..], last);
      assert (polygons + [last])[1..] == polygons[1..] + [last];
    }
  }

  /** Write one polygon: its header, then the exterior and the holes. */
  method WritePolygon(fl: Floats, p: NormalPolygon) returns (output: seq<byte>)
    requires RingCounts(RawPolygonOf(fl, Rings(p)))
    ensures output == EncodePolygon(RawPolygonOf(fl, Rings(p)))
  {
    hide EncodeRing, RawRingOf, Rings, WordBytes;
    var rings := Rings(p);
    ghost var raw := RawPolygonOf(fl, rings);
    output := [1] + WordBytes(3) + WordBytes(|rings|);
    ghost var header := output;
    var k := 0;
    assert EncodeRings(raw[..0]) == [];
    while k < |rings|
      invariant 0 <= k <= |rings|
      invariant output == header + EncodeRings(raw[..k])
    {
      assert raw[k] in raw;
      var ring := WriteRing(fl, rings[k]);
      EncodeRingsSnoc(raw[..k], raw[k]);
      assert raw[..k + 1] == raw[..k] + [raw[k]];
      assert output + ring == header + (EncodeRings(raw[..k]) + ring);
      output := output + ring;
      k := k + 1;
    }
    assert raw[..k] == raw;
  }

  /** Write the multipolygon. */
  method WriteGeometry(fl: Floats, ps: seq<NormalPolygon>) returns (output: seq<byte>)
    requires Countable(RawOf(fl, ps))
    ensures output == EncodeGeometry(RawOf(fl, ps))
  {
    hide EncodePolygon, RawPolygonOf, RingCounts;
    ghost var raw := RawOf(fl, ps);
    output := [1] + WordBytes(6) + WordBytes(|ps|);
    ghost var header := output;
    var k := 0;
    assert EncodePolygons(raw[..0]) == [];
    while k < |ps|
      invariant 0 <= k <= |ps|
      invariant output == header + EncodePolygons(raw[..k])
    {
      assert raw[k] in raw;
      var polygon := WritePolygon(fl, ps[k]);
      EncodePolygonsSnoc(raw[..k], raw[k]);
      assert raw[..k + 1] == raw[..k] + [raw[k]];
      assert output + polygon == header + (EncodePolygons(raw[..k]) + polygon);
      output := output + polygon;
      k := k + 1;
    }
    assert raw[..k] == raw;
  }

  /** `canonical_wkb`, step by step. */
  method Canonicalize(fl: Floats, data: seq<byte>) returns (r: Result<seq<byte>, WkbError>)
    ensures r == CanonicalWkb(fl, data)
  {
    hide ParseGeometry, RoundPolygons, NormalizeAll, EncodeGeometry, RawOf;
    var parsed := ReadGeometry(fl.finite, data, 0);
    if parsed.Err? {
      return Err(parsed.error);
    }
    if parsed.value.1 != |data| {
      return Err(TrailingBytes);
    }
    var normalized := NormalizePolygons(fl, parsed.value.0);
    if normalized.Err? {
      return Err(normalized.error);
    }
    RoundedSmall(fl, data);
    CanonicalCountable(fl, Rounded(fl, data).value);
    var output := WriteGeometry(fl, SortBy(PolygonLess, normalized.value));
    return Ok(output);
  }
}
