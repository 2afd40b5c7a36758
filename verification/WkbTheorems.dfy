/** Canonical WKB over binary64 coordinates: the results without any assumption on the input. */
module WkbTheorems {
  import opened Bytes
  import opened Results
  import opened WkbFloats
  import opened WkbFormat
  import opened WkbRing
  import opened WkbCanonical
  import opened WkbBinary64
  import opened WkbBytes
  import opened WkbForm
  import opened WkbReader

  // ---- What was read is finite ------------------------------------------------------------

  lemma {:induction false} RingsFinite(finite: u64 -> bool, limit: nat, data: seq<byte>, offset: nat, little: bool, count: nat)
    requires ParseRings(finite, limit, data, offset, little, count).Ok?
    ensures FinitePolygon(finite, ParseRings(finite, limit, data, offset, little, count).value.0)
    decreases count
  {
    hide AllFinite;
    if count > 0 {
      var ring := ParseRing(finite, limit, data, offset, little).value;
      RingsFinite(finite, limit, data, ring.1, little, count - 1);
    }
  }

  lemma {:induction false} GeometryFinite(finite: u64 -> bool, limit: nat, data: seq<byte>, offset: nat)
    requires ParseGeometry(finite, limit, data, offset).Ok?
    ensures forall p :: p in ParseGeometry(finite, limit, data, offset).value.0 ==> FinitePolygon(finite, p)
    decreases |data| - offset, 0, 0
  {
    hide ParseRings, Word, FinitePolygon;
    var little := data[offset] == 1;
    var (kind, start) := ParseWord(data, offset + 1, little).value;
    var (count, first) := ParseWord(data, start, little).value;
    if kind == 3 {
      RingsFinite(finite, limit, data, first, little, count);
    } else {
      MembersFinite(finite, limit, data, first, count);
    }
  }

  lemma {:induction false} MembersFinite(finite: u64 -> bool, limit: nat, data: seq<byte>, offset: nat, count: nat)
    requires ParseMembers(finite, limit, data, offset, count).Ok?
    ensures forall p :: p in ParseMembers(finite, limit, data, offset, count).value.0 ==> FinitePolygon(finite, p)
    decreases |data| - offset, 1, count
  {
    if count > 0 {
      hide ParseGeometry, ParseMembers, FinitePolygon;
      MembersOf(finite, limit, data, offset, count);
      GeometryFinite(finite, limit, data, offset);
      MembersFinite(finite, limit, data, ParseGeometry(finite, limit, data, offset).value.1, count - 1);
    }
  }

  // ---- What was quantized is faithful -----------------------------------------------------

  lemma RoundRingFaithful(fl: Floats, ring: RawRing)
    requires Binary64(fl) && AllFinite(fl.finite, ring) && RoundRing(fl, ring).Ok?
    ensures FaithfulRing(fl, RoundRing(fl, ring).value)
  {
    hide Binary64;
    var rounded := RoundRing(fl, ring).value;
    forall i | 0 <= i < |rounded|
      ensures fl.Faithful(rounded[i].x) && fl.Faithful(rounded[i].y)
    {
      assert ring[i] in ring;
      QuantizedFaithful(fl, ring[i].x, rounded[i].x);
      QuantizedFaithful(fl, ring[i].y, rounded[i].y);
    }
  }

  lemma {:induction false} RoundRingsFaithful(fl: Floats, rings: RawPolygon)
    requires Binary64(fl) && FinitePolygon(fl.finite, rings) && RoundRings(fl, rings).Ok?
    ensures forall r :: r in RoundRings(fl, rings).value ==> FaithfulRing(fl, r)
  {
    hide Binary64, RoundRing, FaithfulRing, AllFinite;
    if rings != [] {
      assert rings[0] in rings && forall r :: r in rings[1..] ==> r in rings;
      RoundRingFaithful(fl, rings[0]);
      RoundRingsFaithful(fl, rings[1..]);
    }
  }

  lemma {:induction false} RoundPolygonsFaithful(fl: Floats, ps: seq<RawPolygon>)
    requires Binary64(fl) && (forall p :: p in ps ==> FinitePolygon(fl.finite, p)) && RoundPolygons(fl, ps).Ok?
    ensures forall p, r :: p in RoundPolygons(fl, ps).value && r in p ==> FaithfulRing(fl, r)
  {
    hide Binary64, RoundRings, FaithfulRing, FinitePolygon;
    if ps != [] {
      assert ps[0] in ps && forall p :: p in ps[1..] ==> p in ps;
      RoundRingsFaithful(fl, ps[0]);
      RoundPolygonsFaithful(fl, ps[1..]);
    }
  }

  /** Every coordinate of every accepted input survives being written and read, at every magnitude. */
  lemma AcceptedFaithful(fl: Floats, data: seq<byte>)
    requires Binary64(fl) && Rounded(fl, data).Ok?
    ensures FaithfulAll(fl, Rounded(fl, data).value)
  {
    hide Binary64, RoundPolygons, FaithfulRing, FinitePolygon, ParseGeometry;
    GeometryFinite(fl.finite, RING_LIMIT, data, 0);
    RoundPolygonsFaithful(fl, ParseGeometry(fl.finite, RING_LIMIT, data, 0).value.0);
  }

  /** Coordinates in the range of degrees survive under the unit roundoff alone. */
  lemma WithinLimitFaithful(fl: Floats, ps: seq<Polygon>)
    requires fl.RoundsToNearest()
    requires forall p, r, q :: p in ps && r in p && q in r ==>
               -FAITHFUL_LIMIT <= q.x <= FAITHFUL_LIMIT && -FAITHFUL_LIMIT <= q.y <= FAITHFUL_LIMIT
    ensures FaithfulAll(fl, ps)
  {
    forall p, r | p in ps && r in p
      ensures FaithfulRing(fl, r)
    {
      forall q | q in r
        ensures fl.Faithful(q.x) && fl.Faithful(q.y)
      {
        hide *;
        FaithfulWithinLimit(fl, q.x);
        FaithfulWithinLimit(fl, q.y);
      }
    }
  }

  // ---- The main results -------------------------------------------------------------------

  lemma {:induction false} RingsQuantizable(fl: Floats, rings: RawPolygon)
    ensures RoundRings(fl, rings).Ok? <==> forall r :: r in rings ==> Quantizable(fl, r)
  {
    hide Quantizable;
    if rings != [] {
      assert rings[0] in rings && forall r :: r in rings <==> r == rings[0] || r in rings[1..];
      RingsQuantizable(fl, rings[1..]);
    }
  }

  /** A polygon with an exterior ring, whose coordinates can be quantized. */
  ghost predicate Roundable(fl: Floats, rings: RawPolygon) {
    rings != [] && forall r :: r in rings ==> Quantizable(fl, r)
  }

  lemma {:induction false} PolygonsRoundable(fl: Floats, ps: seq<RawPolygon>)
    ensures RoundPolygons(fl, ps).Ok? <==> forall p :: p in ps ==> Roundable(fl, p)
  {
    hide RoundRings, Quantizable;
    if ps != [] {
      assert ps[0] in ps && forall p :: p in ps <==> p == ps[0] || p in ps[1..];
      RingsQuantizable(fl, ps[0]);
      PolygonsRoundable(fl, ps[1..]);
    }
  }

  /** Accepted are exactly the encodings of polygons and multipolygons, in either byte order at every level, in which
      every polygon has an exterior ring and no coordinate overflows when it is scaled. */
  lemma CanonicalWkbAccepts(fl: Floats, data: seq<byte>)
    ensures CanonicalWkb(fl, data).Ok? <==>
            exists t :: Legal(fl.finite, 10_000_000, t) && Counted(t) && TreeOf(t) == data && forall p :: p in Polygons(t) ==> Roundable(fl, p)
  {
    hide ParseGeometry, RoundPolygons, Legal, Counted, TreeOf, Polygons, Roundable, EncodeGeometry, Canonical, RawOf;
    var parsed := ParseGeometry(fl.finite, RING_LIMIT, data, 0);
    if parsed.Ok? && parsed.value.1 == |data| {
      PolygonsRoundable(fl, parsed.value.0);
      AcceptsExactly(fl.finite, data, parsed.value.0);
    }
    if t :| Legal(fl.finite, 10_000_000, t) && Counted(t) && TreeOf(t) == data && forall p :: p in Polygons(t) ==> Roundable(fl, p) {
      AcceptsExactly(fl.finite, data, Polygons(t));
      PolygonsRoundable(fl, Polygons(t));
      assert parsed == Ok((Polygons(t), |data|));
      assert Rounded(fl, data).Ok?;
    }
  }

  /** Canonical bytes are a fixed point of `canonical_wkb` for every accepted input, except when a ring of the input
      has ten million distinct open points: closing such a ring makes one the reader refuses. */
  lemma CanonicalWkbIdempotent(fl: Floats, data: seq<byte>)
    requires Binary64(fl) && CanonicalWkb(fl, data).Ok?
    ensures CanonicalWkb(fl, CanonicalWkb(fl, data).value) ==
            if NoFullRing(Rounded(fl, data).value) then CanonicalWkb(fl, data) else Err(RingSize)
  {
    hide Binary64, Rounded, Canonical, RawOf, EncodeGeometry, NoFullRing, FaithfulAll, Countable;
    AcceptedFaithful(fl, data);
    FaithfulIdempotent(fl, data);
  }

  /** Two accepted inputs give the same bytes exactly when their quantized geometries are presentations of one
      geometry. */
  lemma CanonicalWkbComplete(fl: Floats, a: seq<byte>, b: seq<byte>)
    requires Binary64(fl) && CanonicalWkb(fl, a).Ok? && CanonicalWkb(fl, b).Ok?
    ensures CanonicalWkb(fl, a) == CanonicalWkb(fl, b) <==> SameGeometry(Rounded(fl, a).value, Rounded(fl, b).value)
  {
    hide Binary64, Rounded, Canonical, RawOf, EncodeGeometry, SameGeometry, FaithfulAll, Countable;
    AcceptedFaithful(fl, a);
    AcceptedFaithful(fl, b);
    FaithfulComplete(fl, a, b);
  }

  /** The canonical bytes are the encoding of a presentation of the input in canonical form, and, unless a ring is full,
      read back as it: exteriors counter-clockwise, holes clockwise, earliest start points, holes and polygons sorted. */
  lemma CanonicalWkbFormed(fl: Floats, data: seq<byte>) returns (c: seq<NormalPolygon>)
    requires Binary64(fl) && CanonicalWkb(fl, data).Ok?
    ensures Formed(c) && SameGeometry(Rounded(fl, data).value, RingsAll(c))
    ensures Countable(RawOf(fl, c)) && CanonicalWkb(fl, data).value == EncodeGeometry(RawOf(fl, c))
    ensures NoFullRing(Rounded(fl, data).value) ==> Rounded(fl, CanonicalWkb(fl, data).value) == Ok(RingsAll(c))
  {
    hide Binary64, Rounded, Canonical, RawOf, EncodeGeometry, SameGeometry, FaithfulAll, Countable, NoFullRing, Formed, Small, RingsAll;
    var ps := Rounded(fl, data).value;
    c := Canonical(ps);
    AcceptedFaithful(fl, data);
    RoundedSmall(fl, data);
    CanonicalFormed(ps);
    RoundedCanonical(fl, ps);
    CanonicalIdempotent(ps);
    CanonicalComplete(ps, RingsAll(c));
  }

  /** The exception happens: an accepted input whose canonical bytes are refused. */
  lemma FullRingRefused(fl: Floats)
    requires Binary64(fl)
    ensures exists data :: CanonicalWkb(fl, data).Ok? && CanonicalWkb(fl, CanonicalWkb(fl, data).value) == Err(RingSize)
  {
    hide Binary64, CanonicalWkb, EncodeGeometry, RawOf;
    ZeroFaithful(fl);
    SmallFaithful(fl, 1);
    FullRingNotIdempotent(fl);
  }
}
