/** `canonical_wkb` from bytes to bytes. */
module WkbBytes {
  import opened Bytes
  import opened Results
  import opened LexOrder
  import opened WkbFloats
  import opened WkbFormat
  import opened WkbRing
  import opened WkbCanonical

  // ---- Quantizing --------------------------------------------------------------------------

  predicate Quantizable(fl: Floats, ring: RawRing) {
    forall p :: p in ring ==> fl.Quantize(p.x).Some? && fl.Quantize(p.y).Some?
  }

  function RoundPoint(fl: Floats, p: RawPoint): Point
    requires fl.Quantize(p.x).Some? && fl.Quantize(p.y).Some?
  {
    Point(fl.Quantize(p.x).value, fl.Quantize(p.y).value)
  }

  function RoundRing(fl: Floats, ring: RawRing): (r: Result<Ring, WkbError>)
    ensures r.Ok? ==> |r.value| == |ring|
  {
    if !Quantizable(fl, ring) then Err(CoordinateOverflow)
    else Ok(seq(|ring|, i requires 0 <= i < |ring| => assert ring[i] in ring; RoundPoint(fl, ring[i])))
  }

  function RoundRings(fl: Floats, rings: RawPolygon): (r: Result<Polygon, WkbError>)
    ensures r.Ok? ==> |r.value| == |rings|
  {
    if rings == [] then Ok([])
    else
      var ring :- RoundRing(fl, rings[0]);
      var rest :- RoundRings(fl, rings[1..]);
      Ok([ring] + rest)
  }

  /** Quantize every polygon; each needs an exterior ring. */
  function RoundPolygons(fl: Floats, ps: seq<RawPolygon>): (r: Result<seq<Polygon>, WkbError>)
    ensures r.Ok? ==> |r.value| == |ps| && HasExteriors(r.value)
  {
    if ps == [] then Ok([])
    else if ps[0] == [] then Err(NoExterior)
    else
      var p :- RoundRings(fl, ps[0]);
      var rest :- RoundPolygons(fl, ps[1..]);
      Ok([p] + rest)
  }

  // ---- Writing quantized rings ------------------------------------------------------------------

  function RawRingOf(fl: Floats, r: Ring): (s: RawRing)
    ensures |s| == |r|
  {
    seq(|r|, i requires 0 <= i < |r| => RawPoint(fl.Dequantize(r[i].x), fl.Dequantize(r[i].y)))
  }

  function RawPolygonOf(fl: Floats, p: Polygon): (s: RawPolygon)
    ensures |s| == |p|
  {
    seq(|p|, i requires 0 <= i < |p| => RawRingOf(fl, p[i]))
  }

  function RawOf(fl: Floats, ps: seq<NormalPolygon>): (s: seq<RawPolygon>)
    ensures |s| == |ps|
  {
    seq(|ps|, i requires 0 <= i < |ps| => RawPolygonOf(fl, Rings(ps[i])))
  }

  /** The quantized polygons of a WKB byte string, all of it. */
  function Rounded(fl: Floats, data: seq<byte>): (r: Result<seq<Polygon>, WkbError>)
    ensures r.Ok? ==> HasExteriors(r.value)
  {
    var parsed :- ParseGeometry(fl.finite, RING_LIMIT, data, 0);
    if parsed.1 != |data| then Err(TrailingBytes) else RoundPolygons(fl, parsed.0)
  }

  // ---- Counts: what was read is small enough to write ---------------------------------------------

  /** At most a 32-bit count of polygons and rings, and rings of at most `limit` points. */
  predicate Sized(limit: nat, ps: seq<RawPolygon>) {
    |ps| < U32_LIMIT && forall p :: p in ps ==> SizedPolygon(limit, p)
  }

  lemma {:induction false} RingsSized(finite: u64 -> bool, limit: nat, data: seq<byte>, offset: nat, little: bool, count: nat)
    requires ParseRings(finite, limit, data, offset, little, count).Ok?
    ensures RingsFit(limit, ParseRings(finite, limit, data, offset, little, count).value.0)
    decreases count
  {
    if count > 0 {
      hide AllFinite;
      var ring := ParseRing(finite, limit, data, offset, little).value;
      RingsSized(finite, limit, data, ring.1, little, count - 1);
    }
  }

  lemma {:induction false} GeometrySized(finite: u64 -> bool, limit: nat, data: seq<byte>, offset: nat)
    requires ParseGeometry(finite, limit, data, offset).Ok?
    ensures Sized(limit, ParseGeometry(finite, limit, data, offset).value.0)
    decreases |data| - offset, 0, 0
  {
    hide ParseRings, Word, RingsFit;
    var little := data[offset] == 1;
    var (kind, start) := ParseWord(data, offset + 1, little).value;
    var (count, first) := ParseWord(data, start, little).value;
    if kind == 3 {
      RingsSized(finite, limit, data, first, little, count);
    } else {
      MembersSized(finite, limit, data, first, count);
    }
  }

  predicate SizedPolygon(limit: nat, p: RawPolygon) {
    |p| < U32_LIMIT && RingsFit(limit, p)
  }

  lemma MembersOf(finite: u64 -> bool, limit: nat, data: seq<byte>, offset: nat, count: nat)
    requires count > 0 && ParseMembers(finite, limit, data, offset, count).Ok?
    ensures ParseGeometry(finite, limit, data, offset).Ok?
    ensures var (nested, next) := ParseGeometry(finite, limit, data, offset).value;
            && ParseMembers(finite, limit, data, next, count - 1).Ok?
            && ParseMembers(finite, limit, data, offset, count).value.0 ==
               nested + ParseMembers(finite, limit, data, next, count - 1).value.0
  {
    hide ParseGeometry;
  }

  lemma {:induction false} MembersSized(finite: u64 -> bool, limit: nat, data: seq<byte>, offset: nat, count: nat)
    requires ParseMembers(finite, limit, data, offset, count).Ok?
    ensures forall p :: p in ParseMembers(finite, limit, data, offset, count).value.0 ==> SizedPolygon(limit, p)
    decreases |data| - offset, 1, count
  {
    if count > 0 {
      hide ParseGeometry, ParseMembers, SizedPolygon;
      MembersOf(finite, limit, data, offset, count);
      GeometrySized(finite, limit, data, offset);
      MembersSized(finite, limit, data, ParseGeometry(finite, limit, data, offset).value.1, count - 1);
    }
  }

  /** At the quantized level: counts that fit, and rings of at most `limit` points. */
  predicate Small(limit: nat, ps: seq<Polygon>) {
    |ps| < U32_LIMIT && forall p :: p in ps ==> SmallPolygon(limit, p)
  }

  predicate SmallPolygon(limit: nat, p: Polygon) {
    |p| < U32_LIMIT && forall r :: r in p ==> |r| <= limit
  }

  lemma {:induction false} RoundRingsSmall(fl: Floats, limit: nat, rings: RawPolygon)
    requires RoundRings(fl, rings).Ok? && RingsFit(limit, rings)
    ensures forall r :: r in RoundRings(fl, rings).value ==> |r| <= limit
  {
    if rings != [] {
      hide RoundRing;
      assert rings[0] in rings && forall r :: r in rings[1..] ==> r in rings;
      RoundRingsSmall(fl, limit, rings[1..]);
    }
  }

  lemma {:induction false} RoundPolygonsSmall(fl: Floats, limit: nat, ps: seq<RawPolygon>)
    requires RoundPolygons(fl, ps).Ok? && Sized(limit, ps)
    ensures Small(limit, RoundPolygons(fl, ps).value)
  {
    if ps != [] {
      hide RoundRings;
      assert ps[0] in ps && forall p :: p in ps[1..] ==> p in ps;
      RoundRingsSmall(fl, limit, ps[0]);
      RoundPolygonsSmall(fl, limit, ps[1..]);
    }
  }

  lemma RoundedSmall(fl: Floats, data: seq<byte>)
    requires Rounded(fl, data).Ok?
    ensures Small(RING_LIMIT, Rounded(fl, data).value)
  {
    hide ParseGeometry, RoundPolygons, Small, Sized;
    GeometrySized(fl.finite, RING_LIMIT, data, 0);
    RoundPolygonsSmall(fl, RING_LIMIT, ParseGeometry(fl.finite, RING_LIMIT, data, 0).value.0);
  }

  // ---- What holds of the rings of a canonical form ---------------------------------------------------

  /** A property of every ring of every polygon. */
  ghost predicate EveryRing(ps: seq<Polygon>, good: Ring -> bool) {
    forall p, r :: p in ps && r in p ==> good(r)
  }

  ghost predicate EveryNormalRing(ps: seq<NormalPolygon>, good: Ring -> bool) {
    forall p, r :: p in ps && r in Rings(p) ==> good(r)
  }

  /** A property that normalizing neither gains nor loses holds of the canonical rings exactly when it holds
      of the rings. */
  lemma NormalizeRings(p: Polygon, before: Ring -> bool, after: Ring -> bool)
    requires p != [] && forall r, e :: before(r) <==> after(NormalRing(r, e))
    ensures (forall r :: r in Rings(Normalize(p)) ==> after(r)) <==> (forall r :: r in p ==> before(r))
  {
    hide NormalRing, SortBy, RingLess;
    SortedHoles(p[1..]);
    var np := Normalize(p);
    if forall r :: r in p ==> before(r) {
      forall r | r in Rings(np)
        ensures after(r)
      {
        if r != np.exterior {
          assert r in multiset(np.holes);
          var i :| 0 <= i < |p[1..]| && NormalHoles(p[1..])[i] == r;
          assert p[1..][i] in p;
        }
      }
    }
    if forall r :: r in Rings(np) ==> after(r) {
      forall r | r in p
        ensures before(r)
      {
        var i :| 0 <= i < |p| && p[i] == r;
        if i == 0 {
          assert np.exterior in Rings(np);
        } else {
          assert NormalHoles(p[1..])[i - 1] == NormalRing(r, false);
          assert NormalRing(r, false) in multiset(np.holes);
          assert NormalRing(r, false) in Rings(np);
        }
      }
    }
  }

  lemma CanonicalRings(ps: seq<Polygon>, before: Ring -> bool, after: Ring -> bool)
    requires HasExteriors(ps) && forall r, e :: before(r) <==> after(NormalRing(r, e))
    ensures EveryNormalRing(Canonical(ps), after) <==> EveryRing(ps, before)
  {
    hide NormalRing, Normalize, SortBy, Rings;
    CanonicalContents(ps);
    if EveryRing(ps, before) {
      forall np, r | np in Canonical(ps) && r in Rings(np)
        ensures after(r)
      {
        var p :| p in ps && p != [] && np == Normalize(p);
        NormalizeRings(p, before, after);
      }
    }
    if EveryNormalRing(Canonical(ps), after) {
      forall p, r | p in ps && r in p
        ensures before(r)
      {
        var i :| 0 <= i < |ps| && ps[i] == p;
        assert NormalizeAll(ps)[i] in multiset(Canonical(ps));
        NormalizeRings(p, before, after);
      }
    }
  }

  predicate FaithfulRing(fl: Floats, r: Ring) {
    forall p :: p in r ==> fl.Faithful(p.x) && fl.Faithful(p.y)
  }

  /** Every coordinate survives being written and read. */
  ghost predicate FaithfulAll(fl: Floats, ps: seq<Polygon>) {
    EveryRing(ps, r => FaithfulRing(fl, r))
  }

  /** Normalizing keeps the set of points of a ring. */
  lemma NormalRingPoints(r: Ring, e: bool, p: Point)
    ensures p in NormalRing(r, e) <==> p in r
  {
    hide SignedArea;
    var open := Open(r);
    var o := Orient(open, e);
    var least := LeastRotation(o);
    LeastRotationExact(o);
    var k: nat :| k <= |o| && least == Rotate(o, k);
    assert p in least <==> p in o by {
      assert o == o[..k] + o[k..];
    }
    assert p in o <==> p in open by {
      ReversePoints(open, p);
    }
    assert p in open <==> p in r by {
      if open != r {
        assert r == open + [r[0]] && open[0] == r[0];
      }
    }
    hide LeastRotation;
  }

  lemma ReversePoints(r: Ring, p: Point)
    ensures p in Reverse(r) <==> p in r
  {
    if p in r {
      var i :| 0 <= i < |r| && r[i] == p;
      assert Reverse(r)[|r| - 1 - i] == p;
    }
  }

  lemma FaithfulNormal(fl: Floats, r: Ring, e: bool)
    ensures FaithfulRing(fl, r) <==> FaithfulRing(fl, NormalRing(r, e))
  {
    hide NormalRing;
    forall p
      ensures p in NormalRing(r, e) <==> p in r
    {
      NormalRingPoints(r, e, p);
    }
  }

  lemma FaithfulCanonical(fl: Floats, ps: seq<Polygon>)
    requires HasExteriors(ps) && FaithfulAll(fl, ps)
    ensures EveryNormalRing(Canonical(ps), r => FaithfulRing(fl, r))
  {
    hide NormalRing, FaithfulRing, Canonical, EveryNormalRing, EveryRing;
    forall r: Ring, e: bool
      ensures FaithfulRing(fl, r) <==> FaithfulRing(fl, NormalRing(r, e))
    {
      FaithfulNormal(fl, r, e);
    }
    var good := (r: Ring) => FaithfulRing(fl, r);
    assert FaithfulAll(fl, ps) ==> EveryRing(ps, good) by {
      EveryRingSame(ps, r => FaithfulRing(fl, r), good);
    }
    CanonicalRings(ps, good, good);
    EveryNormalSame(Canonical(ps), good, r => FaithfulRing(fl, r));
  }

  lemma EveryRingSame(ps: seq<Polygon>, f: Ring -> bool, g: Ring -> bool)
    requires forall r :: f(r) == g(r)
    ensures EveryRing(ps, f) == EveryRing(ps, g)
  {
  }

  lemma EveryNormalSame(ps: seq<NormalPolygon>, f: Ring -> bool, g: Ring -> bool)
    requires forall r :: f(r) == g(r)
    ensures EveryNormalRing(ps, f) == EveryNormalRing(ps, g)
  {
  }

  // ---- The canonical bytes ---------------------------------------------------------------------------

  lemma CanonicalCountable(fl: Floats, ps: seq<Polygon>)
    requires HasExteriors(ps) && Small(RING_LIMIT, ps)
    ensures Countable(RawOf(fl, Canonical(ps)))
  {
    hide NormalRing, Normalize, SortBy;
    CanonicalContents(ps);
    var c := Canonical(ps);
    SameLength(c, NormalizeAll(ps));
    forall raw | raw in RawOf(fl, c)
      ensures RingCounts(raw)
    {
      var i :| 0 <= i < |c| && RawOf(fl, c)[i] == raw;
      assert c[i] in c;
      var p :| p in ps && p != [] && c[i] == Normalize(p);
      NormalizeCounts(fl, p);
    }
  }

  lemma NormalizeCounts(fl: Floats, p: Polygon)
    requires p != [] && SmallPolygon(RING_LIMIT, p)
    ensures RingCounts(RawPolygonOf(fl, Rings(Normalize(p))))
  {
    hide NormalRing, SortBy, RingLess;
    var np := Normalize(p);
    SortedHoles(p[1..]);
    SameLength(np.holes, NormalHoles(p[1..]));
    forall r | r in Rings(np)
      ensures |r| <= RING_LIMIT + 1
    {
      if r == np.exterior {
        assert p[0] in p;
        NormalRingLength(p[0], true);
      } else {
        assert r in multiset(np.holes);
        var i :| 0 <= i < |p[1..]| && NormalHoles(p[1..])[i] == r;
        assert p[1..][i] in p;
        NormalRingLength(p[1..][i], false);
      }
    }
    forall raw | raw in RawPolygonOf(fl, Rings(np))
      ensures |raw| < U32_LIMIT
    {
      var i :| 0 <= i < |Rings(np)| && RawPolygonOf(fl, Rings(np))[i] == raw;
      assert Rings(np)[i] in Rings(np);
    }
  }

  /** Canonical well-known binary: quantize, canonicalize, write as a little-endian multipolygon. */
  function CanonicalWkb(fl: Floats, data: seq<byte>): Result<seq<byte>, WkbError> {
    var ps :- Rounded(fl, data);
    RoundedSmall(fl, data);
    CanonicalCountable(fl, ps);
    Ok(EncodeGeometry(RawOf(fl, Canonical(ps))))
  }

  /** Writing faithful rings and quantizing them again gives the rings back. */
  lemma RoundRaw(fl: Floats, r: Ring)
    requires FaithfulRing(fl, r)
    ensures RoundRing(fl, RawRingOf(fl, r)) == Ok(r) && AllFinite(fl.finite, RawRingOf(fl, r))
  {
    var raw := RawRingOf(fl, r);
    forall q | q in raw
      ensures fl.Quantize(q.x).Some? && fl.Quantize(q.y).Some? && fl.finite(q.x) && fl.finite(q.y)
    {
      var i :| 0 <= i < |raw| && raw[i] == q;
      assert r[i] in r;
    }
    assert Quantizable(fl, raw);
    forall i | 0 <= i < |r|
      ensures raw[i] in raw && RoundPoint(fl, raw[i]) == r[i]
    {
      assert r[i] in r;
    }
    assert RoundRing(fl, raw).value == r;
  }

  lemma {:induction false} RoundRawRings(fl: Floats, p: Polygon)
    requires forall r :: r in p ==> FaithfulRing(fl, r)
    ensures RoundRings(fl, RawPolygonOf(fl, p)) == Ok(p) && FinitePolygon(fl.finite, RawPolygonOf(fl, p))
    decreases |p|
  {
    hide FaithfulRing, RoundRing, RawRingOf, AllFinite;
    if p != [] {
      assert p[0] in p && forall r :: r in p[1..] ==> r in p;
      RoundRaw(fl, p[0]);
      RoundRawRings(fl, p[1..]);
      assert RawPolygonOf(fl, p) == [RawRingOf(fl, p[0])] + RawPolygonOf(fl, p[1..]);
      assert RawPolygonOf(fl, p)[1..] == RawPolygonOf(fl, p[1..]);
      assert p == [p[0]] + p[1..];
    }
  }

  lemma EveryNormalAt(c: seq<NormalPolygon>, good: Ring -> bool, np: NormalPolygon, r: Ring)
    requires EveryNormalRing(c, good) && np in c && r in Rings(np)
    ensures good(r)
  {
  }

  lemma {:induction false} RoundRawPolygons(fl: Floats, c: seq<NormalPolygon>)
    requires EveryNormalRing(c, r => FaithfulRing(fl, r))
    ensures RoundPolygons(fl, RawOf(fl, c)) == Ok(RingsAll(c))
    ensures forall raw :: raw in RawOf(fl, c) ==> FinitePolygon(fl.finite, raw)
    decreases |c|
  {
    hide FaithfulRing, RoundRings, RawPolygonOf, FinitePolygon, Rings;
    if c != [] {
      assert c[0] in c && forall np :: np in c[1..] ==> np in c;
      forall r | r in Rings(c[0])
        ensures FaithfulRing(fl, r)
      {
        EveryNormalAt(c, r => FaithfulRing(fl, r), c[0], r);
      }
      RoundRawRings(fl, Rings(c[0]));
      RoundRawPolygons(fl, c[1..]);
      assert RawOf(fl, c) == [RawPolygonOf(fl, Rings(c[0]))] + RawOf(fl, c[1..]);
      assert RawOf(fl, c)[1..] == RawOf(fl, c[1..]);
      assert RingsAll(c) == [Rings(c[0])] + RingsAll(c[1..]);
    }
  }

  /** No ring has so many points that closing it passes the reader's limit. */
  ghost predicate NoFullRing(ps: seq<Polygon>) {
    EveryRing(ps, r => |Open(r)| < RING_LIMIT)
  }

  lemma FitsIffNotFull(fl: Floats, ps: seq<Polygon>)
    requires HasExteriors(ps)
    ensures AllRingsFit(RING_LIMIT, RawOf(fl, Canonical(ps))) <==> NoFullRing(ps)
  {
    hide NormalRing, Canonical, Open;
    var before := (r: Ring) => |Open(r)| < RING_LIMIT;
    var after := (r: Ring) => |r| <= RING_LIMIT;
    forall r, e
      ensures before(r) <==> after(NormalRing(r, e))
    {
      NormalRingLength(r, e);
    }
    CanonicalRings(ps, before, after);
    EveryRingSame(ps, before, r => |Open(r)| < RING_LIMIT);
    RawFits(fl, Canonical(ps), after);
  }

  lemma RawFits(fl: Floats, c: seq<NormalPolygon>, after: Ring -> bool)
    requires forall r :: after(r) <==> |r| <= RING_LIMIT
    ensures AllRingsFit(RING_LIMIT, RawOf(fl, c)) <==> EveryNormalRing(c, after)
  {
    hide Rings;
    if AllRingsFit(RING_LIMIT, RawOf(fl, c)) {
      forall np, r | np in c && r in Rings(np)
        ensures after(r)
      {
        var i :| 0 <= i < |c| && c[i] == np;
        var j :| 0 <= j < |Rings(np)| && Rings(np)[j] == r;
        assert RawOf(fl, c)[i] in RawOf(fl, c);
        assert RawOf(fl, c)[i][j] in RawOf(fl, c)[i];
      }
    }
    if EveryNormalRing(c, after) {
      forall raw, rr | raw in RawOf(fl, c) && rr in raw
        ensures |rr| <= RING_LIMIT
      {
        var i :| 0 <= i < |c| && RawOf(fl, c)[i] == raw;
        var j :| 0 <= j < |raw| && raw[j] == rr;
        assert c[i] in c && Rings(c[i])[j] in Rings(c[i]);
      }
    }
  }

  /** Reading the canonical bytes gives the canonical rings, unless a ring is full. */
  lemma RoundedCanonical(fl: Floats, ps: seq<Polygon>)
    requires HasExteriors(ps) && Small(RING_LIMIT, ps) && FaithfulAll(fl, ps)
    ensures Countable(RawOf(fl, Canonical(ps)))
    ensures Rounded(fl, EncodeGeometry(RawOf(fl, Canonical(ps)))) ==
            if NoFullRing(ps) then Ok(RingsAll(Canonical(ps))) else Err(RingSize)
  {
    hide Canonical, RawOf, EncodeGeometry, ParseGeometry, NoFullRing, AllRingsFit, Countable, FaithfulAll, Small, FinitePolygon;
    CanonicalCountable(fl, ps);
    FaithfulCanonical(fl, ps);
    RoundRawPolygons(fl, Canonical(ps));
    GeometryRoundTrip(fl.finite, RING_LIMIT, RawOf(fl, Canonical(ps)));
    FitsIffNotFull(fl, ps);
  }

  /** Idempotence, given that coordinates survive being written and read. */
  lemma FaithfulIdempotent(fl: Floats, data: seq<byte>)
    requires CanonicalWkb(fl, data).Ok? && FaithfulAll(fl, Rounded(fl, data).value)
    ensures CanonicalWkb(fl, CanonicalWkb(fl, data).value) ==
            if NoFullRing(Rounded(fl, data).value) then CanonicalWkb(fl, data) else Err(RingSize)
  {
    hide Canonical, RawOf, EncodeGeometry, Rounded, NoFullRing, Countable, FaithfulAll, Small;
    var ps := Rounded(fl, data).value;
    RoundedSmall(fl, data);
    RoundedCanonical(fl, ps);
    CanonicalIdempotent(ps);
  }

  /** One result for exactly the presentations of one geometry, given the same. */
  lemma FaithfulComplete(fl: Floats, a: seq<byte>, b: seq<byte>)
    requires CanonicalWkb(fl, a).Ok? && FaithfulAll(fl, Rounded(fl, a).value)
    requires CanonicalWkb(fl, b).Ok? && FaithfulAll(fl, Rounded(fl, b).value)
    ensures CanonicalWkb(fl, a) == CanonicalWkb(fl, b) <==> SameGeometry(Rounded(fl, a).value, Rounded(fl, b).value)
  {
    hide Canonical, EncodeGeometry, Rounded, Countable, FaithfulAll, SameGeometry, EveryNormalRing, RoundPolygons, RawOf, FinitePolygon, RingsAll, Small;
    var ps, qs := Rounded(fl, a).value, Rounded(fl, b).value;
    RoundedSmall(fl, a);
    RoundedSmall(fl, b);
    CanonicalCountable(fl, ps);
    CanonicalCountable(fl, qs);
    CanonicalComplete(ps, qs);
    if CanonicalWkb(fl, a) == CanonicalWkb(fl, b) {
      FaithfulCanonical(fl, ps);
      FaithfulCanonical(fl, qs);
      RoundRawPolygons(fl, Canonical(ps));
      RoundRawPolygons(fl, Canonical(qs));
      EncodeInjective(fl.finite, RawOf(fl, Canonical(ps)), RawOf(fl, Canonical(qs)));
      RingsAllInjective(Canonical(ps), Canonical(qs));
    }
  }

  lemma RingsAllInjective(a: seq<NormalPolygon>, b: seq<NormalPolygon>)
    requires RingsAll(a) == RingsAll(b)
    ensures a == b
  {
    assert |a| == |RingsAll(a)| == |RingsAll(b)| == |b|;
    forall i | 0 <= i < |a|
      ensures a[i] == b[i]
    {
      assert RingsAll(a)[i] == RingsAll(b)[i];
      assert Rings(a[i])[1..] == a[i].holes && Rings(b[i])[1..] == b[i].holes;
    }
  }

  // ---- A ring that is too full ---------------------------------------------------------------------------

  /** Ten million points: (1, 0), then (0, 0) over and over. */
  function FullRing(): (r: Ring)
    ensures |r| == RING_LIMIT
  {
    seq(RING_LIMIT, i => if i == 0 then Point(1, 0) else Point(0, 0))
  }

  /** An accepted input whose canonical bytes are refused. */
  lemma FullRingNotIdempotent(fl: Floats)
    requires fl.Faithful(0) && fl.Faithful(1)
    ensures var np := NormalPolygon(FullRing(), []);
            && Countable(RawOf(fl, [np]))
            && var data := EncodeGeometry(RawOf(fl, [np]));
               && CanonicalWkb(fl, data).Ok?
               && CanonicalWkb(fl, CanonicalWkb(fl, data).value) == Err(RingSize)
  {
    hide EncodeGeometry, ParseGeometry;
    var full := FullRing();
    var np := NormalPolygon(full, []);
    var c := [np];
    assert FaithfulRing(fl, full);
    assert forall p, r :: p in c && r in Rings(p) ==> r == full;
    RoundRawPolygons(fl, c);
    assert Countable(RawOf(fl, c)) && AllRingsFit(RING_LIMIT, RawOf(fl, c)) by {
      assert forall raw :: raw in RawOf(fl, c) ==> raw == RawPolygonOf(fl, Rings(np));
      assert forall rr :: rr in RawPolygonOf(fl, Rings(np)) ==> rr == RawRingOf(fl, full);
    }
    GeometryRoundTrip(fl.finite, RING_LIMIT, RawOf(fl, c));
    var data := EncodeGeometry(RawOf(fl, c));
    assert Rounded(fl, data) == Ok(RingsAll(c));
    var ps := RingsAll(c);
    assert FaithfulAll(fl, ps) by {
      assert forall p, r :: p in ps && r in p ==> r == full;
    }
    assert !NoFullRing(ps) by {
      assert ps[0] in ps && full in ps[0];
      assert full[0] != full[|full| - 1];
      assert |Open(full)| == RING_LIMIT;
    }
    FaithfulIdempotent(fl, data);
  }
}
