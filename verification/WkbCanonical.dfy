/** The canonical form of polygons and multipolygons, over quantized rings. */
module WkbCanonical {
  import opened Bytes
  import opened LexOrder
  import opened WkbRing

  type Polygon = seq<Ring>

  type RingKeyType = (seq<int>, Ring)
  type PolygonKeyType = (RingKeyType, seq<RingKeyType>)

  // ---- Sort keys --------------------------------------------------------------------------

  function LeastOf(values: seq<int>, default: int): int {
    if values == [] then default
    else if |values| == 1 || values[|values| - 1] < LeastOf(values[..|values| - 1], default) then values[|values| - 1]
    else LeastOf(values[..|values| - 1], default)
  }

  function GreatestOf(values: seq<int>, default: int): int {
    if values == [] then default
    else if |values| == 1 || values[|values| - 1] > GreatestOf(values[..|values| - 1], default) then values[|values| - 1]
    else GreatestOf(values[..|values| - 1], default)
  }

  function Xs(r: Ring): seq<int> {
    seq(|r|, i requires 0 <= i < |r| => r[i].x)
  }

  function Ys(r: Ring): seq<int> {
    seq(|r|, i requires 0 <= i < |r| => r[i].y)
  }

  /** A ring without its last point. */
  function Opened(r: Ring): Ring {
    if r == [] then r else r[..|r| - 1]
  }

  function BoundingBox(open: Ring): (box: seq<int>)
    ensures |box| == 4
  {
    [LeastOf(Xs(open), 0x7FFF_FFFF_FFFF_FFFF), LeastOf(Ys(open), 0x7FFF_FFFF_FFFF_FFFF),
     GreatestOf(Xs(open), -0x8000_0000_0000_0000), GreatestOf(Ys(open), -0x8000_0000_0000_0000)]
  }

  /** Bounding box, area, then the points. */
  function RingKey(r: Ring): RingKeyType {
    (BoundingBox(Opened(r)) + [SignedArea(Opened(r))], Opened(r))
  }

  predicate RingKeyLess(a: RingKeyType, b: RingKeyType) {
    PairLess(IntsLess, PointsLess, a, b)
  }

  predicate RingKeysLess(a: seq<RingKeyType>, b: seq<RingKeyType>) {
    LexLess(RingKeyLess, a, b)
  }

  predicate PolygonKeyLess(a: PolygonKeyType, b: PolygonKeyType) {
    PairLess(RingKeyLess, RingKeysLess, a, b)
  }

  predicate RingLess(a: Ring, b: Ring) {
    RingKeyLess(RingKey(a), RingKey(b))
  }

  datatype NormalPolygon = NormalPolygon(exterior: Ring, holes: seq<Ring>)

  function Magnitude(x: int): nat {
    if x < 0 then -x else x
  }

  function HoleArea(holes: seq<Ring>): int {
    if holes == [] then 0 else HoleArea(holes[..|holes| - 1]) + Magnitude(SignedArea(Opened(holes[|holes| - 1])))
  }

  function NetArea(p: NormalPolygon): int {
    Magnitude(SignedArea(Opened(p.exterior))) - HoleArea(p.holes)
  }

  function HoleKeys(holes: seq<Ring>): (s: seq<RingKeyType>)
    ensures |s| == |holes|
  {
    seq(|holes|, i requires 0 <= i < |holes| => RingKey(holes[i]))
  }

  /** Bounding box, net area, number of holes, exterior points, then the holes' keys. */
  function PolygonKey(p: NormalPolygon): PolygonKeyType {
    ((BoundingBox(Opened(p.exterior)) + [NetArea(p), |p.holes|], Opened(p.exterior)), HoleKeys(p.holes))
  }

  predicate PolygonLess(a: NormalPolygon, b: NormalPolygon) {
    PolygonKeyLess(PolygonKey(a), PolygonKey(b))
  }

  lemma KeyOrders()
    ensures StrictTotal(RingKeyLess) && StrictTotal(PolygonKeyLess)
  {
    hide LexLess, PairLess;
    BaseOrders();
    PairExtends(IntsLess, PointsLess, RingKeyLess) by {
      KeyPairReveal();
    }
    LexExtends(RingKeyLess, RingKeysLess) by {
      KeyPairReveal();
    }
    PairExtends(RingKeyLess, RingKeysLess, PolygonKeyLess) by {
      KeyPairReveal();
    }
  }

  lemma KeyPairReveal()
    ensures forall p, q :: RingKeyLess(p, q) == PairLess(IntsLess, PointsLess, p, q)
    ensures forall p, q :: RingKeysLess(p, q) == LexLess(RingKeyLess, p, q)
    ensures forall p, q :: PolygonKeyLess(p, q) == PairLess(RingKeyLess, RingKeysLess, p, q)
  {
  }

  /** Ordering elements by a totally ordered key orders them weakly, and orders different keys. */
  lemma KeyedWeak<T(!new), K(!new)>(less: (K, K) -> bool, key: T -> K, keyed: (T, T) -> bool)
    requires StrictTotal(less) && forall a, b :: keyed(a, b) == less(key(a), key(b))
    ensures StrictWeak(keyed)
    ensures forall a, b :: key(a) != key(b) ==> keyed(a, b) || keyed(b, a)
  {
    forall a, b, c | !keyed(b, a) && !keyed(c, b)
      ensures !keyed(c, a)
    {
      assert key(a) == key(b) || less(key(a), key(b));
      assert key(b) == key(c) || less(key(b), key(c));
    }
  }

  ghost predicate AllClosed(rings: seq<Ring>) {
    forall r :: r in rings ==> IsClosed(r)
  }

  predicate NormalShape(p: NormalPolygon) {
    IsClosed(p.exterior) && forall r :: r in p.holes ==> IsClosed(r)
  }

  /** The points of a ring's key determine a closed ring. */
  lemma RingKeyInjective(a: Ring, b: Ring)
    requires IsClosed(a) && IsClosed(b) && RingKey(a) == RingKey(b)
    ensures a == b
  {
    assert Opened(a) == Opened(b);
    if a != [] {
      assert a == Opened(a) + [a[0]];
      assert b == Opened(b) + [b[0]];
    }
  }

  lemma RingOrder()
    ensures StrictWeak(RingLess)
    ensures forall rings :: AllClosed(rings) ==> Comparable(RingLess, rings)
  {
    hide RingKey, RingKeyLess, IsClosed;
    KeyOrders();
    KeyedWeak(RingKeyLess, RingKey, RingLess);
    forall rings: seq<Ring> | AllClosed(rings)
      ensures Comparable(RingLess, rings)
    {
      forall a, b | a in rings && b in rings && a != b
        ensures RingLess(a, b) || RingLess(b, a)
      {
        if RingKey(a) == RingKey(b) {
          RingKeyInjective(a, b);
        }
      }
    }
  }

  /** The sort keys determine the content of a polygon with closed rings. */
  lemma PolygonKeyInjective(a: NormalPolygon, b: NormalPolygon)
    requires NormalShape(a) && NormalShape(b) && PolygonKey(a) == PolygonKey(b)
    ensures a == b
  {
    hide SignedArea, BoundingBox, HoleArea;
    assert Opened(a.exterior) == Opened(b.exterior);
    assert HoleKeys(a.holes) == HoleKeys(b.holes);
    assert RingKey(a.exterior) == RingKey(b.exterior);
    RingKeyInjective(a.exterior, b.exterior);
    forall i | 0 <= i < |a.holes|
      ensures a.holes[i] == b.holes[i]
    {
      assert HoleKeys(a.holes)[i] == HoleKeys(b.holes)[i];
      RingKeyInjective(a.holes[i], b.holes[i]);
    }
    assert |a.holes| == |HoleKeys(a.holes)| == |HoleKeys(b.holes)| == |b.holes|;
  }

  ghost predicate AllNormal(ps: seq<NormalPolygon>) {
    forall p :: p in ps ==> NormalShape(p)
  }

  lemma PolygonOrder()
    ensures StrictWeak(PolygonLess)
    ensures forall ps :: AllNormal(ps) ==> Comparable(PolygonLess, ps)
  {
    hide PolygonKey, PolygonKeyLess, NormalShape;
    KeyOrders();
    KeyedWeak(PolygonKeyLess, PolygonKey, PolygonLess);
    forall ps: seq<NormalPolygon> | AllNormal(ps)
      ensures Comparable(PolygonLess, ps)
    {
      forall a, b | a in ps && b in ps && a != b
        ensures PolygonLess(a, b) || PolygonLess(b, a)
      {
        if PolygonKey(a) == PolygonKey(b) {
          PolygonKeyInjective(a, b);
        }
      }
    }
  }

  // ---- The canonical form --------------------------------------------------------------------

  function NormalHoles(holes: seq<Ring>): (s: seq<Ring>)
    ensures |s| == |holes|
  {
    seq(|holes|, i requires 0 <= i < |holes| => NormalRing(holes[i], false))
  }

  /** Canonical exterior, sorted canonical holes. */
  function Normalize(p: Polygon): NormalPolygon
    requires p != []
  {
    NormalPolygon(NormalRing(p[0], true), SortBy(RingLess, NormalHoles(p[1..])))
  }

  predicate HasExteriors(ps: seq<Polygon>) {
    forall p :: p in ps ==> p != []
  }

  function NormalizeAll(ps: seq<Polygon>): (s: seq<NormalPolygon>)
    requires HasExteriors(ps)
    ensures |s| == |ps|
  {
    seq(|ps|, i requires 0 <= i < |ps| => assert ps[i] in ps; Normalize(ps[i]))
  }

  function Canonical(ps: seq<Polygon>): seq<NormalPolygon>
    requires HasExteriors(ps)
  {
    SortBy(PolygonLess, NormalizeAll(ps))
  }

  /** A canonical polygon, as a list of rings. */
  function Rings(p: NormalPolygon): (s: Polygon)
    ensures s != []
  {
    [p.exterior] + p.holes
  }

  function RingsAll(ps: seq<NormalPolygon>): (s: seq<Polygon>)
    ensures |s| == |ps| && HasExteriors(s)
  {
    seq(|ps|, i requires 0 <= i < |ps| => Rings(ps[i]))
  }

  // ---- Idempotence -----------------------------------------------------------------------------

  lemma NormalHolesClosed(holes: seq<Ring>)
    ensures AllClosed(NormalHoles(holes))
  {
    hide NormalRing, IsClosed;
    forall r | r in NormalHoles(holes)
      ensures IsClosed(r)
    {
      var i :| 0 <= i < |holes| && NormalHoles(holes)[i] == r;
      NormalRingIdempotent(holes[i], false);
    }
  }

  lemma SortedHoles(holes: seq<Ring>)
    ensures var s := SortBy(RingLess, NormalHoles(holes));
            && AllClosed(s) && Sorted(RingLess, s) && Comparable(RingLess, s)
            && multiset(s) == multiset(NormalHoles(holes))
  {
    hide RingLess, NormalHoles, IsClosed;
    RingOrder();
    NormalHolesClosed(holes);
    SortContents(RingLess, NormalHoles(holes));
    SortSorted(RingLess, NormalHoles(holes));
    var s := SortBy(RingLess, NormalHoles(holes));
    forall r | r in s
      ensures IsClosed(r)
    {
      assert r in multiset(s);
    }
  }

  lemma NormalizeShape(p: Polygon)
    requires p != []
    ensures NormalShape(Normalize(p))
  {
    hide NormalRing, SortBy, IsClosed, NormalHoles;
    NormalRingIdempotent(p[0], true);
    SortedHoles(p[1..]);
  }

  /** A sorted list of canonical holes canonicalizes to itself. */
  lemma NormalizeIdempotent(p: Polygon)
    requires p != []
    ensures Normalize(Rings(Normalize(p))) == Normalize(p)
  {
    hide NormalRing, SortBy, IsClosed, RingLess;
    var np := Normalize(p);
    NormalRingIdempotent(p[0], true);
    SortedHoles(p[1..]);
    assert Rings(np)[1..] == np.holes;
    forall i | 0 <= i < |np.holes|
      ensures NormalRing(np.holes[i], false) == np.holes[i]
    {
      assert np.holes[i] in multiset(np.holes);
      assert np.holes[i] in NormalHoles(p[1..]);
      var j :| 0 <= j < |p[1..]| && NormalHoles(p[1..])[j] == np.holes[i];
      NormalRingIdempotent(p[1..][j], false);
    }
    assert NormalHoles(np.holes) == np.holes;
    RingOrder();
    SortOfSorted(RingLess, np.holes);
  }

  lemma CanonicalContents(ps: seq<Polygon>)
    requires HasExteriors(ps)
    ensures multiset(Canonical(ps)) == multiset(NormalizeAll(ps))
    ensures Sorted(PolygonLess, Canonical(ps)) && AllNormal(Canonical(ps)) && AllNormal(NormalizeAll(ps))
    ensures forall np :: np in Canonical(ps) ==> exists p :: p in ps && p != [] && np == Normalize(p)
  {
    hide PolygonLess, Normalize, NormalShape;
    PolygonOrder();
    SortContents(PolygonLess, NormalizeAll(ps));
    SortSorted(PolygonLess, NormalizeAll(ps));
    forall np | np in NormalizeAll(ps)
      ensures NormalShape(np) && exists p :: p in ps && p != [] && np == Normalize(p)
    {
      var i :| 0 <= i < |ps| && NormalizeAll(ps)[i] == np;
      assert ps[i] in ps && np == Normalize(ps[i]);
      NormalizeShape(ps[i]);
    }
    forall np | np in Canonical(ps)
      ensures np in NormalizeAll(ps)
    {
      assert np in multiset(Canonical(ps));
    }
  }

  /** Canonicalizing canonical polygons changes nothing. */
  lemma CanonicalIdempotent(ps: seq<Polygon>)
    requires HasExteriors(ps)
    ensures Canonical(RingsAll(Canonical(ps))) == Canonical(ps)
  {
    hide PolygonLess, Normalize, NormalShape, SortBy;
    var c := Canonical(ps);
    CanonicalContents(ps);
    PolygonOrder();
    forall i | 0 <= i < |c|
      ensures Normalize(Rings(c[i])) == c[i]
    {
      assert c[i] in c;
      var p :| p in ps && p != [] && c[i] == Normalize(p);
      NormalizeIdempotent(p);
    }
    assert NormalizeAll(RingsAll(c)) == c;
    SortOfSorted(PolygonLess, c);
  }

  // ---- One result for all presentations -------------------------------------------------------

  /** The same polygon: the same exterior, and the same holes in some order. */
  ghost predicate SamePolygon(p: Polygon, q: Polygon) {
    && p != [] && q != [] && SameRing(p[0], q[0])
    && exists perm: seq<nat> :: HolesMatch(p[1..], q[1..], perm)
  }

  ghost predicate HolesMatch(a: seq<Ring>, b: seq<Ring>, perm: seq<nat>) {
    && |a| == |b| == |perm| && IsPermutation(perm)
    && forall i :: 0 <= i < |a| ==> SameRing(a[i], b[perm[i]])
  }

  /** The same geometry: the same polygons in some order. */
  ghost predicate SameGeometry(ps: seq<Polygon>, qs: seq<Polygon>) {
    exists perm: seq<nat> :: PolygonsMatch(ps, qs, perm)
  }

  ghost predicate PolygonsMatch(ps: seq<Polygon>, qs: seq<Polygon>, perm: seq<nat>) {
    && |ps| == |qs| == |perm| && IsPermutation(perm)
    && forall i :: 0 <= i < |ps| ==> SamePolygon(ps[i], qs[perm[i]])
  }

  /** Canonical holes agree as contents exactly when the holes match up. */
  lemma HolesComplete(a: seq<Ring>, b: seq<Ring>)
    ensures multiset(NormalHoles(a)) == multiset(NormalHoles(b)) <==> exists perm: seq<nat> :: HolesMatch(a, b, perm)
  {
    hide NormalRing, SameRing, IsPermutation;
    if multiset(NormalHoles(a)) == multiset(NormalHoles(b)) {
      var perm := SameContentsRearranged(NormalHoles(a), NormalHoles(b));
      PermutationBound(perm);
      forall i | 0 <= i < |a|
        ensures SameRing(a[i], b[perm[i]])
      {
        NormalRingComplete(a[i], b[perm[i]], false);
      }
      assert HolesMatch(a, b, perm);
    }
    if exists perm: seq<nat> :: HolesMatch(a, b, perm) {
      var perm: seq<nat> :| HolesMatch(a, b, perm);
      PermutationBound(perm);
      forall i | 0 <= i < |a|
        ensures NormalHoles(a)[i] == NormalHoles(b)[perm[i]]
      {
        NormalRingComplete(a[i], b[perm[i]], false);
      }
      RearrangedSameContents(NormalHoles(a), NormalHoles(b), perm);
    }
  }

  lemma PermutationBound(perm: seq<nat>)
    requires IsPermutation(perm)
    ensures forall i :: 0 <= i < |perm| ==> perm[i] < |perm|
  {
  }

  lemma NormalizeComplete(p: Polygon, q: Polygon)
    requires p != [] && q != []
    ensures Normalize(p) == Normalize(q) <==> SamePolygon(p, q)
  {
    hide NormalRing, SameRing, SortBy, RingLess, NormalHoles, HolesMatch;
    NormalRingComplete(p[0], q[0], true);
    HolesComplete(p[1..], q[1..]);
    RingOrder();
    NormalHolesClosed(p[1..]);
    SortedHoles(p[1..]);
    SortedHoles(q[1..]);
    if multiset(NormalHoles(p[1..])) == multiset(NormalHoles(q[1..])) {
      SortPermutation(RingLess, NormalHoles(p[1..]), NormalHoles(q[1..]));
    }
  }

  /** The canonical form is a complete invariant: two geometries get the same form exactly when they differ
      only in ring starts, directions of rings with area, order of holes and order of polygons. */
  lemma CanonicalComplete(ps: seq<Polygon>, qs: seq<Polygon>)
    requires HasExteriors(ps) && HasExteriors(qs)
    ensures Canonical(ps) == Canonical(qs) <==> SameGeometry(ps, qs)
  {
    hide Normalize, SortBy, PolygonLess, SamePolygon, IsPermutation, NormalShape;
    CanonicalContents(ps);
    CanonicalContents(qs);
    PolygonOrder();
    if Canonical(ps) == Canonical(qs) {
      var perm := SameContentsRearranged(NormalizeAll(ps), NormalizeAll(qs));
      PermutationBound(perm);
      forall i | 0 <= i < |ps|
        ensures SamePolygon(ps[i], qs[perm[i]])
      {
        assert ps[i] in ps && qs[perm[i]] in qs;
        NormalizeComplete(ps[i], qs[perm[i]]);
      }
      assert PolygonsMatch(ps, qs, perm);
    }
    if SameGeometry(ps, qs) {
      var perm: seq<nat> :| PolygonsMatch(ps, qs, perm);
      PermutationBound(perm);
      forall i | 0 <= i < |ps|
        ensures NormalizeAll(ps)[i] == NormalizeAll(qs)[perm[i]]
      {
        assert ps[i] in ps && qs[perm[i]] in qs;
        NormalizeComplete(ps[i], qs[perm[i]]);
      }
      RearrangedSameContents(NormalizeAll(ps), NormalizeAll(qs), perm);
      SortPermutation(PolygonLess, NormalizeAll(ps), NormalizeAll(qs));
    }
  }
}
