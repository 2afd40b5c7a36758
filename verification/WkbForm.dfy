/** What canonical rings and polygons look like, said of their points. */
module WkbForm {
  import opened Bytes
  import opened LexOrder
  import opened WkbRing
  import opened WkbCanonical

  // ---- Orientation ------------------------------------------------------------------------

  /** Twice the signed area of a triangle: positive when a, b, c run counter-clockwise. */
  function Triangle(a: Point, b: Point, c: Point): int {
    (b.x - a.x) * (c.y - a.y) - (c.x - a.x) * (b.y - a.y)
  }

  lemma CrossTriangle(a: Point, b: Point, c: Point)
    ensures Cross(b, c) + Cross(c, a) - Cross(b, a) == Triangle(a, b, c)
  {
  }

  lemma CrossOpposite(a: Point, b: Point)
    ensures Cross(a, a) == 0 && Cross(a, b) + Cross(b, a) == 0
  {
  }

  lemma PathStep(path: Ring, q: Point)
    requires path != []
    ensures PathSum(path + [q]) == PathSum(path) + Cross(path[|path| - 1], q)
  {
    assert (path + [q])[..|path|] == path;
  }

  /** The area of a ring is that of the triangles it fans into from its first point. */
  lemma AreaFan(r: Ring, p: Point)
    requires r != []
    ensures SignedArea(r + [p]) == SignedArea(r) + Triangle(r[0], r[|r| - 1], p)
    ensures SignedArea([p]) == 0
  {
    hide Cross;
    AreaOfPoint(p);
    var n := |r| - 1;
    PathStep(r, p);
    PathStep(r + [p], r[0]);
    PathStep(r, r[0]);
    CrossTriangle(r[0], r[n], p);
    CrossOpposite(r[0], r[n]);
  }

  lemma AreaOfPoint(p: Point)
    ensures SignedArea([p]) == 0
  {
    PathStep([p], p);
    CrossOpposite(p, p);
  }

  /** A normal exterior ring does not run clockwise, a normal hole not counter-clockwise, and the area is kept. */
  lemma NormalOrientation(r: Ring, exterior: bool)
    ensures var s := NormalRing(r, exterior);
            && Open(s) == Opened(s)
            && (if exterior then SignedArea(Opened(s)) >= 0 else SignedArea(Opened(s)) <= 0)
            && Magnitude(SignedArea(Opened(s))) == Magnitude(SignedArea(Open(r)))
  {
    hide SignedArea, LeastRotation, Reverse;
    var o := Orient(Open(r), exterior);
    CloseOpen(LeastRotation(o));
    LeastRotationExact(o);
    AreaOfSame(o, LeastRotation(o));
    AreaOfReverse(Open(r));
  }

  // ---- Orders, by the first difference ----------------------------------------------------

  /** Lists of equally many numbers, compared at the first difference. */
  ghost predicate NumbersBefore(a: seq<int>, b: seq<int>) {
    |a| == |b| && exists k :: 0 <= k < |a| && a[k] < b[k] && forall i :: 0 <= i < k ==> a[i] == b[i]
  }

  /** Paths, compared at the first different point, by x and then y; a proper prefix comes first. */
  ghost predicate PathBefore(a: Ring, b: Ring) {
    exists k :: Parts(a, b, k)
  }

  predicate Parts(a: Ring, b: Ring, k: int) {
    && 0 <= k <= |a| && k < |b| && a[..k] == b[..k]
    && (k < |a| ==> a[k].x < b[k].x || (a[k].x == b[k].x && a[k].y < b[k].y))
  }

  lemma SameStart<T>(a: seq<T>, b: seq<T>, k: nat)
    requires 0 < k <= |a| && k <= |b| && a[..k] == b[..k]
    ensures a[0] == b[0]
  {
    assert a[..k][0] == b[..k][0];
  }

  lemma {:induction false} PathOrder(a: Ring, b: Ring)
    ensures PointsLess(a, b) <==> PathBefore(a, b)
    decreases |a|
  {
    if b != [] && a != [] && a[0] == b[0] {
      PathOrder(a[1..], b[1..]);
      if PathBefore(a[1..], b[1..]) {
        var k :| Parts(a[1..], b[1..], k);
        assert a[..k + 1] == [a[0]] + a[1..][..k] && b[..k + 1] == [b[0]] + b[1..][..k];
        assert Parts(a, b, k + 1);
      }
      if PathBefore(a, b) {
        var k :| Parts(a, b, k);
        assert k > 0;
        assert a[1..][..k - 1] == a[..k][1..] && b[1..][..k - 1] == b[..k][1..];
        assert Parts(a[1..], b[1..], k - 1);
      }
    } else if b != [] {
      if PointsLess(a, b) {
        assert Parts(a, b, 0);
      }
      if PathBefore(a, b) {
        var k :| Parts(a, b, k);
        if k > 0 {
          SameStart(a, b, k);
        }
      }
    }
  }

  lemma {:induction false} NumberOrder(a: seq<int>, b: seq<int>)
    requires |a| == |b|
    ensures IntsLess(a, b) <==> NumbersBefore(a, b)
  {
    if a != [] {
      NumberOrder(a[1..], b[1..]);
      if a[0] == b[0] && NumbersBefore(a[1..], b[1..]) {
        var k :| 0 <= k < |a[1..]| && a[1..][k] < b[1..][k] && forall i :: 0 <= i < k ==> a[1..][i] == b[1..][i];
        assert a[k + 1] < b[k + 1];
        forall i | 0 <= i < k + 1
          ensures a[i] == b[i]
        {
          assert i > 0 ==> a[1..][i - 1] == b[1..][i - 1];
        }
      }
      if NumbersBefore(a, b) {
        var k :| 0 <= k < |a| && a[k] < b[k] && forall i :: 0 <= i < k ==> a[i] == b[i];
        if k > 0 {
          assert a[1..][k - 1] < b[1..][k - 1];
          assert forall i :: 0 <= i < k - 1 ==> a[1..][i] == b[1..][i];
        }
      }
    }
  }

  // ---- Start points -----------------------------------------------------------------------

  /** No other start point gives an earlier path. */
  ghost predicate EarliestStart(open: Ring) {
    forall k :: 0 <= k <= |open| ==> !PathBefore(open[k..] + open[..k], open)
  }

  lemma NormalStart(r: Ring, exterior: bool)
    ensures EarliestStart(Opened(NormalRing(r, exterior)))
  {
    hide PathBefore, PointsLess;
    var o := Orient(Open(r), exterior);
    var s := LeastRotation(o);
    CloseOpen(s);
    LeastRotationExact(o);
    forall k | 0 <= k <= |s|
      ensures !PathBefore(s[k..] + s[..k], s)
    {
      assert s[k..] + s[..k] == Rotate(s, k);
      assert IsRotation(s, Rotate(s, k));
      RotationTransitive(o, s, Rotate(s, k));
      PathOrder(Rotate(s, k), s);
    }
  }

  /** So it starts at its leftmost point, the lowest of those. */
  lemma StartsLeftmost(open: Ring, i: nat)
    requires EarliestStart(open) && i < |open|
    ensures open[0].x < open[i].x || (open[0].x == open[i].x && open[0].y <= open[i].y)
  {
    var s := open[i..] + open[..i];
    if !(open[0].x < open[i].x || (open[0].x == open[i].x && open[0].y <= open[i].y)) {
      assert Parts(s, open, 0);
    }
  }

  // ---- Bounding boxes ---------------------------------------------------------------------

  ghost predicate LeastIs(v: int, values: seq<int>) {
    v in values && forall i :: 0 <= i < |values| ==> v <= values[i]
  }

  ghost predicate GreatestIs(v: int, values: seq<int>) {
    v in values && forall i :: 0 <= i < |values| ==> values[i] <= v
  }

  lemma {:induction false} LeastOfExact(values: seq<int>, default: int)
    requires values != []
    ensures LeastIs(LeastOf(values, default), values)
  {
    var last := |values| - 1;
    if last > 0 {
      LeastOfExact(values[..last], default);
      assert LeastOf(values[..last], default) in values;
    }
  }

  lemma {:induction false} GreatestOfExact(values: seq<int>, default: int)
    requires values != []
    ensures GreatestIs(GreatestOf(values, default), values)
  {
    var last := |values| - 1;
    if last > 0 {
      GreatestOfExact(values[..last], default);
      assert GreatestOf(values[..last], default) in values;
    }
  }

  /** The least x and y and the greatest x and y of the points; with no point, the extremes of 64 bits. */
  ghost predicate IsBox(box: seq<int>, open: Ring) {
    |box| == 4 &&
    if open == [] then
      box == [9_223_372_036_854_775_807, 9_223_372_036_854_775_807, -9_223_372_036_854_775_808, -9_223_372_036_854_775_808]
    else
      && (forall p :: p in open ==> box[0] <= p.x <= box[2] && box[1] <= p.y <= box[3])
      && (exists p :: p in open && p.x == box[0]) && (exists p :: p in open && p.y == box[1])
      && (exists p :: p in open && p.x == box[2]) && (exists p :: p in open && p.y == box[3])
  }

  lemma BoxExact(open: Ring)
    ensures IsBox(BoundingBox(open), open)
  {
    if open != [] {
      var xs, ys := Xs(open), Ys(open);
      LeastOfExact(xs, 0x7FFF_FFFF_FFFF_FFFF);
      LeastOfExact(ys, 0x7FFF_FFFF_FFFF_FFFF);
      GreatestOfExact(xs, -0x8000_0000_0000_0000);
      GreatestOfExact(ys, -0x8000_0000_0000_0000);
      hide LeastOf, GreatestOf;
      BoxOfExtremes(BoundingBox(open), open);
    }
  }

  lemma BoxOfExtremes(box: seq<int>, open: Ring)
    requires open != [] && |box| == 4
    requires LeastIs(box[0], Xs(open)) && LeastIs(box[1], Ys(open)) && GreatestIs(box[2], Xs(open)) && GreatestIs(box[3], Ys(open))
    ensures IsBox(box, open)
  {
    CoordinatesIn(open);
    hide Xs, Ys;
    forall p | p in open
      ensures box[0] <= p.x <= box[2] && box[1] <= p.y <= box[3]
    {
      var i :| 0 <= i < |Xs(open)| && Xs(open)[i] == p.x;
      var j :| 0 <= j < |Ys(open)| && Ys(open)[j] == p.y;
    }
  }

  lemma CoordinatesIn(open: Ring)
    ensures forall v :: v in Xs(open) ==> exists p :: p in open && p.x == v
    ensures forall v :: v in Ys(open) ==> exists p :: p in open && p.y == v
    ensures forall p :: p in open ==> p.x in Xs(open) && p.y in Ys(open)
  {
    forall v | v in Xs(open)
      ensures exists p :: p in open && p.x == v
    {
      var i :| 0 <= i < |open| && Xs(open)[i] == v;
      assert open[i] in open;
    }
    forall v | v in Ys(open)
      ensures exists p :: p in open && p.y == v
    {
      var i :| 0 <= i < |open| && Ys(open)[i] == v;
      assert open[i] in open;
    }
    forall p | p in open
      ensures p.x in Xs(open) && p.y in Ys(open)
    {
      var i :| 0 <= i < |open| && open[i] == p;
      assert Xs(open)[i] == p.x && Ys(open)[i] == p.y;
    }
  }

  // ---- Canonical polygons -----------------------------------------------------------------

  /** A closed ring running the right way round from its earliest start. */
  ghost predicate RingFormed(r: Ring, exterior: bool) {
    && IsClosed(r) && EarliestStart(Opened(r))
    && (if exterior then SignedArea(Opened(r)) >= 0 else SignedArea(Opened(r)) <= 0)
  }

  /** The numbers a hole is sorted by: its box and its signed area. */
  ghost predicate HoleNumbers(r: Ring, numbers: seq<int>) {
    |numbers| == 5 && IsBox(numbers[..4], Opened(r)) && numbers[4] == SignedArea(Opened(r))
  }

  /** The numbers a polygon is sorted by: the box of its exterior, its net area and its number of holes. */
  ghost predicate PolygonNumbers(p: NormalPolygon, numbers: seq<int>) {
    && |numbers| == 6 && IsBox(numbers[..4], Opened(p.exterior))
    && numbers[4] == Magnitude(SignedArea(Opened(p.exterior))) - TotalArea(p.holes)
    && numbers[5] == |p.holes|
  }

  /** The areas of the rings, added up. */
  ghost function TotalArea(rings: seq<Ring>): nat {
    if rings == [] then 0 else Magnitude(SignedArea(Opened(rings[0]))) + TotalArea(rings[1..])
  }

  lemma {:induction false} HoleAreaTotal(a: seq<Ring>, b: seq<Ring>)
    ensures HoleArea(a + b) == HoleArea(a) + TotalArea(b)
    decreases |b|
  {
    hide SignedArea, Opened;
    if b == [] {
      assert a + b == a;
    } else {
      HoleAreaTotal(a + [b[0]], b[1..]);
      assert a + [b[0]] + b[1..] == a + b;
      assert (a + [b[0]])[..|a|] == a;
    }
  }

  /** By numbers, and then by points. */
  ghost predicate HoleFollows(a: Ring, b: Ring) {
    exists m, n :: HoleNumbers(a, m) && HoleNumbers(b, n) &&
                   (NumbersBefore(m, n) || (m == n && !PathBefore(Opened(b), Opened(a))))
  }

  ghost predicate PolygonFollows(p: NormalPolygon, q: NormalPolygon) {
    exists m, n :: PolygonNumbers(p, m) && PolygonNumbers(q, n) &&
                   (NumbersBefore(m, n) || (m == n && !PathBefore(Opened(q.exterior), Opened(p.exterior))))
  }

  ghost predicate PolygonFormed(p: NormalPolygon) {
    && RingFormed(p.exterior, true)
    && (forall r :: r in p.holes ==> RingFormed(r, false))
    && (forall i, j :: 0 <= i < j < |p.holes| ==> HoleFollows(p.holes[i], p.holes[j]))
  }

  /** Exteriors counter-clockwise, holes clockwise, every ring closed and started at its earliest point, holes and
      polygons in order. */
  ghost predicate Formed(ps: seq<NormalPolygon>) {
    && (forall p :: p in ps ==> PolygonFormed(p))
    && (forall i, j :: 0 <= i < j < |ps| ==> PolygonFollows(ps[i], ps[j]))
  }

  lemma HoleOrder(a: Ring, b: Ring)
    requires !RingLess(b, a)
    ensures HoleFollows(a, b)
  {
    hide SignedArea, BoundingBox, IntsLess, PointsLess, PathBefore, NumbersBefore, IsBox;
    var m, n := RingKey(a).0, RingKey(b).0;
    BoxExact(Opened(a));
    BoxExact(Opened(b));
    assert m[..4] == BoundingBox(Opened(a)) && n[..4] == BoundingBox(Opened(b));
    assert HoleNumbers(a, m) && HoleNumbers(b, n);
    NumberOrder(m, n);
    PathOrder(Opened(b), Opened(a));
    BaseOrders();
  }

  lemma PolygonNumbersOf(p: NormalPolygon)
    ensures PolygonNumbers(p, PolygonKey(p).0.0)
  {
    hide SignedArea, BoundingBox, IsBox;
    BoxExact(Opened(p.exterior));
    assert PolygonKey(p).0.0[..4] == BoundingBox(Opened(p.exterior));
    HoleAreaTotal([], p.holes);
    assert [] + p.holes == p.holes;
  }

  lemma PolygonOrdered(p: NormalPolygon, q: NormalPolygon)
    requires !PolygonLess(q, p)
    ensures PolygonFollows(p, q)
  {
    hide SignedArea, BoundingBox, HoleArea, HoleKeys, PathBefore, NumbersBefore, PolygonNumbers;
    var m, n := PolygonKey(p).0.0, PolygonKey(q).0.0;
    PolygonNumbersOf(p);
    PolygonNumbersOf(q);
    NumberOrder(m, n);
    PathOrder(Opened(q.exterior), Opened(p.exterior));
    KeyParts(PolygonKey(p), PolygonKey(q));
  }

  /** A polygon key that is not after another is before it in its numbers, or equal in them and not after in its points. */
  lemma KeyParts(k: PolygonKeyType, l: PolygonKeyType)
    requires !PolygonKeyLess(l, k)
    ensures IntsLess(k.0.0, l.0.0) || (k.0.0 == l.0.0 && !PointsLess(l.0.1, k.0.1))
  {
    hide IntsLess, PointsLess, RingKeysLess;
    BaseOrders();
  }

  lemma NormalRingFormed(r: Ring, exterior: bool)
    ensures RingFormed(NormalRing(r, exterior), exterior)
  {
    hide NormalRing, EarliestStart, SignedArea;
    NormalOrientation(r, exterior);
    NormalStart(r, exterior);
    NormalRingIdempotent(r, exterior);
  }

  lemma NormalizeFormed(p: Polygon)
    requires p != []
    ensures PolygonFormed(Normalize(p))
  {
    hide NormalRing, RingFormed, RingLess, SortBy, HoleFollows, IsClosed;
    var np := Normalize(p);
    NormalRingFormed(p[0], true);
    SortedHoles(p[1..]);
    forall r | r in np.holes
      ensures RingFormed(r, false)
    {
      assert r in multiset(np.holes);
      var i :| 0 <= i < |p[1..]| && NormalHoles(p[1..])[i] == r;
      NormalRingFormed(p[1..][i], false);
    }
    forall i, j | 0 <= i < j < |np.holes|
      ensures HoleFollows(np.holes[i], np.holes[j])
    {
      HoleOrder(np.holes[i], np.holes[j]);
    }
  }

  /** Canonical polygons have the form. */
  lemma CanonicalFormed(ps: seq<Polygon>)
    requires HasExteriors(ps)
    ensures Formed(Canonical(ps))
  {
    hide Normalize, PolygonFormed, PolygonFollows, PolygonLess, Canonical;
    var c := Canonical(ps);
    CanonicalContents(ps);
    forall np | np in c
      ensures PolygonFormed(np)
    {
      var p :| p in ps && p != [] && np == Normalize(p);
      NormalizeFormed(p);
    }
    forall i, j | 0 <= i < j < |c|
      ensures PolygonFollows(c[i], c[j])
    {
      PolygonOrdered(c[i], c[j]);
    }
  }
}
