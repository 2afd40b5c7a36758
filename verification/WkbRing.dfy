/** Rings of quantized points: signed area, rotation, orientation and the canonical form of one ring. */
module WkbRing {
  import opened Bytes
  import opened LexOrder

  datatype Point = Point(x: int, y: int)

  type Ring = seq<Point>

  function Cross(p: Point, q: Point): int {
    p.x * q.y - q.x * p.y
  }

  /** Sum of the cross products along an open path. */
  function PathSum(p: Ring): int {
    if |p| < 2 then 0 else PathSum(p[..|p| - 1]) + Cross(p[|p| - 2], p[|p| - 1])
  }

  /** Twice the signed area of an open ring: the path sum once around. */
  function SignedArea(r: Ring): int {
    if r == [] then 0 else PathSum(r + [r[0]])
  }

  // ---- Area, rotation and reversal -------------------------------------------------------

  /** Paths that share an end point add up. */
  lemma {:induction false} PathConcat(a: Ring, m: Point, b: Ring)
    ensures PathSum(a + [m] + b) == PathSum(a + [m]) + PathSum([m] + b)
  {
    if b == [] {
      assert a + [m] + b == a + [m] && [m] + b == [m];
    } else {
      var n := |b| - 1;
      PathConcat(a, m, b[..n]);
      assert (a + [m] + b)[..|a| + 1 + n] == a + [m] + b[..n];
      assert ([m] + b)[..1 + n] == [m] + b[..n];
    }
  }

  function Rotate<T>(r: seq<T>, k: nat): (s: seq<T>)
    requires k <= |r|
    ensures |s| == |r|
  {
    r[k..] + r[..k]
  }

  /** The shoelace area does not depend on where the ring starts. */
  lemma AreaOfRotation(r: Ring, k: nat)
    requires k <= |r|
    ensures SignedArea(Rotate(r, k)) == SignedArea(r)
  {
    if k == 0 || k == |r| {
      assert Rotate(r, k) == r;
    } else {
      var a, b := r[..k], r[k..];
      PathConcat(a, b[0], b[1..] + [a[0]]);
      PathConcat(b, a[0], a[1..] + [b[0]]);
      assert r + [r[0]] == a + [b[0]] + (b[1..] + [a[0]]);
      assert Rotate(r, k) + [b[0]] == b + [a[0]] + (a[1..] + [b[0]]);
      assert [b[0]] + (b[1..] + [a[0]]) == b + [a[0]];
      assert [a[0]] + (a[1..] + [b[0]]) == a + [b[0]];
    }
  }

  /** A path walked backwards sums to the opposite. */
  lemma {:induction false} PathReversed(p: Ring)
    ensures PathSum(Reverse(p)) == -PathSum(p)
  {
    if |p| < 2 {
    } else {
      var n := |p| - 1;
      var init := p[..n];
      PathReversed(init);
      assert Reverse(p) == [p[n]] + Reverse(init);
      PathConcat([p[n]], p[n - 1], Reverse(init)[1..]);
      assert [p[n]] + Reverse(init) == [p[n]] + [p[n - 1]] + Reverse(init)[1..];
      assert [p[n - 1]] + Reverse(init)[1..] == Reverse(init);
      assert PathSum([p[n], p[n - 1]]) == Cross(p[n], p[n - 1]) by {
        assert [p[n], p[n - 1]][..1] == [p[n]];
      }
    }
  }

  /** Reversing a ring negates its area. */
  lemma AreaOfReverse(r: Ring)
    ensures SignedArea(Reverse(r)) == -SignedArea(r)
  {
    if r == [] {
    } else {
      var rr := Reverse(r);
      var n := |r| - 1;
      PathReversed(r + [r[0]]);
      AreaOfRotation(rr, n);
      assert Rotate(rr, n) + [Rotate(rr, n)[0]] == Reverse(r + [r[0]]);
    }
  }

  // ---- Rotation as an equivalence -----------------------------------------------------------

  ghost predicate IsRotation<T>(r: seq<T>, s: seq<T>) {
    exists k: nat :: k <= |r| && s == Rotate(r, k)
  }

  lemma RotationReflexive<T>(r: seq<T>)
    ensures IsRotation(r, r)
  {
    assert Rotate(r, 0) == r;
  }

  lemma RotationSymmetric<T>(r: seq<T>, s: seq<T>)
    requires IsRotation(r, s)
    ensures IsRotation(s, r)
  {
    var k: nat :| k <= |r| && s == Rotate(r, k);
    assert Rotate(s, |r| - k) == r;
  }

  lemma RotateTwiceShort<T>(r: seq<T>, i: nat, j: nat)
    requires i + j <= |r|
    ensures Rotate(Rotate(r, i), j) == Rotate(r, i + j)
  {
    var s := Rotate(r, i);
    assert s[j..] == r[i + j..] + r[..i];
    assert s[..j] == r[i..i + j];
    assert r[..i] + r[i..i + j] == r[..i + j];
  }

  lemma RotateTwiceLong<T>(r: seq<T>, i: nat, j: nat)
    requires i <= |r| && j <= |r| && i + j > |r|
    ensures Rotate(Rotate(r, i), j) == Rotate(r, i + j - |r|)
  {
    var s := Rotate(r, i);
    var m := i + j - |r|;
    assert s[j..] == r[m..i];
    assert s[..j] == r[i..] + r[..m];
    assert r[m..i] + r[i..] == r[m..];
  }

  lemma RotationTransitive<T>(r: seq<T>, s: seq<T>, t: seq<T>)
    requires IsRotation(r, s) && IsRotation(s, t)
    ensures IsRotation(r, t)
  {
    var i: nat :| i <= |r| && s == Rotate(r, i);
    var j: nat :| j <= |s| && t == Rotate(s, j);
    if i + j <= |r| {
      RotateTwiceShort(r, i, j);
      assert t == Rotate(r, i + j);
    } else {
      RotateTwiceLong(r, i, j);
      assert t == Rotate(r, i + j - |r|);
    }
  }

  lemma RotationReversed<T>(r: seq<T>, s: seq<T>)
    requires IsRotation(r, s)
    ensures IsRotation(Reverse(r), Reverse(s))
  {
    var k: nat :| k <= |r| && s == Rotate(r, k);
    assert Reverse(s) == Rotate(Reverse(r), |r| - k);
  }

  // ---- The least rotation ---------------------------------------------------------------------

  predicate IntLess(a: int, b: int) {
    a < b
  }

  predicate PointLess(p: Point, q: Point) {
    p.x < q.x || (p.x == q.x && p.y < q.y)
  }

  predicate PointsLess(a: Ring, b: Ring) {
    LexLess(PointLess, a, b)
  }

  predicate IntsLess(a: seq<int>, b: seq<int>) {
    LexLess(IntLess, a, b)
  }

  lemma BaseOrders()
    ensures StrictTotal(IntLess) && StrictTotal(PointLess) && StrictTotal(PointsLess) && StrictTotal(IntsLess)
  {
    assert StrictTotal(IntLess) && StrictTotal(PointLess);
    LexExtends(PointLess, PointsLess);
    LexExtends(IntLess, IntsLess);
  }

  /** The least of the first `n` rotations, the earliest on ties. */
  function BestRotation(r: Ring, n: nat): (s: Ring)
    requires 0 < n <= |r|
    ensures |s| == |r|
  {
    if n == 1 then r
    else
      var best := BestRotation(r, n - 1);
      if PointsLess(Rotate(r, n - 1), best) then Rotate(r, n - 1) else best
  }

  lemma {:induction false} BestRotationLeast(r: Ring, n: nat)
    requires 0 < n <= |r|
    ensures exists k: nat :: k < n && BestRotation(r, n) == Rotate(r, k)
    ensures forall k: nat :: k < n ==> !PointsLess(Rotate(r, k), BestRotation(r, n))
  {
    BaseOrders();
    if n == 1 {
      assert Rotate(r, 0) == r;
    } else {
      BestRotationLeast(r, n - 1);
    }
  }

  function LeastRotation(r: Ring): (s: Ring)
    ensures |s| == |r|
  {
    if r == [] then [] else BestRotation(r, |r|)
  }

  /** The least rotation is a rotation, and no rotation is smaller. */
  lemma LeastRotationExact(r: Ring)
    ensures IsRotation(r, LeastRotation(r))
    ensures forall s :: IsRotation(r, s) ==> !PointsLess(s, LeastRotation(r))
  {
    if r == [] {
      RotationReflexive(r);
    } else {
      BestRotationLeast(r, |r|);
      forall s | IsRotation(r, s)
        ensures !PointsLess(s, LeastRotation(r))
      {
        var k: nat :| k <= |r| && s == Rotate(r, k);
        if k == |r| {
          assert s == Rotate(r, 0);
        }
      }
    }
  }

  /** Rings have the same least rotation exactly when they are rotations of each other. */
  lemma LeastRotationComplete(r: Ring, s: Ring)
    ensures LeastRotation(r) == LeastRotation(s) <==> IsRotation(r, s)
  {
    LeastRotationExact(r);
    LeastRotationExact(s);
    if IsRotation(r, s) {
      RotationTransitive(r, s, LeastRotation(s));
      RotationSymmetric(r, s);
      RotationTransitive(s, r, LeastRotation(r));
      BaseOrders();
    }
    if LeastRotation(r) == LeastRotation(s) {
      RotationSymmetric(s, LeastRotation(s));
      RotationTransitive(r, LeastRotation(r), s);
    }
  }

  // ---- The canonical form of one ring -----------------------------------------------------------

  /** Drop the closing point, if there is one. */
  function Open(r: Ring): Ring {
    if |r| > 1 && r[0] == r[|r| - 1] then r[..|r| - 1] else r
  }

  predicate NeedsReversal(open: Ring, exterior: bool) {
    if exterior then SignedArea(open) < 0 else SignedArea(open) > 0
  }

  /** Exterior rings counter-clockwise, holes clockwise; rings of zero area as they are. */
  function Orient(open: Ring, exterior: bool): (s: Ring)
    ensures |s| == |open|
  {
    if NeedsReversal(open, exterior) then Reverse(open) else open
  }

  function Close(open: Ring): Ring {
    if open == [] then [] else open + [open[0]]
  }

  /** Opened, oriented, started at its least rotation, and closed. */
  function NormalRing(r: Ring, exterior: bool): Ring {
    Close(LeastRotation(Orient(Open(r), exterior)))
  }

  predicate IsClosed(r: Ring) {
    r == [] || (|r| > 1 && r[0] == r[|r| - 1])
  }

  lemma CloseOpen(open: Ring)
    ensures IsClosed(Close(open)) && Open(Close(open)) == open
    ensures open != [] ==> Close(open)[..|Close(open)| - 1] == open
  {
  }

  /** Two presentations of one ring: another start point, or, when the area is not zero, the other direction. */
  ghost predicate SameRing(a: Ring, b: Ring) {
    IsRotation(Open(a), Open(b)) || (SignedArea(Open(a)) != 0 && IsRotation(Reverse(Open(a)), Open(b)))
  }

  lemma AreaOfSame(r: Ring, s: Ring)
    requires IsRotation(r, s)
    ensures SignedArea(r) == SignedArea(s)
  {
    var k: nat :| k <= |r| && s == Rotate(r, k);
    AreaOfRotation(r, k);
  }

  /** Reversing both sides of a rotation. */
  lemma ReversedIff(a: Ring, b: Ring)
    ensures IsRotation(Reverse(a), Reverse(b)) <==> IsRotation(a, b)
    ensures IsRotation(Reverse(a), b) <==> IsRotation(a, Reverse(b))
  {
    ReverseInvolution(a);
    ReverseInvolution(b);
    if IsRotation(a, b) {
      RotationReversed(a, b);
    }
    if IsRotation(Reverse(a), Reverse(b)) {
      RotationReversed(Reverse(a), Reverse(b));
    }
    if IsRotation(Reverse(a), b) {
      RotationReversed(Reverse(a), b);
    }
    if IsRotation(a, Reverse(b)) {
      RotationReversed(a, Reverse(b));
    }
  }

  /** Orientation turns "same start or reversed" into "same start". */
  lemma OrientSame(a: Ring, b: Ring, exterior: bool)
    ensures IsRotation(Orient(a, exterior), Orient(b, exterior)) <==>
            IsRotation(a, b) || (SignedArea(a) != 0 && IsRotation(Reverse(a), b))
  {
    AreaOfReverse(a);
    AreaOfReverse(b);
    ReversedIff(a, b);
    hide IsRotation, SignedArea, Reverse;
    if IsRotation(a, b) {
      AreaOfSame(a, b);
    }
    if IsRotation(Reverse(a), b) {
      AreaOfSame(Reverse(a), b);
    }
    if IsRotation(a, Reverse(b)) {
      AreaOfSame(a, Reverse(b));
    }
  }

  /** The canonical form is a complete invariant: two rings get the same form exactly when they are
      presentations of one ring. */
  lemma NormalRingComplete(a: Ring, b: Ring, exterior: bool)
    ensures NormalRing(a, exterior) == NormalRing(b, exterior) <==> SameRing(a, b)
  {
    var la, lb := LeastRotation(Orient(Open(a), exterior)), LeastRotation(Orient(Open(b), exterior));
    CloseOpen(la);
    CloseOpen(lb);
    LeastRotationComplete(Orient(Open(a), exterior), Orient(Open(b), exterior));
    OrientSame(Open(a), Open(b), exterior);
  }

  /** Canonicalizing a canonical ring changes nothing. */
  lemma NormalRingIdempotent(r: Ring, exterior: bool)
    ensures NormalRing(NormalRing(r, exterior), exterior) == NormalRing(r, exterior)
    ensures IsClosed(NormalRing(r, exterior))
  {
    var o := Orient(Open(r), exterior);
    var least := LeastRotation(o);
    CloseOpen(least);
    LeastRotationExact(o);
    AreaOfSame(o, least);
    AreaOfReverse(Open(r));
    LeastRotationComplete(o, least);
  }

  lemma NormalRingLength(r: Ring, exterior: bool)
    ensures |NormalRing(r, exterior)| == if Open(r) == [] then 0 else |Open(r)| + 1
  {
  }

  /** The source's steps: pop the closing point, reverse in place, take the least of all rotations, close. */
  method NormalizeRing(r: Ring, exterior: bool) returns (ring: Ring)
    ensures ring == NormalRing(r, exterior)
  {
    ring := r;
    if |ring| > 1 && ring[0] == ring[|ring| - 1] {
      ring := ring[..|ring| - 1];
    }
    var area := SignedArea(ring);
    if (exterior && area < 0) || (!exterior && area > 0) {
      ring := Reverse(ring);
    }
    if ring != [] {
      var oriented := ring;
      var index := 1;
      assert Rotate(oriented, 0) == oriented;
      while index < |oriented|
        invariant 1 <= index <= |oriented|
        invariant ring == BestRotation(oriented, index)
      {
        var variant := oriented[index..] + oriented[..index];
        if PointsLess(variant, ring) {
          ring := variant;
        }
        index := index + 1;
      }
      ring := ring + [ring[0]];
    }
  }
}
