/** What the reader accepts: exactly the encodings of clause 8 of OGC 06-103r4, in either byte order at every level. */
module WkbReader {
  import opened Bytes
  import opened Results
  import opened WkbFormat

  // ---- Encodings --------------------------------------------------------------------------

  function WordOf(little: bool, v: u32): (bs: seq<byte>)
    ensures |bs| == 4
  {
    PowValues();
    if little then LeBytes(v, 4) else BeBytes(v, 4)
  }

  function DoubleOf(little: bool, v: u64): (bs: seq<byte>)
    ensures |bs| == 8
  {
    PowValues();
    if little then LeBytes(v, 8) else BeBytes(v, 8)
  }

  function PointsOf(little: bool, ring: RawRing): (bs: seq<byte>)
    ensures |bs| == 16 * |ring|
  {
    if ring == [] then []
    else PointsOf(little, ring[..|ring| - 1]) + DoubleOf(little, ring[|ring| - 1].x) + DoubleOf(little, ring[|ring| - 1].y)
  }

  function RingOf(little: bool, ring: RawRing): (bs: seq<byte>)
    requires |ring| < U32_LIMIT
    ensures |bs| == 4 + 16 * |ring|
  {
    WordOf(little, |ring|) + PointsOf(little, ring)
  }

  predicate RingsCounted(rings: RawPolygon) {
    forall r :: r in rings ==> |r| < U32_LIMIT
  }

  function RingsOf(little: bool, rings: RawPolygon): seq<byte>
    requires RingsCounted(rings)
  {
    if rings == [] then []
    else
      assert rings[0] in rings && RingsCounted(rings[1..]);
      RingOf(little, rings[0]) + RingsOf(little, rings[1..])
  }

  /** A geometry as it is nested: each level has a byte order of its own. */
  datatype Tree = Leaf(little: bool, rings: RawPolygon) | Node(little: bool, members: seq<Tree>)

  /** Counts fit their 32-bit fields. */
  predicate Counted(t: Tree) {
    match t
    case Leaf(_, rings) => |rings| < U32_LIMIT && RingsCounted(rings)
    case Node(_, members) => |members| < U32_LIMIT && forall m :: m in members ==> Counted(m)
  }

  function OrderMark(little: bool): byte {
    if little then 1 else 0
  }

  /** Byte order, type 3 or 6, count, contents. */
  function TreeOf(t: Tree): seq<byte>
    requires Counted(t)
    decreases t, 0
  {
    match t
    case Leaf(little, rings) => [OrderMark(little)] + WordOf(little, 3) + WordOf(little, |rings|) + RingsOf(little, rings)
    case Node(little, members) => [OrderMark(little)] + WordOf(little, 6) + WordOf(little, |members|) + MemberBytes(members)
  }

  function MemberBytes(members: seq<Tree>): seq<byte>
    requires forall m :: m in members ==> Counted(m)
    decreases members
  {
    if members == [] then []
    else
      assert members[0] in members && forall m :: m in members[1..] ==> m in members;
      TreeOf(members[0]) + MemberBytes(members[1..])
  }

  /** The polygons of a geometry, in order. */
  function Polygons(t: Tree): seq<RawPolygon>
    decreases t, 0
  {
    match t
    case Leaf(_, rings) => [rings]
    case Node(_, members) => PolygonsOf(members)
  }

  function PolygonsOf(members: seq<Tree>): seq<RawPolygon>
    decreases members
  {
    if members == [] then [] else Polygons(members[0]) + PolygonsOf(members[1..])
  }

  /** Rings within the limit and finite; each member of a multipolygon holds one polygon. */
  ghost predicate Legal(finite: u64 -> bool, limit: nat, t: Tree) {
    match t
    case Leaf(_, rings) => |rings| < U32_LIMIT && RingsFit(limit, rings) && FinitePolygon(finite, rings)
    case Node(_, members) => |members| < U32_LIMIT && forall m :: m in members ==> Legal(finite, limit, m) && |Polygons(m)| == 1
  }

  // ---- Words ------------------------------------------------------------------------------

  lemma {:induction false} LeExact(bs: seq<byte>)
    ensures LeBytes(LeValue(bs), |bs|) == bs
  {
    if bs != [] {
      LeExact(bs[1..]);
      var v := LeValue(bs);
      assert v % 256 == bs[0] && v / 256 == LeValue(bs[1..]);
      assert bs == [bs[0]] + bs[1..];
    }
  }

  lemma BeExact(bs: seq<byte>)
    ensures BeBytes(BeValue(bs), |bs|) == bs
  {
    LeExact(Reverse(bs));
    ReverseInvolution(bs);
  }

  lemma WordExact(data: seq<byte>, offset: nat, little: bool, v: u32)
    requires offset + 4 <= |data|
    ensures At(data, offset, WordOf(little, v)) <==> Word(data, offset, little) == v
  {
    PowValues();
    hide LeBytes, LeValue;
    LeExact(data[offset..offset + 4]);
    BeExact(data[offset..offset + 4]);
    LeRoundTrip(v, 4);
    BeRoundTrip(v, 4);
  }

  lemma DoubleExact(data: seq<byte>, offset: nat, little: bool, v: u64)
    requires offset + 8 <= |data|
    ensures At(data, offset, DoubleOf(little, v)) <==> Double(data, offset, little) == v
  {
    PowValues();
    hide LeBytes, LeValue;
    LeExact(data[offset..offset + 8]);
    BeExact(data[offset..offset + 8]);
    LeRoundTrip(v, 8);
    BeRoundTrip(v, 8);
  }

  lemma ParsedWord(data: seq<byte>, offset: nat, little: bool, v: u32)
    ensures ParseWord(data, offset, little) == Ok((v, offset + 4)) <==> At(data, offset, WordOf(little, v))
  {
    hide Word, WordOf, At;
    if offset + 4 <= |data| {
      WordExact(data, offset, little, v);
    } else if At(data, offset, WordOf(little, v)) {
      AtLength(data, offset, WordOf(little, v));
    }
  }

  // ---- Rings ------------------------------------------------------------------------------

  lemma PointsStep(data: seq<byte>, offset: nat, little: bool, n: nat)
    requires offset + 16 * (n + 1) <= |data|
    ensures PointsAt(data, offset, little, n + 1) ==
            PointsAt(data, offset, little, n) + [RawPoint(Double(data, offset + 16 * n, little), Double(data, offset + 16 * n + 8, little))]
  {
    hide Double;
  }

  lemma SnocEqual<T>(a: seq<T>, x: T, b: seq<T>, y: T)
    ensures a + [x] == b + [y] <==> a == b && x == y
  {
    assert (a + [x])[..|a|] == a && (b + [y])[..|b|] == b;
  }

  lemma PointsOfSnoc(little: bool, init: RawRing, last: RawPoint)
    ensures PointsOf(little, init + [last]) == PointsOf(little, init) + DoubleOf(little, last.x) + DoubleOf(little, last.y)
  {
    assert (init + [last])[..|init|] == init;
  }

  lemma {:induction false} PointsExact(data: seq<byte>, offset: nat, little: bool, ring: RawRing)
    requires offset + 16 * |ring| <= |data|
    ensures At(data, offset, PointsOf(little, ring)) <==> PointsAt(data, offset, little, |ring|) == ring
  {
    if ring == [] {
    } else {
      hide At, Double, DoubleOf, PointsAt, PointsOf;
      var n := |ring| - 1;
      var init, last := ring[..n], ring[n];
      assert ring == init + [last];
      PointsOfSnoc(little, init, last);
      AtConcat(data, offset, PointsOf(little, init) + DoubleOf(little, last.x), DoubleOf(little, last.y));
      AtConcat(data, offset, PointsOf(little, init), DoubleOf(little, last.x));
      PointsExact(data, offset, little, init);
      DoubleExact(data, offset + 16 * n, little, last.x);
      DoubleExact(data, offset + 16 * n + 8, little, last.y);
      PointsStep(data, offset, little, n);
      var read := RawPoint(Double(data, offset + 16 * n, little), Double(data, offset + 16 * n + 8, little));
      SnocEqual(PointsAt(data, offset, little, n), read, init, last);
    }
  }

  /** The ring is held at the offset, and ends at `end`. */
  predicate RingHeld(finite: u64 -> bool, limit: nat, data: seq<byte>, offset: nat, little: bool, ring: RawRing, end: nat) {
    && |ring| <= limit && |ring| < U32_LIMIT && AllFinite(finite, ring)
    && At(data, offset, RingOf(little, ring)) && end == offset + |RingOf(little, ring)|
  }

  lemma RingExact(finite: u64 -> bool, limit: nat, data: seq<byte>, offset: nat, little: bool, ring: RawRing, end: nat)
    requires limit < U32_LIMIT
    ensures ParseRing(finite, limit, data, offset, little) == Ok((ring, end)) <==> RingHeld(finite, limit, data, offset, little, ring, end)
  {
    hide At, Word, WordOf, PointsOf, PointsAt, AllFinite;
    if ParseRing(finite, limit, data, offset, little) == Ok((ring, end)) {
      ParsedWord(data, offset, little, |ring|);
      PointsExact(data, offset + 4, little, ring);
      AtConcat(data, offset, WordOf(little, |ring|), PointsOf(little, ring));
    }
    if RingHeld(finite, limit, data, offset, little, ring, end) {
      AtConcat(data, offset, WordOf(little, |ring|), PointsOf(little, ring));
      AtLength(data, offset, RingOf(little, ring));
      ParsedWord(data, offset, little, |ring|);
      PointsExact(data, offset + 4, little, ring);
    }
  }

  lemma ConsEqual<T>(x: T, a: seq<T>, y: T, b: seq<T>)
    ensures [x] + a == [y] + b <==> x == y && a == b
  {
    assert ([x] + a)[1..] == a && ([y] + b)[1..] == b;
  }

  lemma ParseRingsStep(finite: u64 -> bool, limit: nat, data: seq<byte>, offset: nat, little: bool, first: RawRing, rest: RawPolygon, end: nat)
    ensures ParseRings(finite, limit, data, offset, little, |rest| + 1) == Ok(([first] + rest, end)) <==>
            exists next: nat :: ParseRing(finite, limit, data, offset, little) == Ok((first, next)) &&
                                ParseRings(finite, limit, data, next, little, |rest|) == Ok((rest, end))
  {
    hide ParseRing;
    var ring := ParseRing(finite, limit, data, offset, little);
    if ring.Ok? {
      var tail := ParseRings(finite, limit, data, ring.value.1, little, |rest|);
      if tail.Ok? {
        ConsEqual(ring.value.0, tail.value.0, first, rest);
      }
    }
  }

  lemma RingsOfCons(little: bool, first: RawRing, rest: RawPolygon)
    requires RingsCounted([first] + rest)
    ensures first in [first] + rest && |first| < U32_LIMIT && RingsCounted(rest)
    ensures RingsOf(little, [first] + rest) == RingOf(little, first) + RingsOf(little, rest)
  {
    assert first in [first] + rest && forall r :: r in rest ==> r in [first] + rest;
    assert ([first] + rest)[1..] == rest;
  }

  /** The list is held at the offset, and ends at `end`. */
  ghost predicate RingsHeld(finite: u64 -> bool, limit: nat, data: seq<byte>, offset: nat, little: bool, rings: RawPolygon, end: nat) {
    && RingsFit(limit, rings) && FinitePolygon(finite, rings) && RingsCounted(rings)
    && At(data, offset, RingsOf(little, rings)) && end == offset + |RingsOf(little, rings)|
  }

  lemma RingsHeldCons(finite: u64 -> bool, limit: nat, data: seq<byte>, offset: nat, little: bool, first: RawRing, rest: RawPolygon, end: nat)
    requires limit < U32_LIMIT
    ensures RingsHeld(finite, limit, data, offset, little, [first] + rest, end) <==>
            exists next: nat :: RingHeld(finite, limit, data, offset, little, first, next) && RingsHeld(finite, limit, data, next, little, rest, end)
  {
    hide At, RingOf, AllFinite, FinitePolygon, RingsFit, RingsOf;
    RingsFitSplit(limit, first, rest);
    FiniteIff(finite, first, rest);
    RingsCountedOf(limit, [first] + rest);
    if RingsFit(limit, [first] + rest) {
      RingsOfCons(little, first, rest);
      AtConcat(data, offset, RingOf(little, first), RingsOf(little, rest));
      var next := offset + |RingOf(little, first)|;
      assert RingsHeld(finite, limit, data, offset, little, [first] + rest, end) ==> RingHeld(finite, limit, data, offset, little, first, next);
    }
  }

  lemma {:induction false} RingsExact(finite: u64 -> bool, limit: nat, data: seq<byte>, offset: nat, little: bool, rings: RawPolygon, end: nat)
    requires limit < U32_LIMIT && offset <= |data|
    ensures ParseRings(finite, limit, data, offset, little, |rings|) == Ok((rings, end)) <==>
            RingsHeld(finite, limit, data, offset, little, rings, end)
    decreases |rings|
  {
    hide At, RingOf, ParseRing, ParseRings, AllFinite, RingsHeld, RingHeld;
    if rings == [] {
      NoRings(finite, limit, data, offset, little, end);
    } else {
      var first, rest := rings[0], rings[1..];
      assert rings == [first] + rest;
      ParseRingsStep(finite, limit, data, offset, little, first, rest, end);
      RingsHeldCons(finite, limit, data, offset, little, first, rest, end);
      forall next: nat
        ensures ParseRing(finite, limit, data, offset, little) == Ok((first, next)) <==> RingHeld(finite, limit, data, offset, little, first, next)
        ensures RingHeld(finite, limit, data, offset, little, first, next) ==>
                  (ParseRings(finite, limit, data, next, little, |rest|) == Ok((rest, end)) <==>
                   RingsHeld(finite, limit, data, next, little, rest, end))
      {
        RingExact(finite, limit, data, offset, little, first, next);
        if RingHeld(finite, limit, data, offset, little, first, next) {
          RingEnds(finite, limit, data, offset, little, first, next);
          RingsExact(finite, limit, data, next, little, rest, end);
        }
      }
    }
  }

  lemma RingEnds(finite: u64 -> bool, limit: nat, data: seq<byte>, offset: nat, little: bool, ring: RawRing, end: nat)
    requires RingHeld(finite, limit, data, offset, little, ring, end)
    ensures end <= |data|
  {
    AtLength(data, offset, RingOf(little, ring));
  }

  lemma NoRings(finite: u64 -> bool, limit: nat, data: seq<byte>, offset: nat, little: bool, end: nat)
    requires offset <= |data|
    ensures ParseRings(finite, limit, data, offset, little, 0) == Ok(([], end)) <==> RingsHeld(finite, limit, data, offset, little, [], end)
  {
  }

  lemma RingsCountedOf(limit: nat, rings: RawPolygon)
    requires limit < U32_LIMIT
    ensures RingsFit(limit, rings) ==> RingsCounted(rings)
  {
  }

  lemma FiniteIff(finite: u64 -> bool, first: RawRing, rest: RawPolygon)
    ensures FinitePolygon(finite, [first] + rest) <==> AllFinite(finite, first) && FinitePolygon(finite, rest)
  {
    hide AllFinite;
    assert first in [first] + rest && forall r :: r in rest ==> r in [first] + rest;
  }

  // ---- Geometries -------------------------------------------------------------------------

  lemma MarkExact(data: seq<byte>, offset: nat, little: bool)
    ensures At(data, offset, [OrderMark(little)]) <==> offset < |data| && data[offset] == if little then 1 else 0
  {
    if offset < |data| {
      assert data[offset..offset + 1] == [data[offset]];
    }
  }

  /** The three fields every geometry starts with. */
  lemma HeaderExact(data: seq<byte>, offset: nat, little: bool, kind: u32, count: u32, body: seq<byte>)
    ensures At(data, offset, [OrderMark(little)] + WordOf(little, kind) + WordOf(little, count) + body) <==>
            && offset < |data| && data[offset] == (if little then 1 else 0)
            && ParseWord(data, offset + 1, little) == Ok((kind, offset + 5))
            && ParseWord(data, offset + 5, little) == Ok((count, offset + 9)) && At(data, offset + 9, body)
  {
    hide At, ParseWord, WordOf;
    var mark := [OrderMark(little)];
    AtConcat(data, offset, mark + WordOf(little, kind) + WordOf(little, count), body);
    AtConcat(data, offset, mark + WordOf(little, kind), WordOf(little, count));
    AtConcat(data, offset, mark, WordOf(little, kind));
    MarkExact(data, offset, little);
    ParsedWord(data, offset + 1, little, kind);
    ParsedWord(data, offset + 5, little, count);
  }

  /** Every legal encoding is read, to its polygons and its end. */
  lemma {:induction false} LegalRead(finite: u64 -> bool, limit: nat, data: seq<byte>, offset: nat, t: Tree)
    requires limit < U32_LIMIT && Legal(finite, limit, t) && Counted(t) && At(data, offset, TreeOf(t))
    ensures ParseGeometry(finite, limit, data, offset) == Ok((Polygons(t), offset + |TreeOf(t)|))
    decreases t, 0
  {
    hide At, ParseWord, ParseRings, ParseMembers, WordOf, RingsFit, FinitePolygon;
    AtLength(data, offset, TreeOf(t));
    match t {
      case Leaf(little, rings) =>
        HeaderExact(data, offset, little, 3, |rings|, RingsOf(little, rings));
        RingsCountedOf(limit, rings);
        RingsExact(finite, limit, data, offset + 9, little, rings, offset + 9 + |RingsOf(little, rings)|);
      case Node(little, members) =>
        HeaderExact(data, offset, little, 6, |members|, MemberBytes(members));
        LegalMembers(finite, limit, data, offset + 9, members);
    }
  }

  lemma MembersCons(first: Tree, rest: seq<Tree>)
    requires Counted(first) && forall m :: m in rest ==> Counted(m)
    ensures forall m :: m in [first] + rest ==> Counted(m)
    ensures MemberBytes([first] + rest) == TreeOf(first) + MemberBytes(rest)
    ensures PolygonsOf([first] + rest) == Polygons(first) + PolygonsOf(rest)
  {
    hide TreeOf, Polygons, Counted;
    assert ([first] + rest)[1..] == rest;
  }

  /** One more member, read before the rest. */
  lemma ParseMembersStep(finite: u64 -> bool, limit: nat, data: seq<byte>, offset: nat, first: seq<RawPolygon>, next: nat,
                         rest: seq<RawPolygon>, end: nat, count: nat)
    requires |first| == 1 && ParseGeometry(finite, limit, data, offset) == Ok((first, next))
    requires ParseMembers(finite, limit, data, next, count) == Ok((rest, end))
    ensures ParseMembers(finite, limit, data, offset, count + 1) == Ok((first + rest, end))
  {
    hide ParseGeometry;
  }

  lemma {:induction false} LegalMembers(finite: u64 -> bool, limit: nat, data: seq<byte>, offset: nat, members: seq<Tree>)
    requires limit < U32_LIMIT && forall m :: m in members ==> Legal(finite, limit, m) && |Polygons(m)| == 1 && Counted(m)
    requires At(data, offset, MemberBytes(members))
    ensures ParseMembers(finite, limit, data, offset, |members|) == Ok((PolygonsOf(members), offset + |MemberBytes(members)|))
    decreases members
  {
    hide At, ParseGeometry, Legal, Polygons, Counted, TreeOf;
    if members != [] {
      hide ParseMembers, MemberBytes, PolygonsOf;
      var first, rest := members[0], members[1..];
      assert first in members && members == [first] + rest;
      forall m | m in rest
        ensures m in members
      {
      }
      MembersCons(first, rest);
      AtConcat(data, offset, TreeOf(first), MemberBytes(rest));
      LegalRead(finite, limit, data, offset, first);
      var next := offset + |TreeOf(first)|;
      LegalMembers(finite, limit, data, next, rest);
      ParseMembersStep(finite, limit, data, offset, Polygons(first), next, PolygonsOf(rest), next + |MemberBytes(rest)|, |rest|);
    }
  }

  /** Whatever is read is a legal encoding. */
  lemma {:induction false} ReadLegal(finite: u64 -> bool, limit: nat, data: seq<byte>, offset: nat) returns (t: Tree)
    requires limit < U32_LIMIT && ParseGeometry(finite, limit, data, offset).Ok?
    ensures Legal(finite, limit, t) && Counted(t) && At(data, offset, TreeOf(t))
    ensures ParseGeometry(finite, limit, data, offset) == Ok((Polygons(t), offset + |TreeOf(t)|))
    decreases |data| - offset, 0, 0
  {
    hide At, ParseRings, WordOf, RingsFit, FinitePolygon, Word, ParseMembers;
    var little := data[offset] == 1;
    var kind := ParseWord(data, offset + 1, little).value.0;
    var count := ParseWord(data, offset + 5, little).value.0;
    if kind == 3 {
      var (rings, end) := ParseRings(finite, limit, data, offset + 9, little, count).value;
      RingsExact(finite, limit, data, offset + 9, little, rings, end);
      HeaderExact(data, offset, little, 3, count, RingsOf(little, rings));
      t := Leaf(little, rings);
    } else {
      var members := MembersLegal(finite, limit, data, offset + 9, count);
      HeaderExact(data, offset, little, 6, count, MemberBytes(members));
      t := Node(little, members);
    }
  }

  lemma MembersSplit(finite: u64 -> bool, limit: nat, data: seq<byte>, offset: nat, count: nat)
    requires offset <= |data| && count > 0 && ParseMembers(finite, limit, data, offset, count).Ok?
    ensures var first := ParseGeometry(finite, limit, data, offset);
            && first.Ok? && |first.value.0| == 1 && offset < first.value.1 <= |data|
            && ParseMembers(finite, limit, data, first.value.1, count - 1).Ok?
  {
    hide ParseGeometry;
  }

  lemma {:induction false} MembersLegal(finite: u64 -> bool, limit: nat, data: seq<byte>, offset: nat, count: nat) returns (members: seq<Tree>)
    requires limit < U32_LIMIT && offset <= |data| && ParseMembers(finite, limit, data, offset, count).Ok?
    ensures |members| == count && forall m :: m in members ==> Legal(finite, limit, m) && |Polygons(m)| == 1 && Counted(m)
    ensures At(data, offset, MemberBytes(members))
    ensures ParseMembers(finite, limit, data, offset, count) == Ok((PolygonsOf(members), offset + |MemberBytes(members)|))
    decreases |data| - offset, 1, count
  {
    hide ParseGeometry, Legal, Polygons, Counted, TreeOf;
    if count == 0 {
      members := [];
    } else {
      hide At, ParseMembers, MemberBytes, PolygonsOf;
      MembersSplit(finite, limit, data, offset, count);
      var first := ReadLegal(finite, limit, data, offset);
      var next := offset + |TreeOf(first)|;
      var rest := MembersLegal(finite, limit, data, next, count - 1);
      members := [first] + rest;
      MembersCons(first, rest);
      AtConcat(data, offset, TreeOf(first), MemberBytes(rest));
      ParseMembersStep(finite, limit, data, offset, Polygons(first), next, PolygonsOf(rest), next + |MemberBytes(rest)|, count - 1);
    }
  }

  /** A byte string is one geometry exactly when it is the encoding of one: in either byte order, a polygon, or a
      multipolygon of members that hold one polygon each, with finite coordinates and rings within the limit. */
  lemma AcceptsExactly(finite: u64 -> bool, data: seq<byte>, ps: seq<RawPolygon>)
    ensures ParseGeometry(finite, RING_LIMIT, data, 0) == Ok((ps, |data|)) <==>
            exists t :: Legal(finite, 10_000_000, t) && Counted(t) && TreeOf(t) == data && Polygons(t) == ps
  {
    hide ParseGeometry, Legal, Counted, TreeOf, Polygons;
    if ParseGeometry(finite, RING_LIMIT, data, 0) == Ok((ps, |data|)) {
      var t := ReadLegal(finite, RING_LIMIT, data, 0);
      assert data[0..|data|] == data;
    }
    if t :| Legal(finite, 10_000_000, t) && Counted(t) && TreeOf(t) == data && Polygons(t) == ps {
      AtWhole(data);
      LegalRead(finite, RING_LIMIT, data, 0, t);
    }
  }
}
