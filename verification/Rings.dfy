/**
 * Polygons with holes. The resolver flattens every ring of a polygon into one position
 * sequence before it computes the marker, so the scan line also meets the edges that join
 * one ring to the next. This module says exactly what those joins do to the even-odd rule.
 */
module Rings {
  import opened Arithmetic
  import opened Geometry
  import opened Marker

  /** A GeoJSON linear ring repeats its first position at the end (section 3.1.6 of RFC 7946). */
  predicate ExplicitlyClosed(r: seq<Position>) { |r| > 0 && r[0] == r[|r| - 1] }

  predicate AllClosed(rings: seq<seq<Position>>) {
    forall i :: 0 <= i < |rings| ==> ExplicitlyClosed(rings[i])
  }

  function Flatten(rings: seq<seq<Position>>): seq<Position> {
    if rings == [] then [] else Flatten(rings[..|rings| - 1]) + rings[|rings| - 1]
  }

  /** The first position of each ring: the polygon the joins trace out. */
  function Anchors(rings: seq<seq<Position>>): (a: seq<Position>)
    requires AllClosed(rings)
    ensures |a| == |rings| && forall i :: 0 <= i < |a| ==> |rings[i]| > 0 && a[i] == rings[i][0]
  {
    seq(|rings|, i requires 0 <= i < |rings| => assert ExplicitlyClosed(rings[i]); rings[i][0])
  }

  // ---------------------------------------------------------------- weights of closed sequences

  type EdgeWeight = (Position, Position) -> nat

  function PathWeight(p: seq<Position>, w: EdgeWeight): nat {
    if |p| < 2 then 0 else PathWeight(p[..|p| - 1], w) + w(p[|p| - 2], p[|p| - 1])
  }

  function RingWeight(p: seq<Position>, w: EdgeWeight): nat
    requires |p| > 0
  {
    PathWeight(p, w) + w(p[|p| - 1], p[0])
  }

  function SumWeight(rings: seq<seq<Position>>, w: EdgeWeight): nat
    requires AllClosed(rings)
  {
    if rings == [] then 0
    else
      assert ExplicitlyClosed(rings[|rings| - 1]);
      SumWeight(rings[..|rings| - 1], w) + RingWeight(rings[|rings| - 1], w)
  }

  lemma {:induction false} PathWeightAppend(p: seq<Position>, q: seq<Position>, w: EdgeWeight)
    requires |p| > 0 && |q| > 0
    ensures PathWeight(p + q, w) == PathWeight(p, w) + w(p[|p| - 1], q[0]) + PathWeight(q, w)
  {
    var n := |q| - 1;
    assert (p + q)[..|p + q| - 1] == p + q[..n];
    if n == 0 {
      assert p + q[..0] == p;
    } else {
      PathWeightAppend(p, q[..n], w);
    }
  }

  /**
   * Flattening explicitly closed rings adds the anchor polygon's edges and nothing else, for any
   * weight that ignores the degenerate edge from a position to itself.
   */
  lemma {:induction false} FlattenedWeight(rings: seq<seq<Position>>, w: EdgeWeight)
    requires |rings| > 0 && AllClosed(rings)
    requires forall a :: w(a, a) == 0
    ensures |Flatten(rings)| > 0
    ensures Flatten(rings)[0] == Anchors(rings)[0]
    ensures Flatten(rings)[|Flatten(rings)| - 1] == Anchors(rings)[|rings| - 1]
    ensures PathWeight(Flatten(rings), w) == SumWeight(rings, w) + PathWeight(Anchors(rings), w)
    ensures RingWeight(Flatten(rings), w) == SumWeight(rings, w) + RingWeight(Anchors(rings), w)
  {
    var n := |rings| - 1;
    var last := rings[n];
    assert ExplicitlyClosed(last);
    if n == 0 {
      assert Flatten(rings) == last;
    } else {
      FlattenedWeight(rings[..n], w);
      PathWeightAppend(Flatten(rings[..n]), last, w);
      assert Anchors(rings)[..n] == Anchors(rings[..n]);
    }
  }

  // ---------------------------------------------------------------- crossings as weights

  /** The weight whose ring total is the number of crossings left of x on the line at y. */
  function LeftOf(y: real, x: real): EdgeWeight {
    (a, b) => CountLeft(EdgeX(a, b, y), x)
  }

  lemma {:induction false} PathLeftIsWeight(p: seq<Position>, y: real, x: real)
    ensures CountLeft(PathX(p, y), x) == PathWeight(p, LeftOf(y, x))
  {
    if |p| >= 2 {
      var n := |p| - 1;
      PathLeftIsWeight(p[..n], y, x);
      CountLeftAppend(PathX(p[..n], y), EdgeX(p[n - 1], p[n], y), x);
    }
  }

  lemma RingLeftIsWeight(p: seq<Position>, y: real, x: real)
    requires |p| > 0
    ensures CountLeft(Crossings(p, y), x) == RingWeight(p, LeftOf(y, x))
  {
    PathLeftIsWeight(p, y, x);
    CountLeftAppend(PathX(p, y), EdgeX(p[|p| - 1], p[0], y), x);
  }

  predicate OddWeight(p: seq<Position>, w: EdgeWeight)
    requires |p| > 0
  {
    RingWeight(p, w) % 2 == 1
  }

  function OddRings(rings: seq<seq<Position>>, w: EdgeWeight): nat
    requires AllClosed(rings)
  {
    if rings == [] then 0
    else
      assert ExplicitlyClosed(rings[|rings| - 1]);
      OddRings(rings[..|rings| - 1], w) + if OddWeight(rings[|rings| - 1], w) then 1 else 0
  }

  lemma {:induction false} OddRingsParity(rings: seq<seq<Position>>, w: EdgeWeight)
    requires AllClosed(rings)
    ensures OddRings(rings, w) % 2 == SumWeight(rings, w) % 2
  {
    if rings != [] {
      assert ExplicitlyClosed(rings[|rings| - 1]);
      OddRingsParity(rings[..|rings| - 1], w);
    }
  }

  lemma FlattenedParity(rings: seq<seq<Position>>, w: EdgeWeight)
    requires |rings| > 0 && AllClosed(rings)
    requires forall a :: w(a, a) == 0
    ensures |Flatten(rings)| > 0
    ensures OddWeight(Flatten(rings), w) <==> (OddRings(rings, w) % 2 == 1) != OddWeight(Anchors(rings), w)
  {
    FlattenedWeight(rings, w);
    OddRingsParity(rings, w);
  }

  lemma InsideIsOddWeight(p: seq<Position>, q: Position)
    requires |p| > 0
    ensures InsideEvenOdd(p, q) <==> OddWeight(p, LeftOf(q.lat, q.lon))
  {
    RingLeftIsWeight(p, q.lat, q.lon);
  }

  /** How many of the rings contain q, by the even-odd rule. */
  function RingsAround(rings: seq<seq<Position>>, q: Position): nat
    requires AllClosed(rings)
  {
    OddRings(rings, LeftOf(q.lat, q.lon))
  }

  /**
   * For any number of explicitly closed rings, the flattened sequence contains q exactly when the
   * number of rings around q, plus one if the anchor polygon contains q, is odd.
   */
  lemma FlattenedEvenOdd(rings: seq<seq<Position>>, q: Position)
    requires |rings| > 0 && AllClosed(rings)
    ensures |Flatten(rings)| > 0
    ensures InsideEvenOdd(Flatten(rings), q)
       <==> (RingsAround(rings, q) % 2 == 1) != InsideEvenOdd(Anchors(rings), q)
  {
    FlattenedParity(rings, LeftOf(q.lat, q.lon));
    InsideIsOddWeight(Flatten(rings), q);
    InsideIsOddWeight(Anchors(rings), q);
  }

  /**
   * A marker with a positive span lies in an odd number of the polygon's rings exactly when the
   * anchor polygon does not contain it.
   */
  lemma MarkerInOddManyRings(rings: seq<seq<Position>>)
    requires |rings| > 0 && AllClosed(rings)
    requires HasInterior(Flatten(rings))
    ensures var m := MarkerOf(Flatten(rings));
            RingsAround(rings, m) % 2 == 1 <==> !InsideEvenOdd(Anchors(rings), m)
  {
    FlattenedEvenOdd(rings, MarkerOf(Flatten(rings)));
    MarkerInsideExactly(Flatten(rings));
  }

  /** The line through the middle meets the even-odd interior. */
  ghost predicate HasInterior(p: seq<Position>) { |p| > 0 && MidLineMeetsInterior(p) }

  /** The two joins of a polygon with one hole run along the same segment and cross the line together. */
  lemma JoinsCancel(a: Position, b: Position, y: real, x: real)
    ensures CountLeft(EdgeX(a, b, y), x) == CountLeft(EdgeX(b, a, y), x)
  {
    if Crosses(a, b, y) {
      CrossXSymmetric(a, b, y);
    }
  }

  lemma CrossXSymmetric(a: Position, b: Position, y: real)
    requires Crosses(a, b, y)
    ensures CrossX(a, b, y) == CrossX(b, a, y)
  {
    var t := (y - a.lat) / (b.lat - a.lat);
    var u := (y - b.lat) / (a.lat - b.lat);
    Complement(y, a.lat, b.lat);
    calc {
      b.lon + u * (a.lon - b.lon);
      b.lon + (1.0 - t) * (a.lon - b.lon);
      a.lon + t * (b.lon - a.lon);
    }
  }

  lemma Complement(y: real, a: real, b: real)
    requires a != b
    ensures (y - b) / (a - b) == 1.0 - (y - a) / (b - a)
  {
    var t, u := (y - a) / (b - a), (y - b) / (a - b);
    assert t * (b - a) == y - a;
    assert u * (a - b) == y - b;
    assert (1.0 - t) * (a - b) == y - b;
    DivisionUnique(y - b, a - b, 1.0 - t);
  }

  lemma DivisionUnique(n: real, d: real, q: real)
    requires d != 0.0 && q * d == n
    ensures n / d == q
  {
  }

  /** One ring, no hole: the marker is inside it exactly when the line through its middle meets its interior. */
  lemma MarkerInsideSimplePolygon(outer: seq<Position>)
    requires ExplicitlyClosed(outer)
    ensures InsideEvenOdd(outer, MarkerOf(outer)) <==> HasInterior(outer)
  {
    MarkerInsideExactly(outer);
  }

  /**
   * One outer ring and one hole: the marker is inside exactly one of the two rings, so where the
   * hole lies within the outer ring it is inside the outer ring and outside the hole.
   */
  lemma MarkerInsideOuterOutsideHole(outer: seq<Position>, hole: seq<Position>)
    requires ExplicitlyClosed(outer) && ExplicitlyClosed(hole)
    requires HasInterior(outer + hole)
    ensures var m := MarkerOf(outer + hole);
            && (InsideEvenOdd(outer, m) <==> !InsideEvenOdd(hole, m))
            && ((InsideEvenOdd(hole, m) ==> InsideEvenOdd(outer, m)) ==>
                InsideEvenOdd(outer, m) && !InsideEvenOdd(hole, m))
  {
    OneHoleEvenOdd(outer, hole, MarkerOf(outer + hole));
    MarkerInsideExactly(outer + hole);
  }

  /** One outer ring plus one hole contain q together exactly when one of them does. */
  lemma OneHoleEvenOdd(outer: seq<Position>, hole: seq<Position>, q: Position)
    requires ExplicitlyClosed(outer) && ExplicitlyClosed(hole)
    ensures InsideEvenOdd(outer + hole, q) <==> InsideEvenOdd(outer, q) != InsideEvenOdd(hole, q)
  {
    forall a, b ensures LeftOf(q.lat, q.lon)(a, b) == LeftOf(q.lat, q.lon)(b, a) {
      JoinsCancel(a, b, q.lat, q.lon);
    }
    OneHoleParity(outer, hole, LeftOf(q.lat, q.lon));
    InsideIsOddWeight(outer + hole, q);
    InsideIsOddWeight(outer, q);
    InsideIsOddWeight(hole, q);
  }

  lemma OneHoleParity(outer: seq<Position>, hole: seq<Position>, w: EdgeWeight)
    requires ExplicitlyClosed(outer) && ExplicitlyClosed(hole)
    requires forall a :: w(a, a) == 0
    requires forall a, b :: w(a, b) == w(b, a)
    ensures OddWeight(outer + hole, w) <==> OddWeight(outer, w) != OddWeight(hole, w)
  {
    TwoRings(outer, hole, w);
    FlattenedParity([outer, hole], w);
    assert PathWeight([outer[0], hole[0]], w) == w(outer[0], hole[0]) by {
      assert [outer[0], hole[0]][..1] == [outer[0]];
    }
  }

  lemma TwoRings(r: seq<Position>, s: seq<Position>, w: EdgeWeight)
    requires ExplicitlyClosed(r) && ExplicitlyClosed(s)
    ensures AllClosed([r, s]) && Flatten([r, s]) == r + s && Anchors([r, s]) == [r[0], s[0]]
    ensures OddRings([r, s], w) == (if OddWeight(r, w) then 1 else 0) + if OddWeight(s, w) then 1 else 0
  {
    assert [r, s][..1] == [r];
    assert Flatten([r]) == r;
    assert OddRings([r], w) == if OddWeight(r, w) then 1 else 0;
  }

  // ---------------------------------------------------------------- outside every hole

  /** Ring 0 is the outer ring, the others are holes. */
  predicate InRing(rings: seq<seq<Position>>, k: nat, q: Position)
    requires AllClosed(rings) && k < |rings|
  {
    assert ExplicitlyClosed(rings[k]);
    InsideEvenOdd(rings[k], q)
  }

  predicate InSomeHole(rings: seq<seq<Position>>, q: Position)
    requires AllClosed(rings)
  {
    exists k :: 1 <= k < |rings| && InRing(rings, k, q)
  }

  /** At q the holes lie within the outer ring and do not overlap. */
  predicate HolesFit(rings: seq<seq<Position>>, q: Position)
    requires AllClosed(rings)
  {
    && (forall k :: 1 <= k < |rings| && InRing(rings, k, q) ==> InRing(rings, 0, q))
    && forall j, k :: 1 <= j < k < |rings| ==> !(InRing(rings, j, q) && InRing(rings, k, q))
  }

  function Trues(flags: seq<bool>): nat { if flags == [] then 0 else Trues(flags[..|flags| - 1]) + OneIf(flags[|flags| - 1]) }

  /** Which of the rings contain q. */
  function Containing(rings: seq<seq<Position>>, q: Position): (flags: seq<bool>)
    requires AllClosed(rings)
    ensures |flags| == |rings| && forall k :: 0 <= k < |flags| ==> flags[k] == InRing(rings, k, q)
  {
    seq(|rings|, k requires 0 <= k < |rings| => InRing(rings, k, q))
  }

  lemma {:induction false} RingsAroundAreTrues(rings: seq<seq<Position>>, q: Position)
    requires AllClosed(rings)
    ensures RingsAround(rings, q) == Trues(Containing(rings, q))
  {
    if rings != [] {
      var n := |rings| - 1;
      RingsAroundAreTrues(rings[..n], q);
      LastContaining(rings, q);
    }
  }

  lemma LastContaining(rings: seq<seq<Position>>, q: Position)
    requires AllClosed(rings) && rings != []
    ensures var n := |rings| - 1;
            && |rings[n]| > 0 && (Containing(rings, q)[n] <==> OddWeight(rings[n], LeftOf(q.lat, q.lon)))
            && Containing(rings, q)[..n] == Containing(rings[..n], q)
  {
    var n := |rings| - 1;
    assert ExplicitlyClosed(rings[n]);
    InsideIsOddWeight(rings[n], q);
    forall k: nat | k < n ensures InRing(rings[..n], k, q) == InRing(rings, k, q) {
      assert rings[..n][k] == rings[k];
    }
  }

  lemma {:induction false} AtMostOneAfterFirst(flags: seq<bool>)
    requires flags != [] && forall j, k :: 1 <= j < k < |flags| ==> !(flags[j] && flags[k])
    ensures Trues(flags) == OneIf(flags[0]) + OneIf(exists k :: 1 <= k < |flags| && flags[k])
  {
    if |flags| == 1 {
      assert flags[..0] == [];
    } else {
      AtMostOneAfterFirst(flags[..|flags| - 1]);
    }
  }

  /** Where the holes fit, an odd number of rings means the outer ring and no hole. */
  lemma OddMeansOutsideHoles(rings: seq<seq<Position>>, q: Position)
    requires |rings| > 0 && AllClosed(rings) && HolesFit(rings, q)
    ensures RingsAround(rings, q) % 2 == 1 <==> InRing(rings, 0, q) && !InSomeHole(rings, q)
  {
    RingsAroundAreTrues(rings, q);
    var flags := Containing(rings, q);
    AtMostOneAfterFirst(flags);
    assert InSomeHole(rings, q) <==> exists k :: 1 <= k < |flags| && flags[k];
  }

  /** The marker is inside the outer ring and outside every hole. */
  predicate MarkerClear(rings: seq<seq<Position>>)
    requires AllClosed(rings) && |rings| > 0 && |Flatten(rings)| > 0
  {
    InRing(rings, 0, MarkerOf(Flatten(rings))) && !InSomeHole(rings, MarkerOf(Flatten(rings)))
  }

  /**
   * Where the holes fit, the marker is inside the outer ring and outside every hole exactly when the
   * polygon of the rings' first positions does not contain it.
   */
  lemma MarkerOutsideHolesExactly(rings: seq<seq<Position>>)
    requires |rings| > 0 && AllClosed(rings) && HasInterior(Flatten(rings))
    requires HolesFit(rings, MarkerOf(Flatten(rings)))
    ensures MarkerClear(rings) <==> !InsideEvenOdd(Anchors(rings), MarkerOf(Flatten(rings)))
  {
    MarkerInOddManyRings(rings);
    OddMeansOutsideHoles(rings, MarkerOf(Flatten(rings)));
  }

  /** The rings start on one side of the scan line, so no join meets it. */
  predicate AnchorsOnOneSide(rings: seq<seq<Position>>)
    requires AllClosed(rings) && |Flatten(rings)| > 0
  {
    var y := MidLat(Flatten(rings));
    forall i :: 0 <= i < |rings| ==> (Anchors(rings)[i].lat <= y) == (Anchors(rings)[0].lat <= y)
  }

  lemma {:induction false} OneSideHasNoCrossing(p: seq<Position>, y: real)
    requires |p| > 0 && forall i :: 0 <= i < |p| ==> (p[i].lat <= y) == (p[0].lat <= y)
    ensures PathX(p, y) == [] && Crossings(p, y) == []
  {
    if |p| > 1 {
      OneSideHasNoCrossing(p[..|p| - 1], y);
    }
  }

  lemma NotInsideAnchors(rings: seq<seq<Position>>)
    requires |rings| > 0 && AllClosed(rings) && |Flatten(rings)| > 0 && AnchorsOnOneSide(rings)
    ensures !InsideEvenOdd(Anchors(rings), MarkerOf(Flatten(rings)))
  {
    MarkerOnMidLat(Flatten(rings));
    OneSideIsOutside(Anchors(rings), MarkerOf(Flatten(rings)));
  }

  lemma OneSideIsOutside(p: seq<Position>, q: Position)
    requires |p| > 0 && forall i :: 0 <= i < |p| ==> (p[i].lat <= q.lat) == (p[0].lat <= q.lat)
    ensures !InsideEvenOdd(p, q)
  {
    OneSideHasNoCrossing(p, q.lat);
  }

  lemma MarkerOnMidLat(p: seq<Position>)
    requires |p| > 0
    ensures MarkerOf(p).lat == MidLat(p)
  {
  }

  /** For any number of fitting holes, if the rings start on one side of the middle latitude. */
  lemma MarkerOutsideEveryHole(rings: seq<seq<Position>>)
    requires |rings| > 0 && AllClosed(rings) && HasInterior(Flatten(rings))
    requires (forall q :: HolesFit(rings, q)) && AnchorsOnOneSide(rings)
    ensures MarkerClear(rings)
  {
    NotInsideAnchors(rings);
    MarkerOutsideHolesExactly(rings);
  }

  // ---------------------------------------------------------------- two holes

  function Rectangle(x0: real, y0: real, x1: real, y1: real): seq<Position> {
    [Position(x0, y0), Position(x1, y0), Position(x1, y1), Position(x0, y1), Position(x0, y0)]
  }

  function SmallTriangle(): seq<Position> {
    [Position(9.0, 9.0), Position(9.5, 9.0), Position(9.0, 9.5), Position(9.0, 9.0)]
  }

  function MisleadingRings(): seq<seq<Position>> {
    [Rectangle(0.0, 0.0, 10.0, 10.0), Rectangle(1.0, 4.0, 9.0, 6.0), SmallTriangle()]
  }

  function MisleadingPositions(): seq<Position> {
    Rectangle(0.0, 0.0, 10.0, 10.0) + Rectangle(1.0, 4.0, 9.0, 6.0) + SmallTriangle()
  }

  lemma MisleadingFlatten()
    ensures AllClosed(MisleadingRings()) && Flatten(MisleadingRings()) == MisleadingPositions()
  {
    var rings := MisleadingRings();
    assert rings[..2] == [rings[0], rings[1]] && rings[..2][..1] == [rings[0]];
    assert Flatten([rings[0]]) == rings[0];
    assert Flatten(rings[..2]) == rings[0] + rings[1];
    assert Flatten(rings) == rings[0] + rings[1] + rings[2];
  }

  lemma MisleadingBox()
    ensures BoxOf(MisleadingPositions()) == Box(0.0, 0.0, 10.0, 10.0)
  {
    var p, b := MisleadingPositions(), Box(0.0, 0.0, 10.0, 10.0);
    forall c | c in p ensures b.Contains(c) {
      var i :| 0 <= i < |p| && p[i] == c;
      assert 0.0 <= p[i].lon <= 10.0 && 0.0 <= p[i].lat <= 10.0;
    }
    assert p[0] in p && p[2] in p;
    BoxIsTight(p);
    TightBoxUnique(p, BoxOf(p), b);
  }

  /** One more edge on a path whose crossings so far are xs. */
  lemma NextEdge(p: seq<Position>, i: nat, y: real, xs: seq<real>)
    requires i + 1 < |p| && PathX(p[..i + 1], y) == xs
    ensures PathX(p[..i + 2], y) == xs + EdgeX(p[i], p[i + 1], y)
  {
    PathXStep(p, i, y);
  }

  /** An upright edge crosses at its own longitude. */
  lemma UprightEdge(x: real, lat0: real, lat1: real, y: real)
    requires (lat0 <= y < lat1) || (lat1 <= y < lat0)
    ensures EdgeX(Position(x, lat0), Position(x, lat1), y) == [x]
  {
    var a, b := Position(x, lat0), Position(x, lat1);
    ZeroProduct((y - a.lat) / (b.lat - a.lat), b.lon - a.lon);
    assert CrossX(a, b, y) == x;
  }

  lemma ZeroProduct(t: real, z: real)
    requires z == 0.0
    ensures t * z == 0.0
  {
  }

  lemma FlatEdge(a: Position, b: Position, y: real)
    requires a.lat <= y <==> b.lat <= y
    ensures EdgeX(a, b, y) == []
  {
  }

  lemma JoinEdges()
    ensures EdgeX(Position(1.0, 4.0), Position(9.0, 9.0), 5.0) == [2.6]
    ensures EdgeX(Position(9.0, 9.0), Position(0.0, 0.0), 5.0) == [5.0]
  {
    assert (5.0 - 4.0) / (9.0 - 4.0) == 0.2;
    assert 1.0 + 0.2 * (9.0 - 1.0) == 2.6;
    var t := (5.0 - 9.0) / (0.0 - 9.0);
    assert t * -9.0 == -4.0;
    assert 9.0 + t * (0.0 - 9.0) == 5.0;
  }

  /** The crossings of an axis-parallel rectangle, as an open path that returns to its start. */
  lemma RectanglePath(p: seq<Position>, k: nat, x0: real, y0: real, x1: real, y1: real, y: real, xs: seq<real>)
    requires k + 4 < |p| && y0 <= y < y1
    requires p[k] == Position(x0, y0) && p[k + 1] == Position(x1, y0) && p[k + 2] == Position(x1, y1)
    requires p[k + 3] == Position(x0, y1) && p[k + 4] == Position(x0, y0)
    requires PathX(p[..k + 1], y) == xs
    ensures PathX(p[..k + 5], y) == xs + [x1, x0]
  {
    FlatEdge(p[k], p[k + 1], y);
    NextEdge(p, k, y, xs);
    UprightEdge(x1, y0, y1, y);
    NextEdge(p, k + 1, y, xs);
    FlatEdge(p[k + 2], p[k + 3], y);
    NextEdge(p, k + 2, y, xs + [x1]);
    UprightEdge(x0, y1, y0, y);
    NextEdge(p, k + 3, y, xs + [x1]);
  }

  /** The tail of the example: the join into the last hole, that hole, and the join back. */
  lemma MisleadingTail(p: seq<Position>, xs: seq<real>)
    requires |p| == 14 && PathX(p[..10], 5.0) == xs
    requires p[9] == Position(1.0, 4.0) && p[10] == p[13] == Position(9.0, 9.0) && p[0] == Position(0.0, 0.0)
    requires p[11].lat > 5.0 && p[12].lat > 5.0
    ensures Crossings(p, 5.0) == xs + [2.6, 5.0]
  {
    JoinEdges();
    NextEdge(p, 9, 5.0, xs);
    FlatEdge(p[10], p[11], 5.0);
    NextEdge(p, 10, 5.0, xs + [2.6]);
    FlatEdge(p[11], p[12], 5.0);
    NextEdge(p, 11, 5.0, xs + [2.6]);
    FlatEdge(p[12], p[13], 5.0);
    NextEdge(p, 12, 5.0, xs + [2.6]);
    assert p[..14] == p;
  }

  lemma MisleadingCrossings()
    ensures Crossings(MisleadingPositions(), 5.0) == [10.0, 0.0, 9.0, 1.0, 2.6, 5.0]
  {
    var p := MisleadingPositions();
    RectanglePath(p, 0, 0.0, 0.0, 10.0, 10.0, 5.0, []);
    FlatEdge(p[4], p[5], 5.0);
    NextEdge(p, 4, 5.0, [10.0, 0.0]);
    RectanglePath(p, 5, 1.0, 4.0, 9.0, 6.0, 5.0, [10.0, 0.0]);
    assert SmallTriangle()[1].lat > 5.0 && SmallTriangle()[2].lat > 5.0;
    MisleadingTail(p, [10.0, 0.0, 9.0, 1.0]);
  }

  lemma {:induction false} InsertAt(x: real, lo: seq<real>, hi: seq<real>)
    requires SortedReals(lo + hi)
    requires forall i :: 0 <= i < |lo| ==> lo[i] <= x
    requires forall i :: 0 <= i < |hi| ==> x < hi[i]
    ensures Insert(x, lo + hi) == lo + [x] + hi
  {
    var n := |hi| - 1;
    if hi == [] {
      assert lo + hi == lo;
      assert lo == [] || Insert(x, lo) == lo + [x];
    } else {
      assert (lo + hi)[..|lo + hi| - 1] == lo + hi[..n];
      InsertAt(x, lo, hi[..n]);
      assert lo + [x] + hi == lo + [x] + hi[..n] + [hi[n]];
    }
  }

  lemma SortNext(xs: seq<real>, x: real, lo: seq<real>, hi: seq<real>, ys: seq<real>, sorted: seq<real>)
    requires SortReals(xs) == lo + hi && ys == xs + [x] && sorted == lo + [x] + hi
    requires forall i :: 0 <= i < |lo| ==> lo[i] <= x
    requires forall i :: 0 <= i < |hi| ==> x < hi[i]
    ensures SortReals(ys) == sorted
  {
    assert ys[..|ys| - 1] == xs;
    InsertAt(x, lo, hi);
  }

  lemma FourSorted()
    ensures SortReals([10.0, 0.0, 9.0, 1.0]) == [0.0, 1.0, 9.0, 10.0]
  {
    SortNext([], 10.0, [], [], [10.0], [10.0]);
    SortNext([10.0], 0.0, [], [10.0], [10.0, 0.0], [0.0, 10.0]);
    SortNext([10.0, 0.0], 9.0, [0.0], [10.0], [10.0, 0.0, 9.0], [0.0, 9.0, 10.0]);
    SortNext([10.0, 0.0, 9.0], 1.0, [0.0], [9.0, 10.0], [10.0, 0.0, 9.0, 1.0], [0.0, 1.0, 9.0, 10.0]);
  }

  lemma SixSorted()
    ensures SortReals([10.0, 0.0, 9.0, 1.0, 2.6, 5.0]) == [0.0, 1.0, 2.6, 5.0, 9.0, 10.0]
  {
    FourSorted();
    SortNext([10.0, 0.0, 9.0, 1.0], 2.6, [0.0, 1.0], [9.0, 10.0],
             [10.0, 0.0, 9.0, 1.0, 2.6], [0.0, 1.0, 2.6, 9.0, 10.0]);
    SortNext([10.0, 0.0, 9.0, 1.0, 2.6], 5.0, [0.0, 1.0, 2.6], [9.0, 10.0],
             [10.0, 0.0, 9.0, 1.0, 2.6, 5.0], [0.0, 1.0, 2.6, 5.0, 9.0, 10.0]);
  }

  lemma SecondSpanWidest(xs: seq<real>)
    requires |xs| == 6 && Span(xs, 0) < Span(xs, 1) && Span(xs, 2) < Span(xs, 1)
    ensures WidestPair(xs, 3) == 1
  {
    assert WidestPair(xs, 1) == 0;
    assert WidestPair(xs, 2) == 1;
  }

  lemma MisleadingMarker()
    ensures MarkerOf(MisleadingPositions()) == Position(3.8, 5.0)
  {
    var p := MisleadingPositions();
    MisleadingBox();
    MisleadingCrossings();
    SixSorted();
    var xs := [0.0, 1.0, 2.6, 5.0, 9.0, 10.0];
    SecondSpanWidest(xs);
    assert MidLat(p) == 5.0;
    assert ScanLine(p) == xs;
    assert WidestMidpoint(xs) == 3.8;
  }

  /** A rectangle contains the points strictly between its sides. */
  lemma InsideRectangle(x0: real, y0: real, x1: real, y1: real, q: Position)
    requires x0 < q.lon < x1 && y0 <= q.lat < y1
    ensures InsideEvenOdd(Rectangle(x0, y0, x1, y1), q)
  {
    var p := Rectangle(x0, y0, x1, y1);
    RectanglePath(p, 0, x0, y0, x1, y1, q.lat, []);
    assert p[..5] == p;
    FlatEdge(p[4], p[0], q.lat);
    assert Crossings(p, q.lat) == [x1] + [x0];
    CountLeftAppend([x1], [x0], q.lon);
  }

  lemma {:induction false} AboveHasNoCrossing(p: seq<Position>, y: real)
    requires |p| > 0 && forall i :: 0 <= i < |p| ==> p[i].lat > y
    ensures Crossings(p, y) == [] && PathX(p, y) == []
  {
    if |p| > 1 {
      AboveHasNoCrossing(p[..|p| - 1], y);
    }
  }

  lemma OutsideTriangle(q: Position)
    requires q.lat == 5.0
    ensures !InsideEvenOdd(SmallTriangle(), q)
  {
    AboveHasNoCrossing(SmallTriangle(), 5.0);
  }

  /**
   * With two holes the joins no longer cancel: for this square with two disjoint holes, every ring
   * explicitly closed, the marker lands inside the outer ring and inside the first hole.
   */
  lemma TwoHolesCanMislead()
    ensures AllClosed(MisleadingRings()) && |Flatten(MisleadingRings())| > 0
    ensures var m := MarkerOf(Flatten(MisleadingRings()));
            && InsideEvenOdd(Rectangle(0.0, 0.0, 10.0, 10.0), m)
            && InsideEvenOdd(Rectangle(1.0, 4.0, 9.0, 6.0), m)
            && !InsideEvenOdd(SmallTriangle(), m)
  {
    MisleadingFlatten();
    MisleadingMarker();
    InsideRectangle(0.0, 0.0, 10.0, 10.0, Position(3.8, 5.0));
    InsideRectangle(1.0, 4.0, 9.0, 6.0, Position(3.8, 5.0));
    OutsideTriangle(Position(3.8, 5.0));
  }

  // ---------------------------------------------------------------- a pinched ring

  /** Two squares joined along a line of no width at their middle. */
  predicate Pinched(p: seq<Position>) {
    && |p| == 9 && p[0] == Position(0.0, 0.0) && p[1] == Position(1.0, 0.0) && p[2] == Position(1.0, 2.0)
    && p[3] == Position(2.0, 2.0) && p[4] == Position(2.0, 3.0) && p[5] == Position(1.0, 3.0)
    && p[6] == Position(1.0, 1.0) && p[7] == Position(0.0, 1.0) && p[8] == Position(0.0, 0.0)
  }

  lemma PinchedBox(p: seq<Position>)
    requires Pinched(p)
    ensures MidLat(p) == 1.5
  {
    BoxIsTight(p);
    assert p[0] in p && p[4] in p;
    forall c | c in p ensures Box(0.0, 0.0, 2.0, 3.0).Contains(c) {
      var i :| 0 <= i < |p| && p[i] == c;
    }
    TightBoxUnique(p, BoxOf(p), Box(0.0, 0.0, 2.0, 3.0));
  }

  lemma PinchedStart(p: seq<Position>, y: real)
    requires Pinched(p) && 0.0 <= y < 2.0
    ensures PathX(p[..6], y) == [1.0]
  {
    assert PathX(p[..1], y) == [];
    FlatEdge(p[0], p[1], y);
    NextEdge(p, 0, y, []);
    UprightEdge(1.0, 0.0, 2.0, y);
    NextEdge(p, 1, y, []);
    FlatEdge(p[2], p[3], y);
    NextEdge(p, 2, y, [1.0]);
    FlatEdge(p[3], p[4], y);
    NextEdge(p, 3, y, [1.0]);
    FlatEdge(p[4], p[5], y);
    NextEdge(p, 4, y, [1.0]);
  }

  lemma PinchedMiddle(p: seq<Position>, y: real)
    requires Pinched(p) && 1.0 <= y < 2.0
    ensures Crossings(p, y) == [1.0, 1.0]
  {
    PinchedStart(p, y);
    UprightEdge(1.0, 3.0, 1.0, y);
    NextEdge(p, 5, y, [1.0]);
    FlatEdge(p[6], p[7], y);
    NextEdge(p, 6, y, [1.0, 1.0]);
    FlatEdge(p[7], p[8], y);
    NextEdge(p, 7, y, [1.0, 1.0]);
    assert p[..9] == p;
  }

  lemma PinchedBelow(p: seq<Position>, y: real)
    requires Pinched(p) && 0.0 <= y < 1.0
    ensures Crossings(p, y) == [1.0, 0.0]
  {
    PinchedStart(p, y);
    FlatEdge(p[5], p[6], y);
    NextEdge(p, 5, y, [1.0]);
    FlatEdge(p[6], p[7], y);
    NextEdge(p, 6, y, [1.0]);
    UprightEdge(0.0, 1.0, 0.0, y);
    NextEdge(p, 7, y, [1.0]);
    assert p[..9] == p;
  }

  lemma CountPair(a: real, b: real, x: real)
    ensures CountLeft([a, b], x) == OneIf(a < x) + OneIf(b < x)
  {
    assert [a, b] == [a] + [b] && [a][..0] == [] && [b][..0] == [];
    CountLeftAppend([a], [b], x);
  }

  /** A closed ring with interior points, whose marker is not one of them. */
  lemma PinchedMarkerOutside(p: seq<Position>)
    requires Pinched(p)
    ensures ExplicitlyClosed(p) && InsideEvenOdd(p, Position(0.5, 0.5)) && !InsideEvenOdd(p, MarkerOf(p))
  {
    PinchedInside(p, Position(0.5, 0.5));
    PinchedBox(p);
    MarkerOnMidLat(p);
    PinchedOutside(p, MarkerOf(p));
  }

  lemma PinchedInside(p: seq<Position>, q: Position)
    requires Pinched(p) && 0.0 < q.lon <= 1.0 && 0.0 <= q.lat < 1.0
    ensures InsideEvenOdd(p, q)
  {
    PinchedBelow(p, q.lat);
    CountPair(1.0, 0.0, q.lon);
  }

  lemma PinchedOutside(p: seq<Position>, q: Position)
    requires Pinched(p) && 1.0 <= q.lat < 2.0
    ensures !InsideEvenOdd(p, q)
  {
    PinchedMiddle(p, q.lat);
    CountPair(1.0, 1.0, q.lon);
  }
}
