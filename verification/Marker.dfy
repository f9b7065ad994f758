/**
 * The marker point (representativePoint in api/internal/ingestor/gdacs.go): scan-line
 * crossings, the widest interior span, and what the even-odd rule makes of the result.
 */
module Marker {
  import opened Arithmetic
  import opened Geometry

  // ---------------------------------------------------------------- crossings

  /** The half-open crossing test: exactly one end is strictly above the line. */
  predicate Crosses(a: Position, b: Position, y: real) {
    (a.lat <= y && b.lat > y) || (b.lat <= y && a.lat > y)
  }

  function CrossX(a: Position, b: Position, y: real): real
    requires Crosses(a, b, y)
  {
    a.lon + ((y - a.lat) / (b.lat - a.lat)) * (b.lon - a.lon)
  }

  function EdgeX(a: Position, b: Position, y: real): seq<real> {
    if Crosses(a, b, y) then [CrossX(a, b, y)] else []
  }

  /** Crossings of the open path p[0], p[1], ..., in edge order. */
  function PathX(p: seq<Position>, y: real): seq<real> {
    if |p| < 2 then [] else PathX(p[..|p| - 1], y) + EdgeX(p[|p| - 2], p[|p| - 1], y)
  }

  /** Crossings of the closed sequence: the path, then the edge from the last position back to the first. */
  function Crossings(p: seq<Position>, y: real): seq<real>
    requires |p| > 0
  {
    PathX(p, y) + EdgeX(p[|p| - 1], p[0], y)
  }

  /** How many of xs lie strictly left of x. */
  function CountLeft(xs: seq<real>, x: real): nat {
    if xs == [] then 0 else CountLeft(xs[..|xs| - 1], x) + if xs[|xs| - 1] < x then 1 else 0
  }

  /** The even-odd rule: a ray to the left of q crosses the closed sequence an odd number of times. */
  predicate InsideEvenOdd(p: seq<Position>, q: Position)
    requires |p| > 0
  {
    CountLeft(Crossings(p, q.lat), q.lon) % 2 == 1
  }

  lemma {:induction false} CountLeftAppend(xs: seq<real>, ys: seq<real>, x: real)
    ensures CountLeft(xs + ys, x) == CountLeft(xs, x) + CountLeft(ys, x)
  {
    if ys == [] {
      assert xs + ys == xs;
    } else {
      var n := |ys| - 1;
      assert (xs + ys)[..|xs + ys| - 1] == xs + ys[..n];
      CountLeftAppend(xs, ys[..n], x);
    }
  }

  // ---------------------------------------------------------------- sorting (the library's sort.Float64s)

  predicate SortedReals(xs: seq<real>) { forall i, j :: 0 <= i < j < |xs| ==> xs[i] <= xs[j] }

  function Insert(x: real, xs: seq<real>): (r: seq<real>)
    requires SortedReals(xs)
    ensures SortedReals(r) && |r| == |xs| + 1
    ensures forall v :: v in r <==> v in xs || v == x
  {
    if xs == [] then [x]
    else
      var n := |xs| - 1;
      if xs[n] <= x then xs + [x]
      else
        var r := Insert(x, xs[..n]);
        assert forall v :: v in xs <==> v in xs[..n] || v == xs[n];
        assert forall k :: 0 <= k < |r| ==> r[k] in r;
        r + [xs[n]]
  }

  function SortReals(xs: seq<real>): (r: seq<real>)
    ensures SortedReals(r) && |r| == |xs|
    ensures forall v :: v in r <==> v in xs
  {
    if xs == [] then []
    else
      var n := |xs| - 1;
      assert forall v :: v in xs <==> v in xs[..n] || v == xs[n];
      Insert(xs[n], SortReals(xs[..n]))
  }

  lemma {:induction false} CountLeftInsert(x: real, xs: seq<real>, at: real)
    requires SortedReals(xs)
    ensures CountLeft(Insert(x, xs), at) == CountLeft(xs, at) + if x < at then 1 else 0
  {
    if xs == [] {
      assert [x][..0] == [];
    } else {
      var n := |xs| - 1;
      if xs[n] <= x {
        assert (xs + [x])[..n + 1] == xs;
      } else {
        var r := Insert(x, xs[..n]);
        CountLeftInsert(x, xs[..n], at);
        assert (r + [xs[n]])[..|r|] == r;
      }
    }
  }

  lemma {:induction false} CountLeftSort(xs: seq<real>, at: real)
    ensures CountLeft(SortReals(xs), at) == CountLeft(xs, at)
  {
    if xs != [] {
      var n := |xs| - 1;
      CountLeftSort(xs[..n], at);
      CountLeftInsert(xs[n], SortReals(xs[..n]), at);
    }
  }

  /** In a sorted sequence, a value between neighbours k-1 and k has exactly k values to its left. */
  lemma {:induction false} CountLeftSorted(xs: seq<real>, k: nat, at: real)
    requires SortedReals(xs) && k <= |xs|
    requires forall i :: 0 <= i < k ==> xs[i] < at
    requires forall i :: k <= i < |xs| ==> at <= xs[i]
    ensures CountLeft(xs, at) == k
  {
    if xs != [] {
      var n := |xs| - 1;
      CountLeftSorted(xs[..n], if k <= n then k else n, at);
    }
  }

  // ---------------------------------------------------------------- the marker

  function Span(xs: seq<real>, pair: nat): real
    requires 2 * pair + 1 < |xs|
  {
    xs[2 * pair + 1] - xs[2 * pair]
  }

  /** The first widest of the first k interior spans (0,1), (2,3), ... */
  function WidestPair(xs: seq<real>, k: nat): (best: nat)
    requires 1 <= k && 2 * k <= |xs|
    ensures best < k
    ensures forall j :: 0 <= j < k ==> Span(xs, j) <= Span(xs, best)
    ensures forall j :: 0 <= j < best ==> Span(xs, j) < Span(xs, best)
  {
    if k == 1 then 0
    else
      var best := WidestPair(xs, k - 1);
      if Span(xs, k - 1) > Span(xs, best) then k - 1 else best
  }

  function MidLat(p: seq<Position>): real
    requires |p| > 0
  {
    (BoxOf(p).minLat + BoxOf(p).maxLat) / 2.0
  }

  /** The sorted crossings of the horizontal line through the middle of the box. */
  function ScanLine(p: seq<Position>): seq<real>
    requires |p| > 0
  {
    SortReals(Crossings(p, MidLat(p)))
  }

  function MarkerOf(p: seq<Position>): Position
    requires |p| > 0
  {
    var xs := ScanLine(p);
    Position(if |xs| < 2 then (BoxOf(p).minLon + BoxOf(p).maxLon) / 2.0 else WidestMidpoint(xs), MidLat(p))
  }

  function WidestMidpoint(xs: seq<real>): real
    requires |xs| >= 2
  {
    var best := WidestPair(xs, |xs| / 2);
    (xs[2 * best] + xs[2 * best + 1]) / 2.0
  }

  lemma PathXStep(p: seq<Position>, i: nat, y: real)
    requires i + 1 < |p|
    ensures PathX(p[..i + 2], y) == PathX(p[..i + 1], y) + EdgeX(p[i], p[i + 1], y)
  {
    assert p[..i + 2][..i + 1] == p[..i + 1];
  }

  /** The loop over the edges, the last one wrapping round to the first position. */
  method ScanCrossings(p: seq<Position>, y: real) returns (xs: seq<real>)
    requires |p| > 0
    ensures xs == Crossings(p, y)
  {
    xs := [];
    for i := 0 to |p|
      invariant i < |p| ==> xs == PathX(p[..i + 1], y)
      invariant i == |p| ==> xs == Crossings(p, y)
    {
      var a, b := p[i], p[if i + 1 == |p| then 0 else i + 1];
      if i + 1 < |p| {
        PathXStep(p, i, y);
      } else {
        assert p[..i + 1] == p;
      }
      if (a.lat <= y && b.lat > y) || (b.lat <= y && a.lat > y) {
        xs := xs + [CrossX(a, b, y)];
      }
    }
  }

  /** The loop over the interior spans of the sorted crossings. */
  method WidestSpan(xs: seq<real>) returns (lo: real, hi: real)
    requires |xs| >= 2
    ensures (lo + hi) / 2.0 == WidestMidpoint(xs)
  {
    var width;
    lo, hi, width := xs[0], xs[1], xs[1] - xs[0];
    var i := 0;
    while i + 1 < |xs|
      invariant i % 2 == 0 && i <= |xs|
      invariant var best := if i == 0 then 0 else WidestPair(xs, i / 2);
                lo == xs[2 * best] && hi == xs[2 * best + 1] && width == Span(xs, best)
    {
      var w := xs[i + 1] - xs[i];
      assert w == Span(xs, i / 2);
      if w > width {
        lo, hi, width := xs[i], xs[i + 1], w;
      }
      i := i + 2;
    }
  }

  method RepresentativePoint(p: seq<Position>) returns (lon: real, lat: real)
    requires |p| > 0
    ensures Position(lon, lat) == MarkerOf(p)
  {
    var box := PositionsBBox(p);
    var y := (box.minLat + box.maxLat) / 2.0;
    var xs := ScanCrossings(p, y);
    if |xs| < 2 {
      return (box.minLon + box.maxLon) / 2.0, y;
    }
    assert xs == Crossings(p, MidLat(p));
    xs := SortReals(xs);
    assert xs == ScanLine(p);
    var lo, hi := WidestSpan(xs);
    return (lo + hi) / 2.0, y;
  }

  // ---------------------------------------------------------------- parity

  /** A path crosses the line an odd number of times exactly when its ends are on different sides. */
  lemma {:induction false} PathParity(p: seq<Position>, y: real)
    requires |p| > 0
    ensures |PathX(p, y)| % 2 == if (p[0].lat <= y) == (p[|p| - 1].lat <= y) then 0 else 1
  {
    if |p| > 1 {
      PathParity(p[..|p| - 1], y);
    }
  }

  lemma EvenCrossings(p: seq<Position>, y: real)
    requires |p| > 0
    ensures |Crossings(p, y)| % 2 == 0
  {
    PathParity(p, y);
  }

  /** With no crossing at all, every position is on the same side. */
  lemma {:induction false} NoCrossingOneSide(p: seq<Position>, y: real)
    requires |p| > 0 && PathX(p, y) == []
    ensures forall i :: 0 <= i < |p| ==> ((p[i].lat <= y) <==> (p[0].lat <= y))
  {
    if |p| > 1 {
      NoCrossingOneSide(p[..|p| - 1], y);
    }
  }

  ghost predicate TwoLatitudes(p: seq<Position>) {
    exists i, j :: 0 <= i < |p| && 0 <= j < |p| && p[i].lat != p[j].lat
  }

  /** The bounding-box-centre fallback is taken exactly for a ring with a single latitude. */
  lemma FallbackIffFlat(p: seq<Position>)
    requires |p| > 0
    ensures |ScanLine(p)| % 2 == 0
    ensures |ScanLine(p)| >= 2 <==> TwoLatitudes(p)
  {
    var y := MidLat(p);
    var b := BoxOf(p);
    EvenCrossings(p, y);
    BoxIsTight(p);
    var lowest :| lowest in p && lowest.lat == b.minLat;
    var highest :| highest in p && highest.lat == b.maxLat;
    var i :| 0 <= i < |p| && p[i] == lowest;
    var j :| 0 <= j < |p| && p[j] == highest;
    if TwoLatitudes(p) {
      var k, l :| 0 <= k < |p| && 0 <= l < |p| && p[k].lat != p[l].lat;
      assert p[k] in p && p[l] in p;
      assert b.minLat < b.maxLat;
      if PathX(p, y) == [] {
        NoCrossingOneSide(p, y);
        assert false;
      }
    } else {
      assert p[i].lat == p[j].lat;
      FlatHasNoCrossing(p, y);
    }
  }

  lemma {:induction false} FlatHasNoCrossing(p: seq<Position>, y: real)
    requires |p| > 0
    requires forall i, j :: 0 <= i < |p| && 0 <= j < |p| ==> p[i].lat == p[j].lat
    ensures PathX(p, y) == [] && Crossings(p, y) == []
  {
    if |p| > 1 {
      FlatHasNoCrossing(p[..|p| - 1], y);
    }
  }

  // ---------------------------------------------------------------- the marker stays in the box

  lemma CrossXBetween(a: Position, b: Position, y: real, lo: real, hi: real)
    requires Crosses(a, b, y)
    requires lo <= a.lon <= hi && lo <= b.lon <= hi
    ensures lo <= CrossX(a, b, y) <= hi
  {
    var t := (y - a.lat) / (b.lat - a.lat);
    UnitFraction(y - a.lat, b.lat - a.lat);
    ConvexBounds(a.lon, b.lon, t, lo, hi);
  }

  lemma UnitFraction(n: real, d: real)
    requires (0.0 <= n <= d && 0.0 < d) || (d <= n <= 0.0 && d < 0.0)
    ensures 0.0 <= n / d <= 1.0
  {
    var t := n / d;
    assert t * d == n;
  }

  lemma ConvexBounds(a: real, b: real, t: real, lo: real, hi: real)
    requires 0.0 <= t <= 1.0 && lo <= a <= hi && lo <= b <= hi
    ensures lo <= a + t * (b - a) <= hi
  {
    calc {
      a + t * (b - a) - lo;
      (1.0 - t) * (a - lo) + t * (b - lo);
    }
    calc {
      hi - (a + t * (b - a));
      (1.0 - t) * (hi - a) + t * (hi - b);
    }
    NonNegativeProduct(1.0 - t, a - lo);
    NonNegativeProduct(t, b - lo);
    NonNegativeProduct(1.0 - t, hi - a);
    NonNegativeProduct(t, hi - b);
  }

  lemma {:induction false} PathXBetween(p: seq<Position>, y: real, lo: real, hi: real)
    requires forall c :: c in p ==> lo <= c.lon <= hi
    ensures forall x :: x in PathX(p, y) ==> lo <= x <= hi
  {
    if |p| >= 2 {
      var n := |p| - 1;
      assert p[n] in p && p[n - 1] in p;
      PathXBetween(p[..n], y, lo, hi);
      if Crosses(p[n - 1], p[n], y) {
        CrossXBetween(p[n - 1], p[n], y, lo, hi);
      }
    }
  }

  lemma MarkerInBox(p: seq<Position>)
    requires |p| > 0
    ensures BoxOf(p).Contains(MarkerOf(p))
  {
    BoxIsTight(p);
    if |ScanLine(p)| >= 2 {
      ScanLineBetween(p, BoxOf(p).minLon, BoxOf(p).maxLon);
    }
  }

  lemma CrossingsBetween(p: seq<Position>, y: real, lo: real, hi: real)
    requires |p| > 0 && forall c :: c in p ==> lo <= c.lon <= hi
    ensures forall x :: x in Crossings(p, y) ==> lo <= x <= hi
  {
    var first, last := p[0], p[|p| - 1];
    assert first in p && last in p;
    PathXBetween(p, y, lo, hi);
    if Crosses(last, first, y) {
      CrossXBetween(last, first, y, lo, hi);
    }
  }

  lemma ScanLineBetween(p: seq<Position>, lo: real, hi: real)
    requires |p| > 0 && forall c :: c in p ==> lo <= c.lon <= hi
    ensures forall i :: 0 <= i < |ScanLine(p)| ==> lo <= ScanLine(p)[i] <= hi
  {
    CrossingsBetween(p, MidLat(p), lo, hi);
    assert forall i :: 0 <= i < |ScanLine(p)| ==> ScanLine(p)[i] in ScanLine(p);
  }

  // ---------------------------------------------------------------- the marker is inside

  /** The width of the widest interior span. */
  function WidestWidth(p: seq<Position>): real
    requires |p| > 0 && |ScanLine(p)| >= 2
  {
    Span(ScanLine(p), WidestPair(ScanLine(p), |ScanLine(p)| / 2))
  }

  /**
   * The marker is an even-odd interior point exactly when some interior span has positive width,
   * and then it is on no crossing either.
   */
  lemma MarkerInsideIffPositiveSpan(p: seq<Position>)
    requires |p| > 0 && TwoLatitudes(p)
    ensures |ScanLine(p)| >= 2
    ensures InsideEvenOdd(p, MarkerOf(p)) <==> WidestWidth(p) > 0.0
    ensures WidestWidth(p) > 0.0 ==> MarkerOf(p).lon !in Crossings(p, MarkerOf(p).lat)
  {
    FallbackIffFlat(p);
    WidestMidpointParity(Crossings(p, MidLat(p)));
  }

  /** The line through the middle of the sequence meets its even-odd interior. */
  ghost predicate MidLineMeetsInterior(p: seq<Position>)
    requires |p| > 0
  {
    exists x :: InsideEvenOdd(p, Position(x, MidLat(p)))
  }

  /** If all pairs are empty, every point has an even count to its left. */
  lemma {:induction false} EmptyPairsAreEven(xs: seq<real>, x: real)
    requires |xs| % 2 == 0 && forall j: nat :: 2 * j + 1 < |xs| ==> xs[2 * j] == xs[2 * j + 1]
    ensures CountLeft(xs, x) % 2 == 0
  {
    if xs != [] {
      var n := |xs| - 2;
      assert xs[..n + 1][..n] == xs[..n];
      assert xs[2 * (n / 2)] == xs[2 * (n / 2) + 1];
      EmptyPairsAreEven(xs[..n], x);
    }
  }

  /** A sorted sequence with an odd count left of some point has a pair of positive width. */
  lemma OddCountNeedsSpan(xs: seq<real>, x: real) returns (j: nat)
    requires SortedReals(xs) && |xs| % 2 == 0 && CountLeft(xs, x) % 2 == 1
    ensures 2 * j + 1 < |xs| && Span(xs, j) > 0.0
  {
    if j' : nat :| 2 * j' + 1 < |xs| && xs[2 * j'] != xs[2 * j' + 1] {
      return j';
    }
    EmptyPairsAreEven(xs, x);
    assert false;
  }

  /** A point inside on the line makes the widest span positive. */
  lemma InsideMakesSpan(cs: seq<real>, x: real)
    requires |cs| >= 2 && |cs| % 2 == 0 && CountLeft(cs, x) % 2 == 1
    ensures var xs := SortReals(cs); Span(xs, WidestPair(xs, |xs| / 2)) > 0.0
  {
    var xs := SortReals(cs);
    CountLeftSort(cs, x);
    var j := OddCountNeedsSpan(xs, x);
    assert Span(xs, j) <= Span(xs, WidestPair(xs, |xs| / 2));
  }

  /**
   * The marker is an even-odd interior point exactly when the line through the middle of the sequence
   * has one at all; then it is on no crossing either.
   */
  lemma MarkerInsideExactly(p: seq<Position>)
    requires |p| > 0
    ensures InsideEvenOdd(p, MarkerOf(p)) <==> MidLineMeetsInterior(p)
    ensures MidLineMeetsInterior(p) ==> TwoLatitudes(p) && MarkerOf(p).lon !in Crossings(p, MarkerOf(p).lat)
  {
    var y := MidLat(p);
    FallbackIffFlat(p);
    if InsideEvenOdd(p, MarkerOf(p)) {
      assert InsideEvenOdd(p, Position(MarkerOf(p).lon, y));
    }
    if MidLineMeetsInterior(p) {
      var x :| InsideEvenOdd(p, Position(x, y));
      assert |Crossings(p, y)| >= 2;
      InsideMakesSpan(Crossings(p, y), x);
      MarkerInsideIffPositiveSpan(p);
    }
  }

  lemma WidestMidpointParity(cs: seq<real>)
    requires |cs| >= 2
    ensures var xs := SortReals(cs);
            var x := WidestMidpoint(xs);
            && (CountLeft(cs, x) % 2 == 1 <==> Span(xs, WidestPair(xs, |xs| / 2)) > 0.0)
            && (Span(xs, WidestPair(xs, |xs| / 2)) > 0.0 ==> x !in cs)
  {
    var xs := SortReals(cs);
    var best := WidestPair(xs, |xs| / 2);
    var x := WidestMidpoint(xs);
    assert x == (xs[2 * best] + xs[2 * best + 1]) / 2.0;
    CountLeftSort(cs, x);
    MidpointCount(xs, best, x);
  }

  /** The midpoint of the first widest span has an odd count to its left exactly when that span is not empty. */
  lemma MidpointCount(xs: seq<real>, best: nat, x: real)
    requires SortedReals(xs) && 2 * best + 1 < |xs|
    requires forall j :: 0 <= j < best ==> Span(xs, j) < Span(xs, best)
    requires x == (xs[2 * best] + xs[2 * best + 1]) / 2.0
    ensures CountLeft(xs, x) % 2 == 1 <==> Span(xs, best) > 0.0
    ensures Span(xs, best) > 0.0 ==> x !in xs
  {
    if Span(xs, best) > 0.0 {
      CountLeftSorted(xs, 2 * best + 1, x);
    } else {
      assert best == 0 by { FirstOfEmptySpans(xs, best); }
      CountLeftSorted(xs, 0, x);
    }
  }

  lemma FirstOfEmptySpans(xs: seq<real>, best: nat)
    requires SortedReals(xs) && 2 * best + 1 < |xs|
    requires forall j :: 0 <= j < best ==> Span(xs, j) < Span(xs, best)
    ensures best == 0 || Span(xs, best) > 0.0
  {
    assert best == 0 || (0.0 <= Span(xs, 0) < Span(xs, best));
  }

  /** No other interior span of the scan line is wider than the one the marker sits in. */
  lemma MarkerInWidestSpan(p: seq<Position>, j: nat)
    requires |p| > 0 && 2 * j + 1 < |ScanLine(p)|
    ensures exists lo, hi :: lo in Crossings(p, MidLat(p)) && hi in Crossings(p, MidLat(p))
              && MarkerOf(p) == Position((lo + hi) / 2.0, MidLat(p))
              && hi - lo >= Span(ScanLine(p), j)
  {
    var xs := ScanLine(p);
    var best := WidestPair(xs, |xs| / 2);
    assert xs[2 * best] in xs && xs[2 * best + 1] in xs;
  }
}
