/**
 * Positions, bounding boxes, the ring comparison and the marker point of
 * api/internal/ingestor/gdacs.go. Floats are modelled as reals.
 */
module Geometry {

  datatype Position = Position(lon: real, lat: real)
  {
    function Swap(): Position { Position(lat, lon) }

    predicate InWgs84() { -180.0 <= lon <= 180.0 && -90.0 <= lat <= 90.0 }
  }

  datatype Box = Box(minLon: real, minLat: real, maxLon: real, maxLat: real)
  {
    predicate Contains(q: Position) { minLon <= q.lon <= maxLon && minLat <= q.lat <= maxLat }
  }

  predicate AllInWgs84(p: seq<Position>) { forall i :: 0 <= i < |p| ==> p[i].InWgs84() }

  // ---------------------------------------------------------------- boxes

  /** b is the smallest box around p: it contains every position and each side is touched. */
  ghost predicate TightBox(p: seq<Position>, b: Box) {
    && (forall c :: c in p ==> b.Contains(c))
    && (exists c :: c in p && c.lon == b.minLon)
    && (exists c :: c in p && c.lat == b.minLat)
    && (exists c :: c in p && c.lon == b.maxLon)
    && (exists c :: c in p && c.lat == b.maxLat)
  }

  function Widen(b: Box, c: Position): Box {
    Box(if c.lon < b.minLon then c.lon else b.minLon,
        if c.lat < b.minLat then c.lat else b.minLat,
        if c.lon > b.maxLon then c.lon else b.maxLon,
        if c.lat > b.maxLat then c.lat else b.maxLat)
  }

  function BoxOf(p: seq<Position>): Box
    requires |p| > 0
  {
    var last := p[|p| - 1];
    if |p| == 1 then Box(last.lon, last.lat, last.lon, last.lat) else Widen(BoxOf(p[..|p| - 1]), last)
  }

  lemma {:induction false} BoxIsTight(p: seq<Position>)
    requires |p| > 0
    ensures TightBox(p, BoxOf(p))
  {
    var last := p[|p| - 1];
    assert last in p;
    if |p| > 1 {
      BoxIsTight(p[..|p| - 1]);
      assert p == p[..|p| - 1] + [last];
      assert forall c :: c in p[..|p| - 1] ==> c in p;
    }
  }

  /** The smallest box is unique, so TightBox says everything about it. */
  lemma TightBoxUnique(p: seq<Position>, a: Box, b: Box)
    requires TightBox(p, a) && TightBox(p, b)
    ensures a == b
  {
    var c :| c in p && c.lon == a.minLon;
    var d :| d in p && d.lon == b.minLon;
    assert b.Contains(c) && a.Contains(d);
  }

  method PositionsBBox(p: seq<Position>) returns (b: Box)
    requires |p| > 0
    ensures b == BoxOf(p)
  {
    b := Box(p[0].lon, p[0].lat, p[0].lon, p[0].lat);
    for i := 0 to |p|
      invariant b == BoxOf(p[..if i == 0 then 1 else i])
    {
      var c := p[i];
      if c.lon < b.minLon { b := b.(minLon := c.lon); }
      if c.lat < b.minLat { b := b.(minLat := c.lat); }
      if c.lon > b.maxLon { b := b.(maxLon := c.lon); }
      if c.lat > b.maxLat { b := b.(maxLat := c.lat); }
      assert p[..i + 1][..i] == p[..i];
    }
    assert p[..|p|] == p;
  }

  /** Envelope overlap: the two closed boxes share a point. */
  predicate EnvelopesOverlap(a: Box, b: Box) {
    a.minLon <= b.maxLon && b.minLon <= a.maxLon && a.minLat <= b.maxLat && b.minLat <= a.maxLat
  }

  lemma EnvelopesOverlapIffCommonPoint(a: Box, b: Box)
    requires a.minLon <= a.maxLon && a.minLat <= a.maxLat
    requires b.minLon <= b.maxLon && b.minLat <= b.maxLat
    ensures EnvelopesOverlap(a, b) <==> exists q :: a.Contains(q) && b.Contains(q)
  {
    if EnvelopesOverlap(a, b) {
      var q := Position(if a.minLon < b.minLon then b.minLon else a.minLon,
                        if a.minLat < b.minLat then b.minLat else a.minLat);
      assert a.Contains(q) && b.Contains(q);
    }
  }

  // ---------------------------------------------------------------- ring comparison

  const COORD_TOLERANCE_DEG: real := 0.0002

  predicate Near(a: real, b: real) {
    a - b < COORD_TOLERANCE_DEG && a - b > -COORD_TOLERANCE_DEG
  }

  predicate NearPosition(a: Position, b: Position) { Near(a.lon, b.lon) && Near(a.lat, b.lat) }

  /** Vertex for vertex, g is e within tolerance. */
  predicate SameRing(e: seq<Position>, g: seq<Position>) {
    |e| == |g| && forall i :: 0 <= i < |e| ==> NearPosition(e[i], g[i])
  }

  function SwapAll(p: seq<Position>): (q: seq<Position>)
    ensures |q| == |p| && forall i :: 0 <= i < |p| ==> q[i] == p[i].Swap()
  {
    seq(|p|, i requires 0 <= i < |p| => p[i].Swap())
  }

  predicate Corresponds(e: seq<Position>, g: seq<Position>) {
    |e| > 0 && (SameRing(e, g) || SameRing(SwapAll(e), g))
  }

  /** The early-exit comparison loop decides Corresponds, and prefers the direct reading. */
  method PositionsCorrespond(e: seq<Position>, g: seq<Position>) returns (transposed: bool, ok: bool)
    ensures ok <==> Corresponds(e, g)
    ensures transposed <==> ok && !SameRing(e, g)
  {
    if |e| == 0 || |e| != |g| {
      return false, false;
    }
    var direct, swapped := true, true;
    for i := 0 to |e|
      invariant direct <==> forall k :: 0 <= k < i ==> NearPosition(e[k], g[k])
      invariant swapped <==> forall k :: 0 <= k < i ==> NearPosition(e[k].Swap(), g[k])
      invariant direct || swapped
    {
      if !Near(e[i].lon, g[i].lon) || !Near(e[i].lat, g[i].lat) {
        assert !NearPosition(e[i], g[i]);
        direct := false;
      }
      if !Near(e[i].lat, g[i].lon) || !Near(e[i].lon, g[i].lat) {
        assert !NearPosition(e[i].Swap(), g[i]);
        swapped := false;
      }
      if !direct && !swapped {
        return false, false;
      }
    }
    return !direct, true;
  }

  /** Reading the EONET ring in the other axis order never changes whether a GDACS ring matches. */
  lemma CorrespondsIsAxisFree(e: seq<Position>, g: seq<Position>)
    ensures Corresponds(SwapAll(e), g) <==> Corresponds(e, g)
  {
    assert SwapAll(SwapAll(e)) == e;
  }

  // ---------------------------------------------------------------- telling two rings apart

  function Clamp(v: real, bound: real): real { if v > bound then bound else if v < -bound then -bound else v }

  /** Shifted on both axes, as far as the WGS84 range allows. */
  function Nudged(p: Position, t: real): Position { Position(Clamp(p.lon + t, 180.0), Clamp(p.lat + t, 90.0)) }

  function NudgedAll(p: seq<Position>, t: real): (q: seq<Position>)
    ensures |q| == |p| && forall i :: 0 <= i < |p| ==> q[i] == Nudged(p[i], t)
  {
    seq(|p|, i requires 0 <= i < |p| => Nudged(p[i], t))
  }

  /**
   * How far b is ahead of o, in one direction, on an axis where o keeps the tolerance from the bound in
   * that direction; nothing if there is no such axis.
   */
  function Lead(b: Position, o: Position, up: bool): real {
    if up then
      if b.lon > o.lon && o.lon <= 180.0 - COORD_TOLERANCE_DEG then b.lon - o.lon
      else if b.lat > o.lat && o.lat <= 90.0 - COORD_TOLERANCE_DEG then b.lat - o.lat
      else 0.0
    else
      if b.lon < o.lon && o.lon >= -180.0 + COORD_TOLERANCE_DEG then o.lon - b.lon
      else if b.lat < o.lat && o.lat >= -90.0 + COORD_TOLERANCE_DEG then o.lat - b.lat
      else 0.0
  }

  /** A shift that falls short of the tolerance by less than the lead takes b out of o's reach. */
  lemma NudgeLeaves(b: Position, o: Position, up: bool, size: real)
    requires b.InWgs84() && 0.0 <= size < COORD_TOLERANCE_DEG
    requires Lead(b, o, up) > 0.0 && size >= COORD_TOLERANCE_DEG - Lead(b, o, up)
    ensures !NearPosition(o, Nudged(b, if up then size else -size))
  {
  }

  /** Shifting b in this direction leaves o behind at one of two places, and o's swap too. */
  predicate Parts(bi: Position, oi: Position, bj: Position, oj: Position, up: bool) {
    && (Lead(bi, oi, up) > 0.0 || Lead(bj, oj, up) > 0.0)
    && (Lead(bi, oi.Swap(), up) > 0.0 || Lead(bj, oj.Swap(), up) > 0.0)
  }

  /** Of the four shifts, either ring in either direction, one always parts them, at the edge of the range too. */
  lemma SomeShiftParts(ri: Position, si: Position, rj: Position, sj: Position)
    requires ri.InWgs84() && si.InWgs84() && rj.InWgs84() && sj.InWgs84()
    requires ri != si && rj != sj.Swap()
    ensures Parts(ri, si, rj, sj, true) || Parts(ri, si, rj, sj, false)
            || Parts(si, ri, sj, rj, true) || Parts(si, ri, sj, rj, false)
  {
  }

  /** The shifted ring corresponds to b, and not to o. */
  lemma ShiftParts(b: seq<Position>, o: seq<Position>, i: nat, j: nat, up: bool) returns (g: seq<Position>)
    requires |b| == |o| && i < |b| && j < |b| && AllInWgs84(b) && Parts(b[i], o[i], b[j], o[j], up)
    ensures |g| == |b| && AllInWgs84(g) && Corresponds(b, g) && !Corresponds(o, g)
  {
    var d := if Lead(b[i], o[i], up) > 0.0 then i else j;
    var e := if Lead(b[i], o[i].Swap(), up) > 0.0 then i else j;
    var x, y := Lead(b[d], o[d], up), Lead(b[e], o[e].Swap(), up);
    var least := if x < y then x else y;
    var size := if least < COORD_TOLERANCE_DEG then COORD_TOLERANCE_DEG - least / 2.0 else COORD_TOLERANCE_DEG / 2.0;
    g := NudgedAll(b, if up then size else -size);
    NudgeLeaves(b[d], o[d], up, size);
    NudgeLeaves(b[e], o[e].Swap(), up, size);
    assert !NearPosition(o[d], g[d]);
    assert !NearPosition(SwapAll(o)[e], g[e]);
    assert SameRing(b, g);
  }

  /**
   * Two different rings in range, neither the other's swap, are told apart by some GDACS ring in range:
   * it corresponds to exactly one of them.
   */
  lemma SeparatingRing(r: seq<Position>, s: seq<Position>) returns (g: seq<Position>)
    requires |s| == |r| && s != r && s != SwapAll(r) && AllInWgs84(r) && AllInWgs84(s)
    ensures |g| == |r| && AllInWgs84(g) && Corresponds(r, g) != Corresponds(s, g)
  {
    var i :| 0 <= i < |r| && s[i] != r[i];
    var j :| 0 <= j < |r| && s[j] != SwapAll(r)[j];
    assert s[j].Swap() != r[j];
    SomeShiftParts(r[i], s[i], r[j], s[j]);
    if Parts(r[i], s[i], r[j], s[j], true) {
      g := ShiftParts(r, s, i, j, true);
    } else if Parts(r[i], s[i], r[j], s[j], false) {
      g := ShiftParts(r, s, i, j, false);
    } else if Parts(s[i], r[i], s[j], r[j], true) {
      g := ShiftParts(s, r, i, j, true);
    } else {
      g := ShiftParts(s, r, i, j, false);
    }
  }
}
