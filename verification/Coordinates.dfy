/**
 * GeoJSON coordinate trees: the plausibility walk of
 * api/internal/normalizer/normalizer.go and the flattener of
 * api/internal/ingestor/gdacs.go, over decoded JSON values.
 */
module Coordinates {
  import opened Geometry
  import opened Rings

  /** A decoded JSON value. Objects, strings, booleans and null play no part in a coordinate tree. */
  datatype Json = Number(value: real) | Array(items: seq<Json>) | Other(what: string)

  const MAX_COORDINATE_NESTING: nat := 8

  // ---------------------------------------------------------------- the walk

  datatype Walked = Refused | Accepted(count: nat)

  function Walk(v: Json, depth: nat): Walked
    decreases v, 1
  {
    if depth > MAX_COORDINATE_NESTING then Refused
    else if !v.Array? || v.items == [] then Refused
    else if v.items[0].Number? then
      if IsPosition(v.items) && PositionOf(v.items).InWgs84() then Accepted(1) else Refused
    else WalkItems(v.items, depth + 1)
  }

  function WalkItems(items: seq<Json>, depth: nat): Walked
    decreases items, 0
  {
    if items == [] then Accepted(0)
    else
      var before := WalkItems(items[..|items| - 1], depth);
      var item := items[|items| - 1];
      if before.Refused? || item.Number? then Refused
      else
        var last := Walk(item, depth);
        if last.Refused? then Refused else Accepted(before.count + last.count)
  }

  /** A position: at least two numbers, and every further element a number too (section 3.1.1 of RFC 7946). */
  predicate IsPosition(items: seq<Json>) {
    |items| >= 2 && forall i :: 0 <= i < |items| ==> items[i].Number?
  }

  function PositionOf(items: seq<Json>): Position
    requires IsPosition(items)
  {
    Position(items[0].value, items[1].value)
  }

  lemma {:induction false} WalkItemsPrefix(items: seq<Json>, k: nat, depth: nat)
    requires k <= |items| && WalkItems(items[..k], depth).Refused?
    ensures WalkItems(items, depth).Refused?
  {
    if k < |items| {
      assert items[..|items| - 1][..k] == items[..k];
      WalkItemsPrefix(items[..|items| - 1], k, depth);
    } else {
      assert items[..k] == items;
    }
  }

  /** The recursion with its accumulating loop computes Walk. */
  method WalkCoordinates(v: Json, depth: nat) returns (count: nat, ok: bool)
    ensures ok <==> Walk(v, depth).Accepted?
    ensures ok ==> Walk(v, depth) == Accepted(count)
    decreases v
  {
    if depth > MAX_COORDINATE_NESTING || !v.Array? || |v.items| == 0 {
      return 0, false;
    }
    var arr := v.items;
    if arr[0].Number? {
      if |arr| < 2 || !arr[1].Number? {
        return 0, false;
      }
      for i := 2 to |arr|
        invariant forall k :: 0 <= k < i ==> arr[k].Number?
      {
        if !arr[i].Number? {
          return 0, false;
        }
      }
      if !Position(arr[0].value, arr[1].value).InWgs84() {
        return 0, false;
      }
      return 1, true;
    }
    var total := 0;
    for i := 0 to |arr|
      invariant WalkItems(arr[..i], depth + 1) == Accepted(total)
    {
      assert arr[..i + 1][..i] == arr[..i];
      if arr[i].Number? {
        WalkItemsPrefix(arr, i + 1, depth + 1);
        return 0, false;
      }
      var n, itemOk := WalkCoordinates(arr[i], depth + 1);
      if !itemOk {
        WalkItemsPrefix(arr, i + 1, depth + 1);
        return 0, false;
      }
      total := total + n;
    }
    assert arr[..|arr|] == arr;
    return total, true;
  }

  /** The guard a polygon must pass before it is normalised at all. */
  predicate PolygonPlausible(coordinates: Json) {
    Walk(coordinates, 0).Accepted? && Walk(coordinates, 0).count > 0
  }

  // ---------------------------------------------------------------- the flattener

  function Collect(v: Json): seq<Position>
    decreases v, 1
  {
    if !v.Array? || v.items == [] then []
    else if v.items[0].Number? then
      if |v.items| < 2 || !v.items[1].Number? then []
      else [Position(v.items[0].value, v.items[1].value)]
    else CollectItems(v.items)
  }

  function CollectItems(items: seq<Json>): seq<Position>
    decreases items, 0
  {
    if items == [] then []
    else CollectItems(items[..|items| - 1]) + Collect(items[|items| - 1])
  }

  method CollectPositions(v: Json) returns (out: seq<Position>)
    ensures out == Collect(v)
    decreases v
  {
    if !v.Array? || |v.items| == 0 {
      return [];
    }
    if v.items[0].Number? {
      if |v.items| < 2 || !v.items[1].Number? {
        return [];
      }
      return [Position(v.items[0].value, v.items[1].value)];
    }
    out := [];
    for i := 0 to |v.items|
      invariant out == CollectItems(v.items[..i])
    {
      assert v.items[..i + 1][..i] == v.items[..i];
      var more := CollectPositions(v.items[i]);
      out := out + more;
    }
    assert v.items[..|v.items|] == v.items;
  }

  // ---------------------------------------------------------------- walker and flattener agree

  /** A coordinate tree, described without any walk: positions at the leaves, no empty level, no mixing. */
  predicate CoordinateTree(v: Json) {
    v.Array? && v.items != [] &&
    if v.items[0].Number? then IsPosition(v.items)
    else forall i :: 0 <= i < |v.items| ==> CoordinateTree(v.items[i])
  }

  /** Levels of arrays above the positions. */
  function Nesting(v: Json): nat
    decreases v, 1
  {
    if !v.Array? || v.items == [] || v.items[0].Number? then 0 else 1 + NestingItems(v.items)
  }

  function NestingItems(items: seq<Json>): nat
    decreases items, 0
  {
    if items == [] then 0
    else
      var before, last := NestingItems(items[..|items| - 1]), Nesting(items[|items| - 1]);
      if before < last then last else before
  }

  /**
   * The walk accepts exactly the coordinate trees within the depth bound whose flattened positions
   * are all in range, and it counts exactly the positions the flattener returns.
   */
  lemma {:induction false} WalkAgreesWithCollect(v: Json, depth: nat)
    ensures Walk(v, depth).Accepted?
       <==> CoordinateTree(v) && depth + Nesting(v) <= MAX_COORDINATE_NESTING && AllInWgs84(Collect(v))
    ensures Walk(v, depth).Accepted? ==> Walk(v, depth).count == |Collect(v)| > 0
    decreases v, 1
  {
    if v.Array? && v.items != [] && depth <= MAX_COORDINATE_NESTING {
      if v.items[0].Number? {
        if IsPosition(v.items) {
          assert Collect(v) == [PositionOf(v.items)];
          assert AllInWgs84(Collect(v)) <==> Collect(v)[0].InWgs84();
        }
      } else {
        WalkItemsAgree(v.items, depth + 1);
      }
    }
  }

  lemma {:induction false} WalkItemsAgree(items: seq<Json>, depth: nat)
    requires 0 < depth <= MAX_COORDINATE_NESTING + 1
    ensures WalkItems(items, depth).Accepted?
       <==> (&& (forall i :: 0 <= i < |items| ==> CoordinateTree(items[i]))
             && (items == [] || depth + NestingItems(items) <= MAX_COORDINATE_NESTING)
             && AllInWgs84(CollectItems(items)))
    ensures WalkItems(items, depth).Accepted? ==> WalkItems(items, depth).count == |CollectItems(items)|
    ensures WalkItems(items, depth).Accepted? ==> |CollectItems(items)| >= |items|
    decreases items, 0
  {
    if items != [] {
      var n := |items| - 1;
      var init, last := items[..n], items[n];
      WalkItemsAgree(init, depth);
      WalkAgreesWithCollect(last, depth);
      var p, q := CollectItems(init), Collect(last);
      AllInWgs84Append(p, q);
      assert forall i :: 0 <= i < n ==> items[i] == init[i];
    }
  }

  lemma AllInWgs84Append(p: seq<Position>, q: seq<Position>)
    ensures AllInWgs84(p + q) <==> AllInWgs84(p) && AllInWgs84(q)
  {
    assert forall i :: 0 <= i < |p| ==> (p + q)[i] == p[i];
    assert forall i :: 0 <= i < |q| ==> (p + q)[|p| + i] == q[i];
  }

  /** What the resolver can rely on after the plausibility guard: at least one position, all in range. */
  lemma PlausibleHasPositions(coordinates: Json)
    requires PolygonPlausible(coordinates)
    ensures |Collect(coordinates)| == Walk(coordinates, 0).count > 0
    ensures AllInWgs84(Collect(coordinates)) && Nesting(coordinates) <= MAX_COORDINATE_NESTING
  {
    WalkAgreesWithCollect(coordinates, 0);
  }

  // ---------------------------------------------------------------- what the guard lets through

  predicate AllNumbers(items: seq<Json>) { forall i :: 0 <= i < |items| ==> items[i].Number? }

  /** An array that begins with a number is a position, or nothing: two numbers or more, and the first two in range. */
  lemma PositionsExactly(items: seq<Json>, depth: nat)
    requires items != [] && items[0].Number? && depth <= 8
    ensures Walk(Array(items), depth).Accepted?
            <==> AllNumbers(items) && |items| != 1
                 && -180.0 <= items[0].value <= 180.0 && -90.0 <= items[1].value <= 90.0
  {
  }

  /** Any other array is as good as its items, none of them a number, one level further down. */
  lemma LevelsExactly(items: seq<Json>, depth: nat)
    requires items != [] && !items[0].Number?
    ensures Walk(Array(items), depth).Accepted?
            <==> depth <= 8 && forall i :: 0 <= i < |items| ==> !items[i].Number? && Walk(items[i], depth + 1).Accepted?
  {
    ItemsExactly(items, depth + 1);
  }

  lemma {:induction false} ItemsExactly(items: seq<Json>, depth: nat)
    ensures WalkItems(items, depth).Accepted?
            <==> forall i :: 0 <= i < |items| ==> !items[i].Number? && Walk(items[i], depth).Accepted?
  {
    if items != [] {
      ItemsExactly(items[..|items| - 1], depth);
    }
  }

  lemma NothingElse(v: Json, depth: nat)
    ensures !v.Array? || v.items == [] || depth > 8 ==> Walk(v, depth).Refused?
  {
  }

  /** The guard is the walk from the top. */
  lemma PlausibleExactly(coordinates: Json)
    ensures PolygonPlausible(coordinates) <==> Walk(coordinates, 0).Accepted?
  {
    WalkAgreesWithCollect(coordinates, 0);
  }

  // ---------------------------------------------------------------- polygons are flattened ring by ring

  /** The coordinates of a polygon made of the given rings (section 3.1.6 of RFC 7946). */
  function RingTree(r: seq<Position>): Json {
    Array(seq(|r|, i requires 0 <= i < |r| => Array([Number(r[i].lon), Number(r[i].lat)])))
  }

  function PolygonTree(rings: seq<seq<Position>>): Json {
    Array(seq(|rings|, i requires 0 <= i < |rings| => RingTree(rings[i])))
  }

  lemma {:induction false} CollectRing(r: seq<Position>)
    ensures CollectItems(RingTree(r).items) == r
  {
    if r != [] {
      var n := |r| - 1;
      CollectRing(r[..n]);
      assert RingTree(r).items[..n] == RingTree(r[..n]).items;
    }
  }

  lemma CollectRingTree(r: seq<Position>)
    ensures Collect(RingTree(r)) == r
  {
    CollectRing(r);
    assert r != [] ==> RingTree(r).items[0] == Array([Number(r[0].lon), Number(r[0].lat)]);
  }

  /** Flattening a polygon's coordinates yields the concatenation of its rings. */
  lemma {:induction false} CollectPolygon(rings: seq<seq<Position>>)
    ensures CollectItems(PolygonTree(rings).items) == Flatten(rings)
    ensures rings != [] ==> Collect(PolygonTree(rings)) == Flatten(rings)
  {
    if rings != [] {
      var n := |rings| - 1;
      CollectPolygon(rings[..n]);
      assert PolygonTree(rings).items[..n] == PolygonTree(rings[..n]).items;
      CollectRingTree(rings[n]);
    }
  }
}
