/**
 * Paging by offset through the listing of api/internal/database/queries.go, while rows are
 * re-upserted or revised between the pages.
 */
module Paging {
  import opened Arithmetic
  import opened Wrappers
  import opened Listing

  function Places(rows: seq<Row>): (p: seq<Place>)
    ensures |p| == |rows| && forall i :: 0 <= i < |p| ==> p[i] == PlaceOf(rows[i])
  {
    seq(|rows|, i requires 0 <= i < |rows| => PlaceOf(rows[i]))
  }

  /** The admitted rows of the two tables have the same places; anything else about them may differ. */
  predicate SameListing(t: seq<Row>, u: seq<Row>, f: Filters, ilike: Ilike) {
    Carried(t, u, f, ilike) && Carried(u, t, f, ilike)
  }

  predicate PlacesOrdered(p: seq<Place>) { forall i, j :: 0 <= i < j < |p| ==> PlaceBefore(p[i], p[j]) }

  /** A strictly ordered sequence is determined by its elements. */
  lemma {:induction false} OrderedUnique(p: seq<Place>, q: seq<Place>)
    requires PlacesOrdered(p) && PlacesOrdered(q)
    requires forall x :: x in p <==> x in q
    ensures p == q
  {
    assert q != [] ==> q[0] in p;
    if p != [] {
      assert p[0] in q;
      assert p[0] == q[0];
      TailContained(p, q);
      TailContained(q, p);
      OrderedUnique(p[1..], q[1..]);
      assert p == [p[0]] + p[1..] && q == [q[0]] + q[1..];
    }
  }

  lemma TailContained(p: seq<Place>, q: seq<Place>)
    requires p != [] && q != [] && p[0] == q[0] && PlacesOrdered(p)
    requires forall x :: x in p ==> x in q
    ensures forall x :: x in p[1..] ==> x in q[1..]
  {
    forall i | 0 <= i < |p[1..]| ensures p[1..][i] in q[1..] {
      assert p[1..][i] == p[i + 1] && PlaceBefore(p[0], p[i + 1]);
      assert p[i + 1] in q;
      var j :| 0 <= j < |q| && q[j] == p[i + 1];
      assert q[1..][j - 1] == q[j];
    }
  }

  /** Every admitted row of t has its place in u. */
  predicate Carried(t: seq<Row>, u: seq<Row>, f: Filters, ilike: Ilike) {
    forall i {:trigger HasPlace(t[i], u, f, ilike)} :: 0 <= i < |t| && Admits(f, t[i], ilike) ==> HasPlace(t[i], u, f, ilike)
  }

  predicate HasPlace(r: Row, u: seq<Row>, f: Filters, ilike: Ilike) {
    exists j :: 0 <= j < |u| && Admits(f, u[j], ilike) && PlaceOf(u[j]) == PlaceOf(r)
  }

  /** Every row of t is in u, except for what a re-upsert of an unchanged event writes. */
  predicate Reupserted(t: seq<Row>, u: seq<Row>) {
    forall i {:trigger InUpToTime(t[i], u)} :: 0 <= i < |t| ==> InUpToTime(t[i], u)
  }

  predicate InUpToTime(r: Row, u: seq<Row>) { exists j :: 0 <= j < |u| && u[j] == r.(ingestedAt := u[j].ingestedAt) }

  lemma ReupsertedIsCarried(t: seq<Row>, u: seq<Row>, f: Filters, ilike: Ilike)
    requires Reupserted(t, u)
    ensures Carried(t, u, f, ilike)
  {
    forall i | 0 <= i < |t| && Admits(f, t[i], ilike) ensures HasPlace(t[i], u, f, ilike) {
      assert InUpToTime(t[i], u);
    }
  }

  lemma CarriedPlaces(t: seq<Row>, u: seq<Row>, f: Filters, ilike: Ilike)
    requires DistinctIds(t) && DistinctIds(u) && Carried(t, u, f, ilike)
    ensures forall x :: x in Places(Listed(t, f, ilike)) ==> x in Places(Listed(u, f, ilike))
  {
    ListedIsOrdered(t, f, ilike);
    ListedIsOrdered(u, f, ilike);
    var a, b := Listed(t, f, ilike), Listed(u, f, ilike);
    forall i | 0 <= i < |a| ensures PlaceOf(a[i]) in Places(b) {
      assert a[i] in t;
      var k :| 0 <= k < |t| && t[k] == a[i];
      assert HasPlace(t[k], u, f, ilike);
      var j :| 0 <= j < |u| && Admits(f, u[j], ilike) && PlaceOf(u[j]) == PlaceOf(t[k]);
      assert u[j] in u;
      PlaceInPlaces(u[j], b);
    }
  }

  lemma PlaceInPlaces(r: Row, rows: seq<Row>)
    requires r in rows
    ensures PlaceOf(r) in Places(rows)
  {
    var i :| 0 <= i < |rows| && rows[i] == r;
    assert Places(rows)[i] == PlaceOf(r);
  }

  lemma PlacesAreOrdered(rows: seq<Row>)
    requires Ordered(rows)
    ensures PlacesOrdered(Places(rows))
  {
    forall i, j | 0 <= i < j < |rows| ensures PlaceBefore(Places(rows)[i], Places(rows)[j]) {
      assert Before(rows[i], rows[j]);
    }
  }

  /** The same admitted places list alike. */
  lemma SameListingSamePlaces(t: seq<Row>, u: seq<Row>, f: Filters, ilike: Ilike)
    requires DistinctIds(t) && DistinctIds(u) && SameListing(t, u, f, ilike)
    ensures Places(Listed(t, f, ilike)) == Places(Listed(u, f, ilike))
  {
    ListedIsOrdered(t, f, ilike);
    ListedIsOrdered(u, f, ilike);
    PlacesAreOrdered(Listed(t, f, ilike));
    PlacesAreOrdered(Listed(u, f, ilike));
    CarriedPlaces(t, u, f, ilike);
    CarriedPlaces(u, t, f, ilike);
    OrderedUnique(Places(Listed(t, f, ilike)), Places(Listed(u, f, ilike)));
  }

  /** Re-upserts that change only ingested_at leave every row where it was in the listing. */
  lemma ReupsertKeepsPlaces(t: seq<Row>, u: seq<Row>, f: Filters, ilike: Ilike)
    requires DistinctIds(t) && DistinctIds(u) && Reupserted(t, u) && Reupserted(u, t)
    ensures Places(Listed(t, f, ilike)) == Places(Listed(u, f, ilike))
  {
    ReupsertedIsCarried(t, u, f, ilike);
    ReupsertedIsCarried(u, t, f, ilike);
    SameListingSamePlaces(t, u, f, ilike);
  }

  /** From table i on, before j, the admitted rows keep their places. */
  predicate StableFrom(tables: seq<seq<Row>>, f: Filters, ilike: Ilike, i: nat, j: nat)
    requires i <= j <= |tables|
  {
    forall k :: i <= k < j ==> DistinctIds(tables[k]) && SameListing(tables[i], tables[k], f, ilike)
  }

  predicate Stable(tables: seq<seq<Row>>, f: Filters, ilike: Ilike) { StableFrom(tables, f, ilike, 0, |tables|) }

  /** The first n pages, one after the other. */
  function Joined(pages: nat -> seq<Place>, n: nat): seq<Place> {
    if n == 0 then [] else Joined(pages, n - 1) + pages(n - 1)
  }

  lemma {:induction false} SamePagesJoinAlike(p: nat -> seq<Place>, q: nat -> seq<Place>, n: nat)
    requires forall k: nat :: k < n ==> p(k) == q(k)
    ensures Joined(p, n) == Joined(q, n)
  {
    if n > 0 {
      SamePagesJoinAlike(p, q, n - 1);
    }
  }

  /** The offset of page k. */
  function Starts(limit: nat): nat -> nat { (k: nat) => k * limit }

  predicate Advances(starts: nat -> nat, limit: nat, k: nat) { starts(k + 1) == starts(k) + limit }

  lemma StartsAdvance(limit: nat)
    ensures Starts(limit)(0) == 0 && forall k: nat :: Advances(Starts(limit), limit, k)
  {
  }

  /** Page k read from the table as it was then. */
  function Pages(tables: seq<seq<Row>>, f: Filters, ilike: Ilike, limit: nat): nat -> seq<Place> {
    (k: nat) => if k < |tables| then Places(Slice(Listed(tables[k], f, ilike), limit, Starts(limit)(k))) else []
  }

  function Walked(tables: seq<seq<Row>>, f: Filters, ilike: Ilike, limit: nat, n: nat): seq<Place> {
    Joined(Pages(tables, f, ilike, limit), n)
  }

  function UpTo<T>(rows: seq<T>, end: nat): seq<T> { if end <= |rows| then rows[..end] else rows }

  lemma SlicePlaces(rows: seq<Row>, limit: nat, offset: nat)
    ensures Places(Slice(rows, limit, offset)) == Slice(Places(rows), limit, offset)
  {
  }

  /** The rows from one index up to another, as far as there are any. */
  function Between<T>(rows: seq<T>, from: nat, to: nat): seq<T>
    requires from <= to
  {
    if from >= |rows| then [] else UpTo(rows, to)[from..]
  }

  lemma BetweenNext<T>(rows: seq<T>, from: nat, to: nat, limit: nat)
    requires from <= to
    ensures Between(rows, from, to) + Slice(rows, limit, to) == Between(rows, from, to + limit)
  {
  }

  lemma SameSum<T>(a: seq<T>, b: seq<T>, c: seq<T>)
    ensures (a + b) + c == a + (b + c)
  {
  }

  /** Pages m, ..., n-1, if each is its slice of one listing. */
  lemma {:induction false} SlicesJoin(
      pages: nat -> seq<Place>, starts: nat -> nat, all: seq<Place>, limit: nat, m: nat, n: nat)
    requires m <= n && forall k: nat :: Advances(starts, limit, k)
    requires forall k: nat :: m <= k < n ==> pages(k) == Slice(all, limit, starts(k))
    ensures starts(m) <= starts(n) && Joined(pages, n) == Joined(pages, m) + Between(all, starts(m), starts(n))
  {
    if m < n {
      SlicesJoin(pages, starts, all, limit, m, n - 1);
      assert Advances(starts, limit, n - 1);
      BetweenNext(all, starts(m), starts(n - 1), limit);
      SameSum(Joined(pages, m), Between(all, starts(m), starts(n - 1)), pages(n - 1));
    }
  }

  /** While the listing stays the same from page m on, those pages are consecutive slices of it. */
  lemma StablePages(tables: seq<seq<Row>>, f: Filters, ilike: Ilike, limit: nat, m: nat, n: nat)
    requires m < n <= |tables| && StableFrom(tables, f, ilike, m, n)
    ensures Starts(limit)(m) <= Starts(limit)(n)
    ensures Joined(Pages(tables, f, ilike, limit), n)
            == Joined(Pages(tables, f, ilike, limit), m)
               + Between(Places(Listed(tables[m], f, ilike)), Starts(limit)(m), Starts(limit)(n))
  {
    var pages, all := Pages(tables, f, ilike, limit), Places(Listed(tables[m], f, ilike));
    forall k: nat | m <= k < n ensures pages(k) == Slice(all, limit, Starts(limit)(k)) {
      SameListingSamePlaces(tables[m], tables[k], f, ilike);
      SlicePlaces(Listed(tables[k], f, ilike), limit, Starts(limit)(k));
    }
    StartsAdvance(limit);
    SlicesJoin(pages, Starts(limit), all, limit, m, n);
  }

  lemma WalkIsPrefix(tables: seq<seq<Row>>, f: Filters, ilike: Ilike, limit: nat, n: nat)
    requires 0 < |tables| && n <= |tables| && Stable(tables, f, ilike)
    ensures Walked(tables, f, ilike, limit, n) == UpTo(Places(Listed(tables[0], f, ilike)), Starts(limit)(n))
  {
    StartsAdvance(limit);
    if n > 0 {
      StablePages(tables, f, ilike, limit, 0, n);
    }
  }

  lemma ListedOnce(table: seq<Row>, f: Filters, ilike: Ilike)
    requires DistinctIds(table)
    ensures DistinctIds(Listed(table, f, ilike))
  {
    ListedIsOrdered(table, f, ilike);
    var rows := Listed(table, f, ilike);
    forall i, j | 0 <= i < j < |rows| ensures rows[i].id != rows[j].id {
      assert Before(rows[i], rows[j]) && rows[i] in rows && rows[j] in rows;
      var k :| 0 <= k < |table| && table[k] == rows[i];
      var l :| 0 <= l < |table| && table[l] == rows[j];
    }
  }

  /** How often a row's id is among the places. */
  function Visits(id: nat, p: seq<Place>): nat {
    if p == [] then 0 else Visits(id, p[..|p| - 1]) + if p[|p| - 1].id == id then 1 else 0
  }

  lemma {:induction false} VisitedOnce(rows: seq<Row>, r: Row)
    requires DistinctIds(rows)
    ensures r in rows ==> Visits(r.id, Places(rows)) == 1
    ensures (forall i :: 0 <= i < |rows| ==> rows[i].id != r.id) ==> Visits(r.id, Places(rows)) == 0
  {
    if rows != [] {
      var init := rows[..|rows| - 1];
      assert Places(rows)[..|rows| - 1] == Places(init);
      VisitedOnce(init, r);
      if r in rows && rows[|rows| - 1] == r {
        assert forall i :: 0 <= i < |init| ==> init[i].id != r.id;
      } else if r in rows {
        var i :| 0 <= i < |rows| && rows[i] == r;
        assert init[i] == r;
      }
    }
  }

  lemma ListingVisitsOnce(table: seq<Row>, f: Filters, ilike: Ilike)
    requires DistinctIds(table)
    ensures forall r :: r in table && Admits(f, r, ilike) ==> Visits(r.id, Places(Listed(table, f, ilike))) == 1
  {
    ListedIsOrdered(table, f, ilike);
    ListedOnce(table, f, ilike);
    forall r | r in table && Admits(f, r, ilike) ensures Visits(r.id, Places(Listed(table, f, ilike))) == 1 {
      VisitedOnce(Listed(table, f, ilike), r);
    }
  }

  /**
   * A page walk interleaved with writes that leave the admitted rows' places as they are (re-upserts
   * that change only ingested_at among them) visits every matching row exactly once, in listing
   * order, as soon as the pages cover the total.
   */
  lemma ExactlyOncePaging(tables: seq<seq<Row>>, f: Filters, ilike: Ilike, limit: nat, n: nat)
    requires 0 < |tables| && n <= |tables| && Stable(tables, f, ilike)
    requires n * limit >= |Listed(tables[0], f, ilike)|
    ensures Walked(tables, f, ilike, limit, n) == Places(Listed(tables[0], f, ilike))
    ensures forall r :: r in tables[0] && Admits(f, r, ilike) ==> Visits(r.id, Walked(tables, f, ilike, limit, n)) == 1
  {
    assert Starts(limit)(n) == n * limit;
    WalkIsPrefix(tables, f, ilike, limit, n);
    assert |Places(Listed(tables[0], f, ilike))| == |Listed(tables[0], f, ilike)|;
    ListingVisitsOnce(tables[0], f, ilike);
  }

  // ---------------------------------------------------------------- a row that moves between two pages

  predicate DistinctPlaces(p: seq<Place>) { forall i, j :: 0 <= i < j < |p| ==> p[i].id != p[j].id }

  function Dropped<T>(s: seq<T>, i: nat): seq<T>
    requires i < |s|
  {
    s[..i] + s[i + 1..]
  }

  /** The listing after the row at p went to q, at its new place x. */
  function Moved(all: seq<Place>, p: nat, q: nat, x: Place): (moved: seq<Place>)
    requires p < |all| && q < |all|
    ensures |moved| == |all|
  {
    Dropped(all, p)[..q] + [x] + Dropped(all, p)[q..]
  }

  predicate EachOnce(listed: seq<Place>, walk: seq<Place>) {
    forall i :: 0 <= i < |listed| ==> Visits(listed[i].id, walk) == 1
  }

  lemma {:induction false} VisitsAppend(id: nat, a: seq<Place>, b: seq<Place>)
    ensures Visits(id, a + b) == Visits(id, a) + Visits(id, b)
  {
    if b == [] {
      assert a + b == a;
    } else {
      VisitsAppend(id, a, b[..|b| - 1]);
      assert (a + b)[..|a + b| - 1] == a + b[..|b| - 1];
    }
  }

  lemma {:induction false} VisitsSome(id: nat, p: seq<Place>)
    ensures Visits(id, p) > 0 <==> exists i :: 0 <= i < |p| && p[i].id == id
  {
    if p != [] {
      VisitsSome(id, p[..|p| - 1]);
    }
  }

  lemma {:induction false} DistinctVisitedOnce(p: seq<Place>, i: nat)
    requires DistinctPlaces(p) && i < |p|
    ensures Visits(p[i].id, p) == 1
  {
    var n := |p| - 1;
    VisitsSome(p[i].id, p[..n]);
    if i < n {
      DistinctVisitedOnce(p[..n], i);
    }
  }

  lemma MovedAt(all: seq<Place>, p: nat, q: nat, x: Place, k: nat)
    requires p < |all| && q < |all| && k < |all|
    ensures Moved(all, p, q, x)[k] ==
              if k == q then x
              else var l := if k < q then k else k - 1; if l < p then all[l] else all[l + 1]
  {
  }

  /** The rows from an index on, as far as there are any. */
  function From<T>(rows: seq<T>, i: nat): seq<T> { if i >= |rows| then [] else rows[i..] }

  /** What a walk shows that meets one listing before the boundary and another behind it. */
  function SeenAcross(before: seq<Place>, after: seq<Place>, boundary: nat): seq<Place> {
    UpTo(before, boundary) + From(after, boundary)
  }

  lemma VisitedInPrefix(p: seq<Place>, i: nat, end: nat)
    requires DistinctPlaces(p) && i < |p|
    ensures Visits(p[i].id, UpTo(p, end)) == OneIf(i < end)
  {
    if i < end {
      DistinctVisitedOnce(UpTo(p, end), i);
    } else {
      VisitsSome(p[i].id, UpTo(p, end));
    }
  }

  lemma VisitedInSuffix(p: seq<Place>, i: nat, start: nat)
    requires DistinctPlaces(p) && i < |p|
    ensures Visits(p[i].id, From(p, start)) == OneIf(start <= i)
  {
    var rest := From(p, start);
    if start <= i {
      assert rest[i - start] == p[i];
      DistinctVisitedOnce(rest, i - start);
    } else {
      VisitsSome(p[i].id, rest);
    }
  }

  /**
   * Whatever is written between two pages: a row that both listings hold is shown exactly once exactly
   * when its old and its new index are on the same side of the boundary.
   */
  lemma ShownOnceExactly(before: seq<Place>, after: seq<Place>, p: nat, q: nat, boundary: nat)
    requires DistinctPlaces(before) && DistinctPlaces(after)
    requires p < |before| && q < |after| && before[p].id == after[q].id
    ensures Visits(before[p].id, SeenAcross(before, after, boundary)) == OneIf(p < boundary) + OneIf(boundary <= q)
    ensures Visits(before[p].id, SeenAcross(before, after, boundary)) == 1 <==> (p < boundary <==> q < boundary)
  {
    VisitsAppend(before[p].id, UpTo(before, boundary), From(after, boundary));
    VisitedInPrefix(before, p, boundary);
    VisitedInSuffix(after, q, boundary);
  }

  /** A row that is gone from the new listing is shown exactly when the walk had come to it. */
  lemma GoneShownExactly(before: seq<Place>, after: seq<Place>, p: nat, boundary: nat)
    requires DistinctPlaces(before) && p < |before|
    requires forall k :: 0 <= k < |after| ==> after[k].id != before[p].id
    ensures Visits(before[p].id, SeenAcross(before, after, boundary)) == OneIf(p < boundary)
  {
    VisitsAppend(before[p].id, UpTo(before, boundary), From(after, boundary));
    VisitedInPrefix(before, p, boundary);
    VisitsSome(before[p].id, From(after, boundary));
  }

  /** A row that is new in the later listing is shown exactly when the walk has yet to come to it. */
  lemma NewShownExactly(before: seq<Place>, after: seq<Place>, q: nat, boundary: nat)
    requires DistinctPlaces(after) && q < |after|
    requires forall k :: 0 <= k < |before| ==> before[k].id != after[q].id
    ensures Visits(after[q].id, SeenAcross(before, after, boundary)) == OneIf(boundary <= q)
  {
    VisitsAppend(after[q].id, UpTo(before, boundary), From(after, boundary));
    VisitedInSuffix(after, q, boundary);
    VisitsSome(after[q].id, UpTo(before, boundary));
  }

  /** Where the row at k ends up when the one at p goes to q. */
  function IndexAfter(p: nat, q: nat, k: nat): nat {
    if k == p then q else var l := if k < p then k else k - 1; if l < q then l else l + 1
  }

  lemma MovedIndex(all: seq<Place>, p: nat, q: nat, x: Place, k: nat)
    requires p < |all| && q < |all| && k < |all| && x.id == all[p].id
    ensures IndexAfter(p, q, k) < |all| && Moved(all, p, q, x)[IndexAfter(p, q, k)].id == all[k].id
  {
    MovedAt(all, p, q, x, IndexAfter(p, q, k));
  }

  lemma MovedIsDistinct(all: seq<Place>, p: nat, q: nat, x: Place)
    requires p < |all| && q < |all| && DistinctPlaces(all) && x.id == all[p].id
    ensures DistinctPlaces(Moved(all, p, q, x))
  {
    var moved := Moved(all, p, q, x);
    forall i, j | 0 <= i < j < |moved| ensures moved[i].id != moved[j].id {
      MovedAt(all, p, q, x, i);
      MovedAt(all, p, q, x, j);
    }
  }

  /**
   * One row moves between two pages, from index p to index q, and the pages meet at the boundary:
   * every row is shown exactly once exactly when p and q are on the same side of it.
   */
  lemma MoveBetweenPages(all: seq<Place>, p: nat, q: nat, x: Place, boundary: nat)
    requires p < |all| && q < |all| && DistinctPlaces(all) && x.id == all[p].id
    ensures EachOnce(all, SeenAcross(all, Moved(all, p, q, x), boundary)) <==> (p < boundary <==> q < boundary)
  {
    MovedIsDistinct(all, p, q, x);
    forall k | 0 <= k < |all|
      ensures Visits(all[k].id, SeenAcross(all, Moved(all, p, q, x), boundary)) == 1
              <==> (k < boundary <==> IndexAfter(p, q, k) < boundary)
    {
      MovedIndex(all, p, q, x, k);
      ShownOnceExactly(all, Moved(all, p, q, x), k, IndexAfter(p, q, k), boundary);
    }
  }

  function Inserted(all: seq<Place>, j: nat, x: Place): seq<Place>
    requires j <= |all|
  {
    all[..j] + [x] + all[j..]
  }

  lemma InsertedIsDistinct(all: seq<Place>, j: nat, x: Place)
    requires j <= |all| && DistinctPlaces(all) && forall k :: 0 <= k < |all| ==> all[k].id != x.id
    ensures var after := Inserted(all, j, x);
            && |after| == |all| + 1 && DistinctPlaces(after) && after[j] == x
            && forall k :: 0 <= k < |all| ==> after[if k < j then k else k + 1] == all[k]
  {
    var after := Inserted(all, j, x);
    forall a, b | 0 <= a < b < |after| ensures after[a].id != after[b].id {
    }
  }

  /**
   * One new row at index j: every old row is shown once exactly when j is behind the boundary or the
   * walk was past its end already; the new row is shown once exactly when j is behind the boundary.
   */
  lemma InsertBetweenPages(all: seq<Place>, j: nat, x: Place, boundary: nat)
    requires j <= |all| && DistinctPlaces(all) && forall k :: 0 <= k < |all| ==> all[k].id != x.id
    ensures EachOnce(all, SeenAcross(all, Inserted(all, j, x), boundary)) <==> !(j < boundary <= |all|)
    ensures Visits(x.id, SeenAcross(all, Inserted(all, j, x), boundary)) == OneIf(boundary <= j)
  {
    var after := Inserted(all, j, x);
    InsertedIsDistinct(all, j, x);
    forall k | 0 <= k < |all|
      ensures Visits(all[k].id, SeenAcross(all, after, boundary)) == 1
              <==> (k < boundary <==> (if k < j then k else k + 1) < boundary)
    {
      ShownOnceExactly(all, after, k, if k < j then k else k + 1, boundary);
    }
    NewShownExactly(all, after, j, boundary);
    if j < boundary <= |all| {
      assert Visits(all[boundary - 1].id, SeenAcross(all, after, boundary)) != 1;
    }
  }

  /**
   * The row at index j leaves the listing: every other row is shown once exactly when j is behind the
   * boundary or the walk was past the end already.
   */
  lemma RemovalBetweenPages(all: seq<Place>, j: nat, boundary: nat)
    requires j < |all| && DistinctPlaces(all)
    ensures EachOnce(Dropped(all, j), SeenAcross(all, Dropped(all, j), boundary)) <==> !(j < boundary < |all|)
    ensures Visits(all[j].id, SeenAcross(all, Dropped(all, j), boundary)) == OneIf(j < boundary)
  {
    var after := Dropped(all, j);
    forall k | 0 <= k < |after|
      ensures Visits(after[k].id, SeenAcross(all, after, boundary)) == 1
              <==> ((if k < j then k else k + 1) < boundary <==> k < boundary)
    {
      ShownOnceExactly(all, after, if k < j then k else k + 1, k, boundary);
    }
    GoneShownExactly(all, after, j, boundary);
    if j < boundary < |all| {
      assert Visits(after[boundary - 1].id, SeenAcross(all, after, boundary)) != 1;
    }
  }

  /** Up to page m the tables list alike, and from it on again; anything may be written in between. */
  predicate TwoListings(tables: seq<seq<Row>>, f: Filters, ilike: Ilike, m: nat, n: nat) {
    0 < m < n <= |tables| && StableFrom(tables, f, ilike, 0, m) && StableFrom(tables, f, ilike, m, n)
  }

  /** The walk shows the old listing up to the end of page m-1 and the new one behind it. */
  lemma WalkAcross(tables: seq<seq<Row>>, f: Filters, ilike: Ilike, limit: nat, m: nat, n: nat)
    requires TwoListings(tables, f, ilike, m, n) && Starts(limit)(n) >= |Listed(tables[m], f, ilike)|
    ensures Walked(tables, f, ilike, limit, n)
            == SeenAcross(Places(Listed(tables[0], f, ilike)), Places(Listed(tables[m], f, ilike)), Starts(limit)(m))
  {
    FirstPages(tables, f, ilike, limit, m);
    StablePages(tables, f, ilike, limit, m, n);
    BetweenIsFrom(Places(Listed(tables[m], f, ilike)), Starts(limit)(m), Starts(limit)(n));
  }

  lemma FirstPages(tables: seq<seq<Row>>, f: Filters, ilike: Ilike, limit: nat, m: nat)
    requires 0 < m <= |tables| && StableFrom(tables, f, ilike, 0, m)
    ensures Walked(tables, f, ilike, limit, m) == UpTo(Places(Listed(tables[0], f, ilike)), Starts(limit)(m))
  {
    assert Starts(limit)(0) == 0;
    StablePages(tables, f, ilike, limit, 0, m);
  }

  lemma BetweenIsFrom(rows: seq<Place>, from: nat, to: nat)
    requires from <= to && |rows| <= to
    ensures Between(rows, from, to) == From(rows, from)
  {
  }

  /**
   * The exact boundary of the exactly-once walk, whatever is written while pages m-1 and m are read:
   * a row that matches before and after is visited once exactly when its indices in the two listings
   * are on the same side of the end of page m-1.
   */
  lemma WritesBetweenPages(
      tables: seq<seq<Row>>, f: Filters, ilike: Ilike, limit: nat, m: nat, n: nat, p: nat, q: nat)
    requires TwoListings(tables, f, ilike, m, n) && Starts(limit)(n) >= |Listed(tables[m], f, ilike)|
    requires p < |Listed(tables[0], f, ilike)| && q < |Listed(tables[m], f, ilike)|
    requires Listed(tables[0], f, ilike)[p].id == Listed(tables[m], f, ilike)[q].id
    ensures Visits(Listed(tables[0], f, ilike)[p].id, Walked(tables, f, ilike, limit, n)) == 1
            <==> (p < Starts(limit)(m) <==> q < Starts(limit)(m))
  {
    WalkAcross(tables, f, ilike, limit, m, n);
    ListedOnce(tables[0], f, ilike);
    ListedOnce(tables[m], f, ilike);
    ShownOnceExactly(Places(Listed(tables[0], f, ilike)), Places(Listed(tables[m], f, ilike)), p, q, Starts(limit)(m));
  }

  // ---------------------------------------------------------------- any writes, between any pages

  function Total(counts: nat -> nat, n: nat): nat { if n == 0 then 0 else Total(counts, n - 1) + counts(n - 1) }

  /** Whether page k holds the row: its index in that page's own listing falls on the page. */
  function Holding(tables: seq<seq<Row>>, f: Filters, ilike: Ilike, limit: nat, id: nat): nat -> nat {
    (k: nat) => HeldBy(tables, f, ilike, limit, id, k)
  }

  function HeldBy(tables: seq<seq<Row>>, f: Filters, ilike: Ilike, limit: nat, id: nat, k: nat): nat {
    OneIf(k < |tables| && OnPage(Listed(tables[k], f, ilike), id, Starts(limit)(k), Starts(limit)(k + 1)))
  }

  predicate OnPage(listed: seq<Row>, id: nat, from: nat, to: nat) {
    exists i :: 0 <= i < |listed| && listed[i].id == id && from <= i < to
  }

  predicate AllDistinct(tables: seq<seq<Row>>, n: nat)
    requires n <= |tables|
  {
    forall k {:trigger DistinctIds(tables[k])} :: 0 <= k < n ==> DistinctIds(tables[k])
  }

  lemma VisitsOnPage(listed: seq<Row>, id: nat, limit: nat, from: nat)
    requires DistinctIds(listed)
    ensures Visits(id, Places(Slice(listed, limit, from))) == OneIf(OnPage(listed, id, from, from + limit))
  {
    var page := Places(Slice(listed, limit, from));
    VisitsSome(id, page);
    if OnPage(listed, id, from, from + limit) {
      var i :| 0 <= i < |listed| && listed[i].id == id && from <= i < from + limit;
      assert page[i - from].id == id;
      DistinctVisitedOnce(page, i - from);
    } else {
      forall k | 0 <= k < |page| ensures page[k].id != id {
        assert listed[from + k].id == page[k].id;
      }
    }
  }

  /** In every walk, whatever is written between any of its pages, a row is visited once for each page that holds it. */
  lemma WalkVisitsExactly(tables: seq<seq<Row>>, f: Filters, ilike: Ilike, limit: nat, id: nat, n: nat)
    requires n <= |tables| && AllDistinct(tables, n)
    ensures Visits(id, Walked(tables, f, ilike, limit, n)) == Total(Holding(tables, f, ilike, limit, id), n)
  {
    var pages, counts := Pages(tables, f, ilike, limit), Holding(tables, f, ilike, limit, id);
    forall k: nat | k < n ensures Visits(id, pages(k)) == counts(k) {
      assert DistinctIds(tables[k]);
      PageVisits(tables, f, ilike, limit, id, k);
    }
    JoinedVisits(pages, counts, id, n);
  }

  lemma {:induction false} JoinedVisits(pages: nat -> seq<Place>, counts: nat -> nat, id: nat, n: nat)
    requires forall k: nat :: k < n ==> Visits(id, pages(k)) == counts(k)
    ensures Visits(id, Joined(pages, n)) == Total(counts, n)
  {
    if n > 0 {
      JoinedVisits(pages, counts, id, n - 1);
      VisitsAppend(id, Joined(pages, n - 1), pages(n - 1));
    }
  }

  lemma PageVisits(tables: seq<seq<Row>>, f: Filters, ilike: Ilike, limit: nat, id: nat, k: nat)
    requires k < |tables| && DistinctIds(tables[k])
    ensures Visits(id, Pages(tables, f, ilike, limit)(k)) == HeldBy(tables, f, ilike, limit, id, k)
  {
    ListedOnce(tables[k], f, ilike);
    VisitsOnPage(Listed(tables[k], f, ilike), id, limit, Starts(limit)(k));
    StartsAdvance(limit);
    assert Advances(Starts(limit), limit, k);
  }

  // ---------------------------------------------------------------- one revised row

  /** Apart from one row, the admitted rows of t have their places in u. */
  predicate CarriedBut(t: seq<Row>, u: seq<Row>, f: Filters, ilike: Ilike, id: nat) {
    forall i {:trigger HasPlace(t[i], u, f, ilike)} :: 0 <= i < |t| && t[i].id != id && Admits(f, t[i], ilike) ==>
      HasPlace(t[i], u, f, ilike)
  }

  lemma RestCarried(t: seq<Row>, u: seq<Row>, f: Filters, ilike: Ilike, id: nat)
    requires DistinctIds(t) && DistinctIds(u) && CarriedBut(t, u, f, ilike, id)
    ensures forall x :: x in Places(Listed(t, f, ilike)) && x.id != id ==> x in Places(Listed(u, f, ilike))
  {
    ListedIsOrdered(t, f, ilike);
    ListedIsOrdered(u, f, ilike);
    var a, b := Listed(t, f, ilike), Listed(u, f, ilike);
    forall i | 0 <= i < |a| && a[i].id != id ensures PlaceOf(a[i]) in Places(b) {
      assert a[i] in t;
      var k :| 0 <= k < |t| && t[k] == a[i];
      assert HasPlace(t[k], u, f, ilike);
      var j :| 0 <= j < |u| && Admits(f, u[j], ilike) && PlaceOf(u[j]) == PlaceOf(t[k]);
      assert u[j] in u;
      PlaceInPlaces(u[j], b);
    }
  }

  /** Dropping one element of an ordered sequence keeps its order and all its other elements. */
  lemma DroppedOrdered(a: seq<Place>, i: nat)
    requires PlacesOrdered(a) && DistinctPlaces(a) && i < |a|
    ensures PlacesOrdered(Dropped(a, i))
    ensures forall x :: x in Dropped(a, i) <==> x in a && x.id != a[i].id
  {
    var d := Dropped(a, i);
    forall k | 0 <= k < |d| ensures d[k] == a[if k < i then k else k + 1] {
    }
    forall k | 0 <= k < |a| && k != i ensures a[k] in d {
      assert a[k] == d[if k < i then k else k - 1];
    }
  }

  /**
   * Revising the place of one admitted row moves it in the listing, from some index to some other,
   * and moves nothing else.
   */
  lemma RevisionMovesOneRow(t: seq<Row>, u: seq<Row>, f: Filters, ilike: Ilike, r: Row, v: Row) returns (p: nat, q: nat)
    requires DistinctIds(t) && DistinctIds(u) && r in t && v in u && r.id == v.id
    requires Admits(f, r, ilike) && Admits(f, v, ilike)
    requires CarriedBut(t, u, f, ilike, r.id) && CarriedBut(u, t, f, ilike, r.id)
    ensures var all := Places(Listed(t, f, ilike));
            && p < |all| && q < |all| && all[p] == PlaceOf(r)
            && Places(Listed(u, f, ilike)) == Moved(all, p, q, PlaceOf(v))
  {
    var a, b := Places(Listed(t, f, ilike)), Places(Listed(u, f, ilike));
    OrderedDistinctPlaces(t, f, ilike);
    OrderedDistinctPlaces(u, f, ilike);
    ListedIsOrdered(t, f, ilike);
    ListedIsOrdered(u, f, ilike);
    PlaceInPlaces(r, Listed(t, f, ilike));
    PlaceInPlaces(v, Listed(u, f, ilike));
    p :| 0 <= p < |a| && a[p] == PlaceOf(r);
    q :| 0 <= q < |b| && b[q] == PlaceOf(v);
    RestCarried(t, u, f, ilike, r.id);
    RestCarried(u, t, f, ilike, r.id);
    SameRestMoved(a, b, p, q);
  }

  /** Two ordered listings that differ in one element are one move apart. */
  lemma SameRestMoved(a: seq<Place>, b: seq<Place>, p: nat, q: nat)
    requires PlacesOrdered(a) && DistinctPlaces(a) && PlacesOrdered(b) && DistinctPlaces(b)
    requires p < |a| && q < |b| && a[p].id == b[q].id
    requires forall x :: x in a && x.id != a[p].id ==> x in b
    requires forall x :: x in b && x.id != a[p].id ==> x in a
    ensures q < |a| && b == Moved(a, p, q, b[q])
  {
    DroppedOrdered(a, p);
    DroppedOrdered(b, q);
    OrderedUnique(Dropped(a, p), Dropped(b, q));
    assert b == Dropped(b, q)[..q] + [b[q]] + Dropped(b, q)[q..];
  }

  /**
   * Stated on the tables: row r is revised to v between pages m-1 and m, and the admitted rows keep
   * their places otherwise. Every matching row is visited once exactly when r's index in the old
   * listing and v's in the new one are on the same side of the end of page m-1.
   */
  lemma RevisionBetweenPages(
      tables: seq<seq<Row>>, f: Filters, ilike: Ilike, limit: nat, m: nat, n: nat, r: Row, v: Row)
    returns (p: nat, q: nat)
    requires TwoListings(tables, f, ilike, m, n) && Starts(limit)(n) >= |Listed(tables[0], f, ilike)|
    requires r in tables[0] && v in tables[m] && r.id == v.id && Admits(f, r, ilike) && Admits(f, v, ilike)
    requires CarriedBut(tables[0], tables[m], f, ilike, r.id) && CarriedBut(tables[m], tables[0], f, ilike, r.id)
    ensures var before, after := Places(Listed(tables[0], f, ilike)), Places(Listed(tables[m], f, ilike));
            && p < |before| && before[p] == PlaceOf(r) && q < |after| && after[q] == PlaceOf(v)
            && (EachOnce(before, Walked(tables, f, ilike, limit, n))
                <==> (p < Starts(limit)(m) <==> q < Starts(limit)(m)))
  {
    var before := Places(Listed(tables[0], f, ilike));
    p, q := RevisionMovesOneRow(tables[0], tables[m], f, ilike, r, v);
    MovedAt(before, p, q, PlaceOf(v), q);
    OrderedDistinctPlaces(tables[0], f, ilike);
    assert |Places(Listed(tables[m], f, ilike))| == |before|;
    WalkAcross(tables, f, ilike, limit, m, n);
    MoveBetweenPages(before, p, q, PlaceOf(v), Starts(limit)(m));
  }

  lemma OrderedDistinctPlaces(t: seq<Row>, f: Filters, ilike: Ilike)
    requires DistinctIds(t)
    ensures PlacesOrdered(Places(Listed(t, f, ilike))) && DistinctPlaces(Places(Listed(t, f, ilike)))
  {
    ListedIsOrdered(t, f, ilike);
    ListedOnce(t, f, ilike);
    PlacesAreOrdered(Listed(t, f, ilike));
  }

  lemma ListedPair(a: Row, b: Row, f: Filters, ilike: Ilike)
    requires Admits(f, a, ilike) && Admits(f, b, ilike)
    ensures Listed([a, b], f, ilike) == if Before(a, b) then [a, b] else [b, a]
  {
    assert [a, b][..1] == [a] && [a][..0] == [];
    assert Placed(a, []) == [a];
    assert Listed([a], f, ilike) == [a];
    assert !Before(a, b) ==> Placed(b, [a]) == Placed(b, []) + [a];
  }

  lemma TwoPages(pages: nat -> seq<Place>, a: Place, b: Place)
    requires pages(0) == [a] && pages(1) == [b]
    ensures Joined(pages, 2) == [a, b]
  {
    assert Joined(pages, 0) == [] && Joined(pages, 1) == [a];
  }

  /** A row whose event_date is revised between two pages can be shown twice. */
  lemma RevisedDateRepeats(f: Filters, ilike: Ilike, r: Row, s: Row)
    requires Admits(f, r, ilike) && Admits(f, s, ilike) && r.id != s.id && Before(r, s)
    requires Admits(f, r.(eventDate := None), ilike) && s.eventDate.Some?
    ensures var tables := [[r, s], [r.(eventDate := None), s]];
            Walked(tables, f, ilike, 1, 2) == [PlaceOf(r), PlaceOf(r.(eventDate := None))]
  {
    var moved := r.(eventDate := None);
    var tables := [[r, s], [moved, s]];
    ListedPair(r, s, f, ilike);
    ListedPair(moved, s, f, ilike);
    var pages := Pages(tables, f, ilike, 1);
    assert Slice([r, s], 1, 0) == [r] && Slice([s, moved], 1, 1) == [moved];
    assert Places([r]) == [PlaceOf(r)] && Places([moved]) == [PlaceOf(moved)];
    assert Starts(1)(0) == 0 && Starts(1)(1) == 1;
    TwoPages(pages, PlaceOf(r), PlaceOf(moved));
  }

  /** A new event that sorts ahead of the page being read pushes a row onto the next page as well. */
  lemma NewEventRepeats(f: Filters, ilike: Ilike, r: Row, v: Row)
    requires Admits(f, r, ilike) && Admits(f, v, ilike) && r.id != v.id && Before(v, r)
    ensures Walked([[r], [v, r]], f, ilike, 1, 2) == [PlaceOf(r), PlaceOf(r)]
  {
    var tables := [[r], [v, r]];
    ListedPair(v, r, f, ilike);
    assert [r][..0] == [] && Placed(r, []) == [r];
    assert Listed([r], f, ilike) == [r];
    var pages := Pages(tables, f, ilike, 1);
    assert Slice([r], 1, 0) == [r] && Slice([v, r], 1, 1) == [r];
    assert Places([r]) == [PlaceOf(r)];
    assert Starts(1)(0) == 0 && Starts(1)(1) == 1;
    TwoPages(pages, PlaceOf(r), PlaceOf(r));
  }
}
