/**
 * Listing events: the filter clause, the total order and the slicing of
 * api/internal/database/queries.go.
 */
module Listing {
  import opened Wrappers

  /** Ids are totally ordered and unique; a null event_date is None. Rows carry the filtered and the digested columns. */
  datatype Row = Row(
    id: nat, title: string, sourceUrl: Option<string>, eventDate: Option<int>, category: string, country: Option<string>,
    state: Option<string>, status: string, ingestedAt: int)

  datatype Filters = Filters(
    category: string, country: string, state: string, status: string,
    dateFrom: Option<int>, dateTo: Option<int>, limit: int, offset: int)

  /** Case-insensitive pattern matching, left to the database. */
  type Ilike = (string, string) -> bool

  /** A row the filters admit: every filter that is set holds, and null never matches. */
  predicate Admits(f: Filters, r: Row, ilike: Ilike) {
    && (f.category != "" ==> r.category == f.category)
    && (f.country != "" ==> r.country.Some? && ilike(r.country.value, f.country))
    && (f.state != "" ==> r.state.Some? && ilike(r.state.value, f.state))
    && (f.status != "" ==> r.status == f.status)
    && (f.dateFrom.Some? ==> r.eventDate.Some? && r.eventDate.value >= f.dateFrom.value)
    && (f.dateTo.Some? ==> r.eventDate.Some? && r.eventDate.value < f.dateTo.value)
  }

  /** Without filters every row is admitted; each one that is set narrows the listing by its own column alone. */
  lemma EachFilterNarrows(f: Filters, r: Row, ilike: Ilike)
    ensures f.category == f.country == f.state == f.status == "" && f.dateFrom == f.dateTo == None ==> Admits(f, r, ilike)
    ensures Admits(f, r, ilike) <==> Admits(f.(category := ""), r, ilike) && (f.category == "" || f.category == r.category)
    ensures Admits(f, r, ilike) <==> Admits(f.(status := ""), r, ilike) && (f.status == "" || f.status == r.status)
    ensures Admits(f, r, ilike)
            <==> Admits(f.(country := ""), r, ilike)
                 && (f.country == "" || exists name :: r.country == Some(name) && ilike(name, f.country))
    ensures Admits(f, r, ilike)
            <==> Admits(f.(state := ""), r, ilike)
                 && (f.state == "" || exists name :: r.state == Some(name) && ilike(name, f.state))
    ensures Admits(f, r, ilike)
            <==> Admits(f.(dateFrom := None), r, ilike)
                 && (f.dateFrom == None || (r.eventDate.Some? && f.dateFrom.value <= r.eventDate.value))
    ensures Admits(f, r, ilike)
            <==> Admits(f.(dateTo := None), r, ilike)
                 && (f.dateTo == None || (r.eventDate.Some? && f.dateTo.value > r.eventDate.value))
  {
  }

  // ---------------------------------------------------------------- the clause

  datatype Column = CategoryCol | CountryCol | StateCol | StatusCol | DateFromCol | DateToCol

  /** A condition "column operator $placeholder"; the operator goes with the column. */
  datatype Condition = Condition(column: Column, placeholder: nat)

  datatype Arg = Text(s: string) | Time(t: int) | Number(n: int)

  /** What "column operator value" means on a row. */
  predicate Compares(c: Column, arg: Arg, r: Row, ilike: Ilike) {
    match (c, arg)
    case (CategoryCol, Text(s)) => r.category == s
    case (CountryCol, Text(s)) => r.country.Some? && ilike(r.country.value, s)
    case (StateCol, Text(s)) => r.state.Some? && ilike(r.state.value, s)
    case (StatusCol, Text(s)) => r.status == s
    case (DateFromCol, Time(t)) => r.eventDate.Some? && r.eventDate.value >= t
    case (DateToCol, Time(t)) => r.eventDate.Some? && r.eventDate.value < t
    case _ => false
  }

  /** The conjunction of the conditions, each placeholder standing for the argument it numbers. */
  predicate Selects(conditions: seq<Condition>, args: seq<Arg>, r: Row, ilike: Ilike) {
    forall k :: 0 <= k < |conditions| ==> Holds(conditions[k], args, r, ilike)
  }

  predicate Holds(c: Condition, args: seq<Arg>, r: Row, ilike: Ilike) {
    1 <= c.placeholder <= |args| && Compares(c.column, args[c.placeholder - 1], r, ilike)
  }

  /** The k-th condition uses the k-th argument, and argID numbers the next one. */
  predicate WellBound(conditions: seq<Condition>, args: seq<Arg>, argID: nat) {
    |conditions| == |args| && argID == |args| + 1
    && forall k :: 0 <= k < |conditions| ==> conditions[k].placeholder == k + 1
  }

  /** One condition more, on the next argument, narrows the selection by exactly that comparison. */
  lemma SelectsAppend(
      conditions: seq<Condition>, args: seq<Arg>, argID: nat, column: Column, value: Arg, r: Row, ilike: Ilike)
    requires WellBound(conditions, args, argID)
    ensures Selects(conditions + [Condition(column, argID)], args + [value], r, ilike)
            <==> Selects(conditions, args, r, ilike) && Compares(column, value, r, ilike)
  {
    var cs, all := conditions + [Condition(column, argID)], args + [value];
    assert cs[|conditions|] == Condition(column, argID) && all[argID - 1] == value;
    assert Holds(cs[|conditions|], all, r, ilike) <==> Compares(column, value, r, ilike);
    MoreArgsSelectAlike(conditions, args, argID, [value], r, ilike);
    assert forall k :: 0 <= k < |conditions| ==> cs[k] == conditions[k];
  }

  /** More arguments leave the conditions' placeholders bound as they were. */
  lemma MoreArgsSelectAlike(conditions: seq<Condition>, args: seq<Arg>, argID: nat, more: seq<Arg>, r: Row, ilike: Ilike)
    requires WellBound(conditions, args, argID)
    ensures Selects(conditions, args + more, r, ilike) <==> Selects(conditions, args, r, ilike)
  {
    forall k | 0 <= k < |conditions|
      ensures Holds(conditions[k], args + more, r, ilike) <==> Holds(conditions[k], args, r, ilike)
    {
      assert (args + more)[k] == args[k];
    }
  }

  method AppendAllowedEventFilter(
      conditions: seq<Condition>, args: seq<Arg>, argID: nat, column: Column, value: Arg, ghost ilike: Ilike)
    returns (newConditions: seq<Condition>, newArgs: seq<Arg>, newArgID: nat)
    requires WellBound(conditions, args, argID)
    ensures WellBound(newConditions, newArgs, newArgID)
    ensures forall r :: Selects(newConditions, newArgs, r, ilike) <==>
              Selects(conditions, args, r, ilike) && Compares(column, value, r, ilike)
  {
    newConditions := conditions + [Condition(column, argID)];
    newArgs := args + [value];
    newArgID := argID + 1;
    forall r ensures Selects(newConditions, newArgs, r, ilike) <==>
                       Selects(conditions, args, r, ilike) && Compares(column, value, r, ilike) {
      SelectsAppend(conditions, args, argID, column, value, r, ilike);
    }
  }

  /** The clause selects exactly the rows the filters admit. */
  method BuildEventFilterClause(f: Filters, ghost ilike: Ilike)
    returns (conditions: seq<Condition>, args: seq<Arg>, argID: nat)
    ensures WellBound(conditions, args, argID)
    ensures forall r :: Selects(conditions, args, r, ilike) <==> Admits(f, r, ilike)
  {
    conditions, args, argID := [], [], 1;
    if f.category != "" {
      conditions, args, argID := AppendAllowedEventFilter(conditions, args, argID, CategoryCol, Text(f.category), ilike);
    }
    if f.country != "" {
      conditions, args, argID := AppendAllowedEventFilter(conditions, args, argID, CountryCol, Text(f.country), ilike);
    }
    if f.state != "" {
      conditions, args, argID := AppendAllowedEventFilter(conditions, args, argID, StateCol, Text(f.state), ilike);
    }
    if f.status != "" {
      conditions, args, argID := AppendAllowedEventFilter(conditions, args, argID, StatusCol, Text(f.status), ilike);
    }
    if f.dateFrom.Some? {
      conditions, args, argID := AppendAllowedEventFilter(conditions, args, argID, DateFromCol, Time(f.dateFrom.value), ilike);
    }
    if f.dateTo.Some? {
      conditions, args, argID := AppendAllowedEventFilter(conditions, args, argID, DateToCol, Time(f.dateTo.value), ilike);
    }
  }

  // ---------------------------------------------------------------- the order

  /** What decides where a row is listed. */
  datatype Place = Place(id: nat, eventDate: Option<int>)

  function PlaceOf(r: Row): Place { Place(r.id, r.eventDate) }

  /** event_date DESC NULLS LAST, id DESC. */
  predicate PlaceBefore(a: Place, b: Place) {
    if a.eventDate == b.eventDate then a.id > b.id
    else a.eventDate.Some? && (b.eventDate.None? || a.eventDate.value > b.eventDate.value)
  }

  predicate Before(a: Row, b: Row) { PlaceBefore(PlaceOf(a), PlaceOf(b)) }

  /** A strict total order on rows with different ids. */
  lemma BeforeIsStrictTotalOrder(a: Row, b: Row, c: Row)
    ensures !Before(a, a)
    ensures Before(a, b) && Before(b, c) ==> Before(a, c)
    ensures a.id != b.id ==> (Before(a, b) <==> !Before(b, a))
  {
  }

  /** Newest first, rows without a date last, and the larger id first among equals. */
  lemma NewestFirst(a: Row, b: Row)
    ensures Before(a, b) <==> match (a.eventDate, b.eventDate)
                              case (Some(x), Some(y)) => y < x || (x == y && b.id < a.id)
                              case (Some(_), None) => true
                              case (None, Some(_)) => false
                              case (None, None) => b.id < a.id
  {
  }

  predicate Ordered(rows: seq<Row>) { forall i, j :: 0 <= i < j < |rows| ==> Before(rows[i], rows[j]) }

  predicate DistinctIds(rows: seq<Row>) { forall i, j :: 0 <= i < j < |rows| ==> rows[i].id != rows[j].id }

  /** Insert into an ordered listing. */
  function Placed(r: Row, rows: seq<Row>): seq<Row> {
    if rows == [] then [r]
    else if Before(rows[|rows| - 1], r) then rows + [r]
    else Placed(r, rows[..|rows| - 1]) + [rows[|rows| - 1]]
  }

  /** The admitted rows of a table, in listing order; the table's own order is of no account. */
  function Listed(table: seq<Row>, f: Filters, ilike: Ilike): seq<Row> {
    if table == [] then []
    else
      var r := table[|table| - 1];
      var rest := Listed(table[..|table| - 1], f, ilike);
      if Admits(f, r, ilike) then Placed(r, rest) else rest
  }

  lemma {:induction false} PlacedIsOrdered(r: Row, rows: seq<Row>)
    requires Ordered(rows) && forall i :: 0 <= i < |rows| ==> rows[i].id != r.id
    ensures Ordered(Placed(r, rows)) && |Placed(r, rows)| == |rows| + 1
    ensures forall x :: x in Placed(r, rows) <==> x in rows || x == r
  {
    if rows != [] {
      var init, last := rows[..|rows| - 1], rows[|rows| - 1];
      assert rows == init + [last];
      if Before(last, r) {
        forall i | 0 <= i < |rows| ensures Before(rows[i], r) {
          BeforeIsStrictTotalOrder(rows[i], last, r);
        }
      } else {
        PlacedIsOrdered(r, init);
        var placed := Placed(r, init);
        forall i | 0 <= i < |placed| ensures Before(placed[i], last) {
          assert placed[i] in placed;
          BeforeIsStrictTotalOrder(r, last, r);
        }
      }
    }
  }

  lemma {:induction false} ListedIsOrdered(table: seq<Row>, f: Filters, ilike: Ilike)
    requires DistinctIds(table)
    ensures Ordered(Listed(table, f, ilike))
    ensures forall x :: x in Listed(table, f, ilike) <==> x in table && Admits(f, x, ilike)
  {
    if table != [] {
      var init, r := table[..|table| - 1], table[|table| - 1];
      assert table == init + [r];
      ListedIsOrdered(init, f, ilike);
      var rest := Listed(init, f, ilike);
      forall i | 0 <= i < |rest| ensures rest[i].id != r.id {
        assert rest[i] in rest;
        assert rest[i] in init;
      }
      PlacedIsOrdered(r, rest);
    }
  }

  // ---------------------------------------------------------------- a page

  function Limit(f: Filters): nat { if f.limit <= 0 || f.limit > 200 then 50 else f.limit }

  function Offset(f: Filters): nat { if f.offset < 0 then 0 else f.offset }

  function Slice<T>(rows: seq<T>, limit: nat, offset: nat): seq<T> {
    if offset >= |rows| then []
    else if offset + limit >= |rows| then rows[offset..]
    else rows[offset..offset + limit]
  }

  /** What the database returns for the statement with these conditions, arguments and placeholders. */
  function Execute(
      table: seq<Row>, conditions: seq<Condition>, args: seq<Arg>, limitAt: nat, offsetAt: nat, ilike: Ilike)
    : Option<seq<Row>>
  {
    if 1 <= limitAt <= |args| && 1 <= offsetAt <= |args| && args[limitAt - 1].Number? && args[offsetAt - 1].Number?
       && args[limitAt - 1].n >= 0 && args[offsetAt - 1].n >= 0
    then Some(Slice(Chosen(table, conditions, args, ilike), args[limitAt - 1].n, args[offsetAt - 1].n))
    else None
  }

  /** The rows the conditions select, in listing order. */
  function Chosen(table: seq<Row>, conditions: seq<Condition>, args: seq<Arg>, ilike: Ilike): seq<Row> {
    if table == [] then []
    else
      var r := table[|table| - 1];
      var rest := Chosen(table[..|table| - 1], conditions, args, ilike);
      if Selects(conditions, args, r, ilike) then Placed(r, rest) else rest
  }

  lemma {:induction false} ChosenIsListed(
      table: seq<Row>, conditions: seq<Condition>, args: seq<Arg>, f: Filters, ilike: Ilike)
    requires forall r :: Selects(conditions, args, r, ilike) <==> Admits(f, r, ilike)
    ensures Chosen(table, conditions, args, ilike) == Listed(table, f, ilike)
  {
    if table != [] {
      ChosenIsListed(table[..|table| - 1], conditions, args, f, ilike);
    }
  }

  datatype Page = Page(rows: seq<Row>, total: nat)

  /** The count of one table's listing, and a slice of another's unless the count was zero. */
  function PageRead(counted: seq<Row>, read: seq<Row>, f: Filters, ilike: Ilike): Page {
    var total := |Listed(counted, f, ilike)|;
    Page(if total == 0 then [] else Slice(Listed(read, f, ilike), Limit(f), Offset(f)), total)
  }

  /**
   * The page holds the rows of the listing from the offset on, as many as the limit: the one asked for if it
   * is 1 to 200, else 50. A table counted as empty gives none.
   */
  lemma PageExactly(counted: seq<Row>, read: seq<Row>, f: Filters, ilike: Ilike)
    ensures var page, all := PageRead(counted, read, f, ilike), Listed(read, f, ilike);
            var limit, offset := if 1 <= f.limit <= 200 then f.limit else 50, if f.offset > 0 then f.offset else 0;
            && page.total == |Listed(counted, f, ilike)|
            && (page.total == 0 ==> page.rows == [])
            && (page.total > 0 ==>
                  && (|page.rows| == limit || (|page.rows| < limit && offset + |page.rows| >= |all|))
                  && (page.rows != [] ==> offset + |page.rows| <= |all| && page.rows == all[offset..offset + |page.rows|]))
  {
  }

  /**
   * The total and the page, by two queries that may meet different tables, and either of which may
   * fail: LIMIT and OFFSET are bound to the two arguments appended for them.
   */
  method ListEvents(counted: seq<Row>, read: seq<Row>, f: Filters, ilike: Ilike, countOk: bool, readOk: bool)
    returns (answer: Option<Page>)
    ensures var total := |Listed(counted, f, ilike)|;
            answer == if !countOk || (total > 0 && !readOk) then None else Some(PageRead(counted, read, f, ilike))
  {
    var conditions, args, argID := BuildEventFilterClause(f, ilike);
    if !countOk {
      return None;
    }
    ChosenIsListed(counted, conditions, args, f, ilike);
    var total := |Chosen(counted, conditions, args, ilike)|;
    if total == 0 {
      return Some(Page([], 0));
    }
    var limit := if f.limit <= 0 || f.limit > 200 then 50 else f.limit;
    var offset := if f.offset < 0 then 0 else f.offset;
    var all := args + [Number(limit), Number(offset)];
    forall r ensures Selects(conditions, all, r, ilike) <==> Admits(f, r, ilike) {
      MoreArgsSelectAlike(conditions, args, argID, [Number(limit), Number(offset)], r, ilike);
    }
    ChosenIsListed(read, conditions, all, f, ilike);
    var rows := Execute(read, conditions, all, argID, argID + 1, ilike);
    if !readOk {
      return None;
    }
    answer := Some(Page(rows.value, total));
  }
}
