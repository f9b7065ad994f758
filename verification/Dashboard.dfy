/**
 * The pager of web/src/components/EventsDashboard.tsx: the page number in the URL, the range the
 * page announces and the Next button, over the listing of api/internal/database/queries.go.
 */
module Dashboard {
  import opened Wrappers
  import opened Decimal
  import opened Listing
  import opened Paging

  const MAX_PAGE: nat := 1_000_000
  const EVENTS_PAGE_SIZE: nat := 50
  const MAX_SAFE_INTEGER: nat := 9_007_199_254_740_991

  /** The URL's search parameters. */
  type Params = map<string, string>

  /** Anything but a plain positive integer the API accepts reads as page 1. */
  function ParsePage(raw: Option<string>): (page: nat)
    ensures 1 <= page <= MAX_PAGE
  {
    match raw
    case None => 1
    case Some(s) =>
      if s == "" || !AllDigits(s) then 1
      else
        var parsed := Read(s);
        if parsed > MAX_SAFE_INTEGER || parsed < 1 then 1
        else if parsed < MAX_PAGE then parsed else MAX_PAGE
  }

  function PageOf(params: Params): nat {
    ParsePage(if "page" in params then Some(params["page"]) else None)
  }

  function OffsetOf(params: Params): nat { (PageOf(params) - 1) * EVENTS_PAGE_SIZE }

  /** The parameters after a jump: page 1 stays out of the URL. */
  function Jumped(prev: Params, page: int): Params {
    if page <= 1 then prev - {"page"} else prev["page" := Show(page)]
  }

  /** Reading the URL back gives the page asked for, within the bound, and nothing else moves. */
  method GoToPage(prev: Params, page: int) returns (next: Params)
    ensures next - {"page"} == prev - {"page"}
    ensures "page" in next <==> page > 1
    ensures page > 1 ==> AllDigits(next["page"]) && Read(next["page"]) == page
    ensures PageOf(next) == LandedOn(page)
    ensures next == Jumped(prev, page)
  {
    JumpRoundTrip(prev, page);
    if page > 1 {
      ReadShow(page);
    }
    next := prev;
    if page <= 1 {
      next := next - {"page"};
    } else {
      next := next["page" := Show(page)];
    }
  }

  /** The page shown after asking for this one. */
  function LandedOn(page: int): nat {
    if page <= 1 || page > MAX_SAFE_INTEGER then 1 else if page < MAX_PAGE then page else MAX_PAGE
  }

  /** Read strictly: digits only, 1 to the largest safe integer, cut at a million; anything else is page 1. Pages hold 50. */
  lemma PageIsRead(s: string, params: Params)
    ensures ParsePage(None) == 1
    ensures ParsePage(Some(s)) == if s != "" && AllDigits(s) && 1 <= Read(s) <= 9_007_199_254_740_991
                                  then (if Read(s) <= 1_000_000 then Read(s) else 1_000_000) else 1
    ensures PageOf(params) == if "page" in params then ParsePage(Some(params["page"])) else 1
    ensures OffsetOf(params) == 50 * PageOf(params) - 50
  {
  }

  /** A page asked for by number is the page shown, from 1 to a million. */
  lemma LandingExactly(page: int)
    ensures LandedOn(page) == if page < 1 || page > 9_007_199_254_740_991 then 1 else if page > 1_000_000 then 1_000_000 else page
  {
  }

  lemma JumpRoundTrip(prev: Params, page: int)
    ensures Jumped(prev, page) - {"page"} == prev - {"page"}
    ensures PageOf(Jumped(prev, page)) == LandedOn(page)
  {
    if page > 1 {
      ReadShow(page);
    }
  }

  // ---------------------------------------------------------------- the range and the buttons

  datatype Pager = Pager(rangeStart: nat, rangeEnd: nat, totalPages: nat, shownPage: nat, canPrev: bool, canNext: bool)
  {
    /** The buttons are drawn only on a page with rows, of more than one. */
    predicate OffersNext() { totalPages > 1 && rangeStart > 0 && canNext }
  }

  /** Computed from the response on screen: its total, limit, offset and row count. */
  function PagerOf(total: nat, limit: nat, shownOffset: nat, shownCount: nat): Pager {
    var pageSize := if limit == 0 then EVENTS_PAGE_SIZE else limit;
    var rangeEnd := shownOffset + shownCount;
    var shownPage := shownOffset / pageSize + 1;
    Pager(
      if shownCount > 0 then shownOffset + 1 else 0,
      rangeEnd,
      if total > 0 then (total + pageSize - 1) / pageSize else 1,
      shownPage,
      shownPage > 1,
      rangeEnd < total)
  }

  /** How many rows the listing's slice holds. */
  function SliceCount(total: nat, limit: nat, offset: nat): nat {
    if offset >= total then 0 else if offset + limit >= total then total - offset else limit
  }

  lemma SliceCountIsLength<T>(rows: seq<T>, limit: nat, offset: nat)
    ensures |Slice(rows, limit, offset)| == SliceCount(|rows|, limit, offset)
  {
  }

  /** The pager of page p. */
  function ViewOf(page: nat, total: nat): Pager
    requires page > 0
  {
    var offset := (page - 1) * EVENTS_PAGE_SIZE;
    PagerOf(total, EVENTS_PAGE_SIZE, offset, SliceCount(total, EVENTS_PAGE_SIZE, offset))
  }

  /** The pager once the page the URL names is on screen. */
  function ViewAt(params: Params, total: nat): Pager { ViewOf(PageOf(params), total) }

  /** The URL after a click on Next, if this pager offers it. */
  function Turned(pager: Pager, url: Params): Params {
    if pager.OffersNext() then Jumped(url, pager.shownPage + 1) else url
  }

  function NextClick(params: Params, total: nat): Params { Turned(ViewAt(params, total), params) }

  /** The URL after n clicks. */
  function Clicked(params: Params, total: nat, n: nat): Params {
    if n == 0 then params else NextClick(Clicked(params, total, n - 1), total)
  }

  function PageCount(total: nat): nat {
    if total > 0 then (total + EVENTS_PAGE_SIZE - 1) / EVENTS_PAGE_SIZE else 1
  }

  /** On page p within the listing: the page's own range, and Next exactly when rows remain. */
  lemma ViewOfPage(p: nat, total: nat)
    requires 0 < p <= PageCount(total)
    ensures var v := ViewOf(p, total);
            && v.shownPage == p && v.totalPages == PageCount(total)
            && (v.OffersNext() <==> p < PageCount(total))
            && (v.canPrev <==> p > 1)
            && (total > 0 ==> v.rangeStart == (p - 1) * EVENTS_PAGE_SIZE + 1)
            && v.rangeEnd == if p < PageCount(total) then p * EVENTS_PAGE_SIZE else total
  {
  }

  /** The last page Next can reach. */
  function LastPage(total: nat): nat { if PageCount(total) <= MAX_PAGE then PageCount(total) else MAX_PAGE }

  lemma NextClickPage(params: Params, total: nat)
    requires PageOf(params) <= LastPage(total)
    ensures PageOf(NextClick(params, total)) == if PageOf(params) < LastPage(total) then PageOf(params) + 1 else LastPage(total)
  {
    ViewOfPage(PageOf(params), total);
    JumpRoundTrip(params, PageOf(params) + 1);
  }

  /** The n-th click lands on page n + 1, up to the last page or the bound, whichever comes first. */
  lemma {:induction false} ClickedPage(params: Params, total: nat, n: nat)
    requires PageOf(params) == 1
    ensures PageOf(Clicked(params, total, n)) == if n + 1 <= LastPage(total) then n + 1 else LastPage(total)
  {
    if n > 0 {
      ClickedPage(params, total, n - 1);
      NextClickPage(Clicked(params, total, n - 1), total);
    }
  }

  lemma PagesFit(total: nat)
    ensures PageCount(total) <= MAX_PAGE <==> total <= MAX_PAGE * EVENTS_PAGE_SIZE
  {
  }

  /** A range that starts where the last one ended, with Next and the end of the listing exactly on the last page. */
  predicate Tiles(v: Pager, previousEnd: nat, last: bool, total: nat) {
    && v.rangeStart == previousEnd + 1 && v.rangeStart <= v.rangeEnd
    && (v.OffersNext() <==> !last) && (v.rangeEnd == total <==> last)
  }

  lemma ViewsTile(p: nat, total: nat)
    requires 0 < p <= PageCount(total) && total > 0
    ensures Tiles(ViewOf(p, total), if p == 1 then 0 else ViewOf(p - 1, total).rangeEnd, p == PageCount(total), total)
  {
    ViewOfPage(p, total);
    if p > 1 {
      ViewOfPage(p - 1, total);
    }
  }

  lemma ViewAfterClicks(params: Params, total: nat, n: nat)
    requires PageOf(params) == 1 && total <= MAX_PAGE * EVENTS_PAGE_SIZE && n < PageCount(total)
    ensures ViewAt(Clicked(params, total, n), total) == ViewOf(n + 1, total)
  {
    PagesFit(total);
    ClickedPage(params, total, n);
  }

  /** The ranges shown along the way tile 1..total. */
  lemma RangesTile(params: Params, total: nat, n: nat)
    requires PageOf(params) == 1 && 0 < total <= MAX_PAGE * EVENTS_PAGE_SIZE && n < PageCount(total)
    ensures Tiles(ViewAt(Clicked(params, total, n), total),
                  if n == 0 then 0 else ViewAt(Clicked(params, total, n - 1), total).rangeEnd,
                  n + 1 == PageCount(total), total)
  {
    ViewsTile(n + 1, total);
    ViewAfterClicks(params, total, n);
    if n > 0 {
      ViewAfterClicks(params, total, n - 1);
    }
  }

  /** Next stops being offered exactly when the listing fits in the pages the URL may name. */
  lemma NextEndsExactly(params: Params, total: nat)
    requires PageOf(params) == 1
    ensures (exists n: nat :: !ViewAt(Clicked(params, total, n), total).OffersNext())
            <==> total <= 50_000_000
  {
    if total <= MAX_PAGE * EVENTS_PAGE_SIZE {
      var last: nat := PageCount(total) - 1;
      ClickedPage(params, total, last);
      ViewOfPage(last + 1, total);
      assert !ViewAt(Clicked(params, total, last), total).OffersNext();
    } else {
      forall n: nat ensures ViewAt(Clicked(params, total, n), total).OffersNext() {
        ClickedPage(params, total, n);
        ViewOfPage(PageOf(Clicked(params, total, n)), total);
      }
    }
  }

  // ---------------------------------------------------------------- the rows on screen

  /** What the API answers to the dashboard's request at this offset. */
  function Fetched(counted: seq<Row>, read: seq<Row>, f: Filters, ilike: Ilike, offset: nat): Page {
    PageRead(counted, read, f.(limit := EVENTS_PAGE_SIZE, offset := offset), ilike)
  }

  lemma {:induction false} LimitAndOffsetDoNotFilter(table: seq<Row>, f: Filters, ilike: Ilike, limit: int, offset: int)
    ensures Listed(table, f.(limit := limit, offset := offset), ilike) == Listed(table, f, ilike)
  {
    if table != [] {
      LimitAndOffsetDoNotFilter(table[..|table| - 1], f, ilike, limit, offset);
    }
  }

  /** The tables the two queries of screen k met. */
  datatype Snapshot = Snapshot(counted: seq<Row>, read: seq<Row>)

  function Response(views: seq<Snapshot>, f: Filters, ilike: Ilike, k: nat, url: Params): Page
    requires k < |views|
  {
    Fetched(views[k].counted, views[k].read, f, ilike, OffsetOf(url))
  }

  /** The pager of screen k, computed from the response on it. */
  function PagerAt(views: seq<Snapshot>, f: Filters, ilike: Ilike, k: nat, url: Params): Pager
    requires k < |views|
  {
    var response := Response(views, f, ilike, k, url);
    PagerOf(response.total, EVENTS_PAGE_SIZE, OffsetOf(url), |response.rows|)
  }

  /** The URL after n clicks on Next, each on the pager of its own screen, as far as Next is offered. */
  function UrlAfter(views: seq<Snapshot>, f: Filters, ilike: Ilike, params: Params, n: nat): Params
    requires n <= |views|
  {
    if n == 0 then params
    else
      var before := UrlAfter(views, f, ilike, params, n - 1);
      Turned(PagerAt(views, f, ilike, n - 1, before), before)
  }

  function Reads(views: seq<Snapshot>): (tables: seq<seq<Row>>)
    ensures |tables| == |views| && forall k :: 0 <= k < |tables| ==> tables[k] == views[k].read
  {
    seq(|views|, k requires 0 <= k < |views| => views[k].read)
  }

  /** Whatever was written between the queries left the admitted rows' places as they were. */
  predicate Steady(views: seq<Snapshot>, f: Filters, ilike: Ilike) {
    && Stable(Reads(views), f, ilike)
    && forall k :: 0 <= k < |views| ==>
         DistinctIds(views[k].counted) && SameListing(views[0].read, views[k].counted, f, ilike)
  }

  lemma SameListingSameTotal(t: seq<Row>, u: seq<Row>, f: Filters, ilike: Ilike)
    requires DistinctIds(t) && DistinctIds(u) && SameListing(t, u, f, ilike)
    ensures |Listed(u, f, ilike)| == |Listed(t, f, ilike)|
  {
    SameListingSamePlaces(t, u, f, ilike);
    assert |Places(Listed(u, f, ilike))| == |Listed(u, f, ilike)|;
    assert |Places(Listed(t, f, ilike))| == |Listed(t, f, ilike)|;
  }

  /** Every response states the same total, and its rows are the slice at the offset asked for. */
  lemma SteadyResponse(views: seq<Snapshot>, f: Filters, ilike: Ilike, k: nat, url: Params)
    requires k < |views| && Steady(views, f, ilike)
    ensures var response := Response(views, f, ilike, k, url);
            && response.total == |Listed(views[0].read, f, ilike)|
            && response.rows == Slice(Listed(views[k].read, f, ilike), EVENTS_PAGE_SIZE, OffsetOf(url))
            && |response.rows| == SliceCount(response.total, EVENTS_PAGE_SIZE, OffsetOf(url))
  {
    LimitAndOffsetDoNotFilter(views[k].counted, f, ilike, EVENTS_PAGE_SIZE, OffsetOf(url));
    LimitAndOffsetDoNotFilter(views[k].read, f, ilike, EVENTS_PAGE_SIZE, OffsetOf(url));
    assert Reads(views)[0] == views[0].read && Reads(views)[k] == views[k].read;
    SameListingSameTotal(views[0].read, views[k].counted, f, ilike);
    SameListingSameTotal(views[0].read, views[k].read, f, ilike);
    SliceCountIsLength(Listed(views[k].read, f, ilike), EVENTS_PAGE_SIZE, OffsetOf(url));
  }

  lemma SteadyPager(views: seq<Snapshot>, f: Filters, ilike: Ilike, k: nat, url: Params)
    requires k < |views| && Steady(views, f, ilike)
    ensures PagerAt(views, f, ilike, k, url) == ViewAt(url, |Listed(views[0].read, f, ilike)|)
  {
    SteadyResponse(views, f, ilike, k, url);
  }

  /** Every pager is that of a listing of this size. */
  ghost predicate PagersShow(views: seq<Snapshot>, f: Filters, ilike: Ilike, total: nat) {
    forall k: nat, url: Params :: k < |views| ==> PagerShows(views, f, ilike, k, url, total)
  }

  predicate PagerShows(views: seq<Snapshot>, f: Filters, ilike: Ilike, k: nat, url: Params, total: nat)
    requires k < |views|
  {
    PagerAt(views, f, ilike, k, url) == ViewAt(url, total)
  }

  lemma TurnAlike(views: seq<Snapshot>, f: Filters, ilike: Ilike, k: nat, url: Params, total: nat)
    requires k < |views| && PagerShows(views, f, ilike, k, url, total)
    ensures Turned(PagerAt(views, f, ilike, k, url), url) == NextClick(url, total)
  {
  }

  lemma {:induction false} PagersClick(views: seq<Snapshot>, f: Filters, ilike: Ilike, params: Params, total: nat, n: nat)
    requires n <= |views| && PagersShow(views, f, ilike, total)
    ensures UrlAfter(views, f, ilike, params, n) == Clicked(params, total, n)
  {
    if n > 0 {
      var k := n - 1;
      var url := Clicked(params, total, k);
      PagersClick(views, f, ilike, params, total, k);
      assert PagerShows(views, f, ilike, k, url, total);
      TurnAlike(views, f, ilike, k, url, total);
    }
  }

  lemma UrlIsClicked(views: seq<Snapshot>, f: Filters, ilike: Ilike, params: Params, n: nat)
    requires 0 < |views| && n <= |views| && Steady(views, f, ilike)
    ensures UrlAfter(views, f, ilike, params, n) == Clicked(params, |Listed(views[0].read, f, ilike)|, n)
  {
    var total := |Listed(views[0].read, f, ilike)|;
    forall k: nat, url: Params | k < |views| ensures PagerShows(views, f, ilike, k, url, total) {
      SteadyPager(views, f, ilike, k, url);
    }
    PagersClick(views, f, ilike, params, total, n);
  }

  /** What screen k shows. */
  function Screens(views: seq<Snapshot>, f: Filters, ilike: Ilike, params: Params): nat -> seq<Place> {
    (k: nat) => if k < |views| then Places(Response(views, f, ilike, k, UrlAfter(views, f, ilike, params, k)).rows) else []
  }

  /** The places shown on the first n screens. */
  function Seen(views: seq<Snapshot>, f: Filters, ilike: Ilike, params: Params, n: nat): seq<Place> {
    Joined(Screens(views, f, ilike, params), n)
  }

  lemma ScreenIsPage(views: seq<Snapshot>, f: Filters, ilike: Ilike, params: Params, k: nat)
    requires PageOf(params) == 1 && k < |views| && Steady(views, f, ilike)
    requires k < LastPage(|Listed(views[0].read, f, ilike)|)
    ensures Screens(views, f, ilike, params)(k) == Pages(Reads(views), f, ilike, EVENTS_PAGE_SIZE)(k)
  {
    UrlIsClicked(views, f, ilike, params, k);
    ClickedPage(params, |Listed(views[0].read, f, ilike)|, k);
    SteadyResponse(views, f, ilike, k, UrlAfter(views, f, ilike, params, k));
    assert Starts(EVENTS_PAGE_SIZE)(k) == k * EVENTS_PAGE_SIZE;
  }

  lemma SeenIsWalked(views: seq<Snapshot>, f: Filters, ilike: Ilike, params: Params, n: nat)
    requires PageOf(params) == 1 && 0 < |views| && n <= |views| && Steady(views, f, ilike)
    requires n <= LastPage(|Listed(views[0].read, f, ilike)|)
    ensures Seen(views, f, ilike, params, n) == Walked(Reads(views), f, ilike, EVENTS_PAGE_SIZE, n)
  {
    var screens, pages := Screens(views, f, ilike, params), Pages(Reads(views), f, ilike, EVENTS_PAGE_SIZE);
    forall k: nat | k < n ensures screens(k) == pages(k) {
      ScreenIsPage(views, f, ilike, params, k);
    }
    SamePagesJoinAlike(screens, pages, n);
  }

  /**
   * Following Next from page 1, each time on the total and the rows of the screen's own response, with
   * writes between any two queries that leave the matching rows' places as they are (re-upserts that
   * change only ingested_at among them): every matching row is shown exactly once, and Next is offered
   * on every screen but the last.
   */
  lemma FollowingNextShowsEachRowOnce(views: seq<Snapshot>, f: Filters, ilike: Ilike, params: Params)
    requires 0 < |views| && Steady(views, f, ilike) && PageOf(params) == 1
    requires var total := |Listed(views[0].read, f, ilike)|;
             total <= MAX_PAGE * EVENTS_PAGE_SIZE && |views| == PageCount(total)
    ensures Seen(views, f, ilike, params, |views|) == Places(Listed(views[0].read, f, ilike))
    ensures forall r :: r in views[0].read && Admits(f, r, ilike) ==>
              Visits(r.id, Seen(views, f, ilike, params, |views|)) == 1
    ensures forall n :: 0 <= n < |views| ==>
              (PagerAt(views, f, ilike, n, UrlAfter(views, f, ilike, params, n)).OffersNext() <==> n < |views| - 1)
  {
    var total := |Listed(views[0].read, f, ilike)|;
    assert Reads(views)[0] == views[0].read;
    PagesFit(total);
    SeenIsWalked(views, f, ilike, params, |views|);
    ExactlyOncePaging(Reads(views), f, ilike, EVENTS_PAGE_SIZE, |views|);
    forall n | 0 <= n < |views|
      ensures PagerAt(views, f, ilike, n, UrlAfter(views, f, ilike, params, n)).OffersNext() <==> n < |views| - 1
    {
      UrlIsClicked(views, f, ilike, params, n);
      SteadyPager(views, f, ilike, n, UrlAfter(views, f, ilike, params, n));
      ViewAfterClicks(params, total, n);
      ViewOfPage(n + 1, total);
    }
  }
}
