/**
 Keyset pagination of getMyEvents in src/did-api/did-api.service.ts: pages ordered by (startDate, id),
 a cursor naming the last row of the page, and one extra row fetched to see whether more follow.
 Dates are microseconds, as the database stores them; the cursor carries milliseconds.
 */
module KeysetPagination {
  import opened Basics

  const DEFAULT_LIMIT: nat := 50

  datatype Visibility = Public | Unlisted | Private

  /** An event row with the user's group membership and attendance joined on. */
  datatype Row = Row(
    id: int,
    startDate: int,
    published: bool,
    visibility: Visibility,
    isMember: bool,
    isAttending: bool,
    groupSlug: string
  )

  datatype Filters = Filters(fromDate: int, toDate: int, includePublic: bool, groupSlug: string)

  datatype Cursor = Cursor(id: int, startDate: int)

  datatype Page = Page(events: seq<Row>, next: Option<Cursor>)

  predicate Listed(row: Row, q: Filters) {
    && row.published
    && q.fromDate <= row.startDate <= q.toDate
    && (if q.includePublic then (!row.visibility.Public? && row.isMember) || row.isAttending
        else !row.visibility.Public? && (row.isMember || row.isAttending))
    && (q.groupSlug != "" ==> row.groupSlug == q.groupSlug)
  }

  predicate AfterCursor(row: Row, cursor: Option<Cursor>) {
    cursor.Some? ==> row.startDate > cursor.value.startDate
                     || (row.startDate == cursor.value.startDate && row.id > cursor.value.id)
  }

  /** encodeCursor goes through a JavaScript date, which drops what is finer than a millisecond. */
  function CursorOf(row: Row): Cursor {
    Cursor(row.id, row.startDate - row.startDate % 1000)
  }

  predicate WholeMillisecond(row: Row) {
    row.startDate % 1000 == 0
  }

  // ---------------------------------------------------------------- the query

  predicate Before(a: Row, b: Row) {
    a.startDate < b.startDate || (a.startDate == b.startDate && a.id < b.id)
  }

  ghost predicate Ascending(rows: seq<Row>) {
    forall i, j :: 0 <= i < j < |rows| ==> Before(rows[i], rows[j])
  }

  ghost predicate UniqueIds(rows: seq<Row>) {
    forall i, j :: 0 <= i < j < |rows| ==> rows[i].id != rows[j].id
  }

  function Select(rows: seq<Row>, q: Filters, cursor: Option<Cursor>): seq<Row> {
    if rows == [] then []
    else if Listed(rows[0], q) && AfterCursor(rows[0], cursor) then [rows[0]] + Select(rows[1..], q, cursor)
    else Select(rows[1..], q, cursor)
  }

  function Insert(row: Row, rows: seq<Row>): seq<Row> {
    if rows == [] || Before(row, rows[0]) then [row] + rows else [rows[0]] + Insert(row, rows[1..])
  }

  function OrderBy(rows: seq<Row>): seq<Row> {
    if rows == [] then [] else Insert(rows[0], OrderBy(rows[1..]))
  }

  function Matching(rows: seq<Row>, q: Filters, cursor: Option<Cursor>): seq<Row> {
    OrderBy(Select(rows, q, cursor))
  }

  function Take(rows: seq<Row>, n: nat): seq<Row> {
    if |rows| <= n then rows else rows[..n]
  }

  lemma {:induction false} SelectMembers(rows: seq<Row>, q: Filters, cursor: Option<Cursor>, row: Row)
    ensures row in Select(rows, q, cursor) <==> row in rows && Listed(row, q) && AfterCursor(row, cursor)
  {
    if rows != [] {
      assert rows == [rows[0]] + rows[1..];
      SelectMembers(rows[1..], q, cursor, row);
    }
  }

  lemma {:induction false} SelectUnique(rows: seq<Row>, q: Filters, cursor: Option<Cursor>)
    requires UniqueIds(rows)
    ensures UniqueIds(Select(rows, q, cursor))
  {
    if rows != [] {
      SelectUnique(rows[1..], q, cursor);
      forall row | row in Select(rows[1..], q, cursor)
        ensures row.id != rows[0].id
      {
        SelectMembers(rows[1..], q, cursor, row);
      }
    }
  }

  lemma {:induction false} InsertMembers(row: Row, rows: seq<Row>, other: Row)
    ensures other in Insert(row, rows) <==> other == row || other in rows
  {
    if rows != [] && !Before(row, rows[0]) {
      assert rows == [rows[0]] + rows[1..];
      InsertMembers(row, rows[1..], other);
    }
  }

  lemma {:induction false} InsertAscending(row: Row, rows: seq<Row>)
    requires Ascending(rows) && forall other :: other in rows ==> other.id != row.id
    ensures Ascending(Insert(row, rows))
  {
    if rows != [] && !Before(row, rows[0]) {
      InsertAscending(row, rows[1..]);
      var rest := Insert(row, rows[1..]);
      forall i | 0 <= i < |rest|
        ensures Before(rows[0], rest[i])
      {
        InsertMembers(row, rows[1..], rest[i]);
        assert rows[0] in rows;
      }
    }
  }

  lemma {:induction false} OrderByMembers(rows: seq<Row>, row: Row)
    ensures row in OrderBy(rows) <==> row in rows
  {
    if rows != [] {
      assert rows == [rows[0]] + rows[1..];
      OrderByMembers(rows[1..], row);
      InsertMembers(rows[0], OrderBy(rows[1..]), row);
    }
  }

  lemma {:induction false} OrderByAscending(rows: seq<Row>)
    requires UniqueIds(rows)
    ensures Ascending(OrderBy(rows))
  {
    if rows != [] {
      OrderByAscending(rows[1..]);
      forall other | other in OrderBy(rows[1..])
        ensures other.id != rows[0].id
      {
        OrderByMembers(rows[1..], other);
      }
      InsertAscending(rows[0], OrderBy(rows[1..]));
    }
  }

  /** The rows the query sees, in order, each once. */
  lemma MatchingIsOrderedSelection(rows: seq<Row>, q: Filters, cursor: Option<Cursor>)
    requires UniqueIds(rows)
    ensures Ascending(Matching(rows, q, cursor))
    ensures forall row ::
      row in Matching(rows, q, cursor) <==> row in rows && Listed(row, q) && AfterCursor(row, cursor)
  {
    SelectUnique(rows, q, cursor);
    OrderByAscending(Select(rows, q, cursor));
    forall row
      ensures row in Matching(rows, q, cursor) <==> row in rows && Listed(row, q) && AfterCursor(row, cursor)
    {
      SelectMembers(rows, q, cursor, row);
      OrderByMembers(Select(rows, q, cursor), row);
    }
  }

  /** Which events a user is shown: published ones of the period and group asked for, after the cursor; public ones
      only on request and only if attended, all others if the user attends or is a member of the group. */
  lemma ShownExactly(rows: seq<Row>, q: Filters, cursor: Option<Cursor>, row: Row)
    requires UniqueIds(rows)
    ensures row in Matching(rows, q, cursor) <==>
      && row in rows && row.published && row.startDate >= q.fromDate && row.startDate <= q.toDate
      && (q.groupSlug == "" || row.groupSlug == q.groupSlug)
      && (if row.visibility == Public then q.includePublic && row.isAttending else row.isAttending || row.isMember)
      && (cursor == None || row.startDate > cursor.value.startDate
          || (row.startDate == cursor.value.startDate && row.id > cursor.value.id))
  {
    MatchingIsOrderedSelection(rows, q, cursor);
  }

  lemma {:induction false} AscendingUnique(a: seq<Row>, b: seq<Row>)
    requires Ascending(a) && Ascending(b) && forall row :: row in a <==> row in b
    ensures a == b
  {
    assert a != [] ==> a[0] in a;
    assert b != [] ==> b[0] in b;
    if a != [] {
      assert a[0] in b && b[0] in a;
      assert a[0] == b[0];
      assert a == [a[0]] + a[1..] && b == [b[0]] + b[1..];
      assert a[0] !in a[1..] && b[0] !in b[1..];
      assert forall row :: row in a <==> row == a[0] || row in a[1..];
      assert forall row :: row in b <==> row == b[0] || row in b[1..];
      AscendingUnique(a[1..], b[1..]);
    }
  }

  // ---------------------------------------------------------------- one page

  /** What a page should be: the first `limit` matching rows, and a cursor exactly when there are more. */
  function PageOf(rows: seq<Row>, q: Filters, cursor: Option<Cursor>, limit: nat): Page
    requires limit >= 1
  {
    var matching := Matching(rows, q, cursor);
    Page(Take(matching, limit), if |matching| > limit then Some(CursorOf(matching[limit - 1])) else None)
  }

  function EffectiveLimit(limit: nat): nat {
    if limit != 0 then limit else DEFAULT_LIMIT
  }

  /** getMyEvents: an undecodable cursor is ignored; the extra row is fetched, noticed and dropped. */
  method GetMyEvents(
    rows: seq<Row>, q: Filters, limit: nat, cursor: string,
    encode: Cursor -> string, decode: string -> Option<Cursor>)
    returns (events: seq<Row>, nextCursor: Option<string>)
    ensures var page := PageOf(rows, q, if cursor == "" then None else decode(cursor), EffectiveLimit(limit));
      && events == page.events
      && nextCursor == match page.next case Some(c) => Some(encode(c)) case None => None
  {
    var pageSize := if limit != 0 then limit else DEFAULT_LIMIT;
    var after := None;
    if cursor != "" {
      after := decode(cursor);
    }
    events := Take(Matching(rows, q, after), pageSize + 1);
    var hasMore := |events| > pageSize;
    if hasMore {
      events := events[..|events| - 1];
    }
    nextCursor := None;
    if hasMore && |events| > 0 {
      nextCursor := Some(encode(CursorOf(events[|events| - 1])));
    }
  }

  // ---------------------------------------------------------------- following cursors

  /** The pages a client gets from the tables it meets, one table per request, until no cursor comes back. */
  ghost predicate Walk(tables: seq<seq<Row>>, q: Filters, limit: nat, cursor: Option<Cursor>, pages: seq<seq<Row>>)
    requires limit >= 1
    decreases |pages|
  {
    && |tables| == |pages| > 0
    && var page := PageOf(tables[0], q, cursor, limit);
      && pages[0] == page.events
      && (if page.next.None? then |pages| == 1 else Walk(tables[1..], q, limit, page.next, pages[1..]))
  }

  ghost predicate Unchanged(tables: seq<seq<Row>>, rows: seq<Row>) {
    forall i :: 0 <= i < |tables| ==> tables[i] == rows
  }

  function Joined(pages: seq<seq<Row>>): seq<Row> {
    if pages == [] then [] else pages[0] + Joined(pages[1..])
  }

  /** The last row of every page but the final one has no digits below the millisecond. */
  ghost predicate BoundariesWhole(pages: seq<seq<Row>>) {
    forall i :: 0 <= i < |pages| - 1 ==> pages[i] != [] && WholeMillisecond(pages[i][|pages[i]| - 1])
  }

  lemma BoundariesShift(pages: seq<seq<Row>>)
    requires |pages| >= 2
    ensures BoundariesWhole(pages) <==>
      pages[0] != [] && WholeMillisecond(pages[0][|pages[0]| - 1]) && BoundariesWhole(pages[1..])
  {
    assert forall i :: 0 < i < |pages| ==> pages[i] == pages[1..][i - 1];
  }

  lemma JoinedShift(pages: seq<seq<Row>>, rows: seq<Row>)
    requires pages != [] && pages[0] <= rows
    ensures Joined(pages) == rows <==> Joined(pages[1..]) == rows[|pages[0]|..]
  {
    assert Joined(pages)[|pages[0]|..] == Joined(pages[1..]);
    assert rows == pages[0] + rows[|pages[0]|..];
  }

  /** A page boundary is exact precisely when its row's date survives the cursor. */
  lemma BoundaryExactly(rows: seq<Row>, q: Filters, cursor: Option<Cursor>, k: nat)
    requires UniqueIds(rows) && k < |Matching(rows, q, cursor)|
    ensures var here := Matching(rows, q, cursor);
      Matching(rows, q, Some(CursorOf(here[k]))) == here[k + 1..] <==> WholeMillisecond(here[k])
  {
    var here := Matching(rows, q, cursor);
    var next := Matching(rows, q, Some(CursorOf(here[k])));
    MatchingIsOrderedSelection(rows, q, cursor);
    MatchingIsOrderedSelection(rows, q, Some(CursorOf(here[k])));
    assert here[k] in here;
    if WholeMillisecond(here[k]) {
      SuffixMembers(here, k);
      assert forall row :: row in next <==> row in here && Before(here[k], row);
      AscendingUnique(next, here[k + 1..]);
    } else {
      assert here[k] in next && here[k] !in here[k + 1..];
    }
  }

  lemma SuffixMembers(rows: seq<Row>, k: nat)
    requires Ascending(rows) && k < |rows|
    ensures forall row :: row in rows[k + 1..] <==> row in rows && Before(rows[k], row)
    ensures Ascending(rows[k + 1..])
  {
    forall row | row in rows && Before(rows[k], row)
      ensures row in rows[k + 1..]
    {
      var i :| 0 <= i < |rows| && rows[i] == row;
      assert rows[k + 1..][i - k - 1] == row;
    }
  }

  /** After an inexact boundary the next page starts over at or before the row that ended this one. */
  lemma InexactBoundaryRepeats(rows: seq<Row>, q: Filters, cursor: Option<Cursor>, k: nat)
    requires UniqueIds(rows) && k < |Matching(rows, q, cursor)| && !WholeMillisecond(Matching(rows, q, cursor)[k])
    ensures var here := Matching(rows, q, cursor); var next := Matching(rows, q, Some(CursorOf(here[k])));
      next != [] && !Before(here[k], next[0])
  {
    var here := Matching(rows, q, cursor);
    var next := Matching(rows, q, Some(CursorOf(here[k])));
    MatchingIsOrderedSelection(rows, q, cursor);
    MatchingIsOrderedSelection(rows, q, Some(CursorOf(here[k])));
    assert here[k] in here;
    assert here[k] in next;
  }

  lemma WalkRest(
    tables: seq<seq<Row>>, rows: seq<Row>, q: Filters, limit: nat, cursor: Option<Cursor>, pages: seq<seq<Row>>)
    requires limit >= 1 && Unchanged(tables, rows) && Walk(tables, q, limit, cursor, pages)
    ensures |pages| > 0 && Unchanged(tables[1..], rows) && pages[0] == Take(Matching(rows, q, cursor), limit)
    ensures var next := PageOf(rows, q, cursor, limit).next;
      if next.None? then |pages| == 1 else |pages| >= 2 && Walk(tables[1..], q, limit, next, pages[1..])
  {
    assert tables[0] == rows;
  }

  /** ... so what follows is not the rest of the list. */
  lemma InexactContinues(
    tables: seq<seq<Row>>, rows: seq<Row>, q: Filters, limit: nat, cursor: Option<Cursor>, pages: seq<seq<Row>>,
    k: nat)
    requires limit >= 1 && UniqueIds(rows) && Unchanged(tables, rows)
    requires k + 1 < |Matching(rows, q, cursor)| && !WholeMillisecond(Matching(rows, q, cursor)[k])
    requires Walk(tables, q, limit, Some(CursorOf(Matching(rows, q, cursor)[k])), pages)
    ensures Joined(pages) != Matching(rows, q, cursor)[k + 1..]
  {
    var here := Matching(rows, q, cursor);
    InexactBoundaryRepeats(rows, q, cursor, k);
    MatchingIsOrderedSelection(rows, q, cursor);
    WalkRest(tables, rows, q, limit, Some(CursorOf(here[k])), pages);
    assert Joined(pages)[0] == pages[0][0] == Matching(rows, q, Some(CursorOf(here[k])))[0];
    assert here[k + 1..][0] == here[k + 1] && Before(here[k], here[k + 1]);
  }

  /** One page against the rest: the joined pages are the list if and only if the rest is right. */
  lemma OnePage(pages: seq<seq<Row>>, rows: seq<Row>, limit: nat)
    requires |pages| >= 2 && 1 <= limit < |rows| && pages[0] == rows[..limit]
    ensures Joined(pages) == rows <==> Joined(pages[1..]) == rows[limit..]
  {
    JoinedShift(pages, rows);
  }

  /** The rows on which pages of this list end, all but the last page's, have dates in whole milliseconds. */
  predicate PositionsWhole(list: seq<Row>, limit: nat)
    requires limit >= 1
    decreases |list|
  {
    |list| <= limit || (WholeMillisecond(list[limit - 1]) && PositionsWhole(list[limit..], limit))
  }

  /** On a table that stays put, the pages from a cursor on, joined, are the whole ordered list after it
      exactly when the rows at the list's page ends have dates in whole milliseconds. */
  lemma {:induction false} PagesAreTheWholeListExactly(
    tables: seq<seq<Row>>, rows: seq<Row>, q: Filters, limit: nat, cursor: Option<Cursor>, pages: seq<seq<Row>>)
    requires limit >= 1 && UniqueIds(rows) && Unchanged(tables, rows) && Walk(tables, q, limit, cursor, pages)
    ensures Joined(pages) == Matching(rows, q, cursor) <==> PositionsWhole(Matching(rows, q, cursor), limit)
    decreases |pages|
  {
    var here, next := Matching(rows, q, cursor), PageOf(rows, q, cursor, limit).next;
    WalkRest(tables, rows, q, limit, cursor, pages);
    if next.None? {
      assert Joined(pages) == pages[0] + Joined([]) == pages[0];
    } else {
      OnePage(pages, here, limit);
      if WholeMillisecond(here[limit - 1]) {
        BoundaryExactly(rows, q, cursor, limit - 1);
        PagesAreTheWholeListExactly(tables[1..], rows, q, limit, next, pages[1..]);
      } else {
        InexactContinues(tables[1..], rows, q, limit, cursor, pages[1..], limit - 1);
      }
    }
  }

  lemma {:induction false} WalkEnds(rows: seq<Row>, q: Filters, limit: nat, cursor: Option<Cursor>)
    returns (tables: seq<seq<Row>>, pages: seq<seq<Row>>)
    requires limit >= 1 && UniqueIds(rows) && PositionsWhole(Matching(rows, q, cursor), limit)
    ensures Unchanged(tables, rows) && Walk(tables, q, limit, cursor, pages)
    ensures (|pages| - 1) * limit <= |Matching(rows, q, cursor)|
    decreases |Matching(rows, q, cursor)|
  {
    var page := PageOf(rows, q, cursor, limit);
    if page.next.None? {
      tables, pages := [rows], [page.events];
    } else {
      BoundaryExactly(rows, q, cursor, limit - 1);
      var moreTables, more := WalkEnds(rows, q, limit, page.next);
      WalkPrepend(rows, moreTables, q, limit, cursor, more);
      tables, pages := [rows] + moreTables, [page.events] + more;
      OneMore(|more|, limit);
    }
  }

  lemma OneMore(n: nat, limit: nat)
    ensures (n + 1 - 1) * limit == (n - 1) * limit + limit
  {
  }

  lemma WalkPrepend(
    rows: seq<Row>, tables: seq<seq<Row>>, q: Filters, limit: nat, cursor: Option<Cursor>, pages: seq<seq<Row>>)
    requires limit >= 1 && PageOf(rows, q, cursor, limit).next.Some?
    requires Walk(tables, q, limit, PageOf(rows, q, cursor, limit).next, pages)
    ensures Walk([rows] + tables, q, limit, cursor, [PageOf(rows, q, cursor, limit).events] + pages)
  {
    var page := PageOf(rows, q, cursor, limit);
    assert ([rows] + tables)[1..] == tables && ([page.events] + pages)[1..] == pages;
  }

  /** If the list's page ends are whole, following cursors ends after at most |list| / limit + 1 requests
      and yields the whole list. */
  lemma FollowingCursorsEnds(rows: seq<Row>, q: Filters, limit: nat, cursor: Option<Cursor>)
    returns (tables: seq<seq<Row>>, pages: seq<seq<Row>>)
    requires limit >= 1 && UniqueIds(rows) && PositionsWhole(Matching(rows, q, cursor), limit)
    ensures Unchanged(tables, rows) && Walk(tables, q, limit, cursor, pages)
    ensures Joined(pages) == Matching(rows, q, cursor)
    ensures (|pages| - 1) * limit <= |Matching(rows, q, cursor)|
  {
    tables, pages := WalkEnds(rows, q, limit, cursor);
    PagesAreTheWholeListExactly(tables, rows, q, limit, cursor, pages);
  }

  /** Following cursors on this table ends, and the pages joined are the whole ordered list. */
  ghost predicate Yields(rows: seq<Row>, q: Filters, limit: nat, cursor: Option<Cursor>)
    requires limit >= 1
  {
    exists tables, pages :: Unchanged(tables, rows) && Walk(tables, q, limit, cursor, pages)
      && Joined(pages) == Matching(rows, q, cursor)
  }

  /** Following cursors ends with the whole ordered list exactly when the rows at the list's page ends have
      whole milliseconds. */
  lemma YieldsExactly(rows: seq<Row>, q: Filters, limit: nat, cursor: Option<Cursor>)
    requires limit >= 1 && UniqueIds(rows)
    ensures Yields(rows, q, limit, cursor) <==> PositionsWhole(Matching(rows, q, cursor), limit)
  {
    if PositionsWhole(Matching(rows, q, cursor), limit) {
      var tables, pages := FollowingCursorsEnds(rows, q, limit, cursor);
    } else if Yields(rows, q, limit, cursor) {
      var tables, pages :| Unchanged(tables, rows) && Walk(tables, q, limit, cursor, pages)
        && Joined(pages) == Matching(rows, q, cursor);
      PagesAreTheWholeListExactly(tables, rows, q, limit, cursor, pages);
    }
  }

  lemma {:induction false} WholeListIsWhole(list: seq<Row>, limit: nat)
    requires limit >= 1 && forall i :: 0 <= i < |list| ==> WholeMillisecond(list[i])
    ensures PositionsWhole(list, limit)
    decreases |list|
  {
    if |list| > limit {
      WholeListIsWhole(list[limit..], limit);
    }
  }

  /** In particular on every table whose listed dates are whole milliseconds, for every page size. */
  lemma MillisecondDatesSuffice(rows: seq<Row>, q: Filters, limit: nat, cursor: Option<Cursor>)
    requires limit >= 1 && UniqueIds(rows)
    requires forall row :: row in rows && Listed(row, q) ==> WholeMillisecond(row)
    ensures Yields(rows, q, limit, cursor)
  {
    var list := Matching(rows, q, cursor);
    MatchingIsOrderedSelection(rows, q, cursor);
    forall i | 0 <= i < |list|
      ensures WholeMillisecond(list[i])
    {
      assert list[i] in list;
    }
    WholeListIsWhole(list, limit);
    YieldsExactly(rows, q, limit, cursor);
  }

  lemma {:induction false} DistinctElements(rows: seq<Row>)
    requires UniqueIds(rows)
    ensures |set row | row in rows| == |rows|
  {
    if rows != [] {
      var rest := rows[1..];
      DistinctElements(rest);
      assert rows[0] !in rest;
      var all, others := set row | row in rows, set row | row in rest;
      forall row
        ensures row in all <==> row in others + {rows[0]}
      {
        assert row in rows <==> row == rows[0] || row in rest;
      }
      assert all == others + {rows[0]};
    }
  }

  lemma {:induction false} AtMostElements(rows: seq<Row>)
    ensures |set row | row in rows| <= |rows|
  {
    if rows != [] {
      var rest := rows[1..];
      AtMostElements(rest);
      var all, others := set row | row in rows, set row | row in rest;
      forall row
        ensures row in all <==> row in others + {rows[0]}
      {
        assert row in rows <==> row == rows[0] || row in rest;
      }
      assert all == others + {rows[0]};
    }
  }

  lemma SubsetElements(a: set<Row>, b: set<Row>)
    requires a <= b
    ensures |a| <= |b|
  {
    assert b == a + (b - a);
  }

  /** Distinct rows that all lie in a list are no more than the list is long. */
  lemma Crowded(crowd: seq<Row>, rows: seq<Row>)
    requires UniqueIds(crowd) && forall row :: row in crowd ==> row in rows
    ensures |crowd| <= |rows|
  {
    DistinctElements(crowd);
    AtMostElements(rows);
    SubsetElements(set row | row in crowd, set row | row in rows);
  }

  /** `crowd` are listed events strictly inside the millisecond that starts at `start`. */
  ghost predicate Inside(crowd: seq<Row>, rows: seq<Row>, q: Filters, start: int) {
    start % 1000 == 0 && UniqueIds(crowd)
    && forall row :: row in crowd ==> row in rows && Listed(row, q) && start < row.startDate < start + 1000
  }

  predicate Reaches(cursor: Option<Cursor>, start: int) {
    cursor.Some? ==> cursor.value.startDate <= start
  }

  /** A page that starts at or before a crowded millisecond ends in it or before it, and its cursor does
      not pass its start. */
  lemma CrowdHoldsCursor(rows: seq<Row>, q: Filters, limit: nat, cursor: Option<Cursor>, crowd: seq<Row>, start: int)
    requires limit >= 1 && UniqueIds(rows) && Inside(crowd, rows, q, start) && |crowd| > limit && Reaches(cursor, start)
    ensures var next := PageOf(rows, q, cursor, limit).next; next.Some? && Reaches(next, start)
  {
    var list := Matching(rows, q, cursor);
    MatchingIsOrderedSelection(rows, q, cursor);
    Crowded(crowd, list);
    var last := list[limit - 1];
    if last.startDate >= start + 1000 {
      forall row | row in crowd
        ensures row in list[..limit - 1]
      {
        var i :| 0 <= i < |list| && list[i] == row;
        assert i < limit - 1;
        assert list[..limit - 1][i] == row;
      }
      Crowded(crowd, list[..limit - 1]);
    }
  }

  /** If one millisecond holds more listed events than fit on a page, strictly inside it, then following
      cursors never gets past it. */
  lemma {:induction false} CrowdedMillisecondNeverEnds(
    tables: seq<seq<Row>>, rows: seq<Row>, q: Filters, limit: nat, cursor: Option<Cursor>, pages: seq<seq<Row>>,
    crowd: seq<Row>, start: int)
    requires limit >= 1 && UniqueIds(rows) && Unchanged(tables, rows)
    requires Inside(crowd, rows, q, start) && |crowd| > limit && Reaches(cursor, start)
    ensures !Walk(tables, q, limit, cursor, pages)
    decreases |pages|
  {
    if Walk(tables, q, limit, cursor, pages) {
      CrowdHoldsCursor(rows, q, limit, cursor, crowd, start);
      WalkRest(tables, rows, q, limit, cursor, pages);
      CrowdedMillisecondNeverEnds(tables[1..], rows, q, limit, PageOf(rows, q, cursor, limit).next, pages[1..], crowd,
        start);
    }
  }

  /** Two events one microsecond into a millisecond, pages of one: the client is sent to the first event
      again and again. */
  lemma MicrosecondsCanLoop(tables: seq<seq<Row>>, pages: seq<seq<Row>>)
    requires var rows := [Row(1, 1, true, Private, true, true, ""), Row(2, 1, true, Private, true, true, "")];
      Unchanged(tables, rows)
    ensures !Walk(tables, Filters(0, 10, false, ""), 1, None, pages)
  {
    var rows := [Row(1, 1, true, Private, true, true, ""), Row(2, 1, true, Private, true, true, "")];
    CrowdedMillisecondNeverEnds(tables, rows, Filters(0, 10, false, ""), 1, None, pages, rows, 0);
  }

  // ---------------------------------------------------------------- a table that changes between requests

  function Occurrences(pages: seq<seq<Row>>, row: Row): nat {
    if pages == [] then 0 else multiset(pages[0])[row] + Occurrences(pages[1..], row)
  }

  lemma {:induction false} OccursOnce(rows: seq<Row>, row: Row)
    requires Ascending(rows)
    ensures multiset(rows)[row] == if row in rows then 1 else 0
  {
    if rows != [] {
      assert rows == [rows[0]] + rows[1..];
      OccursOnce(rows[1..], row);
    }
  }

  lemma PageSplits(rows: seq<Row>, q: Filters, cursor: Option<Cursor>, limit: nat, row: Row)
    requires limit >= 1 && UniqueIds(rows)
    ensures var page := PageOf(rows, q, cursor, limit);
      && multiset(page.events)[row] == (if row in page.events then 1 else 0)
      && (row in page.events ==> AfterCursor(row, cursor))
      && (page.next.None? ==> (row in page.events <==> row in rows && Listed(row, q) && AfterCursor(row, cursor)))
      && (page.next.Some? && page.events != [] && WholeMillisecond(page.events[|page.events| - 1]) ==>
          (row in page.events <==>
            row in rows && Listed(row, q) && AfterCursor(row, cursor) && !AfterCursor(row, page.next)))
  {
    var matching, page := Matching(rows, q, cursor), PageOf(rows, q, cursor, limit);
    MatchingIsOrderedSelection(rows, q, cursor);
    OccursOnce(page.events, row);
    assert row in page.events ==> row in matching;
    if page.next.Some? && row in matching {
      var i :| 0 <= i < |matching| && matching[i] == row;
      assert row in page.events <==> i < limit by {
        if i < limit {
          assert page.events[i] == row;
        }
      }
      assert page.events[|page.events| - 1] == matching[limit - 1];
    }
  }

  lemma {:induction false} OnceFromHere(
    tables: seq<seq<Row>>, q: Filters, limit: nat, cursor: Option<Cursor>, pages: seq<seq<Row>>, row: Row)
    requires limit >= 1 && Walk(tables, q, limit, cursor, pages) && BoundariesWhole(pages)
    requires forall i :: 0 <= i < |tables| ==> UniqueIds(tables[i])
    ensures !AfterCursor(row, cursor) ==> Occurrences(pages, row) == 0
    ensures Listed(row, q) && AfterCursor(row, cursor) && (forall i :: 0 <= i < |tables| ==> row in tables[i]) ==>
      Occurrences(pages, row) == 1
    decreases |pages|
  {
    var page := PageOf(tables[0], q, cursor, limit);
    PageSplits(tables[0], q, cursor, limit, row);
    if page.next.None? {
      assert Occurrences(pages[1..], row) == 0;
    } else {
      var rest := pages[1..];
      BoundariesShift(pages);
      assert forall i :: 0 < i < |tables| ==> tables[i] == tables[1..][i - 1];
      if AfterCursor(row, page.next) {
        NextIsLater(tables[0], q, cursor, limit, row);
      }
      OnceFromHere(tables[1..], q, limit, page.next, rest, row);
    }
  }

  lemma NextIsLater(rows: seq<Row>, q: Filters, cursor: Option<Cursor>, limit: nat, row: Row)
    requires limit >= 1 && UniqueIds(rows)
    requires var page := PageOf(rows, q, cursor, limit);
      page.next.Some? && page.events != [] && WholeMillisecond(page.events[|page.events| - 1])
        && AfterCursor(row, page.next)
    ensures AfterCursor(row, cursor)
  {
    var page := PageOf(rows, q, cursor, limit);
    PageSplits(rows, q, cursor, limit, page.events[|page.events| - 1]);
  }

  /** Each request after which another follows ends on a row with a whole millisecond. It depends only on
      the tables met. */
  ghost predicate RequestsWhole(tables: seq<seq<Row>>, q: Filters, limit: nat, cursor: Option<Cursor>)
    requires limit >= 1
    decreases |tables|
  {
    tables != [] ==>
      var list := Matching(tables[0], q, cursor);
      |list| > limit ==>
        WholeMillisecond(list[limit - 1]) && RequestsWhole(tables[1..], q, limit, Some(CursorOf(list[limit - 1])))
  }

  lemma {:induction false} BoundariesFromRequests(
    tables: seq<seq<Row>>, q: Filters, limit: nat, cursor: Option<Cursor>, pages: seq<seq<Row>>)
    requires limit >= 1 && Walk(tables, q, limit, cursor, pages)
    ensures BoundariesWhole(pages) <==> RequestsWhole(tables, q, limit, cursor)
    decreases |pages|
  {
    var page := PageOf(tables[0], q, cursor, limit);
    if page.next.Some? {
      BoundariesFromRequests(tables[1..], q, limit, page.next, pages[1..]);
      BoundariesShift(pages);
    }
  }

  ghost predicate Stable(tables: seq<seq<Row>>, q: Filters, row: Row) {
    Listed(row, q) && forall i :: 0 <= i < |tables| ==> row in tables[i]
  }

  ghost predicate AllUnique(tables: seq<seq<Row>>) {
    forall i :: 0 <= i < |tables| ==> UniqueIds(tables[i])
  }

  /** Events may come, go and move between requests: one that is listed at every request is returned exactly once. */
  lemma StableEventsAppearOnce(tables: seq<seq<Row>>, q: Filters, limit: nat, pages: seq<seq<Row>>, row: Row)
    requires limit >= 1 && AllUnique(tables) && Walk(tables, q, limit, None, pages)
    requires RequestsWhole(tables, q, limit, None) && Stable(tables, q, row)
    ensures Occurrences(pages, row) == 1
  {
    BoundariesFromRequests(tables, q, limit, None, pages);
    OnceFromHere(tables, q, limit, None, pages, row);
  }

  /** A row that is not on a page is still after its cursor. */
  lemma NotYetPassed(rows: seq<Row>, q: Filters, limit: nat, cursor: Option<Cursor>, row: Row)
    requires limit >= 1 && UniqueIds(rows) && row in rows && Listed(row, q) && AfterCursor(row, cursor)
    requires var page := PageOf(rows, q, cursor, limit);
      row !in page.events || (page.next.Some? && row == page.events[|page.events| - 1] && !WholeMillisecond(row))
    ensures var page := PageOf(rows, q, cursor, limit); page.next.Some? && AfterCursor(row, page.next)
  {
    var list, page := Matching(rows, q, cursor), PageOf(rows, q, cursor, limit);
    MatchingIsOrderedSelection(rows, q, cursor);
    if row !in page.events {
      assert |list| > limit && list == page.events + list[limit..];
      var j :| 0 <= j < |list| - limit && list[limit..][j] == row;
      assert Before(list[limit - 1], list[limit + j]);
    }
  }

  /** Whatever the dates: a walk that ends has returned every event that was listed at every request. */
  lemma {:induction false} StableEventsAreNeverLost(
    tables: seq<seq<Row>>, q: Filters, limit: nat, cursor: Option<Cursor>, pages: seq<seq<Row>>, row: Row)
    requires limit >= 1 && AllUnique(tables) && Walk(tables, q, limit, cursor, pages)
    requires Stable(tables, q, row) && AfterCursor(row, cursor)
    ensures Occurrences(pages, row) >= 1
    decreases |pages|
  {
    var page := PageOf(tables[0], q, cursor, limit);
    if row !in page.events {
      NotYetPassed(tables[0], q, limit, cursor, row);
      assert forall i :: 0 < i < |tables| ==> tables[i] == tables[1..][i - 1];
      StableEventsAreNeverLost(tables[1..], q, limit, page.next, pages[1..], row);
    }
  }

  /** The rows that end a page are there at every request. */
  ghost predicate PageEndsStable(
    tables: seq<seq<Row>>, all: seq<seq<Row>>, q: Filters, limit: nat, cursor: Option<Cursor>)
    requires limit >= 1
    decreases |tables|
  {
    tables != [] ==>
      var list := Matching(tables[0], q, cursor);
      |list| > limit ==>
        Stable(all, q, list[limit - 1]) && PageEndsStable(tables[1..], all, q, limit, Some(CursorOf(list[limit - 1])))
  }

  lemma {:induction false} SomeEventRepeats(
    tables: seq<seq<Row>>, all: seq<seq<Row>>, q: Filters, limit: nat, cursor: Option<Cursor>, pages: seq<seq<Row>>)
    returns (row: Row)
    requires limit >= 1 && AllUnique(tables) && Walk(tables, q, limit, cursor, pages)
    requires forall i :: 0 <= i < |tables| ==> tables[i] in all
    requires !RequestsWhole(tables, q, limit, cursor) && PageEndsStable(tables, all, q, limit, cursor)
    ensures Stable(all, q, row) && Occurrences(pages, row) >= 2
    decreases |pages|
  {
    var list, page := Matching(tables[0], q, cursor), PageOf(tables[0], q, cursor, limit);
    MatchingIsOrderedSelection(tables[0], q, cursor);
    var rest, last := tables[1..], list[limit - 1];
    assert forall i :: 0 < i < |tables| ==> tables[i] == rest[i - 1];
    if WholeMillisecond(last) {
      row := SomeEventRepeats(rest, all, q, limit, page.next, pages[1..]);
    } else {
      row := last;
      assert row in list && page.events[limit - 1] == row;
      NotYetPassed(tables[0], q, limit, cursor, row);
      assert Stable(rest, q, row);
      StableEventsAreNeverLost(rest, q, limit, page.next, pages[1..], row);
    }
  }

  /** If the rows that end pages are themselves there throughout, then every event listed at every request
      is returned exactly once if and only if each of those rows has a whole millisecond. */
  lemma OnceExactly(tables: seq<seq<Row>>, q: Filters, limit: nat, pages: seq<seq<Row>>)
    requires limit >= 1 && AllUnique(tables) && Walk(tables, q, limit, None, pages)
      && PageEndsStable(tables, tables, q, limit, None)
    ensures (forall row :: Stable(tables, q, row) ==> Occurrences(pages, row) == 1)
      <==> RequestsWhole(tables, q, limit, None)
  {
    if RequestsWhole(tables, q, limit, None) {
      forall row | Stable(tables, q, row)
        ensures Occurrences(pages, row) == 1
      {
        StableEventsAppearOnce(tables, q, limit, pages, row);
      }
    } else {
      var row := SomeEventRepeats(tables, tables, q, limit, None, pages);
    }
  }
}
