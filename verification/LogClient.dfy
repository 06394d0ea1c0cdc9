/** A client that follows `next_cursor` to the end, page after page as the reader returns them. */
module LogClient {
  import opened Prelude
  import opened Journal
  import opened LogReader
  import opened LogWalk
  import opened LogClock

  /** A next cursor prepares the same scan as the query it continues. */
  lemma NextPrepares(lib: Library, query: LogQuery, entries: seq<Entry>)
    requires DistinctCursors(entries) && 1 <= query.limit && Prepare(lib, query, entries).Ok?
    ensures var s := Prepare(lib, query, entries).value;
            var next := NextCursor(ScannedPage(s, entries, query.cursor));
            && s.order == query.order && s.limit == query.limit && s.RowsCarryCursors()
            && (next.Some? ==>
                  && Prepare(lib, query.(cursor := next), entries) == Result.Ok(s)
                  && RestStart(s.order, entries, query.cursor) < RestStart(s.order, entries, next))
  {
    hide IndexOf, ScannedPage, View, ScanStart, RestStart, DistinctCursors;
    var s := Prepare(lib, query, entries).value;
    var next := NextCursor(ScannedPage(s, entries, query.cursor));
    if next.Some? {
      var q := NextCursorAdvances(s, entries, query.cursor);
      ContinuesBehind(s.order, entries, q);
      assert query.(cursor := next).(cursor := None) == query.(cursor := None);
    }
  }

  /** In time order the client's next step is the walk's. */
  lemma ClientStep(s: Scan, entries: seq<Entry>, cursor: Option<string>)
    requires Ordered(entries) && DistinctCursors(entries) && 1 <= s.limit && s.RowsCarryCursors()
    ensures var next := NextCursor(ScannedPage(s, entries, cursor));
            var rest := if next.Some? then Cursors(s, entries, next) else [];
            && Cursors(s, entries, cursor) == [cursor] + rest
            && WalkScanned(s, entries, [cursor] + rest)
               == ScannedPage(s, entries, cursor).totalScanned + WalkScanned(s, entries, rest)
            && WalkScanned(s, entries, []) == 0
  {
    hide Pending, Scanned, Collected, Next, Ordered;
    ScannedPageIsPage(s, entries, cursor);
    PageHandsOutNext(s, entries, cursor);
    PageStep(s, entries, cursor);
    var next := Next(s, entries, cursor);
    var rest := if next.Some? then Cursors(s, entries, next) else [];
    assert ([cursor] + rest)[1..] == rest;
  }

  /** Whatever the order of time, the client ends, fails only if its first read does, and receives the
      rows of the scanned pages; in time order these are the pages of the walk. */
  method ReadPages(lib: Library, query: LogQuery, store: Store)
    returns (r: Result<seq<JournalLogEntry>, LogError>, pages: nat, scanned: nat)
    requires store.Valid() && 1 <= query.limit
    ensures match Prepare(lib, query, store.entries)
            case Err(error) => r == Err(error)
            case Ok(s) =>
              && s.RowsCarryCursors() && s.limit == query.limit
              && r == Result.Ok(ScannedRows(s, store.entries, query.cursor))
              && (Ordered(store.entries) ==>
                    var cs := Cursors(s, store.entries, query.cursor);
                    pages == |cs| && scanned == WalkScanned(s, store.entries, cs))
    decreases |store.entries| - RestStart(query.order, store.entries, query.cursor)
  {
    hide Prepare, ScannedPage, NextCursor, Cursors, WalkScanned, RestStart, DistinctCursors, Ordered, Page;
    ghost var entries := store.entries;
    var page := ReadJournalLogs(lib, query, store);
    if page.Err? {
      return Err(page.error), 0, 0;
    }
    ghost var s := Prepare(lib, query, entries).value;
    NextPrepares(lib, query, entries);
    if Ordered(entries) {
      ClientStep(s, entries, query.cursor);
    }
    r, pages, scanned := Ok(page.value.entries), 1, page.value.totalScanned;
    var next := NextCursor(page.value);
    if next.Some? {
      var rest, restPages, restScanned := ReadPages(lib, query.(cursor := next), store);
      r := Ok(page.value.entries + rest.value);
      pages, scanned := 1 + restPages, scanned + restScanned;
    }
  }

  /** In a journal in time order, the client receives in max(1, ceil(n / limit)) pages all n rows of
      the plain filter, by the window as stated when its start is exact, and makes the server scan no
      more than twice the journal. */
  method FollowCursors(lib: Library, query: LogQuery, store: Store)
    returns (r: Result<seq<JournalLogEntry>, LogError>, pages: nat, scanned: nat)
    requires store.Valid() && 1 <= query.limit
    ensures r.Ok? <==> Prepare(lib, query, store.entries).Ok?
    ensures r.Err? ==> r.error == Prepare(lib, query, store.entries).error
    ensures r.Ok? && Ordered(store.entries) ==>
              var s := Prepare(lib, query, store.entries).value;
              var pending := Pending(s, store.entries, query.cursor);
              && r.value == Map(s.row, pending)
              && IsPageCount(pages, |pending|, query.limit)
              && scanned <= 2 * |store.entries|
              && (ExactStart(query.startUtc.value) ==>
                    r.value == Map(s.row, RequestedPending(s, query, store.entries, query.cursor)))
  {
    hide Pending, RequestedPending, Cursors, IsWalk, ScannedRows, DistinctCursors, Ordered, WalkScanned, IsPageCount;
    r, pages, scanned := ReadPages(lib, query, store);
    if Ordered(store.entries) && r.Ok? {
      ClientReadsAll(lib, query, store.entries);
    }
  }

  lemma ClientReadsAll(lib: Library, query: LogQuery, entries: seq<Entry>)
    requires Ordered(entries) && DistinctCursors(entries) && 1 <= query.limit && Prepare(lib, query, entries).Ok?
    ensures var s := Prepare(lib, query, entries).value;
            var pending := Pending(s, entries, query.cursor);
            var cs := Cursors(s, entries, query.cursor);
            && s.RowsCarryCursors() && ScannedRows(s, entries, query.cursor) == Map(s.row, pending)
            && IsPageCount(|cs|, |pending|, query.limit)
            && WalkScanned(s, entries, cs) <= 2 * |entries|
            && (ExactStart(query.startUtc.value) ==> pending == RequestedPending(s, query, entries, query.cursor))
  {
    hide Pending, RequestedPending, Cursors, IsWalk, ScannedRows, DistinctCursors, Ordered, WalkScanned, StopsAreFinal;
    hide ScanStart, WalkRows, IsPageCount;
    var s := Prepare(lib, query, entries).value;
    var cs := Cursors(s, entries, query.cursor);
    CursorsAreWalk(s, entries, query.cursor);
    WalkIsPlainFilter(s, entries, cs);
    WalkScansAtMostTwice(s, entries, cs, 0);
    OrderedStopsAreFinal(s, entries, ScanStart(s, entries, query.cursor));
    FinalStopsReadAll(s, entries, query.cursor);
    if ExactStart(query.startUtc.value) {
      ExactStartReadsStatedWindow(s, query, entries, query.cursor);
    }
  }
}
