/** What the order of time is needed for: walks over a journal whose clock may have stepped back. */
module LogClock {
  import opened Prelude
  import opened Journal
  import opened LogReader
  import opened LogWalk

  /** The row at position `q` of the view is the last one a page hands out a cursor for. */
  ghost predicate LastReturned(s: Scan, entries: seq<Entry>, cursor: Option<string>, q: nat) {
    var v := View(s.order, entries);
    && ScanStart(s, entries, cursor) <= q < |v| && s.Matches(v[q])
    && NextCursor(ScannedPage(s, entries, cursor)) == Some(v[q].cursor)
    && RestStart(s.order, entries, Some(v[q].cursor)) == ScanStart(s, entries, Some(v[q].cursor)) == q + 1
  }

  /** Whatever the journal, a next cursor lies behind everything the page's own cursor left behind. */
  lemma NextCursorAdvances(s: Scan, entries: seq<Entry>, cursor: Option<string>) returns (q: nat)
    requires DistinctCursors(entries) && 1 <= s.limit && s.RowsCarryCursors()
    requires NextCursor(ScannedPage(s, entries, cursor)).Some?
    ensures LastReturned(s, entries, cursor, q)
    ensures RestStart(s.order, entries, cursor) <= q
  {
    hide View, Filter, NthIndex, IndexOf, FirstAtOrAfter, LastAtOrBefore, ScanStop;
    var v, p := View(s.order, entries), ScanStart(s, entries, cursor);
    var seen := Ahead(s, entries, cursor)[..Scanned(s, entries, cursor)];
    var k := s.limit - 1;
    FilterSplits(s.Matching(), seen, k);
    q := p + NthIndex(s.Matching(), seen, k);
    assert v[q] == Collected(s, entries, cursor)[k];
    ContinuesBehind(s.order, entries, q);
  }

  lemma NextCursorIsLater(s: Scan, entries: seq<Entry>, cursor: Option<string>)
    requires DistinctCursors(entries) && 1 <= s.limit && s.RowsCarryCursors()
    ensures var next := NextCursor(ScannedPage(s, entries, cursor));
            next.Some? ==> RestStart(s.order, entries, cursor) < RestStart(s.order, entries, next)
  {
    hide RestStart, ScannedPage;
    if NextCursor(ScannedPage(s, entries, cursor)).Some? {
      var q := NextCursorAdvances(s, entries, cursor);
    }
  }

  /** The rows a client collects that follows the cursors the scanned pages hand out. */
  function ScannedRows(s: Scan, entries: seq<Entry>, cursor: Option<string>): seq<JournalLogEntry>
    requires DistinctCursors(entries) && 1 <= s.limit && s.RowsCarryCursors()
    decreases |entries| - RestStart(s.order, entries, cursor)
  {
    NextCursorIsLater(s, entries, cursor);
    var page := ScannedPage(s, entries, cursor);
    match NextCursor(page)
    case None => page.entries
    case Some(c) =>
      page.entries + ScannedRows(s, entries, Some(c))
  }

  /** Where no match lies behind a stop, that is every matching row. */
  lemma {:induction false} FinalStopsReadAll(s: Scan, entries: seq<Entry>, cursor: Option<string>)
    requires DistinctCursors(entries) && 1 <= s.limit && s.RowsCarryCursors()
    requires StopsAreFinal(s, entries, ScanStart(s, entries, cursor))
    ensures ScannedRows(s, entries, cursor) == Map(s.row, Pending(s, entries, cursor))
    decreases |Pending(s, entries, cursor)|
  {
    hide Pending, ScannedPage, NextCursor, Scanned, StopsAreFinal, ScanStart;
    ScannedPageIsPage(s, entries, cursor);
    PageHandsOutNext(s, entries, cursor);
    PageStep(s, entries, cursor);
    var next := Next(s, entries, cursor);
    if next.Some? {
      var q := NextCursorAdvances(s, entries, cursor);
      FinalFromLater(s, entries, ScanStart(s, entries, cursor), q + 1);
      FinalStopsReadAll(s, entries, next);
      MapSplit(s.row, Pending(s, entries, cursor), s.limit);
    }
  }

  lemma {:induction false} StopsAtBreak(s: Scan, v: seq<Entry>, p: nat, q: nat, need: nat)
    requires p <= q < |v| && s.Breaks(v[q])
    ensures ScanStop(s, v, p, need) <= q + 1
    decreases q - p
  {
    if need != 0 && p < q && !s.Breaks(v[p]) {
      StopsAtBreak(s, v, p + 1, q, if s.Matches(v[p]) then need - 1 else need);
    }
  }

  lemma NothingInFront(s: Scan, entries: seq<Entry>, k: nat)
    requires Ordered(entries) && ScanStart(s, entries, None) <= k < |entries|
    requires s.order.Desc? ==> 0 <= s.end
    ensures var e := View(s.order, entries)[k];
            if s.order.Asc? then s.start <= e.realtime else e.realtime <= s.end
  {
    hide View, Ordered;
    var n, p := |entries|, ScanStart(s, entries, None);
    ViewAt(s.order, entries, k);
    if s.order.Asc? {
      OlderFirst(entries, p, k);
    } else {
      OlderFirst(entries, n - 1 - k, n - 1 - p);
    }
  }

  lemma NothingBehindBreak(s: Scan, entries: seq<Entry>, i: nat)
    requires i + 1 < Scanned(s, entries, None)
    ensures i < |Ahead(s, entries, None)| && !s.Breaks(Ahead(s, entries, None)[i])
  {
    hide ScanStop, View, ScanStart;
    var v, p := View(s.order, entries), ScanStart(s, entries, None);
    assert Ahead(s, entries, None)[i] == v[p + i];
    if s.Breaks(v[p + i]) {
      StopsAtBreak(s, v, p, p + i, s.limit + 1);
    }
  }

  lemma ScannedIsAhead(s: Scan, entries: seq<Entry>)
    ensures Scanned(s, entries, None) <= |Ahead(s, entries, None)|
  {
    hide View, ScanStart, ScanStop;
  }

  /** Seeking and stopping early save work: in time order, the first page of a walk scans nothing in
      front of its window and at most one entry past it. (A descending read of a window before the
      epoch has nowhere to seek to and scans from the end of the journal.) */
  lemma FirstPageScansItsWindow(s: Scan, entries: seq<Entry>, i: nat)
    requires Ordered(entries) && forall e <- entries :: e.realtime <= I64_MAX
    requires i < Scanned(s, entries, None)
    requires s.order.Desc? ==> 0 <= s.end
    ensures Scanned(s, entries, None) <= |Ahead(s, entries, None)|
    ensures var e := Ahead(s, entries, None)[i];
            var more := i + 1 < Scanned(s, entries, None);
            if s.order.Asc? then s.start <= e.realtime && (more ==> e.realtime <= s.end)
            else e.realtime <= s.end && (more ==> s.start <= e.realtime)
  {
    hide View, ScanStart, Scanned, Ordered;
    ScannedIsAhead(s, entries);
    var k := ScanStart(s, entries, None) + i;
    assert Ahead(s, entries, None)[i] == View(s.order, entries)[k];
    NothingInFront(s, entries, k);
    ViewAt(s.order, entries, k);
    assert View(s.order, entries)[k] in entries;
    if i + 1 < Scanned(s, entries, None) {
      NothingBehindBreak(s, entries, i);
    }
  }

  /** The row stems from one of the first `q` entries of the view. */
  ghost predicate FromBefore(s: Scan, entries: seq<Entry>, q: nat, row: JournalLogEntry) {
    exists e :: e in View(s.order, entries)[..Min(q, |entries|)] && row.cursor == Some(e.cursor)
  }

  lemma PageStopsAtBreak(s: Scan, entries: seq<Entry>, cursor: Option<string>, q: nat)
    requires s.RowsCarryCursors()
    requires q < |entries| && s.Breaks(View(s.order, entries)[q]) && ScanStart(s, entries, cursor) <= q
    ensures forall row <- ScannedPage(s, entries, cursor).entries :: FromBefore(s, entries, q, row)
  {
    hide View, Filter, ScanStart, ScanStop;
    var v, p := View(s.order, entries), ScanStart(s, entries, cursor);
    StopsAtBreak(s, v, p, q, s.limit + 1);
    var seen := Ahead(s, entries, cursor)[..Scanned(s, entries, cursor)];
    FilterMembers(s.Matching(), seen);
    forall e | e in Collected(s, entries, cursor) ensures e in v[..q] {
      var k :| 0 <= k < |seen| && seen[k] == e;
      assert e == v[p + k] && p + k != q;
      assert e == v[..q][p + k];
    }
    var kept := Take(Collected(s, entries, cursor), s.limit);
    forall row | row in Map(s.row, kept) ensures FromBefore(s, entries, q, row) {
      var k :| 0 <= k < |kept| && Map(s.row, kept)[k] == row;
      assert kept[k] in Collected(s, entries, cursor);
    }
  }

  /** A walk never gets past an entry at which the scan stops. */
  lemma {:induction false} WalkStopsAtBreak(s: Scan, entries: seq<Entry>, cursor: Option<string>, q: nat)
    requires DistinctCursors(entries) && 1 <= s.limit && s.RowsCarryCursors()
    requires q < |entries| && s.Breaks(View(s.order, entries)[q]) && ScanStart(s, entries, cursor) <= q
    ensures forall row <- ScannedRows(s, entries, cursor) :: FromBefore(s, entries, q, row)
    decreases |entries| - RestStart(s.order, entries, cursor)
  {
    hide View, ScannedPage, ScanStart, FromBefore;
    PageStopsAtBreak(s, entries, cursor, q);
    var next := NextCursor(ScannedPage(s, entries, cursor));
    if next.Some? {
      var k := NextCursorAdvances(s, entries, cursor);
      ReturnedBeforeBreak(s, entries, cursor, q, k);
      WalkStopsAtBreak(s, entries, next, q);
    }
  }

  lemma ReturnedBeforeBreak(s: Scan, entries: seq<Entry>, cursor: Option<string>, q: nat, k: nat)
    requires DistinctCursors(entries) && 1 <= s.limit && s.RowsCarryCursors()
    requires q < |entries| && s.Breaks(View(s.order, entries)[q]) && ScanStart(s, entries, cursor) <= q
    requires LastReturned(s, entries, cursor, k)
    ensures k < q
  {
    hide View, ScanStart, RestStart, IndexOf, Filter, Scanned, Collected, DistinctCursors;
    PageStopsAtBreak(s, entries, cursor, q);
    var v, page := View(s.order, entries), ScannedPage(s, entries, cursor);
    var row := page.entries[|page.entries| - 1];
    assert row in page.entries;
    var e :| e in v[..q] && row.cursor == Some(e.cursor);
    var i :| 0 <= i < q && v[..q][i] == e;
    SamePlace(s.order, entries, i, k);
  }

  lemma SamePlace(order: LogOrder, entries: seq<Entry>, i: nat, k: nat)
    requires DistinctCursors(entries) && i < |entries| && k < |entries|
    requires View(order, entries)[i].cursor == View(order, entries)[k].cursor
    ensures i == k
  {
    ContinuesBehind(order, entries, i);
    ContinuesBehind(order, entries, k);
  }

  lemma RowNotReached(s: Scan, entries: seq<Entry>, cursor: Option<string>, stop: nat, lost: nat)
    requires DistinctCursors(entries) && 1 <= s.limit && s.RowsCarryCursors()
    requires stop < lost < |entries| && View(s.order, entries)[lost] in Pending(s, entries, cursor)
    requires forall row <- ScannedRows(s, entries, cursor) :: FromBefore(s, entries, stop, row)
    ensures ScannedRows(s, entries, cursor) != Map(s.row, Pending(s, entries, cursor))
  {
    hide View, Pending, ScannedRows;
    var v, pending := View(s.order, entries), Pending(s, entries, cursor);
    var k :| 0 <= k < |pending| && pending[k] == v[lost];
    var row := Map(s.row, pending)[k];
    if row in ScannedRows(s, entries, cursor) {
      var e :| e in v[..stop] && row.cursor == Some(e.cursor);
      var i :| 0 <= i < stop && v[..stop][i] == e;
      SamePlace(s.order, entries, i, lost);
    }
  }

  // ----- Exactly when walks are complete -----

  lemma MatchIsPending(s: Scan, entries: seq<Entry>, cursor: Option<string>, k: nat)
    requires ScanStart(s, entries, cursor) <= k < |entries| && s.Matches(View(s.order, entries)[k])
    ensures View(s.order, entries)[k] in Pending(s, entries, cursor)
  {
    hide View, ScanStart, Filter, Pending;
    var ahead := Ahead(s, entries, cursor);
    SeekSkipsNoMatch(s, entries, cursor);
    FilterMembers(s.Matching(), ahead);
    assert ahead[k - ScanStart(s, entries, cursor)] in ahead;
  }

  /** For every query, filter, journal and first cursor: the walk returns every matching row exactly
      when no matching entry lies behind an entry at which the scan stops. */
  lemma WalkCompleteIff(s: Scan, entries: seq<Entry>, cursor: Option<string>)
    requires DistinctCursors(entries) && 1 <= s.limit && s.RowsCarryCursors()
    ensures ScannedRows(s, entries, cursor) == Map(s.row, Pending(s, entries, cursor))
            <==> StopsAreFinal(s, entries, ScanStart(s, entries, cursor))
  {
    hide View, ScanStart, ScannedRows, FromBefore, Pending, DistinctCursors;
    var p := ScanStart(s, entries, cursor);
    if StopsAreFinal(s, entries, p) {
      FinalStopsReadAll(s, entries, cursor);
    } else {
      var v := View(s.order, entries);
      var stop, lost :| p <= stop < lost < |v| && s.Breaks(v[stop]) && s.Matches(v[lost]);
      WalkStopsAtBreak(s, entries, cursor, stop);
      MatchIsPending(s, entries, cursor, lost);
      RowNotReached(s, entries, cursor, stop, lost);
    }
  }

  /** The scan for everything between two journal timestamps. */
  function WindowScan(order: LogOrder, limit: nat, start: nat, end: nat, row: Entry -> JournalLogEntry): Scan {
    Scan(order, limit, start, end, (e: Entry) => true, row)
  }

  /** Walks in this order return every row of every window. */
  ghost predicate ReadsEveryWindow(
    order: LogOrder, limit: nat, entries: seq<Entry>, row: Entry -> JournalLogEntry)
    requires DistinctCursors(entries) && 1 <= limit && forall e :: row(e).cursor == Some(e.cursor)
  {
    forall start: nat, end: nat | start <= end ::
      var s := WindowScan(order, limit, start, end, row);
      ScannedRows(s, entries, None) == Map(row, Pending(s, entries, None))
  }

  /** If an entry is older than one before it, the scan of the window of a single timestamp stops at
      one of the two with the other still ahead. */
  lemma ClockStepStopsEarly(
    order: LogOrder, limit: nat, entries: seq<Entry>, row: Entry -> JournalLogEntry, i: nat, j: nat)
    requires forall e <- entries :: e.realtime <= I64_MAX
    requires i < j < |entries| && entries[j].realtime < entries[i].realtime
    ensures var t := if order.Asc? then entries[j].realtime else entries[i].realtime;
            var s := WindowScan(order, limit, t, t, row);
            !StopsAreFinal(s, entries, ScanStart(s, entries, None))
  {
    var n, v := |entries|, View(order, entries);
    var t := if order.Asc? then entries[j].realtime else entries[i].realtime;
    var stop, lost := if order.Asc? then i else n - 1 - j, if order.Asc? then j else n - 1 - i;
    var s := WindowScan(order, limit, t, t, row);
    assert entries[i] in entries && entries[j] in entries;
    assert s.Breaks(v[stop]) && s.Matches(v[lost]) && ScanStart(s, entries, None) <= stop < lost;
  }

  /** In either order and for every page size, walks read every window completely exactly when the
      journal is in time order. */
  lemma WalksCompleteIffOrdered(
    order: LogOrder, limit: nat, entries: seq<Entry>, row: Entry -> JournalLogEntry)
    requires DistinctCursors(entries) && 1 <= limit && forall e :: row(e).cursor == Some(e.cursor)
    requires forall e <- entries :: e.realtime <= I64_MAX
    ensures ReadsEveryWindow(order, limit, entries, row) <==> Ordered(entries)
  {
    hide ScannedRows, Pending, StopsAreFinal, ScanStart;
    if Ordered(entries) {
      forall start: nat, end: nat | start <= end
        ensures var s := WindowScan(order, limit, start, end, row);
                ScannedRows(s, entries, None) == Map(row, Pending(s, entries, None))
      {
        var s := WindowScan(order, limit, start, end, row);
        OrderedStopsAreFinal(s, entries, ScanStart(s, entries, None));
        WalkCompleteIff(s, entries, None);
      }
    } else {
      var i, j :| 0 <= i < j < |entries| && entries[j].realtime < entries[i].realtime;
      var t := if order.Asc? then entries[j].realtime else entries[i].realtime;
      ClockStepStopsEarly(order, limit, entries, row, i, j);
      WalkCompleteIff(WindowScan(order, limit, t, t, row), entries, None);
    }
  }
}
