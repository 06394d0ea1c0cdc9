/** Following `next_cursor`: theorems about whole walks over the pages of the plain filter. In a
    journal in time order these are the pages the reader returns (`LogReader.ScannedPageIsPage`). */
module LogWalk {
  import opened Prelude
  import opened Journal
  import opened LogReader

  /** The cursor a page hands out (src/domain/tools/logs.rs): only when more rows exist. */
  function NextCursor(page: LogQueryResult): Option<string> {
    if page.hasMore && page.entries != [] then page.entries[|page.entries| - 1].cursor else None
  }

  // ----- One continuation -----

  /** Continuing from the entry at position `p` of the view starts right behind it. */
  lemma ContinuesBehind(order: LogOrder, entries: seq<Entry>, p: nat)
    requires DistinctCursors(entries) && p < |entries|
    ensures var c := View(order, entries)[p].cursor;
            IndexOf(entries, c).Some? && RestStart(order, entries, Some(c)) == p + 1
  {
    IndexIsUnique(entries, if order.Asc? then p else |entries| - 1 - p);
  }

  /** How far ahead of the scan start the row `k` of the rest of the journal lies. */
  function RowOffset(s: Scan, entries: seq<Entry>, cursor: Option<string>, k: nat): (i: nat)
    requires k < |Pending(s, entries, cursor)|
    ensures i < |Ahead(s, entries, cursor)|
  {
    SeekSkipsNoMatch(s, entries, cursor);
    NthIndex(s.Matching(), Ahead(s, entries, cursor), k)
  }

  /** Where that row lies in the view. */
  function RowPosition(s: Scan, entries: seq<Entry>, cursor: Option<string>, k: nat): (p: nat)
    requires k < |Pending(s, entries, cursor)|
    ensures ScanStart(s, entries, cursor) <= p < |entries|
  {
    ScanStart(s, entries, cursor) + RowOffset(s, entries, cursor, k)
  }

  /** Continuing from any returned row leaves exactly the rows that follow it. */
  lemma ContinuationIsExclusive(s: Scan, entries: seq<Entry>, cursor: Option<string>, k: nat)
    requires DistinctCursors(entries) && k < |Pending(s, entries, cursor)|
    ensures var next := Some(Pending(s, entries, cursor)[k].cursor);
            && IndexOf(entries, next.value).Some?
            && Pending(s, entries, next) == Pending(s, entries, cursor)[k + 1..]
            && ScanStart(s, entries, next) == RowPosition(s, entries, cursor, k) + 1
            && Ahead(s, entries, next) == Ahead(s, entries, cursor)[RowOffset(s, entries, cursor, k) + 1..]
  {
    hide View, RestStart, Filter, NthIndex, IndexOf, FirstAtOrAfter, LastAtOrBefore;
    SeekSkipsNoMatch(s, entries, cursor);
    var view, ahead := View(s.order, entries), Ahead(s, entries, cursor);
    FilterSplits(s.Matching(), ahead, k);
    var p := RowPosition(s, entries, cursor, k);
    ContinuesBehind(s.order, entries, p);
    assert view[p + 1..] == ahead[RowOffset(s, entries, cursor, k) + 1..];
  }

  /** The cursor of the last row of a page behind which rows remain. */
  function Next(s: Scan, entries: seq<Entry>, cursor: Option<string>): Option<string> {
    var pending := Pending(s, entries, cursor);
    if 1 <= s.limit < |pending| then Some(pending[s.limit - 1].cursor) else None
  }

  /** That is the `next_cursor` the page hands out. */
  lemma PageHandsOutNext(s: Scan, entries: seq<Entry>, cursor: Option<string>)
    requires s.RowsCarryCursors() && 1 <= s.limit
    ensures NextCursor(Page(s, entries, cursor)) == Next(s, entries, cursor)
  {
    hide Pending, Scanned;
    assert Page(s, entries, cursor).entries == Map(s.row, Take(Pending(s, entries, cursor), s.limit));
  }

  /** Continuing with the next cursor leaves exactly the rows not yet returned. */
  lemma PageStep(s: Scan, entries: seq<Entry>, cursor: Option<string>)
    requires DistinctCursors(entries) && 1 <= s.limit
    ensures var pending, next := Pending(s, entries, cursor), Next(s, entries, cursor);
            if s.limit < |pending| then
              && next.Some?
              && IndexOf(entries, next.value).Some?
              && Pending(s, entries, next) == pending[s.limit..]
            else next == None
  {
    hide Pending, Rest, ScanStart, RowPosition, Ahead, IndexOf;
    if s.limit < |Pending(s, entries, cursor)| {
      ContinuationIsExclusive(s, entries, cursor, s.limit - 1);
    }
  }

  // ----- The walk -----

  /** The cursors a client sends: its own first, then each `next_cursor` until there is none. */
  function Cursors(s: Scan, entries: seq<Entry>, cursor: Option<string>): (cs: seq<Option<string>>)
    requires DistinctCursors(entries) && 1 <= s.limit
    ensures cs != [] && cs[0] == cursor
    decreases |Pending(s, entries, cursor)|
  {
    PageStep(s, entries, cursor);
    match Next(s, entries, cursor)
    case None => [cursor]
    case Some(c) => [cursor] + Cursors(s, entries, Some(c))
  }

  /** Each cursor is the `next_cursor` of the page before it, and the last page hands out none. */
  ghost predicate IsWalk(s: Scan, entries: seq<Entry>, cs: seq<Option<string>>)
    decreases |cs|
  {
    cs != [] &&
    if |cs| == 1 then Next(s, entries, cs[0]) == None
    else cs[1].Some? && cs[1] == Next(s, entries, cs[0]) && IsWalk(s, entries, cs[1..])
  }

  /** Every query has a walk, and it ends. */
  lemma {:induction false} CursorsAreWalk(s: Scan, entries: seq<Entry>, cursor: Option<string>)
    requires DistinctCursors(entries) && 1 <= s.limit
    ensures IsWalk(s, entries, Cursors(s, entries, cursor))
    decreases |Pending(s, entries, cursor)|
  {
    hide Page, Pending, Next;
    PageStep(s, entries, cursor);
    var next := Next(s, entries, cursor);
    if next.Some? {
      CursorsAreWalk(s, entries, next);
      assert Cursors(s, entries, cursor) == [cursor] + Cursors(s, entries, next);
    }
  }

  lemma {:induction false} WalkLink(s: Scan, entries: seq<Entry>, cs: seq<Option<string>>, k: nat)
    requires IsWalk(s, entries, cs) && k < |cs|
    ensures if k + 1 < |cs| then cs[k + 1].Some? && cs[k + 1] == Next(s, entries, cs[k])
            else Next(s, entries, cs[k]) == None
    decreases k
  {
    hide Next;
    if k != 0 {
      WalkLink(s, entries, cs[1..], k - 1);
    }
  }

  /** All rows of a walk, page after page. */
  function WalkRows(s: Scan, entries: seq<Entry>, cs: seq<Option<string>>): seq<JournalLogEntry> {
    if cs == [] then [] else PageRows(s, entries, cs[0]) + WalkRows(s, entries, cs[1..])
  }

  /** In time order the reader accepts every cursor of a walk and returns that page of it. */
  lemma WalkReadsSucceed(lib: Library, query: LogQuery, entries: seq<Entry>, k: nat)
    requires Ordered(entries) && DistinctCursors(entries)
    requires 1 <= query.limit && Prepare(lib, query, entries).Ok?
    requires k < |Cursors(Prepare(lib, query, entries).value, entries, query.cursor)|
    ensures var s := Prepare(lib, query, entries).value;
            var c := Cursors(s, entries, query.cursor)[k];
            && ScanResult(lib, query.(cursor := c), entries) == Result.Ok(Page(s, entries, c))
            && NextCursor(Page(s, entries, c)) == Next(s, entries, c)
  {
    hide Pending, Next, IndexOf, Cursors, IsWalk, Page, ScannedPage, Ordered;
    var s := Prepare(lib, query, entries).value;
    var cs := Cursors(s, entries, query.cursor);
    CursorsAreWalk(s, entries, query.cursor);
    PageHandsOutNext(s, entries, cs[k]);
    ScannedPageIsPage(s, entries, cs[k]);
    if k == 0 {
      assert query.(cursor := cs[0]) == query;
    } else {
      WalkLink(s, entries, cs, k - 1);
      PageStep(s, entries, cs[k - 1]);
      assert query.(cursor := cs[k]).(cursor := None) == query.(cursor := None);
    }
  }

  /** The number of pages `n` rows fill: max(1, ceil(n / limit)). */
  predicate IsPageCount(pages: nat, n: nat, limit: nat) {
    if n == 0 then pages == 1 else (pages - 1) * limit < n <= pages * limit
  }

  lemma OneMorePage(pages: nat, n: nat, limit: nat)
    requires 0 < n && IsPageCount(pages, n, limit)
    ensures IsPageCount(pages + 1, n + limit, limit)
  {
    assert (pages + 1) * limit == pages * limit + limit;
    assert pages * limit == (pages - 1) * limit + limit;
  }

  /** The walk visits max(1, ceil(n / limit)) pages, and their concatenation is the plain filter of
      the journal behind the first cursor: no gap and no duplicate. */
  lemma {:induction false} WalkIsPlainFilter(s: Scan, entries: seq<Entry>, cs: seq<Option<string>>)
    requires DistinctCursors(entries) && 1 <= s.limit && IsWalk(s, entries, cs)
    ensures WalkRows(s, entries, cs) == Map(s.row, Pending(s, entries, cs[0]))
    ensures IsPageCount(|cs|, |Pending(s, entries, cs[0])|, s.limit)
    decreases |cs|
  {
    hide Pending, Next, IndexOf;
    var pending, limit := Pending(s, entries, cs[0]), s.limit;
    PageStep(s, entries, cs[0]);
    if 1 < |cs| {
      var rest := cs[1..];
      WalkIsPlainFilter(s, entries, rest);
      assert rest[0] == cs[1] && |rest| == |cs| - 1;
      OneMorePage(|rest|, |pending| - limit, limit);
      MapSplit(s.row, pending, limit);
    } else {
      assert WalkRows(s, entries, cs[1..]) == [];
    }
  }

  lemma MapSplit<T, U>(f: T -> U, t: seq<T>, n: nat)
    requires n <= |t|
    ensures Map(f, t) == Map(f, Take(t, n)) + Map(f, t[n..])
  {
    assert t == t[..n] + t[n..];
  }

  /** Every page but the last is full and says so; the last one hands out no cursor. */
  lemma PagesAreFull(s: Scan, entries: seq<Entry>, cs: seq<Option<string>>, k: nat)
    requires DistinctCursors(entries) && 1 <= s.limit && IsWalk(s, entries, cs) && k < |cs|
    ensures var page := Page(s, entries, cs[k]);
            && (page.hasMore <==> k < |cs| - 1)
            && (page.hasMore ==> |page.entries| == s.limit)
  {
    WalkLink(s, entries, cs, k);
    PageStep(s, entries, cs[k]);
  }

  lemma AscendingPendingReverses(asc: Scan, desc: Scan, entries: seq<Entry>)
    requires asc.order.Asc? && desc == asc.(order := Desc)
    ensures Pending(asc, entries, None) == Reverse(Pending(desc, entries, None))
  {
    FilterReverse(asc.Matching(), entries);
    FilterAgree(asc.Matching(), desc.Matching(), Reverse(entries));
    assert Reverse(Reverse(Filter(asc.Matching(), entries))) == Filter(asc.Matching(), entries);
  }

  /** An ascending walk returns the rows of the descending walk in reverse, although the two cut
      their pages at different places. */
  lemma AscendingReversesDescending(
    asc: Scan, desc: Scan, entries: seq<Entry>, ascending: seq<Option<string>>, descending: seq<Option<string>>)
    requires asc.order.Asc? && desc == asc.(order := Desc)
    requires DistinctCursors(entries) && 1 <= asc.limit
    requires IsWalk(asc, entries, ascending) && ascending[0] == None
    requires IsWalk(desc, entries, descending) && descending[0] == None
    ensures WalkRows(asc, entries, ascending) == Reverse(WalkRows(desc, entries, descending))
  {
    hide Pending, WalkRows, DistinctCursors, Page, Next, Map, Reverse, IsPageCount;
    WalkIsPlainFilter(asc, entries, ascending);
    WalkIsPlainFilter(desc, entries, descending);
    AscendingPendingReverses(asc, desc, entries);
    OrderDoesNotChangeRows(asc, desc, Pending(desc, entries, None));
  }

  lemma OrderDoesNotChangeRows(asc: Scan, desc: Scan, t: seq<Entry>)
    requires desc == asc.(order := Desc)
    ensures Map(asc.row, Reverse(t)) == Reverse(Map(desc.row, t))
  {
    hide ParsedPriority, SanitizeLogMessage;
    forall e ensures asc.row(e) == desc.row(e) {
    }
  }

  // ----- How much a walk scans -----

  /** The scan for `need` rows stops right behind the last of them when there are that many. */
  lemma {:induction false} ScanStopsAtNth(s: Scan, entries: seq<Entry>, p: nat, need: nat)
    requires Ordered(entries) && p <= |entries|
    requires 1 <= need <= |Filter(s.Matching(), View(s.order, entries)[p..])|
    ensures var v := View(s.order, entries);
            ScanStop(s, v, p, need) == p + NthIndex(s.Matching(), v[p..], need - 1) + 1
    decreases |entries| - p
  {
    var v := View(s.order, entries);
    if s.Breaks(v[p]) {
      NoMatchPastWindow(s, entries, p);
      assert false;
    }
    assert v[p..][1..] == v[p + 1..];
    if !(s.Matches(v[p]) && need == 1) {
      ScanStopsAtNth(s, entries, p + 1, if s.Matches(v[p]) then need - 1 else need);
    }
  }

  lemma {:induction false} NthIndexSplits<T>(p: T -> bool, t: seq<T>, k: nat)
    requires k + 1 < |Filter(p, t)|
    ensures var i := NthIndex(p, t, k);
            && Filter(p, t[i + 1..]) == Filter(p, t)[k + 1..]
            && NthIndex(p, t, k + 1) == i + 1 + NthIndex(p, t[i + 1..], 0)
  {
    hide Filter;
    FilterNil(p);
    var x, tail := t[0], t[1..];
    assert t == [x] + tail;
    FilterCons(p, x, tail);
    FilterSplits(p, t, k);
    if !(p(x) && k == 0) {
      var j := if p(x) then k - 1 else k;
      NthIndexSplits(p, tail, j);
      assert tail[NthIndex(p, tail, j) + 1..] == t[NthIndex(p, t, k) + 1..];
    }
  }

  /** The end of the stretch a page must scan before it can return anything. */
  function FirstRowEnd(s: Scan, entries: seq<Entry>, cursor: Option<string>): (p: nat)
    ensures ScanStart(s, entries, cursor) <= p <= |entries|
  {
    if Pending(s, entries, cursor) == [] then |entries| else RowPosition(s, entries, cursor, 0) + 1
  }

  /** A page that has more stops right behind its lookahead row, which is the first row of the next
      page; the next page starts behind the last returned row. */
  lemma PagesOverlapInLookahead(s: Scan, entries: seq<Entry>, cursor: Option<string>)
    requires Ordered(entries) && DistinctCursors(entries) && 1 <= s.limit
    requires Next(s, entries, cursor).Some?
    ensures var next := Next(s, entries, cursor);
            && FirstRowEnd(s, entries, cursor) <= ScanStart(s, entries, next)
            && FirstRowEnd(s, entries, next) == ScanStart(s, entries, cursor) + Scanned(s, entries, cursor)
  {
    hide View, Pending, ScanStart, Filter, NthIndex, Scanned;
    var k := s.limit - 1;
    var ahead := Ahead(s, entries, cursor);
    PageStep(s, entries, cursor);
    SeekSkipsNoMatch(s, entries, cursor);
    ContinuationIsExclusive(s, entries, cursor, k);
    NthIndexSplits(s.Matching(), ahead, k);
    FirstIsEarliest(s.Matching(), ahead, k);
    LookaheadEndsScan(s, entries, cursor);
  }

  lemma LookaheadEndsScan(s: Scan, entries: seq<Entry>, cursor: Option<string>)
    requires Ordered(entries) && s.limit < |Pending(s, entries, cursor)|
    ensures ScanStart(s, entries, cursor) + Scanned(s, entries, cursor)
            == RowPosition(s, entries, cursor, s.limit) + 1
  {
    hide View, ScanStart, ScanStop, Filter, NthIndex, Pending;
    SeekSkipsNoMatch(s, entries, cursor);
    ScanStopsAtNth(s, entries, ScanStart(s, entries, cursor), s.limit + 1);
  }

  lemma {:induction false} FirstIsEarliest<T>(p: T -> bool, t: seq<T>, k: nat)
    requires k < |Filter(p, t)|
    ensures NthIndex(p, t, 0) <= NthIndex(p, t, k)
  {
    if !p(t[0]) {
      FirstIsEarliest(p, t[1..], k);
    }
  }

  /** The stretch of the view one page scans: from `start` up to `stop`, with the end of its first
      row at `first`. */
  datatype Span = Span(start: nat, stop: nat, first: nat)

  function SpanOf(s: Scan, entries: seq<Entry>, cursor: Option<string>): Span {
    var start := ScanStart(s, entries, cursor);
    Span(start, start + Scanned(s, entries, cursor), FirstRowEnd(s, entries, cursor))
  }

  function Spans(s: Scan, entries: seq<Entry>, cs: seq<Option<string>>): seq<Span>
    decreases |cs|
  {
    if cs == [] then [] else [SpanOf(s, entries, cs[0])] + Spans(s, entries, cs[1..])
  }

  /** Each page starts behind the first row of the page before it and finds its own first row where
      that page stopped. */
  predicate Chained(spans: seq<Span>, n: nat) {
    spans == [] ||
    (&& spans[0].start <= spans[0].stop <= n && spans[0].start <= spans[0].first <= n
     && (1 < |spans| ==> spans[0].first <= spans[1].start && spans[1].first == spans[0].stop)
     && Chained(spans[1..], n))
  }

  lemma {:induction false} WalkSpansAreChained(s: Scan, entries: seq<Entry>, cs: seq<Option<string>>)
    requires Ordered(entries) && DistinctCursors(entries) && 1 <= s.limit && IsWalk(s, entries, cs)
    ensures Chained(Spans(s, entries, cs), |entries|)
    decreases |cs|
  {
    hide Next, Pending;
    assert Spans(s, entries, cs)[1..] == Spans(s, entries, cs[1..]);
    if 1 < |cs| {
      PagesOverlapInLookahead(s, entries, cs[0]);
      WalkSpansAreChained(s, entries, cs[1..]);
    }
  }

  /** How many of the spans cover position `i`. */
  function Visits(spans: seq<Span>, i: nat): nat {
    if spans == [] then 0
    else (if spans[0].start <= i < spans[0].stop then 1 else 0) + Visits(spans[1..], i)
  }

  function SpanLength(span: Span): int {
    span.stop - span.start
  }

  lemma {:induction false} ChainedSpansCoverTwice(spans: seq<Span>, n: nat, i: nat)
    requires Chained(spans, n) && spans != []
    ensures Visits(spans, i) <= if i < spans[0].start then 0 else if i < spans[0].first then 1 else 2
    ensures SumOf(SpanLength, spans) <= 2 * n - spans[0].start - spans[0].first
  {
    if 1 < |spans| {
      ChainedSpansCoverTwice(spans[1..], n, i);
    }
  }

  /** The scan count the page at a cursor reports. */
  function PageScans(s: Scan, entries: seq<Entry>): Option<string> -> int {
    cursor => Scanned(s, entries, cursor)
  }

  /** The scan counts the pages of a walk report, added up. */
  function WalkScanned(s: Scan, entries: seq<Entry>, cs: seq<Option<string>>): int {
    SumOf(PageScans(s, entries), cs)
  }

  lemma {:induction false} ScannedIsSpanLength(s: Scan, entries: seq<Entry>, cs: seq<Option<string>>)
    ensures WalkScanned(s, entries, cs) == SumOf(SpanLength, Spans(s, entries, cs))
  {
    if cs != [] {
      ScannedIsSpanLength(s, entries, cs[1..]);
      assert Spans(s, entries, cs)[1..] == Spans(s, entries, cs[1..]);
    }
  }

  /** Over a whole walk no journal entry is scanned by more than two pages, and the reported scan
      counts add up to at most twice the journal. */
  lemma WalkScansAtMostTwice(s: Scan, entries: seq<Entry>, cs: seq<Option<string>>, i: nat)
    requires Ordered(entries) && DistinctCursors(entries) && 1 <= s.limit && IsWalk(s, entries, cs)
    ensures Visits(Spans(s, entries, cs), i) <= 2
    ensures WalkScanned(s, entries, cs) <= 2 * |entries|
  {
    WalkSpansAreChained(s, entries, cs);
    ChainedSpansCoverTwice(Spans(s, entries, cs), |entries|, i);
    ScannedIsSpanLength(s, entries, cs);
  }
}
