/** `read_journal_logs` (src/systemd_client.rs): one page of a filtered, ordered journal walk. */
module LogReader {
  import opened Prelude
  import opened Text
  import opened Journal

  const I64_MAX: int := 0x7fff_ffff_ffff_ffff

  datatype LogOrder = Asc | Desc

  datatype UnitScope = System | User | Both

  datatype LogError = InvalidGrep | MissingTimeRange | InvalidCursor

  /** Behaviour of the libraries underneath: Unicode tables, the regex engine and chrono. */
  datatype Library = Library(
    trim: string -> string,
    isControl: char -> bool,
    compiles: string -> bool,
    regexMatches: (string, string) -> bool,
    representable: int -> bool,
    formatMillis: int -> string)

  /** Window bounds are nanoseconds since the epoch. */
  datatype LogQuery = LogQuery(
    scope: UnitScope,
    priority: Option<string>,
    unit: Option<string>,
    excludeUnits: seq<string>,
    grep: Option<string>,
    order: LogOrder,
    startUtc: Option<int>,
    endUtc: Option<int>,
    limit: nat,
    cursor: Option<string>)

  datatype JournalLogEntry = JournalLogEntry(
    timestampUtc: string,
    unit: Option<string>,
    priority: Option<string>,
    hostname: Option<string>,
    pid: Option<int>,
    message: Option<string>,
    cursor: Option<string>)

  datatype LogQueryResult = LogQueryResult(
    entries: seq<JournalLogEntry>, totalScanned: nat, hasMore: bool)

  datatype GrepMatcher = Substring(value: string) | Regex(pattern: string)

  function BuildGrepMatcher(lib: Library, grep: Option<string>): Result<Option<GrepMatcher>, LogError> {
    if grep.None? then Ok(None)
    else
      var trimmed := lib.trim(grep.value);
      if trimmed == [] then Ok(None)
      else if 2 <= |trimmed| && trimmed[0] == '/' && trimmed[|trimmed| - 1] == '/' then
        var pattern := trimmed[1..|trimmed| - 1];
        if lib.compiles(pattern) then Ok(Some(Regex(pattern))) else Err(InvalidGrep)
      else Ok(Some(Substring(trimmed)))
  }

  predicate MatchesGrep(lib: Library, matcher: Option<GrepMatcher>, message: string) {
    match matcher
    case None => true
    case Some(Substring(value)) => Contains(message, value)
    case Some(Regex(pattern)) => lib.regexMatches(pattern, message)
  }

  function SanitizeLogMessage(lib: Library, message: Option<string>): Option<string> {
    if message.None? || lib.trim(message.value) == [] then None
    else
      var spaced := Map(c => if lib.isControl(c) && c !in "\n\r\t" then ' ' else c, lib.trim(message.value));
      if lib.trim(spaced) == [] then None else Some(lib.trim(spaced))
  }

  function SelectUnitForScope(scope: UnitScope, systemUnit: Option<string>, userUnit: Option<string>): Option<string> {
    match scope
    case System => systemUnit
    case User => userUnit
    case Both => if systemUnit.Some? then systemUnit else userUnit
  }

  function ParsedPriority(field: Option<string>): Option<nat> {
    if field.Some? then ParseU8(field.value) else None
  }

  /** The filters of a query and the rows it produces. */
  datatype Filters = Filters(lib: Library, query: LogQuery, grep: Option<GrepMatcher>) {

    function Unit(e: Entry): Option<string> {
      SelectUnitForScope(query.scope, e.systemUnit, e.userUnit)
    }

    predicate UnitAccepted(e: Entry) {
      && (query.unit.Some? ==> Unit(e).Some? && EqIgnoreAsciiCase(Unit(e).value, query.unit.value))
      && (Unit(e).Some? ==> forall excluded <- query.excludeUnits :: !EqIgnoreAsciiCase(excluded, Unit(e).value))
    }

    predicate PriorityAccepted(e: Entry) {
      var threshold := ParsedPriority(query.priority);
      var priority := ParsedPriority(e.priority);
      threshold.Some? ==> priority.Some? && priority.value <= threshold.value
    }

    predicate MessageAccepted(e: Entry) {
      var message := SanitizeLogMessage(lib, e.message);
      if message.Some? then MatchesGrep(lib, grep, message.value) else query.grep.None?
    }

    predicate Accepts(e: Entry) {
      && lib.representable(e.realtime)
      && UnitAccepted(e)
      && PriorityAccepted(e)
      && MessageAccepted(e)
    }

    /** The public row of an entry; the cursor is assumed to be readable. */
    function Row(e: Entry): JournalLogEntry {
      var priority := ParsedPriority(e.priority);
      JournalLogEntry(
        lib.formatMillis(e.realtime),
        Unit(e),
        if priority.Some? then Some(Decimal(priority.value)) else None,
        e.hostname,
        if e.pid.Some? then ParseI32(e.pid.value) else None,
        SanitizeLogMessage(lib, e.message),
        Some(e.cursor))
    }

    function ToScan(start: int, end: int): (s: Scan)
      ensures s.RowsCarryCursors()
    {
      Scan(query.order, query.limit, start, end, (e: Entry) => Accepts(e), (e: Entry) => Row(e))
    }
  }

  /** A validated query without its cursor: its order, its limit, its window in whole microseconds
      rounded down, which entries it accepts and the rows it returns. Every page of a walk uses the
      same one. */
  datatype Scan = Scan(
    order: LogOrder, limit: nat, start: int, end: int, accepts: Entry -> bool, row: Entry -> JournalLogEntry)
  {
    /** The entries a caller asked for: inside the window and accepted by every filter. */
    predicate Matches(e: Entry) {
      && start <= e.realtime <= end
      && e.realtime <= I64_MAX
      && accepts(e)
    }

    function Matching(): Entry -> bool {
      (e: Entry) => Matches(e)
    }

    /** The entry lies past the far edge of the window, where the scan stops. */
    predicate Breaks(e: Entry) {
      e.realtime <= I64_MAX && if order.Desc? then e.realtime < start else start <= e.realtime && end < e.realtime
    }

    /** The same, with the window in nanoseconds as the caller states it. */
    function Requested(startUtc: int, endUtc: int): Entry -> bool {
      (e: Entry) => startUtc <= 1000 * e.realtime <= endUtc && e.realtime <= I64_MAX && accepts(e)
    }

    ghost predicate RowsCarryCursors() {
      forall e :: row(e).cursor == Some(e.cursor)
    }
  }

  // ----- Specification -----

  /** The journal in reading order. */
  function View(order: LogOrder, entries: seq<Entry>): (v: seq<Entry>)
    ensures |v| == |entries|
  {
    if order.Asc? then entries else Reverse(entries)
  }

  /** How much of the view an exclusive continuation leaves behind. */
  function RestStart(order: LogOrder, entries: seq<Entry>, cursor: Option<string>): (p: nat)
    ensures p <= |entries|
  {
    if cursor.None? then 0
    else
      match IndexOf(entries, cursor.value)
      case None => 0
      case Some(i) => if order.Asc? then i + 1 else |entries| - i
  }

  /** Everything after the cursor, in reading order; without a cursor, the whole journal. */
  function Rest(order: LogOrder, entries: seq<Entry>, cursor: Option<string>): seq<Entry> {
    View(order, entries)[RestStart(order, entries, cursor)..]
  }

  /** The plain filter of the rest of the journal. */
  function Pending(s: Scan, entries: seq<Entry>, cursor: Option<string>): seq<Entry> {
    Filter(s.Matching(), Rest(s.order, entries, cursor))
  }

  /** The plain filter of the rest of the journal by the window the caller stated. */
  function RequestedPending(s: Scan, query: LogQuery, entries: seq<Entry>, cursor: Option<string>): seq<Entry>
    requires query.startUtc.Some? && query.endUtc.Some?
  {
    Filter(s.Requested(query.startUtc.value, query.endUtc.value), Rest(s.order, entries, cursor))
  }

  /** Where scanning starts in the view: after the cursor, or where the window seek lands. */
  function ScanStart(s: Scan, entries: seq<Entry>, cursor: Option<string>): (p: nat)
    ensures p <= |entries|
  {
    if cursor.Some? then RestStart(s.order, entries, cursor)
    else if s.order.Asc? then
      if 0 <= s.start then FirstAtOrAfter(entries, s.start) else 0
    else
      if 0 <= s.end then |entries| - 1 - LastAtOrBefore(entries, s.end) else 0
  }

  /** Where scanning stops when `need` more rows are wanted: behind the last wanted row, behind the
      first entry past the window, or at the end of the journal. */
  function ScanStop(s: Scan, view: seq<Entry>, p: nat, need: nat): (stop: nat)
    requires p <= |view|
    ensures p <= stop <= |view|
    decreases |view| - p
  {
    if need == 0 || p == |view| then p
    else if s.Breaks(view[p]) then p + 1
    else ScanStop(s, view, p + 1, if s.Matches(view[p]) then need - 1 else need)
  }

  function Scanned(s: Scan, entries: seq<Entry>, cursor: Option<string>): nat {
    var view := View(s.order, entries);
    var start := ScanStart(s, entries, cursor);
    ScanStop(s, view, start, s.limit + 1) - start
  }

  /** The view from where scanning starts. */
  function Ahead(s: Scan, entries: seq<Entry>, cursor: Option<string>): seq<Entry> {
    View(s.order, entries)[ScanStart(s, entries, cursor)..]
  }

  /** The matches the scan comes across before it stops. */
  function Collected(s: Scan, entries: seq<Entry>, cursor: Option<string>): seq<Entry> {
    Filter(s.Matching(), Ahead(s, entries, cursor)[..Scanned(s, entries, cursor)])
  }

  /** The page the scan makes of them, for a journal in any order of time. */
  function ScannedPage(s: Scan, entries: seq<Entry>, cursor: Option<string>): LogQueryResult {
    var found := Collected(s, entries, cursor);
    LogQueryResult(Map(s.row, Take(found, s.limit)), Scanned(s, entries, cursor), s.limit < |found|)
  }

  function PageRows(s: Scan, entries: seq<Entry>, cursor: Option<string>): seq<JournalLogEntry> {
    Map(s.row, Take(Pending(s, entries, cursor), s.limit))
  }

  /** The first `limit` rows of the plain filter, and whether the filter has more. */
  function Page(s: Scan, entries: seq<Entry>, cursor: Option<string>): LogQueryResult {
    var pending := Pending(s, entries, cursor);
    LogQueryResult(PageRows(s, entries, cursor), Scanned(s, entries, cursor), s.limit < |pending|)
  }

  /** Validation in the order the original performs it. */
  function Prepare(lib: Library, query: LogQuery, entries: seq<Entry>): Result<Scan, LogError> {
    match BuildGrepMatcher(lib, query.grep)
    case Err(error) => Err(error)
    case Ok(grep) =>
      if query.startUtc.None? || query.endUtc.None? then Err(MissingTimeRange)
      else if query.cursor.Some? && IndexOf(entries, query.cursor.value).None? then Err(InvalidCursor)
      else Ok(Filters(lib, query.(cursor := None), grep).ToScan(query.startUtc.value / 1000, query.endUtc.value / 1000))
  }

  /** What a caller is to expect: the plain filter, page by page. */
  function ReadResult(lib: Library, query: LogQuery, entries: seq<Entry>): Result<LogQueryResult, LogError> {
    match Prepare(lib, query, entries)
    case Err(error) => Err(error)
    case Ok(s) => Ok(Page(s, entries, query.cursor))
  }

  /** What scanning gives. */
  function ScanResult(lib: Library, query: LogQuery, entries: seq<Entry>): Result<LogQueryResult, LogError> {
    match Prepare(lib, query, entries)
    case Err(error) => Err(error)
    case Ok(s) => Ok(ScannedPage(s, entries, query.cursor))
  }

  // ----- Why seeking and stopping early lose nothing -----

  lemma ViewAt(order: LogOrder, entries: seq<Entry>, i: nat)
    requires i < |entries|
    ensures View(order, entries)[i] == entries[if order.Asc? then i else |entries| - 1 - i]
  {
    hide Reverse;
  }

  lemma OlderFirst(entries: seq<Entry>, i: nat, j: nat)
    requires Ordered(entries) && i <= j < |entries|
    ensures entries[i].realtime <= entries[j].realtime
  {
  }

  /** Realtime order seen in reading order. */
  lemma ViewOrdered(order: LogOrder, entries: seq<Entry>, i: nat, j: nat)
    requires Ordered(entries) && i <= j < |entries|
    ensures var v := View(order, entries);
            if order.Asc? then v[i].realtime <= v[j].realtime else v[j].realtime <= v[i].realtime
  {
    hide View, Ordered;
    ViewAt(order, entries, i);
    ViewAt(order, entries, j);
    if order.Asc? {
      OlderFirst(entries, i, j);
    } else {
      OlderFirst(entries, |entries| - 1 - j, |entries| - 1 - i);
    }
  }

  /** From position `p` of the view on, nothing matches behind an entry at which the scan stops. */
  ghost predicate StopsAreFinal(s: Scan, entries: seq<Entry>, p: nat) {
    var v := View(s.order, entries);
    forall q, k :: p <= q < k < |v| && s.Breaks(v[q]) ==> !s.Matches(v[k])
  }

  /** In time order this always holds. */
  lemma OrderedStopsAreFinal(s: Scan, entries: seq<Entry>, p: nat)
    requires Ordered(entries)
    ensures StopsAreFinal(s, entries, p)
  {
    hide View, Ordered;
    var v := View(s.order, entries);
    forall q, k | p <= q < k < |v| && s.Breaks(v[q]) ensures !s.Matches(v[k]) {
      ViewOrdered(s.order, entries, q, k);
    }
  }

  lemma NoMatchBehindFinalStop(s: Scan, entries: seq<Entry>, p: nat)
    requires StopsAreFinal(s, entries, p) && p < |entries|
    requires s.Breaks(View(s.order, entries)[p])
    ensures Filter(s.Matching(), View(s.order, entries)[p..]) == []
  {
    hide View;
    var v := View(s.order, entries);
    forall k | 0 <= k < |v[p..]| ensures !s.Matches(v[p..][k]) {
      assert v[p..][k] == v[p + k];
    }
    FilterNone(s.Matching(), v[p..]);
  }

  /** Once an entry lies past the window, no later entry in reading order matches. */
  lemma NoMatchPastWindow(s: Scan, entries: seq<Entry>, p: nat)
    requires Ordered(entries) && p < |entries|
    requires s.Breaks(View(s.order, entries)[p])
    ensures Filter(s.Matching(), View(s.order, entries)[p..]) == []
  {
    hide View, StopsAreFinal, Ordered, Filter;
    OrderedStopsAreFinal(s, entries, p);
    NoMatchBehindFinalStop(s, entries, p);
  }

  lemma NoMatchBeforeScan(s: Scan, entries: seq<Entry>, k: nat)
    requires k < ScanStart(s, entries, None)
    ensures !s.Matches(View(s.order, entries)[k])
  {
  }

  /** The window seek skips only entries outside the window. */
  lemma SeekSkipsNoMatch(s: Scan, entries: seq<Entry>, cursor: Option<string>)
    ensures Filter(s.Matching(), View(s.order, entries)[ScanStart(s, entries, cursor)..]) == Pending(s, entries, cursor)
  {
    hide View, Filter, IndexOf;
    if cursor.None? {
      hide ScanStart;
      var v, p := View(s.order, entries), ScanStart(s, entries, None);
      forall k | 0 <= k < p ensures !s.Matching()(v[k]) {
        NoMatchBeforeScan(s, entries, k);
      }
      FilterSkips(s.Matching(), v, p);
      assert v[0..] == v;
    }
  }

  /** One more scanned entry is one more filtered one. */
  lemma ScannedStretchStep(s: Scan, v: seq<Entry>, p: nat, stop: nat)
    requires p < stop <= |v|
    ensures var head := if s.Matches(v[p]) then [v[p]] else [];
            && Filter(s.Matching(), v[p..stop]) == head + Filter(s.Matching(), v[p + 1..stop])
            && Filter(s.Matching(), v[p..]) == head + Filter(s.Matching(), v[p + 1..])
  {
    hide Filter;
    assert v[p..stop] == [v[p]] + v[p + 1..stop] && v[p..] == [v[p]] + v[p + 1..];
    FilterCons(s.Matching(), v[p], v[p + 1..stop]);
    FilterCons(s.Matching(), v[p], v[p + 1..]);
  }

  /** Where no match lies behind a stop, the scan for `need` rows collects the first `need` matches. */
  lemma {:induction false} ScanCollectsFirst(s: Scan, entries: seq<Entry>, p: nat, need: nat)
    requires StopsAreFinal(s, entries, p) && p <= |entries|
    ensures var v := View(s.order, entries);
            Filter(s.Matching(), v[p..ScanStop(s, v, p, need)]) == Take(Filter(s.Matching(), v[p..]), need)
    decreases |entries| - p
  {
    hide View, Filter, StopsAreFinal;
    FilterNil(s.Matching());
    var v := View(s.order, entries);
    var stop := ScanStop(s, v, p, need);
    if need == 0 || p == |v| {
      assert v[p..stop] == [];
    } else {
      ScannedStretchStep(s, v, p, stop);
      if s.Breaks(v[p]) {
        NoMatchBehindFinalStop(s, entries, p);
        assert v[p + 1..stop] == [];
      } else {
        FinalFromLater(s, entries, p, p + 1);
        ScanCollectsFirst(s, entries, p + 1, if s.Matches(v[p]) then need - 1 else need);
      }
    }
  }

  lemma FinalFromLater(s: Scan, entries: seq<Entry>, p: nat, p': nat)
    requires StopsAreFinal(s, entries, p) && p <= p'
    ensures StopsAreFinal(s, entries, p')
  {
    hide View;
  }

  /** So the scanned page is the first `limit` rows of the plain filter, in time order always. */
  lemma ScannedPageIsPage(s: Scan, entries: seq<Entry>, cursor: Option<string>)
    requires Ordered(entries) || StopsAreFinal(s, entries, ScanStart(s, entries, cursor))
    ensures ScannedPage(s, entries, cursor) == Page(s, entries, cursor)
  {
    hide View, Filter, ScanStart, ScanStop, Pending, Map, Take, StopsAreFinal, Ordered;
    var v, p := View(s.order, entries), ScanStart(s, entries, cursor);
    if Ordered(entries) {
      OrderedStopsAreFinal(s, entries, p);
    }
    var stop := ScanStop(s, v, p, s.limit + 1);
    assert Ahead(s, entries, cursor)[..stop - p] == v[p..stop];
    ScanCollectsFirst(s, entries, p, s.limit + 1);
    SeekSkipsNoMatch(s, entries, cursor);
    TakeTake(Pending(s, entries, cursor), s.limit + 1, s.limit);
  }

  // ----- What rounding the window to microseconds does -----

  /** The starts that rounding to microseconds leaves the window unchanged for. */
  predicate ExactStart(startUtc: int) {
    startUtc < 0 || startUtc % 1000 == 0
  }

  /** The rounded window holds the same journal timestamps as the stated one exactly for such starts. */
  lemma RoundedWindowIsExactIff(startUtc: int, endUtc: int)
    requires startUtc < endUtc
    ensures (forall r: nat :: startUtc / 1000 <= r <= endUtc / 1000 <==> startUtc <= 1000 * r <= endUtc)
            <==> ExactStart(startUtc)
  {
    if !ExactStart(startUtc) {
      var r: nat := startUtc / 1000;
      assert 1000 * r < startUtc && r <= endUtc / 1000;
    }
  }

  /** For every start the page loses no requested entry, and adds at most entries of the microsecond
      the start falls into. */
  lemma RoundingOnlyAdds(s: Scan, query: LogQuery, entries: seq<Entry>, cursor: Option<string>)
    requires query.startUtc.Some? && query.endUtc.Some?
    requires s.start == query.startUtc.value / 1000 && s.end == query.endUtc.value / 1000
    ensures var requested := s.Requested(query.startUtc.value, query.endUtc.value);
            var pending := Pending(s, entries, cursor);
            && RequestedPending(s, query, entries, cursor) == Filter(requested, pending)
            && (forall e <- pending :: requested(e) || (e.realtime == s.start && !ExactStart(query.startUtc.value)))
  {
    var requested := s.Requested(query.startUtc.value, query.endUtc.value);
    FilterTwice(requested, s.Matching(), Rest(s.order, entries, cursor));
    FilterMembers(s.Matching(), Rest(s.order, entries, cursor));
  }

  lemma {:induction false} FilterTwice<T(!new)>(p: T -> bool, q: T -> bool, t: seq<T>)
    requires forall x :: p(x) ==> q(x)
    ensures Filter(p, Filter(q, t)) == Filter(p, t)
  {
    if t != [] {
      FilterTwice(p, q, t[1..]);
      FilterCons(p, t[0], Filter(q, t[1..]));
    }
  }

  /** With an exact start the rows are those of the stated window. */
  lemma ExactStartReadsStatedWindow(s: Scan, query: LogQuery, entries: seq<Entry>, cursor: Option<string>)
    requires query.startUtc.Some? && query.endUtc.Some? && ExactStart(query.startUtc.value)
    requires s.start == query.startUtc.value / 1000 && s.end == query.endUtc.value / 1000
    ensures Pending(s, entries, cursor) == RequestedPending(s, query, entries, cursor)
  {
    FilterAgree(
      s.Matching(), s.Requested(query.startUtc.value, query.endUtc.value), Rest(s.order, entries, cursor));
  }

  // ----- The reader -----

  /** How much of the view lies behind the reader. */
  ghost function Passed(order: LogOrder, store: Store, at: Location): int {
    if order.Asc? then Min(Forward(store, at), |store.entries|)
    else |store.entries| - 1 - Backward(store, at)
  }

  /** Accepts a cursor only when the selected entry is exactly the one it names. */
  method PositionAtExactCursor(reader: Reader, cursor: string) returns (r: Result<(), LogError>)
    requires reader.Valid()
    modifies reader
    ensures reader.Valid()
    ensures r.Ok? <==> IndexOf(reader.store.entries, cursor).Some?
    ensures r.Ok? ==> reader.at == On(IndexOf(reader.store.entries, cursor).value)
    ensures r.Err? ==> r.error == InvalidCursor
  {
    var found := reader.SeekCursor(cursor);
    if !found {
      return Err(InvalidCursor);
    }
    var advanced := reader.Next();
    if advanced == 0 {
      return Err(InvalidCursor);
    }
    if !reader.TestCursor(cursor) {
      return Err(InvalidCursor);
    }
    IndexIsUnique(reader.store.entries, reader.at.index);
    return Ok(());
  }

  /** Reads one page. In a journal in time order the result is the plain filter of the journal after
      the cursor, cut at `limit`, although the code seeks, stops early in either direction and looks
      one row ahead; with an exact start it is the filter by the window as stated. */
  method ReadJournalLogs(lib: Library, query: LogQuery, store: Store) returns (r: Result<LogQueryResult, LogError>)
    requires store.Valid()
    ensures r == ScanResult(lib, query, store.entries)
    ensures Ordered(store.entries) ==> r == ReadResult(lib, query, store.entries)
    ensures Ordered(store.entries) && r.Ok? && ExactStart(query.startUtc.value) ==>
              var s := Prepare(lib, query, store.entries).value;
              var requested := RequestedPending(s, query, store.entries, query.cursor);
              && r.value.entries == Map(s.row, Take(requested, query.limit))
              && (r.value.hasMore <==> query.limit < |requested|)
  {
    hide Page, ScannedPage, IndexOf, FirstAtOrAfter, LastAtOrBefore;
    var reader := new Reader(store);
    var matcher := BuildGrepMatcher(lib, query.grep);
    if matcher.Err? {
      return Err(matcher.error);
    }
    if query.startUtc.None? || query.endUtc.None? {
      return Err(MissingTimeRange);
    }
    var start, end := query.startUtc.value / 1000, query.endUtc.value / 1000;
    var filters := Filters(lib, query.(cursor := None), matcher.value);

    if query.cursor.Some? {
      var positioned := PositionAtExactCursor(reader, query.cursor.value);
      if positioned.Err? {
        return Err(positioned.error);
      }
    } else if query.order.Desc? {
      if 0 <= end {
        reader.SeekRealtimeUsec(end);
      } else {
        reader.SeekTail();
      }
    } else {
      if 0 <= start {
        reader.SeekRealtimeUsec(start);
      } else {
        reader.SeekHead();
      }
    }

    var page := CollectPage(filters, start, end, query.cursor, reader);
    ResultIsAsExpected(lib, query, store.entries);
    return Ok(page);
  }

  lemma ResultIsAsExpected(lib: Library, query: LogQuery, entries: seq<Entry>)
    requires Prepare(lib, query, entries).Ok?
    ensures var s := Prepare(lib, query, entries).value;
            Ordered(entries) ==>
              var page := ScannedPage(s, entries, query.cursor);
              && page == Page(s, entries, query.cursor)
              && (ExactStart(query.startUtc.value) ==>
                    var requested := RequestedPending(s, query, entries, query.cursor);
                    && page.entries == Map(s.row, Take(requested, query.limit))
                    && (page.hasMore <==> query.limit < |requested|))
  {
    hide ScannedPage, Pending, RequestedPending, Scanned;
    if Ordered(entries) {
      var s := Prepare(lib, query, entries).value;
      ScannedPageIsPage(s, entries, query.cursor);
      if ExactStart(query.startUtc.value) {
        ExactStartReadsStatedWindow(s, query, entries, query.cursor);
      }
    }
  }

  /** What the scan does with an entry it has just selected. */
  datatype Verdict = Skip | Stop | Keep(row: JournalLogEntry)

  /** The filter chain of one loop iteration, in the order the original applies it. */
  method Examine(f: Filters, start: int, end: int, e: Entry) returns (v: Verdict)
    ensures var s := f.ToScan(start, end);
            v == if s.Breaks(e) then Stop else if s.Matches(e) then Keep(s.row(e)) else Skip
  {
    if I64_MAX < e.realtime {
      return Skip;
    }
    if e.realtime < start {
      return if f.query.order.Desc? then Stop else Skip;
    }
    if end < e.realtime {
      return if f.query.order.Asc? then Stop else Skip;
    }
    var unit := SelectUnitForScope(f.query.scope, e.systemUnit, e.userUnit);
    if f.query.unit.Some? && (unit.None? || !EqIgnoreAsciiCase(unit.value, f.query.unit.value)) {
      return Skip;
    }
    if unit.Some? && exists excluded <- f.query.excludeUnits :: EqIgnoreAsciiCase(excluded, unit.value) {
      return Skip;
    }
    if !f.lib.representable(e.realtime) {
      return Skip;
    }
    var priority := ParsedPriority(e.priority);
    var threshold := ParsedPriority(f.query.priority);
    if threshold.Some? && !(priority.Some? && priority.value <= threshold.value) {
      return Skip;
    }
    var message := SanitizeLogMessage(f.lib, e.message);
    if message.Some? {
      if !MatchesGrep(f.lib, f.grep, message.value) {
        return Skip;
      }
    } else if f.query.grep.Some? {
      return Skip;
    }
    v := Keep(JournalLogEntry(
      f.lib.formatMillis(e.realtime),
      unit,
      if priority.Some? then Some(Decimal(priority.value)) else None,
      e.hostname,
      if e.pid.Some? then ParseI32(e.pid.value) else None,
      message,
      Some(e.cursor)));
  }

  /** After `k` entries the scan has found exactly the matches among them and is still running. */
  ghost predicate Running(s: Scan, entries: seq<Entry>, cursor: Option<string>, k: nat, found: seq<Entry>) {
    var v, p := View(s.order, entries), ScanStart(s, entries, cursor);
    && k <= |Ahead(s, entries, cursor)|
    && found == Filter(s.Matching(), Ahead(s, entries, cursor)[..k])
    && |found| <= s.limit + 1
    && ScanStop(s, v, p, s.limit + 1) == ScanStop(s, v, p + k, s.limit + 1 - |found|)
  }

  lemma ScanStep(s: Scan, entries: seq<Entry>, cursor: Option<string>, k: nat, found: seq<Entry>)
    requires Running(s, entries, cursor, k, found) && |found| <= s.limit && k < |Ahead(s, entries, cursor)|
    ensures var e := Ahead(s, entries, cursor)[k];
            if s.Breaks(e) then Scanned(s, entries, cursor) == k + 1 && found == Collected(s, entries, cursor)
            else Running(s, entries, cursor, k + 1, if s.Matches(e) then found + [e] else found)
  {
    hide View, ScanStart, Filter;
    FilterStep(s.Matching(), Ahead(s, entries, cursor), k);
  }

  lemma ScanEnds(s: Scan, entries: seq<Entry>, cursor: Option<string>, k: nat, found: seq<Entry>)
    requires Running(s, entries, cursor, k, found)
    requires |found| == s.limit + 1 || k == |Ahead(s, entries, cursor)|
    ensures Scanned(s, entries, cursor) == k && found == Collected(s, entries, cursor)
  {
    hide View, ScanStart, Filter;
  }

  /** One reader step in the query's direction selects the next entry of the view. */
  method Advance(order: LogOrder, reader: Reader) returns (advanced: nat)
    requires reader.Valid() && 0 <= Passed(order, reader.store, reader.at)
    modifies reader
    ensures reader.Valid()
    ensures var p := Passed(order, reader.store, old(reader.at));
            if p < |reader.store.entries| then
              && advanced == 1 && reader.at.On?
              && reader.Selected() == View(order, reader.store.entries)[p]
              && Passed(order, reader.store, reader.at) == p + 1
            else advanced == 0
  {
    if order.Desc? {
      advanced := reader.Previous();
    } else {
      advanced := reader.Next();
    }
  }

  /** The scanning loop, from wherever the reader was positioned. */
  method CollectPage(f: Filters, start: int, end: int, cursor: Option<string>, reader: Reader)
    returns (page: LogQueryResult)
    requires reader.Valid()
    requires Passed(f.query.order, reader.store, reader.at)
             == ScanStart(f.ToScan(start, end), reader.store.entries, cursor)
    modifies reader
    ensures page == ScannedPage(f.ToScan(start, end), reader.store.entries, cursor)
  {
    ghost var s := f.ToScan(start, end);
    hide View, ScanStop, Filter, Passed, ScanStart, Pending;
    var entries: seq<JournalLogEntry> := [];
    var totalScanned := 0;
    ghost var journal := reader.store.entries;
    ghost var ahead := Ahead(s, journal, cursor);
    ghost var found: seq<Entry> := [];

    while true
      invariant reader.Valid()
      invariant Passed(s.order, reader.store, reader.at) == ScanStart(s, journal, cursor) + totalScanned
      invariant Running(s, journal, cursor, totalScanned, found)
      invariant entries == Map(s.row, found)
      decreases |ahead| - totalScanned
    {
      if f.query.limit < |entries| {
        ScanEnds(s, journal, cursor, totalScanned, found);
        break;
      }

      var advanced := Advance(f.query.order, reader);
      if advanced == 0 {
        ScanEnds(s, journal, cursor, totalScanned, found);
        break;
      }
      ghost var k := totalScanned;
      totalScanned := totalScanned + 1;

      var e := reader.Selected();
      assert e == ahead[k];
      ScanStep(s, journal, cursor, k, found);
      var verdict := Examine(f, start, end, e);
      match verdict
      case Skip =>
      case Stop =>
        break;
      case Keep(row) =>
        MapAppend(s.row, found, e);
        found := found + [e];
        entries := entries + [row];
    }

    var hasMore := f.query.limit < |entries|;
    assert found == Collected(s, journal, cursor) && totalScanned == Scanned(s, journal, cursor);
    MapTake(s.row, found, s.limit);
    entries := Take(entries, f.query.limit);
    page := LogQueryResult(entries, totalScanned, hasMore);
  }
}
