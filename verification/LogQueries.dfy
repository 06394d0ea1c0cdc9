/** `build_log_query` (src/domain/tools/logs.rs): the bounds that every executed query meets. */
module LogQueries {
  import opened Prelude
  import opened Journal
  import opened LogReader
  import opened LogWalk
  import opened LogClock
  import opened LogClient

  const MAX_LOG_LIMIT: nat := 1_000
  const DEFAULT_LOG_LIMIT: nat := 200
  const MILLISECOND: int := 1_000_000
  /** Seven days in nanoseconds. */
  const MAX_WINDOW: int := 7 * 24 * 3600 * 1_000_000_000

  datatype QueryError =
    | MissingTimeRange
    | InvalidTimeRange
    | TimeRangeTooLarge(maximumStart: int)
    | InvalidLimit
    | InvalidOrder
    | Rejected(code: string)

  /** Tool arguments after the string normalizers of src/domain/utils.rs, each of which may fail.
      `order` is already trimmed and lower-cased, `cursor` and `grep` already blank-filtered. */
  datatype LogsQueryParams = LogsQueryParams(
    startUtc: Result<Option<int>, QueryError>,
    endUtc: Result<Option<int>, QueryError>,
    allowLargeWindow: bool,
    limit: Option<nat>,
    order: Option<string>,
    excludeUnits: Result<seq<string>, QueryError>,
    scope: Result<UnitScope, QueryError>,
    priority: Result<Option<string>, QueryError>,
    unit: Result<Option<string>, QueryError>,
    grep: Option<string>,
    cursor: Option<string>)

  function ParseOrder(order: Option<string>): Result<LogOrder, QueryError> {
    if order.None? || order.value == "" || order.value == "desc" then Ok(Desc)
    else if order.value == "asc" then Ok(Asc)
    else Err(InvalidOrder)
  }

  /** What is left of a time printed with millisecond precision (`SecondsFormat::Millis`). */
  function Printed(t: int): int {
    t / MILLISECOND * MILLISECOND
  }

  /** The time range check alone; the seven-day window is inclusive. */
  function CheckWindow(start: int, end: int, allowLargeWindow: bool): Option<QueryError> {
    if end <= start then Some(InvalidTimeRange)
    else if !allowLargeWindow && MAX_WINDOW < end - start then Some(TimeRangeTooLarge(Printed(end - MAX_WINDOW)))
    else None
  }

  function BuildLogQuery(params: LogsQueryParams): (r: Result<LogQuery, QueryError>)
    ensures r.Ok? ==>
              && 1 <= r.value.limit <= MAX_LOG_LIMIT
              && r.value.startUtc.Some? && r.value.endUtc.Some?
              && r.value.startUtc.value < r.value.endUtc.value
              && (params.allowLargeWindow || r.value.endUtc.value - r.value.startUtc.value <= MAX_WINDOW)
  {
    if params.startUtc.Err? then Err(params.startUtc.error)
    else if params.endUtc.Err? then Err(params.endUtc.error)
    else if params.startUtc.value.None? || params.endUtc.value.None? then Err(QueryError.MissingTimeRange)
    else
      var start, end := params.startUtc.value.value, params.endUtc.value.value;
      var window := CheckWindow(start, end, params.allowLargeWindow);
      var limit := if params.limit.Some? then params.limit.value else DEFAULT_LOG_LIMIT;
      var order := ParseOrder(params.order);
      if window.Some? then Err(window.value)
      else if limit == 0 || MAX_LOG_LIMIT < limit then Err(InvalidLimit)
      else if order.Err? then Err(order.error)
      else if params.excludeUnits.Err? then Err(params.excludeUnits.error)
      else if params.scope.Err? then Err(params.scope.error)
      else if params.priority.Err? then Err(params.priority.error)
      else if params.unit.Err? then Err(params.unit.error)
      else
        Ok(LogQuery(
             params.scope.value, params.priority.value, params.unit.value, params.excludeUnits.value,
             params.grep, order.value, Some(start), Some(end), limit, params.cursor))
  }

  /** What is accepted, in plain numbers: a start before an end at most seven days away unless large
      windows are allowed, one to a thousand rows, ascending or descending order, and arguments that
      normalize. Descending order and 200 rows are the defaults. */
  lemma AcceptedIff(params: LogsQueryParams)
    ensures var r := BuildLogQuery(params);
            && (r.Ok? <==>
                  && params.startUtc.Ok? && params.startUtc.value.Some?
                  && params.endUtc.Ok? && params.endUtc.value.Some?
                  && 0 < params.endUtc.value.value - params.startUtc.value.value
                  && (params.allowLargeWindow
                      || params.endUtc.value.value - params.startUtc.value.value <= 604_800_000_000_000)
                  && (params.limit.Some? ==> 1 <= params.limit.value <= 1000)
                  && (params.order.Some? ==> params.order.value in ["", "asc", "desc"])
                  && params.excludeUnits.Ok? && params.scope.Ok? && params.priority.Ok? && params.unit.Ok?)
            && (r.Ok? ==>
                  && r.value.startUtc == params.startUtc.value && r.value.endUtc == params.endUtc.value
                  && r.value.limit == (if params.limit.Some? then params.limit.value else 200)
                  && r.value.order == (if params.order == Some("asc") then Asc else Desc)
                  && r.value.excludeUnits == params.excludeUnits.value && r.value.scope == params.scope.value
                  && r.value.priority == params.priority.value && r.value.unit == params.unit.value
                  && r.value.grep == params.grep && r.value.cursor == params.cursor)
  {
    assert params.order.Some? ==>
             (params.order.value in ["", "asc", "desc"]
              <==> params.order.value == "" || params.order.value == "asc" || params.order.value == "desc");
    assert "asc" != "" && "asc"[0] != "desc"[0];
  }

  /** Bounds are checked before the limit, and the limit before the order; the advice for a window that
      is too large is the end minus seven days in whole milliseconds, rounded down. */
  lemma RefusedFor(params: LogsQueryParams)
    requires params.startUtc.Ok? && params.endUtc.Ok?
    ensures var r, start, end := BuildLogQuery(params), params.startUtc.value, params.endUtc.value;
            if start.None? || end.None? then r == Err(QueryError.MissingTimeRange)
            else if end.value <= start.value then r == Err(InvalidTimeRange)
            else if !params.allowLargeWindow && 604_800_000_000_000 < end.value - start.value then
              && r.Err? && r.error.TimeRangeTooLarge?
              && r.error.maximumStart % 1_000_000 == 0
              && r.error.maximumStart <= end.value - 604_800_000_000_000 < r.error.maximumStart + 1_000_000
            else if params.limit.Some? && !(1 <= params.limit.value <= 1000) then r == Err(InvalidLimit)
            else params.order.Some? && params.order.value !in ["", "asc", "desc"] ==> r == Err(InvalidOrder)
  {
  }

  /** The start an oversized window is told to use is accepted exactly when the end is a whole number
      of milliseconds; it is then the earliest accepted start, and otherwise the earliest accepted
      start that is a whole number of milliseconds is the next one. */
  lemma MaximumStartAcceptedIff(start: int, end: int, proposed: int)
    requires CheckWindow(start, end, false) == Some(TimeRangeTooLarge(proposed))
    ensures CheckWindow(proposed, end, false) == None <==> end % MILLISECOND == 0
    ensures end % MILLISECOND == 0 ==> forall t :: CheckWindow(t, end, false) == None <==> proposed <= t < end
    ensures end % MILLISECOND != 0 ==>
              forall t | t % MILLISECOND == 0 ::
                CheckWindow(t, end, false) == None <==> proposed + MILLISECOND <= t < end
  {
  }

  /** A request that follows the advice is rejected again when its end is finer than a millisecond. */
  lemma MaximumStartCanBeRejected()
    ensures var end := 30 * 24 * 3600 * 1_000_000_000 + 500_000;
            var first := CheckWindow(0, end, false);
            && first.Some? && first.value.TimeRangeTooLarge?
            && CheckWindow(first.value.maximumStart, end, false) == first
  {
  }

  /** End to end, in a journal in time order: every query the tool accepts can only fail on its regular
      expression or cursor; otherwise a client following the cursors the reader hands out receives the
      plain filter of the journal in max(1, ceil(n / limit)) pages, by the window as stated whenever its
      start is a whole number of microseconds or lies before the epoch. */
  lemma AcceptedQueriesWalkTheirWindow(params: LogsQueryParams, lib: Library, entries: seq<Entry>)
    requires BuildLogQuery(params).Ok? && DistinctCursors(entries) && Ordered(entries)
    ensures var prepared := Prepare(lib, BuildLogQuery(params).value, entries);
            prepared.Err? ==> prepared.error != LogError.MissingTimeRange
    ensures var q := BuildLogQuery(params).value;
            var prepared := Prepare(lib, q, entries);
            prepared.Ok? ==>
              var s := prepared.value;
              var pending := Pending(s, entries, q.cursor);
              && s.RowsCarryCursors() && ScannedRows(s, entries, q.cursor) == Map(s.row, pending)
              && IsPageCount(|Cursors(s, entries, q.cursor)|, |pending|, q.limit)
              && (ExactStart(q.startUtc.value) ==> pending == RequestedPending(s, q, entries, q.cursor))
  {
    hide Pending, RequestedPending, Cursors, ScannedRows, Ordered, DistinctCursors, WalkScanned, IsPageCount;
    var q := BuildLogQuery(params).value;
    if Prepare(lib, q, entries).Ok? {
      ClientReadsAll(lib, q, entries);
    }
  }

  /** For any other start the walk can return an entry from before the window: one that shares the
      microsecond the start falls into. */
  lemma InexactStartReadsEarlierEntry(lib: Library)
    requires lib.representable(1)
    ensures var params := LogsQueryParams(
              Ok(Some(1500)), Ok(Some(2000)), false, None, None, Ok([]), Ok(Both), Ok(None), Ok(None), None, None);
            var entries := [Entry("c", 1, None, None, None, None, None, None)];
            var read := ReadResult(lib, BuildLogQuery(params).value, entries);
            && BuildLogQuery(params).Ok? && BuildLogQuery(params).value.startUtc == Some(1500)
            && 1000 * entries[0].realtime < 1500
            && read.Ok? && |read.value.entries| == 1 && read.value.entries[0].cursor == Some("c")
  {
  }
}
