# Verified model of systemd-monitoring-mcp

This Dafny project models the parts of the monitoring server in which a simple promise is kept by
intricate code, and proves the promise for all inputs, runs and reachable states.

* **Journal paging** (`Journal`, `LogReader`, `LogWalk`, `LogGrowth`, `LogClock`, `LogClient`,
  `LogFilters`, `LogQueries`). A reader with a mutable position seeks, steps forward or backward, filters, stops early
  at the edge of the window, looks one row ahead, cuts at `limit` and resumes exclusively behind a
  verified cursor. The method is proved to return the first `limit` rows of the plain filter of the
  journal. A client that follows the cursors is proved to end, to receive the plain filter page after
  page, to make the server scan no entry more than twice, and to stay correct while newer entries are
  appended between page reads; each filter is characterised by what it takes away. All of this is for a journal in time order; exactly when walks are
  complete without it is a theorem of its own.
* **Admission control** (`RateLimit`, `RateLimitRuns`). A token bucket as a class. Theorems about
  arbitrary runs, including out-of-order clock readings: conservation of tokens, a bound on every
  window, optimality among all admission policies, invisibility of rejected calls, and sufficiency of
  the advertised retry delay.
* **Row pipelines** (`StableSorting`, `Tally`, `LogGroups`, `LogSummary`, `Responses`, `Timers`,
  `TimerSummary`, `Units`). Stable sorts, merges, top-ten cuts, first-seen grouping and
  sort-then-dedup, each tied to a set, multiset or uniqueness specification, so that results do not
  depend on hash map iteration order or on how the standard library sorts.
* **JSON-RPC** (`Json`, `Rpc`, `McpServer`). The batch loop, the id checks and the envelopes of
  JSON-RPC 2.0, sections 4.1 (Notification), 5 (Response object) and 6 (Batch).
* **Redaction** (`Redaction`, `ArgvRedaction`). Audit parameters and argument vectors: idempotence, and
  exactly which inputs are shown alike.

`Prelude` and `Text` hold the shared sequence and string vocabulary. `dafny verify dfyconfig.toml`
checks everything.

## Assumptions

* Cursors identify entries (`Journal.Store`). That journal timestamps never decrease is an assumption
  of the theorems about plain filters (`Journal.Ordered`); the reader is specified without it,
  `LogClock.WalkCompleteIff` says exactly which queries read which journals completely, and
  `LogClock.WalksCompleteIffOrdered` that reading all windows completely needs exactly time order.
* After a seek, stepping forward selects the first entry at or after the target and stepping backward
  the last one at or before it. A cursor whose entry is gone may land anywhere; every proof holds for
  every such choice. I/O errors of the journal are not modelled, and the cursor of a selected entry can
  always be read.
* `LogReader.Library` and the `trim`, `parse` and `isWhitespace` parameters stand for Unicode tables,
  regular expressions and time parsing and formatting; the theorems hold for every choice of them.
* `McpServer.Backend` stands for SDK decoding and method execution, whose answers may depend on every
  call before. The only thing assumed is that a decoded request carries the id of its payload.
* The token bucket uses exact integer arithmetic: one token is 10^9 units and offsets are nanoseconds.
  Callers reach it one at a time, in any order.

## Where code and documentation differ

* The window bounds are compared in whole microseconds, rounded down (src/systemd_client.rs:1367-1368).
  A start at or after the epoch that is not a whole number of microseconds admits entries of the
  microsecond it falls into, and every other start is exact (`LogReader.RoundedWindowIsExactIff`,
  `LogReader.RoundingOnlyAdds`, `LogQueries.InexactStartReadsEarlierEntry`).
* docs/requirements.md:345 has `maximum_start_utc` equal to the end minus seven days. It is printed in
  whole milliseconds, rounded down, and is rejected again exactly when the end is not a whole number of
  milliseconds (`LogQueries.MaximumStartAcceptedIff`, `LogQueries.MaximumStartCanBeRejected`).
* docs/requirements.md:350-352 has the values of credential flags and assignments replaced. Only the
  text before the first equals sign is taken for the name, so an assignment inside the value of a flag
  with a harmless name is shown (`ArgvRedaction.AssignedValueIsShownIff`,
  `ArgvRedaction.NestedAssignmentIsShown`). A flag that is itself hidden as the value of the flag before
  it hides nothing, so an argument behind a run of credential flags is hidden exactly when the run is
  odd (`ArgvRedaction.HiddenIffOddRun`, `ArgvRedaction.TokenBehindPasswordIsShown`).

## Model

| member | source | states |
|---|---|---|
| Journal.Reader.SeekCursor | src/systemd_client.rs:1233-1248 | a seek fails only for strings that are not cursors, and otherwise leaves the reader at that cursor |
| Journal.Reader.Next | src/systemd_client.rs:1250-1253 | one step forward selects the first entry at or after the sought place, or reports zero and stays |
| Journal.Reader.Previous | src/systemd_client.rs:1378-1386 | one step backward selects the last entry at or before the sought place, or reports zero and stays |
| LogReader.PositionAtExactCursor | src/systemd_client.rs:1272-1294 | succeeds exactly when an entry has that cursor and then stands on it; any nearest-entry fallback is the invalid cursor error |
| LogReader.Advance | src/systemd_client.rs:1378-1387 | in either direction one step selects the next entry in reading order |
| LogReader.Examine | src/systemd_client.rs:1389-1468 | the chain of skips decides exactly: stop past the far window edge, keep the public row of an entry that passes every filter, skip all others |
| LogReader.NoMatchPastWindow | src/systemd_client.rs:1396-1408 | behind an entry past the far window edge nothing matches, in either direction, so stopping there loses no row |
| LogReader.SeekSkipsNoMatch | src/systemd_client.rs:1330-1361 | the initial seek skips no matching entry, whichever direction and also for windows before the epoch |
| LogReader.CollectPage | src/systemd_client.rs:1370-1478 | whatever the order of time, the loop yields the first `limit` matches up to where the scan stops, whether it found more, and the exact number of entries scanned |
| LogReader.ScannedPageIsPage | src/systemd_client.rs:1370-1478 | where no match lies behind a stop, so in time order always, that page is the first `limit` rows of the plain filter and reports exactly whether more exist |
| LogReader.ReadJournalLogs | src/systemd_client.rs:1299-1479 | a page is the plain filter of the whole journal behind the cursor cut at `limit`, `has_more` holds exactly when another matching row exists, errors are reported in the order grep, missing range, cursor, and for a start in whole microseconds the filter is by the window as stated in nanoseconds; without time order a page is what the scan comes across |
| LogReader.ScanCollectsFirst | src/systemd_client.rs:1373-1408 | there the scan for a number of rows collects exactly the first that many matches |
| LogReader.RoundedWindowIsExactIff | src/systemd_client.rs:1367-1368 | rounding the bounds to microseconds keeps the set of journal timestamps exactly when the start is a whole number of microseconds or lies before the epoch |
| LogReader.RoundingOnlyAdds | src/systemd_client.rs:1367-1408 | for every start no requested row is lost, and any other row lies in the microsecond the start falls into |
| LogReader.ExactStartReadsStatedWindow | src/systemd_client.rs:1367-1408 | with such a start the rows are those of the stated window |
| LogFilters.UnfilteredAnswer | src/systemd_client.rs:1389-1435 | without filters a query answers with everything in its window, both ends included, that has a representable time |
| LogFilters.PriorityNarrows | src/systemd_client.rs:1363-1444 | a priority filter keeps of the unfiltered answer exactly the entries whose priority is a number not above it |
| LogFilters.UnitNarrows | src/systemd_client.rs:1414-1421 | a unit filter keeps exactly the entries whose row shows that unit, in any case |
| LogFilters.ExclusionNarrows | src/systemd_client.rs:1423-1430 | excluding one more unit drops exactly the entries whose row shows it |
| LogFilters.GrepNarrows | src/systemd_client.rs:1163-1193 | a search keeps exactly the entries whose row shows a message in which the trimmed text, or the expression between slashes, is found |
| LogFilters.RefusedIff | src/systemd_client.rs:1299-1331 | a read fails exactly for an expression that does not compile, else a missing bound, else a cursor that names no entry |
| LogFilters.AnswerIsOrdered | src/systemd_client.rs:1378-1381 | rows come oldest first when ascending and newest first when descending |
| LogFilters.RowShowsFields | src/systemd_client.rs:1410-1468 | every field of a row is that of its entry, the unit by scope, priority and process number when they are numbers in range |
| LogFilters.MessageIsShownAs | src/systemd_client.rs:1198-1227 | a message is shown with a space for each control character that is not a line break or tab; a blank one is not shown |
| LogFilters.ShownMessagesAreClean | src/systemd_client.rs:1198-1227 | no shown message is blank, padded or holds another control character |
| LogWalk.ContinuationIsExclusive | src/systemd_client.rs:1265-1294 | continuing from any returned row leaves exactly the rows after it |
| LogWalk.PageStep | src/domain/tools/logs.rs:430-439 | continuing with the next cursor resolves and leaves exactly the rows not yet returned |
| LogWalk.PageHandsOutNext | src/domain/tools/logs.rs:430-439 | the handed-out `next_cursor` is the cursor of the last returned row exactly when more rows exist, and absent otherwise |
| LogWalk.CursorsAreWalk | src/domain/tools/logs.rs:430-439 | following `next_cursor` from any query ends |
| LogWalk.WalkReadsSucceed | src/systemd_client.rs:1299-1479 | in time order the reader accepts every cursor a walk hands out and returns that page of the walk |
| LogWalk.WalkIsPlainFilter | src/systemd_client.rs:1330-1479 | the pages of the plain filter number max(1, ceil(n / limit)) and their concatenation is the filter: no gap, no duplicate, both orders, every limit |
| LogWalk.PagesAreFull | src/systemd_client.rs:1471-1478 | all pages but the last are full and report more; the last reports none |
| LogWalk.AscendingReversesDescending | src/systemd_client.rs:1373-1479 | the rows of an ascending walk are those of the descending walk in reverse |
| LogWalk.ScanStopsAtNth | src/systemd_client.rs:1373-1387 | with at least `need` matches ahead the scan stops right behind match number `need`, never earlier at the window edge |
| LogWalk.PagesOverlapInLookahead | src/systemd_client.rs:1373-1387 | a page stops right behind the first row of the next page, and the next page starts at or after the end of this page's first row |
| LogWalk.WalkScansAtMostTwice | src/systemd_client.rs:1374-1387 | over a walk no entry is scanned by more than two pages and the `total_scanned` values add up to at most twice the journal |
| LogGrowth.IndexSurvivesGrowth | src/systemd_client.rs:1272-1294 | a cursor names the same entry after newer entries are appended |
| LogGrowth.AscendingWalkFollowsGrowth | src/systemd_client.rs:1272-1479 | over a growing journal an ascending walk has always returned a prefix of the filter as of its last page, and all of it when it ends; rows present at the start are included |
| LogGrowth.AscendingPageExtends | src/systemd_client.rs:1272-1479 | a page of an earlier snapshot followed by later rows behind its next cursor is a stretch of the later filter |
| LogGrowth.DescendingPageIgnoresGrowth | src/systemd_client.rs:1272-1479 | behind a cursor a descending page, with its scan count, is unchanged by appended entries |
| LogGrowth.DescendingWalkIgnoresGrowth | src/systemd_client.rs:1272-1479 | a descending walk over a growing journal returns page for page the rows a walk over the starting journal returns, and is such a walk when it ends |
| LogGrowth.DescendingWalkIsSnapshot | src/systemd_client.rs:1272-1479 | a descending walk over a growing journal has always returned a prefix of the rows present when it started, and exactly those when it ends |
| LogGrowth.NoRowTwice | src/systemd_client.rs:1299-1479 | the rows of a walk over a growing journal, finished or not, in either order, have pairwise distinct cursors |
| LogClock.NextCursorAdvances | src/systemd_client.rs:1458-1478 | even without time order every next cursor lies behind everything returned so far, so walks end |
| LogClock.FinalStopsReadAll | src/systemd_client.rs:1299-1479 | where no match lies behind a stop, following the cursors of the scanned pages returns every matching row |
| LogClock.FirstPageScansItsWindow | src/systemd_client.rs:1333-1408 | the first page scans nothing in front of its window and at most one entry past it |
| LogClock.WalkStopsAtBreak | src/systemd_client.rs:1396-1408 | a walk never returns anything behind an entry at which its scan stops |
| LogClock.WalkCompleteIff | src/systemd_client.rs:1330-1479 | for every query, filter, journal and first cursor, the walk returns every matching row exactly when no matching entry lies behind an entry at which the scan stops |
| LogClock.WalksCompleteIffOrdered | src/systemd_client.rs:1330-1479 | in either order and for every page size, walks over all windows are complete exactly when the journal is in time order |
| LogClient.ReadPages | src/systemd_client.rs:1299-1479 | whatever the order of time, a client following the reader's cursors ends, fails only if its first read does, and receives the rows of the scanned pages |
| LogClient.FollowCursors | src/systemd_client.rs:1299-1479 | in time order it receives all n rows of the plain filter in max(1, ceil(n / limit)) reads whose scan counts add up to at most twice the journal |
| LogQueries.BuildLogQuery | src/domain/tools/logs.rs:237-318 | an accepted query has a limit of 1 to 1000, a nonempty window, and at most seven days unless large windows are allowed |
| LogQueries.AcceptedIff | src/domain/tools/logs.rs:237-318 | exactly which arguments are accepted, in plain numbers, and the query they become, with 200 rows and descending order as defaults |
| LogQueries.RefusedFor | src/domain/tools/logs.rs:241-294 | which error is reported first, and that the advised start is the end minus seven days rounded down to a millisecond |
| LogQueries.MaximumStartAcceptedIff | src/domain/tools/logs.rs:256-264 | the printed `maximum_start_utc` of an oversized window is accepted exactly when the end is a whole number of milliseconds; it is then the earliest accepted start, and otherwise one millisecond before the earliest accepted whole millisecond |
| LogQueries.MaximumStartCanBeRejected | src/domain/tools/logs.rs:256-264 | for an end half a millisecond past a whole one, the advertised start is rejected with the same advice |
| LogQueries.AcceptedQueriesWalkTheirWindow | src/domain/tools/logs.rs:237-318 | in time order every accepted query can only fail on its regular expression or cursor, and otherwise following the reader's cursors adds up to the plain filter, by the window as stated when its start is exact |
| LogQueries.InexactStartReadsEarlierEntry | src/systemd_client.rs:1367-1408 | an accepted query starting at 1500 ns returns an entry of 1000 ns |
| LogGroups.GroupOne | src/domain/tools/logs.rs:199-221 | from the groups of the entries so far, one iteration gives the groups of one entry more |
| LogGroups.AddEntryExtends | src/domain/tools/logs.rs:199-221 | adding an entry to a grouping gives the grouping of one more entry |
| LogGroups.GroupEntries | src/domain/tools/logs.rs:185-231 | one public row per distinct key in first-seen order |
| LogGroups.GroupRowsShowTheirGroup | src/domain/tools/logs.rs:222-230 | a public row shows the number of entries with its key and their time range next to every requested field of the first entry, overwriting none, and nothing else |
| LogGroups.FirstSeenOrder | src/domain/tools/logs.rs:184-221 | a group listed earlier occurs before any entry of a group listed later |
| LogGroups.GroupsSummarizeTheirEntries | src/domain/tools/logs.rs:189-230 | keys are pairwise distinct, each count is the number of entries with the key, first and last are the least and greatest timestamps and attained, the row is that of the first entry |
| LogGroups.GroupHoldsSameEvents | src/domain/tools/logs.rs:189-221 | a group shows the first of all entries with one unit, priority and message, and counts exactly those |
| LogGroups.EveryEntryHasGroup | src/domain/tools/logs.rs:199-221 | every entry is in the group of its own unit, priority and message |
| LogGroups.FullRowShows | src/domain/tools/logs.rs:173-182 | what a row shows under each of the seven public names |
| LogGroups.GroupCountsAddUp | src/domain/tools/logs.rs:198-230 | the counts of a page add up to its raw rows |
| LogGroups.GroupedWalkCountsEveryRow | src/domain/tools/logs.rs:430-453 | over a grouped walk the counts add up to every matching journal row |
| Tally.BumpTallies | src/domain/tools/logs.rs:62-87 | one more entry keeps a map the exact tally of the entries so far |
| Tally.TallyAddsUp | src/domain/tools/logs.rs:62-87 | the counts of a tally add up to the entries that contribute a name |
| Tally.Collect | src/domain/tools/logs.rs:89-102 | draining a hash map lists each entry once, in arbitrary order |
| LogSummary.SortedEnumerationIsTop | src/domain/tools/logs.rs:89-120 | sorting any enumeration by count descending and name ascending and cutting it gives exactly the best entries |
| LogSummary.TopIsUnique | src/domain/tools/logs.rs:89-120 | the best entries in rank order are determined by the map |
| LogSummary.AsMapHoldsRows | src/domain/tools/logs.rs:93-97 | collecting the ranked rows into a map keeps each and adds none |
| LogSummary.BuildLogSummary | src/domain/tools/logs.rs:56-128 | the four parts are the top ten units, the full priority tally, the top ten messages and all error hotspots in rank order |
| LogSummary.SummaryShowsEntries | src/domain/tools/logs.rs:56-128 | at most ten messages and ten units, the most frequent, all units with errors and all priorities, each with its number of entries, most frequent first and names ascending among equals |
| LogSummary.SummaryIsDeterministic | src/domain/tools/logs.rs:56-128 | two summaries of the same page are equal whatever order the hash maps iterated in |
| LogSummary.SummaryAddsUp | src/domain/tools/logs.rs:67-87 | priority counts add up to the entries, hotspot counts to the entries with a unit and a priority of at most 3 |
| LogSummary.RowPriorityRoundTrip | src/systemd_client.rs:1436-1463 | the priority text written into a row parses back to the journal's priority, so the summary's errors are the entries of priority at most 3 |
| RateLimit.NewPolicy | src/rate_limit.rs:40-51 | accepts exactly the rates and bursts from 1 to 1000000, reporting a bad rate first |
| RateLimit.RateLimiter.constructor | src/rate_limit.rs:92-101 | starts with a full bucket at offset zero |
| RateLimit.RateLimiter.CheckAt | src/rate_limit.rs:121-143 | refills up to the cap, admits exactly when a whole token is there and then charges it, and otherwise answers a delay of one second |
| RateLimit.RejectionDelayIsOneSecond | src/rate_limit.rs:139-142 | the rounded-up delay of a rejection is one second for every valid policy |
| RateLimitRuns.RunConservesTokens | src/rate_limit.rs:127-137 | in every run the balance stays within the burst, `last_refill` is the running maximum of the offsets, and tokens before plus refill equal tokens after plus admitted plus spilled |
| RateLimitRuns.WindowAdmissionBound | src/rate_limit.rs:127-137 | any window of any run admits at most the balance before it, hence at most the burst, plus rate times the growth of `last_refill` |
| RateLimitRuns.FreshBucketAdmitsBurst | src/rate_limit.rs:92-143 | a new limiter admits its first `burst` calls at any offsets, and of any number of calls at one moment exactly `burst` |
| RateLimitRuns.IdleBucketAdmitsBurst | src/rate_limit.rs:127-143 | so does a limiter that was idle long enough to fill |
| RateLimitRuns.SteadyCallsAreAdmitted | src/rate_limit.rs:127-143 | a client that keeps to the configured rate is never rejected |
| RateLimitRuns.DecisionsAreAffordable | src/rate_limit.rs:127-137 | the bucket's own decisions are one of the policies it is compared with |
| RateLimitRuns.GreedyKeepsItsLead | src/rate_limit.rs:127-137 | an alternative's saved-up tokens never outweigh the bucket's lead in admissions |
| RateLimitRuns.GreedyIsOptimal | src/rate_limit.rs:121-143 | no admission policy spending from the same refill and cap admits more calls in any prefix of any run |
| RateLimitRuns.RefillComposes | src/rate_limit.rs:127-132 | capped refill composes: refilling at an intermediate moment changes nothing |
| RateLimitRuns.RejectedCallIsTransparent | src/rate_limit.rs:127-142 | deleting a rejected call changes no other decision, whatever the order of offsets |
| RateLimitRuns.AdmittedCallsStandAlone | src/rate_limit.rs:127-142 | deleting all rejected calls leaves a run that is admitted entirely |
| RateLimitRuns.RetryAfterAnswerIsAdmitted | src/rate_limit.rs:113-142 | whoever waits the advertised second after a rejection was answered is admitted unless at least a second of refill, capped by the burst, was spent by competing calls in between, whether or not the rejected call was overtaken |
| RateLimitRuns.LoneRetryIsAdmitted | src/rate_limit.rs:113-142 | a lone retry one second after the answer is always admitted |
| StableSorting.SortBy | src/domain/tools/timers.rs:284-310 | leaves the slice sorted, a permutation of what it was, with tied elements in their old order |
| StableSorting.SortIsStable | src/domain/tools/timers.rs:284-310 | the result is sorted, a permutation, and keeps tied rows in order |
| StableSorting.StableSortIsUnique | src/domain/tools/timers.rs:284-310 | there is only one stable sort of an input |
| Responses.PaginateRows | src/domain/responses.rs:36-48 | keeps a prefix of at most `limit` rows; `total` is the count before the cut and `truncated` holds exactly when rows were dropped |
| Timers.TimerOrderIsTotal | src/domain/tools/timers.rs:281-331 | for every sort key and order the comparison is a total preorder |
| Timers.SortTimerItems | src/domain/tools/timers.rs:281-311 | rewrites the slice with its stable sort |
| Timers.SortedAsRequested | src/domain/tools/timers.rs:281-331 | times, states and names ascend or descend as requested, equal times by ascending unit in both directions |
| Timers.UnknownTimesComeLast | src/domain/tools/timers.rs:313-331 | rows with an unknown next or last run form a suffix in both directions |
| Timers.PageIsSortedPrefix | src/domain/tools/timers.rs:440-442 | kept and dropped rows are together the stable sort of the input, a permutation of it, no dropped row sorts before a kept one, and the metadata agrees |
| Timers.ListTimers | src/domain/tools/timers.rs:416-442 | the page is exactly the selected, derived and narrowed rows, sorted and cut, in that order |
| Timers.UnfilteredItems | src/domain/tools/timers.rs:416-434 | without filters every timer is a row |
| Timers.StateNarrows | src/domain/tools/timers.rs:419-425 | a state filter keeps exactly the rows in that active state, in any case |
| Timers.NameNarrows | src/domain/tools/timers.rs:426-432 | a name filter keeps exactly the rows whose unit name contains it, in any case |
| Timers.OverdueNarrows | src/domain/tools/timers.rs:436-438 | asking for overdue timers keeps exactly the rows flagged overdue |
| Timers.RowShowsTimer | src/domain/tools/timers.rs:240-273 | every other field of a row is the timer's own, persistence only on request |
| Timers.DerivedTimesAreDistances | src/domain/tools/timers.rs:245-249 | the derived seconds are known exactly when the timestamps parse and are the distances rounded toward zero |
| TimerSummary.BuildTimerSummary | src/domain/tools/timers.rs:334-398 | tallies states, counts overdue rows, and lists the five nearest runs and all problems in order |
| TimerSummary.OverdueIff | src/domain/tools/timers.rs:219-237 | a timer is overdue exactly when it is active and its known next run lies more than 300 seconds back, and the reason says why it is or is not |
| TimerSummary.OverdueIsFarFromDue | src/domain/tools/timers.rs:219-273 | an overdue timer has at most minus 300 whole seconds until its next run, so it is a problem and never due soon |
| TimerSummary.OverdueTimersAreProblems | src/domain/tools/timers.rs:334-398 | each overdue timer is among the problems, exactly `overdue_count` problems are flagged overdue, none is due soon, and state counts add up to the rows |
| TimerSummary.NextDueSoonAreNearest | src/domain/tools/timers.rs:344-367 | a timer with a run ahead is listed unless five others run no later |
| TimerSummary.DueAndCountsShown | src/domain/tools/timers.rs:334-368 | at most five due timers, soonest first, with their own fields; states and overdue timers are counted as the rows have them |
| TimerSummary.ProblemsShown | src/domain/tools/timers.rs:370-390 | the problems are exactly the overdue, failed or unsuccessful timers, ascending by unit |
| Units.CombineScopeRowsByKey | src/systemd_client.rs:496-542 | fails exactly when both scopes failed; otherwise the appended rows sorted by key, a failed scope counting as empty |
| Units.CombinedRowsAreMerge | src/systemd_client.rs:539-541 | the result is the two-way merge of the sorted scopes, system rows first on equal keys, with no row lost or merged away |
| Units.SameKeySystemFirst | src/systemd_client.rs:488-495 | rows of one name are all system rows followed by all user rows |
| Units.ScopesKeepTheirOrder | src/systemd_client.rs:539-541 | each scope's rows stand in the result in that scope's own sorted order |
| Units.CombinedKeysAscend | src/systemd_client.rs:540 | the keys of the combined list never descend |
| Units.CollectFailed | src/systemd_client.rs:1499-1526 | lists exactly the names of one relationship that are failed, not loaded or missing |
| Units.DedupOfSorted | src/systemd_client.rs:1527-1534 | dropping adjacent duplicates of the sorted list drops every duplicate and no fact |
| Units.ClassifyFailedDependencies | src/systemd_client.rs:1489-1535 | lists exactly the failed direct dependencies, strictly ordered by unit and relationship |
| Units.LookupIsLatest | src/systemd_client.rs:1494-1502 | of several rows with one name the last one counts |
| Units.DependencyListedIff | src/systemd_client.rs:1499-1526 | a direct dependency is listed exactly when it has no row or its row is failed or not loaded, with the states of that row or as not found |
| Units.ListedAreDependencies | src/systemd_client.rs:1499-1534 | nothing else is listed, and the list ascends strictly by unit and relationship |
| Units.ClassificationIsUnique | src/systemd_client.rs:1489-1535 | that list is determined by the dependencies and rows |
| Rpc.RequestIdRoundTrip | src/mcp/rpc.rs:162-177 | the id conversions are inverse in both directions |
| Rpc.EnvelopesAreResponses | src/mcp/rpc.rs:108-160 | every envelope has version 2.0, the given id or null, and exactly one of result and error |
| Rpc.ResultComesBack | src/mcp/rpc.rs:142-160 | an object result comes back under "result" |
| Rpc.ErrorComesBack | src/mcp/rpc.rs:112-137 | an error comes back with its code, message and data, and nothing else |
| Rpc.StandardErrors | src/mcp/rpc.rs:60-82 | parse error, invalid request and invalid params have the codes of section 5.1 of JSON-RPC 2.0 |
| McpServer.Server.HandleJsonRpcValue | src/mcp/server.rs:33-90 | answers everything except notifications, and executes exactly the calls the item asks for |
| McpServer.Server.HandleBatch | src/http/handlers.rs:126-131 | the loop collects the responses of the answered items in batch order and executes the calls in batch order |
| McpServer.Server.McpEndpoint | src/http/handlers.rs:115-144 | parse error, empty batch, batch, single value and no-content cases |
| McpServer.ResponsesCarryTheirId | src/mcp/server.rs:33-90 | every answer is a response object that carries the item's own string or 64-bit id, and null otherwise |
| McpServer.BadIdsNeverDispatch | src/mcp/server.rs:38-44 | an item with any other present id executes nothing and is answered with an invalid request error |
| McpServer.CallsCarryTheirId | src/mcp/server.rs:51-85 | an item executes at most once, a request under its own id and a notification under none |
| McpServer.ValidIds | src/mcp/server.rs:92-99 | ids are strings and 64-bit integers and nothing else |
| McpServer.RequestsRun | src/mcp/server.rs:51-74 | a well-formed request runs its own method with its own parameters once, and its result or failure comes back |
| McpServer.NotificationsRun | src/mcp/server.rs:75-85 | a notification runs its method unless the name is blank, and is not answered |
| McpServer.OthersAreRefused | src/mcp/server.rs:33-90 | everything else runs nothing and is refused with the right code |
| McpServer.SinglesAndErrors | src/http/handlers.rs:115-144 | bodies that are no JSON, empty batches and single items |
| McpServer.BatchRespondsInOrder | src/http/handlers.rs:126-131 | response k is that to the k-th item that is not a notification, executed after the calls of exactly the items in front of it |
| McpServer.BatchReplies | src/http/handlers.rs:121-138 | a nonempty batch is answered with 204 exactly when every item is a notification, and otherwise with one response per other item, in order, each with its item's id |
| Redaction.RedactionHidesExactlySecrets | src/mcp/server.rs:287-303 | two payloads are logged alike exactly when they agree outside the values of sensitive keys |
| Redaction.RedactionFixesClean | src/mcp/server.rs:287-303 | redaction is the identity exactly on payloads whose sensitive keys all hold the placeholder |
| Redaction.RedactionCleans | src/mcp/server.rs:287-303 | the output holds the placeholder at every sensitive key, keeps keys and lengths elsewhere, and is unchanged by redacting again |
| Redaction.SensitiveKeyIff | src/mcp/server.rs:308-328 | a key is sensitive exactly when, trimmed and in any case, it contains one of four terms or is one of four more words |
| Redaction.SensitiveValuesAreReplaced | src/mcp/server.rs:287-303 | values of sensitive keys become the placeholder, others are redacted in turn |
| ArgvRedaction.SanitizeArgv | src/podman.rs:139-173 | the loop runs the transducer over the whole vector, keeping length and order; other values give null |
| ArgvRedaction.PlaceholderIsNotSensitive | src/podman.rs:119-132 | the placeholder is not itself taken for a credential name |
| ArgvRedaction.EmittedIsStable | src/podman.rs:148-170 | an emitted argument is emitted unchanged again and leaves the same flag |
| ArgvRedaction.SanitizingIsIdempotent | src/podman.rs:139-173 | sanitizing twice is sanitizing once |
| ArgvRedaction.SecretTextIsInvisible | src/podman.rs:139-173 | replacing a hidden argument by any other secret of the same kind leaves the output unchanged |
| ArgvRedaction.SanitizingHidesExactlySecrets | src/podman.rs:139-173 | two vectors are shown alike exactly when they agree outside their secrets, argument by argument |
| ArgvRedaction.PassesUnchangedIff | src/podman.rs:148-170 | exactly which arguments pass unchanged |
| ArgvRedaction.AssignedValueIsShownIff | src/podman.rs:155-168 | an assigned value is shown exactly when the text before the first equals sign names no credential and the whole looks like a flag or holds no credential term |
| ArgvRedaction.NestedAssignmentIsShown | src/podman.rs:155-168 | `--env=API_TOKEN=` with any text that has no whitespace passes unchanged |
| ArgvRedaction.HiddenIffOddRun | src/podman.rs:144-164 | an argument is hidden by the flag in front of it exactly when the run of credential flags it ends is odd |
| ArgvRedaction.ValueBehindHiddenFlagIsShown | src/podman.rs:149-164 | behind two credential flags in a row a harmless text is shown and the second flag is not |
| ArgvRedaction.TokenBehindPasswordIsShown | src/podman.rs:149-164 | the value of `--token` behind `--password` is shown |
| ArgvRedaction.SensitiveNameIff | src/podman.rs:119-132 | a name is sensitive exactly when one of eight terms can be read in it, in any case, underscores counting as hyphens; leading dashes do not matter |
| ArgvRedaction.ArgumentsShownAs | src/podman.rs:146-170 | what is shown for each kind of argument |
| Text.CompareIsLexicographic | src/domain/tools/timers.rs:284-310 | names are compared lexicographically |
| Text.EqIgnoreAsciiCaseIff | src/systemd_client.rs:1417-1427 | equality up to the case of ASCII letters |
| Text.ContainsIff | src/systemd_client.rs:1190 | searching finds exactly the substrings |
| Text.ParseU8Reads | src/systemd_client.rs:1437 | priorities are read as decimal numbers up to 255 |
| Text.ParseI32Reads | src/systemd_client.rs:1449 | process numbers are read as signed 32-bit decimal numbers |

## Left out

- RateLimit.RateLimiter.CheckAt: the original computes in `f64`; the model uses exact integers, so rounding of tokens and refill is not captured.
- LogReader.ReadJournalLogs: journal I/O errors and the choice of journal files by scope are not modelled; the store is the journal as opened for the query's scope.
- McpServer.Server.HandleJsonRpcRequest: the method table behind it is `Backend.execute`, about which nothing is assumed; state that calls leave behind enters only as the calls so far.
- LogGroups.GroupEntries: timestamps are compared as strings, as in the original; that string order is time order is a property of the formatter and is not claimed.
- LogQueries.BuildLogQuery: the normalizers of src/domain/utils.rs and RFC 3339 parsing enter as results that may fail.
- McpServer.Server.McpEndpoint: an empty batch is answered with a one-element array, as the code does, not with the single error object of the example in section 7 of JSON-RPC 2.0.
- StableSorting.SortBy: the standard library's sorting algorithm; any stable sort computes the same result.
- D-Bus calls, unit and timer enrichment, the Podman process runner, HTTP routing, authentication, logging and startup: I/O.
- `since_last_start`, protocol version negotiation, tool catalogs, service listing and field validation: each is settled by reading one branch.
- `read_unit_transitions`: the same backward scan as the log reader without a window or a cursor; it would add easier members only.
- The static projections of container and pod inspection: field copying.
