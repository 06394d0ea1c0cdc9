/** `list_timers` (src/domain/tools/timers.rs): derived fields, ordering, paging. Times are
    nanoseconds since the epoch; `parse` is RFC 3339 parsing. */
module Timers {
  import opened Prelude
  import opened Text
  import opened StableSorting
  import opened Responses

  const NANOS: int := 1_000_000_000
  const GRACE_SECONDS: int := 300

  datatype TimerStatus = TimerStatus(
    unit: string,
    scope: string,
    loadState: string,
    activeState: string,
    subState: string,
    unitFileState: Option<string>,
    nextRunUtc: Option<string>,
    lastRunUtc: Option<string>,
    triggerUnit: Option<string>,
    persistent: Option<bool>,
    result: Option<string>)

  datatype TimerItem = TimerItem(
    unit: string,
    scope: string,
    activeState: string,
    subState: string,
    nextRunUtc: Option<string>,
    lastRunUtc: Option<string>,
    timeUntilNextSec: Option<int>,
    timeSinceLastSec: Option<int>,
    triggerUnit: Option<string>,
    persistent: Option<bool>,
    result: Option<string>,
    loadState: Option<string>,
    unitFileState: Option<string>,
    overdue: bool,
    overdueReason: Option<string>)

  function ParseTime(parse: string -> Option<int>, text: Option<string>): Option<int> {
    if text.Some? then parse(text.value) else None
  }

  /** `TimeDelta::num_seconds` truncates toward zero. */
  function NumSeconds(delta: int): int {
    if 0 <= delta then delta / NANOS else -(-delta / NANOS)
  }

  datatype Overdue = Overdue(overdue: bool, reason: Option<string>)

  function TimerOverdueStatus(parse: string -> Option<int>, now: int, timer: TimerStatus): Overdue {
    var next := ParseTime(parse, timer.nextRunUtc);
    if !EqIgnoreAsciiCase(timer.activeState, "active") then Overdue(false, Some("not_active"))
    else if next.None? then Overdue(false, Some("no_next_run_known"))
    else if next.value + GRACE_SECONDS * NANOS < now then Overdue(true, Some("past_due_beyond_grace"))
    else Overdue(false, None)
  }

  function BuildTimerItem(
    parse: string -> Option<int>, timer: TimerStatus, now: int, includePersistent: bool): TimerItem
  {
    var next := ParseTime(parse, timer.nextRunUtc);
    var last := ParseTime(parse, timer.lastRunUtc);
    var status := TimerOverdueStatus(parse, now, timer);
    TimerItem(
      timer.unit,
      timer.scope,
      timer.activeState,
      timer.subState,
      timer.nextRunUtc,
      timer.lastRunUtc,
      if next.Some? then Some(NumSeconds(next.value - now)) else None,
      if last.Some? then Some(NumSeconds(now - last.value)) else None,
      timer.triggerUnit,
      if includePersistent then timer.persistent else None,
      timer.result,
      Some(timer.loadState),
      timer.unitFileState,
      status.overdue,
      status.reason)
  }

  // ----- Ordering -----

  function CompareOptionalNoneLast(left: Option<int>, right: Option<int>, descending: bool): Ordering {
    match (left, right)
    case (None, None) => Equal
    case (None, Some(_)) => Greater
    case (Some(_), None) => Less
    case (Some(l), Some(r)) => if descending then CompareInts(r, l) else CompareInts(l, r)
  }

  function CompareTimers(sort: string, order: string, left: TimerItem, right: TimerItem): Ordering {
    var isDesc := EqIgnoreAsciiCase(order, "desc");
    var byUnit := Compare(left.unit, right.unit);
    var cmp :=
      if sort == "next" then
        CompareOptionalNoneLast(left.timeUntilNextSec, right.timeUntilNextSec, isDesc).Then(byUnit)
      else if sort == "last" then
        CompareOptionalNoneLast(left.timeSinceLastSec, right.timeSinceLastSec, isDesc).Then(byUnit)
      else if sort == "state" then
        Compare(left.activeState, right.activeState).Then(byUnit)
      else byUnit;
    if isDesc && sort != "next" && sort != "last" then cmp.Flip() else cmp
  }

  function TimerOrder(sort: string, order: string): (TimerItem, TimerItem) -> bool {
    (left: TimerItem, right: TimerItem) => !CompareTimers(sort, order, left, right).Greater?
  }

  lemma TimerOrderIsTotal(sort: string, order: string)
    ensures TotalPreorder(TimerOrder(sort, order))
  {
    hide CompareTimers;
    var leq := TimerOrder(sort, order);
    forall x, y ensures leq(x, y) || leq(y, x) {
      TimerOrderConnects(sort, order, x, y);
    }
    forall x, y, z | leq(x, y) && leq(y, z) ensures leq(x, z) {
      TimerOrderIsTransitive(sort, order, x, y, z);
    }
  }

  lemma TimerOrderConnects(sort: string, order: string, x: TimerItem, y: TimerItem)
    ensures !CompareTimers(sort, order, x, y).Greater? || !CompareTimers(sort, order, y, x).Greater?
  {
    hide Compare, EqIgnoreAsciiCase;
    CompareFlips(x.unit, y.unit);
    CompareFlips(x.activeState, y.activeState);
  }

  lemma TimerOrderIsTransitive(sort: string, order: string, x: TimerItem, y: TimerItem, z: TimerItem)
    requires !CompareTimers(sort, order, x, y).Greater? && !CompareTimers(sort, order, y, z).Greater?
    ensures !CompareTimers(sort, order, x, z).Greater?
  {
    hide Compare, EqIgnoreAsciiCase;
    CompareIsTotalOrder();
  }

  /** Sorts the rows in place. */
  method SortTimerItems(items: array<TimerItem>, sort: string, order: string)
    modifies items
    ensures items[..] == StableSort(TimerOrder(sort, order), old(items[..]))
  {
    hide StableSort, IsStableSort, TotalPreorder, TimerOrder;
    TimerOrderIsTotal(sort, order);
    SortBy(items, TimerOrder(sort, order));
    StableSortIsUnique(TimerOrder(sort, order), old(items[..]), items[..]);
  }

  // ----- The tool -----

  datatype TimersQuery = TimersQuery(
    limit: nat,
    timerState: Option<string>,
    nameContains: Option<string>,
    includePersistent: bool,
    overdueOnly: bool,
    sort: string,
    order: string)

  predicate Selected(query: TimersQuery, timer: TimerStatus) {
    && (query.timerState.Some? ==> EqIgnoreAsciiCase(timer.activeState, query.timerState.value))
    && (query.nameContains.Some? ==> Contains(AsciiLower(timer.unit), query.nameContains.value))
  }

  /** The rows that answer the query, before ordering. */
  function MatchingItems(
    parse: string -> Option<int>, query: TimersQuery, timers: seq<TimerStatus>, now: int): seq<TimerItem>
  {
    if timers == [] then []
    else
      var item := BuildTimerItem(parse, timers[0], now, query.includePersistent);
      (if Selected(query, timers[0]) && (query.overdueOnly ==> item.overdue) then [item] else [])
      + MatchingItems(parse, query, timers[1..], now)
  }

  function Selecting(query: TimersQuery): TimerStatus -> bool {
    (t: TimerStatus) => Selected(query, t)
  }

  function Building(parse: string -> Option<int>, query: TimersQuery, now: int): TimerStatus -> TimerItem {
    (t: TimerStatus) => BuildTimerItem(parse, t, now, query.includePersistent)
  }

  predicate IsOverdue(t: TimerItem) {
    t.overdue
  }

  /** The page the tool returns: filtered, derived, narrowed, sorted in place, then cut. */
  method ListTimers(parse: string -> Option<int>, query: TimersQuery, timers: seq<TimerStatus>, now: int)
    returns (page: Pagination<TimerItem>)
    ensures page == PaginateRows(
                      StableSort(TimerOrder(query.sort, query.order), MatchingItems(parse, query, timers, now)),
                      query.limit)
  {
    var items := Map(Building(parse, query, now), Filter(Selecting(query), timers));
    if query.overdueOnly {
      items := Filter(IsOverdue, items);
    }
    PipelineIsMatching(parse, query, timers, now);
    var rows := new TimerItem[|items|](i requires 0 <= i < |items| => items[i]);
    assert rows[..] == items;
    SortTimerItems(rows, query.sort, query.order);
    page := PaginateRows(rows[..], query.limit);
  }

  lemma {:induction false} PipelineIsMatching(
    parse: string -> Option<int>, query: TimersQuery, timers: seq<TimerStatus>, now: int)
    ensures var items := Map(Building(parse, query, now), Filter(Selecting(query), timers));
            MatchingItems(parse, query, timers, now) == if query.overdueOnly then Filter(IsOverdue, items) else items
  {
    hide Selected, BuildTimerItem;
    if timers != [] {
      PipelineIsMatching(parse, query, timers[1..], now);
      var f, rest := Building(parse, query, now), Filter(Selecting(query), timers[1..]);
      MapCons(f, timers[0], rest);
      assert ([f(timers[0])] + Map(f, rest))[1..] == Map(f, rest);
    }
  }

  /** For every sort key and order, a page is a stable sorted prefix: kept and dropped rows together
      are the input stably sorted and a permutation of it, and no dropped row sorts before a kept one. */
  lemma PageIsSortedPrefix(items: seq<TimerItem>, sort: string, order: string, limit: nat)
    ensures var leq := TimerOrder(sort, order);
            var sorted := StableSort(leq, items);
            var page := PaginateRows(sorted, limit);
            var dropped := sorted[|page.rows|..];
            && sorted == page.rows + dropped
            && IsStableSort(leq, items, page.rows + dropped)
            && multiset(page.rows) + multiset(dropped) == multiset(items)
            && (forall k, d :: k in page.rows && d in dropped ==> leq(k, d))
            && page.total == |items|
            && (page.truncated <==> dropped != [])
  {
    hide CompareTimers, StableSort, IsStableSort;
    var leq := TimerOrder(sort, order);
    var sorted := StableSort(leq, items);
    TimerOrderIsTotal(sort, order);
    SortLength(leq, items);
    CutKeepsLeast(leq, items, Min(limit, |sorted|));
  }

  // ----- What the order and the derived fields mean -----

  /** Sorted by next or last run, rows with an unknown time come after all others in both orders. */
  lemma UnknownTimesComeLast(items: seq<TimerItem>, sort: string, order: string, i: nat, j: nat)
    requires i < j < |StableSort(TimerOrder(sort, order), items)|
    ensures var a := StableSort(TimerOrder(sort, order), items)[i];
            var b := StableSort(TimerOrder(sort, order), items)[j];
            && (sort == "next" && a.timeUntilNextSec.None? ==> b.timeUntilNextSec.None?)
            && (sort == "last" && a.timeSinceLastSec.None? ==> b.timeSinceLastSec.None?)
  {
    hide Compare, EqIgnoreAsciiCase, StableSort;
    TimerOrderIsTotal(sort, order);
    SortIsStable(TimerOrder(sort, order), items);
    var sorted := StableSort(TimerOrder(sort, order), items);
    assert TimerOrder(sort, order)(sorted[i], sorted[j]);
  }

  /** Known times come earliest first, or latest first when descending, and equal ones by unit name. */
  ghost predicate TimesInOrder(earlier: Option<int>, later: Option<int>, names: Ordering, descending: bool) {
    earlier.Some? && later.Some? ==>
      && (if descending then later.value <= earlier.value else earlier.value <= later.value)
      && (earlier == later ==> !names.Greater?)
  }

  /** In a sorted page, known times ascend or descend as requested with ties by ascending unit name;
      states, then unit names, or unit names alone ascend or descend as requested. */
  lemma SortedAsRequested(items: seq<TimerItem>, sort: string, order: string, i: nat, j: nat)
    requires i < j < |StableSort(TimerOrder(sort, order), items)|
    ensures var a := StableSort(TimerOrder(sort, order), items)[i];
            var b := StableSort(TimerOrder(sort, order), items)[j];
            var descending := EqIgnoreAsciiCase(order, "desc");
            var names := Compare(a.unit, b.unit);
            if sort == "next" then TimesInOrder(a.timeUntilNextSec, b.timeUntilNextSec, names, descending)
            else if sort == "last" then TimesInOrder(a.timeSinceLastSec, b.timeSinceLastSec, names, descending)
            else
              var states := if sort == "state" then Compare(a.activeState, b.activeState) else Equal;
              && (if descending then !states.Less? else !states.Greater?)
              && (states.Equal? ==> if descending then !names.Less? else !names.Greater?)
  {
    hide Compare, EqIgnoreAsciiCase, StableSort;
    TimerOrderIsTotal(sort, order);
    SortIsStable(TimerOrder(sort, order), items);
    var sorted := StableSort(TimerOrder(sort, order), items);
    assert TimerOrder(sort, order)(sorted[i], sorted[j]);
  }

  /** `seconds` is `delta` in whole seconds, rounded toward zero. */
  predicate IsTruncated(delta: int, seconds: int) {
    if 0 <= delta then 0 <= 1_000_000_000 * seconds <= delta < 1_000_000_000 * (seconds + 1)
    else 1_000_000_000 * (seconds - 1) < delta <= 1_000_000_000 * seconds <= 0
  }

  /** The derived times are known exactly when the timestamps parse, and are the distances to the next
      and from the last run rounded toward zero. */
  lemma DerivedTimesAreDistances(parse: string -> Option<int>, timer: TimerStatus, now: int, includePersistent: bool)
    ensures var item := BuildTimerItem(parse, timer, now, includePersistent);
            var next, last := ParseTime(parse, timer.nextRunUtc), ParseTime(parse, timer.lastRunUtc);
            && (item.timeUntilNextSec.Some? <==> next.Some?)
            && (next.Some? ==> IsTruncated(next.value - now, item.timeUntilNextSec.value))
            && (item.timeSinceLastSec.Some? <==> last.Some?)
            && (last.Some? ==> IsTruncated(now - last.value, item.timeSinceLastSec.value))
  {
  }

  /** Every other field of a row is the timer's own; whether it is persistent shows only on request. */
  lemma RowShowsTimer(parse: string -> Option<int>, timer: TimerStatus, now: int, includePersistent: bool)
    ensures var item := BuildTimerItem(parse, timer, now, includePersistent);
            && item.unit == timer.unit && item.scope == timer.scope
            && item.activeState == timer.activeState && item.subState == timer.subState
            && item.nextRunUtc == timer.nextRunUtc && item.lastRunUtc == timer.lastRunUtc
            && item.triggerUnit == timer.triggerUnit && item.result == timer.result
            && item.loadState == Some(timer.loadState) && item.unitFileState == timer.unitFileState
            && item.persistent == if includePersistent then timer.persistent else None
  {
  }

  // ----- What each filter of a query decides -----

  /** Without filters every timer is a row. */
  lemma {:induction false} UnfilteredItems(
    parse: string -> Option<int>, query: TimersQuery, timers: seq<TimerStatus>, now: int)
    requires query.timerState.None? && query.nameContains.None? && !query.overdueOnly
    ensures MatchingItems(parse, query, timers, now) == Map(Building(parse, query, now), timers)
  {
    hide BuildTimerItem;
    if timers != [] {
      UnfilteredItems(parse, query, timers[1..], now);
      assert timers == [timers[0]] + timers[1..];
      MapCons(Building(parse, query, now), timers[0], timers[1..]);
    }
  }

  /** Two queries of which the first asks for `extra` besides. */
  lemma {:induction false} ItemsNarrow(
    parse: string -> Option<int>, query: TimersQuery, wider: TimersQuery, timers: seq<TimerStatus>, now: int,
    extra: TimerItem -> bool)
    requires query.includePersistent == wider.includePersistent
    requires forall t ::
               var item := BuildTimerItem(parse, t, now, query.includePersistent);
               Selected(query, t) && (query.overdueOnly ==> item.overdue)
               <==> Selected(wider, t) && (wider.overdueOnly ==> item.overdue) && extra(item)
    ensures MatchingItems(parse, query, timers, now) == Filter(extra, MatchingItems(parse, wider, timers, now))
  {
    hide BuildTimerItem, Selected;
    if timers != [] {
      ItemsNarrow(parse, query, wider, timers[1..], now, extra);
      var item := BuildTimerItem(parse, timers[0], now, query.includePersistent);
      var rest := MatchingItems(parse, wider, timers[1..], now);
      FilterCons(extra, item, rest);
      assert [] + rest == rest && [] + Filter(extra, rest) == Filter(extra, rest);
    }
  }

  /** A state filter keeps the rows in that active state, whatever the case of its letters. */
  lemma StateNarrows(parse: string -> Option<int>, query: TimersQuery, timers: seq<TimerStatus>, now: int)
    requires query.timerState.Some?
    ensures MatchingItems(parse, query, timers, now)
            == Filter(
                 (t: TimerItem) => EqIgnoreAsciiCase(t.activeState, query.timerState.value),
                 MatchingItems(parse, query.(timerState := None), timers, now))
  {
    hide EqIgnoreAsciiCase, Contains, AsciiLower, TimerOverdueStatus;
    ItemsNarrow(
      parse, query, query.(timerState := None), timers, now,
      (t: TimerItem) => EqIgnoreAsciiCase(t.activeState, query.timerState.value));
  }

  /** A name filter, which arrives in lower case, keeps the rows whose unit name contains it. */
  lemma NameNarrows(
    parse: string -> Option<int>, query: TimersQuery, timers: seq<TimerStatus>, now: int)
    requires query.nameContains.Some? && forall c <- query.nameContains.value :: !('A' <= c <= 'Z')
    ensures MatchingItems(parse, query, timers, now)
            == Filter(
                 (t: TimerItem) => FoundIgnoringCase(t.unit, query.nameContains.value),
                 MatchingItems(parse, query.(nameContains := None), timers, now))
  {
    hide EqIgnoreAsciiCase, FoundIgnoringCase, Contains, AsciiLower, TimerOverdueStatus;
    forall s: string
      ensures Contains(AsciiLower(s), query.nameContains.value) <==> FoundIgnoringCase(s, query.nameContains.value)
    {
      LowerContainsIff(s, query.nameContains.value);
    }
    ItemsNarrow(
      parse, query, query.(nameContains := None), timers, now,
      (t: TimerItem) => FoundIgnoringCase(t.unit, query.nameContains.value));
  }

  /** Asking for overdue timers keeps the rows flagged overdue. */
  lemma OverdueNarrows(parse: string -> Option<int>, query: TimersQuery, timers: seq<TimerStatus>, now: int)
    requires query.overdueOnly
    ensures MatchingItems(parse, query, timers, now)
            == Filter((t: TimerItem) => t.overdue, MatchingItems(parse, query.(overdueOnly := false), timers, now))
  {
    hide EqIgnoreAsciiCase, Contains, AsciiLower, TimerOverdueStatus;
    ItemsNarrow(parse, query, query.(overdueOnly := false), timers, now, (t: TimerItem) => t.overdue);
  }
}
