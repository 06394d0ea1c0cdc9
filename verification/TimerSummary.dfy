/** `build_timer_summary` (src/domain/tools/timers.rs). */
module TimerSummary {
  import opened Prelude
  import opened Text
  import opened StableSorting
  import opened Tally
  import opened Timers

  datatype NextDueSoonTimer = NextDueSoonTimer(
    unit: string,
    nextRunUtc: string,
    timeUntilNextSec: int,
    activeState: string,
    triggerUnit: Option<string>)

  datatype ProblemTimer = ProblemTimer(
    unit: string,
    activeState: string,
    subState: string,
    result: Option<string>,
    overdue: bool,
    overdueReason: Option<string>)

  datatype TimerSummary = TimerSummary(
    countsByActiveState: map<string, nat>,
    overdueCount: nat,
    nextDueSoon: seq<NextDueSoonTimer>,
    failedOrProblemTimers: seq<ProblemTimer>)

  predicate IsDueSoon(t: TimerItem) {
    t.nextRunUtc.Some? && t.timeUntilNextSec.Some? && 0 <= t.timeUntilNextSec.value
  }

  function DueRow(t: TimerItem): NextDueSoonTimer
    requires IsDueSoon(t)
  {
    NextDueSoonTimer(t.unit, t.nextRunUtc.value, t.timeUntilNextSec.value, t.activeState, t.triggerUnit)
  }

  function DueRows(items: seq<TimerItem>): seq<NextDueSoonTimer> {
    if items == [] then []
    else (if IsDueSoon(items[0]) then [DueRow(items[0])] else []) + DueRows(items[1..])
  }

  predicate IsProblem(t: TimerItem) {
    || t.overdue
    || EqIgnoreAsciiCase(t.activeState, "failed")
    || EqIgnoreAsciiCase(t.subState, "failed")
    || (t.result.Some? && !EqIgnoreAsciiCase(t.result.value, "success"))
  }

  function ProblemRow(t: TimerItem): ProblemTimer {
    ProblemTimer(t.unit, t.activeState, t.subState, t.result, t.overdue, t.overdueReason)
  }

  function ProblemRows(items: seq<TimerItem>): seq<ProblemTimer> {
    if items == [] then []
    else (if IsProblem(items[0]) then [ProblemRow(items[0])] else []) + ProblemRows(items[1..])
  }

  function DueOrder(): (NextDueSoonTimer, NextDueSoonTimer) -> bool {
    (a: NextDueSoonTimer, b: NextDueSoonTimer) =>
      !CompareInts(a.timeUntilNextSec, b.timeUntilNextSec).Then(Compare(a.unit, b.unit)).Greater?
  }

  function ProblemOrder(): (ProblemTimer, ProblemTimer) -> bool {
    (a: ProblemTimer, b: ProblemTimer) => !Compare(a.unit, b.unit).Greater?
  }

  function StateOf(t: TimerItem): Option<string> {
    Some(t.activeState)
  }

  predicate FlagsOverdue(p: ProblemTimer) {
    p.overdue
  }

  ghost predicate IsSummary(items: seq<TimerItem>, s: TimerSummary) {
    && IsTally(StateOf, items, s.countsByActiveState)
    && s.overdueCount == |Filter(IsOverdue, items)|
    && s.nextDueSoon == Take(StableSort(DueOrder(), DueRows(items)), 5)
    && s.failedOrProblemTimers == StableSort(ProblemOrder(), ProblemRows(items))
  }

  method BuildTimerSummary(items: seq<TimerItem>) returns (s: TimerSummary)
    ensures IsSummary(items, s)
  {
    hide Occurrences, IsDueSoon, IsProblem, StableSort;
    var counts: map<string, nat> := map[];
    EmptyTally(StateOf);
    for n := 0 to |items|
      invariant IsTally(StateOf, items[..n], counts)
    {
      assert items[..n + 1] == items[..n] + [items[n]];
      BumpTallies(StateOf, items[..n], items[n], counts);
      counts := Bump(counts, Some(items[n].activeState));
    }
    assert items[..|items|] == items;
    var overdueCount := |Filter(IsOverdue, items)|;

    var due := CollectDue(items);
    due := StableSort(DueOrder(), due);
    due := Take(due, 5);

    var problems := CollectProblems(items);
    problems := StableSort(ProblemOrder(), problems);
    s := TimerSummary(counts, overdueCount, due, problems);
  }

  method CollectDue(items: seq<TimerItem>) returns (rows: seq<NextDueSoonTimer>)
    ensures rows == DueRows(items)
  {
    hide IsDueSoon;
    rows := [];
    for n := 0 to |items|
      invariant rows + DueRows(items[n..]) == DueRows(items)
    {
      assert items[n..][1..] == items[n + 1..];
      ghost var rest := DueRows(items[n + 1..]);
      if IsDueSoon(items[n]) {
        assert rows + ([DueRow(items[n])] + rest) == rows + [DueRow(items[n])] + rest;
        rows := rows + [DueRow(items[n])];
      } else {
        assert [] + rest == rest;
      }
    }
  }

  method CollectProblems(items: seq<TimerItem>) returns (rows: seq<ProblemTimer>)
    ensures rows == ProblemRows(items)
  {
    hide IsProblem, ProblemRow;
    rows := [];
    for n := 0 to |items|
      invariant rows + ProblemRows(items[n..]) == ProblemRows(items)
    {
      assert items[n..][1..] == items[n + 1..];
      ghost var rest := ProblemRows(items[n + 1..]);
      if IsProblem(items[n]) {
        assert rows + ([ProblemRow(items[n])] + rest) == rows + [ProblemRow(items[n])] + rest;
        rows := rows + [ProblemRow(items[n])];
      } else {
        assert [] + rest == rest;
      }
    }
  }

  // ----- Overdue timers are problems and never due soon -----

  /** Every item of the tool's rows is derived from a timer at the one moment `now`. */
  ghost predicate IsDerived(parse: string -> Option<int>, now: int, t: TimerItem) {
    exists timer: TimerStatus, includePersistent: bool :: t == BuildTimerItem(parse, timer, now, includePersistent)
  }

  /** More than the grace period past due leaves at most minus 300 whole seconds until the next run,
      although the seconds are truncated toward zero. */
  lemma OverdueIsFarFromDue(parse: string -> Option<int>, now: int, t: TimerItem)
    requires IsDerived(parse, now, t) && t.overdue
    ensures t.timeUntilNextSec.Some? && t.timeUntilNextSec.value <= -300
    ensures IsProblem(t) && !IsDueSoon(t)
  {
  }

  /** A timer is flagged exactly when it is active and has a known next run more than 300 seconds back,
      and the reason says why it is or is not. */
  lemma OverdueIff(parse: string -> Option<int>, timer: TimerStatus, now: int, includePersistent: bool)
    ensures var item := BuildTimerItem(parse, timer, now, includePersistent);
            var active := EqIgnoreAsciiCase(timer.activeState, "active");
            var next := if timer.nextRunUtc.Some? then parse(timer.nextRunUtc.value) else None;
            && (item.overdue <==> active && next.Some? && 300_000_000_000 < now - next.value)
            && item.overdueReason
               == if item.overdue then Some("past_due_beyond_grace")
                  else if !active then Some("not_active")
                  else if next.None? then Some("no_next_run_known")
                  else None
  {
  }

  lemma {:induction false} RowsComeFromItems(items: seq<TimerItem>, row: NextDueSoonTimer)
    requires row in DueRows(items)
    ensures exists t :: t in items && IsDueSoon(t) && row == DueRow(t)
  {
    assert items == [items[0]] + items[1..];
    if !(IsDueSoon(items[0]) && row == DueRow(items[0])) {
      RowsComeFromItems(items[1..], row);
    }
  }

  lemma {:induction false} OverdueRowsAreListed(items: seq<TimerItem>)
    requires forall t :: t in items && t.overdue ==> IsProblem(t)
    ensures |Filter(FlagsOverdue, ProblemRows(items))| == |Filter(IsOverdue, items)|
    ensures forall t :: t in items && IsProblem(t) ==> ProblemRow(t) in ProblemRows(items)
  {
    if items != [] {
      assert items == [items[0]] + items[1..];
      OverdueRowsAreListed(items[1..]);
      if IsProblem(items[0]) {
        assert ([ProblemRow(items[0])] + ProblemRows(items[1..]))[1..] == ProblemRows(items[1..]);
      } else {
        assert ProblemRows(items) == ProblemRows(items[1..]);
      }
    }
  }

  lemma FilterIsShorter<T>(p: T -> bool, t: seq<T>)
    ensures |Filter(p, t)| <= |t|
  {
  }

  /** In every summary of derived rows each overdue timer is listed among the problems, exactly
      `overdueCount` of the problems are flagged overdue, no timer listed as due soon is overdue, and
      the state counts add up to the number of rows. */
  lemma OverdueTimersAreProblems(
    parse: string -> Option<int>, now: int, items: seq<TimerItem>, s: TimerSummary, states: seq<Count>)
    requires forall t :: t in items ==> IsDerived(parse, now, t)
    requires IsSummary(items, s) && IsEnumeration(s.countsByActiveState, states)
    ensures forall t :: t in items && t.overdue ==> ProblemRow(t) in s.failedOrProblemTimers
    ensures s.overdueCount == |Filter(FlagsOverdue, s.failedOrProblemTimers)| <= |s.failedOrProblemTimers|
    ensures forall row :: row in s.nextDueSoon ==>
                            exists t :: t in items && !t.overdue && IsDueSoon(t) && row == DueRow(t)
    ensures SumOf(CountOf, states) == |items|
  {
    hide Occurrences, IsProblem, StableSort, BuildTimerItem, IsEnumeration;
    forall t | t in items && t.overdue ensures IsProblem(t) && !IsDueSoon(t) {
      OverdueIsFarFromDue(parse, now, t);
    }
    OverdueRowsAreListed(items);
    var problems := ProblemRows(items);
    SortFilterCount(FlagsOverdue, ProblemOrder(), problems);
    FilterIsShorter(FlagsOverdue, s.failedOrProblemTimers);
    forall t | t in items && t.overdue ensures ProblemRow(t) in s.failedOrProblemTimers {
      SortMembers(ProblemOrder(), problems, ProblemRow(t));
    }
    forall row | row in s.nextDueSoon
      ensures exists t :: t in items && !t.overdue && IsDueSoon(t) && row == DueRow(t)
    {
      assert row in StableSort(DueOrder(), DueRows(items));
      SortMembers(DueOrder(), DueRows(items), row);
      RowsComeFromItems(items, row);
    }
    TallyAddsUp(StateOf, items, s.countsByActiveState, states);
    EveryTimerHasState(items);
  }

  lemma {:induction false} EveryTimerHasState(items: seq<TimerItem>)
    ensures Contributing(StateOf, items) == |items|
  {
    if items != [] {
      EveryTimerHasState(items[..|items| - 1]);
    }
  }

  // ----- The five nearest timers -----

  lemma DueOrderIsTotal()
    ensures TotalPreorder(DueOrder())
  {
    hide Compare;
    CompareIsTotalOrder();
  }

  lemma {:induction false} DueItemHasRow(items: seq<TimerItem>, t: TimerItem)
    requires t in items && IsDueSoon(t)
    ensures DueRow(t) in DueRows(items)
  {
    assert items == [items[0]] + items[1..];
    if t != items[0] {
      DueItemHasRow(items[1..], t);
    }
  }

  /** A timer whose next run is known and not in the past is listed as due soon unless five others run
      no later. */
  lemma NextDueSoonAreNearest(items: seq<TimerItem>, s: TimerSummary, t: TimerItem)
    requires IsSummary(items, s) && t in items
    requires t.nextRunUtc.Some? && t.timeUntilNextSec.Some? && 0 <= t.timeUntilNextSec.value
    ensures NextDueSoonTimer(t.unit, t.nextRunUtc.value, t.timeUntilNextSec.value, t.activeState, t.triggerUnit)
              in s.nextDueSoon
            || (&& |s.nextDueSoon| == 5
                && forall row :: row in s.nextDueSoon ==> row.timeUntilNextSec <= t.timeUntilNextSec.value)
  {
    hide Compare, StableSort;
    var leq := DueOrder();
    var sorted := StableSort(leq, DueRows(items));
    DueOrderIsTotal();
    SortIsStable(leq, DueRows(items));
    DueItemHasRow(items, t);
    SortMembers(leq, DueRows(items), DueRow(t));
    var i :| 0 <= i < |sorted| && sorted[i] == DueRow(t);
    if i < |s.nextDueSoon| {
      assert s.nextDueSoon[i] == DueRow(t);
    } else {
      forall row | row in s.nextDueSoon ensures row.timeUntilNextSec <= t.timeUntilNextSec.value {
        var k :| 0 <= k < |s.nextDueSoon| && s.nextDueSoon[k] == row;
        assert leq(sorted[k], sorted[i]);
      }
    }
  }

  // ----- What a summary shows -----

  function InState(state: string): TimerItem -> bool {
    (t: TimerItem) => t.activeState == state
  }

  /** Overdue, failed, or with a result other than success. */
  function HasProblem(): TimerItem -> bool {
    (t: TimerItem) =>
      || t.overdue
      || EqIgnoreAsciiCase(t.activeState, "failed")
      || EqIgnoreAsciiCase(t.subState, "failed")
      || (t.result.Some? && !EqIgnoreAsciiCase(t.result.value, "success"))
  }

  lemma ProblemOrderIsTotal()
    ensures TotalPreorder(ProblemOrder())
  {
    hide Compare;
    CompareIsTotalOrder();
  }

  lemma {:induction false} ProblemRowsShow(items: seq<TimerItem>)
    ensures |ProblemRows(items)| == |Filter(HasProblem(), items)|
    ensures forall p :: p in ProblemRows(items) <==>
              exists t :: t in items && HasProblem()(t)
                          && p == ProblemTimer(t.unit, t.activeState, t.subState, t.result, t.overdue, t.overdueReason)
  {
    hide EqIgnoreAsciiCase;
    if items != [] {
      ProblemRowsShow(items[1..]);
      assert items == [items[0]] + items[1..];
    }
  }

  /** The problems are exactly the overdue, failed or unsuccessful timers, ascending by unit name. */
  lemma ProblemsShown(items: seq<TimerItem>, s: TimerSummary)
    requires IsSummary(items, s)
    ensures |s.failedOrProblemTimers| == |Filter(HasProblem(), items)|
    ensures forall p :: p in s.failedOrProblemTimers <==>
              exists t :: t in items && HasProblem()(t)
                          && p == ProblemTimer(t.unit, t.activeState, t.subState, t.result, t.overdue, t.overdueReason)
    ensures forall i, j :: 0 <= i < j < |s.failedOrProblemTimers| ==>
              !Compare(s.failedOrProblemTimers[i].unit, s.failedOrProblemTimers[j].unit).Greater?
  {
    hide StableSort, Compare, ProblemRows, HasProblem, IsTally, Filter;
    ProblemRowsShow(items);
    ProblemOrderIsTotal();
    SortIsStable(ProblemOrder(), ProblemRows(items));
    forall p ensures p in s.failedOrProblemTimers <==> p in ProblemRows(items) {
      SortMembers(ProblemOrder(), ProblemRows(items), p);
    }
    forall i, j | 0 <= i < j < |s.failedOrProblemTimers|
      ensures !Compare(s.failedOrProblemTimers[i].unit, s.failedOrProblemTimers[j].unit).Greater?
    {
      assert ProblemOrder()(s.failedOrProblemTimers[i], s.failedOrProblemTimers[j]);
    }
  }

  /** At most five due timers are listed, soonest first and by unit name among equals, each with its own
      fields and none in the past; the states and the overdue timers are counted as the rows have them. */
  lemma DueAndCountsShown(items: seq<TimerItem>, s: TimerSummary)
    requires IsSummary(items, s)
    ensures |s.nextDueSoon| <= 5
    ensures forall r :: r in s.nextDueSoon ==>
              0 <= r.timeUntilNextSec
              && exists t :: t in items && t.unit == r.unit && t.nextRunUtc == Some(r.nextRunUtc)
                             && t.timeUntilNextSec == Some(r.timeUntilNextSec)
                             && t.activeState == r.activeState && t.triggerUnit == r.triggerUnit
    ensures forall i, j :: 0 <= i < j < |s.nextDueSoon| ==>
              var a, b := s.nextDueSoon[i], s.nextDueSoon[j];
              || a.timeUntilNextSec < b.timeUntilNextSec
              || (a.timeUntilNextSec == b.timeUntilNextSec && !Compare(a.unit, b.unit).Greater?)
    ensures s.overdueCount == |Filter((t: TimerItem) => t.overdue, items)|
    ensures forall state: string :: state in s.countsByActiveState <==> 0 < |Filter(InState(state), items)|
    ensures forall state :: state in s.countsByActiveState ==>
              s.countsByActiveState[state] == |Filter(InState(state), items)|
  {
    hide StableSort, Compare, Occurrences, Filter;
    var leq, due := DueOrder(), DueRows(items);
    DueOrderIsTotal();
    SortIsStable(leq, due);
    forall r | r in s.nextDueSoon
      ensures exists t :: t in items && IsDueSoon(t) && r == DueRow(t)
    {
      assert r in StableSort(leq, due);
      SortMembers(leq, due, r);
      RowsComeFromItems(items, r);
    }
    forall i, j | 0 <= i < j < |s.nextDueSoon| ensures leq(s.nextDueSoon[i], s.nextDueSoon[j]) {
      assert leq(StableSort(leq, due)[i], StableSort(leq, due)[j]);
    }
    FilterAgree(IsOverdue, (t: TimerItem) => t.overdue, items);
    forall state: string ensures Occurrences(StateOf, items, state) == |Filter(InState(state), items)| {
      OccurrencesCount(StateOf, items, state, InState(state));
    }
  }
}
