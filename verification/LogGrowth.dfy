/** Walks over a journal that grows between page reads. */
module LogGrowth {
  import opened Prelude
  import opened Journal
  import opened LogReader
  import opened LogWalk

  /** Snapshots of a journal to which only newer entries are appended. */
  ghost predicate Growing(snapshots: seq<seq<Entry>>) {
    && (forall k :: 0 <= k < |snapshots| ==> Ordered(snapshots[k]) && DistinctCursors(snapshots[k]))
    && (forall j, k :: 0 <= j <= k < |snapshots| ==> snapshots[j] <= snapshots[k])
  }

  /** Page after page read from snapshot after snapshot; the walk may still have pages to go. */
  ghost predicate FollowsCursors(s: Scan, snapshots: seq<seq<Entry>>, cs: seq<Option<string>>)
    decreases |cs|
  {
    && 0 < |cs| <= |snapshots|
    && (1 < |cs| ==>
          cs[1].Some? && cs[1] == Next(s, snapshots[0], cs[0]) && FollowsCursors(s, snapshots[1..], cs[1..]))
  }

  ghost predicate IsGrowingWalk(s: Scan, snapshots: seq<seq<Entry>>, cs: seq<Option<string>>) {
    && FollowsCursors(s, snapshots, cs)
    && (cs[0].Some? ==> IndexOf(snapshots[0], cs[0].value).Some?)
  }

  function GrowingRows(s: Scan, snapshots: seq<seq<Entry>>, cs: seq<Option<string>>): seq<JournalLogEntry>
    requires |cs| <= |snapshots|
    decreases |cs|
  {
    if cs == [] then []
    else PageRows(s, snapshots[0], cs[0]) + GrowingRows(s, snapshots[1..], cs[1..])
  }

  /** A cursor keeps naming the same entry. */
  lemma IndexSurvivesGrowth(before: seq<Entry>, after: seq<Entry>, cursor: string)
    requires before <= after && DistinctCursors(after)
    requires IndexOf(before, cursor).Some?
    ensures IndexOf(after, cursor) == IndexOf(before, cursor)
  {
    var i := IndexOf(before, cursor).value;
    assert after[i] == before[i];
    IndexIsUnique(after, i);
  }

  lemma DropOfExtension<T>(before: seq<T>, after: seq<T>, k: nat)
    requires before <= after && k <= |before|
    ensures after[k..] == before[k..] + after[|before|..]
  {
  }

  lemma AscendingRest(entries: seq<Entry>, cursor: Option<string>)
    requires cursor.Some? ==> IndexOf(entries, cursor.value).Some?
    ensures Rest(Asc, entries, cursor)
            == if cursor.None? then entries else entries[IndexOf(entries, cursor.value).value + 1..]
  {
    hide IndexOf;
  }

  lemma AscendingRestExtends(before: seq<Entry>, after: seq<Entry>, cursor: Option<string>)
    requires before <= after && DistinctCursors(after)
    requires cursor.Some? ==> IndexOf(before, cursor.value).Some?
    ensures Rest(Asc, after, cursor) == Rest(Asc, before, cursor) + after[|before|..]
  {
    hide IndexOf, Rest, DistinctCursors;
    AscendingRest(before, cursor);
    if cursor.Some? {
      IndexSurvivesGrowth(before, after, cursor.value);
      DropOfExtension(before, after, IndexOf(before, cursor.value).value + 1);
    } else {
      DropOfExtension(before, after, 0);
    }
    AscendingRest(after, cursor);
  }

  /** Appending newer entries only extends what is left of an ascending walk. */
  lemma AscendingRestGrows(s: Scan, before: seq<Entry>, after: seq<Entry>, cursor: Option<string>)
    requires s.order.Asc? && before <= after && DistinctCursors(after)
    requires cursor.Some? ==> IndexOf(before, cursor.value).Some?
    ensures Pending(s, before, cursor) <= Pending(s, after, cursor)
  {
    hide Filter, IndexOf, Rest;
    AscendingRestExtends(before, after, cursor);
    FilterConcat(s.Matching(), Rest(Asc, before, cursor), after[|before|..]);
  }

  lemma GrowingTail(s: Scan, snapshots: seq<seq<Entry>>, cs: seq<Option<string>>)
    requires Growing(snapshots) && 1 <= s.limit
    requires IsGrowingWalk(s, snapshots, cs) && 1 < |cs|
    ensures Growing(snapshots[1..]) && IsGrowingWalk(s, snapshots[1..], cs[1..])
  {
    hide Page, Next, Pending, IndexOf;
    PageStep(s, snapshots[0], cs[0]);
    IndexSurvivesGrowth(snapshots[0], snapshots[1], cs[1].value);
  }

  /** An ascending walk over a growing journal has at every point returned a prefix of the plain
      filter of the journal as of its last page, and when it ends it has returned all of it. In
      particular no row present at the start is skipped. */
  lemma {:induction false} AscendingWalkFollowsGrowth(s: Scan, snapshots: seq<seq<Entry>>, cs: seq<Option<string>>)
    requires s.order.Asc? && Growing(snapshots) && 1 <= s.limit
    requires IsGrowingWalk(s, snapshots, cs)
    ensures var last := snapshots[|cs| - 1];
            var all := Map(s.row, Pending(s, last, cs[0]));
            && GrowingRows(s, snapshots, cs) <= all
            && (Next(s, last, cs[|cs| - 1]) == None ==> GrowingRows(s, snapshots, cs) == all)
            && Pending(s, snapshots[0], cs[0]) <= Pending(s, last, cs[0])
    decreases |cs|
  {
    GrowingWalkFacts(s, snapshots, cs);
    GrowingRowsStep(s, snapshots, cs);
    hide Pending, PageRows, Next, IndexOf, Growing, IsGrowingWalk, Map, GrowingRows, DistinctCursors;
    AscendingRestGrows(s, snapshots[0], snapshots[|cs| - 1], cs[0]);
    if 1 < |cs| {
      GrowingTail(s, snapshots, cs);
      AscendingWalkFollowsGrowth(s, snapshots[1..], cs[1..]);
      AscendingPageExtends(s, snapshots[0], snapshots[|cs| - 1], cs[0], GrowingRows(s, snapshots[1..], cs[1..]));
    } else {
      LastPageEnds(s, snapshots[0], cs[0]);
    }
  }

  /** A page read from an earlier snapshot, followed by rows the journal of `last` has behind its next
      cursor, are rows the journal of `last` has behind the page's own cursor. */
  lemma AscendingPageExtends(
    s: Scan, first: seq<Entry>, last: seq<Entry>, cursor: Option<string>, rest: seq<JournalLogEntry>)
    requires s.order.Asc? && 1 <= s.limit && first <= last && DistinctCursors(first) && DistinctCursors(last)
    requires cursor.Some? ==> IndexOf(first, cursor.value).Some?
    requires Next(s, first, cursor).Some?
    requires rest <= Map(s.row, Pending(s, last, Next(s, first, cursor)))
    ensures var all := Map(s.row, Pending(s, last, cursor));
            && PageRows(s, first, cursor) + rest <= all
            && (rest == Map(s.row, Pending(s, last, Next(s, first, cursor))) ==>
                  PageRows(s, first, cursor) + rest == all)
  {
    hide Pending, IndexOf, Map, Take, DistinctCursors;
    var now, all := Pending(s, first, cursor), Pending(s, last, cursor);
    AscendingRestGrows(s, first, last, cursor);
    assert all[s.limit - 1] == now[s.limit - 1];
    ContinuationIsExclusive(s, last, cursor, s.limit - 1);
    RowsExtend(s.row, now, all, s.limit, rest);
  }

  lemma LastPageEnds(s: Scan, entries: seq<Entry>, cursor: Option<string>)
    requires 1 <= s.limit
    ensures var all := Map(s.row, Pending(s, entries, cursor));
            && PageRows(s, entries, cursor) + [] <= all
            && (Next(s, entries, cursor) == None ==> PageRows(s, entries, cursor) + [] == all)
  {
    hide Pending, Map, Take;
    FirstRowsArePrefix(s.row, Pending(s, entries, cursor), s.limit);
  }

  /** Rows of a page followed by a prefix of the rows behind it are a prefix of all rows. */
  lemma RowsExtend<T, U>(f: T -> U, now: seq<T>, all: seq<T>, limit: nat, rest: seq<U>)
    requires limit <= |now| && now <= all && rest <= Map(f, all[limit..])
    ensures Map(f, Take(now, limit)) + rest <= Map(f, all)
    ensures rest == Map(f, all[limit..]) ==> Map(f, Take(now, limit)) + rest == Map(f, all)
  {
    assert Take(now, limit) == Take(all, limit);
    MapSplit(f, all, limit);
  }

  lemma FirstRowsArePrefix<T, U>(f: T -> U, all: seq<T>, limit: nat)
    ensures Map(f, Take(all, limit)) <= Map(f, all)
    ensures |all| <= limit ==> Take(all, limit) == all
    ensures Map(f, Take(all, limit)) + [] == Map(f, Take(all, limit))
  {
  }

  lemma GrowingWalkFacts(s: Scan, snapshots: seq<seq<Entry>>, cs: seq<Option<string>>)
    requires Growing(snapshots) && IsGrowingWalk(s, snapshots, cs)
    ensures 0 < |cs| <= |snapshots|
    ensures snapshots[0] <= snapshots[|cs| - 1]
    ensures DistinctCursors(snapshots[0]) && DistinctCursors(snapshots[|cs| - 1])
    ensures cs[0].Some? ==> IndexOf(snapshots[0], cs[0].value).Some?
    ensures 1 < |cs| ==> cs[1].Some? && cs[1] == Next(s, snapshots[0], cs[0])
  {
    hide Next, IndexOf;
  }

  lemma GrowingRowsStep(s: Scan, snapshots: seq<seq<Entry>>, cs: seq<Option<string>>)
    requires 0 < |cs| <= |snapshots|
    ensures var tail := GrowingRows(s, snapshots[1..], cs[1..]);
            && GrowingRows(s, snapshots, cs) == PageRows(s, snapshots[0], cs[0]) + tail
            && (|cs| == 1 ==> tail == [])
  {
    hide PageRows;
  }

  /** The scan depends only on what lies ahead of it. */
  lemma {:induction false} ScanLooksAhead(s: Scan, v: seq<Entry>, p: nat, v': seq<Entry>, p': nat, need: nat)
    requires p <= |v| && p' <= |v'| && v[p..] == v'[p'..]
    ensures ScanStop(s, v, p, need) - p == ScanStop(s, v', p', need) - p'
    decreases |v| - p
  {
    if need != 0 && p < |v| {
      assert v[p] == v[p..][0] == v'[p'..][0] == v'[p'];
      assert v[p + 1..] == v[p..][1..] == v'[p'..][1..] == v'[p' + 1..];
      ScanLooksAhead(s, v, p + 1, v', p' + 1, if s.Matches(v[p]) then need - 1 else need);
    }
  }

  /** Behind a cursor a descending page does not see newer entries at all. */
  lemma DescendingPageIgnoresGrowth(s: Scan, before: seq<Entry>, after: seq<Entry>, cursor: string)
    requires s.order.Desc? && before <= after && DistinctCursors(after)
    requires IndexOf(before, cursor).Some?
    ensures Pending(s, after, Some(cursor)) == Pending(s, before, Some(cursor))
    ensures Page(s, after, Some(cursor)) == Page(s, before, Some(cursor))
  {
    hide Filter, IndexOf, ScanStop;
    IndexSurvivesGrowth(before, after, cursor);
    var i := IndexOf(before, cursor).value;
    var v, v' := View(Desc, before), View(Desc, after);
    assert v[|before| - i..] == v'[|after| - i..];
    ScanLooksAhead(s, v, |before| - i, v', |after| - i, s.limit + 1);
  }

  /** A descending walk over ever newer snapshots returns page for page the rows a walk over the
      first one returns, and is such a walk when it ends. */
  lemma {:induction false} DescendingWalkIgnoresGrowth(
    s: Scan, start: seq<Entry>, snapshots: seq<seq<Entry>>, cs: seq<Option<string>>)
    requires s.order.Desc? && 1 <= s.limit && DistinctCursors(start)
    requires FollowsCursors(s, snapshots, cs)
    requires forall later <- snapshots :: start <= later && DistinctCursors(later)
    requires Pending(s, snapshots[0], cs[0]) == Pending(s, start, cs[0])
    ensures GrowingRows(s, snapshots, cs) == WalkRows(s, start, cs)
    ensures Next(s, snapshots[|cs| - 1], cs[|cs| - 1]) == None ==> IsWalk(s, start, cs)
    decreases |cs|
  {
    hide Pending, IndexOf, DistinctCursors;
    if 1 < |cs| {
      PageStep(s, start, cs[0]);
      assert snapshots[1] in snapshots;
      assert forall later <- snapshots[1..] :: later in snapshots;
      DescendingPageIgnoresGrowth(s, start, snapshots[1], cs[1].value);
      DescendingWalkIgnoresGrowth(s, start, snapshots[1..], cs[1..]);
    } else {
      assert cs[1..] == [];
    }
  }

  /** Page rows followed by a prefix of the rows behind them are a prefix of all rows. */
  lemma DescendingRowsExtend(s: Scan, start: seq<Entry>, cursor: Option<string>, rest: seq<JournalLogEntry>)
    requires DistinctCursors(start) && 1 <= s.limit && Next(s, start, cursor).Some?
    requires rest <= Map(s.row, Pending(s, start, Next(s, start, cursor)))
    ensures PageRows(s, start, cursor) + rest <= Map(s.row, Pending(s, start, cursor))
  {
    hide Pending, Map, Take, DistinctCursors;
    PageStep(s, start, cursor);
    RowsExtend(s.row, Pending(s, start, cursor), Pending(s, start, cursor), s.limit, rest);
  }

  /** However far it got, following cursors has returned a prefix of the rows behind the first one. */
  lemma {:induction false} FollowedRowsArePrefix(
    s: Scan, start: seq<Entry>, snapshots: seq<seq<Entry>>, cs: seq<Option<string>>)
    requires s.order.Desc? && 1 <= s.limit && DistinctCursors(start)
    requires FollowsCursors(s, snapshots, cs)
    requires forall later <- snapshots :: start <= later && DistinctCursors(later)
    requires Pending(s, snapshots[0], cs[0]) == Pending(s, start, cs[0])
    ensures GrowingRows(s, snapshots, cs) <= Map(s.row, Pending(s, start, cs[0]))
    decreases |cs|
  {
    hide Pending, IndexOf, DistinctCursors, Map, Take;
    if 1 < |cs| {
      PageStep(s, start, cs[0]);
      assert snapshots[1] in snapshots;
      assert forall later <- snapshots[1..] :: later in snapshots;
      DescendingPageIgnoresGrowth(s, start, snapshots[1], cs[1].value);
      FollowedRowsArePrefix(s, start, snapshots[1..], cs[1..]);
      DescendingRowsExtend(s, start, cs[0], GrowingRows(s, snapshots[1..], cs[1..]));
    } else {
      assert cs[1..] == [];
      LastPageEnds(s, start, cs[0]);
    }
  }

  /** A descending walk over a growing journal has at every point returned a prefix of the rows that
      were there when it started, and when it ends it has returned exactly those. */
  lemma DescendingWalkIsSnapshot(s: Scan, snapshots: seq<seq<Entry>>, cs: seq<Option<string>>)
    requires s.order.Desc? && Growing(snapshots) && 1 <= s.limit
    requires IsGrowingWalk(s, snapshots, cs)
    ensures var all := Map(s.row, Pending(s, snapshots[0], cs[0]));
            && GrowingRows(s, snapshots, cs) <= all
            && (Next(s, snapshots[|cs| - 1], cs[|cs| - 1]) == None ==> GrowingRows(s, snapshots, cs) == all)
  {
    hide Next, Pending, IndexOf, GrowingRows, WalkRows;
    FollowedRowsArePrefix(s, snapshots[0], snapshots, cs);
    if Next(s, snapshots[|cs| - 1], cs[|cs| - 1]) == None {
      DescendingWalkIgnoresGrowth(s, snapshots[0], snapshots, cs);
      WalkIsPlainFilter(s, snapshots[0], cs);
    }
  }

  /** No walk over a growing journal, finished or not, in either order, returns a row twice. */
  lemma NoRowTwice(s: Scan, snapshots: seq<seq<Entry>>, cs: seq<Option<string>>)
    requires Growing(snapshots) && 1 <= s.limit && s.RowsCarryCursors()
    requires IsGrowingWalk(s, snapshots, cs)
    ensures var rows := GrowingRows(s, snapshots, cs);
            forall i, j :: 0 <= i < j < |rows| ==> rows[i].cursor != rows[j].cursor
  {
    GrowingWalkFacts(s, snapshots, cs);
    hide Next, Pending, IndexOf, GrowingRows, Growing, IsGrowingWalk, DistinctCursors, Map;
    if s.order.Asc? {
      AscendingWalkFollowsGrowth(s, snapshots, cs);
      PendingCursorsDiffer(s, snapshots[|cs| - 1], cs[0]);
    } else {
      DescendingWalkIsSnapshot(s, snapshots, cs);
      PendingCursorsDiffer(s, snapshots[0], cs[0]);
    }
  }

  lemma PendingCursorsDiffer(s: Scan, entries: seq<Entry>, cursor: Option<string>)
    requires DistinctCursors(entries) && s.RowsCarryCursors()
    ensures var rows := Map(s.row, Pending(s, entries, cursor));
            forall i, j :: 0 <= i < j < |rows| ==> rows[i].cursor != rows[j].cursor
  {
    hide Rest, Filter;
    RestIsDistinct(s.order, entries, cursor);
    FilterKeepsDistinct(s.Matching(), Rest(s.order, entries, cursor));
  }

  lemma RestIsDistinct(order: LogOrder, entries: seq<Entry>, cursor: Option<string>)
    requires DistinctCursors(entries)
    ensures DistinctCursors(Rest(order, entries, cursor))
  {
    hide IndexOf;
  }

  lemma {:induction false} FilterKeepsDistinct(p: Entry -> bool, t: seq<Entry>)
    requires DistinctCursors(t)
    ensures DistinctCursors(Filter(p, t))
  {
    if t != [] {
      FilterKeepsDistinct(p, t[1..]);
      FilterMembers(p, t[1..]);
      forall e | e in Filter(p, t[1..]) ensures e.cursor != t[0].cursor {
        assert e in t[1..];
      }
    }
  }
}
