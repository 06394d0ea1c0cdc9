/** `build_log_summary` (src/domain/tools/logs.rs): counting into hash maps, ranking and cutting. */
module LogSummary {
  import opened Prelude
  import opened Text
  import opened StableSorting
  import opened Tally
  import opened Journal
  import opened LogReader

  datatype LogSummary = LogSummary(
    countsByUnit: map<string, nat>,
    countsByPriority: map<string, nat>,
    topMessages: seq<Count>,
    errorHotspots: seq<Count>)

  // ----- Counting -----

  /** What one entry contributes to each of the four tallies. */
  function UnitOf(e: JournalLogEntry): Option<string> {
    e.unit
  }

  function PriorityOf(e: JournalLogEntry): Option<string> {
    Some(if e.priority.Some? then e.priority.value else "unknown")
  }

  function MessageOf(e: JournalLogEntry): Option<string> {
    e.message
  }

  predicate IsError(e: JournalLogEntry) {
    var priority := ParsedPriority(e.priority);
    priority.Some? && priority.value <= 3
  }

  function HotspotOf(e: JournalLogEntry): Option<string> {
    if IsError(e) then e.unit else None
  }

  // ----- Ranking -----

  /** Higher counts first, names ascending among equal counts. */
  predicate Ranks(a: Count, b: Count) {
    b.count < a.count || (a.count == b.count && !Compare(a.name, b.name).Greater?)
  }

  function RankOrder(): (Count, Count) -> bool {
    (a: Count, b: Count) => Ranks(a, b)
  }

  lemma RankOrderIsTotal()
    ensures TotalPreorder(RankOrder())
    ensures forall a, b :: Ranks(a, b) || Ranks(b, a)
    ensures forall a, b :: Ranks(a, b) && Ranks(b, a) ==> a == b
  {
    hide Compare;
    CompareIsTotalOrder();
  }

  /** `rows` are the best `k` entries of `m`, in rank order. */
  ghost predicate IsTop(m: map<string, nat>, k: nat, rows: seq<Count>) {
    && |rows| == Min(k, |m|)
    && (forall r :: r in rows ==> r.name in m && r.count == m[r.name])
    && (forall i, j :: 0 <= i < j < |rows| ==> rows[i].name != rows[j].name && Ranks(rows[i], rows[j]))
    && (forall name, r :: name in m && Count(name, m[name]) !in rows && r in rows ==> Ranks(r, Count(name, m[name])))
  }

  /** Sorting any enumeration by rank and cutting it gives the best `k` entries. */
  lemma SortedEnumerationIsTop(m: map<string, nat>, rows: seq<Count>, k: nat)
    requires IsEnumeration(m, rows) && |rows| == |m|
    ensures IsTop(m, k, Take(StableSort(RankOrder(), rows), k))
  {
    hide Compare, Ranks, StableSort, Ties;
    var sorted := StableSort(RankOrder(), rows);
    RankOrderIsTotal();
    SortIsStable(RankOrder(), rows);
    SameElements(rows, sorted);
    DistinctNames(rows, sorted);
    var top := Take(sorted, k);
    forall r | r in top ensures r in sorted {
    }
    forall name, r | name in m && Count(name, m[name]) !in top && r in top
      ensures Ranks(r, Count(name, m[name]))
    {
      assert Count(name, m[name]) in sorted;
      var i :| 0 <= i < |sorted| && sorted[i] == Count(name, m[name]);
      var j :| 0 <= j < |top| && top[j] == r;
      PrefixContains(sorted, k);
      assert RankOrder()(sorted[j], sorted[i]);
      RankOrderApplied(r, Count(name, m[name]));
    }
    forall i, j | 0 <= i < j < |top| ensures Ranks(top[i], top[j]) {
      assert RankOrder()(sorted[i], sorted[j]);
      RankOrderApplied(sorted[i], sorted[j]);
    }
  }

  lemma PrefixContains<T>(t: seq<T>, k: nat)
    ensures forall i :: 0 <= i < |Take(t, k)| ==> t[i] in Take(t, k)
  {
    forall i | 0 <= i < |Take(t, k)| ensures t[i] in Take(t, k) {
      assert Take(t, k)[i] == t[i];
    }
  }

  lemma RankOrderApplied(a: Count, b: Count)
    ensures RankOrder()(a, b) == Ranks(a, b)
  {
  }

  lemma SameElements<T>(a: seq<T>, b: seq<T>)
    requires multiset(a) == multiset(b)
    ensures forall x :: x in a <==> x in b
  {
    forall x ensures x in a <==> x in b {
      assert x in a <==> x in multiset(a);
      assert x in b <==> x in multiset(b);
    }
  }

  /** A permutation of distinct names has distinct names. */
  lemma DistinctNames(a: seq<Count>, b: seq<Count>)
    requires multiset(a) == multiset(b)
    requires forall i, j :: 0 <= i < j < |a| ==> a[i].name != a[j].name
    ensures forall i, j :: 0 <= i < j < |b| ==> b[i].name != b[j].name
  {
    SameElements(a, b);
    forall i, j | 0 <= i < j < |b| ensures b[i].name != b[j].name {
      if b[i].name == b[j].name {
        assert b[i] in a && b[j] in a;
        assert b[i] == b[j];
        assert b == b[..j] + [b[j]] + b[j + 1..];
        assert b[..j][i] == b[i];
        assert 2 <= multiset(b)[b[i]];
        OnceIfDistinct(a, b[i]);
        assert false;
      }
    }
  }

  lemma {:induction false} OnceIfDistinct(a: seq<Count>, x: Count)
    requires forall i, j :: 0 <= i < j < |a| ==> a[i].name != a[j].name
    ensures multiset(a)[x] <= 1
  {
    if a != [] {
      assert a == [a[0]] + a[1..];
      OnceIfDistinct(a[1..], x);
      if a[0] == x {
        assert x !in a[1..];
      }
    }
  }

  /** The best `k` entries are determined by the map. */
  lemma TopIsUnique(m: map<string, nat>, k: nat, a: seq<Count>, b: seq<Count>)
    requires IsTop(m, k, a) && IsTop(m, k, b)
    ensures a == b
  {
    hide Compare, Ranks;
    RankOrderIsTotal();
    forall n | 0 <= n <= |a| ensures a[..n] == b[..n] {
      TopsAgree(m, k, a, b, n);
    }
    assert a[..|a|] == a && b[..|a|] == b;
  }

  lemma {:induction false} TopsAgree(m: map<string, nat>, k: nat, a: seq<Count>, b: seq<Count>, n: nat)
    requires IsTop(m, k, a) && IsTop(m, k, b) && n <= |a|
    ensures a[..n] == b[..n]
  {
    if 0 < n {
      hide Compare, Ranks;
      RankOrderIsTotal();
      TopsAgree(m, k, a, b, n - 1);
      NoWorse(m, k, a, b, n - 1);
      NoWorse(m, k, b, a, n - 1);
    }
  }

  lemma PrefixAgrees<T>(a: seq<T>, b: seq<T>, n: nat)
    requires n <= |a| && n <= |b| && a[..n] == b[..n]
    ensures forall j :: 0 <= j < n ==> a[j] == b[j]
  {
    forall j | 0 <= j < n ensures a[j] == b[j] {
      assert a[..n][j] == b[..n][j];
    }
  }

  /** When two rankings agree up to `n`, the next row of the first ranks no later than the second's. */
  lemma NoWorse(m: map<string, nat>, k: nat, a: seq<Count>, b: seq<Count>, n: nat)
    requires IsTop(m, k, a) && IsTop(m, k, b) && n < |a| && a[..n] == b[..n]
    ensures Ranks(a[n], b[n])
  {
    hide Compare;
    RankOrderIsTotal();
    var y := b[n];
    assert y in b;
    assert Count(y.name, m[y.name]) == y;
    if y in a {
      var j :| 0 <= j < |a| && a[j] == y;
      PrefixAgrees(a, b, n);
    } else {
      assert a[n] in a;
    }
  }

  // ----- The summary -----

  /** The summary a page determines. */
  ghost predicate IsSummary(entries: seq<JournalLogEntry>, s: LogSummary) {
    exists units, messages, hotspots, topUnits ::
      && IsTally(UnitOf, entries, units)
      && IsTop(units, 10, topUnits)
      && s.countsByUnit == AsMap(topUnits)
      && IsTally(PriorityOf, entries, s.countsByPriority)
      && IsTally(MessageOf, entries, messages)
      && IsTop(messages, 10, s.topMessages)
      && IsTally(HotspotOf, entries, hotspots)
      && IsTop(hotspots, |hotspots|, s.errorHotspots)
  }

  /** `BTreeMap::from_iter`; the rows have distinct names. */
  function AsMap(rows: seq<Count>): map<string, nat> {
    if rows == [] then map[] else AsMap(rows[..|rows| - 1])[rows[|rows| - 1].name := rows[|rows| - 1].count]
  }

  /** Collecting ranked rows into a map keeps each of them and adds nothing. */
  lemma {:induction false} AsMapHoldsRows(rows: seq<Count>)
    requires forall i, j :: 0 <= i < j < |rows| ==> rows[i].name != rows[j].name
    ensures IsEnumeration(AsMap(rows), rows)
  {
    if rows != [] {
      var n := |rows| - 1;
      AsMapHoldsRows(rows[..n]);
      assert rows == rows[..n] + [rows[n]];
      assert forall r :: r in rows[..n] ==> exists i :: 0 <= i < n && rows[i] == r;
    }
  }

  method Rank(m: map<string, nat>, k: nat) returns (top: seq<Count>)
    ensures IsTop(m, k, top)
  {
    var rows := Collect(m);
    SortedEnumerationIsTop(m, rows, k);
    top := Take(StableSort(RankOrder(), rows), k);
  }

  /** One pass over the page fills four hash maps; each is then drained in arbitrary order, sorted by
      rank and cut. */
  method BuildLogSummary(entries: seq<JournalLogEntry>) returns (s: LogSummary)
    ensures IsSummary(entries, s)
  {
    hide Occurrences, Ranks, ParsedPriority, IsTop;
    var units, priorities, messages, hotspots: map<string, nat> := map[], map[], map[], map[];
    EmptyTally(UnitOf);
    EmptyTally(PriorityOf);
    EmptyTally(MessageOf);
    EmptyTally(HotspotOf);
    for n := 0 to |entries|
      invariant IsTally(UnitOf, entries[..n], units)
      invariant IsTally(PriorityOf, entries[..n], priorities)
      invariant IsTally(MessageOf, entries[..n], messages)
      invariant IsTally(HotspotOf, entries[..n], hotspots)
    {
      var e := entries[n];
      assert entries[..n + 1] == entries[..n] + [e];
      BumpTallies(UnitOf, entries[..n], e, units);
      BumpTallies(PriorityOf, entries[..n], e, priorities);
      BumpTallies(MessageOf, entries[..n], e, messages);
      BumpTallies(HotspotOf, entries[..n], e, hotspots);
      units := Bump(units, e.unit);
      priorities := Bump(priorities, PriorityOf(e));
      messages := Bump(messages, e.message);
      if IsError(e) {
        hotspots := Bump(hotspots, e.unit);
      }
    }
    assert entries[..|entries|] == entries;
    var topUnits := Rank(units, 10);
    var topMessages := Rank(messages, 10);
    var errorHotspots := Rank(hotspots, |hotspots|);
    s := LogSummary(AsMap(topUnits), priorities, topMessages, errorHotspots);
  }

  /** Two summaries of the same page are equal, whatever order the hash maps iterated in. */
  lemma SummaryIsDeterministic(entries: seq<JournalLogEntry>, s: LogSummary, t: LogSummary)
    requires IsSummary(entries, s) && IsSummary(entries, t)
    ensures s == t
  {
    hide Occurrences, Ranks, ParsedPriority, IsTop, AsMap, IsTally;
    var u1, m1, h1, t1 :|
      && IsTally(UnitOf, entries, u1) && IsTop(u1, 10, t1) && s.countsByUnit == AsMap(t1)
      && IsTally(PriorityOf, entries, s.countsByPriority)
      && IsTally(MessageOf, entries, m1) && IsTop(m1, 10, s.topMessages)
      && IsTally(HotspotOf, entries, h1) && IsTop(h1, |h1|, s.errorHotspots);
    var u2, m2, h2, t2 :|
      && IsTally(UnitOf, entries, u2) && IsTop(u2, 10, t2) && t.countsByUnit == AsMap(t2)
      && IsTally(PriorityOf, entries, t.countsByPriority)
      && IsTally(MessageOf, entries, m2) && IsTop(m2, 10, t.topMessages)
      && IsTally(HotspotOf, entries, h2) && IsTop(h2, |h2|, t.errorHotspots);
    TallyIsUnique(UnitOf, entries, u1, u2);
    TallyIsUnique(PriorityOf, entries, s.countsByPriority, t.countsByPriority);
    TallyIsUnique(MessageOf, entries, m1, m2);
    TallyIsUnique(HotspotOf, entries, h1, h2);
    TopIsUnique(u1, 10, t1, t2);
    TopIsUnique(m1, 10, s.topMessages, t.topMessages);
    TopIsUnique(h1, |h1|, s.errorHotspots, t.errorHotspots);
  }

  // ----- What the counts add up to -----

  /** Ranking a whole map lists all of it. */
  lemma FullTopIsEnumeration(m: map<string, nat>, rows: seq<Count>)
    requires IsTop(m, |m|, rows)
    ensures IsEnumeration(m, rows)
  {
    hide Ranks;
    var names := set i | 0 <= i < |rows| :: rows[i].name;
    DistinctNamesCount(rows);
    assert names <= m.Keys;
    SubsetOfSameSize(names, m.Keys);
    forall r: Count | r.name in m && r.count == m[r.name] ensures r in rows {
      assert r.name in names;
      var i :| 0 <= i < |rows| && rows[i].name == r.name;
      assert rows[i] in rows;
    }
  }

  lemma {:induction false} DistinctNamesCount(rows: seq<Count>)
    requires forall i, j :: 0 <= i < j < |rows| ==> rows[i].name != rows[j].name
    ensures |set i | 0 <= i < |rows| :: rows[i].name| == |rows|
  {
    if rows != [] {
      var n := |rows| - 1;
      DistinctNamesCount(rows[..n]);
      assert (set i | 0 <= i < |rows| :: rows[i].name) == (set i | 0 <= i < n :: rows[..n][i].name) + {rows[n].name};
    }
  }

  lemma SubsetOfSameSize<T>(a: set<T>, b: set<T>)
    requires a <= b && |a| == |b|
    ensures a == b
  {
    assert |b - a| == 0;
  }

  /** Priority counts add up to the number of entries, hotspot counts to the number of entries with a
      unit and a priority of at most 3. */
  lemma SummaryAddsUp(entries: seq<JournalLogEntry>, s: LogSummary, priorities: seq<Count>)
    requires IsSummary(entries, s) && IsEnumeration(s.countsByPriority, priorities)
    ensures SumOf(CountOf, priorities) == |entries|
    ensures SumOf(CountOf, s.errorHotspots) == Contributing(HotspotOf, entries)
  {
    hide IsTop, IsTally, IsEnumeration, AsMap, Occurrences;
    TallyAddsUp(PriorityOf, entries, s.countsByPriority, priorities);
    EveryEntryHasPriority(entries);
    var units, messages, hotspots, topUnits :|
      && IsTally(UnitOf, entries, units) && IsTop(units, 10, topUnits) && s.countsByUnit == AsMap(topUnits)
      && IsTally(PriorityOf, entries, s.countsByPriority)
      && IsTally(MessageOf, entries, messages) && IsTop(messages, 10, s.topMessages)
      && IsTally(HotspotOf, entries, hotspots) && IsTop(hotspots, |hotspots|, s.errorHotspots);
    FullTopIsEnumeration(hotspots, s.errorHotspots);
    TallyAddsUp(HotspotOf, entries, hotspots, s.errorHotspots);
  }

  lemma {:induction false} EveryEntryHasPriority(entries: seq<JournalLogEntry>)
    ensures Contributing(PriorityOf, entries) == |entries|
  {
    if entries != [] {
      EveryEntryHasPriority(entries[..|entries| - 1]);
    }
  }

  /** The summary parses the priority text that the reader wrote: a row is an error exactly when its
      journal entry has a priority of at most 3. */
  lemma RowPriorityRoundTrip(f: Filters, e: Entry)
    ensures ParsedPriority(f.Row(e).priority) == ParsedPriority(e.priority)
    ensures IsError(f.Row(e)) <==> ParsedPriority(e.priority).Some? && ParsedPriority(e.priority).value <= 3
  {
    hide ParseU8, Decimal;
    var priority := ParsedPriority(e.priority);
    if priority.Some? {
      ParsedPriorityIsByte(e.priority);
      ParseOfDecimal(priority.value);
    }
  }

  lemma ParsedPriorityIsByte(field: Option<string>)
    ensures ParsedPriority(field).Some? ==> ParsedPriority(field).value <= 255
  {
  }

  // ----- What a summary shows -----

  /** Listed before: more entries, or as many and an earlier name. */
  predicate ListedInOrder(rows: seq<Count>) {
    forall i, j :: 0 <= i < j < |rows| ==>
      || rows[j].count < rows[i].count
      || (rows[j].count == rows[i].count && Compare(rows[i].name, rows[j].name).Less?)
  }

  lemma TopIsListedInOrder(m: map<string, nat>, k: nat, rows: seq<Count>)
    requires IsTop(m, k, rows)
    ensures ListedInOrder(rows)
  {
    hide Compare;
    forall i, j | 0 <= i < j < |rows| && rows[i].count == rows[j].count
      ensures Compare(rows[i].name, rows[j].name).Less?
    {
      assert Ranks(rows[i], rows[j]) && rows[i].name != rows[j].name;
      CompareFlips(rows[i].name, rows[j].name);
    }
  }

  /** What is cut off counts no more than anything kept, and something is cut off only when `k` names
      are kept. */
  lemma TopKeepsMostFrequent(m: map<string, nat>, k: nat, rows: seq<Count>, name: string)
    requires IsTop(m, k, rows) && name in m && (forall r <- rows :: r.name != name)
    ensures |rows| == k && forall r <- rows :: m[name] <= r.count
  {
    hide Compare;
    assert Count(name, m[name]) !in rows;
    if |rows| == |m| {
      FullTopIsEnumeration(m, rows);
      assert false;
    }
  }

  /** What it is for an entry to have a message, a unit, a priority, or an error in a unit. */
  function HasMessage(message: string): JournalLogEntry -> bool {
    (e: JournalLogEntry) => e.message == Some(message)
  }

  function HasUnit(unit: string): JournalLogEntry -> bool {
    (e: JournalLogEntry) => e.unit == Some(unit)
  }

  function HasPriority(priority: string): JournalLogEntry -> bool {
    (e: JournalLogEntry) => e.priority == Some(priority) || (e.priority == None && priority == "unknown")
  }

  function HasErrorIn(unit: string): JournalLogEntry -> bool {
    (e: JournalLogEntry) =>
      && e.unit == Some(unit) && e.priority.Some?
      && ParseU8(e.priority.value).Some? && ParseU8(e.priority.value).value <= 3
  }

  /** The names are listed with their numbers of entries, most frequent first; a name is left out only
      when `k` at least as frequent ones are listed. */
  ghost predicate ShowsMostFrequent(
    rows: seq<Count>, k: nat, entries: seq<JournalLogEntry>, has: string -> JournalLogEntry -> bool)
  {
    && ListedInOrder(rows)
    && (forall r <- rows :: 0 < r.count == |Filter(has(r.name), entries)|)
    && (forall name: string :: 0 < |Filter(has(name), entries)| && (forall r <- rows :: r.name != name) ==>
          |rows| == k && forall r <- rows :: |Filter(has(name), entries)| <= r.count)
  }

  lemma TallyShows(
    f: JournalLogEntry -> Option<string>, has: string -> JournalLogEntry -> bool,
    entries: seq<JournalLogEntry>, m: map<string, nat>)
    requires IsTally(f, entries, m)
    requires forall e, name :: has(name)(e) <==> f(e) == Some(name)
    ensures forall name: string :: name in m <==> 0 < |Filter(has(name), entries)|
    ensures forall name: string :: name in m ==> m[name] == |Filter(has(name), entries)|
  {
    hide Occurrences, Filter;
    forall name: string ensures Occurrences(f, entries, name) == |Filter(has(name), entries)| {
      OccurrencesCount(f, entries, name, has(name));
    }
  }

  lemma TopShowsMostFrequent(
    f: JournalLogEntry -> Option<string>, has: string -> JournalLogEntry -> bool,
    entries: seq<JournalLogEntry>, m: map<string, nat>, k: nat, rows: seq<Count>)
    requires IsTally(f, entries, m) && IsTop(m, k, rows)
    requires forall e, name :: has(name)(e) <==> f(e) == Some(name)
    ensures ShowsMostFrequent(rows, k, entries, has)
  {
    hide Filter, IsTally, ListedInOrder;
    TallyShows(f, has, entries, m);
    TopIsListedInOrder(m, k, rows);
    forall name: string | 0 < |Filter(has(name), entries)| && (forall r <- rows :: r.name != name)
      ensures |rows| == k && forall r <- rows :: |Filter(has(name), entries)| <= r.count
    {
      TopKeepsMostFrequent(m, k, rows, name);
    }
  }

  /** Read off the entries: at most ten messages and ten units, the most frequent ones, all units with
      errors, and all priorities, each with its number of entries; the lists run from the most frequent
      down, names ascending among equals. */
  lemma SummaryShowsEntries(entries: seq<JournalLogEntry>, s: LogSummary)
    requires IsSummary(entries, s)
    ensures |s.topMessages| <= 10 && ShowsMostFrequent(s.topMessages, 10, entries, HasMessage)
    ensures ListedInOrder(s.errorHotspots)
    ensures forall r :: r in s.errorHotspots <==> 0 < r.count == |Filter(HasErrorIn(r.name), entries)|
    ensures exists rows ::
              |rows| <= 10 && ShowsMostFrequent(rows, 10, entries, HasUnit) && IsEnumeration(s.countsByUnit, rows)
    ensures forall p: string :: p in s.countsByPriority <==> 0 < |Filter(HasPriority(p), entries)|
    ensures forall p :: p in s.countsByPriority ==> s.countsByPriority[p] == |Filter(HasPriority(p), entries)|
  {
    hide Filter, IsTop, AsMap, IsTally, ListedInOrder, ShowsMostFrequent, ParseU8;
    var units, messages, hotspots, topUnits :|
      && IsTally(UnitOf, entries, units) && IsTop(units, 10, topUnits) && s.countsByUnit == AsMap(topUnits)
      && IsTally(PriorityOf, entries, s.countsByPriority)
      && IsTally(MessageOf, entries, messages) && IsTop(messages, 10, s.topMessages)
      && IsTally(HotspotOf, entries, hotspots) && IsTop(hotspots, |hotspots|, s.errorHotspots);
    TallyShows(PriorityOf, HasPriority, entries, s.countsByPriority);
    TopShowsMostFrequent(MessageOf, HasMessage, entries, messages, 10, s.topMessages);
    TopShowsMostFrequent(UnitOf, HasUnit, entries, units, 10, topUnits);
    TallyShows(HotspotOf, HasErrorIn, entries, hotspots);
    TopIsListedInOrder(hotspots, |hotspots|, s.errorHotspots);
    FullTopIsEnumeration(hotspots, s.errorHotspots);
    TopIsShort(messages, 10, s.topMessages);
    TopIsShort(units, 10, topUnits);
    AsMapHoldsRows(topUnits);
  }

  lemma TopIsShort(m: map<string, nat>, k: nat, rows: seq<Count>)
    requires IsTop(m, k, rows)
    ensures |rows| <= k
    ensures forall i, j :: 0 <= i < j < |rows| ==> rows[i].name != rows[j].name
  {
  }
}
