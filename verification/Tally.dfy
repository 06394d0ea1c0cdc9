/** Counting names into maps: what a tally is, that it is determined by its input, and what its counts
    add up to. */
module Tally {
  import opened Prelude

  datatype Count = Count(name: string, count: nat)

  /** How many entries contribute `name`. */
  function Occurrences<T>(f: T -> Option<string>, entries: seq<T>, name: string): nat {
    if entries == [] then 0
    else
      Occurrences(f, entries[..|entries| - 1], name)
      + if f(entries[|entries| - 1]) == Some(name) then 1 else 0
  }

  /** That is the number of entries with any property that says the same. */
  lemma {:induction false} OccurrencesCount<T>(
    f: T -> Option<string>, entries: seq<T>, name: string, named: T -> bool)
    requires forall e <- entries :: named(e) <==> f(e) == Some(name)
    ensures Occurrences(f, entries, name) == |Filter(named, entries)|
  {
    if entries != [] {
      var n := |entries| - 1;
      assert entries[n] in entries && forall e <- entries[..n] :: e in entries;
      OccurrencesCount(f, entries[..n], name, named);
      assert entries[..n + 1] == entries;
      FilterStep(named, entries, n);
    }
  }

  /** `m` tallies `entries`: a name is present exactly when it occurs, with its number of occurrences. */
  ghost predicate IsTally<T>(f: T -> Option<string>, entries: seq<T>, m: map<string, nat>) {
    && (forall name :: name in m <==> 0 < Occurrences(f, entries, name))
    && (forall name :: name in m ==> m[name] == Occurrences(f, entries, name))
  }

  /** `*map.entry(name).or_insert(0) += 1`, when there is a name. */
  function Bump(m: map<string, nat>, name: Option<string>): map<string, nat> {
    if name.None? then m
    else m[name.value := 1 + if name.value in m then m[name.value] else 0]
  }

  lemma EmptyTally<T>(f: T -> Option<string>)
    ensures IsTally(f, [], map[])
  {
  }

  lemma BumpTallies<T>(f: T -> Option<string>, entries: seq<T>, e: T, m: map<string, nat>)
    requires IsTally(f, entries, m)
    ensures IsTally(f, entries + [e], Bump(m, f(e)))
  {
    assert (entries + [e])[..|entries|] == entries;
  }

  lemma TallyIsUnique<T>(f: T -> Option<string>, entries: seq<T>, a: map<string, nat>, b: map<string, nat>)
    requires IsTally(f, entries, a) && IsTally(f, entries, b)
    ensures a == b
  {
  }

  /** `rows` lists the entries of `m`, each once, in whatever order the hash map yields them. */
  ghost predicate IsEnumeration(m: map<string, nat>, rows: seq<Count>) {
    && (forall i, j :: 0 <= i < j < |rows| ==> rows[i].name != rows[j].name)
    && (forall r :: r in rows <==> r.name in m && r.count == m[r.name])
  }

  /** `into_iter().collect()`: the iteration order of a hash map is arbitrary. */
  method Collect(m: map<string, nat>) returns (rows: seq<Count>)
    ensures IsEnumeration(m, rows) && |rows| == |m|
  {
    rows := [];
    var left := m.Keys;
    while left != {}
      invariant left <= m.Keys
      invariant |rows| + |left| == |m.Keys|
      invariant forall i, j :: 0 <= i < j < |rows| ==> rows[i].name != rows[j].name
      invariant forall r :: r in rows <==> r.name in m.Keys - left && r.count == m[r.name]
      decreases left
    {
      var name :| name in left;
      left := left - {name};
      rows := rows + [Count(name, m[name])];
    }
  }

  function CountOf(row: Count): int {
    row.count
  }

  function Contributing<T>(f: T -> Option<string>, entries: seq<T>): nat {
    if entries == [] then 0
    else
      Contributing(f, entries[..|entries| - 1]) + if f(entries[|entries| - 1]).Some? then 1 else 0
  }

  /** The occurrences of the names of `rows`, added up. */
  function OccurrencesOf<T>(f: T -> Option<string>, entries: seq<T>, rows: seq<Count>): nat {
    if rows == [] then 0
    else OccurrencesOf(f, entries, rows[1..]) + Occurrences(f, entries, rows[0].name)
  }

  /** One more entry adds one occurrence when its name is listed, none otherwise. */
  lemma {:induction false} OccurrencesStep<T>(
    f: T -> Option<string>, entries: seq<T>, e: T, rows: seq<Count>)
    requires forall i, j :: 0 <= i < j < |rows| ==> rows[i].name != rows[j].name
    ensures OccurrencesOf(f, entries + [e], rows)
            == OccurrencesOf(f, entries, rows) + if exists r :: r in rows && f(e) == Some(r.name) then 1 else 0
  {
    if rows != [] {
      OccurrencesStep(f, entries, e, rows[1..]);
      assert (entries + [e])[..|entries|] == entries;
      assert rows == [rows[0]] + rows[1..];
      if f(e) == Some(rows[0].name) {
        assert rows[0] in rows;
        assert !exists r :: r in rows[1..] && f(e) == Some(r.name);
      }
    }
  }

  lemma {:induction false} OccurrencesOfNothing<T>(f: T -> Option<string>, rows: seq<Count>)
    ensures OccurrencesOf(f, [], rows) == 0
  {
    if rows != [] {
      OccurrencesOfNothing(f, rows[1..]);
    }
  }

  lemma {:induction false} ListedOccurrences<T>(
    f: T -> Option<string>, entries: seq<T>, rows: seq<Count>)
    requires forall i, j :: 0 <= i < j < |rows| ==> rows[i].name != rows[j].name
    requires forall e :: e in entries && f(e).Some? ==> exists r :: r in rows && r.name == f(e).value
    ensures OccurrencesOf(f, entries, rows) == Contributing(f, entries)
  {
    if entries == [] {
      OccurrencesOfNothing(f, rows);
    } else {
      var n := |entries| - 1;
      assert entries == entries[..n] + [entries[n]];
      ListedOccurrences(f, entries[..n], rows);
      OccurrencesStep(f, entries[..n], entries[n], rows);
      assert entries[n] in entries;
    }
  }

  lemma {:induction false} TotalIsOccurrences<T>(f: T -> Option<string>, entries: seq<T>, rows: seq<Count>)
    requires forall r :: r in rows ==> r.count == Occurrences(f, entries, r.name)
    ensures SumOf(CountOf, rows) == OccurrencesOf(f, entries, rows)
  {
    if rows != [] {
      assert rows == [rows[0]] + rows[1..];
      TotalIsOccurrences(f, entries, rows[1..]);
    }
  }

  lemma {:induction false} OccursIfContributed<T>(f: T -> Option<string>, entries: seq<T>, e: T)
    requires e in entries && f(e).Some?
    ensures 0 < Occurrences(f, entries, f(e).value)
  {
    var n := |entries| - 1;
    if e != entries[n] {
      assert entries == entries[..n] + [entries[n]];
      OccursIfContributed(f, entries[..n], e);
    }
  }

  /** The counts of a tally add up to the entries that contribute a name. */
  lemma TallyAddsUp<T>(f: T -> Option<string>, entries: seq<T>, m: map<string, nat>, rows: seq<Count>)
    requires IsTally(f, entries, m) && IsEnumeration(m, rows)
    ensures SumOf(CountOf, rows) == Contributing(f, entries)
  {
    forall e | e in entries && f(e).Some? ensures exists r :: r in rows && r.name == f(e).value {
      OccursIfContributed(f, entries, e);
      assert Count(f(e).value, m[f(e).value]) in rows;
    }
    TotalIsOccurrences(f, entries, rows);
    ListedOccurrences(f, entries, rows);
  }
}
