/** Unit rows of src/systemd_client.rs: combining the two managers' lists and classifying the failed
    dependencies of a unit. */
module Units {
  import opened Prelude
  import opened Text
  import opened StableSorting

  // ----- scope=both -----

  datatype FetchError = FetchError(message: string)

  function KeyOrder<T>(key: T -> string): (T, T) -> bool {
    (left: T, right: T) => !Compare(key(left), key(right)).Greater?
  }

  lemma KeyOrderIsTotal<T(!new)>(key: T -> string)
    ensures TotalPreorder(KeyOrder(key))
  {
    hide Compare;
    CompareIsTotalOrder();
    var leq := KeyOrder(key);
    forall x, y, z | leq(x, y) && leq(y, z) ensures leq(x, z) {
      CompareTransitive(key(x), key(y), key(z));
    }
  }

  /** Appends the user rows to the system rows and sorts by key; a failed side counts as empty unless
      both failed. */
  method CombineScopeRowsByKey<T>(
    systemResult: Result<seq<T>, FetchError>, userResult: Result<seq<T>, FetchError>, unitKind: string,
    key: T -> string)
    returns (r: Result<seq<T>, FetchError>)
    ensures r.Err? <==> systemResult.Err? && userResult.Err?
    ensures r.Err? ==> r.error == FetchError("failed to list " + unitKind + " for both system and user scopes")
    ensures r.Ok? ==>
              var system := if systemResult.Ok? then systemResult.value else [];
              var user := if userResult.Ok? then userResult.value else [];
              r.value == StableSort(KeyOrder(key), system + user)
  {
    var systemFailed, userFailed := false, false;
    var system: seq<T> := [];
    match systemResult {
      case Ok(rows) => system := rows;
      case Err(_) => systemFailed := true;
    }
    var user: seq<T> := [];
    match userResult {
      case Ok(rows) => user := rows;
      case Err(_) => userFailed := true;
    }
    if systemFailed && userFailed {
      return Err(FetchError("failed to list " + unitKind + " for both system and user scopes"));
    }
    var combined := system + user;
    r := Ok(StableSort(KeyOrder(key), combined));
  }

  /** The combined list is the two-way merge of the scopes' sorted lists, system rows first on equal
      keys; rows of either scope keep their order, and no row is lost, added or merged away. */
  lemma CombinedRowsAreMerge<T(!new)>(key: T -> string, system: seq<T>, user: seq<T>)
    ensures var combined := StableSort(KeyOrder(key), system + user);
            && combined == Merge(KeyOrder(key), StableSort(KeyOrder(key), system), StableSort(KeyOrder(key), user))
            && multiset(combined) == multiset(system) + multiset(user)
            && (Sorted(KeyOrder(key), system) && Sorted(KeyOrder(key), user) ==>
                  combined == Merge(KeyOrder(key), system, user))
  {
    hide StableSort, Merge, KeyOrder;
    KeyOrderIsTotal(key);
    SortOfConcatIsMerge(KeyOrder(key), system, user);
    SortIsStable(KeyOrder(key), system + user);
    if Sorted(KeyOrder(key), system) && Sorted(KeyOrder(key), user) {
      SortedIsFixed(KeyOrder(key), system);
      SortedIsFixed(KeyOrder(key), user);
    }
  }

  /** Rows with the same key come out as all system rows followed by all user rows. */
  lemma SameKeySystemFirst<T(!new)>(key: T -> string, system: seq<T>, user: seq<T>, x: T)
    ensures var leq := KeyOrder(key);
            Ties(leq, x, StableSort(leq, system + user)) == Ties(leq, x, system) + Ties(leq, x, user)
  {
    hide StableSort, KeyOrder;
    KeyOrderIsTotal(key);
    SortIsStable(KeyOrder(key), system + user);
    TiesConcat(KeyOrder(key), x, system, user);
  }

  /** Each scope's rows stand in the combined list in that scope's own sorted order; `isSystem` tells
      the scopes apart by the row's `scope` field. */
  lemma ScopesKeepTheirOrder<T(!new)>(key: T -> string, isSystem: T -> bool, system: seq<T>, user: seq<T>)
    requires (forall x :: x in system ==> isSystem(x)) && (forall y :: y in user ==> !isSystem(y))
    ensures Filter(isSystem, StableSort(KeyOrder(key), system + user)) == StableSort(KeyOrder(key), system)
  {
    hide StableSort, Merge, KeyOrder, Filter;
    var leq := KeyOrder(key);
    KeyOrderIsTotal(key);
    SortOfConcatIsMerge(leq, system, user);
    forall x ensures x in StableSort(leq, system) <==> x in system {
      SortMembers(leq, system, x);
    }
    forall y ensures y in StableSort(leq, user) <==> y in user {
      SortMembers(leq, user, y);
    }
    MergeKeepsSides(isSystem, leq, StableSort(leq, system), StableSort(leq, user));
  }

  // ----- Failed dependencies -----

  datatype RawUnit = RawUnit(name: string, loadState: string, activeState: string, subState: string)

  datatype FailedDependency = FailedDependency(
    unit: string,
    relationship: string,
    loadState: string,
    activeState: string,
    subState: string,
    result: Option<string>)

  /** Collecting rows into a hash map by name: the last row of a name wins. */
  function ByName(rows: seq<RawUnit>): map<string, RawUnit> {
    if rows == [] then map[] else ByName(rows[..|rows| - 1])[rows[|rows| - 1].name := rows[|rows| - 1]]
  }

  function Lookup(rows: seq<RawUnit>, name: string): Option<RawUnit> {
    if name in ByName(rows) then Some(ByName(rows)[name]) else None
  }

  /** Failed, not loaded, or missing. */
  predicate IsFailed(dependency: Option<RawUnit>) {
    dependency.Some? ==>
      || EqIgnoreAsciiCase(dependency.value.activeState, "failed")
      || !EqIgnoreAsciiCase(dependency.value.loadState, "loaded")
  }

  function DependencyRow(name: string, relationship: string, dependency: Option<RawUnit>): FailedDependency {
    if dependency.Some? then
      FailedDependency(
        name, relationship, dependency.value.loadState, dependency.value.activeState, dependency.value.subState, None)
    else FailedDependency(name, relationship, "not-found", "inactive", "dead", None)
  }

  /** The row of a failed direct dependency of one of the two kinds. */
  ghost predicate IsFact(required: seq<string>, wants: seq<string>, rows: seq<RawUnit>, d: FailedDependency) {
    && IsFailed(Lookup(rows, d.unit))
    && ((d.relationship == "requires" && d.unit in required) || (d.relationship == "wants" && d.unit in wants))
    && d == DependencyRow(d.unit, d.relationship, Lookup(rows, d.unit))
  }

  function DependencyOrder(): (FailedDependency, FailedDependency) -> bool {
    (a: FailedDependency, b: FailedDependency) =>
      !Compare(a.unit, b.unit).Then(Compare(a.relationship, b.relationship)).Greater?
  }

  predicate SameDependency(a: FailedDependency, b: FailedDependency) {
    a.unit == b.unit && a.relationship == b.relationship
  }

  lemma DependencyOrderIsTotal()
    ensures TotalPreorder(DependencyOrder())
    ensures forall a, b :: DependencyOrder()(a, b) && DependencyOrder()(b, a) <==> SameDependency(a, b)
  {
    hide Compare;
    CompareIsTotalOrder();
  }

  /** `Vec::dedup_by`: drops each element that is the same dependency as the last one kept. */
  function Dedup(s: seq<FailedDependency>): seq<FailedDependency> {
    if s == [] then []
    else
      var kept := Dedup(s[..|s| - 1]);
      if kept != [] && SameDependency(kept[|kept| - 1], s[|s| - 1]) then kept else kept + [s[|s| - 1]]
  }

  /** Collects the failed names of one relationship. */
  method CollectFailed(relationship: string, dependencies: seq<string>, rows: seq<RawUnit>)
    returns (output: seq<FailedDependency>)
    ensures forall d :: d in output <==>
                          d.unit in dependencies && d.relationship == relationship && IsFailed(Lookup(rows, d.unit))
                          && d == DependencyRow(d.unit, relationship, Lookup(rows, d.unit))
  {
    hide ByName, IsFailed;
    var byName := ByName(rows);
    output := [];
    for n := 0 to |dependencies|
      invariant forall d :: d in output <==>
                              d.unit in dependencies[..n] && d.relationship == relationship
                              && IsFailed(Lookup(rows, d.unit))
                              && d == DependencyRow(d.unit, relationship, Lookup(rows, d.unit))
    {
      var name := dependencies[n];
      assert dependencies[..n + 1] == dependencies[..n] + [name];
      var dependency := if name in byName then Some(byName[name]) else None;
      if IsFailed(dependency) {
        output := output + [DependencyRow(name, relationship, dependency)];
      }
    }
  }

  /** `rows` lists exactly the failed direct dependencies, strictly ordered by unit and relationship. */
  ghost predicate IsClassification(
    required: seq<string>, wants: seq<string>, rows: seq<RawUnit>, output: seq<FailedDependency>)
  {
    && (forall d :: d in output <==> IsFact(required, wants, rows, d))
    && (forall i, j :: 0 <= i < j < |output| ==>
          DependencyOrder()(output[i], output[j]) && !SameDependency(output[i], output[j]))
  }

  method ClassifyFailedDependencies(required: seq<string>, wants: seq<string>, rows: seq<RawUnit>)
    returns (output: seq<FailedDependency>)
    ensures IsClassification(required, wants, rows, output)
  {
    hide Lookup, IsFailed, DependencyOrder, StableSort, Dedup, DependencyRow;
    var failedRequired := CollectFailed("requires", required, rows);
    var failedWanted := CollectFailed("wants", wants, rows);
    output := failedRequired + failedWanted;
    assert forall d :: d in output <==> IsFact(required, wants, rows, d);
    ghost var facts := output;
    output := StableSort(DependencyOrder(), output);
    DependencyOrderIsTotal();
    SortIsStable(DependencyOrder(), facts);
    forall d ensures d in output <==> d in facts {
      SortMembers(DependencyOrder(), facts, d);
    }
    DedupOfSorted(required, wants, rows, output);
    output := Dedup(output);
  }

  lemma SameDependencySameFact(
    required: seq<string>, wants: seq<string>, rows: seq<RawUnit>, a: FailedDependency, b: FailedDependency)
    requires IsFact(required, wants, rows, a) && IsFact(required, wants, rows, b) && SameDependency(a, b)
    ensures a == b
  {
  }

  lemma BelowStaysDistinct(a: FailedDependency, b: FailedDependency, c: FailedDependency)
    requires a == b || DependencyOrder()(a, b)
    requires DependencyOrder()(b, c) && !SameDependency(b, c)
    ensures !SameDependency(a, c)
  {
    hide DependencyOrder;
    DependencyOrderIsTotal();
  }

  /** Equal (unit, relationship) pairs carry equal facts, so dropping adjacent duplicates of a sorted
      list drops all duplicates and no fact. */
  lemma DedupOfSorted(required: seq<string>, wants: seq<string>, rows: seq<RawUnit>, s: seq<FailedDependency>)
    requires Sorted(DependencyOrder(), s)
    requires forall d :: d in s ==> IsFact(required, wants, rows, d)
    ensures forall d :: d in Dedup(s) <==> d in s
    ensures forall i, j :: 0 <= i < j < |Dedup(s)| ==>
                             DependencyOrder()(Dedup(s)[i], Dedup(s)[j]) && !SameDependency(Dedup(s)[i], Dedup(s)[j])
  {
    hide Lookup, IsFailed, DependencyOrder, DependencyRow;
    DependencyOrderIsTotal();
    if s != [] {
      var n := |s| - 1;
      var kept, last := Dedup(s[..n]), s[n];
      assert s == s[..n] + [last];
      DedupOfSorted(required, wants, rows, s[..n]);
      forall k | 0 <= k < |kept| ensures DependencyOrder()(kept[k], last) {
        assert kept[k] in s[..n];
      }
      if kept != [] {
        var final := kept[|kept| - 1];
        assert final in s;
        if SameDependency(final, last) {
          SameDependencySameFact(required, wants, rows, final, last);
        } else {
          forall k | 0 <= k < |kept| ensures !SameDependency(kept[k], last) {
            BelowStaysDistinct(kept[k], final, last);
          }
        }
      }
    }
  }

  /** The classification is determined by the dependencies and rows. */
  lemma {:induction false} ClassificationIsUnique(
    required: seq<string>, wants: seq<string>, rows: seq<RawUnit>, a: seq<FailedDependency>, b: seq<FailedDependency>)
    requires IsClassification(required, wants, rows, a) && IsClassification(required, wants, rows, b)
    ensures a == b
  {
    hide IsFact, DependencyOrder;
    StrictlyOrderedAgree(a, b);
  }

  lemma {:induction false} StrictlyOrderedAgree(a: seq<FailedDependency>, b: seq<FailedDependency>)
    requires forall d :: d in a <==> d in b
    requires forall i, j :: 0 <= i < j < |a| ==> DependencyOrder()(a[i], a[j]) && !SameDependency(a[i], a[j])
    requires forall i, j :: 0 <= i < j < |b| ==> DependencyOrder()(b[i], b[j]) && !SameDependency(b[i], b[j])
    ensures a == b
  {
    hide DependencyOrder;
    DependencyOrderIsTotal();
    assert a != [] ==> a[0] in a;
    assert b != [] ==> b[0] in b;
    if a != [] && b != [] {
      assert a == [a[0]] + a[1..] && b == [b[0]] + b[1..];
      assert a[0] in b && b[0] in a;
      assert a[0] == b[0];
      forall d ensures d in a[1..] <==> d in b[1..] {
        assert d in a[1..] <==> d in a && d != a[0];
        assert d in b[1..] <==> d in b && d != b[0];
      }
      StrictlyOrderedAgree(a[1..], b[1..]);
    }
  }

  // ----- What the lists show -----

  /** The keys of the combined list never descend. */
  lemma CombinedKeysAscend<T(!new)>(key: T -> string, rows: seq<T>, i: nat, j: nat)
    requires i < j < |StableSort(KeyOrder(key), rows)|
    ensures var combined := StableSort(KeyOrder(key), rows);
            Compare(key(combined[i]), key(combined[j])).Less? || key(combined[i]) == key(combined[j])
  {
    hide StableSort, Compare;
    KeyOrderIsTotal(key);
    SortIsStable(KeyOrder(key), rows);
    var combined := StableSort(KeyOrder(key), rows);
    assert KeyOrder(key)(combined[i], combined[j]);
    CompareFlips(key(combined[i]), key(combined[j]));
  }

  /** Row `i` is the last one of its name. */
  predicate IsLatest(rows: seq<RawUnit>, i: nat, name: string) {
    i < |rows| && rows[i].name == name && forall j :: i < j < |rows| ==> rows[j].name != name
  }

  /** Of several rows with one name the last is looked up. */
  lemma {:induction false} LookupIsLatest(rows: seq<RawUnit>, name: string)
    ensures Lookup(rows, name) == None <==> forall row <- rows :: row.name != name
    ensures forall i: nat :: IsLatest(rows, i, name) ==> Lookup(rows, name) == Some(rows[i])
    ensures Lookup(rows, name).Some? ==> exists i :: IsLatest(rows, i, name)
  {
    if rows != [] {
      var n := |rows| - 1;
      LookupIsLatest(rows[..n], name);
      assert rows == rows[..n] + [rows[n]];
      if rows[n].name == name {
        assert IsLatest(rows, n, name);
      } else {
        forall i: nat ensures IsLatest(rows, i, name) <==> IsLatest(rows[..n], i, name) {
        }
      }
    }
  }

  /** A direct dependency is listed exactly when no row has its name, or the last such row is failed or
      not loaded; it is listed with the states of that row, or as not found. */
  lemma DependencyListedIff(
    required: seq<string>, wants: seq<string>, rows: seq<RawUnit>, output: seq<FailedDependency>,
    name: string, relationship: string)
    requires IsClassification(required, wants, rows, output)
    requires (relationship == "requires" && name in required) || (relationship == "wants" && name in wants)
    ensures (forall row <- rows :: row.name != name) ==>
              FailedDependency(name, relationship, "not-found", "inactive", "dead", None) in output
    ensures forall i: nat :: IsLatest(rows, i, name) ==>
              (FailedDependency(
                 name, relationship, rows[i].loadState, rows[i].activeState, rows[i].subState, None) in output
               <==> EqIgnoreAsciiCase(rows[i].activeState, "failed")
                    || !EqIgnoreAsciiCase(rows[i].loadState, "loaded"))
    ensures forall i: nat, d :: IsLatest(rows, i, name) && d in output && d.unit == name ==>
              EqIgnoreAsciiCase(rows[i].activeState, "failed") || !EqIgnoreAsciiCase(rows[i].loadState, "loaded")
  {
    hide EqIgnoreAsciiCase, ByName, DependencyOrder;
    LookupIsLatest(rows, name);
  }

  /** Nothing else is listed, and the list ascends strictly by unit and then by relationship. */
  lemma ListedAreDependencies(
    required: seq<string>, wants: seq<string>, rows: seq<RawUnit>, output: seq<FailedDependency>)
    requires IsClassification(required, wants, rows, output)
    ensures forall d <- output ::
              (d.relationship == "requires" && d.unit in required) || (d.relationship == "wants" && d.unit in wants)
    ensures forall i, j :: 0 <= i < j < |output| ==>
              || Compare(output[i].unit, output[j].unit).Less?
              || (output[i].unit == output[j].unit
                  && Compare(output[i].relationship, output[j].relationship).Less?)
  {
    hide Compare, Lookup, IsFailed;
    forall i, j | 0 <= i < j < |output|
      ensures || Compare(output[i].unit, output[j].unit).Less?
              || (output[i].unit == output[j].unit
                  && Compare(output[i].relationship, output[j].relationship).Less?)
    {
      assert DependencyOrder()(output[i], output[j]) && !SameDependency(output[i], output[j]);
      CompareFlips(output[i].unit, output[j].unit);
      CompareFlips(output[i].relationship, output[j].relationship);
    }
  }
}
