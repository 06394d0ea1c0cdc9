/** `group_entries` (src/domain/tools/logs.rs): page-local grouping by (unit, priority, message). */
module LogGroups {
  import opened Prelude
  import opened Text
  import opened Json
  import opened Journal
  import opened LogReader
  import opened LogWalk

  datatype Key = Key(unit: Option<string>, priority: Option<string>, message: Option<string>)

  datatype Group = Group(key: Key, count: nat, first: string, last: string, row: map<string, Json>)

  function KeyOf(e: JournalLogEntry): Key {
    Key(e.unit, e.priority, e.message)
  }

  function OptionalString(value: Option<string>): Json {
    if value.Some? then Str(value.value) else Null
  }

  /** The serialized row. */
  function FullRow(e: JournalLogEntry): map<string, Json> {
    map["timestamp_utc" := Str(e.timestampUtc),
        "unit" := OptionalString(e.unit),
        "priority" := OptionalString(e.priority),
        "hostname" := OptionalString(e.hostname),
        "pid" := if e.pid.Some? then Integer(e.pid.value) else Null,
        "message" := OptionalString(e.message),
        "cursor" := OptionalString(e.cursor)]
  }

  /** The requested public fields of a row. */
  function ProjectEntry(e: JournalLogEntry, fields: seq<string>): map<string, Json> {
    map field | field in fields && field in FullRow(e) :: FullRow(e)[field]
  }

  // ----- Specification -----

  /** The distinct keys, each where it is first seen. */
  function FirstSeen(entries: seq<JournalLogEntry>): seq<Key> {
    if entries == [] then []
    else
      var before := FirstSeen(entries[..|entries| - 1]);
      var key := KeyOf(entries[|entries| - 1]);
      if key in before then before else before + [key]
  }

  /** The entries of one group, in order. */
  function Members(entries: seq<JournalLogEntry>, key: Key): (r: seq<JournalLogEntry>)
    ensures |r| <= |entries|
  {
    if entries == [] then []
    else
      Members(entries[..|entries| - 1], key)
      + if KeyOf(entries[|entries| - 1]) == key then [entries[|entries| - 1]] else []
  }

  function Earliest(members: seq<JournalLogEntry>): string
    requires members != []
  {
    var t := members[|members| - 1].timestampUtc;
    if |members| == 1 then t
    else
      var best := Earliest(members[..|members| - 1]);
      if Compare(t, best).Less? then t else best
  }

  function Latest(members: seq<JournalLogEntry>): string
    requires members != []
  {
    var t := members[|members| - 1].timestampUtc;
    if |members| == 1 then t
    else
      var best := Latest(members[..|members| - 1]);
      if Compare(t, best).Greater? then t else best
  }

  /** A group's row is the projection of its first entry. */
  function GroupOf(entries: seq<JournalLogEntry>, fields: seq<string>, key: Key): Group
    requires Members(entries, key) != []
  {
    var members := Members(entries, key);
    Group(key, |members|, Earliest(members), Latest(members), ProjectEntry(members[0], fields))
  }

  lemma {:induction false} FirstSeenProperties(entries: seq<JournalLogEntry>)
    ensures var keys := FirstSeen(entries);
            && (forall i, j :: 0 <= i < j < |keys| ==> keys[i] != keys[j])
            && (forall key :: key in keys <==> Members(entries, key) != [])
  {
    if entries != [] {
      var n := |entries| - 1;
      FirstSeenProperties(entries[..n]);
      FirstSeenStep(entries);
    }
  }

  lemma FirstSeenStep(entries: seq<JournalLogEntry>)
    requires entries != []
    ensures var n := |entries| - 1;
            var before, last := FirstSeen(entries[..n]), KeyOf(entries[n]);
            && FirstSeen(entries) == before + (if last in before then [] else [last])
            && (forall key :: key in FirstSeen(entries) <==> key in before || key == last)
            && (forall key :: Members(entries, key) != [] <==> Members(entries[..n], key) != [] || key == last)
  {
    hide KeyOf;
  }

  lemma {:induction false} FirstSeenCovers(entries: seq<JournalLogEntry>, i: nat)
    requires i < |entries|
    ensures KeyOf(entries[i]) in FirstSeen(entries)
  {
    hide KeyOf;
    if i < |entries| - 1 {
      FirstSeenCovers(entries[..|entries| - 1], i);
    }
  }

  lemma {:induction false} FirstSeenOccurs(entries: seq<JournalLogEntry>, key: Key)
    requires key in FirstSeen(entries)
    ensures exists a :: 0 <= a < |entries| && KeyOf(entries[a]) == key
  {
    hide KeyOf;
    var n := |entries| - 1;
    if key in FirstSeen(entries[..n]) {
      FirstSeenOccurs(entries[..n], key);
      var a :| 0 <= a < n && KeyOf(entries[..n][a]) == key;
      assert KeyOf(entries[a]) == key;
    } else {
      assert KeyOf(entries[n]) == key;
    }
  }

  /** Of two keys the one listed first occurs before any occurrence of the other. */
  lemma {:induction false} FirstSeenOrder(entries: seq<JournalLogEntry>, i: nat, j: nat)
    requires i < j < |FirstSeen(entries)|
    ensures exists a :: 0 <= a < |entries| && KeyOf(entries[a]) == FirstSeen(entries)[i]
                        && forall b :: 0 <= b <= a ==> KeyOf(entries[b]) != FirstSeen(entries)[j]
  {
    hide KeyOf;
    var n := |entries| - 1;
    var before := FirstSeen(entries[..n]);
    if j < |before| {
      FirstSeenOrder(entries[..n], i, j);
      var a :| 0 <= a < n && KeyOf(entries[..n][a]) == before[i]
               && forall b :: 0 <= b <= a ==> KeyOf(entries[..n][b]) != before[j];
      assert KeyOf(entries[a]) == before[i];
      assert forall b :: 0 <= b <= a ==> entries[b] == entries[..n][b];
    } else {
      FirstSeenOccurs(entries[..n], before[i]);
      var a :| 0 <= a < n && KeyOf(entries[..n][a]) == before[i];
      assert KeyOf(entries[a]) == before[i];
      forall b | 0 <= b <= a ensures KeyOf(entries[b]) != KeyOf(entries[n]) {
        FirstSeenCovers(entries[..n], b);
      }
    }
  }

  /** One group per distinct key, in first-seen order. */
  function Grouping(entries: seq<JournalLogEntry>, fields: seq<string>): (r: seq<Group>)
    ensures |r| == |FirstSeen(entries)|
  {
    FirstSeenProperties(entries);
    var keys := FirstSeen(entries);
    seq(|keys|, i requires 0 <= i < |keys| => GroupOf(entries, fields, keys[i]))
  }

  // ----- The loop -----

  /** The index of the group with `key`, or the number of groups. */
  function FindGroup(groups: seq<Group>, key: Key): (i: nat)
    ensures i <= |groups|
    ensures i < |groups| ==> groups[i].key == key
    ensures forall k :: 0 <= k < i ==> groups[k].key != key
  {
    if groups == [] || groups[0].key == key then 0 else 1 + FindGroup(groups[1..], key)
  }

  /** Adds one entry to the groups. */
  function AddEntry(groups: seq<Group>, entry: JournalLogEntry, fields: seq<string>): seq<Group> {
    var i := FindGroup(groups, KeyOf(entry));
    if i == |groups| then
      groups + [Group(KeyOf(entry), 1, entry.timestampUtc, entry.timestampUtc, ProjectEntry(entry, fields))]
    else
      var g := groups[i];
      groups[i := g.(
        count := g.count + 1,
        first := if Compare(entry.timestampUtc, g.first).Less? then entry.timestampUtc else g.first,
        last := if Compare(entry.timestampUtc, g.last).Greater? then entry.timestampUtc else g.last)]
  }

  lemma MembersStep(entries: seq<JournalLogEntry>, entry: JournalLogEntry, key: Key)
    ensures Members(entries + [entry], key)
            == Members(entries, key) + if KeyOf(entry) == key then [entry] else []
  {
    assert (entries + [entry])[..|entries|] == entries;
  }

  lemma GroupStep(entries: seq<JournalLogEntry>, entry: JournalLogEntry, fields: seq<string>, key: Key)
    requires Members(entries, key) != []
    ensures Members(entries + [entry], key) != []
    ensures var g := GroupOf(entries, fields, key);
            GroupOf(entries + [entry], fields, key)
            == if KeyOf(entry) != key then g
               else g.(count := g.count + 1,
                       first := if Compare(entry.timestampUtc, g.first).Less? then entry.timestampUtc else g.first,
                       last := if Compare(entry.timestampUtc, g.last).Greater? then entry.timestampUtc else g.last)
  {
    hide Members, Compare, ProjectEntry;
    MembersStep(entries, entry, key);
    var members := Members(entries, key);
    assert (members + [entry])[..|members|] == members;
    assert members + [] == members;
  }

  lemma NewGroup(entries: seq<JournalLogEntry>, entry: JournalLogEntry, fields: seq<string>)
    requires Members(entries, KeyOf(entry)) == []
    ensures Members(entries + [entry], KeyOf(entry)) == [entry]
    ensures GroupOf(entries + [entry], fields, KeyOf(entry))
            == Group(KeyOf(entry), 1, entry.timestampUtc, entry.timestampUtc, ProjectEntry(entry, fields))
  {
    hide Members, ProjectEntry;
    MembersStep(entries, entry, KeyOf(entry));
  }

  /** Adding an entry to a grouping gives the grouping of one more entry. */
  lemma AddEntryExtends(entries: seq<JournalLogEntry>, entry: JournalLogEntry, fields: seq<string>)
    ensures AddEntry(Grouping(entries, fields), entry, fields) == Grouping(entries + [entry], fields)
  {
    hide GroupOf, Members, ProjectEntry;
    var more := entries + [entry];
    var keys, groups := FirstSeen(entries), Grouping(entries, fields);
    FirstSeenProperties(entries);
    FirstSeenProperties(more);
    assert more[..|entries|] == entries;
    forall k | 0 <= k < |keys| ensures groups[k].key == keys[k] {
      KeyOfGroup(entries, fields, keys[k]);
    }
    forall k | 0 <= k < |keys|
      ensures Members(entries, keys[k]) != [] && Members(more, keys[k]) != []
      ensures Grouping(more, fields)[k] == AddEntry(groups, entry, fields)[k]
    {
      GroupStep(entries, entry, fields, keys[k]);
      KeyOfGroup(entries, fields, keys[k]);
    }
    if KeyOf(entry) !in keys {
      NewGroup(entries, entry, fields);
    }
  }

  lemma KeyOfGroup(entries: seq<JournalLogEntry>, fields: seq<string>, key: Key)
    requires Members(entries, key) != []
    ensures GroupOf(entries, fields, key).key == key
  {
  }

  lemma EmptyGrouping(fields: seq<string>)
    ensures Grouping([], fields) == []
  {
  }

  /** The body of the loop: from the groups of the entries so far, updating the matching group or
      pushing a new one gives the groups of one entry more. */
  method GroupOne(
    groups: seq<Group>, entry: JournalLogEntry, fields: seq<string>, ghost before: seq<JournalLogEntry>)
    returns (r: seq<Group>)
    requires groups == Grouping(before, fields)
    ensures r == Grouping(before + [entry], fields)
  {
    hide GroupOf, FirstSeen, ProjectEntry, Compare, Grouping;
    AddEntryExtends(before, entry, fields);
    var i := FindGroup(groups, KeyOf(entry));
    if i < |groups| {
      var group := groups[i];
      group := group.(count := group.count + 1);
      if Compare(entry.timestampUtc, group.first).Less? {
        group := group.(first := entry.timestampUtc);
      }
      if Compare(entry.timestampUtc, group.last).Greater? {
        group := group.(last := entry.timestampUtc);
      }
      r := groups[i := group];
    } else {
      r := groups + [Group(KeyOf(entry), 1, entry.timestampUtc, entry.timestampUtc, ProjectEntry(entry, fields))];
    }
  }

  /** The public row of a group: the projected entry with the count and the time range added. */
  function GroupRow(g: Group): Json {
    Object(g.row["count" := Integer(g.count)]
             ["first_timestamp_utc" := Str(g.first)]
             ["last_timestamp_utc" := Str(g.last)])
  }

  /** Groups a raw page in one pass, updating groups in place, and then writes their rows. */
  method GroupEntries(entries: seq<JournalLogEntry>, fields: seq<string>) returns (rows: seq<Json>)
    ensures rows == Map(GroupRow, Grouping(entries, fields))
  {
    hide GroupOf, FirstSeen, ProjectEntry, Grouping, GroupRow;
    var groups: seq<Group> := [];
    EmptyGrouping(fields);
    for n := 0 to |entries|
      invariant groups == Grouping(entries[..n], fields)
    {
      groups := GroupOne(groups, entries[n], fields, entries[..n]);
      assert entries[..n] + [entries[n]] == entries[..n + 1];
    }
    assert entries[..|entries|] == entries;
    rows := Map(GroupRow, groups);
  }

  // ----- What a grouping says -----

  lemma {:induction false} MembersAreMatching(entries: seq<JournalLogEntry>, key: Key)
    ensures forall e :: e in Members(entries, key) <==> e in entries && KeyOf(e) == key
  {
    if entries != [] {
      var n := |entries| - 1;
      MembersAreMatching(entries[..n], key);
      assert entries == entries[..n] + [entries[n]];
    }
  }

  lemma {:induction false} ExtremesBound(members: seq<JournalLogEntry>, i: nat)
    requires i < |members|
    ensures !Compare(members[i].timestampUtc, Earliest(members)).Less?
    ensures !Compare(members[i].timestampUtc, Latest(members)).Greater?
  {
    hide Compare;
    CompareIsTotalOrder();
    var n := |members| - 1;
    if i < n {
      ExtremesBound(members[..n], i);
    }
  }

  lemma {:induction false} ExtremesAttained(members: seq<JournalLogEntry>)
    requires members != []
    ensures exists e :: e in members && e.timestampUtc == Earliest(members)
    ensures exists e :: e in members && e.timestampUtc == Latest(members)
  {
    hide Compare;
    var n := |members| - 1;
    assert members[n] in members;
    if 0 < n {
      ExtremesAttained(members[..n]);
      assert forall e :: e in members[..n] ==> e in members;
    }
  }

  /** Every group counts exactly the entries of its key, its first and last timestamps are the least
      and greatest among them, and distinct groups have distinct keys. */
  lemma GroupsSummarizeTheirEntries(entries: seq<JournalLogEntry>, fields: seq<string>, i: nat)
    requires i < |Grouping(entries, fields)|
    ensures var g := Grouping(entries, fields)[i];
            && g.key == FirstSeen(entries)[i]
            && g.count == |Members(entries, g.key)|
            && 0 < g.count && g.row == ProjectEntry(Members(entries, g.key)[0], fields)
            && (forall j :: 0 <= j < |Grouping(entries, fields)| && j != i ==>
                  Grouping(entries, fields)[j].key != g.key)
            && (forall e :: e in entries && KeyOf(e) == g.key ==>
                  !Compare(e.timestampUtc, g.first).Less? && !Compare(e.timestampUtc, g.last).Greater?)
            && (exists e :: e in entries && KeyOf(e) == g.key && e.timestampUtc == g.first)
            && (exists e :: e in entries && KeyOf(e) == g.key && e.timestampUtc == g.last)
  {
    hide Compare, ProjectEntry, Earliest, Latest, FirstSeen, Members;
    FirstSeenProperties(entries);
    var key := FirstSeen(entries)[i];
    var members := Members(entries, key);
    MembersAreMatching(entries, key);
    ExtremesAttained(members);
    forall e | e in entries && KeyOf(e) == key
      ensures !Compare(e.timestampUtc, Earliest(members)).Less? && !Compare(e.timestampUtc, Latest(members)).Greater?
    {
      var k :| 0 <= k < |members| && members[k] == e;
      ExtremesBound(members, k);
    }
  }

  /** A group's public row shows its count and time range next to every requested field of its first
      entry, and nothing else; no field is overwritten. */
  lemma GroupRowsShowTheirGroup(entries: seq<JournalLogEntry>, fields: seq<string>, i: nat)
    requires i < |Grouping(entries, fields)|
    ensures var g := Grouping(entries, fields)[i];
            var row := GroupRow(g);
            && g.count == |Members(entries, g.key)| && 0 < g.count
            && Get(row, "count") == Some(Integer(g.count))
            && Get(row, "first_timestamp_utc") == Some(Str(g.first))
            && Get(row, "last_timestamp_utc") == Some(Str(g.last))
            && forall field | field !in ["count", "first_timestamp_utc", "last_timestamp_utc"] ::
                 var first := FullRow(Members(entries, g.key)[0]);
                 Get(row, field) == if field in fields && field in first then Some(first[field]) else None
    ensures forall e, field :: field in FullRow(e) ==>
              field !in ["count", "first_timestamp_utc", "last_timestamp_utc"]
  {
    hide Grouping, Members, FirstSeen, Compare;
    GroupsSummarizeTheirEntries(entries, fields, i);
    AddedFieldsAreNew();
  }

  lemma AddedFieldsAreNew()
    ensures forall e, field :: field in FullRow(e) ==>
              field !in ["count", "first_timestamp_utc", "last_timestamp_utc"]
  {
    forall e, field | field in FullRow(e)
      ensures field !in ["count", "first_timestamp_utc", "last_timestamp_utc"]
    {
      assert field[0] != 'l' && field[0] != 'f';
      assert |field| != 5;
    }
  }

  /** Entries that belong together: same unit, same priority, same message. */
  function SameEvent(first: JournalLogEntry): JournalLogEntry -> bool {
    (e: JournalLogEntry) => e.unit == first.unit && e.priority == first.priority && e.message == first.message
  }

  lemma {:induction false} MembersCount(
    entries: seq<JournalLogEntry>, key: Key, belongs: JournalLogEntry -> bool)
    requires forall e <- entries :: belongs(e) <==> KeyOf(e) == key
    ensures Members(entries, key) == Filter(belongs, entries)
  {
    hide Filter, KeyOf;
    if entries == [] {
      FilterNil(belongs);
    } else {
      var n := |entries| - 1;
      assert entries[n] in entries && forall e <- entries[..n] :: e in entries;
      MembersCount(entries[..n], key, belongs);
      assert entries[..n + 1] == entries;
      FilterStep(belongs, entries, n);
    }
  }

  /** A group shows the first of all entries with one unit, priority and message, and counts exactly
      those; entries that differ in any of the three are in different groups. */
  lemma GroupHoldsSameEvents(entries: seq<JournalLogEntry>, fields: seq<string>, i: nat)
    requires i < |Grouping(entries, fields)|
    ensures var g := Grouping(entries, fields)[i];
            exists first :: first in entries
              && Filter(SameEvent(first), entries) != [] && Filter(SameEvent(first), entries)[0] == first
              && g.key == Key(first.unit, first.priority, first.message)
              && g.row == ProjectEntry(first, fields)
              && g.count == |Filter(SameEvent(first), entries)|
  {
    hide Grouping, Members, Filter, ProjectEntry, Compare;
    GroupsSummarizeTheirEntries(entries, fields, i);
    var g := Grouping(entries, fields)[i];
    var first := Members(entries, g.key)[0];
    MembersAreMatching(entries, g.key);
    assert first in Members(entries, g.key);
    MembersCount(entries, g.key, SameEvent(first));
  }

  /** Every entry is in the group of its unit, priority and message. */
  lemma EveryEntryHasGroup(entries: seq<JournalLogEntry>, fields: seq<string>, e: JournalLogEntry)
    requires e in entries
    ensures exists i :: 0 <= i < |Grouping(entries, fields)|
                        && Grouping(entries, fields)[i].key == Key(e.unit, e.priority, e.message)
  {
    hide Members, ProjectEntry, Compare, Earliest, Latest;
    var k :| 0 <= k < |entries| && entries[k] == e;
    FirstSeenCovers(entries, k);
    FirstSeenProperties(entries);
    var i :| 0 <= i < |FirstSeen(entries)| && FirstSeen(entries)[i] == KeyOf(e);
    assert Grouping(entries, fields)[i].key == KeyOf(e);
  }

  /** The seven public fields of a row, absent values as null. */
  lemma FullRowShows(e: JournalLogEntry)
    ensures FullRow(e).Keys == {"timestamp_utc", "unit", "priority", "hostname", "pid", "message", "cursor"}
    ensures var row := Object(FullRow(e));
            && Get(row, "timestamp_utc") == Some(Str(e.timestampUtc))
            && Get(row, "unit") == Some(if e.unit.Some? then Str(e.unit.value) else Null)
            && Get(row, "priority") == Some(if e.priority.Some? then Str(e.priority.value) else Null)
            && Get(row, "hostname") == Some(if e.hostname.Some? then Str(e.hostname.value) else Null)
            && Get(row, "pid") == Some(if e.pid.Some? then Integer(e.pid.value) else Null)
            && Get(row, "message") == Some(if e.message.Some? then Str(e.message.value) else Null)
            && Get(row, "cursor") == Some(if e.cursor.Some? then Str(e.cursor.value) else Null)
  {
  }

  function GroupCount(group: Group): int {
    group.count
  }

  lemma {:induction false} TotalAfterUpdate(groups: seq<Group>, i: nat, g: Group)
    requires i < |groups| && g.count == groups[i].count + 1
    ensures SumOf(GroupCount, groups[i := g]) == SumOf(GroupCount, groups) + 1
  {
    if i == 0 {
      assert groups[i := g][1..] == groups[1..];
    } else {
      assert groups[i := g][1..] == groups[1..][i - 1 := g];
      TotalAfterUpdate(groups[1..], i - 1, g);
    }
  }

  /** The counts of a grouping add up to the number of raw rows. */
  lemma {:induction false} GroupCountsAddUp(entries: seq<JournalLogEntry>, fields: seq<string>)
    ensures SumOf(GroupCount, Grouping(entries, fields)) == |entries|
  {
    if entries == [] {
      EmptyGrouping(fields);
    } else {
      hide GroupOf, FirstSeen, ProjectEntry, Grouping;
      var n := |entries| - 1;
      assert entries == entries[..n] + [entries[n]];
      GroupCountsAddUp(entries[..n], fields);
      AddEntryExtends(entries[..n], entries[n], fields);
      var groups := Grouping(entries[..n], fields);
      var i := FindGroup(groups, KeyOf(entries[n]));
      var added := AddEntry(groups, entries[n], fields);
      if i < |groups| {
        TotalAfterUpdate(groups, i, added[i]);
      } else {
        SumOfConcat(GroupCount, groups, [added[i]]);
      }
    }
  }

  /** The group counts of the page at a cursor, added up. */
  function PageCounts(s: Scan, entries: seq<Entry>, fields: seq<string>): Option<string> -> int {
    cursor => SumOf(GroupCount, Grouping(PageRows(s, entries, cursor), fields))
  }

  /** The counts a client of a grouped walk adds up, page after page. */
  function WalkCounts(s: Scan, entries: seq<Entry>, cs: seq<Option<string>>, fields: seq<string>): int {
    SumOf(PageCounts(s, entries, fields), cs)
  }

  lemma {:induction false} WalkCountsRows(s: Scan, entries: seq<Entry>, cs: seq<Option<string>>, fields: seq<string>)
    ensures WalkCounts(s, entries, cs, fields) == |WalkRows(s, entries, cs)|
  {
    hide PageRows, Grouping;
    if cs != [] {
      GroupCountsAddUp(PageRows(s, entries, cs[0]), fields);
      WalkCountsRows(s, entries, cs[1..], fields);
    }
  }

  /** Grouping is page-local, yet over a whole walk the group counts add up to every matching journal
      row, because continuation goes by raw rows. */
  lemma GroupedWalkCountsEveryRow(s: Scan, entries: seq<Entry>, cs: seq<Option<string>>, fields: seq<string>)
    requires DistinctCursors(entries) && 1 <= s.limit && IsWalk(s, entries, cs)
    ensures WalkCounts(s, entries, cs, fields) == |Pending(s, entries, cs[0])|
  {
    hide Pending, Page, Next;
    WalkCountsRows(s, entries, cs, fields);
    WalkIsPlainFilter(s, entries, cs);
  }
}
