/** What each filter of a query decides, in terms of the journal fields and of the rows returned. */
module LogFilters {
  import opened Prelude
  import opened Text
  import opened Journal
  import opened LogReader

  /** All entries a query returns rows of. */
  function Answer(lib: Library, query: LogQuery, entries: seq<Entry>): seq<Entry>
    requires Prepare(lib, query, entries).Ok?
  {
    Pending(Prepare(lib, query, entries).value, entries, query.cursor)
  }

  /** The row an entry is returned as. */
  function RowOf(lib: Library, query: LogQuery, e: Entry): JournalLogEntry {
    Filters(lib, query, None).Row(e)
  }

  // ----- Rows -----

  /** A row shows the journal fields: the unit the scope asks for, system before user unit when it asks
      for both, and priority and process number when they are numbers of the right size. */
  lemma RowShowsFields(lib: Library, query: LogQuery, e: Entry, n: nat)
    ensures var row := RowOf(lib, query, e);
            && row.timestampUtc == lib.formatMillis(e.realtime)
            && row.hostname == e.hostname
            && row.cursor == Some(e.cursor)
            && (query.scope == System ==> row.unit == e.systemUnit)
            && (query.scope == User ==> row.unit == e.userUnit)
            && (query.scope == Both ==> row.unit == if e.systemUnit.Some? then e.systemUnit else e.userUnit)
            && (e.priority == None ==> row.priority == None)
            && (e.priority == Some(Decimal(n)) ==> row.priority == if n <= 255 then e.priority else None)
            && (e.pid == None ==> row.pid == None)
            && (e.pid == Some(Decimal(n)) ==> row.pid == if n <= 0x7fff_ffff then Some(n) else None)
  {
    hide ParseU8, ParseI32, Decimal, SanitizeLogMessage;
    ParseU8Reads(n, "");
    ParseI32Reads(n, "");
  }

  /** A line break or tab. */
  predicate IsLayout(c: char) {
    c == '\n' || c == '\r' || c == '\t'
  }

  /** A message that is neither blank nor padded is shown with a space for every control character that
      is not a line break or tab, and otherwise as it is; a blank or missing one is not shown. */
  lemma MessageIsShownAs(lib: Library, query: LogQuery, e: Entry, shown: string)
    ensures var row := RowOf(lib, query, e);
            && (e.message.None? || lib.trim(e.message.value) == [] ==> row.message == None)
            && (&& e.message.Some? && lib.trim(e.message.value) == e.message.value
                && shown != [] && lib.trim(shown) == shown && |shown| == |e.message.value|
                && (forall i :: 0 <= i < |shown| ==>
                      var c := e.message.value[i];
                      shown[i] == if lib.isControl(c) && !IsLayout(c) then ' ' else c) ==>
                  row.message == Some(shown))
  {
    if && e.message.Some? && lib.trim(e.message.value) == e.message.value
       && shown != [] && lib.trim(shown) == shown && |shown| == |e.message.value|
       && forall i :: 0 <= i < |shown| ==>
            var c := e.message.value[i];
            shown[i] == if lib.isControl(c) && !IsLayout(c) then ' ' else c
    {
      var text := e.message.value;
      assert Map(c => if lib.isControl(c) && c !in "\n\r\t" then ' ' else c, text) == shown;
    }
  }

  /** Trimming puts no new characters into a string. */
  ghost predicate TrimAddsNothing(trim: string -> string) {
    forall s: string, c: char :: c in trim(s) ==> c in s
  }

  /** No shown message is blank or padded or holds a control character besides line breaks and tabs. */
  lemma ShownMessagesAreClean(lib: Library, query: LogQuery, e: Entry)
    requires TrimAddsNothing(lib.trim) && !lib.isControl(' ')
    requires forall s :: lib.trim(lib.trim(s)) == lib.trim(s)
    ensures var shown := RowOf(lib, query, e).message;
            shown.Some? ==>
              && shown.value != [] && lib.trim(shown.value) == shown.value
              && forall c <- shown.value :: lib.isControl(c) ==> IsLayout(c)
  {
    if e.message.Some? {
      SpacedHasNoControls(lib, lib.trim(e.message.value));
    }
  }

  lemma SpacedHasNoControls(lib: Library, text: string)
    requires TrimAddsNothing(lib.trim) && !lib.isControl(' ')
    ensures var spaced := Map(c => if lib.isControl(c) && c !in "\n\r\t" then ' ' else c, text);
            forall c <- lib.trim(spaced) :: lib.isControl(c) ==> IsLayout(c)
  {
    var spaced := Map(c => if lib.isControl(c) && c !in "\n\r\t" then ' ' else c, text);
    forall c | c in spaced && lib.isControl(c) ensures IsLayout(c) {
      var k :| 0 <= k < |spaced| && spaced[k] == c;
    }
  }

  // ----- Filters -----

  /** Without filters a query returns everything in its window, both ends included, in whole
      microseconds. */
  lemma UnfilteredAnswer(lib: Library, query: LogQuery, entries: seq<Entry>)
    requires Prepare(lib, query, entries).Ok?
    requires query.priority == query.unit == query.grep == None && query.excludeUnits == []
    ensures var inWindow := (e: Entry) =>
              && query.startUtc.value / 1000 <= e.realtime <= query.endUtc.value / 1000
              && e.realtime <= 9_223_372_036_854_775_807
              && lib.representable(e.realtime);
            Answer(lib, query, entries) == Filter(inWindow, Rest(query.order, entries, query.cursor))
  {
    hide Rest, SanitizeLogMessage, Filter;
    var s := Prepare(lib, query, entries).value;
    var inWindow := (e: Entry) =>
      && query.startUtc.value / 1000 <= e.realtime <= query.endUtc.value / 1000
      && e.realtime <= 9_223_372_036_854_775_807
      && lib.representable(e.realtime);
    FilterAgree(s.Matching(), inWindow, Rest(query.order, entries, query.cursor));
  }

  /** Two queries that differ in their filters only, the first asking for `extra` besides. */
  lemma Narrows(lib: Library, query: LogQuery, wider: LogQuery, entries: seq<Entry>, extra: Entry -> bool)
    requires Prepare(lib, query, entries).Ok? && Prepare(lib, wider, entries).Ok?
    requires query.order == wider.order && query.cursor == wider.cursor
    requires forall e ::
               Prepare(lib, query, entries).value.Matches(e)
               <==> Prepare(lib, wider, entries).value.Matches(e) && extra(e)
    ensures Answer(lib, query, entries) == Filter(extra, Answer(lib, wider, entries))
  {
    hide Rest, Filter;
    var s, t := Prepare(lib, query, entries).value, Prepare(lib, wider, entries).value;
    FilterBoth(s.Matching(), t.Matching(), extra, Rest(query.order, entries, query.cursor));
  }

  /** A priority filter keeps the entries whose priority is a number not above it. */
  lemma PriorityNarrows(lib: Library, query: LogQuery, entries: seq<Entry>, threshold: nat)
    requires Prepare(lib, query, entries).Ok? && query.priority == Some(Decimal(threshold)) && threshold <= 255
    ensures Prepare(lib, query.(priority := None), entries).Ok?
    ensures var urgent := (e: Entry) =>
              e.priority.Some? && ParseU8(e.priority.value).Some? && ParseU8(e.priority.value).value <= threshold;
            Answer(lib, query, entries) == Filter(urgent, Answer(lib, query.(priority := None), entries))
  {
    hide ParseU8, Decimal, SanitizeLogMessage;
    ParseU8Reads(threshold, "");
    Narrows(
      lib, query, query.(priority := None), entries,
      (e: Entry) =>
        e.priority.Some? && ParseU8(e.priority.value).Some? && ParseU8(e.priority.value).value <= threshold);
  }

  /** A unit filter keeps the entries whose row shows that unit, whatever the case of its letters. */
  lemma UnitNarrows(lib: Library, query: LogQuery, entries: seq<Entry>)
    requires Prepare(lib, query, entries).Ok? && query.unit.Some?
    ensures Prepare(lib, query.(unit := None), entries).Ok?
    ensures var named := (e: Entry) =>
              var unit := RowOf(lib, query, e).unit;
              unit.Some? && EqIgnoreAsciiCase(unit.value, query.unit.value);
            Answer(lib, query, entries) == Filter(named, Answer(lib, query.(unit := None), entries))
  {
    hide EqIgnoreAsciiCase, SanitizeLogMessage;
    Narrows(
      lib, query, query.(unit := None), entries,
      (e: Entry) =>
        var unit := RowOf(lib, query, e).unit;
        unit.Some? && EqIgnoreAsciiCase(unit.value, query.unit.value));
  }

  /** Excluding one more unit drops the entries whose row shows that unit, and no others. */
  lemma ExclusionNarrows(lib: Library, query: LogQuery, entries: seq<Entry>, excluded: string)
    requires Prepare(lib, query, entries).Ok?
    ensures Prepare(lib, query.(excludeUnits := query.excludeUnits + [excluded]), entries).Ok?
    ensures var others := (e: Entry) =>
              var unit := RowOf(lib, query, e).unit;
              unit.Some? ==> !EqIgnoreAsciiCase(excluded, unit.value);
            Answer(lib, query.(excludeUnits := query.excludeUnits + [excluded]), entries)
            == Filter(others, Answer(lib, query, entries))
  {
    hide EqIgnoreAsciiCase, SanitizeLogMessage;
    var narrower := query.(excludeUnits := query.excludeUnits + [excluded]);
    assert forall name :: name in narrower.excludeUnits <==> name in query.excludeUnits || name == excluded;
    Narrows(
      lib, narrower, query, entries,
      (e: Entry) =>
        var unit := RowOf(lib, query, e).unit;
        unit.Some? ==> !EqIgnoreAsciiCase(excluded, unit.value));
  }

  predicate IsSlashDelimited(text: string) {
    2 <= |text| && text[0] == '/' && text[|text| - 1] == '/'
  }

  /** A search text between slashes is a regular expression, any other a literal. */
  predicate Finds(lib: Library, text: string, message: string) {
    if IsSlashDelimited(text) then lib.regexMatches(text[1..|text| - 1], message) else Contains(message, text)
  }

  lemma SearchDecides(lib: Library, query: LogQuery, matcher: Option<GrepMatcher>, e: Entry)
    requires query.grep.Some? && BuildGrepMatcher(lib, query.grep) == Result.Ok(matcher)
    ensures Filters(lib, query, matcher).MessageAccepted(e)
            <==> var message := SanitizeLogMessage(lib, e.message);
                 message.Some? && Finds(lib, lib.trim(query.grep.value), message.value)
    ensures Filters(lib, query.(grep := None), None).MessageAccepted(e)
  {
    hide SanitizeLogMessage, Contains;
    if SanitizeLogMessage(lib, e.message).Some? {
      EmptyIsContained(SanitizeLogMessage(lib, e.message).value);
    }
  }

  /** A search keeps the entries whose row shows a message in which the trimmed text is found. */
  lemma GrepNarrows(lib: Library, query: LogQuery, entries: seq<Entry>)
    requires Prepare(lib, query, entries).Ok? && query.grep.Some?
    ensures Prepare(lib, query.(grep := None), entries).Ok?
    ensures var found := (e: Entry) =>
              var message := RowOf(lib, query, e).message;
              message.Some? && Finds(lib, lib.trim(query.grep.value), message.value);
            Answer(lib, query, entries) == Filter(found, Answer(lib, query.(grep := None), entries))
  {
    hide SanitizeLogMessage, MatchesGrep, Finds;
    var matcher := BuildGrepMatcher(lib, query.grep).value;
    forall e: Entry
      ensures Filters(lib, query.(cursor := None), matcher).MessageAccepted(e)
              <==> var message := RowOf(lib, query, e).message;
                   message.Some? && Finds(lib, lib.trim(query.grep.value), message.value)
      ensures Filters(lib, query.(cursor := None).(grep := None), None).MessageAccepted(e)
    {
      SearchDecides(lib, query.(cursor := None), matcher, e);
    }
    assert query.(cursor := None).(grep := None) == query.(grep := None).(cursor := None);
    Narrows(
      lib, query, query.(grep := None), entries,
      (e: Entry) =>
        var message := RowOf(lib, query, e).message;
        message.Some? && Finds(lib, lib.trim(query.grep.value), message.value));
  }

  lemma EmptyIsContained(s: string)
    ensures Contains(s, [])
  {
  }

  /** A query is refused exactly for a regular expression that does not compile, then for a missing
      bound, then for a cursor that names no entry. */
  lemma RefusedIff(lib: Library, query: LogQuery, entries: seq<Entry>)
    ensures var prepared := Prepare(lib, query, entries);
            var text := if query.grep.Some? then lib.trim(query.grep.value) else "";
            var badPattern := IsSlashDelimited(text) && !lib.compiles(text[1..|text| - 1]);
            var noRange := query.startUtc.None? || query.endUtc.None?;
            var badCursor := query.cursor.Some? && forall e <- entries :: e.cursor != query.cursor.value;
            && (prepared.Err? <==> badPattern || noRange || badCursor)
            && (badPattern ==> prepared == Err(InvalidGrep))
            && (!badPattern && noRange ==> prepared == Err(MissingTimeRange))
            && (!badPattern && !noRange && badCursor ==> prepared == Err(InvalidCursor))
  {
    hide IndexOf;
  }

  /** In time order, rows come out oldest first when ascending and newest first when descending. */
  lemma AnswerIsOrdered(lib: Library, query: LogQuery, entries: seq<Entry>, i: nat, j: nat)
    requires Prepare(lib, query, entries).Ok? && Ordered(entries) && i < j < |Answer(lib, query, entries)|
    ensures var a, b := Answer(lib, query, entries)[i], Answer(lib, query, entries)[j];
            if query.order == Asc then a.realtime <= b.realtime else b.realtime <= a.realtime
  {
    hide Ordered, Filter, View, RestStart;
    PendingIsOrdered(Prepare(lib, query, entries).value, entries, query.cursor, i, j);
  }

  lemma PendingIsOrdered(s: Scan, entries: seq<Entry>, cursor: Option<string>, i: nat, j: nat)
    requires Ordered(entries) && i < j < |Pending(s, entries, cursor)|
    ensures var a, b := Pending(s, entries, cursor)[i], Pending(s, entries, cursor)[j];
            if s.order.Asc? then a.realtime <= b.realtime else b.realtime <= a.realtime
  {
    hide Ordered, Filter, View, RestStart;
    var rest := Rest(s.order, entries, cursor);
    FilterKeepsOrder(s.Matching(), rest, i, j);
    var a, b :| 0 <= a < b < |rest|
                && rest[a] == Filter(s.Matching(), rest)[i] && rest[b] == Filter(s.Matching(), rest)[j];
    var p := RestStart(s.order, entries, cursor);
    ViewOrdered(s.order, entries, p + a, p + b);
  }

  lemma FilterKeepsOrder<T>(p: T -> bool, t: seq<T>, i: nat, j: nat)
    requires i < j < |Filter(p, t)|
    ensures exists a, b :: 0 <= a < b < |t| && t[a] == Filter(p, t)[i] && t[b] == Filter(p, t)[j]
  {
    hide Filter, NthIndex;
    FilterSplits(p, t, i);
    var a := NthIndex(p, t, i);
    var rest := t[a + 1..];
    FilterSplits(p, rest, j - i - 1);
    var b := NthIndex(p, rest, j - i - 1);
    assert t[a + 1 + b] == rest[b] == Filter(p, t)[j];
  }
}
