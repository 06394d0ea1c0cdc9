/** The journal as libsystemd exposes it: an entry sequence and a reader that seeks and steps.

    That cursors identify entries is an assumption of the whole model, stated in `Store.Valid`. That
    timestamps never decrease along the journal is an assumption of the theorems that say `Ordered`. */
module Journal {
  import opened Prelude

  datatype Entry = Entry(
    cursor: string,
    realtime: nat,
    systemUnit: Option<string>,
    userUnit: Option<string>,
    priority: Option<string>,
    hostname: Option<string>,
    pid: Option<string>,
    message: Option<string>)

  ghost predicate Ordered(entries: seq<Entry>) {
    forall i, j :: 0 <= i < j < |entries| ==> entries[i].realtime <= entries[j].realtime
  }

  ghost predicate DistinctCursors(entries: seq<Entry>) {
    forall i, j :: 0 <= i < j < |entries| ==> entries[i].cursor != entries[j].cursor
  }

  /** An opened journal. `parses` says which strings are cursors at all, and `nearest` where the
      library lands when a cursor's entry no longer exists (past the end: nowhere). */
  datatype Store = Store(entries: seq<Entry>, parses: string -> bool, nearest: string -> nat) {
    ghost predicate Valid() {
      && DistinctCursors(entries)
      && forall e <- entries :: parses(e.cursor)
    }
  }

  /** The index of the entry a cursor names. */
  function IndexOf(entries: seq<Entry>, cursor: string): (r: Option<nat>)
    ensures r.Some? ==> r.value < |entries| && entries[r.value].cursor == cursor
    ensures r.None? ==> forall i :: 0 <= i < |entries| ==> entries[i].cursor != cursor
  {
    if entries == [] then None
    else if entries[0].cursor == cursor then Some(0)
    else
      match IndexOf(entries[1..], cursor)
      case None => None
      case Some(i) => Some(i + 1)
  }

  lemma IndexIsUnique(entries: seq<Entry>, i: nat)
    requires DistinctCursors(entries) && i < |entries|
    ensures IndexOf(entries, entries[i].cursor) == Some(i)
  {
  }

  function FirstAtOrAfter(entries: seq<Entry>, usec: nat): (i: nat)
    ensures i <= |entries|
    ensures forall k :: 0 <= k < i ==> entries[k].realtime < usec
    ensures i < |entries| ==> usec <= entries[i].realtime
  {
    if entries == [] || usec <= entries[0].realtime then 0 else 1 + FirstAtOrAfter(entries[1..], usec)
  }

  function LastAtOrBefore(entries: seq<Entry>, usec: nat): (i: int)
    ensures -1 <= i < |entries|
    ensures forall k :: i < k < |entries| ==> usec < entries[k].realtime
    ensures 0 <= i ==> entries[i].realtime <= usec
  {
    if entries == [] then -1
    else if entries[|entries| - 1].realtime <= usec then |entries| - 1
    else LastAtOrBefore(entries[..|entries| - 1], usec)
  }

  datatype Location = Head | Tail | Realtime(usec: nat) | Cursor(cursor: string) | On(index: nat)

  /** The entry that stepping forward selects; past the end when there is none. */
  function Forward(store: Store, at: Location): nat {
    match at
    case Head => 0
    case Tail => |store.entries|
    case Realtime(usec) => FirstAtOrAfter(store.entries, usec)
    case Cursor(cursor) =>
      (match IndexOf(store.entries, cursor)
       case Some(i) => i
       case None => store.nearest(cursor))
    case On(i) => i + 1
  }

  /** The entry that stepping backward selects; negative when there is none. */
  function Backward(store: Store, at: Location): int {
    match at
    case Head => -1
    case Tail => |store.entries| - 1
    case Realtime(usec) => LastAtOrBefore(store.entries, usec)
    case Cursor(cursor) =>
      (match IndexOf(store.entries, cursor)
       case Some(i) => i
       case None => Min(store.nearest(cursor), |store.entries|) - 1)
    case On(i) => i - 1
  }

  class Reader {
    const store: Store
    var at: Location

    ghost predicate Valid()
      reads this
    {
      store.Valid() && (at.On? ==> at.index < |store.entries|)
    }

    constructor (store: Store)
      requires store.Valid()
      ensures Valid() && this.store == store && at == Head
    {
      this.store := store;
      this.at := Head;
    }

    method SeekHead()
      requires Valid()
      modifies this
      ensures Valid() && at == Head
    {
      at := Head;
    }

    method SeekTail()
      requires Valid()
      modifies this
      ensures Valid() && at == Tail
    {
      at := Tail;
    }

    method SeekRealtimeUsec(usec: nat)
      requires Valid()
      modifies this
      ensures Valid() && at == Realtime(usec)
    {
      at := Realtime(usec);
    }

    /** Fails only for strings that are not cursors. */
    method SeekCursor(cursor: string) returns (ok: bool)
      requires Valid()
      modifies this
      ensures Valid() && ok == store.parses(cursor)
      ensures at == if ok then Cursor(cursor) else old(at)
    {
      ok := store.parses(cursor);
      if ok {
        at := Cursor(cursor);
      }
    }

    /** Returns the number of entries advanced, as `sd_journal_next` does. */
    method Next() returns (advanced: nat)
      requires Valid()
      modifies this
      ensures Valid()
      ensures var i := Forward(store, old(at));
              if i < |store.entries| then advanced == 1 && at == On(i) else advanced == 0 && at == old(at)
    {
      var i := Forward(store, at);
      advanced := 0;
      if i < |store.entries| {
        at, advanced := On(i), 1;
      }
    }

    method Previous() returns (advanced: nat)
      requires Valid()
      modifies this
      ensures Valid()
      ensures var i := Backward(store, old(at));
              if 0 <= i then advanced == 1 && at == On(i) else advanced == 0 && at == old(at)
    {
      var i := Backward(store, at);
      advanced := 0;
      if 0 <= i {
        at, advanced := On(i), 1;
      }
    }

    /** The selected entry; its fields are read one by one in the original. */
    function Selected(): Entry
      requires Valid() && at.On?
      reads this
    {
      store.entries[at.index]
    }

    predicate TestCursor(cursor: string)
      requires Valid() && at.On?
      reads this
    {
      Selected().cursor == cursor
    }
  }
}
