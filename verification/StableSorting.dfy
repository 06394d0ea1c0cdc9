/** Rust's stable `sort_by`, its characterisation, and what follows from it: a stable sort is
    determined by its input, agrees with a two-way merge, and cuts cleanly at any rank. */
module StableSorting {
  import opened Prelude

  ghost predicate TotalPreorder<T(!new)>(leq: (T, T) -> bool) {
    && (forall x, y :: leq(x, y) || leq(y, x))
    && (forall x, y, z :: leq(x, y) && leq(y, z) ==> leq(x, z))
  }

  ghost predicate Sorted<T>(leq: (T, T) -> bool, s: seq<T>) {
    forall i, j :: 0 <= i < j < |s| ==> leq(s[i], s[j])
  }

  /** The elements of `s` that tie with `x`, in order. */
  function Ties<T>(leq: (T, T) -> bool, x: T, s: seq<T>): seq<T> {
    if s == [] then []
    else (if leq(x, s[0]) && leq(s[0], x) then [s[0]] else []) + Ties(leq, x, s[1..])
  }

  /** `r` is `s` sorted, with tied elements in their original order. */
  ghost predicate IsStableSort<T(!new)>(leq: (T, T) -> bool, s: seq<T>, r: seq<T>) {
    Sorted(leq, r) && forall x :: Ties(leq, x, r) == Ties(leq, x, s)
  }

  function Insert<T>(leq: (T, T) -> bool, x: T, s: seq<T>): seq<T> {
    if s == [] || leq(x, s[0]) then [x] + s else [s[0]] + Insert(leq, x, s[1..])
  }

  function StableSort<T>(leq: (T, T) -> bool, s: seq<T>): seq<T> {
    if s == [] then [] else Insert(leq, s[0], StableSort(leq, s[1..]))
  }

  lemma {:induction false} TiesMembers<T>(leq: (T, T) -> bool, x: T, s: seq<T>, y: T)
    ensures y in Ties(leq, x, s) <==> y in s && leq(x, y) && leq(y, x)
  {
    if s != [] {
      TiesMembers(leq, x, s[1..], y);
      assert s == [s[0]] + s[1..];
    }
  }

  lemma {:induction false} TiesConcat<T>(leq: (T, T) -> bool, x: T, a: seq<T>, b: seq<T>)
    ensures Ties(leq, x, a + b) == Ties(leq, x, a) + Ties(leq, x, b)
  {
    if a == [] {
      assert a + b == b;
    } else {
      assert (a + b)[1..] == a[1..] + b;
      TiesConcat(leq, x, a[1..], b);
    }
  }

  lemma {:induction false} InsertSorted<T(!new)>(leq: (T, T) -> bool, x: T, s: seq<T>)
    requires TotalPreorder(leq) && Sorted(leq, s)
    ensures Sorted(leq, Insert(leq, x, s))
    ensures multiset(Insert(leq, x, s)) == multiset{x} + multiset(s)
  {
    if s == [] || leq(x, s[0]) {
      SortedCons(leq, x, s);
    } else {
      var tail := Insert(leq, x, s[1..]);
      InsertSorted(leq, x, s[1..]);
      assert s == [s[0]] + s[1..];
      forall y | y in tail ensures leq(s[0], y) {
        assert y in multiset(tail);
      }
      SortedCons(leq, s[0], tail);
    }
  }

  lemma SortedCons<T(!new)>(leq: (T, T) -> bool, x: T, s: seq<T>)
    requires TotalPreorder(leq) && Sorted(leq, s)
    requires s == [] || leq(x, s[0]) || forall y :: y in s ==> leq(x, y)
    ensures Sorted(leq, [x] + s)
  {
    forall y | y in s ensures leq(x, y) {
      HeadIsLeast(leq, s, y);
    }
  }

  /** At most one of two elements that do not tie with each other ties with `t`. */
  lemma SingleTies<T(!new)>(leq: (T, T) -> bool, t: T, x: T, y: T)
    requires TotalPreorder(leq) && !leq(x, y)
    ensures Ties(leq, t, [x]) + Ties(leq, t, [y]) == Ties(leq, t, [y]) + Ties(leq, t, [x])
  {
  }

  /** Inserting before the first element that is not smaller keeps an earlier element first. */
  lemma {:induction false} InsertTies<T(!new)>(leq: (T, T) -> bool, x: T, s: seq<T>, t: T)
    requires TotalPreorder(leq)
    ensures Ties(leq, t, Insert(leq, x, s)) == Ties(leq, t, [x]) + Ties(leq, t, s)
  {
    hide Ties;
    if s == [] || leq(x, s[0]) {
      TiesConcat(leq, t, [x], s);
    } else {
      InsertTies(leq, x, s[1..], t);
      TiesConcat(leq, t, [s[0]], Insert(leq, x, s[1..]));
      TiesConcat(leq, t, [s[0]], s[1..]);
      assert [s[0]] + s[1..] == s;
      SingleTies(leq, t, x, s[0]);
      var tx, ty, rest := Ties(leq, t, [x]), Ties(leq, t, [s[0]]), Ties(leq, t, s[1..]);
      assert ty + (tx + rest) == (ty + tx) + rest && (tx + ty) + rest == tx + (ty + rest);
    }
  }

  /** `StableSort` is a stable sort and a permutation of its input. */
  lemma {:induction false} SortIsStable<T(!new)>(leq: (T, T) -> bool, s: seq<T>)
    requires TotalPreorder(leq)
    ensures IsStableSort(leq, s, StableSort(leq, s))
    ensures multiset(StableSort(leq, s)) == multiset(s)
    ensures |StableSort(leq, s)| == |s|
  {
    if s != [] {
      var tail := StableSort(leq, s[1..]);
      SortIsStable(leq, s[1..]);
      InsertSorted(leq, s[0], tail);
      assert s == [s[0]] + s[1..];
      forall x ensures Ties(leq, x, StableSort(leq, s)) == Ties(leq, x, s) {
        InsertTies(leq, s[0], tail, x);
        TiesConcat(leq, x, [s[0]], s[1..]);
      }
      assert |multiset(StableSort(leq, s))| == |multiset(s)|;
    }
  }

  /** The head of a sorted sequence is a least element. */
  lemma HeadIsLeast<T(!new)>(leq: (T, T) -> bool, s: seq<T>, y: T)
    requires TotalPreorder(leq) && Sorted(leq, s) && y in s
    ensures leq(s[0], y)
  {
  }

  /** Two sorted sequences with the same ties everywhere are equal. */
  lemma {:induction false} SortedByTies<T(!new)>(leq: (T, T) -> bool, a: seq<T>, b: seq<T>)
    requires TotalPreorder(leq) && Sorted(leq, a) && Sorted(leq, b)
    requires forall x :: Ties(leq, x, a) == Ties(leq, x, b)
    ensures a == b
  {
    if a != [] && b != [] {
      var x, y := a[0], b[0];
      TiesMembers(leq, x, a, x);
      TiesMembers(leq, x, b, x);
      TiesMembers(leq, y, b, y);
      TiesMembers(leq, y, a, y);
      HeadIsLeast(leq, a, y);
      HeadIsLeast(leq, b, x);
      assert Ties(leq, x, a)[0] == x && Ties(leq, x, b)[0] == y;
      forall t ensures Ties(leq, t, a[1..]) == Ties(leq, t, b[1..]) {
        var h := if leq(t, x) && leq(x, t) then [x] else [];
        assert h + Ties(leq, t, a[1..]) == Ties(leq, t, a) == Ties(leq, t, b) == h + Ties(leq, t, b[1..]);
        assert (h + Ties(leq, t, a[1..]))[|h|..] == Ties(leq, t, a[1..]);
        assert (h + Ties(leq, t, b[1..]))[|h|..] == Ties(leq, t, b[1..]);
      }
      SortedByTies(leq, a[1..], b[1..]);
      assert a == [x] + a[1..] && b == [y] + b[1..];
    } else if a != [] {
      TiesMembers(leq, a[0], a, a[0]);
      TiesMembers(leq, a[0], b, a[0]);
    } else if b != [] {
      TiesMembers(leq, b[0], b, b[0]);
      TiesMembers(leq, b[0], a, b[0]);
    }
  }

  /** A stable sort is determined by its input: any implementation computes `StableSort`. */
  lemma StableSortIsUnique<T(!new)>(leq: (T, T) -> bool, s: seq<T>, r: seq<T>)
    requires TotalPreorder(leq) && IsStableSort(leq, s, r)
    ensures r == StableSort(leq, s)
  {
    SortIsStable(leq, s);
    forall x ensures Ties(leq, x, r) == Ties(leq, x, StableSort(leq, s)) {
      assert Ties(leq, x, r) == Ties(leq, x, s);
    }
    SortedByTies(leq, r, StableSort(leq, s));
  }

  /** `[T]::sort_by`: sorts in place; the order must be total, as the original demands. */
  method SortBy<T(!new)>(a: array<T>, leq: (T, T) -> bool)
    requires TotalPreorder(leq)
    modifies a
    ensures IsStableSort(leq, old(a[..]), a[..])
    ensures multiset(a[..]) == multiset(old(a[..]))
  {
    hide StableSort, IsStableSort, TotalPreorder;
    var sorted := StableSort(leq, a[..]);
    SortIsStable(leq, a[..]);
    forall i | 0 <= i < a.Length {
      a[i] := sorted[i];
    }
    assert a[..] == sorted;
  }

  lemma {:induction false} InsertLength<T>(leq: (T, T) -> bool, x: T, s: seq<T>)
    ensures |Insert(leq, x, s)| == |s| + 1
  {
    if s != [] && !leq(x, s[0]) {
      InsertLength(leq, x, s[1..]);
    }
  }

  lemma {:induction false} SortLength<T>(leq: (T, T) -> bool, s: seq<T>)
    ensures |StableSort(leq, s)| == |s|
  {
    if s != [] {
      SortLength(leq, s[1..]);
      InsertLength(leq, s[0], StableSort(leq, s[1..]));
    }
  }

  /** Cutting a stable sort anywhere keeps a stable sorted prefix: what is kept and what is dropped
      are together the input, and nothing dropped sorts before anything kept. */
  lemma CutKeepsLeast<T(!new)>(leq: (T, T) -> bool, s: seq<T>, n: nat)
    requires TotalPreorder(leq) && n <= |StableSort(leq, s)|
    ensures var r := StableSort(leq, s);
            && IsStableSort(leq, s, r[..n] + r[n..])
            && multiset(r[..n]) + multiset(r[n..]) == multiset(s)
            && forall kept, dropped :: kept in r[..n] && dropped in r[n..] ==> leq(kept, dropped)
  {
    hide StableSort, Ties;
    SortIsStable(leq, s);
    var r := StableSort(leq, s);
    assert r == r[..n] + r[n..];
    forall kept, dropped | kept in r[..n] && dropped in r[n..] ensures leq(kept, dropped) {
      var i :| 0 <= i < n && r[..n][i] == kept;
      var j :| 0 <= j < |r| - n && r[n..][j] == dropped;
      assert leq(r[i], r[n + j]);
    }
  }

  // ----- Merging -----

  /** Two-way merge that prefers the left sequence on ties. */
  function Merge<T>(leq: (T, T) -> bool, a: seq<T>, b: seq<T>): seq<T>
    decreases |a| + |b|
  {
    if a == [] then b
    else if b == [] then a
    else if leq(a[0], b[0]) then [a[0]] + Merge(leq, a[1..], b)
    else [b[0]] + Merge(leq, a, b[1..])
  }

  lemma {:induction false} MergeMembers<T>(leq: (T, T) -> bool, a: seq<T>, b: seq<T>)
    ensures multiset(Merge(leq, a, b)) == multiset(a) + multiset(b)
    decreases |a| + |b|
  {
    if a != [] && b != [] {
      assert a == [a[0]] + a[1..] && b == [b[0]] + b[1..];
      if leq(a[0], b[0]) {
        MergeMembers(leq, a[1..], b);
      } else {
        MergeMembers(leq, a, b[1..]);
      }
    }
  }

  /** Nothing in a sorted sequence ties with an element strictly below its head. */
  lemma NoTiesBelowHead<T(!new)>(leq: (T, T) -> bool, x: T, a: seq<T>)
    requires TotalPreorder(leq) && Sorted(leq, a)
    requires a != [] && !leq(a[0], x)
    ensures Ties(leq, x, a) == []
  {
    if Ties(leq, x, a) != [] {
      var y := Ties(leq, x, a)[0];
      TiesMembers(leq, x, a, y);
      HeadIsLeast(leq, a, y);
    }
  }

  lemma TiesOfNothing<T>(leq: (T, T) -> bool, x: T)
    ensures Ties(leq, x, []) == []
  {
  }

  lemma SortedTail<T>(leq: (T, T) -> bool, s: seq<T>)
    requires Sorted(leq, s) && s != []
    ensures Sorted(leq, s[1..])
  {
  }

  lemma TiesCons<T>(leq: (T, T) -> bool, x: T, y: T, s: seq<T>)
    ensures Ties(leq, x, [y] + s) == if leq(x, y) && leq(y, x) then [y] + Ties(leq, x, s) else Ties(leq, x, s)
  {
    assert ([y] + s)[1..] == s;
  }

  lemma {:induction false} MergeTies<T(!new)>(leq: (T, T) -> bool, x: T, a: seq<T>, b: seq<T>)
    requires TotalPreorder(leq) && Sorted(leq, a)
    ensures Ties(leq, x, Merge(leq, a, b)) == Ties(leq, x, a) + Ties(leq, x, b)
    decreases |a| + |b|
  {
    hide Ties, Sorted;
    TiesOfNothing(leq, x);
    if a != [] && b != [] {
      var ta, tb := Ties(leq, x, a), Ties(leq, x, b);
      if leq(a[0], b[0]) {
        SortedTail(leq, a);
        MergeTies(leq, x, a[1..], b);
        TiesCons(leq, x, a[0], Merge(leq, a[1..], b));
        TiesCons(leq, x, a[0], a[1..]);
        assert [a[0]] + a[1..] == a;
      } else {
        MergeTies(leq, x, a, b[1..]);
        TiesCons(leq, x, b[0], Merge(leq, a, b[1..]));
        TiesCons(leq, x, b[0], b[1..]);
        assert [b[0]] + b[1..] == b;
        if leq(x, b[0]) && leq(b[0], x) {
          NoTiesBelowHead(leq, x, a);
          assert ta + tb == tb;
        }
      }
    }
  }

  lemma {:induction false} MergeSorted<T(!new)>(leq: (T, T) -> bool, a: seq<T>, b: seq<T>)
    requires TotalPreorder(leq) && Sorted(leq, a) && Sorted(leq, b)
    ensures Sorted(leq, Merge(leq, a, b))
    decreases |a| + |b|
  {
    if a != [] && b != [] {
      var fromA := leq(a[0], b[0]);
      var a', b' := if fromA then a[1..] else a, if fromA then b else b[1..];
      var head := if fromA then a[0] else b[0];
      MergeSorted(leq, a', b');
      MergeMembers(leq, a', b');
      forall y | y in Merge(leq, a', b') ensures leq(head, y) {
        assert y in multiset(Merge(leq, a', b'));
        assert y in a' || y in b';
        if y in a {
          HeadIsLeast(leq, a, y);
        } else {
          HeadIsLeast(leq, b, y);
        }
      }
      SortedCons(leq, head, Merge(leq, a', b'));
    }
  }

  /** Stably sorting a concatenation is merging the two sorted halves, left half first on ties. */
  lemma SortOfConcatIsMerge<T(!new)>(leq: (T, T) -> bool, a: seq<T>, b: seq<T>)
    requires TotalPreorder(leq)
    ensures StableSort(leq, a + b) == Merge(leq, StableSort(leq, a), StableSort(leq, b))
  {
    var sa, sb := StableSort(leq, a), StableSort(leq, b);
    SortIsStable(leq, a);
    SortIsStable(leq, b);
    MergeSorted(leq, sa, sb);
    forall x ensures Ties(leq, x, Merge(leq, sa, sb)) == Ties(leq, x, a + b) {
      MergeTies(leq, x, sa, sb);
      TiesConcat(leq, x, a, b);
    }
    StableSortIsUnique(leq, a + b, Merge(leq, sa, sb));
  }

  lemma SortedIsFixed<T(!new)>(leq: (T, T) -> bool, s: seq<T>)
    requires TotalPreorder(leq) && Sorted(leq, s)
    ensures StableSort(leq, s) == s
  {
    StableSortIsUnique(leq, s, s);
  }

  // ----- Sorting and filtering -----

  lemma {:induction false} InsertFilterCount<T>(p: T -> bool, leq: (T, T) -> bool, x: T, s: seq<T>)
    ensures |Filter(p, Insert(leq, x, s))| == |Filter(p, s)| + if p(x) then 1 else 0
  {
    if s == [] || leq(x, s[0]) {
      assert ([x] + s)[1..] == s;
    } else {
      InsertFilterCount(p, leq, x, s[1..]);
      assert Insert(leq, x, s)[1..] == Insert(leq, x, s[1..]);
    }
  }

  /** Sorting keeps the number of elements with any property. */
  lemma {:induction false} SortFilterCount<T>(p: T -> bool, leq: (T, T) -> bool, s: seq<T>)
    ensures |Filter(p, StableSort(leq, s))| == |Filter(p, s)|
  {
    if s != [] {
      SortFilterCount(p, leq, s[1..]);
      InsertFilterCount(p, leq, s[0], StableSort(leq, s[1..]));
    }
  }

  lemma {:induction false} SortMembers<T>(leq: (T, T) -> bool, s: seq<T>, x: T)
    ensures x in StableSort(leq, s) <==> x in s
  {
    if s != [] {
      SortMembers(leq, s[1..], x);
      InsertMembers(leq, s[0], StableSort(leq, s[1..]), x);
      assert s == [s[0]] + s[1..];
    }
  }

  lemma {:induction false} InsertMembers<T>(leq: (T, T) -> bool, y: T, s: seq<T>, x: T)
    ensures x in Insert(leq, y, s) <==> x == y || x in s
  {
    if s != [] && !leq(y, s[0]) {
      InsertMembers(leq, y, s[1..], x);
      assert s == [s[0]] + s[1..];
    }
  }

  /** A merge keeps the order within each side: picking out one side's elements gives that side. */
  lemma {:induction false} MergeKeepsSides<T>(p: T -> bool, leq: (T, T) -> bool, a: seq<T>, b: seq<T>)
    requires (forall x :: x in a ==> p(x)) && (forall y :: y in b ==> !p(y))
    ensures Filter(p, Merge(leq, a, b)) == a
    decreases |a| + |b|
  {
    if a == [] {
      FilterNone(p, b);
    } else if b == [] {
      FilterAll(p, a);
    } else {
      var fromA := leq(a[0], b[0]);
      var a', b' := if fromA then a[1..] else a, if fromA then b else b[1..];
      MergeKeepsSides(p, leq, a', b');
      FilterCons(p, if fromA then a[0] else b[0], Merge(leq, a', b'));
    }
  }

  lemma {:induction false} FilterAll<T>(p: T -> bool, s: seq<T>)
    requires forall x :: x in s ==> p(x)
    ensures Filter(p, s) == s
  {
    if s != [] {
      FilterAll(p, s[1..]);
    }
  }
}
