/** Option, Result and the sequence vocabulary shared by every component model. */
module Prelude {

  datatype Option<+T> = None | Some(value: T)

  datatype Result<+T, +E> = Ok(value: T) | Err(error: E)

  function Min(a: nat, b: nat): nat {
    if a < b then a else b
  }

  /** The first `n` elements, or all of them when there are fewer (Rust's `take` and `truncate`). */
  function Take<T>(s: seq<T>, n: nat): seq<T> {
    s[..Min(n, |s|)]
  }

  lemma TakeTake<T>(s: seq<T>, n: nat, m: nat)
    requires m <= n
    ensures Take(Take(s, n), m) == Take(s, m)
    ensures |Take(s, n)| == Min(n, |s|)
  {
  }

  function Reverse<T>(s: seq<T>): (r: seq<T>)
    ensures |r| == |s|
    ensures forall i :: 0 <= i < |s| ==> r[i] == s[|s| - 1 - i]
  {
    seq(|s|, i requires 0 <= i < |s| => s[|s| - 1 - i])
  }

  lemma ReverseConcat<T>(a: seq<T>, b: seq<T>)
    ensures Reverse(a + b) == Reverse(b) + Reverse(a)
  {
  }

  function Map<T, U>(f: T -> U, s: seq<T>): (r: seq<U>)
    ensures |r| == |s|
    ensures forall i :: 0 <= i < |s| ==> r[i] == f(s[i])
  {
    seq(|s|, i requires 0 <= i < |s| => f(s[i]))
  }

  lemma MapAppend<T, U>(f: T -> U, s: seq<T>, x: T)
    ensures Map(f, s + [x]) == Map(f, s) + [f(x)]
  {
  }

  lemma MapCons<T, U>(f: T -> U, x: T, s: seq<T>)
    ensures Map(f, [x] + s) == [f(x)] + Map(f, s)
  {
  }

  lemma MapTake<T, U>(f: T -> U, s: seq<T>, n: nat)
    ensures Take(Map(f, s), n) == Map(f, Take(s, n))
  {
  }

  function Filter<T>(p: T -> bool, s: seq<T>): (r: seq<T>)
    ensures |r| <= |s|
  {
    if s == [] then []
    else if p(s[0]) then [s[0]] + Filter(p, s[1..])
    else Filter(p, s[1..])
  }

  function SumOf<T>(f: T -> int, s: seq<T>): int {
    if s == [] then 0 else f(s[0]) + SumOf(f, s[1..])
  }

  lemma {:induction false} SumOfConcat<T>(f: T -> int, a: seq<T>, b: seq<T>)
    ensures SumOf(f, a + b) == SumOf(f, a) + SumOf(f, b)
  {
    if a == [] {
      assert a + b == b;
    } else {
      assert (a + b)[1..] == a[1..] + b;
      SumOfConcat(f, a[1..], b);
    }
  }

  lemma FilterConcat<T>(p: T -> bool, a: seq<T>, b: seq<T>)
    ensures Filter(p, a + b) == Filter(p, a) + Filter(p, b)
  {
    if a == [] {
      assert a + b == b;
    } else {
      assert (a + b)[1..] == a[1..] + b;
      FilterConcat(p, a[1..], b);
    }
  }

  lemma FilterNil<T>(p: T -> bool)
    ensures Filter(p, []) == []
  {
  }

  lemma FilterCons<T>(p: T -> bool, x: T, s: seq<T>)
    ensures Filter(p, [x] + s) == (if p(x) then [x] else []) + Filter(p, s)
  {
    assert ([x] + s)[1..] == s;
  }

  lemma FilterStep<T>(p: T -> bool, s: seq<T>, i: nat)
    requires i < |s|
    ensures Filter(p, s[..i + 1]) == Filter(p, s[..i]) + if p(s[i]) then [s[i]] else []
  {
    assert s[..i + 1] == s[..i] + [s[i]];
    FilterConcat(p, s[..i], [s[i]]);
  }

  lemma FilterNone<T>(p: T -> bool, s: seq<T>)
    requires forall i :: 0 <= i < |s| ==> !p(s[i])
    ensures Filter(p, s) == []
  {
  }

  lemma FilterSkips<T>(p: T -> bool, s: seq<T>, n: nat)
    requires n <= |s| && forall k :: 0 <= k < n ==> !p(s[k])
    ensures Filter(p, s[n..]) == Filter(p, s)
  {
    hide Filter;
    FilterNone(p, s[..n]);
    FilterConcat(p, s[..n], s[n..]);
    assert s == s[..n] + s[n..];
  }

  lemma {:induction false} FilterAgree<T>(p: T -> bool, q: T -> bool, s: seq<T>)
    requires forall x <- s :: p(x) == q(x)
    ensures Filter(p, s) == Filter(q, s)
  {
    if s != [] {
      assert forall x <- s[1..] :: x in s;
      FilterAgree(p, q, s[1..]);
    }
  }

  /** Filtering by a conjunction is filtering twice. */
  lemma {:induction false} FilterBoth<T>(p: T -> bool, q: T -> bool, c: T -> bool, s: seq<T>)
    requires forall x <- s :: p(x) <==> q(x) && c(x)
    ensures Filter(p, s) == Filter(c, Filter(q, s))
  {
    if s != [] {
      assert forall x <- s[1..] :: x in s;
      FilterBoth(p, q, c, s[1..]);
      FilterCons(c, s[0], Filter(q, s[1..]));
    }
  }

  lemma FilterMembers<T>(p: T -> bool, s: seq<T>)
    ensures forall x :: x in Filter(p, s) <==> x in s && p(x)
  {
    if s != [] {
      FilterMembers(p, s[1..]);
      assert s == [s[0]] + s[1..];
    }
  }

  lemma FilterReverse<T>(p: T -> bool, s: seq<T>)
    ensures Filter(p, Reverse(s)) == Reverse(Filter(p, s))
  {
    if s != [] {
      assert s == [s[0]] + s[1..];
      ReverseConcat([s[0]], s[1..]);
      assert Reverse([s[0]]) == [s[0]];
      FilterConcat(p, Reverse(s[1..]), [s[0]]);
      FilterReverse(p, s[1..]);
      if p(s[0]) {
        ReverseConcat([s[0]], Filter(p, s[1..]));
      }
    }
  }

  /** The index in `s` of element `k` of `Filter(p, s)`. */
  function NthIndex<T>(p: T -> bool, s: seq<T>, k: nat): (i: nat)
    requires k < |Filter(p, s)|
    ensures i < |s|
  {
    if p(s[0]) && k == 0 then 0
    else 1 + NthIndex(p, s[1..], if p(s[0]) then k - 1 else k)
  }

  /** The filter of `s` splits at the index of any of its elements. */
  lemma {:induction false} FilterSplits<T>(p: T -> bool, s: seq<T>, k: nat)
    requires k < |Filter(p, s)|
    ensures var i := NthIndex(p, s, k);
            && s[i] == Filter(p, s)[k] && p(s[i])
            && Filter(p, s[..i]) == Filter(p, s)[..k]
            && Filter(p, s[i + 1..]) == Filter(p, s)[k + 1..]
  {
    hide Filter;
    FilterNil(p);
    assert s != [];
    var x, tail := s[0], s[1..];
    assert s == [x] + tail;
    FilterCons(p, x, tail);
    if p(x) && k == 0 {
      assert s[..0] == [];
    } else {
      var h := if p(x) then [x] else [];
      var j := k - |h|;
      FilterSplits(p, tail, j);
      var i := NthIndex(p, tail, j);
      assert s[..i + 1] == [x] + tail[..i];
      assert s[i + 2..] == tail[i + 1..];
      FilterCons(p, x, tail[..i]);
    }
  }
}
