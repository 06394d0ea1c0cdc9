/** The string operations the components share. Strings are sequences of Unicode scalar values, on
    which the lexicographic order below is the byte order of their UTF-8 encodings. */
module Text {
  import opened Prelude

  datatype Ordering = Less | Equal | Greater {
    function Flip(): Ordering {
      match this
      case Less => Greater
      case Equal => Equal
      case Greater => Less
    }

    function Then(next: Ordering): Ordering {
      if Equal? then next else this
    }
  }

  function Compare(a: string, b: string): Ordering {
    if a == [] then if b == [] then Equal else Less
    else if b == [] then Greater
    else if a[0] < b[0] then Less
    else if b[0] < a[0] then Greater
    else Compare(a[1..], b[1..])
  }

  function CompareInts(a: int, b: int): Ordering {
    if a < b then Less else if a == b then Equal else Greater
  }

  lemma {:induction false} CompareFlips(a: string, b: string)
    ensures Compare(b, a) == Compare(a, b).Flip()
    ensures Compare(a, b).Equal? <==> a == b
  {
    if a != [] && b != [] {
      CompareFlips(a[1..], b[1..]);
      assert a == [a[0]] + a[1..] && b == [b[0]] + b[1..];
    }
  }

  lemma {:induction false} CompareTransitive(a: string, b: string, c: string)
    requires !Compare(a, b).Greater? && !Compare(b, c).Greater?
    ensures !Compare(a, c).Greater?
    ensures Compare(a, c).Equal? ==> Compare(a, b).Equal? && Compare(b, c).Equal?
  {
    if a != [] && b != [] && c != [] && a[0] == b[0] == c[0] {
      CompareTransitive(a[1..], b[1..], c[1..]);
    }
  }

  /** Comparison of strings is a total order. */
  lemma CompareIsTotalOrder()
    ensures forall a, b :: Compare(b, a) == Compare(a, b).Flip()
    ensures forall a, b :: Compare(a, b).Equal? <==> a == b
    ensures forall a, b, c :: !Compare(a, b).Greater? && !Compare(b, c).Greater? ==> !Compare(a, c).Greater?
  {
    forall a, b ensures Compare(b, a) == Compare(a, b).Flip() && (Compare(a, b).Equal? <==> a == b) {
      CompareFlips(a, b);
    }
    forall a, b, c | !Compare(a, b).Greater? && !Compare(b, c).Greater? ensures !Compare(a, c).Greater? {
      CompareTransitive(a, b, c);
    }
  }

  /** `a` is a proper prefix of `b`, or the first character in which they differ is smaller in `a`. */
  ghost predicate PrecedesAt(a: string, b: string, k: nat) {
    && k <= |a| && k < |b| && a[..k] == b[..k]
    && (k == |a| || a[k] < b[k])
  }

  lemma FirstAgrees(a: string, b: string, k: nat)
    ensures 0 < k <= |a| && k <= |b| && a[..k] == b[..k] ==> a[0] == b[0]
  {
    if 0 < k <= |a| && k <= |b| {
      assert a[..k][0] == a[0] && b[..k][0] == b[0];
    }
  }

  /** Comparison is lexicographic. */
  lemma {:induction false} CompareIsLexicographic(a: string, b: string)
    ensures Compare(a, b).Less? <==> exists k :: PrecedesAt(a, b, k)
  {
    if a == [] || b == [] || a[0] != b[0] {
      if a == [] && b != [] {
        assert PrecedesAt(a, b, 0);
      } else if a != [] && b != [] && a[0] < b[0] {
        assert PrecedesAt(a, b, 0);
      }
      forall k: nat | PrecedesAt(a, b, k) ensures k == 0 {
        FirstAgrees(a, b, k);
      }
    } else {
      CompareIsLexicographic(a[1..], b[1..]);
      forall k: nat | PrecedesAt(a[1..], b[1..], k) ensures PrecedesAt(a, b, k + 1) {
        assert a[..k + 1] == [a[0]] + a[1..][..k] && b[..k + 1] == [b[0]] + b[1..][..k];
      }
      forall k: nat | PrecedesAt(a, b, k) ensures 0 < k && PrecedesAt(a[1..], b[1..], k - 1) {
        assert 0 < k && a[1..][..k - 1] == a[..k][1..] && b[1..][..k - 1] == b[..k][1..];
      }
    }
  }

  function LowerChar(c: char): char {
    if 'A' <= c <= 'Z' then c - 'A' + 'a' else c
  }

  function AsciiLower(s: string): string {
    Map(LowerChar, s)
  }

  predicate EqIgnoreAsciiCase(a: string, b: string) {
    AsciiLower(a) == AsciiLower(b)
  }

  predicate StartsWith(s: string, prefix: string) {
    |prefix| <= |s| && s[..|prefix|] == prefix
  }

  predicate Contains(s: string, needle: string) {
    StartsWith(s, needle) || (s != [] && Contains(s[1..], needle))
  }

  /** Equal up to the case of ASCII letters: position by position the same character, or the two cases
      of one letter. */
  lemma EqIgnoreAsciiCaseIff(a: string, b: string)
    ensures EqIgnoreAsciiCase(a, b)
            <==> |a| == |b| && forall i :: 0 <= i < |a| ==>
                   || a[i] == b[i]
                   || ('A' <= a[i] <= 'Z' && b[i] as int == a[i] as int + 32)
                   || ('A' <= b[i] <= 'Z' && a[i] as int == b[i] as int + 32)
  {
    if EqIgnoreAsciiCase(a, b) {
      assert |a| == |AsciiLower(a)| == |b|;
      forall i | 0 <= i < |a| ensures LowerChar(a[i]) == LowerChar(b[i]) {
        assert AsciiLower(a)[i] == AsciiLower(b)[i];
      }
    }
  }

  /** `Contains` finds exactly the substrings. */
  lemma {:induction false} ContainsIff(s: string, needle: string)
    ensures Contains(s, needle) <==> exists i :: 0 <= i <= |s| - |needle| && s[i..][..|needle|] == needle
  {
    if StartsWith(s, needle) {
      assert s[0..][..|needle|] == needle;
    } else if s != [] {
      ContainsIff(s[1..], needle);
      assert s[0..] == s;
      forall i | 0 <= i <= |s[1..]| - |needle| && s[1..][i..][..|needle|] == needle
        ensures s[i + 1..][..|needle|] == needle
      {
        assert s[i + 1..] == s[1..][i..];
      }
      forall i | 0 <= i <= |s| - |needle| && s[i..][..|needle|] == needle
        ensures 0 < i && s[1..][i - 1..][..|needle|] == needle
      {
        assert 0 < i && s[1..][i - 1..] == s[i..];
      }
    }
  }

  lemma ContainsMiddle(head: string, needle: string, rest: string)
    ensures Contains(head + needle + rest, needle)
  {
    var s := head + needle + rest;
    ContainsIff(s, needle);
    assert s[|head|..][..|needle|] == needle;
  }

  /** `needle` stands somewhere in `s`, up to the case of ASCII letters. */
  predicate FoundIgnoringCase(s: string, needle: string) {
    exists i :: 0 <= i <= |s| - |needle| && EqIgnoreAsciiCase(s[i..][..|needle|], needle)
  }

  /** A needle in lower case is found in the lowered text exactly where it stands in some case. */
  lemma LowerContainsIff(s: string, needle: string)
    requires forall c <- needle :: !('A' <= c <= 'Z')
    ensures Contains(AsciiLower(s), needle) <==> FoundIgnoringCase(s, needle)
  {
    hide Contains;
    ContainsIff(AsciiLower(s), needle);
    forall i | 0 <= i < |needle| ensures AsciiLower(needle)[i] == needle[i] {
      assert needle[i] in needle;
    }
    assert AsciiLower(needle) == needle;
    forall i | 0 <= i <= |s| - |needle|
      ensures AsciiLower(s)[i..][..|needle|] == AsciiLower(s[i..][..|needle|])
    {
    }
  }

  predicate IsDigit(c: char) {
    '0' <= c <= '9'
  }

  function DecimalValue(s: string): nat
    requires forall c <- s :: IsDigit(c)
  {
    if s == [] then 0
    else
      assert IsDigit(s[|s| - 1]);
      10 * DecimalValue(s[..|s| - 1]) + (s[|s| - 1] as int - '0' as int)
  }

  /** `str::parse::<u8>`: an optional plus sign, at least one digit, at most 255. */
  function ParseU8(s: string): Option<nat> {
    var digits := if StartsWith(s, "+") then s[1..] else s;
    if digits != [] && (forall c <- digits :: IsDigit(c)) && DecimalValue(digits) <= 255
    then Some(DecimalValue(digits))
    else None
  }

  /** `str::parse::<i32>`: an optional sign, at least one digit, within the 32-bit range. */
  function ParseI32(s: string): Option<int> {
    var negative := StartsWith(s, "-");
    var digits := if negative || StartsWith(s, "+") then s[1..] else s;
    if digits != [] && (forall c <- digits :: IsDigit(c)) then
      var value: int := if negative then -(DecimalValue(digits) as int) else DecimalValue(digits);
      if -0x8000_0000 <= value <= 0x7fff_ffff then Some(value) else None
    else None
  }

  /** The decimal digits of `n`, as `to_string` writes them. */
  function Decimal(n: nat): string {
    var last := [(n % 10) as char + '0'];
    if n < 10 then last else Decimal(n / 10) + last
  }

  /** Writing a number and parsing it back gives the number. */
  lemma {:induction false} DecimalRoundTrip(n: nat)
    ensures Decimal(n) != [] && (forall c <- Decimal(n) :: IsDigit(c)) && DecimalValue(Decimal(n)) == n
  {
    var last := [(n % 10) as char + '0'];
    assert DecimalValue([]) == 0;
    assert last[..0] == [];
    assert DecimalValue(last) == n % 10;
    if 10 <= n {
      DecimalRoundTrip(n / 10);
      var s := Decimal(n);
      assert s[..|s| - 1] == Decimal(n / 10) && s[|s| - 1] == last[0];
    }
  }

  lemma ParseOfDecimal(n: nat)
    requires n <= 255
    ensures ParseU8(Decimal(n)) == Some(n)
  {
    DecimalRoundTrip(n);
    assert IsDigit(Decimal(n)[0]);
  }

  /** What is read as a byte: plain decimal digits up to 255, with or without a plus sign, and nothing
      that is empty or holds another character. */
  lemma ParseU8Reads(n: nat, s: string)
    ensures ParseU8(Decimal(n)) == ParseU8("+" + Decimal(n)) == if n <= 255 then Some(n) else None
    ensures s == "" || (exists i :: 0 < i < |s| && !IsDigit(s[i])) ==> ParseU8(s) == None
  {
    DecimalRoundTrip(n);
    assert IsDigit(Decimal(n)[0]);
    assert ("+" + Decimal(n))[1..] == Decimal(n);
    if i :| 0 < i < |s| && !IsDigit(s[i]) {
      assert s[i] in s && s[i] in s[1..];
    }
  }

  /** What is read as a 32-bit integer: a number of the range with or without its sign. */
  lemma ParseI32Reads(n: nat, s: string)
    ensures ParseI32(Decimal(n)) == ParseI32("+" + Decimal(n)) == if n <= 0x7fff_ffff then Some(n) else None
    ensures var r := ParseI32("-" + Decimal(n));
            if n <= 0x8000_0000 then r.Some? && r.value + n == 0 else r.None?
    ensures s == "" || (exists i :: 0 < i < |s| && !IsDigit(s[i])) ==> ParseI32(s) == None
  {
    hide Decimal, DecimalValue;
    DecimalRoundTrip(n);
    assert IsDigit(Decimal(n)[0]);
    assert ("+" + Decimal(n))[1..] == Decimal(n) == ("-" + Decimal(n))[1..];
    if i :| 0 < i < |s| && !IsDigit(s[i]) {
      assert s[i] in s && s[i] in s[1..];
    }
  }
}
