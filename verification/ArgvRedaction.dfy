/** `sanitize_argv` (src/podman.rs): a one-bit transducer over an argument vector. */
module ArgvRedaction {
  import opened Prelude
  import opened Text
  import opened Json

  function TrimStartDashes(s: string): string {
    if s != [] && s[0] == '-' then TrimStartDashes(s[1..]) else s
  }

  function Hyphenate(c: char): char {
    if c == '_' then '-' else c
  }

  predicate IsSensitiveArgumentName(name: string) {
    var normalized := Map(Hyphenate, AsciiLower(TrimStartDashes(name)));
    || Contains(normalized, "password")
    || Contains(normalized, "secret")
    || Contains(normalized, "token")
    || Contains(normalized, "credential")
    || Contains(normalized, "authorization")
    || Contains(normalized, "bearer")
    || Contains(normalized, "api-key")
    || Contains(normalized, "apikey")
  }

  /** The text before the first equals sign, when there is one. */
  function AssignedName(s: string): (r: Option<string>)
    ensures r.Some? <==> '=' in s
    ensures r.Some? ==> '=' !in r.value && StartsWith(s, r.value + "=")
  {
    if s == [] then None
    else if s[0] == '=' then Some([])
    else
      match AssignedName(s[1..])
      case None => None
      case Some(name) => Some([s[0]] + name)
  }

  predicate IsSecretAssignment(arg: string) {
    AssignedName(arg).Some? && IsSensitiveArgumentName(AssignedName(arg).value)
  }

  /** A credential flag whose value is the next argument. */
  predicate IsSecretFlag(isWhitespace: char -> bool, arg: string) {
    && !IsSecretAssignment(arg)
    && IsSensitiveArgumentName(arg)
    && StartsWith(arg, "-")
    && forall c <- arg :: !isWhitespace(c)
  }

  /** A credential-like argument that is neither an assignment nor a flag. */
  predicate IsBareSecret(isWhitespace: char -> bool, arg: string) {
    && !IsSecretAssignment(arg)
    && IsSensitiveArgumentName(arg)
    && !IsSecretFlag(isWhitespace, arg)
  }

  /** What is emitted for one argument, and whether the next one must be hidden. */
  function Emit(isWhitespace: char -> bool, arg: Json, redactNext: bool): Json {
    if !arg.Str? then Null
    else if redactNext then Str(REDACTED)
    else if IsSecretAssignment(arg.s) then Str(AssignedName(arg.s).value + "=" + REDACTED)
    else if IsBareSecret(isWhitespace, arg.s) then Str(REDACTED)
    else arg
  }

  predicate RedactsNext(isWhitespace: char -> bool, arg: Json, redactNext: bool) {
    arg.Str? && !redactNext && IsSecretFlag(isWhitespace, arg.s)
  }

  function Sanitized(isWhitespace: char -> bool, args: seq<Json>, redactNext: bool): (r: seq<Json>)
    ensures |r| == |args|
  {
    if args == [] then []
    else
      [Emit(isWhitespace, args[0], redactNext)]
      + Sanitized(isWhitespace, args[1..], RedactsNext(isWhitespace, args[0], redactNext))
  }

  /** The state of the flag in front of argument `i`. */
  predicate HiddenAt(isWhitespace: char -> bool, args: seq<Json>, i: nat)
    requires i <= |args|
  {
    i != 0 && RedactsNext(isWhitespace, args[i - 1], HiddenAt(isWhitespace, args, i - 1))
  }

  /** One step of the transducer, in the order the original tests its cases. */
  method SanitizeArgument(isWhitespace: char -> bool, arg: Json, redactNext: bool) returns (r: Json, next: bool)
    ensures r == Emit(isWhitespace, arg, redactNext)
    ensures next == RedactsNext(isWhitespace, arg, redactNext)
  {
    hide IsSensitiveArgumentName, AssignedName, StartsWith;
    if !arg.Str? {
      return Null, false;
    }
    if redactNext {
      return Str(REDACTED), false;
    }
    var name := AssignedName(arg.s);
    if name.Some? && IsSensitiveArgumentName(name.value) {
      return Str(name.value + "=" + REDACTED), false;
    }
    if IsSensitiveArgumentName(arg.s) {
      if StartsWith(arg.s, "-") && !exists c <- arg.s :: isWhitespace(c) {
        return Str(arg.s), true;
      }
      return Str(REDACTED), false;
    }
    return Str(arg.s), false;
  }

  /** Non-array commands are omitted; arrays keep their length and order. */
  method SanitizeArgv(isWhitespace: char -> bool, value: Option<Json>) returns (r: Json)
    ensures r == if value.Some? && value.value.Array?
                 then Array(Sanitized(isWhitespace, value.value.items, false))
                 else Null
  {
    if value.None? || !value.value.Array? {
      return Null;
    }
    hide Emit, RedactsNext, Sanitized;
    var args := value.value.items;
    var redactNext := false;
    var output: seq<Json> := [];
    SanitizedNothing(isWhitespace, args, false);
    for i := 0 to |args|
      invariant output + Sanitized(isWhitespace, args[i..], redactNext) == Sanitized(isWhitespace, args, false)
    {
      SanitizedStep(isWhitespace, args, i, redactNext);
      var emitted, next := SanitizeArgument(isWhitespace, args[i], redactNext);
      output, redactNext := output + [emitted], next;
    }
    SanitizedNothing(isWhitespace, args, redactNext);
    r := Array(output);
  }

  lemma SanitizedStep(isWhitespace: char -> bool, args: seq<Json>, i: nat, redactNext: bool)
    requires i < |args|
    ensures Sanitized(isWhitespace, args[i..], redactNext)
            == [Emit(isWhitespace, args[i], redactNext)]
               + Sanitized(isWhitespace, args[i + 1..], RedactsNext(isWhitespace, args[i], redactNext))
  {
    assert args[i..][1..] == args[i + 1..];
  }

  lemma SanitizedNothing(isWhitespace: char -> bool, args: seq<Json>, redactNext: bool)
    ensures args[0..] == args
    ensures Sanitized(isWhitespace, args[|args|..], redactNext) == []
  {
  }

  // ----- Idempotence -----

  lemma {:induction false} ContainsChar(s: string, needle: string, k: nat)
    requires Contains(s, needle) && k < |needle|
    ensures needle[k] in s
  {
    if StartsWith(s, needle) {
      assert needle[k] == s[..|needle|][k] == s[k];
    } else {
      ContainsChar(s[1..], needle, k);
    }
  }

  lemma NotContained(s: string, needle: string, k: nat)
    requires k < |needle| && needle[k] !in s
    ensures !Contains(s, needle)
  {
    if Contains(s, needle) {
      ContainsChar(s, needle, k);
    }
  }

  lemma NormalizedPlaceholder()
    ensures Map(Hyphenate, AsciiLower(TrimStartDashes(REDACTED))) == "[redacted]"
  {
  }

  lemma PlaceholderLetters(c: char)
    requires c in "[redacted]"
    ensures c in {'[', 'r', 'e', 'd', 'a', 'c', 't', ']'}
  {
  }

  /** The placeholder is not itself taken for a credential name. */
  lemma PlaceholderIsNotSensitive()
    ensures !IsSensitiveArgumentName(REDACTED)
  {
    hide Contains, TrimStartDashes, AsciiLower, Hyphenate;
    NormalizedPlaceholder();
    var s := "[redacted]";
    forall c | c in {'p', 's', 'o', 'n', 'u', 'b'} ensures c !in s {
      if c in s {
        PlaceholderLetters(c);
      }
    }
    NotContained(s, "password", 0);
    NotContained(s, "secret", 0);
    NotContained(s, "token", 1);
    NotContained(s, "credential", 5);
    NotContained(s, "authorization", 1);
    NotContained(s, "bearer", 0);
    NotContained(s, "api-key", 1);
    NotContained(s, "apikey", 1);
  }

  lemma PlaceholderIsNoAssignment()
    ensures AssignedName(REDACTED).None?
  {
    hide AssignedName;
  }

  lemma {:induction false} NameOfAssignment(name: string, value: string)
    requires '=' !in name
    ensures AssignedName(name + "=" + value) == Some(name)
  {
    var arg := name + "=" + value;
    if name != [] {
      assert arg[0] == name[0] && arg[0] in name;
      assert arg[1..] == name[1..] + "=" + value;
      NameOfAssignment(name[1..], value);
      assert [name[0]] + name[1..] == name;
    }
  }

  /** The emitted argument is classified like the original: it is emitted unchanged and leaves the
      same flag behind. */
  lemma EmittedIsStable(isWhitespace: char -> bool, arg: Json, redactNext: bool)
    ensures var e := Emit(isWhitespace, arg, redactNext);
            && Emit(isWhitespace, e, redactNext) == e
            && RedactsNext(isWhitespace, e, redactNext) == RedactsNext(isWhitespace, arg, redactNext)
  {
    hide IsSensitiveArgumentName, AssignedName, StartsWith;
    PlaceholderIsNotSensitive();
    PlaceholderIsNoAssignment();
    if arg.Str? && IsSecretAssignment(arg.s) {
      NameOfAssignment(AssignedName(arg.s).value, REDACTED);
    }
  }

  /** Sanitizing twice is sanitizing once. */
  lemma {:induction false} SanitizingIsIdempotent(isWhitespace: char -> bool, args: seq<Json>, redactNext: bool)
    ensures var once := Sanitized(isWhitespace, args, redactNext);
            Sanitized(isWhitespace, once, redactNext) == once
  {
    hide Emit, RedactsNext;
    if args != [] {
      EmittedIsStable(isWhitespace, args[0], redactNext);
      SanitizingIsIdempotent(isWhitespace, args[1..], RedactsNext(isWhitespace, args[0], redactNext));
      var once := Sanitized(isWhitespace, args, redactNext);
      assert once[1..] == Sanitized(isWhitespace, args[1..], RedactsNext(isWhitespace, args[0], redactNext));
    }
  }

  // ----- What the output depends on -----

  /** Each output is decided by its argument and the flag in front of it. */
  lemma {:induction false} SanitizedAt(isWhitespace: char -> bool, args: seq<Json>, i: nat)
    requires i < |args|
    ensures Sanitized(isWhitespace, args, false)[i] == Emit(isWhitespace, args[i], HiddenAt(isWhitespace, args, i))
  {
    SanitizedFrom(isWhitespace, args, i);
  }

  lemma {:induction false} SanitizedFrom(isWhitespace: char -> bool, args: seq<Json>, i: nat)
    requires i <= |args|
    ensures Sanitized(isWhitespace, args, false)[i..]
            == Sanitized(isWhitespace, args[i..], HiddenAt(isWhitespace, args, i))
  {
    if i != 0 {
      SanitizedFrom(isWhitespace, args, i - 1);
      assert args[i - 1..][1..] == args[i..];
      var s := Sanitized(isWhitespace, args, false);
      assert s[i..] == s[i - 1..][1..];
    }
  }

  /** Argument `i` is a secret in `args`, and `text` would be the same kind of secret there. */
  ghost predicate SameKindOfSecret(isWhitespace: char -> bool, args: seq<Json>, i: nat, text: string)
    requires i < |args|
  {
    args[i].Str? &&
    var was := args[i].s;
    || HiddenAt(isWhitespace, args, i)
    || (IsSecretAssignment(was) && IsSecretAssignment(text) && AssignedName(text) == AssignedName(was))
    || (IsBareSecret(isWhitespace, was) && IsBareSecret(isWhitespace, text))
  }

  lemma {:induction false} HiddenUnaffected(isWhitespace: char -> bool, args: seq<Json>, i: nat, text: string, k: nat)
    requires i < |args| && k <= |args| && SameKindOfSecret(isWhitespace, args, i, text)
    ensures HiddenAt(isWhitespace, args[i := Str(text)], k) == HiddenAt(isWhitespace, args, k)
  {
    hide IsSensitiveArgumentName, AssignedName;
    if k != 0 {
      HiddenUnaffected(isWhitespace, args, i, text, k - 1);
    }
  }

  /** The text of a secret argument does not influence the output: any other secret of the same kind
      in its place gives the same result. */
  lemma SecretTextIsInvisible(isWhitespace: char -> bool, args: seq<Json>, i: nat, text: string)
    requires i < |args| && SameKindOfSecret(isWhitespace, args, i, text)
    ensures Sanitized(isWhitespace, args[i := Str(text)], false) == Sanitized(isWhitespace, args, false)
  {
    hide IsSensitiveArgumentName, AssignedName;
    var changed := args[i := Str(text)];
    forall k | 0 <= k < |args|
      ensures Sanitized(isWhitespace, changed, false)[k] == Sanitized(isWhitespace, args, false)[k]
    {
      SanitizedAt(isWhitespace, args, k);
      SanitizedAt(isWhitespace, changed, k);
      HiddenUnaffected(isWhitespace, args, i, text, k);
    }
  }

  // ----- Exactly what is shown and what is hidden -----

  /** An argument that is taken for a flag, whose own text is shown. */
  predicate LooksLikeFlag(isWhitespace: char -> bool, text: string) {
    StartsWith(text, "-") && forall c <- text :: !isWhitespace(c)
  }

  /** Nothing of the argument is shown; the placeholder itself reads the same either way. */
  predicate TextHidden(isWhitespace: char -> bool, text: string, redactNext: bool) {
    redactNext || IsBareSecret(isWhitespace, text) || text == REDACTED
  }

  /** Two arguments agree in everything that is not secret about them. */
  predicate AgreeOutsideSecret(
    isWhitespace: char -> bool, x: Json, hiddenX: bool, y: Json, hiddenY: bool)
  {
    if !x.Str? || !y.Str? then x.Str? == y.Str?
    else
      var tx, ty := TextHidden(isWhitespace, x.s, hiddenX), TextHidden(isWhitespace, y.s, hiddenY);
      var ax, ay := IsSecretAssignment(x.s), IsSecretAssignment(y.s);
      if tx || ty then tx && ty
      else if ax || ay then ax && ay && AssignedName(x.s) == AssignedName(y.s)
      else x == y
  }

  lemma EmittedAlikeIff(isWhitespace: char -> bool, x: Json, hiddenX: bool, y: Json, hiddenY: bool)
    ensures Emit(isWhitespace, x, hiddenX) == Emit(isWhitespace, y, hiddenY)
            <==> AgreeOutsideSecret(isWhitespace, x, hiddenX, y, hiddenY)
  {
    hide IsSensitiveArgumentName, AssignedName, StartsWith;
    PlaceholderIsNotSensitive();
    PlaceholderIsNoAssignment();
    if x.Str? && IsSecretAssignment(x.s) {
      NameOfAssignment(AssignedName(x.s).value, REDACTED);
    }
    if y.Str? && IsSecretAssignment(y.s) {
      NameOfAssignment(AssignedName(y.s).value, REDACTED);
    }
  }

  /** Two vectors are shown alike exactly when they agree outside their secrets: sanitizing hides the
      text of every argument behind a credential flag that is not hidden itself, of every bare
      credential and of every value assigned to a credential name, and nothing else but what is not a
      string. */
  lemma SanitizingHidesExactlySecrets(isWhitespace: char -> bool, a: seq<Json>, b: seq<Json>)
    ensures Sanitized(isWhitespace, a, false) == Sanitized(isWhitespace, b, false)
            <==> && |a| == |b|
                 && forall i :: 0 <= i < |a| ==>
                      AgreeOutsideSecret(
                        isWhitespace, a[i], HiddenAt(isWhitespace, a, i), b[i], HiddenAt(isWhitespace, b, i))
  {
    hide Emit, AgreeOutsideSecret, HiddenAt, Sanitized;
    var sa, sb := Sanitized(isWhitespace, a, false), Sanitized(isWhitespace, b, false);
    if |a| == |b| {
      forall i | 0 <= i < |a|
        ensures sa[i] == sb[i]
                <==> AgreeOutsideSecret(
                       isWhitespace, a[i], HiddenAt(isWhitespace, a, i), b[i], HiddenAt(isWhitespace, b, i))
      {
        SanitizedAt(isWhitespace, a, i);
        SanitizedAt(isWhitespace, b, i);
        EmittedAlikeIff(isWhitespace, a[i], HiddenAt(isWhitespace, a, i), b[i], HiddenAt(isWhitespace, b, i));
      }
    }
  }

  /** A text passes unchanged exactly when it holds the placeholder already, or is neither a value
      behind a credential flag, nor assigned to a credential name, nor credential-like without looking
      like a flag. */
  lemma PassesUnchangedIff(isWhitespace: char -> bool, args: seq<Json>, i: nat)
    requires i < |args| && args[i].Str?
    ensures var text := args[i].s;
            Sanitized(isWhitespace, args, false)[i] == args[i]
            <==> || text == REDACTED
                 || (&& !HiddenAt(isWhitespace, args, i)
                     && if IsSecretAssignment(text) then text == AssignedName(text).value + "=" + REDACTED
                        else IsSensitiveArgumentName(text) ==> LooksLikeFlag(isWhitespace, text))
  {
    hide IsSensitiveArgumentName, AssignedName, StartsWith, Sanitized, HiddenAt;
    SanitizedAt(isWhitespace, args, i);
    PlaceholderIsNotSensitive();
    PlaceholderIsNoAssignment();
  }

  /** The value of an assignment is shown exactly when the text before its first equals sign names no
      credential and the whole looks like a flag or holds no credential term. */
  lemma AssignedValueIsShownIff(
    isWhitespace: char -> bool, args: seq<Json>, i: nat, name: string, value: string)
    requires i < |args| && !HiddenAt(isWhitespace, args, i)
    requires args[i] == Str(name + "=" + value) && '=' !in name && value != REDACTED
    ensures Sanitized(isWhitespace, args, false)[i] == args[i]
            <==> && !IsSensitiveArgumentName(name)
                 && (IsSensitiveArgumentName(args[i].s) ==> LooksLikeFlag(isWhitespace, args[i].s))
  {
    hide IsSensitiveArgumentName, StartsWith, Sanitized, HiddenAt, AssignedName;
    NameOfAssignment(name, value);
    PassesUnchangedIff(isWhitespace, args, i);
    PlaceholderIsNoAssignment();
    SameBehind(name + "=", value, REDACTED);
  }

  lemma SameBehind(head: string, x: string, y: string)
    ensures head + x == head + y ==> x == y
  {
    assert (head + x)[|head|..] == x && (head + y)[|head|..] == y;
  }

  /** How many credential flags stand one after another in front of argument `i`. */
  function FlagRun(isWhitespace: char -> bool, args: seq<Json>, i: nat): nat
    requires i <= |args|
  {
    if i != 0 && args[i - 1].Str? && IsSecretFlag(isWhitespace, args[i - 1].s)
    then FlagRun(isWhitespace, args, i - 1) + 1
    else 0
  }

  /** A hidden flag does not hide what follows it, so an argument is hidden by the flag in front of it
      exactly when the run of flags it ends is odd. */
  lemma {:induction false} HiddenIffOddRun(isWhitespace: char -> bool, args: seq<Json>, i: nat)
    requires i <= |args|
    ensures HiddenAt(isWhitespace, args, i) <==> FlagRun(isWhitespace, args, i) % 2 == 1
  {
    hide IsSecretFlag;
    if i != 0 {
      HiddenIffOddRun(isWhitespace, args, i - 1);
    }
  }

  lemma {:induction false} ContainsFits(s: string, needle: string)
    requires |s| < |needle|
    ensures !Contains(s, needle)
  {
    if s != [] {
      ContainsFits(s[1..], needle);
    }
  }

  lemma TokenIsSensitive()
    ensures IsSensitiveArgumentName("API_TOKEN")
  {
    hide Contains, TrimStartDashes, AsciiLower, Hyphenate;
    NormalizedToken();
    assert "api-" + "token" + "" == "api-token";
    ContainsMiddle("api-", "token", "");
  }

  lemma NormalizedToken()
    ensures Map(Hyphenate, AsciiLower(TrimStartDashes("API_TOKEN"))) == "api-token"
  {
  }

  /** No credential term fits into four characters. */
  lemma ShortNameIsHarmless(name: string)
    requires |TrimStartDashes(name)| <= 4
    ensures !IsSensitiveArgumentName(name)
  {
    hide Contains, TrimStartDashes;
    var normalized := Map(Hyphenate, AsciiLower(TrimStartDashes(name)));
    forall needle: string | 4 < |needle| ensures !Contains(normalized, needle) {
      ContainsFits(normalized, needle);
    }
  }

  lemma EnvIsHarmless()
    ensures !IsSensitiveArgumentName("--env")
  {
    assert TrimStartDashes("--env") == "env";
    ShortNameIsHarmless("--env");
  }

  /** So a credential assignment inside the value of a flag with a harmless name is shown. */
  lemma NestedAssignmentIsShown(isWhitespace: char -> bool, value: string)
    requires forall c <- "--env=API_TOKEN=" + value :: !isWhitespace(c)
    ensures IsSecretAssignment("API_TOKEN" + "=" + value)
    ensures var args := [Str("--env=API_TOKEN=" + value)];
            Sanitized(isWhitespace, args, false) == args
  {
    hide IsSensitiveArgumentName, AssignedName, StartsWith, Sanitized;
    NameOfAssignment("API_TOKEN", value);
    TokenIsSensitive();
    EnvIsHarmless();
    var inner := "API_TOKEN=" + value;
    var args := [Str("--env" + "=" + inner)];
    assert "--env=API_TOKEN=" + value == "--env" + "=" + inner;
    assert "-" + ("-env=" + inner) == args[0].s;
    StartsWithDash("-env=" + inner);
    assert inner[0] != REDACTED[0];
    AssignedValueIsShownIff(isWhitespace, args, 0, "--env", inner);
  }

  lemma StartsWithDash(rest: string)
    ensures StartsWith("-" + rest, "-")
  {
  }

  lemma ShownAsTheyAre(isWhitespace: char -> bool, text: string)
    requires IsSecretFlag(isWhitespace, text) || (!IsSensitiveArgumentName(text) && !IsSecretAssignment(text))
    ensures Emit(isWhitespace, Str(text), false) == Str(text)
  {
    hide IsSensitiveArgumentName, AssignedName, StartsWith;
  }

  /** So an argument behind two credential flags in a row is shown. */
  lemma ValueBehindHiddenFlagIsShown(isWhitespace: char -> bool, first: string, second: string, text: string)
    requires IsSecretFlag(isWhitespace, first) && IsSecretFlag(isWhitespace, second)
    requires !IsSensitiveArgumentName(text) && !IsSecretAssignment(text)
    ensures Sanitized(isWhitespace, [Str(first), Str(second), Str(text)], false)
            == [Str(first), Str(REDACTED), Str(text)]
  {
    hide IsSensitiveArgumentName, IsSecretFlag, IsSecretAssignment, Sanitized, HiddenAt;
    var args := [Str(first), Str(second), Str(text)];
    assert FlagRun(isWhitespace, args, 1) == 1;
    HiddenIffOddRun(isWhitespace, args, 0);
    HiddenIffOddRun(isWhitespace, args, 1);
    HiddenIffOddRun(isWhitespace, args, 2);
    SanitizedAt(isWhitespace, args, 0);
    SanitizedAt(isWhitespace, args, 1);
    SanitizedAt(isWhitespace, args, 2);
    ShownAsTheyAre(isWhitespace, first);
    ShownAsTheyAre(isWhitespace, text);
  }

  /** For one, the value of `--token` behind `--password`. */
  lemma TokenBehindPasswordIsShown(isWhitespace: char -> bool)
    requires (forall c <- "--password" :: !isWhitespace(c)) && (forall c <- "--token" :: !isWhitespace(c))
    ensures Sanitized(isWhitespace, [Str("--password"), Str("--token"), Str("abc")], false)
            == [Str("--password"), Str(REDACTED), Str("abc")]
  {
    hide IsSensitiveArgumentName, AssignedName, StartsWith, Sanitized;
    FlagNames();
    NoEqualsSign();
    assert "-" + "-password" == "--password" && "-" + "-token" == "--token";
    StartsWithDash("-password");
    StartsWithDash("-token");
    assert TrimStartDashes("abc") == "abc";
    ShortNameIsHarmless("abc");
    ValueBehindHiddenFlagIsShown(isWhitespace, "--password", "--token", "abc");
  }

  lemma FlagNames()
    ensures IsSensitiveArgumentName("--password") && IsSensitiveArgumentName("--token")
  {
    hide Contains, TrimStartDashes, AsciiLower, Hyphenate;
    NormalizedFlags();
    assert "" + "password" + "" == "password" && "" + "token" + "" == "token";
    ContainsMiddle("", "password", "");
    ContainsMiddle("", "token", "");
  }

  lemma NormalizedFlags()
    ensures Map(Hyphenate, AsciiLower(TrimStartDashes("--password"))) == "password"
    ensures Map(Hyphenate, AsciiLower(TrimStartDashes("--token"))) == "token"
  {
    assert TrimStartDashes("--password") == "password" && TrimStartDashes("--token") == "token";
  }

  lemma NoEqualsSign()
    ensures AssignedName("--password").None? && AssignedName("--token").None? && AssignedName("abc").None?
  {
    hide AssignedName;
  }

  // ----- Which names are sensitive, and what is shown for them -----

  /** `c` reads as the term character `t`: the same, its upper case, or an underscore for a hyphen. */
  predicate ReadsAs(c: char, t: char) {
    c == t || ('A' <= c <= 'Z' && c as int + 32 == t as int) || (c == '_' && t == '-')
  }

  predicate ReadsAt(name: string, i: nat, term: string) {
    i + |term| <= |name| && forall k :: 0 <= k < |term| ==> ReadsAs(name[i + k], term[k])
  }

  /** Terms consist of lower-case letters and hyphens and begin with a letter. */
  predicate IsTerm(term: string) {
    term != [] && term[0] != '-' && forall c <- term :: 'a' <= c <= 'z' || c == '-'
  }

  lemma {:induction false} TrimCutsDashes(name: string)
    ensures var rest := TrimStartDashes(name);
            && |rest| <= |name| && name[|name| - |rest|..] == rest
            && forall k :: 0 <= k < |name| - |rest| ==> name[k] == '-'
  {
    if name != [] && name[0] == '-' {
      TrimCutsDashes(name[1..]);
      var d := |name| - |TrimStartDashes(name)|;
      assert name[d..] == name[1..][d - 1..];
    }
  }

  lemma NormalizedReads(text: string, i: nat, term: string)
    requires IsTerm(term) && i + |term| <= |text|
    ensures Map(Hyphenate, AsciiLower(text))[i..][..|term|] == term <==> ReadsAt(text, i, term)
  {
    var piece := Map(Hyphenate, AsciiLower(text))[i..][..|term|];
    forall k | 0 <= k < |term| ensures piece[k] == term[k] <==> ReadsAs(text[i + k], term[k]) {
      assert term[k] in term;
    }
  }

  /** Leading dashes make no difference to whether a name contains a term. */
  lemma NameContainsIff(name: string, term: string)
    requires IsTerm(term)
    ensures Contains(Map(Hyphenate, AsciiLower(TrimStartDashes(name))), term) <==> exists i :: ReadsAt(name, i, term)
  {
    hide Contains, TrimStartDashes, Hyphenate, AsciiLower, IsTerm;
    var rest := TrimStartDashes(name);
    var normalized, d := Map(Hyphenate, AsciiLower(rest)), |name| - |rest|;
    TrimCutsDashes(name);
    ContainsIff(normalized, term);
    LowerKeepsLength(rest);
    if i: nat :| i <= |normalized| - |term| && normalized[i..][..|term|] == term {
      NormalizedReads(rest, i, term);
      ReadsBehind(name, d, i, term);
      assert ReadsAt(name, d + i, term);
    }
    if j: nat :| ReadsAt(name, j, term) {
      NotInDashes(name, d, j, term);
      ReadsBehind(name, d, j - d, term);
      NormalizedReads(rest, j - d, term);
    }
  }

  lemma LowerKeepsLength(s: string)
    ensures |AsciiLower(s)| == |s|
  {
  }

  lemma ReadsBehind(name: string, d: nat, i: nat, term: string)
    requires d <= |name|
    ensures ReadsAt(name, d + i, term) <==> ReadsAt(name[d..], i, term)
  {
  }

  lemma NotInDashes(name: string, d: nat, j: nat, term: string)
    requires d <= |name| && (forall k :: 0 <= k < d ==> name[k] == '-')
    requires IsTerm(term) && ReadsAt(name, j, term)
    ensures d <= j
  {
    assert ReadsAs(name[j + 0], term[0]);
  }

  /** A name is sensitive exactly when one of eight terms can be read in it, in any case, underscores
      counting as hyphens. */
  lemma SensitiveNameIff(name: string)
    ensures IsSensitiveArgumentName(name)
            <==> || (exists i :: ReadsAt(name, i, "password"))
                 || (exists i :: ReadsAt(name, i, "secret"))
                 || (exists i :: ReadsAt(name, i, "token"))
                 || (exists i :: ReadsAt(name, i, "credential"))
                 || (exists i :: ReadsAt(name, i, "authorization"))
                 || (exists i :: ReadsAt(name, i, "bearer"))
                 || (exists i :: ReadsAt(name, i, "api-key"))
                 || (exists i :: ReadsAt(name, i, "apikey"))
  {
    hide Contains, TrimStartDashes, Hyphenate, AsciiLower, ReadsAt, IsTerm;
    TermsAreTerms();
    NameContainsIff(name, "password");
    NameContainsIff(name, "secret");
    NameContainsIff(name, "token");
    NameContainsIff(name, "credential");
    NameContainsIff(name, "authorization");
    NameContainsIff(name, "bearer");
    NameContainsIff(name, "api-key");
    NameContainsIff(name, "apikey");
  }

  lemma TermsAreTerms()
    ensures IsTerm("password") && IsTerm("secret") && IsTerm("token") && IsTerm("credential")
    ensures IsTerm("authorization") && IsTerm("bearer") && IsTerm("api-key") && IsTerm("apikey")
  {
  }

  /** What is shown for each kind of argument: nothing for what is not a string, the placeholder for
      the value of a flag and for a bare credential, the name and the placeholder for a credential
      assignment, and the text itself for a credential flag and for everything else. */
  lemma ArgumentsShownAs(isWhitespace: char -> bool, args: seq<Json>, i: nat)
    requires i < |args|
    ensures var shown := Sanitized(isWhitespace, args, false)[i];
            if !args[i].Str? then shown == Null
            else
              var text := args[i].s;
              var flag := StartsWith(text, "-") && forall c <- text :: !isWhitespace(c);
              if FlagRun(isWhitespace, args, i) % 2 == 1 then shown == Str("[REDACTED]")
              else if '=' in text && IsSensitiveArgumentName(AssignedName(text).value) then
                shown == Str(AssignedName(text).value + "=[REDACTED]")
              else if IsSensitiveArgumentName(text) && !flag then shown == Str("[REDACTED]")
              else shown == args[i]
  {
    hide IsSensitiveArgumentName, AssignedName, StartsWith, Sanitized, HiddenAt, FlagRun;
    SanitizedAt(isWhitespace, args, i);
    HiddenIffOddRun(isWhitespace, args, i);
    if args[i].Str? && AssignedName(args[i].s).Some? {
      var name := AssignedName(args[i].s).value;
      assert name + "=" + REDACTED == name + "=[REDACTED]";
    }
  }
}
