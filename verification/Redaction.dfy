/** Redaction of audit parameters (src/mcp/server.rs). */
module Redaction {
  import opened Prelude
  import opened Text
  import opened Json

  /** Whether a key names credential material; `trim` is Unicode trimming. */
  predicate IsSensitiveKey(trim: string -> string, key: string) {
    var normalized := AsciiLower(trim(key));
    || normalized in {
         "token", "api_token", "access_token", "refresh_token", "authorization", "bearer",
         "password", "secret", "credentials", "credential", "api_key", "apikey"}
    || Contains(normalized, "token")
    || Contains(normalized, "secret")
    || Contains(normalized, "password")
    || Contains(normalized, "credential")
  }

  function RedactAuditValue(trim: string -> string, v: Json): Json {
    match v
    case Object(fields) =>
      Object(map key | key in fields ::
               if IsSensitiveKey(trim, key) then Str(REDACTED) else RedactAuditValue(trim, fields[key]))
    case Array(items) =>
      Array(seq(|items|, i requires 0 <= i < |items| => RedactAuditValue(trim, items[i])))
    case _ => v
  }

  /** Equal except for what lies beneath sensitive keys. */
  ghost predicate SameOutsideSecrets(trim: string -> string, v: Json, w: Json) {
    match v
    case Object(fields) =>
      && w.Object?
      && w.fields.Keys == fields.Keys
      && forall key | key in fields && !IsSensitiveKey(trim, key) ::
           SameOutsideSecrets(trim, fields[key], w.fields[key])
    case Array(items) =>
      && w.Array?
      && |w.items| == |items|
      && forall i | 0 <= i < |items| :: SameOutsideSecrets(trim, items[i], w.items[i])
    case _ => v == w
  }

  /** Two audit payloads are logged alike exactly when they agree outside their secrets: redaction
      hides every value beneath a sensitive key and nothing else. */
  lemma {:induction false} RedactionHidesExactlySecrets(trim: string -> string, v: Json, w: Json)
    ensures RedactAuditValue(trim, v) == RedactAuditValue(trim, w) <==> SameOutsideSecrets(trim, v, w)
    decreases v
  {
    var rv, rw := RedactAuditValue(trim, v), RedactAuditValue(trim, w);
    if v.Object? && w.Object? && v.fields.Keys == w.fields.Keys {
      forall key | key in v.fields
        ensures rv.fields[key] == rw.fields[key]
                <==> (IsSensitiveKey(trim, key) || SameOutsideSecrets(trim, v.fields[key], w.fields[key]))
      {
        RedactionHidesExactlySecrets(trim, v.fields[key], w.fields[key]);
      }
      assert rv == rw <==> forall key | key in v.fields :: rv.fields[key] == rw.fields[key];
    } else if v.Object? && w.Object? {
      assert rv.fields.Keys == v.fields.Keys && rw.fields.Keys == w.fields.Keys;
    } else if v.Array? && w.Array? && |v.items| == |w.items| {
      forall i | 0 <= i < |v.items|
        ensures rv.items[i] == rw.items[i] <==> SameOutsideSecrets(trim, v.items[i], w.items[i])
      {
        RedactionHidesExactlySecrets(trim, v.items[i], w.items[i]);
      }
      assert rv == rw <==> forall i | 0 <= i < |v.items| :: rv.items[i] == rw.items[i];
    } else if v.Array? && w.Array? {
      assert |rv.items| == |v.items| && |rw.items| == |w.items|;
    }
  }

  /** Every sensitive key, at any depth, holds the placeholder. */
  ghost predicate Clean(trim: string -> string, v: Json) {
    match v
    case Object(fields) =>
      forall key | key in fields ::
        if IsSensitiveKey(trim, key) then fields[key] == Str(REDACTED) else Clean(trim, fields[key])
    case Array(items) => forall i | 0 <= i < |items| :: Clean(trim, items[i])
    case _ => true
  }

  /** Redaction leaves exactly the clean values alone. */
  lemma {:induction false} RedactionFixesClean(trim: string -> string, v: Json)
    ensures RedactAuditValue(trim, v) == v <==> Clean(trim, v)
    decreases v
  {
    var r := RedactAuditValue(trim, v);
    match v
    case Object(fields) =>
      forall key | key in fields
        ensures r.fields[key] == fields[key]
                <==> if IsSensitiveKey(trim, key) then fields[key] == Str(REDACTED) else Clean(trim, fields[key])
      {
        RedactionFixesClean(trim, fields[key]);
      }
      assert r.fields.Keys == fields.Keys;
      assert r == v <==> forall key | key in fields :: r.fields[key] == fields[key];
    case Array(items) =>
      forall i | 0 <= i < |items| ensures r.items[i] == items[i] <==> Clean(trim, items[i]) {
        RedactionFixesClean(trim, items[i]);
      }
      assert r == v <==> forall i | 0 <= i < |items| :: r.items[i] == items[i];
    case _ =>
  }

  /** Redaction keeps keys and lengths outside the secrets, is idempotent, and cleans its input. */
  lemma {:induction false} RedactionCleans(trim: string -> string, v: Json)
    ensures Clean(trim, RedactAuditValue(trim, v))
    ensures SameOutsideSecrets(trim, v, RedactAuditValue(trim, v))
    ensures RedactAuditValue(trim, RedactAuditValue(trim, v)) == RedactAuditValue(trim, v)
    decreases v
  {
    match v {
      case Object(fields) =>
        forall key | key in fields
          ensures Clean(trim, RedactAuditValue(trim, fields[key]))
          ensures SameOutsideSecrets(trim, fields[key], RedactAuditValue(trim, fields[key]))
        {
          RedactionCleans(trim, fields[key]);
        }
      case Array(items) =>
        forall i | 0 <= i < |items|
          ensures Clean(trim, RedactAuditValue(trim, items[i]))
          ensures SameOutsideSecrets(trim, items[i], RedactAuditValue(trim, items[i]))
        {
          RedactionCleans(trim, items[i]);
        }
      case _ =>
    }
    RedactionFixesClean(trim, RedactAuditValue(trim, v));
  }

  // ----- Which keys are sensitive -----

  lemma ListedTermsContainTerms()
    ensures forall word <- ["token", "api_token", "access_token", "refresh_token"] :: Contains(word, "token")
    ensures Contains("password", "password") && Contains("secret", "secret")
    ensures Contains("credential", "credential") && Contains("credentials", "credential")
  {
    hide Contains;
    ContainsMiddle("", "token", "");
    ContainsMiddle("api_", "token", "");
    ContainsMiddle("access_", "token", "");
    ContainsMiddle("refresh_", "token", "");
    ContainsMiddle("", "password", "");
    ContainsMiddle("", "secret", "");
    ContainsMiddle("", "credential", "");
    ContainsMiddle("", "credential", "s");
    assert "" + "token" + "" == "token" && "api_" + "token" + "" == "api_token";
    assert "access_" + "token" + "" == "access_token" && "refresh_" + "token" + "" == "refresh_token";
    assert "" + "password" + "" == "password" && "" + "secret" + "" == "secret";
    assert "" + "credential" + "" == "credential" && "" + "credential" + "s" == "credentials";
  }

  /** A key is sensitive exactly when, trimmed and in any case, it contains one of four terms or is one
      of four more words. */
  lemma SensitiveKeyIff(trim: string -> string, key: string)
    ensures IsSensitiveKey(trim, key)
            <==> || FoundIgnoringCase(trim(key), "token")
                 || FoundIgnoringCase(trim(key), "secret")
                 || FoundIgnoringCase(trim(key), "password")
                 || FoundIgnoringCase(trim(key), "credential")
                 || EqIgnoreAsciiCase(trim(key), "authorization")
                 || EqIgnoreAsciiCase(trim(key), "bearer")
                 || EqIgnoreAsciiCase(trim(key), "api_key")
                 || EqIgnoreAsciiCase(trim(key), "apikey")
  {
    hide Contains, FoundIgnoringCase, AsciiLower;
    ListedTermsContainTerms();
    LowerContainsIff(trim(key), "token");
    LowerContainsIff(trim(key), "secret");
    LowerContainsIff(trim(key), "password");
    LowerContainsIff(trim(key), "credential");
    LowerWords();
  }

  lemma LowerWords()
    ensures AsciiLower("authorization") == "authorization" && AsciiLower("bearer") == "bearer"
    ensures AsciiLower("api_key") == "api_key" && AsciiLower("apikey") == "apikey"
  {
  }

  /** The value of a sensitive key, at any depth, is replaced by the placeholder; other values are
      redacted in turn, and scalars stay. */
  lemma SensitiveValuesAreReplaced(trim: string -> string, v: Json, key: string, i: nat)
    ensures v.Object? && key in v.fields ==>
              Get(RedactAuditValue(trim, v), key)
              == Some(if IsSensitiveKey(trim, key) then Str("[REDACTED]") else RedactAuditValue(trim, v.fields[key]))
    ensures v.Array? && i < |v.items| ==>
              var r := RedactAuditValue(trim, v);
              r.Array? && |r.items| == |v.items| && r.items[i] == RedactAuditValue(trim, v.items[i])
    ensures !v.Object? && !v.Array? ==> RedactAuditValue(trim, v) == v
  {
  }
}
