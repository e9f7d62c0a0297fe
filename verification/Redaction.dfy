/** Redaction of audit metadata (control-plane/internal/audit/audit.go). A string is a sequence of bytes,
    one character each. */
module Redaction {
  import opened Text

  predicate At(s: string, sub: string, i: nat)
    requires i + |sub| <= |s|
  {
    s[i..i + |sub|] == sub
  }

  /** `sub` occurs in `s` as a contiguous piece. */
  predicate Occurs(s: string, sub: string) {
    exists i | 0 <= i <= |s| - |sub| :: At(s, sub, i)
  }

  lemma OccursIff(s: string, sub: string)
    ensures Occurs(s, sub) <==> exists before, after :: s == before + sub + after
  {
    if Occurs(s, sub) {
      var i: nat :| i <= |s| - |sub| && At(s, sub, i);
      assert s == s[..i] + sub + s[i + |sub|..];
    }
    if before, after :| s == before + sub + after {
      assert At(s, sub, |before|);
    }
  }

  function Lower(c: char): char {
    if 'A' <= c <= 'Z' then c + 32 as char else c
  }

  function Lowered(s: string): string {
    seq(|s|, i requires 0 <= i < |s| => Lower(s[i]))
  }

  const SENSITIVE_KEYS: seq<string> := [
    "password", "token", "secret", "key", "credential",
    "authorization", "cookie", "api_key", "private_key",
    "totp_secret", "backup_code", "hash"]

  predicate Sensitive(key: string) {
    exists i | 0 <= i < |SENSITIVE_KEYS| :: Occurs(Lowered(key), SENSITIVE_KEYS[i])
  }

  method ToLower(s: string) returns (r: string)
    ensures |r| == |s|
    ensures forall i | 0 <= i < |s| ::
              r[i] == if 'A' <= s[i] <= 'Z' then (s[i] as int + 32) as char else s[i]
    ensures r == Lowered(s)
  {
    var result := new char[|s|];
    for i := 0 to |s|
      invariant forall j | 0 <= j < i :: result[j] == Lower(s[j])
    {
      var c := s[i];
      if 'A' <= c <= 'Z' {
        result[i] := c + 32 as char;
      } else {
        result[i] := c;
      }
    }
    r := result[..];
  }

  /** The hand-written substring search: the whole string, a prefix, a suffix, or any position. */
  method Contains(s: string, sub: string) returns (found: bool)
    ensures found <==> exists before, after :: s == before + sub + after
    ensures found <==> Occurs(s, sub)
  {
    OccursIff(s, sub);
    if |s| < |sub| {
      return false;
    }
    if s == sub {
      assert At(s, sub, 0);
      return true;
    }
    if |s| == |sub| {
      assert forall i | 0 <= i <= |s| - |sub| :: !At(s, sub, i) by {
        assert s[0..|sub|] == s;
      }
      return false;
    }
    if s[..|sub|] == sub {
      assert At(s, sub, 0);
      return true;
    }
    if s[|s| - |sub|..] == sub {
      assert At(s, sub, |s| - |sub|);
      return true;
    }
    found := ContainsAt(s, sub);
  }

  method ContainsAt(s: string, sub: string) returns (found: bool)
    ensures found <==> exists before, after :: s == before + sub + after
    ensures found <==> Occurs(s, sub)
  {
    OccursIff(s, sub);
    var i := 0;
    while i <= |s| - |sub|
      invariant 0 <= i
      invariant forall j | 0 <= j < i && j + |sub| <= |s| :: !At(s, sub, j)
    {
      if s[i..i + |sub|] == sub {
        assert At(s, sub, i);
        return true;
      }
      i := i + 1;
    }
    found := false;
  }

  method IsSensitive(key: string) returns (sensitive: bool)
    ensures sensitive <==> Sensitive(key)
  {
    var kLower := ToLower(key);
    for i := 0 to |SENSITIVE_KEYS|
      invariant forall j | 0 <= j < i :: !Occurs(kLower, SENSITIVE_KEYS[j])
    {
      var s := SENSITIVE_KEYS[i];
      var inside := Contains(kLower, s);
      if kLower == s || inside {
        assert kLower == s ==> At(kLower, s, 0);
        return true;
      }
    }
    sensitive := false;
  }

  /** `redacted` is the value that replaces a secret; a nil map is None. */
  function Sanitized<V>(m: Option<map<string, V>>, redacted: V): map<string, V> {
    if m.None? then map[]
    else map k | k in m.value :: if Sensitive(k) then redacted else m.value[k]
  }

  method SanitizeMetadata<V>(m: Option<map<string, V>>, redacted: V) returns (cleaned: map<string, V>)
    ensures cleaned.Keys == if m.None? then {} else m.value.Keys
    ensures forall k | k in cleaned :: cleaned[k] == if Sensitive(k) then redacted else m.value[k]
    ensures cleaned == Sanitized(m, redacted)
  {
    if m.None? {
      return map[];
    }
    cleaned := map[];
    var todo := m.value.Keys;
    while todo != {}
      invariant todo <= m.value.Keys
      invariant cleaned.Keys == m.value.Keys - todo
      invariant forall k | k in cleaned :: cleaned[k] == if Sensitive(k) then redacted else m.value[k]
      decreases todo
    {
      var k :| k in todo;
      var isSensitive := IsSensitive(k);
      if isSensitive {
        cleaned := cleaned[k := redacted];
      } else {
        cleaned := cleaned[k := m.value[k]];
      }
      todo := todo - {k};
    }
  }

  // ---- Properties ----

  /** Redacting twice is redacting once. */
  lemma SanitizingIsIdempotent<V>(m: map<string, V>, redacted: V)
    ensures Sanitized(Some(Sanitized(Some(m), redacted)), redacted) == Sanitized(Some(m), redacted)
  {
  }

  /** Every character of `word` stands in `key` from `i` on, as it is or as a capital 32 below it. */
  ghost predicate Spells(key: string, word: string, i: int) {
    && 0 <= i <= |key| - |word|
    && forall t | 0 <= t < |word| ::
         key[i + t] == word[t] || ('A' <= key[i + t] <= 'Z' && key[i + t] as int + 32 == word[t] as int)
  }

  /** A key is redacted exactly when it spells one of the twelve words somewhere, in letters of either case. */
  lemma SensitiveIff(key: string)
    ensures Sensitive(key) <==>
            exists word, i ::
              word in [
                "password", "token", "secret", "key", "credential", "authorization", "cookie", "api_key",
                "private_key", "totp_secret", "backup_code", "hash"]
              && Spells(key, word, i)
  {
    if Sensitive(key) {
      var j :| 0 <= j < |SENSITIVE_KEYS| && Occurs(Lowered(key), SENSITIVE_KEYS[j]);
      var word := SENSITIVE_KEYS[j];
      var i :| 0 <= i <= |key| - |word| && At(Lowered(key), word, i);
      assert word in SENSITIVE_KEYS;
      SpellsLowered(key, word, i);
    }
    if word, i :| word in SENSITIVE_KEYS && Spells(key, word, i) {
      NoCapitals(word);
      SpellsLowered(key, word, i);
      assert At(Lowered(key), word, i) && Occurs(Lowered(key), word);
    }
  }

  lemma NoCapitals(word: string)
    requires word in SENSITIVE_KEYS
    ensures forall t | 0 <= t < |word| :: !('A' <= word[t] <= 'Z')
  {
  }

  lemma SpellsLowered(key: string, word: string, i: int)
    requires 0 <= i <= |key| - |word|
    ensures At(Lowered(key), word, i) ==> Spells(key, word, i)
    ensures Spells(key, word, i) && (forall t | 0 <= t < |word| :: !('A' <= word[t] <= 'Z')) ==>
              At(Lowered(key), word, i)
  {
    var found := Lowered(key)[i..i + |word|];
    assert forall t | 0 <= t < |word| :: found[t] == Lower(key[i + t]);
  }

  /** Keys whose characters agree, or are a small letter and its capital, are redacted alike. */
  lemma CaseDoesNotMatter(a: string, b: string)
    requires |a| == |b|
    requires forall i | 0 <= i < |a| ::
               || a[i] == b[i]
               || ('A' <= a[i] <= 'Z' && a[i] as int + 32 == b[i] as int)
               || ('A' <= b[i] <= 'Z' && b[i] as int + 32 == a[i] as int)
    ensures Sensitive(a) <==> Sensitive(b)
  {
    assert Lowered(a) == Lowered(b);
  }

  lemma OccursInside(s: string, mid: string, sub: string, i: nat)
    requires Occurs(s, mid) && i + |sub| <= |mid| && At(mid, sub, i)
    ensures Occurs(s, sub)
  {
    var j: nat :| j <= |s| - |mid| && At(s, mid, j);
    var found := s[j + i..j + i + |sub|];
    forall t | 0 <= t < |sub| ensures found[t] == sub[t] {
      assert found[t] == s[j..j + |mid|][i + t] == mid[i..i + |sub|][t];
    }
    assert At(s, sub, j + i);
  }

  const CORE_KEYS: seq<string> := [
    "password", "token", "secret", "key", "credential", "authorization", "cookie", "backup_code", "hash"]

  /** Three of the twelve listed words never decide anything: a key is redacted exactly when it spells one of the
      other nine. */
  lemma NineWordsDecide(key: string)
    ensures Sensitive(key) <==>
            exists word, i ::
              word in [
                "password", "token", "secret", "key", "credential", "authorization", "cookie", "backup_code", "hash"]
              && Spells(key, word, i)
  {
    NineOccur(key);
    if Sensitive(key) {
      var j :| 0 <= j < |CORE_KEYS| && Occurs(Lowered(key), CORE_KEYS[j]);
      var word := CORE_KEYS[j];
      var i :| 0 <= i <= |key| - |word| && At(Lowered(key), word, i);
      assert word in CORE_KEYS;
      SpellsLowered(key, word, i);
    }
    if word, i :| word in CORE_KEYS && Spells(key, word, i) {
      assert word in SENSITIVE_KEYS;
      SensitiveIff(key);
    }
  }

  lemma NineOccur(key: string)
    ensures Sensitive(key) <==> exists i | 0 <= i < |CORE_KEYS| :: Occurs(Lowered(key), CORE_KEYS[i])
  {
    var k := Lowered(key);
    assert At("api_key", "key", 4) && At("private_key", "key", 8) && At("totp_secret", "secret", 5);
    if Occurs(k, "api_key") {
      OccursInside(k, "api_key", "key", 4);
    }
    if Occurs(k, "private_key") {
      OccursInside(k, "private_key", "key", 8);
    }
    if Occurs(k, "totp_secret") {
      OccursInside(k, "totp_secret", "secret", 5);
    }
    if Sensitive(key) {
      var i :| 0 <= i < |SENSITIVE_KEYS| && Occurs(k, SENSITIVE_KEYS[i]);
      assert CORE_KEYS[2] == "secret" && CORE_KEYS[3] == "key";
      var j := if i < 7 then i else if i <= 8 then 3 else if i == 9 then 2 else i - 3;
      assert Occurs(k, CORE_KEYS[j]);
    }
    if exists i | 0 <= i < |CORE_KEYS| :: Occurs(k, CORE_KEYS[i]) {
      var i :| 0 <= i < |CORE_KEYS| && Occurs(k, CORE_KEYS[i]);
      var j := if i < 7 then i else i + 3;
      assert SENSITIVE_KEYS[j] == CORE_KEYS[i];
    }
  }
}
