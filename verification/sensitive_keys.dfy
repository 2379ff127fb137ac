/** The key-name rule that decides which configuration fields are redacted
    (src/pan_collector/main.py lines 13-22). */
module SensitiveKeys {

  /** Lower-casing of one character. ASCII `A`-`Z` map to `a`-`z`, and the
      KELVIN SIGN U+212A maps to `k`, as Python's `str.lower` does. Every
      other character is kept; Python lower-cases further non-ASCII letters,
      but none of them to a letter of an ASCII token, so matching against
      the tokens below is unaffected. */
  function LowerChar(c: char): char
  {
    if 'A' <= c <= 'Z' then (c as int + 32) as char
    else if c == '\U{212A}' then 'k'
    else c
  }

  predicate IsUpper(c: char)
  {
    'A' <= c <= 'Z' || c == '\U{212A}'
  }

  function Lower(s: string): (r: string)
    ensures |r| == |s|
    ensures forall i | 0 <= i < |r| :: !IsUpper(r[i])
    ensures forall i | 0 <= i < |s| && !IsUpper(s[i]) :: r[i] == s[i]
  {
    seq(|s|, i requires 0 <= i < |s| => LowerChar(s[i]))
  }

  /** `t` occurs in `s` starting at position `i`. */
  predicate OccursAt(s: string, t: string, i: nat)
  {
    i + |t| <= |s| && s[i..i + |t|] == t
  }

  /** Python's `t in s` for strings: `t` occurs as a contiguous substring. */
  predicate Contains(s: string, t: string)
  {
    exists i: nat | i <= |s| - |t| :: OccursAt(s, t, i)
  }

  /** The substring tokens tested on the lower-cased key. */
  const Tokens: seq<string> := ["password", "secret", "key", "phash", "users"]

  /** The exact-match set `sensitive_keys`. */
  const SensitiveKeyNames: set<string> := {
    "pre-shared-key", "private-key", "public-key", "key",
    "bind-password", "password", "secret",
    "auth-password", "priv-password", "phash", "users"
  }

  predicate ContainsToken(s: string)
  {
    exists t | t in Tokens :: Contains(s, t)
  }

  /** The test on line 21-22: a token occurs in the lower-cased key, or the
      lower-cased key is one of the exact names. */
  predicate IsSensitive(k: string)
  {
    var lower := Lower(k);
    ContainsToken(lower) || lower in SensitiveKeyNames
  }

  lemma ContainsAt(s: string, t: string, i: nat)
    requires OccursAt(s, t, i)
    ensures Contains(s, t)
  {
  }

  lemma Embedded(a: string, t: string, b: string)
    ensures Contains(a + t + b, t)
  {
    assert (a + t + b)[|a|..|a| + |t|] == t;
    ContainsAt(a + t + b, t, |a|);
  }

  lemma NameContainsToken(name: string, pre: string, t: string, post: string)
    requires t in Tokens && name == pre + t + post
    ensures ContainsToken(name)
  {
    Embedded(pre, t, post);
  }

  /** Every exact name already contains one of the tokens. */
  lemma ExactNamesContainTokens()
    ensures forall n | n in SensitiveKeyNames :: ContainsToken(n)
  {
    forall n | n in SensitiveKeyNames
      ensures ContainsToken(n)
    {
      if n == "pre-shared-key" {
        NameContainsToken(n, "pre-shared-", "key", "");
      } else if n == "private-key" {
        NameContainsToken(n, "private-", "key", "");
      } else if n == "public-key" {
        NameContainsToken(n, "public-", "key", "");
      } else if n == "key" {
        NameContainsToken(n, "", "key", "");
      } else if n == "bind-password" {
        NameContainsToken(n, "bind-", "password", "");
      } else if n == "password" {
        NameContainsToken(n, "", "password", "");
      } else if n == "secret" {
        NameContainsToken(n, "", "secret", "");
      } else if n == "auth-password" {
        NameContainsToken(n, "auth-", "password", "");
      } else if n == "priv-password" {
        NameContainsToken(n, "priv-", "password", "");
      } else if n == "phash" {
        NameContainsToken(n, "", "phash", "");
      } else if n == "users" {
        NameContainsToken(n, "", "users", "");
      }
    }
  }

  /** The exact-match disjunct never changes the outcome: a key is
      sensitive exactly when its lower-cased name contains a token. */
  lemma SensitiveIffToken(k: string)
    ensures IsSensitive(k) <==> ContainsToken(Lower(k))
  {
    ExactNamesContainTokens();
  }

  lemma LowerKeepsLowercase(s: string)
    requires forall i | 0 <= i < |s| :: !IsUpper(s[i])
    ensures Lower(s) == s
  {
  }

  /** `t` cannot occur in `s` when `s` lacks one of `t`'s characters. */
  lemma MissingCharNotContained(s: string, t: string, c: char)
    requires c in t && c !in s
    ensures !Contains(s, t)
  {
  }

  /** Every token has a `p`, `c`, `k` or `u`: a key with none of these
      letters in either case is not sensitive. */
  lemma NoTokenLettersNotSensitive(k: string)
    requires forall i | 0 <= i < |k| :: k[i] !in {'p', 'P', 'c', 'C', 'k', 'K', '\U{212A}', 'u', 'U'}
    ensures !IsSensitive(k)
  {
    var lower := Lower(k);
    assert forall i | 0 <= i < |lower| :: lower[i] == LowerChar(k[i]);
    assert 'p' !in lower && 'c' !in lower && 'k' !in lower && 'u' !in lower;
    SensitiveIffToken(k);
    MissingCharNotContained(lower, "password", 'p');
    MissingCharNotContained(lower, "secret", 'c');
    MissingCharNotContained(lower, "key", 'k');
    MissingCharNotContained(lower, "phash", 'p');
    MissingCharNotContained(lower, "users", 'u');
  }

  /** Upper-case ASCII letters become the lower-case letter 32 code points
      on, and the KELVIN SIGN becomes `k`. */
  lemma LowerMapsUpper(s: string)
    ensures forall i | 0 <= i < |s| && 'A' <= s[i] <= 'Z' :: Lower(s)[i] as int == s[i] as int + 32
    ensures forall i | 0 <= i < |s| && s[i] == '\U{212A}' :: Lower(s)[i] == 'k'
  {
  }

  /** Lower-casing a key first never changes whether it is sensitive. */
  lemma CaseIgnored(k: string)
    ensures IsSensitive(Lower(k)) == IsSensitive(k)
  {
    LowerKeepsLowercase(Lower(k));
  }

  /** Mixed-case names free of token letters are not sensitive either. */
  lemma MixedCaseNameNotSensitive()
    ensures !IsSensitive("HostName") && !IsSensitive("NOTE")
  {
    NoTokenLettersNotSensitive("HostName");
    NoTokenLettersNotSensitive("NOTE");
  }

  lemma LowerConcat(a: string, b: string)
    ensures Lower(a + b) == Lower(a) + Lower(b)
  {
  }

  /** Matching is by substring, so a key that embeds a sensitive name is
      itself sensitive, whatever surrounds it: the rule errs towards
      redacting too much rather than too little. */
  lemma {:induction false} SensitiveUnderEmbedding(a: string, k: string, b: string)
    requires IsSensitive(k)
    ensures IsSensitive(a + k + b)
  {
    SensitiveIffToken(k);
    SensitiveIffToken(a + k + b);
    var t :| t in Tokens && Contains(Lower(k), t);
    var i: nat :| i <= |Lower(k)| - |t| && OccursAt(Lower(k), t, i);
    LowerConcat(a + k, b);
    LowerConcat(a, k);
    var whole := Lower(a) + Lower(k) + Lower(b);
    assert whole[|a| + i..|a| + i + |t|] == Lower(k)[i..i + |t|];
    ContainsAt(whole, t, |a| + i);
  }

  /** Case is ignored: an upper-case spelling of a token, inside a longer
      key, is caught. */
  lemma UpperCaseTokenIsSensitive()
    ensures IsSensitive("Bind-PASSWORD")
  {
    assert Lower("PASSWORD") == "password";
    assert "password" in SensitiveKeyNames;
    SensitiveUnderEmbedding("Bind-", "PASSWORD", "");
    assert "Bind-" + "PASSWORD" + "" == "Bind-PASSWORD";
  }

  /** A key that merely contains `key` inside a longer word is redacted. */
  lemma SubstringOverMatch()
    ensures IsSensitive("subkeychain")
  {
    LowerKeepsLowercase("key");
    assert "key" in SensitiveKeyNames;
    SensitiveUnderEmbedding("sub", "key", "chain");
    assert "sub" + "key" + "chain" == "subkeychain";
  }

  /** An occurrence of `t` that covers position `|a|` of `a + [c] + b`
      has `c` in it. */
  lemma StraddleHasChar(a: string, c: char, b: string, t: string, i: nat)
    requires OccursAt(a + [c] + b, t, i)
    ensures i <= |a| < i + |t| ==> c in t
  {
    if i <= |a| < i + |t| {
      assert t[|a| - i] == (a + [c] + b)[|a|];
    }
  }

  /** An occurrence of `t` in `a + [c] + b` lies wholly in `a` or wholly in
      `b` when `t` has no `c` in it. */
  lemma SplitAtAbsentChar(a: string, c: char, b: string, t: string)
    requires c !in t
    requires Contains(a + [c] + b, t)
    ensures Contains(a, t) || Contains(b, t)
  {
    var s := a + [c] + b;
    var i: nat :| i <= |s| - |t| && OccursAt(s, t, i);
    StraddleHasChar(a, c, b, t, i);
    if i + |t| <= |a| {
      assert s[i..i + |t|] == a[i..i + |t|];
      ContainsAt(a, t, i);
    } else {
      var j := i - |a| - 1;
      assert s[i..i + |t|] == b[j..j + |t|];
      ContainsAt(b, t, j);
    }
  }
}
