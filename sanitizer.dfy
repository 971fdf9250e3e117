/** The request-detail sanitiser of ErrorDetails: the fixed pattern
      (?i)(password|token|secret|apiKey|auth|credential|card_no)=[^&\s,]*
    applied with replaceAll("$1=********"), written out by hand as a
    left-to-right scanner over the string. */
module Sanitizer {
  import opened Wrappers

  /** The alternatives of the pattern's group 1, in the order the regex tries them. */
  const SensitiveKeys: seq<string> := ["password", "token", "secret", "apiKey", "auth", "credential", "card_no"]

  /** The same keys folded to lower case: what the (?i) flag compares against.
      Written out as literals so that case analyses over the seven keys see them
      directly; FoldedKeysAreFolded proves it is SensitiveKeys folded. */
  const FoldedKeys: seq<string> := ["password", "token", "secret", "apikey", "auth", "credential", "card_no"]

  /** What replaces every matched value. */
  const Mask: string := "********"

  // ---------------------------------------------------------------------------
  // Characters
  // ---------------------------------------------------------------------------

  /** Case folding of the (?i) flag without UNICODE_CASE: only A-Z change. */
  function ToLowerAscii(c: char): char
  {
    if 'A' <= c <= 'Z' then (c as int + 32) as char else c
  }

  /** Java's `\s` without UNICODE_CHARACTER_CLASS: [ \t\n\x0B\f\r]. */
  predicate IsSpace(c: char)
  {
    c == ' ' || c == '\t' || c == '\n' || c == '\U{B}' || c == '\U{C}' || c == '\r'
  }

  /** The characters `[^&\s,]` excludes: they end a value. */
  predicate IsDelimiter(c: char)
  {
    c == '&' || c == ',' || IsSpace(c)
  }

  /** The characters the sensitive keys are written with. */
  predicate IsKeyChar(c: char)
  {
    'a' <= c <= 'z' || 'A' <= c <= 'Z' || c == '_'
  }

  /** A string with every character folded by ToLowerAscii. */
  function Fold(s: string): string
  {
    seq(|s|, i requires 0 <= i < |s| => ToLowerAscii(s[i]))
  }

  lemma FoldSlice(s: string, i: nat, j: nat)
    requires i <= j <= |s|
    ensures Fold(s[i..j]) == Fold(s)[i..j]
  {
    assert forall t :: 0 <= t < j - i ==> Fold(s[i..j])[t] == Fold(s)[i..j][t];
  }

  /** The regex compares against the keys folded to lower case. */
  lemma FoldedKeysAreFolded()
    ensures |SensitiveKeys| == |FoldedKeys|
    ensures forall j :: 0 <= j < |SensitiveKeys| ==> Fold(SensitiveKeys[j]) == FoldedKeys[j]
  {
    forall j | 0 <= j < |SensitiveKeys| ensures Fold(SensitiveKeys[j]) == FoldedKeys[j] {
      var k := SensitiveKeys[j];
      assert forall i :: 0 <= i < |k| ==> Fold(k)[i] == FoldedKeys[j][i];
    }
  }

  /** w is one of `keys`. */
  predicate InKeys(w: string, keys: seq<string>)
    decreases |keys|
  {
    keys != [] && (w == keys[0] || InKeys(w, keys[1..]))
  }

  /** A word that the (?i) alternation accepts as one of the seven keys. */
  predicate IsSensitiveKey(w: string)
  {
    InKeys(Fold(w), FoldedKeys)
  }

  /** Every accepted key is at least four characters of letters and '_'. */
  lemma SensitiveKeyChars(w: string)
    requires IsSensitiveKey(w)
    ensures |w| >= 4
    ensures forall i :: 0 <= i < |w| ==> IsKeyChar(w[i])
  {
    var k := Fold(w);
    FoldedKeyCases(k);
    assert forall i :: 0 <= i < |k| ==> 'a' <= k[i] <= 'z' || k[i] == '_';
    forall i | 0 <= i < |w| ensures IsKeyChar(w[i]) {
      assert k[i] == ToLowerAscii(w[i]);
    }
  }

  /** The seven folded keys, written out. */
  lemma FoldedKeyCases(u: string)
    requires InKeys(u, FoldedKeys)
    ensures u == "password" || u == "token" || u == "secret" || u == "apikey"
      || u == "auth" || u == "credential" || u == "card_no"
  {
  }

  /** The seven keys end in seven distinct letters. */
  lemma SameLastSameKey(u: string, v: string)
    requires u == "password" || u == "token" || u == "secret" || u == "apikey"
      || u == "auth" || u == "credential" || u == "card_no"
    requires v == "password" || v == "token" || v == "secret" || v == "apikey"
      || v == "auth" || v == "credential" || v == "card_no"
    requires |u| > 0 && |v| > 0 && u[|u| - 1] == v[|v| - 1]
    ensures u == v
  {
  }

  /** No key is a proper suffix of another. */
  lemma NoProperSuffixIsKey(w: string, i: nat)
    requires IsSensitiveKey(w) && 0 < i < |w|
    ensures !IsSensitiveKey(w[i..])
  {
    var u := Fold(w);
    var v := Fold(w[i..]);
    FoldSlice(w, i, |w|);
    if InKeys(v, FoldedKeys) {
      FoldedKeyCases(u);
      FoldedKeyCases(v);
      assert v[|v| - 1] == u[|u| - 1];
      SameLastSameKey(u, v);
    }
  }

  // ---------------------------------------------------------------------------
  // Matching one key at the start of a string
  // ---------------------------------------------------------------------------

  /** The index of the first '=' in x, |x| when there is none. */
  function FirstEquals(x: string): (e: nat)
    ensures e <= |x|
    ensures forall j :: 0 <= j < e ==> x[j] != '='
    ensures e < |x| ==> x[e] == '='
  {
    if x == [] || x[0] == '=' then 0 else 1 + FirstEquals(x[1..])
  }

  /** FirstEquals is the only index with its two properties. */
  lemma FirstEqualsUnique(x: string, e: nat)
    requires e <= |x|
    requires forall j :: 0 <= j < e ==> x[j] != '='
    requires e < |x| ==> x[e] == '='
    ensures FirstEquals(x) == e
  {
  }

  /** The branch `k=` of the pattern matches at the start of x. */
  predicate KeyAt(x: string, k: string)
  {
    |k| < |x| && Fold(x[..|k|]) == Fold(k) && x[|k|] == '='
  }

  /** The regex alternation: the length of the first key of `keys` that matches
      at the start of x followed by '=', None when none does. */
  function MatchKeyAmong(x: string, keys: seq<string>): (r: Option<nat>)
    ensures r.Some? ==> r.value < |x|
  {
    if keys == [] then None
    else if KeyAt(x, keys[0]) then Some(|keys[0]|)
    else MatchKeyAmong(x, keys[1..])
  }

  /** `(password|token|...|card_no)=` tried at the start of x: the length of the key text. */
  function MatchKey(x: string): (r: Option<nat>)
    ensures r.Some? ==> r.value < |x|
  {
    MatchKeyAmong(x, SensitiveKeys)
  }

  /** Reference reading of the same test: the text up to the first '=' is a key. */
  function KeyBeforeEquals(x: string): Option<nat>
  {
    var e := FirstEquals(x);
    if e < |x| && IsSensitiveKey(x[..e]) then Some(e) else None
  }

  lemma KeyAtIff(x: string, k: string)
    requires '=' !in k
    ensures KeyAt(x, k) <==> (FirstEquals(x) == |k| < |x| && Fold(x[..|k|]) == Fold(k))
  {
    if KeyAt(x, k) {
      forall j | 0 <= j < |k| ensures x[j] != '=' {
        assert Fold(x[..|k|])[j] == ToLowerAscii(x[j]);
        assert Fold(k)[j] == ToLowerAscii(k[j]);
        assert k[j] in k;
      }
      FirstEqualsUnique(x, |k|);
    }
  }

  lemma {:induction false} MatchKeyAmongIsKeyBeforeEquals(x: string, keys: seq<string>, e: nat)
    requires forall j :: 0 <= j < |keys| ==> '=' !in keys[j]
    requires e == FirstEquals(x)
    ensures MatchKeyAmong(x, keys) ==
      if e < |x| && exists j :: 0 <= j < |keys| && Fold(x[..e]) == Fold(keys[j]) then Some(e) else None
  {
    if keys != [] {
      KeyAtIff(x, keys[0]);
      MatchKeyAmongIsKeyBeforeEquals(x, keys[1..], e);
      if !KeyAt(x, keys[0]) && e < |x| {
        if exists j :: 0 <= j < |keys| && Fold(x[..e]) == Fold(keys[j]) {
          var j :| 0 <= j < |keys| && Fold(x[..e]) == Fold(keys[j]);
          assert |Fold(x[..e])| == |x[..e]|;
          KeyAtIff(x, keys[j]);
          assert j != 0;
          assert Fold(x[..e]) == Fold(keys[1..][j - 1]);
        }
        if exists j :: 0 <= j < |keys| - 1 && Fold(x[..e]) == Fold(keys[1..][j]) {
          var j :| 0 <= j < |keys| - 1 && Fold(x[..e]) == Fold(keys[1..][j]);
          assert Fold(x[..e]) == Fold(keys[j + 1]);
        }
      }
    }
  }

  lemma NoEqualsInKeys()
    ensures forall j :: 0 <= j < |SensitiveKeys| ==> '=' !in SensitiveKeys[j]
  {
  }

  /** The regex alternation tried at the start of x succeeds exactly when the
      text before the first '=' of x is one of the seven keys, ASCII case aside. */
  lemma MatchKeyIsKeyBeforeEquals(x: string)
    ensures MatchKey(x) == KeyBeforeEquals(x)
  {
    var e := FirstEquals(x);
    FoldedKeysAreFolded();
    NoEqualsInKeys();
    MatchKeyAmongIsKeyBeforeEquals(x, SensitiveKeys, e);
    if e < |x| {
      var w := Fold(x[..e]);
      assert InKeys(w, FoldedKeys) <==> exists j :: 0 <= j < |FoldedKeys| && w == FoldedKeys[j] by {
        InKeysIff(w, FoldedKeys);
      }
    }
  }

  lemma {:induction false} InKeysIff(w: string, keys: seq<string>)
    ensures InKeys(w, keys) <==> exists j :: 0 <= j < |keys| && w == keys[j]
    decreases |keys|
  {
    if keys != [] {
      InKeysIff(w, keys[1..]);
      if exists j :: 0 <= j < |keys| && w == keys[j] {
        var j :| 0 <= j < |keys| && w == keys[j];
        if j > 0 {
          assert w == keys[1..][j - 1];
        }
      }
      if exists j :: 0 <= j < |keys| - 1 && w == keys[1..][j] {
        var j :| 0 <= j < |keys| - 1 && w == keys[1..][j];
        assert w == keys[j + 1];
      }
    }
  }

  /** A match cannot start at a character that no key begins with. */
  lemma NoMatchAtNonKeyChar(x: string)
    requires |x| > 0 && !IsKeyChar(x[0])
    ensures MatchKey(x) == None
  {
    MatchKeyIsKeyBeforeEquals(x);
    var e := FirstEquals(x);
    if e < |x| && IsSensitiveKey(x[..e]) {
      SensitiveKeyChars(x[..e]);
    }
  }

  /** A match ends at the first '='. */
  lemma MatchKeyEndsAtEquals(x: string, n: nat)
    requires MatchKey(x) == Some(n)
    ensures n == FirstEquals(x) && n < |x| && x[n] == '='
  {
    MatchKeyIsKeyBeforeEquals(x);
  }

  /** A matched key is letters and '_' only. */
  lemma MatchedKeyChars(x: string, n: nat)
    requires MatchKey(x) == Some(n)
    ensures n < |x| && forall i :: 0 <= i < n ==> IsKeyChar(x[i])
  {
    MatchKeyIsKeyBeforeEquals(x);
    SensitiveKeyChars(x[..n]);
    assert forall i :: 0 <= i < n ==> x[..n][i] == x[i];
  }

  lemma PrefixAgree(x: string, y: string, m: nat)
    requires m <= |x| && m <= |y| && x[..m] == y[..m]
    ensures forall j :: 0 <= j < m ==> x[j] == y[j]
  {
    assert forall j :: 0 <= j < m ==> x[j] == x[..m][j];
  }

  /** Whether a match starts at x is decided by x up to its first '='. */
  lemma MatchKeyAgree(x: string, y: string, e: nat)
    requires e == FirstEquals(x) && e < |x| && e < |y|
    requires x[..e + 1] == y[..e + 1]
    ensures MatchKey(x) == MatchKey(y)
  {
    PrefixAgree(x, y, e + 1);
    FirstEqualsUnique(y, e);
    assert x[..e] == y[..e];
    MatchKeyIsKeyBeforeEquals(x);
    MatchKeyIsKeyBeforeEquals(y);
  }

  /** Between a key's first character and its '=' no other match can start. */
  lemma NoMatchInsideKey(x: string, n: nat, i: nat)
    requires MatchKey(x) == Some(n) && 0 < i <= n
    ensures MatchKey(x[i..]) == None
  {
    MatchKeyIsKeyBeforeEquals(x);
    NoKeyInsideKey(x, n, i);
    MatchKeyIsKeyBeforeEquals(x[i..]);
  }

  /** NoMatchInsideKey on the reference reading. */
  lemma NoKeyInsideKey(x: string, n: nat, i: nat)
    requires KeyBeforeEquals(x) == Some(n) && 0 < i <= n
    ensures KeyBeforeEquals(x[i..]) == None
  {
    var y := x[i..];
    FirstEqualsUnique(y, n - i);
    if i < n {
      assert y[..n - i] == x[..n][i..];
      NoProperSuffixIsKey(x[..n], i);
    } else {
      assert Fold(y[..0]) == [];
    }
  }

  // ---------------------------------------------------------------------------
  // The value and the scanner
  // ---------------------------------------------------------------------------

  /** Length of the greedy `[^&\s,]*` at the start of y. */
  function ValueLength(y: string): (n: nat)
    ensures n <= |y|
    ensures forall j :: 0 <= j < n ==> !IsDelimiter(y[j])
    ensures n == |y| || IsDelimiter(y[n])
  {
    if y == [] || IsDelimiter(y[0]) then 0 else 1 + ValueLength(y[1..])
  }

  /** The value the pattern consumes at the start of y. */
  function ValueOf(y: string): string
  {
    y[..ValueLength(y)]
  }

  /** A run of non-delimiters followed by a delimiter or the end is exactly one value. */
  lemma {:induction false} ValueLengthOfRun(a: string, b: string)
    requires forall j :: 0 <= j < |a| ==> !IsDelimiter(a[j])
    requires b == [] || IsDelimiter(b[0])
    ensures ValueLength(a + b) == |a|
  {
    if a != [] {
      assert (a + b)[1..] == a[1..] + b;
      ValueLengthOfRun(a[1..], b);
    }
  }

  /** What follows the key of length n at the start of s, its '=' and the value. */
  function AfterValue(s: string, n: nat): (r: string)
    requires n < |s|
    ensures |r| < |s|
    ensures r == [] || IsDelimiter(r[0])
  {
    var rest := s[n + 1..];
    rest[ValueLength(rest)..]
  }

  /** replaceAll: scan left to right; at a match emit the key as written, then
      "=********", and resume after the value; otherwise copy one character. */
  function Sanitize(s: string): string
    decreases |s|
  {
    if s == [] then []
    else match MatchKey(s)
      case Some(n) => s[..n] + "=" + Mask + Sanitize(AfterValue(s, n))
      case None => [s[0]] + Sanitize(s[1..])
  }

  /** One step of the scanner at a match. */
  lemma SanitizeAtMatch(s: string, n: nat)
    requires MatchKey(s) == Some(n)
    ensures Sanitize(s) == s[..n] + "=" + Mask + Sanitize(AfterValue(s, n))
  {
  }

  /** One step of the scanner where no key matches. */
  lemma SanitizeAtCopy(s: string)
    requires s != [] && MatchKey(s) == None
    ensures Sanitize(s) == [s[0]] + Sanitize(s[1..])
  {
  }

  /** `sanitize`: a null string stays null. */
  function SanitizeOption(details: Option<string>): (r: Option<string>)
    ensures r.Some? <==> details.Some?
    ensures r.Some? ==> Redacted(r.value) && r.value == Sanitize(details.value)
  {
    match details
    case None => None
    case Some(d) => SanitizeRedacts(d); Some(Sanitize(d))
  }

  // ---------------------------------------------------------------------------
  // What the scanner guarantees
  // ---------------------------------------------------------------------------

  /** No index of s starts a key followed by '='. */
  ghost predicate Clean(s: string)
  {
    forall i :: 0 <= i < |s| ==> MatchKey(s[i..]).None?
  }

  /** If a match starts at x, its value is exactly the mask. */
  ghost predicate RedactedAt(x: string)
  {
    match MatchKey(x)
    case None => true
    case Some(n) => ValueOf(x[n + 1..]) == Mask
  }

  /** Every key followed by '=' in t is followed by exactly "********" and then
      a delimiter or the end of t. */
  ghost predicate Redacted(t: string)
  {
    forall i :: 0 <= i < |t| ==> RedactedAt(t[i..])
  }

  lemma RedactedSuffix(t: string, j: nat)
    requires Redacted(t) && j <= |t|
    ensures Redacted(t[j..])
  {
    forall i | 0 <= i < |t[j..]| ensures RedactedAt(t[j..][i..]) {
      assert t[j..][i..] == t[j + i..];
    }
  }

  lemma CleanSuffix(t: string, j: nat)
    requires Clean(t) && j <= |t|
    ensures Clean(t[j..])
  {
    forall i | 0 <= i < |t[j..]| ensures MatchKey(t[j..][i..]).None? {
      assert t[j..][i..] == t[j + i..];
    }
  }

  /** A string without any key followed by '=' is returned unchanged. */
  lemma {:induction false} SanitizeIdentityOnClean(s: string)
    requires Clean(s)
    ensures Sanitize(s) == s
    decreases |s|
  {
    if s != [] {
      assert s[0..] == s;
      assert MatchKey(s[0..]).None?;
      CleanSuffix(s, 1);
      SanitizeIdentityOnClean(s[1..]);
    }
  }

  /** The scanner returns its input verbatim up to and including the first '='
      (all of it when there is none): the first key field is kept verbatim. */
  lemma {:induction false} SanitizeKeepsKeyField(s: string, e: nat)
    requires e == FirstEquals(s)
    ensures e == |s| ==> Sanitize(s) == s
    ensures e < |s| ==> e < |Sanitize(s)| && Sanitize(s)[..e + 1] == s[..e + 1]
    decreases |s|
  {
    if s != [] {
      match MatchKey(s)
      case Some(n) =>
        MatchKeyEndsAtEquals(s, n);
        SanitizeAtMatch(s, n);
        KeyFieldAtMatch(s, n, Sanitize(AfterValue(s, n)));
      case None =>
        SanitizeAtCopy(s);
        if s[0] != '=' {
          SanitizeKeepsKeyField(s[1..], e - 1);
          KeyFieldAtCopy(s, e, Sanitize(s[1..]));
        }
    }
  }

  lemma KeyFieldAtMatch(s: string, n: nat, t: string)
    requires n < |s| && s[n] == '='
    ensures (s[..n] + "=" + Mask + t)[..n + 1] == s[..n + 1]
  {
    assert s[..n + 1] == s[..n] + [s[n]];
  }

  lemma KeyFieldAtCopy(s: string, e: nat, t: string)
    requires 0 < e <= |s|
    requires e == |s| ==> t == s[1..]
    requires e < |s| ==> e - 1 < |t| && t[..e] == s[1..][..e]
    ensures e == |s| ==> [s[0]] + t == s
    ensures e < |s| ==> e < |[s[0]] + t| && ([s[0]] + t)[..e + 1] == s[..e + 1]
  {
    if e < |s| {
      assert ([s[0]] + t)[..e + 1] == [s[0]] + t[..e];
      assert s[..e + 1] == [s[0]] + s[1..][..e];
    } else {
      assert s == [s[0]] + s[1..];
    }
  }

  /** A delimiter never starts a match, so the scanner copies it. */
  lemma SanitizeDelimiterFirst(d: char, q: string)
    requires IsDelimiter(d)
    ensures Sanitize([d] + q) == [d] + Sanitize(q)
  {
    NoMatchAtNonKeyChar([d] + q);
    assert ([d] + q)[1..] == q;
  }

  /** The mask is eight '*' characters. */
  lemma MaskIsEightStars()
    ensures |Mask| == 8
    ensures forall j :: 0 <= j < |Mask| ==> Mask[j] == '*'
  {
  }

  /** The output of a match step is redacted when what follows it is. */
  lemma RedactedAfterMatch(s: string, n: nat, t: string)
    requires MatchKey(s) == Some(n)
    requires Redacted(t) && (t == [] || IsDelimiter(t[0]))
    ensures Redacted(s[..n] + "=" + Mask + t)
  {
    var out := s[..n] + "=" + Mask + t;
    MaskIsEightStars();
    MatchKeyEndsAtEquals(s, n);
    assert out[..n + 1] == s[..n + 1];
    MatchKeyAgree(s, out, n);
    forall i | 0 <= i < |out| ensures RedactedAt(out[i..]) {
      if i == 0 {
        assert out[0..] == out;
        assert out[n + 1..] == Mask + t;
        ValueLengthOfRun(Mask, t);
      } else if i <= n {
        NoMatchInsideKey(out, n, i);
      } else if i < n + 9 {
        assert out[i..][0] == out[i] == Mask[i - n - 1];
        NoMatchAtNonKeyChar(out[i..]);
      } else {
        assert out[i..] == t[i - (n + 9)..];
      }
    }
  }

  /** The output of a copy step is redacted when the rest of the output is. */
  lemma RedactedAfterCopy(s: string)
    requires s != [] && MatchKey(s) == None && Redacted(Sanitize(s[1..]))
    ensures Redacted([s[0]] + Sanitize(s[1..]))
  {
    var t := Sanitize(s[1..]);
    var out := [s[0]] + t;
    assert Sanitize(s) == out;
    forall i | 0 <= i < |out| ensures RedactedAt(out[i..]) {
      if i == 0 {
        assert out[0..] == out;
        var e := FirstEquals(s);
        SanitizeKeepsKeyField(s, e);
        if e < |s| {
          MatchKeyAgree(s, out, e);
        }
      } else {
        assert out[i..] == t[i - 1..];
      }
    }
  }

  /** Every match in the sanitised output carries the mask as its value:
      no secret value survives sanitisation. */
  lemma {:induction false} SanitizeRedacts(s: string)
    ensures Redacted(Sanitize(s))
    decreases |s|
  {
    if s != [] {
      match MatchKey(s)
      case Some(n) =>
        var r := AfterValue(s, n);
        var t := Sanitize(r);
        SanitizeRedacts(r);
        assert t == [] || IsDelimiter(t[0]) by {
          if r != [] {
            SanitizeDelimiterFirst(r[0], r[1..]);
            assert [r[0]] + r[1..] == r;
          }
        }
        RedactedAfterMatch(s, n, t);
      case None =>
        SanitizeRedacts(s[1..]);
        RedactedAfterCopy(s);
    }
  }

  /** At a match whose value is already the mask, the scanner resumes right after the mask. */
  lemma MaskedMatchStep(t: string, n: nat)
    requires MatchKey(t) == Some(n) && ValueOf(t[n + 1..]) == Mask
    ensures n + 9 <= |t| && AfterValue(t, n) == t[n + 9..]
    ensures t == t[..n] + "=" + Mask + t[n + 9..]
  {
    MatchKeyEndsAtEquals(t, n);
    MaskIsEightStars();
    var rest := t[n + 1..];
    assert rest[..ValueLength(rest)] == Mask;
    assert t[n + 1..n + 9] == Mask;
    assert t == t[..n] + [t[n]] + t[n + 1..n + 9] + t[n + 9..];
  }

  /** A string whose every match already carries the mask is left unchanged. */
  lemma {:induction false} RedactedIsFixpoint(t: string)
    requires Redacted(t)
    ensures Sanitize(t) == t
    decreases |t|
  {
    if t != [] {
      assert t[0..] == t;
      assert RedactedAt(t[0..]);
      match MatchKey(t)
      case Some(n) =>
        MaskedMatchStep(t, n);
        RedactedSuffix(t, n + 9);
        RedactedIsFixpoint(t[n + 9..]);
      case None =>
        RedactedSuffix(t, 1);
        RedactedIsFixpoint(t[1..]);
    }
  }

  /** The strings sanitize leaves unchanged are exactly the redacted ones. */
  lemma SanitizeFixpoints(t: string)
    ensures Sanitize(t) == t <==> Redacted(t)
  {
    SanitizeRedacts(t);
    if Redacted(t) {
      RedactedIsFixpoint(t);
    }
  }

  /** Sanitising twice is sanitising once. */
  lemma SanitizeIdempotent(s: string)
    ensures Sanitize(Sanitize(s)) == Sanitize(s)
  {
    SanitizeRedacts(s);
    RedactedIsFixpoint(Sanitize(s));
  }

  /** A match that starts in p is found the same way in any extension of p. */
  lemma MatchKeyExtend(p: string, q: string, n: nat)
    requires MatchKey(p) == Some(n)
    ensures MatchKey(p + q) == Some(n)
  {
    MatchKeyEndsAtEquals(p, n);
    assert (p + q)[..n + 1] == p[..n + 1];
    MatchKeyAgree(p, p + q, n);
  }

  /** A match cannot reach across a delimiter. */
  lemma MatchKeyBeforeDelimiter(p: string, d: char, q: string)
    requires IsDelimiter(d) && p != [] && MatchKey(p) == None
    ensures MatchKey(p + [d] + q) == None
  {
    var x := p + [d] + q;
    if MatchKey(x).Some? {
      var m := MatchKey(x).value;
      MatchKeyEndsAtEquals(x, m);
      MatchedKeyChars(x, m);
      assert x[|p|] == d;
      assert x[..m + 1] == p[..m + 1];
      MatchKeyAgree(x, p, m);
    }
  }

  /** A value stops at the first delimiter. */
  lemma ValueLengthBeforeDelimiter(a: string, d: char, q: string)
    requires IsDelimiter(d)
    ensures ValueLength(a + [d] + q) == ValueLength(a)
  {
    var v := ValueLength(a);
    if v == |a| {
      assert a + [d] + q == a + ([d] + q);
      ValueLengthOfRun(a, [d] + q);
    } else {
      assert a + [d] + q == a[..v] + (a[v..] + [d] + q);
      ValueLengthOfRun(a[..v], a[v..] + [d] + q);
    }
  }

  /** The value of a match in p + [d] + q ends inside p. */
  lemma AfterValueBeforeDelimiter(p: string, d: char, q: string, n: nat)
    requires IsDelimiter(d) && n < |p|
    ensures AfterValue(p + [d] + q, n) == AfterValue(p, n) + [d] + q
  {
    var x := p + [d] + q;
    var restP := p[n + 1..];
    assert x[n + 1..] == restP + [d] + q;
    ValueLengthBeforeDelimiter(restP, d, q);
    var v := ValueLength(restP);
    assert x[n + 1..][v..] == restP[v..] + [d] + q;
  }

  /** A match in p is the same match in p + [d] + q, and its value ends inside p. */
  lemma MatchStepExtended(p: string, d: char, q: string, n: nat)
    requires IsDelimiter(d) && MatchKey(p) == Some(n)
    ensures Sanitize(p + [d] + q) == p[..n] + "=" + Mask + Sanitize(AfterValue(p, n) + [d] + q)
  {
    var x := p + [d] + q;
    MatchKeyExtend(p, [d] + q, n);
    assert x == p + ([d] + q);
    AfterValueBeforeDelimiter(p, d, q, n);
    assert x[..n] == p[..n];
    SanitizeAtMatch(x, n);
  }

  /** The match step of SanitizeSplitsAtDelimiter. */
  lemma SplitAtMatch(p: string, d: char, q: string, n: nat)
    requires IsDelimiter(d) && MatchKey(p) == Some(n)
    requires Sanitize(AfterValue(p, n) + [d] + q) == Sanitize(AfterValue(p, n)) + [d] + Sanitize(q)
    ensures Sanitize(p + [d] + q) == Sanitize(p) + [d] + Sanitize(q)
  {
    MatchStepExtended(p, d, q, n);
    SanitizeAtMatch(p, n);
    var r := AfterValue(p, n);
    SplitCombine(Sanitize(p + [d] + q), Sanitize(p), p[..n] + "=" + Mask, Sanitize(r + [d] + q), Sanitize(r), [d], Sanitize(q));
  }

  // Solver scaffolding: regrouping of `+`, stated once so that callers need not.
  lemma SplitCombine(sx: string, sp: string, head: string, srq: string, sr: string, d: string, sq: string)
    requires sx == head + srq && sp == head + sr && srq == sr + d + sq
    ensures sx == sp + d + sq
  {
  }

  /** The empty case of SanitizeSplitsAtDelimiter. */
  lemma SplitAtEmpty(p: string, d: char, q: string)
    requires IsDelimiter(d) && p == []
    ensures Sanitize(p + [d] + q) == Sanitize(p) + [d] + Sanitize(q)
  {
    assert p + [d] + q == [d] + q;
    SanitizeDelimiterFirst(d, q);
  }

  /** The copy step of SanitizeSplitsAtDelimiter. */
  lemma SplitAtCopy(p: string, d: char, q: string)
    requires IsDelimiter(d) && p != [] && MatchKey(p) == None
    requires Sanitize(p[1..] + [d] + q) == Sanitize(p[1..]) + [d] + Sanitize(q)
    ensures Sanitize(p + [d] + q) == Sanitize(p) + [d] + Sanitize(q)
  {
    var x := p + [d] + q;
    MatchKeyBeforeDelimiter(p, d, q);
    assert x[1..] == p[1..] + [d] + q;
  }

  /** Pairs separated by a delimiter are sanitised independently: a match never
      reaches across '&', ',' or whitespace. */
  lemma {:induction false} SanitizeSplitsAtDelimiter(p: string, d: char, q: string)
    requires IsDelimiter(d)
    ensures Sanitize(p + [d] + q) == Sanitize(p) + [d] + Sanitize(q)
    decreases |p|
  {
    if p == [] {
      SplitAtEmpty(p, d, q);
    } else {
      match MatchKey(p)
      case Some(n) =>
        SanitizeSplitsAtDelimiter(AfterValue(p, n), d, q);
        SplitAtMatch(p, d, q, n);
      case None =>
        SanitizeSplitsAtDelimiter(p[1..], d, q);
        SplitAtCopy(p, d, q);
    }
  }

  // ---------------------------------------------------------------------------
  // Single pairs and worked examples
  // ---------------------------------------------------------------------------

  /** In `u=rest` with no '=' in u, the first '=' is the one after u. */
  lemma FirstEqualsAfterWord(u: string, rest: string)
    requires '=' !in u
    ensures FirstEquals(u + "=" + rest) == |u|
    ensures (u + "=" + rest)[..|u|] == u
    ensures (u + "=" + rest)[|u| + 1..] == rest
  {
    var z := u + "=" + rest;
    assert forall j :: 0 <= j < |u| ==> z[j] == u[j];
    FirstEqualsUnique(z, |u|);
    assert z[..|u|] == u;
  }

  /** What follows the value of a pair whose value has no delimiter: nothing. */
  lemma AfterValueOfPair(k: string, v: string)
    requires '=' !in k
    requires forall i :: 0 <= i < |v| ==> !IsDelimiter(v[i])
    ensures AfterValue(k + "=" + v, |k|) == []
  {
    FirstEqualsAfterWord(k, v);
    assert v + [] == v;
    ValueLengthOfRun(v, []);
  }

  /** A sensitive pair `key=value` has its value replaced and its key kept as written. */
  lemma SanitizePair(k: string, v: string)
    requires IsSensitiveKey(k)
    requires forall i :: 0 <= i < |v| ==> !IsDelimiter(v[i])
    ensures Sanitize(k + "=" + v) == k + "=" + Mask
  {
    var x := k + "=" + v;
    KeyHasNoEquals(k);
    FirstEqualsAfterWord(k, v);
    MatchKeyIsKeyBeforeEquals(x);
    SanitizeAtMatch(x, |k|);
    AfterValueOfPair(k, v);
    assert Sanitize([]) == [];
    AppendEmpty(k + "=" + Mask);
  }

  // Solver scaffolding: regrouping of `+`, stated once so that callers need not.
  lemma AppendEmpty(a: string)
    ensures a + [] == a
  {
  }

  /** A string without '=' does not start a match. */
  lemma NoMatchWithoutEquals(y: string)
    requires '=' !in y
    ensures MatchKey(y).None?
  {
    assert forall j :: 0 <= j < |y| ==> y[j] != '=';
    FirstEqualsUnique(y, |y|);
    MatchKeyIsKeyBeforeEquals(y);
  }

  lemma SuffixOfPair(k: string, v: string, i: nat)
    requires i <= |k| + 1 + |v|
    ensures i <= |k| ==> (k + "=" + v)[i..] == k[i..] + "=" + v
    ensures i > |k| ==> (k + "=" + v)[i..] == v[i - |k| - 1..]
  {
  }

  /** A pair whose key does not end in a sensitive key is left as it is. */
  lemma SanitizePlainPair(k: string, v: string)
    requires forall i :: 0 <= i <= |k| ==> !IsSensitiveKey(k[i..])
    requires '=' !in k && '=' !in v
    ensures Sanitize(k + "=" + v) == k + "=" + v
  {
    var x := k + "=" + v;
    forall i | 0 <= i < |x| ensures MatchKey(x[i..]).None? {
      SuffixOfPair(k, v, i);
      if i <= |k| {
        assert forall c :: c in k[i..] ==> c in k;
        NoMatchAtPlainWord(k[i..], v);
      } else {
        assert forall c :: c in v[i - |k| - 1..] ==> c in v;
        NoMatchWithoutEquals(v[i - |k| - 1..]);
      }
    }
    SanitizeIdentityOnClean(x);
  }

  /** Text in which no key followed by '=' starts is copied unchanged, and the
      scanner then carries on with what follows it. */
  lemma {:induction false} SanitizeCopiesPrefix(w: string, y: string)
    requires forall i :: 0 <= i < |w| ==> MatchKey(w[i..] + y).None?
    ensures Sanitize(w + y) == w + Sanitize(y)
    decreases |w|
  {
    if w != [] {
      ConsSplit(w, y);
      assert MatchKey(w[0..] + y).None?;
      SanitizeAtCopy(w + y);
      forall i | 0 <= i < |w[1..]| ensures MatchKey(w[1..][i..] + y).None? {
        assert MatchKey(w[i + 1..] + y).None?;
      }
      SanitizeCopiesPrefix(w[1..], y);
      ConsJoin(w, Sanitize(y));
    } else {
      assert w + y == y;
    }
  }

  // Solver scaffolding: regrouping of `+`, stated once so that callers need not.
  lemma ConsSplit(w: string, y: string)
    requires w != []
    ensures w[0..] == w && (w + y)[0] == w[0] && (w + y)[1..] == w[1..] + y
    ensures forall i :: 0 <= i < |w| - 1 ==> w[1..][i..] == w[i + 1..]
  {
  }

  // Solver scaffolding: regrouping of `+`, stated once so that callers need not.
  lemma ConsJoin(w: string, t: string)
    requires w != []
    ensures [w[0]] + (w[1..] + t) == w + t
  {
  }

  /** A word that is not a key, followed by '=', does not start a match. */
  lemma NoMatchAtPlainWord(u: string, rest: string)
    requires '=' !in u && !IsSensitiveKey(u)
    ensures MatchKey(u + "=" + rest).None?
  {
    FirstEqualsAfterWord(u, rest);
    MatchKeyIsKeyBeforeEquals(u + "=" + rest);
  }

  lemma KeyHasNoEquals(k: string)
    requires IsSensitiveKey(k)
    ensures '=' !in k
  {
    SensitiveKeyChars(k);
  }

  // Solver scaffolding: regrouping of `+`, stated once so that callers need not.
  lemma Regroup3(a: string, b: string, c: string)
    ensures a + (b + "=" + c) == (a + b) + "=" + c
    ensures a + b + "=" + c == a + (b + "=" + c)
  {
  }

  /** There is no word boundary before a key: a key at the end of a longer word,
      as in `user_password=...`, is still matched and its value masked. */
  lemma SanitizeEmbeddedKey(w: string, k: string, v: string)
    requires '=' !in w
    requires forall i :: 0 <= i < |w| ==> !IsSensitiveKey(w[i..] + k)
    requires IsSensitiveKey(k)
    requires forall i :: 0 <= i < |v| ==> !IsDelimiter(v[i])
    ensures Sanitize(w + k + "=" + v) == w + k + "=" + Mask
  {
    var y := k + "=" + v;
    KeyHasNoEquals(k);
    forall i | 0 <= i < |w| ensures MatchKey(w[i..] + y).None? {
      var u := w[i..] + k;
      assert forall c :: c in u ==> c in w[i..] || c in k;
      Regroup3(w[i..], k, v);
      NoMatchAtPlainWord(u, v);
    }
    SanitizeCopiesPrefix(w, y);
    SanitizePair(k, v);
    Regroup3(w, k, v);
    Regroup3(w, k, Mask);
  }

  /** Pairs separated by two delimiters (", " say) are sanitised one by one. */
  lemma SanitizeSplitsAtTwoDelimiters(p: string, d1: char, d2: char, q: string)
    requires IsDelimiter(d1) && IsDelimiter(d2)
    ensures Sanitize(p + [d1, d2] + q) == Sanitize(p) + [d1, d2] + Sanitize(q)
  {
    var r := [d2] + q;
    SanitizeSplitsAtDelimiter(p, d1, r);
    SanitizeDelimiterFirst(d2, q);
    assert p + [d1] + r == p + [d1, d2] + q;
    JoinTwo(Sanitize(p), d1, Sanitize(r), d2, Sanitize(q));
  }

  // Solver scaffolding: regrouping of `+`, stated once so that callers need not.
  lemma JoinTwo(a: string, d1: char, r: string, d2: char, b: string)
    requires r == [d2] + b
    ensures a + [d1] + r == a + [d1, d2] + b
  {
  }

  /** A lower-case key is accepted as written. */
  lemma LowerKeyAccepted(k: string)
    requires k == "token" || k == "password"
    ensures IsSensitiveKey(k)
  {
    assert Fold(k) == k;
  }

  /** Three items listed with ", " are sanitised one by one. */
  lemma SanitizeThreeItems(a: string, b: string, c: string)
    ensures Sanitize(a + ", " + b + ", " + c) == Sanitize(a) + ", " + Sanitize(b) + ", " + Sanitize(c)
  {
    var y := b + [',', ' '] + c;
    Regroup(a, b, c);
    SanitizeSplitsAtTwoDelimiters(a, ',', ' ', y);
    SanitizeSplitsAtTwoDelimiters(b, ',', ' ', c);
    Regroup(Sanitize(a), Sanitize(b), Sanitize(c));
  }

  // Solver scaffolding: regrouping of `+`, stated once so that callers need not.
  lemma Regroup(a: string, b: string, c: string)
    ensures a + ", " + b + ", " + c == a + [',', ' '] + (b + [',', ' '] + c)
  {
  }

  /** Three pairs listed with ", ": the two sensitive ones are masked and the
      plain one is kept. */
  lemma SanitizeThreePairs(k1: string, v1: string, k2: string, v2: string, k3: string, v3: string,
                           x: string, y: string)
    requires IsSensitiveKey(k1) && forall i :: 0 <= i < |v1| ==> !IsDelimiter(v1[i])
    requires IsSensitiveKey(k2) && forall i :: 0 <= i < |v2| ==> !IsDelimiter(v2[i])
    requires forall i :: 0 <= i <= |k3| ==> !IsSensitiveKey(k3[i..])
    requires '=' !in k3 && '=' !in v3
    requires x == (k1 + "=" + v1) + ", " + (k2 + "=" + v2) + ", " + (k3 + "=" + v3)
    requires y == (k1 + "=" + Mask) + ", " + (k2 + "=" + Mask) + ", " + (k3 + "=" + v3)
    ensures Sanitize(x) == y
  {
    var a, b, c := k1 + "=" + v1, k2 + "=" + v2, k3 + "=" + v3;
    SanitizeThreeItems(a, b, c);
    SanitizePair(k1, v1);
    SanitizePair(k2, v2);
    SanitizePlainPair(k3, v3);
    JoinThree(Sanitize(a + ", " + b + ", " + c), Sanitize(a), Sanitize(b), Sanitize(c),
      k1 + "=" + Mask, k2 + "=" + Mask, c);
  }

  /** No suffix of "user" is a sensitive key. */
  lemma UserIsPlain()
    ensures forall i :: 0 <= i <= |"user"| ==> !IsSensitiveKey("user"[i..])
  {
    assert Fold("user") == "user" && Fold("ser") == "ser" && Fold("er") == "er" && Fold("r") == "r";
  }

  /** Solver scaffolding: the test input cut at its two ", " separators. */
  lemma TestCaseInput(raw: string)
    requires raw == "token=abc-123, password=my_password, user=sasato"
    ensures raw == "token=abc-123" + ", " + "password=my_password" + ", " + "user=sasato"
  {
  }

  /** Solver scaffolding: the expected output cut the same way. */
  lemma TestCaseOutput(out: string)
    requires out == "token=********, password=********, user=sasato"
    ensures out == "token=********" + ", " + "password=********" + ", " + "user=sasato"
  {
  }

  /** Solver scaffolding: the three pairs cut at their '='. */
  lemma TestCasePairs()
    ensures "token=abc-123" == "token" + "=" + "abc-123"
    ensures "password=my_password" == "password" + "=" + "my_password"
    ensures "user=sasato" == "user" + "=" + "sasato"
    ensures "token=********" == "token" + "=" + Mask
    ensures "password=********" == "password" + "=" + Mask
  {
  }

  /** The three pairs meet the conditions of SanitizeThreePairs. */
  lemma TestCaseConditions()
    ensures IsSensitiveKey("token") && forall i :: 0 <= i < |"abc-123"| ==> !IsDelimiter("abc-123"[i])
    ensures IsSensitiveKey("password") && forall i :: 0 <= i < |"my_password"| ==> !IsDelimiter("my_password"[i])
    ensures forall i :: 0 <= i <= |"user"| ==> !IsSensitiveKey("user"[i..])
    ensures '=' !in "user" && '=' !in "sasato"
  {
    LowerKeyAccepted("token");
    LowerKeyAccepted("password");
    UserIsPlain();
  }

  /** The request string of the sanitising test case: both secrets are masked
      and the plain pair survives. */
  lemma SanitizeTestCase(raw: string, out: string)
    requires raw == "token=abc-123, password=my_password, user=sasato"
    requires out == "token=********, password=********, user=sasato"
    ensures Sanitize(raw) == out
  {
    TestCaseConditions();
    TestCaseInput(raw);
    TestCaseOutput(out);
    TestCasePairs();
    SanitizeThreePairs("token", "abc-123", "password", "my_password", "user", "sasato", raw, out);
  }

  /** Lengths of the keys: none has 9 characters or more than 10, and the only
      one with 10 starts with 'c'. */
  lemma SensitiveKeyLength(w: string)
    requires IsSensitiveKey(w)
    ensures |w| != 9 && |w| <= 10
    ensures |w| == 10 ==> ToLowerAscii(w[0]) == 'c'
  {
    var k := Fold(w);
    FoldedKeyCases(k);
    if |w| == 10 {
      assert k == "credential";
      assert k[0] == ToLowerAscii(w[0]);
    }
  }

  /** The words ending in "password" inside "user_password" are not keys. */
  lemma UserPrefixIsPlain()
    ensures forall i :: 0 <= i < |"user_"| ==> !IsSensitiveKey("user_"[i..] + "password")
  {
    forall i | 0 <= i < |"user_"| ensures !IsSensitiveKey("user_"[i..] + "password") {
      var u := "user_"[i..] + "password";
      if IsSensitiveKey(u) {
        SensitiveKeyLength(u);
      }
    }
  }

  /** `user_password=x` is masked although the key is preceded by "user_". */
  lemma SanitizeUserPassword(x: string, y: string)
    requires x == "user_password=x"
    requires y == "user_password=********"
    ensures Sanitize(x) == y
  {
    UserPrefixIsPlain();
    LowerKeyAccepted("password");
    UserPasswordText(x, y);
    SanitizeEmbeddedKey("user_", "password", "x");
  }

  lemma UserPasswordText(x: string, y: string)
    requires x == "user_password=x"
    requires y == "user_password=********"
    ensures x == "user_" + "password" + "=" + "x"
    ensures y == "user_" + "password" + "=" + Mask
    ensures forall i :: 0 <= i < |"x"| ==> !IsDelimiter("x"[i])
  {
  }

  /** The key is emitted as written: the case of "ApiKey" survives the mask. */
  lemma SanitizeKeepsKeyCase(x: string, y: string)
    requires x == "ApiKey=k1"
    requires y == "ApiKey=********"
    ensures Sanitize(x) == y
  {
    assert Fold("ApiKey") == "apikey";
    assert x == "ApiKey" + "=" + "k1";
    assert y == "ApiKey" + "=" + Mask;
    SanitizePair("ApiKey", "k1");
  }

  /** A key inside a masked value is dropped with the value: only the first
      key of `password=token=abc` survives. */
  lemma SanitizeDropsKeyInValue(x: string, y: string)
    requires x == "password=token=abc"
    requires y == "password=********"
    ensures Sanitize(x) == y
  {
    LowerKeyAccepted("password");
    assert x == "password" + "=" + "token=abc";
    assert y == "password" + "=" + Mask;
    SanitizePair("password", "token=abc");
  }

  // Solver scaffolding: regrouping of `+`, stated once so that callers need not.
  lemma JoinThree(x: string, sa: string, sb: string, sc: string, ta: string, tb: string, tc: string)
    requires x == sa + ", " + sb + ", " + sc
    requires sa == ta && sb == tb && sc == tc
    ensures x == ta + ", " + tb + ", " + tc
  {
  }
}
