/** The pattern registry of the validation layer: the two injection detectors and the
    anchored shape patterns, written as predicates over the input text.

    Every detector is an unanchored, case-insensitive search, so each one is modelled as
    "the lower-cased input contains one of the alternatives". */
module Patterns {
  import opened Text

  // ---------------------------------------------------------------------------
  // SQL injection detector
  // ---------------------------------------------------------------------------

  /** The SQL detector. The source writes its last four alternatives inside a raw string
      with doubled backslashes, so they stand for the literal texts `\x00`, `\n`, `\r` and
      `\x1a` (a backslash followed by letters and digits), not for control characters. */
  predicate MatchesSqlPattern(s: string) {
    var t := Lower(s);
    || Contains(t, "select") || Contains(t, "insert") || Contains(t, "update")
    || Contains(t, "delete") || Contains(t, "drop") || Contains(t, "create")
    || Contains(t, "alter") || Contains(t, "exec") || Contains(t, "execute")
    || Contains(t, "union") || Contains(t, "--") || Contains(t, ";") || Contains(t, "'")
    || Contains(t, "\\x00") || Contains(t, "\\n") || Contains(t, "\\r") || Contains(t, "\\x1a")
  }

  // ---------------------------------------------------------------------------
  // Script injection detector
  // ---------------------------------------------------------------------------

  /** The script detector; the event-handler alternative `on\w+\s*=` is `HasEventHandler`. */
  predicate MatchesScriptPattern(s: string) {
    var t := Lower(s);
    || Contains(t, "<script") || Contains(t, "javascript:") || HasEventHandler(t)
    || Contains(t, "eval(") || Contains(t, "alert(") || Contains(t, "document.")
    || Contains(t, "window.")
  }

  /** The end of the run of word characters that starts at `p`. */
  function WordRunEnd(s: string, p: nat): (q: nat)
    requires p <= |s|
    ensures p <= q <= |s|
    ensures forall m :: p <= m < q ==> IsWordChar(s[m])
    ensures q == |s| || !IsWordChar(s[q])
    decreases |s| - p
  {
    if p < |s| && IsWordChar(s[p]) then WordRunEnd(s, p + 1) else p
  }

  /** The end of the run of whitespace characters that starts at `p`. */
  function SpaceRunEnd(s: string, p: nat): (q: nat)
    requires p <= |s|
    ensures p <= q <= |s|
    ensures forall m :: p <= m < q ==> IsWhitespace(s[m])
    ensures q == |s| || !IsWhitespace(s[q])
    decreases |s| - p
  {
    if p < |s| && IsWhitespace(s[p]) then SpaceRunEnd(s, p + 1) else p
  }

  /** `on`, then the longest word run (non-empty), then the longest whitespace run, then `=`.
      Because neither whitespace nor `=` is a word character and `=` is not whitespace,
      the longest runs are the only ones that can be followed by `=`. */
  predicate EventHandlerAt(s: string, i: nat) {
    i + 2 <= |s| && s[i..i + 2] == "on" &&
    var j := WordRunEnd(s, i + 2);
    var k := SpaceRunEnd(s, j);
    j > i + 2 && k < |s| && s[k] == '='
  }

  predicate HasEventHandler(s: string) {
    exists i: nat | i + 2 <= |s| :: EventHandlerAt(s, i)
  }

  /** One match of the regex `on\w+\s*=`: `on` at `i`, word characters on `[i+2, j)`,
      whitespace on `[j, k)`, and `=` at `k`. */
  ghost predicate EventHandlerSpan(s: string, i: int, j: int, k: int) {
    && 0 <= i && i + 2 < j <= k < |s|
    && s[i..i + 2] == "on"
    && (forall m :: i + 2 <= m < j ==> IsWordChar(s[m]))
    && (forall m :: j <= m < k ==> IsWhitespace(s[m]))
    && s[k] == '='
  }

  /** The regex's own meaning: some span of the text matches it. */
  ghost predicate EventHandlerRegex(s: string) {
    exists i, j, k :: EventHandlerSpan(s, i, j, k)
  }

  /** The scan with longest runs finds a handler exactly when the regex matches somewhere. */
  lemma EventHandlerScanIsRegex(s: string)
    ensures HasEventHandler(s) <==> EventHandlerRegex(s)
  {
    if HasEventHandler(s) {
      var i: nat :| i + 2 <= |s| && EventHandlerAt(s, i);
      var j := WordRunEnd(s, i + 2);
      var k := SpaceRunEnd(s, j);
      assert EventHandlerSpan(s, i, j, k);
    }
    if EventHandlerRegex(s) {
      var i, j, k :| EventHandlerSpan(s, i, j, k);
      assert !IsWordChar(s[j]) by {
        if j < k { assert IsWhitespace(s[j]); }
      }
      assert WordRunEnd(s, i + 2) == j;
      assert SpaceRunEnd(s, j) == k;
      assert EventHandlerAt(s, i);
    }
  }

  // ---------------------------------------------------------------------------
  // Texts the detectors let through
  // ---------------------------------------------------------------------------

  /** `a` and `b` are the first two characters of a multi-character SQL alternative. */
  predicate StartsSqlAlternative(a: char, b: char) {
    [a, b] in ["se", "in", "up", "de", "dr", "cr", "al", "ex", "un", "--", "\\x", "\\n", "\\r"]
  }

  /** A text without `;` or `'`, in which no two adjacent characters begin a multi-character
      alternative (ignoring case), passes the SQL detector. */
  lemma NoSqlPatternWithoutAlternativeStart(s: string)
    requires ';' !in s && '\'' !in s
    requires forall i :: 0 <= i < |s| - 1 ==> !StartsSqlAlternative(ToLower(s[i]), ToLower(s[i + 1]))
    ensures !MatchesSqlPattern(s)
  {
    var t := Lower(s);
    LowerKeepsAbsentNonLetter(s, ';');
    LowerKeepsAbsentNonLetter(s, '\'');
    NotContainsWithoutChar(t, ";", 0);
    NotContainsWithoutChar(t, "'", 0);
    var alternatives := ["select", "insert", "update", "delete", "drop", "create", "alter", "exec",
      "execute", "union", "--", "\\x00", "\\n", "\\r", "\\x1a"];
    forall k | 0 <= k < |alternatives|
      ensures !Contains(t, alternatives[k])
    {
      NotContainsWithoutPair(t, alternatives[k], 0);
    }
    assert !Contains(t, alternatives[0]) && !Contains(t, alternatives[1]) && !Contains(t, alternatives[2]);
    assert !Contains(t, alternatives[3]) && !Contains(t, alternatives[4]) && !Contains(t, alternatives[5]);
    assert !Contains(t, alternatives[6]) && !Contains(t, alternatives[7]) && !Contains(t, alternatives[8]);
    assert !Contains(t, alternatives[9]) && !Contains(t, alternatives[10]) && !Contains(t, alternatives[11]);
    assert !Contains(t, alternatives[12]) && !Contains(t, alternatives[13]) && !Contains(t, alternatives[14]);
  }

  /** Every match of the event-handler alternative contains `=`. */
  lemma EventHandlerNeedsEquals(s: string)
    requires HasEventHandler(s)
    ensures '=' in s
  {
    var i: nat :| i + 2 <= |s| && EventHandlerAt(s, i);
    var k := SpaceRunEnd(s, WordRunEnd(s, i + 2));
    assert s[k] == '=';
  }

  /** A text without `<`, `:`, `(`, `.` and `=` passes the script detector: every
      alternative needs one of them. */
  lemma NoScriptPatternWithoutPunctuation(s: string)
    requires '<' !in s && ':' !in s && '(' !in s && '.' !in s && '=' !in s
    ensures !MatchesScriptPattern(s)
  {
    var t := Lower(s);
    LowerKeepsAbsentNonLetter(s, '<');
    LowerKeepsAbsentNonLetter(s, ':');
    LowerKeepsAbsentNonLetter(s, '(');
    LowerKeepsAbsentNonLetter(s, '.');
    LowerKeepsAbsentNonLetter(s, '=');
    NotContainsWithoutChar(t, "<script", 0);
    NotContainsWithoutChar(t, "javascript:", 10);
    NotContainsWithoutChar(t, "eval(", 4);
    NotContainsWithoutChar(t, "alert(", 5);
    NotContainsWithoutChar(t, "document.", 8);
    NotContainsWithoutChar(t, "window.", 6);
    if HasEventHandler(t) {
      EventHandlerNeedsEquals(t);
    }
  }

  // ---------------------------------------------------------------------------
  // Anchored shape patterns
  // ---------------------------------------------------------------------------

  predicate IsRepositoryNameChar(c: char) { IsAlphanumeric(c) || c == '-' || c == '_' }

  /** `^[a-zA-Z0-9][a-zA-Z0-9\-_]{0,63}$` */
  predicate MatchesRepositoryNameShape(s: string) {
    && 1 <= |s| <= 64
    && IsAlphanumeric(s[0])
    && forall i :: 1 <= i < |s| ==> IsRepositoryNameChar(s[i])
  }

  predicate IsFieldNameChar(c: char) {
    IsAlphanumeric(c) || c == '_' || c == '-' || IsWhitespace(c)
  }

  /** `^[a-zA-Z][a-zA-Z0-9_\-\s]{0,127}$` */
  predicate MatchesFieldNameShape(s: string) {
    && 1 <= |s| <= 128
    && IsLetter(s[0])
    && forall i :: 1 <= i < |s| ==> IsFieldNameChar(s[i])
  }

  predicate IsDomainChar(c: char) { IsAlphanumeric(c) || c == '-' || c == '.' }

  /** `^[a-zA-Z0-9][a-zA-Z0-9\-\.]{0,251}[a-zA-Z0-9]$` */
  predicate MatchesDomainShape(s: string) {
    && 2 <= |s| <= 253
    && IsAlphanumeric(s[0])
    && IsAlphanumeric(s[|s| - 1])
    && forall i :: 1 <= i < |s| - 1 ==> IsDomainChar(s[i])
  }
}
