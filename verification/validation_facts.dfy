/** Properties of the validation engine that relate several calls, characterise a
    validator by an independent definition, or pin down the behaviour the source's own
    tests expect. */
module ValidationFacts {
  import opened Results
  import opened Text
  import opened Patterns
  import opened Validation

  // ---------------------------------------------------------------------------
  // Server addresses are host names
  // ---------------------------------------------------------------------------

  /** One label of a host name: 1 to 63 letters, digits and hyphens, with no hyphen at
      either end. */
  predicate IsHostLabel(part: string) {
    && 1 <= |part| <= 63
    && part[0] != '-' && part[|part| - 1] != '-'
    && forall i :: 0 <= i < |part| ==> IsAlphanumeric(part[i]) || part[i] == '-'
  }

  /** A host name: host labels joined by dots. */
  ghost predicate IsHostName(s: string) {
    exists labels: seq<string> ::
      && |labels| >= 1
      && (forall i :: 0 <= i < |labels| ==> IsHostLabel(labels[i]))
      && Join(labels, '.') == s
  }

  /** Every accepted address is a host name. */
  lemma AcceptedAddressIsHostName(s: string)
    requires ValidateServerAddress(s).Ok?
    ensures 2 <= |s| <= 253 && IsHostName(s) && !MatchesSqlPattern(s)
  {
    var labels := Split(s, '.');
    JoinSplit(s, '.');
    forall i | 0 <= i < |labels|
      ensures IsHostLabel(labels[i])
    {
      forall m | 0 <= m < |labels[i]|
        ensures IsAlphanumeric(labels[i][m]) || labels[i][m] == '-'
      {
        var c := labels[i][m];
        SplitPartChars(s, '.', i, c);
        var j :| 0 <= j < |s| && s[j] == c;
        assert IsDomainChar(s[j]);
      }
    }
    assert IsHostName(s);
  }

  /** The labels of a host name are its dot-separated parts, and its characters are
      letters, digits, hyphens and dots, with a letter or digit at each end. */
  lemma HostNameShape(s: string, labels: seq<string>)
    requires |labels| >= 1 && (forall i :: 0 <= i < |labels| ==> IsHostLabel(labels[i]))
    requires Join(labels, '.') == s
    ensures Split(s, '.') == labels
    ensures |s| > 0 && IsAlphanumeric(s[0]) && IsAlphanumeric(s[|s| - 1])
    ensures forall j :: 0 <= j < |s| ==> IsDomainChar(s[j])
  {
    SplitJoin(labels, '.');
    JoinEnds(labels, '.');
    forall j | 0 <= j < |s|
      ensures IsDomainChar(s[j])
    {
      var c := s[j];
      JoinChars(labels, '.', c);
      if c != '.' {
        var i :| 0 <= i < |labels| && c in labels[i];
        var m :| 0 <= m < |labels[i]| && labels[i][m] == c;
        assert IsAlphanumeric(labels[i][m]) || labels[i][m] == '-';
      }
    }
    assert IsHostLabel(labels[0]);
    assert IsHostLabel(labels[|labels| - 1]);
  }

  /** Every host name of 2 to 253 characters that the SQL detector lets through is accepted. */
  lemma HostNameIsAccepted(s: string)
    requires 2 <= |s| <= 253 && IsHostName(s) && !MatchesSqlPattern(s)
    ensures ValidateServerAddress(s) == Ok(s)
  {
    var labels :| |labels| >= 1 && (forall i :: 0 <= i < |labels| ==> IsHostLabel(labels[i]))
      && Join(labels, '.') == s;
    HostNameShape(s, labels);
    assert MatchesDomainShape(s);
  }

  /** The validator's four-stage check accepts exactly the host names of 2 to 253
      characters that the SQL detector lets through. */
  lemma ServerAddressIsHostName(s: string)
    ensures ValidateServerAddress(s).Ok? <==> 2 <= |s| <= 253 && IsHostName(s) && !MatchesSqlPattern(s)
  {
    if ValidateServerAddress(s).Ok? {
      AcceptedAddressIsHostName(s);
    }
    if 2 <= |s| <= 253 && IsHostName(s) && !MatchesSqlPattern(s) {
      HostNameIsAccepted(s);
    }
  }

  /** The domain shape needs a first and a last character, so no address of one
      character is accepted, not even a single letter or digit. */
  lemma SingleCharacterAddressRejected(s: string)
    requires |s| == 1
    ensures ValidateServerAddress(s).Err?
  {
  }

  // ---------------------------------------------------------------------------
  // Boundaries of the scalar validators
  // ---------------------------------------------------------------------------

  lemma EntryIdBoundaries()
    ensures ValidateEntryId(1) == Ok(1)
    ensures ValidateEntryId(MAX_ENTRY_ID) == Ok(MAX_ENTRY_ID)
    ensures ValidateEntryId(MAX_ENTRY_ID + 1) == Err(InvalidEntryId(MAX_ENTRY_ID + 1))
    ensures ValidateEntryId(0) == Err(InvalidEntryId(0))
    ensures ValidateEntryId(-1) == Err(InvalidEntryId(-1))
    ensures ValidateEntryId(I64_MAX).Err?
  {
  }

  lemma FileSizeBoundaries()
    ensures ValidateFileSize(MAX_FILE_SIZE) == Ok(MAX_FILE_SIZE)
    ensures ValidateFileSize(MAX_FILE_SIZE + 1) == Err(FileSizeTooLarge(MAX_FILE_SIZE + 1, MAX_FILE_SIZE))
  {
  }

  // ---------------------------------------------------------------------------
  // Repository names
  // ---------------------------------------------------------------------------

  lemma ExampleRepositoryNameNotSql()
    ensures !MatchesSqlPattern("test_repo_123")
  {
    NoSqlPatternWithoutAlternativeStart("test_repo_123");
  }

  lemma RepositoryNameAccepted()
    ensures ValidateRepositoryName("test_repo_123") == Ok("test_repo_123")
  {
    ExampleRepositoryNameNotSql();
  }

  lemma RepositoryNameWithSpaceRejected()
    ensures ValidateRepositoryName("my repo") == Err(InvalidRepositoryName("my repo"))
  {
    NoSqlPatternWithoutAlternativeStart("my repo");
    assert !IsRepositoryNameChar("my repo"[2]);
  }

  lemma TraversalNameNotSql()
    ensures !MatchesSqlPattern("../../../etc/passwd")
  {
    NoSqlPatternWithoutAlternativeStart("../../../etc/passwd");
  }

  lemma RepositoryNameWithPathRejected()
    ensures ValidateRepositoryName("../../../etc/passwd") == Err(InvalidRepositoryName("../../../etc/passwd"))
  {
    TraversalNameNotSql();
  }

  lemma RepositoryNameWithSqlRejected()
    ensures ValidateRepositoryName("repo'; DROP TABLE--") == Err(SqlInjectionAttempt("repo'; DROP TABLE--"))
  {
    assert MatchesAt(Lower("repo'; DROP TABLE--"), 4, "'");
  }

  /** A name of 65 characters is too long, whatever its characters. */
  lemma LongRepositoryNameRejected(name: string)
    requires |name| == 65
    ensures ValidateRepositoryName(name) == Err(InvalidRepositoryName(name))
  {
  }

  // ---------------------------------------------------------------------------
  // Server addresses
  // ---------------------------------------------------------------------------

  lemma ExampleHostLacksKeywords()
    ensures var t := "api.example.com";
      && !Contains(t, "select") && !Contains(t, "insert") && !Contains(t, "update")
      && !Contains(t, "delete") && !Contains(t, "drop") && !Contains(t, "create")
      && !Contains(t, "alter") && !Contains(t, "exec") && !Contains(t, "execute")
      && !Contains(t, "union")
  {
    var t := "api.example.com";
    NotContainsWithoutChar(t, "select", 0);
    NotContainsWithoutChar(t, "insert", 1);
    NotContainsWithoutChar(t, "update", 0);
    NotContainsWithoutChar(t, "delete", 0);
    NotContainsWithoutChar(t, "drop", 0);
    NotContainsWithoutChar(t, "create", 1);
    NotContainsWithoutChar(t, "alter", 4);
    NotContainsWithoutPair(t, "exec", 2);
    NotContainsWithoutPair(t, "execute", 2);
    NotContainsWithoutChar(t, "union", 0);
  }

  /** `api.example.com` contains none of the SQL alternatives: for each, one character or
      one adjacent pair of it is missing from the text. */
  lemma ExampleHostIsNotSql()
    ensures !MatchesSqlPattern("api.example.com")
  {
    var t := "api.example.com";
    LowerOfLowerCase(t);
    NotContainsWithoutChar(t, "'", 0);
    NotContainsWithoutChar(t, ";", 0);
    NotContainsWithoutChar(t, "--", 0);
    NotContainsWithoutChar(t, "\\x00", 0);
    NotContainsWithoutChar(t, "\\n", 0);
    NotContainsWithoutChar(t, "\\r", 0);
    NotContainsWithoutChar(t, "\\x1a", 0);
    ExampleHostLacksKeywords();
  }

  lemma ServerAddressAccepted()
    ensures ValidateServerAddress("api.example.com") == Ok("api.example.com")
  {
    ExampleHostIsNotSql();
    var labels := ["api", "example", "com"];
    assert Join(labels, '.') == "api.example.com";
    assert forall i :: 0 <= i < |labels| ==> IsHostLabel(labels[i]);
    HostNameIsAccepted("api.example.com");
  }

  lemma ServerAddressWithLeadingHyphenRejected()
    ensures ValidateServerAddress("-invalid.com").Err?
  {
  }

  lemma ServerAddressWithSqlRejected()
    ensures ValidateServerAddress("server.com'; DROP TABLE--") == Err(SqlInjectionAttempt("server.com'; DROP TABLE--"))
  {
    assert MatchesAt(Lower("server.com'; DROP TABLE--"), 10, "'");
  }
  // ---------------------------------------------------------------------------
  // Field names
  // ---------------------------------------------------------------------------

  lemma FieldNameAccepted()
    ensures ValidateFieldName("FieldName") == Ok("FieldName")
  {
    FieldNamePassesDetectors();
    assert MatchesFieldNameShape("FieldName");
  }

  lemma FieldNamePassesDetectors()
    ensures !MatchesSqlPattern("FieldName") && !MatchesScriptPattern("FieldName")
  {
    FieldNameNotSql();
    FieldNameNotScript();
  }

  lemma FieldNameNotSql()
    ensures !MatchesSqlPattern("FieldName")
  {
    NoSqlPatternWithoutAlternativeStart("FieldName");
  }

  lemma FieldNameNotScript()
    ensures !MatchesScriptPattern("FieldName")
  {
    NoScriptPatternWithoutPunctuation("FieldName");
  }

  /** The SQL detector runs first, so markup holding a quote is reported as SQL. */
  lemma FieldNameWithMarkupReportedAsSql()
    ensures ValidateFieldName("<script>alert('xss')</script>") == Err(SqlInjectionAttempt("<script>alert('xss')</script>"))
  {
    assert MatchesAt(Lower("<script>alert('xss')</script>"), 14, "'");
  }

  /** The detector searches for keywords anywhere, so ordinary field names that contain
      one are rejected as SQL. */
  lemma FieldNamesContainingKeywordsRejected()
    ensures ValidateFieldName("Created") == Err(SqlInjectionAttempt("Created"))
    ensures ValidateFieldName("LastUpdate") == Err(SqlInjectionAttempt("LastUpdate"))
  {
    assert MatchesAt(Lower("Created"), 0, "create");
    assert MatchesAt(Lower("LastUpdate"), 4, "update");
  }

  // ---------------------------------------------------------------------------
  // Field values
  // ---------------------------------------------------------------------------

  /** An accepted value comes back as the one-pass escape of the input. */
  lemma AcceptedValueIsEscaped(v: string)
    requires |v| <= MAX_FIELD_VALUE_LENGTH && !MatchesScriptPattern(v)
    ensures ValidateFieldValue(v) == Ok(Escape(v))
  {
    SanitizeIsEscape(v);
  }

  /** A quote after plain text is doubled and the plain text is kept. */
  lemma EscapeQuoteAfter(a: string, b: string)
    requires NeedsNoEscaping(a)
    ensures Escape(a + "'" + b) == a + "''" + Escape(b)
  {
    EscapeAppend(a, "'" + b);
    EscapeLeadingChar('\'', b);
    EscapeBounds(a);
    assert a + "'" + b == a + ("'" + b);
  }

  /** The escape of a text is the escape of its first character, then of the rest. */
  lemma EscapeLeadingChar(c: char, b: string)
    ensures Escape([c] + b) == EscapeChar(c) + Escape(b)
  {
    assert ([c] + b)[0] == c && ([c] + b)[1..] == b;
  }

  /** Plain text around two quotes: both quotes are doubled and nothing else changes. */
  lemma TwoQuotesDoubled(a: string, b: string, c: string)
    requires NeedsNoEscaping(a) && NeedsNoEscaping(b) && NeedsNoEscaping(c)
    requires |a| + |b| + |c| + 2 <= MAX_FIELD_VALUE_LENGTH && !MatchesScriptPattern(a + "'" + b + "'" + c)
    ensures ValidateFieldValue(a + "'" + b + "'" + c) == Ok(a + "''" + b + "''" + c)
  {
    var v := a + "'" + b + "'" + c;
    assert v == a + "'" + (b + "'" + c);
    AcceptedValueIsEscaped(v);
    EscapeQuoteAfter(a, b + "'" + c);
    EscapeQuoteAfter(b, c);
    EscapeBounds(c);
    assert Escape(v) == a + "''" + (b + "''" + c);
    assert a + "''" + (b + "''" + c) == a + "''" + b + "''" + c;
  }

  lemma FieldValueQuotesDoubled()
    ensures ValidateFieldValue("O'Brien's value") == Ok("O''Brien''s value")
  {
    QuotedValueNotScript();
    QuotedValueParts();
    TwoQuotesDoubled("O", "Brien", "s value");
  }

  lemma QuotedValueNotScript()
    ensures !MatchesScriptPattern("O'Brien's value")
  {
    NoScriptPatternWithoutPunctuation("O'Brien's value");
  }

  lemma QuotedValueParts()
    ensures "O'Brien's value" == "O" + "'" + "Brien" + "'" + "s value"
    ensures "O''Brien''s value" == "O" + "''" + "Brien" + "''" + "s value"
  {
  }

  /** A value with nothing to escape is accepted unchanged. */
  lemma PlainValueUnchanged(v: string)
    requires |v| <= MAX_FIELD_VALUE_LENGTH && !MatchesScriptPattern(v) && NeedsNoEscaping(v)
    ensures ValidateFieldValue(v) == Ok(v)
  {
  }

  lemma FieldValueUnchanged()
    ensures ValidateFieldValue("Normal text value") == Ok("Normal text value")
  {
    PlainTextNotScript();
    PlainValueUnchanged("Normal text value");
  }

  lemma PlainTextNotScript()
    ensures !MatchesScriptPattern("Normal text value")
  {
    NoScriptPatternWithoutPunctuation("Normal text value");
  }

  lemma FieldValueWithScriptRejected()
    ensures ValidateFieldValue("<script>alert('xss')</script>") == Err(ScriptInjectionAttempt("<script>alert('xss')</script>"))
    ensures ValidateFieldValue("javascript:void(0)") == Err(ScriptInjectionAttempt("javascript:void(0)"))
  {
    assert MatchesAt(Lower("<script>alert('xss')</script>"), 0, "<script");
    assert MatchesAt(Lower("javascript:void(0)"), 0, "javascript:");
  }

  lemma LongFieldValueRejected(value: string)
    requires |value| == MAX_FIELD_VALUE_LENGTH + 1
    ensures ValidateFieldValue(value) == Err(InvalidFieldValue(10240))
  {
  }

  /** Sanitising is not idempotent: a value that passed once is escaped again when it is
      validated a second time. */
  lemma SanitizeTwiceDoublesAgain()
    ensures ValidateFieldValue("'") == Ok("''")
    ensures ValidateFieldValue("''") == Ok("''''")
  {
    NoScriptPatternWithoutPunctuation("'");
    NoScriptPatternWithoutPunctuation("''");
    AcceptedValueIsEscaped("'");
    AcceptedValueIsEscaped("''");
    assert Escape("'") == "''";
    assert Escape("''") == "''''";
  }

  /** A NUL between two plain texts is dropped and the texts are joined. */
  lemma EscapeDropsNul(a: string, b: string)
    requires NeedsNoEscaping(a) && NeedsNoEscaping(b)
    ensures Escape(a + "\0" + b) == a + b
  {
    var tail := "\0" + b;
    assert a + "\0" + b == a + tail;
    EscapeAppend(a, tail);
    EscapeLeadingChar('\0', b);
    assert Escape(tail) == Escape(b);
    EscapeBounds(a);
    EscapeBounds(b);
  }

  /** The script detector runs before NUL characters are removed, so a value with a NUL
      inside a script tag passes and comes out holding the tag; validating that output
      again rejects it. */
  lemma NulRemovalReassemblesScriptTag()
    ensures ValidateFieldValue("<scr\0ipt>") == Ok("<script>")
    ensures ValidateFieldValue("<script>") == Err(ScriptInjectionAttempt("<script>"))
  {
    NulSplitScriptTagPasses();
    AcceptedValueIsEscaped("<scr\0ipt>");
    NulSplitScriptTagEscape();
    ScriptTagRejected();
  }

  lemma NulSplitScriptTagEscape()
    ensures Escape("<scr\0ipt>") == "<script>"
  {
    assert "<scr\0ipt>" == "<scr" + "\0" + "ipt>";
    assert "<script>" == "<scr" + "ipt>";
    EscapeDropsNul("<scr", "ipt>");
  }

  lemma ScriptTagRejected()
    ensures ValidateFieldValue("<script>") == Err(ScriptInjectionAttempt("<script>"))
  {
    assert MatchesAt(Lower("<script>"), 0, "<script");
  }

  lemma NulSplitScriptTagPasses()
    ensures !MatchesScriptPattern("<scr\0ipt>")
  {
    var t := "<scr\0ipt>";
    LowerOfLowerCase(t);
    NotContainsWithoutPair(t, "<script", 3);
    NotContainsWithoutChar(t, "javascript:", 10);
    NotContainsWithoutChar(t, "eval(", 4);
    NotContainsWithoutChar(t, "alert(", 5);
    NotContainsWithoutChar(t, "document.", 8);
    NotContainsWithoutChar(t, "window.", 6);
    if HasEventHandler(t) {
      EventHandlerNeedsEquals(t);
    }
  }

  // ---------------------------------------------------------------------------
  // File names
  // ---------------------------------------------------------------------------

  /** The Windows rules only add restrictions. */
  lemma WindowsFileNameRulesAreStricter(name: string)
    requires ValidateFileName(name, Windows).Ok?
    ensures ValidateFileName(name, Unix) == Ok(name)
  {
  }

  lemma ReservedFileNamesRejectedOnWindows()
    ensures ValidateFileName("CON", Windows) == Err(InvalidFileName("CON"))
    ensures ValidateFileName("PRN.txt", Windows) == Err(InvalidFileName("PRN.txt"))
    ensures ValidateFileName("con", Windows) == Err(InvalidFileName("con"))
  {
    assert Upper("CON") == RESERVED_NAMES[0];
    assert Upper("con") == RESERVED_NAMES[0];
    assert StartsWith(Upper("PRN.txt"), RESERVED_NAMES[1] + ".");
  }

  lemma ColonInFileNameDependsOnPlatform()
    ensures ValidateFileName("file:name.txt", Windows) == Err(InvalidFileName("file:name.txt"))
    ensures ValidateFileName("file:name.txt", Unix) == Ok("file:name.txt")
  {
    assert "file:name.txt"[4] == WINDOWS_INVALID_CHARS[2];
    NotContainsWithoutPair("file:name.txt", "..", 0);
  }

  lemma FileNameWithTraversalRejected()
    ensures ValidateFileName("../../../etc/passwd", Unix) == Err(InvalidFileName("../../../etc/passwd"))
  {
    assert MatchesAt("../../../etc/passwd", 0, "..");
  }
}
