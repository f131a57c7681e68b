/** Properties of the request builders: the URLs can be read back segment by segment,
    authentication builds nothing from unvalidated input, and MIME detection ignores
    letter case. */
module LaserficheFacts {
  import opened Results
  import opened Text
  import opened Patterns
  import opened Validation
  import opened Laserfiche

  // ---------------------------------------------------------------------------
  // URLs read back
  // ---------------------------------------------------------------------------

  lemma JoinSeven(a: string, b: string, c: string, d: string, e: string, f: string, g: string, sep: char)
    ensures Join([a, b, c, d, e, f, g], sep)
      == (a + [sep] + b + [sep]) + c + ([sep] + d + [sep] + e + [sep] + f + [sep]) + g
  {
    JoinCons(f, [g], sep);
    assert [f] + [g] == [f, g];
    JoinCons(e, [f, g], sep);
    assert [e] + [f, g] == [e, f, g];
    JoinCons(d, [e, f, g], sep);
    assert [d] + [e, f, g] == [d, e, f, g];
    JoinCons(c, [d, e, f, g], sep);
    assert [c] + [d, e, f, g] == [c, d, e, f, g];
    JoinCons(b, [c, d, e, f, g], sep);
    assert [b] + [c, d, e, f, g] == [b, c, d, e, f, g];
    JoinCons(a, [b, c, d, e, f, g], sep);
    assert [a] + [b, c, d, e, f, g] == [a, b, c, d, e, f, g];
    assert a + [sep] + b + [sep] + c + [sep] + d + [sep] + e + [sep] + f + [sep] + g
      == (a + [sep] + b + [sep]) + c + ([sep] + d + [sep] + e + [sep] + f + [sep]) + g;
  }

  lemma SchemeIsJoin()
    ensures "https:" + ['/'] + "" + ['/'] == "https://"
  {
  }

  lemma ApiPathIsJoin()
    ensures ['/'] + "LFRepositoryAPI" + ['/'] + "v1" + ['/'] + "Repositories" + ['/'] == "/LFRepositoryAPI/v1/Repositories/"
  {
  }

  lemma BaseUrlIsJoin(server: ApiServer)
    ensures BuildBaseUrl(server) == Join(BaseSegments(server), '/')
  {
    var address, repository := server.address, server.repository;
    JoinSeven("https:", "", address, "LFRepositoryAPI", "v1", "Repositories", repository, '/');
    SchemeIsJoin();
    ApiPathIsJoin();
    var scheme := "https:" + ['/'] + "" + ['/'];
    var path := ['/'] + "LFRepositoryAPI" + ['/'] + "v1" + ['/'] + "Repositories" + ['/'];
    assert Join(BaseSegments(server), '/') == scheme + address + path + repository;
  }

  /** When neither the address nor the repository holds a `/`, the repository root splits
      back into the scheme, the address, the fixed API path and the repository. */
  lemma BaseUrlSegments(server: ApiServer)
    requires '/' !in server.address && '/' !in server.repository
    ensures Split(BuildBaseUrl(server), '/') == BaseSegments(server)
  {
    BaseUrlIsJoin(server);
    SplitJoin(BaseSegments(server), '/');
  }

  /** An entry URL names the entry it was built for: its last segment is the decimal
      rendering of the id, and the segments before it are the repository root's and
      `Entries`. */
  lemma EntriesUrlNamesEntry(server: ApiServer, id: i64)
    requires '/' !in server.address && '/' !in server.repository
    requires BuildEntriesUrl(server, id).Ok?
    ensures var parts := Split(BuildEntriesUrl(server, id).value, '/');
      && |parts| == 9
      && parts[..7] == BaseSegments(server)
      && parts[7] == "Entries"
      && ParseInt(parts[8]) == Some(id as int)
  {
    var digits := IntToDecimal(id);
    var segments := BaseSegments(server) + ["Entries"] + [digits];
    BaseUrlIsJoin(server);
    JoinAppend(BaseSegments(server), "Entries", '/');
    JoinAppend(BaseSegments(server) + ["Entries"], digits, '/');
    assert BuildEntriesUrl(server, id).value == Join(segments, '/');
    assert '/' !in digits by {
      assert forall i :: 0 <= i < |digits| ==> IsDigit(digits[i]);
    }
    SplitJoin(segments, '/');
    IntToDecimalRoundTrip(id);
    assert segments[..7] == BaseSegments(server);
  }

  /** A validated address and repository hold no `/`. */
  lemma ValidatedServerHasNoSlash(server: ApiServer)
    requires ValidateServerAddress(server.address).Ok? && ValidateRepositoryName(server.repository).Ok?
    ensures '/' !in server.address && '/' !in server.repository
  {
    assert !IsDomainChar('/');
  }

  /** Authentication validates before it builds: every token request it forms points at
      exactly the validated address and repository, and splits back into them. */
  lemma TokenUrlNamesServer(server: ApiServer, username: string, password: string)
    requires Authenticate(server, username, password).Ok?
    ensures var request := Authenticate(server, username, password).value;
      Split(request.url, '/') == BaseSegments(server) + ["Token"]
  {
    var url := Authenticate(server, username, password).value.url;
    var segments := BaseSegments(server) + ["Token"];
    ValidatedServerHasNoSlash(server);
    BaseUrlIsJoin(server);
    JoinAppend(BaseSegments(server), "Token", '/');
    assert "/Token" == ['/'] + "Token";
    assert url == BuildBaseUrl(server) + "/Token";
    assert url == Join(segments, '/');
    assert forall i :: 0 <= i < |segments| ==> '/' !in segments[i];
    SplitJoin(segments, '/');
  }

  /** No request is formed for an invalid address, whatever the repository is; and an
      invalid repository is reported only behind a valid address. */
  lemma InvalidAddressReportedFirst(server: ApiServer, username: string, password: string)
    requires ValidateServerAddress(server.address).Err?
    requires ValidateRepositoryName(server.repository).Err?
    ensures Authenticate(server, username, password) == Err(ValidateServerAddress(server.address).error)
  {
  }

  // ---------------------------------------------------------------------------
  // Search query
  // ---------------------------------------------------------------------------

  /** Appending a parameter to a URL that ends in a join of parameters extends the join. */
  lemma AppendParameterExtendsJoin(prefix: string, parameters: seq<string>, name: string, value: string)
    requires |parameters| >= 1
    ensures AppendParameter(prefix + Join(parameters, '&'), name, value)
      == prefix + Join(parameters + [Parameter(name, value)], '&')
  {
    JoinAppend(parameters, Parameter(name, value), '&');
    Regroup(prefix, Join(parameters, '&'), Parameter(name, value));
  }

  lemma Regroup(prefix: string, joined: string, parameter: string)
    ensures prefix + joined + "&" + parameter == prefix + (joined + ['&'] + parameter)
  {
    assert "&" == ['&'];
  }

  /** An optional parameter, when present, extends the join by one part. */
  lemma OptionalParameter(prefix: string, parameters: seq<string>, url: string, present: bool, name: string, value: string)
    requires |parameters| >= 1 && url == prefix + Join(parameters, '&')
    ensures (if present then AppendParameter(url, name, value) else url)
      == prefix + Join(parameters + (if present then [Parameter(name, value)] else []), '&')
  {
    if present {
      AppendParameterExtendsJoin(prefix, parameters, name, value);
    } else {
      assert parameters + [] == parameters;
    }
  }

  /** The search URL is the search endpoint, `?`, and the parameters joined by `&`. */
  lemma SearchUrlLayout(server: ApiServer, query: string, orderBy: Option<string>, select: Option<string>,
                        skip: Option<i32>, top: Option<i32>, encode: string -> string)
    ensures BuildSearchUrl(server, query, orderBy, select, skip, top, encode)
      == BuildBaseUrl(server) + "/Entries/Search?" + Join(SearchParameters(query, orderBy, select, skip, top, encode), '&')
  {
    var prefix := BuildBaseUrl(server) + "/Entries/Search?";
    var p0 := [Parameter("q", encode(query))];
    var p1 := p0 + (if orderBy.Some? then [Parameter("$orderby", encode(orderBy.value))] else []);
    var p2 := p1 + (if select.Some? then [Parameter("$select", encode(select.value))] else []);
    var p3 := p2 + (if skip.Some? then [Parameter("$skip", IntToDecimal(skip.value))] else []);
    var p4 := p3 + (if top.Some? then [Parameter("$top", IntToDecimal(top.value))] else []);
    assert p4 == SearchParameters(query, orderBy, select, skip, top, encode);
    var u0 := prefix + Parameter("q", encode(query));
    assert u0 == prefix + Join(p0, '&');
    OptionalParameter(prefix, p0, u0, orderBy.Some?, "$orderby", if orderBy.Some? then encode(orderBy.value) else "");
    var u1 := if orderBy.Some? then AppendParameter(u0, "$orderby", encode(orderBy.value)) else u0;
    OptionalParameter(prefix, p1, u1, select.Some?, "$select", if select.Some? then encode(select.value) else "");
    var u2 := if select.Some? then AppendParameter(u1, "$select", encode(select.value)) else u1;
    OptionalParameter(prefix, p2, u2, skip.Some?, "$skip", if skip.Some? then IntToDecimal(skip.value) else "");
    var u3 := if skip.Some? then AppendParameter(u2, "$skip", IntToDecimal(skip.value)) else u2;
    OptionalParameter(prefix, p3, u3, top.Some?, "$top", if top.Some? then IntToDecimal(top.value) else "");
  }

  /** A decimal rendering holds no `&`. */
  lemma DecimalHasNoAmpersand(n: int)
    ensures '&' !in IntToDecimal(n)
  {
    var digits := NatToDecimal(if n < 0 then -n else n);
    assert forall i :: 0 <= i < |digits| ==> IsDigit(digits[i]);
  }

  /** With an encoder that never emits `&`, splitting the query string on `&` gives back
      exactly the parameters that were supplied, in order. */
  lemma SearchParametersReadBack(query: string, orderBy: Option<string>, select: Option<string>,
                                 skip: Option<i32>, top: Option<i32>, encode: string -> string)
    requires forall s :: '&' !in encode(s)
    ensures var parameters := SearchParameters(query, orderBy, select, skip, top, encode);
      Split(Join(parameters, '&'), '&') == parameters
  {
    var parameters := SearchParameters(query, orderBy, select, skip, top, encode);
    if skip.Some? { DecimalHasNoAmpersand(skip.value); }
    if top.Some? { DecimalHasNoAmpersand(top.value); }
    SplitJoin(parameters, '&');
  }

  /** The paging numbers are written so that they read back unchanged, negative values
      included. */
  lemma SearchPagingReadBack(query: string, skip: i32, top: i32, encode: string -> string)
    ensures var parameters := SearchParameters(query, None, None, Some(skip), Some(top), encode);
      && |parameters| == 3
      && parameters[1] == Parameter("$skip", IntToDecimal(skip))
      && parameters[2] == Parameter("$top", IntToDecimal(top))
      && ParseInt(IntToDecimal(skip)) == Some(skip as int)
      && ParseInt(IntToDecimal(top)) == Some(top as int)
  {
    IntToDecimalRoundTrip(skip);
    IntToDecimalRoundTrip(top);
  }

  // ---------------------------------------------------------------------------
  // MIME types
  // ---------------------------------------------------------------------------

  /** The uploader's extension table as data: extension, then MIME type. */
  const MIME_TYPES: seq<(string, string)> := [
    ("pdf", "application/pdf"),
    ("png", "image/png"),
    ("jpg", "image/jpeg"),
    ("jpeg", "image/jpeg"),
    ("gif", "image/gif"),
    ("tiff", "image/tiff"),
    ("tif", "image/tiff"),
    ("doc", "application/msword"),
    ("docx", "application/vnd.openxmlformats-officedocument.wordprocessingml.document"),
    ("xls", "application/vnd.ms-excel"),
    ("xlsx", "application/vnd.openxmlformats-officedocument.spreadsheetml.sheet"),
    ("ppt", "application/vnd.ms-powerpoint"),
    ("pptx", "application/vnd.openxmlformats-officedocument.presentationml.presentation"),
    ("txt", "text/plain"),
    ("csv", "text/csv"),
    ("xml", "application/xml"),
    ("json", "application/json")]

  const OCTET_STREAM: string := "application/octet-stream"

  /** Every listed extension maps to its listed type. */
  lemma MimeTableEntry(k: nat)
    requires k < |MIME_TYPES|
    ensures MimeForExtension(MIME_TYPES[k].0) == MIME_TYPES[k].1
    ensures MIME_TYPES[k].1 != OCTET_STREAM
  {
    if k < 6 { MimeImageEntries(k); }
    else if k < 12 { MimeOfficeEntries(k); }
    else { MimeTextEntries(k); }
  }

  lemma MimeImageEntries(k: nat)
    requires 0 <= k < 6
    ensures MimeForExtension(MIME_TYPES[k].0) == MIME_TYPES[k].1
  {
  }

  lemma MimeOfficeEntries(k: nat)
    requires 6 <= k < 12
    ensures MimeForExtension(MIME_TYPES[k].0) == MIME_TYPES[k].1
  {
  }

  lemma MimeTextEntries(k: nat)
    requires 12 <= k < 17
    ensures MimeForExtension(MIME_TYPES[k].0) == MIME_TYPES[k].1
  {
  }

  lemma MimeUnlisted(ext: string)
    requires forall k :: 0 <= k < |MIME_TYPES| ==> ext != MIME_TYPES[k].0
    ensures MimeForExtension(ext) == OCTET_STREAM
  {
    assert ext != MIME_TYPES[0].0 && ext != MIME_TYPES[1].0 && ext != MIME_TYPES[2].0 && ext != MIME_TYPES[3].0 && ext != MIME_TYPES[4].0 && ext != MIME_TYPES[5].0 && ext != MIME_TYPES[6].0 && ext != MIME_TYPES[7].0 && ext != MIME_TYPES[8].0 && ext != MIME_TYPES[9].0 && ext != MIME_TYPES[10].0 && ext != MIME_TYPES[11].0 && ext != MIME_TYPES[12].0 && ext != MIME_TYPES[13].0 && ext != MIME_TYPES[14].0 && ext != MIME_TYPES[15].0 && ext != MIME_TYPES[16].0;
  }

  /** Any extension not in the table is a byte stream, and only those. */
  lemma MimeFallback(ext: string)
    ensures MimeForExtension(ext) == OCTET_STREAM <==> forall k :: 0 <= k < |MIME_TYPES| ==> ext != MIME_TYPES[k].0
  {
    if forall k :: 0 <= k < |MIME_TYPES| ==> ext != MIME_TYPES[k].0 {
      MimeUnlisted(ext);
    } else {
      var k :| 0 <= k < |MIME_TYPES| && ext == MIME_TYPES[k].0;
      MimeTableEntry(k);
    }
  }

  /** `Extension` is pinned down by its contract: the dot-free suffix that is either
      the whole name or preceded by a dot. */
  lemma ExtensionUnique(name: string, ext: string)
    requires '.' !in ext
    requires |ext| <= |name| && ext == name[|name| - |ext|..]
    requires |ext| < |name| ==> name[|name| - |ext| - 1] == '.'
    ensures Extension(name) == ext
  {
  }

  /** The extension is what follows the last dot. */
  lemma ExtensionAfterLastDot(stem: string, ext: string)
    requires '.' !in ext
    ensures Extension(stem + "." + ext) == ext
  {
    var name := stem + "." + ext;
    assert name[|name| - |ext|..] == ext;
    assert name[|name| - |ext| - 1] == '.';
    ExtensionUnique(name, ext);
  }

  /** A name without a dot is its own extension. */
  lemma ExtensionOfDotlessName(name: string)
    requires '.' !in name
    ensures Extension(name) == name
  {
    ExtensionUnique(name, name);
  }

  /** Lower-casing commutes with taking the extension, since the dot is no letter. */
  lemma {:induction false} ExtensionLower(name: string)
    ensures Extension(Lower(name)) == Lower(Extension(name))
    decreases |name|
  {
    if |name| > 0 {
      var init, last := name[..|name| - 1], name[|name| - 1];
      assert name == init + [last];
      LowerSnoc(init, last);
      ExtensionSnoc(init, last);
      ExtensionSnoc(Lower(init), ToLower(last));
      if last != '.' {
        ExtensionLower(init);
        LowerSnoc(Extension(init), last);
      }
    }
  }

  lemma LowerSnoc(init: string, last: char)
    ensures Lower(init + [last]) == Lower(init) + [ToLower(last)]
  {
  }

  /** One more character either extends the extension or, for a dot, empties it. */
  lemma ExtensionSnoc(init: string, last: char)
    ensures Extension(init + [last]) == if last == '.' then "" else Extension(init) + [last]
  {
    var name := init + [last];
    if last == '.' {
      ExtensionUnique(name, "");
    } else {
      var ext := Extension(init);
      assert name[|name| - |ext| - 1..] == ext + [last];
      if |ext| < |init| {
        assert name[|name| - |ext| - 2] == init[|init| - |ext| - 1];
      }
      ExtensionUnique(name, ext + [last]);
    }
  }

  lemma LowerIdempotent(s: string)
    ensures Lower(Lower(s)) == Lower(s)
  {
  }

  /** Detection ignores letter case: names that agree once lower-cased get the same
      type. */
  lemma DetectMimeTypeIgnoresCase(a: string, b: string)
    requires Lower(a) == Lower(b)
    ensures DetectMimeType(a) == DetectMimeType(b)
  {
    ExtensionLower(a);
    ExtensionLower(b);
    LowerIdempotent(Extension(a));
    LowerIdempotent(Extension(b));
  }

  /** Any stem followed by a listed extension gets that extension's type. */
  lemma DetectListedExtension(stem: string, k: nat)
    requires k < |MIME_TYPES|
    ensures DetectMimeType(stem + "." + MIME_TYPES[k].0) == MIME_TYPES[k].1
  {
    MimeKeyShape(k);
    ExtensionAfterLastDot(stem, MIME_TYPES[k].0);
    LowerOfLowerCase(MIME_TYPES[k].0);
    MimeTableEntry(k);
  }

  /** Every listed extension is lower-case and dot-free. */
  lemma MimeKeyShape(k: nat)
    requires k < |MIME_TYPES|
    ensures '.' !in MIME_TYPES[k].0
    ensures forall i :: 0 <= i < |MIME_TYPES[k].0| ==> !IsUpper(MIME_TYPES[k].0[i])
  {
  }

  /** Any stem followed by an unlisted extension, or a name without any dot that is not
      itself a listed extension, is a byte stream. */
  lemma DetectUnlistedExtension(name: string)
    requires forall k :: 0 <= k < |MIME_TYPES| ==> Lower(Extension(name)) != MIME_TYPES[k].0
    ensures DetectMimeType(name) == OCTET_STREAM
  {
    MimeUnlisted(Lower(Extension(name)));
  }

  /** A name without a dot is looked up whole. */
  lemma DetectDotlessName(name: string)
    requires '.' !in name
    requires forall k :: 0 <= k < |MIME_TYPES| ==> Lower(name) != MIME_TYPES[k].0
    ensures DetectMimeType(name) == OCTET_STREAM
  {
    ExtensionOfDotlessName(name);
    DetectUnlistedExtension(name);
  }

  /** A name without a dot that is, in some case, a listed extension gets that
      extension's type: a file named `pdf` is a PDF. */
  lemma DotlessListedNameDetected(name: string, k: nat)
    requires k < |MIME_TYPES|
    requires '.' !in name && Lower(name) == MIME_TYPES[k].0
    ensures DetectMimeType(name) == MIME_TYPES[k].1
  {
    ExtensionOfDotlessName(name);
    MimeTableEntry(k);
  }

  lemma PdfFileNameIsPdf()
    ensures DetectMimeType("pdf") == "application/pdf"
  {
    MimeKeyShape(0);
    LowerOfLowerCase(MIME_TYPES[0].0);
    DotlessListedNameDetected(MIME_TYPES[0].0, 0);
  }

  // The uploader's own expectations, one name at a time.

  lemma PdfNameDetected()
    ensures DetectMimeType("test.pdf") == "application/pdf"
  {
    DetectListedExtension("test", 0);
    assert "test" + "." + MIME_TYPES[0].0 == "test.pdf";
  }

  lemma UpperCasePdfNameDetected()
    ensures DetectMimeType("TEST.PDF") == "application/pdf"
  {
    PdfNameDetected();
    assert Lower("TEST.PDF") == "test.pdf";
    DetectMimeTypeIgnoresCase("TEST.PDF", "test.pdf");
  }

  lemma MixedCasePdfNameDetected()
    ensures DetectMimeType("Test.Pdf") == "application/pdf"
  {
    PdfNameDetected();
    assert Lower("Test.Pdf") == "test.pdf";
    DetectMimeTypeIgnoresCase("Test.Pdf", "test.pdf");
  }

  lemma UpperCaseExtensionDetected()
    ensures DetectMimeType("test.PDF") == "application/pdf"
  {
    PdfNameDetected();
    assert Lower("test.PDF") == "test.pdf";
    DetectMimeTypeIgnoresCase("test.PDF", "test.pdf");
  }

  lemma UnknownExtensionIsByteStream()
    ensures DetectMimeType("test.unknown") == OCTET_STREAM
  {
    ExtensionAfterLastDot("test", "unknown");
    assert "test" + "." + "unknown" == "test.unknown";
    LowerOfLowerCase("unknown");
    DetectUnlistedExtension("test.unknown");
  }

  lemma NameWithoutExtensionIsByteStream()
    ensures DetectMimeType("test") == OCTET_STREAM
  {
    LowerOfLowerCase("test");
    DetectDotlessName("test");
  }
}
