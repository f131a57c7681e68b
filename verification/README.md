# Input validation for the Laserfiche repository client

This project models, in Dafny, the input-validation engine of the `laserfiche-rs`
client for the Laserfiche Repository API, and proves properties of it. The engine
screens everything that reaches a request URL, a form body or a metadata payload:

- entry ids, file sizes, repository names, server addresses, field names and field
  values, file names, file paths, API URLs and JSON metadata (`src/validation.rs`);
- the configuration loaded from the environment, with its placeholder screen
  (`src/config.rs`);
- the URL builders for the token, entries and search endpoints, the MIME-type
  detection for uploads, and the check-then-build order of `authenticate`
  (`src/laserfiche.rs`).

Layout:

| file | module | contents |
|---|---|---|
| `results.dfy` | `Results` | `Option`, `Result` (with `:-` support) and the pass/fail `Outcome` |
| `text.dfy` | `Text` | character classes, ASCII case mapping, substring search, trimming, replace, split/join, decimal rendering and parsing |
| `patterns.dfy` | `Patterns` | the four regular expressions of the validator as executable predicates |
| `validation.dfy` | `Validation` | every `validate_*` function, with its error kinds and limits |
| `validation_facts.dfy` | `ValidationFacts` | host-name characterisation, escaping facts, the repository's own test cases |
| `metadata.dfy` | `Metadata` | the JSON value and `validate_metadata_json` |
| `metadata_facts.dfy` | `MetadataFacts` | what an accepted metadata object looks like, and which error is reported |
| `config.dfy` | `Config` | `validate_not_placeholder` and `from_env` |
| `config_facts.dfy` | `ConfigFacts` | the order of errors, the effect of case and padding, the configuration tests |
| `laserfiche.dfy` | `Laserfiche` | URL builders, `authenticate` up to the HTTP call, MIME detection |
| `laserfiche_facts.dfy` | `LaserficheFacts` | URL read-back (segments and parameters), the MIME table, case-insensitive detection |

Modelling choices:

- Strings are `seq<char>`. Character classes are ASCII. A length bound in the source
  (`len()` counts UTF-8 bytes) is the number of characters, which agrees for ASCII input.
- The regexes are predicates. The SQL pattern is a case-insensitive search for its
  alternatives; the script pattern does the same, and its `on\w+\s*=` alternative is
  an explicit scan. `Patterns.EventHandlerScanIsRegex` proves that scan equal to the
  regex's meaning. The anchored shape regexes become character-class predicates.
- `i64`, `u64` and `i32` are subset types of `int` holding exactly their ranges.
  `validate_entry_id`'s bound `i64::MAX / 2` is computed on non-negatives, so Rust's
  truncating division and Dafny's agree.
- Several things the source reaches outside for become parameters:
  - `cfg!(windows)` is a `Platform` argument;
  - the file system seen by `validate_file_path` (`canonicalize`, `parent`, `exists`) is a `FileSystem` value;
  - `Url::parse` is a function argument returning the scheme and host;
  - `urlencoding::encode` is a function argument;
  - the process environment is a `map<string, string>`.
- `authenticate` is modelled up to the request it would send, as a `TokenRequest`
  holding the server, the token URL and the form. The HTTP exchange is not modelled.
- A JSON object is a sequence of members in the map's iteration order.

Where the code's behaviour differs from its stated design, the model follows the code:

- The SQL pattern is a raw string, so its `\\x00`, `\\n`, `\\r` and `\\x1a` alternatives match the
  literal four- or two-character texts (backslash, letter, digits), not the control characters.
  `Patterns.MatchesSqlPattern` searches for those texts.
- The field-value sanitiser is not idempotent: a second pass doubles quotes again
  (`ValidationFacts.SanitizeTwiceDoublesAgain`).
- The script check runs before NUL is stripped, so a NUL inside `<script` lets the tag
  through and the output contains it (`ValidationFacts.NulRemovalReassemblesScriptTag`).
- The SQL keywords are found anywhere, case-insensitively, so ordinary field names such as
  `Created` or `LastUpdate` are refused (`ValidationFacts.FieldNamesContainingKeywordsRejected`).
- A one-character server address is always refused, because the domain regex needs a first
  and a last character (`ValidationFacts.SingleCharacterAddressRejected`).
- A file name without a dot is looked up as its own extension, so a file named `pdf` is
  `application/pdf` (`LaserficheFacts.DotlessListedNameDetected`, `LaserficheFacts.PdfFileNameIsPdf`).

## Model

| member | source | states |
|---|---|---|
| Validation.ValidateEntryId | src/validation.rs:87-97 | accepts exactly the ids in 1..i64::MAX/2 and returns them unchanged; an accepted id can be doubled without overflowing i64; any other id yields InvalidEntryId carrying the id |
| Validation.ValidateFileSize | src/validation.rs:347-353 | accepts exactly the sizes up to 100 MiB (104857600 bytes); a larger size yields FileSizeTooLarge(size, limit) |
| Validation.ValidateRepositoryName | src/validation.rs:152-175 | Ok exactly for 1..64 characters that contain no SQL pattern and match the name shape (alphanumeric first, then letters, digits, `-`, `_`); a SQL error exactly when the length is in range and the SQL pattern matches, so the SQL check runs before the shape check; every other rejection is InvalidRepositoryName |
| Validation.ValidateServerAddress | src/validation.rs:206-240 | Ok exactly for 2..253 characters with no SQL pattern, the domain shape, and every dot-separated label 1..63 characters long without a leading or trailing hyphen; a SQL error exactly when the length is in range and the SQL pattern matches; every other rejection is InvalidUrl |
| Validation.ValidateLabels | src/validation.rs:229-237 | the label loop accepts iff every label is non-empty, at most 63 characters, and neither starts nor ends with `-` |
| Validation.ValidateFieldName | src/validation.rs:242-269 | Ok exactly for 1..128 characters matching neither pattern and having the field-name shape (a letter, then letters, digits, `_`, `-`, whitespace); the SQL error wins over the script error; a script error exactly when in range, not SQL, and the script pattern matches |
| Validation.ValidateFieldValue | src/validation.rs:271-293 | Ok exactly when the value has at most 10240 characters and no script pattern; too long gives InvalidFieldValue(10240), and script gives ScriptInjectionAttempt. The output has no NUL or SUB and is at most twice as long. Un-doubling quotes and backslashes recovers the input minus NUL and SUB. A value without `'`, `\`, NUL or SUB comes back unchanged |
| Validation.SanitizeIsEscape | src/validation.rs:283-288 | the chain of four `replace` passes equals the one-pass character escape (double `'`, double `\`, drop NUL, drop SUB) |
| Validation.EscapeBounds | src/validation.rs:283-288 | escaping at most doubles the length, removes every NUL and SUB, and leaves text needing no escape unchanged |
| Validation.EscapeAppend | src/validation.rs:283-288 | escaping distributes over concatenation |
| Validation.UnescapeEscape | src/validation.rs:283-288 | the partner of the escape: un-doubling recovers the input with NUL and SUB removed, so the escape loses nothing else |
| Validation.StripNulSub | src/validation.rs:286-287 | the result has no NUL and no SUB |
| Validation.ValidateFileName | src/validation.rs:295-345 | Ok exactly for 1..255 characters with no NUL, no `..`, `/` or `\`, none of the platform's forbidden characters (`<>:"\|?*` on Windows, none elsewhere), and on Windows no reserved device name, matched case-insensitively, either alone or followed by `.`; the name is returned unchanged and every rejection is InvalidFileName |
| Validation.FilePathPreCheck | src/validation.rs:99-119 | an empty path or one holding NUL is InvalidFilePath; otherwise `..` or `~` is PathTraversalAttempt; it passes exactly when none of these hold |
| Validation.WindowsTraversalSubsumed | src/validation.rs:113-118 | the extra Windows checks for `..\` and `\..` can never fire, because both already contain `..` |
| Validation.ValidateFilePath | src/validation.rs:99-150 | the pre-check errors come first. After them, a path is accepted exactly when its canonical form has no `..`, or, when it cannot be canonicalised, when its parent exists. The result is the canonical path or the path itself, and never contains `..`. A canonical form with `..` is PathTraversalAttempt; a missing parent is InvalidFilePath |
| Validation.FilePathPreChecksIgnoreFileSystem | src/validation.rs:99-119 | a path refused by the textual checks is refused the same way whatever the file system holds |
| Validation.ValidateApiUrl | src/validation.rs:177-204 | Ok exactly for a non-empty URL that parses with scheme `https` and a host and has no SQL pattern; InsecureUrl exactly for a parsed non-https URL; the SQL error exactly for a parsed https URL with a host that matches the pattern; all else is InvalidUrl |
| Patterns.EventHandlerScanIsRegex | src/validation.rs:16-18 | the left-to-right scan for `on`, word characters, optional whitespace and `=` finds a match exactly when some span of the text has that form |
| Patterns.NoSqlPatternWithoutAlternativeStart | src/validation.rs:12-14 | text with no `;`, no `'`, and no adjacent pair of characters beginning any alternative cannot match the SQL pattern |
| Patterns.EventHandlerNeedsEquals | src/validation.rs:16-18 | an event-handler match needs an `=` in the text |
| Patterns.NoScriptPatternWithoutPunctuation | src/validation.rs:16-18 | text with none of `<`, `:`, `(`, `.`, `=` cannot match the script pattern |
| ValidationFacts.ServerAddressIsHostName | src/validation.rs:206-240 | the partner of the address check: an address is accepted exactly when it is a dot-joined sequence of host labels, 2..253 long, with no SQL pattern |
| ValidationFacts.AcceptedAddressIsHostName | src/validation.rs:206-240 | an accepted address is a dot-joined sequence of labels of alphanumerics and hyphens, each starting and ending alphanumerically |
| ValidationFacts.HostNameShape | src/validation.rs:224-237 | a dot-joined sequence of host labels splits back into those labels and satisfies the domain regex, so the regex check is implied by the label check |
| ValidationFacts.HostNameIsAccepted | src/validation.rs:206-240 | every host name of 2..253 characters without a SQL match is accepted unchanged |
| ValidationFacts.SingleCharacterAddressRejected | src/validation.rs:224-227 | a one-character address is always rejected, because the domain regex needs at least two characters |
| ValidationFacts.EntryIdBoundaries | src/validation.rs:397-409 | 1 and i64::MAX/2 are accepted; 0, -1, i64::MAX/2 + 1 and i64::MAX are rejected |
| ValidationFacts.FileSizeBoundaries | src/validation.rs:511-519 | exactly 100 MiB is accepted and one byte more is refused with the limit in the error |
| ValidationFacts.RepositoryNameAccepted | src/validation.rs:411-424 | `test_repo_123` is accepted |
| ValidationFacts.RepositoryNameWithSpaceRejected | src/validation.rs:411-424 | `my repo` is refused as an invalid name |
| ValidationFacts.RepositoryNameWithPathRejected | src/validation.rs:411-424 | `../../../etc/passwd` is refused as an invalid name, not as SQL |
| ValidationFacts.RepositoryNameWithSqlRejected | src/validation.rs:411-424 | `repo'; DROP TABLE--` is reported as a SQL injection attempt |
| ValidationFacts.LongRepositoryNameRejected | src/validation.rs:160-163 | any 65-character name is refused as an invalid name |
| ValidationFacts.ServerAddressAccepted | src/validation.rs:439-453 | `api.example.com` is accepted |
| ValidationFacts.ServerAddressWithLeadingHyphenRejected | src/validation.rs:439-453 | `-invalid.com` is refused |
| ValidationFacts.ServerAddressWithSqlRejected | src/validation.rs:439-453 | `server.com'; DROP TABLE--` is reported as SQL injection |
| ValidationFacts.FieldNameAccepted | src/validation.rs:455-468 | `FieldName` is accepted |
| ValidationFacts.FieldNameWithMarkupReportedAsSql | src/validation.rs:455-468 | `<script>alert('xss')</script>` as a field name is reported as SQL injection, because its quote is checked first |
| ValidationFacts.FieldNamesContainingKeywordsRejected | src/validation.rs:12-14 | `Created` and `LastUpdate` are refused as SQL because the keyword search is a case-insensitive substring search |
| ValidationFacts.AcceptedValueIsEscaped | src/validation.rs:271-293 | an accepted value is exactly its escape |
| ValidationFacts.TwoQuotesDoubled | src/validation.rs:283-284 | a value with two quotes among plain text comes back with each quote doubled |
| ValidationFacts.FieldValueQuotesDoubled | src/validation.rs:470-488 | `O'Brien's value` comes back as `O''Brien''s value` |
| ValidationFacts.PlainValueUnchanged | src/validation.rs:271-293 | an accepted value needing no escape is returned as given |
| ValidationFacts.FieldValueUnchanged | src/validation.rs:470-488 | `Normal text value` is returned unchanged |
| ValidationFacts.FieldValueWithScriptRejected | src/validation.rs:470-488 | `<script>alert('xss')</script>` and `javascript:void(0)` are refused as script injection |
| ValidationFacts.LongFieldValueRejected | src/validation.rs:274-276 | any 10241-character value is refused with the limit 10240 |
| ValidationFacts.SanitizeTwiceDoublesAgain | src/validation.rs:283-288 | sanitising is not idempotent: `'` becomes `''`, and `''` becomes `''''` |
| ValidationFacts.EscapeDropsNul | src/validation.rs:286 | a NUL between plain text disappears and joins its neighbours |
| ValidationFacts.NulRemovalReassemblesScriptTag | src/validation.rs:278-288 | `<scr` NUL `ipt>` passes the script check and leaves as `<script>`, which the check would have refused |
| ValidationFacts.WindowsFileNameRulesAreStricter | src/validation.rs:295-345 | every name accepted for Windows is accepted unchanged elsewhere |
| ValidationFacts.ReservedFileNamesRejectedOnWindows | src/validation.rs:330-341 | `CON`, `PRN.txt` and `con` are refused on Windows |
| ValidationFacts.ColonInFileNameDependsOnPlatform | src/validation.rs:317-327 | `file:name.txt` is refused on Windows and accepted elsewhere |
| ValidationFacts.FileNameWithTraversalRejected | src/validation.rs:490-509 | `../../../etc/passwd` is refused as a file name |
| Metadata.ValidateItems | src/validation.rs:370-378 | an array passes exactly when every string item passes the field-value check; string items are replaced by their validated form, other items kept; on failure the error is that of the first failing string |
| Metadata.ValidateValue | src/validation.rs:365-381 | a string is validated as a field value; an array is validated item by item; any other value is kept as it is |
| Metadata.ValidateMembers | src/validation.rs:360-384 | members pass exactly when each key is a valid field name and each value validates; the output keeps each key and holds its validated value; on failure the first failing member's error is reported, key before value |
| Metadata.ValidateMetadataJson | src/validation.rs:356-391 | a non-object is returned unchanged; an object is accepted exactly when every member passes, with the same keys in the same order |
| MetadataFacts.AcceptedKeysAreFieldNames | src/validation.rs:362-363 | every key of an accepted object has the field-name shape and is at most 128 characters |
| MetadataFacts.AcceptedStringsAreSanitised | src/validation.rs:366-368 | every string value of an accepted object is replaced by exactly its escape; the replacement holds no NUL or SUB and, un-doubled, gives back the input without its NUL and SUB |
| MetadataFacts.NestedObjectsCopied | src/validation.rs:380 | nested objects are copied without being validated |
| MetadataFacts.PlainValueKept | src/validation.rs:365-381 | an accepted value whose strings need no escape is returned unchanged |
| MetadataFacts.PlainMetadataUnchanged | src/validation.rs:356-391 | an accepted object whose strings need no escape is returned unchanged |
| MetadataFacts.FirstFailingMemberReported | src/validation.rs:360-384 | the error is that of the first failing member, whatever follows it |
| MetadataFacts.SqlKeyReported | src/validation.rs:362-363 | a key matching the SQL pattern after passing members yields the SQL error for that key |
| MetadataFacts.ScriptValueReported | src/validation.rs:366-368 | a valid key whose string value has script yields the script error for that value |
| MetadataFacts.PassingPlainObjectAccepted | src/validation.rs:521-544 | an object whose members all pass and need no escape is accepted unchanged |
| Config.ValidateNotPlaceholder | src/config.rs:60-90 | refused exactly when the trimmed, lower-cased value is one of the nine known placeholders (empty included) or contains `your-`, `example` or `placeholder`; a known placeholder is reported as such, before the marker check |
| Config.FirstUnset | src/config.rs:35-38 | none exactly when every name is set; otherwise the first unset name in order |
| Config.FirstFailure | src/config.rs:41-44 | none exactly when every check passes; otherwise the error of the first failing check |
| Config.FromEnv | src/config.rs:34-58 | the first unset variable among address, repository, username and password is reported; with all set, the first refused value is reported; loading succeeds exactly when neither happens and then holds the raw values |
| Config.ScreensInOrder | src/config.rs:41-44 | the checks run on the address, repository, username and password in that order |
| ConfigFacts.FirstMissingVariableReported | src/config.rs:34-58 | when variable k is unset and the earlier ones are set, loading fails with MissingEnvVar for variable k, whatever the values hold |
| ConfigFacts.UnsetAddressReported | src/config.rs:105-120 | without `LF_API_ADDRESS` loading reports it missing |
| ConfigFacts.FirstRefusedValueReported | src/config.rs:34-58 | with all set, the first refused value determines the error |
| ConfigFacts.RefusedValueFailsLoad | src/config.rs:34-58 | with all variables set, any refused value makes loading fail with InvalidValue |
| ConfigFacts.ScreenDependsOnNormalForm | src/config.rs:73-87 | two values with the same trimmed lower-case form get the same verdict and kind |
| ConfigFacts.ScreenIgnoresCaseAndPadding | src/config.rs:73 | upper-casing a value and padding it with whitespace changes neither its normal form nor its verdict |
| ConfigFacts.BlankValueRefused | src/config.rs:192-206 | an empty or all-whitespace value is refused as a known placeholder |
| ConfigFacts.NormalFormFixed | src/config.rs:73 | a value without outer whitespace or upper-case letters is its own normal form |
| ConfigFacts.KnownPlaceholderRefused | src/config.rs:61-79 | every listed placeholder, in any case and with any padding, is refused as a known placeholder |
| ConfigFacts.TestRefusedOnlyAsWholeValue | src/config.rs:130-148 | `test` is refused but `testing` passes: the list is matched whole, not as a substring |
| ConfigFacts.MarkerInsideValueRefused | tests/config_integration_tests.rs:47-78 | `placeholder-repo` is refused for containing a marker |
| ConfigFacts.PlainValuePasses | src/config.rs:60-90 | a value in normal form that is neither listed nor marked passes unchanged |
| ConfigFacts.ValidConfigurationLoaded | src/config.rs:172-190 | the four realistic values load into a Config holding them |
| Laserfiche.BuildEntriesUrl | src/laserfiche.rs:336-342 | a URL is built exactly for ids accepted by the entry-id check; any other id yields its InvalidEntryId error |
| Laserfiche.Authenticate | src/laserfiche.rs:84-96 | an invalid address is reported before the repository is looked at; an invalid repository is reported next; otherwise the request goes to the token URL of the unchanged server with the password-grant form |
| Laserfiche.Extension | src/laserfiche.rs:445-449 | the piece after the last `.`: it has no `.`, it ends the name, and it is preceded by `.` unless it is the whole name |
| Laserfiche.ExtensionStart | src/laserfiche.rs:445-449 | the search for the last dot: no dot lies between the returned position and the end, and the position is either the start of the name or just after a dot |
| LaserficheFacts.BaseUrlSegments | src/laserfiche.rs:344-348 | a base URL built from slash-free parts splits on `/` into scheme, empty authority separator, address, `LFRepositoryAPI`, `v1`, `Repositories`, repository |
| LaserficheFacts.EntriesUrlNamesEntry | src/laserfiche.rs:336-342 | when neither the address nor the repository holds `/`, an entries URL splits into the base segments, `Entries`, and a last segment that parses back to the entry id; `build_entries_url` itself checks only the id, so without that hypothesis the server parts can add segments |
| LaserficheFacts.ValidatedServerHasNoSlash | src/validation.rs:152-240 | an accepted address and repository contain no `/`, so they cannot add path segments |
| LaserficheFacts.TokenUrlNamesServer | src/laserfiche.rs:84-121 | the URL of an accepted token request splits into exactly the base segments of the server followed by `Token` |
| LaserficheFacts.InvalidAddressReportedFirst | src/laserfiche.rs:84-87 | with both address and repository invalid, the address error is the one reported |
| LaserficheFacts.SearchUrlLayout | src/laserfiche.rs:910-938 | the search URL is the base URL, `/Entries/Search?`, and the present parameters joined by `&` |
| LaserficheFacts.SearchParametersReadBack | src/laserfiche.rs:910-938 | when encoding never yields `&`, splitting the query string on `&` recovers exactly the present parameters in order: the encoded query first, then `$orderby`, `$select`, `$skip`, `$top` if given |
| LaserficheFacts.SearchPagingReadBack | src/laserfiche.rs:930-935 | with only paging given, the query string splits into `q`, `$skip` and `$top`, and both numbers parse back to the values given |
| LaserficheFacts.DecimalHasNoAmpersand | src/laserfiche.rs:930-935 | a rendered integer never contains `&`, so numeric parameters cannot break the query string |
| LaserficheFacts.MimeTableEntry | src/laserfiche.rs:451-467 | each of the 17 listed extensions maps to its own MIME type, never the octet-stream fallback |
| LaserficheFacts.MimeFallback | src/laserfiche.rs:451-468 | an extension yields `application/octet-stream` exactly when it is not one of the 17 listed |
| LaserficheFacts.ExtensionUnique | src/laserfiche.rs:445-449 | any dot-free suffix that is the whole name or is preceded by `.` is the extension, so the extension is fully determined |
| LaserficheFacts.ExtensionAfterLastDot | src/laserfiche.rs:445-449 | the extension of `stem.ext` is `ext` whatever dots the stem holds |
| LaserficheFacts.ExtensionOfDotlessName | src/laserfiche.rs:445-449 | a name without a dot is its own extension |
| LaserficheFacts.ExtensionLower | src/laserfiche.rs:445-449 | taking the extension commutes with lower-casing |
| LaserficheFacts.DetectMimeTypeIgnoresCase | src/laserfiche.rs:444-469 | names equal up to case get the same MIME type |
| LaserficheFacts.DetectListedExtension | src/laserfiche.rs:444-469 | any stem with a listed extension gets that extension's MIME type |
| LaserficheFacts.DetectUnlistedExtension | src/laserfiche.rs:444-469 | a name whose lower-cased extension is not listed gets `application/octet-stream` |
| LaserficheFacts.DetectDotlessName | src/laserfiche.rs:444-469 | a dotless name is looked up as a whole, so it gets the fallback unless it is itself a listed extension |
| LaserficheFacts.DotlessListedNameDetected | src/laserfiche.rs:444-469 | a dotless name that lower-cases to a listed extension gets that extension's type |
| LaserficheFacts.PdfFileNameIsPdf | src/laserfiche.rs:444-469 | a file named `pdf` is `application/pdf` |
| LaserficheFacts.PdfNameDetected | src/laserfiche.rs:1360-1388 | `test.pdf` is `application/pdf` |
| LaserficheFacts.UpperCasePdfNameDetected | src/laserfiche.rs:1360-1388 | `TEST.PDF` is `application/pdf` |
| LaserficheFacts.MixedCasePdfNameDetected | src/laserfiche.rs:1360-1388 | `Test.Pdf` is `application/pdf` |
| LaserficheFacts.UpperCaseExtensionDetected | src/laserfiche.rs:1360-1388 | `test.PDF` is `application/pdf` |
| LaserficheFacts.UnknownExtensionIsByteStream | src/laserfiche.rs:1360-1388 | `test.unknown` is `application/octet-stream` |
| LaserficheFacts.NameWithoutExtensionIsByteStream | src/laserfiche.rs:1360-1388 | `test` is `application/octet-stream` |
| Text.IntToDecimalRoundTrip | src/laserfiche.rs:336-342 | the decimal rendering that `format!` gives an integer parses back to the same integer |
| Text.TrimLowerIgnoresCaseAndPadding | src/config.rs:73 | trimming then lower-casing ignores outer whitespace and the case of the value |

## Left out

- The HTTP exchange of `authenticate` (the `reqwest` call, the status check, JSON decoding, the timestamp) is I/O; the model stops at the request it would send.
- The other API operations of `src/laserfiche.rs` (import, export, metadata and folder calls), the blocking client `src/laserfiche/blocking.rs` and `src/main.rs` are not part of this model. Some of them skip the validators: the blocking client puts the raw address, repository, root id and file name into its URLs (src/laserfiche/blocking.rs:43, :103-109), and `new_path` (src/laserfiche.rs:492-496), which creates a folder, puts the root id into its URL without the entry-id check.
- The async entry operations of `src/laserfiche.rs` pass the caller's `ApiServer` to `build_entries_url` without validating its address or repository (src/laserfiche.rs:539, :565, :635, :674, :760, :845), and the search operation does the same with `build_search_url` (src/laserfiche.rs:899). Only `authenticate` validates the server (src/laserfiche.rs:86-87). So in those calls a `/` in the address or repository adds path segments to the URL. `LaserficheFacts.EntriesUrlNamesEntry` and `LaserficheFacts.BaseUrlSegments` therefore assume a slash-free server, which `LaserficheFacts.ValidatedServerHasNoSlash` supplies only for a validated one.
- `urlencoding::encode` is a parameter; its percent-encoding is not modelled. The search read-back lemmas assume only that it never emits `&`, which it does not.
- `Url::parse` is a parameter returning the scheme and host; URL grammar is not modelled.
- The file system behind `canonicalize`, `parent` and `exists` is a parameter; symbolic links and path normalisation are not modelled.
- Unicode is not modelled: case mapping, `\w`, `\s` and `to_uppercase` are ASCII, and lengths count characters rather than UTF-8 bytes.
- `from_env` reading a variable whose value is not valid Unicode (reported as missing in the source) is not modelled: the environment maps names to strings.
- JSON numbers are integers; floating-point values are outside the model, and the validator copies them unchanged anyway.
- JSON objects are sequences of members. `serde_json::Map` iterates in sorted key order without duplicates, so the "first failing member" is first in that order; the model takes the sequence as given.
- Error messages (the `Display` text of each error kind) are not modelled, only the kind and its payload.
- The lazy one-time compilation of the regexes is not modelled; the predicates are pure.
