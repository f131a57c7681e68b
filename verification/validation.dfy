/** The validation engine: one function per validator of the source, each returning the
    validated value or the first violated rule as a classified error kind.

    Collaborators the engine cannot see are parameters: the file system consulted by
    `ValidateFilePath` and the URL parser used by `ValidateApiUrl`. */
module Validation {
  import opened Results
  import opened Text
  import opened Patterns

  // ---------------------------------------------------------------------------
  // Integer widths and limits
  // ---------------------------------------------------------------------------

  const I64_MIN: int := -0x8000_0000_0000_0000
  const I64_MAX: int := 0x7FFF_FFFF_FFFF_FFFF
  const U64_MAX: int := 0xFFFF_FFFF_FFFF_FFFF

  type i64 = x: int | I64_MIN <= x <= I64_MAX
  type u64 = x: int | 0 <= x <= U64_MAX

  /** The largest accepted entry id, `i64::MAX / 2`. */
  const MAX_ENTRY_ID: i64 := I64_MAX / 2

  /** 100 MiB. */
  const MAX_FILE_SIZE: u64 := 100 * 1024 * 1024

  /** 10 KiB. */
  const MAX_FIELD_VALUE_LENGTH: nat := 10 * 1024

  const MAX_REPOSITORY_NAME_LENGTH: nat := 64
  const MAX_SERVER_ADDRESS_LENGTH: nat := 253
  const MAX_LABEL_LENGTH: nat := 63
  const MAX_FIELD_NAME_LENGTH: nat := 128
  const MAX_FILE_NAME_LENGTH: nat := 255

  /** The SUB control character (0x1A). */
  const SUB: char := '\U{1A}'

  // ---------------------------------------------------------------------------
  // Error taxonomy
  // ---------------------------------------------------------------------------

  /** The closed set of failure kinds, each carrying the offending value. */
  datatype ErrorKind =
    | InvalidEntryId(id: i64)
    | InvalidFilePath(path: string)
    | PathTraversalAttempt(path: string)
    | InvalidRepositoryName(name: string)
    | InvalidUrl(url: string)
    | InsecureUrl(url: string)
    | InvalidFieldName(name: string)
    | InvalidFieldValue(maxLength: nat)
    | SqlInjectionAttempt(input: string)
    | ScriptInjectionAttempt(input: string)
    | FileSizeTooLarge(size: u64, max: u64)
    | InvalidFileName(name: string)

  type Checked<T> = Result<T, ErrorKind>

  /** The platform the program is compiled for (the source's `cfg!(windows)`). */
  datatype Platform = Windows | Unix

  // ---------------------------------------------------------------------------
  // Scalar validators
  // ---------------------------------------------------------------------------

  /** Accepts exactly the ids in `[1, i64::MAX / 2]`, which leaves room to double any
      accepted id without leaving the `i64` range. */
  function ValidateEntryId(id: i64): (r: Checked<i64>)
    ensures r.Ok? <==> 1 <= id <= MAX_ENTRY_ID
    ensures r.Ok? ==> r.value == id && r.value + r.value <= I64_MAX
    ensures r.Err? ==> r.error == InvalidEntryId(id)
  {
    if id <= 0 then Err(InvalidEntryId(id))
    else if id > I64_MAX / 2 then Err(InvalidEntryId(id))
    else Ok(id)
  }

  /** Accepts exactly the sizes up to and including 100 MiB. */
  function ValidateFileSize(size: u64): (r: Checked<u64>)
    ensures r.Ok? <==> size <= 104857600
    ensures r.Ok? ==> r.value == size
    ensures r.Err? ==> r.error == FileSizeTooLarge(size, 104857600)
  {
    if size > MAX_FILE_SIZE then Err(FileSizeTooLarge(size, MAX_FILE_SIZE)) else Ok(size)
  }

  /** Length, then the SQL detector, then the shape. An accepted name is returned as is,
      so it is 1 to 64 characters of `[A-Za-z0-9_-]` starting with a letter or digit. */
  function ValidateRepositoryName(name: string): (r: Checked<string>)
    ensures r.Ok? ==> r.value == name
    ensures r.Ok? ==>
      && 1 <= |name| <= 64
      && IsAlphanumeric(name[0])
      && (forall i :: 0 <= i < |name| ==> IsAlphanumeric(name[i]) || name[i] == '-' || name[i] == '_')
      && !MatchesSqlPattern(name)
    ensures r.Ok? <==> 1 <= |name| <= 64 && !MatchesSqlPattern(name) && MatchesRepositoryNameShape(name)
    ensures r == Err(SqlInjectionAttempt(name)) <==> 1 <= |name| <= 64 && MatchesSqlPattern(name)
    ensures r.Err? && r.error != SqlInjectionAttempt(name) ==> r.error == InvalidRepositoryName(name)
  {
    if |name| == 0 then Err(InvalidRepositoryName(name))
    else if |name| > MAX_REPOSITORY_NAME_LENGTH then Err(InvalidRepositoryName(name))
    else if MatchesSqlPattern(name) then Err(SqlInjectionAttempt(name))
    else if !MatchesRepositoryNameShape(name) then Err(InvalidRepositoryName(name))
    else Ok(name)
  }

  /** A dot-separated label of a server address: non-empty, at most 63 characters, and
      neither starting nor ending with `-`. */
  predicate IsValidLabel(part: string) {
    && 1 <= |part| <= MAX_LABEL_LENGTH
    && part[0] != '-'
    && part[|part| - 1] != '-'
  }

  /** Length, then the SQL detector, then the domain shape, then every label. */
  function ValidateServerAddress(address: string): (r: Checked<string>)
    ensures r.Ok? ==> r.value == address
    ensures r.Ok? ==>
      && 2 <= |address| <= 253
      && IsAlphanumeric(address[0]) && IsAlphanumeric(address[|address| - 1])
      && (forall i :: 0 <= i < |address| ==> IsDomainChar(address[i]))
      && !MatchesSqlPattern(address)
    ensures r.Ok? ==> var labels := Split(address, '.');
      forall i :: 0 <= i < |labels| ==> 1 <= |labels[i]| <= 63 && labels[i][0] != '-' && labels[i][|labels[i]| - 1] != '-'
    ensures r.Ok? <==>
      && 1 <= |address| <= 253
      && !MatchesSqlPattern(address)
      && MatchesDomainShape(address)
      && forall i :: 0 <= i < |Split(address, '.')| ==> IsValidLabel(Split(address, '.')[i])
    ensures r == Err(SqlInjectionAttempt(address)) <==> 1 <= |address| <= 253 && MatchesSqlPattern(address)
    ensures r.Err? && r.error != SqlInjectionAttempt(address) ==> r.error == InvalidUrl(address)
  {
    if |address| == 0 then Err(InvalidUrl(address))
    else if |address| > MAX_SERVER_ADDRESS_LENGTH then Err(InvalidUrl(address))
    else if MatchesSqlPattern(address) then Err(SqlInjectionAttempt(address))
    else if !MatchesDomainShape(address) then Err(InvalidUrl(address))
    else
      var labels := Split(address, '.');
      assert labels == Split(address, '.');
      assert (forall i :: 0 <= i < |labels| ==> IsValidLabel(labels[i])) <==>
        (forall i :: 0 <= i < |Split(address, '.')| ==> IsValidLabel(Split(address, '.')[i]));
      ValidateLabels(address, labels)
  }

  /** The loop over `address.split('.')`: the first bad label fails the whole address. */
  function ValidateLabels(address: string, labels: seq<string>): (r: Checked<string>)
    ensures r.Ok? <==> forall i :: 0 <= i < |labels| ==> IsValidLabel(labels[i])
    ensures r.Ok? ==> r.value == address
    ensures r.Err? ==> r.error == InvalidUrl(address)
    decreases |labels|
  {
    if |labels| == 0 then Ok(address)
    else if |labels[0]| == 0 || |labels[0]| > MAX_LABEL_LENGTH then Err(InvalidUrl(address))
    else if labels[0][0] == '-' || labels[0][|labels[0]| - 1] == '-' then Err(InvalidUrl(address))
    else ValidateLabels(address, labels[1..])
  }

  /** Length, then the SQL detector, then the script detector, then the shape. */
  function ValidateFieldName(name: string): (r: Checked<string>)
    ensures r.Ok? ==> r.value == name
    ensures r.Ok? ==>
      && 1 <= |name| <= 128
      && IsLetter(name[0])
      && (forall i :: 0 <= i < |name| ==> IsFieldNameChar(name[i]))
      && !MatchesSqlPattern(name) && !MatchesScriptPattern(name)
    ensures r.Ok? <==>
      1 <= |name| <= 128 && !MatchesSqlPattern(name) && !MatchesScriptPattern(name) && MatchesFieldNameShape(name)
    ensures r == Err(SqlInjectionAttempt(name)) <==> 1 <= |name| <= 128 && MatchesSqlPattern(name)
    ensures r == Err(ScriptInjectionAttempt(name)) <==>
      1 <= |name| <= 128 && !MatchesSqlPattern(name) && MatchesScriptPattern(name)
    ensures r.Err? && r.error != SqlInjectionAttempt(name) && r.error != ScriptInjectionAttempt(name) ==>
      r.error == InvalidFieldName(name)
  {
    if |name| == 0 then Err(InvalidFieldName(name))
    else if |name| > MAX_FIELD_NAME_LENGTH then Err(InvalidFieldName(name))
    else if MatchesSqlPattern(name) then Err(SqlInjectionAttempt(name))
    else if MatchesScriptPattern(name) then Err(ScriptInjectionAttempt(name))
    else if !MatchesFieldNameShape(name) then Err(InvalidFieldName(name))
    else Ok(name)
  }

  // ---------------------------------------------------------------------------
  // Field value sanitiser
  // ---------------------------------------------------------------------------

  /** The four `replace` passes of the source, in its order: quotes doubled, backslashes
      doubled, NUL removed, SUB removed. */
  function Sanitize(value: string): string {
    Replace(Replace(Replace(Replace(value, '\'', "''"), '\\', "\\\\"), '\0', ""), SUB, "")
  }

  /** What the four passes do to one character. */
  function EscapeChar(c: char): string {
    if c == '\'' then "''"
    else if c == '\\' then "\\\\"
    else if c == '\0' || c == SUB then ""
    else [c]
  }

  /** The text holds no quote, backslash, NUL or SUB character. */
  predicate NeedsNoEscaping(s: string) {
    forall i :: 0 <= i < |s| ==> s[i] != '\'' && s[i] != '\\' && s[i] != '\0' && s[i] != SUB
  }

  /** A one-pass reference for the sanitiser: every character escaped on its own. */
  function Escape(s: string): string
    decreases |s|
  {
    if |s| == 0 then "" else EscapeChar(s[0]) + Escape(s[1..])
  }

  lemma {:induction false} EscapeBounds(s: string)
    ensures |Escape(s)| <= 2 * |s|
    ensures '\0' !in Escape(s) && SUB !in Escape(s)
    ensures NeedsNoEscaping(s) ==> Escape(s) == s
    decreases |s|
  {
    if |s| > 0 {
      EscapeBounds(s[1..]);
    }
  }

  /** The escape works character by character, so it distributes over concatenation. */
  lemma {:induction false} EscapeAppend(a: string, b: string)
    ensures Escape(a + b) == Escape(a) + Escape(b)
    decreases |a|
  {
    if |a| == 0 {
      assert a + b == b;
    } else {
      assert (a + b)[0] == a[0] && (a + b)[1..] == a[1..] + b;
      EscapeAppend(a[1..], b);
      assert Escape(a + b) == EscapeChar(a[0]) + Escape(a[1..] + b);
    }
  }

  /** Collapses every doubled quote and every doubled backslash, scanning left to right. */
  function Unescape(t: string): string
    decreases |t|
  {
    if |t| >= 2 && t[0] == '\'' && t[1] == '\'' then "'" + Unescape(t[2..])
    else if |t| >= 2 && t[0] == '\\' && t[1] == '\\' then "\\" + Unescape(t[2..])
    else if |t| == 0 then ""
    else [t[0]] + Unescape(t[1..])
  }

  /** The input with every NUL and SUB character removed and nothing else changed. */
  function StripNulSub(s: string): (r: string)
    ensures '\0' !in r && SUB !in r
    decreases |s|
  {
    if |s| == 0 then ""
    else if s[0] == '\0' || s[0] == SUB then StripNulSub(s[1..])
    else [s[0]] + StripNulSub(s[1..])
  }

  /** The four sequential passes agree with the one-pass escape. */
  lemma {:induction false} SanitizeIsEscape(s: string)
    ensures Sanitize(s) == Escape(s)
    decreases |s|
  {
    if |s| > 0 {
      var c, rest := s[0], s[1..];
      assert s == [c] + rest;
      var p1 := if c == '\'' then "''" else [c];
      var r1 := Replace(rest, '\'', "''");
      assert Replace(s, '\'', "''") == p1 + r1;
      ReplaceAppend(p1, r1, '\\', "\\\\");
      var p2 := Replace(p1, '\\', "\\\\");
      var r2 := Replace(r1, '\\', "\\\\");
      ReplaceAppend(p2, r2, '\0', "");
      var p3 := Replace(p2, '\0', "");
      var r3 := Replace(r2, '\0', "");
      ReplaceAppend(p3, r3, SUB, "");
      var p4 := Replace(p3, SUB, "");
      assert p4 == EscapeChar(c) by {
        if c == '\'' {
        } else if c == '\\' {
          assert p2 == "\\\\" + Replace([], '\\', "\\\\");
        } else if c == '\0' {
          assert p3 == "" + Replace([], '\0', "");
        } else if c == SUB {
          assert p4 == "" + Replace([], SUB, "");
        }
      }
      SanitizeIsEscape(rest);
    }
  }

  /** Undoing the doubling recovers the input without its NUL and SUB characters:
      the sanitiser doubles every quote and backslash and changes nothing else. */
  lemma {:induction false} UnescapeEscape(s: string)
    ensures Unescape(Escape(s)) == StripNulSub(s)
    decreases |s|
  {
    if |s| > 0 {
      var c, rest := s[0], s[1..];
      var t := Escape(s);
      UnescapeEscape(rest);
      assert t == EscapeChar(c) + Escape(rest);
      if c == '\'' || c == '\\' {
        assert t[..2] == [c, c] && t[2..] == Escape(rest);
        assert Unescape(t) == [c] + Unescape(t[2..]);
      } else if c == '\0' || c == SUB {
        assert t == Escape(rest);
      } else {
        assert EscapeChar(c) == [c];
        assert t[0] == c && t[1..] == Escape(rest);
        assert Unescape(t) == [c] + Unescape(t[1..]);
      }
    }
  }

  /** Length, then the script detector; SQL-like content is escaped rather than rejected. */
  function ValidateFieldValue(value: string): (r: Checked<string>)
    ensures r.Ok? <==> |value| <= 10240 && !MatchesScriptPattern(value)
    ensures |value| > 10240 ==> r == Err(InvalidFieldValue(10240))
    ensures |value| <= 10240 && MatchesScriptPattern(value) ==> r == Err(ScriptInjectionAttempt(value))
    ensures r.Ok? ==> '\0' !in r.value && SUB !in r.value && |r.value| <= 2 * |value|
    ensures r.Ok? ==> Unescape(r.value) == StripNulSub(value)
    ensures r.Ok? && NeedsNoEscaping(value) ==> r.value == value
  {
    if |value| > MAX_FIELD_VALUE_LENGTH then Err(InvalidFieldValue(MAX_FIELD_VALUE_LENGTH))
    else if MatchesScriptPattern(value) then Err(ScriptInjectionAttempt(value))
    else
      SanitizeIsEscape(value);
      UnescapeEscape(value);
      EscapeBounds(value);
      Ok(Sanitize(value))
  }

  // ---------------------------------------------------------------------------
  // Path validators
  // ---------------------------------------------------------------------------

  /** `<>:"|?*`, the characters Windows forbids in file names. */
  const WINDOWS_INVALID_CHARS: string := "<>:\"|?*"

  /** The characters rejected for the target platform (none outside Windows). */
  function InvalidFileNameChars(target: Platform): string {
    if target == Windows then WINDOWS_INVALID_CHARS else ""
  }

  const RESERVED_NAMES: seq<string> := [
    "CON", "PRN", "AUX", "NUL", "COM1", "COM2", "COM3", "COM4",
    "COM5", "COM6", "COM7", "COM8", "COM9", "LPT1", "LPT2",
    "LPT3", "LPT4", "LPT5", "LPT6", "LPT7", "LPT8", "LPT9"]

  predicate StartsWith(s: string, p: string) {
    |p| <= |s| && s[..|p|] == p
  }

  /** The upper-cased name is a reserved device name, or one followed by a dot. */
  predicate IsReservedName(name: string) {
    var upper := Upper(name);
    exists k | 0 <= k < |RESERVED_NAMES| ::
      upper == RESERVED_NAMES[k] || StartsWith(upper, RESERVED_NAMES[k] + ".")
  }

  function ValidateFileName(name: string, target: Platform): (r: Checked<string>)
    ensures r.Ok? <==>
      && 1 <= |name| <= 255
      && '\0' !in name && !Contains(name, "..") && '/' !in name && '\\' !in name
      && (target == Windows ==>
            (forall k :: 0 <= k < |WINDOWS_INVALID_CHARS| ==> WINDOWS_INVALID_CHARS[k] !in name) && !IsReservedName(name))
    ensures r.Ok? ==> r.value == name
    ensures r.Err? ==> r.error == InvalidFileName(name)
  {
    if |name| == 0 then Err(InvalidFileName(name))
    else if |name| > MAX_FILE_NAME_LENGTH then Err(InvalidFileName(name))
    else if '\0' in name then Err(InvalidFileName(name))
    else if Contains(name, "..") || '/' in name || '\\' in name then Err(InvalidFileName(name))
    else if exists i | 0 <= i < |InvalidFileNameChars(target)| :: InvalidFileNameChars(target)[i] in name then
      Err(InvalidFileName(name))
    else if target == Windows && IsReservedName(name) then Err(InvalidFileName(name))
    else
      assert target == Windows ==> (forall k :: 0 <= k < |WINDOWS_INVALID_CHARS| ==> WINDOWS_INVALID_CHARS[k] !in name) by {
        if target == Windows {
          assert InvalidFileNameChars(target) == WINDOWS_INVALID_CHARS;
        }
      }
      Ok(name)
  }

  /** The file system as seen by `validate_file_path`: `canonicalize` answers `None` when
      resolution fails (for instance when the path does not exist), `parent` is
      `Path::parent`, and `pathExists` is `Path::exists`. */
  datatype FileSystem = FileSystem(
    canonicalize: string -> Option<string>,
    parent: string -> Option<string>,
    pathExists: string -> bool)

  /** The two Windows traversal patterns, `..` followed by a backslash and a backslash
      followed by `..`. */
  const DOT_DOT_BACKSLASH: string := ['.', '.', '\\']
  const BACKSLASH_DOT_DOT: string := ['\\', '.', '.']

  /** The checks made before the file system is consulted. */
  function FilePathPreCheck(path: string, target: Platform): (r: Outcome<ErrorKind>)
    ensures |path| == 0 || '\0' in path ==> r == Fail(InvalidFilePath(path))
    ensures |path| > 0 && '\0' !in path && (Contains(path, "..") || '~' in path) ==>
      r == Fail(PathTraversalAttempt(path))
    ensures r.Pass? <==> |path| > 0 && '\0' !in path && !Contains(path, "..") && '~' !in path
  {
    if |path| == 0 then Fail(InvalidFilePath(path))
    else if '\0' in path then Fail(InvalidFilePath(path))
    else if Contains(path, "..") || '~' in path then Fail(PathTraversalAttempt(path))
    else if target == Windows && (Contains(path, DOT_DOT_BACKSLASH) || Contains(path, BACKSLASH_DOT_DOT)) then
      WindowsTraversalSubsumed(path);
      Fail(PathTraversalAttempt(path))
    else Pass
  }

  /** The Windows-only patterns `..\` and `\..` both contain `..`, so the extra Windows
      check can never fire after the general one has passed. */
  lemma WindowsTraversalSubsumed(path: string)
    requires Contains(path, DOT_DOT_BACKSLASH) || Contains(path, BACKSLASH_DOT_DOT)
    ensures Contains(path, "..")
  {
    if Contains(path, DOT_DOT_BACKSLASH) {
      var i :| 0 <= i <= |path| - 3 && MatchesAt(path, i, DOT_DOT_BACKSLASH);
      assert path[i..i + 2] == path[i..i + 3][..2];
      assert MatchesAt(path, i, "..");
    } else {
      var i :| 0 <= i <= |path| - 3 && MatchesAt(path, i, BACKSLASH_DOT_DOT);
      assert path[i + 1..i + 3] == path[i..i + 3][1..];
      assert MatchesAt(path, i + 1, "..");
    }
  }

  /** The pure checks, then canonical resolution; a path that cannot be resolved is
      accepted as a creation target when its parent directory exists. */
  function ValidateFilePath(path: string, target: Platform, fs: FileSystem): (r: Checked<string>)
    ensures |path| == 0 || '\0' in path ==> r == Err(InvalidFilePath(path))
    ensures |path| > 0 && '\0' !in path && (Contains(path, "..") || '~' in path) ==>
      r == Err(PathTraversalAttempt(path))
    ensures r.Ok? <==>
      && FilePathPreCheck(path, target).Pass?
      && (fs.canonicalize(path).Some? ==> !Contains(fs.canonicalize(path).value, ".."))
      && (fs.canonicalize(path).None? ==> fs.parent(path).Some? && fs.pathExists(fs.parent(path).value))
    ensures r.Ok? ==> !Contains(r.value, "..")
    ensures r.Ok? ==> fs.canonicalize(path) == Some(r.value) || (fs.canonicalize(path).None? && r.value == path)
    ensures FilePathPreCheck(path, target).Pass? && r.Err? && fs.canonicalize(path).Some? ==>
      r.error == PathTraversalAttempt(path)
    ensures FilePathPreCheck(path, target).Pass? && r.Err? && fs.canonicalize(path).None? ==>
      r.error == InvalidFilePath(path)
  {
    var pre := FilePathPreCheck(path, target);
    if pre.Fail? then Err(pre.error)
    else
      match fs.canonicalize(path)
      case Some(canonical) =>
        if Contains(canonical, "..") then Err(PathTraversalAttempt(path)) else Ok(canonical)
      case None =>
        match fs.parent(path)
        case Some(parent) => if fs.pathExists(parent) then Ok(path) else Err(InvalidFilePath(path))
        case None => Err(InvalidFilePath(path))
  }

  /** Rejections by the pure checks do not depend on the file system at all. */
  lemma FilePathPreChecksIgnoreFileSystem(path: string, target: Platform, fs1: FileSystem, fs2: FileSystem)
    requires FilePathPreCheck(path, target).Fail?
    ensures ValidateFilePath(path, target, fs1) == ValidateFilePath(path, target, fs2)
    ensures ValidateFilePath(path, target, fs1).Err?
  {
  }

  // ---------------------------------------------------------------------------
  // URL validator
  // ---------------------------------------------------------------------------

  /** What the validator reads from a parsed URL: its scheme and its optional host. */
  datatype ParsedUrl = ParsedUrl(scheme: string, host: Option<string>)

  /** Empty check, then parsing, then the scheme, then the host, then the SQL detector.
      The URL parser is a parameter: `None` stands for a parse failure. */
  function ValidateApiUrl(url: string, parse: string -> Option<ParsedUrl>): (r: Checked<string>)
    ensures r.Ok? <==>
      && |url| > 0
      && parse(url).Some? && parse(url).value.scheme == "https" && parse(url).value.host.Some?
      && !MatchesSqlPattern(url)
    ensures r.Ok? ==> r.value == url
    ensures r == Err(InsecureUrl(url)) <==> |url| > 0 && parse(url).Some? && parse(url).value.scheme != "https"
    ensures r == Err(SqlInjectionAttempt(url)) <==>
      |url| > 0 && parse(url).Some? && parse(url).value.scheme == "https" && parse(url).value.host.Some?
      && MatchesSqlPattern(url)
    ensures r.Err? && r.error != InsecureUrl(url) && r.error != SqlInjectionAttempt(url) ==> r.error == InvalidUrl(url)
  {
    if |url| == 0 then Err(InvalidUrl(url))
    else
      match parse(url)
      case None => Err(InvalidUrl(url))
      case Some(parsed) =>
        if parsed.scheme != "https" then Err(InsecureUrl(url))
        else if parsed.host.None? then Err(InvalidUrl(url))
        else if MatchesSqlPattern(url) then Err(SqlInjectionAttempt(url))
        else Ok(url)
  }
}
