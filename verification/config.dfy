/** Start-up configuration: the four required environment variables, read in a fixed
    order and then screened for placeholder values.

    The process environment is a parameter: a map from variable name to value, in which
    an absent name is an unset variable. */
module Config {
  import opened Results
  import opened Text

  /** Why a value was refused: it is one of the known placeholders once normalised, or
      its normal form contains a placeholder marker. */
  datatype PlaceholderKind = KnownPlaceholder | ContainsMarker

  /** The two failures of the configuration loader. An invalid value records the variable
      and the raw value that its message names. */
  datatype ConfigError =
    | MissingEnvVar(name: string)
    | InvalidValue(varName: string, value: string, kind: PlaceholderKind)

  datatype Config = Config(apiAddress: string, repository: string, username: string, password: string)

  type Environment = map<string, string>

  /** The required variables, in the order they are read and then screened. */
  const REQUIRED_VARIABLES: seq<string> := ["LF_API_ADDRESS", "LF_REPOSITORY", "LF_USERNAME", "LF_PASSWORD"]

  /** Values refused when the whole normalised value equals one of them. */
  const PLACEHOLDER_VALUES: seq<string> := [
    "your-server.laserfiche.com", "your-repository", "username", "password",
    "placeholder", "default", "example", "test", ""]

  /** Values refused when the normalised value contains one of them anywhere. */
  const PLACEHOLDER_MARKERS: seq<string> := ["your-", "example", "placeholder"]

  /** Surrounding whitespace removed, then lower-cased. */
  function Normalize(value: string): string {
    Lower(Trim(value))
  }

  predicate IsKnownPlaceholder(normalized: string) {
    exists k | 0 <= k < |PLACEHOLDER_VALUES| :: normalized == PLACEHOLDER_VALUES[k]
  }

  predicate HasPlaceholderMarker(normalized: string) {
    exists k | 0 <= k < |PLACEHOLDER_MARKERS| :: Contains(normalized, PLACEHOLDER_MARKERS[k])
  }

  /** The placeholder screen for one variable: the exact comparison first, then the
      markers. */
  function ValidateNotPlaceholder(value: string, varName: string): (r: Outcome<ConfigError>)
    ensures r.Pass? <==> !IsKnownPlaceholder(Normalize(value)) && !HasPlaceholderMarker(Normalize(value))
    ensures IsKnownPlaceholder(Normalize(value)) ==> r == Fail(InvalidValue(varName, value, KnownPlaceholder))
    ensures !IsKnownPlaceholder(Normalize(value)) && HasPlaceholderMarker(Normalize(value)) ==>
      r == Fail(InvalidValue(varName, value, ContainsMarker))
  {
    var normalized := Normalize(value);
    if exists k | 0 <= k < |PLACEHOLDER_VALUES| :: normalized == PLACEHOLDER_VALUES[k] then
      Fail(InvalidValue(varName, value, KnownPlaceholder))
    else
      MarkersSpelledOut(normalized);
      if Contains(normalized, "your-") || Contains(normalized, "example") || Contains(normalized, "placeholder") then
        Fail(InvalidValue(varName, value, ContainsMarker))
      else
        Pass
  }

  /** The marker list, written out as the three searches the screen makes. */
  lemma MarkersSpelledOut(normalized: string)
    ensures HasPlaceholderMarker(normalized) <==>
      Contains(normalized, "your-") || Contains(normalized, "example") || Contains(normalized, "placeholder")
  {
    assert PLACEHOLDER_MARKERS[0] == "your-" && PLACEHOLDER_MARKERS[1] == "example";
    assert PLACEHOLDER_MARKERS[2] == "placeholder";
  }

  /** `env::var`: the value when the variable is set, otherwise a missing-variable error. */
  function Lookup(env: Environment, name: string): Result<string, ConfigError>
  {
    if name in env then Ok(env[name]) else Err(MissingEnvVar(name))
  }

  /** The first of `names` that is unset, if any. */
  function FirstUnset(env: Environment, names: seq<string>): (r: Option<string>)
    ensures r.None? <==> forall k :: 0 <= k < |names| ==> names[k] in env
    ensures r.Some? ==> (
      exists k :: 0 <= k < |names| && names[k] == r.value && names[k] !in env
        && forall j :: 0 <= j < k ==> names[j] in env)
    decreases |names|
  {
    if |names| == 0 then None
    else if names[0] !in env then Some(names[0])
    else
      var rest := FirstUnset(env, names[1..]);
      if rest.Some? then
        assert exists k :: (0 <= k < |names| && names[k] == rest.value && names[k] !in env
            && forall j :: 0 <= j < k ==> names[j] in env) by {
          var k :| 0 <= k < |names[1..]| && names[1..][k] == rest.value && names[1..][k] !in env
            && forall j :: 0 <= j < k ==> names[1..][j] in env;
          assert names[k + 1] == rest.value;
        }
        rest
      else rest
  }

  /** The first failure among a sequence of checks, if any. */
  function FirstFailure(checks: seq<Outcome<ConfigError>>): (r: Option<ConfigError>)
    ensures r.None? <==> forall k :: 0 <= k < |checks| ==> checks[k].Pass?
    ensures r.Some? ==> (
      exists k :: 0 <= k < |checks| && checks[k] == Fail(r.value)
        && forall j :: 0 <= j < k ==> checks[j].Pass?)
    decreases |checks|
  {
    if |checks| == 0 then None
    else if checks[0].Fail? then Some(checks[0].error)
    else
      var rest := FirstFailure(checks[1..]);
      if rest.Some? then
        assert exists k :: (0 <= k < |checks| && checks[k] == Fail(rest.value)
            && forall j :: 0 <= j < k ==> checks[j].Pass?) by {
          var k :| 0 <= k < |checks[1..]| && checks[1..][k] == Fail(rest.value)
            && forall j :: 0 <= j < k ==> checks[1..][j].Pass?;
          assert checks[k + 1] == checks[1..][k];
        }
        rest
      else rest
  }

  /** The placeholder screens of the four variables, in order. */
  function Screens(env: Environment): seq<Outcome<ConfigError>>
    requires forall k :: 0 <= k < |REQUIRED_VARIABLES| ==> REQUIRED_VARIABLES[k] in env
  {
    seq(|REQUIRED_VARIABLES|, k requires 0 <= k < |REQUIRED_VARIABLES| =>
      ValidateNotPlaceholder(env[REQUIRED_VARIABLES[k]], REQUIRED_VARIABLES[k]))
  }

  /** All four variables are read before any is screened: the first unset one is
      reported, otherwise the first placeholder. The accepted values are kept as read,
      untrimmed. */
  function FromEnv(env: Environment): (r: Result<Config, ConfigError>)
    ensures FirstUnset(env, REQUIRED_VARIABLES).Some? ==>
      r == Err(MissingEnvVar(FirstUnset(env, REQUIRED_VARIABLES).value))
    ensures FirstUnset(env, REQUIRED_VARIABLES).None? && FirstFailure(Screens(env)).Some? ==>
      r == Err(FirstFailure(Screens(env)).value)
    ensures r.Ok? <==> FirstUnset(env, REQUIRED_VARIABLES).None? && FirstFailure(Screens(env)).None?
    ensures r.Ok? ==> r.value == Config(env["LF_API_ADDRESS"], env["LF_REPOSITORY"], env["LF_USERNAME"], env["LF_PASSWORD"])
  {
    var apiAddress :- Lookup(env, "LF_API_ADDRESS");
    var repository :- Lookup(env, "LF_REPOSITORY");
    var username :- Lookup(env, "LF_USERNAME");
    var password :- Lookup(env, "LF_PASSWORD");
    ScreensInOrder(env);
    :- ValidateNotPlaceholder(apiAddress, "LF_API_ADDRESS");
    :- ValidateNotPlaceholder(repository, "LF_REPOSITORY");
    :- ValidateNotPlaceholder(username, "LF_USERNAME");
    :- ValidateNotPlaceholder(password, "LF_PASSWORD");
    Ok(Config(apiAddress, repository, username, password))
  }

  /** The screens line up with the required variables, one per variable. */
  lemma ScreensAt(env: Environment, k: nat)
    requires forall j :: 0 <= j < |REQUIRED_VARIABLES| ==> REQUIRED_VARIABLES[j] in env
    requires k < |REQUIRED_VARIABLES|
    ensures |Screens(env)| == |REQUIRED_VARIABLES|
    ensures Screens(env)[k] == ValidateNotPlaceholder(env[REQUIRED_VARIABLES[k]], REQUIRED_VARIABLES[k])
  {
  }

  /** Every screen, at once. */
  lemma ScreensMatch(env: Environment)
    requires forall j :: 0 <= j < |REQUIRED_VARIABLES| ==> REQUIRED_VARIABLES[j] in env
    ensures |Screens(env)| == |REQUIRED_VARIABLES|
    ensures forall k :: 0 <= k < |REQUIRED_VARIABLES| ==>
      Screens(env)[k] == ValidateNotPlaceholder(env[REQUIRED_VARIABLES[k]], REQUIRED_VARIABLES[k])
  {
  }

  /** A refused value is always reported as an invalid value of its variable. */
  lemma RefusalIsInvalidValue(value: string, varName: string)
    requires ValidateNotPlaceholder(value, varName).Fail?
    ensures ValidateNotPlaceholder(value, varName).error.InvalidValue?
    ensures ValidateNotPlaceholder(value, varName).error.varName == varName
  {
  }

  /** A failed screen reports an invalid value. */
  lemma ScreenFailureIsInvalidValue(env: Environment, j: nat)
    requires forall n :: 0 <= n < |REQUIRED_VARIABLES| ==> REQUIRED_VARIABLES[n] in env
    requires j < |Screens(env)| && Screens(env)[j].Fail?
    ensures Screens(env)[j].error.InvalidValue?
  {
    ScreensAt(env, j);
    RefusalIsInvalidValue(env[REQUIRED_VARIABLES[j]], REQUIRED_VARIABLES[j]);
  }

  /** Unfolds the first failure of the four screens. */
  lemma ScreensInOrder(env: Environment)
    requires forall k :: 0 <= k < |REQUIRED_VARIABLES| ==> REQUIRED_VARIABLES[k] in env
    ensures var c := Screens(env);
      FirstFailure(c) ==
        if c[0].Fail? then Some(c[0].error)
        else if c[1].Fail? then Some(c[1].error)
        else if c[2].Fail? then Some(c[2].error)
        else if c[3].Fail? then Some(c[3].error)
        else None
  {
    var c := Screens(env);
    assert FirstFailure(c[3..]) == if c[3].Fail? then Some(c[3].error) else None by {
      assert c[3..][0] == c[3] && c[3..][1..] == [];
    }
    assert FirstFailure(c[2..]) == if c[2].Fail? then Some(c[2].error) else FirstFailure(c[3..]) by {
      assert c[2..][0] == c[2] && c[2..][1..] == c[3..];
    }
    assert FirstFailure(c[1..]) == if c[1].Fail? then Some(c[1].error) else FirstFailure(c[2..]) by {
      assert c[1..][0] == c[1] && c[1..][1..] == c[2..];
    }
  }
}
