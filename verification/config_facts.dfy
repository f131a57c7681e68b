/** Properties of the configuration loader: which failure is reported when several
    apply, what the placeholder screen can and cannot see, and the loader's own test
    scenarios. */
module ConfigFacts {
  import opened Results
  import opened Text
  import opened Config

  // ---------------------------------------------------------------------------
  // Order of the reported failure
  // ---------------------------------------------------------------------------

  /** `FirstUnset` reports the earliest unset name and no other. */
  lemma {:induction false} FirstUnsetIsFirst(env: Environment, names: seq<string>, k: nat)
    requires k < |names| && names[k] !in env
    requires forall j :: 0 <= j < k ==> names[j] in env
    ensures FirstUnset(env, names) == Some(names[k])
    decreases k
  {
    if k > 0 {
      assert names[0] in env;
      FirstUnsetIsFirst(env, names[1..], k - 1);
    }
  }

  /** `FirstFailure` reports the earliest failing check and no other. */
  lemma {:induction false} FirstFailureIsFirst(checks: seq<Outcome<ConfigError>>, k: nat)
    requires k < |checks| && checks[k].Fail?
    requires forall j :: 0 <= j < k ==> checks[j].Pass?
    ensures FirstFailure(checks) == Some(checks[k].error)
    decreases k
  {
    if k > 0 {
      assert checks[0].Pass?;
      FirstFailureIsFirst(checks[1..], k - 1);
    }
  }

  /** The first unset required variable is the one reported, whatever the other values
      are: a missing variable is reported before any placeholder. */
  lemma FirstMissingVariableReported(env: Environment, k: nat)
    requires k < |REQUIRED_VARIABLES| && REQUIRED_VARIABLES[k] !in env
    requires forall j :: 0 <= j < k ==> REQUIRED_VARIABLES[j] in env
    ensures FromEnv(env) == Err(MissingEnvVar(REQUIRED_VARIABLES[k]))
  {
    FirstUnsetIsFirst(env, REQUIRED_VARIABLES, k);
  }

  /** With no variable set, the API address is the one reported. */
  lemma UnsetAddressReported(env: Environment)
    requires "LF_API_ADDRESS" !in env
    ensures FromEnv(env) == Err(MissingEnvVar("LF_API_ADDRESS"))
  {
    FirstMissingVariableReported(env, 0);
  }

  /** When every variable is set, the first refused value, in the order address,
      repository, user name, password, is the one reported. */
  lemma FirstRefusedValueReported(env: Environment, k: nat)
    requires forall j :: 0 <= j < |REQUIRED_VARIABLES| ==> REQUIRED_VARIABLES[j] in env
    requires k < |REQUIRED_VARIABLES|
    requires ValidateNotPlaceholder(env[REQUIRED_VARIABLES[k]], REQUIRED_VARIABLES[k]).Fail?
    requires forall j :: 0 <= j < k ==> ValidateNotPlaceholder(env[REQUIRED_VARIABLES[j]], REQUIRED_VARIABLES[j]).Pass?
    ensures FromEnv(env) == Err(InvalidValue(REQUIRED_VARIABLES[k], env[REQUIRED_VARIABLES[k]],
      ValidateNotPlaceholder(env[REQUIRED_VARIABLES[k]], REQUIRED_VARIABLES[k]).error.kind))
  {
    ScreensMatch(env);
    FirstFailureIsFirst(Screens(env), k);
  }

  /** Searches upwards from `i` for the first failing check; one fails at `k`. */
  function FirstFailingFrom(checks: seq<Outcome<ConfigError>>, i: nat, k: nat): (j: nat)
    requires i <= k < |checks| && checks[k].Fail?
    requires forall n :: 0 <= n < i ==> checks[n].Pass?
    ensures i <= j <= k && checks[j].Fail?
    ensures forall n :: 0 <= n < j ==> checks[n].Pass?
    decreases k - i
  {
    if checks[i].Fail? then i else FirstFailingFrom(checks, i + 1, k)
  }

  /** Any refused value makes loading fail with an invalid-value error, wherever it is. */
  lemma RefusedValueFailsLoad(env: Environment, k: nat)
    requires forall j :: 0 <= j < |REQUIRED_VARIABLES| ==> REQUIRED_VARIABLES[j] in env
    requires k < |REQUIRED_VARIABLES|
    requires ValidateNotPlaceholder(env[REQUIRED_VARIABLES[k]], REQUIRED_VARIABLES[k]).Fail?
    ensures FromEnv(env).Err? && FromEnv(env).error.InvalidValue?
  {
    var c := Screens(env);
    ScreensAt(env, k);
    var j := FirstFailingFrom(c, 0, k);
    FirstFailureIsFirst(c, j);
    ScreenFailureIsInvalidValue(env, j);
  }

  // ---------------------------------------------------------------------------
  // What the placeholder screen sees
  // ---------------------------------------------------------------------------

  /** The screen's verdict depends only on the normal form of the value. */
  lemma ScreenDependsOnNormalForm(a: string, b: string, name: string)
    requires Normalize(a) == Normalize(b)
    ensures ValidateNotPlaceholder(a, name).Pass? == ValidateNotPlaceholder(b, name).Pass?
    ensures ValidateNotPlaceholder(a, name).Fail? ==>
      ValidateNotPlaceholder(a, name).error.kind == ValidateNotPlaceholder(b, name).error.kind
  {
  }

  /** Surrounding whitespace and letter case do not change the verdict: an upper-case
      or padded placeholder is refused like the plain one. */
  lemma ScreenIgnoresCaseAndPadding(pre: string, value: string, post: string, name: string)
    requires AllWhitespace(pre) && AllWhitespace(post)
    ensures Normalize(pre + Upper(value) + post) == Normalize(value)
    ensures ValidateNotPlaceholder(pre + Upper(value) + post, name).Pass? == ValidateNotPlaceholder(value, name).Pass?
  {
    TrimLowerIgnoresCaseAndPadding(pre, value, post);
    ScreenDependsOnNormalForm(pre + Upper(value) + post, value, name);
  }

  /** An empty or all-whitespace value counts as the empty placeholder. */
  lemma BlankValueRefused(value: string, name: string)
    requires AllWhitespace(value)
    ensures ValidateNotPlaceholder(value, name) == Fail(InvalidValue(name, value, KnownPlaceholder))
  {
    TrimStartAllWhitespace(value);
    assert Normalize(value) == PLACEHOLDER_VALUES[8];
  }

  /** A value already in normal form: no padding and no capital letter. */
  lemma NormalFormFixed(s: string)
    requires |s| > 0 ==> !IsWhitespace(s[0]) && !IsWhitespace(s[|s| - 1])
    requires forall i :: 0 <= i < |s| ==> !IsUpper(s[i])
    ensures Normalize(s) == s
  {
    LowerOfLowerCase(s);
  }

  /** Each listed placeholder is refused as such, in any case and with any padding. */
  lemma KnownPlaceholderRefused(k: nat, pre: string, post: string, name: string)
    requires k < |PLACEHOLDER_VALUES|
    requires AllWhitespace(pre) && AllWhitespace(post)
    ensures var value := pre + Upper(PLACEHOLDER_VALUES[k]) + post;
      ValidateNotPlaceholder(value, name) == Fail(InvalidValue(name, value, KnownPlaceholder))
  {
    NormalFormFixed(PLACEHOLDER_VALUES[k]);
    ScreenIgnoresCaseAndPadding(pre, PLACEHOLDER_VALUES[k], post, name);
  }

  // ---------------------------------------------------------------------------
  // Scenarios from the loader's tests
  // ---------------------------------------------------------------------------

  /** "test" is refused only as a whole value; a longer word that starts with it and
      holds no marker is kept. */
  lemma TestRefusedOnlyAsWholeValue(name: string)
    ensures ValidateNotPlaceholder("test", name) == Fail(InvalidValue(name, "test", KnownPlaceholder))
    ensures ValidateNotPlaceholder("testing", name) == Pass
  {
    TestIsKnownPlaceholder();
    TestingIsNormal();
    TestingIsNoPlaceholder();
    PlainValuePasses("testing", name);
  }

  lemma TestIsKnownPlaceholder()
    ensures Normalize("test") == "test" && IsKnownPlaceholder("test")
  {
    TestIsNormal();
    TestIsListed();
  }

  lemma TestIsNormal()
    ensures Normalize("test") == "test"
  {
    NormalFormFixed("test");
  }

  lemma TestIsListed()
    ensures IsKnownPlaceholder("test")
  {
    assert "test" == PLACEHOLDER_VALUES[7];
  }

  lemma TestingIsNormal()
    ensures Normalize("testing") == "testing"
  {
    NormalFormFixed("testing");
  }

  lemma TestingIsNoPlaceholder()
    ensures !IsKnownPlaceholder("testing") && !HasPlaceholderMarker("testing")
  {
    NotContainsWithoutChar("testing", "your-", 0);
    NotContainsWithoutChar("testing", "example", 1);
    NotContainsWithoutChar("testing", "placeholder", 0);
  }

  /** A marker anywhere in the value is enough. */
  lemma MarkerInsideValueRefused(name: string)
    ensures ValidateNotPlaceholder("placeholder-repo", name) == Fail(InvalidValue(name, "placeholder-repo", ContainsMarker))
  {
    MarkedValueIsNormal();
    MarkedValueIsUnlisted();
    MarkedValueHasMarker();
  }

  lemma MarkedValueIsNormal()
    ensures Normalize("placeholder-repo") == "placeholder-repo"
  {
    NormalFormFixed("placeholder-repo");
  }

  lemma MarkedValueIsUnlisted()
    ensures !IsKnownPlaceholder("placeholder-repo")
  {
  }

  lemma MarkedValueHasMarker()
    ensures HasPlaceholderMarker("placeholder-repo")
  {
    assert MatchesAt("placeholder-repo", 0, PLACEHOLDER_MARKERS[2]);
  }

  /** A value in normal form that is no placeholder and holds no marker passes. */
  lemma PlainValuePasses(value: string, name: string)
    requires Normalize(value) == value
    requires !IsKnownPlaceholder(value) && !HasPlaceholderMarker(value)
    ensures ValidateNotPlaceholder(value, name) == Pass
  {
  }

  lemma AddressExampleIsNormal()
    ensures Normalize("api.laserfiche.com") == "api.laserfiche.com"
  {
    NormalFormFixed("api.laserfiche.com");
  }

  lemma AddressExampleIsNoPlaceholder()
    ensures !IsKnownPlaceholder("api.laserfiche.com") && !HasPlaceholderMarker("api.laserfiche.com")
  {
    NotContainsWithoutChar("api.laserfiche.com", "your-", 0);
    NotContainsWithoutChar("api.laserfiche.com", "example", 1);
    NotContainsWithoutChar("api.laserfiche.com", "placeholder", 8);
  }

  lemma RepositoryExampleIsNormal()
    ensures Normalize("production-repo") == "production-repo"
  {
    NormalFormFixed("production-repo");
  }

  lemma RepositoryExampleIsNoPlaceholder()
    ensures !IsKnownPlaceholder("production-repo") && !HasPlaceholderMarker("production-repo")
  {
    NotContainsWithoutChar("production-repo", "your-", 0);
    NotContainsWithoutChar("production-repo", "example", 1);
    NotContainsWithoutChar("production-repo", "placeholder", 2);
  }

  lemma UserExampleIsNormal()
    ensures Normalize("john.doe") == "john.doe"
  {
    NormalFormFixed("john.doe");
  }

  lemma UserExampleIsNoPlaceholder()
    ensures !IsKnownPlaceholder("john.doe") && !HasPlaceholderMarker("john.doe")
  {
    NotContainsWithoutChar("john.doe", "your-", 0);
    NotContainsWithoutChar("john.doe", "example", 1);
    NotContainsWithoutChar("john.doe", "placeholder", 0);
  }

  lemma PasswordExampleIsNormal()
    ensures Normalize("secure123!") == "secure123!"
  {
    NormalFormFixed("secure123!");
  }

  lemma PasswordExampleIsNoPlaceholder()
    ensures !IsKnownPlaceholder("secure123!") && !HasPlaceholderMarker("secure123!")
  {
    NotContainsWithoutChar("secure123!", "your-", 0);
    NotContainsWithoutChar("secure123!", "example", 1);
    NotContainsWithoutChar("secure123!", "placeholder", 0);
  }

  /** The accepted configuration of the loader's tests keeps the four values as given. */
  lemma ValidConfigurationLoaded()
    ensures FromEnv(map["LF_API_ADDRESS" := "api.laserfiche.com", "LF_REPOSITORY" := "production-repo",
      "LF_USERNAME" := "john.doe", "LF_PASSWORD" := "secure123!"])
      == Ok(Config("api.laserfiche.com", "production-repo", "john.doe", "secure123!"))
  {
    var env := map["LF_API_ADDRESS" := "api.laserfiche.com", "LF_REPOSITORY" := "production-repo",
      "LF_USERNAME" := "john.doe", "LF_PASSWORD" := "secure123!"];
    assert env["LF_API_ADDRESS"] == "api.laserfiche.com" && env["LF_REPOSITORY"] == "production-repo";
    assert env["LF_USERNAME"] == "john.doe" && env["LF_PASSWORD"] == "secure123!";
    AddressExampleIsNormal();
    AddressExampleIsNoPlaceholder();
    PlainValuePasses("api.laserfiche.com", "LF_API_ADDRESS");
    RepositoryExampleIsNormal();
    RepositoryExampleIsNoPlaceholder();
    PlainValuePasses("production-repo", "LF_REPOSITORY");
    UserExampleIsNormal();
    UserExampleIsNoPlaceholder();
    PlainValuePasses("john.doe", "LF_USERNAME");
    PasswordExampleIsNormal();
    PasswordExampleIsNoPlaceholder();
    PlainValuePasses("secure123!", "LF_PASSWORD");
  }
}
