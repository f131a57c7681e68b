/** Properties of the metadata validator: what it keeps, what it changes, and how far
    down it looks. */
module MetadataFacts {
  import opened Results
  import opened Text
  import opened Patterns
  import opened Validation
  import opened Metadata
  import opened ValidationFacts

  /** Every key of an accepted object is a valid field name. */
  lemma AcceptedKeysAreFieldNames(metadata: Json)
    requires metadata.Object? && ValidateMetadataJson(metadata).Ok?
    ensures forall i :: 0 <= i < |metadata.members| ==>
      && MatchesFieldNameShape(metadata.members[i].key)
      && !MatchesSqlPattern(metadata.members[i].key)
      && !MatchesScriptPattern(metadata.members[i].key)
  {
    forall i | 0 <= i < |metadata.members|
      ensures MatchesFieldNameShape(metadata.members[i].key)
    {
      assert MemberPasses(metadata.members[i]);
    }
  }

  /** Every top-level string value of an accepted object is replaced by its escape, which
      holds no NUL or SUB and, doubling collapsed, gives back the input without its NUL and
      SUB characters. */
  lemma AcceptedStringsAreSanitised(metadata: Json, i: nat)
    requires metadata.Object? && ValidateMetadataJson(metadata).Ok?
    requires i < |metadata.members| && metadata.members[i].value.Str?
    ensures var out := ValidateMetadataJson(metadata).value.members[i].value;
      && out.Str?
      && out.s == Escape(metadata.members[i].value.s)
      && '\0' !in out.s && SUB !in out.s
      && Unescape(out.s) == StripNulSub(metadata.members[i].value.s)
  {
    var validated := ValidateMembers(metadata.members);
    assert MemberPasses(metadata.members[i]);
    assert validated.value[i].value == ValidateValue(metadata.members[i].value).value;
    var s := metadata.members[i].value.s;
    assert ValidateFieldValue(s).Ok?;
    AcceptedValueIsEscaped(s);
  }

  /** The validator looks one level down only: a nested object is copied whatever it
      holds. */
  lemma NestedObjectsCopied(metadata: Json, i: nat)
    requires metadata.Object? && ValidateMetadataJson(metadata).Ok?
    requires i < |metadata.members| && metadata.members[i].value.Object?
    ensures ValidateMetadataJson(metadata).value.members[i].value == metadata.members[i].value
  {
    assert MemberPasses(metadata.members[i]);
  }

  /** A value the sanitiser leaves alone: a string with nothing to escape, an array whose
      strings have nothing to escape, or any other value. */
  predicate PlainValue(v: Json) {
    && (v.Str? ==> NeedsNoEscaping(v.s))
    && (v.Array? ==> forall i :: 0 <= i < |v.items| ==> v.items[i].Str? ==> NeedsNoEscaping(v.items[i].s))
  }

  lemma PlainValueKept(v: Json)
    requires PlainValue(v) && ValidateValue(v).Ok?
    ensures ValidateValue(v) == Ok(v)
  {
    if v.Array? {
      var out := ValidateValue(v).value;
      assert out.items == v.items by {
        forall i | 0 <= i < |v.items|
          ensures out.items[i] == v.items[i]
        {
          assert ItemPasses(v.items[i]);
        }
      }
    }
  }

  /** An accepted object whose values need no escaping comes back unchanged. */
  lemma PlainMetadataUnchanged(metadata: Json)
    requires metadata.Object? && ValidateMetadataJson(metadata).Ok?
    requires forall i :: 0 <= i < |metadata.members| ==> PlainValue(metadata.members[i].value)
    ensures ValidateMetadataJson(metadata) == Ok(metadata)
  {
    var members := metadata.members;
    var out := ValidateMembers(members).value;
    forall i | 0 <= i < |members|
      ensures out[i] == members[i]
    {
      assert MemberPasses(members[i]);
      PlainValueKept(members[i].value);
    }
    assert out == members;
  }

  // ---------------------------------------------------------------------------
  // Which error is reported
  // ---------------------------------------------------------------------------

  /** The first failing member decides the error; later members are never looked at. */
  lemma FirstFailingMemberReported(metadata: Json, i: nat)
    requires metadata.Object? && i < |metadata.members|
    requires forall j :: 0 <= j < i ==> MemberPasses(metadata.members[j])
    requires !MemberPasses(metadata.members[i])
    ensures ValidateMetadataJson(metadata) == Err(MemberError(metadata.members[i]))
  {
    var members := metadata.members;
    var r := ValidateMembers(members);
    assert r.Err?;
    var k :| 0 <= k < |members| && (forall j :: 0 <= j < k ==> MemberPasses(members[j]))
      && !MemberPasses(members[k]) && r.error == MemberError(members[k]);
  }

  /** A key the SQL detector flags, after members that pass, is reported as SQL injection
      whatever its value holds. */
  lemma SqlKeyReported(metadata: Json, i: nat)
    requires metadata.Object? && i < |metadata.members|
    requires forall j :: 0 <= j < i ==> MemberPasses(metadata.members[j])
    requires 1 <= |metadata.members[i].key| <= 128 && MatchesSqlPattern(metadata.members[i].key)
    ensures ValidateMetadataJson(metadata) == Err(SqlInjectionAttempt(metadata.members[i].key))
  {
    FirstFailingMemberReported(metadata, i);
  }

  /** A string value the script detector flags, under a valid key and after members that
      pass, is reported as script injection. */
  lemma ScriptValueReported(metadata: Json, i: nat)
    requires metadata.Object? && i < |metadata.members|
    requires forall j :: 0 <= j < i ==> MemberPasses(metadata.members[j])
    requires ValidateFieldName(metadata.members[i].key).Ok?
    requires metadata.members[i].value.Str?
    requires |metadata.members[i].value.s| <= MAX_FIELD_VALUE_LENGTH && MatchesScriptPattern(metadata.members[i].value.s)
    ensures ValidateMetadataJson(metadata) == Err(ScriptInjectionAttempt(metadata.members[i].value.s))
  {
    FirstFailingMemberReported(metadata, i);
  }

  /** An object whose members all pass and need no escaping is accepted unchanged. */
  lemma PassingPlainObjectAccepted(members: seq<Member>)
    requires forall i :: 0 <= i < |members| ==> MemberPasses(members[i]) && PlainValue(members[i].value)
    ensures ValidateMetadataJson(Object(members)) == Ok(Object(members))
  {
    PlainMetadataUnchanged(Object(members));
  }
}
