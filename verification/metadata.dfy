/** The metadata validator: a JSON object's field names and string values are validated
    one level deep, and the validated copy replaces the input. */
module Metadata {
  import opened Results
  import opened Text
  import opened Validation

  /** A JSON value. Numbers are copied unchanged by the validator, so their
      representation does not matter here. */
  datatype Json =
    | Null
    | Bool(b: bool)
    | Number(n: int)
    | Str(s: string)
    | Array(items: seq<Json>)
    | Object(members: seq<Member>)

  /** One member of a JSON object, in the order the object's map iterates them. */
  datatype Member = Member(key: string, value: Json)

  // ---------------------------------------------------------------------------
  // Array items
  // ---------------------------------------------------------------------------

  /** An array item passes when it is not a string or it is a valid field value. */
  predicate ItemPasses(item: Json) {
    item.Str? ==> ValidateFieldValue(item.s).Ok?
  }

  /** What the validator puts in place of a passing item: strings sanitised, every other
      item (nested arrays and objects included) copied. */
  function ValidatedItem(item: Json): Json
    requires ItemPasses(item)
  {
    if item.Str? then Str(ValidateFieldValue(item.s).value) else item
  }

  /** The loop over an array's items: the first string that fails stops it. */
  function ValidateItems(items: seq<Json>): (r: Checked<seq<Json>>)
    ensures r.Ok? <==> forall i :: 0 <= i < |items| ==> ItemPasses(items[i])
    ensures r.Ok? ==> (
      && |r.value| == |items|
      && forall i :: 0 <= i < |items| ==> ItemPasses(items[i]) && r.value[i] == ValidatedItem(items[i]))
    ensures r.Err? ==> (
      exists i :: 0 <= i < |items| && items[i].Str?
        && (forall j :: 0 <= j < i ==> ItemPasses(items[j]))
        && ValidateFieldValue(items[i].s) == Err(r.error))
    decreases |items|
  {
    if |items| == 0 then Ok([])
    else
      var first :- if items[0].Str? then
          (var s :- ValidateFieldValue(items[0].s); Ok(Str(s)))
        else Ok(items[0]);
      var rest :- ValidateItems(items[1..]);
      Ok([first] + rest)
  }

  // ---------------------------------------------------------------------------
  // Member values and members
  // ---------------------------------------------------------------------------

  /** The value of a member: a string is validated, an array has its items validated,
      anything else is copied. */
  function ValidateValue(value: Json): (r: Checked<Json>)
    ensures !value.Str? && !value.Array? ==> r == Ok(value)
    ensures value.Str? ==> (r.Ok? <==> ValidateFieldValue(value.s).Ok?)
    ensures value.Str? && r.Ok? ==> r.value == Str(ValidateFieldValue(value.s).value)
    ensures value.Str? && r.Err? ==> ValidateFieldValue(value.s) == Err(r.error)
    ensures value.Array? ==> (r.Ok? <==> forall i :: 0 <= i < |value.items| ==> ItemPasses(value.items[i]))
    ensures value.Array? && r.Ok? ==> (
      && r.value.Array? && |r.value.items| == |value.items|
      && forall i :: 0 <= i < |value.items| ==>
           ItemPasses(value.items[i]) && r.value.items[i] == ValidatedItem(value.items[i]))
  {
    match value
    case Str(s) =>
      var v :- ValidateFieldValue(s);
      Ok(Str(v))
    case Array(items) =>
      var validated :- ValidateItems(items);
      Ok(Array(validated))
    case _ => Ok(value)
  }

  /** A member passes when its key is a valid field name and its value passes. */
  predicate MemberPasses(m: Member) {
    ValidateFieldName(m.key).Ok? && ValidateValue(m.value).Ok?
  }

  /** The error a failing member is reported with: its key's error if the key fails,
      otherwise its value's. */
  function MemberError(m: Member): ErrorKind
    requires !MemberPasses(m)
  {
    if ValidateFieldName(m.key).Err? then ValidateFieldName(m.key).error
    else ValidateValue(m.value).error
  }

  /** The loop over an object's members: key first, then value; the first failure stops
      the loop, and a passing member is copied under its unchanged key. */
  function ValidateMembers(members: seq<Member>): (r: Checked<seq<Member>>)
    ensures r.Ok? <==> forall i :: 0 <= i < |members| ==> MemberPasses(members[i])
    ensures r.Ok? ==> (
      && |r.value| == |members|
      && forall i :: 0 <= i < |members| ==>
           && MemberPasses(members[i])
           && r.value[i] == Member(members[i].key, ValidateValue(members[i].value).value))
    ensures r.Err? ==> (
      exists i :: 0 <= i < |members|
        && (forall j :: 0 <= j < i ==> MemberPasses(members[j]))
        && !MemberPasses(members[i]) && r.error == MemberError(members[i]))
    decreases |members|
  {
    if |members| == 0 then Ok([])
    else
      var key :- ValidateFieldName(members[0].key);
      var value :- ValidateValue(members[0].value);
      var rest :- ValidateMembers(members[1..]);
      Ok([Member(key, value)] + rest)
  }

  /** The metadata validator: an object is validated member by member; any other value
      is returned unchanged. */
  function ValidateMetadataJson(metadata: Json): (r: Checked<Json>)
    ensures !metadata.Object? ==> r == Ok(metadata)
    ensures metadata.Object? ==>
      (r.Ok? <==> forall i :: 0 <= i < |metadata.members| ==> MemberPasses(metadata.members[i]))
    ensures metadata.Object? && r.Ok? ==> (
      && r.value.Object? && |r.value.members| == |metadata.members|
      && forall i :: 0 <= i < |metadata.members| ==> r.value.members[i].key == metadata.members[i].key)
  {
    match metadata
    case Object(members) =>
      var validated :- ValidateMembers(members);
      Ok(Object(validated))
    case _ => Ok(metadata)
  }
}
