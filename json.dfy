/**
 * The JSON values that `json.loads` produces from a model's answer, and the
 * reading of a value as a pydantic `str` or `list[str]` field.
 */
module JsonValue {
  import opened Util

  /**
   * A decoded JSON value. Python decodes integers to `int`, decimals to
   * `float` and `true`/`false` to `bool`; an object becomes a `dict`, whose
   * key order is not modelled.
   */
  datatype Json =
    | JNull
    | JBool(b: bool)
    | JInt(i: int)
    | JFloat(f: real)
    | JString(s: string)
    | JArray(items: seq<Json>)
    | JObject(fields: map<string, Json>)

  /** A decoded top-level object, the `dict` the cleaners rewrite. */
  type Object = map<string, Json>

  /** A list of strings as a JSON array. */
  function StringArray(ss: seq<string>): (j: Json)
    ensures j.JArray? && |j.items| == |ss|
    ensures forall i :: 0 <= i < |ss| ==> j.items[i] == JString(ss[i])
  {
    JArray(seq(|ss|, i requires 0 <= i < |ss| => JString(ss[i])))
  }

  /** A `str` field accepts only a JSON string: no number or bool is converted. */
  function AsString(j: Json): Option<string>
  {
    if j.JString? then Some(j.s) else None
  }

  /** A `list[str]` field accepts only an array whose every item is a string. */
  function AsStrings(j: Json): (r: Option<seq<string>>)
    ensures r.Some? ==> j == StringArray(r.value)
  {
    if j.JArray? && forall i :: 0 <= i < |j.items| ==> j.items[i].JString? then
      var ss := seq(|j.items|, i requires 0 <= i < |j.items| => j.items[i].s);
      assert StringArray(ss).items == j.items;
      Some(ss)
    else None
  }

  /** Writing a list of strings and reading it back gives the same list. */
  lemma AsStringsRoundTrip(ss: seq<string>)
    ensures AsStrings(StringArray(ss)) == Some(ss)
  {
    var j := StringArray(ss);
    assert forall i :: 0 <= i < |j.items| ==> j.items[i].JString?;
    assert AsStrings(j).value == ss;
  }
}
