/**
 * What the two generations of metadata cleaning share: reading a key of a
 * decoded object (`dict.get`), and forcing the list-valued keys to be lists.
 */
module Cleaning {
  import opened Util
  import opened JsonValue

  /** `metadata.get(key)`: the value, or `None` when the key is missing. */
  function Get(m: Object, key: string): Option<Json>
  {
    if key in m then Some(m[key]) else None
  }

  /** `value in (None, "", "null")`, where a missing key reads as `None`. */
  predicate IsNullish(v: Option<Json>)
  {
    v == None || v == Some(JNull) || v == Some(JString("")) || v == Some(JString("null"))
  }

  /**
   * What a list-valued key becomes: a list stays as it is, a null-like value
   * becomes `blank`, any other value `x` becomes `[x]`.
   */
  function AsListField(v: Option<Json>, blank: Json): (r: Json)
    ensures blank.JArray? ==> r.JArray?
  {
    if v.Some? && v.value.JArray? then v.value
    else if IsNullish(v) then blank
    else JArray([v.value])
  }

  /** The first loop of either cleaner rewrites each value on its own. */
  function MapValues(m: Object, f: Json -> Json): (r: Object)
    ensures r.Keys == m.Keys
    ensures forall k :: k in m ==> r[k] == f(m[k])
  {
    map k | k in m :: f(m[k])
  }

  /** The second loop: each key of `keys` in turn gets its list value. */
  function FixLists(m: Object, keys: seq<string>, blank: Json): Object
  {
    if keys == [] then m
    else
      var prev := FixLists(m, keys[..|keys| - 1], blank);
      var k := keys[|keys| - 1];
      prev[k := AsListField(Get(prev, k), blank)]
  }

  /**
   * After the second loop the listed keys are all present with their list
   * value, computed from the value before the loop, and all other keys are
   * as they were.
   */
  lemma {:induction false} FixListsResult(m: Object, keys: seq<string>, blank: Json)
    requires blank.JArray?
    ensures var r := FixLists(m, keys, blank);
      && r.Keys == m.Keys + (set k | k in keys)
      && (forall k :: k in keys ==> r[k] == AsListField(Get(m, k), blank))
      && (forall k :: k in m && k !in keys ==> r[k] == m[k])
  {
    if keys != [] {
      var init := keys[..|keys| - 1];
      var last := keys[|keys| - 1];
      FixListsResult(m, init, blank);
      assert forall k :: k in keys <==> k in init || k == last;
    }
  }

  /** A value that is already a list is left alone, so the loop can be repeated. */
  lemma FixListsOfLists(m: Object, keys: seq<string>, blank: Json)
    requires blank.JArray?
    requires forall k :: k in keys ==> k in m && m[k].JArray?
    ensures FixLists(m, keys, blank) == m
  {
    FixListsResult(m, keys, blank);
    var r := FixLists(m, keys, blank);
    assert r.Keys == m.Keys;
    forall k | k in m ensures r[k] == m[k] {
    }
  }

  /** The second loop of either cleaner, over the keys that must hold lists. */
  method FixListFields(m: Object, keys: seq<string>, blank: Json) returns (r: Object)
    ensures r == FixLists(m, keys, blank)
  {
    r := m;
    for i := 0 to |keys|
      invariant r == FixLists(m, keys[..i], blank)
    {
      assert keys[..i + 1][..i] == keys[..i];
      var key := keys[i];
      var value := Get(r, key);
      if !(value.Some? && value.value.JArray?) {
        if IsNullish(value) {
          r := r[key := blank];
        } else {
          r := r[key := JArray([value.value])];
        }
      }
    }
    assert keys[..|keys|] == keys;
  }
}
