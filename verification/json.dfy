/** The JSON tree that org.json builds, and the accessors the news code calls
    on it. How text becomes a tree, and how a non-string value is turned into
    a string by `getString`, differ between org.json implementations; both are
    kept abstract as function values of a `Library`. */
module Json {
  import opened Wrappers

  /** A parsed JSON value. An object maps member names to values (what the
      parser does with a repeated name is its own business); numbers, `true`,
      `false` and `null` are kept as their literal text. */
  datatype Json =
    | JObject(members: map<string, Json>)
    | JArray(items: seq<Json>)
    | JString(text: string)
    | JOther(literal: string)

  /** What a `JSONObject` holds. */
  type Object = map<string, Json>

  /** The parts of the JSON library the model does not fix:
      `parse` is the text-to-tree parser (None when the text is not JSON),
      `coerce` is what `getString` makes of a value that is not a string
      (None when the library throws instead). */
  datatype Library = Library(parse: string -> Option<Json>, coerce: Json -> Option<string>)

  /** `new JSONObject(text)`: the text must parse, and to an object. */
  function ParseObject(lib: Library, text: string): (r: Option<Object>)
    ensures r.Some? <==> lib.parse(text).Some? && lib.parse(text).value.JObject?
    ensures r.Some? ==> lib.parse(text) == Some(JObject(r.value))
  {
    match lib.parse(text)
    case Some(JObject(m)) => Some(m)
    case _ => None
  }

  /** A value read as a JSON object, as `getJSONObject` does: no coercion. */
  function AsObject(v: Json): (r: Option<Object>)
    ensures r.Some? <==> v.JObject?
    ensures r.Some? ==> v == JObject(r.value)
  {
    if v.JObject? then Some(v.members) else None
  }

  /** A value read as a string, as `getString` does: a string is returned as
      it is, anything else goes through the library's coercion. */
  function AsString(lib: Library, v: Json): (r: Option<string>)
    ensures v.JString? ==> r == Some(v.text)
    ensures !v.JString? ==> r == lib.coerce(v)
  {
    if v.JString? then Some(v.text) else lib.coerce(v)
  }

  /** `JSONObject.getJSONObject(key)`. */
  function GetJsonObject(o: Object, key: string): (r: Option<Object>)
    ensures r.Some? <==> key in o && o[key].JObject?
    ensures r.Some? ==> o[key] == JObject(r.value)
  {
    if key in o then AsObject(o[key]) else None
  }

  /** `JSONObject.getJSONArray(key)`. */
  function GetJsonArray(o: Object, key: string): (r: Option<seq<Json>>)
    ensures r.Some? <==> key in o && o[key].JArray?
    ensures r.Some? ==> o[key] == JArray(r.value)
  {
    if key in o && o[key].JArray? then Some(o[key].items) else None
  }

  /** `JSONObject.getString(key)`: a missing key throws. */
  function GetString(lib: Library, o: Object, key: string): (r: Option<string>)
    ensures key !in o ==> r.None?
    ensures key in o && o[key].JString? ==> r == Some(o[key].text)
    ensures key in o && !o[key].JString? ==> r == lib.coerce(o[key])
  {
    if key in o then AsString(lib, o[key]) else None
  }

  /** `JSONArray.getJSONObject(i)`: an index outside the array throws, and so
      does an element that is not an object. */
  function ArrayGetJsonObject(a: seq<Json>, i: int): (r: Option<Object>)
    ensures r.Some? <==> 0 <= i < |a| && a[i].JObject?
    ensures r.Some? ==> a[i] == JObject(r.value)
  {
    if 0 <= i < |a| then AsObject(a[i]) else None
  }

  /** Each accessor depends only on the member under its own key: it reads
      that member's value, and a change to any other member leaves its
      result unchanged. */
  lemma AccessorsReadBackStoredMember(lib: Library, o: Object, key: string, other: string, v: Json)
    requires other != key
    ensures v.JObject? ==> GetJsonObject(o[key := v], key) == Some(v.members)
    ensures v.JArray? ==> GetJsonArray(o[key := v], key) == Some(v.items)
    ensures v.JString? ==> GetString(lib, o[key := v], key) == Some(v.text)
    ensures GetString(lib, o[key := v], other) == GetString(lib, o, other)
    ensures GetJsonObject(o[key := v], other) == GetJsonObject(o, other)
    ensures GetJsonArray(o[key := v], other) == GetJsonArray(o, other)
  {
  }
}
