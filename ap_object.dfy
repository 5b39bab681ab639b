/**
 * The ActivityStreams object shape and its validator
 * (server/src/protocols/ap/object.ts): `type`, `id` and `content` are
 * required strings, `url` an optional string, `to` and `cc` optional
 * arrays of strings. Keys outside the shape are accepted and dropped.
 */
module ApObjectSchema {
  import opened Wrappers
  import opened JsonValue

  /** The `ApObject` interface; `objectType` is the `type` key. */
  datatype ApObject = ApObject(
    objectType: string,
    id: string,
    content: string,
    url: Option<string>,
    to: Option<seq<string>>,
    cc: Option<seq<string>>)

  /** The keys the schema knows. */
  const SchemaKeys: set<string> := {"type", "id", "content", "url", "to", "cc"}

  /** `z.string()` for a required key. */
  predicate RequiredString(fields: map<string, Json>, key: string) {
    key in fields && fields[key].JString?
  }

  /** `z.string().optional()`: absent, or a string (`null` is neither). */
  predicate OptionalString(fields: map<string, Json>, key: string) {
    key !in fields || fields[key].JString?
  }

  /** `z.array(z.string()).optional()`: absent, or an array whose every element is a string. */
  predicate OptionalStringArray(fields: map<string, Json>, key: string) {
    key !in fields ||
    (fields[key].JArray? && forall i :: 0 <= i < |fields[key].items| ==> fields[key].items[i].JString?)
  }

  /** `schemaForObject` accepts `v`: the conjunction of the per-key conditions. */
  predicate IsApObject(v: Json)
    ensures IsApObject(v) ==> v.JObject? && {"type", "id", "content"} <= v.fields.Keys
    ensures IsApObject(v) ==> forall k :: k in v.fields && k in SchemaKeys ==> !v.fields[k].JNull?
  {
    && v.JObject?
    && RequiredString(v.fields, "type")
    && RequiredString(v.fields, "id")
    && RequiredString(v.fields, "content")
    && OptionalString(v.fields, "url")
    && OptionalStringArray(v.fields, "to")
    && OptionalStringArray(v.fields, "cc")
  }

  /** The strings of an array whose every element is a string. */
  function Strings(items: seq<Json>): (r: Option<seq<string>>)
    ensures r.Some? <==> forall i :: 0 <= i < |items| ==> items[i].JString?
    ensures r.Some? ==> |r.value| == |items| && forall i :: 0 <= i < |items| ==> items[i] == JString(r.value[i])
  {
    if items == [] then Some([])
    else if !items[0].JString? then None
    else
      match Strings(items[1..])
      case None => None
      case Some(rest) => Some([items[0].s] + rest)
  }

  /** An array of strings as JSON. */
  function StringArray(ss: seq<string>): Json {
    JArray(seq(|ss|, i requires 0 <= i < |ss| => JString(ss[i])))
  }

  /** The optional array under `key`, read as strings. */
  function OptionalStrings(fields: map<string, Json>, key: string): Option<seq<string>>
    requires OptionalStringArray(fields, key)
  {
    if key in fields then Some(Strings(fields[key].items).value) else None
  }

  /** The object as JSON: the optional keys appear only when set. */
  function ToJson(o: ApObject): Json {
    var required := map["type" := JString(o.objectType), "id" := JString(o.id), "content" := JString(o.content)];
    var withUrl := if o.url.Some? then required["url" := JString(o.url.value)] else required;
    var withTo := if o.to.Some? then withUrl["to" := StringArray(o.to.value)] else withUrl;
    JObject(if o.cc.Some? then withTo["cc" := StringArray(o.cc.value)] else withTo)
  }

  /** The keys of `fields` the schema knows, with their values. */
  function KnownKeys(fields: map<string, Json>): map<string, Json> {
    map k | k in fields && k in SchemaKeys :: fields[k]
  }

  /**
   * `schemaForObject.safeParse`: the typed object when `v` is accepted.
   * Parsing succeeds exactly when the schema accepts, and the result
   * carries the input's known keys unchanged.
   */
  function ParseApObject(v: Json): (r: Option<ApObject>)
    ensures r.Some? <==> IsApObject(v)
    ensures r.Some? ==> ToJson(r.value) == JObject(KnownKeys(v.fields))
  {
    if !IsApObject(v) then None
    else
      var f := v.fields;
      var o := ApObject(f["type"].s, f["id"].s, f["content"].s,
                        if "url" in f then Some(f["url"].s) else None,
                        OptionalStrings(f, "to"), OptionalStrings(f, "cc"));
      ParsedKeepsKnownKeys(f, o);
      Some(o)
  }

  /** Reading an accepted array as strings and writing it back gives the same array. */
  lemma StringsRoundTrip(items: seq<Json>)
    requires Strings(items).Some?
    ensures StringArray(Strings(items).value) == JArray(items)
  {
    var ss := Strings(items).value;
    assert seq(|ss|, i requires 0 <= i < |ss| => JString(ss[i])) == items;
  }

  lemma ParsedKeepsKnownKeys(f: map<string, Json>, o: ApObject)
    requires IsApObject(JObject(f))
    requires o == ApObject(f["type"].s, f["id"].s, f["content"].s,
                           if "url" in f then Some(f["url"].s) else None,
                           OptionalStrings(f, "to"), OptionalStrings(f, "cc"))
    ensures ToJson(o) == JObject(KnownKeys(f))
  {
    var out := ToJson(o).fields;
    var known := KnownKeys(f);
    if "to" in f { StringsRoundTrip(f["to"].items); }
    if "cc" in f { StringsRoundTrip(f["cc"].items); }
    assert out.Keys == known.Keys;
    forall k | k in out ensures out[k] == known[k] {
    }
  }

  /** A string array written as JSON reads back as the same strings. */
  lemma {:induction false} StringArrayRoundTrip(ss: seq<string>)
    ensures Strings(StringArray(ss).items) == Some(ss)
  {
    var items := StringArray(ss).items;
    var r := Strings(items);
    assert r.Some?;
    assert forall i :: 0 <= i < |ss| ==> r.value[i] == ss[i] by {
      forall i | 0 <= i < |ss| ensures r.value[i] == ss[i] {
        assert items[i] == JString(ss[i]);
      }
    }
    assert r.value == ss;
  }

  /** Every object, written as JSON, is accepted and parses back to itself. */
  lemma ParseToJson(o: ApObject)
    ensures ParseApObject(ToJson(o)) == Some(o)
  {
    if o.to.Some? { StringArrayRoundTrip(o.to.value); }
    if o.cc.Some? { StringArrayRoundTrip(o.cc.value); }
  }

  /** Keys outside the schema neither cause rejection nor change the parsed object. */
  lemma UnknownKeysIgnored(fields: map<string, Json>, key: string, value: Json)
    requires key !in SchemaKeys
    ensures ParseApObject(JObject(fields[key := value])) == ParseApObject(JObject(fields))
  {
    var g := fields[key := value];
    assert forall k :: k in SchemaKeys ==> (k in g <==> k in fields) && (k in g ==> g[k] == fields[k]);
  }

  /** An explicit `null` is not an absent `url`: it is rejected. */
  lemma NullUrlRejected(fields: map<string, Json>)
    ensures !IsApObject(JObject(fields["url" := JNull]))
  {
  }

  /** Empty `to` and `cc` arrays are accepted. */
  lemma EmptyAudienceAccepted(objectType: string, id: string, content: string)
    ensures IsApObject(JObject(map["type" := JString(objectType), "id" := JString(id), "content" := JString(content),
                                   "to" := JArray([]), "cc" := JArray([])]))
  {
  }
}
