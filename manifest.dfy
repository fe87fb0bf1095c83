/** `extract_video_url`: the manifest is the already-parsed JSON value that
    `response.json()` returns; the playlist location is `entry[0].content.src`. */
module Manifest {
  import opened Results

  /** A parsed JSON value. Objects are Python dicts (the last of duplicate keys
      wins, so a map); numbers are kept exactly, as reals. */
  datatype Json =
    | JNull
    | JBool(b: bool)
    | JNumber(n: real)
    | JString(s: string)
    | JArray(items: seq<Json>)
    | JObject(fields: map<string, Json>)

  /** Python truthiness of the value `json.loads` produces: None, False, 0,
      "", [] and {} are false, everything else is true. */
  predicate Truthy(v: Json)
    ensures !Truthy(v) <==> v in {JNull, JBool(false), JNumber(0.0), JString(""), JArray([]), JObject(map[])}
  {
    match v
    case JNull => false
    case JBool(b) => b
    case JNumber(n) => n != 0.0
    case JString(s) => |s| > 0
    case JArray(items) => |items| > 0
    case JObject(fields) => |fields| > 0
  }

  /** `d.get(key, default)` */
  function Get(fields: map<string, Json>, key: string, default: Json): (v: Json)
    ensures key in fields ==> v == fields[key]
    ensures key !in fields ==> v == default
  {
    if key in fields then fields[key] else default
  }

  /** The `entry` value of an object document, `[]` when absent. */
  function EntryOf(doc: Json): Json
    requires doc.JObject?
  {
    Get(doc.fields, "entry", JArray([]))
  }

  /** `json_data.get("entry", [])`, `entry[0].get("content", {})` and
      `content.get("src", "")`, with Python's outcome for every shape:
      `.get` on a non-dict raises AttributeError, which is not caught;
      `entry[0]` on a non-empty dict raises KeyError and on a true number or
      bool raises TypeError, both caught and reported. */
  function ExtractVideoUrl(doc: Json): (r: Result<Json>)
    // an empty or missing entry list is reported as such
    // every failure is one of the three outcomes the lookups can have
    ensures r.Err? ==> r.error in {NoEntryFound, ExtractionError, AttributeError}
    ensures r == Err(NoEntryFound) <==> doc.JObject? && !Truthy(EntryOf(doc))
    // KeyError from a non-empty dict, TypeError from a true number or bool
    ensures r == Err(ExtractionError) <==>
      doc.JObject? && Truthy(EntryOf(doc)) && (EntryOf(doc).JObject? || EntryOf(doc).JNumber? || EntryOf(doc).JBool?)
    // success needs exactly: an object whose "entry" is a non-empty array whose
    // first element is an object whose "content", if present, is an object
    ensures r.Ok? <==>
      && doc.JObject?
      && "entry" in doc.fields
      && doc.fields["entry"].JArray?
      && |doc.fields["entry"].items| > 0
      && doc.fields["entry"].items[0].JObject?
      && ("content" in doc.fields["entry"].items[0].fields ==>
            doc.fields["entry"].items[0].fields["content"].JObject?)
    // the result is the first entry's content.src, with "" for a missing key
    ensures r.Ok? ==>
      var first := doc.fields["entry"].items[0].fields;
      r.value == if "content" in first && "src" in first["content"].fields
                 then first["content"].fields["src"] else JString("")
  {
    if !doc.JObject? then Err(AttributeError)
    else
      var entry := EntryOf(doc);
      if !Truthy(entry) then Err(NoEntryFound)
      else
        match entry
        case JArray(items) =>
          var first := items[0];
          if !first.JObject? then Err(AttributeError)
          else
            var content := Get(first.fields, "content", JObject(map[]));
            if !content.JObject? then Err(AttributeError)
            else Ok(Get(content.fields, "src", JString("")))
        // `entry[0]` of a string is a one-character string, and `.get` on it fails
        case JString(_) => Err(AttributeError)
        // KeyError from a dict, TypeError from a number or a bool
        case _ => Err(ExtractionError)
  }

  /** A manifest in the shape the service sends: one entry whose content names
      the playlist, possibly followed by more entries. */
  function ManifestFor(src: Json, more: seq<Json>): Json {
    JObject(map["entry" := JArray([JObject(map["content" := JObject(map["src" := src])])] + more)])
  }

  /** Only the first entry counts: extraction finds the `src` that was put there. */
  lemma ExtractBuilt(src: Json, more: seq<Json>)
    ensures ExtractVideoUrl(ManifestFor(src, more)) == Ok(src)
  {
    var doc := ManifestFor(src, more);
    assert doc.fields["entry"].items[0] == JObject(map["content" := JObject(map["src" := src])]);
  }

  /** A missing `content` or `src` is not an error: the URL is the empty string. */
  lemma ExtractDefaults(first: map<string, Json>, more: seq<Json>)
    requires "content" !in first || (first["content"].JObject? && "src" !in first["content"].fields)
    ensures ExtractVideoUrl(JObject(map["entry" := JArray([JObject(first)] + more)])) == Ok(JString(""))
  {
    var doc := JObject(map["entry" := JArray([JObject(first)] + more)]);
    assert doc.fields["entry"].items[0] == JObject(first);
  }

  /** An empty entry list is reported as missing, whatever else the document holds. */
  lemma ExtractEmptyEntry(fields: map<string, Json>)
    ensures ExtractVideoUrl(JObject(fields["entry" := JArray([])])) == Err(NoEntryFound)
  {
  }
}
