/** The pass that stores lists and objects as JSON texts in the fields known to hold them. */
module JsonTextPass {
  import opened Options
  import opened Documents
  import ObjectIdPass

  /** `JSON.parse`, which may throw, and `JSON.stringify`. */
  datatype Json = Json(parse: string -> Option<Doc>, stringify: Doc -> string)

  /** What is used of JSON: a printed value can be read, a printed list reads as a list that prints the same. */
  ghost predicate IsJson(json: Json) {
    && (forall v: Doc :: !v.Undefined? ==> json.parse(json.stringify(v)).Some?)
    && (forall v: Doc :: v.Arr? ==>
          var w := json.parse(json.stringify(v));
          w.Some? && w.value.Arr? && json.stringify(w.value) == json.stringify(v))
    && json.stringify(Arr([])) == "[]"
  }

  /** `toJsonText` of a value that is there. */
  function ToJsonText(v: Doc, json: Json): Result<Doc> {
    match v
    case Str(text) => if json.parse(text).Some? then Ok(v) else Invalid
    case _ => Ok(Str(json.stringify(v)))
  }

  function ItemText(item: Doc, str: ObjectIdPass.Stringifier): Doc {
    if item.Null? || item.Undefined? then item else ObjectIdPass.ObjectIdToString(item, str)
  }

  /** `stringArrayToJsonText` */
  function StringArrayToJsonText(v: Doc, json: Json, str: ObjectIdPass.Stringifier): Result<Doc> {
    match v
    case Null => Ok(Str("[]"))
    case Undefined => Ok(Str("[]"))
    case Str(text) =>
      var parsed := json.parse(text);
      if parsed.Some? && parsed.value.Arr? then Ok(Str(json.stringify(parsed.value))) else Invalid
    case Arr(items) =>
      Ok(Str(json.stringify(Arr(ItemTexts(items, str)))))
    case _ => Invalid
  }

  const TEXT_ARRAY_FIELDS: set<string> := {
    "images", "documents", "attachments", "photos", "evidenceUrls", "documentUrls", "beforePhotos", "afterPhotos",
    "ppeRequired", "workCategories", "skillTags", "requiredSkills", "allowedRoles", "aliases", "keywords",
    "commonMistakes", "sinhalaKeywords", "departmentHints", "serviceCategories", "certifications", "reasonCodes",
    "priorityScope", "workTypeScope", "linkedChangeRequests", "linkedQaIssues", "linkedTickets", "options"
  }

  const OBJECT_FIELDS: set<string> := {
    "metadata", "metadataSafe", "payload", "actorSnapshot", "beforeData", "afterData", "resultJson", "raw", "value",
    "customAttributes", "customFields", "profile", "conditions", "answers", "lineItems", "handoverChecklist",
    "mappingSnapshot", "stagingRecords", "sheetsDetected", "warehousesDetected", "normalizedData", "rawData", "errors",
    "warnings", "requestPayload", "responsePayload", "contextSnapshot", "criteriaSnapshot", "ruleSnapshot",
    "sourceContext", "templateSnapshot", "triggerSummary", "dryRunSummary", "applySummary", "sourceMetadata",
    "entityTypes", "summary", "shortageParts", "selectedUsers", "selectedRoles", "selectedModules", "blockers",
    "attachmentMetadata", "actions", "reasons", "factors", "items", "checklistItems", "dailyChecklist", "gpsPolygon",
    "skills"
  }

  function TextOf(f: Field, json: Json, str: ObjectIdPass.Stringifier): Result<Doc> {
    if f.key in TEXT_ARRAY_FIELDS && !f.value.Undefined? then StringArrayToJsonText(f.value, json, str)
    else if f.key in OBJECT_FIELDS && !f.value.Undefined? && !f.value.Null? then ToJsonText(f.value, json)
    else Ok(f.value)
  }

  /**
   * The text of a known field: a list is printed, its items as texts; the text of a list is printed anew; the text of
   * an object must be JSON and stays, and anything else there is printed; an absent list is printed as an
   * empty one. Unknown fields stay, and so does an undefined value.
   */
  ghost predicate TextIs(f: Field, r: Doc, json: Json, str: ObjectIdPass.Stringifier) {
    if f.key in TEXT_ARRAY_FIELDS && !f.value.Undefined? then
      match f.value
      case Null => r == Str("[]")
      case Str(text) =>
        json.parse(text).Some? && json.parse(text).value.Arr? && r == Str(json.stringify(json.parse(text).value))
      case Arr(items) =>
        exists texts: seq<Doc> ::
          && |texts| == |items| && r == Str(json.stringify(Arr(texts)))
          && forall i | 0 <= i < |items| :: ObjectIdPass.KeptAsText(items[i], texts[i], str)
      case _ => false
    else if f.key in OBJECT_FIELDS && !f.value.Undefined? && !f.value.Null? then
      if f.value.Str? then json.parse(f.value.text).Some? && r == f.value else r == Str(json.stringify(f.value))
    else r == f.value
  }

  /** Every field under its old key with its text. */
  ghost predicate AreTexts(fields: seq<Field>, r: seq<Field>, json: Json, str: ObjectIdPass.Stringifier) {
    && |r| == |fields|
    && forall i | 0 <= i < |fields| :: r[i].key == fields[i].key && TextIs(fields[i], r[i].value, json, str)
  }

  /** The program finds exactly this text, or none when there is none. */
  lemma TextIsIff(f: Field, r: Doc, json: Json, str: ObjectIdPass.Stringifier)
    ensures TextOf(f, json, str) == Ok(r) <==> TextIs(f, r, json, str)
  {
    hide TEXT_ARRAY_FIELDS, OBJECT_FIELDS, ObjectIdPass.ObjectIdToString, ObjectIdPass.KeptAsText;
    if f.value.Arr? && f.key in TEXT_ARRAY_FIELDS { ListTextIs(f.value.items, r, json, str); }
  }

  function ItemTexts(items: seq<Doc>, str: ObjectIdPass.Stringifier): (texts: seq<Doc>)
    ensures |texts| == |items|
  {
    seq(|items|, i requires 0 <= i < |items| => ItemText(items[i], str))
  }

  lemma ListTextIs(items: seq<Doc>, r: Doc, json: Json, str: ObjectIdPass.Stringifier)
    ensures r == Str(json.stringify(Arr(ItemTexts(items, str)))) <==>
            exists texts: seq<Doc> ::
              && |texts| == |items| && r == Str(json.stringify(Arr(texts)))
              && forall i | 0 <= i < |items| :: ObjectIdPass.KeptAsText(items[i], texts[i], str)
  {
    hide ObjectIdPass.KeptAsText, ItemText;
    var mine := ItemTexts(items, str);
    forall i | 0 <= i < |items| ensures ObjectIdPass.KeptAsText(items[i], mine[i], str) {
      ItemTextIs(items[i], mine[i], str);
    }
    if texts: seq<Doc> :| |texts| == |items| && r == Str(json.stringify(Arr(texts)))
                          && forall i | 0 <= i < |items| :: ObjectIdPass.KeptAsText(items[i], texts[i], str)
    {
      forall i | 0 <= i < |items| ensures texts[i] == mine[i] { ItemTextIs(items[i], texts[i], str); }
      assert texts == mine;
    }
  }

  lemma ItemTextIs(item: Doc, text: Doc, str: ObjectIdPass.Stringifier)
    ensures text == ItemText(item, str) <==> ObjectIdPass.KeptAsText(item, text, str)
  {
  }

  /** `applyJsonTextFields`: a copy of the document, field by field; the first value without a text ends it. */
  method ApplyJsonTextFields(doc: seq<Field>, json: Json, str: ObjectIdPass.Stringifier) returns (r: Result<seq<Field>>)
    ensures r.Ok? ==> AreTexts(doc, r.value, json, str)
    ensures r.Invalid? ==> exists i :: 0 <= i < |doc| && forall text :: !TextIs(doc[i], text, json, str)
  {
    hide TEXT_ARRAY_FIELDS, OBJECT_FIELDS, TextIs;
    var out := doc;
    for i := 0 to |doc|
      invariant |out| == |doc| && out[i..] == doc[i..]
      invariant AreTexts(doc[..i], out[..i], json, str)
    {
      assert out[i] == out[i..][0] == doc[i];
      var key, value := out[i].key, out[i].value;
      forall text ensures TextOf(doc[i], json, str) == Ok(text) <==> TextIs(doc[i], text, json, str) {
        TextIsIff(doc[i], text, json, str);
      }
      if key in TEXT_ARRAY_FIELDS && !value.Undefined? {
        var text := StringArrayToJsonText(value, json, str);
        if text.Invalid? {
          return Invalid;
        }
        out := out[i := Field(key, text.value)];
      } else if key in OBJECT_FIELDS && !value.Undefined? && !value.Null? {
        var text := ToJsonText(value, json);
        if text.Invalid? {
          return Invalid;
        }
        out := out[i := Field(key, text.value)];
      }
      assert out[i + 1..] == doc[i + 1..] by { assert out[i..][1..] == doc[i..][1..]; }
    }
    assert doc[..|doc|] == doc && out[..|doc|] == out;
    return Ok(out);
  }

  /** The text of a text is the text itself. */
  lemma TextIsStable(f: Field, json: Json, str: ObjectIdPass.Stringifier)
    requires IsJson(json) && TextOf(f, json, str).Ok?
    ensures TextOf(Field(f.key, TextOf(f, json, str).value), json, str) == TextOf(f, json, str)
  {
    hide TEXT_ARRAY_FIELDS, OBJECT_FIELDS;
    if f.key in TEXT_ARRAY_FIELDS && (f.value.Null? || f.value.Undefined?) {
      assert json.parse(json.stringify(Arr([]))).value.Arr?;
    }
  }

  /** What the pass gives is left alone by a second run, and each known field holds a text or nothing. */
  lemma TextsAreStable(doc: seq<Field>, r: seq<Field>, json: Json, str: ObjectIdPass.Stringifier)
    requires IsJson(json) && AreTexts(doc, r, json, str)
    ensures AreTexts(r, r, json, str)
    ensures forall i | 0 <= i < |r| && (r[i].key in TEXT_ARRAY_FIELDS || r[i].key in OBJECT_FIELDS) ::
              ObjectIdPass.IsText(r[i].value)
  {
    hide TEXT_ARRAY_FIELDS, OBJECT_FIELDS, TextOf, TextIs;
    forall i | 0 <= i < |r| ensures TextIs(r[i], r[i].value, json, str) && TextOf(doc[i], json, str) == Ok(r[i].value) {
      TextIsIff(doc[i], r[i].value, json, str);
      TextIsStable(doc[i], json, str);
      assert r[i] == Field(doc[i].key, r[i].value);
      TextIsIff(r[i], r[i].value, json, str);
    }
    forall i | 0 <= i < |r| && (r[i].key in TEXT_ARRAY_FIELDS || r[i].key in OBJECT_FIELDS)
      ensures ObjectIdPass.IsText(r[i].value)
    {
      KnownFieldIsText(doc[i], json, str);
    }
  }

  lemma KnownFieldIsText(f: Field, json: Json, str: ObjectIdPass.Stringifier)
    requires (f.key in TEXT_ARRAY_FIELDS || f.key in OBJECT_FIELDS) && TextOf(f, json, str).Ok?
    ensures ObjectIdPass.IsText(TextOf(f, json, str).value)
  {
    hide TEXT_ARRAY_FIELDS, OBJECT_FIELDS;
  }
}
