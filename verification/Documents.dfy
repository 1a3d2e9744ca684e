/** Documents of the old database as trees, and what the conversion passes need to know about them. */
module Documents {
  import opened Options

  /**
   * A value of a document. A date is a number of milliseconds, or invalid; a decimal is the library's object,
   * told by its own fields; an object lists its fields in order.
   */
  datatype Doc =
    | Undefined
    | Null
    | Bool(on: bool)
    | Num(number: real)
    | Str(text: string)
    | Date(time: Option<int>)
    | ObjectId(hex: string)
    | Decimal(parts: seq<Field>)
    | Arr(items: seq<Doc>)
    | Obj(fields: seq<Field>)

  datatype Field = Field(key: string, value: Doc)

  predicate Truthy(v: Doc) {
    match v
    case Undefined => false
    case Null => false
    case Bool(on) => on
    case Num(n) => n != 0.0
    case Str(text) => text != ""
    case _ => true
  }

  /** `typeof value === "object"` for a value that is not null. */
  predicate IsObject(v: Doc) { v.Date? || v.ObjectId? || v.Decimal? || v.Arr? || v.Obj? }

  predicate HasTag(fields: seq<Field>, tag: string) { Field("_bsontype", Str(tag)) in fields }

  /** An object that stands for an ObjectId: it has a `$oid` or carries the tag. */
  predicate IsIdLike(fields: seq<Field>) {
    (exists i | 0 <= i < |fields| :: fields[i].key == "$oid" && Truthy(fields[i].value)) || HasTag(fields, "ObjectId")
  }

  /** The text under `$oid`, if there is one. */
  function OidText(fields: seq<Field>): Option<string> {
    if fields == [] then None
    else if fields[0].key == "$oid" && fields[0].value.Str? then Some(fields[0].value.text)
    else OidText(fields[1..])
  }

  /** No ObjectId at any depth. */
  predicate NoObjectIds(v: Doc)
    decreases v
  {
    match v
    case ObjectId(_) => false
    case Decimal(fields) => forall i | 0 <= i < |fields| :: NoObjectIds(fields[i].value)
    case Arr(items) => forall i | 0 <= i < |items| :: NoObjectIds(items[i])
    case Obj(fields) => forall i | 0 <= i < |fields| :: NoObjectIds(fields[i].value)
    case _ => true
  }

  datatype Result<+T> = Ok(value: T) | Invalid
}
