/**
 * The passes that turn values under known keys into dates and into decimals. Both walk the document alike;
 * they differ in the keys, in the conversion of a value and in the objects they leave alone.
 */
module CoercionPasses {
  import opened Options
  import opened Documents

  /** A pass: its keys, the conversion of a value under such a key, and the objects that are not walked into. */
  datatype Pass = Pass(keys: set<string>, coerce: Doc -> Result<Doc>, leaf: Doc -> bool)

  /** `Object.entries` of an object that is no array; an ObjectId has no entries of its own. */
  function Entries(v: Doc): seq<Field> {
    match v
    case Obj(fields) => fields
    case Decimal(fields) => fields
    case _ => []
  }

  /** `coerceDatesDeep` and `coerceDecimalsDeep`: a conversion that fails makes the whole pass fail. */
  function Coerce(p: Pass, v: Doc, hint: string): Result<Doc>
    decreases v, 1
  {
    if v.Null? || v.Undefined? then Ok(v)
    else if hint in p.keys then p.coerce(v)
    else if v.Arr? then
      (match CoerceItems(p, v.items) case Ok(items) => Ok(Arr(items)) case Invalid => Invalid)
    else if p.leaf(v) || !IsObject(v) then Ok(v)
    else match v
         case Obj(fields) => Record(CoerceFields(p, fields))
         case Decimal(fields) => Record(CoerceFields(p, fields))
         case _ => Ok(Obj([]))
  }

  function Record(fields: Result<seq<Field>>): Result<Doc> {
    match fields
    case Ok(fs) => Ok(Obj(fs))
    case Invalid => Invalid
  }

  function CoerceItems(p: Pass, items: seq<Doc>): (r: Result<seq<Doc>>)
    ensures r.Ok? ==> |r.value| == |items| && forall i | 0 <= i < |items| :: Coerce(p, items[i], "") == Ok(r.value[i])
    ensures r.Invalid? ==> exists i | 0 <= i < |items| :: Coerce(p, items[i], "").Invalid?
    decreases items, 0
  {
    if items == [] then Ok([]) else
      var n := |items| - 1;
      match (CoerceItems(p, items[..n]), Coerce(p, items[n], ""))
      case (Ok(front), Ok(last)) => Ok(front + [last])
      case _ => Invalid
  }

  function CoerceFields(p: Pass, fields: seq<Field>): (r: Result<seq<Field>>)
    ensures r.Ok? ==> |r.value| == |fields| && forall i | 0 <= i < |fields| ::
              r.value[i].key == fields[i].key && Coerce(p, fields[i].value, fields[i].key) == Ok(r.value[i].value)
    ensures r.Invalid? ==> exists i | 0 <= i < |fields| :: Coerce(p, fields[i].value, fields[i].key).Invalid?
    decreases fields, 0
  {
    if fields == [] then Ok([]) else
      var n := |fields| - 1;
      match (CoerceFields(p, fields[..n]), Coerce(p, fields[n].value, fields[n].key))
      case (Ok(front), Ok(last)) => Ok(front + [Field(fields[n].key, last)])
      case _ => Invalid
  }

  /** The pass as the program runs it: a record filled field by field, given up at the first failure. */
  method CoerceDeep(p: Pass, v: Doc, hint: string) returns (r: Result<Doc>)
    ensures r == Coerce(p, v, hint)
    decreases v
  {
    if v.Null? || v.Undefined? {
      return Ok(v);
    }
    if hint in p.keys {
      return p.coerce(v);
    }
    if v.Arr? {
      var items: seq<Doc> := [];
      for i := 0 to |v.items|
        invariant |items| == i && forall k | 0 <= k < i :: Coerce(p, v.items[k], "") == Ok(items[k])
      {
        var item := CoerceDeep(p, v.items[i], "");
        if item.Invalid? {
          return Invalid;
        }
        items := items + [item.value];
      }
      ItemsDetermined(p, v.items, items);
      return Ok(Arr(items));
    }
    if p.leaf(v) || !IsObject(v) {
      return Ok(v);
    }
    var entries := Entries(v);
    var out: seq<Field> := [];
    for i := 0 to |entries|
      invariant |out| == i && forall k | 0 <= k < i :: out[k].key == entries[k].key
                                                      && Coerce(p, entries[k].value, entries[k].key) == Ok(out[k].value)
    {
      var value := CoerceDeep(p, entries[i].value, entries[i].key);
      if value.Invalid? {
        return Invalid;
      }
      out := out + [Field(entries[i].key, value.value)];
    }
    FieldsDetermined(p, entries, out);
    return Ok(Obj(out));
  }

  lemma ItemsDetermined(p: Pass, items: seq<Doc>, r: seq<Doc>)
    requires |r| == |items| && forall i | 0 <= i < |items| :: Coerce(p, items[i], "") == Ok(r[i])
    ensures CoerceItems(p, items) == Ok(r)
  {
    var s := CoerceItems(p, items);
    if s.Ok? {
      forall i | 0 <= i < |items| ensures s.value[i] == r[i] { assert Coerce(p, items[i], "") == Ok(r[i]); }
      assert s.value == r;
    }
  }

  lemma FieldsDetermined(p: Pass, fields: seq<Field>, r: seq<Field>)
    requires |r| == |fields|
    requires forall i | 0 <= i < |fields| ::
               r[i].key == fields[i].key && Coerce(p, fields[i].value, fields[i].key) == Ok(r[i].value)
    ensures CoerceFields(p, fields) == Ok(r)
  {
    var s := CoerceFields(p, fields);
    if s.Ok? {
      forall i | 0 <= i < |fields| ensures s.value[i] == r[i] {
        assert Coerce(p, fields[i].value, fields[i].key) == Ok(r[i].value);
      }
      assert s.value == r;
    }
  }

  // ---------- What a pass leaves alone ----------

  /** Nothing in the value is changed by the pass. */
  predicate Settled(p: Pass, v: Doc, hint: string)
    decreases v
  {
    if v.Null? || v.Undefined? then true
    else if hint in p.keys then p.coerce(v) == Ok(v)
    else match v
         case Arr(items) => forall i | 0 <= i < |items| :: Settled(p, items[i], "")
         case Obj(fields) => p.leaf(v) || forall i | 0 <= i < |fields| :: Settled(p, fields[i].value, fields[i].key)
         case _ => p.leaf(v) || !IsObject(v)
  }

  /** The pass succeeds and changes nothing exactly when there is nothing to change. */
  lemma {:induction false} UnchangedIffSettled(p: Pass, v: Doc, hint: string)
    ensures Coerce(p, v, hint) == Ok(v) <==> Settled(p, v, hint)
    decreases v
  {
    if v.Null? || v.Undefined? || hint in p.keys {
    } else if v.Arr? {
      forall i | 0 <= i < |v.items|
        ensures Coerce(p, v.items[i], "") == Ok(v.items[i]) <==> Settled(p, v.items[i], "")
      {
        UnchangedIffSettled(p, v.items[i], "");
      }
      if Settled(p, v, hint) { ItemsDetermined(p, v.items, v.items); }
    } else if v.Obj? && !p.leaf(v) {
      forall i | 0 <= i < |v.fields|
        ensures Coerce(p, v.fields[i].value, v.fields[i].key) == Ok(v.fields[i].value)
                <==> Settled(p, v.fields[i].value, v.fields[i].key)
      {
        UnchangedIffSettled(p, v.fields[i].value, v.fields[i].key);
      }
      if Settled(p, v, hint) { FieldsDetermined(p, v.fields, v.fields); }
    }
  }

  /** Converting a converted value gives it back. */
  ghost predicate Stable(p: Pass) {
    forall v :: p.coerce(v).Ok? ==> p.coerce(p.coerce(v).value) == p.coerce(v)
  }

  /** What a pass gives is settled. */
  lemma {:induction false} ResultIsSettled(p: Pass, v: Doc, hint: string)
    requires Stable(p) && Coerce(p, v, hint).Ok?
    ensures Settled(p, Coerce(p, v, hint).value, hint)
    decreases v
  {
    if v.Null? || v.Undefined? || hint in p.keys {
    } else if v.Arr? {
      var r := CoerceItems(p, v.items).value;
      forall i | 0 <= i < |r| ensures Settled(p, r[i], "") {
        assert Coerce(p, v.items[i], "") == Ok(r[i]);
        ResultIsSettled(p, v.items[i], "");
      }
    } else if IsObject(v) && !p.leaf(v) {
      var fields := Entries(v);
      var r := CoerceFields(p, fields).value;
      forall i | 0 <= i < |r| ensures Settled(p, r[i].value, r[i].key) {
        assert Coerce(p, fields[i].value, fields[i].key) == Ok(r[i].value);
        ResultIsSettled(p, fields[i].value, fields[i].key);
      }
    }
  }

  /** A second run of the same pass succeeds and changes nothing. */
  lemma CoerceTwice(p: Pass, v: Doc, hint: string)
    requires Stable(p) && Coerce(p, v, hint).Ok?
    ensures Coerce(p, Coerce(p, v, hint).value, hint) == Coerce(p, v, hint)
  {
    ResultIsSettled(p, v, hint);
    UnchangedIffSettled(p, Coerce(p, v, hint).value, hint);
  }

  // ---------- Dates ----------

  const DATE_KEYS: set<string> := {
    "createdAt", "updatedAt", "dueAt", "dueDate", "reportedAt", "completedAt", "verifiedAt", "closedAt", "startedAt",
    "endedAt", "heldAt", "resumedAt", "approvedAt", "rejectedAt", "expiresAt", "expiryDate", "nextDueAt",
    "lastReadingAt", "readingAt", "occurredAt", "effectiveFrom", "effectiveTo", "startDate", "endDate",
    "warrantyExpiry", "purchaseDate", "lastServiceDate", "nextServiceDate", "syncedAt", "revokedAt", "lastUsedAt",
    "usedAt", "lockedUntil", "temporaryPasswordExpiresAt", "lastPasswordChangedAt", "lastLogin", "acceptedAt"
  }

  /** `new Date(value)`: its time, or nothing when the date is invalid. */
  type Clock = Doc -> Option<int>

  function FieldNamed(fields: seq<Field>, key: string): Option<Doc> {
    if fields == [] then None
    else if fields[0].key == key then Some(fields[0].value)
    else FieldNamed(fields[1..], key)
  }

  /** `coerceDate`: numbers and texts must be valid, an object that wraps a date need not be. */
  function CoerceDate(v: Doc, clock: Clock): Result<Doc> {
    match v
    case Null => Ok(v)
    case Undefined => Ok(v)
    case Date(_) => Ok(v)
    case Obj(fields) =>
      if HasTag(fields, "Date") then Ok(Date(clock(v)))
      else if FieldNamed(fields, "$date").Some? then Ok(Date(clock(FieldNamed(fields, "$date").value)))
      else Invalid
    case Num(_) => if clock(v).Some? then Ok(Date(clock(v))) else Invalid
    case Str(_) => if clock(v).Some? then Ok(Date(clock(v))) else Invalid
    case _ => Invalid
  }

  /** Dates, ObjectIds and objects that carry their tag are not walked into. */
  predicate DateLeaf(v: Doc) { v.Date? || v.ObjectId? || (v.Obj? && HasTag(v.fields, "ObjectId")) }

  function Dates(clock: Clock): Pass {
    Pass(DATE_KEYS, v => CoerceDate(v, clock), v => DateLeaf(v))
  }

  // ---------- Decimals ----------

  const DECIMAL_KEYS: set<string> := {
    "partsCost", "internalLabourCost", "externalServiceCost", "transportCost", "otherCost", "totalCost",
    "estimatedCost", "actualCost", "labourRateSnapshot", "unitCost", "amountThreshold", "totalAmount",
    "invoiceAmount", "taxAmount", "costPerLiter", "cost", "unitCostSnapshot", "purchasePrice"
  }

  /** `new Prisma.Decimal(text)` on the text of a value: the fields of the decimal, or nothing when it throws. */
  type Reader = Doc -> Option<seq<Field>>

  /** `toDecimal`: every object has a text, which must then be a number; a boolean never is. */
  function ToDecimal(v: Doc, read: Reader): Result<Doc> {
    match v
    case Null => Ok(v)
    case Undefined => Ok(v)
    case Decimal(_) => Ok(v)
    case Bool(_) => Invalid
    case _ => if read(v).Some? then Ok(Decimal(read(v).value)) else Invalid
  }

  predicate DecimalLeaf(v: Doc) { v.Date? || v.Decimal? }

  function Decimals(read: Reader): Pass {
    Pass(DECIMAL_KEYS, v => ToDecimal(v, read), v => DecimalLeaf(v))
  }

  /** Both passes are stable, so each is idempotent on what it gives. */
  lemma PassesAreStable(clock: Clock, read: Reader)
    ensures Stable(Dates(clock)) && Stable(Decimals(read))
  {
  }

  // ---------- What each pass gives, value by value ----------

  /** The date of a value: a date is its own, a text or number must be readable, an object may wrap one. */
  ghost predicate DateFrom(v: Doc, r: Doc, clock: Clock) {
    match v
    case Date(_) => r == v
    case Num(_) => clock(v).Some? && r == Date(clock(v))
    case Str(_) => clock(v).Some? && r == Date(clock(v))
    case Obj(fields) =>
      if Field("_bsontype", Str("Date")) in fields then r == Date(clock(v))
      else FieldNamed(fields, "$date").Some? && r == Date(clock(FieldNamed(fields, "$date").value))
    case _ => false
  }

  /** The decimal of a value: a decimal is its own, and the text of all else but a boolean must be a number. */
  ghost predicate DecimalFrom(v: Doc, r: Doc, read: Reader) {
    if v.Decimal? then r == v else !v.Bool? && read(v).Some? && r == Decimal(read(v).value)
  }

  /**
   * A value and what a pass gives for it: under its keys what is made of the value; lists item by item; values that
   * it leaves alone, and all that are no objects, as they are; objects field by field under their keys.
   */
  ghost predicate Given(v: Doc, r: Doc, hint: string, keys: set<string>, made: (Doc, Doc) -> bool, left: Doc -> bool)
    decreases v
  {
    if v.Null? || v.Undefined? then r == v
    else if hint in keys then made(v, r)
    else match v
         case Arr(items) =>
           r.Arr? && |r.items| == |items|
           && forall i | 0 <= i < |items| :: Given(items[i], r.items[i], "", keys, made, left)
         case Obj(fields) => if left(v) then r == v else r.Obj? && FieldsGiven(fields, r.fields, keys, made, left)
         case Decimal(fields) => if left(v) then r == v else r.Obj? && FieldsGiven(fields, r.fields, keys, made, left)
         case ObjectId(_) => if left(v) then r == v else r == Obj([])
         case _ => r == v
  }

  ghost predicate FieldsGiven(fields: seq<Field>, r: seq<Field>, keys: set<string>,
                              made: (Doc, Doc) -> bool, left: Doc -> bool)
    decreases fields
  {
    |r| == |fields| && forall i | 0 <= i < |fields| :: FieldGiven(fields[i], r[i], keys, made, left)
  }

  ghost predicate FieldGiven(f: Field, r: Field, keys: set<string>, made: (Doc, Doc) -> bool, left: Doc -> bool)
    decreases f
  {
    r.key == f.key && Given(f.value, r.value, f.key, keys, made, left)
  }

  /** The date pass: dates, ObjectIds and objects with an ObjectId's tag are left alone. */
  ghost predicate DatesGiven(v: Doc, r: Doc, hint: string, clock: Clock) {
    Given(v, r, hint, DATE_KEYS, MadeDates(clock), x => LeftByDates(x))
  }

  ghost function MadeDates(clock: Clock): (Doc, Doc) -> bool { (x, y) => DateFrom(x, y, clock) }

  predicate LeftByDates(v: Doc) {
    v.Date? || v.ObjectId? || (v.Obj? && Field("_bsontype", Str("ObjectId")) in v.fields)
  }

  /** The decimal pass: dates and decimals are left alone. */
  ghost predicate DecimalsGiven(v: Doc, r: Doc, hint: string, read: Reader) {
    Given(v, r, hint, DECIMAL_KEYS, MadeDecimals(read), x => LeftByDecimals(x))
  }

  ghost function MadeDecimals(read: Reader): (Doc, Doc) -> bool { (x, y) => DecimalFrom(x, y, read) }

  predicate LeftByDecimals(v: Doc) { v.Date? || v.Decimal? }

  ghost predicate Describes(p: Pass, made: (Doc, Doc) -> bool, left: Doc -> bool) {
    && (forall v: Doc, r :: !v.Null? && !v.Undefined? ==> (made(v, r) <==> p.coerce(v) == Ok(r)))
    && (forall v: Doc :: left(v) <==> p.leaf(v))
    && (forall v: Doc :: v.Date? ==> p.leaf(v))
  }

  lemma {:induction false} CoerceGives(p: Pass, made: (Doc, Doc) -> bool, left: Doc -> bool,
                                       v: Doc, r: Doc, hint: string)
    requires Describes(p, made, left)
    ensures Coerce(p, v, hint) == Ok(r) <==> Given(v, r, hint, p.keys, made, left)
    decreases v
  {
    if v.Null? || v.Undefined? || hint in p.keys {
    } else if v.Arr? {
      ItemsGiven(p, made, left, v.items, r);
    } else if v.Obj? && !p.leaf(v) && r.Obj? {
      FieldsAreGiven(p, made, left, v.fields, r.fields);
    } else if v.Decimal? && !p.leaf(v) && r.Obj? {
      FieldsAreGiven(p, made, left, v.parts, r.fields);
    }
  }

  lemma {:induction false} ItemsGiven(p: Pass, made: (Doc, Doc) -> bool, left: Doc -> bool, items: seq<Doc>, r: Doc)
    requires Describes(p, made, left)
    ensures (CoerceItems(p, items).Ok? && r == Arr(CoerceItems(p, items).value))
            <==> r.Arr? && |r.items| == |items|
                 && forall i | 0 <= i < |items| :: Given(items[i], r.items[i], "", p.keys, made, left)
    decreases items
  {
    hide Describes;
    if r.Arr? && |r.items| == |items| {
      forall i | 0 <= i < |items|
        ensures Coerce(p, items[i], "") == Ok(r.items[i]) <==> Given(items[i], r.items[i], "", p.keys, made, left)
      {
        CoerceGives(p, made, left, items[i], r.items[i], "");
      }
      if forall i | 0 <= i < |items| :: Coerce(p, items[i], "") == Ok(r.items[i]) {
        ItemsDetermined(p, items, r.items);
      }
    }
  }

  lemma {:induction false} FieldsAreGiven(p: Pass, made: (Doc, Doc) -> bool, left: Doc -> bool,
                                          fields: seq<Field>, r: seq<Field>)
    requires Describes(p, made, left)
    ensures CoerceFields(p, fields) == Ok(r) <==> FieldsGiven(fields, r, p.keys, made, left)
    decreases fields
  {
    hide Describes, Given;
    if |r| == |fields| {
      forall i | 0 <= i < |fields|
        ensures r[i].key == fields[i].key && Coerce(p, fields[i].value, fields[i].key) == Ok(r[i].value)
                <==> FieldGiven(fields[i], r[i], p.keys, made, left)
      {
        CoerceGives(p, made, left, fields[i].value, r[i].value, fields[i].key);
      }
      if FieldsGiven(fields, r, p.keys, made, left) { FieldsDetermined(p, fields, r); }
    }
  }

  /** The date pass gives exactly this, and nothing when there is no such result. */
  lemma DatesGive(clock: Clock, v: Doc, r: Doc, hint: string)
    ensures Coerce(Dates(clock), v, hint) == Ok(r) <==> DatesGiven(v, r, hint, clock)
  {
    hide DATE_KEYS;
    CoerceGives(Dates(clock), MadeDates(clock), x => LeftByDates(x), v, r, hint);
  }

  /** The decimal pass gives exactly this, and nothing when there is no such result. */
  lemma DecimalsGive(read: Reader, v: Doc, r: Doc, hint: string)
    ensures Coerce(Decimals(read), v, hint) == Ok(r) <==> DecimalsGiven(v, r, hint, read)
  {
    hide DECIMAL_KEYS;
    CoerceGives(Decimals(read), MadeDecimals(read), x => LeftByDecimals(x), v, r, hint);
  }
}
