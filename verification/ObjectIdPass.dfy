/** The pass that turns ObjectIds into their texts. */
module ObjectIdPass {
  import opened Options
  import opened Text
  import opened Documents

  /** `String(value)` for anything that is not a text; the texts themselves do not matter here. */
  type Stringifier = Doc -> string

  /** `objectIdToString` */
  function ObjectIdToString(v: Doc, str: Stringifier): Doc {
    match v
    case Null => Null
    case Undefined => Undefined
    case Str(_) => v
    case ObjectId(hex) => Str(hex)
    case Obj(fields) => if OidText(fields).Some? then Str(OidText(fields).value) else Str(str(v))
    case _ => Str(str(v))
  }

  /** The key ends in these letters, in either case. */
  predicate EndsIn(key: string, ending: string) {
    |key| >= |ending| && forall i | 0 <= i < |ending| :: LowerChar(key[|key| - |ending| + i]) == ending[i]
  }

  predicate NoLineEnd(s: string) { forall c | c in s :: c !in "\n\r\U{2028}\U{2029}" }

  /** `ID_KEY_HINT`: any key that ends in "id" or "ids", in either case, with no line end in front. */
  predicate IsIdKey(key: string) {
    (EndsIn(key, "id") && NoLineEnd(key[..|key| - 2])) || (EndsIn(key, "ids") && NoLineEnd(key[..|key| - 3]))
  }

  function Texts(items: seq<Doc>, str: Stringifier): (r: seq<Doc>)
    ensures |r| == |items|
  {
    seq(|items|, i requires 0 <= i < |items| => ObjectIdToString(items[i], str))
  }

  /** `convertObjectIdsDeep`; no hint is the empty text. */
  function Convert(v: Doc, hint: string, str: Stringifier): Doc
    decreases v
  {
    match v
    case Arr(items) => Arr(if EndsIn(hint, "ids") then Texts(items, str) else ConvertItems(items, str))
    case ObjectId(_) => ObjectIdToString(v, str)
    case Obj(fields) => if IsIdLike(fields) then ObjectIdToString(v, str) else Obj(ConvertFields(fields, str))
    case Decimal(fields) => if IsIdLike(fields) then ObjectIdToString(v, str) else Obj(ConvertFields(fields, str))
    case _ => v
  }

  function ConvertItems(items: seq<Doc>, str: Stringifier): (r: seq<Doc>)
    ensures |r| == |items|
    ensures forall i | 0 <= i < |items| :: r[i] == Convert(items[i], "", str)
    decreases items
  {
    if items == [] then [] else ConvertItems(items[..|items| - 1], str) + [Convert(items[|items| - 1], "", str)]
  }

  function ConvertField(f: Field, str: Stringifier): (r: Field)
    ensures r.key == f.key
    decreases f
  {
    Field(f.key, if IsIdKey(f.key) && IsObject(f.value)
                 then (if f.value.Arr? then Arr(Texts(f.value.items, str)) else ObjectIdToString(f.value, str))
                 else Convert(f.value, f.key, str))
  }

  function ConvertFields(fields: seq<Field>, str: Stringifier): (r: seq<Field>)
    ensures |r| == |fields|
    ensures forall i | 0 <= i < |fields| :: r[i] == ConvertField(fields[i], str)
    decreases fields
  {
    if fields == [] then []
    else ConvertFields(fields[..|fields| - 1], str) + [ConvertField(fields[|fields| - 1], str)]
  }

  /** The pass as the program runs it: arrays item by item, objects field by field into a new record. */
  method ConvertObjectIdsDeep(v: Doc, hint: string, str: Stringifier) returns (r: Doc)
    ensures r == Convert(v, hint, str)
    decreases v
  {
    match v
    case Arr(items) =>
      if EndsIn(hint, "ids") {
        return Arr(Texts(items, str));
      }
      var out := [];
      for i := 0 to |items|
        invariant out == ConvertItems(items[..i], str)
      {
        var item := ConvertObjectIdsDeep(items[i], "", str);
        assert items[..i + 1][..i] == items[..i];
        out := out + [item];
      }
      assert items[..|items|] == items;
      return Arr(out);
    case ObjectId(_) => return ObjectIdToString(v, str);
    case Obj(fields) => r := ConvertRecord(v, fields, str);
    case Decimal(fields) => r := ConvertRecord(v, fields, str);
    case _ => return v;
  }

  method ConvertRecord(v: Doc, fields: seq<Field>, str: Stringifier) returns (r: Doc)
    requires v == Obj(fields) || v == Decimal(fields)
    ensures r == Convert(v, "", str)
    decreases v, 0
  {
    if IsIdLike(fields) {
      return ObjectIdToString(v, str);
    }
    var out := [];
    for i := 0 to |fields|
      invariant out == ConvertFields(fields[..i], str)
    {
      var k, value := fields[i].key, fields[i].value;
      var converted: Doc;
      if IsIdKey(k) && !value.Arr? && IsObject(value) {
        converted := ObjectIdToString(value, str);
      } else if IsIdKey(k) && value.Arr? {
        converted := Arr(Texts(value.items, str));
      } else {
        converted := ConvertObjectIdsDeep(value, k, str);
      }
      assert fields[..i + 1][..i] == fields[..i];
      out := out + [Field(k, converted)];
    }
    assert fields[..|fields|] == fields;
    return Obj(out);
  }

  // ---------- No ObjectId is left ----------

  lemma {:induction false} NoObjectIdRemains(v: Doc, hint: string, str: Stringifier)
    ensures NoObjectIds(Convert(v, hint, str))
    decreases v
  {
    match v
    case Arr(items) =>
      forall i | 0 <= i < |items| ensures NoObjectIds(Convert(items[i], "", str)) {
        NoObjectIdRemains(items[i], "", str);
      }
    case Obj(fields) => if !IsIdLike(fields) { NoObjectIdInFields(fields, str); }
    case Decimal(fields) => if !IsIdLike(fields) { NoObjectIdInFields(fields, str); }
    case _ =>
  }

  lemma {:induction false} NoObjectIdInFields(fields: seq<Field>, str: Stringifier)
    ensures forall i | 0 <= i < |fields| :: NoObjectIds(ConvertField(fields[i], str).value)
    decreases fields
  {
    forall i | 0 <= i < |fields| ensures NoObjectIds(ConvertField(fields[i], str).value) {
      NoObjectIdRemains(fields[i].value, fields[i].key, str);
    }
  }

  // ---------- What the pass leaves alone ----------

  predicate IsText(v: Doc) { v.Null? || v.Undefined? || v.Str? }

  /** Nothing in the value is changed by the pass, told without running it. */
  predicate Clean(v: Doc, hint: string)
    decreases v
  {
    match v
    case Arr(items) =>
      if EndsIn(hint, "ids") then forall i | 0 <= i < |items| :: IsText(items[i])
      else forall i | 0 <= i < |items| :: Clean(items[i], "")
    case ObjectId(_) => false
    case Decimal(_) => false
    case Obj(fields) => !IsIdLike(fields) && forall i | 0 <= i < |fields| :: CleanField(fields[i])
    case _ => true
  }

  predicate CleanField(f: Field)
    decreases f
  {
    if IsIdKey(f.key) && IsObject(f.value)
    then f.value.Arr? && forall i | 0 <= i < |f.value.items| :: IsText(f.value.items[i])
    else Clean(f.value, f.key)
  }

  /** The pass changes nothing exactly when there is nothing to change. */
  lemma {:induction false} UnchangedIffClean(v: Doc, hint: string, str: Stringifier)
    ensures Convert(v, hint, str) == v <==> Clean(v, hint)
    decreases v
  {
    match v
    case Arr(items) =>
      var r := Convert(v, hint, str).items;
      forall i | 0 <= i < |items| && !EndsIn(hint, "ids") ensures r[i] == items[i] <==> Clean(items[i], "") {
        UnchangedIffClean(items[i], "", str);
      }
      assert r == items <==> forall i | 0 <= i < |items| :: r[i] == items[i];
    case Obj(fields) =>
      if !IsIdLike(fields) {
        var r := ConvertFields(fields, str);
        forall i | 0 <= i < |fields| ensures r[i] == fields[i] <==> CleanField(fields[i]) {
          FieldUnchangedIffClean(fields[i], str);
        }
        assert r == fields <==> forall i | 0 <= i < |fields| :: r[i] == fields[i];
      }
    case _ =>
  }

  lemma {:induction false} FieldUnchangedIffClean(f: Field, str: Stringifier)
    ensures ConvertField(f, str) == f <==> CleanField(f)
    decreases f
  {
    if IsIdKey(f.key) && IsObject(f.value) {
      if f.value.Arr? {
        var items, r := f.value.items, Texts(f.value.items, str);
        assert r == items <==> forall i | 0 <= i < |items| :: r[i] == items[i];
      }
    } else {
      UnchangedIffClean(f.value, f.key, str);
    }
  }

  // ---------- Running the pass twice ----------

  /** The value is an ObjectId, or stands for one, whose text is the tag of an ObjectId. */
  predicate BecomesTag(v: Doc, str: Stringifier) {
    && (v.ObjectId? || ((v.Obj? || v.Decimal?) && IsIdLike(if v.Obj? then v.fields else v.parts)))
    && ObjectIdToString(v, str) == Str("ObjectId")
  }

  /** No object met by the pass gets the tag of an ObjectId only through the pass. */
  predicate Undisguised(v: Doc, hint: string, str: Stringifier)
    decreases v
  {
    match v
    case Arr(items) => EndsIn(hint, "ids") || forall i | 0 <= i < |items| :: Undisguised(items[i], "", str)
    case Obj(fields) => IsIdLike(fields) || forall i | 0 <= i < |fields| :: UndisguisedField(fields[i], str)
    case Decimal(fields) => IsIdLike(fields) || forall i | 0 <= i < |fields| :: UndisguisedField(fields[i], str)
    case _ => true
  }

  predicate UndisguisedField(f: Field, str: Stringifier)
    decreases f
  {
    && (f.key == "_bsontype" ==> !BecomesTag(f.value, str))
    && ((IsIdKey(f.key) && IsObject(f.value)) || Undisguised(f.value, f.key, str))
  }

  /** What the pass gives is left alone by a second run exactly when no object was given the tag. */
  lemma {:induction false} CleanAfterIffUndisguised(v: Doc, hint: string, str: Stringifier)
    ensures Clean(Convert(v, hint, str), hint) <==> Undisguised(v, hint, str)
    decreases v
  {
    match v
    case Arr(items) =>
      if !EndsIn(hint, "ids") {
        forall i | 0 <= i < |items| ensures Clean(Convert(items[i], "", str), "") <==> Undisguised(items[i], "", str) {
          CleanAfterIffUndisguised(items[i], "", str);
        }
      }
    case Obj(fields) => if !IsIdLike(fields) { FieldsCleanAfter(fields, str); }
    case Decimal(fields) => if !IsIdLike(fields) { FieldsCleanAfter(fields, str); }
    case _ =>
  }

  lemma {:induction false} FieldsCleanAfter(fields: seq<Field>, str: Stringifier)
    requires !IsIdLike(fields)
    ensures Clean(Obj(ConvertFields(fields, str)), "")
            <==> forall i | 0 <= i < |fields| :: UndisguisedField(fields[i], str)
    decreases fields
  {
    var r := ConvertFields(fields, str);
    OidIsIdKey();
    forall i | 0 <= i < |fields|
      ensures CleanField(r[i]) <==> (IsIdKey(fields[i].key) && IsObject(fields[i].value))
                                    || Undisguised(fields[i].value, fields[i].key, str)
    {
      FieldCleanAfter(fields[i], str);
    }
    TagAfter(fields, str);
  }

  lemma {:induction false} FieldCleanAfter(f: Field, str: Stringifier)
    ensures CleanField(ConvertField(f, str))
            <==> (IsIdKey(f.key) && IsObject(f.value)) || Undisguised(f.value, f.key, str)
    decreases f
  {
    var r := ConvertField(f, str);
    if IsIdKey(f.key) && IsObject(f.value) {
      assert IsObject(r.value) ==> r.value.Arr?;
    } else {
      CleanAfterIffUndisguised(f.value, f.key, str);
    }
  }

  lemma OidIsIdKey()
    ensures IsIdKey("$oid") && !IsIdKey("_bsontype")
  {
    var k := "_bsontype";
    assert LowerChar(k[|k| - |"id"| + 1]) != "id"[1];
    assert LowerChar(k[|k| - |"ids"| + 2]) != "ids"[2];
  }

  /** The pass makes an object stand for an ObjectId exactly when it gives it the tag. */
  lemma {:induction false} TagAfter(fields: seq<Field>, str: Stringifier)
    requires !IsIdLike(fields)
    ensures IsIdLike(ConvertFields(fields, str))
            <==> exists i | 0 <= i < |fields| :: fields[i].key == "_bsontype" && BecomesTag(fields[i].value, str)
  {
    hide BecomesTag, ConvertField, Truthy, IsIdKey;
    var r := ConvertFields(fields, str);
    forall i | 0 <= i < |fields| && fields[i].key == "$oid" ensures !Truthy(r[i].value) {
      assert !Truthy(fields[i].value);
      FalsyStays(fields[i], str);
    }
    forall i | 0 <= i < |fields| && fields[i].key == "_bsontype"
      ensures r[i].value == Str("ObjectId") <==> BecomesTag(fields[i].value, str)
    {
      assert fields[i] in fields && fields[i] != Field("_bsontype", Str("ObjectId"));
      TagBecomes(fields[i], str);
    }
    if HasTag(r, "ObjectId") {
      var i :| 0 <= i < |r| && r[i] == Field("_bsontype", Str("ObjectId"));
      assert fields[i].key == "_bsontype" && BecomesTag(fields[i].value, str);
    }
    if i :| 0 <= i < |fields| && fields[i].key == "_bsontype" && BecomesTag(fields[i].value, str) {
      assert r[i] == Field("_bsontype", Str("ObjectId")) && r[i] in r;
    }
  }

  lemma FalsyStays(f: Field, str: Stringifier)
    requires !Truthy(f.value)
    ensures ConvertField(f, str) == f
  {
  }

  lemma TagBecomes(f: Field, str: Stringifier)
    requires f.key == "_bsontype" && f.value != Str("ObjectId")
    ensures ConvertField(f, str).value == Str("ObjectId") <==> BecomesTag(f.value, str)
  {
    OidIsIdKey();
  }

  /** A second run changes nothing exactly when no object was given the tag of an ObjectId by the first. */
  lemma ConvertTwice(v: Doc, hint: string, str: Stringifier)
    ensures Convert(Convert(v, hint, str), hint, str) == Convert(v, hint, str) <==> Undisguised(v, hint, str)
  {
    CleanAfterIffUndisguised(v, hint, str);
    UnchangedIffClean(Convert(v, hint, str), hint, str);
  }

  // ---------- What happens to everything else ----------

  /** A text or nothing stays, an ObjectId or an object with a text under `$oid` becomes it, all else its `String`. */
  predicate KeptAsText(v: Doc, r: Doc, str: Stringifier) {
    match v
    case Null => r == v
    case Undefined => r == v
    case Str(_) => r == v
    case ObjectId(hex) => r == Str(hex)
    case Obj(fields) => if OidText(fields).Some? then r == Str(OidText(fields).value) else r == Str(str(v))
    case _ => r == Str(str(v))
  }

  /**
   * Arrays keep their length, objects that do not stand for an ObjectId keep their keys in order, and every
   * other value stays what it is, except that what a hinted key holds becomes a text.
   */
  predicate Kept(v: Doc, r: Doc, hint: string, str: Stringifier)
    decreases v
  {
    match v
    case Arr(items) =>
      r.Arr? && |r.items| == |items| &&
      forall i | 0 <= i < |items| ::
        if EndsIn(hint, "ids") then KeptAsText(items[i], r.items[i], str) else Kept(items[i], r.items[i], "", str)
    case Obj(fields) => if IsIdLike(fields) then KeptAsText(v, r, str) else r.Obj? && FieldsKept(fields, r.fields, str)
    case Decimal(fields) => if IsIdLike(fields) then r == Str(str(v)) else r.Obj? && FieldsKept(fields, r.fields, str)
    case ObjectId(hex) => r == Str(hex)
    case _ => r == v
  }

  predicate FieldsKept(fields: seq<Field>, r: seq<Field>, str: Stringifier)
    decreases fields
  {
    |r| == |fields| && forall i | 0 <= i < |fields| :: KeptField(fields[i], r[i], str)
  }

  predicate KeptField(f: Field, r: Field, str: Stringifier)
    decreases f
  {
    && r.key == f.key
    && if IsIdKey(f.key) && IsObject(f.value) then
         if f.value.Arr? then
           r.value.Arr? && |r.value.items| == |f.value.items|
           && forall i | 0 <= i < |f.value.items| :: KeptAsText(f.value.items[i], r.value.items[i], str)
         else KeptAsText(f.value, r.value, str)
       else Kept(f.value, r.value, f.key, str)
  }

  lemma TextIsKeptAs(v: Doc, r: Doc, str: Stringifier)
    ensures r == ObjectIdToString(v, str) <==> KeptAsText(v, r, str)
  {
  }

  lemma TextsAreKept(items: seq<Doc>, r: seq<Doc>, str: Stringifier)
    ensures r == Texts(items, str)
            <==> |r| == |items| && forall i | 0 <= i < |items| :: KeptAsText(items[i], r[i], str)
  {
    hide ObjectIdToString, KeptAsText;
    forall i | 0 <= i < |items| && i < |r|
      ensures r[i] == ObjectIdToString(items[i], str) <==> KeptAsText(items[i], r[i], str)
    {
      TextIsKeptAs(items[i], r[i], str);
    }
  }

  /** The pass gives exactly this. */
  lemma {:induction false} ConvertKeeps(v: Doc, r: Doc, hint: string, str: Stringifier)
    ensures r == Convert(v, hint, str) <==> Kept(v, r, hint, str)
    decreases v
  {
    hide IsIdKey, EndsIn, IsIdLike, FieldsKept;
    match v
    case Arr(items) =>
      if r.Arr? && |r.items| == |items| {
        if EndsIn(hint, "ids") {
          TextsAreKept(items, r.items, str);
        } else {
          forall i | 0 <= i < |items|
            ensures r.items[i] == Convert(items[i], "", str) <==> Kept(items[i], r.items[i], "", str)
          {
            ConvertKeeps(items[i], r.items[i], "", str);
          }
          assert r.items == ConvertItems(items, str) <==>
                 forall i | 0 <= i < |items| :: r.items[i] == Convert(items[i], "", str);
        }
      }
    case Obj(fields) => if !IsIdLike(fields) && r.Obj? { FieldsKeep(fields, r.fields, str); }
    case Decimal(fields) => if !IsIdLike(fields) && r.Obj? { FieldsKeep(fields, r.fields, str); }
    case _ =>
  }

  lemma {:induction false} FieldsKeep(fields: seq<Field>, r: seq<Field>, str: Stringifier)
    ensures r == ConvertFields(fields, str) <==> FieldsKept(fields, r, str)
    decreases fields
  {
    hide ConvertField, KeptField;
    if |r| == |fields| {
      forall i | 0 <= i < |fields| ensures r[i] == ConvertField(fields[i], str) <==> KeptField(fields[i], r[i], str) {
        FieldKeeps(fields[i], r[i], str);
      }
      assert r == ConvertFields(fields, str) <==> forall i | 0 <= i < |fields| :: r[i] == ConvertField(fields[i], str);
    }
  }

  lemma {:induction false} FieldKeeps(f: Field, r: Field, str: Stringifier)
    ensures r == ConvertField(f, str) <==> KeptField(f, r, str)
    decreases f
  {
    hide IsIdKey;
    if IsIdKey(f.key) && IsObject(f.value) {
      if f.value.Arr? && r.value.Arr? {
        TextsAreKept(f.value.items, r.value.items, str);
      }
    } else {
      ConvertKeeps(f.value, r.value, f.key, str);
    }
  }

  /** The keys that the hint means: those that end in "id" or "ids" in any case, with no line end in front. */
  lemma IdKeyIff(key: string)
    ensures IsIdKey(key) <==>
              || (|key| >= 2 && Lower(key[|key| - 2..]) == "id" && NoLineEnd(key[..|key| - 2]))
              || (|key| >= 3 && Lower(key[|key| - 3..]) == "ids" && NoLineEnd(key[..|key| - 3]))
  {
    var id, ids := "id", "ids";
    EndIs(key, id);
    EndIs(key, ids);
    hide EndsIn, Lower, NoLineEnd;
  }

  /** An object stands for an ObjectId by a `$oid` that is not falsy, or by its tag. */
  lemma IdLikeIff(fields: seq<Field>)
    ensures IsIdLike(fields) <==>
              || (exists i | 0 <= i < |fields| :: fields[i].key == "$oid"
                    && fields[i].value !in {Undefined, Null, Bool(false), Num(0.0), Str("")})
              || Field("_bsontype", Str("ObjectId")) in fields
  {
  }

  lemma EndIs(key: string, ending: string)
    ensures EndsIn(key, ending) <==> |key| >= |ending| && Lower(key[|key| - |ending|..]) == ending
  {
    if |key| >= |ending| {
      var end := key[|key| - |ending|..];
      assert forall i | 0 <= i < |ending| :: Lower(end)[i] == LowerChar(key[|key| - |ending| + i]);
    }
  }

  // ---------- Dates ----------

  /** All dates in the document, in its order. */
  function AllDates(v: Doc): seq<Option<int>>
    decreases v
  {
    match v
    case Date(time) => [time]
    case Arr(items) => ItemDates(items)
    case Obj(fields) => FieldDates(fields)
    case Decimal(fields) => FieldDates(fields)
    case _ => []
  }

  function ItemDates(items: seq<Doc>): seq<Option<int>>
    decreases items
  {
    if items == [] then [] else ItemDates(items[..|items| - 1]) + AllDates(items[|items| - 1])
  }

  function FieldDates(fields: seq<Field>): seq<Option<int>>
    decreases fields
  {
    if fields == [] then [] else FieldDates(fields[..|fields| - 1]) + AllDates(fields[|fields| - 1].value)
  }

  /**
   * No date lies in an object or array under an id key, nor among the items under a key that ends in "ids", nor in an
   * object that stands for an ObjectId.
   */
  predicate DatesAreSafe(v: Doc, hint: string)
    decreases v
  {
    match v
    case Arr(items) =>
      if EndsIn(hint, "ids") then AllDates(v) == [] else ItemDatesAreSafe(items)
    case Obj(fields) =>
      if IsIdLike(fields) then AllDates(v) == [] else FieldsDatesAreSafe(fields)
    case Decimal(fields) =>
      if IsIdLike(fields) then AllDates(v) == [] else FieldsDatesAreSafe(fields)
    case _ => true
  }

  predicate ItemDatesAreSafe(items: seq<Doc>)
    decreases items
  {
    forall i | 0 <= i < |items| :: DatesAreSafe(items[i], "")
  }

  predicate FieldsDatesAreSafe(fields: seq<Field>)
    decreases fields
  {
    forall i | 0 <= i < |fields| :: FieldDatesAreSafe(fields[i])
  }

  predicate FieldDatesAreSafe(f: Field)
    decreases f
  {
    if IsIdKey(f.key) && IsObject(f.value) then AllDates(f.value) == [] else DatesAreSafe(f.value, f.key)
  }

  /** The dates r are the dates d, or fewer of them. */
  predicate SameOrFewer(r: seq<Option<int>>, d: seq<Option<int>>, same: bool) {
    if same then r == d else |r| < |d|
  }

  lemma SameOrFewerTogether(r: seq<Option<int>>, d: seq<Option<int>>, same: bool,
                            r': seq<Option<int>>, d': seq<Option<int>>, same': bool)
    requires SameOrFewer(r, d, same) && SameOrFewer(r', d', same')
    ensures SameOrFewer(r + r', d + d', same && same')
  {
  }

  lemma {:induction false} TextsHoldNoDates(items: seq<Doc>, str: Stringifier)
    ensures ItemDates(Texts(items, str)) == []
  {
    if items != [] {
      var n := |items| - 1;
      TextsHoldNoDates(items[..n], str);
      assert Texts(items, str)[..n] == Texts(items[..n], str);
    }
  }

  lemma {:induction false} DatesAfter(v: Doc, hint: string, str: Stringifier)
    ensures SameOrFewer(AllDates(Convert(v, hint, str)), AllDates(v), DatesAreSafe(v, hint))
    decreases v
  {
    hide IsIdKey, EndsIn, IsIdLike, ItemDates, FieldDates, ItemDatesAreSafe, FieldsDatesAreSafe, Texts, ConvertItems,
         ConvertFields;
    match v
    case Arr(items) => if EndsIn(hint, "ids") { TextsHoldNoDates(items, str); } else { ItemDatesAfter(items, str); }
    case Obj(fields) => if !IsIdLike(fields) { FieldDatesAfter(fields, str); }
    case Decimal(fields) => if !IsIdLike(fields) { FieldDatesAfter(fields, str); }
    case _ =>
  }

  lemma {:induction false} ItemDatesAfter(items: seq<Doc>, str: Stringifier)
    ensures SameOrFewer(ItemDates(ConvertItems(items, str)), ItemDates(items), ItemDatesAreSafe(items))
    decreases items
  {
    if items != [] {
      var n := |items| - 1;
      ItemDatesAfter(items[..n], str);
      DatesAfter(items[n], "", str);
      LastItem(items, n, str);
      hide SameOrFewer, ItemDatesAreSafe, ItemDates, AllDates, DatesAreSafe, Convert, ConvertItems;
      SameOrFewerTogether(ItemDates(ConvertItems(items[..n], str)), ItemDates(items[..n]), ItemDatesAreSafe(items[..n]),
                          AllDates(Convert(items[n], "", str)), AllDates(items[n]), DatesAreSafe(items[n], ""));
    }
  }

  lemma LastItem(items: seq<Doc>, n: nat, str: Stringifier)
    requires |items| == n + 1
    ensures ItemDatesAreSafe(items) <==> ItemDatesAreSafe(items[..n]) && DatesAreSafe(items[n], "")
    ensures ItemDates(items) == ItemDates(items[..n]) + AllDates(items[n])
    ensures ItemDates(ConvertItems(items, str))
            == ItemDates(ConvertItems(items[..n], str)) + AllDates(Convert(items[n], "", str))
  {
    LastItemSafe(items, n);
    hide ItemDatesAreSafe, Convert, AllDates;
    var r := ConvertItems(items, str);
    LastItemConverted(items, n, str);
    assert ItemDates(r) == ItemDates(r[..n]) + AllDates(r[n]);
  }

  lemma LastItemSafe(items: seq<Doc>, n: nat)
    requires |items| == n + 1
    ensures ItemDatesAreSafe(items) <==> ItemDatesAreSafe(items[..n]) && DatesAreSafe(items[n], "")
  {
    hide DatesAreSafe;
    var front := items[..n];
    assert forall i | 0 <= i < n :: front[i] == items[i];
  }

  lemma LastItemConverted(items: seq<Doc>, n: nat, str: Stringifier)
    requires |items| == n + 1
    ensures ConvertItems(items, str)[..n] == ConvertItems(items[..n], str)
  {
    hide Convert;
  }

  lemma {:induction false} FieldDatesAfter(fields: seq<Field>, str: Stringifier)
    ensures SameOrFewer(FieldDates(ConvertFields(fields, str)), FieldDates(fields), FieldsDatesAreSafe(fields))
    decreases fields
  {
    if fields != [] {
      var n := |fields| - 1;
      var f, r := fields[n], ConvertField(fields[n], str);
      FieldDatesAfter(fields[..n], str);
      OneFieldDatesAfter(f, str);
      LastField(fields, n, str);
      hide SameOrFewer, FieldsDatesAreSafe, FieldDates, AllDates, FieldDatesAreSafe, ConvertField, ConvertFields;
      SameOrFewerTogether(FieldDates(ConvertFields(fields[..n], str)), FieldDates(fields[..n]),
                          FieldsDatesAreSafe(fields[..n]),
                          AllDates(r.value), AllDates(f.value), FieldDatesAreSafe(f));
    }
  }

  lemma LastField(fields: seq<Field>, n: nat, str: Stringifier)
    requires |fields| == n + 1
    ensures FieldsDatesAreSafe(fields) <==> FieldsDatesAreSafe(fields[..n]) && FieldDatesAreSafe(fields[n])
    ensures FieldDates(fields) == FieldDates(fields[..n]) + AllDates(fields[n].value)
    ensures FieldDates(ConvertFields(fields, str))
            == FieldDates(ConvertFields(fields[..n], str)) + AllDates(ConvertField(fields[n], str).value)
  {
    LastFieldSafe(fields, n);
    hide FieldsDatesAreSafe, ConvertField, AllDates;
    var r := ConvertFields(fields, str);
    LastFieldConverted(fields, n, str);
    assert FieldDates(r) == FieldDates(r[..n]) + AllDates(r[n].value);
  }

  lemma LastFieldSafe(fields: seq<Field>, n: nat)
    requires |fields| == n + 1
    ensures FieldsDatesAreSafe(fields) <==> FieldsDatesAreSafe(fields[..n]) && FieldDatesAreSafe(fields[n])
  {
    hide FieldDatesAreSafe;
    var front := fields[..n];
    assert forall i | 0 <= i < n :: front[i] == fields[i];
  }

  lemma LastFieldConverted(fields: seq<Field>, n: nat, str: Stringifier)
    requires |fields| == n + 1
    ensures ConvertFields(fields, str)[..n] == ConvertFields(fields[..n], str)
  {
    hide ConvertField;
  }

  lemma {:induction false} OneFieldDatesAfter(f: Field, str: Stringifier)
    ensures SameOrFewer(AllDates(ConvertField(f, str).value), AllDates(f.value), FieldDatesAreSafe(f))
    decreases f
  {
    if IsIdKey(f.key) && IsObject(f.value) {
      if f.value.Arr? { TextsHoldNoDates(f.value.items, str); }
    } else {
      DatesAfter(f.value, f.key, str);
    }
  }

  /** The pass keeps every date of a document in its place in the order exactly when none lies where it makes texts. */
  lemma DatesSurviveIffSafe(v: Doc, hint: string, str: Stringifier)
    ensures AllDates(Convert(v, hint, str)) == AllDates(v) <==> DatesAreSafe(v, hint)
    ensures |AllDates(Convert(v, hint, str))| <= |AllDates(v)|
  {
    DatesAfter(v, hint, str);
  }

  // ---------- Inputs on which the pass does less than it promises ----------

  /** The hint ignores case, so a date under "paid" becomes a text. */
  lemma PaidDateIsLost(time: Option<int>, str: Stringifier)
    ensures Convert(Obj([Field("paid", Date(time))]), "", str) == Obj([Field("paid", Str(str(Date(time))))])
    ensures !DatesAreSafe(Obj([Field("paid", Date(time))]), "")
  {
    assert IsIdKey("paid");
    var fields := [Field("paid", Date(time))];
    assert fields[0].key == "paid" && !FieldDatesAreSafe(fields[0]);
  }

  /** A date below an id key becomes part of a text, whatever its own key is. */
  lemma NestedDateIsLost(time: Option<int>, str: Stringifier)
    ensures var user := Obj([Field("at", Date(time))]);
            && Convert(Obj([Field("userId", user)]), "", str) == Obj([Field("userId", Str(str(user)))])
            && !DatesAreSafe(Obj([Field("userId", user)]), "")
  {
    assert IsIdKey("userId") by { UserIdIsIdKey(); }
    hide IsIdKey, EndsIn;
    var user, fields := Obj([Field("at", Date(time))]), [Field("userId", Obj([Field("at", Date(time))]))];
    assert fields[0] == Field("userId", user) && user.fields[0].key == "at";
    assert OidText(user.fields) == None by { assert user.fields[1..] == []; }
    assert !IsIdLike(fields);
    assert ConvertFields(fields, str) == [ConvertField(fields[0], str)];
    assert FieldDates(user.fields) == [] + [time];
    assert !FieldDatesAreSafe(fields[0]);
  }

  lemma UserIdIsIdKey()
    ensures IsIdKey("userId")
  {
    var k, id := "userId", "id";
    assert LowerChar(k[|k| - |id| + 0]) == id[0] && LowerChar(k[|k| - |id| + 1]) == id[1];
  }

  /** An object whose type is named by an ObjectId gets the tag of an ObjectId, and a second run makes it a text. */
  lemma SecondRunMakesText(str: Stringifier)
    ensures var v := Obj([Field("_bsontype", Obj([Field("$oid", Str("ObjectId"))]))]);
            && !Undisguised(v, "", str)
            && Convert(v, "", str) == Obj([Field("_bsontype", Str("ObjectId"))])
            && Convert(Convert(v, "", str), "", str).Str?
  {
    var tag := Obj([Field("$oid", Str("ObjectId"))]);
    OidStandsForId(tag, str);
    TagIsGiven([Field("_bsontype", tag)], str);
  }

  lemma OidStandsForId(v: Doc, str: Stringifier)
    requires v == Obj([Field("$oid", Str("ObjectId"))])
    ensures BecomesTag(v, str) && Convert(v, "_bsontype", str) == Str("ObjectId")
  {
    assert v.fields[0].key == "$oid" && Truthy(v.fields[0].value);
  }

  lemma TagIsGiven(fields: seq<Field>, str: Stringifier)
    requires |fields| == 1 && fields[0].key == "_bsontype" && !fields[0].value.Str? && BecomesTag(fields[0].value, str)
    requires Convert(fields[0].value, "_bsontype", str) == Str("ObjectId")
    ensures !Undisguised(Obj(fields), "", str)
    ensures var r := Convert(Obj(fields), "", str);
            r == Obj([Field("_bsontype", Str("ObjectId"))]) && Convert(r, "", str).Str?
  {
    OtherKeyIsNoId(fields);
    hide IsIdKey, EndsIn, Truthy, BecomesTag, IsIdLike;
    TagIsText(fields[0], str);
    var r := ConvertFields(fields, str);
    assert r == [Field("_bsontype", Str("ObjectId"))];
    TagStandsForId(r);
    assert !UndisguisedField(fields[0], str);
  }

  lemma TagIsText(f: Field, str: Stringifier)
    requires f.key == "_bsontype" && Convert(f.value, "_bsontype", str) == Str("ObjectId")
    ensures ConvertField(f, str) == Field("_bsontype", Str("ObjectId"))
  {
    OidIsIdKey();
    hide IsIdKey, EndsIn;
  }

  lemma OtherKeyIsNoId(fields: seq<Field>)
    requires |fields| == 1 && fields[0].key != "$oid" && fields[0] != Field("_bsontype", Str("ObjectId"))
    ensures !IsIdLike(fields)
  {
  }

  lemma TagStandsForId(fields: seq<Field>)
    requires fields == [Field("_bsontype", Str("ObjectId"))]
    ensures IsIdLike(fields)
  {
    assert fields[0] in fields;
  }
}
