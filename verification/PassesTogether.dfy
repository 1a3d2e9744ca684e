/** The three passes of `transformDocument` one after the other, and what their result holds. */
module PassesTogether {
  import opened Options
  import opened Text
  import opened Documents
  import opened ObjectIdPass
  import opened CoercionPasses

  /** The three passes of `transformDocument` in their order. */
  function ThreePasses(raw: Doc, str: Stringifier, clock: Clock, read: Reader): Result<Doc> {
    match Coerce(Dates(clock), Convert(raw, "", str), "")
    case Invalid => Invalid
    case Ok(dated) => Coerce(Decimals(read), dated, "")
  }

  /** The date pass, left out inside objects that carry the tag of an ObjectId, and then the decimal pass. */
  function Rest(w: Doc, hint: string, skip: bool, clock: Clock, read: Reader): Result<Doc> {
    match (if skip then Ok(w) else Coerce(Dates(clock), w, hint))
    case Invalid => Invalid
    case Ok(dated) => Coerce(Decimals(read), dated, hint)
  }

  // ---------- The keys ----------

  lemma KeysAreDisjoint()
    ensures DATE_KEYS !! DECIMAL_KEYS && "_bsontype" !in DECIMAL_KEYS
  {
  }

  /** The last two letters tell that a key is no id key. */
  predicate PlainEnd(k: string) {
    |k| > 2 && k[|k| - 1] !in "DsS" && (k[|k| - 1] == 'd' ==> k[|k| - 2] == 'l')
  }

  lemma PlainDateKeys()
    ensures forall k | k in DATE_KEYS :: PlainEnd(k) && k != "_bsontype"
  {
  }

  lemma PlainDecimalKeys()
    ensures forall k | k in DECIMAL_KEYS :: PlainEnd(k) && k != "_bsontype"
  {
  }

  lemma KeyFacts()
    ensures DATE_KEYS !! DECIMAL_KEYS
    ensures forall k | k in DATE_KEYS || k in DECIMAL_KEYS :: !IsIdKey(k) && k != "" && k != "_bsontype"
  {
    KeysAreDisjoint();
    PlainDateKeys();
    PlainDecimalKeys();
    hide DATE_KEYS, DECIMAL_KEYS;
    forall k | k in DATE_KEYS || k in DECIMAL_KEYS ensures !IsIdKey(k) && k != "" && k != "_bsontype" { NoIdKey(k); }
  }

  lemma NoIdKey(k: string)
    requires PlainEnd(k)
    ensures !IsIdKey(k)
  {
    var n, id, ids := |k|, "id", "ids";
    assert !EndsIn(k, "id") by {
      assert LowerChar(k[n - |id| + 1]) != id[1] || LowerChar(k[n - |id| + 0]) != id[0];
    }
    assert !EndsIn(k, "ids") by {
      assert LowerChar(k[n - |ids| + 2]) != ids[2];
    }
  }

  // ---------- How the two later passes walk ----------

  lemma RestOfItems(items: seq<Doc>, hint: string, skip: bool, clock: Clock, read: Reader)
    requires (skip || hint !in DATE_KEYS) && hint !in DECIMAL_KEYS && Rest(Arr(items), hint, skip, clock, read).Ok?
    ensures var r := Rest(Arr(items), hint, skip, clock, read).value;
            && r.Arr? && |r.items| == |items|
            && forall i | 0 <= i < |items| :: Rest(items[i], "", skip, clock, read) == Ok(r.items[i])
  {
    hide DATE_KEYS, DECIMAL_KEYS;
    var dated := if skip then items else CoerceItems(Dates(clock), items).value;
    var r := CoerceItems(Decimals(read), dated).value;
    forall i | 0 <= i < |items| ensures Rest(items[i], "", skip, clock, read) == Ok(r[i]) {
      assert skip || Coerce(Dates(clock), items[i], "") == Ok(dated[i]);
      assert Coerce(Decimals(read), dated[i], "") == Ok(r[i]);
    }
  }

  lemma PassOfFields(p: Pass, fields: seq<Field>, hint: string)
    requires hint !in p.keys && !p.leaf(Obj(fields)) && Coerce(p, Obj(fields), hint).Ok?
    ensures var r := Coerce(p, Obj(fields), hint).value;
            && r.Obj? && |r.fields| == |fields|
            && forall i | 0 <= i < |fields| ::
                 r.fields[i].key == fields[i].key && Coerce(p, fields[i].value, fields[i].key) == Ok(r.fields[i].value)
  {
  }

  lemma RestOfFields(fields: seq<Field>, hint: string, skip: bool, clock: Clock, read: Reader)
    requires (skip || hint !in DATE_KEYS) && hint !in DECIMAL_KEYS && Rest(Obj(fields), hint, skip, clock, read).Ok?
    ensures var r := Rest(Obj(fields), hint, skip, clock, read).value;
            && r.Obj? && |r.fields| == |fields|
            && forall i | 0 <= i < |fields| :: r.fields[i].key == fields[i].key &&
                 Rest(fields[i].value, fields[i].key, skip || HasTag(fields, "ObjectId"), clock, read)
                 == Ok(r.fields[i].value)
  {
    var skips := skip || HasTag(fields, "ObjectId");
    assert skip || (Dates(clock).leaf(Obj(fields)) <==> HasTag(fields, "ObjectId"));
    if !skips { PassOfFields(Dates(clock), fields, hint); }
    hide DATE_KEYS, DECIMAL_KEYS, HasTag, Coerce;
    var dated := if skips then fields else Coerce(Dates(clock), Obj(fields), hint).value.fields;
    assert skips ==> skip || Coerce(Dates(clock), Obj(fields), hint) == Ok(Obj(fields));
    PassOfFields(Decimals(read), dated, hint);
    var r := Coerce(Decimals(read), Obj(dated), hint).value.fields;
    forall i | 0 <= i < |fields|
      ensures r[i].key == fields[i].key && Rest(fields[i].value, fields[i].key, skips, clock, read) == Ok(r[i].value)
    {
      assert dated[i].key == fields[i].key;
      assert skips || Coerce(Dates(clock), fields[i].value, fields[i].key) == Ok(dated[i].value);
      assert Coerce(Decimals(read), dated[i].value, dated[i].key) == Ok(r[i].value);
    }
  }

  lemma RestUnderDateKey(w: Doc, hint: string, clock: Clock, read: Reader)
    requires Rest(w, hint, false, clock, read).Ok? && hint in DATE_KEYS && !w.Null? && !w.Undefined?
    ensures Rest(w, hint, false, clock, read).value.Date?
  {
    KeyFacts();
    hide DATE_KEYS, DECIMAL_KEYS;
  }

  /** Under any other key, objects stay objects and all else stays as it is. */
  lemma RestUnderOtherKey(w: Doc, hint: string, skip: bool, clock: Clock, read: Reader)
    requires (skip || hint !in DATE_KEYS) && hint !in DECIMAL_KEYS
    requires Rest(w, hint, skip, clock, read).Ok?
    ensures var r := Rest(w, hint, skip, clock, read).value;
            (IsObject(w) ==> IsObject(r)) && (!IsObject(w) || w.Date? ==> r == w)
  {
    hide DATE_KEYS, DECIMAL_KEYS;
  }

  lemma ConvertGives(v: Doc, hint: string, str: Stringifier)
    requires !v.Null? && !v.Undefined?
    ensures var w := Convert(v, hint, str); !w.Null? && !w.Undefined? && !w.Decimal? && !w.ObjectId?
  {
  }

  lemma {:induction false} TextsStay(items: seq<Doc>, hint: string, skip: bool, str: Stringifier,
                                     clock: Clock, read: Reader)
    requires (skip || hint !in DATE_KEYS) && hint !in DECIMAL_KEYS
    requires Rest(Arr(Texts(items, str)), hint, skip, clock, read).Ok?
    ensures Rest(Arr(Texts(items, str)), hint, skip, clock, read).value == Arr(Texts(items, str))
  {
    KeyFacts();
    hide DATE_KEYS, DECIMAL_KEYS, Rest;
    var w := Texts(items, str);
    RestOfItems(w, hint, skip, clock, read);
    var r := Rest(Arr(w), hint, skip, clock, read).value.items;
    forall i | 0 <= i < |w| ensures r[i] == w[i] { RestUnderOtherKey(w[i], "", skip, clock, read); }
    assert r == w;
  }

  // ---------- No ObjectId is left ----------

  /** A conversion that makes no ObjectIds. */
  ghost predicate MakesNoObjectIds(p: Pass) {
    forall v :: p.coerce(v).Ok? && NoObjectIds(v) ==> NoObjectIds(p.coerce(v).value)
  }

  lemma {:induction false} StaysWithoutObjectIds(p: Pass, v: Doc, hint: string)
    requires MakesNoObjectIds(p) && NoObjectIds(v) && Coerce(p, v, hint).Ok?
    ensures NoObjectIds(Coerce(p, v, hint).value)
    decreases v
  {
    if v.Null? || v.Undefined? || hint in p.keys {
    } else if v.Arr? {
      var r := CoerceItems(p, v.items).value;
      forall i | 0 <= i < |r| ensures NoObjectIds(r[i]) {
        assert Coerce(p, v.items[i], "") == Ok(r[i]);
        StaysWithoutObjectIds(p, v.items[i], "");
      }
    } else if IsObject(v) && !p.leaf(v) {
      var fields := Entries(v);
      var r := CoerceFields(p, fields).value;
      forall i | 0 <= i < |r| ensures NoObjectIds(r[i].value) {
        assert Coerce(p, fields[i].value, fields[i].key) == Ok(r[i].value);
        StaysWithoutObjectIds(p, fields[i].value, fields[i].key);
      }
    }
  }

  /** When the three passes succeed, no ObjectId is left, if the fields of a decimal are none themselves. */
  lemma {:induction false} NoObjectIdIsLeft(raw: Doc, str: Stringifier, clock: Clock, read: Reader)
    requires forall v :: read(v).Some? ==> NoObjectIds(Decimal(read(v).value))
    requires ThreePasses(raw, str, clock, read).Ok?
    ensures NoObjectIds(ThreePasses(raw, str, clock, read).value)
  {
    hide DATE_KEYS, DECIMAL_KEYS;
    var texts := Convert(raw, "", str);
    NoObjectIdRemains(raw, "", str);
    assert MakesNoObjectIds(Dates(clock)) && MakesNoObjectIds(Decimals(read));
    StaysWithoutObjectIds(Dates(clock), texts, "");
    StaysWithoutObjectIds(Decimals(read), Coerce(Dates(clock), texts, "").value, "");
  }

  // ---------- What the keys hold ----------

  datatype Kind = IsDate | IsDecimal

  predicate OfKind(v: Doc, kind: Kind) {
    v.Null? || v.Undefined? || (if kind == IsDate then v.Date? else v.Decimal?)
  }

  /** At every depth, the values under these keys are of the kind. */
  predicate Holds(v: Doc, hint: string, keys: set<string>, kind: Kind)
    decreases v
  {
    if hint in keys then OfKind(v, kind)
    else match v
         case Arr(items) => forall i | 0 <= i < |items| :: Holds(items[i], "", keys, kind)
         case Obj(fields) => forall i | 0 <= i < |fields| :: Holds(fields[i].value, fields[i].key, keys, kind)
         case _ => true
  }

  lemma {:induction false} SettledDecimalsHold(read: Reader, v: Doc, hint: string)
    requires Settled(Decimals(read), v, hint)
    ensures Holds(v, hint, DECIMAL_KEYS, IsDecimal)
    decreases v
  {
    hide DECIMAL_KEYS;
    if hint !in DECIMAL_KEYS {
      match v
      case Arr(items) =>
        forall i | 0 <= i < |items| ensures Holds(items[i], "", DECIMAL_KEYS, IsDecimal) {
          SettledDecimalsHold(read, items[i], "");
        }
      case Obj(fields) =>
        forall i | 0 <= i < |fields| ensures Holds(fields[i].value, fields[i].key, DECIMAL_KEYS, IsDecimal) {
          SettledDecimalsHold(read, fields[i].value, fields[i].key);
        }
      case _ =>
    }
  }

  /** The object gets the tag of an ObjectId by the first pass. */
  predicate GetsTag(fields: seq<Field>, str: Stringifier) {
    exists i | 0 <= i < |fields| :: fields[i].key == "_bsontype" && BecomesTag(fields[i].value, str)
  }

  /**
   * Told from the input alone: below an object that gets the tag of an ObjectId, where the date pass does not go, the
   * date keys hold dates already.
   */
  predicate DatesReached(v: Doc, hint: string, tagged: bool, str: Stringifier)
    decreases v
  {
    if v.Null? || v.Undefined? || hint in DECIMAL_KEYS then true
    else if hint in DATE_KEYS then !tagged || v.Date?
    else match v
         case Arr(items) =>
           EndsIn(hint, "ids") || forall i | 0 <= i < |items| :: DatesReached(items[i], "", tagged, str)
         case Obj(fields) => IsIdLike(fields) || FieldsReached(fields, tagged || GetsTag(fields, str), str)
         case Decimal(fields) => IsIdLike(fields) || FieldsReached(fields, tagged || GetsTag(fields, str), str)
         case _ => true
  }

  predicate FieldsReached(fields: seq<Field>, tagged: bool, str: Stringifier)
    decreases fields
  {
    forall i | 0 <= i < |fields| :: FieldReached(fields[i], tagged, str)
  }

  predicate FieldReached(f: Field, tagged: bool, str: Stringifier)
    decreases f
  {
    (IsIdKey(f.key) && IsObject(f.value)) || DatesReached(f.value, f.key, tagged, str)
  }

  lemma RestIsDecimal(w: Doc, hint: string, skip: bool, clock: Clock, read: Reader)
    requires Rest(w, hint, skip, clock, read).Ok? && hint in DECIMAL_KEYS && !w.Null? && !w.Undefined?
    ensures Rest(w, hint, skip, clock, read).value.Decimal?
  {
    KeyFacts();
    hide DATE_KEYS, DECIMAL_KEYS, HasTag;
  }

  /** Without the date pass, a date key holds a date only if it did before. */
  lemma RestWithoutDates(w: Doc, hint: string, clock: Clock, read: Reader)
    requires Rest(w, hint, true, clock, read).Ok? && hint in DATE_KEYS && !w.Null? && !w.Undefined?
    ensures OfKind(Rest(w, hint, true, clock, read).value, IsDate) <==> w.Date?
  {
    KeyFacts();
    hide DATE_KEYS, DECIMAL_KEYS;
  }

  lemma {:induction false} DatesHoldIff(v: Doc, hint: string, tagged: bool, str: Stringifier,
                                        clock: Clock, read: Reader)
    requires Rest(Convert(v, hint, str), hint, tagged, clock, read).Ok?
    ensures Holds(Rest(Convert(v, hint, str), hint, tagged, clock, read).value, hint, DATE_KEYS, IsDate)
            <==> DatesReached(v, hint, tagged, str)
    decreases v
  {
    KeyFacts();
    hide DATE_KEYS, DECIMAL_KEYS, IsIdKey, EndsIn, IsIdLike, Rest, GetsTag;
    var w := Convert(v, hint, str);
    if v.Null? || v.Undefined? {
      NothingStays(v, hint, tagged, clock, read);
    } else {
      ConvertGives(v, hint, str);
      if hint in DATE_KEYS {
        if tagged { RestWithoutDates(w, hint, clock, read); } else { RestUnderDateKey(w, hint, clock, read); }
      } else if hint in DECIMAL_KEYS {
        RestIsDecimal(w, hint, tagged, clock, read);
      } else {
        match v
        case Arr(items) => ItemDatesHoldIff(items, hint, tagged, str, clock, read);
        case Obj(fields) =>
          if !IsIdLike(fields) { FieldDatesHoldIff(fields, hint, tagged, str, clock, read); }
          else { RestUnderOtherKey(w, hint, tagged, clock, read); }
        case Decimal(fields) =>
          if !IsIdLike(fields) { FieldDatesHoldIff(fields, hint, tagged, str, clock, read); }
          else { RestUnderOtherKey(w, hint, tagged, clock, read); }
        case _ => RestUnderOtherKey(w, hint, tagged, clock, read);
      }
    }
  }

  lemma NothingStays(v: Doc, hint: string, skip: bool, clock: Clock, read: Reader)
    requires v.Null? || v.Undefined?
    ensures Rest(v, hint, skip, clock, read) == Ok(v)
  {
    hide DATE_KEYS, DECIMAL_KEYS;
  }

  lemma {:induction false} ItemDatesHoldIff(items: seq<Doc>, hint: string, tagged: bool, str: Stringifier,
                                            clock: Clock, read: Reader)
    requires hint !in DATE_KEYS && hint !in DECIMAL_KEYS
    requires Rest(Convert(Arr(items), hint, str), hint, tagged, clock, read).Ok?
    ensures Holds(Rest(Convert(Arr(items), hint, str), hint, tagged, clock, read).value, hint, DATE_KEYS, IsDate)
            <==> DatesReached(Arr(items), hint, tagged, str)
    decreases items
  {
    KeyFacts();
    hide DATE_KEYS, DECIMAL_KEYS, IsIdKey, EndsIn, Rest, IsIdLike, GetsTag;
    if EndsIn(hint, "ids") {
      TextsStay(items, hint, tagged, str, clock, read);
    } else {
      var w := ConvertItems(items, str);
      RestOfItems(w, hint, tagged, clock, read);
      var r := Rest(Arr(w), hint, tagged, clock, read).value.items;
      forall i | 0 <= i < |items|
        ensures Holds(r[i], "", DATE_KEYS, IsDate) <==> DatesReached(items[i], "", tagged, str)
      {
        DatesHoldIff(items[i], "", tagged, str, clock, read);
      }
    }
  }

  lemma {:induction false} FieldDatesHoldIff(fields: seq<Field>, hint: string, tagged: bool, str: Stringifier,
                                             clock: Clock, read: Reader)
    requires hint !in DATE_KEYS && hint !in DECIMAL_KEYS
    requires !IsIdLike(fields) && Rest(Obj(ConvertFields(fields, str)), hint, tagged, clock, read).Ok?
    ensures Holds(Rest(Obj(ConvertFields(fields, str)), hint, tagged, clock, read).value, hint, DATE_KEYS, IsDate)
            <==> FieldsReached(fields, tagged || GetsTag(fields, str), str)
    decreases fields
  {
    KeyFacts();
    TagIsOnlySign(fields, str);
    assert tagged || HasTag(ConvertFields(fields, str), "ObjectId") <==> tagged || GetsTag(fields, str);
    hide DATE_KEYS, DECIMAL_KEYS, IsIdKey, EndsIn, Rest, IsIdLike, HasTag, GetsTag, FieldReached, ConvertField, Holds,
         FieldsReached, BecomesTag;
    var w := ConvertFields(fields, str);
    var skip := tagged || GetsTag(fields, str);
    RestOfFields(w, hint, tagged, clock, read);
    var r := Rest(Obj(w), hint, tagged, clock, read).value.fields;
    forall i | 0 <= i < |fields|
      ensures Holds(r[i].value, r[i].key, DATE_KEYS, IsDate) <==> FieldReached(fields[i], skip, str)
    {
      var f := fields[i];
      assert w[i] == ConvertField(f, str) && r[i].key == w[i].key == f.key;
      assert Rest(w[i].value, w[i].key, skip, clock, read) == Ok(r[i].value);
      OneFieldDatesHoldIff(f, r[i].value, skip, str, clock, read);
    }
    EveryField(r, hint, fields, skip, str);
  }

  lemma EveryField(r: seq<Field>, hint: string, fields: seq<Field>, tagged: bool, str: Stringifier)
    requires hint !in DATE_KEYS && |r| == |fields|
    requires forall i | 0 <= i < |fields| ::
               Holds(r[i].value, r[i].key, DATE_KEYS, IsDate) <==> FieldReached(fields[i], tagged, str)
    ensures Holds(Obj(r), hint, DATE_KEYS, IsDate) <==> FieldsReached(fields, tagged, str)
  {
    hide DATE_KEYS, FieldReached;
  }

  /** After the first pass an object stands for an ObjectId only by its tag. */
  lemma TagIsOnlySign(fields: seq<Field>, str: Stringifier)
    requires !IsIdLike(fields)
    ensures var w := ConvertFields(fields, str);
            (IsIdLike(w) <==> HasTag(w, "ObjectId")) && (HasTag(w, "ObjectId") <==> GetsTag(fields, str))
  {
    TagAfter(fields, str);
    hide IsIdKey, EndsIn, BecomesTag, HasTag, Truthy;
    var w := ConvertFields(fields, str);
    forall i | 0 <= i < |w| && w[i].key == "$oid" ensures !Truthy(w[i].value) {
      assert !Truthy(fields[i].value);
      FalsyStays(fields[i], str);
    }
  }

  lemma {:induction false} OneFieldDatesHoldIff(f: Field, r: Doc, tagged: bool, str: Stringifier,
                                                clock: Clock, read: Reader)
    requires Rest(ConvertField(f, str).value, f.key, tagged, clock, read) == Ok(r)
    ensures Holds(r, f.key, DATE_KEYS, IsDate) <==> FieldReached(f, tagged, str)
    decreases f
  {
    KeyFacts();
    hide DATE_KEYS, DECIMAL_KEYS, IsIdKey, EndsIn, IsIdLike, GetsTag, Rest;
    if IsIdKey(f.key) && IsObject(f.value) {
      if f.value.Arr? {
        TextsStay(f.value.items, f.key, tagged, str, clock, read);
      } else {
        RestUnderOtherKey(ConvertField(f, str).value, f.key, tagged, clock, read);
      }
    } else {
      DatesHoldIff(f.value, f.key, tagged, str, clock, read);
    }
  }

  /**
   * When the three passes succeed, no ObjectId is left and every decimal key holds a decimal or nothing, at every
   * depth. Every date key holds a date or nothing exactly when this was so below the objects that get the tag of an
   * ObjectId. The fields of a decimal must not be ObjectIds themselves.
   */
  lemma {:induction false} ThreePassesDeliver(raw: Doc, str: Stringifier, clock: Clock, read: Reader)
    requires forall v :: read(v).Some? ==> NoObjectIds(Decimal(read(v).value))
    requires ThreePasses(raw, str, clock, read).Ok?
    ensures var r := ThreePasses(raw, str, clock, read).value;
            && NoObjectIds(r) && Holds(r, "", DECIMAL_KEYS, IsDecimal)
            && (Holds(r, "", DATE_KEYS, IsDate) <==> DatesReached(raw, "", false, str))
  {
    NoObjectIdIsLeft(raw, str, clock, read);
    PassesAreStable(clock, read);
    hide DATE_KEYS, DECIMAL_KEYS;
    var texts := Convert(raw, "", str);
    var r := ThreePasses(raw, str, clock, read).value;
    assert Rest(texts, "", false, clock, read) == Ok(r);
    DatesHoldIff(raw, "", false, str, clock, read);
    ResultIsSettled(Decimals(read), Coerce(Dates(clock), texts, "").value, "");
    SettledDecimalsHold(read, r, "");
  }

  // ---------- What every value becomes ----------

  /** The three passes give exactly what the three relations say, one after the other, and fail when nothing does. */
  lemma ThreePassesGive(raw: Doc, r: Doc, str: Stringifier, clock: Clock, read: Reader)
    ensures ThreePasses(raw, str, clock, read) == Ok(r)
            <==> exists c, d :: Kept(raw, c, "", str) && DatesGiven(c, d, "", clock) && DecimalsGiven(d, r, "", read)
  {
    hide Kept, DatesGiven, DecimalsGiven, Coerce, Dates, Decimals;
    var first := Convert(raw, "", str);
    forall c, d
      ensures Kept(raw, c, "", str) && DatesGiven(c, d, "", clock) && DecimalsGiven(d, r, "", read)
              <==> c == first && Coerce(Dates(clock), c, "") == Ok(d) && Coerce(Decimals(read), d, "") == Ok(r)
    {
      ConvertKeeps(raw, c, "", str);
      DatesGive(clock, c, d, "");
      DecimalsGive(read, d, r, "");
    }
    if Coerce(Dates(clock), first, "").Ok? {
      var d := Coerce(Dates(clock), first, "").value;
      assert ThreePasses(raw, str, clock, read) == Ok(r) ==>
               Kept(raw, first, "", str) && DatesGiven(first, d, "", clock) && DecimalsGiven(d, r, "", read);
    }
  }

  /** What a decimal key gets: the decimal of the value, or of the text of what the date pass leaves of it. */
  ghost predicate DecimalUnder(w: Doc, r: Doc, read: Reader) {
    if w.Arr? || w.Obj? then r.Decimal? && exists d: Doc :: (d.Arr? <==> w.Arr?) && DecimalFrom(d, r, read)
    else DecimalFrom(w, r, read)
  }

  /**
   * A raw value and what becomes of it. Under a date key it is the date of the value, unless the object has got an
   * ObjectId's tag; under a decimal key its decimal; what id keys and ids hold becomes texts; lists and
   * objects keep their shape; every other value stays.
   */
  ghost predicate Delivered(v: Doc, r: Doc, hint: string, tagged: bool, str: Stringifier, clock: Clock, read: Reader)
    decreases v
  {
    if v.Null? || v.Undefined? then r == v
    else if hint in DATE_KEYS && !tagged then DateFrom(Convert(v, hint, str), r, clock)
    else if hint in DECIMAL_KEYS then DecimalUnder(Convert(v, hint, str), r, read)
    else match v
         case Arr(items) =>
           r.Arr? && |r.items| == |items| &&
           forall i | 0 <= i < |items| ::
             if EndsIn(hint, "ids") then KeptAsText(items[i], r.items[i], str)
             else Delivered(items[i], r.items[i], "", tagged, str, clock, read)
         case Obj(fields) =>
           if IsIdLike(fields) then KeptAsText(v, r, str)
           else r.Obj? && FieldsDelivered(fields, r.fields, tagged || GetsTag(fields, str), str, clock, read)
         case Decimal(fields) =>
           if IsIdLike(fields) then r == Str(str(v))
           else r.Obj? && FieldsDelivered(fields, r.fields, tagged || GetsTag(fields, str), str, clock, read)
         case ObjectId(hex) => r == Str(hex)
         case _ => r == v
  }

  ghost predicate FieldsDelivered(fields: seq<Field>, r: seq<Field>, tagged: bool,
                                  str: Stringifier, clock: Clock, read: Reader)
    decreases fields
  {
    |r| == |fields| && forall i | 0 <= i < |fields| :: FieldDelivered(fields[i], r[i], tagged, str, clock, read)
  }

  ghost predicate FieldDelivered(f: Field, r: Field, tagged: bool, str: Stringifier, clock: Clock, read: Reader)
    decreases f
  {
    && r.key == f.key
    && if IsIdKey(f.key) && IsObject(f.value) then KeptField(f, r, str)
       else Delivered(f.value, r.value, f.key, tagged, str, clock, read)
  }

  /** A date or number under its key, written out: the text of a date becomes that date, and no other. */
  lemma DeliveredDate(v: Doc, r: Doc, hint: string, str: Stringifier, clock: Clock, read: Reader)
    requires hint in DATE_KEYS && Delivered(v, r, hint, false, str, clock, read)
    ensures v.Str? || v.Num? ==> clock(v).Some? && r == Date(clock(v))
    ensures v.Date? ==> r == v
  {
    hide DATE_KEYS, DECIMAL_KEYS;
  }

  lemma RestGivesDate(w: Doc, hint: string, clock: Clock, read: Reader, r: Doc)
    requires Rest(w, hint, false, clock, read) == Ok(r) && hint in DATE_KEYS && !w.Null? && !w.Undefined?
    ensures DateFrom(w, r, clock)
  {
    KeyFacts();
    hide DATE_KEYS, DECIMAL_KEYS;
  }

  lemma RestGivesDecimal(w: Doc, hint: string, skip: bool, clock: Clock, read: Reader, r: Doc)
    requires Rest(w, hint, skip, clock, read) == Ok(r) && hint in DECIMAL_KEYS && !w.Null? && !w.Undefined?
    requires !w.Decimal? && !w.ObjectId?
    ensures DecimalUnder(w, r, read)
  {
    KeyFacts();
    hide DATE_KEYS, DECIMAL_KEYS, HasTag;
    var dated := if skip then w else Coerce(Dates(clock), w, hint).value;
    assert ToDecimal(dated, read) == Ok(r);
    assert (dated.Arr? <==> w.Arr?) && (!(w.Arr? || w.Obj?) ==> dated == w);
    assert DecimalFrom(dated, r, read);
  }

  lemma {:induction false} RestDelivers(v: Doc, r: Doc, hint: string, tagged: bool, str: Stringifier,
                                        clock: Clock, read: Reader)
    requires Rest(Convert(v, hint, str), hint, tagged, clock, read) == Ok(r)
    ensures Delivered(v, r, hint, tagged, str, clock, read)
    decreases v
  {
    KeyFacts();
    hide DATE_KEYS, DECIMAL_KEYS, IsIdKey, EndsIn, IsIdLike, Rest, GetsTag, DateFrom, DecimalUnder, FieldsDelivered;
    var w := Convert(v, hint, str);
    if v.Null? || v.Undefined? {
      NothingStays(v, hint, tagged, clock, read);
    } else {
      ConvertGives(v, hint, str);
      if hint in DATE_KEYS && !tagged {
        RestGivesDate(w, hint, clock, read, r);
      } else if hint in DECIMAL_KEYS {
        RestGivesDecimal(w, hint, tagged, clock, read, r);
      } else {
        RestUnderOtherKey(w, hint, tagged, clock, read);
        match v
        case Arr(items) => RestDeliversItems(items, r, hint, tagged, str, clock, read);
        case Obj(fields) =>
          if !IsIdLike(fields) { RestDeliversFields(fields, r, hint, tagged, str, clock, read); }
        case Decimal(fields) =>
          if !IsIdLike(fields) { RestDeliversFields(fields, r, hint, tagged, str, clock, read); }
        case _ =>
      }
    }
  }

  lemma {:induction false} RestDeliversItems(items: seq<Doc>, r: Doc, hint: string, tagged: bool, str: Stringifier,
                                             clock: Clock, read: Reader)
    requires (tagged || hint !in DATE_KEYS) && hint !in DECIMAL_KEYS
    requires Rest(Convert(Arr(items), hint, str), hint, tagged, clock, read) == Ok(r)
    ensures Delivered(Arr(items), r, hint, tagged, str, clock, read)
    decreases items
  {
    hide DATE_KEYS, DECIMAL_KEYS, IsIdKey, EndsIn, Rest, KeptAsText;
    if EndsIn(hint, "ids") {
      TextsStay(items, hint, tagged, str, clock, read);
      TextsAreKept(items, r.items, str);
    } else {
      RestOfItems(ConvertItems(items, str), hint, tagged, clock, read);
      forall i | 0 <= i < |items| ensures Delivered(items[i], r.items[i], "", tagged, str, clock, read) {
        RestDelivers(items[i], r.items[i], "", tagged, str, clock, read);
      }
    }
  }

  lemma {:induction false} RestDeliversFields(fields: seq<Field>, r: Doc, hint: string, tagged: bool, str: Stringifier,
                                              clock: Clock, read: Reader)
    requires (tagged || hint !in DATE_KEYS) && hint !in DECIMAL_KEYS && !IsIdLike(fields)
    requires Rest(Obj(ConvertFields(fields, str)), hint, tagged, clock, read) == Ok(r)
    ensures r.Obj? && FieldsDelivered(fields, r.fields, tagged || GetsTag(fields, str), str, clock, read)
    decreases fields
  {
    TagIsOnlySign(fields, str);
    hide DATE_KEYS, DECIMAL_KEYS, IsIdKey, EndsIn, Rest, IsIdLike, HasTag, GetsTag, FieldDelivered, ConvertField,
         BecomesTag;
    var w := ConvertFields(fields, str);
    var skip := tagged || GetsTag(fields, str);
    assert tagged || HasTag(w, "ObjectId") <==> skip;
    RestOfFields(w, hint, tagged, clock, read);
    forall i | 0 <= i < |fields| ensures FieldDelivered(fields[i], r.fields[i], skip, str, clock, read) {
      assert w[i] == ConvertField(fields[i], str) && r.fields[i].key == w[i].key == fields[i].key;
      assert Rest(w[i].value, w[i].key, skip, clock, read) == Ok(r.fields[i].value);
      RestDeliversField(fields[i], r.fields[i], skip, str, clock, read);
    }
  }

  lemma {:induction false} RestDeliversField(f: Field, r: Field, tagged: bool, str: Stringifier,
                                             clock: Clock, read: Reader)
    requires r.key == f.key && Rest(ConvertField(f, str).value, f.key, tagged, clock, read) == Ok(r.value)
    ensures FieldDelivered(f, r, tagged, str, clock, read)
    decreases f
  {
    KeyFacts();
    hide DATE_KEYS, DECIMAL_KEYS, IsIdKey, EndsIn, IsIdLike, Rest, Delivered;
    if IsIdKey(f.key) && IsObject(f.value) {
      FieldKeeps(f, ConvertField(f, str), str);
      if f.value.Arr? {
        TextsStay(f.value.items, f.key, tagged, str, clock, read);
      } else {
        RestUnderOtherKey(ConvertField(f, str).value, f.key, tagged, clock, read);
      }
    } else {
      RestDelivers(f.value, r.value, f.key, tagged, str, clock, read);
    }
  }

  /** Whatever the three passes give for a document, every value of it became what is said above. */
  lemma ThreePassesDeliverEach(raw: Doc, r: Doc, str: Stringifier, clock: Clock, read: Reader)
    requires ThreePasses(raw, str, clock, read) == Ok(r)
    ensures Delivered(raw, r, "", false, str, clock, read)
  {
    hide DATE_KEYS, DECIMAL_KEYS, Delivered;
    assert Rest(Convert(raw, "", str), "", false, clock, read) == Ok(r);
    RestDelivers(raw, r, "", false, str, clock, read);
  }

  // ---------- A date key that keeps its text ----------

  /** An object whose type is named by an ObjectId gets the tag, and the date pass leaves what it holds alone. */
  lemma TaggedObjectKeepsText(id: Doc, str: Stringifier, clock: Clock, read: Reader)
    requires id == Obj([Field("$oid", Str("ObjectId"))])
    ensures var created := Field("createdAt", Str("2026-01-01"));
            var r := Obj([Field("_bsontype", Str("ObjectId")), created]);
            && ThreePasses(Obj([Field("_bsontype", id), created]), str, clock, read) == Ok(r)
            && !Holds(r, "", DATE_KEYS, IsDate)
  {
    var created, tag := Field("createdAt", Str("2026-01-01")), Field("_bsontype", Str("ObjectId"));
    var raw, w := [Field("_bsontype", id), created], [tag, created];
    CreatedAtKey();
    hide DATE_KEYS, DECIMAL_KEYS, IsIdKey, EndsIn, IsIdLike, Convert, Coerce, ToDecimal, HasTag;
    OidStandsForId(id, str);
    TagIsText(raw[0], str);
    TwoFieldsConvert(raw, w, str);
    TaggedIsLeft(w, clock);
    TextsAreLeft(w, read);
    assert w[1] == created && !Holds(created.value, created.key, DATE_KEYS, IsDate);
  }

  lemma CreatedAtKey()
    ensures "createdAt" in DATE_KEYS && "createdAt" !in DECIMAL_KEYS
    ensures "_bsontype" !in DECIMAL_KEYS && "" !in DATE_KEYS && "" !in DECIMAL_KEYS
  {
    KeyFacts();
    assert "createdAt" in DATE_KEYS;
    hide DATE_KEYS, DECIMAL_KEYS;
  }

  lemma TwoFieldsConvert(raw: seq<Field>, w: seq<Field>, str: Stringifier)
    requires |raw| == 2 && |w| == 2 && w[0] == ConvertField(raw[0], str) && w[1] == raw[1]
    requires raw[0].key == "_bsontype" && !raw[0].value.Str? && raw[1].key == "createdAt" && raw[1].value.Str?
    ensures Convert(Obj(raw), "", str) == Obj(w)
  {
    hide IsIdLike, ConvertField;
    NoSign(raw);
    TextIsKept(raw[1], str);
    assert ConvertFields(raw, str) == w;
  }

  lemma TextIsKept(f: Field, str: Stringifier)
    requires f.value.Str?
    ensures ConvertField(f, str) == f
  {
  }

  lemma NoSign(fields: seq<Field>)
    requires forall i | 0 <= i < |fields| :: fields[i].key != "$oid" && fields[i] != Field("_bsontype", Str("ObjectId"))
    ensures !IsIdLike(fields)
  {
  }

  lemma TaggedIsLeft(w: seq<Field>, clock: Clock)
    requires w != [] && w[0] == Field("_bsontype", Str("ObjectId")) && "" !in DATE_KEYS
    ensures Coerce(Dates(clock), Obj(w), "") == Ok(Obj(w))
  {
    hide DATE_KEYS;
    assert w[0] in w;
  }

  lemma TextsAreLeft(w: seq<Field>, read: Reader)
    requires "" !in DECIMAL_KEYS && forall i | 0 <= i < |w| :: w[i].value.Str? && w[i].key !in DECIMAL_KEYS
    ensures Coerce(Decimals(read), Obj(w), "") == Ok(Obj(w))
  {
    hide DECIMAL_KEYS;
    FieldsDetermined(Decimals(read), w, w);
  }
}
