/** The three passes of `transformDocument` run a second time on their own result. */
module RunTwice {
  import opened Options
  import opened Text
  import opened Documents
  import opened ObjectIdPass
  import opened CoercionPasses
  import opened PassesTogether

  /** The fields of a decimal never stand for an ObjectId. */
  ghost predicate ReadsNumbers(read: Reader) {
    forall v :: read(v).Some? ==> !IsIdLike(read(v).value)
  }

  /** The text of an object, "[object Object]", is no number. */
  ghost predicate NoObjectIsNumber(read: Reader) {
    forall fields :: read(Obj(fields)).None?
  }

  /**
   * Told from the input alone: wherever the passes walk, no decimal key holds anything but null or undefined, and no
   * object gets the tag of an ObjectId. What lies under a date key is replaced as a whole, and so is what lies
   * under an id key or among the items under a key that ends in "ids".
   */
  predicate TwiceSafe(v: Doc, hint: string, str: Stringifier)
    decreases v
  {
    if v.Null? || v.Undefined? || hint in DATE_KEYS then true
    else if hint in DECIMAL_KEYS then false
    else match v
         case Arr(items) => EndsIn(hint, "ids") || forall i | 0 <= i < |items| :: TwiceSafe(items[i], "", str)
         case Obj(fields) => IsIdLike(fields) || forall i | 0 <= i < |fields| :: TwiceSafeField(fields[i], str)
         case Decimal(fields) => IsIdLike(fields) || forall i | 0 <= i < |fields| :: TwiceSafeField(fields[i], str)
         case _ => true
  }

  predicate TwiceSafeField(f: Field, str: Stringifier)
    decreases f
  {
    && (f.key == "_bsontype" ==> !BecomesTag(f.value, str))
    && ((IsIdKey(f.key) && IsObject(f.value)) || TwiceSafe(f.value, f.key, str))
  }

  /** A decimal, or an object that stands for an ObjectId, at some depth. */
  predicate Unstable(v: Doc)
    decreases v
  {
    match v
    case Decimal(parts) => !IsIdLike(parts)
    case Arr(items) => exists i | 0 <= i < |items| :: Unstable(items[i])
    case Obj(fields) => IsIdLike(fields) || exists i | 0 <= i < |fields| :: Unstable(fields[i].value)
    case _ => false
  }

  /** Under a decimal key the result is a decimal that was read, and an object is an error. */
  lemma RestUnderDecimalKey(w: Doc, hint: string, skip: bool, clock: Clock, read: Reader)
    requires NoObjectIsNumber(read) && ReadsNumbers(read) && hint in DECIMAL_KEYS
    requires Rest(w, hint, skip, clock, read).Ok? && !w.Null? && !w.Undefined?
    ensures var r := Rest(w, hint, skip, clock, read).value;
            r.Decimal? && !w.Obj? && (!w.Decimal? ==> !IsIdLike(r.parts))
  {
    KeyFacts();
    hide DATE_KEYS, DECIMAL_KEYS, IsIdLike, HasTag;
  }

  // ---------- The first run ----------

  /** A first run leaves nothing to do exactly on safe inputs, and on others something that cannot stay. */
  lemma {:induction false} AfterFirstRun(v: Doc, hint: string, str: Stringifier, clock: Clock, read: Reader)
    requires NoObjectIsNumber(read) && ReadsNumbers(read)
    requires Rest(Convert(v, hint, str), hint, false, clock, read).Ok?
    ensures var r := Rest(Convert(v, hint, str), hint, false, clock, read).value;
            if TwiceSafe(v, hint, str) then Clean(r, hint) && Settled(Dates(clock), r, hint) else Unstable(r)
    decreases v
  {
    KeyFacts();
    hide DATE_KEYS, DECIMAL_KEYS, IsIdKey, EndsIn, IsIdLike;
    var w := Convert(v, hint, str);
    if !v.Null? && !v.Undefined? {
      ConvertGives(v, hint, str);
      if hint in DATE_KEYS {
        RestUnderDateKey(w, hint, clock, read);
      } else if hint in DECIMAL_KEYS {
        RestUnderDecimalKey(w, hint, false, clock, read);
      } else {
        match v
        case Arr(items) => ItemsAfterFirstRun(items, hint, str, clock, read);
        case Obj(fields) => if !IsIdLike(fields) { FieldsAfterFirstRun(fields, hint, str, clock, read); }
        case Decimal(fields) => if !IsIdLike(fields) { FieldsAfterFirstRun(fields, hint, str, clock, read); }
        case _ =>
      }
    }
  }

  lemma {:induction false} ItemsAfterFirstRun(items: seq<Doc>, hint: string, str: Stringifier,
                                              clock: Clock, read: Reader)
    requires NoObjectIsNumber(read) && ReadsNumbers(read) && hint !in DATE_KEYS && hint !in DECIMAL_KEYS
    requires Rest(Convert(Arr(items), hint, str), hint, false, clock, read).Ok?
    ensures var r := Rest(Convert(Arr(items), hint, str), hint, false, clock, read).value;
            if TwiceSafe(Arr(items), hint, str) then Clean(r, hint) && Settled(Dates(clock), r, hint) else Unstable(r)
    decreases items
  {
    KeyFacts();
    hide DATE_KEYS, DECIMAL_KEYS, IsIdKey, EndsIn, Rest;
    if EndsIn(hint, "ids") {
      TextsStay(items, hint, false, str, clock, read);
    } else {
      var w := ConvertItems(items, str);
      RestOfItems(w, hint, false, clock, read);
      var r := Rest(Arr(w), hint, false, clock, read).value.items;
      forall i | 0 <= i < |items|
        ensures if TwiceSafe(items[i], "", str) then Clean(r[i], "") && Settled(Dates(clock), r[i], "")
                else Unstable(r[i])
      {
        AfterFirstRun(items[i], "", str, clock, read);
      }
    }
  }

  lemma {:induction false} FieldsAfterFirstRun(fields: seq<Field>, hint: string, str: Stringifier,
                                               clock: Clock, read: Reader)
    requires NoObjectIsNumber(read) && ReadsNumbers(read) && hint !in DATE_KEYS && hint !in DECIMAL_KEYS
    requires !IsIdLike(fields) && Rest(Obj(ConvertFields(fields, str)), hint, false, clock, read).Ok?
    ensures var r := Rest(Obj(ConvertFields(fields, str)), hint, false, clock, read).value;
            if forall i | 0 <= i < |fields| :: TwiceSafeField(fields[i], str)
            then Clean(r, hint) && Settled(Dates(clock), r, hint)
            else Unstable(r)
    decreases fields
  {
    KeyFacts();
    hide DATE_KEYS, DECIMAL_KEYS, IsIdKey, EndsIn, Rest, IsIdLike, BecomesTag, HasTag;
    var w := ConvertFields(fields, str);
    RestOfFields(w, hint, false, clock, read);
    var r := Rest(Obj(w), hint, false, clock, read).value.fields;
    TagAfter(fields, str);
    IdLikeAfter(fields, w, r, str, clock, read);
    if !IsIdLike(r) {
      forall i | 0 <= i < |fields|
        ensures if TwiceSafeField(fields[i], str)
                then CleanField(r[i]) && Settled(Dates(clock), r[i].value, r[i].key)
                else Unstable(r[i].value)
      {
        FieldAfterFirstRun(fields[i], r[i].value, str, clock, read);
      }
    }
  }

  /** The later passes keep the tag of an ObjectId and bring none. */
  lemma IdLikeAfter(fields: seq<Field>, w: seq<Field>, r: seq<Field>, str: Stringifier, clock: Clock, read: Reader)
    requires !IsIdLike(fields) && w == ConvertFields(fields, str) && |r| == |w|
    requires forall i | 0 <= i < |w| :: r[i].key == w[i].key &&
               Rest(w[i].value, w[i].key, HasTag(w, "ObjectId"), clock, read) == Ok(r[i].value)
    ensures IsIdLike(r) <==> IsIdLike(w)
    ensures IsIdLike(w) <==> HasTag(w, "ObjectId")
  {
    KeyFacts();
    OidIsIdKey();
    var tag := Field("_bsontype", Str("ObjectId"));
    hide DATE_KEYS, DECIMAL_KEYS, IsIdKey, EndsIn, Rest, BecomesTag, HasTag, Truthy;
    forall i | 0 <= i < |w| && w[i].key == "$oid" ensures !Truthy(w[i].value) && !Truthy(r[i].value) {
      assert !Truthy(fields[i].value);
      FalsyStays(fields[i], str);
      FalsyIsNoObject(w[i].value);
      RestUnderOtherKey(w[i].value, "$oid", HasTag(w, "ObjectId"), clock, read);
    }
    forall i | 0 <= i < |w| ensures r[i] == tag <==> w[i] == tag {
      if w[i].key == "_bsontype" { RestUnderOtherKey(w[i].value, "_bsontype", HasTag(w, "ObjectId"), clock, read); }
    }
    SameTag(w, r, tag);
  }

  lemma FalsyIsNoObject(v: Doc)
    requires !Truthy(v)
    ensures !IsObject(v)
  {
  }

  lemma SameTag(w: seq<Field>, r: seq<Field>, tag: Field)
    requires |r| == |w| && forall i | 0 <= i < |w| :: r[i] == tag <==> w[i] == tag
    requires tag == Field("_bsontype", Str("ObjectId"))
    ensures HasTag(r, "ObjectId") <==> HasTag(w, "ObjectId")
  {
  }

  lemma {:induction false} FieldAfterFirstRun(f: Field, r: Doc, str: Stringifier, clock: Clock, read: Reader)
    requires NoObjectIsNumber(read) && ReadsNumbers(read)
    requires f.key == "_bsontype" ==> !BecomesTag(f.value, str)
    requires Rest(ConvertField(f, str).value, f.key, false, clock, read) == Ok(r)
    ensures if TwiceSafeField(f, str)
            then CleanField(Field(f.key, r)) && Settled(Dates(clock), r, f.key)
            else Unstable(r)
    decreases f
  {
    KeyFacts();
    hide DATE_KEYS, DECIMAL_KEYS, IsIdKey, EndsIn, IsIdLike, BecomesTag;
    if IsIdKey(f.key) && IsObject(f.value) {
      if f.value.Arr? {
        TextsStay(f.value.items, f.key, false, str, clock, read);
      }
    } else {
      AfterFirstRun(f.value, f.key, str, clock, read);
    }
  }

  // ---------- The second run ----------

  /** A value with a decimal, or with an object that stands for an ObjectId, is not its own result. */
  lemma {:induction false} UnstableIsNotKept(v: Doc, hint: string, skip: bool, str: Stringifier,
                                             clock: Clock, read: Reader)
    requires NoObjectIsNumber(read) && ReadsNumbers(read) && Unstable(v)
    ensures Rest(Convert(v, hint, str), hint, skip, clock, read) != Ok(v)
    decreases v
  {
    KeyFacts();
    hide DATE_KEYS, DECIMAL_KEYS, IsIdKey, EndsIn, IsIdLike, Rest;
    var w := Convert(v, hint, str);
    if Rest(w, hint, skip, clock, read) == Ok(v) {
      ConvertGives(v, hint, str);
      if hint in DATE_KEYS && !skip {
        RestUnderDateKey(w, hint, clock, read);
      } else if hint in DECIMAL_KEYS {
        RestUnderDecimalKey(w, hint, skip, clock, read);
      } else {
        RestUnderOtherKey(w, hint, skip, clock, read);
        match v
        case Arr(items) => ItemsAreNotKept(items, hint, skip, str, clock, read);
        case Obj(fields) => FieldsAreNotKept(fields, hint, skip, str, clock, read);
        case Decimal(fields) => RestOfFields(ConvertFields(fields, str), hint, skip, clock, read);
      }
    }
  }

  lemma {:induction false} ItemsAreNotKept(items: seq<Doc>, hint: string, skip: bool, str: Stringifier,
                                           clock: Clock, read: Reader)
    requires NoObjectIsNumber(read) && ReadsNumbers(read) && Unstable(Arr(items))
    requires (skip || hint !in DATE_KEYS) && hint !in DECIMAL_KEYS
    ensures Rest(Convert(Arr(items), hint, str), hint, skip, clock, read) != Ok(Arr(items))
    decreases items
  {
    KeyFacts();
    hide DATE_KEYS, DECIMAL_KEYS, IsIdKey, EndsIn, IsIdLike, Rest;
    var i :| 0 <= i < |items| && Unstable(items[i]);
    if EndsIn(hint, "ids") {
      if Rest(Arr(Texts(items, str)), hint, skip, clock, read).Ok? {
        TextsStay(items, hint, skip, str, clock, read);
        assert Texts(items, str)[i] != items[i];
      }
    } else {
      var w := ConvertItems(items, str);
      if Rest(Arr(w), hint, skip, clock, read).Ok? {
        RestOfItems(w, hint, skip, clock, read);
        UnstableIsNotKept(items[i], "", skip, str, clock, read);
      }
    }
  }

  lemma {:induction false} FieldsAreNotKept(fields: seq<Field>, hint: string, skip: bool, str: Stringifier,
                                            clock: Clock, read: Reader)
    requires NoObjectIsNumber(read) && ReadsNumbers(read) && Unstable(Obj(fields))
    requires (skip || hint !in DATE_KEYS) && hint !in DECIMAL_KEYS
    ensures Rest(Convert(Obj(fields), hint, str), hint, skip, clock, read) != Ok(Obj(fields))
    decreases fields
  {
    KeyFacts();
    hide DATE_KEYS, DECIMAL_KEYS, IsIdKey, EndsIn, IsIdLike, Rest, HasTag;
    var w := Convert(Obj(fields), hint, str);
    if Rest(w, hint, skip, clock, read).Ok? {
      RestUnderOtherKey(w, hint, skip, clock, read);
      if !IsIdLike(fields) {
        var i :| 0 <= i < |fields| && Unstable(fields[i].value);
        RestOfFields(w.fields, hint, skip, clock, read);
        FieldIsNotKept(fields[i], skip || HasTag(w.fields, "ObjectId"), str, clock, read);
      }
    }
  }

  lemma {:induction false} FieldIsNotKept(f: Field, skip: bool, str: Stringifier, clock: Clock, read: Reader)
    requires NoObjectIsNumber(read) && ReadsNumbers(read) && Unstable(f.value)
    ensures Rest(ConvertField(f, str).value, f.key, skip, clock, read) != Ok(f.value)
    decreases f
  {
    KeyFacts();
    hide DATE_KEYS, DECIMAL_KEYS, IsIdKey, EndsIn, IsIdLike, Rest;
    var w := ConvertField(f, str).value;
    if IsIdKey(f.key) && Rest(w, f.key, skip, clock, read).Ok? {
      RestUnderOtherKey(w, f.key, skip, clock, read);
      if f.value.Arr? {
        var i :| 0 <= i < |f.value.items| && Unstable(f.value.items[i]);
        TextsStay(f.value.items, f.key, skip, str, clock, read);
        assert w.items[i] != f.value.items[i];
      }
    } else {
      UnstableIsNotKept(f.value, f.key, skip, str, clock, read);
    }
  }

  /**
   * When the three passes succeed, running them on their result succeeds and changes nothing exactly when the input
   * was safe. `new Decimal` is taken to fail on the text of an object and never to yield an ObjectId's look-alike.
   */
  lemma SecondRunKeepsIffSafe(raw: Doc, str: Stringifier, clock: Clock, read: Reader)
    requires NoObjectIsNumber(read) && ReadsNumbers(read)
    requires ThreePasses(raw, str, clock, read).Ok?
    ensures var r := ThreePasses(raw, str, clock, read).value;
            ThreePasses(r, str, clock, read) == Ok(r) <==> TwiceSafe(raw, "", str)
  {
    var first, r := Convert(raw, "", str), ThreePasses(raw, str, clock, read).value;
    assert Rest(first, "", false, clock, read) == Ok(r);
    AfterFirstRun(raw, "", str, clock, read);
    assert ThreePasses(r, str, clock, read) == Rest(Convert(r, "", str), "", false, clock, read);
    if TwiceSafe(raw, "", str) {
      UnchangedIffClean(r, "", str);
      UnchangedIffSettled(Dates(clock), r, "");
      PassesAreStable(clock, read);
      ResultIsSettled(Decimals(read), Coerce(Dates(clock), first, "").value, "");
      UnchangedIffSettled(Decimals(read), r, "");
    } else {
      UnstableIsNotKept(r, "", false, str, clock, read);
    }
  }

  lemma CostKey()
    ensures "cost" in DECIMAL_KEYS && "cost" !in DATE_KEYS && "" !in DATE_KEYS && "" !in DECIMAL_KEYS
    ensures !IsIdKey("cost")
  {
    KeyFacts();
    hide IsIdKey, EndsIn;
  }

  lemma CostConverts(v: Doc, str: Stringifier)
    ensures Convert(Obj([Field("cost", v)]), "", str) == Obj([Field("cost", Convert(v, "cost", str))])
  {
    CostKey();
    hide DATE_KEYS, DECIMAL_KEYS, IsIdKey, EndsIn;
    var fields := [Field("cost", v)];
    OtherKeyIsNoId(fields);
    hide IsIdLike;
    assert ConvertFields(fields, str) == [ConvertField(fields[0], str)];
  }

  lemma CostIsRead(parts: seq<Field>, clock: Clock, read: Reader)
    requires read(Str("1")) == Some(parts)
    ensures Rest(Obj([Field("cost", Str("1"))]), "", false, clock, read) == Ok(Obj([Field("cost", Decimal(parts))]))
  {
    CostKey();
    hide DATE_KEYS, DECIMAL_KEYS, IsIdKey, EndsIn;
    var raw, once := [Field("cost", Str("1"))], [Field("cost", Decimal(parts))];
    FieldsDetermined(Dates(clock), raw, raw);
    assert !HasTag(raw, "ObjectId") && !HasTag(raw, "Date");
    assert Coerce(Dates(clock), Obj(raw), "") == Ok(Obj(raw));
    FieldsDetermined(Decimals(read), raw, once);
  }

  lemma CostIsNotReadAgain(parts: seq<Field>, str: Stringifier, clock: Clock, read: Reader)
    requires NoObjectIsNumber(read) && ReadsNumbers(read) && !IsIdLike(parts)
    ensures Rest(Obj([Field("cost", Convert(Decimal(parts), "cost", str))]), "", false, clock, read) == Invalid
  {
    CostKey();
    hide DATE_KEYS, DECIMAL_KEYS, IsIdKey, EndsIn, Rest, HasTag, IsIdLike;
    var w := [Field("cost", Convert(Decimal(parts), "cost", str))];
    if Rest(Obj(w), "", false, clock, read).Ok? {
      RestOfFields(w, "", false, clock, read);
      assert w[0].value.Obj? && w[0].key == "cost";
      RestUnderDecimalKey(w[0].value, "cost", HasTag(w, "ObjectId"), clock, read);
    }
  }

  /** The first run makes a decimal of a cost, the second takes it apart and then finds no number in it. */
  lemma SecondRunFailsOnCost(parts: seq<Field>, str: Stringifier, clock: Clock, read: Reader)
    requires NoObjectIsNumber(read) && ReadsNumbers(read) && read(Str("1")) == Some(parts)
    ensures ThreePasses(Obj([Field("cost", Str("1"))]), str, clock, read) == Ok(Obj([Field("cost", Decimal(parts))]))
    ensures ThreePasses(Obj([Field("cost", Decimal(parts))]), str, clock, read) == Invalid
  {
    hide DATE_KEYS, DECIMAL_KEYS, IsIdKey, EndsIn, Coerce, IsIdLike;
    CostConverts(Str("1"), str);
    CostIsRead(parts, clock, read);
    CostConverts(Decimal(parts), str);
    CostIsNotReadAgain(parts, str, clock, read);
  }
}
