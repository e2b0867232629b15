// What canonical text identifies: two values share their text, and their signed
// bytes, exactly when they are the same value up to the order of members.
module JsonMeaning {
  import opened CanonicalJson
  import opened JsonMembers
  import opened JsonReader
  import opened Utf8
  import opened Utf16

  /** A JSON value without an order of members. */
  datatype Value =
    | VNull
    | VBool(b: bool)
    | VNum(n: int)
    | VStr(s: Text)
    | VArr(items: seq<Value>)
    | VObj(members: map<Text, Value>)

  function Meaning(v: Json): Value
    decreases v
  {
    match v
    case Null => VNull
    case Bool(b) => VBool(b)
    case Num(n) => VNum(n)
    case Str(s) => VStr(s)
    case Arr(items) => VArr(seq(|items|, i requires 0 <= i < |items| => Meaning(items[i])))
    case Obj(ms) => VObj(ToMap(seq(|ms|, i requires 0 <= i < |ms| => Keyed(ms[i].key, Meaning(ms[i].item)))))
  }

  /** What an object in memory guarantees: no key twice. For Python, also that every key can be encoded. */
  predicate Proper(mode: Mode, v: Json)
    decreases v
  {
    match v
    case Str(s) => Encodable(mode, s)
    case Arr(items) => forall i :: 0 <= i < |items| ==> Proper(mode, items[i])
    case Obj(ms) =>
      && Distinct(ms)
      && forall i :: 0 <= i < |ms| ==> Encodable(mode, ms[i].key) && Proper(mode, ms[i].item)
    case _ => true
  }

  // ---- Canonical order keeps the value, and the value decides the canonical order ----

  function MeaningMembers(ms: seq<Keyed<Json>>): seq<Keyed<Value>>
  {
    MapItems(Meaning, ms)
  }

  function CanonMembers(mode: Mode, ms: seq<Keyed<Json>>): seq<Keyed<Json>>
  {
    MapItems(v => Canon(mode, v), ms)
  }

  lemma ObjectMeaning(ms: seq<Keyed<Json>>)
    ensures Meaning(Obj(ms)) == VObj(ToMap(MeaningMembers(ms)))
  {
    assert MeaningMembers(ms) == seq(|ms|, i requires 0 <= i < |ms| => Keyed(ms[i].key, Meaning(ms[i].item)));
  }

  lemma ObjectCanon(mode: Mode, ms: seq<Keyed<Json>>)
    ensures Canon(mode, Obj(ms)) == Obj(Sort(mode, CanonMembers(mode, ms)))
  {
    assert CanonMembers(mode, ms) == seq(|ms|, i requires 0 <= i < |ms| => Keyed(ms[i].key, Canon(mode, ms[i].item)));
  }

  lemma {:induction false} MeaningOfCanon(mode: Mode, v: Json)
    requires Proper(mode, v)
    ensures Meaning(Canon(mode, v)) == Meaning(v)
    decreases v
  {
    match v
    case Arr(items) =>
      forall i | 0 <= i < |items| ensures Meaning(Canon(mode, items[i])) == Meaning(items[i]) {
        MeaningOfCanon(mode, items[i]);
      }
    case Obj(ms) =>
      forall i | 0 <= i < |ms| ensures Meaning(Canon(mode, ms[i].item)) == Meaning(ms[i].item) {
        MeaningOfCanon(mode, ms[i].item);
      }
      ObjectMeaningOfCanon(mode, ms);
    case _ =>
  }

  lemma ObjectMeaningOfCanon(mode: Mode, ms: seq<Keyed<Json>>)
    requires Distinct(ms)
    requires forall i | 0 <= i < |ms| :: Meaning(Canon(mode, ms[i].item)) == Meaning(ms[i].item)
    ensures Meaning(Canon(mode, Obj(ms))) == Meaning(Obj(ms))
  {
    hide Meaning, Canon, Sort, ToMap, Distinct;
    var canon := CanonMembers(mode, ms);
    ObjectCanon(mode, ms);
    ObjectMeaning(ms);
    ObjectMeaning(Sort(mode, canon));
    SortMaps(mode, Meaning, canon);
    assert MeaningMembers(canon) == MeaningMembers(ms);
    MapItemsToMap(Meaning, ms);
    SortToMap(mode, MeaningMembers(ms));
  }

  lemma {:induction false} CanonByMeaning(mode: Mode, v: Json, w: Json)
    requires Proper(mode, v) && Proper(mode, w) && Meaning(v) == Meaning(w)
    ensures Canon(mode, v) == Canon(mode, w)
    decreases v
  {
    match v
    case Arr(items) =>
      assert |items| == |Meaning(v).items| == |Meaning(w).items| == |w.items|;
      forall i | 0 <= i < |items| ensures Canon(mode, items[i]) == Canon(mode, w.items[i]) {
        assert Meaning(items[i]) == Meaning(v).items[i] == Meaning(w).items[i] == Meaning(w.items[i]);
        CanonByMeaning(mode, items[i], w.items[i]);
      }
    case Obj(ms) =>
      forall i, j | 0 <= i < |ms| && 0 <= j < |w.members| && Meaning(ms[i].item) == Meaning(w.members[j].item)
        ensures Canon(mode, ms[i].item) == Canon(mode, w.members[j].item)
      {
        CanonByMeaning(mode, ms[i].item, w.members[j].item);
      }
      CanonOfObjects(mode, ms, w.members);
    case _ =>
  }

  lemma CanonOfObjects(mode: Mode, ms: seq<Keyed<Json>>, ws: seq<Keyed<Json>>)
    requires Distinct(ms) && Distinct(ws)
    requires forall i | 0 <= i < |ms| :: Encodable(mode, ms[i].key)
    requires forall i | 0 <= i < |ws| :: Encodable(mode, ws[i].key)
    requires Meaning(Obj(ms)) == Meaning(Obj(ws))
    requires forall i, j | 0 <= i < |ms| && 0 <= j < |ws| && Meaning(ms[i].item) == Meaning(ws[j].item) ::
      Canon(mode, ms[i].item) == Canon(mode, ws[j].item)
    ensures Canon(mode, Obj(ms)) == Canon(mode, Obj(ws))
  {
    hide Meaning, Canon, Sort, ToMap, Distinct, Encodable;
    var f := v => Canon(mode, v);
    var a, b := CanonMembers(mode, ms), CanonMembers(mode, ws);
    ObjectMeaning(ms);
    ObjectMeaning(ws);
    MapItemsToMap(Meaning, ms);
    MapItemsToMap(Meaning, ws);
    MapItemsToMap(f, ms);
    MapItemsToMap(f, ws);
    assert ToMap(ms).Keys == ToMap(ws).Keys;
    forall k | k in ToMap(ms) ensures f(ToMap(ms)[k]) == f(ToMap(ws)[k]) && Encodable(mode, k) {
      var i := Lookup(ms, k);
      var j := Lookup(ws, k);
      assert ToMap(MeaningMembers(ms))[k] == ToMap(MeaningMembers(ws))[k];
    }
    assert ToMap(MapItems(f, ms)) == ToMap(MapItems(f, ws));
    SortedFromDistinct(mode, MapItems(f, ms));
    SortedFromDistinct(mode, MapItems(f, ws));
    SortedUnique(mode, Sort(mode, MapItems(f, ms)), Sort(mode, MapItems(f, ws)));
    assert a == MapItems(f, ms) && b == MapItems(f, ws);
    ObjectCanon(mode, ms);
    ObjectCanon(mode, ws);
  }

  /** Two values have the same canonical text exactly when they are the same up to member order. */
  lemma SameTextIffSameValue(mode: Mode, v: Json, w: Json)
    requires Proper(mode, v) && Proper(mode, w)
    ensures Print(mode, v) == Print(mode, w) <==> Meaning(v) == Meaning(w)
  {
    hide ParseValue, Print, Flat, Canon, Meaning, Proper;
    PrintedReadsBack(mode, v);
    PrintedReadsBack(mode, w);
    MeaningOfCanon(mode, v);
    MeaningOfCanon(mode, w);
    if Meaning(v) == Meaning(w) {
      CanonByMeaning(mode, v, w);
      PrintIsFlat(mode, v);
      PrintIsFlat(mode, w);
    }
  }

  // ---- The signed bytes ----

  lemma {:induction false} PlainWellFormed(t: Text)
    requires forall i :: 0 <= i < |t| ==> !IsHigh(t[i]) && !IsLow(t[i])
    ensures WellFormed(t)
  {
    if |t| > 0 {
      PlainWellFormed(t[1..]);
    }
  }

  lemma {:induction false} QuoteBodyWellFormed(s: Text)
    ensures WellFormed(QuoteBody(s))
  {
    if |s| == 0 {
    } else if StartsWithPair(s) {
      QuoteBodyWellFormed(s[2..]);
      assert QuoteBody(s)[2..] == QuoteBody(s[2..]);
    } else {
      QuoteBodyWellFormed(s[1..]);
      PlainWellFormed(QuoteUnit(s[0]));
      WellFormedConcat(QuoteUnit(s[0]), QuoteBody(s[1..]));
    }
  }

  /** Text between two plain delimiters. */
  lemma Enclosed(left: Unit, t: Text, right: Unit)
    requires WellFormed(t) && left < 0x80 && right < 0x80
    ensures WellFormed([left] + t + [right])
  {
    PlainWellFormed([left]);
    PlainWellFormed([right]);
    WellFormedConcat([left], t);
    WellFormedConcat([left] + t, [right]);
  }

  lemma {:induction false} JoinWellFormed(ts: seq<Text>)
    requires forall i :: 0 <= i < |ts| ==> WellFormed(ts[i])
    ensures WellFormed(Join(ts))
  {
    hide WellFormed;
    if |ts| == 0 {
      PlainWellFormed([]);
    } else if |ts| > 1 {
      JoinWellFormed(ts[1..]);
      PlainWellFormed([COMMA]);
      WellFormedConcat(ts[0], [COMMA]);
      WellFormedConcat(ts[0] + [COMMA], Join(ts[1..]));
    }
  }

  lemma MemberTextWellFormed(m: Keyed<Text>)
    requires WellFormed(m.item)
    ensures WellFormed(MemberText(m))
  {
    hide WellFormed, QuoteBody;
    QuoteBodyWellFormed(m.key);
    Enclosed(QUOTE, QuoteBody(m.key), QUOTE);
    PlainWellFormed([COLON]);
    WellFormedConcat(Quote(m.key), [COLON]);
    WellFormedConcat(Quote(m.key) + [COLON], m.item);
  }

  lemma NumberWellFormed(n: int)
    ensures WellFormed(NumberText(n))
  {
    var m: int := if n < 0 then -n else n;
    DigitsAreDigits(m);
    PlainWellFormed(NumberText(n));
  }

  lemma {:induction false} FlatWellFormed(v: Json)
    ensures WellFormed(Flat(v))
    decreases v
  {
    hide WellFormed, Join, QuoteBody, NumberText, MemberText;
    match v
    case Num(n) => NumberWellFormed(n);
    case Str(s) =>
      QuoteBodyWellFormed(s);
      Enclosed(QUOTE, QuoteBody(s), QUOTE);
    case Arr(items) =>
      forall i | 0 <= i < |items| ensures WellFormed(FlatAll(items)[i]) {
        FlatWellFormed(items[i]);
      }
      JoinWellFormed(FlatAll(items));
      Enclosed(OPEN_ARRAY, Join(FlatAll(items)), CLOSE_ARRAY);
    case Obj(ms) =>
      forall i | 0 <= i < |ms| ensures WellFormed(MemberTexts(FlatMembers(ms))[i]) {
        FlatWellFormed(ms[i].item);
        MemberTextWellFormed(FlatMembers(ms)[i]);
      }
      JoinWellFormed(MemberTexts(FlatMembers(ms)));
      Enclosed(OPEN_OBJECT, Join(MemberTexts(FlatMembers(ms))), CLOSE_OBJECT);
    case _ => PlainWellFormed(Flat(v));
  }

  /** Canonical text never holds a lone surrogate, so its UTF-8 bytes lose nothing. */
  lemma PrintWellFormed(mode: Mode, v: Json)
    ensures WellFormed(Print(mode, v))
  {
    PrintIsFlat(mode, v);
    FlatWellFormed(Canon(mode, v));
  }

  /** Different values never share signed bytes; the insertion order of keys never shows in them. */
  lemma SameBytesIffSameValue(mode: Mode, v: Json, w: Json)
    requires Proper(mode, v) && Proper(mode, w)
    ensures Bytes(mode, v) == Bytes(mode, w) <==> Meaning(v) == Meaning(w)
  {
    hide Print, Meaning, Proper, WellFormed, ToScalars, EncodeScalars;
    SameTextIffSameValue(mode, v, w);
    PrintWellFormed(mode, v);
    PrintWellFormed(mode, w);
    if Bytes(mode, v) == Bytes(mode, w) {
      EncodingInjective(ToScalars(Print(mode, v)), ToScalars(Print(mode, w)));
      ToScalarsInjective(Print(mode, v), Print(mode, w));
    }
  }
}
