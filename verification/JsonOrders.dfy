// The JavaScript encoder against the Python one: they print the same text
// exactly when no object holds two crossing keys.
module JsonOrders {
  import opened CanonicalJson
  import opened JsonMembers
  import opened JsonMeaning
  import opened JsonReader
  import opened Utf8
  import opened Utf16

  predicate KeysCross(k: Text, l: Text)
  {
    Crossing(ToScalars(k), ToScalars(l))
  }

  /**
   * No object of the value has two keys whose first difference is between a
   * supplementary code point and one in U+E000..U+FFFF.
   */
  predicate NoCrossing(v: Json)
    decreases v
  {
    match v
    case Arr(items) => forall i :: 0 <= i < |items| ==> NoCrossing(items[i])
    case Obj(ms) =>
      && (forall i, j :: 0 <= i < |ms| && 0 <= j < |ms| ==> !KeysCross(ms[i].key, ms[j].key))
      && forall i :: 0 <= i < |ms| ==> NoCrossing(ms[i].item)
    case _ => true
  }

  lemma RanksAgree(k: Text, l: Text)
    requires WellFormed(k) && WellFormed(l)
    ensures (LexLess(Rank(Js, k), Rank(Js, l)) <==> LexLess(Rank(Py, k), Rank(Py, l))) <==> !KeysCross(k, l)
  {
    hide WellFormed, ToScalars, LexLess, Crossing;
    ScalarsRoundTrip(k);
    ScalarsRoundTrip(l);
    UnitOrderExact(ToScalars(k), ToScalars(l));
  }

  lemma {:induction false} SortedEitherWay<T>(s: seq<Keyed<T>>)
    requires Sorted(Js, s) && AllEncodable(Py, s)
    requires forall k, l | k in ToMap(s) && l in ToMap(s) :: !KeysCross(k, l)
    ensures Sorted(Py, s)
  {
    hide KeysCross, Rank;
    if |s| > 0 {
      SortedEitherWay(s[1..]);
      forall k | k in ToMap(s[1..]) ensures LexLess(Rank(Py, s[0].key), Rank(Py, k)) {
        assert k in ToMap(s) && s[0].key in ToMap(s);
        RanksAgree(s[0].key, k);
      }
    }
  }

  lemma {:induction false} SortedBothWays<T>(s: seq<Keyed<T>>, k: Text, l: Text)
    requires Sorted(Js, s) && Sorted(Py, s) && k in ToMap(s) && l in ToMap(s)
    ensures LexLess(Rank(Js, k), Rank(Js, l)) <==> LexLess(Rank(Py, k), Rank(Py, l))
  {
    hide Rank;
    LexTrichotomy(Rank(Js, k), Rank(Js, l));
    LexTrichotomy(Rank(Py, k), Rank(Py, l));
    if k == l {
      LexIrreflexive(Rank(Js, k));
      LexIrreflexive(Rank(Py, k));
    } else if k == s[0].key {
      assert l in ToMap(s[1..]);
    } else if l == s[0].key {
      assert k in ToMap(s[1..]);
      LexTrichotomy(Rank(Js, l), Rank(Js, k));
      LexTrichotomy(Rank(Py, l), Rank(Py, k));
    } else {
      SortedBothWays(s[1..], k, l);
    }
  }

  lemma {:induction false} CanonsAgree(v: Json)
    requires Proper(Js, v) && Proper(Py, v)
    ensures Canon(Js, v) == Canon(Py, v) <==> NoCrossing(v)
    decreases v
  {
    match v
    case Arr(items) =>
      forall i | 0 <= i < |items| ensures Canon(Js, items[i]) == Canon(Py, items[i]) <==> NoCrossing(items[i]) {
        CanonsAgree(items[i]);
      }
      if Canon(Js, v) == Canon(Py, v) {
        forall i | 0 <= i < |items| ensures NoCrossing(items[i]) {
          assert Canon(Js, v).items[i] == Canon(Py, v).items[i];
        }
      }
    case Obj(ms) =>
      forall i | 0 <= i < |ms| ensures Canon(Js, ms[i].item) == Canon(Py, ms[i].item) <==> NoCrossing(ms[i].item) {
        CanonsAgree(ms[i].item);
      }
      ObjectCanonsAgree(ms);
    case _ =>
  }

  lemma ObjectCanonsAgree(ms: seq<Keyed<Json>>)
    requires Distinct(ms) && forall i | 0 <= i < |ms| :: WellFormed(ms[i].key)
    ensures Canon(Js, Obj(ms)) == Canon(Py, Obj(ms)) <==>
      && (forall i, j :: 0 <= i < |ms| && 0 <= j < |ms| ==> !KeysCross(ms[i].key, ms[j].key))
      && (forall i :: 0 <= i < |ms| ==> Canon(Js, ms[i].item) == Canon(Py, ms[i].item))
  {
    hide Canon, Sort, ToMap, Distinct, WellFormed, KeysCross, Sorted;
    ObjectCanon(Js, ms);
    ObjectCanon(Py, ms);
    var a, b := CanonMembers(Js, ms), CanonMembers(Py, ms);
    MapItemsToMap(v => Canon(Js, v), ms);
    MapItemsToMap(v => Canon(Py, v), ms);
    forall k | k in ToMap(ms) ensures WellFormed(k) {
      var i := Lookup(ms, k);
    }
    SortedFromDistinct(Js, a);
    SortedFromDistinct(Py, b);
    if Sort(Js, a) == Sort(Py, b) {
      forall i | 0 <= i < |ms| ensures Canon(Js, ms[i].item) == Canon(Py, ms[i].item) {
        MemberIsEntry(a, i);
        MemberIsEntry(b, i);
      }
      forall i, j | 0 <= i < |ms| && 0 <= j < |ms| ensures !KeysCross(ms[i].key, ms[j].key) {
        MemberIsEntry(ms, i);
        MemberIsEntry(ms, j);
        SortedBothWays(Sort(Js, a), ms[i].key, ms[j].key);
        RanksAgree(ms[i].key, ms[j].key);
      }
    }
    if (forall i, j :: 0 <= i < |ms| && 0 <= j < |ms| ==> !KeysCross(ms[i].key, ms[j].key))
      && (forall i :: 0 <= i < |ms| ==> Canon(Js, ms[i].item) == Canon(Py, ms[i].item))
    {
      assert a == b;
      forall k, l | k in ToMap(ms) && l in ToMap(ms) ensures !KeysCross(k, l) {
        var i := Lookup(ms, k);
        var j := Lookup(ms, l);
      }
      SortedEitherWay(Sort(Js, a));
      SortedUnique(Py, Sort(Js, a), Sort(Py, b));
    }
  }

  /** The JavaScript and Python encoders print the same text exactly when no two keys of an object cross. */
  lemma EncodersAgree(v: Json)
    requires Proper(Js, v) && Proper(Py, v)
    ensures Print(Js, v) == Print(Py, v) <==> NoCrossing(v)
  {
    hide ParseValue, Print, Flat, Canon, Proper, NoCrossing;
    PrintedReadsBack(Js, v);
    PrintedReadsBack(Py, v);
    PrintIsFlat(Js, v);
    PrintIsFlat(Py, v);
    CanonsAgree(v);
  }

  /** The encoders do disagree: an object with the keys U+10000 and U+E000. */
  lemma EncodersDisagree() returns (v: Json)
    ensures Proper(Js, v) && Proper(Py, v) && Print(Js, v) != Print(Py, v)
  {
    var k, l: Text := [0xD800, 0xDC00], [0xE000];
    var ms := [Keyed(k, Null), Keyed(l, Null)];
    v := Obj(ms);
    assert k[2..] == [] && l[1..] == [];
    assert ms[1..] == [Keyed(l, Null)] && ms[1..][1..] == [];
    assert ToMap(ms[1..]).Keys == {l};
    assert ToScalars(k)[0] == 0x1_0000 && ToScalars(l)[0] == 0xE000;
    assert KeysCross(ms[0].key, ms[1].key);
    assert Distinct(ms[1..]) && Distinct(ms);
    assert WellFormed(k) && WellFormed(l);
    assert Proper(Js, Null) && Proper(Py, Null);
    EncodersAgree(v);
  }

  predicate AsciiKeys(v: Json)
    decreases v
  {
    match v
    case Arr(items) => forall i :: 0 <= i < |items| ==> AsciiKeys(items[i])
    case Obj(ms) => forall i :: 0 <= i < |ms| ==> Ascii(ms[i].key) && AsciiKeys(ms[i].item)
    case _ => true
  }

  predicate Ascii(k: Text)
  {
    forall i :: 0 <= i < |k| ==> k[i] < 0x80
  }

  lemma {:induction false} AsciiNeverCross(k: Text, l: Text)
    requires Ascii(k) && Ascii(l)
    ensures !KeysCross(k, l)
  {
    if |k| > 0 && |l| > 0 {
      AsciiNeverCross(k[1..], l[1..]);
      assert ToScalars(k)[1..] == ToScalars(k[1..]) && ToScalars(l)[1..] == ToScalars(l[1..]);
    }
  }

  lemma {:induction false} AsciiNoCrossing(v: Json)
    requires AsciiKeys(v)
    ensures NoCrossing(v)
    decreases v
  {
    match v
    case Arr(items) =>
      forall i | 0 <= i < |items| ensures NoCrossing(items[i]) {
        AsciiNoCrossing(items[i]);
      }
    case Obj(ms) =>
      forall i | 0 <= i < |ms| ensures NoCrossing(ms[i].item) {
        AsciiNoCrossing(ms[i].item);
      }
      forall i, j | 0 <= i < |ms| && 0 <= j < |ms| ensures !KeysCross(ms[i].key, ms[j].key) {
        AsciiNeverCross(ms[i].key, ms[j].key);
      }
    case _ =>
  }

  /** The source's note: for ASCII keys the two encoders are byte-for-byte the same. */
  lemma AsciiKeysSameBytes(v: Json)
    requires Proper(Js, v) && Proper(Py, v) && AsciiKeys(v)
    ensures Bytes(Js, v) == Bytes(Py, v)
  {
    AsciiNoCrossing(v);
    EncodersAgree(v);
  }
}
