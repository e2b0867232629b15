// The text that both encoders write, character by character: words and
// punctuation, decimal numbers, and which characters of a string are escaped.
module JsonText {
  import opened CanonicalJson
  import opened JsonMembers
  import opened JsonReader
  import opened Utf16

  predicate IsAscii(s: string)
  {
    forall i :: 0 <= i < |s| ==> s[i] < 128 as char
  }

  /** An ASCII literal as text. */
  function Ascii(s: string): (t: Text)
    requires IsAscii(s)
    ensures |t| == |s| && forall i :: 0 <= i < |s| ==> t[i] == s[i] as int
  {
    seq(|s|, i requires 0 <= i < |s| => s[i] as int)
  }

  /** The words. */
  lemma Words(mode: Mode)
    ensures Print(mode, Null) == Ascii("null")
    ensures Print(mode, Bool(true)) == Ascii("true") && Print(mode, Bool(false)) == Ascii("false")
  {}

  // ---- Arrays and objects, one item at a time ----

  /** What separates one more text from the texts before it. */
  function Separator(count: nat): Text
  {
    if count == 0 then [] else Ascii(",")
  }

  lemma {:induction false} JoinOneMore(ts: seq<Text>, t: Text)
    ensures Join(ts + [t]) == Join(ts) + Separator(|ts|) + t
  {
    if |ts| == 0 {
      assert ts + [t] == [t];
    } else if |ts| == 1 {
      assert (ts + [t])[1..] == [t] && Join(ts) == ts[0];
    } else {
      JoinOneMore(ts[1..], t);
      assert (ts + [t])[1..] == ts[1..] + [t];
      Nest(ts[0] + [COMMA], Join(ts[1..]), Separator(|ts|), t, []);
    }
  }

  /** An array is its items between brackets, separated by single commas. */
  lemma ArrayGrows(items: seq<Json>, v: Json)
    ensures Flat(Arr([])) == Ascii("[]")
    ensures var t := Flat(Arr(items));
      && |t| >= 2
      && Flat(Arr(items + [v])) ==
         t[..|t| - 1] + Separator(|items|) + Flat(v) + Ascii("]")
  {
    hide *;
    EmptyFlat();
    FlatArray(items);
    FlatArray(items + [v]);
    ItemsAppend(items, v);
    JoinOneMore(FlatAll(items), Flat(v));
    Enclosed(Join(FlatAll(items)), Separator(|items|), Flat(v), Flat(Arr(items)), Flat(Arr(items + [v])),
             OPEN_ARRAY, CLOSE_ARRAY);
    Closers();
  }

  lemma ItemsAppend(items: seq<Json>, v: Json)
    ensures |FlatAll(items)| == |items| && FlatAll(items + [v]) == FlatAll(items) + [Flat(v)]
  {
    hide Flat;
  }

  lemma EmptyFlat()
    ensures Flat(Arr([])) == Ascii("[]") && Flat(Obj([])) == Ascii("{}")
  {}

  lemma FlatArray(items: seq<Json>)
    ensures Flat(Arr(items)) == [OPEN_ARRAY] + Join(FlatAll(items)) + [CLOSE_ARRAY]
  {}

  lemma FlatObject(ms: seq<Keyed<Json>>)
    ensures Flat(Obj(ms)) == [OPEN_OBJECT] + Join(MemberTexts(FlatMembers(ms))) + [CLOSE_OBJECT]
  {}

  /** An object is its members between braces, each a quoted key, a colon and a value, separated by single commas. */
  lemma ObjectGrows(ms: seq<Keyed<Json>>, m: Keyed<Json>)
    ensures Flat(Obj([])) == Ascii("{}")
    ensures var t := Flat(Obj(ms));
      && |t| >= 2
      && Flat(Obj(ms + [m])) ==
         t[..|t| - 1] + Separator(|ms|)
         + (Ascii("\"") + QuoteBody(m.key) + Ascii("\":") + Flat(m.item)) + Ascii("}")
  {
    hide *;
    EmptyFlat();
    FlatObject(ms);
    FlatObject(ms + [m]);
    MembersAppend(ms, m);
    var texts, last := MemberTexts(FlatMembers(ms)), MemberText(Keyed(m.key, Flat(m.item)));
    JoinOneMore(texts, last);
    MemberIs(m);
    Enclosed(Join(texts), Separator(|ms|), last, Flat(Obj(ms)), Flat(Obj(ms + [m])), OPEN_OBJECT, CLOSE_OBJECT);
    Closers();
  }

  lemma Closers()
    ensures Ascii("]") == [CLOSE_ARRAY] && Ascii("}") == [CLOSE_OBJECT]
  {}

  /** One more text before the closing character. */
  lemma Enclosed(j: Text, comma: Text, last: Text, before: Text, after: Text, opening: Unit, closing: Unit)
    requires before == [opening] + j + [closing] && after == [opening] + (j + comma + last) + [closing]
    ensures |before| >= 2 && after == before[..|before| - 1] + comma + last + [closing]
  {
    assert before[..|before| - 1] == [opening] + j;
    Nest([opening], j, comma, last, [closing]);
  }

  lemma Nest(a: Text, b: Text, c: Text, d: Text, e: Text)
    ensures a + (b + c + d) + e == (a + b) + c + d + e
  {
    Append(a, b + c, d);
    Append(a, b, c);
  }

  lemma MembersAppend(ms: seq<Keyed<Json>>, m: Keyed<Json>)
    ensures |MemberTexts(FlatMembers(ms))| == |ms|
    ensures MemberTexts(FlatMembers(ms + [m])) ==
      MemberTexts(FlatMembers(ms)) + [MemberText(Keyed(m.key, Flat(m.item)))]
  {
    hide MemberText, Flat;
    assert FlatMembers(ms + [m]) == FlatMembers(ms) + [Keyed(m.key, Flat(m.item))];
  }

  lemma MemberIs(m: Keyed<Json>)
    ensures MemberText(Keyed(m.key, Flat(m.item))) == Ascii("\"") + QuoteBody(m.key) + Ascii("\":") + Flat(m.item)
  {
    hide QuoteBody, Flat;
    assert Ascii("\"") == [QUOTE] && Ascii("\":") == [QUOTE, COLON];
    Regroup([QUOTE], QuoteBody(m.key), [QUOTE], [COLON], Flat(m.item));
  }

  lemma Regroup(a: Text, b: Text, c: Text, d: Text, e: Text)
    ensures ((a + b) + c) + d + e == a + b + (c + d) + e
  {}

  // ---- Numbers ----

  /** An integer is written in decimal, with no leading zero and a minus sign in front when it is negative. */
  lemma NumberDigits(mode: Mode, n: SafeInt)
    ensures var t := Print(mode, Num(n));
      var digits := if n < 0 then t[1..] else t;
      && (n < 0 ==> t[0] == '-' as int)
      && (forall i :: 0 <= i < |digits| ==> '0' as int <= digits[i] <= '9' as int)
      && NatOf(digits) == (if n < 0 then -n else n)
      && (|digits| > 1 ==> digits[0] != '0' as int)
  {
    hide Digits;
    var m: int := if n < 0 then -n else n;
    DigitsAreDigits(m);
    NatOfDigits(m);
    OneDigit();
  }

  lemma OneDigit()
    ensures |Digits(0)| == 1
  {}

  // ---- Strings ----

  /** The characters that stand for themselves: no quote, no backslash, no control character. */
  predicate Plain(s: Text)
  {
    forall i :: 0 <= i < |s| ==> s[i] >= 0x20 && s[i] != '"' as int && s[i] != '\\' as int
  }

  /** Text without quote, backslash, control character or lone surrogate is written as itself. */
  lemma {:induction false} PlainText(s: Text)
    requires Plain(s) && WellFormed(s)
    ensures QuoteBody(s) == s
  {
    if |s| == 0 {
    } else if StartsWithPair(s) {
      PlainText(s[2..]);
      assert s == [s[0], s[1]] + s[2..];
    } else {
      PlainText(s[1..]);
      assert s == [s[0]] + s[1..];
    }
  }

  /** Strings are written part by part, unless the cut parts a surrogate pair. */
  lemma {:induction false} QuoteParts(s: Text, t: Text)
    requires |s| > 0 && |t| > 0 ==> !(IsHigh(s[|s| - 1]) && IsLow(t[0]))
    ensures QuoteBody(s + t) == QuoteBody(s) + QuoteBody(t)
  {
    hide QuoteBody, QuoteUnit;
    QuoteStep(s);
    if |s| == 0 {
      assert s + t == t;
    } else {
      QuoteStep(s + t);
      var k := if StartsWithPair(s) then 2 else 1;
      QuoteParts(s[k..], t);
      assert (s + t)[k..] == s[k..] + t;
      Append(if k == 2 then [s[0], s[1]] else QuoteUnit(s[0]), QuoteBody(s[k..]), QuoteBody(t));
    }
  }

  lemma QuoteStep(s: Text)
    ensures QuoteBody(s) ==
      if |s| == 0 then [] else if StartsWithPair(s) then [s[0], s[1]] + QuoteBody(s[2..])
      else QuoteUnit(s[0]) + QuoteBody(s[1..])
  {}

  lemma Append(x: Text, y: Text, z: Text)
    ensures x + (y + z) == (x + y) + z
  {}

  function HexDigits(): (t: Text)
    ensures |t| == 16
  {
    Ascii("0123456789abcdef")
  }

  lemma OneUnit(u: Unit)
    ensures QuoteBody([u]) == QuoteUnit(u)
  {
    hide QuoteUnit;
    assert [u][1..] == [] && QuoteBody([]) == [];
  }

  /** The short escapes. */
  lemma ShortEscapes()
    ensures QuoteBody(['"' as int]) == Ascii("\\\"") && QuoteBody(['\\' as int]) == Ascii("\\\\")
    ensures QuoteBody([8]) == Ascii("\\b") && QuoteBody([9]) == Ascii("\\t") && QuoteBody([10]) == Ascii("\\n")
    ensures QuoteBody([12]) == Ascii("\\f") && QuoteBody([13]) == Ascii("\\r")
  {
    hide QuoteBody;
    OneUnit('"' as int);
    OneUnit('\\' as int);
    OneUnit(8);
    OneUnit(9);
    OneUnit(10);
    OneUnit(12);
    OneUnit(13);
  }

  /** The other control characters and the lone surrogates: \u and four lower-case hexadecimal digits. */
  lemma LongEscapes(u: Unit)
    requires (u < 0x20 && u !in {8, 9, 10, 12, 13}) || IsHigh(u) || IsLow(u)
    ensures QuoteBody([u]) ==
      Ascii("\\u") + [HexDigits()[u / 4096], HexDigits()[u / 256 % 16], HexDigits()[u / 16 % 16], HexDigits()[u % 16]]
  {
    hide QuoteBody, HexDigit, HexDigits;
    OneUnit(u);
    HexIs(u / 4096);
    HexIs(u / 256 % 16);
    HexIs(u / 16 % 16);
    HexIs(u % 16);
    assert Ascii("\\u") == [BACKSLASH, 0x75];
  }

  lemma HexIs(d: nat)
    requires d < 16
    ensures HexDigit(d) == HexDigits()[d]
  {}
}
