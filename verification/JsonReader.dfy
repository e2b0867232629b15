// A reader for the grammar of RFC 8259 over integers, and the proof that it
// reads back exactly what the canonical encoder writes.
module JsonReader {
  import opened CanonicalJson
  import opened Utf16

  datatype Parsed<+T> = Fail | Done(value: T, rest: Text)

  predicate Starts(s: Text, prefix: Text)
  {
    |s| >= |prefix| && s[..|prefix|] == prefix
  }

  // ---- Numbers ----

  function DigitSpan(s: Text): (k: nat)
    ensures k <= |s|
  {
    if |s| > 0 && IsDigit(s[0]) then 1 + DigitSpan(s[1..]) else 0
  }

  function NatOf(s: Text): int
  {
    if |s| == 0 then 0 else NatOf(s[..|s| - 1]) * 10 + (s[|s| - 1] as int - 0x30)
  }

  /** The text stops here as far as a number is concerned: no further digit, fraction or exponent. */
  predicate EndsNumber(rest: Text)
  {
    |rest| > 0 ==> !IsDigit(rest[0]) && rest[0] != 0x2E && rest[0] != 0x65 && rest[0] != 0x45
  }

  /** int = "0" or a digit 1-9 and digits; fractions and exponents are refused. */
  function ParseNat(s: Text): (p: Parsed<int>)
    ensures p.Done? ==> |p.rest| < |s|
  {
    var k := DigitSpan(s);
    if k == 0 || (k > 1 && s[0] == 0x30) || !EndsNumber(s[k..]) then Fail
    else Done(NatOf(s[..k]), s[k..])
  }

  predicate IsSafe(n: int) { -0x1F_FFFF_FFFF_FFFF <= n <= 0x1F_FFFF_FFFF_FFFF }

  function ParseNumber(s: Text): (p: Parsed<Json>)
    ensures p.Done? ==> |p.rest| < |s|
  {
    if |s| > 0 && s[0] == MINUS then
      var p := ParseNat(s[1..]);
      if p.Done? && IsSafe(-p.value) then Done(Num(-p.value), p.rest) else Fail
    else
      var p := ParseNat(s);
      if p.Done? && IsSafe(p.value) then Done(Num(p.value), p.rest) else Fail
  }

  // ---- Strings ----

  /** The value of a hexadecimal digit of either case, or -1. */
  function HexValue(u: Unit): int
  {
    if 0x30 <= u <= 0x39 then u as int - 0x30
    else if 0x61 <= u <= 0x66 then u as int - 0x61 + 10
    else if 0x41 <= u <= 0x46 then u as int - 0x41 + 10
    else -1
  }

  /** The unit after a backslash, or -1 when the pair is no escape. */
  function ShortEscape(u: Unit): int
  {
    if u == QUOTE || u == BACKSLASH || u == 0x2F then u
    else if u == 0x62 then 0x08
    else if u == 0x74 then 0x09
    else if u == 0x6E then 0x0A
    else if u == 0x66 then 0x0C
    else if u == 0x72 then 0x0D
    else -1
  }

  /** One character of a string: an escape or a plain unit that is not a control character. */
  function ParseUnit(s: Text): (p: Parsed<Unit>)
    requires |s| > 0
    ensures p.Done? ==> |p.rest| < |s|
  {
    if s[0] < 0x20 then Fail
    else if s[0] != BACKSLASH then Done(s[0], s[1..])
    else if |s| < 2 then Fail
    else if ShortEscape(s[1]) >= 0 then Done(ShortEscape(s[1]), s[2..])
    else if s[1] != 0x75 || |s| < 6 then Fail
    else
      var a, b, c, d := HexValue(s[2]), HexValue(s[3]), HexValue(s[4]), HexValue(s[5]);
      if a < 0 || b < 0 || c < 0 || d < 0 then Fail else Done(a * 4096 + b * 256 + c * 16 + d, s[6..])
  }

  /** The characters of a string up to and including the closing quote. */
  function ParseString(s: Text): (p: Parsed<Text>)
    ensures p.Done? ==> |p.rest| < |s|
  {
    if |s| == 0 then Fail
    else if s[0] == QUOTE then Done([], s[1..])
    else
      var u := ParseUnit(s);
      if u.Fail? then Fail
      else
        var p := ParseString(u.rest);
        if p.Fail? then Fail else Done([u.value] + p.value, p.rest)
  }

  // ---- Values ----

  function ParseValue(s: Text): (p: Parsed<Json>)
    ensures p.Done? ==> |p.rest| < |s|
    decreases |s|, 0
  {
    if |s| == 0 then Fail
    else if s[0] == QUOTE then
      var p := ParseString(s[1..]);
      if p.Fail? then Fail else Done(Str(p.value), p.rest)
    else if s[0] == OPEN_ARRAY then
      if |s| > 1 && s[1] == CLOSE_ARRAY then Done(Arr([]), s[2..])
      else
        var p := ParseItems(s[1..]);
        if p.Fail? then Fail else Done(Arr(p.value), p.rest)
    else if s[0] == OPEN_OBJECT then
      if |s| > 1 && s[1] == CLOSE_OBJECT then Done(Obj([]), s[2..])
      else
        var p := ParseMembers(s[1..]);
        if p.Fail? then Fail else Done(Obj(p.value), p.rest)
    else if s[0] == MINUS || IsDigit(s[0]) then ParseNumber(s)
    else if Starts(s, NullWord()) then Done(Null, s[4..])
    else if Starts(s, TrueWord()) then Done(Bool(true), s[4..])
    else if Starts(s, FalseWord()) then Done(Bool(false), s[5..])
    else Fail
  }

  /** One or more values up to and including the closing bracket. */
  function ParseItems(s: Text): (p: Parsed<seq<Json>>)
    ensures p.Done? ==> |p.rest| < |s|
    decreases |s|, 1
  {
    var v := ParseValue(s);
    if v.Fail? || |v.rest| == 0 then Fail
    else if v.rest[0] == CLOSE_ARRAY then Done([v.value], v.rest[1..])
    else if v.rest[0] != COMMA then Fail
    else
      var p := ParseItems(v.rest[1..]);
      if p.Fail? then Fail else Done([v.value] + p.value, p.rest)
  }

  /** name ":" value */
  function ParseMember(s: Text): (p: Parsed<Keyed<Json>>)
    ensures p.Done? ==> |p.rest| < |s|
    decreases |s|, 1
  {
    if |s| == 0 || s[0] != QUOTE then Fail
    else
      var k := ParseString(s[1..]);
      if k.Fail? || |k.rest| == 0 || k.rest[0] != COLON then Fail
      else
        var v := ParseValue(k.rest[1..]);
        if v.Fail? then Fail else Done(Keyed(k.value, v.value), v.rest)
  }

  /** One or more members up to and including the closing brace. */
  function ParseMembers(s: Text): (p: Parsed<seq<Keyed<Json>>>)
    ensures p.Done? ==> |p.rest| < |s|
    decreases |s|, 2
  {
    var m := ParseMember(s);
    if m.Fail? || |m.rest| == 0 then Fail
    else if m.rest[0] == CLOSE_OBJECT then Done([m.value], m.rest[1..])
    else if m.rest[0] != COMMA then Fail
    else
      var p := ParseMembers(m.rest[1..]);
      if p.Fail? then Fail else Done([m.value] + p.value, p.rest)
  }

  // ---- Reading numbers back ----

  lemma {:induction false} DigitsAreDigits(n: nat)
    ensures forall i :: 0 <= i < |Digits(n)| ==> IsDigit(Digits(n)[i])
    ensures n > 0 ==> Digits(n)[0] != 0x30
  {
    if n >= 10 {
      DigitsAreDigits(n / 10);
    }
  }

  lemma {:induction false} NatOfDigits(n: nat)
    ensures NatOf(Digits(n)) == n
  {
    if n >= 10 {
      var t := Digits(n);
      NatOfDigits(n / 10);
      assert t[..|t| - 1] == Digits(n / 10);
    } else {
      assert Digits(n)[..0] == [];
    }
  }

  lemma {:induction false} SpanOf(t: Text, rest: Text)
    requires forall i :: 0 <= i < |t| ==> IsDigit(t[i])
    requires |rest| > 0 ==> !IsDigit(rest[0])
    ensures DigitSpan(t + rest) == |t|
  {
    if |t| == 0 {
      assert t + rest == rest;
    } else {
      assert (t + rest)[1..] == t[1..] + rest;
      SpanOf(t[1..], rest);
    }
  }

  lemma ReadNat(n: nat, rest: Text)
    requires EndsNumber(rest)
    ensures var p := ParseNat(Digits(n) + rest); p.Done? && p.value == n && p.rest == rest
  {
    var t := Digits(n);
    DigitsAreDigits(n);
    SpanOf(t, rest);
    NatOfDigits(n);
    assert (t + rest)[..|t|] == t && (t + rest)[|t|..] == rest;
    if n == 0 {
      assert |t| == 1;
    }
  }

  lemma ReadNumber(n: SafeInt, rest: Text)
    requires EndsNumber(rest)
    ensures var s := NumberText(n) + rest;
      var p := ParseNumber(s);
      (s[0] == MINUS || IsDigit(s[0])) && p.Done? && p.value == Num(n) && p.rest == rest
  {
    hide Digits, NatOf, DigitSpan, EndsNumber, ParseNat;
    var s := NumberText(n) + rest;
    if n < 0 {
      var m: int := -n;
      ReadNat(m, rest);
      assert s[1..] == Digits(m) + rest;
    } else {
      ReadNat(n, rest);
      assert s[0] == Digits(n)[0];
    }
  }

  // ---- Reading strings back ----

  lemma HexRead(d: nat)
    requires d < 16
    ensures HexValue(HexDigit(d)) == d
  {}

  lemma HexSplit(v: nat)
    requires v < 0x1_0000
    ensures v / 4096 < 16 && v == v / 4096 * 4096 + v / 256 % 16 * 256 + v / 16 % 16 * 16 + v % 16
  {
    assert v / 16 / 16 == v / 256 && v / 256 / 16 == v / 4096;
  }

  lemma ReadEscape(u: Unit, rest: Text)
    ensures var t := UnicodeEscape(u) + rest;
      ParseUnit(t).Done? && ParseUnit(t).value == u && ParseUnit(t).rest == rest
  {
    var t := UnicodeEscape(u) + rest;
    HexSplit(u);
    HexRead(u / 4096);
    HexRead(u / 256 % 16);
    HexRead(u / 16 % 16);
    HexRead(u % 16);
    hide HexValue, HexDigit;
    assert t[6..] == rest;
  }

  lemma ReadUnit(u: Unit, rest: Text)
    ensures var t := QuoteUnit(u) + rest;
      t[0] != QUOTE && ParseUnit(t).Done? && ParseUnit(t).value == u && ParseUnit(t).rest == rest
  {
    hide HexValue, HexDigit, UnicodeEscape;
    var t := QuoteUnit(u) + rest;
    if QuoteUnit(u) == UnicodeEscape(u) {
      ReadEscape(u, rest);
      EscapeStart(u);
    } else if |QuoteUnit(u)| == 2 {
      assert t[2..] == rest;
    } else {
      assert t[1..] == rest;
    }
  }

  lemma EscapeStart(u: Unit)
    ensures |UnicodeEscape(u)| == 6 && UnicodeEscape(u)[0] == BACKSLASH
  {}

  /** One more character in front. */
  lemma StringStep(t: Text, u: Unit, after: Text)
    requires |t| > 0 && t[0] != QUOTE && ParseUnit(t).Done? && ParseUnit(t).value == u && ParseUnit(t).rest == after
    requires ParseString(after).Done?
    ensures var p := ParseString(t);
      p.Done? && p.value == [u] + ParseString(after).value && p.rest == ParseString(after).rest
  {
    hide ParseUnit;
  }

  lemma {:induction false} ReadString(s: Text, rest: Text)
    ensures var p := ParseString(QuoteBody(s) + [QUOTE] + rest); p.Done? && p.value == s && p.rest == rest
  {
    hide ParseUnit, ParseString, QuoteUnit;
    var t := QuoteBody(s) + [QUOTE] + rest;
    if |s| == 0 {
      StringEnd(rest);
      assert t == [QUOTE] + rest;
    } else if StartsWithPair(s) {
      ReadString(s[2..], rest);
      var after := QuoteBody(s[2..]) + [QUOTE] + rest;
      assert t == [s[0]] + ([s[1]] + after);
      PlainUnit(s[1], after);
      StringStep([s[1]] + after, s[1], after);
      PlainUnit(s[0], [s[1]] + after);
      StringStep(t, s[0], [s[1]] + after);
      assert s == [s[0]] + ([s[1]] + s[2..]);
    } else {
      ReadString(s[1..], rest);
      var after := QuoteBody(s[1..]) + [QUOTE] + rest;
      assert t == QuoteUnit(s[0]) + after;
      ReadUnit(s[0], after);
      StringStep(t, s[0], after);
      assert s == [s[0]] + s[1..];
    }
  }

  lemma StringEnd(rest: Text)
    ensures var p := ParseString([QUOTE] + rest); p.Done? && p.value == [] && p.rest == rest
  {
    assert ([QUOTE] + rest)[1..] == rest;
  }

  lemma PlainUnit(u: Unit, rest: Text)
    requires IsHigh(u) || IsLow(u)
    ensures
      var t := [u] + rest;
      t[0] != QUOTE && ParseUnit(t).Done? && ParseUnit(t).value == u && ParseUnit(t).rest == rest
  {
    assert ([u] + rest)[1..] == rest;
  }

  // ---- Reading values back ----

  lemma FlatStarts(v: Json)
    ensures |Flat(v)| > 0 && Flat(v)[0] != CLOSE_ARRAY && Flat(v)[0] != CLOSE_OBJECT
  {}

  lemma JoinUnfolds(ts: seq<Text>)
    requires |ts| > 0
    ensures Join(ts) == if |ts| == 1 then ts[0] else ts[0] + [COMMA] + Join(ts[1..])
  {}

  /** Text of the items after the opening bracket, up to the end. */
  function ItemsText(items: seq<Json>, rest: Text): Text
  {
    Join(FlatAll(items)) + [CLOSE_ARRAY] + rest
  }

  function MembersText(ms: seq<Keyed<Json>>, rest: Text): Text
  {
    Join(MemberTexts(FlatMembers(ms))) + [CLOSE_OBJECT] + rest
  }

  lemma ItemsTextUnfolds(items: seq<Json>, rest: Text)
    requires |items| > 0
    ensures ItemsText(items, rest) == Flat(items[0]) +
      (if |items| == 1 then [CLOSE_ARRAY] + rest else [COMMA] + ItemsText(items[1..], rest))
  {
    assert FlatAll(items)[1..] == FlatAll(items[1..]);
    JoinUnfolds(FlatAll(items));
  }

  lemma MembersTextUnfolds(ms: seq<Keyed<Json>>, rest: Text)
    requires |ms| > 0
    ensures MembersText(ms, rest) == Quote(ms[0].key) + ([COLON] + (Flat(ms[0].item) +
      (if |ms| == 1 then [CLOSE_OBJECT] + rest else [COMMA] + MembersText(ms[1..], rest))))
  {
    hide Flat, Quote, Join;
    var ts := MemberTexts(FlatMembers(ms));
    assert ts[0] == Quote(ms[0].key) + [COLON] + Flat(ms[0].item);
    assert ts[1..] == MemberTexts(FlatMembers(ms[1..])) by {
      assert FlatMembers(ms)[1..] == FlatMembers(ms[1..]);
    }
    JoinUnfolds(ts);
  }

  // ---- One step of the reader ----

  lemma StringValue(s: Text)
    requires |s| > 0 && s[0] == QUOTE && ParseString(s[1..]).Done?
    ensures var p := ParseValue(s);
      p.Done? && p.value == Str(ParseString(s[1..]).value) && p.rest == ParseString(s[1..]).rest
  {
    hide ParseString;
  }

  lemma NumberValue(s: Text)
    requires |s| > 0 && (s[0] == MINUS || IsDigit(s[0])) && ParseNumber(s).Done?
    ensures var p := ParseValue(s); p.Done? && p.value == ParseNumber(s).value && p.rest == ParseNumber(s).rest
  {
    hide ParseNumber;
  }

  lemma ArrayValue(s: Text)
    requires |s| > 1 && s[0] == OPEN_ARRAY && s[1] != CLOSE_ARRAY && ParseItems(s[1..]).Done?
    ensures var p := ParseValue(s);
      p.Done? && p.value == Arr(ParseItems(s[1..]).value) && p.rest == ParseItems(s[1..]).rest
  {
    hide ParseItems;
  }

  lemma ObjectValue(s: Text)
    requires |s| > 1 && s[0] == OPEN_OBJECT && s[1] != CLOSE_OBJECT && ParseMembers(s[1..]).Done?
    ensures var p := ParseValue(s);
      p.Done? && p.value == Obj(ParseMembers(s[1..]).value) && p.rest == ParseMembers(s[1..]).rest
  {
    hide ParseMembers;
  }

  lemma AtomValue(v: Json, rest: Text)
    requires v.Null? || v.Bool? || v == Arr([]) || v == Obj([])
    ensures var p := ParseValue(Flat(v) + rest); p.Done? && p.value == v && p.rest == rest
  {
    hide ParseItems, ParseMembers, ParseString, ParseNumber;
    var s := Flat(v) + rest;
    assert s[..|Flat(v)|] == Flat(v) && s[|Flat(v)|..] == rest;
    assert v.Arr? || v.Obj? ==> |Flat(v)| == 2;
  }

  lemma ItemsStep(s: Text)
    requires var v := ParseValue(s);
      v.Done? && |v.rest| > 0 && (v.rest[0] == CLOSE_ARRAY || (v.rest[0] == COMMA && ParseItems(v.rest[1..]).Done?))
    ensures var v, p := ParseValue(s), ParseItems(s);
      if v.rest[0] == CLOSE_ARRAY then p.Done? && p.value == [v.value] && p.rest == v.rest[1..]
      else
        var q := ParseItems(v.rest[1..]);
        p.Done? && p.value == [v.value] + q.value && p.rest == q.rest
  {
    hide ParseValue;
  }

  lemma MembersStep(s: Text)
    requires var v := ParseMember(s);
      v.Done? && |v.rest| > 0 && (v.rest[0] == CLOSE_OBJECT || (v.rest[0] == COMMA && ParseMembers(v.rest[1..]).Done?))
    ensures var v, p := ParseMember(s), ParseMembers(s);
      if v.rest[0] == CLOSE_OBJECT then p.Done? && p.value == [v.value] && p.rest == v.rest[1..]
      else
        var q := ParseMembers(v.rest[1..]);
        p.Done? && p.value == [v.value] + q.value && p.rest == q.rest
  {
    hide ParseMember;
  }

  lemma MemberStep(s: Text)
    requires |s| > 0 && s[0] == QUOTE
    requires var k := ParseString(s[1..]);
      k.Done? && |k.rest| > 0 && k.rest[0] == COLON && ParseValue(k.rest[1..]).Done?
    ensures var k, m := ParseString(s[1..]), ParseMember(s);
      var v := ParseValue(k.rest[1..]);
      m.Done? && m.value == Keyed(k.value, v.value) && m.rest == v.rest
  {
    hide ParseString, ParseValue;
  }

  lemma ReadMember(key: Text, item: Json, after: Text)
    requires var v := ParseValue(Flat(item) + after); v.Done? && v.value == item && v.rest == after
    ensures var m := ParseMember(Quote(key) + ([COLON] + (Flat(item) + after)));
      m.Done? && m.value == Keyed(key, item) && m.rest == after
  {
    hide ParseMember, ParseValue, ParseString, QuoteBody, Flat;
    var tail := Flat(item) + after;
    var s := Quote(key) + ([COLON] + tail);
    ReadString(key, [COLON] + tail);
    assert s[1..] == QuoteBody(key) + [QUOTE] + ([COLON] + tail);
    assert ([COLON] + tail)[1..] == tail;
    MemberStep(s);
  }

  /** Parsing the text of a value gives that value and leaves what follows it. */
  lemma {:induction false} ReadBack(v: Json, rest: Text)
    requires EndsNumber(rest)
    ensures var p := ParseValue(Flat(v) + rest); p.Done? && p.value == v && p.rest == rest
    decreases v
  {
    hide ParseValue, ParseItems, ParseMembers, ParseString, ParseNumber, Join, QuoteBody, NumberText, EndsNumber,
      MemberTexts, FlatAll, FlatMembers;
    var s := Flat(v) + rest;
    match v
    case Null => AtomValue(v, rest);
    case Bool(b) => AtomValue(v, rest);
    case Num(n) =>
      ReadNumber(n, rest);
      NumberValue(s);
    case Str(t) =>
      ReadString(t, rest);
      assert s[1..] == QuoteBody(t) + [QUOTE] + rest;
      StringValue(s);
    case Arr(items) =>
      if |items| == 0 {
        AtomValue(v, rest);
      } else {
        ReadItems(items, rest);
        ItemsTextUnfolds(items, rest);
        FlatStarts(items[0]);
        assert s[1..] == ItemsText(items, rest);
        assert s[1] == ItemsText(items, rest)[0];
        ArrayValue(s);
      }
    case Obj(ms) =>
      if |ms| == 0 {
        AtomValue(v, rest);
      } else {
        ReadMembers(ms, rest);
        MembersTextUnfolds(ms, rest);
        assert s[1..] == MembersText(ms, rest);
        assert s[1] == MembersText(ms, rest)[0] == QUOTE;
        ObjectValue(s);
      }
  }

  lemma {:induction false} ReadItems(items: seq<Json>, rest: Text)
    requires |items| > 0
    ensures var p := ParseItems(ItemsText(items, rest)); p.Done? && p.value == items && p.rest == rest
    decreases items
  {
    hide ParseValue, ParseItems, ItemsText, Flat;
    var after := if |items| == 1 then [CLOSE_ARRAY] + rest else [COMMA] + ItemsText(items[1..], rest);
    ReadBack(items[0], after);
    ItemsTextUnfolds(items, rest);
    if |items| > 1 {
      ReadItems(items[1..], rest);
      assert after[1..] == ItemsText(items[1..], rest);
    } else {
      assert after[1..] == rest;
    }
    ItemsStep(ItemsText(items, rest));
    assert items == [items[0]] + items[1..];
  }

  lemma {:induction false} ReadMembers(ms: seq<Keyed<Json>>, rest: Text)
    requires |ms| > 0
    ensures var p := ParseMembers(MembersText(ms, rest)); p.Done? && p.value == ms && p.rest == rest
    decreases ms
  {
    hide ParseMember, ParseMembers, ParseValue, MembersText, Flat, Quote;
    var after := if |ms| == 1 then [CLOSE_OBJECT] + rest else [COMMA] + MembersText(ms[1..], rest);
    ReadBack(ms[0].item, after);
    MembersTextUnfolds(ms, rest);
    ReadMember(ms[0].key, ms[0].item, after);
    if |ms| > 1 {
      ReadMembers(ms[1..], rest);
      assert after[1..] == MembersText(ms[1..], rest);
    } else {
      assert after[1..] == rest;
    }
    MembersStep(MembersText(ms, rest));
    assert ms == [ms[0]] + ms[1..];
  }

  /** Reading the canonical text of a value gives the value, with members in canonical order. */
  lemma PrintedReadsBack(mode: Mode, v: Json)
    ensures var p := ParseValue(Print(mode, v)); p.Done? && p.value == Canon(mode, v) && p.rest == []
  {
    hide ParseValue, Flat, Print;
    PrintIsFlat(mode, v);
    ReadBack(Canon(mode, v), []);
    assert Flat(Canon(mode, v)) + [] == Flat(Canon(mode, v));
  }
}
