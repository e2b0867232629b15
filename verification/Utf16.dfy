// UTF-16 strings as JavaScript holds them: well-formedness, the conversion
// TextEncoder applies, and how code-unit order differs from code-point order.
module Utf16 {
  import opened Utf8

  type Unit = x: int | 0 <= x < 0x1_0000
  type Text = seq<Unit>

  predicate IsHigh(u: int) { 0xD800 <= u < 0xDC00 }

  predicate IsLow(u: int) { 0xDC00 <= u < 0xE000 }

  predicate StartsWithPair(s: Text)
  {
    |s| >= 2 && IsHigh(s[0]) && IsLow(s[1])
  }

  predicate WellFormed(s: Text)
  {
    if |s| == 0 then true
    else if StartsWithPair(s) then WellFormed(s[2..])
    else !IsHigh(s[0]) && !IsLow(s[0]) && WellFormed(s[1..])
  }

  lemma {:induction false} WellFormedConcat(s: Text, t: Text)
    requires WellFormed(s) && WellFormed(t)
    ensures WellFormed(s + t)
  {
    if |s| == 0 {
      assert s + t == t;
    } else if StartsWithPair(s) {
      WellFormedConcat(s[2..], t);
      assert (s + t)[2..] == s[2..] + t;
    } else {
      WellFormedConcat(s[1..], t);
      assert (s + t)[1..] == s[1..] + t;
    }
  }

  /** Conversion to scalar values; a lone surrogate becomes U+FFFD. */
  function ToScalars(s: Text): (c: seq<int>)
    ensures AllScalars(c)
  {
    if |s| == 0 then []
    else if StartsWithPair(s) then [0x1_0000 + (s[0] - 0xD800) * 0x400 + (s[1] - 0xDC00)] + ToScalars(s[2..])
    else [if IsHigh(s[0]) || IsLow(s[0]) then 0xFFFD else s[0]] + ToScalars(s[1..])
  }

  function UnitsOf(c: int): (u: Text)
    requires IsScalar(c)
    ensures 1 <= |u| <= 2
  {
    if c < 0x1_0000 then [c] else [0xD800 + (c - 0x1_0000) / 0x400, 0xDC00 + (c - 0x1_0000) % 0x400]
  }

  function FromScalars(c: seq<int>): Text
    requires AllScalars(c)
  {
    if |c| == 0 then [] else UnitsOf(c[0]) + FromScalars(c[1..])
  }

  /** On well-formed strings the conversion loses nothing. */
  lemma {:induction false} ScalarsRoundTrip(s: Text)
    requires WellFormed(s)
    ensures FromScalars(ToScalars(s)) == s
  {
    if |s| == 0 {
    } else if StartsWithPair(s) {
      ScalarsRoundTrip(s[2..]);
      var high: int, low: int := s[0], s[1];
      var c := 0x1_0000 + (high - 0xD800) * 0x400 + (low - 0xDC00);
      assert UnitsOf(c) == [s[0], s[1]];
      assert s == [s[0], s[1]] + s[2..];
    } else {
      ScalarsRoundTrip(s[1..]);
      assert s == [s[0]] + s[1..];
    }
  }

  lemma ToScalarsInjective(s: Text, t: Text)
    requires WellFormed(s) && WellFormed(t) && ToScalars(s) == ToScalars(t)
    ensures s == t
  {
    ScalarsRoundTrip(s);
    ScalarsRoundTrip(t);
  }

  lemma UnitsBack(c: int)
    requires IsScalar(c)
    ensures var u := UnitsOf(c); if c < 0x1_0000 then !IsHigh(u[0]) && !IsLow(u[0]) else
      |u| == 2 && IsHigh(u[0]) && IsLow(u[1]) && 0x1_0000 + (u[0] as int - 0xD800) * 0x400 + (u[1] as int - 0xDC00) == c
  {}

  /** Every sequence of scalar values has a well-formed string that converts back to it. */
  lemma {:induction false} UnitsRoundTrip(c: seq<int>)
    requires AllScalars(c)
    ensures WellFormed(FromScalars(c)) && ToScalars(FromScalars(c)) == c
  {
    if |c| > 0 {
      var s := FromScalars(c);
      UnitsRoundTrip(c[1..]);
      UnitsBack(c[0]);
      hide UnitsOf;
      assert s == UnitsOf(c[0]) + FromScalars(c[1..]);
      assert s[|UnitsOf(c[0])|..] == FromScalars(c[1..]);
      assert c == [c[0]] + c[1..];
    }
  }

  // ---- Order ----

  /** A supplementary code point against one in U+E000..U+FFFF: the one place where the orders differ. */
  predicate Crosses(c: int, d: int)
  {
    (c >= 0x1_0000 && 0xE000 <= d < 0x1_0000) || (d >= 0x1_0000 && 0xE000 <= c < 0x1_0000)
  }

  /** The first differing code points of two texts cross. */
  predicate Crossing(s: seq<int>, t: seq<int>)
  {
    if |s| == 0 || |t| == 0 then false
    else if s[0] != t[0] then Crosses(s[0], t[0])
    else Crossing(s[1..], t[1..])
  }

  lemma HeadOrder(c: int, d: int, a: seq<int>, b: seq<int>)
    requires IsScalar(c) && IsScalar(d) && c != d
    ensures LexLess(UnitsOf(c) + a, UnitsOf(d) + b) <==> (c < d) != Crosses(c, d)
  {
    var x, y := UnitsOf(c) + a, UnitsOf(d) + b;
    if c >= 0x1_0000 && d >= 0x1_0000 {
      var i, j := c - 0x1_0000, d - 0x1_0000;
      assert i == i / 0x400 * 0x400 + i % 0x400 && j == j / 0x400 * 0x400 + j % 0x400;
      if i / 0x400 == j / 0x400 {
        assert x[1..][0] == 0xDC00 + i % 0x400 && y[1..][0] == 0xDC00 + j % 0x400;
      }
    }
  }

  /**
   * Code-unit order and code-point order agree on two well-formed texts exactly
   * when their first difference is not between a supplementary code point and
   * one in U+E000..U+FFFF.
   */
  lemma {:induction false} UnitOrderExact(s: seq<int>, t: seq<int>)
    requires AllScalars(s) && AllScalars(t)
    ensures LexLess(FromScalars(s), FromScalars(t)) <==> LexLess(s, t) != Crossing(s, t)
  {
    var x, y := FromScalars(s), FromScalars(t);
    if |s| == 0 || |t| == 0 {
      assert |s| > 0 ==> |UnitsOf(s[0])| > 0;
      assert |t| > 0 ==> |UnitsOf(t[0])| > 0;
    } else if s[0] == t[0] {
      UnitOrderExact(s[1..], t[1..]);
      LexCommonPrefix(UnitsOf(s[0]), FromScalars(s[1..]), FromScalars(t[1..]));
    } else {
      HeadOrder(s[0], t[0], FromScalars(s[1..]), FromScalars(t[1..]));
    }
  }
}
