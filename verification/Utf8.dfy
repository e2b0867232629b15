// UTF-8 (RFC 3629) and lexicographic order: comparing encodings octet by octet
// is comparing texts code point by code point.
module Utf8 {
  import opened Octets

  // ---- Lexicographic order ----

  predicate LexLess(a: seq<int>, b: seq<int>)
  {
    if |b| == 0 then false
    else if |a| == 0 then true
    else if a[0] != b[0] then a[0] < b[0]
    else LexLess(a[1..], b[1..])
  }

  lemma {:induction false} LexIrreflexive(a: seq<int>)
    ensures !LexLess(a, a)
  {
    if |a| > 0 {
      LexIrreflexive(a[1..]);
    }
  }

  lemma {:induction false} LexTransitive(a: seq<int>, b: seq<int>, c: seq<int>)
    requires LexLess(a, b) && LexLess(b, c)
    ensures LexLess(a, c)
  {
    if |a| > 0 && a[0] == b[0] == c[0] {
      LexTransitive(a[1..], b[1..], c[1..]);
    }
  }

  lemma {:induction false} LexTotal(a: seq<int>, b: seq<int>)
    ensures LexLess(a, b) || LexLess(b, a) || a == b
  {
    if |a| > 0 && |b| > 0 && a[0] == b[0] {
      LexTotal(a[1..], b[1..]);
      assert a == [a[0]] + a[1..] && b == [b[0]] + b[1..];
    }
  }

  /** Exactly one of less, equal and greater holds. */
  lemma LexTrichotomy(a: seq<int>, b: seq<int>)
    ensures LexLess(a, b) ==> a != b && !LexLess(b, a)
    ensures LexLess(a, b) || LexLess(b, a) || a == b
  {
    LexTotal(a, b);
    LexIrreflexive(a);
    if LexLess(a, b) && LexLess(b, a) {
      LexTransitive(a, b, a);
    }
  }

  lemma {:induction false} LexCommonPrefix(p: seq<int>, a: seq<int>, b: seq<int>)
    ensures LexLess(p + a, p + b) <==> LexLess(a, b)
  {
    if |p| == 0 {
      assert p + a == a && p + b == b;
    } else {
      assert (p + a)[1..] == p[1..] + a && (p + b)[1..] == p[1..] + b;
      LexCommonPrefix(p[1..], a, b);
    }
  }

  /** The first difference decides. */
  lemma {:induction false} LexAt(a: seq<int>, b: seq<int>, k: nat)
    requires k < |a| && k < |b| && (forall i :: 0 <= i < k ==> a[i] == b[i]) && a[k] < b[k]
    ensures LexLess(a, b)
  {
    if k > 0 {
      LexAt(a[1..], b[1..], k - 1);
    }
  }

  /** One sequence is below another exactly when it is a proper prefix of it or is smaller where they first differ. */
  lemma {:induction false} LexExact(a: seq<int>, b: seq<int>)
    ensures LexLess(a, b) <==> exists k: nat :: LessAt(a, b, k)
  {
    if |b| > 0 && |a| > 0 && a[0] == b[0] {
      LexExact(a[1..], b[1..]);
      if k: nat :| LessAt(a[1..], b[1..], k) {
        LessAtNext(a, b, k);
        assert LessAt(a, b, k + 1);
      }
      if k: nat :| LessAt(a, b, k) {
        LessAtNext(a, b, k - 1);
        assert LessAt(a[1..], b[1..], k - 1);
      }
    } else if LexLess(a, b) {
      assert LessAt(a, b, 0);
    } else if k: nat :| LessAt(a, b, k) {
      LessAtHead(a, b, k);
    }
  }

  lemma LessAtHead(a: seq<int>, b: seq<int>, k: nat)
    requires LessAt(a, b, k)
    ensures |b| > 0 && (|a| > 0 ==> a[0] <= b[0])
  {
    if k > 0 {
      assert a[..k][0] == b[..k][0];
    }
  }

  lemma LessAtNext(a: seq<int>, b: seq<int>, k: nat)
    requires |a| > 0 && |b| > 0 && a[0] == b[0]
    ensures LessAt(a, b, k + 1) <==> LessAt(a[1..], b[1..], k)
  {
    if k < |a| && k < |b| {
      assert a[..k + 1] == [a[0]] + a[1..][..k] && b[..k + 1] == [b[0]] + b[1..][..k];
      assert a[1..][..k] == a[..k + 1][1..] && b[1..][..k] == b[..k + 1][1..];
    }
  }

  /** The first k elements agree, and there the first sequence ends or is smaller. */
  predicate LessAt(a: seq<int>, b: seq<int>, k: nat)
  {
    k <= |a| && k < |b| && a[..k] == b[..k] && (k == |a| || a[k] < b[k])
  }

  // ---- Encoding ----

  predicate IsScalar(c: int)
  {
    0 <= c < 0xD800 || 0xE000 <= c < 0x11_0000
  }

  function EncodeScalar(c: int): (o: Octets)
    requires IsScalar(c)
    ensures 1 <= |o| <= 4
  {
    if c < 0x80 then [c]
    else if c < 0x800 then [0xC0 + c / 64, 0x80 + c % 64]
    else if c < 0x1_0000 then [0xE0 + c / 4096, 0x80 + c / 64 % 64, 0x80 + c % 64]
    else [0xF0 + c / 26_2144, 0x80 + c / 4096 % 64, 0x80 + c / 64 % 64, 0x80 + c % 64]
  }

  /** An octet 10xxxxxx. */
  predicate Continues(o: int)
  {
    0x80 <= o < 0xC0
  }

  /** The table of section 3 of RFC 3629: octet count by range, leading octet by count, six bits in each later one. */
  lemma ScalarOctets(c: int)
    requires IsScalar(c)
    ensures var o: seq<int> := EncodeScalar(c);
      && |o| == (if c <= 0x7F then 1 else if c <= 0x7FF then 2 else if c <= 0xFFFF then 3 else 4)
      && (forall i :: 1 <= i < |o| ==> Continues(o[i]))
      && (|o| == 1 ==> o[0] == c)
      && (|o| == 2 ==> 0xC0 <= o[0] < 0xE0 && c == (o[0] - 0xC0) * 64 + (o[1] - 0x80))
      && (|o| == 3 ==> 0xE0 <= o[0] < 0xF0 && c == ((o[0] - 0xE0) * 64 + (o[1] - 0x80)) * 64 + (o[2] - 0x80))
      && (|o| == 4 ==> 0xF0 <= o[0] < 0xF8
                       && c == (((o[0] - 0xF0) * 64 + (o[1] - 0x80)) * 64 + (o[2] - 0x80)) * 64 + (o[3] - 0x80))
  {
    assert c / 64 / 64 == c / 4096 && c / 4096 / 64 == c / 26_2144;
  }

  predicate AllScalars(s: seq<int>)
  {
    forall i :: 0 <= i < |s| ==> IsScalar(s[i])
  }

  function EncodeScalars(s: seq<int>): Octets
    requires AllScalars(s)
  {
    if |s| == 0 then [] else EncodeScalar(s[0]) + EncodeScalars(s[1..])
  }

  /** Encodings are concatenated, one code point after the other. */
  lemma {:induction false} EncodingConcat(s: seq<int>, t: seq<int>)
    requires AllScalars(s) && AllScalars(t)
    ensures EncodeScalars(s + t) == EncodeScalars(s) + EncodeScalars(t)
    ensures |s| == 1 ==> EncodeScalars(s) == EncodeScalar(s[0])
  {
    hide EncodeScalar;
    if |s| == 0 {
      assert s + t == t;
    } else {
      EncodingConcat(s[1..], t);
      assert (s + t)[1..] == s[1..] + t;
      Append(EncodeScalar(s[0]), EncodeScalars(s[1..]), EncodeScalars(t));
    }
  }

  lemma Append(x: Octets, y: Octets, z: Octets)
    ensures x + (y + z) == (x + y) + z
  {}

  /** The code points of a text. */
  function CodePoints(s: string): (c: seq<int>)
    ensures |c| == |s| && AllScalars(c)
  {
    seq(|s|, i requires 0 <= i < |s| => s[i] as int)
  }

  function Encode(s: string): Octets
  {
    EncodeScalars(CodePoints(s))
  }

  // ---- Order ----

  /** Position of the first octet in which two code points of the same length class differ. */
  function DifferAt(c: int, d: int): nat
    requires IsScalar(c) && IsScalar(d)
  {
    var x, y := EncodeScalar(c), EncodeScalar(d);
    if |x| != |y| || x[0] != y[0] then 0
    else if |x| < 3 || x[1] != y[1] then 1
    else if |x| < 4 || x[2] != y[2] then 2
    else 3
  }

  lemma ScalarOrder(c: int, d: int)
    requires IsScalar(c) && IsScalar(d) && c < d
    ensures var x, y := EncodeScalar(c), EncodeScalar(d);
      var k := DifferAt(c, d);
      k < |x| && k < |y| && (forall i :: 0 <= i < k ==> x[i] == y[i]) && x[k] < y[k]
  {
    if |EncodeScalar(c)| != |EncodeScalar(d)| {
      LongerLeads(c, d);
    } else if 0x800 <= c && d < 0x1_0000 {
      ThreeDigits(c, d);
    } else if 0x1_0000 <= c {
      FourDigits(c, d);
    }
  }

  /** Encodings of different lengths differ in their first octet. */
  lemma LongerLeads(c: int, d: int)
    requires IsScalar(c) && IsScalar(d) && c < d && |EncodeScalar(c)| != |EncodeScalar(d)|
    ensures EncodeScalar(c)[0] < EncodeScalar(d)[0]
  {}

  /** Comparing the leading digits in base 64 first. */
  lemma DigitOrder(c: nat, d: nat)
    ensures c < d ==> c / 64 < d / 64 || (c / 64 == d / 64 && c % 64 < d % 64)
  {}

  lemma ThreeDigits(c: nat, d: nat)
    requires c < d
    ensures c / 4096 < d / 4096 ||
      (c / 4096 == d / 4096 && (c / 64 % 64 < d / 64 % 64 || (c / 64 % 64 == d / 64 % 64 && c % 64 < d % 64)))
  {
    DigitOrder(c, d);
    DigitOrder(c / 64, d / 64);
    assert c / 64 / 64 == c / 4096 && d / 64 / 64 == d / 4096;
  }

  lemma FourDigits(c: nat, d: nat)
    requires c < d
    ensures c / 26_2144 < d / 26_2144 || (c / 26_2144 == d / 26_2144 &&
      (c / 4096 % 64 < d / 4096 % 64 || (c / 4096 % 64 == d / 4096 % 64 &&
        (c / 64 % 64 < d / 64 % 64 || (c / 64 % 64 == d / 64 % 64 && c % 64 < d % 64)))))
  {
    ThreeDigits(c, d);
    DigitOrder(c / 4096, d / 4096);
    assert c / 4096 / 64 == c / 26_2144 && d / 4096 / 64 == d / 26_2144;
  }

  lemma DifferentHeads(c: int, d: int, a: Octets, b: Octets)
    requires IsScalar(c) && IsScalar(d) && c < d
    ensures LexLess(EncodeScalar(c) + a, EncodeScalar(d) + b)
  {
    ScalarOrder(c, d);
    LexAt(EncodeScalar(c) + a, EncodeScalar(d) + b, DifferAt(c, d));
  }

  /** Octet order of the encodings is code-point order of the texts. */
  lemma {:induction false} EncodingOrder(s: seq<int>, t: seq<int>)
    requires AllScalars(s) && AllScalars(t)
    ensures LexLess(EncodeScalars(s), EncodeScalars(t)) <==> LexLess(s, t)
  {
    var x, y := EncodeScalars(s), EncodeScalars(t);
    if |s| == 0 || |t| == 0 {
      assert |s| > 0 ==> |EncodeScalar(s[0])| > 0;
      assert |t| > 0 ==> |EncodeScalar(t[0])| > 0;
    } else if s[0] == t[0] {
      EncodingOrder(s[1..], t[1..]);
      LexCommonPrefix(EncodeScalar(s[0]), EncodeScalars(s[1..]), EncodeScalars(t[1..]));
    } else if s[0] < t[0] {
      DifferentHeads(s[0], t[0], EncodeScalars(s[1..]), EncodeScalars(t[1..]));
    } else {
      DifferentHeads(t[0], s[0], EncodeScalars(t[1..]), EncodeScalars(s[1..]));
      LexTrichotomy(y, x);
    }
  }

  /** Different texts have different encodings. */
  lemma EncodingInjective(s: seq<int>, t: seq<int>)
    requires AllScalars(s) && AllScalars(t) && EncodeScalars(s) == EncodeScalars(t)
    ensures s == t
  {
    EncodingOrder(s, t);
    EncodingOrder(t, s);
    LexIrreflexive(EncodeScalars(s));
    LexTotal(s, t);
  }

  lemma CodePointsInjective(s: string, t: string)
    requires CodePoints(s) == CodePoints(t)
    ensures s == t
  {
    assert |s| == |t|;
    forall i | 0 <= i < |s| ensures s[i] == t[i] {
      assert CodePoints(s)[i] == s[i] as int && CodePoints(t)[i] == t[i] as int;
      assert s[i] == (s[i] as int) as char && t[i] == (t[i] as int) as char;
    }
  }
}
