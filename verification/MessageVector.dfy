// The ordered message vector of a credential and the presentation header
// (blindage/schemas/vc.py).
module MessageVector {
  import opened Octets
  import opened Schemas
  import Utf8
  import opened Utf16
  import opened CanonicalJson
  import opened JsonMembers
  import opened JsonMeaning
  import opened Anchor

  function ClaimValue(c: AgeClaim): string
  {
    match c
    case Over13 => "AGE_OVER_13"
    case Over16 => "AGE_OVER_16"
    case Over18 => "AGE_OVER_18"
    case Over21 => "AGE_OVER_21"
  }

  function LevelValue(a: AssuranceLevel): string
  {
    match a case AAL0 => "AAL0" case AAL1 => "AAL1" case AAL2 => "AAL2" case AAL3 => "AAL3"
  }

  // ---- sorted() over str ----

  function InsertText(x: string, s: seq<string>): seq<string>
  {
    if |s| == 0 then [x]
    else if TextLess(s[0], x) then [s[0]] + InsertText(x, s[1..])
    else [x] + s
  }

  function SortTexts(s: seq<string>): seq<string>
  {
    if |s| == 0 then [] else InsertText(s[0], SortTexts(s[1..]))
  }

  predicate NonDecreasing(s: seq<string>)
  {
    |s| == 0 || ((forall x | x in s :: !TextLess(x, s[0])) && NonDecreasing(s[1..]))
  }

  lemma {:induction false} InsertFacts(x: string, s: seq<string>)
    requires NonDecreasing(s)
    ensures multiset(InsertText(x, s)) == multiset{x} + multiset(s)
    ensures NonDecreasing(InsertText(x, s))
  {
    hide TextLess;
    if |s| == 0 {
      TextOrderTotal(x, x, x);
    } else {
      assert s == [s[0]] + s[1..];
      var r := InsertText(x, s);
      TextOrderTotal(x, s[0], x);
      if TextLess(s[0], x) {
        InsertFacts(x, s[1..]);
        assert r[1..] == InsertText(x, s[1..]);
        assert multiset(r) == multiset{s[0]} + multiset(r[1..]) by {
          assert r == [s[0]] + r[1..];
        }
        forall y | y in r ensures !TextLess(y, r[0]) {
          assert y in multiset(r);
        }
      } else {
        assert r[1..] == s && multiset(r) == multiset{x} + multiset(s);
        forall y | y in r ensures !TextLess(y, x) {
          TextOrderTotal(x, x, x);
          if y != x {
            assert y in s;
            TextOrderTotal(y, x, s[0]);
            TextOrderTotal(y, s[0], x);
            TextOrderTotal(x, y, s[0]);
          }
        }
      }
    }
  }

  lemma {:induction false} SortFacts(s: seq<string>)
    ensures NonDecreasing(SortTexts(s)) && multiset(SortTexts(s)) == multiset(s)
  {
    if |s| > 0 {
      SortFacts(s[1..]);
      InsertFacts(s[0], SortTexts(s[1..]));
      assert s == [s[0]] + s[1..];
    }
  }

  lemma HeadIsLeast(a: seq<string>, b: seq<string>)
    requires NonDecreasing(a) && |a| > 0 && |b| > 0 && multiset(a) == multiset(b)
    ensures !TextLess(b[0], a[0])
  {
    hide TextLess;
    assert b[0] in multiset(a);
    TextOrderTotal(a[0], a[0], a[0]);
    assert a == [a[0]] + a[1..];
  }

  lemma TailMultiset(a: seq<string>)
    requires |a| > 0
    ensures multiset(a[1..]) == multiset(a) - multiset{a[0]}
  {
    assert a == [a[0]] + a[1..];
  }

  lemma {:induction false} NonDecreasingUnique(a: seq<string>, b: seq<string>)
    requires NonDecreasing(a) && NonDecreasing(b) && multiset(a) == multiset(b)
    ensures a == b
  {
    hide TextLess;
    assert |a| == |multiset(a)| == |multiset(b)| == |b|;
    if |a| > 0 {
      HeadIsLeast(a, b);
      HeadIsLeast(b, a);
      TextOrderTotal(a[0], b[0], a[0]);
      TailMultiset(a);
      TailMultiset(b);
      NonDecreasingUnique(a[1..], b[1..]);
      assert a == [a[0]] + a[1..] && b == [b[0]] + b[1..];
    }
  }

  /** Sorting does not depend on the order in which the texts come. */
  lemma SortIgnoresOrder(a: seq<string>, b: seq<string>)
    requires multiset(a) == multiset(b)
    ensures SortTexts(a) == SortTexts(b)
  {
    SortFacts(a);
    SortFacts(b);
    NonDecreasingUnique(SortTexts(a), SortTexts(b));
  }

  lemma SortMembers(s: seq<string>, x: string)
    ensures x in SortTexts(s) <==> x in s
    ensures |SortTexts(s)| == |s|
  {
    SortFacts(s);
    assert x in SortTexts(s) <==> x in multiset(SortTexts(s));
    assert |SortTexts(s)| == |multiset(SortTexts(s))| == |multiset(s)|;
  }

  // ---- vc_message_vector ----

  function EncodeAll(ts: seq<string>): (o: seq<Octets>)
    ensures |o| == |ts| && forall i :: 0 <= i < |ts| ==> o[i] == Utf8.Encode(ts[i])
  {
    seq(|ts|, i requires 0 <= i < |ts| => Utf8.Encode(ts[i]))
  }

  function ClaimValues(claims: seq<AgeClaim>): (ts: seq<string>)
    ensures |ts| == |claims| && forall i :: 0 <= i < |claims| ==> ts[i] == ClaimValue(claims[i])
  {
    seq(|claims|, i requires 0 <= i < |claims| => ClaimValue(claims[i]))
  }

  function Vector(issuerId: string, assurance: string, epoch: string, claims: seq<string>): seq<Octets>
  {
    EncodeAll([issuerId, assurance, epoch] + SortTexts(claims))
  }

  lemma {:induction false} NonDecreasingPairs(s: seq<string>, i: nat, j: nat)
    requires NonDecreasing(s) && i < j < |s|
    ensures !TextLess(s[j], s[i])
  {
    if i == 0 {
      assert s[j] in s;
    } else {
      NonDecreasingPairs(s[1..], i - 1, j - 1);
    }
  }

  /**
   * The vector, position by position: the issuer, the level, the epoch, and then
   * the claims, each as often as it was given and none before a smaller one.
   */
  lemma VectorExact(issuerId: string, assurance: string, epoch: string, claims: seq<string>)
    returns (listed: seq<string>)
    ensures multiset(listed) == multiset(claims) && |listed| == |claims|
    ensures forall i, j :: 0 <= i < j < |listed| ==> !TextLess(listed[j], listed[i])
    ensures var v := Vector(issuerId, assurance, epoch, claims);
      && |v| == 3 + |claims|
      && v[0] == Utf8.Encode(issuerId) && v[1] == Utf8.Encode(assurance) && v[2] == Utf8.Encode(epoch)
      && forall i :: 0 <= i < |claims| ==> v[3 + i] == Utf8.Encode(listed[i])
  {
    hide Utf8.Encode, TextLess;
    listed := SortTexts(claims);
    SortFacts(claims);
    assert |multiset(listed)| == |listed| && |multiset(claims)| == |claims|;
    hide NonDecreasing, SortTexts;
    forall i, j | 0 <= i < j < |listed| ensures !TextLess(listed[j], listed[i]) {
      NonDecreasingPairs(listed, i, j);
    }
  }

  /** Issuer and wallet agree on the vector whatever order the claims were computed in. */
  lemma VectorIgnoresOrder(issuerId: string, assurance: string, epoch: string, a: seq<string>, b: seq<string>)
    requires multiset(a) == multiset(b)
    ensures Vector(issuerId, assurance, epoch, a) == Vector(issuerId, assurance, epoch, b)
  {
    SortIgnoresOrder(a, b);
  }

  /** Sorting before calling vc_message_vector, as the wallet does, changes nothing. */
  lemma VectorOfSorted(issuerId: string, assurance: string, epoch: string, claims: seq<string>)
    ensures Vector(issuerId, assurance, epoch, SortTexts(claims)) == Vector(issuerId, assurance, epoch, claims)
  {
    SortFacts(claims);
    VectorIgnoresOrder(issuerId, assurance, epoch, SortTexts(claims), claims);
  }

  // ---- vc_presentation_header ----

  /** A Python str as the UTF-16 text the JSON model works on. */
  function ToText(s: string): Text
  {
    FromScalars(Utf8.CodePoints(s))
  }

  lemma ToTextInjective(s: string, t: string)
    ensures WellFormed(ToText(s))
    ensures ToText(s) == ToText(t) <==> s == t
  {
    hide WellFormed, ToScalars, FromScalars;
    UnitsRoundTrip(Utf8.CodePoints(s));
    UnitsRoundTrip(Utf8.CodePoints(t));
    if ToText(s) == ToText(t) {
      Utf8.CodePointsInjective(s, t);
    }
  }

  function Field(name: string, value: string): Keyed<Json>
  {
    Keyed(ToText(name), Str(ToText(value)))
  }

  function BindingJson(b: DomainBinding, iso: int -> string): Json
  {
    Obj([Field("audience", b.audience), Field("challenge", b.challenge),
         Field("challenge_id", b.challengeId), Field("timestamp", iso(b.timestamp))])
  }

  /** iso is the JSON form of an instant. */
  function PresentationHeader(b: DomainBinding, iso: int -> string): Octets
  {
    Bytes(Py, BindingJson(b, iso))
  }

  lemma NamesDiffer()
    ensures ToText("audience") != ToText("challenge") && ToText("audience") != ToText("challenge_id")
    ensures ToText("audience") != ToText("timestamp") && ToText("challenge") != ToText("challenge_id")
    ensures ToText("challenge") != ToText("timestamp") && ToText("challenge_id") != ToText("timestamp")
  {
    hide ToText;
    assert "challenge"[0] != "timestamp"[0];
    ToTextInjective("audience", "challenge");
    ToTextInjective("audience", "challenge_id");
    ToTextInjective("audience", "timestamp");
    ToTextInjective("challenge", "challenge_id");
    ToTextInjective("challenge", "timestamp");
    ToTextInjective("challenge_id", "timestamp");
  }

  lemma FourMembers<T>(a: Keyed<T>, b: Keyed<T>, c: Keyed<T>, d: Keyed<T>)
    requires a.key != b.key && a.key != c.key && a.key != d.key && b.key != c.key && b.key != d.key && c.key != d.key
    ensures Distinct([a, b, c, d])
    ensures ToMap([a, b, c, d]) == map[a.key := a.item, b.key := b.item, c.key := c.item, d.key := d.item]
  {
    var s := [a, b, c, d];
    assert s[1..] == [b, c, d] && [b, c, d][1..] == [c, d] && [c, d][1..] == [d] && [d][1..] == [];
    assert ToMap([d]) == map[d.key := d.item];
    assert ToMap([c, d]) == map[c.key := c.item, d.key := d.item];
    assert ToMap([b, c, d]) == map[b.key := b.item, c.key := c.item, d.key := d.item];
    assert Distinct([d]) && Distinct([c, d]) && Distinct([b, c, d]);
  }

  lemma BindingProper(b: DomainBinding, iso: int -> string)
    ensures Proper(Py, BindingJson(b, iso))
    ensures Meaning(BindingJson(b, iso)) == VObj(map[
      ToText("audience") := VStr(ToText(b.audience)), ToText("challenge") := VStr(ToText(b.challenge)),
      ToText("challenge_id") := VStr(ToText(b.challengeId)), ToText("timestamp") := VStr(ToText(iso(b.timestamp)))])
  {
    hide ToText, ToMap, Distinct, WellFormed;
    var v := BindingJson(b, iso);
    var ms := v.members;
    NamesDiffer();
    ToTextInjective("audience", b.audience);
    ToTextInjective("challenge", b.challenge);
    ToTextInjective("challenge_id", b.challengeId);
    ToTextInjective("timestamp", iso(b.timestamp));
    ToTextInjective(b.audience, "");
    ToTextInjective(b.challenge, "");
    ToTextInjective(b.challengeId, "");
    ToTextInjective(iso(b.timestamp), "");
    FourMembers(ms[0], ms[1], ms[2], ms[3]);
    forall i | 0 <= i < 4 ensures Encodable(Py, ms[i].key) && Proper(Py, ms[i].item) {
      assert i == 0 || i == 1 || i == 2 || i == 3;
    }
    var means := MeaningMembers(ms);
    ObjectMeaning(ms);
    assert means == [means[0], means[1], means[2], means[3]];
    FourMembers(means[0], means[1], means[2], means[3]);
  }

  /** The header binds the proof to every field of the domain binding: no two bindings share it. */
  lemma HeaderBindsDomain(b: DomainBinding, c: DomainBinding, iso: int -> string)
    ensures PresentationHeader(b, iso) == PresentationHeader(c, iso) <==>
      b.audience == c.audience && b.challenge == c.challenge && b.challengeId == c.challengeId
      && iso(b.timestamp) == iso(c.timestamp)
  {
    hide Bytes, Proper, Meaning, BindingJson, ToText;
    BindingProper(b, iso);
    BindingProper(c, iso);
    SameBytesIffSameValue(Py, BindingJson(b, iso), BindingJson(c, iso));
    NamesDiffer();
    ToTextInjective(b.audience, c.audience);
    ToTextInjective(b.challenge, c.challenge);
    ToTextInjective(b.challengeId, c.challengeId);
    ToTextInjective(iso(b.timestamp), iso(c.timestamp));
    SameFields(ToText("audience"), ToText("challenge"), ToText("challenge_id"), ToText("timestamp"),
      [ToText(b.audience), ToText(b.challenge), ToText(b.challengeId), ToText(iso(b.timestamp))],
      [ToText(c.audience), ToText(c.challenge), ToText(c.challengeId), ToText(iso(c.timestamp))]);
  }

  lemma SameFields(k1: Text, k2: Text, k3: Text, k4: Text, x: seq<Text>, y: seq<Text>)
    requires |x| == |y| == 4
    requires k1 != k2 && k1 != k3 && k1 != k4 && k2 != k3 && k2 != k4 && k3 != k4
    ensures var v := VObj(map[k1 := VStr(x[0]), k2 := VStr(x[1]), k3 := VStr(x[2]), k4 := VStr(x[3])]);
      var w := VObj(map[k1 := VStr(y[0]), k2 := VStr(y[1]), k3 := VStr(y[2]), k4 := VStr(y[3])]);
      v == w <==> x[0] == y[0] && x[1] == y[1] && x[2] == y[2] && x[3] == y[3]
  {
    var v := map[k1 := VStr(x[0]), k2 := VStr(x[1]), k3 := VStr(x[2]), k4 := VStr(x[3])];
    var w := map[k1 := VStr(y[0]), k2 := VStr(y[1]), k3 := VStr(y[2]), k4 := VStr(y[3])];
    assert v[k1] == VStr(x[0]) && v[k2] == VStr(x[1]) && v[k3] == VStr(x[2]) && v[k4] == VStr(x[3]);
    assert w[k1] == VStr(y[0]) && w[k2] == VStr(y[1]) && w[k3] == VStr(y[2]) && w[k4] == VStr(y[3]);
  }

  // ---- How long the header is ----

  lemma {:induction false} QuoteLength(s: Text)
    ensures |QuoteBody(s)| <= 6 * |s|
  {
    if |s| == 0 {
    } else if StartsWithPair(s) {
      QuoteLength(s[2..]);
    } else {
      QuoteLength(s[1..]);
    }
  }

  lemma {:induction false} UnitsLength(c: seq<int>)
    requires Utf8.AllScalars(c)
    ensures |FromScalars(c)| <= 2 * |c|
  {
    if |c| > 0 {
      UnitsLength(c[1..]);
    }
  }

  lemma {:induction false} ScalarsLength(s: Text)
    ensures |ToScalars(s)| <= |s|
  {
    if |s| == 0 {
    } else if StartsWithPair(s) {
      ScalarsLength(s[2..]);
    } else {
      ScalarsLength(s[1..]);
    }
  }

  lemma {:induction false} OctetsLength(c: seq<int>)
    requires Utf8.AllScalars(c)
    ensures |Utf8.EncodeScalars(c)| <= 4 * |c|
  {
    if |c| > 0 {
      OctetsLength(c[1..]);
    }
  }

  lemma {:induction false} JoinLength(ts: seq<Text>, m: nat)
    requires forall i :: 0 <= i < |ts| ==> |ts[i]| <= m
    ensures |Join(ts)| <= |ts| * (m + 1)
  {
    if |ts| == 0 {
      assert |ts| * (m + 1) == 0;
    } else {
      JoinLength(ts[1..], m);
      assert |ts| * (m + 1) == (m + 1) + (|ts| - 1) * (m + 1);
    }
  }

  lemma {:induction false} InsertKeeps<T>(mode: Mode, x: Keyed<T>, s: seq<Keyed<T>>)
    ensures |Insert(mode, x, s)| == |s| + 1 && forall y :: y in Insert(mode, x, s) ==> y == x || y in s
  {
    if |s| > 0 {
      InsertKeeps(mode, x, s[1..]);
    }
  }

  lemma {:induction false} SortKeeps<T>(mode: Mode, s: seq<Keyed<T>>)
    ensures |Sort(mode, s)| == |s| && forall y :: y in Sort(mode, s) ==> y in s
  {
    if |s| > 0 {
      SortKeeps(mode, s[1..]);
      InsertKeeps(mode, s[0], Sort(mode, s[1..]));
    }
  }

  lemma TextLength(s: string, n: nat)
    requires |s| <= n
    ensures |Quote(ToText(s))| <= 12 * n + 2
  {
    UnitsLength(Utf8.CodePoints(s));
    QuoteLength(ToText(s));
  }

  /** The header is no longer than a multiple of its longest field. */
  lemma HeaderLength(b: DomainBinding, iso: int -> string, n: nat)
    requires n >= 12 && |b.audience| <= n && |b.challenge| <= n && |b.challengeId| <= n && |iso(b.timestamp)| <= n
    ensures |PresentationHeader(b, iso)| <= 400 * n + 104
  {
    var v := BindingJson(b, iso);
    var text := Print(Py, v);
    PrintLength(b, iso, n);
    ScalarsLength(text);
    OctetsLength(ToScalars(text));
  }

  lemma PrintLength(b: DomainBinding, iso: int -> string, n: nat)
    requires n >= 12 && |b.audience| <= n && |b.challenge| <= n && |b.challengeId| <= n && |iso(b.timestamp)| <= n
    ensures |Print(Py, BindingJson(b, iso))| <= 4 * (24 * n + 6) + 2
  {
    hide Quote, ToText, Sort, Join;
    var ms := BindingJson(b, iso).members;
    var printed := seq(|ms|, i requires 0 <= i < |ms| => Keyed(ms[i].key, Print(Py, ms[i].item)));
    forall x | x in printed ensures |MemberText(x)| <= 24 * n + 5 {
      TextLength("audience", n);
      TextLength("challenge", n);
      TextLength("challenge_id", n);
      TextLength("timestamp", n);
      TextLength(b.audience, n);
      TextLength(b.challenge, n);
      TextLength(b.challengeId, n);
      TextLength(iso(b.timestamp), n);
      var i :| 0 <= i < |printed| && printed[i] == x;
      assert i == 0 || i == 1 || i == 2 || i == 3;
    }
    SortKeeps(Py, printed);
    var texts := MemberTexts(Sort(Py, printed));
    forall i | 0 <= i < |texts| ensures |texts[i]| <= 24 * n + 5 {
      assert Sort(Py, printed)[i] in printed;
    }
    JoinLength(texts, 24 * n + 5);
  }
}
