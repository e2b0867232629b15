// The members of a JSON object: the map they make, and how sorting by key acts
// on it.
module JsonMembers {
  import opened CanonicalJson
  import opened Utf8
  import opened Utf16

  function ToMap<T>(s: seq<Keyed<T>>): map<Text, T>
  {
    if |s| == 0 then map[] else ToMap(s[1..])[s[0].key := s[0].item]
  }

  predicate Distinct<T>(s: seq<Keyed<T>>)
  {
    |s| == 0 || (s[0].key !in ToMap(s[1..]) && Distinct(s[1..]))
  }

  /** Python refuses to encode lone surrogates; JavaScript escapes them. */
  predicate Encodable(mode: Mode, s: Text)
  {
    mode.Js? || WellFormed(s)
  }

  // ---- Members as a map ----

  lemma {:induction false} MapItemsToMap<T, U>(f: T -> U, s: seq<Keyed<T>>)
    ensures ToMap(MapItems(f, s)).Keys == ToMap(s).Keys
    ensures forall k | k in ToMap(s) :: ToMap(MapItems(f, s))[k] == f(ToMap(s)[k])
    ensures Distinct(s) ==> Distinct(MapItems(f, s))
  {
    if |s| > 0 {
      assert MapItems(f, s)[1..] == MapItems(f, s[1..]);
      MapItemsToMap(f, s[1..]);
    }
  }

  /** Every entry of the map is one of the members. */
  lemma {:induction false} Lookup<T>(s: seq<Keyed<T>>, k: Text) returns (i: nat)
    requires k in ToMap(s)
    ensures i < |s| && s[i].key == k && s[i].item == ToMap(s)[k]
  {
    if s[0].key == k {
      i := 0;
    } else {
      i := Lookup(s[1..], k);
      i := i + 1;
    }
  }

  lemma {:induction false} MemberIsEntry<T>(s: seq<Keyed<T>>, i: nat)
    requires i < |s|
    ensures s[i].key in ToMap(s)
    ensures Distinct(s) ==> ToMap(s)[s[i].key] == s[i].item
  {
    if i > 0 {
      assert s[1..][i - 1] == s[i];
      MemberIsEntry(s[1..], i - 1);
    }
  }

  lemma {:induction false} InsertToMap<T>(mode: Mode, x: Keyed<T>, s: seq<Keyed<T>>)
    requires x.key !in ToMap(s)
    ensures ToMap(Insert(mode, x, s)) == ToMap(s)[x.key := x.item]
  {
    if |s| > 0 && LexLess(Rank(mode, s[0].key), Rank(mode, x.key)) {
      InsertToMap(mode, x, s[1..]);
      assert Insert(mode, x, s)[1..] == Insert(mode, x, s[1..]);
    } else {
      assert Insert(mode, x, s)[1..] == s;
    }
  }

  lemma {:induction false} SortToMap<T>(mode: Mode, s: seq<Keyed<T>>)
    requires Distinct(s)
    ensures ToMap(Sort(mode, s)) == ToMap(s)
  {
    if |s| > 0 {
      SortToMap(mode, s[1..]);
      InsertToMap(mode, s[0], Sort(mode, s[1..]));
    }
  }

  // ---- Sorted members ----

  predicate Under<T>(mode: Mode, key: Text, s: seq<Keyed<T>>)
  {
    forall k | k in ToMap(s) :: LexLess(Rank(mode, key), Rank(mode, k))
  }

  predicate Sorted<T>(mode: Mode, s: seq<Keyed<T>>)
  {
    |s| == 0 || (Under(mode, s[0].key, s[1..]) && Sorted(mode, s[1..]))
  }

  predicate AllEncodable<T>(mode: Mode, s: seq<Keyed<T>>)
  {
    forall k | k in ToMap(s) :: Encodable(mode, k)
  }

  lemma RankInjective(mode: Mode, k: Text, l: Text)
    requires Encodable(mode, k) && Encodable(mode, l) && Rank(mode, k) == Rank(mode, l)
    ensures k == l
  {
    if mode.Py? {
      ToScalarsInjective(k, l);
    } else {
      assert |k| == |l| && forall i :: 0 <= i < |k| ==> k[i] == Rank(mode, k)[i] == Rank(mode, l)[i] == l[i];
    }
  }

  lemma {:induction false} InsertSorted<T>(mode: Mode, x: Keyed<T>, s: seq<Keyed<T>>)
    requires Sorted(mode, s) && x.key !in ToMap(s) && Encodable(mode, x.key) && AllEncodable(mode, s)
    ensures Sorted(mode, Insert(mode, x, s))
  {
    hide Rank, Encodable;
    if |s| > 0 {
      var rx, rs := Rank(mode, x.key), Rank(mode, s[0].key);
      if LexLess(rs, rx) {
        InsertSorted(mode, x, s[1..]);
        InsertToMap(mode, x, s[1..]);
        assert Insert(mode, x, s)[1..] == Insert(mode, x, s[1..]);
      } else {
        assert LexLess(rx, rs) by {
          LexTrichotomy(rx, rs);
          if rx == rs {
            RankInjective(mode, x.key, s[0].key);
          }
        }
        forall k | k in ToMap(s) ensures LexLess(rx, Rank(mode, k)) {
          if k != s[0].key {
            LexTransitive(rx, rs, Rank(mode, k));
          }
        }
        assert Insert(mode, x, s)[1..] == s;
      }
    }
  }

  lemma {:induction false} SortSorted<T>(mode: Mode, s: seq<Keyed<T>>)
    requires Distinct(s) && AllEncodable(mode, s)
    ensures Sorted(mode, Sort(mode, s))
  {
    if |s| > 0 {
      SortSorted(mode, s[1..]);
      SortToMap(mode, s[1..]);
      InsertSorted(mode, s[0], Sort(mode, s[1..]));
    }
  }

  lemma HeadNotInTail<T>(mode: Mode, s: seq<Keyed<T>>)
    requires |s| > 0 && Sorted(mode, s)
    ensures s[0].key !in ToMap(s[1..])
  {
    LexIrreflexive(Rank(mode, s[0].key));
  }

  lemma HeadOrAfter<T>(mode: Mode, s: seq<Keyed<T>>, k: Text)
    requires Sorted(mode, s) && k in ToMap(s)
    ensures |s| > 0 && (k == s[0].key || LexLess(Rank(mode, s[0].key), Rank(mode, k)))
  {}

  lemma SameHeads<T>(mode: Mode, a: seq<Keyed<T>>, b: seq<Keyed<T>>)
    requires |a| > 0 && |b| > 0 && Sorted(mode, a) && Sorted(mode, b) && ToMap(a) == ToMap(b)
    ensures a[0] == b[0]
  {
    var k, l := a[0].key, b[0].key;
    assert ToMap(a)[k] == a[0].item && ToMap(b)[l] == b[0].item;
    HeadOrAfter(mode, b, k);
    HeadOrAfter(mode, a, l);
    LexTrichotomy(Rank(mode, k), Rank(mode, l));
  }

  lemma TailMap<T>(mode: Mode, s: seq<Keyed<T>>)
    requires |s| > 0 && Sorted(mode, s)
    ensures ToMap(s[1..]) == ToMap(s) - {s[0].key}
  {
    HeadNotInTail(mode, s);
  }

  lemma EmptyMap<T>(s: seq<Keyed<T>>)
    ensures |s| == 0 <==> ToMap(s) == map[]
  {
    assert |s| > 0 ==> ToMap(s)[s[0].key] == s[0].item;
  }

  /** Sorted members are determined by the map they make. */
  lemma {:induction false} SortedUnique<T>(mode: Mode, a: seq<Keyed<T>>, b: seq<Keyed<T>>)
    requires Sorted(mode, a) && Sorted(mode, b) && ToMap(a) == ToMap(b)
    ensures a == b
  {
    hide ToMap, Under, Rank;
    EmptyMap(a);
    EmptyMap(b);
    if |a| > 0 && |b| > 0 {
      SameHeads(mode, a, b);
      TailMap(mode, a);
      TailMap(mode, b);
      SortedUnique(mode, a[1..], b[1..]);
      assert a == [a[0]] + a[1..] && b == [b[0]] + b[1..];
    }
  }

  lemma SortedFromDistinct<T>(mode: Mode, s: seq<Keyed<T>>)
    requires Distinct(s) && AllEncodable(mode, s)
    ensures Sorted(mode, Sort(mode, s)) && ToMap(Sort(mode, s)) == ToMap(s)
  {
    SortSorted(mode, s);
    SortToMap(mode, s);
  }
}
