// Weighted sums of points, and the split of a sum along a set of indexes.
module Sums {
  import opened Arithmetic
  import opened Groups

  /** ks[0] * pts[0] + ... */
  function Sum<G>(g: Group<G>, r: nat, pts: seq<G>, ks: seq<int>): G
    requires r > 0 && |pts| == |ks|
  {
    Accumulate(g, r, g.zero, pts, ks)
  }

  /** The accumulator of a loop that adds ks[i] * pts[i] to acc one by one. */
  function Accumulate<G>(g: Group<G>, r: nat, acc: G, pts: seq<G>, ks: seq<int>): G
    requires r > 0 && |pts| == |ks|
  {
    if |pts| == 0 then acc
    else
      var n := |pts| - 1;
      g.add(Accumulate(g, r, acc, pts[..n], ks[..n]), g.Mul(r, ks[n], pts[n]))
  }

  lemma {:induction false} AccumulateIsSum<G(!new)>(g: Group<G>, r: int, acc: G, pts: seq<G>, ks: seq<int>)
    requires IsGroup(g, r) && |pts| == |ks|
    ensures Accumulate(g, r, acc, pts, ks) == g.add(acc, Sum(g, r, pts, ks))
  {
    if |pts| == 0 {
      assert g.Unit(acc);
    } else {
      var n := |pts| - 1;
      AccumulateIsSum(g, r, acc, pts[..n], ks[..n]);
      assert g.Associative(acc, Sum(g, r, pts[..n], ks[..n]), g.Mul(r, ks[n], pts[n]));
    }
  }

  lemma {:induction false} SumConcat<G(!new)>(g: Group<G>, r: int, p: seq<G>, a: seq<int>, q: seq<G>, b: seq<int>)
    requires IsGroup(g, r) && |p| == |a| && |q| == |b|
    ensures Sum(g, r, p + q, a + b) == g.add(Sum(g, r, p, a), Sum(g, r, q, b))
  {
    if |q| == 0 {
      assert p + q == p && a + b == a;
      assert g.Unit(Sum(g, r, p, a));
    } else {
      var n := |q| - 1;
      SumConcat(g, r, p, a, q[..n], b[..n]);
      assert (p + q)[..|p + q| - 1] == p + q[..n] && (a + b)[..|a + b| - 1] == a + b[..n];
      assert g.Associative(Sum(g, r, p, a), Sum(g, r, q[..n], b[..n]), g.Mul(r, b[n], q[n]));
    }
  }

  /** Sums are linear in the scalars, which count modulo r. */
  lemma {:induction false} SumLinear<G(!new)>(g: Group<G>, r: int, pts: seq<G>, a: seq<int>, c: int, b: seq<int>,
      s: seq<int>)
    requires IsGroup(g, r) && |pts| == |a| == |b| == |s|
    requires forall i :: 0 <= i < |s| ==> Cong(s[i], a[i] + c * b[i], r)
    ensures Sum(g, r, pts, s) == g.add(Sum(g, r, pts, a), g.Mul(r, c, Sum(g, r, pts, b)))
  {
    if |pts| == 0 {
      MulZero(g, r, c, g.zero);
      assert g.Unit(g.zero);
    } else {
      var n := |pts| - 1;
      var x, sa, sb := pts[n], Sum(g, r, pts[..n], a[..n]), Sum(g, r, pts[..n], b[..n]);
      SumLinear(g, r, pts[..n], a[..n], c, b[..n], s[..n]);
      MulCong(g, r, s[n], a[n] + c * b[n], x);
      MulAdd(g, r, a[n], c * b[n], x);
      MulMul(g, r, c, b[n], x);
      MulOfSum(g, r, c, sb, g.Mul(r, b[n], x));
      Exchange(g, r, sa, g.Mul(r, c, sb), g.Mul(r, a[n], x), g.Mul(r, c, g.Mul(r, b[n], x)));
    }
  }

  lemma SumScaled<G(!new)>(g: Group<G>, r: int, pts: seq<G>, c: int, b: seq<int>, s: seq<int>)
    requires IsGroup(g, r) && |pts| == |b| == |s|
    requires forall i :: 0 <= i < |s| ==> Cong(s[i], c * b[i], r)
    ensures Sum(g, r, pts, s) == g.Mul(r, c, Sum(g, r, pts, b))
  {
    var zeros := seq(|s|, _ => 0);
    SumLinear(g, r, pts, zeros, c, b, s);
    SumOfZeros(g, r, pts, zeros);
    ZeroLeft(g, r, g.Mul(r, c, Sum(g, r, pts, b)));
  }

  lemma {:induction false} SumOfZeros<G(!new)>(g: Group<G>, r: int, pts: seq<G>, zeros: seq<int>)
    requires IsGroup(g, r) && |pts| == |zeros| && forall i :: 0 <= i < |zeros| ==> zeros[i] == 0
    ensures Sum(g, r, pts, zeros) == g.zero
  {
    if |pts| > 0 {
      var n := |pts| - 1;
      SumOfZeros(g, r, pts[..n], zeros[..n]);
      MulZero(g, r, 0, pts[n]);
      assert g.Unit(g.zero);
    }
  }

  // ---- Index sets ----

  predicate InRange(idx: seq<nat>, n: nat)
  {
    forall k :: 0 <= k < |idx| ==> idx[k] < n
  }

  predicate Differ<T(==)>(s: seq<T>, i: nat, j: nat)
  {
    i < |s| && j < |s| && i != j ==> s[i] != s[j]
  }

  predicate Distinct<T(==)>(s: seq<T>)
  {
    forall i: nat, j: nat | i < |s| && j < |s| :: Differ(s, i, j)
  }

  function Gather<T>(xs: seq<T>, idx: seq<nat>): (ys: seq<T>)
    requires InRange(idx, |xs|)
    ensures |ys| == |idx| && forall k :: 0 <= k < |idx| ==> ys[k] == xs[idx[k]]
  {
    seq(|idx|, k requires 0 <= k < |idx| => xs[idx[k]])
  }

  /** The indexes below n that are not in idx, in ascending order. */
  function Complement(idx: seq<nat>, n: nat): (u: seq<nat>)
    ensures InRange(u, n)
  {
    if n == 0 then []
    else if n - 1 in idx then Complement(idx, n - 1)
    else Complement(idx, n - 1) + [n - 1]
  }

  lemma {:induction false} ComplementMembers(idx: seq<nat>, n: nat)
    ensures Distinct(Complement(idx, n))
    ensures forall i: nat :: i in Complement(idx, n) <==> i < n && i !in idx
  {
    if n > 0 {
      ComplementMembers(idx, n - 1);
      if n - 1 !in idx {
        DistinctAppend(Complement(idx, n - 1), n - 1);
      }
    }
  }

  /** The undisclosed indexes are listed in ascending order, as the loop over range(n) meets them. */
  lemma {:induction false} ComplementAscends(idx: seq<nat>, n: nat)
    ensures forall i, j :: 0 <= i < j < |Complement(idx, n)| ==> Complement(idx, n)[i] < Complement(idx, n)[j]
    ensures forall i: nat :: i in Complement(idx, n) <==> i < n && i !in idx
  {
    ComplementMembers(idx, n);
    if n > 0 {
      ComplementAscends(idx, n - 1);
    }
  }

  lemma DistinctAppend(s: seq<nat>, x: nat)
    requires Distinct(s) && InRange(s, x)
    ensures Distinct(s + [x])
  {
    forall i: nat, j: nat | i < |s + [x]| && j < |s + [x]| ensures Differ(s + [x], i, j) {
      if i < |s| && j < |s| {
        assert Differ(s, i, j);
      }
    }
  }

  lemma {:induction false} ComplementSame(i: seq<nat>, j: seq<nat>, n: nat)
    requires forall x :: 0 <= x < n ==> (x in i <==> x in j)
    ensures Complement(i, n) == Complement(j, n)
  {
    if n > 0 {
      ComplementSame(i, j, n - 1);
    }
  }

  /** One more index takes one away from the others, unless it was listed already. */
  lemma {:induction false} ComplementAdd(idx: seq<nat>, x: nat, n: nat)
    requires x < n
    ensures |Complement(idx + [x], n)| == |Complement(idx, n)| - if x in idx then 0 else 1
  {
    if x == n - 1 {
      ComplementSame(idx + [x], idx, n - 1);
    } else {
      ComplementAdd(idx, x, n - 1);
    }
  }

  lemma {:induction false} ComplementOfNone(n: nat)
    ensures |Complement([], n)| == n
  {
    if n > 0 {
      ComplementOfNone(n - 1);
    }
  }

  /**
   * A list leaves at least as many other indexes as its length leaves room
   * for, and exactly as many if it is distinct.
   */
  lemma {:induction false} ComplementSize(idx: seq<nat>, n: nat)
    requires InRange(idx, n)
    ensures |idx| + |Complement(idx, n)| >= n
    ensures Distinct(idx) ==> |idx| + |Complement(idx, n)| == n
  {
    if |idx| == 0 {
      ComplementOfNone(n);
      assert idx == [];
    } else {
      var m := |idx| - 1;
      ComplementSize(idx[..m], n);
      ComplementAdd(idx[..m], idx[m], n);
      assert idx[..m] + [idx[m]] == idx;
      if Distinct(idx) {
        DistinctPrefix(idx);
      }
    }
  }

  lemma DistinctPrefix(s: seq<nat>)
    requires |s| > 0 && Distinct(s)
    ensures Distinct(s[..|s| - 1]) && s[|s| - 1] !in s[..|s| - 1]
  {
    var m := |s| - 1;
    forall i: nat, j: nat | i < m && j < m ensures Differ(s[..m], i, j) {
      assert Differ(s, i, j);
    }
    forall i | 0 <= i < m ensures s[i] != s[m] {
      assert Differ(s, i, m);
    }
  }

  // ---- Vectors given by positions ----

  /** The vector of length n that holds at each position the sum of the scalars listed for it. */
  function Scatter(n: nat, idx: seq<nat>, ks: seq<int>): (v: seq<int>)
    requires InRange(idx, n) && |idx| == |ks|
    ensures |v| == n
  {
    if |idx| == 0 then seq(n, _ => 0)
    else
      var m := |idx| - 1;
      var v := Scatter(n, idx[..m], ks[..m]);
      v[idx[m] := v[idx[m]] + ks[m]]
  }

  /** The sum of the scalars listed for position i. */
  function Total(idx: seq<nat>, ks: seq<int>, i: nat): int
    requires |idx| == |ks|
  {
    if |idx| == 0 then 0
    else
      var m := |idx| - 1;
      Total(idx[..m], ks[..m], i) + if idx[m] == i then ks[m] else 0
  }

  lemma {:induction false} ScatterAt(n: nat, idx: seq<nat>, ks: seq<int>, i: nat)
    requires InRange(idx, n) && |idx| == |ks| && i < n
    ensures Scatter(n, idx, ks)[i] == Total(idx, ks, i)
  {
    if |idx| > 0 {
      ScatterAt(n, idx[..|idx| - 1], ks[..|idx| - 1], i);
    }
  }

  lemma {:induction false} TotalUnlisted(idx: seq<nat>, ks: seq<int>, i: nat)
    requires |idx| == |ks| && i !in idx
    ensures Total(idx, ks, i) == 0
  {
    if |idx| > 0 {
      TotalUnlisted(idx[..|idx| - 1], ks[..|idx| - 1], i);
    }
  }

  lemma {:induction false} TotalDistinct(idx: seq<nat>, ks: seq<int>, k: nat)
    requires |idx| == |ks| && Distinct(idx) && k < |idx|
    ensures Total(idx, ks, idx[k]) == ks[k]
  {
    var m := |idx| - 1;
    DistinctPrefix(idx);
    if k == m {
      TotalUnlisted(idx[..m], ks[..m], idx[m]);
    } else {
      TotalDistinct(idx[..m], ks[..m], k);
      assert Differ(idx, k, m);
    }
  }

  lemma {:induction false} TotalConcat(a: seq<nat>, ka: seq<int>, b: seq<nat>, kb: seq<int>, i: nat)
    requires |a| == |ka| && |b| == |kb|
    ensures Total(a + b, ka + kb, i) == Total(a, ka, i) + Total(b, kb, i)
  {
    if |b| == 0 {
      assert a + b == a && ka + kb == ka;
    } else {
      var m := |b| - 1;
      TotalConcat(a, ka, b[..m], kb[..m], i);
      assert (a + b)[..|a + b| - 1] == a + b[..m] && (ka + kb)[..|ka + kb| - 1] == ka + kb[..m];
    }
  }

  /** Changing one coefficient by x changes the sum by x times its point. */
  lemma {:induction false} SumUpdate<G(!new)>(g: Group<G>, r: int, pts: seq<G>, ks: seq<int>, i: nat, x: int)
    requires IsGroup(g, r) && |pts| == |ks| && i < |pts|
    ensures Sum(g, r, pts, ks[i := ks[i] + x]) == g.add(Sum(g, r, pts, ks), g.Mul(r, x, pts[i]))
  {
    var n := |pts| - 1;
    var ks' := ks[i := ks[i] + x];
    var rest := Sum(g, r, pts[..n], ks[..n]);
    if i == n {
      assert ks'[..n] == ks[..n];
      MulAdd(g, r, ks[n], x, pts[n]);
      assert g.Associative(rest, g.Mul(r, ks[n], pts[n]), g.Mul(r, x, pts[n]));
    } else {
      assert ks'[..n] == ks[..n][i := ks[..n][i] + x];
      SumUpdate(g, r, pts[..n], ks[..n], i, x);
      MiddleLast(g, r, rest, g.Mul(r, x, pts[i]), g.Mul(r, ks[n], pts[n]));
    }
  }

  /** The sum over a scattered vector is the sum over the list it came from. */
  lemma {:induction false} SumScatter<G(!new)>(g: Group<G>, r: int, pts: seq<G>, idx: seq<nat>, ks: seq<int>)
    requires IsGroup(g, r) && InRange(idx, |pts|) && |idx| == |ks|
    ensures Sum(g, r, pts, Scatter(|pts|, idx, ks)) == Sum(g, r, Gather(pts, idx), ks)
  {
    if |idx| == 0 {
      SumOfZeros(g, r, pts, Scatter(|pts|, idx, ks));
    } else {
      var m := |idx| - 1;
      var v := Scatter(|pts|, idx[..m], ks[..m]);
      SumScatter(g, r, pts, idx[..m], ks[..m]);
      SumUpdate(g, r, pts, v, idx[m], ks[m]);
      assert Gather(pts, idx)[..m] == Gather(pts, idx[..m]);
    }
  }

  /** A list in two parts gives two sums. */
  lemma SumScatterParts<G(!new)>(g: Group<G>, r: int, pts: seq<G>, a: seq<nat>, ka: seq<int>, b: seq<nat>, kb: seq<int>)
    requires IsGroup(g, r) && InRange(a, |pts|) && InRange(b, |pts|) && |a| == |ka| && |b| == |kb|
    ensures InRange(a + b, |pts|)
    ensures Sum(g, r, pts, Scatter(|pts|, a + b, ka + kb)) ==
      g.add(Sum(g, r, Gather(pts, a), ka), Sum(g, r, Gather(pts, b), kb))
  {
    SumScatter(g, r, pts, a + b, ka + kb);
    assert Gather(pts, a + b) == Gather(pts, a) + Gather(pts, b);
    SumConcat(g, r, Gather(pts, a), ka, Gather(pts, b), kb);
  }

  /** (x + y) + z = (x + z) + y */
  lemma MiddleLast<G(!new)>(g: Group<G>, r: int, x: G, y: G, z: G)
    requires IsGroup(g, r)
    ensures g.add(g.add(x, y), z) == g.add(g.add(x, z), y)
  {
    assert g.Associative(x, y, z) && g.Commutative(y, z) && g.Associative(x, z, y);
  }

  // ---- Which lists say what they list ----

  /** At every listed position the vector holds what was listed there, modulo r. */
  ghost predicate Agrees(idx: seq<nat>, ds: seq<int>, r: int)
    requires |idx| == |ds| && r > 0
  {
    forall k :: 0 <= k < |idx| ==> Cong(Total(idx, ds, idx[k]), ds[k], r)
  }

  lemma {:induction false} TotalOfUnit(idx: seq<nat>, a: nat, i: nat)
    requires a < |idx|
    ensures Total(idx, seq(|idx|, k => if k == a then 1 else 0), i) == if idx[a] == i then 1 else 0
  {
    var m := |idx| - 1;
    var unit := seq(|idx|, k => if k == a then 1 else 0);
    if a == m {
      var zeros := unit[..m];
      assert forall k :: 0 <= k < m ==> zeros[k] == 0;
      TotalOfZeros(idx[..m], zeros, i);
    } else {
      TotalOfUnit(idx[..m], a, i);
      assert unit[..m] == seq(m, k => if k == a then 1 else 0);
    }
  }

  lemma {:induction false} TotalOfZeros(idx: seq<nat>, zeros: seq<int>, i: nat)
    requires |idx| == |zeros| && forall k :: 0 <= k < |zeros| ==> zeros[k] == 0
    ensures Total(idx, zeros, i) == 0
  {
    if |idx| > 0 {
      TotalOfZeros(idx[..|idx| - 1], zeros[..|idx| - 1], i);
    }
  }

  /** Every choice of listed scalars agrees with the vector exactly when no index is listed twice. */
  lemma AgreesIffDistinct(idx: seq<nat>, r: int)
    requires r > 1
    ensures (forall ds: seq<int> | |ds| == |idx| :: Agrees(idx, ds, r)) <==> Distinct(idx)
  {
    if Distinct(idx) {
      forall ds: seq<int> | |ds| == |idx| ensures Agrees(idx, ds, r) {
        forall k | 0 <= k < |idx| ensures Cong(Total(idx, ds, idx[k]), ds[k], r) {
          TotalDistinct(idx, ds, k);
        }
      }
    } else {
      var a: nat, b: nat :| a < |idx| && b < |idx| && !Differ(idx, a, b);
      var unit := seq(|idx|, k => if k == a then 1 else 0);
      TotalOfUnit(idx, a, idx[b]);
      OneIsNotZero(r);
      assert !Agrees(idx, unit, r);
    }
  }

  lemma OneIsNotZero(r: int)
    requires r > 1
    ensures !Cong(1, 0, r)
  {
    if Cong(1, 0, r) {
      CongSmall(1, 0, r);
    }
  }
}
