// The algebra of BBS: honest signatures verify and are unique for their scalar,
// honest proofs are accepted, and two accepting transcripts with the same
// commitments give up a signature on the disclosed messages.
module BbsAlgebra {
  import opened Arithmetic
  import opened Primes
  import opened Groups
  import opened Sums
  import opened Bbs

  // ---- Signatures ----

  /** The pairing test on (A, e) says exactly that (sk + e) * A = B. */
  lemma PairingCheckExact<G1(!new), G2(!new), GT(!new)>(S: Suite<G1, G2, GT>, sk: nat, a: G1, e: nat, b: G1)
    requires S.Valid()
    ensures PairingCheck(S, S.PublicPoint(sk), a, e, b) <==> S.Mul(sk + e, a) == b
  {
    var p, r := S.pairing, S.r;
    MulAdd(p.g2, r, sk, e, p.base);
    PairMul(p, r, sk + e, p.base, a);
    PairQuotient(p, r, p.e(p.g2.Mul(r, sk + e, p.base), a), p.base, b);
    if p.e(p.base, S.Mul(sk + e, a)) == p.e(p.base, b) {
      PairInjective(p, r, S.Mul(sk + e, a), b);
    }
  }

  /** Dividing by a unit scalar. */
  lemma Divide<G1(!new), G2(!new), GT(!new)>(S: Suite<G1, G2, GT>, k: nat, a: G1, b: G1)
    requires S.Valid() && k % S.r != 0
    ensures Coprime(k % S.r, S.r)
    ensures S.Mul(k, a) == b <==> a == S.Mul(ModInv(k % S.r, S.r), b)
    ensures a == S.Mul(ModInv(k % S.r, S.r), b) ==> (a == S.Zero() <==> b == S.Zero())
  {
    var g, r := S.pairing.g1, S.r;
    var k' := k % r;
    CongMod(k, r);
    DivModUnique(k', 0, k', r);
    MulInvertible(g, r, k', a);
    MulCong(g, r, k, k', a);
    var i := ModInv(k', r);
    MulMul(g, r, k, i, b);
    CongMul(k, k', i, i, r);
    MulCong(g, r, k * i, 1, b);
    MulOne(g, r, b);
    MulZero(g, r, i, b);
    MulZero(g, r, k, b);
  }

  lemma SumNonzero(sk: nat, e: nat, r: int)
    requires IsPrime(r)
    ensures Coprime((sk + e) % r, r) <==> (sk + e) % r != 0
  {
    var k := (sk + e) % r;
    if k == 0 {
      DivModUnique(0, 0, 0, r);
      assert Gcd(0, r) == Gcd(r, 0);
    } else {
      DivModUnique(k, 0, k, r);
      PrimeCoprime(r, k);
    }
  }

  // ---- Completeness of proofs ----

  /** The verifier's T1 is the prover's. */
  lemma T1Agrees<G1(!new), G2(!new), GT(!new)>(
      S: Suite<G1, G2, GT>, abar: G1, bbar: G1, d: G1, e: int, r1: int, eT: int, r1T: int, c: int, eHat: int,
      r1Hat: int)
    requires S.Valid()
    requires bbar == S.Add(S.Mul(r1, d), S.Neg(S.Mul(e, abar)))
    requires Cong(eHat, eT - (-e) * c, S.r) && Cong(r1Hat, r1T - r1 * c, S.r)
    ensures S.Add(S.Add(S.Mul(c, bbar), S.Mul(eHat, abar)), S.Mul(r1Hat, d))
         == S.Add(S.Mul(eT, abar), S.Mul(r1T, d))
  {
    var g, r := S.pairing.g1, S.r;
    BbarCombination(S, abar, bbar, d, e, r1);
    CombineMul(g, r, c, -e, r1, abar, d);
    AddThree(S, S.Mul(c, bbar), S.Mul(eHat, abar), S.Mul(r1Hat, d));
    CombineAdd(g, r, c * -e, c * r1, eHat, r1Hat, abar, d);
    CancelResponse(c, -e, eHat, eT, r);
    CancelResponse(c, r1, r1Hat, r1T, r);
    hide IsGroup, Cong;
    MulCong(g, r, c * -e + eHat, eT, abar);
    MulCong(g, r, c * r1 + r1Hat, r1T, d);
  }

  /** c x + (t - x c) = t */
  lemma CancelResponse(c: int, x: int, hat: int, t: int, r: int)
    requires r > 0 && Cong(hat, t - x * c, r)
    ensures Cong(c * x + hat, t, r)
  {
    CongAdd(c * x, c * x, hat, t - x * c, r);
    assert c * x == x * c;
  }

  lemma BbarCombination<G1(!new), G2(!new), GT(!new)>(S: Suite<G1, G2, GT>, abar: G1, bbar: G1, d: G1, e: int, r1: int)
    requires S.Valid() && bbar == S.Add(S.Mul(r1, d), S.Neg(S.Mul(e, abar)))
    ensures bbar == Combine(S.pairing.g1, S.r, -e, abar, r1, d)
  {
    MulNeg(S.pairing.g1, S.r, e, abar);
    assert S.pairing.g1.Commutative(S.Mul(r1, d), S.Mul(-e, abar));
  }

  /** The verifier's T2 is the prover's, for B = Bv + sum of the hidden part and D = r2 * B. */
  lemma T2Agrees<G1(!new), G2(!new), GT(!new)>(
      S: Suite<G1, G2, GT>, bv: G1, b: G1, d: G1, r3: int, r3T: int, c: int, r3Hat: int, hidden: seq<G1>, ms: seq<int>,
      tildes: seq<int>, hats: seq<int>)
    requires S.Valid() && |hidden| == |ms| == |tildes| == |hats|
    requires b == S.Add(bv, Sum(S.pairing.g1, S.r, hidden, ms)) && b == S.Mul(r3, d)
    requires Cong(r3Hat, r3T - r3 * c, S.r)
    requires forall i :: 0 <= i < |hats| ==> Cong(hats[i], tildes[i] + c * ms[i], S.r)
    ensures Accumulate(S.pairing.g1, S.r, S.Add(S.Mul(c, bv), S.Mul(r3Hat, d)), hidden, hats)
         == Accumulate(S.pairing.g1, S.r, S.Mul(r3T, d), hidden, tildes)
  {
    var g, r := S.pairing.g1, S.r;
    var sm, st := Sum(g, r, hidden, ms), Sum(g, r, hidden, tildes);
    AccumulateIsSum(g, r, S.Add(S.Mul(c, bv), S.Mul(r3Hat, d)), hidden, hats);
    AccumulateIsSum(g, r, S.Mul(r3T, d), hidden, tildes);
    SumLinear(g, r, hidden, tildes, c, ms, hats);
    hide Sum, Accumulate, Cong, IsGroup;
    GatherChallenge(S, bv, sm, st, S.Mul(r3Hat, d), c);
    ReopenD(S, d, st, r3, r3T, c, r3Hat);
  }

  /** (c Bv + X) + (St + c Sm) = c (Bv + Sm) + (X + St) */
  lemma GatherChallenge<G1(!new), G2(!new), GT(!new)>(S: Suite<G1, G2, GT>, bv: G1, sm: G1, st: G1, x: G1, c: int)
    requires S.Valid()
    ensures S.Add(S.Add(S.Mul(c, bv), x), S.Add(st, S.Mul(c, sm))) == S.Add(S.Mul(c, S.Add(bv, sm)), S.Add(x, st))
  {
    var g, r := S.pairing.g1, S.r;
    assert g.Commutative(st, S.Mul(c, sm));
    Exchange(g, r, S.Mul(c, bv), x, S.Mul(c, sm), st);
    MulOfSum(g, r, c, bv, sm);
  }

  /** c (r3 D) + (r3^ D + St) = r3~ D + St */
  lemma ReopenD<G1(!new), G2(!new), GT(!new)>(
      S: Suite<G1, G2, GT>, d: G1, st: G1, r3: int, r3T: int, c: int, r3Hat: int)
    requires S.Valid() && Cong(r3Hat, r3T - r3 * c, S.r)
    ensures S.Add(S.Mul(c, S.Mul(r3, d)), S.Add(S.Mul(r3Hat, d), st)) == S.Add(S.Mul(r3T, d), st)
  {
    var g, r := S.pairing.g1, S.r;
    MulMul(g, r, c, r3, d);
    assert g.Associative(S.Mul(c * r3, d), S.Mul(r3Hat, d), st);
    MulAdd(g, r, c * r3, r3Hat, d);
    CongAdd(c * r3, c * r3, r3Hat, r3T - r3 * c, r);
    assert c * r3 == r3 * c;
    MulCong(g, r, c * r3 + r3Hat, r3T, d);
  }

  /** Bbar = sk * Abar whenever Bbar = r1 D - e Abar, D = r2 B and (sk + e) A = B. */
  lemma BbarIsMultiple<G1(!new), G2(!new), GT(!new)>(
      S: Suite<G1, G2, GT>, sk: nat, a: G1, e: int, b: G1, r1: nat, r2: nat, p: Proof<G1>)
    requires S.Valid() && e >= 0 && S.Mul(sk + e, a) == b
    requires r1 * r2 >= 0 && p.abar == S.Mul((r1 * r2) % S.r, a) && p.d == S.Mul(r2, b)
    requires p.bbar == S.Add(S.Mul(r1, p.d), S.Neg(S.Mul(e, p.abar)))
    ensures p.bbar == S.Mul(sk, p.abar)
  {
    var g, r := S.pairing.g1, S.r;
    BlindedB(S, sk + e, a, r1, r2);
    MulNeg(g, r, e, p.abar);
    MulAdd(g, r, sk + e, -e, p.abar);
  }

  /** r1 (r2 (k a)) = k ((r1 r2) a) */
  lemma BlindedB<G1(!new), G2(!new), GT(!new)>(S: Suite<G1, G2, GT>, k: nat, a: G1, r1: nat, r2: nat)
    requires S.Valid()
    ensures S.Mul(r1, S.Mul(r2, S.Mul(k, a))) == S.Mul(k, S.Mul((r1 * r2) % S.r, a))
  {
    var g, r := S.pairing.g1, S.r;
    var m := r1 * r2;
    CongMod(m, r);
    MulCong(g, r, m % r, m, a);
    MulMul(g, r, r1, r2, S.Mul(k, a));
    MulMul(g, r, m, k, a);
    MulMul(g, r, k, m, a);
    assert m * k == k * m;
  }

  /** e(Abar, W) = e(Bbar, P2) whenever Bbar = sk * Abar. */
  lemma ProofPairingHolds<G1(!new), G2(!new), GT(!new)>(S: Suite<G1, G2, GT>, sk: nat, p: Proof<G1>)
    requires S.Valid() && p.bbar == S.Mul(sk, p.abar)
    ensures ProofPairing(S, S.PublicPoint(sk), p)
  {
    PairMul(S.pairing, S.r, sk, S.pairing.base, p.abar);
    PairQuotient(S.pairing, S.r, S.pairing.e(S.PublicPoint(sk), p.abar), S.pairing.base, p.bbar);
  }

  /** The three points of an honest proof are never the identity. */
  lemma ProofPointsNonzero<G1(!new), G2(!new), GT(!new)>(
      S: Suite<G1, G2, GT>, sk: nat, a: G1, e: nat, b: G1, r1: nat, r2: nat, p: Proof<G1>)
    requires S.Valid() && S.Mul(sk + e, a) == b && a != S.Zero() && (sk + e) % S.r != 0
    requires 0 < sk < S.r && 0 < r1 < S.r && 0 < r2 < S.r
    requires r1 * r2 >= 0 && p.abar == S.Mul((r1 * r2) % S.r, a) && p.d == S.Mul(r2, b)
    requires p.bbar == S.Mul(sk, p.abar)
    ensures p.abar != S.Zero() && p.bbar != S.Zero() && p.d != S.Zero()
  {
    var g, r := S.pairing.g1, S.r;
    DivModUnique(sk, 0, sk, r);
    DivModUnique(r1, 0, r1, r);
    DivModUnique(r2, 0, r2, r);
    ProductNonzero(r1, r2, r);
    var k := (r1 * r2) % r;
    DivModUnique(k, 0, k, r);
    MulInvertible(g, r, sk + e, a);
    MulInvertible(g, r, r2, b);
    MulInvertible(g, r, k, a);
    MulInvertible(g, r, sk, p.abar);
  }

  lemma ProductNonzero(x: nat, y: nat, r: int)
    requires IsPrime(r) && x % r != 0 && y % r != 0
    ensures (x * y) % r != 0
  {
    if Divides(r, x * y) {
      EuclidLemma(r, x, y);
    }
  }

  /** The listed indexes, then the first k of the others. */
  function Positions(n: nat, idx: seq<nat>, k: nat): (ps: seq<nat>)
    requires InRange(idx, n) && k <= |Complement(idx, n)|
    ensures InRange(ps, n)
  {
    idx + Complement(idx, n)[..k]
  }

  /** The message vector that listed scalars, and hidden ones for the first of the other indexes, stand for. */
  function FullVector(n: nat, idx: seq<nat>, ds: seq<int>, hs: seq<int>): (full: seq<int>)
    requires InRange(idx, n) && |ds| == |idx| && |hs| <= |Complement(idx, n)|
    ensures |full| == n
  {
    Scatter(n, Positions(n, idx, |hs|), ds + hs)
  }

  /**
   * What the vector holds: the sum of what was listed at each listed index, the
   * hidden scalars at the first of the other indexes, and 0 at those left over.
   */
  ghost predicate StandsFor(full: seq<int>, idx: seq<nat>, ds: seq<int>, hs: seq<int>)
  {
    var u := Complement(idx, |full|);
    && InRange(idx, |full|) && |ds| == |idx| && |hs| <= |u|
    && (forall k :: 0 <= k < |idx| ==> full[idx[k]] == Total(idx, ds, idx[k]))
    && (forall j :: 0 <= j < |hs| ==> full[u[j]] == hs[j])
    && (forall j :: |hs| <= j < |u| ==> full[u[j]] == 0)
  }

  lemma FullVectorEntries(n: nat, idx: seq<nat>, ds: seq<int>, hs: seq<int>)
    requires InRange(idx, n) && |ds| == |idx| && |hs| <= |Complement(idx, n)|
    ensures StandsFor(FullVector(n, idx, ds, hs), idx, ds, hs)
  {
    var u := Complement(idx, n);
    var v := u[..|hs|];
    ComplementMembers(idx, n);
    forall i: nat | i < n ensures FullVector(n, idx, ds, hs)[i] == Total(idx, ds, i) + Total(v, hs, i) {
      ScatterAt(n, idx + v, ds + hs, i);
      TotalConcat(idx, ds, v, hs, i);
    }
    forall k | 0 <= k < |idx| ensures Total(v, hs, idx[k]) == 0 {
      assert idx[k] !in u;
      TotalUnlisted(v, hs, idx[k]);
    }
    DistinctFront(u, |hs|);
    forall j | 0 <= j < |u| ensures Total(idx, ds, u[j]) == 0 {
      assert u[j] in u;
      TotalUnlisted(idx, ds, u[j]);
    }
    forall j | 0 <= j < |hs| ensures Total(v, hs, u[j]) == hs[j] {
      TotalDistinct(v, hs, j);
    }
    forall j | |hs| <= j < |u| ensures Total(v, hs, u[j]) == 0 {
      forall i | 0 <= i < |hs| ensures v[i] != u[j] {
        assert Differ(u, i, j);
      }
      TotalUnlisted(v, hs, u[j]);
    }
  }

  lemma DistinctFront(s: seq<nat>, k: nat)
    requires Distinct(s) && k <= |s|
    ensures Distinct(s[..k])
  {
    forall i: nat, j: nat | i < k && j < k ensures Differ(s[..k], i, j) {
      assert Differ(s, i, j);
    }
  }

  /** With no index listed twice, such a vector agrees with everything listed. */
  lemma DistinctListing(full: seq<int>, idx: seq<nat>, ds: seq<int>, hs: seq<int>)
    requires StandsFor(full, idx, ds, hs) && Distinct(idx)
    ensures Gather(full, idx) == ds
  {
    forall k | 0 <= k < |idx| ensures full[idx[k]] == ds[k] {
      TotalDistinct(idx, ds, k);
    }
  }

  /** A vector is put together again from any distinct selection and the rest. */
  lemma FullVectorOf(ms: seq<nat>, idx: seq<nat>)
    requires InRange(idx, |ms|) && Distinct(idx)
    ensures FullVector(|ms|, idx, Gather<nat>(ms, idx), Gather<nat>(ms, Complement(idx, |ms|))) == ms
  {
    hide FullVector, StandsFor, Complement, Distinct;
    var n, u := |ms|, Complement(idx, |ms|);
    var ds, hs := Gather<nat>(ms, idx), Gather<nat>(ms, u);
    FullVectorEntries(n, idx, ds, hs);
    DistinctListing(FullVector(n, idx, ds, hs), idx, ds, hs);
    Reassembled(FullVector(n, idx, ds, hs), ms, idx);
  }

  lemma Reassembled(full: seq<int>, ms: seq<nat>, idx: seq<nat>)
    requires |full| == |ms| && InRange(idx, |ms|) && Gather(full, idx) == Gather<nat>(ms, idx)
    requires StandsFor(full, idx, Gather<nat>(ms, idx), Gather<nat>(ms, Complement(idx, |ms|)))
    ensures full == ms
  {
    hide Complement, Total;
    var u := Complement(idx, |ms|);
    ComplementMembers(idx, |ms|);
    forall i | 0 <= i < |ms| ensures full[i] == ms[i] {
      if i in idx {
        var k :| 0 <= k < |idx| && idx[k] == i;
        assert full[i] == Gather(full, idx)[k] == Gather<nat>(ms, idx)[k];
      } else {
        assert i in u;
        var j :| 0 <= j < |u| && u[j] == i;
        assert full[u[j]] == Gather<nat>(ms, u)[j];
      }
    }
  }

  /** B splits into the part the verifier rebuilds and the hidden part, for any list of indexes. */
  lemma FullSplits<G1(!new), G2(!new), GT(!new)>(
      S: Suite<G1, G2, GT>, domain: nat, n: nat, idx: seq<nat>, ds: seq<nat>, hs: seq<int>)
    requires S.Valid() && InRange(idx, n) && |ds| == |idx| && |hs| <= |Complement(idx, n)|
    ensures BValue(S, domain, FullVector(n, idx, ds, hs)) ==
      S.Add(DisclosedB(S, domain, n, idx, ds), Sum(S.pairing.g1, S.r, HiddenPoints(S, n, idx)[..|hs|], hs))
  {
    hide HPoints, HiddenPoints, Complement, Sum, IsGroup, Scatter, Gather;
    var g, r, points := S.pairing.g1, S.r, HPoints(S, n);
    var start, v := BStart(S, domain), Complement(idx, n)[..|hs|];
    AccumulateIsSum(g, r, start, points, FullVector(n, idx, ds, hs));
    SumScatterParts(g, r, points, idx, ds, v, hs);
    HiddenAreGathered(S, n, idx, |hs|);
    AccumulateIsSum(g, r, start, Gather(points, idx), ds);
    AddThree(S, start, Sum(g, r, Gather(points, idx), ds), Sum(g, r, Gather(points, v), hs));
  }

  lemma HiddenAreGathered<G1(!new), G2(!new), GT(!new)>(S: Suite<G1, G2, GT>, n: nat, idx: seq<nat>, k: nat)
    requires InRange(idx, n) && k <= |Complement(idx, n)|
    ensures HiddenPoints(S, n, idx)[..k] == Gather(HPoints(S, n), Complement(idx, n)[..k])
  {}

  lemma AddThree<G1(!new), G2(!new), GT(!new)>(S: Suite<G1, G2, GT>, x: G1, y: G1, z: G1)
    requires S.Valid()
    ensures S.Add(x, S.Add(y, z)) == S.Add(S.Add(x, y), z)
  {
    assert S.pairing.g1.Associative(x, y, z);
  }

  // ---- Extraction ----

  /** From c1 x + p1 = c2 x + p2 with different c: x = (p2 - p1) / (c1 - c2). */
  lemma Isolate<G1(!new), G2(!new), GT(!new)>(S: Suite<G1, G2, GT>, c1: nat, c2: nat, x: G1, p1: G1, p2: G1)
    requires S.Valid() && !Cong(c1, c2, S.r)
    requires S.Add(S.Mul(c1, x), p1) == S.Add(S.Mul(c2, x), p2)
    ensures x == S.Mul(Delta(S, c1, c2), S.Add(p2, S.Neg(p1)))
  {
    var g, r := S.pairing.g1, S.r;
    Difference(S, c1, c2, x, p1, p2);
    var k := (c1 - c2) % r;
    DeltaExists(S, c1, c2);
    CongMod(c1 - c2, r);
    MulCong(g, r, c1 - c2, k, x);
    DivModUnique(k, 0, k, r);
    MulInvertible(g, r, k, x);
  }

  lemma Difference<G1(!new), G2(!new), GT(!new)>(S: Suite<G1, G2, GT>, c1: int, c2: int, x: G1, p1: G1, p2: G1)
    requires S.Valid() && S.Add(S.Mul(c1, x), p1) == S.Add(S.Mul(c2, x), p2)
    ensures S.Mul(c1 - c2, x) == S.Add(p2, S.Neg(p1))
  {
    var g, r := S.pairing.g1, S.r;
    var diff, z := S.Mul(c1 - c2, x), S.Mul(c2, x);
    MulAdd(g, r, c1 - c2, c2, x);
    // (diff + z) + p1 = z + p2, so diff + p1 = p2
    MiddleLast(g, r, diff, z, p1);
    assert g.Commutative(z, p2);
    Cancel(g, r, S.Add(diff, p1), p2, z);
    assert g.Associative(diff, p1, S.Neg(p1)) && g.Opposite(p1) && g.Unit(diff);
  }

  lemma DeltaExists<G1(!new), G2(!new), GT(!new)>(S: Suite<G1, G2, GT>, c1: nat, c2: nat)
    requires IsPrime(S.r) && !Cong(c1, c2, S.r)
    ensures (c1 - c2) % S.r != 0 && Coprime((c1 - c2) % S.r, S.r)
  {
    DividesCong(c1, c2, S.r);
    var k := (c1 - c2) % S.r;
    DivModUnique(k, 0, k, S.r);
    PrimeCoprime(S.r, k);
  }

  /** 1 / (c1 - c2) mod r */
  function Delta<G1(==, !new), G2(==, !new), GT(==, !new)>(S: Suite<G1, G2, GT>, c1: nat, c2: nat): nat
  {
    Inverse(S, (c1 - c2) % S.r)
  }

  /** The value (x2 - x1) / (c1 - c2) mod r that two responses to two challenges determine. */
  function Extract<G1(==, !new), G2(==, !new), GT(==, !new)>(
      S: Suite<G1, G2, GT>, p: Proof<G1>, q: Proof<G1>, x1: nat, x2: nat): (k: int)
    ensures 0 <= k < S.r
  {
    (Delta(S, p.challenge, q.challenge) * (x2 - x1)) % S.r
  }

  function ExtractE<G1(==, !new), G2(==, !new), GT(==, !new)>(S: Suite<G1, G2, GT>, p: Proof<G1>, q: Proof<G1>): int
  {
    Extract(S, p, q, q.eHat, p.eHat)
  }

  function ExtractR1<G1(==, !new), G2(==, !new), GT(==, !new)>(S: Suite<G1, G2, GT>, p: Proof<G1>, q: Proof<G1>): int
  {
    Extract(S, p, q, p.r1Hat, q.r1Hat)
  }

  function ExtractR3<G1(==, !new), G2(==, !new), GT(==, !new)>(S: Suite<G1, G2, GT>, p: Proof<G1>, q: Proof<G1>): int
  {
    Extract(S, p, q, p.r3Hat, q.r3Hat)
  }

  /** A = (r3 / r1) * Abar */
  function ExtractPoint<G1(==, !new), G2(==, !new), GT(==, !new)>(S: Suite<G1, G2, GT>, p: Proof<G1>, q: Proof<G1>): G1
  {
    S.Mul(ExtractR3(S, p, q) * Inverse(S, ExtractR1(S, p, q)), p.abar)
  }

  /** Swapping the responses negates what is extracted. */
  lemma ExtractResidue<G1(!new), G2(!new), GT(!new)>(S: Suite<G1, G2, GT>, p: Proof<G1>, q: Proof<G1>, x1: nat, x2: nat)
    ensures var k := Delta(S, p.challenge, q.challenge);
      Cong(k * (x2 - x1), Extract(S, p, q, x1, x2), S.r) && Cong(k * (x1 - x2), -Extract(S, p, q, x1, x2), S.r)
  {
    var k := Delta(S, p.challenge, q.challenge);
    var v := k * (x2 - x1);
    CongMod(v, S.r);
    CongAdd(0, 0, v, v % S.r, S.r);
    assert -v == k * (x1 - x2);
  }

  lemma NegIsMinus<G1(!new), G2(!new), GT(!new)>(S: Suite<G1, G2, GT>, x: G1)
    requires S.Valid()
    ensures S.Neg(x) == S.Mul(-1, x)
  {
    MulOne(S.pairing.g1, S.r, x);
    MulNeg(S.pairing.g1, S.r, 1, x);
  }

  /** (a2 x + b2 y) - (a1 x + b1 y), scaled by k. */
  lemma CombineDifference<G1(!new), G2(!new), GT(!new)>(
      S: Suite<G1, G2, GT>, k: int, a1: int, b1: int, a2: int, b2: int, x: G1, y: G1)
    requires S.Valid()
    ensures var g := S.pairing.g1;
      S.Mul(k, S.Add(Combine(g, S.r, a2, x, b2, y), S.Neg(Combine(g, S.r, a1, x, b1, y))))
      == Combine(g, S.r, k * (a2 - a1), x, k * (b2 - b1), y)
  {
    var g, r := S.pairing.g1, S.r;
    NegIsMinus(S, Combine(g, r, a1, x, b1, y));
    CombineMul(g, r, -1, a1, b1, x, y);
    CombineAdd(g, r, a2, b2, -1 * a1, -1 * b1, x, y);
    CombineMul(g, r, k, a2 - a1, b2 - b1, x, y);
  }

  lemma CombineCong<G1(!new), G2(!new), GT(!new)>(S: Suite<G1, G2, GT>, a: int, b: int, a': int, b': int, x: G1, y: G1)
    requires S.Valid() && Cong(a, a', S.r) && Cong(b, b', S.r)
    ensures Combine(S.pairing.g1, S.r, a, x, b, y) == Combine(S.pairing.g1, S.r, a', x, b', y)
  {}

  /** Two openings of T1 give Bbar = r1 D - e Abar. */
  lemma ExtractT1<G1(!new), G2(!new), GT(!new)>(S: Suite<G1, G2, GT>, p: Proof<G1>, q: Proof<G1>)
    requires S.Valid() && !Cong(p.challenge, q.challenge, S.r)
    requires p.abar == q.abar && p.bbar == q.bbar && p.d == q.d && RecomputeT1(S, p) == RecomputeT1(S, q)
    ensures p.bbar == Combine(S.pairing.g1, S.r, -ExtractE(S, p, q), p.abar, ExtractR1(S, p, q), p.d)
  {
    hide RecomputeT1, Combine, Cong, Delta, Extract, IsGroup;
    var g, r := S.pairing.g1, S.r;
    var k := Delta(S, p.challenge, q.challenge);
    OpenT1(S, p);
    OpenT1(S, q);
    var p1, p2 := Combine(g, r, p.eHat, p.abar, p.r1Hat, p.d), Combine(g, r, q.eHat, p.abar, q.r1Hat, p.d);
    Isolate(S, p.challenge, q.challenge, p.bbar, p1, p2);
    CombineDifference(S, k, p.eHat, p.r1Hat, q.eHat, q.r1Hat, p.abar, p.d);
    ExtractResidue(S, p, q, q.eHat, p.eHat);
    ExtractResidue(S, p, q, p.r1Hat, q.r1Hat);
    CombineCong(S, k * (q.eHat - p.eHat), k * (q.r1Hat - p.r1Hat), -ExtractE(S, p, q), ExtractR1(S, p, q), p.abar, p.d);
  }

  lemma OpenT1<G1(!new), G2(!new), GT(!new)>(S: Suite<G1, G2, GT>, p: Proof<G1>)
    requires S.Valid()
    ensures RecomputeT1(S, p)
         == S.Add(S.Mul(p.challenge, p.bbar), Combine(S.pairing.g1, S.r, p.eHat, p.abar, p.r1Hat, p.d))
  {
    assert S.pairing.g1.Associative(S.Mul(p.challenge, p.bbar), S.Mul(p.eHat, p.abar), S.Mul(p.r1Hat, p.d));
  }

  /** The hidden scalars that two transcripts determine. */
  function ExtractHidden<G1(==, !new), G2(==, !new), GT(==, !new)>(
      S: Suite<G1, G2, GT>, p: Proof<G1>, q: Proof<G1>): (ms: seq<int>)
    requires |p.commitments| == |q.commitments|
    ensures |ms| == |p.commitments|
    ensures forall i :: 0 <= i < |ms| ==> ms[i] == Extract(S, p, q, q.commitments[i], p.commitments[i])
  {
    seq(|p.commitments|, i requires 0 <= i < |p.commitments| => Extract(S, p, q, q.commitments[i], p.commitments[i]))
  }

  /** Two openings of T2 give Bv + sum of hidden m_j H_j = r3 D. */
  lemma ExtractT2<G1(!new), G2(!new), GT(!new)>(
      S: Suite<G1, G2, GT>, p: Proof<G1>, q: Proof<G1>, bv: G1, hidden: seq<G1>)
    requires S.Valid() && !Cong(p.challenge, q.challenge, S.r)
    requires p.d == q.d && |hidden| == |p.commitments| == |q.commitments|
    requires RecomputeT2(S, p, bv, hidden) == RecomputeT2(S, q, bv, hidden)
    ensures S.Add(bv, Sum(S.pairing.g1, S.r, hidden, ExtractHidden(S, p, q)))
         == S.Mul(ExtractR3(S, p, q), p.d)
  {
    var g, r, d := S.pairing.g1, S.r, p.d;
    var k := Delta(S, p.challenge, q.challenge);
    var s1, s2 := Sum(g, r, hidden, p.commitments), Sum(g, r, hidden, q.commitments);
    OpenT2(S, p, bv, hidden);
    OpenT2(S, q, bv, hidden);
    Isolate(S, p.challenge, q.challenge, bv, S.Add(S.Mul(p.r3Hat, d), s1), S.Add(S.Mul(q.r3Hat, d), s2));
    ScaledDifference(S, k, S.Mul(p.r3Hat, d), s1, S.Mul(q.r3Hat, d), s2);
    HiddenDifference(S, p, q, hidden);
    R3Difference(S, p, q);
    var rd, sm := S.Mul(ExtractR3(S, p, q), d), Sum(g, r, hidden, ExtractHidden(S, p, q));
    assert g.Associative(rd, S.Neg(sm), sm) && g.Commutative(S.Neg(sm), sm) && g.Opposite(sm) && g.Unit(rd);
  }

  lemma R3Difference<G1(!new), G2(!new), GT(!new)>(S: Suite<G1, G2, GT>, p: Proof<G1>, q: Proof<G1>)
    requires S.Valid() && p.d == q.d
    ensures S.Mul(Delta(S, p.challenge, q.challenge), S.Add(S.Mul(q.r3Hat, p.d), S.Neg(S.Mul(p.r3Hat, p.d))))
         == S.Mul(ExtractR3(S, p, q), p.d)
  {
    var g, r, d := S.pairing.g1, S.r, p.d;
    var k := Delta(S, p.challenge, q.challenge);
    MulNeg(g, r, p.r3Hat, d);
    MulAdd(g, r, q.r3Hat, -(p.r3Hat as int), d);
    MulMul(g, r, k, q.r3Hat - p.r3Hat, d);
    ExtractResidue(S, p, q, p.r3Hat, q.r3Hat);
    MulCong(g, r, k * (q.r3Hat - p.r3Hat), ExtractR3(S, p, q), d);
  }

  lemma OpenT2<G1(!new), G2(!new), GT(!new)>(S: Suite<G1, G2, GT>, p: Proof<G1>, bv: G1, hidden: seq<G1>)
    requires S.Valid() && |hidden| == |p.commitments|
    ensures RecomputeT2(S, p, bv, hidden)
         == S.Add(S.Mul(p.challenge, bv), S.Add(S.Mul(p.r3Hat, p.d), Sum(S.pairing.g1, S.r, hidden, p.commitments)))
  {
    var g, r := S.pairing.g1, S.r;
    assert hidden[..|hidden|] == hidden && p.commitments[..|hidden|] == p.commitments;
    AccumulateIsSum(g, r, S.Add(S.Mul(p.challenge, bv), S.Mul(p.r3Hat, p.d)), hidden, p.commitments);
    assert g.Associative(S.Mul(p.challenge, bv), S.Mul(p.r3Hat, p.d), Sum(g, r, hidden, p.commitments));
  }

  /** k ((x2 + y2) - (x1 + y1)) = k (x2 - x1) + k (y2 - y1) */
  lemma ScaledDifference<G1(!new), G2(!new), GT(!new)>(S: Suite<G1, G2, GT>, k: int, x1: G1, y1: G1, x2: G1, y2: G1)
    requires S.Valid()
    ensures S.Mul(k, S.Add(S.Add(x2, y2), S.Neg(S.Add(x1, y1))))
         == S.Add(S.Mul(k, S.Add(x2, S.Neg(x1))), S.Mul(k, S.Add(y2, S.Neg(y1))))
  {
    var g, r := S.pairing.g1, S.r;
    NegIsMinus(S, S.Add(x1, y1));
    NegIsMinus(S, x1);
    NegIsMinus(S, y1);
    MulOfSum(g, r, -1, x1, y1);
    Exchange(g, r, x2, y2, S.Neg(x1), S.Neg(y1));
    MulOfSum(g, r, k, S.Add(x2, S.Neg(x1)), S.Add(y2, S.Neg(y1)));
  }

  /** k (s2 - s1) is minus the sum weighted by the extracted hidden scalars. */
  lemma HiddenDifference<G1(!new), G2(!new), GT(!new)>(
      S: Suite<G1, G2, GT>, p: Proof<G1>, q: Proof<G1>, hidden: seq<G1>)
    requires S.Valid() && |hidden| == |p.commitments| == |q.commitments|
    ensures var g := S.pairing.g1;
      S.Mul(Delta(S, p.challenge, q.challenge),
            S.Add(Sum(g, S.r, hidden, q.commitments), S.Neg(Sum(g, S.r, hidden, p.commitments))))
      == S.Neg(Sum(g, S.r, hidden, ExtractHidden(S, p, q)))
  {
    var k := Delta(S, p.challenge, q.challenge);
    var ms := ExtractHidden(S, p, q);
    var diff := seq(|hidden|, i requires 0 <= i < |hidden| => Minus(q.commitments[i], p.commitments[i]));
    var minus := seq(|hidden|, i requires 0 <= i < |hidden| => -ms[i]);
    SumDifference(S, hidden, p.commitments, q.commitments, diff);
    forall i | 0 <= i < |hidden| ensures Cong(minus[i], k * diff[i], S.r) {
      ExtractResidue(S, p, q, q.commitments[i], p.commitments[i]);
    }
    SumScaled(S.pairing.g1, S.r, hidden, k, diff, minus);
    NegSum(S, hidden, ms, minus);
  }

  function Minus(x: int, y: int): int { x - y }

  lemma SumDifference<G1(!new), G2(!new), GT(!new)>(
      S: Suite<G1, G2, GT>, hidden: seq<G1>, x: seq<int>, y: seq<int>, diff: seq<int>)
    requires S.Valid() && |hidden| == |x| == |y| == |diff|
    requires forall i :: 0 <= i < |diff| ==> diff[i] == y[i] - x[i]
    ensures Sum(S.pairing.g1, S.r, hidden, diff)
         == S.Add(Sum(S.pairing.g1, S.r, hidden, y), S.Neg(Sum(S.pairing.g1, S.r, hidden, x)))
  {
    NegIsMinus(S, Sum(S.pairing.g1, S.r, hidden, x));
    SumLinear(S.pairing.g1, S.r, hidden, y, -1, x, diff);
  }

  lemma NegSum<G1(!new), G2(!new), GT(!new)>(S: Suite<G1, G2, GT>, hidden: seq<G1>, ms: seq<int>, minus: seq<int>)
    requires S.Valid() && |hidden| == |ms| == |minus| && forall i :: 0 <= i < |ms| ==> minus[i] == -ms[i]
    ensures Sum(S.pairing.g1, S.r, hidden, minus) == S.Neg(Sum(S.pairing.g1, S.r, hidden, ms))
  {
    NegIsMinus(S, Sum(S.pairing.g1, S.r, hidden, ms));
    SumScaled(S.pairing.g1, S.r, hidden, -1, ms, minus);
  }

  /** The extracted point A = (r3 / r1) * Abar satisfies the pairing test for B = r3 D. */
  lemma ExtractedSignature<G1(!new), G2(!new), GT(!new)>(
      S: Suite<G1, G2, GT>, w: G2, p: Proof<G1>, e: int, r1: nat, r3: nat, b: G1)
    requires S.Valid() && ProofPairing(S, w, p) && e >= 0
    requires p.bbar == Combine(S.pairing.g1, S.r, -e, p.abar, r1, p.d) && b == S.Mul(r3, p.d)
    requires 0 < r1 < S.r && 0 < r3 < S.r && p.abar != S.Zero()
    ensures var a := S.Mul(r3 * Inverse(S, r1), p.abar);
      a != S.Zero() && PairingCheck(S, w, a, e, b)
  {
    var g, r, pg := S.pairing.g1, S.r, S.pairing;
    DivModUnique(r1, 0, r1, r);
    DivModUnique(r3, 0, r3, r);
    PrimeCoprime(r, r1);
    var i := ModInv(r1, r);
    var rho := r3 * i;
    var a := S.Mul(rho, p.abar);
    // e(W, A) = e(P2, rho Bbar)
    PairQuotient(pg, r, pg.e(w, p.abar), pg.base, p.bbar);
    PairMul(pg, r, rho, w, p.abar);
    PairMul(pg, r, rho, pg.base, p.bbar);
    // e(e P2, A) = e(P2, e A)
    PairMul(pg, r, e, pg.base, a);
    assert pg.LinearLeft(w, pg.g2.Mul(r, e, pg.base), a);
    assert pg.LinearRight(pg.base, S.Mul(rho, p.bbar), S.Mul(e, a));
    ScaledBbar(S, p, e, r1, r3, i);
    PairQuotient(pg, r, pg.e(pg.g2.add(w, pg.g2.Mul(r, e, pg.base)), a), pg.base, b);
    // A is not the identity
    InverseNonzero(r1, i, r);
    ProductNonzero(r3, i, r);
    MulInvertible(g, r, rho, p.abar);
  }

  lemma InverseNonzero(x: nat, i: nat, r: int)
    requires r > 1 && Cong(x * i, 1, r)
    ensures i % r != 0
  {
    if i % r == 0 {
      CongMul(x, x, i, 0, r);
      DivModUnique(1, 0, 1, r);
      DivModUnique(0, 0, 0, r);
      assert false;
    }
  }

  /** rho Bbar + e A = r3 D for rho = r3 / r1 and A = rho Abar. */
  lemma ScaledBbar<G1(!new), G2(!new), GT(!new)>(S: Suite<G1, G2, GT>, p: Proof<G1>, e: int, r1: nat, r3: nat, i: nat)
    requires S.Valid() && p.bbar == Combine(S.pairing.g1, S.r, -e, p.abar, r1, p.d) && Cong(r1 * i, 1, S.r)
    ensures S.Add(S.Mul(r3 * i, p.bbar), S.Mul(e, S.Mul(r3 * i, p.abar))) == S.Mul(r3, p.d)
  {
    var g, r := S.pairing.g1, S.r;
    var rho := r3 * i;
    CombineMul(g, r, rho, -e, r1, p.abar, p.d);
    ScaledArithmetic(rho, e, r1, r3, i, r);
    MulMul(g, r, e, rho, p.abar);
    MulCong(g, r, rho * r1, r3, p.d);
    OppositeTerms(S, rho * -e, e * rho, p.abar, S.Mul(r3, p.d));
  }

  lemma ScaledArithmetic(rho: int, e: int, r1: int, r3: int, i: int, r: int)
    requires r > 0 && rho == r3 * i && Cong(r1 * i, 1, r)
    ensures rho * -e + e * rho == 0 && Cong(rho * r1, r3, r)
  {
    assert rho * -e == -(e * rho);
    assert rho * r1 == r3 * (r1 * i);
    CongMul(r3, r3, r1 * i, 1, r);
  }

  /** (k x + y) + l x = y when k + l = 0 */
  lemma OppositeTerms<G1(!new), G2(!new), GT(!new)>(S: Suite<G1, G2, GT>, k: int, l: int, x: G1, y: G1)
    requires S.Valid() && k + l == 0
    ensures S.Add(S.Add(S.Mul(k, x), y), S.Mul(l, x)) == y
  {
    var g, r := S.pairing.g1, S.r;
    MiddleLast(g, r, S.Mul(k, x), y, S.Mul(l, x));
    MulAdd(g, r, k, l, x);
    MulZero(g, r, 0, x);
    ZeroLeft(g, r, y);
  }
}
