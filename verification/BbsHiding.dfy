// What a proof hides: an accepted proof could have come from any signature under
// the key on any vector that agrees with what is disclosed, by exactly one choice
// of draws; and what it costs that the source never draws 0.
module BbsHiding {
  import opened Arithmetic
  import opened Octets
  import opened Groups
  import opened Sums
  import opened Bbs
  import opened BbsAlgebra
  import opened BbsEncoding
  import opened BbsProtocol

  // ---- A cyclic G1 ----

  ghost predicate IsMultiple<G1(!new), G2(!new), GT(!new)>(S: Suite<G1, G2, GT>, x: G1, y: G1)
  {
    exists k: nat :: k < S.r && S.Mul(k, x) == y
  }

  /** Every point but the identity generates G1, as in any group that has r elements. */
  ghost predicate Cyclic<G1(!new), G2(!new), GT(!new)>(S: Suite<G1, G2, GT>)
  {
    forall x, y | x != S.Zero() :: IsMultiple(S, x, y)
  }

  lemma MulInjective<G1(!new), G2(!new), GT(!new)>(S: Suite<G1, G2, GT>, k: nat, l: nat, x: G1)
    requires S.Valid() && k < S.r && l < S.r && x != S.Zero() && S.Mul(k, x) == S.Mul(l, x)
    ensures k == l
  {
    var g, r := S.pairing.g1, S.r;
    MulNeg(g, r, l, x);
    MulAdd(g, r, k, -(l as int), x);
    assert g.Opposite(S.Mul(l, x));
    ZeroMultiple(S, k - l, x);
    DividesCong(k, l, r);
    CongSmall(k, l, r);
  }

  /** On a point that is not the identity only 0 mod r gives the identity. */
  lemma ZeroMultiple<G1(!new), G2(!new), GT(!new)>(S: Suite<G1, G2, GT>, k: int, x: G1)
    requires S.Valid() && x != S.Zero()
    ensures S.Mul(k, x) == S.Zero() <==> k % S.r == 0
  {
    var k' := k % S.r;
    if k' != 0 {
      DivModUnique(k', 0, k', S.r);
      MulInvertible(S.pairing.g1, S.r, k', x);
    }
  }

  /** The one multiplier below r that takes x to y. */
  lemma Logarithm<G1(!new), G2(!new), GT(!new)>(S: Suite<G1, G2, GT>, x: G1, y: G1) returns (k: nat)
    requires S.Valid() && Cyclic(S) && x != S.Zero() && y != S.Zero()
    ensures 0 < k < S.r && S.Mul(k, x) == y
  {
    assert IsMultiple(S, x, y);
    k :| k < S.r && S.Mul(k, x) == y;
    MulZero(S.pairing.g1, S.r, 0, x);
  }

  // ---- Draws ----

  /** r1 and r2 are invertible, the other draws any residues. */
  predicate AnyDraw<G1(==, !new), G2(==, !new), GT(==, !new)>(S: Suite<G1, G2, GT>, rnd: Randoms, u: nat)
  {
    && RandomsOk(S, rnd, u)
    && rnd.eTilde < S.r && rnd.r1Tilde < S.r && rnd.r3Tilde < S.r && ScalarsBelow(S, rnd.mTildes)
  }

  /** What the source draws: no scalar is 0. */
  predicate SourceDraw<G1(==, !new), G2(==, !new), GT(==, !new)>(S: Suite<G1, G2, GT>, rnd: Randoms, u: nat)
  {
    AnyDraw(S, rnd, u) && rnd.eTilde != 0 && rnd.r1Tilde != 0 && rnd.r3Tilde != 0 && ScalarsInRange(S, rnd.mTildes)
  }

  /** hat - x * c mod r */
  function Undo<G1(==, !new), G2(==, !new), GT(==, !new)>(S: Suite<G1, G2, GT>, hat: int, x: int, c: int): (t: nat)
    ensures t < S.r
  {
    (hat - x * c) % S.r
  }

  /** The draws that answer the challenge of p with the responses of p, given r1 and r2. */
  function DrawsFor<G1(==, !new), G2(==, !new), GT(==, !new)>(
      S: Suite<G1, G2, GT>, p: Proof<G1>, e: nat, hs: seq<nat>, r1: nat, r2: nat): Randoms
    requires |hs| == |p.commitments|
  {
    var c := p.challenge;
    Randoms(r1, r2, Undo(S, p.eHat, e, c), Undo(S, p.r1Hat, 0 - r1, c), Undo(S, p.r3Hat, 0 - Inverse(S, r2), c),
            seq(|hs|, i requires 0 <= i < |hs| => Undo(S, p.commitments[i], hs[i], c)))
  }

  lemma UndoExact<G1(!new), G2(!new), GT(!new)>(S: Suite<G1, G2, GT>, t: nat, hat: nat, x: int, c: nat)
    requires t < S.r && hat < S.r
    ensures (t + x * c) % S.r == hat <==> t == Undo(S, hat, x, c)
  {
    var r, v := S.r, x * c;
    CongMod(t + v, r);
    CongMod(hat - v, r);
    if (t + v) % r == hat {
      CongAdd(hat, t + v, v, v, r);
      CongSmall(t, (hat - v) % r, r);
    }
    if t == (hat - v) % r {
      CongAdd(t, hat - v, v, v, r);
      CongSmall((t + v) % r, hat, r);
    }
  }

  lemma MinusExact<G1(!new), G2(!new), GT(!new)>(S: Suite<G1, G2, GT>, t: nat, hat: nat, x: nat, c: nat)
    requires t < S.r && hat < S.r
    ensures (t - x * c) % S.r == hat <==> t == Undo(S, hat, 0 - x, c)
  {
    UndoExact(S, t, hat, 0 - x, c);
    assert (0 - x) * c == -(x * c);
  }

  lemma HatsExact<G1(!new), G2(!new), GT(!new)>(
      S: Suite<G1, G2, GT>, tildes: seq<nat>, hats: seq<nat>, hs: seq<nat>, c: nat)
    requires |tildes| == |hats| == |hs| && ScalarsBelow(S, tildes) && ScalarsBelow(S, hats)
    ensures Responses(S, tildes, hs, c) == hats <==>
      tildes == seq(|hs|, i requires 0 <= i < |hs| => Undo(S, hats[i], hs[i], c))
  {
    var back := seq(|hs|, i requires 0 <= i < |hs| => Undo(S, hats[i], hs[i], c));
    forall i | 0 <= i < |hs| ensures Responses(S, tildes, hs, c)[i] == hats[i] <==> tildes[i] == back[i] {
      UndoExact(S, tildes[i], hats[i], hs[i], c);
    }
    hide Undo, Response, Responses, ScalarsBelow;
    SameEntries(Responses(S, tildes, hs, c), hats, tildes, back);
  }

  /** For given points, r1 and r2, the responses of p come from exactly these draws. */
  lemma ResponsesExact<G1(!new), G2(!new), GT(!new)>(
      S: Suite<G1, G2, GT>, t: Transcript<G1>, p: Proof<G1>, e: nat, hs: seq<nat>, rnd: Randoms)
    requires S.Valid() && AnyDraw(S, rnd, |hs|) && |hs| == |p.commitments| && ScalarsBelow(S, ProofScalars(p))
    requires t.abar == p.abar && t.bbar == p.bbar && t.d == p.d
    ensures Respond(S, t, e, rnd, hs, p.challenge) == p <==> rnd == DrawsFor(S, p, e, hs, rnd.r1, rnd.r2)
  {
    var c := p.challenge;
    HatsBelow(S, p);
    UndoExact(S, rnd.eTilde, p.eHat, e, c);
    MinusExact(S, rnd.r1Tilde, p.r1Hat, rnd.r1, c);
    MinusExact(S, rnd.r3Tilde, p.r3Hat, Inverse(S, rnd.r2), c);
    HatsExact(S, rnd.mTildes, p.commitments, hs, c);
    hide Undo, Inverse, Responses, ScalarsBelow, ProofScalars;
  }

  lemma SameEntries(a: seq<nat>, b: seq<nat>, x: seq<nat>, y: seq<nat>)
    requires |a| == |b| == |x| == |y| && forall i :: 0 <= i < |a| ==> (a[i] == b[i] <==> x[i] == y[i])
    ensures a == b <==> x == y
  {
    if a == b {
      assert forall i :: 0 <= i < |x| ==> x[i] == y[i];
    }
    if x == y {
      assert forall i :: 0 <= i < |a| ==> a[i] == b[i];
    }
  }

  lemma HatsBelow<G1(!new), G2(!new), GT(!new)>(S: Suite<G1, G2, GT>, p: Proof<G1>)
    requires ScalarsBelow(S, ProofScalars(p))
    ensures p.eHat < S.r && p.r1Hat < S.r && p.r3Hat < S.r && p.challenge < S.r && ScalarsBelow(S, p.commitments)
  {
    var s := ProofScalars(p);
    assert s[0] == p.eHat && s[1] == p.r1Hat && s[2] == p.r3Hat && s[|s| - 1] == p.challenge;
    assert forall i :: 0 <= i < |p.commitments| ==> s[i + 3] == p.commitments[i];
  }

  // ---- The points determine r1 and r2 ----

  /** D = r2 B and Abar = r1 r2 A. */
  predicate Blinds<G1(==, !new), G2(==, !new), GT(==, !new)>(
      S: Suite<G1, G2, GT>, a: G1, b: G1, p: Proof<G1>, r1: nat, r2: nat)
  {
    0 < r1 < S.r && 0 < r2 < S.r && p.d == S.Mul(r2, b) && p.abar == S.Mul(r1 * r2, a)
  }

  lemma BlindsSome<G1(!new), G2(!new), GT(!new)>(S: Suite<G1, G2, GT>, a: G1, b: G1, p: Proof<G1>)
    returns (r1: nat, r2: nat)
    requires S.Valid() && Cyclic(S) && a != S.Zero() && b != S.Zero() && p.abar != S.Zero() && p.d != S.Zero()
    ensures Blinds(S, a, b, p, r1, r2)
  {
    r2 := Logarithm(S, b, p.d);
    var rho := Logarithm(S, a, p.abar);
    r1 := Quotient(S, rho, r2);
    MulCong(S.pairing.g1, S.r, r1 * r2, rho, a);
  }

  lemma Quotient<G1(!new), G2(!new), GT(!new)>(S: Suite<G1, G2, GT>, rho: nat, r2: nat) returns (r1: nat)
    requires S.Valid() && 0 < rho < S.r && 0 < r2 < S.r
    ensures 0 < r1 < S.r && Cong(r1 * r2, rho, S.r)
  {
    var r := S.r;
    InverseOfDraw(S, r2);
    var i := Inverse(S, r2);
    r1 := (rho * i) % r;
    CongMod(rho * i, r);
    CongMulRight(r1, rho * i, r2, r);
    CongMul(rho, rho, r2 * i, 1, r);
    assert rho * i * r2 == rho * (r2 * i);
    if r1 == 0 {
      CongSmall(0, rho, r);
    }
  }

  lemma BlindsOne<G1(!new), G2(!new), GT(!new)>(
      S: Suite<G1, G2, GT>, a: G1, b: G1, p: Proof<G1>, r1: nat, r2: nat, s1: nat, s2: nat)
    requires S.Valid() && a != S.Zero() && b != S.Zero()
    requires Blinds(S, a, b, p, r1, r2) && Blinds(S, a, b, p, s1, s2)
    ensures r1 == s1 && r2 == s2
  {
    var r := S.r;
    MulInjective(S, r2, s2, b);
    CongMod(r1 * r2, r);
    CongMod(s1 * r2, r);
    MulInjective(S, (r1 * r2) % r, (s1 * r2) % r, a);
    InverseOfDraw(S, r2);
    assert r1 * r2 == r2 * r1 && s1 * r2 == r2 * s1;
    CongCancel(r2, r1, s1, r);
    CongSmall(r1, s1, r);
  }

  /** The prover's points for a draw are those of p exactly when the draw blinds to them. */
  lemma PointsExact<G1(!new), G2(!new), GT(!new)>(
      S: Suite<G1, G2, GT>, sk: nat, sig: Signature<G1>, b: G1, p: Proof<G1>, rnd: Randoms, hidden: seq<G1>,
      domain: nat)
    requires S.Valid() && S.Mul(sk + sig.e, sig.a) == b && p.bbar == S.Mul(sk, p.abar)
    requires 0 < rnd.r1 < S.r && 0 < rnd.r2 < S.r && |hidden| == |rnd.mTildes|
    ensures var t := CommitTo(S, domain, sig, b, hidden, rnd);
      t.abar == p.abar && t.bbar == p.bbar && t.d == p.d <==> Blinds(S, sig.a, b, p, rnd.r1, rnd.r2)
  {
    var t := CommitTo(S, domain, sig, b, hidden, rnd);
    MulNonNegative(rnd.r1, rnd.r2);
    CongMod(rnd.r1 * rnd.r2, S.r);
    MulCong(S.pairing.g1, S.r, (rnd.r1 * rnd.r2) % S.r, rnd.r1 * rnd.r2, sig.a);
    BbarIsMultiple(S, sk, sig.a, sig.e, b, rnd.r1, rnd.r2, p.(abar := t.abar, bbar := t.bbar, d := t.d));
  }

  // ---- The proof and its draws ----

  /** B for the vector that the signature is on. */
  function SignedB<G1(==, !new), G2(==, !new), GT(==, !new)>(
      S: Suite<G1, G2, GT>, sk: nat, header: Octets, n: nat, disclosed: seq<Octets>, idx: seq<nat>, hs: seq<nat>): G1
    requires InRange(idx, n) && |disclosed| == |idx| && |hs| <= |Complement(idx, n)|
  {
    BValue(S, Domain(S, S.encode2(S.PublicPoint(sk)), n, header), FullVector(n, idx, MessageScalars(S, disclosed), hs))
  }

  /** The honest proof for the draws. */
  function ProofWith<G1(==, !new), G2(==, !new), GT(==, !new)>(
      S: Suite<G1, G2, GT>, sk: nat, sig: Signature<G1>, header: Octets, ph: Octets, n: nat, disclosed: seq<Octets>,
      idx: seq<nat>, hs: seq<nat>, rnd: Randoms): Proof<G1>
    requires InRange(idx, n) && |disclosed| == |idx| && |rnd.mTildes| == |hs| <= |Complement(idx, n)|
  {
    ProveOver(S, S.encode2(S.PublicPoint(sk)), sig, header, ph, n, MessageScalars(S, disclosed), idx, hs, rnd)
  }

  /** A proof of the right size, with no identity point and reduced scalars, that the verifier accepts. */
  ghost predicate Acceptable<G1(!new), G2(!new), GT(!new)>(
      S: Suite<G1, G2, GT>, sk: nat, p: Proof<G1>, header: Octets, ph: Octets, disclosed: seq<Octets>, idx: seq<nat>,
      u: nat)
  {
    && |p.commitments| == u && p.abar != S.Zero() && p.d != S.Zero() && ScalarsBelow(S, ProofScalars(p))
    && Accepts(S, S.encode2(S.PublicPoint(sk)), S.PublicPoint(sk), p, header, ph, disclosed, idx)
  }

  /** Which draws give p. */
  lemma DrawsExact<G1(!new), G2(!new), GT(!new)>(
      S: Suite<G1, G2, GT>, sk: nat, sig: Signature<G1>, header: Octets, ph: Octets, n: nat, disclosed: seq<Octets>,
      idx: seq<nat>, hs: seq<nat>, p: Proof<G1>, rnd: Randoms)
    requires S.Valid() && Signed(S, sk, sig, header, n, disclosed, idx, hs) && AnyDraw(S, rnd, |hs|)
    requires Acceptable(S, sk, p, header, ph, disclosed, idx, |hs|)
    ensures ProofWith(S, sk, sig, header, ph, n, disclosed, idx, hs, rnd) == p <==>
      && Blinds(S, sig.a, SignedB(S, sk, header, n, disclosed, idx, hs), p, rnd.r1, rnd.r2)
      && rnd == DrawsFor(S, p, sig.e, hs, rnd.r1, rnd.r2)
  {
    hide BValue, FullVector, Complement, Domain, MessageScalars, HiddenPoints, CommitT1, CommitT2, Recompute;
    hide ChallengeFor, ProofPairing, ScalarsBelow, ProofScalars, Blinds, DrawsFor, Response, Responses, Inverse;
    var pk, ds := S.encode2(S.PublicPoint(sk)), MessageScalars(S, disclosed);
    var b := SignedB(S, sk, header, n, disclosed, idx, hs);
    var t := TranscriptOver(S, pk, sig, header, n, ds, idx, hs, rnd);
    BbarFromPairing(S, sk, p);
    PointsExact(S, sk, sig, b, p, rnd, HiddenPoints(S, n, idx)[..|hs|], t.domain);
    TranscriptRebuilt(S, pk, sig, header, n, ds, idx, hs, rnd, p.challenge);
    if t.abar == p.abar && t.bbar == p.bbar && t.d == p.d {
      ResponsesExact(S, t, p, sig.e, hs, rnd);
    }
  }

  /**
   * Every accepted proof comes from exactly one choice of draws, for every
   * signature under the key on a vector that agrees with the messages disclosed;
   * and that choice is one the source can make exactly when the proof does not
   * rule the signature out.
   */
  lemma OneDraw<G1(!new), G2(!new), GT(!new)>(
      S: Suite<G1, G2, GT>, sk: nat, sig: Signature<G1>, header: Octets, ph: Octets, n: nat, disclosed: seq<Octets>,
      idx: seq<nat>, hs: seq<nat>, p: Proof<G1>) returns (rnd: Randoms)
    requires S.Valid() && Cyclic(S) && Signed(S, sk, sig, header, n, disclosed, idx, hs)
    requires Acceptable(S, sk, p, header, ph, disclosed, idx, |hs|)
    ensures AnyDraw(S, rnd, |hs|) && ProofWith(S, sk, sig, header, ph, n, disclosed, idx, hs, rnd) == p
    ensures forall other | AnyDraw(S, other, |hs|) ::
      ProofWith(S, sk, sig, header, ph, n, disclosed, idx, hs, other) == p ==> other == rnd
    ensures SourceDraw(S, rnd, |hs|) <==> !RulesOut(S, p, sig.e, hs, SignedB(S, sk, header, n, disclosed, idx, hs))
  {
    hide *;
    DrawSize(S, |hs|);
    SignedPoints(S, sk, sig, header, n, disclosed, idx, hs, p, ph);
    var b := SignedB(S, sk, header, n, disclosed, idx, hs);
    var r1, r2 := BlindsSome(S, sig.a, b, p);
    rnd := DrawsFor(S, p, sig.e, hs, r1, r2);
    DrawsInRange(S, p, sig.e, hs, sig.a, b, r1, r2);
    DrawsExact(S, sk, sig, header, ph, n, disclosed, idx, hs, p, rnd);
    forall other | AnyDraw(S, other, |hs|) && ProofWith(S, sk, sig, header, ph, n, disclosed, idx, hs, other) == p
      ensures other == rnd
    {
      DrawsExact(S, sk, sig, header, ph, n, disclosed, idx, hs, p, other);
      BlindsOne(S, sig.a, b, p, other.r1, other.r2, r1, r2);
    }
    CostExact(S, sk, sig, b, hs, p, r1, r2);
  }

  lemma DrawSize<G1(!new), G2(!new), GT(!new)>(S: Suite<G1, G2, GT>, u: nat)
    ensures forall rnd: Randoms :: AnyDraw(S, rnd, u) ==> |rnd.mTildes| == u
  {}

  lemma SignedPoints<G1(!new), G2(!new), GT(!new)>(
      S: Suite<G1, G2, GT>, sk: nat, sig: Signature<G1>, header: Octets, n: nat, disclosed: seq<Octets>,
      idx: seq<nat>, hs: seq<nat>, p: Proof<G1>, ph: Octets)
    requires S.Valid() && Signed(S, sk, sig, header, n, disclosed, idx, hs)
    requires Acceptable(S, sk, p, header, ph, disclosed, idx, |hs|)
    ensures InRange(idx, n) && |disclosed| == |idx| && |hs| <= |Complement(idx, n)|
    ensures |p.commitments| == |hs| && p.abar != S.Zero() && p.d != S.Zero()
    ensures var b := SignedB(S, sk, header, n, disclosed, idx, hs);
      && sig.a != S.Zero() && b != S.Zero() && S.Mul(sk + sig.e, sig.a) == b && p.bbar == S.Mul(sk, p.abar)
  {
    hide BValue, FullVector, Complement, Domain, MessageScalars, Recompute, ChallengeFor, ProofPairing;
    ZeroMultiple(S, sk + sig.e, sig.a);
    BbarFromPairing(S, sk, p);
  }

  lemma DrawsInRange<G1(!new), G2(!new), GT(!new)>(
      S: Suite<G1, G2, GT>, p: Proof<G1>, e: nat, hs: seq<nat>, a: G1, b: G1, r1: nat, r2: nat)
    requires |hs| == |p.commitments| && Blinds(S, a, b, p, r1, r2)
    ensures var rnd := DrawsFor(S, p, e, hs, r1, r2);
      && AnyDraw(S, rnd, |hs|) && rnd.r1 == r1 && rnd.r2 == r2 && |rnd.mTildes| == |hs|
  {
    hide Undo, Inverse;
  }

  // ---- What it costs never to draw 0 ----

  /**
   * The signatures that p cannot come from when no draw is 0: those with e or a
   * hidden scalar that is the response divided by the challenge, and likewise for
   * the two relations Bbar + e Abar = r1 D and B = r3 D.
   */
  ghost predicate RulesOut<G1(!new), G2(!new), GT(!new)>(
      S: Suite<G1, G2, GT>, p: Proof<G1>, e: nat, hs: seq<nat>, b: G1)
    requires |hs| == |p.commitments|
  {
    || Cong(e * p.challenge, p.eHat, S.r)
    || (exists i :: 0 <= i < |hs| && Cong(hs[i] * p.challenge, p.commitments[i], S.r))
    || S.Add(S.Mul(p.r1Hat, p.d), S.Mul(p.challenge, S.Add(p.bbar, S.Mul(e, p.abar)))) == S.Zero()
    || S.Add(S.Mul(p.r3Hat, p.d), S.Mul(p.challenge, b)) == S.Zero()
  }

  lemma UndoZero<G1(!new), G2(!new), GT(!new)>(S: Suite<G1, G2, GT>, hat: int, x: int, c: int)
    ensures Undo(S, hat, x, c) == 0 <==> Cong(x * c, hat, S.r)
  {
    DividesCong(hat, x * c, S.r);
  }

  /** hat D + c (k D) vanishes exactly when the draw does. */
  lemma PointZero<G1(!new), G2(!new), GT(!new)>(S: Suite<G1, G2, GT>, hat: nat, c: nat, k: nat, d: G1, x: G1)
    requires S.Valid() && d != S.Zero() && x == S.Mul(k, d)
    ensures S.Add(S.Mul(hat, d), S.Mul(c, x)) == S.Zero() <==> Undo(S, hat, 0 - k, c) == 0
  {
    var g, r := S.pairing.g1, S.r;
    MulMul(g, r, c, k, d);
    MulAdd(g, r, hat, c * k, d);
    ZeroMultiple(S, hat + c * k, d);
    assert (0 - k) * c == -(c * k);
  }

  lemma NonzeroDraws<G1(!new), G2(!new), GT(!new)>(
      S: Suite<G1, G2, GT>, p: Proof<G1>, e: nat, hs: seq<nat>, a: G1, b: G1, r1: nat, r2: nat)
    requires |hs| == |p.commitments| && Blinds(S, a, b, p, r1, r2)
    ensures SourceDraw(S, DrawsFor(S, p, e, hs, r1, r2), |hs|) <==>
      && Undo(S, p.eHat, e, p.challenge) != 0
      && Undo(S, p.r1Hat, 0 - r1, p.challenge) != 0
      && Undo(S, p.r3Hat, 0 - Inverse(S, r2), p.challenge) != 0
      && forall i :: 0 <= i < |hs| ==> Undo(S, p.commitments[i], hs[i], p.challenge) != 0
  {
    hide Inverse, AnyDraw;
    DrawsInRange(S, p, e, hs, a, b, r1, r2);
    hide Blinds, Undo;
    var ts := DrawsFor(S, p, e, hs, r1, r2).mTildes;
    if forall i :: 0 <= i < |hs| ==> Undo(S, p.commitments[i], hs[i], p.challenge) != 0 {
      assert forall i :: 0 <= i < |ts| ==> ts[i] != 0;
    }
    if ScalarsInRange(S, ts) {
      forall i | 0 <= i < |hs| ensures Undo(S, p.commitments[i], hs[i], p.challenge) != 0 {
        assert ts[i] != 0;
      }
    }
  }

  lemma CostExact<G1(!new), G2(!new), GT(!new)>(
      S: Suite<G1, G2, GT>, sk: nat, sig: Signature<G1>, b: G1, hs: seq<nat>, p: Proof<G1>, r1: nat, r2: nat)
    requires S.Valid() && |hs| == |p.commitments| && p.d != S.Zero() && Blinds(S, sig.a, b, p, r1, r2)
    requires S.Mul(sk + sig.e, sig.a) == b && p.bbar == S.Mul(sk, p.abar)
    ensures SourceDraw(S, DrawsFor(S, p, sig.e, hs, r1, r2), |hs|) <==> !RulesOut(S, p, sig.e, hs, b)
  {
    var c := p.challenge;
    assert 0 < r2 < S.r && p.d == S.Mul(r2, b);
    hide *;
    NonzeroDraws(S, p, sig.e, hs, sig.a, b, r1, r2);
    UndoZero(S, p.eHat, sig.e, c);
    forall i | 0 <= i < |hs|
      ensures Undo(S, p.commitments[i], hs[i], c) == 0 <==> Cong(hs[i] * c, p.commitments[i], S.r)
    {
      UndoZero(S, p.commitments[i], hs[i], c);
    }
    R1Relation(S, sk, sig, b, p, r1, r2);
    PointZero(S, p.r1Hat, c, r1, p.d, S.Add(p.bbar, S.Mul(sig.e, p.abar)));
    UndoR2(S, r2, b);
    PointZero(S, p.r3Hat, c, Inverse(S, r2), p.d, b);
    RulesOutUnfolds(S, p, sig.e, hs, b);
  }

  lemma RulesOutUnfolds<G1(!new), G2(!new), GT(!new)>(
      S: Suite<G1, G2, GT>, p: Proof<G1>, e: nat, hs: seq<nat>, b: G1)
    requires |hs| == |p.commitments|
    ensures RulesOut(S, p, e, hs, b) <==>
      || Cong(e * p.challenge, p.eHat, S.r)
      || (exists i :: 0 <= i < |hs| && Cong(hs[i] * p.challenge, p.commitments[i], S.r))
      || S.Add(S.Mul(p.r1Hat, p.d), S.Mul(p.challenge, S.Add(p.bbar, S.Mul(e, p.abar)))) == S.Zero()
      || S.Add(S.Mul(p.r3Hat, p.d), S.Mul(p.challenge, b)) == S.Zero()
  {
    hide Cong;
  }

  /** Bbar + e Abar = r1 D */
  lemma R1Relation<G1(!new), G2(!new), GT(!new)>(
      S: Suite<G1, G2, GT>, sk: nat, sig: Signature<G1>, b: G1, p: Proof<G1>, r1: nat, r2: nat)
    requires S.Valid() && Blinds(S, sig.a, b, p, r1, r2)
    requires S.Mul(sk + sig.e, sig.a) == b && p.bbar == S.Mul(sk, p.abar)
    ensures S.Add(p.bbar, S.Mul(sig.e, p.abar)) == S.Mul(r1, p.d)
  {
    var g, r := S.pairing.g1, S.r;
    MulNonNegative(r1, r2);
    BlindedB(S, sk + sig.e, sig.a, r1, r2);
    CongMod(r1 * r2, r);
    MulCong(g, r, (r1 * r2) % r, r1 * r2, sig.a);
    MulAdd(g, r, sk, sig.e, p.abar);
  }

  // ---- Unlinkability ----

  /**
   * The proof made from one signature could as well have been made from any other
   * under the same key, on another vector that agrees with what is disclosed: by
   * exactly one choice of draws. So for a draw uniform over all choices the proof
   * says nothing about which of the two it was made from.
   */
  lemma Unlinkable<G1(!new), G2(!new), GT(!new)>(
      S: Suite<G1, G2, GT>, sk: nat, header: Octets, ph: Octets, n: nat, disclosed: seq<Octets>, idx: seq<nat>,
      sig: Signature<G1>, hs: seq<nat>, rnd: Randoms, sig': Signature<G1>, hs': seq<nat>) returns (rnd': Randoms)
    requires S.Valid() && Cyclic(S) && AnyDraw(S, rnd, |hs|)
    requires Signed(S, sk, sig, header, n, disclosed, idx, hs) && Signed(S, sk, sig', header, n, disclosed, idx, hs')
    ensures |hs'| == |hs| && AnyDraw(S, rnd', |hs'|)
    ensures var p := ProofWith(S, sk, sig, header, ph, n, disclosed, idx, hs, rnd);
      && ProofWith(S, sk, sig', header, ph, n, disclosed, idx, hs', rnd') == p
      && (forall other | AnyDraw(S, other, |hs'|) ::
            ProofWith(S, sk, sig', header, ph, n, disclosed, idx, hs', other) == p ==> other == rnd')
      && (SourceDraw(S, rnd', |hs'|) <==> !RulesOut(S, p, sig'.e, hs', SignedB(S, sk, header, n, disclosed, idx, hs')))
  {
    hide *;
    DrawSize(S, |hs|);
    SameSize(S, sk, header, n, disclosed, idx, sig, hs, sig', hs');
    var p := ProofWith(S, sk, sig, header, ph, n, disclosed, idx, hs, rnd);
    MadeIsAcceptable(S, sk, sig, header, ph, n, disclosed, idx, hs, rnd);
    rnd' := OneDraw(S, sk, sig', header, ph, n, disclosed, idx, hs', p);
  }

  lemma SameSize<G1(!new), G2(!new), GT(!new)>(
      S: Suite<G1, G2, GT>, sk: nat, header: Octets, n: nat, disclosed: seq<Octets>, idx: seq<nat>,
      sig: Signature<G1>, hs: seq<nat>, sig': Signature<G1>, hs': seq<nat>)
    requires Signed(S, sk, sig, header, n, disclosed, idx, hs) && Signed(S, sk, sig', header, n, disclosed, idx, hs')
    ensures |hs'| == |hs| <= |Complement(idx, n)| && InRange(idx, n) && |disclosed| == |idx|
  {
    hide BValue, FullVector, Complement, Domain, MessageScalars;
  }

  lemma MadeIsAcceptable<G1(!new), G2(!new), GT(!new)>(
      S: Suite<G1, G2, GT>, sk: nat, sig: Signature<G1>, header: Octets, ph: Octets, n: nat, disclosed: seq<Octets>,
      idx: seq<nat>, hs: seq<nat>, rnd: Randoms)
    requires S.Valid() && Signed(S, sk, sig, header, n, disclosed, idx, hs) && AnyDraw(S, rnd, |hs|)
    ensures |rnd.mTildes| == |hs|
    ensures Acceptable(S, sk, ProofWith(S, sk, sig, header, ph, n, disclosed, idx, hs, rnd), header, ph, disclosed, idx,
                       |hs|)
  {
    hide BValue, FullVector, Complement, Domain, MessageScalars, Accepts, ScalarsBelow, ChallengeFor, TranscriptOver;
    ProofAccepted(S, sk, sig, header, ph, n, disclosed, idx, hs, rnd);
  }
}
