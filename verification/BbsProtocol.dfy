// The public BBS operations on octets, and what holds of every call: issued
// signatures verify, honest proofs verify, and accepting transcripts extract.
module BbsProtocol {
  import opened Arithmetic
  import opened Primes
  import opened Octets
  import opened Results
  import opened Groups
  import opened Sums
  import opened Bbs
  import opened BbsAlgebra
  import opened BbsEncoding

  // ---- Signatures ----

  lemma KeyRoundTrip<G1(!new), G2(!new), GT(!new)>(S: Suite<G1, G2, GT>, sk: nat)
    requires S.Valid() && 0 < sk < S.r
    ensures OctetsToKey(S, S.encode2(S.PublicPoint(sk))) == Some(S.PublicPoint(sk))
  {
    var w := S.PublicPoint(sk);
    assert S.EncodesKey(w);
    DivModUnique(sk, 0, sk, S.r);
    MulInvertible(S.pairing.g2, S.r, sk, S.pairing.base);
  }

  /** Everything bbs_sign computes before it inverts SK + e. */
  function SignScalar<G1(==, !new), G2(==, !new), GT(==, !new)>(
      S: Suite<G1, G2, GT>, sk: nat, header: Octets, messages: seq<Octets>): nat
  {
    var ms := MessageScalars(S, messages);
    SignatureScalar(S, sk, ms, Domain(S, S.encode2(S.PublicPoint(sk)), |ms|, header))
  }

  function SignB<G1(==, !new), G2(==, !new), GT(==, !new)>(
      S: Suite<G1, G2, GT>, sk: nat, header: Octets, messages: seq<Octets>): G1
  {
    var ms := MessageScalars(S, messages);
    BValue(S, Domain(S, S.encode2(S.PublicPoint(sk)), |ms|, header), ms)
  }

  /**
   * When bbs_sign fails: an out-of-range key and B = identity raise BbsError,
   * and SK + e = 0 mod r raises ValueError from the modular inverse, never the
   * BbsError whose text names that case.
   */
  lemma SignOutcome<G1(!new), G2(!new), GT(!new)>(S: Suite<G1, G2, GT>, sk: nat, header: Octets, messages: seq<Octets>)
    requires S.Valid()
    ensures var r := Sign(S, sk, header, messages);
      var inRange := 0 < sk < S.r;
      var invertible := (sk + SignScalar(S, sk, header, messages)) % S.r != 0;
      && (r == Err(ValueError) <==> inRange && !invertible)
      && (r == Err(BbsError) <==> !inRange || (invertible && SignB(S, sk, header, messages) == S.Zero()))
      && (r.Ok? <==> inRange && invertible && SignB(S, sk, header, messages) != S.Zero())
  {
    hide BValue, SignatureScalar, Domain, MessageScalars, Coprime;
    var e := SignScalar(S, sk, header, messages);
    SumNonzero(sk, e, S.r);
    if (sk + e) % S.r != 0 {
      var b := SignB(S, sk, header, messages);
      Divide(S, sk + e, S.Mul(ModInv((sk + e) % S.r, S.r), b), b);
    }
  }

  /** What a successful bbs_sign returns: the point A with (sk + e) * A = B, never the identity. */
  lemma SignedPoint<G1(!new), G2(!new), GT(!new)>(S: Suite<G1, G2, GT>, sk: nat, header: Octets, messages: seq<Octets>)
    returns (a: G1)
    requires S.Valid() && Sign(S, sk, header, messages).Ok?
    ensures var e := SignScalar(S, sk, header, messages);
      && a != S.Zero() && S.Mul(sk + e, a) == SignB(S, sk, header, messages)
      && 0 < sk < S.r && (sk + e) % S.r != 0
      && Sign(S, sk, header, messages).value == S.encode1(a) + ScalarField(e)
  {
    hide BValue, SignatureScalar, Domain, MessageScalars, Coprime;
    var e, b := SignScalar(S, sk, header, messages), SignB(S, sk, header, messages);
    SumNonzero(sk, e, S.r);
    a := S.Mul(ModInv((sk + e) % S.r, S.r), b);
    Divide(S, sk + e, a, b);
  }

  /** The signature bbs_sign issued, as the parser reads it back when its scalar is nonzero. */
  lemma IssuedSignature<G1(!new), G2(!new), GT(!new)>(
      S: Suite<G1, G2, GT>, sk: nat, header: Octets, messages: seq<Octets>) returns (sig: Signature<G1>)
    requires S.Valid() && Sign(S, sk, header, messages).Ok? && SignScalar(S, sk, header, messages) != 0
    ensures OctetsToSignature(S, Sign(S, sk, header, messages).value) == Some(sig)
    ensures 0 < sk < S.r && sig.a != S.Zero() && (sk + sig.e) % S.r != 0
    ensures S.Mul(sk + sig.e, sig.a) == SignB(S, sk, header, messages)
  {
    hide SignB, Sign, OctetsToSignature, ScalarField, IsPairing;
    var a := SignedPoint(S, sk, header, messages);
    sig := Signature(a, SignScalar(S, sk, header, messages));
    SignatureRoundTrip(S, a, sig.e);
  }

  /** An issued signature verifies, unless its scalar is 0, which bbs_verify rejects. */
  lemma SignVerifies<G1(!new), G2(!new), GT(!new)>(S: Suite<G1, G2, GT>, sk: nat, header: Octets, messages: seq<Octets>)
    requires S.Valid() && Sign(S, sk, header, messages).Ok?
    ensures Verify(S, S.encode2(S.PublicPoint(sk)), Sign(S, sk, header, messages).value, header, messages)
         == Ok(SignScalar(S, sk, header, messages) != 0)
  {
    var a := SignedPoint(S, sk, header, messages);
    var e := SignScalar(S, sk, header, messages);
    KeyRoundTrip(S, sk);
    if e != 0 {
      SignatureRoundTrip(S, a, e);
      PairingCheckExact(S, sk, a, e, SignB(S, sk, header, messages));
    } else {
      ZeroScalarRejected(S, a);
    }
  }

  lemma ZeroScalarRejected<G1(!new), G2(!new), GT(!new)>(S: Suite<G1, G2, GT>, a: G1)
    requires S.Valid()
    ensures OctetsToSignature(S, S.encode1(a) + ScalarField(0)) == None
  {
    var o := S.encode1(a) + ScalarField(0);
    assert S.EncodesPoint(a);
    FieldLength(0, SCALAR_LEN);
    assert o[POINT_LEN..] == ScalarField(0);
  }

  /** bbs_verify accepts exactly the parsed pairs (A, e) with (sk + e) * A = B. */
  lemma VerifyExact<G1(!new), G2(!new), GT(!new)>(
      S: Suite<G1, G2, GT>, sk: nat, signature: Octets, header: Octets, messages: seq<Octets>)
    requires S.Valid() && 0 < sk < S.r
    ensures Verify(S, S.encode2(S.PublicPoint(sk)), signature, header, messages) ==
      match OctetsToSignature(S, signature)
      case None => Ok(false)
      case Some(sig) => Ok(S.Mul(sk + sig.e, sig.a) == SignB(S, sk, header, messages))
  {
    KeyRoundTrip(S, sk);
    match OctetsToSignature(S, signature) {
      case None =>
      case Some(sig) => PairingCheckExact(S, sk, sig.a, sig.e, SignB(S, sk, header, messages));
    }
  }

  /**
   * For given messages and scalar e at most one point A makes a valid signature,
   * unless SK + e = 0 and B is the identity.
   */
  lemma SignatureUnique<G1(!new), G2(!new), GT(!new)>(
      S: Suite<G1, G2, GT>, sk: nat, s1: Octets, s2: Octets, header: Octets, messages: seq<Octets>)
    requires S.Valid() && 0 < sk < S.r
    requires Verify(S, S.encode2(S.PublicPoint(sk)), s1, header, messages) == Ok(true)
    requires Verify(S, S.encode2(S.PublicPoint(sk)), s2, header, messages) == Ok(true)
    requires OctetsToSignature(S, s1).value.e == OctetsToSignature(S, s2).value.e
    requires (sk + OctetsToSignature(S, s1).value.e) % S.r != 0 || SignB(S, sk, header, messages) != S.Zero()
    ensures OctetsToSignature(S, s1) == OctetsToSignature(S, s2)
  {
    hide Verify, OctetsToSignature, SignB;
    VerifyExact(S, sk, s1, header, messages);
    VerifyExact(S, sk, s2, header, messages);
    var x, y := OctetsToSignature(S, s1).value, OctetsToSignature(S, s2).value;
    assert (sk + x.e) % S.r == 0 ==> S.Mul(sk + x.e, x.a) == S.Zero();
    if (sk + x.e) % S.r != 0 {
      Divide(S, sk + x.e, x.a, SignB(S, sk, header, messages));
      Divide(S, sk + x.e, y.a, SignB(S, sk, header, messages));
    }
  }

  /** In that case every point but the identity makes one. */
  lemma AnyPointVerifies<G1(!new), G2(!new), GT(!new)>(
      S: Suite<G1, G2, GT>, sk: nat, a: G1, e: nat, header: Octets, messages: seq<Octets>)
    requires S.Valid() && 0 < sk < S.r && 0 < e < S.r && a != S.Zero()
    requires (sk + e) % S.r == 0 && SignB(S, sk, header, messages) == S.Zero()
    ensures Verify(S, S.encode2(S.PublicPoint(sk)), S.encode1(a) + ScalarField(e), header, messages) == Ok(true)
  {
    hide Verify, OctetsToSignature, SignB, ScalarField;
    SignatureRoundTrip(S, a, e);
    VerifyExact(S, sk, S.encode1(a) + ScalarField(e), header, messages);
    assert S.Mul(sk + e, a) == S.Zero();
  }

  // ---- bbs_proof_gen and bbs_proof_verify ----

  predicate RandomsOk<G1(==, !new), G2(==, !new), GT(==, !new)>(S: Suite<G1, G2, GT>, rnd: Randoms, u: nat)
  {
    && 0 < rnd.r1 < S.r && 0 < rnd.r2 < S.r && |rnd.mTildes| == u
  }

  /** The index checks of bbs_proof_gen. */
  predicate IndexesOk(idx: seq<nat>, n: nat)
  {
    |idx| <= n && InRange(idx, n) && StrictlyIncreasing(idx)
  }

  /** bbs_proof_gen on the scalars drawn for it. */
  function ProofGen<G1(==, !new), G2(==, !new), GT(==, !new)>(
      S: Suite<G1, G2, GT>, pk: Octets, signature: Octets, header: Octets, ph: Octets, messages: seq<Octets>,
      idx: seq<nat>, rnd: Randoms): Result<Octets, Failure>
    requires IsDrawn(S, rnd, idx, |messages|)
  {
    match OctetsToKey(S, pk)
    case None => Err(BbsError)
    case Some(_) =>
      match OctetsToSignature(S, signature)
      case None => Err(BbsError)
      case Some(sig) =>
        if !IndexesOk(idx, |messages|) then Err(BbsError)
        else Ok(ProofToOctets(S, Prove(S, pk, sig, header, ph, MessageScalars(S, messages), idx, rnd)))
  }

  /** The draws that are divided by lie in [1, r - 1], and there is one m~ per hidden message. */
  predicate IsDrawn<G1(==, !new), G2(==, !new), GT(==, !new)>(S: Suite<G1, G2, GT>, rnd: Randoms, idx: seq<nat>, n: nat)
  {
    RandomsOk(S, rnd, |Complement(idx, n)|)
  }

  /** bbs_proof_verify; only a malformed key raises. */
  function ProofVerify<G1(==, !new), G2(==, !new), GT(==, !new)>(
      S: Suite<G1, G2, GT>, pk: Octets, proof: Octets, header: Octets, ph: Octets, disclosed: seq<Octets>,
      idx: seq<nat>): Result<bool, Failure>
  {
    match OctetsToKey(S, pk)
    case None => Err(BbsError)
    case Some(w) =>
      match OctetsToProof(S, proof)
      case None => Ok(false)
      case Some(p) => Ok(Accepts(S, pk, w, p, header, ph, disclosed, idx))
  }

  lemma IncreasingDistinct(idx: seq<nat>)
    requires StrictlyIncreasing(idx)
    ensures Distinct(idx)
  {}

  /** The responses reopen T1. */
  lemma RespondT1<G1(!new), G2(!new), GT(!new)>(
      S: Suite<G1, G2, GT>, t: Transcript<G1>, e: nat, rnd: Randoms, hiddenMs: seq<nat>, c: nat)
    requires S.Valid() && |rnd.mTildes| == |hiddenMs|
    requires t.bbar == S.Add(S.Mul(rnd.r1, t.d), S.Neg(S.Mul(e, t.abar)))
    ensures RecomputeT1(S, Respond(S, t, e, rnd, hiddenMs, c)) == CommitT1(S, t.abar, t.d, rnd)
  {
    var p := Respond(S, t, e, rnd, hiddenMs, c);
    CongMod(rnd.eTilde + e * c, S.r);
    CongMod(rnd.r1Tilde - rnd.r1 * c, S.r);
    MinusMinus(rnd.eTilde, e, c);
    T1Agrees(S, t.abar, t.bbar, t.d, e, rnd.r1, rnd.eTilde, rnd.r1Tilde, c, p.eHat, p.r1Hat);
  }

  lemma MinusMinus(t: int, e: int, c: int)
    ensures t + e * c == t - (-e) * c
  {}

  /** The responses reopen T2 when the disclosed and hidden parts make up B. */
  lemma RespondT2<G1(!new), G2(!new), GT(!new)>(
      S: Suite<G1, G2, GT>, t: Transcript<G1>, e: nat, rnd: Randoms, hidden: seq<G1>, hiddenMs: seq<nat>, c: nat,
      bv: G1, b: G1)
    requires S.Valid() && |rnd.mTildes| == |hiddenMs| == |hidden| && 0 < rnd.r2 < S.r
    requires t.d == S.Mul(rnd.r2, b) && b == S.Add(bv, Sum(S.pairing.g1, S.r, hidden, hiddenMs))
    ensures RecomputeT2(S, Respond(S, t, e, rnd, hiddenMs, c), bv, hidden) == CommitT2(S, t.d, hidden, rnd)
  {
    var p := Respond(S, t, e, rnd, hiddenMs, c);
    var r3 := Inverse(S, rnd.r2);
    UndoR2(S, rnd.r2, b);
    CongMod(rnd.r3Tilde - r3 * c, S.r);
    forall i | 0 <= i < |hiddenMs|
      ensures Cong(p.commitments[i], rnd.mTildes[i] + c * hiddenMs[i], S.r)
    {
      ResponseCong(S, rnd.mTildes[i], hiddenMs[i], c);
    }
    T2Agrees(S, bv, b, t.d, r3, rnd.r3Tilde, c, p.r3Hat, hidden, hiddenMs, rnd.mTildes, p.commitments);
    assert hidden[..|hidden|] == hidden && p.commitments[..|hidden|] == p.commitments;
  }

  lemma ResponseCong<G1(!new), G2(!new), GT(!new)>(S: Suite<G1, G2, GT>, tilde: nat, m: nat, c: nat)
    ensures Cong(Response(S, tilde, m, c), tilde + c * m, S.r)
  {
    CongMod(tilde + m * c, S.r);
    assert m * c == c * m;
  }

  /** As r is prime, every scalar in [1, r - 1] has an inverse. */
  lemma InverseOfDraw<G1(!new), G2(!new), GT(!new)>(S: Suite<G1, G2, GT>, k: nat)
    requires S.Valid() && 0 < k < S.r
    ensures Coprime(k, S.r) && Cong(k * Inverse(S, k), 1, S.r) && 0 < Inverse(S, k) < S.r
  {
    DivModUnique(k, 0, k, S.r);
    PrimeCoprime(S.r, k);
    OneIsNotZero(S.r);
  }

  lemma UndoR2<G1(!new), G2(!new), GT(!new)>(S: Suite<G1, G2, GT>, r2: nat, b: G1)
    requires S.Valid() && 0 < r2 < S.r
    ensures b == S.Mul(Inverse(S, r2), S.Mul(r2, b))
  {
    InverseOfDraw(S, r2);
    var r3 := Inverse(S, r2);
    MulMul(S.pairing.g1, S.r, r3, r2, b);
    assert r3 * r2 == r2 * r3;
    MulCong(S.pairing.g1, S.r, r3 * r2, 1, b);
    MulOne(S.pairing.g1, S.r, b);
  }

  lemma RespondScalarsBelow<G1(!new), G2(!new), GT(!new)>(
      S: Suite<G1, G2, GT>, t: Transcript<G1>, e: nat, rnd: Randoms, hiddenMs: seq<nat>, c: nat)
    requires |rnd.mTildes| == |hiddenMs| && c < S.r
    ensures ScalarsBelow(S, ProofScalars(Respond(S, t, e, rnd, hiddenMs, c)))
  {
    var hats := Respond(S, t, e, rnd, hiddenMs, c).commitments;
    assert forall i :: 0 <= i < |hats| ==> hats[i] == Response(S, rnd.mTildes[i], hiddenMs[i], c) < S.r;
  }

  /**
   * The proof over any list of indexes within range: the signature is on the
   * vector that the disclosed scalars ds and the hidden ones hs stand for.
   */
  function ProveOver<G1(==, !new), G2(==, !new), GT(==, !new)>(
      S: Suite<G1, G2, GT>, pk: Octets, sig: Signature<G1>, header: Octets, ph: Octets,
      n: nat, ds: seq<nat>, idx: seq<nat>, hs: seq<nat>, rnd: Randoms): Proof<G1>
    requires InRange(idx, n) && |ds| == |idx| && |rnd.mTildes| == |hs| <= |Complement(idx, n)|
  {
    var t := TranscriptOver(S, pk, sig, header, n, ds, idx, hs, rnd);
    Respond(S, t, sig.e, rnd, hs, ChallengeFor(S, t, ds, idx, ph))
  }

  function TranscriptOver<G1(==, !new), G2(==, !new), GT(==, !new)>(
      S: Suite<G1, G2, GT>, pk: Octets, sig: Signature<G1>, header: Octets,
      n: nat, ds: seq<nat>, idx: seq<nat>, hs: seq<nat>, rnd: Randoms): Transcript<G1>
    requires InRange(idx, n) && |ds| == |idx| && |rnd.mTildes| == |hs| <= |Complement(idx, n)|
  {
    var domain := Domain(S, pk, n, header);
    CommitTo(S, domain, sig, BValue(S, domain, FullVector(n, idx, ds, hs)), HiddenPoints(S, n, idx)[..|hs|], rnd)
  }

  /** For a distinct selection of a vector this is the proof of Prove. */
  lemma ProveIsProveOver<G1(!new), G2(!new), GT(!new)>(
      S: Suite<G1, G2, GT>, pk: Octets, sig: Signature<G1>, header: Octets, ph: Octets, ms: seq<nat>, idx: seq<nat>,
      rnd: Randoms)
    requires InRange(idx, |ms|) && Distinct(idx) && |rnd.mTildes| == |Complement(idx, |ms|)|
    ensures Prove(S, pk, sig, header, ph, ms, idx, rnd)
         == ProveOver(S, pk, sig, header, ph, |ms|, Gather<nat>(ms, idx), idx,
                      Gather<nat>(ms, Complement(idx, |ms|)), rnd)
  {
    hide Complement, FullVector, HiddenPoints, BValue, Respond, ChallengeFor, CommitTo;
    FullVectorOf(ms, idx);
    var hidden := HiddenPoints(S, |ms|, idx);
    assert hidden[..|hidden|] == hidden;
  }

  /** The verifier rebuilds the prover's transcript, for any list of indexes. */
  lemma TranscriptRebuilt<G1(!new), G2(!new), GT(!new)>(
      S: Suite<G1, G2, GT>, pk: Octets, sig: Signature<G1>, header: Octets,
      n: nat, ds: seq<nat>, idx: seq<nat>, hs: seq<nat>, rnd: Randoms, c: nat)
    requires S.Valid() && InRange(idx, n) && |ds| == |idx| && |rnd.mTildes| == |hs| <= |Complement(idx, n)|
    requires 0 < rnd.r2 < S.r
    ensures var t := TranscriptOver(S, pk, sig, header, n, ds, idx, hs, rnd);
      Recompute(S, pk, Respond(S, t, sig.e, rnd, hs, c), header, n, ds, idx) == t
  {
    var t := TranscriptOver(S, pk, sig, header, n, ds, idx, hs, rnd);
    var p := Respond(S, t, sig.e, rnd, hs, c);
    assert RecomputeT1(S, p) == t.t1 by {
      RespondT1(S, t, sig.e, rnd, hs, c);
    }
    assert RecomputeT2(S, p, DisclosedB(S, t.domain, n, idx, ds), HiddenPoints(S, n, idx)) == t.t2 by {
      RebuiltT2(S, t, sig.e, n, ds, idx, hs, rnd, c);
    }
  }

  lemma RebuiltT2<G1(!new), G2(!new), GT(!new)>(
      S: Suite<G1, G2, GT>, t: Transcript<G1>, e: nat, n: nat, ds: seq<nat>, idx: seq<nat>, hs: seq<nat>, rnd: Randoms,
      c: nat)
    requires S.Valid() && InRange(idx, n) && |ds| == |idx| && |rnd.mTildes| == |hs| <= |Complement(idx, n)|
    requires 0 < rnd.r2 < S.r && t.d == S.Mul(rnd.r2, BValue(S, t.domain, FullVector(n, idx, ds, hs)))
    ensures RecomputeT2(S, Respond(S, t, e, rnd, hs, c), DisclosedB(S, t.domain, n, idx, ds), HiddenPoints(S, n, idx))
         == CommitT2(S, t.d, HiddenPoints(S, n, idx)[..|hs|], rnd)
  {
    hide BValue, DisclosedB, HiddenPoints, RecomputeT2, CommitT2, Complement, Response, FullVector, Sum;
    var bv, hidden := DisclosedB(S, t.domain, n, idx, ds), HiddenPoints(S, n, idx);
    FullSplits(S, t.domain, n, idx, ds, hs);
    RespondT2(S, t, e, rnd, hidden[..|hs|], hs, c, bv, BValue(S, t.domain, FullVector(n, idx, ds, hs)));
    OnlyFirstPaired(S, Respond(S, t, e, rnd, hs, c), bv, hidden);
  }

  /** zip pairs the commitments with the first of the hidden points only. */
  lemma OnlyFirstPaired<G1(!new), G2(!new), GT(!new)>(S: Suite<G1, G2, GT>, p: Proof<G1>, bv: G1, hidden: seq<G1>)
    requires |p.commitments| <= |hidden|
    ensures RecomputeT2(S, p, bv, hidden) == RecomputeT2(S, p, bv, hidden[..|p.commitments|])
  {
    var front := hidden[..|p.commitments|];
    assert front[..|p.commitments|] == front;
  }

  /** The pairing test and the parser's identity checks hold for an honest transcript. */
  lemma HonestPoints<G1(!new), G2(!new), GT(!new)>(
      S: Suite<G1, G2, GT>, sk: nat, sig: Signature<G1>, b: G1, r1: nat, r2: nat, p: Proof<G1>)
    requires S.Valid() && 0 < sk < S.r && sig.a != S.Zero() && (sk + sig.e) % S.r != 0
    requires S.Mul(sk + sig.e, sig.a) == b && 0 < r1 < S.r && 0 < r2 < S.r
    requires r1 * r2 >= 0 && p.abar == S.Mul((r1 * r2) % S.r, sig.a) && p.d == S.Mul(r2, b)
    requires p.bbar == S.Add(S.Mul(r1, p.d), S.Neg(S.Mul(sig.e, p.abar)))
    ensures p.abar != S.Zero() && p.bbar != S.Zero() && p.d != S.Zero()
    ensures ProofPairing(S, S.PublicPoint(sk), p)
  {
    BbarIsMultiple(S, sk, sig.a, sig.e, b, r1, r2, p);
    ProofPairingHolds(S, sk, p);
    ProofPointsNonzero(S, sk, sig.a, sig.e, b, r1, r2, p);
  }

  /**
   * The core of completeness: a proof over any list of indexes within range,
   * made from a signature with (sk + e) * A = B, is accepted and has no identity
   * point.
   */
  lemma ProofAccepted<G1(!new), G2(!new), GT(!new)>(
      S: Suite<G1, G2, GT>, sk: nat, sig: Signature<G1>, header: Octets, ph: Octets,
      n: nat, disclosed: seq<Octets>, idx: seq<nat>, hs: seq<nat>, rnd: Randoms)
    requires S.Valid() && Signed(S, sk, sig, header, n, disclosed, idx, hs)
    requires RandomsOk(S, rnd, |hs|)
    ensures var pk := S.encode2(S.PublicPoint(sk));
      var p := ProveOver(S, pk, sig, header, ph, n, MessageScalars(S, disclosed), idx, hs, rnd);
      && p.abar != S.Zero() && p.bbar != S.Zero() && p.d != S.Zero()
      && ScalarsBelow(S, ProofScalars(p))
      && Accepts(S, pk, S.PublicPoint(sk), p, header, ph, disclosed, idx)
  {
    hide BValue, FullVector, HiddenPoints, Complement, Domain, Recompute, ProofPairing, CommitT1, CommitT2;
    var pk, ds := S.encode2(S.PublicPoint(sk)), MessageScalars(S, disclosed);
    var t := TranscriptOver(S, pk, sig, header, n, ds, idx, hs, rnd);
    var c := ChallengeFor(S, t, ds, idx, ph);
    var p := Respond(S, t, sig.e, rnd, hs, c);
    MulNonNegative(rnd.r1, rnd.r2);
    HonestPoints(S, sk, sig, BValue(S, t.domain, FullVector(n, idx, ds, hs)), rnd.r1, rnd.r2, p);
    TranscriptRebuilt(S, pk, sig, header, n, ds, idx, hs, rnd, c);
    RespondScalarsBelow(S, t, sig.e, rnd, hs, c);
  }

  /** A signature under sk on the vector that disclosed messages at idx and hidden scalars stand for, n in all. */
  ghost predicate Signed<G1(!new), G2(!new), GT(!new)>(
      S: Suite<G1, G2, GT>, sk: nat, sig: Signature<G1>, header: Octets, n: nat, disclosed: seq<Octets>, idx: seq<nat>,
      hs: seq<nat>)
  {
    && 0 < sk < S.r && sig.a != S.Zero() && (sk + sig.e) % S.r != 0
    && InRange(idx, n) && |disclosed| == |idx| && n == |idx| + |hs| && |hs| <= |Complement(idx, n)|
    && S.Mul(sk + sig.e, sig.a) == BValue(S, Domain(S, S.encode2(S.PublicPoint(sk)), n, header),
                                          FullVector(n, idx, MessageScalars(S, disclosed), hs))
  }

  /** From its octets, such a proof verifies exactly when none of its scalars is zero. */
  lemma AnyListVerifies<G1(!new), G2(!new), GT(!new)>(
      S: Suite<G1, G2, GT>, sk: nat, sig: Signature<G1>, header: Octets, ph: Octets,
      n: nat, disclosed: seq<Octets>, idx: seq<nat>, hs: seq<nat>, rnd: Randoms)
    requires S.Valid() && Signed(S, sk, sig, header, n, disclosed, idx, hs)
    requires RandomsOk(S, rnd, |hs|)
    ensures var pk := S.encode2(S.PublicPoint(sk));
      var p := ProveOver(S, pk, sig, header, ph, n, MessageScalars(S, disclosed), idx, hs, rnd);
      ProofVerify(S, pk, ProofToOctets(S, p), header, ph, disclosed, idx) == Ok(ScalarsInRange(S, ProofScalars(p)))
  {
    var p := ProveOver(S, S.encode2(S.PublicPoint(sk)), sig, header, ph, n, MessageScalars(S, disclosed), idx, hs, rnd);
    hide Accepts, BValue, FullVector, CommitTo;
    ProofAccepted(S, sk, sig, header, ph, n, disclosed, idx, hs, rnd);
    AcceptedVerifies(S, sk, p, header, ph, disclosed, idx);
  }

  /** An accepted proof verifies from its octets exactly when it parses, that is, when none of its scalars is zero. */
  lemma AcceptedVerifies<G1(!new), G2(!new), GT(!new)>(
      S: Suite<G1, G2, GT>, sk: nat, p: Proof<G1>, header: Octets, ph: Octets, disclosed: seq<Octets>, idx: seq<nat>)
    requires S.Valid() && 0 < sk < S.r && ScalarsBelow(S, ProofScalars(p))
    requires p.abar != S.Zero() && p.bbar != S.Zero() && p.d != S.Zero()
    requires Accepts(S, S.encode2(S.PublicPoint(sk)), S.PublicPoint(sk), p, header, ph, disclosed, idx)
    ensures ProofVerify(S, S.encode2(S.PublicPoint(sk)), ProofToOctets(S, p), header, ph, disclosed, idx)
         == Ok(ScalarsInRange(S, ProofScalars(p)))
  {
    hide Accepts, OctetsToKey, OctetsToProof, ProofToOctets, ProofScalars, WellFormed;
    KeyRoundTrip(S, sk);
    ProofRoundTrip(S, p);
    WellFormedScalars(S, p);
  }

  /** A signature on messages is one on any distinct selection of them and the scalars of the rest. */
  lemma SignedSelection<G1(!new), G2(!new), GT(!new)>(
      S: Suite<G1, G2, GT>, sk: nat, sig: Signature<G1>, header: Octets, messages: seq<Octets>, idx: seq<nat>)
    requires S.Valid() && 0 < sk < S.r && sig.a != S.Zero() && (sk + sig.e) % S.r != 0
    requires S.Mul(sk + sig.e, sig.a) == SignB(S, sk, header, messages)
    requires InRange(idx, |messages|) && Distinct(idx)
    ensures Signed(S, sk, sig, header, |messages|, Gather(messages, idx), idx,
                   Gather<nat>(MessageScalars(S, messages), Complement(idx, |messages|)))
    ensures MessageScalars(S, Gather(messages, idx)) == Gather<nat>(MessageScalars(S, messages), idx)
  {
    hide BValue, FullVector, Complement, Domain;
    var ms := MessageScalars(S, messages);
    FullVectorOf(ms, idx);
    ComplementSize(idx, |messages|);
    assert MessageScalars(S, Gather(messages, idx)) == Gather<nat>(ms, idx);
  }

  /**
   * Completeness: for every message vector, header and strictly increasing
   * index set, the proof made from a bbs_sign signature with nonzero scalar has
   * no identity point, and it is accepted exactly when none of its scalars is
   * zero (the parser rejects zero scalars).
   */
  lemma ProofCompleteness<G1(!new), G2(!new), GT(!new)>(S: Suite<G1, G2, GT>, sk: nat, header: Octets, ph: Octets,
                          messages: seq<Octets>, idx: seq<nat>, rnd: Randoms)
    requires S.Valid() && Sign(S, sk, header, messages).Ok? && SignScalar(S, sk, header, messages) != 0
    requires IndexesOk(idx, |messages|) && IsDrawn(S, rnd, idx, |messages|)
    ensures var pk := S.encode2(S.PublicPoint(sk));
      var signature := Sign(S, sk, header, messages).value;
      var sig := OctetsToSignature(S, signature);
      var proof := ProofGen(S, pk, signature, header, ph, messages, idx, rnd);
      sig.Some? &&
      var p := Prove(S, pk, sig.value, header, ph, MessageScalars(S, messages), idx, rnd);
      && proof.Ok? && proof.value == ProofToOctets(S, p)
      && p.abar != S.Zero() && p.bbar != S.Zero() && p.d != S.Zero()
      && ProofVerify(S, pk, proof.value, header, ph, Gather(messages, idx), idx)
         == Ok(ScalarsInRange(S, ProofScalars(p)))
  {
    hide Prove, Sign, SignScalar, SignB, ProofVerify, OctetsToSignature, OctetsToKey, MessageScalars, ProofToOctets,
         Accepts, ProofScalars, ScalarsInRange, ScalarsBelow, Gather, Complement;
    var sig := IssuedSignature(S, sk, header, messages);
    KeyRoundTrip(S, sk);
    IncreasingDistinct(idx);
    HonestProofVerifies(S, sk, sig, header, ph, messages, idx, rnd);
  }

  /**
   * A proof over any distinct selection has no identity point and verifies
   * exactly when none of its scalars is zero.
   */
  lemma HonestProofVerifies<G1(!new), G2(!new), GT(!new)>(
      S: Suite<G1, G2, GT>, sk: nat, sig: Signature<G1>, header: Octets, ph: Octets, messages: seq<Octets>,
      idx: seq<nat>, rnd: Randoms)
    requires S.Valid() && 0 < sk < S.r && sig.a != S.Zero() && (sk + sig.e) % S.r != 0
    requires S.Mul(sk + sig.e, sig.a) == SignB(S, sk, header, messages)
    requires InRange(idx, |messages|) && Distinct(idx) && IsDrawn(S, rnd, idx, |messages|)
    ensures var pk := S.encode2(S.PublicPoint(sk));
      var p := Prove(S, pk, sig, header, ph, MessageScalars(S, messages), idx, rnd);
      && p.abar != S.Zero() && p.bbar != S.Zero() && p.d != S.Zero()
      && ProofVerify(S, pk, ProofToOctets(S, p), header, ph, Gather(messages, idx), idx)
         == Ok(ScalarsInRange(S, ProofScalars(p)))
  {
    hide Prove, ProveOver, SignB, Signed, ProofVerify, MessageScalars, ProofToOctets, Accepts, ProofScalars;
    hide ScalarsInRange, ScalarsBelow, Complement, Distinct;
    var ms := MessageScalars(S, messages);
    var n, hs := |messages|, Gather<nat>(ms, Complement(idx, |messages|));
    SignedSelection(S, sk, sig, header, messages, idx);
    ProveIsProveOver(S, S.encode2(S.PublicPoint(sk)), sig, header, ph, ms, idx, rnd);
    ProofAccepted(S, sk, sig, header, ph, n, Gather(messages, idx), idx, hs, rnd);
    AnyListVerifies(S, sk, sig, header, ph, n, Gather(messages, idx), idx, hs, rnd);
  }

  /**
   * bbs_proof_verify is documented to answer False for non-ascending indexes.
   * It does not: bbs_proof_gen refuses such a list, but a proof over it from the
   * same signature verifies on the same condition as any other.
   */
  lemma NonAscendingAccepted<G1(!new), G2(!new), GT(!new)>(
      S: Suite<G1, G2, GT>, sk: nat, header: Octets, ph: Octets, messages: seq<Octets>, idx: seq<nat>, rnd: Randoms)
    requires S.Valid() && Sign(S, sk, header, messages).Ok? && SignScalar(S, sk, header, messages) != 0
    requires InRange(idx, |messages|) && Distinct(idx) && !StrictlyIncreasing(idx) && IsDrawn(S, rnd, idx, |messages|)
    ensures var pk := S.encode2(S.PublicPoint(sk));
      var signature := Sign(S, sk, header, messages).value;
      var sig := OctetsToSignature(S, signature);
      sig.Some? &&
      var p := Prove(S, pk, sig.value, header, ph, MessageScalars(S, messages), idx, rnd);
      && ProofGen(S, pk, signature, header, ph, messages, idx, rnd) == Err(BbsError)
      && ProofVerify(S, pk, ProofToOctets(S, p), header, ph, Gather(messages, idx), idx)
         == Ok(ScalarsInRange(S, ProofScalars(p)))
  {
    hide Prove, Sign, SignScalar, SignB, ProofVerify, OctetsToSignature, OctetsToKey, MessageScalars, ProofToOctets,
         Accepts, ProofScalars, ScalarsInRange, ScalarsBelow, Gather, Complement;
    var sig := IssuedSignature(S, sk, header, messages);
    KeyRoundTrip(S, sk);
    HonestProofVerifies(S, sk, sig, header, ph, messages, idx, rnd);
  }

  // ---- Extraction ----

  /** Two proofs with the same points that reopen the same T1 and T2 under different challenges. */
  ghost predicate Rewound<G1(!new), G2(!new), GT(!new)>(
      S: Suite<G1, G2, GT>, p: Proof<G1>, q: Proof<G1>, bv: G1, hidden: seq<G1>)
  {
    && p.abar == q.abar && p.bbar == q.bbar && p.d == q.d
    && |p.commitments| == |q.commitments| <= |hidden|
    && p.challenge < S.r && q.challenge < S.r && p.challenge != q.challenge
    && RecomputeT1(S, p) == RecomputeT1(S, q)
    && RecomputeT2(S, p, bv, hidden) == RecomputeT2(S, q, bv, hidden)
  }

  lemma ChallengesDiffer<G1(!new), G2(!new), GT(!new)>(S: Suite<G1, G2, GT>, c1: nat, c2: nat)
    requires c1 < S.r && c2 < S.r && c1 != c2
    ensures !Cong(c1, c2, S.r)
  {
    if Cong(c1, c2, S.r) {
      CongSmall(c1, c2, S.r);
    }
  }

  /** What two rewound proofs over n messages, with scalars ds disclosed at idx, have in common. */
  ghost predicate RewoundOver<G1(!new), G2(!new), GT(!new)>(
      S: Suite<G1, G2, GT>, p: Proof<G1>, q: Proof<G1>, domain: nat, ds: seq<nat>, idx: seq<nat>)
  {
    var n := |idx| + |p.commitments|;
    && |ds| == |idx| && InRange(idx, n) && |p.commitments| == |q.commitments|
    && Rewound(S, p, q, DisclosedB(S, domain, n, idx, ds), HiddenPoints(S, n, idx))
  }

  /** The vector that the disclosed scalars and the extracted ones stand for. */
  function ExtractVector<G1(==, !new), G2(==, !new), GT(==, !new)>(
      S: Suite<G1, G2, GT>, p: Proof<G1>, q: Proof<G1>, ds: seq<nat>, idx: seq<nat>): (full: seq<int>)
    requires |p.commitments| == |q.commitments| && |ds| == |idx| && InRange(idx, |idx| + |p.commitments|)
    ensures |full| == |idx| + |p.commitments|
  {
    ComplementSize(idx, |idx| + |p.commitments|);
    FullVector(|idx| + |p.commitments|, idx, ds, ExtractHidden(S, p, q))
  }

  /** Rewound proofs give Bbar = r1 D - e Abar, and B = r3 D for the extracted vector. */
  lemma ExtractedRelations<G1(!new), G2(!new), GT(!new)>(
      S: Suite<G1, G2, GT>, p: Proof<G1>, q: Proof<G1>, domain: nat, ds: seq<nat>, idx: seq<nat>)
    requires S.Valid() && RewoundOver(S, p, q, domain, ds, idx)
    ensures p.bbar == Combine(S.pairing.g1, S.r, -ExtractE(S, p, q), p.abar, ExtractR1(S, p, q), p.d)
    ensures BValue(S, domain, ExtractVector(S, p, q, ds, idx)) == S.Mul(ExtractR3(S, p, q), p.d)
  {
    hide DisclosedB, HiddenPoints, BValue, Complement, RecomputeT1, RecomputeT2, IsPairing, Combine, Gather, InRange,
         ExtractE, ExtractR1, ExtractR3, ExtractHidden, Sum, Accumulate, FullVector;
    var n, k := |idx| + |p.commitments|, |p.commitments|;
    var bv, hidden := DisclosedB(S, domain, n, idx, ds), HiddenPoints(S, n, idx);
    ComplementSize(idx, n);
    ChallengesDiffer(S, p.challenge, q.challenge);
    ExtractT1(S, p, q);
    OnlyFirstPaired(S, p, bv, hidden);
    OnlyFirstPaired(S, q, bv, hidden);
    ExtractT2(S, p, q, bv, hidden[..k]);
    FullSplits(S, domain, n, idx, ds, ExtractHidden(S, p, q));
  }

  /** Two proofs of one shape that reopen the same transcript under different challenges. */
  ghost predicate Reopened<G1(!new), G2(!new), GT(!new)>(
      S: Suite<G1, G2, GT>, pk: Octets, o1: Octets, o2: Octets, header: Octets, disclosed: seq<Octets>, idx: seq<nat>)
  {
    var p, q := OctetsToProof(S, o1), OctetsToProof(S, o2);
    && p.Some? && q.Some?
    && |p.value.commitments| == |q.value.commitments| && p.value.challenge != q.value.challenge
    && var n := |idx| + |p.value.commitments|;
    && |disclosed| == |idx| && InRange(idx, n)
    && Recompute(S, pk, p.value, header, n, MessageScalars(S, disclosed), idx)
       == Recompute(S, pk, q.value, header, n, MessageScalars(S, disclosed), idx)
  }

  /** Both octet strings are accepted, and they reopen one transcript. */
  ghost predicate AcceptedTwice<G1(!new), G2(!new), GT(!new)>(
      S: Suite<G1, G2, GT>, pk: Octets, o1: Octets, o2: Octets, header: Octets, ph1: Octets, ph2: Octets,
      disclosed: seq<Octets>, idx: seq<nat>)
  {
    && ProofVerify(S, pk, o1, header, ph1, disclosed, idx) == Ok(true)
    && ProofVerify(S, pk, o2, header, ph2, disclosed, idx) == Ok(true)
    && Reopened(S, pk, o1, o2, header, disclosed, idx)
  }

  lemma AcceptedTwiceRewinds<G1(!new), G2(!new), GT(!new)>(
      S: Suite<G1, G2, GT>, pk: Octets, o1: Octets, o2: Octets, header: Octets, ph1: Octets, ph2: Octets,
      disclosed: seq<Octets>, idx: seq<nat>)
    requires S.Valid() && AcceptedTwice(S, pk, o1, o2, header, ph1, ph2, disclosed, idx)
    ensures OctetsToProof(S, o1).Some? && OctetsToProof(S, o2).Some?
    ensures var p, q := OctetsToProof(S, o1).value, OctetsToProof(S, o2).value;
      && OctetsToKey(S, pk).Some? && WellFormed(S, p) && ProofPairing(S, OctetsToKey(S, pk).value, p)
      && RewoundOver(S, p, q, Domain(S, pk, |idx| + |p.commitments|, header), MessageScalars(S, disclosed), idx)
  {
    hide ProofVerify, Accepts, OctetsToProof, OctetsToKey, DisclosedB, HiddenPoints, Domain, ProofPairing;
    hide MessageScalars;
    AcceptedFacts(S, pk, o1, header, ph1, disclosed, idx);
    AcceptedFacts(S, pk, o2, header, ph2, disclosed, idx);
    var p, q := OctetsToProof(S, o1).value, OctetsToProof(S, o2).value;
    SameTranscript(S, pk, p, q, header, MessageScalars(S, disclosed), idx);
  }

  lemma AcceptedFacts<G1(!new), G2(!new), GT(!new)>(
      S: Suite<G1, G2, GT>, pk: Octets, o: Octets, header: Octets, ph: Octets, disclosed: seq<Octets>, idx: seq<nat>)
    requires ProofVerify(S, pk, o, header, ph, disclosed, idx) == Ok(true)
    ensures OctetsToKey(S, pk).Some? && OctetsToProof(S, o).Some?
    ensures var p := OctetsToProof(S, o).value;
      && WellFormed(S, p) && ProofPairing(S, OctetsToKey(S, pk).value, p)
      && InRange(idx, |idx| + |p.commitments|) && |disclosed| == |idx|
  {
    ParsedWellFormed(S, o);
  }

  lemma SameTranscript<G1(!new), G2(!new), GT(!new)>(
      S: Suite<G1, G2, GT>, pk: Octets, p: Proof<G1>, q: Proof<G1>, header: Octets, ds: seq<nat>, idx: seq<nat>)
    requires |ds| == |idx| && InRange(idx, |idx| + |p.commitments|)
    requires WellFormed(S, p) && WellFormed(S, q) && |p.commitments| == |q.commitments| && p.challenge != q.challenge
    requires var n := |idx| + |p.commitments|;
      Recompute(S, pk, p, header, n, ds, idx) == Recompute(S, pk, q, header, n, ds, idx)
    ensures RewoundOver(S, p, q, Domain(S, pk, |idx| + |p.commitments|, header), ds, idx)
  {
    hide DisclosedB, RecomputeT1, RecomputeT2, Complement, Domain;
    ComplementSize(idx, |idx| + |p.commitments|);
  }

  /**
   * Extraction: from two accepted proofs over the same commitments, disclosed
   * messages and indexes, with different challenges, e, A and the hidden scalars
   * are computed such that (A, e) passes the signature test on the full message
   * vector, unless the r1 or r3 computed is zero. The octets of (A, e) parse as a signature exactly
   * when e is not 0. The indexes are any list the verifier lets through: the
   * vector holds at each of them the sum of the messages listed there, so it
   * agrees with every disclosed message when no index is listed twice.
   */
  lemma Extraction<G1(!new), G2(!new), GT(!new)>(
      S: Suite<G1, G2, GT>, pk: Octets, o1: Octets, o2: Octets, header: Octets, ph1: Octets, ph2: Octets,
      disclosed: seq<Octets>, idx: seq<nat>)
    requires S.Valid() && AcceptedTwice(S, pk, o1, o2, header, ph1, ph2, disclosed, idx)
    requires ExtractR1(S, OctetsToProof(S, o1).value, OctetsToProof(S, o2).value) != 0
    requires ExtractR3(S, OctetsToProof(S, o1).value, OctetsToProof(S, o2).value) != 0
    ensures var p, q := OctetsToProof(S, o1).value, OctetsToProof(S, o2).value;
      var full := ExtractVector(S, p, q, MessageScalars(S, disclosed), idx);
      && |full| == |idx| + |p.commitments| && |p.commitments| == |q.commitments|
      && StandsFor(full, idx, MessageScalars(S, disclosed), ExtractHidden(S, p, q))
      && (Distinct(idx) ==> Gather(full, idx) == MessageScalars(S, disclosed))
      && IsSignatureOn(S, pk, header, full, ExtractPoint(S, p, q), ExtractE(S, p, q))
  {
    hide ProofVerify, OctetsToProof, OctetsToKey, Domain, BValue, ExtractVector, StandsFor, PairingCheck, IsSignatureOn,
         ProofPairing, Rewound, WellFormed, Extract, ExtractR1, ExtractR3, ExtractHidden, Complement, MessageScalars,
         ExtractPoint, IsPairing, AcceptedTwice, Distinct;
    hide Recompute, DisclosedB, HiddenPoints, Gather, Reopened;
    AcceptedTwiceRewinds(S, pk, o1, o2, header, ph1, ph2, disclosed, idx);
    var p, q := OctetsToProof(S, o1).value, OctetsToProof(S, o2).value;
    var ds := MessageScalars(S, disclosed);
    ParsedPoint(S, p);
    var full := ExtractVector(S, p, q, ds, idx);
    ExtractionCore(S, OctetsToKey(S, pk).value, p, q, Domain(S, pk, |full|, header), ds, idx);
    ExtractVectorEntries(S, p, q, ds, idx);
    SignatureParses(S, pk, header, full, ExtractPoint(S, p, q), ExtractE(S, p, q));
  }

  /** (A, e) passes the signature test on the scalars, and its octets parse as a signature exactly when e is not 0. */
  ghost predicate IsSignatureOn<G1(!new), G2(!new), GT(!new)>(
      S: Suite<G1, G2, GT>, pk: Octets, header: Octets, full: seq<int>, a: G1, e: int)
  {
    && a != S.Zero() && 0 <= e < S.r && OctetsToKey(S, pk).Some?
    && PairingCheck(S, OctetsToKey(S, pk).value, a, e, BValue(S, Domain(S, pk, |full|, header), full))
    && OctetsToSignature(S, S.encode1(a) + ScalarField(e)) == if e != 0 then Some(Signature(a, e)) else None
  }

  lemma ExtractVectorEntries<G1(!new), G2(!new), GT(!new)>(
      S: Suite<G1, G2, GT>, p: Proof<G1>, q: Proof<G1>, ds: seq<nat>, idx: seq<nat>)
    requires |p.commitments| == |q.commitments| && |ds| == |idx| && InRange(idx, |idx| + |p.commitments|)
    ensures StandsFor(ExtractVector(S, p, q, ds, idx), idx, ds, ExtractHidden(S, p, q))
    ensures Distinct(idx) ==> Gather(ExtractVector(S, p, q, ds, idx), idx) == ds
  {
    hide FullVector, StandsFor, Complement, Extract, Distinct;
    var n, hs := |idx| + |p.commitments|, ExtractHidden(S, p, q);
    ComplementSize(idx, n);
    FullVectorEntries(n, idx, ds, hs);
    if Distinct(idx) {
      DistinctListing(FullVector(n, idx, ds, hs), idx, ds, hs);
    }
  }

  lemma SignatureParses<G1(!new), G2(!new), GT(!new)>(
      S: Suite<G1, G2, GT>, pk: Octets, header: Octets, full: seq<int>, a: G1, e: nat)
    requires S.Valid() && a != S.Zero() && e < S.r && OctetsToKey(S, pk).Some?
    requires PairingCheck(S, OctetsToKey(S, pk).value, a, e, BValue(S, Domain(S, pk, |full|, header), full))
    ensures IsSignatureOn(S, pk, header, full, a, e)
  {
    hide PairingCheck, BValue, Domain, OctetsToKey;
    if e != 0 {
      SignatureRoundTrip(S, a, e);
    } else {
      ZeroScalarRejected(S, a);
    }
  }

  lemma ParsedPoint<G1(!new), G2(!new), GT(!new)>(S: Suite<G1, G2, GT>, p: Proof<G1>)
    ensures WellFormed(S, p) ==> p.abar != S.Zero()
  {}

  /** Extraction for parsed proofs and any domain. */
  lemma ExtractionCore<G1(!new), G2(!new), GT(!new)>(
      S: Suite<G1, G2, GT>, w: G2, p: Proof<G1>, q: Proof<G1>, domain: nat, ds: seq<nat>, idx: seq<nat>)
    requires S.Valid() && RewoundOver(S, p, q, domain, ds, idx)
    requires p.abar != S.Zero() && ProofPairing(S, w, p)
    requires ExtractR1(S, p, q) != 0 && ExtractR3(S, p, q) != 0
    ensures var a := ExtractPoint(S, p, q);
      a != S.Zero() && PairingCheck(S, w, a, ExtractE(S, p, q), BValue(S, domain, ExtractVector(S, p, q, ds, idx)))
  {
    hide DisclosedB, HiddenPoints, BValue, Complement, PairingCheck, FullVector, Inverse, Extract, IsPairing, Sum;
    ExtractedRelations(S, p, q, domain, ds, idx);
    ExtractedSignature(S, w, p, ExtractE(S, p, q), ExtractR1(S, p, q), ExtractR3(S, p, q),
                       BValue(S, domain, ExtractVector(S, p, q, ds, idx)));
  }

  /**
   * The two exceptions of extraction are themselves breaks: with r3 = 0 the
   * extracted vector has B = identity, a relation among the generators; with
   * r1 = 0 the extracted e is the negated secret key.
   */
  lemma ExtractionExceptions<G1(!new), G2(!new), GT(!new)>(
      S: Suite<G1, G2, GT>, sk: nat, p: Proof<G1>, q: Proof<G1>, domain: nat, ds: seq<nat>, idx: seq<nat>)
    requires S.Valid() && RewoundOver(S, p, q, domain, ds, idx)
    requires p.abar != S.Zero() && ProofPairing(S, S.PublicPoint(sk), p)
    ensures ExtractR3(S, p, q) == 0 ==> BValue(S, domain, ExtractVector(S, p, q, ds, idx)) == S.Zero()
    ensures ExtractR1(S, p, q) == 0 ==> (sk + ExtractE(S, p, q)) % S.r == 0
  {
    hide DisclosedB, HiddenPoints, BValue, Complement, Gather, InRange, Distinct, FullVector;
    ExtractedRelations(S, p, q, domain, ds, idx);
    MulZero(S.pairing.g1, S.r, 0, p.d);
    BbarFromPairing(S, sk, p);
    if ExtractR1(S, p, q) == 0 {
      OppositeScalars(S, sk, ExtractE(S, p, q), p);
    }
  }

  /** sk Abar = -e Abar forces sk + e = 0 mod r. */
  lemma OppositeScalars<G1(!new), G2(!new), GT(!new)>(S: Suite<G1, G2, GT>, sk: nat, e: int, p: Proof<G1>)
    requires S.Valid() && e >= 0 && p.abar != S.Zero()
    requires S.Mul(sk, p.abar) == Combine(S.pairing.g1, S.r, -e, p.abar, 0, p.d)
    ensures (sk + e) % S.r == 0
  {
    var g, r := S.pairing.g1, S.r;
    MulZero(g, r, 0, p.d);
    assert g.Unit(S.Mul(-e, p.abar));
    MulAdd(g, r, sk, e, p.abar);
    MulAdd(g, r, -e, e, p.abar);
    MulZero(g, r, 0, p.abar);
    if (sk + e) % r != 0 {
      MulInvertible(g, r, sk + e, p.abar);
    }
  }

  /** The pairing test of an accepted proof says Bbar = sk * Abar. */
  lemma BbarFromPairing<G1(!new), G2(!new), GT(!new)>(S: Suite<G1, G2, GT>, sk: nat, p: Proof<G1>)
    requires S.Valid() && ProofPairing(S, S.PublicPoint(sk), p)
    ensures p.bbar == S.Mul(sk, p.abar)
  {
    PairQuotient(S.pairing, S.r, S.pairing.e(S.PublicPoint(sk), p.abar), S.pairing.base, p.bbar);
    PairMul(S.pairing, S.r, sk, S.pairing.base, p.abar);
    PairInjective(S.pairing, S.r, p.bbar, S.Mul(sk, p.abar));
  }
}
