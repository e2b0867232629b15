// What allowed credential presentations prove: two of them that answer different
// challenges over the same commitments hold a signature of the registry key on
// the issuer, level, epoch and claim shown.
module CredentialSoundness {
  import opened Results
  import opened Schemas
  import opened Verifier
  import opened MessageVector
  import opened Credential
  import opened Sums
  import opened BbsAlgebra
  import Utf8
  import B = Bbs
  import E = BbsEncoding
  import P = BbsProtocol

  /** Positions [0, 1, 2, k] have no position twice exactly when k is past the metadata. */
  lemma ShapeDistinct(indexes: seq<int>)
    requires DisclosureShape(indexes) && AllNat(indexes)
    ensures Distinct(AsNats(indexes)) <==> indexes[3] > 2
  {
    var idx := AsNats(indexes);
    assert indexes[0] == indexes[..3][0] && indexes[1] == indexes[..3][1] && indexes[2] == indexes[..3][2];
    if indexes[3] <= 2 {
      assert !Differ(idx, indexes[3], 3);
    }
  }

  /** What a vector holds when these four scalars are listed at 0, 1, 2 and k. */
  lemma FourListed(idx: seq<nat>, ds: seq<int>)
    requires |idx| == |ds| == 4 && idx[0] == 0 && idx[1] == 1 && idx[2] == 2
    ensures forall i :: 0 <= i < 3 && i != idx[3] ==> Total(idx, ds, i) == ds[i]
    ensures Total(idx, ds, idx[3]) == ds[3] + if idx[3] < 3 then ds[idx[3]] else 0
  {
    var i3, d3 := idx[..3], ds[..3];
    var i2, d2 := i3[..2], d3[..2];
    var i1, d1 := i2[..1], d2[..1];
    forall i: nat ensures Total(idx, ds, i) ==
      (if i == 0 then ds[0] else 0) + (if i == 1 then ds[1] else 0) + (if i == 2 then ds[2] else 0)
      + (if i == idx[3] then ds[3] else 0)
    {
      assert Total(i1[..0], d1[..0], i) == 0;
      assert Total(i1, d1, i) == if i == 0 then ds[0] else 0;
      assert Total(i2, d2, i) == Total(i1, d1, i) + if i == 1 then ds[1] else 0;
      assert Total(i3, d3, i) == Total(i2, d2, i) + if i == 2 then ds[2] else 0;
    }
  }

  // ---- Which presentations are allowed ----

  /** The honest transcript for the presentation's indexes, over a signature on n messages with hs hidden. */
  function HonestProof<G1(==, !new), G2(==, !new), GT(==, !new)>(
      w: Setting<G1, G2, GT>, sk: nat, p: VcPresentation, sig: B.Signature<G1>, n: nat, hs: seq<nat>,
      rnd: B.Randoms): B.Proof<G1>
    requires DisclosureShape(p.disclosedIndexes) && AllNat(p.disclosedIndexes)
    requires InRange(AsNats(p.disclosedIndexes), n)
    requires |rnd.mTildes| == |hs| <= |Complement(AsNats(p.disclosedIndexes), n)|
  {
    P.ProveOver(w.suite, w.suite.encode2(w.suite.PublicPoint(sk)), sig, VcHeader(),
      PresentationHeader(p.binding, w.iso), n, B.MessageScalars(w.suite, Rebuilt(p, p.assurance, p.epoch)),
      AsNats(p.disclosedIndexes), hs, rnd)
  }

  /** The wallet holds a signature on a vector that the four messages shown and some hidden scalars stand for. */
  ghost predicate Backs<G1(!new), G2(!new), GT(!new)>(
      w: Setting<G1, G2, GT>, sk: nat, p: VcPresentation, sig: B.Signature<G1>, n: nat, hs: seq<nat>)
  {
    && DisclosureShape(p.disclosedIndexes) && AllNat(p.disclosedIndexes)
    && P.Signed(w.suite, sk, sig, VcHeader(), n, Rebuilt(p, p.assurance, p.epoch), AsNats(p.disclosedIndexes), hs)
  }

  /**
   * The decision on an honest transcript over [0, 1, 2, k]: whatever k within
   * range, it is allowed exactly when none of its scalars is 0. So the shape
   * check does not keep an index of 0, 1 or 2 from standing in for a claim's.
   */
  lemma HonestAllowedExact<G1(!new), G2(!new), GT(!new)>(
      w: Setting<G1, G2, GT>, sk: nat, site: Site, p: VcPresentation, ch: Challenge, pending: map<string, Challenge>,
      key: IssuerKey, now: int, consumeNow: int, sig: B.Signature<G1>, n: nat, hs: seq<nat>, rnd: B.Randoms)
    requires w.suite.Valid() && w.decode(key.publicKey) == w.suite.encode2(w.suite.PublicPoint(sk))
    requires SiteReady(site, p, ch, pending, key, now, consumeNow)
    requires Backs(w, sk, p, sig, n, hs) && P.RandomsOk(w.suite, rnd, |hs|)
    requires p.proof == E.ProofToOctets(w.suite, HonestProof(w, sk, p, sig, n, hs, rnd))
    ensures VerifyVcAlone(site, p, Proven(w, key, p), now, consumeNow, pending).verdict.allow
       <==> E.ScalarsInRange(w.suite, E.ProofScalars(HonestProof(w, sk, p, sig, n, hs, rnd)))
  {
    hide P.ProofVerify, P.ProveOver, E.ProofToOctets, E.ScalarsInRange, PresentationHeader, Rebuilt, VcHeader, AsNats;
    hide Complement, VerifyVcAlone, B.MessageScalars, B.BValue, FullVector, P.RandomsOk;
    AllowedIffProven(site, p, ch, pending, key, now, consumeNow, Proven(w, key, p));
    P.AnyListVerifies(w.suite, sk, sig, VcHeader(), PresentationHeader(p.binding, w.iso), n,
      Rebuilt(p, p.assurance, p.epoch), AsNats(p.disclosedIndexes), hs, rnd);
  }

  // ---- What an allowed presentation proves ----

  function ScalarOf<G1(==, !new), G2(==, !new), GT(==, !new)>(w: Setting<G1, G2, GT>, text: string): nat
  {
    w.suite.HashToScalar(Utf8.Encode(text), B.MapTag)
  }

  /** The scalars of the messages the verifier rebuilds. */
  function ShownScalars<G1(==, !new), G2(==, !new), GT(==, !new)>(
      w: Setting<G1, G2, GT>, p: VcPresentation, key: IssuerKey): (r: seq<nat>)
    requires key.assurance.Some? && key.epoch.Some?
    ensures |r| == 4
  {
    [ScalarOf(w, p.issuerId), ScalarOf(w, LevelValue(key.assurance.value)), ScalarOf(w, key.epoch.value),
     ScalarOf(w, ClaimValue(p.requiredClaim))]
  }

  lemma RebuiltScalars<G1(!new), G2(!new), GT(!new)>(w: Setting<G1, G2, GT>, p: VcPresentation, key: IssuerKey)
    requires key.assurance.Some? && key.epoch.Some?
    ensures B.MessageScalars(w.suite, Rebuilt(p, key.assurance.value, key.epoch.value)) == ShownScalars(w, p, key)
  {
    hide Utf8.Encode, LevelValue, ClaimValue;
    var ms := B.MessageScalars(w.suite, Rebuilt(p, key.assurance.value, key.epoch.value));
    assert |ms| == 4;
  }

  /** A vector with issuer, level and epoch at 0, 1, 2 and the claim at k, or their sum where k is one of these. */
  predicate HoldsShown(full: seq<int>, k: int, shown: seq<int>)
    requires |shown| == 4 && |full| >= 4 && 0 <= k < |full|
  {
    && (forall i :: 0 <= i < 3 && i != k ==> full[i] == shown[i])
    && full[k] == shown[3] + if k < 3 then shown[k] else 0
  }

  /** An allowed call, with what the verifier took from it. */
  ghost predicate AllowedCall<G1(!new), G2(!new), GT(!new)>(
      w: Setting<G1, G2, GT>, site: Site, p: VcPresentation, key: IssuerKey)
  {
    && VcKey(site, p) == Some(key)
    && exists now, consumeNow, pending ::
         VerifyVcAlone(site, p, Proven(w, key, p), now, consumeNow, pending).verdict.allow
  }

  lemma AllowedFacts<G1(!new), G2(!new), GT(!new)>(
      w: Setting<G1, G2, GT>, site: Site, p: VcPresentation, key: IssuerKey)
    requires AllowedCall(w, site, p, key)
    ensures Proven(w, key, p) && DisclosureShape(p.disclosedIndexes) && |p.disclosedIndexes| == 4
  {
    hide Proven, VerifyVcAlone, VcKey;
    var now, consumeNow, pending :|
      VerifyVcAlone(site, p, Proven(w, key, p), now, consumeNow, pending).verdict.allow;
    VcAllowExact(site, p, Proven(w, key, p), now, consumeNow, pending);
  }

  /** Both presentations show one claim under one key at the same positions, and reopen one transcript. */
  ghost predicate SameShowing<G1(!new), G2(!new), GT(!new)>(
      w: Setting<G1, G2, GT>, p: VcPresentation, q: VcPresentation, key: IssuerKey)
  {
    && p.issuerId == q.issuerId && p.requiredClaim == q.requiredClaim && p.disclosedIndexes == q.disclosedIndexes
    && key.assurance.Some? && key.epoch.Some? && AllNat(p.disclosedIndexes)
    && P.Reopened(w.suite, w.decode(key.publicKey), p.proof, q.proof, VcHeader(),
                  Rebuilt(p, key.assurance.value, key.epoch.value), AsNats(p.disclosedIndexes))
    && var x, y := E.OctetsToProof(w.suite, p.proof).value, E.OctetsToProof(w.suite, q.proof).value;
    && ExtractR1(w.suite, x, y) != 0 && ExtractR3(w.suite, x, y) != 0
  }

  /** What is computed from two proofs: a point, a scalar and a vector. */
  datatype Computed<G1> = Computed(a: G1, e: int, full: seq<int>)

  /** The extractor, a function of the two presentations. */
  ghost function ExtractedFrom<G1(!new), G2(!new), GT(!new)>(
      w: Setting<G1, G2, GT>, p: VcPresentation, q: VcPresentation, key: IssuerKey): Computed<G1>
    requires SameShowing(w, p, q, key)
  {
    var x, y := E.OctetsToProof(w.suite, p.proof).value, E.OctetsToProof(w.suite, q.proof).value;
    var ds := B.MessageScalars(w.suite, Rebuilt(p, key.assurance.value, key.epoch.value));
    Computed(ExtractPoint(w.suite, x, y), ExtractE(w.suite, x, y),
             P.ExtractVector(w.suite, x, y, ds, AsNats(p.disclosedIndexes)))
  }

  /** What is computed passes the signature test of the key, on a vector that holds what was shown. */
  ghost predicate SignsShown<G1(!new), G2(!new), GT(!new)>(
      w: Setting<G1, G2, GT>, p: VcPresentation, key: IssuerKey, x: Computed<G1>)
    requires key.assurance.Some? && key.epoch.Some?
  {
    && P.IsSignatureOn(w.suite, w.decode(key.publicKey), VcHeader(), x.full, x.a, x.e)
    && DisclosureShape(p.disclosedIndexes) && |x.full| >= 4 && 0 <= p.disclosedIndexes[3] < |x.full|
    && HoldsShown(x.full, p.disclosedIndexes[3], ShownScalars(w, p, key))
  }

  /**
   * From two allowed presentations that reopen one transcript a pair (A, e) and a
   * full message vector are computed that pass the signature test of the registry
   * key. When the disclosed claim sits past the metadata, the vector holds issuer,
   * level and epoch at 0, 1, 2 and the claim at its index; the verifier also lets
   * through an index 0, 1 or 2, and there the vector holds the sum of the two.
   */
  lemma AllowedExtracts<G1(!new), G2(!new), GT(!new)>(
      w: Setting<G1, G2, GT>, site: Site, p: VcPresentation, q: VcPresentation, key: IssuerKey)
    requires w.suite.Valid() && AllowedCall(w, site, p, key) && AllowedCall(w, site, q, key)
    requires SameShowing(w, p, q, key)
    ensures key.assurance.Some? && key.epoch.Some? && SignsShown(w, p, key, ExtractedFrom(w, p, q, key))
  {
    hide *;
    AllowedFacts(w, site, p, key);
    AllowedFacts(w, site, q, key);
    ProvenExtracts(w, p, q, key);
  }

  /** The same for any two proofs that verify. */
  lemma ProvenExtracts<G1(!new), G2(!new), GT(!new)>(
      w: Setting<G1, G2, GT>, p: VcPresentation, q: VcPresentation, key: IssuerKey)
    requires w.suite.Valid() && Proven(w, key, p) && Proven(w, key, q) && DisclosureShape(p.disclosedIndexes)
    requires SameShowing(w, p, q, key)
    ensures key.assurance.Some? && key.epoch.Some? && SignsShown(w, p, key, ExtractedFrom(w, p, q, key))
  {
    hide *;
    ShapeHasFour(p.disclosedIndexes);
    AcceptedBoth(w, p, q, key);
    Extracted(w, p, q, key);
    RebuiltScalars(w, p, key);
    var x := ExtractedFrom(w, p, q, key);
    var hs := ExtractHidden(w.suite, E.OctetsToProof(w.suite, p.proof).value,
                            E.OctetsToProof(w.suite, q.proof).value);
    Entries(p.disclosedIndexes, x.full, ShownScalars(w, p, key), hs);
    SignsUnfolds(w, p, key, x);
  }

  lemma ShapeHasFour(indexes: seq<int>)
    ensures DisclosureShape(indexes) ==> |indexes| == 4
  {}

  lemma SignsUnfolds<G1(!new), G2(!new), GT(!new)>(
      w: Setting<G1, G2, GT>, p: VcPresentation, key: IssuerKey, x: Computed<G1>)
    requires key.assurance.Some? && key.epoch.Some?
    requires P.IsSignatureOn(w.suite, w.decode(key.publicKey), VcHeader(), x.full, x.a, x.e)
    requires DisclosureShape(p.disclosedIndexes) && |p.disclosedIndexes| == 4
    requires |x.full| >= 4 && 0 <= p.disclosedIndexes[3] < |x.full|
    requires HoldsShown(x.full, p.disclosedIndexes[3], ShownScalars(w, p, key))
    ensures SignsShown(w, p, key, x)
  {
    hide P.IsSignatureOn, HoldsShown, ShownScalars;
  }

  lemma AcceptedBoth<G1(!new), G2(!new), GT(!new)>(
      w: Setting<G1, G2, GT>, p: VcPresentation, q: VcPresentation, key: IssuerKey)
    requires Proven(w, key, p) && Proven(w, key, q) && SameShowing(w, p, q, key)
    ensures key.assurance.Some? && key.epoch.Some? && AllNat(p.disclosedIndexes)
    ensures P.AcceptedTwice(w.suite, w.decode(key.publicKey), p.proof, q.proof, VcHeader(),
      PresentationHeader(p.binding, w.iso), PresentationHeader(q.binding, w.iso),
      Rebuilt(p, key.assurance.value, key.epoch.value), AsNats(p.disclosedIndexes))
    ensures var x, y := E.OctetsToProof(w.suite, p.proof), E.OctetsToProof(w.suite, q.proof);
      x.Some? && y.Some? && ExtractR1(w.suite, x.value, y.value) != 0 && ExtractR3(w.suite, x.value, y.value) != 0
  {
    hide P.ProofVerify, B.Recompute, E.OctetsToProof, PresentationHeader, ExtractR1, ExtractR3;
    hide AsNats, B.MessageScalars;
    RebuiltIgnoresProof(p, q, key.assurance.value, key.epoch.value);
    hide Rebuilt;
  }

  lemma Extracted<G1(!new), G2(!new), GT(!new)>(
      w: Setting<G1, G2, GT>, p: VcPresentation, q: VcPresentation, key: IssuerKey)
    requires w.suite.Valid() && SameShowing(w, p, q, key)
    requires key.assurance.Some? && key.epoch.Some? && AllNat(p.disclosedIndexes)
    requires P.AcceptedTwice(w.suite, w.decode(key.publicKey), p.proof, q.proof, VcHeader(),
      PresentationHeader(p.binding, w.iso), PresentationHeader(q.binding, w.iso),
      Rebuilt(p, key.assurance.value, key.epoch.value), AsNats(p.disclosedIndexes))
    requires var x, y := E.OctetsToProof(w.suite, p.proof), E.OctetsToProof(w.suite, q.proof);
      x.Some? && y.Some? && ExtractR1(w.suite, x.value, y.value) != 0 && ExtractR3(w.suite, x.value, y.value) != 0
    ensures var x, y := E.OctetsToProof(w.suite, p.proof).value, E.OctetsToProof(w.suite, q.proof).value;
      var ds := B.MessageScalars(w.suite, Rebuilt(p, key.assurance.value, key.epoch.value));
      var out := ExtractedFrom(w, p, q, key);
      && P.IsSignatureOn(w.suite, w.decode(key.publicKey), VcHeader(), out.full, out.a, out.e)
      && |x.commitments| == |y.commitments| && |out.full| >= |p.disclosedIndexes|
      && StandsFor(out.full, AsNats(p.disclosedIndexes), ds, ExtractHidden(w.suite, x, y))
  {
    hide P.AcceptedTwice, P.IsSignatureOn, StandsFor, E.OctetsToProof, ExtractR1, ExtractR3, Extract, ExtractPoint;
    hide PresentationHeader, Rebuilt, AsNats, B.MessageScalars, P.ExtractVector, VcHeader, B.Recompute;
    P.Extraction(w.suite, w.decode(key.publicKey), p.proof, q.proof, VcHeader(),
      PresentationHeader(p.binding, w.iso), PresentationHeader(q.binding, w.iso),
      Rebuilt(p, key.assurance.value, key.epoch.value), AsNats(p.disclosedIndexes));
  }

  lemma Entries(indexes: seq<int>, full: seq<int>, ds: seq<int>, hs: seq<int>)
    requires DisclosureShape(indexes) && AllNat(indexes) && |ds| == 4 && |full| >= 4
    requires StandsFor(full, AsNats(indexes), ds, hs)
    ensures 0 <= indexes[3] < |full|
    ensures HoldsShown(full, indexes[3], ds)
  {
    hide Complement, Total;
    var idx := AsNats(indexes);
    assert indexes[0] == indexes[..3][0] && indexes[1] == indexes[..3][1] && indexes[2] == indexes[..3][2];
    assert idx[0] == 0 && idx[1] == 1 && idx[2] == 2 && idx[3] == indexes[3];
    FourListed(idx, ds);
    assert full[idx[0]] == Total(idx, ds, 0) && full[idx[1]] == Total(idx, ds, 1) && full[idx[2]] == Total(idx, ds, 2);
    assert full[idx[3]] == Total(idx, ds, idx[3]);
  }
}
