// The operations of blindage/crypto/bbs.py as the source runs them: loops that
// grow accumulators, octet strings and lists, each proved equal to the
// operation it implements.
module BbsLoops {
  import opened Arithmetic
  import opened Octets
  import opened Results
  import opened Sums
  import opened Bbs
  import opened BbsEncoding
  import opened BbsProtocol

  /** Adds every weighted point to the accumulator, in order. */
  method AddProducts<G1(==, !new), G2(==, !new), GT(==, !new)>(
      S: Suite<G1, G2, GT>, start: G1, points: seq<G1>, scalars: seq<nat>) returns (acc: G1)
    requires |points| == |scalars|
    ensures acc == Accumulate(S.pairing.g1, S.r, start, points, scalars)
  {
    acc := start;
    var i := 0;
    while i < |points|
      invariant i <= |points|
      invariant acc == Accumulate(S.pairing.g1, S.r, start, points[..i], scalars[..i])
    {
      assert points[..i + 1][..i] == points[..i] && scalars[..i + 1][..i] == scalars[..i];
      acc := S.Add(acc, S.Mul(scalars[i], points[i]));
      i := i + 1;
    }
    assert points[..i] == points && scalars[..i] == scalars;
  }

  /** The first generator, and the others. */
  method Generators<G1(==, !new), G2(==, !new), GT(==, !new)>(S: Suite<G1, G2, GT>, n: nat)
    returns (q1: G1, hs: seq<G1>)
    ensures q1 == Q1(S) && hs == HPoints(S, n)
  {
    var generators := CreateGenerators(S, n + 1);
    q1, hs := generators[0], generators[1..];
  }

  method CalculateDomain<G1(==, !new), G2(==, !new), GT(==, !new)>(
      S: Suite<G1, G2, GT>, pk: Octets, q1: G1, hs: seq<G1>, header: Octets) returns (d: nat)
    ensures d == S.HashToScalar(DomainOctets(S, pk, q1, hs, header), ScalarTag)
  {
    var octets := Index(|hs|) + S.encode1(q1);
    var i := 0;
    while i < |hs|
      invariant i <= |hs|
      invariant octets == Index(|hs|) + S.encode1(q1) + PointFields(S, hs[..i])
    {
      assert hs[..i + 1][..i] == hs[..i];
      octets := octets + S.encode1(hs[i]);
      i := i + 1;
    }
    assert hs[..i] == hs;
    octets := octets + S.apiId;
    d := S.HashToScalar(pk + octets + Index(|header|) + header, ScalarTag);
  }

  method BValueLoop<G1(==, !new), G2(==, !new), GT(==, !new)>(
      S: Suite<G1, G2, GT>, domain: nat, q1: G1, hs: seq<G1>, ms: seq<nat>) returns (b: G1)
    requires |hs| == |ms|
    ensures b == Accumulate(S.pairing.g1, S.r, S.Add(S.p1, S.Mul(domain, q1)), hs, ms)
  {
    b := AddProducts(S, S.Add(S.p1, S.Mul(domain, q1)), hs, ms);
  }

  method SignatureScalarLoop<G1(==, !new), G2(==, !new), GT(==, !new)>(
      S: Suite<G1, G2, GT>, sk: nat, ms: seq<nat>, domain: nat) returns (e: nat)
    ensures e == SignatureScalar(S, sk, ms, domain)
  {
    var input := ScalarField(sk);
    var i := 0;
    while i < |ms|
      invariant i <= |ms|
      invariant input == ScalarField(sk) + Fields(ms[..i])
    {
      assert ms[..i + 1][..i] == ms[..i];
      input := input + ScalarField(ms[i]);
      i := i + 1;
    }
    assert ms[..i] == ms;
    input := input + ScalarField(domain);
    e := S.HashToScalar(input, ScalarTag);
  }

  /** bbs_sign */
  method BbsSign<G1(==, !new), G2(==, !new), GT(==, !new)>(
      S: Suite<G1, G2, GT>, sk: nat, header: Octets, messages: seq<Octets>) returns (r: Result<Octets, Failure>)
    ensures r == Sign(S, sk, header, messages)
  {
    hide DomainOctets, SignatureScalar, Accumulate;
    if sk == 0 || sk >= S.r {
      return Err(BbsError);
    }
    var pk := S.encode2(S.PublicPoint(sk));
    var ms := MessageScalars(S, messages);
    var q1, hs := Generators(S, |ms|);
    var domain := CalculateDomain(S, pk, q1, hs, header);
    var e := SignatureScalarLoop(S, sk, ms, domain);
    var b := BValueLoop(S, domain, q1, hs, ms);
    if Gcd((sk + e) % S.r, S.r) != 1 {
      return Err(ValueError);
    }
    var a := S.Mul(ModInv((sk + e) % S.r, S.r), b);
    if a == S.Zero() {
      return Err(BbsError);
    }
    return Ok(S.encode1(a) + ScalarField(e));
  }

  method ChallengeLoop<G1(==, !new), G2(==, !new), GT(==, !new)>(
      S: Suite<G1, G2, GT>, t: Transcript<G1>, ms: seq<nat>, idx: seq<nat>, ph: Octets) returns (c: nat)
    requires |idx| == |ms|
    ensures c == ChallengeFor(S, t, ms, idx, ph)
  {
    hide Index, ScalarField;
    var octets := Index(|idx|);
    var i := 0;
    while i < |idx|
      invariant i <= |idx|
      invariant octets == Index(|idx|) + Pairs(idx[..i], ms[..i])
    {
      assert idx[..i + 1][..i] == idx[..i] && ms[..i + 1][..i] == ms[..i];
      octets := octets + (Index(idx[i]) + ScalarField(ms[i]));
      i := i + 1;
    }
    assert idx[..i] == idx && ms[..i] == ms;
    hide Pairs;
    octets := octets
      + (S.encode1(t.abar) + S.encode1(t.bbar) + S.encode1(t.d)
         + S.encode1(t.t1) + S.encode1(t.t2) + ScalarField(t.domain));
    octets := octets + (Index(|ph|) + ph);
    c := S.HashToScalar(octets, ScalarTag);
  }

  /** The index loop of bbs_proof_gen. */
  method CheckIndexes(idx: seq<nat>, n: nat) returns (ok: bool)
    ensures ok <==> IndexesOk(idx, n)
  {
    if |idx| > n {
      return false;
    }
    var prev: int := -1;
    var i := 0;
    while i < |idx|
      invariant i <= |idx|
      invariant prev == if i == 0 then -1 else idx[i - 1]
      invariant forall a :: 0 <= a < i ==> idx[a] < n
      invariant forall a, b :: 0 <= a < b < i ==> idx[a] < idx[b]
    {
      if idx[i] > n - 1 {
        return false;
      }
      if idx[i] <= prev {
        return false;
      }
      prev := idx[i];
      i := i + 1;
    }
    return true;
  }

  /** Collects, in ascending order, the indexes below n that are not disclosed. */
  method Undisclosed(idx: seq<nat>, n: nat) returns (u: seq<nat>)
    ensures u == Complement(idx, n)
  {
    u := [];
    var i := 0;
    while i < n
      invariant i <= n && u == Complement(idx, i)
    {
      if i !in idx {
        u := u + [i];
      }
      i := i + 1;
    }
  }

  /** bbs_proof_gen */
  method BbsProofGen<G1(==, !new), G2(==, !new), GT(==, !new)>(
      S: Suite<G1, G2, GT>, pk: Octets, signature: Octets, header: Octets, ph: Octets, messages: seq<Octets>,
      idx: seq<nat>, rnd: Randoms) returns (r: Result<Octets, Failure>)
    requires IsDrawn(S, rnd, idx, |messages|)
    ensures r == ProofGen(S, pk, signature, header, ph, messages, idx, rnd)
  {
    hide DomainOctets, Accumulate, OctetsToKey, OctetsToSignature, Complement, IndexesOk, ChallengeFor, Respond,
        ProofToOctets;
    if OctetsToKey(S, pk).None? {
      return Err(BbsError);
    }
    var sig := OctetsToSignature(S, signature);
    if sig.None? {
      return Err(BbsError);
    }
    var ok := CheckIndexes(idx, |messages|);
    if !ok {
      return Err(BbsError);
    }
    IndexesInside(idx, |messages|);
    var ms := MessageScalars(S, messages);
    var u := Undisclosed(idx, |ms|);
    var t := ProofInit(S, pk, sig.value, header, ms, idx, u, rnd);
    var c := ChallengeLoop(S, t, Gather<nat>(ms, idx), idx, ph);
    var p := Respond(S, t, sig.value.e, rnd, Gather<nat>(ms, u), c);
    var out := ProofToOctetsLoop(S, p);
    return Ok(out);
  }

  lemma IndexesInside(idx: seq<nat>, n: nat)
    requires IndexesOk(idx, n)
    ensures InRange(idx, n)
  {}

  /** The points and commitments of ProofInit. */
  method ProofInit<G1(==, !new), G2(==, !new), GT(==, !new)>(
      S: Suite<G1, G2, GT>, pk: Octets, sig: Signature<G1>, header: Octets, ms: seq<nat>, idx: seq<nat>, u: seq<nat>,
      rnd: Randoms) returns (t: Transcript<G1>)
    requires InRange(idx, |ms|) && u == Complement(idx, |ms|) && |rnd.mTildes| == |u|
    ensures t == Commit(S, pk, sig, header, ms, idx, rnd)
  {
    hide DomainOctets, Accumulate, Complement;
    var q1, hs := Generators(S, |ms|);
    var domain := CalculateDomain(S, pk, q1, hs, header);
    var b := BValueLoop(S, domain, q1, hs, ms);
    var d := S.Mul(rnd.r2, b);
    var abar := S.Mul((rnd.r1 * rnd.r2) % S.r, sig.a);
    var bbar := S.Add(S.Mul(rnd.r1, d), S.Neg(S.Mul(sig.e, abar)));
    var t1 := S.Add(S.Mul(rnd.eTilde, abar), S.Mul(rnd.r1Tilde, d));
    var t2 := AddProducts(S, S.Mul(rnd.r3Tilde, d), Gather(hs, u), rnd.mTildes);
    return Transcript(abar, bbar, d, t1, t2, domain);
  }

  /** bbs_proof_verify */
  method BbsProofVerify<G1(==, !new), G2(==, !new), GT(==, !new)>(
      S: Suite<G1, G2, GT>, pk: Octets, proof: Octets, header: Octets, ph: Octets, disclosed: seq<Octets>,
      idx: seq<nat>) returns (r: Result<bool, Failure>)
    ensures r == ProofVerify(S, pk, proof, header, ph, disclosed, idx)
  {
    hide OctetsToKey, OctetsToProof, ChallengeFor, ProofPairing, Recompute;
    var key := OctetsToKey(S, pk);
    if key.None? {
      return Err(BbsError);
    }
    var parsed := OctetsToProofLoop(S, proof);
    if parsed.None? {
      return Ok(false);
    }
    var p := parsed.value;
    var n := |idx| + |p.commitments|;
    var i := 0;
    while i < |idx|
      invariant i <= |idx| && forall a :: 0 <= a < i ==> idx[a] < n
    {
      if idx[i] > n - 1 {
        return Ok(false);
      }
      i := i + 1;
    }
    if |disclosed| != |idx| {
      return Ok(false);
    }
    var ms := MessageScalars(S, disclosed);
    var t := Rebuild(S, pk, p, header, n, ms, idx);
    var expected := ChallengeLoop(S, t, ms, idx, ph);
    if expected != p.challenge {
      return Ok(false);
    }
    return Ok(ProofPairing(S, key.value, p));
  }

  /** ProofVerifyInit */
  method Rebuild<G1(==, !new), G2(==, !new), GT(==, !new)>(
      S: Suite<G1, G2, GT>, pk: Octets, p: Proof<G1>, header: Octets, n: nat, ms: seq<nat>, idx: seq<nat>)
    returns (t: Transcript<G1>)
    requires InRange(idx, n) && |ms| == |idx|
    ensures t == Recompute(S, pk, p, header, n, ms, idx)
  {
    hide DomainOctets, Accumulate, Complement;
    var u := Undisclosed(idx, n);
    var q1, hs := Generators(S, n);
    var domain := CalculateDomain(S, pk, q1, hs, header);
    var t1 := S.Add(S.Add(S.Mul(p.challenge, p.bbar), S.Mul(p.eHat, p.abar)), S.Mul(p.r1Hat, p.d));
    var bv := AddProducts(S, S.Add(S.p1, S.Mul(domain, q1)), Gather(hs, idx), ms);
    var hidden := Gather(hs, u);
    var k := if |hidden| < |p.commitments| then |hidden| else |p.commitments|;
    var t2 := AddProducts(S, S.Add(S.Mul(p.challenge, bv), S.Mul(p.r3Hat, p.d)), hidden[..k], p.commitments[..k]);
    return Transcript(p.abar, p.bbar, p.d, t1, t2, domain);
  }
}
