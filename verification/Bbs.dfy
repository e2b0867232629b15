// BBS signatures and selective-disclosure proofs over BLS12-381-SHA-256
// (draft-irtf-cfrg-bbs-signatures), as in blindage/crypto/bbs.py. The curve,
// the pairing, the hashes and the point encodings are parameters of the suite.
module Bbs {
  import opened Arithmetic
  import opened Octets
  import opened Results
  import opened Groups
  import opened Sums

  const POINT_LEN: nat := 48
  const SCALAR_LEN: nat := 32
  const INDEX_LEN: nat := 8

  /** Domain-separation tags of the ciphersuite. */
  datatype Tag = ScalarTag | SeedTag | MapTag

  type Order = r: int | r > 1 witness 2

  datatype Suite<!G1(!new), !G2(!new), !GT(!new)> = Suite(
    r: Order,
    pairing: Pairing<G1, G2, GT>,
    p1: G1,
    apiId: Octets,
    generatorSeed: Octets,
    expand: (Octets, Tag) -> Octets,
    curveHash: Octets -> G1,
    encode1: G1 -> Octets,
    decode1: Octets -> Option<G1>,
    encode2: G2 -> Octets,
    decode2: Octets -> Option<G2>)
  {
    ghost predicate EncodesPoint(x: G1)
    {
      |encode1(x)| == POINT_LEN && decode1(encode1(x)) == Some(x)
    }

    ghost predicate EncodesKey(w: G2)
    {
      |encode2(w)| == 2 * POINT_LEN && decode2(encode2(w)) == Some(w)
    }

    /** The laws assumed of the curve, the pairing and the point encodings. */
    ghost predicate Valid()
    {
      && IsPairing(pairing, r)
      && r < Pow(256, SCALAR_LEN)
      && pairing.base != pairing.g2.zero
      && (forall x :: EncodesPoint(x))
      && (forall w :: EncodesKey(w))
    }

    function Add(x: G1, y: G1): G1 { pairing.g1.add(x, y) }

    function Mul(k: int, x: G1): G1 { pairing.g1.Mul(r, k, x) }

    function Neg(x: G1): G1 { pairing.g1.neg(x) }

    function Zero(): G1 { pairing.g1.zero }

    /** The public key point of a secret scalar. */
    function PublicPoint(sk: nat): G2 { pairing.g2.Mul(r, sk, pairing.base) }

    function HashToScalar(o: Octets, tag: Tag): (s: nat)
      ensures s < r
    {
      Os2ip(expand(o, tag)) % r
    }
  }

  /** The exceptions the module raises. */
  datatype Failure = BbsError | ValueError

  // ---- Octet fields ----

  /** A fixed-width field; values that do not fit are refused by the caller's range checks. */
  function Field(v: nat, len: nat): Octets
  {
    if v < Pow(256, len) then I2osp(v, len) else []
  }

  function Index(i: nat): Octets { Field(i, INDEX_LEN) }

  function ScalarField(v: nat): Octets { Field(v, SCALAR_LEN) }

  function Fields(vs: seq<nat>): Octets
  {
    if |vs| == 0 then [] else Fields(vs[..|vs| - 1]) + ScalarField(vs[|vs| - 1])
  }

  function PointFields<G1(==, !new), G2(==, !new), GT(==, !new)>(S: Suite<G1, G2, GT>, xs: seq<G1>): Octets
  {
    if |xs| == 0 then [] else PointFields(S, xs[..|xs| - 1]) + S.encode1(xs[|xs| - 1])
  }

  function OctetsToPoint<G1(==, !new), G2(==, !new), GT(==, !new)>(S: Suite<G1, G2, GT>, o: Octets): Option<G1>
  {
    if |o| != POINT_LEN then None else S.decode1(o)
  }

  function OctetsToKey<G1(==, !new), G2(==, !new), GT(==, !new)>(S: Suite<G1, G2, GT>, o: Octets): Option<G2>
  {
    if |o| != 2 * POINT_LEN then None
    else match S.decode2(o)
      case None => None
      case Some(w) => if w == S.pairing.g2.zero then None else Some(w)
  }

  // ---- Building blocks ----

  /** v after i steps of the generator loop. */
  function ChainValue<G1(==, !new), G2(==, !new), GT(==, !new)>(S: Suite<G1, G2, GT>, i: nat): Octets
  {
    if i == 0 then S.expand(S.generatorSeed, SeedTag)
    else S.expand(ChainValue(S, i - 1) + Index(i), SeedTag)
  }

  /** The i-th point the loop appends: Q_1 for i = 1, then H_1, H_2, ... */
  function Generator<G1(==, !new), G2(==, !new), GT(==, !new)>(S: Suite<G1, G2, GT>, i: nat): G1
  {
    S.curveHash(ChainValue(S, i))
  }

  lemma ChainStep<G1(!new), G2(!new), GT(!new)>(S: Suite<G1, G2, GT>, i: nat)
    ensures ChainValue(S, 0) == S.expand(S.generatorSeed, SeedTag)
    ensures i > 0 ==> ChainValue(S, i) == S.expand(ChainValue(S, i - 1) + Index(i), SeedTag)
    ensures Generator(S, i) == S.curveHash(ChainValue(S, i))
  {}

  /** The loop of _create_generators. */
  method CreateGenerators<G1(==, !new), G2(==, !new), GT(==, !new)>(S: Suite<G1, G2, GT>, count: nat)
    returns (generators: seq<G1>)
    ensures |generators| == count
    ensures forall i :: 0 <= i < count ==> generators[i] == Generator(S, i + 1)
  {
    hide ChainValue, Generator, Index;
    generators := [];
    var v := S.expand(S.generatorSeed, SeedTag);
    ChainStep(S, 0);
    for i := 1 to count + 1
      invariant |generators| == i - 1 && v == ChainValue(S, i - 1)
      invariant forall k :: 0 <= k < i - 1 ==> generators[k] == Generator(S, k + 1)
    {
      ChainStep(S, i);
      v := S.expand(v + Index(i), SeedTag);
      generators := generators + [S.curveHash(v)];
    }
  }

  function Q1<G1(==, !new), G2(==, !new), GT(==, !new)>(S: Suite<G1, G2, GT>): G1 { Generator(S, 1) }

  /** H_1, ..., H_n */
  function HPoints<G1(==, !new), G2(==, !new), GT(==, !new)>(S: Suite<G1, G2, GT>, n: nat): (hs: seq<G1>)
    ensures |hs| == n
  {
    seq(n, i requires 0 <= i < n => Generator(S, i + 2))
  }

  function MessageScalars<G1(==, !new), G2(==, !new), GT(==, !new)>(
      S: Suite<G1, G2, GT>, messages: seq<Octets>): (ms: seq<nat>)
    ensures |ms| == |messages| && forall i :: 0 <= i < |ms| ==> ms[i] == S.HashToScalar(messages[i], MapTag)
  {
    seq(|messages|, i requires 0 <= i < |messages| => S.HashToScalar(messages[i], MapTag))
  }

  function DomainOctets<G1(==, !new), G2(==, !new), GT(==, !new)>(
      S: Suite<G1, G2, GT>, pk: Octets, q1: G1, hs: seq<G1>, header: Octets): Octets
  {
    pk + (Index(|hs|) + S.encode1(q1) + PointFields(S, hs) + S.apiId) + Index(|header|) + header
  }

  function Domain<G1(==, !new), G2(==, !new), GT(==, !new)>(
      S: Suite<G1, G2, GT>, pk: Octets, n: nat, header: Octets): (d: nat)
    ensures d < S.r
  {
    S.HashToScalar(DomainOctets(S, pk, Q1(S), HPoints(S, n), header), ScalarTag)
  }

  /** P1 + domain * Q_1 */
  function BStart<G1(==, !new), G2(==, !new), GT(==, !new)>(S: Suite<G1, G2, GT>, domain: nat): G1
  {
    S.Add(S.p1, S.Mul(domain, Q1(S)))
  }

  /** B = P1 + domain * Q_1 + sum of m_i * H_i */
  function BValue<G1(==, !new), G2(==, !new), GT(==, !new)>(S: Suite<G1, G2, GT>, domain: nat, ms: seq<int>): G1
  {
    Accumulate(S.pairing.g1, S.r, BStart(S, domain), HPoints(S, |ms|), ms)
  }

  // ---- Signatures ----

  function SignatureScalar<G1(==, !new), G2(==, !new), GT(==, !new)>(
      S: Suite<G1, G2, GT>, sk: nat, ms: seq<nat>, domain: nat): (e: nat)
    ensures e < S.r
  {
    S.HashToScalar(ScalarField(sk) + Fields(ms) + ScalarField(domain), ScalarTag)
  }

  /** bbs_sign */
  function Sign<G1(==, !new), G2(==, !new), GT(==, !new)>(
      S: Suite<G1, G2, GT>, sk: nat, header: Octets, messages: seq<Octets>): Result<Octets, Failure>
  {
    if sk == 0 || sk >= S.r then Err(BbsError)
    else
      var pk := S.encode2(S.PublicPoint(sk));
      var ms := MessageScalars(S, messages);
      var domain := Domain(S, pk, |ms|, header);
      var e := SignatureScalar(S, sk, ms, domain);
      var b := BValue(S, domain, ms);
      if !Coprime((sk + e) % S.r, S.r) then Err(ValueError)
      else
        var a := S.Mul(ModInv((sk + e) % S.r, S.r), b);
        if a == S.Zero() then Err(BbsError)
        else Ok(S.encode1(a) + ScalarField(e))
  }

  datatype Signature<G1> = Signature(a: G1, e: nat)

  /** _octets_to_signature */
  function OctetsToSignature<G1(==, !new), G2(==, !new), GT(==, !new)>(
      S: Suite<G1, G2, GT>, o: Octets): Option<Signature<G1>>
  {
    if |o| != POINT_LEN + SCALAR_LEN then None
    else match OctetsToPoint(S, o[..POINT_LEN])
      case None => None
      case Some(a) =>
        var e := Os2ip(o[POINT_LEN..]);
        if a == S.Zero() || e == 0 || e >= S.r then None else Some(Signature(a, e))
  }

  /** e(A, W + e * P2) * e(B, -P2) is the identity of GT. */
  predicate PairingCheck<G1(==, !new), G2(==, !new), GT(==, !new)>(S: Suite<G1, G2, GT>, w: G2, a: G1, e: nat, b: G1)
  {
    var p := S.pairing;
    p.gt.add(p.e(p.g2.add(w, p.g2.Mul(S.r, e, p.base)), a), p.e(p.g2.neg(p.base), b)) == p.gt.zero
  }

  /** bbs_verify; only a malformed key raises. */
  function Verify<G1(==, !new), G2(==, !new), GT(==, !new)>(
      S: Suite<G1, G2, GT>, pk: Octets, signature: Octets, header: Octets, messages: seq<Octets>): Result<bool, Failure>
  {
    match OctetsToKey(S, pk)
    case None => Err(BbsError)
    case Some(w) =>
      match OctetsToSignature(S, signature)
      case None => Ok(false)
      case Some(sig) =>
        var ms := MessageScalars(S, messages);
        var b := BValue(S, Domain(S, pk, |ms|, header), ms);
        Ok(PairingCheck(S, w, sig.a, sig.e, b))
  }

  // ---- Proofs ----

  datatype Proof<G1> = Proof(
    abar: G1, bbar: G1, d: G1, eHat: nat, r1Hat: nat, r3Hat: nat, commitments: seq<nat>, challenge: nat)

  datatype Randoms = Randoms(r1: nat, r2: nat, eTilde: nat, r1Tilde: nat, r3Tilde: nat, mTildes: seq<nat>)

  function Pairs(idx: seq<nat>, ms: seq<nat>): Octets
    requires |idx| == |ms|
  {
    if |idx| == 0 then []
    else
      var n := |idx| - 1;
      Pairs(idx[..n], ms[..n]) + (Index(idx[n]) + ScalarField(ms[n]))
  }

  function ChallengeOctets<G1(==, !new), G2(==, !new), GT(==, !new)>(
      S: Suite<G1, G2, GT>, abar: G1, bbar: G1, d: G1, t1: G1, t2: G1, domain: nat, ms: seq<nat>, idx: seq<nat>,
      ph: Octets): Octets
    requires |idx| == |ms|
  {
    Index(|idx|) + Pairs(idx, ms)
    + (S.encode1(abar) + S.encode1(bbar) + S.encode1(d) + S.encode1(t1) + S.encode1(t2) + ScalarField(domain))
    + (Index(|ph|) + ph)
  }

  /** _proof_challenge_calculate */
  function Challenge<G1(==, !new), G2(==, !new), GT(==, !new)>(
      S: Suite<G1, G2, GT>, abar: G1, bbar: G1, d: G1, t1: G1, t2: G1, domain: nat, ms: seq<nat>, idx: seq<nat>,
      ph: Octets): (c: nat)
    requires |idx| == |ms|
    ensures c < S.r
  {
    S.HashToScalar(ChallengeOctets(S, abar, bbar, d, t1, t2, domain, ms, idx, ph), ScalarTag)
  }

  predicate StrictlyIncreasing(idx: seq<nat>)
  {
    forall i, j :: 0 <= i < j < |idx| ==> idx[i] < idx[j]
  }

  /** The prover's commitments: T1 and T2. */
  function CommitT1<G1(==, !new), G2(==, !new), GT(==, !new)>(S: Suite<G1, G2, GT>, abar: G1, d: G1, rnd: Randoms): G1
  {
    S.Add(S.Mul(rnd.eTilde, abar), S.Mul(rnd.r1Tilde, d))
  }

  function CommitT2<G1(==, !new), G2(==, !new), GT(==, !new)>(
      S: Suite<G1, G2, GT>, d: G1, hidden: seq<G1>, rnd: Randoms): G1
    requires |hidden| == |rnd.mTildes|
  {
    Accumulate(S.pairing.g1, S.r, S.Mul(rnd.r3Tilde, d), hidden, rnd.mTildes)
  }

  /** m~ + m * c mod r */
  function Response<G1(==, !new), G2(==, !new), GT(==, !new)>(S: Suite<G1, G2, GT>, tilde: nat, m: nat, c: nat): nat
  {
    MulNonNegative(m, c);
    (tilde + m * c) % S.r
  }

  function Responses<G1(==, !new), G2(==, !new), GT(==, !new)>(
      S: Suite<G1, G2, GT>, tildes: seq<nat>, ms: seq<nat>, c: nat): (hats: seq<nat>)
    requires |tildes| == |ms|
    ensures |hats| == |ms|
    ensures forall i :: 0 <= i < |ms| ==> hats[i] == Response(S, tildes[i], ms[i], c)
  {
    seq(|ms|, i requires 0 <= i < |ms| => Response(S, tildes[i], ms[i], c))
  }

  /** The points and the domain that the challenge hashes. */
  datatype Transcript<G1> = Transcript(abar: G1, bbar: G1, d: G1, t1: G1, t2: G1, domain: nat)

  /** ProofInit for a signature on the point b, with the points that stay hidden. */
  function CommitTo<G1(==, !new), G2(==, !new), GT(==, !new)>(
      S: Suite<G1, G2, GT>, domain: nat, sig: Signature<G1>, b: G1, hidden: seq<G1>, rnd: Randoms): Transcript<G1>
    requires |hidden| == |rnd.mTildes|
  {
    var d := S.Mul(rnd.r2, b);
    var abar := S.Mul((rnd.r1 * rnd.r2) % S.r, sig.a);
    var bbar := S.Add(S.Mul(rnd.r1, d), S.Neg(S.Mul(sig.e, abar)));
    Transcript(abar, bbar, d, CommitT1(S, abar, d, rnd), CommitT2(S, d, hidden, rnd), domain)
  }

  /** ProofInit for a parsed signature. */
  function Commit<G1(==, !new), G2(==, !new), GT(==, !new)>(
      S: Suite<G1, G2, GT>, pk: Octets, sig: Signature<G1>, header: Octets, ms: seq<nat>, idx: seq<nat>,
      rnd: Randoms): Transcript<G1>
    requires InRange(idx, |ms|) && |rnd.mTildes| == |Complement(idx, |ms|)|
  {
    var domain := Domain(S, pk, |ms|, header);
    CommitTo(S, domain, sig, BValue(S, domain, ms), HiddenPoints(S, |ms|, idx), rnd)
  }

  /** 1 / k mod r; as r is prime, only multiples of r have none. */
  function Inverse<G1(==, !new), G2(==, !new), GT(==, !new)>(S: Suite<G1, G2, GT>, k: nat): nat
  {
    if Coprime(k, S.r) then ModInv(k, S.r) else 0
  }

  /** ProofFinalize: the responses to challenge c. */
  function Respond<G1(==, !new), G2(==, !new), GT(==, !new)>(
      S: Suite<G1, G2, GT>, t: Transcript<G1>, e: nat, rnd: Randoms, hiddenMs: seq<nat>, c: nat): Proof<G1>
    requires |rnd.mTildes| == |hiddenMs|
  {
    var r3 := Inverse(S, rnd.r2);
    Proof(t.abar, t.bbar, t.d,
      Response(S, rnd.eTilde, e, c),
      (rnd.r1Tilde - rnd.r1 * c) % S.r,
      (rnd.r3Tilde - r3 * c) % S.r,
      Responses(S, rnd.mTildes, hiddenMs, c),
      c)
  }

  function ChallengeFor<G1(==, !new), G2(==, !new), GT(==, !new)>(
      S: Suite<G1, G2, GT>, t: Transcript<G1>, ms: seq<nat>, idx: seq<nat>, ph: Octets): (c: nat)
    requires |idx| == |ms|
    ensures c < S.r
  {
    Challenge(S, t.abar, t.bbar, t.d, t.t1, t.t2, t.domain, ms, idx, ph)
  }

  /**
   * The proof over a parsed signature; the index list is any selection, of
   * which bbs_proof_gen accepts only the ascending ones.
   */
  function Prove<G1(==, !new), G2(==, !new), GT(==, !new)>(
      S: Suite<G1, G2, GT>, pk: Octets, sig: Signature<G1>, header: Octets, ph: Octets, ms: seq<nat>, idx: seq<nat>,
      rnd: Randoms): Proof<G1>
    requires InRange(idx, |ms|) && |rnd.mTildes| == |Complement(idx, |ms|)|
  {
    var t := Commit(S, pk, sig, header, ms, idx, rnd);
    var c := ChallengeFor(S, t, Gather<nat>(ms, idx), idx, ph);
    Respond(S, t, sig.e, rnd, Gather<nat>(ms, Complement(idx, |ms|)), c)
  }

  /** T1 and T2 as the verifier recomputes them. */
  function RecomputeT1<G1(==, !new), G2(==, !new), GT(==, !new)>(S: Suite<G1, G2, GT>, p: Proof<G1>): G1
  {
    S.Add(S.Add(S.Mul(p.challenge, p.bbar), S.Mul(p.eHat, p.abar)), S.Mul(p.r1Hat, p.d))
  }

  /** P1 + domain * Q_1 + the disclosed part of the sum. */
  function DisclosedB<G1(==, !new), G2(==, !new), GT(==, !new)>(
      S: Suite<G1, G2, GT>, domain: nat, n: nat, idx: seq<nat>, ms: seq<nat>): G1
    requires InRange(idx, n) && |ms| == |idx|
  {
    Accumulate(S.pairing.g1, S.r, BStart(S, domain), Gather(HPoints(S, n), idx), ms)
  }

  /** zip truncates: with repeated indexes only the first commitments are paired. */
  function RecomputeT2<G1(==, !new), G2(==, !new), GT(==, !new)>(
      S: Suite<G1, G2, GT>, p: Proof<G1>, bv: G1, hidden: seq<G1>): G1
  {
    var u := if |hidden| < |p.commitments| then |hidden| else |p.commitments|;
    Accumulate(S.pairing.g1, S.r, S.Add(S.Mul(p.challenge, bv), S.Mul(p.r3Hat, p.d)),
               hidden[..u], p.commitments[..u])
  }

  /** e(Abar, W) * e(Bbar, -P2) is the identity of GT. */
  predicate ProofPairing<G1(==, !new), G2(==, !new), GT(==, !new)>(S: Suite<G1, G2, GT>, w: G2, p: Proof<G1>)
  {
    S.pairing.gt.add(S.pairing.e(w, p.abar), S.pairing.e(S.pairing.g2.neg(S.pairing.base), p.bbar)) == S.pairing.gt.zero
  }

  /** The verification of a parsed proof. */
  predicate Accepts<G1(==, !new), G2(==, !new), GT(==, !new)>(
      S: Suite<G1, G2, GT>, pk: Octets, w: G2, p: Proof<G1>, header: Octets, ph: Octets, disclosed: seq<Octets>,
      idx: seq<nat>)
  {
    var n := |idx| + |p.commitments|;
    InRange(idx, n) && |disclosed| == |idx| &&
    var ms := MessageScalars(S, disclosed);
    ChallengeFor(S, Recompute(S, pk, p, header, n, ms, idx), ms, idx, ph) == p.challenge &&
    ProofPairing(S, w, p)
  }

  /** The transcript the verifier rebuilds from a proof over n messages. */
  function Recompute<G1(==, !new), G2(==, !new), GT(==, !new)>(
      S: Suite<G1, G2, GT>, pk: Octets, p: Proof<G1>, header: Octets, n: nat, ms: seq<nat>,
      idx: seq<nat>): Transcript<G1>
    requires InRange(idx, n) && |ms| == |idx|
  {
    var domain := Domain(S, pk, n, header);
    Transcript(p.abar, p.bbar, p.d,
      RecomputeT1(S, p),
      RecomputeT2(S, p, DisclosedB(S, domain, n, idx, ms), HiddenPoints(S, n, idx)),
      domain)
  }

  /** The generators of the messages that are not disclosed. */
  function HiddenPoints<G1(==, !new), G2(==, !new), GT(==, !new)>(
      S: Suite<G1, G2, GT>, n: nat, idx: seq<nat>): (hs: seq<G1>)
    ensures |hs| == |Complement(idx, n)|
  {
    Gather(HPoints(S, n), Complement(idx, n))
  }
}
