// A concrete suite: the integers modulo 3 as all three groups. The laws assumed
// of a suite hold of it, and on it the places where the code departs from its
// documentation are shown at inputs.
module BbsExamples {
  import opened Arithmetic
  import opened Primes
  import opened Octets
  import opened Results
  import opened Groups
  import opened Sums
  import opened Bbs
  import opened BbsAlgebra
  import opened BbsEncoding
  import opened BbsProtocol
  import opened BbsHiding

  datatype Tri = T0 | T1 | T2

  function Val(x: Tri): nat { match x case T0 => 0 case T1 => 1 case T2 => 2 }

  function TriOf(k: int): Tri
  {
    if k % 3 == 0 then T0 else if k % 3 == 1 then T1 else T2
  }

  function Next(x: Tri): Tri { match x case T0 => T1 case T1 => T2 case T2 => T0 }

  function Opposite(x: Tri): Tri { match x case T0 => T0 case T1 => T2 case T2 => T1 }

  function Plus(x: Tri, y: Tri): Tri
  {
    match y case T0 => x case T1 => Next(x) case T2 => Next(Next(x))
  }

  function Times(x: Tri, y: Tri): Tri
  {
    match y case T0 => T0 case T1 => x case T2 => Opposite(x)
  }

  function TriGroup(): Group<Tri>
  {
    Group(T0, Plus, Opposite)
  }

  function TriPairing(): Pairing<Tri, Tri, Tri>
  {
    Pairing(TriGroup(), TriGroup(), TriGroup(), Times, T1)
  }

  function Padded(x: Tri, len: nat): Octets
    requires len > 0
  {
    [Val(x)] + seq(len - 1, _ => 0)
  }

  function Unpadded(o: Octets): Option<Tri>
  {
    if |o| > 0 && o[0] < 3 then Some(TriOf(o[0])) else None
  }

  /** Every generator and P1 are the element 1; scalars are hashed by way of expand. */
  function TriSuite(expand: (Octets, Tag) -> Octets): Suite<Tri, Tri, Tri>
  {
    Suite(3, TriPairing(), T1, [], [], expand, o => T1,
      x => Padded(x, POINT_LEN), Unpadded, w => Padded(w, 2 * POINT_LEN), Unpadded)
  }

  /** With every hash k. */
  function Tiny(k: Octet): Suite<Tri, Tri, Tri>
  {
    TriSuite((o, tag) => [k])
  }

  // ---- The suite is one ----

  lemma TriIsGroup()
    ensures IsGroup(TriGroup(), 3)
  {
    var g := TriGroup();
    forall x: Tri ensures g.HasOrder(3, x) {
      assert g.Multiple(0, x) == T0;
      assert g.Multiple(1, x) == g.add(T0, x);
      assert g.Multiple(2, x) == g.add(g.Multiple(1, x), x);
      assert g.Multiple(3, x) == g.add(g.Multiple(2, x), x);
    }
    assert IsPrime(3);
  }

  lemma TriIsPairing()
    ensures IsPairing(TriPairing(), 3)
  {
    TriIsGroup();
    hide IsGroup;
  }

  lemma SmallOrder()
    ensures 3 < Pow(256, SCALAR_LEN)
  {
    PowStep(256, SCALAR_LEN - 1);
    PowPositive(256, SCALAR_LEN - 1);
  }

  lemma TriSuiteValid(expand: (Octets, Tag) -> Octets)
    ensures TriSuite(expand).Valid()
  {
    TriIsPairing();
    SmallOrder();
    hide IsPairing, Pow;
    var S := TriSuite(expand);
    forall x: Tri ensures S.EncodesPoint(x) && S.EncodesKey(x) {
    }
  }

  lemma TinyFacts(k: Octet)
    ensures Tiny(k).Valid() && Tiny(k).r == 3 && Tiny(k).Zero() == T0
  {
    TriSuiteValid((o, tag) => [k]);
  }

  // ---- Computing with it ----

  lemma TriMul(k: int, x: Tri)
    ensures TriGroup().Mul(3, k, x) == Times(x, TriOf(k))
  {
    var g := TriGroup();
    assert g.Multiple(0, x) == T0;
    assert g.Multiple(1, x) == g.add(T0, x);
    assert g.Multiple(2, x) == g.add(g.Multiple(1, x), x);
  }

  lemma PlusOf(a: int, b: int)
    ensures Plus(TriOf(a), TriOf(b)) == TriOf(a + b)
  {}

  function Added(ks: seq<int>): int
  {
    if |ks| == 0 then 0 else Added(ks[..|ks| - 1]) + ks[|ks| - 1]
  }

  /** With every generator the element 1, a weighted sum is the sum of the weights. */
  lemma {:induction false} TriSum(acc: int, pts: seq<Tri>, ks: seq<int>)
    requires |pts| == |ks| && forall i :: 0 <= i < |pts| ==> pts[i] == T1
    ensures Accumulate(TriGroup(), 3, TriOf(acc), pts, ks) == TriOf(acc + Added(ks))
  {
    if |pts| > 0 {
      var n := |pts| - 1;
      TriSum(acc, pts[..n], ks[..n]);
      TriMul(ks[n], T1);
      PlusOf(acc + Added(ks[..n]), ks[n]);
    }
  }

  lemma TriB(expand: (Octets, Tag) -> Octets, domain: nat, ms: seq<int>)
    ensures BValue(TriSuite(expand), domain, ms) == TriOf(1 + domain + Added(ms))
  {
    hide *;
    TriGenerators(expand, domain, |ms|);
    OnePlus(domain);
    TriSum(1 + domain, HPoints(TriSuite(expand), |ms|), ms);
    BIsAccumulated(expand, domain, ms);
  }

  lemma TinyB(k: Octet, domain: nat, ms: seq<int>)
    ensures BValue(Tiny(k), domain, ms) == TriOf(1 + domain + Added(ms))
  {
    TriB((o, tag) => [k], domain, ms);
    hide BValue, TriOf, TriSuite;
  }

  lemma OnePlus(k: int)
    ensures Plus(T1, TriGroup().Mul(3, k, T1)) == TriOf(1 + k)
  {
    TriMul(k, T1);
    PlusOf(1, k);
  }

  lemma TriGenerators(expand: (Octets, Tag) -> Octets, domain: nat, n: nat)
    ensures forall i :: 0 <= i < n ==> HPoints(TriSuite(expand), n)[i] == T1
    ensures BStart(TriSuite(expand), domain) == Plus(T1, TriGroup().Mul(3, domain, T1))
  {}

  lemma BIsAccumulated(expand: (Octets, Tag) -> Octets, domain: nat, ms: seq<int>)
    ensures BValue(TriSuite(expand), domain, ms)
         == Accumulate(TriGroup(), 3, BStart(TriSuite(expand), domain), HPoints(TriSuite(expand), |ms|), ms)
  {}

  lemma TinyHash(k: Octet, o: Octets, tag: Tag)
    requires k < 3
    ensures Tiny(k).HashToScalar(o, tag) == k
  {
    OneOctet(k);
    hide Os2ip;
    assert Tiny(k).expand(o, tag) == [k];
  }

  lemma OneOctet(k: Octet)
    ensures Os2ip([k]) == k
  {
    assert [k][..0] == [];
  }

  lemma TinyScalars(k: Octet, messages: seq<Octets>)
    requires k < 3
    ensures MessageScalars(Tiny(k), messages) == seq(|messages|, _ => k)
  {
    forall i | 0 <= i < |messages| ensures MessageScalars(Tiny(k), messages)[i] == k {
      TinyHash(k, messages[i], MapTag);
    }
  }

  lemma AddedTwo(x: int, y: int)
    ensures Added([]) == 0 && Added([x]) == x && Added([x, y]) == x + y
  {
    assert [x, y][..1] == [x] && [x][..0] == [];
  }

  /** The parts of a signature on two messages. */
  lemma TinySign(k: Octet, sk: nat, m0: Octets, m1: Octets)
    requires k < 3 && 0 < sk < 3
    ensures SignScalar(Tiny(k), sk, [], [m0, m1]) == k && SignB(Tiny(k), sk, [], [m0, m1]) == T1
  {
    hide BValue, DomainOctets, Field, Fields;
    var S := Tiny(k);
    var ms := MessageScalars(S, [m0, m1]);
    TinyScalars(k, [m0, m1]);
    assert ms == [k, k];
    AddedTwo(k, k);
    var pk := S.encode2(S.PublicPoint(sk));
    TinyHash(k, DomainOctets(S, pk, Q1(S), HPoints(S, 2), []), ScalarTag);
    TinyB(k, k, ms);
    TinyHash(k, ScalarField(sk) + Fields(ms) + ScalarField(k), ScalarTag);
  }

  // ---- Signatures ----

  /** SK + e = 0: bbs_sign raises ValueError. */
  lemma SignRaisesValueError(m0: Octets, m1: Octets)
    ensures Tiny(1).Valid() && Sign(Tiny(1), 2, [], [m0, m1]) == Err(ValueError)
  {
    hide *;
    TinyFacts(1);
    TinySign(1, 2, m0, m1);
    SignOutcome(Tiny(1), 2, [], [m0, m1]);
  }

  /** e = 0: bbs_sign returns a signature that bbs_verify rejects. */
  lemma SignedButRejected(m0: Octets, m1: Octets)
    ensures var S := Tiny(0);
      var r := Sign(S, 1, [], [m0, m1]);
      S.Valid() && r.Ok? && Verify(S, S.encode2(S.PublicPoint(1)), r.value, [], [m0, m1]) == Ok(false)
  {
    TinyFacts(0);
    TinySign(0, 1, m0, m1);
    hide *;
    SignOutcome(Tiny(0), 1, [], [m0, m1]);
    SignVerifies(Tiny(0), 1, [], [m0, m1]);
  }

  /** Otherwise it signs, and the signature verifies. */
  lemma SignedAndVerified(m0: Octets, m1: Octets)
    ensures var S := Tiny(1);
      var r := Sign(S, 1, [], [m0, m1]);
      S.Valid() && r.Ok? && Verify(S, S.encode2(S.PublicPoint(1)), r.value, [], [m0, m1]) == Ok(true)
  {
    TinyFacts(1);
    TinySign(1, 1, m0, m1);
    hide *;
    SignOutcome(Tiny(1), 1, [], [m0, m1]);
    SignVerifies(Tiny(1), 1, [], [m0, m1]);
  }

  /** SK + e = 0 and B = identity: two points make valid signatures with one scalar. */
  lemma TwoPointsVerify(m: Octets)
    ensures var S := Tiny(1);
      var pk := S.encode2(S.PublicPoint(2));
      && Verify(S, pk, S.encode1(T1) + ScalarField(1), [], [m]) == Ok(true)
      && Verify(S, pk, S.encode1(T2) + ScalarField(1), [], [m]) == Ok(true)
  {
    hide *;
    TinyFacts(1);
    IdentityB(m);
    AnyPointVerifies(Tiny(1), 2, T1, 1, [], [m]);
    AnyPointVerifies(Tiny(1), 2, T2, 1, [], [m]);
  }

  lemma IdentityB(m: Octets)
    ensures SignB(Tiny(1), 2, [], [m]) == T0
  {
    var S := Tiny(1);
    TinyScalars(1, [m]);
    TinyDomain(1, S.encode2(S.PublicPoint(2)), 1);
    AddedTwo(1, 0);
    TinyB(1, 1, [1]);
    hide BValue, Domain, Os2ip;
    assert MessageScalars(S, [m]) == [1];
  }

  // ---- Proofs ----

  /** Draws for a proof that hides u messages; eTilde decides whether the first response is 0. */
  function Draws(eTilde: nat, u: nat): Randoms
  {
    Randoms(1, 1, eTilde, 2, 2, seq(u, _ => 1))
  }

  lemma InverseOfOne()
    ensures Coprime(1, 3) && ModInv(1, 3) == 1
  {
    assert IsPrime(3);
    PrimeCoprime(3, 1);
  }

  /** The responses to challenge 1 when every hidden scalar is 1 and so is e. */
  lemma TinyResponses(t: Transcript<Tri>, eTilde: nat, hs: seq<nat>)
    requires eTilde == 1 || eTilde == 2
    requires forall i :: 0 <= i < |hs| ==> hs[i] == 1
    ensures Coprime(1, 3)
    ensures ScalarsInRange(Tiny(1), ProofScalars(Respond(Tiny(1), t, 1, Draws(eTilde, |hs|), hs, 1))) <==> eTilde == 1
  {
    InverseOfOne();
    hide ModInv, Coprime, Os2ip;
    var rnd := Draws(eTilde, |hs|);
    var p := Respond(Tiny(1), t, 1, rnd, hs, 1);
    assert p.eHat == (eTilde + 1) % 3 && p.r1Hat == 1 && p.r3Hat == 1 && p.challenge == 1;
    assert forall i :: 0 <= i < |hs| ==> p.commitments[i] == 2;
    var s := ProofScalars(p);
    assert s[0] == p.eHat;
  }

  /** The proof that discloses idx of two messages, with the draws given. */
  lemma TinyProof(m0: Octets, m1: Octets, idx: seq<nat>, eTilde: nat) returns (p: Proof<Tri>)
    requires InRange(idx, 2) && (eTilde == 1 || eTilde == 2)
    ensures var S, rnd := Tiny(1), Draws(eTilde, |Complement(idx, 2)|);
      && IsDrawn(S, rnd, idx, 2)
      && var pk := S.encode2(S.PublicPoint(1));
      && p == Prove(S, pk, Signature(T2, 1), [], [], MessageScalars(S, [m0, m1]), idx, rnd)
      && (ScalarsInRange(S, ProofScalars(p)) <==> eTilde == 1)
  {
    hide Commit, Respond, ChallengeOctets, ScalarsInRange, ProofScalars, Complement;
    var S, u := Tiny(1), Complement(idx, 2);
    var rnd := Draws(eTilde, |u|);
    InverseOfOne();
    TinyScalars(1, [m0, m1]);
    var ms, pk := MessageScalars(S, [m0, m1]), S.encode2(S.PublicPoint(1));
    var t := Commit(S, pk, Signature(T2, 1), [], ms, idx, rnd);
    var octets := ChallengeOctets(S, t.abar, t.bbar, t.d, t.t1, t.t2, t.domain, Gather<nat>(ms, idx), idx, []);
    TinyHash(1, octets, ScalarTag);
    TinyResponses(t, eTilde, Gather<nat>(ms, u));
    p := Prove(S, pk, Signature(T2, 1), [], [], ms, idx, rnd);
  }

  /** The signature on two messages under the key 1, as it parses. */
  lemma TinySignature(m0: Octets, m1: Octets)
    ensures var S := Tiny(1);
      && S.Valid() && Sign(S, 1, [], [m0, m1]).Ok? && SignScalar(S, 1, [], [m0, m1]) == 1
      && OctetsToSignature(S, Sign(S, 1, [], [m0, m1]).value) == Some(Signature(T2, 1))
  {
    hide *;
    SignedAndVerified(m0, m1);
    TinySign(1, 1, m0, m1);
    var a := SignedPoint(Tiny(1), 1, [], [m0, m1]);
    HalfOfOne(a);
    TinyFacts(1);
    SignatureRoundTrip(Tiny(1), a, 1);
  }

  lemma HalfOfOne(a: Tri)
    requires Tiny(1).Mul(1 + 1, a) == T1
    ensures a == T2
  {
    hide Os2ip;
    TriMul(2, a);
  }

  lemma GatherTwo(m0: Octets, m1: Octets)
    ensures InRange([0], 2) && IndexesOk([0], 2) && Gather([m0, m1], [0]) == [m0]
    ensures InRange([1, 0], 2) && Distinct<nat>([1, 0]) && !StrictlyIncreasing([1, 0])
    ensures Gather([m0, m1], [1, 0]) == [m1, m0]
  {
    var idx: seq<nat> := [1, 0];
    assert idx[0] > idx[1];
  }

  /** An honest proof verifies with one draw, and with another, whose first response is 0, it does not. */
  lemma ZeroScalarRefused(m0: Octets, m1: Octets, eTilde: nat)
    requires eTilde == 1 || eTilde == 2
    ensures var S, rnd := Tiny(1), Draws(eTilde, |Complement([0], 2)|);
      && Sign(S, 1, [], [m0, m1]).Ok? && IsDrawn(S, rnd, [0], 2)
      && var pk := S.encode2(S.PublicPoint(1));
      && var proof := ProofGen(S, pk, Sign(S, 1, [], [m0, m1]).value, [], [], [m0, m1], [0], rnd);
      && proof.Ok? && ProofVerify(S, pk, proof.value, [], [], [m0], [0]) == Ok(eTilde == 1)
  {
    hide *;
    GatherTwo(m0, m1);
    TinySignature(m0, m1);
    var p := TinyProof(m0, m1, [0], eTilde);
    ProofCompleteness(Tiny(1), 1, [], [], [m0, m1], [0], Draws(eTilde, |Complement([0], 2)|));
  }

  /** A proof over the indexes 1, 0, which bbs_proof_gen refuses to make, verifies. */
  lemma DescendingAccepted(m0: Octets, m1: Octets) returns (p: Proof<Tri>)
    ensures var S := Tiny(1);
      ProofVerify(S, S.encode2(S.PublicPoint(1)), ProofToOctets(S, p), [], [], [m1, m0], [1, 0]) == Ok(true)
  {
    hide *;
    GatherTwo(m0, m1);
    TinySignature(m0, m1);
    p := TinyProof(m0, m1, [1, 0], 1);
    NonAscendingAccepted(Tiny(1), 1, [], [], [m0, m1], [1, 0], Draws(1, |Complement([1, 0], 2)|));
  }

  /**
   * A proof that lists index 0 twice verifies although the signature is on the
   * vector [2, 0], which holds neither of the scalars 1 and 1 disclosed at 0.
   */
  lemma RepeatedIndexAccepted(m: Octets, m': Octets) returns (p: Proof<Tri>, full: seq<int>)
    ensures var S := Tiny(1);
      && MessageScalars(S, [m, m']) == [1, 1]
      && full == [2, 0] && S.Mul(1 + 1, T2) == BValue(S, Domain(S, S.encode2(S.PublicPoint(1)), 2, []), full)
      && ProofVerify(S, S.encode2(S.PublicPoint(1)), ProofToOctets(S, p), [], [], [m, m'], [0, 0]) == Ok(true)
  {
    hide *;
    full := [2, 0];
    SignedTwiceListed(m, m');
    p := TwiceListedProof(m, m');
    TinyFacts(1);
    AnyListVerifies(Tiny(1), 1, Signature(T2, 1), [], [], 2, [m, m'], [0, 0], [], Draws(1, 0));
  }

  lemma SignedTwiceListed(m: Octets, m': Octets)
    ensures var S := Tiny(1);
      && Signed(S, 1, Signature(T2, 1), [], 2, [m, m'], [0, 0], [])
      && S.Mul(1 + 1, T2) == BValue(S, Domain(S, S.encode2(S.PublicPoint(1)), 2, []), [2, 0])
  {
    var S := Tiny(1);
    var pk := S.encode2(S.PublicPoint(1));
    TwiceListed();
    TinyDomain(1, pk, 2);
    TinyTwo(m, m');
    AddedTwo(2, 0);
    TinyB(1, 1, [2, 0]);
    TwiceTwo();
    hide BValue, Domain, FullVector, HPoints, Os2ip, MessageScalars, TriOf, Complement;
    assert S.r == 3 && S.Zero() == T0;
  }

  lemma TwiceTwo()
    ensures Tiny(1).Mul(1 + 1, T2) == TriOf(1 + 1 + 2) == T1
  {
    hide Os2ip;
    TriMul(2, T2);
  }

  lemma TinyTwo(m: Octets, m': Octets)
    ensures MessageScalars(Tiny(1), [m, m']) == [1, 1]
  {
    TinyScalars(1, [m, m']);
  }

  lemma TinyDomain(k: Octet, pk: Octets, n: nat)
    requires k < 3
    ensures Domain(Tiny(k), pk, n, []) == k
  {
    hide DomainOctets, HPoints, Os2ip;
    var S := Tiny(k);
    TinyHash(k, DomainOctets(S, pk, Q1(S), HPoints(S, n), []), ScalarTag);
  }

  lemma TwiceListedProof(m: Octets, m': Octets) returns (p: Proof<Tri>)
    ensures var S := Tiny(1);
      && RandomsOk(S, Draws(1, 0), 0) && InRange([0, 0], 2)
      && MessageScalars(S, [m, m']) == [1, 1]
      && p == ProveOver(S, S.encode2(S.PublicPoint(1)), Signature(T2, 1), [], [], 2,
                        MessageScalars(S, [m, m']), [0, 0], [], Draws(1, 0))
      && ScalarsInRange(S, ProofScalars(p))
  {
    hide TranscriptOver, Respond, ChallengeOctets, ScalarsInRange, ProofScalars;
    var S, idx, ds: seq<nat> := Tiny(1), [0, 0], [1, 1];
    InverseOfOne();
    TinyScalars(1, [m, m']);
    assert MessageScalars(S, [m, m']) == ds;
    var pk := S.encode2(S.PublicPoint(1));
    var t := TranscriptOver(S, pk, Signature(T2, 1), [], 2, ds, idx, [], Draws(1, 0));
    TinyHash(1, ChallengeOctets(S, t.abar, t.bbar, t.d, t.t1, t.t2, t.domain, ds, idx, []), ScalarTag);
    TinyResponses(t, 1, []);
    p := ProveOver(S, pk, Signature(T2, 1), [], [], 2, ds, idx, [], Draws(1, 0));
  }

  lemma TwiceListed()
    ensures InRange([0, 0], 2) && FullVector(2, [0, 0], [1, 1], []) == [2, 0]
  {
    var idx: seq<nat>, ds: seq<int> := [0, 0], [1, 1];
    assert Complement(idx, 2)[..0] == [];
    assert Positions(2, idx, 0) == idx && ds + [] == ds;
    hide Complement, Positions;
    OnceListed();
    assert idx[..1] == [0] && ds[..1] == [1];
  }

  lemma OnceListed()
    ensures Scatter(2, [0], [1]) == [1, 0]
  {
    var idx: seq<nat>, ds: seq<int> := [0], [1];
    assert idx[..0] == [] && ds[..0] == [];
    assert Scatter(2, [], []) == [0, 0];
  }

  // ---- Hiding ----

  lemma TriCyclic(expand: (Octets, Tag) -> Octets)
    ensures Cyclic(TriSuite(expand))
  {
    var S := TriSuite(expand);
    forall x: Tri, y: Tri | x != S.Zero() ensures IsMultiple(S, x, y) {
      TriMul(0, x);
      TriMul(1, x);
      TriMul(2, x);
      assert S.Mul(0, x) == T0 && S.Mul(1, x) == x && S.Mul(2, x) == Opposite(x);
    }
  }

  /** The signature under the key 1 on one hidden scalar m, which is 0 or 2. */
  function OneHidden(m: nat): Signature<Tri>
  {
    Signature(if m == 0 then T1 else T2, 1)
  }

  lemma OneHiddenSigned(m: nat)
    requires m == 0 || m == 2
    ensures Signed(Tiny(1), 1, OneHidden(m), [], 1, [], [], [m])
    ensures SignedB(Tiny(1), 1, [], 1, [], [], [m]) == if m == 0 then T2 else T1
  {
    hide BValue, Domain, Os2ip, FullVector, Complement, MessageScalars;
    var S := Tiny(1);
    TinyFacts(1);
    HiddenVector(m);
    TinyDomain(1, S.encode2(S.PublicPoint(1)), 1);
    TinyB(1, 1, [m]);
    AddedTwo(m, 0);
    OneHiddenEquation(m);
    hide Tiny, TriOf;
    assert MessageScalars(S, []) == [];
  }

  lemma OneHiddenEquation(m: nat)
    requires m == 0 || m == 2
    ensures Tiny(1).Mul(1 + 1, OneHidden(m).a) == TriOf(1 + 1 + m) == if m == 0 then T2 else T1
  {
    hide Os2ip;
    TriMul(2, OneHidden(m).a);
  }

  lemma HiddenVector(m: nat)
    ensures InRange([], 1) && |Complement([], 1)| == 1 && FullVector(1, [], [], [m]) == [m]
  {
    hide Complement, Scatter;
    NoneListed();
    OneListed(m);
    var none: seq<nat>, ds: seq<int>, hs: seq<int> := [], [], [m];
    assert Positions(1, none, 1) == [0] && ds + hs == hs;
    hide Positions;
  }

  lemma NoneListed()
    ensures InRange([], 1) && Complement([], 1) == [0]
  {
    assert Complement([], 0) == [];
  }

  lemma OneListed(m: int)
    ensures Scatter(1, [0], [m]) == [m]
  {
    var idx: seq<nat>, ks: seq<int> := [0], [m];
    assert idx[..0] == [] && ks[..0] == [] && Scatter(1, [], []) == [0];
  }

  /**
   * Draws are never 0, and that tells two signatures apart: this proof, made as
   * the source makes it on the hidden scalar 0 and accepted, cannot come from the
   * signature on the hidden scalar 2.
   */
  lemma DrawsTellApart() returns (p: Proof<Tri>)
    ensures var S, rnd := Tiny(1), Randoms(1, 1, 1, 2, 2, [2]);
      && Signed(S, 1, OneHidden(0), [], 1, [], [], [0]) && Signed(S, 1, OneHidden(2), [], 1, [], [], [2])
      && SourceDraw(S, rnd, 1) && p == ProofWith(S, 1, OneHidden(0), [], [], 1, [], [], [0], rnd)
      && ProofVerify(S, S.encode2(S.PublicPoint(1)), ProofToOctets(S, p), [], [], [], []) == Ok(true)
      && |p.commitments| == 1 && RulesOut(S, p, 1, [2], SignedB(S, 1, [], 1, [], [], [2]))
  {
    hide *;
    var S, rnd := Tiny(1), Randoms(1, 1, 1, 2, 2, [2]);
    TinyFacts(1);
    OneHiddenSigned(0);
    OneHiddenSigned(2);
    HiddenVector(0);
    p := OneHiddenProof(rnd);
    AnyListVerifies(S, 1, OneHidden(0), [], [], 1, [], [], [0], rnd);
  }

  lemma OneHiddenProof(rnd: Randoms) returns (p: Proof<Tri>)
    requires rnd == Randoms(1, 1, 1, 2, 2, [2])
    ensures InRange([], 1) && |Complement([], 1)| == 1
    ensures p == ProofWith(Tiny(1), 1, OneHidden(0), [], [], 1, [], [], [0], rnd)
    ensures p == ProveOver(Tiny(1), Tiny(1).encode2(Tiny(1).PublicPoint(1)), OneHidden(0), [], [], 1,
                           MessageScalars(Tiny(1), []), [], [0], rnd)
    ensures SourceDraw(Tiny(1), rnd, 1) && RandomsOk(Tiny(1), rnd, 1) && ScalarsInRange(Tiny(1), ProofScalars(p))
    ensures |p.commitments| == 1 && forall b :: RulesOut(Tiny(1), p, 1, [2], b)
  {
    hide TranscriptOver, ChallengeOctets, Os2ip, Complement, SignedB, ModInv, Coprime;
    var S := Tiny(1);
    HiddenVector(0);
    InverseOfOne();
    var pk, ds := S.encode2(S.PublicPoint(1)), MessageScalars(S, []);
    var t := TranscriptOver(S, pk, OneHidden(0), [], 1, ds, [], [0], rnd);
    TinyHash(1, ChallengeOctets(S, t.abar, t.bbar, t.d, t.t1, t.t2, t.domain, ds, [], []), ScalarTag);
    p := ProveOver(S, pk, OneHidden(0), [], [], 1, ds, [], [0], rnd);
    assert p.challenge == 1 && p.eHat == 2 && p.r1Hat == 1 && p.r3Hat == 1 && p.commitments == [2];
    assert Cong(2 * 1, 2, 3);
  }
}
