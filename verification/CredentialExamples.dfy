// The verifier at concrete inputs, over the suite of order 3: presentations
// whose fourth index is any position of the signed vector are allowed, two at a
// time over one transcript.
module CredentialExamples {
  import opened Arithmetic
  import opened Octets
  import opened Results
  import opened Schemas
  import opened Verifier
  import opened MessageVector
  import opened Credential
  import opened CredentialSoundness
  import opened Sums
  import opened Bbs
  import opened BbsAlgebra
  import opened BbsEncoding
  import opened BbsProtocol
  import opened BbsExamples
  import Registry

  // ---- The inputs ----

  /** Every hash is 1, but that of one octet string to a scalar is 2. */
  function Marked(special: Octets): (Octets, Tag) -> Octets
  {
    (o, tag) => if tag == ScalarTag && o == special then [2] else [1]
  }

  function Twin(special: Octets): Suite<Tri, Tri, Tri>
  {
    TriSuite(Marked(special))
  }

  function Indexes(k: nat): seq<nat> { [0, 1, 2, k] }

  function Ones(n: nat): seq<nat> { seq(n, _ => 1) }

  /** The transcript of the proofs below: the signature is (2, 1) on five messages with B = 1, the draws r1 = r2 = 1. */
  function Opened(): Transcript<Tri> { Transcript(T2, T2, T1, T0, T0, 1) }

  function ZeroDraws(): Randoms { Randoms(1, 1, 0, 0, 0, [0]) }

  /** What the challenge hashes for that transcript. */
  function Hashed(k: nat, ph: Octets): Octets
  {
    var t := Opened();
    ChallengeOctets(Tiny(1), t.abar, t.bbar, t.d, t.t1, t.t2, t.domain, Ones(4), Indexes(k), ph)
  }

  function Iso(instant: int): string { "" }

  function Bound(id: string): DomainBinding { DomainBinding("site", id, id, 0) }

  function HeaderFor(id: string): Octets { PresentationHeader(Bound(id), Iso) }

  function World(special: Octets): Setting<Tri, Tri, Tri>
  {
    Setting(Twin(special), text => Padded(T1, 2 * POINT_LEN), Iso, entry => 1)
  }

  function Key(): IssuerKey
  {
    IssuerKey("key", VcSigning, BBS, "material", None, Some(AAL0), Some("epoch"), 0, 0)
  }

  function Place(): Site
  {
    Site(Registry.TrustRegistry(map["issuer" := IssuerMetadata("issuer", Active, [Key()])]),
         Policy(Over18, AAL0, [], true, true, []), "site", "issuer")
  }

  function Live(id: string): Challenge { Challenge(id, Over18, AAL0, "site", id, 0, 0) }

  function Pending(): map<string, Challenge> { map["a" := Live("a"), "b" := Live("b")] }

  function Shown(k: nat, id: string, proof: Octets): VcPresentation
  {
    VcPresentation(Over18, "issuer", "key", AAL0, "epoch", proof, [0, 1, 2, k], Bound(id))
  }

  lemma Ready(k: nat, id: string, proof: Octets)
    requires id == "a" || id == "b"
    ensures SiteReady(Place(), Shown(k, id, proof), Live(id), Pending(), Key(), 0, 0)
    ensures DisclosureShape(Shown(k, id, proof).disclosedIndexes)
  {}

  // ---- Hashes ----

  lemma MarkedHash(special: Octets, o: Octets, tag: Tag)
    ensures Twin(special).HashToScalar(o, tag) == if tag == ScalarTag && o == special then 2 else 1
  {
    OneOctet(1);
    OneOctet(2);
    hide Os2ip;
    assert Twin(special).expand(o, tag) == if tag == ScalarTag && o == special then [2] else [1];
  }

  lemma ScalarsAreOne(special: Octets, messages: seq<Octets>)
    ensures MessageScalars(Twin(special), messages) == Ones(|messages|)
  {
    forall i | 0 <= i < |messages| ensures MessageScalars(Twin(special), messages)[i] == 1 {
      MarkedHash(special, messages[i], MapTag);
    }
  }

  lemma SmallIndexStarts(v: nat)
    requires v < 256
    ensures |Index(v)| == 8 && Index(v)[0] == 0
  {
    var o := Index(v);
    PowMonotone(256, 1, 7);
    PowMonotone(256, 7, 8);
    assert Pow(256, 1) == 256 * Pow(256, 0);
    FieldLength(v, INDEX_LEN);
    hide Pow, Os2ip;
    assert o == [o[0]] + o[1..];
    Os2ipConcat([o[0]], o[1..]);
    OneOctet(o[0]);
    MulAtLeast(o[0], Pow(256, 7));
  }

  /** The domain octets begin with the key, what the challenge hashes with a small length. */
  lemma DomainIsNotMarked(S: Suite<Tri, Tri, Tri>, k: nat, ph: Octets, hs: seq<Tri>, header: Octets)
    ensures DomainOctets(S, Padded(T1, 2 * POINT_LEN), Q1(S), hs, header) != Hashed(k, ph)
  {
    hide Index, Pairs, PointFields;
    SmallIndexStarts(4);
    assert DomainOctets(S, Padded(T1, 2 * POINT_LEN), Q1(S), hs, header)[0] == 1;
    assert Hashed(k, ph)[0] == Index(4)[0];
  }

  lemma HeadersDiffer()
    ensures HeaderFor("a") != HeaderFor("b") && |HeaderFor("a")| <= 4904 && |HeaderFor("b")| <= 4904
  {
    hide PresentationHeader;
    HeaderBindsDomain(Bound("a"), Bound("b"), Iso);
    HeaderLength(Bound("a"), Iso, 12);
    HeaderLength(Bound("b"), Iso, 12);
  }

  lemma SmallFits()
    ensures 4904 < LENGTH_LIMIT && IndexesFit(Indexes(0)) && ScalarsFit(Ones(4))
    ensures forall k | k < 5 :: IndexesFit(Indexes(k))
  {
    PowMonotone(256, 2, 8);
    PowMonotone(256, 2, 32);
    assert Pow(256, 2) == 256 * Pow(256, 1) && Pow(256, 1) == 256 * Pow(256, 0);
    hide Pow;
  }

  /** Different headers are hashed differently. */
  lemma HashedDiffer(k: nat, ph: Octets, ph': Octets)
    requires k < 5 && |ph| <= 4904 && |ph'| <= 4904 && ph != ph'
    ensures Hashed(k, ph) != Hashed(k, ph')
  {
    TinyFacts(1);
    SmallFits();
    hide ChallengeOctets, Pow, Tiny;
    if Hashed(k, ph) == Hashed(k, ph') {
      ChallengeOctetsInjective(Tiny(1), Opened(), Ones(4), Indexes(k), ph, Opened(), Ones(4), Indexes(k), ph');
    }
  }

  // ---- The signature ----

  lemma {:induction false} AddedOnes(n: nat)
    ensures Added(Ones(n)) == n
  {
    if n > 0 {
      AddedOnes(n - 1);
      assert Ones(n)[..n - 1] == Ones(n - 1);
    }
  }

  lemma {:induction false} AddedUpdate(v: seq<int>, i: nat, x: int)
    requires i < |v|
    ensures Added(v[i := v[i] + x]) == Added(v) + x
  {
    var n := |v| - 1;
    if i == n {
      assert v[i := v[i] + x][..n] == v[..n];
    } else {
      AddedUpdate(v[..n], i, x);
      assert v[i := v[i] + x][..n] == v[..n][i := v[..n][i] + x];
    }
  }

  lemma {:induction false} AddedZeros(n: nat)
    ensures Added(seq(n, _ => 0)) == 0
  {
    if n > 0 {
      AddedZeros(n - 1);
      assert seq(n, _ => 0)[..n - 1] == seq(n - 1, _ => 0);
    }
  }

  /** Listing scalars keeps their sum. */
  lemma {:induction false} AddedScatter(n: nat, idx: seq<nat>, ks: seq<int>)
    requires InRange(idx, n) && |idx| == |ks|
    ensures Added(Scatter(n, idx, ks)) == Added(ks)
  {
    if |idx| == 0 {
      AddedZeros(n);
    } else {
      var m := |idx| - 1;
      AddedScatter(n, idx[..m], ks[..m]);
      AddedUpdate(Scatter(n, idx[..m], ks[..m]), idx[m], ks[m]);
    }
  }

  /** Whatever k, the four scalars listed at 0, 1, 2, k and one hidden one add up to 5. */
  lemma VectorAdds(k: nat)
    requires k < 5
    ensures InRange(Indexes(k), 5) && |Complement(Indexes(k), 5)| >= 1
    ensures Added(FullVector(5, Indexes(k), Ones(4), Ones(1))) == 5
  {
    hide Complement;
    assert InRange(Indexes(k), 5);
    ComplementSize(Indexes(k), 5);
    AddedScatter(5, Positions(5, Indexes(k), 1), Ones(4) + Ones(1));
    AddedOnes(5);
    assert Ones(4) + Ones(1) == Ones(5);
  }

  /** The domain is 1 and B is 1 under any header. */
  lemma SignedVector(special: Octets, k: nat, ph: Octets, header: Octets)
    requires k < 5 && special == Hashed(k, ph)
    ensures InRange(Indexes(k), 5) && |Complement(Indexes(k), 5)| >= 1
    ensures Domain(Twin(special), Padded(T1, 2 * POINT_LEN), 5, header) == 1
    ensures BValue(Twin(special), 1, FullVector(5, Indexes(k), Ones(4), Ones(1))) == T1
  {
    hide Hashed, DomainOctets, FullVector, Os2ip, Complement, HPoints, Marked, TriSuite;
    var S := Twin(special);
    VectorAdds(k);
    DomainIsNotMarked(S, k, ph, HPoints(S, 5), header);
    MarkedHash(special, DomainOctets(S, Padded(T1, 2 * POINT_LEN), Q1(S), HPoints(S, 5), header), ScalarTag);
    TriB(Marked(special), 1, FullVector(5, Indexes(k), Ones(4), Ones(1)));
    hide BValue;
  }

  lemma TwinFacts(special: Octets)
    ensures var S := Twin(special);
      && S.Valid() && S.r == 3 && S.Zero() == T0
      && S.encode2(S.PublicPoint(1)) == Padded(T1, 2 * POINT_LEN)
      && S.Mul(1 + 1, T2) == T1
  {
    TriSuiteValid(Marked(special));
    TriMul(1, T1);
    TriMul(2, T2);
    hide Os2ip;
  }

  lemma TwinSigned(special: Octets, k: nat, ph: Octets, header: Octets, disclosed: seq<Octets>)
    requires k < 5 && special == Hashed(k, ph) && |disclosed| == 4
    ensures Signed(Twin(special), 1, Signature(T2, 1), header, 5, disclosed, Indexes(k), Ones(1))
  {
    hide Hashed, Domain, BValue, FullVector, Complement, MessageScalars, Twin;
    TwinFacts(special);
    SignedVector(special, k, ph, header);
    ScalarsAreOne(special, disclosed);
  }

  // ---- The proofs ----

  lemma TranscriptIsOpened(special: Octets, k: nat, ph: Octets, header: Octets)
    requires k < 5 && special == Hashed(k, ph)
    ensures InRange(Indexes(k), 5) && |Complement(Indexes(k), 5)| >= 1
    ensures TranscriptOver(Twin(special), Padded(T1, 2 * POINT_LEN), Signature(T2, 1), header, 5, Ones(4), Indexes(k),
                           Ones(1), ZeroDraws()) == Opened()
  {
    hide Hashed, Domain, BValue, FullVector, Complement, HiddenPoints, CommitT2, Os2ip, DomainOctets;
    SignedVector(special, k, ph, header);
    var S := Twin(special);
    var hidden := HiddenPoints(S, 5, Indexes(k))[..1];
    NothingCommitted(special, hidden, k);
    TriMul(0, T2);
    TriMul(0, T1);
    TriMul(1, T1);
    TriMul(1, T2);
  }

  lemma NothingCommitted(special: Octets, hidden: seq<Tri>, k: nat)
    requires |Complement(Indexes(k), 5)| >= 1 && hidden == HiddenPoints(Twin(special), 5, Indexes(k))[..1]
    ensures CommitT2(Twin(special), T1, hidden, ZeroDraws()) == T0
  {
    TriGenerators(Marked(special), 1, 5);
    hide BStart, HPoints, Complement;
    TriMul(0, T1);
    assert hidden[0] == T1;
    TriSum(0, hidden, [0]);
    assert Added([0]) == 0 by {
      AddedTwo(0, 0);
    }
  }

  /** The answer to challenge c: no scalar of it is 0. */
  function Answer(c: nat): Proof<Tri>
    requires c == 1 || c == 2
  {
    Proof(T2, T2, T1, c, 3 - c, 3 - c, [c], c)
  }

  lemma RespondIsAnswer(special: Octets, c: nat)
    requires c == 1 || c == 2
    ensures Respond(Twin(special), Opened(), 1, ZeroDraws(), Ones(1), c) == Answer(c)
    ensures ScalarsInRange(Twin(special), ProofScalars(Answer(c)))
  {
    InverseIsOne(special);
    AnswerScalars(c);
    hide Inverse, Twin;
    var S := Twin(special);
    var p := Respond(S, Opened(), 1, ZeroDraws(), Ones(1), c);
    assert p.commitments == [c];
  }

  lemma InverseIsOne(special: Octets)
    ensures Twin(special).r == 3 && Inverse(Twin(special), 1) == 1
  {
    InverseOfOne();
    hide ModInv, Coprime, Marked;
  }

  lemma AnswerScalars(c: nat)
    requires c == 1 || c == 2
    ensures (0 + 1 * c) % 3 == c && (0 - 1 * c) % 3 == 3 - c
  {}

  /** Two answers to one transcript, from which r1 and r3 are extracted as 1. */
  lemma AnswersExtract(special: Octets)
    ensures ExtractR1(Twin(special), Answer(1), Answer(2)) == 1 == ExtractR3(Twin(special), Answer(1), Answer(2))
  {
    DeltaIsTwo(special);
    hide Delta, TriSuite;
    assert Twin(special).r == 3 by {
      TwinFacts(special);
    }
    assert (2 * (1 - 2)) % 3 == 1;
  }

  lemma DeltaIsTwo(special: Octets)
    ensures Delta(Twin(special), 1, 2) == 2
  {
    hide *;
    var S := Twin(special);
    TwinFacts(special);
    InverseOfDraw(S, 2);
    assert Delta(S, 1, 2) == Inverse(S, 2) by {
      DeltaUnfolds(S);
    }
    InverseOfTwo(Inverse(S, 2));
  }

  lemma DeltaUnfolds(S: Suite<Tri, Tri, Tri>)
    requires S.r == 3
    ensures Delta(S, 1, 2) == Inverse(S, 2)
  {
    assert (1 - 2) % 3 == 2;
  }

  lemma InverseOfTwo(i: nat)
    requires 0 < i < 3 && Cong(2 * i, 1, 3)
    ensures i == 2
  {}

  /** The proof for one of the two headers. */
  lemma ProofIsAnswer(special: Octets, k: nat, ph2: Octets, header: Octets, ph: Octets, c: nat)
    requires k < 5 && special == Hashed(k, ph2)
    requires c == if ph == ph2 then 2 else 1
    requires ph != ph2 ==> |ph| <= 4904 && |ph2| <= 4904
    ensures InRange(Indexes(k), 5) && |Complement(Indexes(k), 5)| >= 1
    ensures ProveOver(Twin(special), Padded(T1, 2 * POINT_LEN), Signature(T2, 1), header, ph, 5, Ones(4), Indexes(k),
                      Ones(1), ZeroDraws()) == Answer(c)
  {
    hide *;
    var S := Twin(special);
    TranscriptIsOpened(special, k, ph2, header);
    if ph != ph2 {
      HashedDiffer(k, ph, ph2);
    }
    ChallengeIs(special, k, ph);
    RespondIsAnswer(special, c);
    ProveOverUnfolds(special, header, ph, k);
  }

  lemma ChallengeIs(special: Octets, k: nat, ph: Octets)
    ensures |Indexes(k)| == |Ones(4)|
    ensures ChallengeFor(Twin(special), Opened(), Ones(4), Indexes(k), ph) == if special == Hashed(k, ph) then 2 else 1
  {
    MarkedHash(special, Hashed(k, ph), ScalarTag);
    hide Os2ip, Index, ScalarField, Pairs;
  }

  lemma ProveOverUnfolds(special: Octets, header: Octets, ph: Octets, k: nat)
    requires |Indexes(k)| == |Ones(4)| && InRange(Indexes(k), 5) && |Complement(Indexes(k), 5)| >= 1
    requires TranscriptOver(Twin(special), Padded(T1, 2 * POINT_LEN), Signature(T2, 1), header, 5, Ones(4), Indexes(k),
                            Ones(1), ZeroDraws()) == Opened()
    ensures ProveOver(Twin(special), Padded(T1, 2 * POINT_LEN), Signature(T2, 1), header, ph, 5, Ones(4), Indexes(k),
                      Ones(1), ZeroDraws())
         == Respond(Twin(special), Opened(), 1, ZeroDraws(), Ones(1),
                    ChallengeFor(Twin(special), Opened(), Ones(4), Indexes(k), ph))
  {
    hide TranscriptOver, Respond, ChallengeFor, Complement;
  }

  // ---- The presentations ----

  function Mark(k: nat): Octets { Hashed(k, HeaderFor("b")) }

  function Presented(k: nat, id: string, c: nat): VcPresentation
    requires c == 1 || c == 2
  {
    Shown(k, id, ProofToOctets(Twin(Mark(k)), Answer(c)))
  }

  lemma PresentedFacts(k: nat, id: string, c: nat)
    requires c == 1 || c == 2
    ensures var p := Presented(k, id, c);
      && p.issuerId == "issuer" && p.requiredClaim == Over18 && p.disclosedIndexes == [0, 1, 2, k]
      && p.binding == Bound(id) && AllNat(p.disclosedIndexes) && AsNats(p.disclosedIndexes) == Indexes(k)
      && |Rebuilt(p, AAL0, "epoch")| == 4 && p.assurance == AAL0 && p.epoch == "epoch"
      && DisclosureShape(p.disclosedIndexes) && p.proof == ProofToOctets(Twin(Mark(k)), Answer(c))
  {
    hide Mark, ProofToOctets, Twin, Answer;
  }

  lemma HonestIsAnswer(k: nat, id: string, c: nat)
    requires k < 5 && ((id == "a" && c == 1) || (id == "b" && c == 2))
    ensures Backs(World(Mark(k)), 1, Presented(k, id, c), Signature(T2, 1), 5, Ones(1))
    ensures |ZeroDraws().mTildes| == |Ones(1)|
    ensures HonestProof(World(Mark(k)), 1, Presented(k, id, c), Signature(T2, 1), 5, Ones(1), ZeroDraws()) == Answer(c)
  {
    hide *;
    var special, p := Mark(k), Presented(k, id, c);
    var messages := Rebuilt(p, AAL0, "epoch");
    PresentedFacts(k, id, c);
    MarkIs(k);
    TwinFacts(special);
    ScalarsAreOne(special, messages);
    TwinSigned(special, k, HeaderFor("b"), VcHeader(), messages);
    HeadersDiffer();
    ProofIsAnswer(special, k, HeaderFor("b"), VcHeader(), HeaderFor(id), c);
    Unfolded(special, k, p, id);
  }

  lemma MarkIs(k: nat)
    ensures Mark(k) == Hashed(k, HeaderFor("b"))
  {}

  lemma Unfolded(special: Octets, k: nat, p: VcPresentation, id: string)
    requires p.binding == Bound(id) && AllNat(p.disclosedIndexes) && AsNats(p.disclosedIndexes) == Indexes(k)
    requires DisclosureShape(p.disclosedIndexes) && p.assurance == AAL0 && p.epoch == "epoch"
    requires Twin(special).encode2(Twin(special).PublicPoint(1)) == Padded(T1, 2 * POINT_LEN)
    requires Signed(Twin(special), 1, Signature(T2, 1), VcHeader(), 5, Rebuilt(p, AAL0, "epoch"), Indexes(k), Ones(1))
    requires MessageScalars(Twin(special), Rebuilt(p, AAL0, "epoch")) == Ones(4)
    ensures Backs(World(special), 1, p, Signature(T2, 1), 5, Ones(1)) && |ZeroDraws().mTildes| == |Ones(1)|
    ensures HonestProof(World(special), 1, p, Signature(T2, 1), 5, Ones(1), ZeroDraws())
         == ProveOver(Twin(special), Padded(T1, 2 * POINT_LEN), Signature(T2, 1), VcHeader(), HeaderFor(id), 5, Ones(4),
                      Indexes(k), Ones(1), ZeroDraws())
  {
    hide ProveOver, Rebuilt, AsNats, Twin, PresentationHeader, VcHeader, DisclosureShape, MessageScalars, BValue;
    hide Complement, FullVector, Domain;
  }

  lemma PresentedAllowed(k: nat, id: string, c: nat)
    requires k < 5 && ((id == "a" && c == 1) || (id == "b" && c == 2))
    ensures var w, p := World(Mark(k)), Presented(k, id, c);
      && VerifyVcAlone(Place(), p, Proven(w, Key(), p), 0, 0, Pending()).verdict.allow
      && AllowedCall(w, Place(), p, Key())
  {
    hide *;
    var w, p := World(Mark(k)), Presented(k, id, c);
    TwinFacts(Mark(k));
    HonestIsAnswer(k, id, c);
    RespondIsAnswer(Mark(k), c);
    Ready(k, id, ProofToOctets(Twin(Mark(k)), Answer(c)));
    SettingIs(k, id, c);
    HonestAllowedExact(w, 1, Place(), p, Live(id), Pending(), Key(), 0, 0, Signature(T2, 1), 5, Ones(1), ZeroDraws());
    IsAllowedCall(w, p, Live(id));
  }

  lemma SettingIs(k: nat, id: string, c: nat)
    requires c == 1 || c == 2
    ensures World(Mark(k)).suite == Twin(Mark(k))
    ensures World(Mark(k)).decode(Key().publicKey) == Padded(T1, 2 * POINT_LEN)
    ensures Presented(k, id, c) == Shown(k, id, ProofToOctets(Twin(Mark(k)), Answer(c)))
    ensures Presented(k, id, c).proof == ProofToOctets(Twin(Mark(k)), Answer(c))
    ensures RandomsOk(Twin(Mark(k)), ZeroDraws(), |Ones(1)|)
  {
    hide Mark, ProofToOctets, Answer;
  }

  lemma IsAllowedCall(w: Setting<Tri, Tri, Tri>, p: VcPresentation, ch: Challenge)
    requires SiteReady(Place(), p, ch, Pending(), Key(), 0, 0)
    requires VerifyVcAlone(Place(), p, Proven(w, Key(), p), 0, 0, Pending()).verdict.allow
    ensures AllowedCall(w, Place(), p, Key())
  {
    hide VerifyVcAlone, Proven, Place, Key, Pending, VcKey;
  }

  /**
   * For every k < 5, so also where k names the issuer, the level or the epoch:
   * there are two presentations over [0, 1, 2, k], answering different
   * challenges, that the verifier allows, and that reopen one transcript with
   * r1 and r3 extracted as nonzero.
   */
  lemma FourthIndexAllowed(k: nat) returns (special: Octets, p: VcPresentation, q: VcPresentation)
    requires k < 5
    ensures p == Shown(k, "a", p.proof) && q == Shown(k, "b", q.proof)
    ensures var w := World(special);
      && w.suite.Valid()
      && VerifyVcAlone(Place(), p, Proven(w, Key(), p), 0, 0, Pending()).verdict.allow
      && VerifyVcAlone(Place(), q, Proven(w, Key(), q), 0, 0, Pending()).verdict.allow
      && AllowedCall(w, Place(), p, Key()) && AllowedCall(w, Place(), q, Key()) && SameShowing(w, p, q, Key())
  {
    hide *;
    special := Mark(k);
    p, q := Presented(k, "a", 1), Presented(k, "b", 2);
    TwinFacts(special);
    SettingIs(k, "a", 1);
    SettingIs(k, "b", 2);
    PresentedAllowed(k, "a", 1);
    PresentedAllowed(k, "b", 2);
    ShownProof(k, "a", p.proof);
    ShownProof(k, "b", q.proof);
    OneTranscript(k);
  }

  lemma ShownProof(k: nat, id: string, proof: Octets)
    ensures Shown(k, id, proof).proof == proof
  {}

  lemma Rebuilds(special: Octets, k: nat, c: nat, messages: seq<Octets>)
    requires k < 5 && special == Hashed(k, HeaderFor("b")) && (c == 1 || c == 2) && |messages| == 4
    ensures InRange(Indexes(k), 5) && |MessageScalars(Twin(special), messages)| == |Indexes(k)|
    ensures Recompute(Twin(special), Padded(T1, 2 * POINT_LEN), Answer(c), VcHeader(), 5,
                      MessageScalars(Twin(special), messages), Indexes(k)) == Opened()
    ensures OctetsToProof(Twin(special), ProofToOctets(Twin(special), Answer(c))) == Some(Answer(c))
  {
    hide *;
    FewDraws(special);
    TwinFacts(special);
    ScalarsAreOne(special, messages);
    VectorAdds(k);
    TranscriptIsOpened(special, k, HeaderFor("b"), VcHeader());
    RespondIsAnswer(special, c);
    TranscriptRebuilt(Twin(special), Padded(T1, 2 * POINT_LEN), Signature(T2, 1), VcHeader(), 5, Ones(4), Indexes(k),
                      Ones(1), ZeroDraws(), c);
    AnswerBelow(special, c);
    ProofRoundTrip(Twin(special), Answer(c));
  }

  lemma FewDraws(special: Octets)
    ensures |ZeroDraws().mTildes| == |Ones(1)| == 1 && ZeroDraws().r2 == 1 && |Ones(4)| == 4
    ensures forall k :: |Indexes(k)| == 4
    ensures Signature(T2, 1).e == 1 && POINT_LEN == 48
  {}

  lemma AnswerBelow(special: Octets, c: nat)
    requires c == 1 || c == 2
    ensures ScalarsBelow(Twin(special), ProofScalars(Answer(c)))
    ensures ScalarsInRange(Twin(special), ProofScalars(Answer(c)))
    ensures Answer(c).abar != T0 && Answer(c).bbar != T0 && Answer(c).d != T0
    ensures WellFormed(Twin(special), Answer(c))
  {
    RespondIsAnswer(special, c);
    hide Os2ip;
  }

  lemma OneTranscript(k: nat)
    requires k < 5
    ensures SameShowing(World(Mark(k)), Presented(k, "a", 1), Presented(k, "b", 2), Key())
  {
    hide *;
    var special := Mark(k);
    MarkIs(k);
    var p, q := Presented(k, "a", 1), Presented(k, "b", 2);
    PresentedFacts(k, "a", 1);
    PresentedFacts(k, "b", 2);
    SettingIs(k, "a", 1);
    SettingIs(k, "b", 2);
    Rebuilds(special, k, 1, Rebuilt(p, AAL0, "epoch"));
    Rebuilds(special, k, 2, Rebuilt(p, AAL0, "epoch"));
    AnswersExtract(special);
    AnswersDiffer(special, k, p, q);
  }

  lemma AnswersDiffer(special: Octets, k: nat, p: VcPresentation, q: VcPresentation)
    requires p.issuerId == q.issuerId && p.requiredClaim == q.requiredClaim && p.disclosedIndexes == q.disclosedIndexes
    requires AllNat(p.disclosedIndexes) && AsNats(p.disclosedIndexes) == Indexes(k) && |Rebuilt(p, AAL0, "epoch")| == 4
    requires World(special).decode(Key().publicKey) == Padded(T1, 2 * POINT_LEN) && InRange(Indexes(k), 5)
    requires OctetsToProof(Twin(special), p.proof) == Some(Answer(1))
    requires OctetsToProof(Twin(special), q.proof) == Some(Answer(2))
    requires var ms := MessageScalars(Twin(special), Rebuilt(p, AAL0, "epoch"));
      && |ms| == |Indexes(k)|
      && Recompute(Twin(special), Padded(T1, 2 * POINT_LEN), Answer(1), VcHeader(), 5, ms, Indexes(k))
         == Recompute(Twin(special), Padded(T1, 2 * POINT_LEN), Answer(2), VcHeader(), 5, ms, Indexes(k))
    requires ExtractR1(Twin(special), Answer(1), Answer(2)) == 1 == ExtractR3(Twin(special), Answer(1), Answer(2))
    ensures SameShowing(World(special), p, q, Key())
  {
    hide OctetsToProof, Recompute, ExtractR1, ExtractR3, VcHeader, Rebuilt, MessageScalars, Twin, AsNats;
  }
}
