// A run of the whole system in which a credential is issued, its wallet proves a
// claim with vc_prove, and the verifier allows it; with a second proof that
// reopens the transcript of the first.
module CredentialRunExamples {
  import opened Arithmetic
  import opened Octets
  import opened Results
  import opened Schemas
  import opened Verifier
  import opened Redemption
  import opened MessageVector
  import opened Credential
  import opened CredentialSoundness
  import opened CredentialIssuance
  import opened Sums
  import opened Bbs
  import opened BbsAlgebra
  import opened BbsEncoding
  import opened BbsProtocol
  import opened BbsExamples
  import CredentialExamples
  import Registry
  import Issuance
  import Utf8
  import E = Eligibility
  import I = Issuer

  // ---- The inputs ----

  function Thirteen(): Octets { Utf8.Encode("AGE_OVER_13") }

  /** The message of the claim and one challenge string are mapped to 2, everything else to 1. */
  function Hash(special: Octets): (Octets, Tag) -> Octets
  {
    (o, tag) => if (tag == MapTag && o == Thirteen()) || (tag == ScalarTag && o == special) then [2] else [1]
  }

  function Curve(special: Octets): Suite<Tri, Tri, Tri>
  {
    TriSuite(Hash(special))
  }

  function Iso(instant: int): string { "" }

  function Place(special: Octets): Setting<Tri, Tri, Tri>
  {
    Setting(Curve(special), text => Padded(T1, 2 * POINT_LEN), Iso, entry => 1)
  }

  function Entry(): I.KeyEntry
  {
    I.KeyEntry(true, Some(BBS), "key", None, Some(AAL0), "epoch", "material", 10)
  }

  function Key(): IssuerKey
  {
    IssuerKey("key", VcSigning, BBS, "material", None, Some(AAL0), Some("epoch"), 0, 10)
  }

  function Checker(): Site
  {
    Site(Registry.TrustRegistry(map["issuer" := IssuerMetadata("issuer", Active, [Key()])]),
         Policy(Over13, AAL0, [], true, true, []), "site", "issuer")
  }

  function Surroundings(special: Octets, ideal: bool): World<Tri, Tri, Tri>
  {
    World(Place(special), Checker(), nonce => nonce, I.KeyStore(map[], [Entry()]), "issuer", ideal)
  }

  function Born(): E.Date { E.Date(2011, 1, 1) }

  function Today(): E.Date { E.Date(2025, 1, 1) }

  function Asked(id: string): Challenge { Challenge(id, Over13, AAL0, "site", id, 1, 6) }

  function HeaderFor(id: string): Octets { PresentationHeader(VcBinding(Asked(id), 1), Iso) }

  function Wallet(): Randoms { Randoms(1, 1, 0, 0, 0, []) }

  function Scalars(): seq<nat> { [1, 1, 1, 2] }

  function Indexes(): seq<nat> { [0, 1, 2, 3] }

  /** The transcript of the wallet's proofs. */
  function Opened(): Transcript<Tri> { CredentialExamples.Opened() }

  /** What the challenge hashes for that transcript. */
  function Hashed(ph: Octets): Octets
  {
    var t := Opened();
    ChallengeOctets(Tiny(1), t.abar, t.bbar, t.d, t.t1, t.t2, t.domain, Scalars(), Indexes(), ph)
  }

  // ---- Hashes ----

  lemma HashOf(special: Octets, o: Octets, tag: Tag)
    ensures Curve(special).HashToScalar(o, tag)
         == if (tag == MapTag && o == Thirteen()) || (tag == ScalarTag && o == special) then 2 else 1
  {
    OneOctet(1);
    OneOctet(2);
    hide Os2ip, Thirteen;
    assert Curve(special).expand(o, tag)
        == if (tag == MapTag && o == Thirteen()) || (tag == ScalarTag && o == special) then [2] else [1];
  }

  lemma OtherText(t: string)
    ensures Utf8.Encode(t) == Thirteen() ==> t == "AGE_OVER_13"
  {
    if Utf8.Encode(t) == Thirteen() {
      Utf8.EncodingInjective(Utf8.CodePoints(t), Utf8.CodePoints("AGE_OVER_13"));
      Utf8.CodePointsInjective(t, "AGE_OVER_13");
    }
  }

  /** The scalar a text is mapped to. */
  lemma TextScalar(special: Octets, t: string)
    ensures ScalarOf(Place(special), t) == if t == "AGE_OVER_13" then 2 else 1
  {
    OtherText(t);
    HashOf(special, Utf8.Encode(t), MapTag);
    hide Os2ip, Hash, Utf8.Encode;
    assert t == "AGE_OVER_13" ==> Utf8.Encode(t) == Thirteen();
  }

  /** Only the claim itself is mapped to its scalar. */
  lemma ThirteenApart(special: Octets)
    ensures ClaimApart(Place(special), Over13)
  {
    hide ScalarOf;
    forall d | ScalarOf(Place(special), ClaimValue(d)) == ScalarOf(Place(special), ClaimValue(Over13))
      ensures d == Over13
    {
      TextScalar(special, ClaimValue(d));
      TextScalar(special, ClaimValue(Over13));
    }
  }

  function SignedMessages(): seq<Octets> { Messages("issuer", AAL0, "epoch", [Over13]) }

  lemma SignedTexts()
    ensures SignedMessages() == EncodeAll(["issuer", "AAL0", "epoch", "AGE_OVER_13"])
  {
    hide Utf8.Encode;
    assert ClaimValues([Over13]) == ["AGE_OVER_13"];
    assert SortTexts(["AGE_OVER_13"][1..]) == [];
  }

  lemma TextScalars(special: Octets, texts: seq<string>)
    ensures var ms := MessageScalars(Curve(special), EncodeAll(texts));
      |ms| == |texts| && forall i :: 0 <= i < |texts| ==> ms[i] == if texts[i] == "AGE_OVER_13" then 2 else 1
  {
    hide ScalarOf, Hash, TriSuite, Place;
    forall i | 0 <= i < |texts|
      ensures Curve(special).HashToScalar(Utf8.Encode(texts[i]), MapTag) == if texts[i] == "AGE_OVER_13" then 2 else 1
    {
      EncodedScalar(special, texts[i]);
      TextScalar(special, texts[i]);
    }
    hide Os2ip, Utf8.Encode;
  }

  lemma EncodedScalar(special: Octets, t: string)
    ensures Curve(special).HashToScalar(Utf8.Encode(t), MapTag) == ScalarOf(Place(special), t)
  {
    hide Utf8.Encode, Os2ip, Hash;
  }

  lemma MessagesAreScalars(special: Octets)
    ensures MessageScalars(Curve(special), SignedMessages()) == [1, 1, 1, 2]
  {
    hide *;
    SignedTexts();
    var texts := ["issuer", "AAL0", "epoch", "AGE_OVER_13"];
    TextScalars(special, texts);
    assert texts[0] != "AGE_OVER_13" && texts[1] != "AGE_OVER_13" && texts[2] != "AGE_OVER_13";
    var ms := MessageScalars(Curve(special), SignedMessages());
    assert ms == [ms[0], ms[1], ms[2], ms[3]];
  }

  // ---- What is hashed besides the challenge ----

  lemma {:induction false} ZeroOctets(len: nat)
    ensures 0 < Pow(256, len) && forall i :: 0 <= i < len ==> I2osp(0, len)[i] == 0
  {
    PowPositive(256, len);
    if len > 0 {
      ZeroOctets(len - 1);
    }
  }

  /** A small value is written in the last octet, with zeros before it. */
  lemma SmallField(v: nat, len: nat)
    requires v < 256 && len > 0
    ensures |Bbs.Field(v, len)| == len && Bbs.Field(v, len)[len - 1] == v
    ensures forall i :: 0 <= i < len - 1 ==> Bbs.Field(v, len)[i] == 0
  {
    PowMonotone(256, 1, len);
    assert Pow(256, 1) == 256 * Pow(256, 0);
    ZeroOctets(len - 1);
    assert I2osp(v, len) == I2osp(0, len - 1) + [v];
  }

  lemma HashedStarts(ph: Octets)
    ensures |Hashed(ph)| >= 8 && Hashed(ph)[0] == 0 && Hashed(ph)[7] == 4
  {
    SmallField(4, INDEX_LEN);
    hide Bbs.Field, Pairs, Tiny;
    assert Hashed(ph)[..8] == Index(4);
  }

  lemma NotHashed(S: Suite<Tri, Tri, Tri>, hs: seq<Tri>, header: Octets, rest: Octets, ph: Octets)
    ensures DomainOctets(S, Padded(T1, 2 * POINT_LEN), Q1(S), hs, header) != Hashed(ph)
    ensures ScalarField(1) + rest != Hashed(ph)
  {
    hide Hashed, Index, PointFields, Bbs.Field;
    HashedStarts(ph);
    SmallField(1, SCALAR_LEN);
    assert DomainOctets(S, Padded(T1, 2 * POINT_LEN), Q1(S), hs, header)[0] == 1;
    assert (ScalarField(1) + rest)[7] == 0;
  }

  // ---- The credential ----

  lemma CurveFacts(special: Octets)
    ensures var S := Curve(special);
      && S.Valid() && S.r == 3 && S.Zero() == T0
      && S.encode2(S.PublicPoint(1)) == Padded(T1, 2 * POINT_LEN)
  {
    TriSuiteValid(Hash(special));
    TriMul(1, T1);
    hide Os2ip, Hash;
  }

  lemma AddedFour(a: int, b: int, c: int, d: int)
    ensures Added([a, b, c, d]) == a + b + c + d
  {
    assert [a, b, c, d][..3] == [a, b, c] && [a, b, c][..2] == [a, b];
    AddedTwo(a, b);
  }

  lemma DomainIsOne(special: Octets, ph: Octets)
    requires special == Hashed(ph)
    ensures Domain(Curve(special), Padded(T1, 2 * POINT_LEN), 4, VcHeader()) == 1
  {
    hide Hash, VcHeader, DomainOctets, Hashed, TriSuite, HPoints, Os2ip;
    var S := Curve(special);
    NotHashed(S, HPoints(S, 4), VcHeader(), [], ph);
    HashOf(special, DomainOctets(S, Padded(T1, 2 * POINT_LEN), Q1(S), HPoints(S, 4), VcHeader()), ScalarTag);
  }

  lemma ScalarIsOne(special: Octets, ph: Octets)
    requires special == Hashed(ph)
    ensures SignatureScalar(Curve(special), 1, Scalars(), 1) == 1
  {
    hide Hash, Fields, ScalarField, Hashed, TriSuite, Os2ip, Scalars;
    NotHashed(Curve(special), [], [], Fields(Scalars()) + ScalarField(1), ph);
    assert ScalarField(1) + (Fields(Scalars()) + ScalarField(1)) == ScalarField(1) + Fields(Scalars()) + ScalarField(1);
    HashOf(special, ScalarField(1) + Fields(Scalars()) + ScalarField(1), ScalarTag);
  }

  lemma BIsOne(special: Octets)
    ensures BValue(Curve(special), 1, Scalars()) == T1
  {
    TriB(Hash(special), 1, Scalars());
    AddedFour(1, 1, 1, 2);
    hide BValue, Hash, Added;
  }

  /** Domain and scalar are 1, and so is B. */
  lemma SignatureParts(special: Octets, ph: Octets)
    requires special == Hashed(ph)
    ensures var S := Curve(special);
      && Domain(S, Padded(T1, 2 * POINT_LEN), 4, VcHeader()) == 1 && BValue(S, 1, Scalars()) == T1
      && SignScalar(S, 1, VcHeader(), SignedMessages()) == 1 && SignB(S, 1, VcHeader(), SignedMessages()) == T1
  {
    hide SignedMessages, VcHeader, Domain, BValue, SignatureScalar, Hashed, Curve, MessageScalars;
    CurveFacts(special);
    MessagesAreScalars(special);
    DomainIsOne(special, ph);
    ScalarIsOne(special, ph);
    BIsOne(special);
  }

  /** The signature is the point 2 with the scalar 1. */
  lemma Signs(special: Octets, ph: Octets)
    requires special == Hashed(ph)
    ensures var S := Curve(special);
      var r := Sign(S, 1, VcHeader(), SignedMessages());
      r.Ok? && OctetsToSignature(S, r.value) == Some(Signature(T2, 1))
  {
    hide *;
    var S := Curve(special);
    CurveFacts(special);
    SignatureParts(special, ph);
    SignOutcome(S, 1, VcHeader(), SignedMessages());
    var a := SignedPoint(S, 1, VcHeader(), SignedMessages());
    HalfIsTwo(special, a);
    SignatureRoundTrip(S, a, 1);
  }

  lemma HalfIsTwo(special: Octets, a: Tri)
    requires Curve(special).Mul(1 + 1, a) == T1
    ensures a == T2
  {
    hide Os2ip, Hash;
    TriMul(2, a);
  }

  lemma OnlyThirteen()
    ensures Listed(E.EligibleClaims(Born(), Today())) == [Over13]
  {
    var claims := E.EligibleClaims(Born(), Today());
    assert Over13 in claims && Over16 !in claims && Over18 !in claims && Over21 !in claims;
    hide E.EligibleClaims;
    var order := [Over13, Over16, Over18, Over21];
    assert order[1..] == [Over16, Over18, Over21] && order[1..][1..] == [Over18, Over21];
    assert [Over18, Over21][1..] == [Over21] && [Over21][1..] == [];
    assert Chosen([Over21], claims) == [] && Chosen([Over18, Over21], claims) == [];
    assert Chosen([Over16, Over18, Over21], claims) == [];
  }

  function Card(special: Octets): AgeCredential
    requires Sign(Curve(special), 1, VcHeader(), SignedMessages()).Ok?
  {
    AgeCredential("issuer", "key", "material", AAL0, "epoch", [Over13],
                  Sign(Curve(special), 1, VcHeader(), SignedMessages()).value)
  }

  lemma Issues(special: Octets, ideal: bool, row: I.Enrollment)
    requires row.birth == Born() && 1 < row.expiresAt
    requires Sign(Curve(special), 1, VcHeader(), SignedMessages()).Ok?
    ensures var w := Surroundings(special, ideal);
      IssueCredential(w.setting, w.store, w.issuerId, Some(row), 1, Today()) == Ok(Card(special))
  {
    OnlyThirteen();
    hide Sign, E.EligibleClaims, Listed, Messages, VcHeader, Hash, Curve;
  }

  lemma CardSigned(special: Octets, ph: Octets)
    requires special == Hashed(ph)
    ensures Sign(Curve(special), 1, VcHeader(), SignedMessages()).Ok?
    ensures SignedBy(Place(special), 1, Card(special)) && CredentialMessages(Card(special)) == SignedMessages()
    ensures Place(special).suite == Curve(special)
  {
    hide *;
    Signs(special, ph);
    CurveFacts(special);
    SignatureParts(special, ph);
    CardUnfolds(special);
    SignedByUnfolds(special);
  }

  lemma CardUnfolds(special: Octets)
    requires Sign(Curve(special), 1, VcHeader(), SignedMessages()).Ok?
    ensures CredentialMessages(Card(special)) == SignedMessages() && Place(special).suite == Curve(special)
    ensures Card(special).signature == Sign(Curve(special), 1, VcHeader(), SignedMessages()).value
    ensures Place(special).decode(Card(special).issuerPublicKey) == Padded(T1, 2 * POINT_LEN)
  {
    hide Sign, Messages, VcHeader, Curve;
  }

  lemma SignedByUnfolds(special: Octets)
    requires Sign(Curve(special), 1, VcHeader(), SignedMessages()).Ok?
    requires CredentialMessages(Card(special)) == SignedMessages() && Place(special).suite == Curve(special)
    requires Card(special).signature == Sign(Curve(special), 1, VcHeader(), SignedMessages()).value
    requires Place(special).decode(Card(special).issuerPublicKey)
          == Curve(special).encode2(Curve(special).PublicPoint(1))
    requires SignScalar(Curve(special), 1, VcHeader(), SignedMessages()) == 1
    ensures SignedBy(Place(special), 1, Card(special))
  {
    hide Sign, Place, Curve, Card, CredentialMessages, SignedMessages, VcHeader, SignScalar;
  }

  // ---- The wallet's proofs ----

  lemma ShownAtThree(special: Octets)
    requires Sign(Curve(special), 1, VcHeader(), SignedMessages()).Ok?
    ensures DisclosedIndexes(Card(special), Over13) == Indexes() && Complement(Indexes(), 4) == []
    ensures InRange(Indexes(), 4) && Gather<nat>(Scalars(), Indexes()) == Scalars()
  {
    NothingLeft();
    hide Sign, Curve, Complement, VcHeader, SignedMessages;
    assert ClaimValues([Over13]) == ["AGE_OVER_13"];
    assert SortTexts(["AGE_OVER_13"][1..]) == [];
    ClaimListed(Card(special).claims, Over13);
  }

  lemma NothingLeft()
    ensures Complement(Indexes(), 4) == []
  {
    assert Complement(Indexes(), 0) == [] && Complement(Indexes(), 1) == [];
    assert Complement(Indexes(), 2) == [] && Complement(Indexes(), 3) == [];
  }

  /** The answer to challenge c; no scalar of it is 0. */
  function Answer(c: nat): Proof<Tri>
    requires c == 1 || c == 2
  {
    Proof(T2, T2, T1, c, 3 - c, 3 - c, [], c)
  }

  lemma CommitsToOpened(special: Octets, ph: Octets)
    requires special == Hashed(ph) && InRange(Indexes(), 4) && Complement(Indexes(), 4) == []
    ensures Commit(Curve(special), Padded(T1, 2 * POINT_LEN), Signature(T2, 1), VcHeader(), Scalars(), Indexes(),
                   Wallet()) == Opened()
  {
    SignatureParts(special, ph);
    hide Os2ip, Hash, Domain, BValue, SignScalar, SignB, Hashed, Complement, VcHeader;
    TriMul(0, T2);
    TriMul(0, T1);
    TriMul(1, T1);
    TriMul(1, T2);
  }

  lemma RespondsAnswer(special: Octets, c: nat)
    requires c == 1 || c == 2
    ensures Respond(Curve(special), Opened(), 1, Wallet(), [], c) == Answer(c)
    ensures ScalarsInRange(Curve(special), ProofScalars(Answer(c)))
    ensures ScalarsBelow(Curve(special), ProofScalars(Answer(c)))
    ensures WellFormed(Curve(special), Answer(c))
  {
    InverseIsOne(special);
    CredentialExamples.AnswerScalars(c);
    hide Inverse, TriSuite;
    assert Curve(special).Zero() == T0 by {
      CurveFacts(special);
    }
  }

  lemma InverseIsOne(special: Octets)
    ensures Curve(special).r == 3 && Inverse(Curve(special), 1) == 1
  {
    InverseOfOne();
    hide ModInv, Coprime, Hash;
  }

  lemma ChallengeIs(special: Octets, ph: Octets)
    ensures ChallengeFor(Curve(special), Opened(), Scalars(), Indexes(), ph) == if special == Hashed(ph) then 2 else 1
  {
    HashOf(special, Hashed(ph), ScalarTag);
    hide Os2ip, Index, ScalarField, Pairs, Hash, Thirteen;
  }

  /** The wallet's proof under a header. */
  lemma Proves(special: Octets, ph: Octets, ph2: Octets, c: nat)
    requires special == Hashed(ph2) && (c == 1 || c == 2) && (c == 2 <==> special == Hashed(ph))
    requires InRange(Indexes(), 4) && Complement(Indexes(), 4) == [] && Gather<nat>(Scalars(), Indexes()) == Scalars()
    ensures Prove(Curve(special), Padded(T1, 2 * POINT_LEN), Signature(T2, 1), VcHeader(), ph, Scalars(), Indexes(),
                  Wallet()) == Answer(c)
  {
    CommitsToOpened(special, ph2);
    ChallengeIs(special, ph);
    RespondsAnswer(special, c);
    hide Commit, ChallengeFor, Respond, Complement, Hashed, Curve, VcHeader, ScalarsInRange, WellFormed;
    assert Gather<nat>(Scalars(), []) == [];
  }

  lemma HeadersDiffer()
    ensures HeaderFor("a") != HeaderFor("b") && |HeaderFor("a")| <= 4904 && |HeaderFor("b")| <= 4904
  {
    hide PresentationHeader;
    HeaderBindsDomain(VcBinding(Asked("a"), 1), VcBinding(Asked("b"), 1), Iso);
    HeaderLength(VcBinding(Asked("a"), 1), Iso, 12);
    HeaderLength(VcBinding(Asked("b"), 1), Iso, 12);
  }

  lemma SmallFits()
    ensures 4904 < LENGTH_LIMIT && IndexesFit(Indexes()) && ScalarsFit(Scalars())
  {
    PowMonotone(256, 2, 8);
    PowMonotone(256, 2, 32);
    assert Pow(256, 2) == 256 * Pow(256, 1) && Pow(256, 1) == 256 * Pow(256, 0);
    hide Pow;
  }

  /** The marked string is what the proof for the second challenge hashes. */
  function Mark(): Octets { Hashed(HeaderFor("b")) }

  lemma OnlySecondMarked()
    ensures Hashed(HeaderFor("a")) != Mark() == Hashed(HeaderFor("b"))
  {
    HeadersDiffer();
    SmallFits();
    TinyFacts(1);
    hide ChallengeOctets, Tiny, HeaderFor;
    if Hashed(HeaderFor("a")) == Hashed(HeaderFor("b")) {
      ChallengeOctetsInjective(Tiny(1), Opened(), Scalars(), Indexes(), HeaderFor("a"),
                               Opened(), Scalars(), Indexes(), HeaderFor("b"));
    }
  }

  /** The challenge of the proof for this id. */
  function ChallengeOf(id: string): nat { if id == "b" then 2 else 1 }

  lemma ProvesFor(id: string)
    requires id == "a" || id == "b"
    ensures Sign(Curve(Mark()), 1, VcHeader(), SignedMessages()).Ok?
    ensures InRange(Indexes(), 4) && Complement(Indexes(), 4) == []
    ensures Prove(Curve(Mark()), Padded(T1, 2 * POINT_LEN), Signature(T2, 1), VcHeader(), HeaderFor(id), Scalars(),
                  Indexes(), Wallet()) == Answer(ChallengeOf(id))
  {
    OnlySecondMarked();
    hide *;
    FewDraws();
    Signs(Mark(), HeaderFor("b"));
    ShownAtThree(Mark());
    ChallengeIsOne(id);
    Proves(Mark(), HeaderFor(id), HeaderFor("b"), ChallengeOf(id));
  }

  lemma ChallengeIsOne(id: string)
    ensures ChallengeOf(id) == if id == "b" then 2 else 1
  {}

  lemma FewDraws()
    ensures |Wallet().mTildes| == 0 && |Scalars()| == 4 == |Indexes()| && POINT_LEN == 48
  {}

  /** What the wallet needs before it proves. */
  lemma WalletReady(id: string)
    requires id == "a" || id == "b"
    ensures Sign(Curve(Mark()), 1, VcHeader(), SignedMessages()).Ok?
    ensures var w, cred, ch := Place(Mark()), Card(Mark()), Asked(id);
      && w.suite.Valid() && SignedBy(w, 1, cred) && ch.requiredClaim in cred.claims
      && Drawn(w, cred, ch.requiredClaim, Wallet()) && AssuranceAtLeast(cred.assurance, ch.minimumAssurance)
      && NoZeroScalar(w, cred, ch, 1, Wallet())
  {
    hide *;
    OnlySecondMarked();
    CardSigned(Mark(), HeaderFor("b"));
    CardUnfolds(Mark());
    CardFields(Mark(), id);
    CurveFacts(Mark());
    MessagesAreScalars(Mark());
    ShownAtThree(Mark());
    DrawsAreDrawn(id);
    Signs(Mark(), HeaderFor("b"));
    ProvesFor(id);
    ChallengeIsOne(id);
    RespondsAnswer(Mark(), ChallengeOf(id));
    HeaderOf(id);
    FewDraws();
    ScalarsAre();
    NoZeroUnfolds(Place(Mark()), Card(Mark()), Asked(id), Answer(ChallengeOf(id)));
  }

  lemma DrawsAreDrawn(id: string)
    requires Sign(Curve(Mark()), 1, VcHeader(), SignedMessages()).Ok?
    requires CredentialMessages(Card(Mark())) == SignedMessages() && Place(Mark()).suite == Curve(Mark())
    requires |SignedMessages()| == 4 && Over13 in Card(Mark()).claims && Curve(Mark()).r == 3
    requires DisclosedIndexes(Card(Mark()), Over13) == Indexes() && Complement(Indexes(), 4) == []
    ensures Drawn(Place(Mark()), Card(Mark()), Over13, Wallet()) && Asked(id).minimumAssurance == AAL0
    ensures AssuranceAtLeast(AAL0, AAL0)
  {
    hide Sign, Curve, Mark, Place, Card, Complement, DisclosedIndexes, CredentialMessages, SignedMessages, VcHeader;
  }

  lemma NoZeroUnfolds(w: Setting<Tri, Tri, Tri>, cred: AgeCredential, ch: Challenge, proof: Proof<Tri>)
    requires ch.requiredClaim in cred.claims && Drawn(w, cred, ch.requiredClaim, Wallet())
    requires OctetsToSignature(w.suite, cred.signature) == Some(Signature(T2, 1))
    requires var ms := MessageScalars(w.suite, CredentialMessages(cred));
      var idx := DisclosedIndexes(cred, ch.requiredClaim);
      && InRange(idx, |ms|) && |Wallet().mTildes| == |Complement(idx, |ms|)|
      && Prove(w.suite, w.decode(cred.issuerPublicKey), Signature(T2, 1), VcHeader(),
               PresentationHeader(VcBinding(ch, 1), w.iso), ms, idx, Wallet()) == proof
    requires ScalarsInRange(w.suite, ProofScalars(proof))
    ensures NoZeroScalar(w, cred, ch, 1, Wallet())
  {
    hide Prove, OctetsToSignature, MessageScalars, CredentialMessages, DisclosedIndexes, PresentationHeader, VcHeader;
    hide ScalarsInRange, ProofScalars, Complement, Wallet, Drawn, IsDrawn;
  }

  /** vc_prove makes a presentation that verifies. */
  lemma WalletProves(id: string) returns (p: VcPresentation)
    requires id == "a" || id == "b"
    ensures Sign(Curve(Mark()), 1, VcHeader(), SignedMessages()).Ok?
    ensures var w, cred, ch := Place(Mark()), Card(Mark()), Asked(id);
      && ch.requiredClaim in cred.claims && Drawn(w, cred, ch.requiredClaim, Wallet())
      && VcProve(w, cred, ch, 1, Wallet()) == Ok(p) && IsPresentation(cred, ch, 1, p) && Proven(w, Key(), p)
  {
    hide *;
    var w, ch := Place(Mark()), Asked(id);
    WalletReady(id);
    var cred := Card(Mark());
    CardFields(Mark(), id);
    ProofMade(w, 1, cred, ch, 1, Wallet());
    p := VcProve(w, cred, ch, 1, Wallet()).value;
    ProvenExact(w, cred, ch, Key(), 1, p, true);
  }

  lemma CardFields(special: Octets, id: string)
    requires Sign(Curve(special), 1, VcHeader(), SignedMessages()).Ok?
    ensures var cred := Card(special);
      && cred.issuerPublicKey == Key().publicKey == "material" && Key().assurance == Some(cred.assurance)
      && Key().epoch == Some(cred.epoch) && cred.claims == [Over13] && cred.assurance == AAL0 && cred.epoch == "epoch"
      && cred.issuerId == "issuer" && cred.issuerKeyId == "key"
    ensures 1 <= Asked(id).expiresAt && Asked(id).requiredClaim == Over13
  {
    hide Sign, Curve;
  }

  // ---- Two proofs over one transcript ----

  lemma VcProofUnfolds(w: Setting<Tri, Tri, Tri>, cred: AgeCredential, ch: Challenge, rnd: Randoms, p: VcPresentation)
    requires ch.requiredClaim in cred.claims && Drawn(w, cred, ch.requiredClaim, rnd)
    requires VcProve(w, cred, ch, 1, rnd) == Ok(p)
    ensures IsDrawn(w.suite, rnd, DisclosedIndexes(cred, ch.requiredClaim), |CredentialMessages(cred)|)
    ensures ProofGen(w.suite, w.decode(cred.issuerPublicKey), cred.signature, VcHeader(),
                     PresentationHeader(VcBinding(ch, 1), w.iso), CredentialMessages(cred),
                     DisclosedIndexes(cred, ch.requiredClaim), rnd) == Ok(p.proof)
  {
    hide ProofGen, DisclosedIndexes, CredentialMessages, PresentationHeader, VcHeader, IsDrawn;
  }

  lemma GenUnfolds(S: Suite<Tri, Tri, Tri>, pk: Octets, signature: Octets, header: Octets, ph: Octets,
      messages: seq<Octets>, idx: seq<nat>, rnd: Randoms, sig: Signature<Tri>, o: Octets)
    requires IsDrawn(S, rnd, idx, |messages|) && OctetsToSignature(S, signature) == Some(sig)
    requires ProofGen(S, pk, signature, header, ph, messages, idx, rnd) == Ok(o)
    ensures InRange(idx, |messages|) && |rnd.mTildes| == |Complement(idx, |messages|)|
    ensures o == ProofToOctets(S, Prove(S, pk, sig, header, ph, MessageScalars(S, messages), idx, rnd))
  {
    hide OctetsToKey, OctetsToSignature, Prove, ProofToOctets, Complement;
  }

  lemma ProofIsAnswer(id: string, p: VcPresentation)
    requires id == "a" || id == "b"
    requires Sign(Curve(Mark()), 1, VcHeader(), SignedMessages()).Ok?
    requires var w, cred, ch := Place(Mark()), Card(Mark()), Asked(id);
      && ch.requiredClaim in cred.claims && Drawn(w, cred, ch.requiredClaim, Wallet())
      && VcProve(w, cred, ch, 1, Wallet()) == Ok(p)
    ensures OctetsToProof(Curve(Mark()), p.proof) == Some(Answer(ChallengeOf(id)))
  {
    hide *;
    OnlySecondMarked();
    FewDraws();
    CardUnfolds(Mark());
    CardFields(Mark(), id);
    HeaderOf(id);
    Signs(Mark(), HeaderFor("b"));
    MessagesAreScalars(Mark());
    CurveFacts(Mark());
    ShownAtThree(Mark());
    VcProofUnfolds(Place(Mark()), Card(Mark()), Asked(id), Wallet(), p);
    GenUnfolds(Curve(Mark()), Padded(T1, 2 * POINT_LEN), Card(Mark()).signature, VcHeader(), HeaderFor(id),
               SignedMessages(), Indexes(), Wallet(), Signature(T2, 1), p.proof);
    ProvesFor(id);
    ChallengeIsOne(id);
    ScalarsAre();
    RespondsAnswer(Mark(), ChallengeOf(id));
    AnswerPoints(ChallengeOf(id));
    ProofRoundTrip(Curve(Mark()), Answer(ChallengeOf(id)));
  }

  lemma ScalarsAre()
    ensures Scalars() == [1, 1, 1, 2]
  {}

  lemma AnswerPoints(c: nat)
    requires c == 1 || c == 2
    ensures Answer(c).abar != T0 && Answer(c).bbar != T0 && Answer(c).d != T0
  {}

  lemma HeaderOf(id: string)
    ensures PresentationHeader(VcBinding(Asked(id), 1), Place(Mark()).iso) == HeaderFor(id)
  {
    hide PresentationHeader, Mark, Curve;
  }

  /** The verifier rebuilds the transcript from either answer. */
  lemma Reopens(special: Octets, ph: Octets, c: nat)
    requires special == Hashed(ph) && (c == 1 || c == 2)
    ensures InRange(Indexes(), 4) && |Scalars()| == |Indexes()|
    ensures Recompute(Curve(special), Padded(T1, 2 * POINT_LEN), Answer(c), VcHeader(), 4, Scalars(), Indexes())
         == Opened()
  {
    SignatureParts(special, ph);
    DisclosedIsOne(special);
    var S := Curve(special);
    hide Os2ip, Hash, Domain, BValue, SignScalar, SignB, Hashed, Complement, VcHeader, DisclosedB, Scalars;
    TriMul(c, T2);
    TriMul(c, T1);
    TriMul(3 - c, T1);
    assert RecomputeT1(S, Answer(c)) == T0;
    assert RecomputeT2(S, Answer(c), T1, HiddenPoints(S, 4, Indexes())) == T0 by {
      NothingHidden(special, c);
    }
  }

  lemma NothingHidden(special: Octets, c: nat)
    requires c == 1 || c == 2
    ensures RecomputeT2(Curve(special), Answer(c), T1, HiddenPoints(Curve(special), 4, Indexes())) == T0
  {
    TriMul(c, T1);
    TriMul(3 - c, T1);
    hide Os2ip, Hash, HiddenPoints;
  }

  lemma DisclosedIsOne(special: Octets)
    ensures InRange(Indexes(), 4) && |Scalars()| == |Indexes()|
    ensures DisclosedB(Curve(special), 1, 4, Indexes(), Scalars()) == T1
  {
    hide HPoints, BStart, Hash, Os2ip, Accumulate, Added;
    var pts := Gather(HPoints(Curve(special), 4), Indexes());
    TriGenerators(Hash(special), 1, 4);
    OnePlus(1);
    AddedFour(1, 1, 1, 2);
    TriSum(2, pts, Scalars());
    assert TriOf(2 + 5) == T1;
    hide TriOf;
  }

  lemma BothExtract(special: Octets)
    ensures ExtractR1(Curve(special), Answer(1), Answer(2)) == 1 == ExtractR3(Curve(special), Answer(1), Answer(2))
  {
    DeltaIsTwo(special);
    hide Delta, TriSuite;
    assert Curve(special).r == 3 by {
      CurveFacts(special);
    }
    assert (2 * (1 - 2)) % 3 == 1;
  }

  lemma DeltaIsTwo(special: Octets)
    ensures Delta(Curve(special), 1, 2) == 2
  {
    hide *;
    var S := Curve(special);
    CurveFacts(special);
    InverseOfDraw(S, 2);
    CredentialExamples.DeltaUnfolds(S);
    CredentialExamples.InverseOfTwo(Inverse(S, 2));
  }

  /** The two presentations of the wallet show the same and reopen one transcript. */
  lemma TwoShowings() returns (p: VcPresentation, q: VcPresentation)
    ensures Sign(Curve(Mark()), 1, VcHeader(), SignedMessages()).Ok?
    ensures Over13 in Card(Mark()).claims
    ensures IsPresentation(Card(Mark()), Asked("a"), 1, p) && IsPresentation(Card(Mark()), Asked("b"), 1, q)
    ensures Proven(Place(Mark()), Key(), p) && Proven(Place(Mark()), Key(), q)
    ensures SameShowing(Place(Mark()), p, q, Key())
  {
    hide *;
    p := WalletProves("a");
    q := WalletProves("b");
    CardFields(Mark(), "a");
    CardFields(Mark(), "b");
    ProofIsAnswer("a", p);
    ProofIsAnswer("b", q);
    ChallengeIsOne("a");
    ChallengeIsOne("b");
    ShownFields("a", p);
    ShownFields("b", q);
    OnlySecondMarked();
    Reopens(Mark(), HeaderFor("b"), 1);
    Reopens(Mark(), HeaderFor("b"), 2);
    BothExtract(Mark());
    MessagesAreScalars(Mark());
    RebuiltAreSigned(p);
    Together(Mark(), p, q);
  }

  /** What a presentation of the wallet shows. */
  lemma ShownFields(id: string, p: VcPresentation)
    requires Sign(Curve(Mark()), 1, VcHeader(), SignedMessages()).Ok? && Over13 in Card(Mark()).claims
    requires Asked(id).requiredClaim in Card(Mark()).claims && IsPresentation(Card(Mark()), Asked(id), 1, p)
    ensures p.issuerId == "issuer" && p.requiredClaim == Over13 && p.disclosedIndexes == Indexes()
    ensures p.issuerKeyId == "key" && p.assurance == AAL0 && p.epoch == "epoch" && p.binding == VcBinding(Asked(id), 1)
    ensures AllNat(p.disclosedIndexes) && AsNats(p.disclosedIndexes) == Indexes()
  {
    hide *;
    ShownAtThree(Mark());
    CardFields(Mark(), id);
    ShellFields(Card(Mark()), Asked(id), p);
    NatIndexes(p.disclosedIndexes);
  }

  lemma ShellFields(cred: AgeCredential, ch: Challenge, p: VcPresentation)
    requires ch.requiredClaim in cred.claims && IsPresentation(cred, ch, 1, p)
    ensures p.issuerId == cred.issuerId && p.issuerKeyId == cred.issuerKeyId && p.requiredClaim == ch.requiredClaim
    ensures p.assurance == cred.assurance && p.epoch == cred.epoch && p.binding == VcBinding(ch, 1)
    ensures p.disclosedIndexes == DisclosedIndexes(cred, ch.requiredClaim)
  {
    hide DisclosedIndexes;
  }

  lemma NatIndexes(indexes: seq<int>)
    ensures indexes == Indexes() ==> AllNat(indexes) && AsNats(indexes) == Indexes()
  {}

  lemma RebuiltAreSigned(p: VcPresentation)
    requires p.issuerId == "issuer" && p.requiredClaim == Over13
    ensures Rebuilt(p, AAL0, "epoch") == SignedMessages()
  {
    SignedTexts();
    hide Utf8.Encode, SignedMessages;
    assert ["issuer", "AAL0", "epoch", "AGE_OVER_13"][3] == "AGE_OVER_13";
  }

  lemma Together(special: Octets, p: VcPresentation, q: VcPresentation)
    requires p.issuerId == q.issuerId && p.requiredClaim == q.requiredClaim && p.disclosedIndexes == q.disclosedIndexes
    requires AllNat(p.disclosedIndexes) && AsNats(p.disclosedIndexes) == Indexes() && InRange(Indexes(), 4)
    requires Rebuilt(p, AAL0, "epoch") == SignedMessages() && |Scalars()| == |Indexes()|
    requires MessageScalars(Curve(special), SignedMessages()) == [1, 1, 1, 2]
    requires OctetsToProof(Curve(special), p.proof) == Some(Answer(1))
    requires OctetsToProof(Curve(special), q.proof) == Some(Answer(2))
    requires Recompute(Curve(special), Padded(T1, 2 * POINT_LEN), Answer(1), VcHeader(), 4, Scalars(), Indexes())
          == Recompute(Curve(special), Padded(T1, 2 * POINT_LEN), Answer(2), VcHeader(), 4, Scalars(), Indexes())
    requires ExtractR1(Curve(special), Answer(1), Answer(2)) == 1 == ExtractR3(Curve(special), Answer(1), Answer(2))
    ensures SameShowing(Place(special), p, q, Key())
  {
    hide OctetsToProof, Recompute, ExtractR1, ExtractR3, VcHeader, Rebuilt, MessageScalars, Curve, AsNats;
    hide SignedMessages;
    assert |SignedMessages()| == |MessageScalars(Curve(special), SignedMessages())|;
  }

  // ---- The run ----

  lemma PlayMore(w: World<Tri, Tri, Tri>, actions: seq<Action>, a: Action)
    ensures Play(w, []) == System(Start(), map[], [])
    ensures Play(w, actions + [a]) == Act(w, Play(w, actions), a)
  {
    assert (actions + [a])[..|actions|] == actions;
  }

  lemma EnrollStep(w: World<Tri, Tri, Tri>)
    ensures Act(w, System(Start(), map[], []), Enroll("person", Born(), 0))
         == System(Start(), map["person" := I.Enrollment(Born(), Issuance.ENROLLMENT_TTL)], [])
  {}

  lemma IssueStep(w: World<Tri, Tri, Tri>, s: System, cred: AgeCredential)
    requires "person" in s.enrollments && s.credentials == []
    requires IssueCredential(w.setting, w.store, w.issuerId, Some(s.enrollments["person"]), 1, Today()) == Ok(cred)
    ensures Act(w, s, IssueVc("person", 1, Today()))
         == s.(credentials := [IssuedVc(cred, "person", s.enrollments["person"], 1, Today())])
  {
    hide IssueCredential, Today;
  }

  /** Enrolled, and issued a credential. */
  function Prepared(): seq<Action>
  {
    [] + [Enroll("person", Born(), 0)] + [IssueVc("person", 1, Today())]
  }

  lemma PreparedIs()
    ensures Prepared() == [] + [Enroll("person", Born(), 0)] + [IssueVc("person", 1, Today())]
    ensures 1 < Issuance.ENROLLMENT_TTL
  {}

  lemma PreparedState(ideal: bool)
    ensures Sign(Curve(Mark()), 1, VcHeader(), SignedMessages()).Ok?
    ensures var s := Play(Surroundings(Mark(), ideal), Prepared());
      s.redemption == Start() && |s.credentials| == 1 && s.credentials[0].cred == Card(Mark())
  {
    hide *;
    var w := Surroundings(Mark(), ideal);
    var row := I.Enrollment(Born(), Issuance.ENROLLMENT_TTL);
    OnlySecondMarked();
    CardSigned(Mark(), HeaderFor("b"));
    PreparedIs();
    PlayMore(w, [], Enroll("person", Born(), 0));
    PlayMore(w, [] + [Enroll("person", Born(), 0)], IssueVc("person", 1, Today()));
    EnrollStep(w);
    Issues(Mark(), ideal, row);
    IssueStep(w, System(Start(), map["person" := row], []), Card(Mark()));
  }

  lemma ShownScalarsAre(special: Octets, p: VcPresentation)
    requires p.issuerId == "issuer" && p.requiredClaim == Over13
    ensures Key().assurance.Some? && Key().epoch.Some? && ShownScalars(Place(special), p, Key()) == [1, 1, 1, 2]
  {
    hide ScalarOf, Place;
    TextScalar(special, "issuer");
    TextScalar(special, "AAL0");
    TextScalar(special, "epoch");
    TextScalar(special, "AGE_OVER_13");
  }

  /** What was issued covers what is presented. */
  lemma CardCovers(p: VcPresentation)
    requires Sign(Curve(Mark()), 1, VcHeader(), SignedMessages()).Ok?
    requires p.issuerId == "issuer" && p.requiredClaim == Over13 && p.disclosedIndexes == Indexes()
    ensures Covers(Place(Mark()), Card(Mark()), p, Key())
  {
    hide Sign, Curve, Mark, Place, ShownScalars, VcHeader, SignedMessages, Card, MessageScalars, CredentialMessages;
    ShownScalarsAre(Mark(), p);
    CardUnfolds(Mark());
    MessagesAreScalars(Mark());
    OneKey(Mark());
  }

  lemma OneKey(special: Octets)
    requires Sign(Curve(special), 1, VcHeader(), SignedMessages()).Ok?
    ensures Place(special).decode(Card(special).issuerPublicKey) == Place(special).decode(Key().publicKey)
  {
    hide Sign, Curve, VcHeader, SignedMessages;
  }

  lemma CoversBacks(w: World<Tri, Tri, Tri>, credentials: seq<IssuedVc>, p: VcPresentation, key: IssuerKey)
    requires |credentials| == 1 && VcKey(w.site, p) == Some(key) && Covers(w.setting, credentials[0].cred, p, key)
    requires Proven(w.setting, key, p)
    ensures Verifies(w, credentials, p)
  {
    hide VcKey, Covers, Proven;
  }

  lemma SiteIsReady(p: VcPresentation, pending: map<string, Challenge>)
    requires p.issuerId == "issuer" && p.issuerKeyId == "key" && p.requiredClaim == Over13 && p.assurance == AAL0
    requires p.epoch == "epoch" && p.binding == VcBinding(Asked("a"), 1) && p.disclosedIndexes == Indexes()
    requires "a" in pending && pending["a"] == Asked("a")
    ensures SiteReady(Checker(), p, Asked("a"), pending, Key(), 1, 1) && DisclosureShape(p.disclosedIndexes)
    ensures VcKey(Checker(), p) == Some(Key())
  {}

  /** A step changes the redemption only; the last one asks the verifier's proof check. */
  lemma RedeemStep(w: World<Tri, Tri, Tri>, s: System, step: Step)
    requires step.Finish? ==>
      step.call in s.redemption.calls && s.redemption.calls[step.call].VcCall? && step.proven
      && Verifies(w, s.credentials, s.redemption.calls[step.call].vc)
    ensures Act(w, s, Redeem(step)) == s.(redemption := Apply(w.site, w.hash, s.redemption, step))
  {
    hide Apply, Verifies;
  }

  /** Creating the challenge, and the steps of the call one after the other. */
  function Showing(p: VcPresentation): seq<Action>
  {
    Prepared() + [Redeem(Create("a", "a", Over13, AAL0, 1, 5))] + [Redeem(BeginVc(0, p))] + [Redeem(Check(0, 1, false))]
    + [Redeem(Consume(0, 1))] + [Redeem(Finish(0, true))]
  }

  lemma ShowingSteps(w: World<Tri, Tri, Tri>, p: VcPresentation)
    requires Play(w, Prepared()).redemption == Start() && Verifies(w, Play(w, Prepared()).credentials, p)
    ensures var s0 := Apply(w.site, w.hash, Start(), Create("a", "a", Over13, AAL0, 1, 5));
      var t := Play(w, Showing(p));
      && 0 in t.redemption.calls && t.redemption.calls[0].VcCall? && t.redemption.calls[0].vc == p
      && t.redemption.calls[0].phase == Done(VerifyVcAlone(w.site, p, true, 1, 1, s0.pending).verdict)
  {
    hide Play, Act, Verifies, VerifyVcAlone, Prepared;
    var create := Create("a", "a", Over13, AAL0, 1, 5);
    var a0 := Prepared();
    var a1 := a0 + [Redeem(create)];
    var a2 := a1 + [Redeem(BeginVc(0, p))];
    var a3 := a2 + [Redeem(Check(0, 1, false))];
    var a4 := a3 + [Redeem(Consume(0, 1))];
    PlayMore(w, a0, Redeem(create));
    PlayMore(w, a1, Redeem(BeginVc(0, p)));
    PlayMore(w, a2, Redeem(Check(0, 1, false)));
    PlayMore(w, a3, Redeem(Consume(0, 1)));
    PlayMore(w, a4, Redeem(Finish(0, true)));
    RedeemStep(w, Play(w, a0), create);
    RedeemStep(w, Play(w, a1), BeginVc(0, p));
    RedeemStep(w, Play(w, a2), Check(0, 1, false));
    RedeemStep(w, Play(w, a3), Consume(0, 1));
    var s0 := Apply(w.site, w.hash, Start(), create);
    assert s0.calls == map[];
    StillTheCall(w, s0, p);
    hide Apply;
    RedeemStep(w, Play(w, a4), Finish(0, true));
    VcCallAlone(w.site, w.hash, s0, 0, p, true, 1, 1);
  }

  /** The call keeps its presentation, and reaches the last step. */
  lemma StillTheCall(w: World<Tri, Tri, Tri>, s: State, p: VcPresentation)
    requires 0 !in s.calls
    ensures var s3 := Apply(w.site, w.hash, Apply(w.site, w.hash, Apply(w.site, w.hash, s, BeginVc(0, p)),
                            Check(0, 1, false)), Consume(0, 1));
      && 0 in s3.calls && s3.calls[0].VcCall? && s3.calls[0].vc == p
      && var s4 := Apply(w.site, w.hash, s3, Finish(0, true));
      0 in s4.calls && s4.calls[0].VcCall? && s4.calls[0].vc == p
  {
    hide VcLocal, VcChallenged, VcDecided, Consumed;
  }

  /**
   * In this run, ideal or not, call 0 is allowed with the presentation that
   * vc_prove made, of a claim that nothing else is mapped to; and the wallet's
   * second presentation reopens its transcript.
   */
  lemma OneCredentialShown(ideal: bool) returns (p: VcPresentation, q: VcPresentation)
    ensures var w := Surroundings(Mark(), ideal);
      && w.setting.suite.Valid() && ClaimApart(w.setting, p.requiredClaim) && p.disclosedIndexes == [0, 1, 2, 3]
      && Showed(w, Play(w, Showing(p)), 0, p, Key())
      && Proven(w.setting, Key(), p) && Proven(w.setting, Key(), q) && SameShowing(w.setting, p, q, Key())
  {
    hide *;
    var w := Surroundings(Mark(), ideal);
    p, q := TwoShowings();
    PreparedState(ideal);
    CardFields(Mark(), "a");
    ShownFields("a", p);
    CardCovers(p);
    CurveFacts(Mark());
    ThirteenApart(Mark());
    SurroundingsAre(ideal);
    var pending := Apply(w.site, w.hash, Start(), Create("a", "a", Over13, AAL0, 1, 5)).pending;
    SiteIsReady(p, pending);
    CoversBacks(w, Play(w, Prepared()).credentials, p, Key());
    ShowingSteps(w, p);
    AllowedIffProven(w.site, p, Asked("a"), pending, Key(), 1, 1, true);
    ShowedUnfolds(w, Play(w, Showing(p)), p);
  }

  lemma SurroundingsAre(ideal: bool)
    ensures var w := Surroundings(Mark(), ideal);
      && w.site == Checker() && w.setting == Place(Mark()) && w.setting.suite == Curve(Mark())
      && var pending := Apply(w.site, w.hash, Start(), Create("a", "a", Over13, AAL0, 1, 5)).pending;
      "a" in pending && pending["a"] == Asked("a")
    ensures Indexes() == [0, 1, 2, 3]
  {
    hide Mark, Curve;
  }

  lemma ShowedUnfolds(w: World<Tri, Tri, Tri>, s: System, p: VcPresentation)
    requires 0 in s.redemption.calls && s.redemption.calls[0].VcCall? && s.redemption.calls[0].vc == p
    requires s.redemption.calls[0].phase.Done? && s.redemption.calls[0].phase.v.allow && VcKey(w.site, p) == Some(Key())
    ensures Showed(w, s, 0, p, Key())
  {
    hide VcKey, Key;
  }
}
