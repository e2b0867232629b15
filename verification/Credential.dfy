// A credential from issuance (issue_credential, blindage/issuer/app.py) over
// vc_prove (blindage/wallet/client.py) to verify_vc_presentation.
module Credential {
  import opened Octets
  import opened Results
  import opened Schemas
  import opened Verifier
  import opened MessageVector
  import Registry
  import Wallet
  import Utf8
  import Sums
  import B = Bbs
  import E = BbsEncoding
  import P = BbsProtocol
  import I = Issuer
  import Eligibility
  import Anchor

  /** The suite, base64url decoding of public keys, the JSON form of instants, and the issuer's secrets. */
  datatype Setting<!G1(!new), !G2(!new), !GT(!new)> = Setting(
    suite: B.Suite<G1, G2, GT>, decode: string -> Octets, iso: int -> string, secret: I.KeyEntry -> nat)

  function VcHeader(): Octets { Utf8.Encode("blindage-vc-v1") }

  // ---- Issuance ----

  function Chosen(order: seq<AgeClaim>, claims: set<AgeClaim>): seq<AgeClaim>
  {
    if |order| == 0 then []
    else (if order[0] in claims then [order[0]] else []) + Chosen(order[1..], claims)
  }

  /** The claims of a set, as the source's sorted list of values. */
  function Listed(claims: set<AgeClaim>): seq<AgeClaim>
  {
    Chosen([Over13, Over16, Over18, Over21], claims)
  }

  ghost predicate Ascending(cs: seq<AgeClaim>)
  {
    forall i, j :: 0 <= i < j < |cs| ==> ValueBefore(cs[i], cs[j])
  }

  lemma {:induction false} ChosenFacts(order: seq<AgeClaim>, claims: set<AgeClaim>)
    requires Ascending(order)
    ensures forall c :: c in Chosen(order, claims) <==> c in order && c in claims
    ensures Ascending(Chosen(order, claims))
  {
    hide ValueBefore;
    if |order| > 0 {
      ChosenFacts(order[1..], claims);
      var r, rest := Chosen(order, claims), Chosen(order[1..], claims);
      forall i | 0 <= i < |rest| ensures ValueBefore(order[0], rest[i]) {
        assert rest[i] in order[1..];
        var k :| 0 <= k < |order[1..]| && order[1..][k] == rest[i];
        assert ValueBefore(order[0], order[k + 1]);
      }
    }
  }

  /** Listed is sorted(): the claims in order of their values, each once. */
  lemma ListedIsSorted(claims: set<AgeClaim>)
    ensures forall c :: c in Listed(claims) <==> c in claims
    ensures Ascending(Listed(claims))
  {
    var order := [Over13, Over16, Over18, Over21];
    ValuesAscend();
    assert Ascending(order) by {
      hide ValueBefore;
    }
    hide ValueBefore, Chosen;
    ChosenFacts(order, claims);
    forall c ensures c in order {
      assert c == order[0] || c == order[1] || c == order[2] || c == order[3];
    }
  }

  predicate ValueBefore(c: AgeClaim, d: AgeClaim)
  {
    Utf8.LexLess(Utf8.CodePoints(ClaimValue(c)), Utf8.CodePoints(ClaimValue(d)))
  }

  lemma ValuesAscend()
    ensures ValueBefore(Over13, Over16) && ValueBefore(Over13, Over18) && ValueBefore(Over13, Over21)
    ensures ValueBefore(Over16, Over18) && ValueBefore(Over16, Over21) && ValueBefore(Over18, Over21)
  {
    FirstDifference("AGE_OVER_13", "AGE_OVER_16", 10);
    FirstDifference("AGE_OVER_13", "AGE_OVER_18", 10);
    FirstDifference("AGE_OVER_13", "AGE_OVER_21", 9);
    FirstDifference("AGE_OVER_16", "AGE_OVER_18", 10);
    FirstDifference("AGE_OVER_16", "AGE_OVER_21", 9);
    FirstDifference("AGE_OVER_18", "AGE_OVER_21", 9);
  }

  lemma FirstDifference(s: string, t: string, k: nat)
    requires k < |s| && k < |t| && s[..k] == t[..k] && s[k] < t[k]
    ensures Utf8.LexLess(Utf8.CodePoints(s), Utf8.CodePoints(t))
  {
    forall i | 0 <= i < k ensures Utf8.CodePoints(s)[i] == Utf8.CodePoints(t)[i] {
      assert s[i] == s[..k][i] == t[..k][i] == t[i];
    }
    Utf8.LexAt(Utf8.CodePoints(s), Utf8.CodePoints(t), k);
  }

  function Messages(issuerId: string, assurance: AssuranceLevel, epoch: string, claims: seq<AgeClaim>): seq<Octets>
  {
    Vector(issuerId, LevelValue(assurance), epoch, ClaimValues(claims))
  }

  /** POST /v1/credentials/issue; an exception out of bbs_sign or an unknown level is a 500. */
  function IssueCredential<G1(==, !new), G2(==, !new), GT(==, !new)>(
      w: Setting<G1, G2, GT>, store: I.KeyStore, issuerId: string, row: Option<I.Enrollment>, now: int,
      today: Eligibility.Date): Result<AgeCredential, I.Status>
  {
    if row.None? then Err(404)
    else if now >= row.value.expiresAt then Err(403)
    else
      var claims := Listed(Eligibility.EligibleClaims(row.value.birth, today));
      if |claims| == 0 then Err(403)
      else if I.VcSignerFor(store).None? then Err(409)
      else
        var entry := I.VcSignerFor(store).value;
        if entry.assurance.None? then Err(500)
        else
          var signature := B.Sign(w.suite, w.secret(entry), VcHeader(),
                                  Messages(issuerId, entry.assurance.value, entry.epoch, claims));
          if signature.Err? then Err(500)
          else Ok(AgeCredential(issuerId, entry.keyId, entry.publicMaterial, entry.assurance.value, entry.epoch, claims,
                                signature.value))
  }

  /** A credential is issued to unexpired enrollments only and carries every eligible claim and no other. */
  lemma IssuedCarriesEligible<G1(!new), G2(!new), GT(!new)>(
      w: Setting<G1, G2, GT>, store: I.KeyStore, issuerId: string, row: Option<I.Enrollment>, now: int,
      today: Eligibility.Date)
    ensures var r := IssueCredential(w, store, issuerId, row, now, today);
      r.Ok? ==>
        && row.Some? && now < row.value.expiresAt
        && (forall c :: c in r.value.claims <==> c in Eligibility.EligibleClaims(row.value.birth, today))
        && |r.value.claims| > 0
  {
    hide B.Sign, Eligibility.EligibleClaims, Listed, Messages;
    if row.Some? {
      ListedIsSorted(Eligibility.EligibleClaims(row.value.birth, today));
    }
  }

  /** Which refusal a credential request meets before signing. */
  lemma CredentialRefused<G1(!new), G2(!new), GT(!new)>(
      w: Setting<G1, G2, GT>, store: I.KeyStore, issuerId: string, row: Option<I.Enrollment>, now: int,
      today: Eligibility.Date)
    ensures var r := IssueCredential(w, store, issuerId, row, now, today);
      var admitted :=
      row.Some? && now < row.value.expiresAt && Eligibility.EligibleClaims(row.value.birth, today) != {};
      && (r == Err(404) <==> row.None?)
      && (r == Err(403) <==> row.Some? && !admitted)
      && (r == Err(409) <==> admitted && |store.vc| == 0)
  {
    hide B.Sign, Eligibility.EligibleClaims, Listed, Messages;
    if row.Some? {
      var eligible := Eligibility.EligibleClaims(row.value.birth, today);
      ListedIsSorted(eligible);
      assert |Listed(eligible)| > 0 ==> Listed(eligible)[0] in eligible;
    }
  }

  /** The first configured vc entry with a level signs the messages of the credential. */
  predicate SignsFor<G1(==, !new), G2(==, !new), GT(==, !new)>(
      w: Setting<G1, G2, GT>, store: I.KeyStore, issuerId: string, claims: seq<AgeClaim>)
  {
    && |store.vc| > 0 && store.vc[0].assurance.Some?
    && B.Sign(w.suite, w.secret(store.vc[0]), Utf8.Encode("blindage-vc-v1"),
              Messages(issuerId, store.vc[0].assurance.value, store.vc[0].epoch, claims)).Ok?
  }

  /**
   * What an issued credential holds: the issuer, the id, material, level and
   * epoch of the first configured vc entry, and the claims in ascending order;
   * and the two causes of a 500, an entry without a level and a failed signature.
   */
  lemma IssuedFields<G1(!new), G2(!new), GT(!new)>(
      w: Setting<G1, G2, GT>, store: I.KeyStore, issuerId: string, row: Option<I.Enrollment>, now: int,
      today: Eligibility.Date) returns (claims: seq<AgeClaim>)
    ensures row.Some? ==> Ascending(claims) && forall c :: c in claims <==>
      c in Eligibility.EligibleClaims(row.value.birth, today)
    ensures var r := IssueCredential(w, store, issuerId, row, now, today);
      && (r == Err(500) <==>
            row.Some? && now < row.value.expiresAt && claims != [] && store.vc != []
            && !SignsFor(w, store, issuerId, claims))
      && (r.Ok? ==>
            var entry := store.vc[0];
            && SignsFor(w, store, issuerId, claims)
            && r.value.issuerId == issuerId && r.value.issuerKeyId == entry.keyId
            && r.value.issuerPublicKey == entry.publicMaterial && r.value.assurance == entry.assurance.value
            && r.value.epoch == entry.epoch && r.value.claims == claims
            && B.Sign(w.suite, w.secret(entry), Utf8.Encode("blindage-vc-v1"),
                      Messages(issuerId, entry.assurance.value, entry.epoch, claims)) == Ok(r.value.signature))
  {
    hide B.Sign, Eligibility.EligibleClaims, Listed, Messages, Utf8.Encode;
    claims := [];
    if row.Some? {
      claims := Listed(Eligibility.EligibleClaims(row.value.birth, today));
      ListedIsSorted(Eligibility.EligibleClaims(row.value.birth, today));
    }
  }

  // ---- The tables of enums.py ----

  /** The extension accepts as valid the tokens with a claim and a level of the Python tables and no empty field. */
  lemma ValidTokenExact(t: Wallet.Token)
    ensures Wallet.IsValidToken(t) <==>
      && (exists c :: t.claim == ClaimValue(c)) && (exists a :: t.assurance == LevelValue(a))
      && t.nonce != "" && t.signature != "" && t.epoch != "" && t.issuerId != "" && t.issuerKeyId != ""
  {
    assert ClaimValue(Over13) == "AGE_OVER_13" && ClaimValue(Over16) == "AGE_OVER_16";
    assert ClaimValue(Over18) == "AGE_OVER_18" && ClaimValue(Over21) == "AGE_OVER_21";
    assert LevelValue(AAL0) == "AAL0" && LevelValue(AAL1) == "AAL1";
    assert LevelValue(AAL2) == "AAL2" && LevelValue(AAL3) == "AAL3";
  }

  /** The extension ranks a level of the table as the Python table does, and any other text by the default given. */
  lemma RankOfLevel(level: string, unknown: int)
    ensures forall a :: level == LevelValue(a) ==> Wallet.RankOf(level, unknown) == AssuranceRank(a)
    ensures (forall a :: level != LevelValue(a)) ==> Wallet.RankOf(level, unknown) == unknown
  {
    assert LevelValue(AAL0) == "AAL0" && LevelValue(AAL1) == "AAL1";
    assert LevelValue(AAL2) == "AAL2" && LevelValue(AAL3) == "AAL3";
    assert "AAL0"[3] != "AAL1"[3] && "AAL1"[3] != "AAL2"[3] && "AAL2"[3] != "AAL3"[3];
    assert "AAL0"[3] != "AAL2"[3] && "AAL0"[3] != "AAL3"[3] && "AAL1"[3] != "AAL3"[3];
  }

  /** Both levels are in the table, and the first is at least the second. */
  predicate Reaches(level: string, minimum: string)
  {
    exists a, b :: level == LevelValue(a) && minimum == LevelValue(b) && AssuranceRank(a) >= AssuranceRank(b)
  }

  /** The default ranks of unknown levels let no level reach an unknown minimum, and no unknown level any minimum. */
  lemma AtLeastExact(level: string, minimum: string)
    ensures Wallet.AtLeast(level, minimum) <==> Reaches(level, minimum)
  {
    RankOfLevel(level, -1);
    RankOfLevel(minimum, 99);
    hide LevelValue, Wallet.RankOf;
    if Wallet.AtLeast(level, minimum) {
      var a :| level == LevelValue(a);
      var b :| minimum == LevelValue(b);
    }
  }

  /** The extension shows a token exactly when it is unspent, for the claim asked for and of a sufficient level. */
  lemma UsableExact(t: Wallet.Token, r: Wallet.Request)
    ensures Wallet.Usable(t, r) <==>
      t.spent != Some(true) && t.claim == r.requiredClaim && Reaches(t.assurance, r.minimumAssurance)
  {
    AtLeastExact(t.assurance, r.minimumAssurance);
    hide Wallet.AtLeast, Reaches;
  }

  /** Claim names state their age. */
  lemma ClaimNamesItsAge(c: AgeClaim)
    ensures var v := ClaimValue(c);
      |v| == 11 && v[..9] == "AGE_OVER_" && MinAge(c) == 10 * (v[9] as int - '0' as int) + (v[10] as int - '0' as int)
  {}

  /** Levels are ordered as their names are, and the extension's table says the same. */
  lemma LevelsOrderedByName(a: AssuranceLevel, b: AssuranceLevel)
    ensures AssuranceAtLeast(a, b) <==> !Utf8.LexLess(Utf8.CodePoints(LevelValue(a)), Utf8.CodePoints(LevelValue(b)))
    ensures AssuranceAtLeast(a, b) <==> Wallet.AtLeast(LevelValue(a), LevelValue(b))
  {
    var s, t := LevelValue(a), LevelValue(b);
    assert s[..3] == "AAL" == t[..3] && |s| == |t| == 4;
    if s[3] < t[3] {
      FirstDifference(s, t, 3);
    } else if t[3] < s[3] {
      FirstDifference(t, s, 3);
      Utf8.LexTrichotomy(Utf8.CodePoints(t), Utf8.CodePoints(s));
    } else {
      assert s == t;
      Utf8.LexIrreflexive(Utf8.CodePoints(s));
    }
  }

  /** The messages of a credential: issuer, level and epoch, then its claims, which are listed in ascending order. */
  lemma MessagesExact(issuerId: string, assurance: AssuranceLevel, epoch: string, claims: seq<AgeClaim>)
    requires Ascending(claims)
    ensures var ms := Messages(issuerId, assurance, epoch, claims);
      && |ms| == 3 + |claims|
      && ms[0] == Utf8.Encode(issuerId) && ms[1] == Utf8.Encode(LevelValue(assurance)) && ms[2] == Utf8.Encode(epoch)
      && forall i :: 0 <= i < |claims| ==> ms[3 + i] == Utf8.Encode(ClaimValue(claims[i]))
  {
    var values := ClaimValues(claims);
    AscendingIsSorted(claims);
    SortFacts(values);
    NonDecreasingUnique(SortTexts(values), values);
    hide Utf8.Encode, SortTexts, ClaimValue, LevelValue;
    var texts := [issuerId, LevelValue(assurance), epoch] + values;
    assert forall i :: 0 <= i < |claims| ==> texts[3 + i] == ClaimValue(claims[i]);
  }

  lemma {:induction false} AscendingIsSorted(claims: seq<AgeClaim>)
    requires Ascending(claims)
    ensures NonDecreasing(ClaimValues(claims))
  {
    hide ClaimValue;
    if |claims| > 0 {
      var values := ClaimValues(claims);
      AscendingIsSorted(claims[1..]);
      assert values[1..] == ClaimValues(claims[1..]);
      forall x | x in values ensures !Anchor.TextLess(x, values[0]) {
        var k :| 0 <= k < |values| && values[k] == x;
        Anchor.TextOrderTotal(values[0], values[k], x);
        assert k > 0 ==> ValueBefore(claims[0], claims[k]);
      }
    }
  }

  // ---- vc_prove ----

  datatype ProveError = ChallengeExpired | ClaimMissing | AssuranceTooLow | ProofFailed

  function FirstIndex(s: seq<string>, x: string): (k: nat)
    requires x in s
    ensures k < |s| && s[k] == x
  {
    if s[0] == x then 0 else 1 + FirstIndex(s[1..], x)
  }

  lemma ClaimListed(claims: seq<AgeClaim>, c: AgeClaim)
    requires c in claims
    ensures ClaimValue(c) in SortTexts(ClaimValues(claims))
  {
    var i :| 0 <= i < |claims| && claims[i] == c;
    assert ClaimValues(claims)[i] == ClaimValue(c);
    SortMembers(ClaimValues(claims), ClaimValue(c));
  }

  /** Three metadata messages, then the claim at its sorted position. */
  function DisclosedIndexes(cred: AgeCredential, c: AgeClaim): seq<nat>
    requires c in cred.claims
  {
    ClaimListed(cred.claims, c);
    [0, 1, 2, 3 + FirstIndex(SortTexts(ClaimValues(cred.claims)), ClaimValue(c))]
  }

  function CredentialMessages(cred: AgeCredential): seq<Octets>
  {
    Messages(cred.issuerId, cred.assurance, cred.epoch, cred.claims)
  }

  predicate Drawn<G1(==, !new), G2(==, !new), GT(==, !new)>(
      w: Setting<G1, G2, GT>, cred: AgeCredential, c: AgeClaim, rnd: B.Randoms)
  {
    c in cred.claims ==> P.IsDrawn(w.suite, rnd, DisclosedIndexes(cred, c), |CredentialMessages(cred)|)
  }

  function VcBinding(ch: Challenge, now: int): DomainBinding
  {
    DomainBinding(ch.audience, ch.challenge, ch.challengeId, now)
  }

  /** What vc_prove fills in before it makes the proof. */
  function Shell(cred: AgeCredential, ch: Challenge, now: int): VcPresentation
    requires ch.requiredClaim in cred.claims
  {
    VcPresentation(ch.requiredClaim, cred.issuerId, cred.issuerKeyId, cred.assurance, cred.epoch, [],
                   DisclosedIndexes(cred, ch.requiredClaim), VcBinding(ch, now))
  }

  function VcProve<G1(==, !new), G2(==, !new), GT(==, !new)>(
      w: Setting<G1, G2, GT>, cred: AgeCredential, ch: Challenge, now: int,
      rnd: B.Randoms): Result<VcPresentation, ProveError>
    requires Drawn(w, cred, ch.requiredClaim, rnd)
  {
    if now > ch.expiresAt then Err(ChallengeExpired)
    else if ch.requiredClaim !in cred.claims then Err(ClaimMissing)
    else if !AssuranceAtLeast(cred.assurance, ch.minimumAssurance) then Err(AssuranceTooLow)
    else
      var indexes := DisclosedIndexes(cred, ch.requiredClaim);
      var binding := VcBinding(ch, now);
      var proof := P.ProofGen(w.suite, w.decode(cred.issuerPublicKey), cred.signature, VcHeader(),
                              PresentationHeader(binding, w.iso), CredentialMessages(cred), indexes, rnd);
      if proof.Err? then Err(ProofFailed)
      else Ok(VcPresentation(ch.requiredClaim, cred.issuerId, cred.issuerKeyId, cred.assurance, cred.epoch,
                             proof.value, indexes, binding))
  }

  /** The wallet refuses for exactly these reasons, in this order, and never presents a claim it cannot back. */
  lemma ProveRefuses<G1(!new), G2(!new), GT(!new)>(
      w: Setting<G1, G2, GT>, cred: AgeCredential, ch: Challenge, now: int, rnd: B.Randoms)
    requires Drawn(w, cred, ch.requiredClaim, rnd)
    ensures var r := VcProve(w, cred, ch, now, rnd);
      && (r == Err(ChallengeExpired) <==> now > ch.expiresAt)
      && (r == Err(ClaimMissing) <==> now <= ch.expiresAt && ch.requiredClaim !in cred.claims)
      && (r == Err(AssuranceTooLow) <==>
            && now <= ch.expiresAt && ch.requiredClaim in cred.claims
            && !AssuranceAtLeast(cred.assurance, ch.minimumAssurance))
      && (r.Ok? ==> ch.requiredClaim in cred.claims && IsPresentation(cred, ch, now, r.value))
  {
    hide P.ProofGen, DisclosedIndexes, CredentialMessages, PresentationHeader;
  }

  /** What the wallet presents: the claim asked for, the credential's own metadata and the challenge's own binding. */
  lemma PresentedFields<G1(!new), G2(!new), GT(!new)>(
      w: Setting<G1, G2, GT>, cred: AgeCredential, ch: Challenge, now: int, rnd: B.Randoms)
    requires Drawn(w, cred, ch.requiredClaim, rnd)
    ensures var r := VcProve(w, cred, ch, now, rnd);
      && (r.Ok? <==>
            && now <= ch.expiresAt && ch.requiredClaim in cred.claims
            && AssuranceRank(cred.assurance) >= AssuranceRank(ch.minimumAssurance)
            && B.OctetsToKey(w.suite, w.decode(cred.issuerPublicKey)).Some?
            && B.OctetsToSignature(w.suite, cred.signature).Some?)
      && (r.Ok? ==>
            var p := r.value;
            && p.requiredClaim == ch.requiredClaim && p.issuerId == cred.issuerId
            && p.issuerKeyId == cred.issuerKeyId && p.assurance == cred.assurance && p.epoch == cred.epoch
            && p.binding == DomainBinding(ch.audience, ch.challenge, ch.challengeId, now)
            && |p.disclosedIndexes| == 4
            && p.disclosedIndexes[0] == 0 && p.disclosedIndexes[1] == 1 && p.disclosedIndexes[2] == 2
            && 3 <= p.disclosedIndexes[3] < |CredentialMessages(cred)|
            && CredentialMessages(cred)[p.disclosedIndexes[3]] == Utf8.Encode(ClaimValue(ch.requiredClaim)))
  {
    hide DisclosedIndexes, CredentialMessages, PresentationHeader, P.ProofGen, P.IndexesOk, Utf8.Encode, Rebuilt,
        B.OctetsToKey, B.OctetsToSignature, P.IsDrawn, AssuranceRank, VcHeader;
    if ch.requiredClaim in cred.claims {
      SameMessages(cred, Shell(cred, ch, now));
      ShownClaim(cred, ch.requiredClaim);
      GeneratesWhenParsed(w, cred, ch, now, rnd);
    }
  }

  /** The proof is made whenever the key and the signature of the credential parse. */
  lemma GeneratesWhenParsed<G1(!new), G2(!new), GT(!new)>(
      w: Setting<G1, G2, GT>, cred: AgeCredential, ch: Challenge, now: int, rnd: B.Randoms)
    requires ch.requiredClaim in cred.claims && Drawn(w, cred, ch.requiredClaim, rnd)
    requires P.IndexesOk(DisclosedIndexes(cred, ch.requiredClaim), |CredentialMessages(cred)|)
    ensures P.ProofGen(w.suite, w.decode(cred.issuerPublicKey), cred.signature, VcHeader(),
                       PresentationHeader(VcBinding(ch, now), w.iso), CredentialMessages(cred),
                       DisclosedIndexes(cred, ch.requiredClaim), rnd).Ok? <==>
      && B.OctetsToKey(w.suite, w.decode(cred.issuerPublicKey)).Some?
      && B.OctetsToSignature(w.suite, cred.signature).Some?
  {
    hide DisclosedIndexes, CredentialMessages, PresentationHeader, B.OctetsToKey, B.OctetsToSignature, B.Prove,
        E.ProofToOctets, P.IndexesOk, P.IsDrawn, VcHeader;
  }

  /** The last index is the position of the claim among the signed messages. */
  lemma ShownClaim(cred: AgeCredential, c: AgeClaim)
    requires c in cred.claims
    ensures var idx, ms := DisclosedIndexes(cred, c), CredentialMessages(cred);
      && |idx| == 4 && idx[0] == 0 && idx[1] == 1 && idx[2] == 2
      && 3 <= idx[3] < |ms| && ms[idx[3]] == Utf8.Encode(ClaimValue(c))
  {
    hide Utf8.Encode, SortTexts, ClaimValue, LevelValue;
    var sorted := SortTexts(ClaimValues(cred.claims));
    ClaimListed(cred.claims, c);
    var idx := DisclosedIndexes(cred, c);
    assert ([cred.issuerId, LevelValue(cred.assurance), cred.epoch] + sorted)[idx[3]] == ClaimValue(c);
  }

  // ---- The proof check of verify_vc_presentation ----

  /** The messages rebuilt from the registry's binding and the claim shown. */
  function Rebuilt(p: VcPresentation, assurance: AssuranceLevel, epoch: string): seq<Octets>
  {
    [
      Utf8.Encode(p.issuerId), Utf8.Encode(LevelValue(assurance)),
      Utf8.Encode(epoch), Utf8.Encode(ClaimValue(p.requiredClaim))
    ]
  }

  predicate AllNat(indexes: seq<int>)
  {
    forall i :: 0 <= i < |indexes| ==> indexes[i] >= 0
  }

  function AsNats(indexes: seq<int>): (r: seq<nat>)
    requires AllNat(indexes)
    ensures |r| == |indexes| && forall i :: 0 <= i < |r| ==> r[i] == indexes[i]
  {
    seq(|indexes|, i requires 0 <= i < |indexes| => indexes[i])
  }

  predicate Proven<G1(==, !new), G2(==, !new), GT(==, !new)>(w: Setting<G1, G2, GT>, key: IssuerKey, p: VcPresentation)
  {
    && key.assurance.Some? && key.epoch.Some? && AllNat(p.disclosedIndexes)
    && P.ProofVerify(w.suite, w.decode(key.publicKey), p.proof, VcHeader(), PresentationHeader(p.binding, w.iso),
                     Rebuilt(p, key.assurance.value, key.epoch.value), AsNats(p.disclosedIndexes)) == Ok(true)
  }

  // ---- Wallet and verifier see the same messages ----

  /** The verifier's four messages are the ones signed at the disclosed positions. */
  lemma SameMessages(cred: AgeCredential, p: VcPresentation)
    requires p.requiredClaim in cred.claims && p.issuerId == cred.issuerId
    ensures var idx, ms := DisclosedIndexes(cred, p.requiredClaim), CredentialMessages(cred);
      && P.IndexesOk(idx, |ms|)
      && Sums.Gather(ms, idx) == Rebuilt(p, cred.assurance, cred.epoch)
  {
    hide Utf8.Encode, SortTexts, ClaimValue, LevelValue;
    var sorted := SortTexts(ClaimValues(cred.claims));
    ClaimListed(cred.claims, p.requiredClaim);
    var idx, ms := DisclosedIndexes(cred, p.requiredClaim), CredentialMessages(cred);
    var texts := [cred.issuerId, LevelValue(cred.assurance), cred.epoch] + sorted;
    assert ms == EncodeAll(texts);
    assert texts[idx[3]] == ClaimValue(p.requiredClaim);
  }

  // ---- End to end ----

  /** No scalar of the proof is zero: the one condition under which honest proofs are accepted. */
  predicate NoZeroScalar<G1(==, !new), G2(==, !new), GT(==, !new)>(
      w: Setting<G1, G2, GT>, cred: AgeCredential, ch: Challenge, now: int, rnd: B.Randoms)
    requires ch.requiredClaim in cred.claims && Drawn(w, cred, ch.requiredClaim, rnd)
  {
    var sig := B.OctetsToSignature(w.suite, cred.signature);
    sig.Some? &&
    var ms := B.MessageScalars(w.suite, CredentialMessages(cred));
    var idx := DisclosedIndexes(cred, ch.requiredClaim);
    Sums.InRange(idx, |ms|) &&
    E.ScalarsInRange(w.suite, E.ProofScalars(B.Prove(w.suite, w.decode(cred.issuerPublicKey), sig.value, VcHeader(),
      PresentationHeader(VcBinding(ch, now), w.iso), ms, idx, rnd)))
  }

  /** Issued by this key: bbs_sign over the credential's own messages, with a nonzero scalar. */
  ghost predicate SignedBy<G1(!new), G2(!new), GT(!new)>(w: Setting<G1, G2, GT>, sk: nat, cred: AgeCredential)
  {
    && w.decode(cred.issuerPublicKey) == w.suite.encode2(w.suite.PublicPoint(sk))
    && var s := B.Sign(w.suite, sk, VcHeader(), CredentialMessages(cred));
    && s.Ok? && s.value == cred.signature
    && P.SignScalar(w.suite, sk, VcHeader(), CredentialMessages(cred)) != 0
  }

  /** What issue_credential returns is signed by its vc key. */
  lemma IssuedIsSigned<G1(!new), G2(!new), GT(!new)>(
      w: Setting<G1, G2, GT>, store: I.KeyStore, issuerId: string, row: Option<I.Enrollment>, now: int,
      today: Eligibility.Date, cred: AgeCredential)
    requires IssueCredential(w, store, issuerId, row, now, today) == Ok(cred)
    requires var entry := I.VcSignerFor(store).value;
      && w.decode(entry.publicMaterial) == w.suite.encode2(w.suite.PublicPoint(w.secret(entry)))
      && P.SignScalar(w.suite, w.secret(entry), VcHeader(), CredentialMessages(cred)) != 0
    ensures SignedBy(w, w.secret(I.VcSignerFor(store).value), cred)
  {
    hide B.Sign, P.SignScalar, Messages, VcHeader, Listed, Eligibility.EligibleClaims;
  }

  lemma ProofMade<G1(!new), G2(!new), GT(!new)>(
      w: Setting<G1, G2, GT>, sk: nat, cred: AgeCredential, ch: Challenge, now: int, rnd: B.Randoms)
    requires ch.requiredClaim in cred.claims && Drawn(w, cred, ch.requiredClaim, rnd)
    requires AssuranceAtLeast(cred.assurance, ch.minimumAssurance) && now <= ch.expiresAt
    requires SignedBy(w, sk, cred) && w.suite.Valid()
    ensures var r := VcProve(w, cred, ch, now, rnd);
      r.Ok? && IsPresentation(cred, ch, now, r.value) &&
      P.ProofVerify(w.suite, w.decode(cred.issuerPublicKey), r.value.proof, VcHeader(),
        PresentationHeader(r.value.binding, w.iso), Rebuilt(r.value, cred.assurance, cred.epoch),
        DisclosedIndexes(cred, ch.requiredClaim))
      == Ok(NoZeroScalar(w, cred, ch, now, rnd))
  {
    hide B.Sign, B.Prove, P.ProofGen, P.ProofVerify, P.SignScalar, B.OctetsToSignature, E.ScalarsInRange,
        E.ProofScalars,
      B.MessageScalars, P.IsDrawn, VcHeader, PresentationHeader, Messages, DisclosedIndexes, Rebuilt, AssuranceAtLeast,
      E.ProofToOctets, Sums.Gather, P.IndexesOk;
    var idx, ms := DisclosedIndexes(cred, ch.requiredClaim), CredentialMessages(cred);
    var ph := PresentationHeader(VcBinding(ch, now), w.iso);
    var shell := Shell(cred, ch, now);
    SameMessages(cred, shell);
    IndexesInRange(idx, |ms|);
    P.ProofCompleteness(w.suite, sk, VcHeader(), ph, ms, idx, rnd);
    RebuiltIgnoresProof(shell, VcProve(w, cred, ch, now, rnd).value, cred.assurance, cred.epoch);
  }

  lemma IndexesInRange(idx: seq<nat>, n: nat)
    requires P.IndexesOk(idx, n)
    ensures Sums.InRange(idx, n)
  {}

  lemma RebuiltIgnoresProof(p: VcPresentation, q: VcPresentation, assurance: AssuranceLevel, epoch: string)
    requires p.issuerId == q.issuerId && p.requiredClaim == q.requiredClaim
    ensures Rebuilt(p, assurance, epoch) == Rebuilt(q, assurance, epoch)
  {}

  /** The presentation is that, with some proof. */
  predicate IsPresentation(cred: AgeCredential, ch: Challenge, now: int, p: VcPresentation)
    requires ch.requiredClaim in cred.claims
  {
    p == Shell(cred, ch, now).(proof := p.proof)
  }

  /**
   * The site trusts the issuer shown and finds a current key bound as shown, and
   * the challenge answered is live there and met. Neither indexes nor proof matter.
   */
  predicate SiteReady(site: Site, p: VcPresentation, ch: Challenge, pending: map<string, Challenge>,
      key: IssuerKey, now: int, consumeNow: int)
  {
    && Registry.GetIssuer(site.registry, p.issuerId).Some?
    && Registry.GetIssuer(site.registry, p.issuerId).value.status.Active?
    && p.issuerId == site.trustedIssuer
    && VcKey(site, p) == Some(key)
    && key.algorithm == BBS
    && key.assurance == Some(p.assurance) && key.epoch == Some(p.epoch)
    && key.validFrom <= now <= key.validUntil
    && p.binding.audience == site.audience
    && Consumed(pending, p.binding.challengeId, p.binding.challenge, consumeNow) == Some(ch)
    && ch.requiredClaim == p.requiredClaim && AssuranceAtLeast(p.assurance, ch.minimumAssurance)
  }

  /**
   * A credential signed by the issuer and presented for a live challenge is
   * allowed exactly when no scalar of its proof is zero, and once only: the same
   * presentation against the store it leaves behind is denied.
   */
  lemma EndToEnd<G1(!new), G2(!new), GT(!new)>(
      w: Setting<G1, G2, GT>, sk: nat, site: Site, cred: AgeCredential, ch: Challenge, pending: map<string, Challenge>,
      key: IssuerKey, proveNow: int, rnd: B.Randoms, now: int, consumeNow: int)
    requires ch.requiredClaim in cred.claims && Drawn(w, cred, ch.requiredClaim, rnd)
    requires AssuranceAtLeast(cred.assurance, ch.minimumAssurance) && proveNow <= ch.expiresAt
    requires SiteReady(site, Shell(cred, ch, proveNow), ch, pending, key, now, consumeNow)
    requires key.publicKey == cred.issuerPublicKey
    requires SignedBy(w, sk, cred) && w.suite.Valid()
    ensures var r := VcProve(w, cred, ch, proveNow, rnd);
      r.Ok? &&
      var proven := Proven(w, key, r.value);
      var o := VerifyVcAlone(site, r.value, proven, now, consumeNow, pending);
      && (o.verdict.allow <==> NoZeroScalar(w, cred, ch, proveNow, rnd))
      && o.verdict.claim == Some(ch.requiredClaim) && o.verdict.assurance == Some(cred.assurance)
      && o.pending == pending - {ch.challengeId}
      && forall proven', now', consumeNow' ::
           !VerifyVcAlone(site, r.value, proven', now', consumeNow', o.pending).verdict.allow
  {
    hide B.Sign, P.ProofVerify, P.SignScalar, P.IsDrawn, VcHeader, PresentationHeader, Messages, Rebuilt, VcProve,
        NoZeroScalar,
      SignedBy, Registry.LookupKey, Registry.GetIssuer, Drawn, VerifyVcAlone, Proven, DisclosedIndexes;
    ProofMade(w, sk, cred, ch, proveNow, rnd);
    var p := VcProve(w, cred, ch, proveNow, rnd).value;
    ProvenExact(w, cred, ch, key, proveNow, p, NoZeroScalar(w, cred, ch, proveNow, rnd));
    ShapeOk(cred, ch.requiredClaim);
    hide DisclosureShape;
    AllowedIffProven(site, p, ch, pending, key, now, consumeNow, Proven(w, key, p));
    forall proven', now', consumeNow'
      ensures !VerifyVcAlone(site, p, proven', now', consumeNow', pending - {ch.challengeId}).verdict.allow
    {
      GoneIsDenied(site, p, proven', now', consumeNow', pending - {ch.challengeId});
    }
  }

  lemma ProvenExact<G1(!new), G2(!new), GT(!new)>(
      w: Setting<G1, G2, GT>, cred: AgeCredential, ch: Challenge, key: IssuerKey, now: int, p: VcPresentation,
      clean: bool)
    requires ch.requiredClaim in cred.claims && IsPresentation(cred, ch, now, p)
    requires key.publicKey == cred.issuerPublicKey
    requires key.assurance == Some(cred.assurance) && key.epoch == Some(cred.epoch)
    requires P.ProofVerify(w.suite, w.decode(cred.issuerPublicKey), p.proof, VcHeader(),
               PresentationHeader(p.binding, w.iso), Rebuilt(p, cred.assurance, cred.epoch),
               DisclosedIndexes(cred, ch.requiredClaim)) == Ok(clean)
    ensures Proven(w, key, p) == clean
  {
    hide P.ProofVerify, VcHeader, PresentationHeader, Rebuilt, DisclosedIndexes;
    var idx := DisclosedIndexes(cred, ch.requiredClaim);
    assert AsNats(p.disclosedIndexes) == idx;
  }

  /** At a ready site a presentation of the right shape is decided by its proof. */
  lemma AllowedIffProven(site: Site, p: VcPresentation, ch: Challenge, pending: map<string, Challenge>, key: IssuerKey,
      now: int, consumeNow: int, proven: bool)
    requires SiteReady(site, p, ch, pending, key, now, consumeNow) && DisclosureShape(p.disclosedIndexes)
    ensures var o := VerifyVcAlone(site, p, proven, now, consumeNow, pending);
      && o.verdict.allow == proven && o.pending == pending - {p.binding.challengeId}
      && o.verdict.claim == Some(p.requiredClaim) && o.verdict.assurance == Some(p.assurance)
  {
    hide Registry.LookupKey, Registry.GetIssuer, DisclosureShape;
  }

  lemma ShapeOk(cred: AgeCredential, c: AgeClaim)
    requires c in cred.claims
    ensures DisclosureShape(DisclosedIndexes(cred, c))
  {
    assert DisclosedIndexes(cred, c)[..3] == [0, 1, 2];
  }

  /** Without its challenge pending, no presentation is allowed. */
  lemma GoneIsDenied(
      site: Site, p: VcPresentation, proven: bool, now: int, consumeNow: int, pending: map<string, Challenge>)
    requires p.binding.challengeId !in pending
    ensures !VerifyVcAlone(site, p, proven, now, consumeNow, pending).verdict.allow
  {
    VcAllowExact(site, p, proven, now, consumeNow, pending);
  }
}
