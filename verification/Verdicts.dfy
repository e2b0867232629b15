// The verdicts of blindage/verifier, field by field: what every flag, the claim,
// the level and the two stores are after a call, for every input.
module Verdicts {
  import opened Results
  import opened Schemas
  import opened Registry
  import opened Verifier

  /** The verdict that every check of a call has passed. */
  const PASSED := Flags(true, true, true, true, false, false, false, true, true)

  // ---- Token presentations, check by check ----

  /** The issuer is registered, active and trusted by the policy. */
  predicate IssuerStands(site: Site, issuerId: string)
  {
    && issuerId in site.registry.issuers && site.registry.issuers[issuerId].status == Active
    && issuerId in site.policy.trustedIssuers
  }

  /** The registry's token key, of an allowed algorithm, signed the nonce. */
  predicate Signed(site: Site, p: Presentation, signed: bool)
  {
    && IssuerStands(site, p.token.issuerId)
    && var key := LookupKey(site.registry, p.token.issuerId, p.token.issuerKeyId, TokenSigning);
    && key.Some? && key.value.algorithm in site.policy.allowedAlgorithms && signed
  }

  function SigningKey(site: Site, p: Presentation): IssuerKey
    requires Signed(site, p, true)
  {
    LookupKey(site.registry, p.token.issuerId, p.token.issuerKeyId, TokenSigning).value
  }

  /** The token says what its key is bound to. */
  predicate Bound(site: Site, p: Presentation, signed: bool)
  {
    && Signed(site, p, signed)
    && SigningKey(site, p).claim == Some(p.token.claim) && SigningKey(site, p).assurance == Some(p.token.assurance)
    && SigningKey(site, p).epoch == Some(p.token.epoch)
  }

  /** The claim and the level are the ones asked for, and the key is in its validity period. */
  predicate Current(site: Site, p: Presentation, signed: bool, now: int)
  {
    && Bound(site, p, signed)
    && p.token.claim == site.policy.requiredClaim
    && AssuranceRank(p.token.assurance) >= AssuranceRank(site.policy.minimumAssurance)
    && SigningKey(site, p).validFrom <= now <= SigningKey(site, p).validUntil
  }

  /** The presentation was made for this site. */
  predicate Placed(site: Site, p: Presentation, signed: bool, now: int)
  {
    Current(site, p, signed, now) && (site.policy.requireDomainBinding ==> p.binding.audience == site.audience)
  }

  /** The pending challenge of the id has the value shown, has not expired and asks for the claim. */
  predicate Answers(pending: map<string, Challenge>, b: DomainBinding, claim: AgeClaim, now: int)
  {
    && b.challengeId in pending
    && var c := pending[b.challengeId];
    && c.challenge == b.challenge && now <= c.expiresAt && c.requiredClaim == claim
  }

  /** Every check but the one for replay has passed. */
  predicate Challenged(site: Site, p: Presentation, signed: bool, now: int, consumeNow: int,
      pending: map<string, Challenge>)
  {
    && Placed(site, p, signed, now)
    && (site.policy.requireDomainBinding ==> Answers(pending, p.binding, site.policy.requiredClaim, consumeNow))
  }

  /** The verdict of the checks before any shared action. */
  lemma LocalVerdict(site: Site, p: Presentation, signed: bool, now: int)
    ensures var local, bind := TokenLocal(site, p, signed, now), site.policy.requireDomainBinding;
      var v, flags := local.verdict, local.verdict.flags;
      && (local.Continue? <==> Placed(site, p, signed, now))
      && !v.allow && !flags.replayed
      && (flags.challengeValid <==> Current(site, p, signed, now) && !bind)
      && (flags.domainBindingValid <==> Placed(site, p, signed, now))
      && (flags.expired <==> !Current(site, p, signed, now))
      && (flags.claimSatisfied <==> Bound(site, p, signed) && p.token.claim == site.policy.requiredClaim)
      && (flags.assuranceSufficient <==>
            && Bound(site, p, signed)
            && AssuranceRank(p.token.assurance) >= AssuranceRank(site.policy.minimumAssurance))
      && (flags.signatureValid <==> Signed(site, p, signed))
      && (flags.issuerTrusted <==> IssuerStands(site, p.token.issuerId))
      && (flags.revoked <==> !IssuerStands(site, p.token.issuerId))
      && v.claim == (if Signed(site, p, signed) then SigningKey(site, p).claim else None)
      && v.assurance == (if Signed(site, p, signed) then SigningKey(site, p).assurance else None)
  {
    hide LookupKey, AssuranceAtLeast, AssuranceRank;
    AtLeastUnfolds(p.token.assurance, site.policy.minimumAssurance);
  }

  /**
   * The token verdict, exactly: each flag with its condition, the claim and the
   * level of the signing key from the signature check on and absent before it,
   * and what the call removes from and adds to the stores.
   */
  lemma TokenVerdict(site: Site, p: Presentation, signed: bool, hash: string, now: int, consumeNow: int,
      pending: map<string, Challenge>, spent: set<string>)
    ensures var out := VerifyAlone(site, p, signed, hash, now, consumeNow, pending, spent);
      var v, flags, single := out.verdict, out.verdict.flags, site.policy.requireSingleUse;
      && (v.allow <==> Challenged(site, p, signed, now, consumeNow, pending) && (single ==> hash !in spent))
      && (flags.replayed <==> Challenged(site, p, signed, now, consumeNow, pending) && single && hash in spent)
      && (flags.challengeValid <==> Challenged(site, p, signed, now, consumeNow, pending))
      && (flags.domainBindingValid <==> Placed(site, p, signed, now))
      && (flags.expired <==> !Current(site, p, signed, now))
      && (flags.claimSatisfied <==> Bound(site, p, signed) && p.token.claim == site.policy.requiredClaim)
      && (flags.assuranceSufficient <==>
            && Bound(site, p, signed)
            && AssuranceRank(p.token.assurance) >= AssuranceRank(site.policy.minimumAssurance))
      && (flags.signatureValid <==> Signed(site, p, signed))
      && (flags.issuerTrusted <==> IssuerStands(site, p.token.issuerId))
      && (flags.revoked <==> !IssuerStands(site, p.token.issuerId))
      && v.claim == (if Signed(site, p, signed) then SigningKey(site, p).claim else None)
      && v.assurance == (if Signed(site, p, signed) then SigningKey(site, p).assurance else None)
      && out.pending == (if site.policy.requireDomainBinding && Placed(site, p, signed, now)
                         then pending - {p.binding.challengeId} else pending)
      && out.spent == (if single && Challenged(site, p, signed, now, consumeNow, pending)
                       then spent + {hash} else spent)
  {
    hide TokenLocal, LookupKey, AssuranceRank, Signed, SigningKey, IssuerStands, Bound, Current;
    LocalVerdict(site, p, signed, now);
  }

  /** An allowed token carries the policy's claim, the key's own level and the flags of a passed call. */
  lemma AllowedToken(site: Site, p: Presentation, signed: bool, hash: string, now: int, consumeNow: int,
      pending: map<string, Challenge>, spent: set<string>)
    requires VerifyAlone(site, p, signed, hash, now, consumeNow, pending, spent).verdict.allow
    ensures Signed(site, p, signed)
    ensures VerifyAlone(site, p, signed, hash, now, consumeNow, pending, spent).verdict
         == Verdict(true, Some(site.policy.requiredClaim), SigningKey(site, p).assurance, PASSED)
  {
    hide VerifyAlone, LookupKey, AssuranceRank;
    TokenVerdict(site, p, signed, hash, now, consumeNow, pending, spent);
  }

  // ---- Credential presentations, check by check ----

  /** The issuer is registered, active and the one the site trusts. */
  predicate VcIssuerStands(site: Site, p: VcPresentation)
  {
    && p.issuerId in site.registry.issuers && site.registry.issuers[p.issuerId].status == Active
    && p.issuerId == site.trustedIssuer
  }

  /** The registry's vc key is a BBS key and exactly four messages are shown, the metadata first. */
  predicate Shaped(site: Site, p: VcPresentation)
  {
    && VcIssuerStands(site, p)
    && var key := LookupKey(site.registry, p.issuerId, p.issuerKeyId, VcSigning);
    && key.Some? && key.value.algorithm == "bbs-bls12381-sha256"
    && |p.disclosedIndexes| == 4
    && p.disclosedIndexes[0] == 0 && p.disclosedIndexes[1] == 1 && p.disclosedIndexes[2] == 2
  }

  function ShownKey(site: Site, p: VcPresentation): IssuerKey
    requires Shaped(site, p)
  {
    LookupKey(site.registry, p.issuerId, p.issuerKeyId, VcSigning).value
  }

  predicate VcBound(site: Site, p: VcPresentation)
  {
    && Shaped(site, p)
    && ShownKey(site, p).assurance == Some(p.assurance) && ShownKey(site, p).epoch == Some(p.epoch)
  }

  predicate VcCurrent(site: Site, p: VcPresentation, now: int)
  {
    VcBound(site, p) && ShownKey(site, p).validFrom <= now <= ShownKey(site, p).validUntil
  }

  predicate VcPlaced(site: Site, p: VcPresentation, now: int)
  {
    VcCurrent(site, p, now) && p.binding.audience == site.audience
  }

  predicate VcAnswered(site: Site, p: VcPresentation, now: int, consumeNow: int, pending: map<string, Challenge>)
  {
    VcPlaced(site, p, now) && Answers(pending, p.binding, p.requiredClaim, consumeNow)
  }

  /** The level reaches the minimum that the challenge, not the policy, asks for. */
  predicate VcSufficient(site: Site, p: VcPresentation, now: int, consumeNow: int, pending: map<string, Challenge>)
  {
    && VcAnswered(site, p, now, consumeNow, pending)
    && AssuranceRank(p.assurance) >= AssuranceRank(pending[p.binding.challengeId].minimumAssurance)
  }

  /** The verdict of the checks before the challenge is consumed. */
  lemma VcLocalVerdict(site: Site, p: VcPresentation, now: int)
    ensures var local := VcLocal(site, p, now);
      var v, flags := local.verdict, local.verdict.flags;
      && (local.Continue? <==> VcPlaced(site, p, now))
      && !v.allow && !flags.replayed && !flags.challengeValid && !flags.claimSatisfied && !flags.assuranceSufficient
      && !flags.signatureValid
      && (flags.domainBindingValid <==> VcPlaced(site, p, now))
      && (flags.expired <==> !VcCurrent(site, p, now))
      && (flags.issuerTrusted <==> VcIssuerStands(site, p))
      && (flags.revoked <==> !VcIssuerStands(site, p))
      && v.claim == (if VcBound(site, p) then Some(p.requiredClaim) else None)
      && v.assurance == (if Shaped(site, p) then ShownKey(site, p).assurance else None)
  {
    hide LookupKey, DisclosureShape;
    ShapeUnfolds(p.disclosedIndexes);
  }

  /** The credential verdict, exactly, and what the call removes from the pending challenges. */
  lemma VcVerdict(site: Site, p: VcPresentation, proven: bool, now: int, consumeNow: int,
      pending: map<string, Challenge>)
    ensures var out := VerifyVcAlone(site, p, proven, now, consumeNow, pending);
      var v, flags := out.verdict, out.verdict.flags;
      && (v.allow <==> VcSufficient(site, p, now, consumeNow, pending) && proven)
      && (flags.signatureValid <==> VcSufficient(site, p, now, consumeNow, pending) && proven)
      && (flags.assuranceSufficient <==> VcSufficient(site, p, now, consumeNow, pending))
      && (flags.claimSatisfied <==> VcAnswered(site, p, now, consumeNow, pending))
      && (flags.challengeValid <==> VcAnswered(site, p, now, consumeNow, pending))
      && (flags.domainBindingValid <==> VcPlaced(site, p, now))
      && (flags.expired <==> !VcCurrent(site, p, now))
      && (flags.issuerTrusted <==> VcIssuerStands(site, p))
      && (flags.revoked <==> !VcIssuerStands(site, p))
      && !flags.replayed
      && v.claim == (if VcBound(site, p) then Some(p.requiredClaim) else None)
      && v.assurance == (if Shaped(site, p) then ShownKey(site, p).assurance else None)
      && out.pending == (if VcPlaced(site, p, now) then pending - {p.binding.challengeId} else pending)
  {
    hide VcLocal, LookupKey, AssuranceAtLeast, AssuranceRank, VcIssuerStands, Shaped, ShownKey, VcBound, VcCurrent;
    VcLocalVerdict(site, p, now);
    if p.binding.challengeId in pending {
      AtLeastUnfolds(p.assurance, pending[p.binding.challengeId].minimumAssurance);
    }
  }

  lemma ShapeUnfolds(indexes: seq<int>)
    ensures DisclosureShape(indexes) <==>
      |indexes| == 4 && indexes[0] == 0 && indexes[1] == 1 && indexes[2] == 2
  {
    if |indexes| == 4 {
      assert indexes[..3] == [indexes[0], indexes[1], indexes[2]];
    }
  }

  lemma AtLeastUnfolds(level: AssuranceLevel, minimum: AssuranceLevel)
    ensures AssuranceAtLeast(level, minimum) <==> AssuranceRank(level) >= AssuranceRank(minimum)
  {}

  /** An allowed credential carries the claim shown, the key's own level and the flags of a passed call. */
  lemma AllowedCredential(site: Site, p: VcPresentation, proven: bool, now: int, consumeNow: int,
      pending: map<string, Challenge>)
    requires VerifyVcAlone(site, p, proven, now, consumeNow, pending).verdict.allow
    ensures Shaped(site, p)
    ensures VerifyVcAlone(site, p, proven, now, consumeNow, pending).verdict
         == Verdict(true, Some(p.requiredClaim), ShownKey(site, p).assurance, PASSED)
  {
    hide VerifyVcAlone, LookupKey, AssuranceRank;
    VcVerdict(site, p, proven, now, consumeNow, pending);
  }
}
