// The site's verifier (blindage/verifier): one-time challenges, the replay
// cache, and the two verification entry points, each a chain of local checks
// around its atomic actions on the shared stores.
module Verifier {
  import opened Results
  import opened Schemas
  import opened Registry

  datatype Flags = Flags(
    signatureValid: bool,
    issuerTrusted: bool,
    claimSatisfied: bool,
    assuranceSufficient: bool,
    expired: bool,
    replayed: bool,
    revoked: bool,
    domainBindingValid: bool,
    challengeValid: bool)

  const INITIAL := Flags(false, false, false, false, true, false, true, false, false)

  /** VerifierDecision; valid is the same bit as decision == ALLOW. */
  datatype Verdict = Verdict(allow: bool, claim: Option<AgeClaim>, assurance: Option<AssuranceLevel>, flags: Flags)

  function Deny(claim: Option<AgeClaim>, assurance: Option<AssuranceLevel>, flags: Flags): Verdict
  {
    Verdict(false, claim, assurance, flags)
  }

  /** What a site is configured with. */
  datatype Site = Site(registry: TrustRegistry, policy: Policy, audience: string, trustedIssuer: string)

  /** A call has been decided, or goes on with the verdict it has so far. */
  datatype Stage = Decided(verdict: Verdict) | Continue(verdict: Verdict)

  // ---- The two shared stores ----

  /** pop-first: the id is gone whatever the outcome. */
  function Popped(pending: map<string, Challenge>, id: string): map<string, Challenge>
  {
    pending - {id}
  }

  function Consumed(pending: map<string, Challenge>, id: string, value: string, now: int): Option<Challenge>
  {
    if id in pending && pending[id].challenge == value && now <= pending[id].expiresAt then Some(pending[id]) else None
  }

  class ChallengeManager {
    const audience: string
    const ttl: int
    var pending: map<string, Challenge>

    constructor (audience: string, ttl: int)
      ensures this.audience == audience && this.ttl == ttl && pending == map[]
    {
      this.audience := audience;
      this.ttl := ttl;
      pending := map[];
    }

    /** id and value are the fresh uuid and random octets. */
    method Create(claim: AgeClaim, minimum: AssuranceLevel, now: int, id: string, value: string) returns (c: Challenge)
      modifies this
      ensures c == Challenge(id, claim, minimum, audience, value, now, now + ttl)
      ensures pending == old(pending)[id := c]
    {
      c := Challenge(id, claim, minimum, audience, value, now, now + ttl);
      pending := pending[id := c];
    }

    method Consume(id: string, value: string, now: int) returns (c: Option<Challenge>)
      modifies this
      ensures c == Consumed(old(pending), id, value, now)
      ensures pending == Popped(old(pending), id)
    {
      if id !in pending {
        return None;
      }
      var found := pending[id];
      pending := pending - {id};
      if found.challenge != value {
        return None;
      }
      if now > found.expiresAt {
        return None;
      }
      return Some(found);
    }
  }

  class ReplayCache {
    var spent: set<string>

    constructor ()
      ensures spent == {}
    {
      spent := {};
    }

    /** INSERT into a table whose primary key is the hash. */
    method CheckAndInsert(hash: string) returns (unspent: bool)
      modifies this
      ensures unspent <==> hash !in old(spent)
      ensures spent == old(spent) + {hash}
    {
      if hash in spent {
        return false;
      }
      spent := spent + {hash};
      return true;
    }
  }

  // ---- Token presentations ----

  function TrustedIssuer(site: Site, issuerId: string): bool
  {
    var issuer := GetIssuer(site.registry, issuerId);
    issuer.Some? && issuer.value.status.Active? && issuerId in site.policy.trustedIssuers
  }

  function TokenKey(site: Site, t: AgeToken): Option<IssuerKey>
  {
    LookupKey(site.registry, t.issuerId, t.issuerKeyId, TokenSigning)
  }

  /** The checks before any shared action; signed says whether the key's signature on the nonce verifies. */
  function TokenLocal(site: Site, p: Presentation, signed: bool, now: int): Stage
  {
    var t, policy := p.token, site.policy;
    var known := INITIAL.(issuerTrusted := true, revoked := false);
    if !TrustedIssuer(site, t.issuerId) then Decided(Deny(None, None, INITIAL))
    else if TokenKey(site, t).None? then Decided(Deny(None, None, known))
    else
      var key := TokenKey(site, t).value;
      if key.algorithm !in policy.allowedAlgorithms || !signed then Decided(Deny(None, None, known))
      else
        var verified := known.(signatureValid := true);
        if (Some(t.claim), Some(t.assurance), Some(t.epoch)) != key.TokenBinding() then
          Decided(Deny(key.claim, key.assurance, verified))
        else
          var judged := verified.(
            claimSatisfied := t.claim == policy.requiredClaim,
            assuranceSufficient := AssuranceAtLeast(t.assurance, policy.minimumAssurance));
          var timed := judged.(expired := !(key.validFrom <= now <= key.validUntil));
          if !judged.claimSatisfied || !judged.assuranceSufficient then Decided(Deny(key.claim, key.assurance, judged))
          else if timed.expired then Decided(Deny(key.claim, key.assurance, timed))
          else if !policy.requireDomainBinding then
            Continue(Deny(key.claim, key.assurance, timed.(domainBindingValid := true, challengeValid := true)))
          else
            var placed := timed.(domainBindingValid := p.binding.audience == site.audience);
            if placed.domainBindingValid then Continue(Deny(key.claim, key.assurance, placed))
            else Decided(Deny(key.claim, key.assurance, placed))
  }

  /** After the atomic consume. */
  function TokenChallenged(site: Site, v: Verdict, c: Option<Challenge>): Stage
  {
    if !site.policy.requireDomainBinding then Continue(v)
    else
      var w := v.(flags := v.flags.(challengeValid := c.Some? && c.value.requiredClaim == site.policy.requiredClaim));
      if w.flags.challengeValid then Continue(w) else Decided(w)
  }

  /** After the atomic check_and_insert. */
  function TokenDecided(site: Site, v: Verdict, unspent: bool): Verdict
  {
    if site.policy.requireSingleUse && !unspent then v.(flags := v.flags.(replayed := true)) else v.(allow := true)
  }

  datatype Outcome = Outcome(verdict: Verdict, pending: map<string, Challenge>, spent: set<string>)

  /** One call run without interruption. */
  function VerifyAlone(site: Site, p: Presentation, signed: bool, hash: string, now: int, consumeNow: int,
      pending: map<string, Challenge>, spent: set<string>): Outcome
  {
    var local := TokenLocal(site, p, signed, now);
    if local.Decided? then Outcome(local.verdict, pending, spent)
    else
      var c := Consumed(pending, p.binding.challengeId, p.binding.challenge, consumeNow);
      var bound := TokenChallenged(site, local.verdict, c);
      var rest := if site.policy.requireDomainBinding then Popped(pending, p.binding.challengeId) else pending;
      if bound.Decided? then Outcome(bound.verdict, rest, spent)
      else Outcome(TokenDecided(site, bound.verdict, hash !in spent), rest,
                   if site.policy.requireSingleUse then spent + {hash} else spent)
  }

  class BlindAgeVerifier {
    const site: Site
    const challenges: ChallengeManager
    const replay: ReplayCache

    constructor (site: Site, challenges: ChallengeManager, replay: ReplayCache)
      ensures this.site == site && this.challenges == challenges && this.replay == replay
    {
      this.site := site;
      this.challenges := challenges;
      this.replay := replay;
    }

    /** The flags are filled in step by step; hash is the digest of the nonce. */
    method Verify(p: Presentation, signed: bool, hash: string, now: int, consumeNow: int) returns (d: Verdict)
      modifies challenges, replay
      ensures Outcome(d, challenges.pending, replay.spent)
           == VerifyAlone(site, p, signed, hash, now, consumeNow, old(challenges.pending), old(replay.spent))
    {
      var flags := INITIAL;
      var token, policy := p.token, site.policy;
      var issuer := GetIssuer(site.registry, token.issuerId);
      if issuer.None? || !issuer.value.status.Active? || token.issuerId !in policy.trustedIssuers {
        return Deny(None, None, flags);
      }
      flags := flags.(issuerTrusted := true);
      flags := flags.(revoked := false);
      var found := GetKey(site.registry, token.issuerId, token.issuerKeyId, TokenSigning);
      if found.None? {
        return Deny(None, None, flags);
      }
      var key := found.value;
      if key.algorithm !in policy.allowedAlgorithms {
        return Deny(None, None, flags);
      }
      flags := flags.(signatureValid := signed);
      if !flags.signatureValid {
        return Deny(None, None, flags);
      }
      if (Some(token.claim), Some(token.assurance), Some(token.epoch)) != (key.claim, key.assurance, key.epoch) {
        return Deny(key.claim, key.assurance, flags);
      }
      flags := flags.(claimSatisfied := key.claim.value == policy.requiredClaim);
      flags := flags.(assuranceSufficient := AssuranceAtLeast(key.assurance.value, policy.minimumAssurance));
      if !(flags.claimSatisfied && flags.assuranceSufficient) {
        return Deny(key.claim, key.assurance, flags);
      }
      flags := flags.(expired := !(key.validFrom <= now <= key.validUntil));
      if flags.expired {
        return Deny(key.claim, key.assurance, flags);
      }
      if policy.requireDomainBinding {
        flags := flags.(domainBindingValid := p.binding.audience == site.audience);
        if !flags.domainBindingValid {
          return Deny(key.claim, key.assurance, flags);
        }
        var challenge := challenges.Consume(p.binding.challengeId, p.binding.challenge, consumeNow);
        flags := flags.(challengeValid := challenge.Some? && challenge.value.requiredClaim == policy.requiredClaim);
        if !flags.challengeValid {
          return Deny(key.claim, key.assurance, flags);
        }
      } else {
        flags := flags.(domainBindingValid := true);
        flags := flags.(challengeValid := true);
      }
      if policy.requireSingleUse {
        var unspent := replay.CheckAndInsert(hash);
        if !unspent {
          flags := flags.(replayed := true);
          return Deny(key.claim, key.assurance, flags);
        }
      }
      return Verdict(true, key.claim, key.assurance, flags);
    }
  }

  /** Everything an ALLOW stands for, and nothing less: a call is allowed exactly under these conditions. */
  lemma AllowExact(site: Site, p: Presentation, signed: bool, hash: string, now: int, consumeNow: int,
      pending: map<string, Challenge>, spent: set<string>)
    ensures VerifyAlone(site, p, signed, hash, now, consumeNow, pending, spent).verdict.allow <==>
      && TrustedIssuer(site, p.token.issuerId)
      && TokenKey(site, p.token).Some?
      && var key := TokenKey(site, p.token).value;
      && key.algorithm in site.policy.allowedAlgorithms && signed
      && key.TokenBinding() == (Some(p.token.claim), Some(p.token.assurance), Some(p.token.epoch))
      && p.token.claim == site.policy.requiredClaim
      && AssuranceAtLeast(p.token.assurance, site.policy.minimumAssurance)
      && key.validFrom <= now <= key.validUntil
      && (site.policy.requireDomainBinding ==>
            && p.binding.audience == site.audience
            && var c := Consumed(pending, p.binding.challengeId, p.binding.challenge, consumeNow);
               c.Some? && c.value.requiredClaim == site.policy.requiredClaim)
      && (site.policy.requireSingleUse ==> hash !in spent)
  {
    hide LookupKey, GetIssuer;
  }

  // ---- Credential presentations ----

  function VcKey(site: Site, p: VcPresentation): Option<IssuerKey>
  {
    LookupKey(site.registry, p.issuerId, p.issuerKeyId, VcSigning)
  }

  /** Exactly the three metadata messages and one claim. */
  predicate DisclosureShape(indexes: seq<int>)
  {
    |indexes| == 4 && indexes[..3] == [0, 1, 2]
  }

  function VcLocal(site: Site, p: VcPresentation, now: int): Stage
  {
    var issuer := GetIssuer(site.registry, p.issuerId);
    var known := INITIAL.(issuerTrusted := true, revoked := false);
    if issuer.None? || !issuer.value.status.Active? || p.issuerId != site.trustedIssuer then
      Decided(Deny(None, None, INITIAL))
    else if VcKey(site, p).None? || VcKey(site, p).value.algorithm != BBS || !DisclosureShape(p.disclosedIndexes) then
      Decided(Deny(None, None, known))
    else
      var key := VcKey(site, p).value;
      if (Some(p.assurance), Some(p.epoch)) != (key.assurance, key.epoch) then Decided(Deny(None, key.assurance, known))
      else
        var timed := known.(expired := !(key.validFrom <= now <= key.validUntil));
        var placed := timed.(domainBindingValid := p.binding.audience == site.audience);
        if timed.expired then Decided(Deny(Some(p.requiredClaim), key.assurance, timed))
        else if placed.domainBindingValid then Continue(Deny(Some(p.requiredClaim), key.assurance, placed))
        else Decided(Deny(Some(p.requiredClaim), key.assurance, placed))
  }

  function VcChallenged(p: VcPresentation, v: Verdict, c: Option<Challenge>): Stage
  {
    var w := v.(flags := v.flags.(challengeValid := c.Some? && c.value.requiredClaim == p.requiredClaim));
    if w.flags.challengeValid then Continue(w) else Decided(w)
  }

  /** proven says whether the selective-disclosure proof verifies. */
  function VcDecided(p: VcPresentation, v: Verdict, c: Challenge, proven: bool): Verdict
  {
    var judged := v.flags.(
      claimSatisfied := c.requiredClaim == p.requiredClaim,
      assuranceSufficient := AssuranceAtLeast(p.assurance, c.minimumAssurance));
    if !judged.claimSatisfied || !judged.assuranceSufficient then v.(flags := judged)
    else v.(flags := judged.(signatureValid := proven), allow := proven)
  }

  datatype VcOutcome = VcOutcome(verdict: Verdict, pending: map<string, Challenge>)

  function VerifyVcAlone(site: Site, p: VcPresentation, proven: bool, now: int, consumeNow: int,
      pending: map<string, Challenge>): VcOutcome
  {
    var local := VcLocal(site, p, now);
    if local.Decided? then VcOutcome(local.verdict, pending)
    else
      var c := Consumed(pending, p.binding.challengeId, p.binding.challenge, consumeNow);
      var rest := Popped(pending, p.binding.challengeId);
      var bound := VcChallenged(p, local.verdict, c);
      if bound.Decided? then VcOutcome(bound.verdict, rest)
      else VcOutcome(VcDecided(p, bound.verdict, c.value, proven), rest)
  }

  method VerifyVcPresentation(site: Site, challenges: ChallengeManager, p: VcPresentation, proven: bool,
      now: int, consumeNow: int) returns (d: Verdict)
    modifies challenges
    ensures VcOutcome(d, challenges.pending)
         == VerifyVcAlone(site, p, proven, now, consumeNow, old(challenges.pending))
  {
    var flags := INITIAL;
    var issuer := GetIssuer(site.registry, p.issuerId);
    if issuer.None? || !issuer.value.status.Active? || p.issuerId != site.trustedIssuer {
      return Deny(None, None, flags);
    }
    flags := flags.(issuerTrusted := true);
    flags := flags.(revoked := false);
    var found := GetKey(site.registry, p.issuerId, p.issuerKeyId, VcSigning);
    if found.None? {
      return Deny(None, None, flags);
    }
    var key := found.value;
    if key.algorithm != BBS {
      return Deny(None, None, flags);
    }
    if |p.disclosedIndexes| != 4 || p.disclosedIndexes[..3] != [0, 1, 2] {
      return Deny(None, None, flags);
    }
    if (Some(p.assurance), Some(p.epoch)) != (key.assurance, key.epoch) {
      return Deny(None, key.assurance, flags);
    }
    var claim := Some(p.requiredClaim);
    flags := flags.(expired := !(key.validFrom <= now <= key.validUntil));
    if flags.expired {
      return Deny(claim, key.assurance, flags);
    }
    flags := flags.(domainBindingValid := p.binding.audience == site.audience);
    if !flags.domainBindingValid {
      return Deny(claim, key.assurance, flags);
    }
    var challenge := challenges.Consume(p.binding.challengeId, p.binding.challenge, consumeNow);
    flags := flags.(challengeValid := challenge.Some? && challenge.value.requiredClaim == p.requiredClaim);
    if !flags.challengeValid {
      return Deny(claim, key.assurance, flags);
    }
    flags := flags.(claimSatisfied := challenge.value.requiredClaim == p.requiredClaim);
    flags := flags.(assuranceSufficient := AssuranceAtLeast(key.assurance.value, challenge.value.minimumAssurance));
    if !(flags.claimSatisfied && flags.assuranceSufficient) {
      return Deny(claim, key.assurance, flags);
    }
    flags := flags.(signatureValid := proven);
    if !flags.signatureValid {
      return Deny(claim, key.assurance, flags);
    }
    return Verdict(true, claim, key.assurance, flags);
  }

  lemma VcAllowExact(site: Site, p: VcPresentation, proven: bool, now: int, consumeNow: int,
      pending: map<string, Challenge>)
    ensures VerifyVcAlone(site, p, proven, now, consumeNow, pending).verdict.allow <==>
      && GetIssuer(site.registry, p.issuerId).Some? && GetIssuer(site.registry, p.issuerId).value.status.Active?
      && p.issuerId == site.trustedIssuer
      && VcKey(site, p).Some?
      && var key := VcKey(site, p).value;
      && key.algorithm == BBS && DisclosureShape(p.disclosedIndexes)
      && key.assurance == Some(p.assurance) && key.epoch == Some(p.epoch)
      && key.validFrom <= now <= key.validUntil
      && p.binding.audience == site.audience
      && var c := Consumed(pending, p.binding.challengeId, p.binding.challenge, consumeNow);
      && c.Some? && c.value.requiredClaim == p.requiredClaim
      && AssuranceAtLeast(p.assurance, c.value.minimumAssurance) && proven
  {
    hide LookupKey, GetIssuer, DisclosureShape;
  }
}
