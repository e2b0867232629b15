// The protocol's records (blindage/schemas). Instants are integers; the
// validators of the source are the Valid predicates.
module Schemas {
  import opened Octets
  import opened Results

  /** The algorithm name of vc_signing keys. */
  const BBS := "bbs-bls12381-sha256"

  datatype AgeClaim = Over13 | Over16 | Over18 | Over21

  function MinAge(c: AgeClaim): int
  {
    match c case Over13 => 13 case Over16 => 16 case Over18 => 18 case Over21 => 21
  }

  datatype AssuranceLevel = AAL0 | AAL1 | AAL2 | AAL3

  function AssuranceRank(a: AssuranceLevel): int
  {
    match a case AAL0 => 0 case AAL1 => 1 case AAL2 => 2 case AAL3 => 3
  }

  predicate AssuranceAtLeast(level: AssuranceLevel, minimum: AssuranceLevel)
  {
    AssuranceRank(level) >= AssuranceRank(minimum)
  }

  datatype IssuerStatus = Active | Suspended | Revoked | Expired

  datatype Purpose = TokenSigning | VcSigning | RegistrySigning

  datatype IssuerKey = IssuerKey(
    keyId: string,
    purpose: Purpose,
    algorithm: string,
    publicKey: string,
    claim: Option<AgeClaim>,
    assurance: Option<AssuranceLevel>,
    epoch: Option<string>,
    validFrom: int,
    validUntil: int)
  {
    /** Token keys bind a claim, a level and a non-empty epoch; vc keys a level and an epoch but no claim. */
    predicate Valid()
    {
      && (purpose.TokenSigning? ==> claim.Some? && assurance.Some? && epoch.Some? && epoch.value != "")
      && (purpose.VcSigning? ==> claim.None? && assurance.Some? && epoch.Some? && epoch.value != "")
    }

    predicate Signs() { purpose.TokenSigning? || purpose.VcSigning? }

    function TokenBinding(): (Option<AgeClaim>, Option<AssuranceLevel>, Option<string>)
    {
      (claim, assurance, epoch)
    }
  }

  datatype IssuerMetadata = IssuerMetadata(issuerId: string, status: IssuerStatus, keys: seq<IssuerKey>)
  {
    predicate Valid()
    {
      forall a :: 0 <= a < |keys| ==> keys[a].Valid()
    }
  }

  datatype AgeToken = AgeToken(
    claim: AgeClaim,
    assurance: AssuranceLevel,
    epoch: string,
    issuerId: string,
    issuerKeyId: string,
    nonce: string,
    signature: string)

  datatype Challenge = Challenge(
    challengeId: string,
    requiredClaim: AgeClaim,
    minimumAssurance: AssuranceLevel,
    audience: string,
    challenge: string,
    issuedAt: int,
    expiresAt: int)

  datatype DomainBinding = DomainBinding(audience: string, challenge: string, challengeId: string, timestamp: int)

  datatype Presentation = Presentation(requiredClaim: AgeClaim, token: AgeToken, binding: DomainBinding)

  datatype VcPresentation = VcPresentation(
    requiredClaim: AgeClaim,
    issuerId: string,
    issuerKeyId: string,
    assurance: AssuranceLevel,
    epoch: string,
    proof: Octets,
    disclosedIndexes: seq<int>,
    binding: DomainBinding)

  datatype AgeCredential = AgeCredential(
    issuerId: string,
    issuerKeyId: string,
    issuerPublicKey: string,
    assurance: AssuranceLevel,
    epoch: string,
    claims: seq<AgeClaim>,
    signature: Octets)

  datatype Policy = Policy(
    requiredClaim: AgeClaim,
    minimumAssurance: AssuranceLevel,
    trustedIssuers: seq<string>,
    requireDomainBinding: bool,
    requireSingleUse: bool,
    allowedAlgorithms: seq<string>)
}
