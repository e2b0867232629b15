// Enrolment, credential issuance and redemption together: an allowed credential
// presentation, with a second proof that reopens its transcript, either is backed
// by a credential issued to an unexpired enrollment that was eligible for the
// claim shown, or the two proofs compute a forged signature.
module CredentialIssuance {
  import opened Arithmetic
  import opened Results
  import opened Schemas
  import opened Verifier
  import opened Redemption
  import opened MessageVector
  import opened Credential
  import opened CredentialSoundness
  import Issuance
  import Utf8
  import E = Eligibility
  import I = Issuer
  import B = Bbs
  import P = BbsProtocol

  /** A credential that issue_credential returned, with what it was issued on. */
  datatype IssuedVc = IssuedVc(
    cred: AgeCredential,
    enrollmentId: string,
    enrollment: I.Enrollment,
    signedAt: int,
    signedOn: E.Date)

  /** The fixed surroundings of a run; in an ideal one, proofs verify only for what was signed. */
  datatype World<!G1(!new), !G2(!new), !GT(!new)> = World(
    setting: Setting<G1, G2, GT>,
    site: Site,
    hash: string -> string,
    store: I.KeyStore,
    issuerId: string,
    ideal: bool)

  datatype System = System(redemption: State, enrollments: map<string, I.Enrollment>, credentials: seq<IssuedVc>)

  datatype Action =
    | Enroll(id: string, birth: E.Date, now: int)
    | IssueVc(enrollmentId: string, now: int, today: E.Date)
    | Redeem(step: Step)

  // ---- Backed or forged ----

  /** Modulo r the vector holds the three shown at 0, 1, 2 and the fourth at k, or the sum of two where k < 3. */
  predicate HoldsResidues(ms: seq<nat>, k: int, shown: seq<nat>, r: int)
    requires r > 0 && |shown| == 4
  {
    && |ms| >= 4 && 0 <= k < |ms|
    && (forall i :: 0 <= i < 3 && i != k ==> Cong(ms[i], shown[i], r))
    && Cong(ms[k], shown[3] + if k < 3 then shown[k] else 0, r)
  }

  /** The vector signed for the credential, under the material of the key, holds what the presentation shows. */
  predicate Covers<G1(==, !new), G2(==, !new), GT(==, !new)>(
      w: Setting<G1, G2, GT>, cred: AgeCredential, p: VcPresentation, key: IssuerKey)
  {
    && w.decode(cred.issuerPublicKey) == w.decode(key.publicKey)
    && key.assurance.Some? && key.epoch.Some? && |p.disclosedIndexes| == 4
    && HoldsResidues(B.MessageScalars(w.suite, CredentialMessages(cred)), p.disclosedIndexes[3],
                     ShownScalars(w, p, key), w.suite.r)
  }

  /** A credential issued so far covers what the presentation shows. */
  ghost predicate Backed<G1(!new), G2(!new), GT(!new)>(
      w: World<G1, G2, GT>, credentials: seq<IssuedVc>, p: VcPresentation)
  {
    && VcKey(w.site, p).Some?
    && exists i :: 0 <= i < |credentials| && Covers(w.setting, credentials[i].cred, p, VcKey(w.site, p).value)
  }

  /** The vector is, modulo r, the one that issue_credential signed for the credential under the key. */
  predicate SignedFor<G1(==, !new), G2(==, !new), GT(==, !new)>(
      w: Setting<G1, G2, GT>, cred: AgeCredential, key: IssuerKey, full: seq<int>)
  {
    var ms := B.MessageScalars(w.suite, CredentialMessages(cred));
    && w.decode(cred.issuerPublicKey) == w.decode(key.publicKey)
    && |full| == |ms| && forall i :: 0 <= i < |ms| ==> Cong(ms[i], full[i], w.suite.r)
  }

  /** A forgery: it passes the signature test of the key on a vector that was signed for no credential. */
  ghost predicate Forged<G1(!new), G2(!new), GT(!new)>(
      w: World<G1, G2, GT>, credentials: seq<IssuedVc>, key: IssuerKey, x: Computed<G1>)
  {
    && P.IsSignatureOn(w.setting.suite, w.setting.decode(key.publicKey), VcHeader(), x.full, x.a, x.e)
    && forall i :: 0 <= i < |credentials| ==> !SignedFor(w.setting, credentials[i].cred, key, x.full)
  }

  /**
   * Two proofs that verify and reopen one transcript: what is shown is covered by
   * a credential issued, or what the extractor computes from the two is a forgery.
   */
  lemma BackedOrForged<G1(!new), G2(!new), GT(!new)>(
      w: World<G1, G2, GT>, credentials: seq<IssuedVc>, p: VcPresentation, q: VcPresentation, key: IssuerKey)
    requires w.setting.suite.Valid() && VcKey(w.site, p) == Some(key) && DisclosureShape(p.disclosedIndexes)
    requires Proven(w.setting, key, p) && Proven(w.setting, key, q) && SameShowing(w.setting, p, q, key)
    ensures Backed(w, credentials, p) || Forged(w, credentials, key, ExtractedFrom(w.setting, p, q, key))
  {
    hide P.IsSignatureOn, Proven, VcKey, SameShowing, ExtractedFrom, VcHeader, SignedFor, Covers;
    ProvenExtracts(w.setting, p, q, key);
    var x := ExtractedFrom(w.setting, p, q, key);
    forall i | 0 <= i < |credentials| && SignedFor(w.setting, credentials[i].cred, key, x.full)
      ensures Covers(w.setting, credentials[i].cred, p, key)
    {
      SignedCovers(w.setting, credentials[i].cred, p, key, x);
    }
  }

  lemma SignedCovers<G1(!new), G2(!new), GT(!new)>(
      w: Setting<G1, G2, GT>, cred: AgeCredential, p: VcPresentation, key: IssuerKey, x: Computed<G1>)
    requires key.assurance.Some? && key.epoch.Some? && SignsShown(w, p, key, x) && SignedFor(w, cred, key, x.full)
    ensures Covers(w, cred, p, key)
  {
    hide P.IsSignatureOn, B.MessageScalars, CredentialMessages, ShownScalars, VcHeader;
  }

  // ---- Runs ----

  /** What the verifier finds of a proof; in an ideal run it must be backed as well. */
  ghost predicate Verifies<G1(!new), G2(!new), GT(!new)>(
      w: World<G1, G2, GT>, credentials: seq<IssuedVc>, p: VcPresentation)
  {
    && VcKey(w.site, p).Some? && Proven(w.setting, VcKey(w.site, p).value, p)
    && (w.ideal ==> Backed(w, credentials, p))
  }

  /** The proof check of the step is the verifier's own. */
  ghost function Answered<G1(!new), G2(!new), GT(!new)>(w: World<G1, G2, GT>, s: System, step: Step): Step
  {
    if step.Finish? && step.call in s.redemption.calls && s.redemption.calls[step.call].VcCall? then
      step.(proven := Verifies(w, s.credentials, s.redemption.calls[step.call].vc))
    else step
  }

  function Row(s: System, id: string): Option<I.Enrollment>
  {
    if id in s.enrollments then Some(s.enrollments[id]) else None
  }

  ghost function Act<G1(!new), G2(!new), GT(!new)>(w: World<G1, G2, GT>, s: System, a: Action): System
  {
    match a
    case Enroll(id, birth, now) =>
      s.(enrollments := Issuance.Enrolled(s.enrollments, id, birth, now))
    case IssueVc(id, now, today) =>
      var r := IssueCredential(w.setting, w.store, w.issuerId, Row(s, id), now, today);
      if r.Err? then s
      else s.(credentials := s.credentials + [IssuedVc(r.value, id, s.enrollments[id], now, today)])
    case Redeem(step) => s.(redemption := Apply(w.site, w.hash, s.redemption, Answered(w, s, step)))
  }

  ghost function Play<G1(!new), G2(!new), GT(!new)>(w: World<G1, G2, GT>, actions: seq<Action>): System
  {
    if |actions| == 0 then System(Start(), map[], [])
    else Act(w, Play(w, actions[..|actions| - 1]), actions[|actions| - 1])
  }

  // ---- What was issued ----

  /** Issued to an enrollment on file, unexpired when it was signed, for exactly the claims it was eligible for. */
  ghost predicate RightlyIssued(s: System, x: IssuedVc)
  {
    && x.enrollmentId in s.enrollments && s.enrollments[x.enrollmentId] == x.enrollment
    && x.signedAt < x.enrollment.expiresAt
    && forall c :: c in x.cred.claims <==> c in E.EligibleClaims(x.enrollment.birth, x.signedOn)
  }

  ghost predicate AllRightlyIssued(s: System)
  {
    forall i :: 0 <= i < |s.credentials| ==> RightlyIssued(s, s.credentials[i])
  }

  lemma ActKeepsRight<G1(!new), G2(!new), GT(!new)>(w: World<G1, G2, GT>, s: System, a: Action)
    requires AllRightlyIssued(s)
    ensures AllRightlyIssued(Act(w, s, a))
  {
    hide Apply, E.EligibleClaims, IssueCredential, Answered;
    var t := Act(w, s, a);
    if a.IssueVc? {
      IssuedIsRight(w, s, a);
    } else {
      forall i | 0 <= i < |t.credentials| ensures RightlyIssued(t, t.credentials[i]) {
        assert RightlyIssued(s, s.credentials[i]);
      }
    }
  }

  lemma IssuedIsRight<G1(!new), G2(!new), GT(!new)>(w: World<G1, G2, GT>, s: System, a: Action)
    requires AllRightlyIssued(s) && a.IssueVc?
    ensures AllRightlyIssued(Act(w, s, a))
  {
    hide E.EligibleClaims, IssueCredential;
    var t := Act(w, s, a);
    IssuedCarriesEligible(w.setting, w.store, w.issuerId, Row(s, a.enrollmentId), a.now, a.today);
    forall i | 0 <= i < |t.credentials| ensures RightlyIssued(t, t.credentials[i]) {
      if i < |s.credentials| {
        assert RightlyIssued(s, s.credentials[i]);
      }
    }
  }

  // ---- What stands behind an allowed call ----

  /** A call past its local checks has the shape they demand, and an allowed one a proof that verifies. */
  ghost predicate CallSound<G1(!new), G2(!new), GT(!new)>(
      w: World<G1, G2, GT>, credentials: seq<IssuedVc>, call: Call)
  {
    call.VcCall? ==>
      && (call.phase.Checked? || call.phase.Bound? || Allowed(call) ==> DisclosureShape(call.vc.disclosedIndexes))
      && (Allowed(call) ==> Verifies(w, credentials, call.vc))
  }

  ghost predicate AllSound<G1(!new), G2(!new), GT(!new)>(w: World<G1, G2, GT>, s: System)
  {
    forall c | c in s.redemption.calls :: CallSound(w, s.credentials, s.redemption.calls[c])
  }

  lemma VerifyingStays<G1(!new), G2(!new), GT(!new)>(w: World<G1, G2, GT>, s: System, a: Action, p: VcPresentation)
    requires Verifies(w, s.credentials, p)
    ensures Verifies(w, Act(w, s, a).credentials, p)
  {
    hide Apply, IssueCredential, Answered, Covers, VcKey, Proven;
    if w.ideal {
      var i :| 0 <= i < |s.credentials| && Covers(w.setting, s.credentials[i].cred, p, VcKey(w.site, p).value);
      assert Act(w, s, a).credentials[i] == s.credentials[i];
    }
  }

  /** What a step can make of a credential call. */
  lemma CallAfter(site: Site, hash: string -> string, s: State, step: Step, c: nat)
    requires Running(site, s) && c in Apply(site, hash, s, step).calls
    ensures var call := Apply(site, hash, s, step).calls[c];
      call.VcCall? && !(c in s.calls && call == s.calls[c]) ==>
        || call.phase.Begun?
        || (c in s.calls && s.calls[c].VcCall? && call.vc == s.calls[c].vc && match s.calls[c].phase
              case Begun => !Allowed(call) && (call.phase.Checked? ==> DisclosureShape(call.vc.disclosedIndexes))
                            && !call.phase.Bound?
              case Checked(_) => !Allowed(call)
              case Bound(_, _) => call.phase.Done? && (Allowed(call) ==> step.Finish? && step.call == c && step.proven)
              case Done(_) => false)
  {
    assert c in s.calls ==> StillRunning(site, s.calls[c]);
    if c in s.calls && step.Check? && step.call == c && s.calls[c].VcCall? {
      LocalShape(site, s.calls[c].vc, step.now);
      LocalChecksDecideNothingElse(site, s.calls[c], step.now, step.signed);
    }
    if c in s.calls && step.Consume? && step.call == c && s.calls[c].VcCall? && s.calls[c].phase.Checked? {
      var b := s.calls[c].Binding();
      ConsumeAccepts(site, s.calls[c], s.calls[c].phase.v, Consumed(s.pending, b.challengeId, b.challenge, step.now));
    }
    hide TokenLocal, VcLocal, TokenChallenged, VcChallenged, TokenDecided, Consumed, DisclosureShape, Popped;
  }

  lemma LocalShape(site: Site, p: VcPresentation, now: int)
    ensures VcLocal(site, p, now).Continue? ==> DisclosureShape(p.disclosedIndexes)
  {
    hide DisclosureShape, VcKey;
  }

  lemma ActKeepsSound<G1(!new), G2(!new), GT(!new)>(w: World<G1, G2, GT>, s: System, a: Action)
    requires Running(w.site, s.redemption) && AllSound(w, s)
    ensures AllSound(w, Act(w, s, a))
  {
    hide Apply, IssueCredential, Running, Verifies, DisclosureShape;
    var t := Act(w, s, a);
    forall c | c in t.redemption.calls ensures CallSound(w, t.credentials, t.redemption.calls[c]) {
      var call := t.redemption.calls[c];
      if call.VcCall? {
        if a.Redeem? {
          CallAfter(w.site, w.hash, s.redemption, Answered(w, s, a.step), c);
        }
        assert c in s.redemption.calls ==> CallSound(w, s.credentials, s.redemption.calls[c]);
        if Allowed(call) {
          VerifyingStays(w, s, a, call.vc);
        }
      }
    }
  }

  // ---- Every run ----

  ghost predicate SystemInv<G1(!new), G2(!new), GT(!new)>(w: World<G1, G2, GT>, s: System)
  {
    && Inv(w.site, w.hash, s.redemption) && Running(w.site, s.redemption)
    && AllRightlyIssued(s) && AllSound(w, s)
  }

  lemma ActKeepsInv<G1(!new), G2(!new), GT(!new)>(w: World<G1, G2, GT>, s: System, a: Action)
    requires SystemInv(w, s)
    ensures SystemInv(w, Act(w, s, a))
  {
    ActKeepsRight(w, s, a);
    ActKeepsSound(w, s, a);
    hide Inv, Running, AllRightlyIssued, AllSound, IssueCredential, Apply, Answered;
    if a.Redeem? {
      StepKeepsInv(w.site, w.hash, s.redemption, Answered(w, s, a.step));
    }
  }

  lemma StartIsSound<G1(!new), G2(!new), GT(!new)>(w: World<G1, G2, GT>)
    ensures SystemInv(w, System(Start(), map[], []))
  {
    RunKeepsInv(w.site, w.hash, []);
    hide Inv, Running, Verifies;
  }

  lemma {:induction false} PlayKeepsInv<G1(!new), G2(!new), GT(!new)>(w: World<G1, G2, GT>, actions: seq<Action>)
    ensures SystemInv(w, Play(w, actions))
  {
    hide SystemInv, Act;
    if |actions| == 0 {
      StartIsSound(w);
    } else {
      PlayKeepsInv(w, actions[..|actions| - 1]);
      ActKeepsInv(w, Play(w, actions[..|actions| - 1]), actions[|actions| - 1]);
    }
  }

  // ---- The claim shown ----

  /** No other claim is mapped to the scalar of this one. */
  ghost predicate ClaimApart<G1(!new), G2(!new), GT(!new)>(w: Setting<G1, G2, GT>, c: AgeClaim)
  {
    forall d :: ScalarOf(w, ClaimValue(d)) == ScalarOf(w, ClaimValue(c)) ==> d == c
  }

  /** Past the metadata a covered presentation shows a claim of the credential. */
  lemma CoveredClaim<G1(!new), G2(!new), GT(!new)>(
      w: Setting<G1, G2, GT>, cred: AgeCredential, p: VcPresentation, key: IssuerKey)
    requires Covers(w, cred, p, key) && p.disclosedIndexes[3] > 2 && ClaimApart(w, p.requiredClaim)
    ensures p.requiredClaim in cred.claims
  {
    hide Utf8.Encode, SortTexts, ClaimValue, LevelValue, ScalarOf;
    var k := p.disclosedIndexes[3];
    var sorted := SortTexts(ClaimValues(cred.claims));
    var texts := [cred.issuerId, LevelValue(cred.assurance), cred.epoch] + sorted;
    assert CredentialMessages(cred) == EncodeAll(texts);
    var ms := B.MessageScalars(w.suite, CredentialMessages(cred));
    assert ms[k] == ScalarOf(w, texts[k]) by {
      ScalarUnfolds(w, texts[k]);
    }
    ScalarUnfolds(w, ClaimValue(p.requiredClaim));
    CongSmall(ms[k], ShownScalars(w, p, key)[3], w.suite.r);
    assert texts[k] == sorted[k - 3] && texts[k] in sorted;
    SortMembers(ClaimValues(cred.claims), texts[k]);
    var i :| 0 <= i < |cred.claims| && ClaimValues(cred.claims)[i] == texts[k];
    assert cred.claims[i] == p.requiredClaim;
  }

  lemma ScalarUnfolds<G1(!new), G2(!new), GT(!new)>(w: Setting<G1, G2, GT>, text: string)
    ensures ScalarOf(w, text) == w.suite.HashToScalar(Utf8.Encode(text), B.MapTag) < w.suite.r
  {
    hide Utf8.Encode;
  }

  /** Some credential issued covers the presentation, rightly, and for an eligible holder if it shows a claim. */
  ghost predicate RightlyBacked<G1(!new), G2(!new), GT(!new)>(w: World<G1, G2, GT>, s: System, p: VcPresentation)
  {
    && VcKey(w.site, p).Some? && |p.disclosedIndexes| == 4
    && exists i :: 0 <= i < |s.credentials| && RightCover(w, s, s.credentials[i], p, VcKey(w.site, p).value)
  }

  /**
   * The credential was issued under the key to an enrollment on file that was
   * unexpired; and if the claim is shown past the metadata, the enrollment was
   * eligible for it on the day.
   */
  ghost predicate RightCover<G1(!new), G2(!new), GT(!new)>(
      w: World<G1, G2, GT>, s: System, x: IssuedVc, p: VcPresentation, key: IssuerKey)
  {
    && Covers(w.setting, x.cred, p, key) && RightlyIssued(s, x)
    && (p.disclosedIndexes[3] > 2 && ClaimApart(w.setting, p.requiredClaim) ==>
          p.requiredClaim in E.EligibleClaims(x.enrollment.birth, x.signedOn))
  }

  lemma BackedRightly<G1(!new), G2(!new), GT(!new)>(w: World<G1, G2, GT>, s: System, p: VcPresentation)
    requires AllRightlyIssued(s) && Backed(w, s.credentials, p)
    ensures RightlyBacked(w, s, p)
  {
    hide ClaimApart, E.EligibleClaims, VcKey, HoldsResidues;
    var key := VcKey(w.site, p).value;
    var i :| 0 <= i < |s.credentials| && Covers(w.setting, s.credentials[i].cred, p, key);
    var x := s.credentials[i];
    assert RightlyIssued(s, x);
    if p.disclosedIndexes[3] > 2 && ClaimApart(w.setting, p.requiredClaim) {
      CoveredClaim(w.setting, x.cred, p, key);
    }
    assert RightCover(w, s, x, p, key);
  }

  /** Call c of the run is an allowed credential call with the presentation p, under the key. */
  ghost predicate Showed<G1(!new), G2(!new), GT(!new)>(
      w: World<G1, G2, GT>, s: System, c: nat, p: VcPresentation, key: IssuerKey)
  {
    && c in s.redemption.calls && s.redemption.calls[c].VcCall? && Allowed(s.redemption.calls[c])
    && s.redemption.calls[c].vc == p && VcKey(w.site, p) == Some(key)
  }

  lemma ShowedFacts<G1(!new), G2(!new), GT(!new)>(
      w: World<G1, G2, GT>, actions: seq<Action>, c: nat, p: VcPresentation, key: IssuerKey)
    requires Showed(w, Play(w, actions), c, p, key)
    ensures VcKey(w.site, p) == Some(key) && Proven(w.setting, key, p) && DisclosureShape(p.disclosedIndexes)
    ensures var s := Play(w, actions); AllRightlyIssued(s) && (w.ideal ==> Backed(w, s.credentials, p))
  {
    hide Play, Inv, Running, Proven, Backed, DisclosureShape, VcKey, AllRightlyIssued;
    PlayKeepsInv(w, actions);
    var s := Play(w, actions);
    assert CallSound(w, s.credentials, s.redemption.calls[c]);
  }

  /**
   * In every run of enrolment, credential issuance and redemption steps, in which
   * bbs_proof_verify decides: an allowed credential call, whose transcript a
   * second proof that verifies reopens, is rightly backed, or the extractor
   * computes a forgery from the two.
   */
  lemma AllowedOrForged<G1(!new), G2(!new), GT(!new)>(
      w: World<G1, G2, GT>, actions: seq<Action>, c: nat, p: VcPresentation, q: VcPresentation, key: IssuerKey)
    requires w.setting.suite.Valid() && Showed(w, Play(w, actions), c, p, key)
    requires Proven(w.setting, key, q) && SameShowing(w.setting, p, q, key)
    ensures var s := Play(w, actions);
      RightlyBacked(w, s, p) || Forged(w, s.credentials, key, ExtractedFrom(w.setting, p, q, key))
  {
    hide *;
    ShowedFacts(w, actions, c, p, key);
    var s := Play(w, actions);
    BackedOrForged(w, s.credentials, p, q, key);
    if Backed(w, s.credentials, p) {
      BackedRightly(w, s, p);
    }
  }

  /** In an ideal run every allowed credential call is rightly backed. */
  lemma AllowedIsEligible<G1(!new), G2(!new), GT(!new)>(
      w: World<G1, G2, GT>, actions: seq<Action>, c: nat, p: VcPresentation, key: IssuerKey)
    requires w.ideal && Showed(w, Play(w, actions), c, p, key)
    ensures RightlyBacked(w, Play(w, actions), p) && Proven(w.setting, key, p)
  {
    hide *;
    ShowedFacts(w, actions, c, p, key);
    BackedRightly(w, Play(w, actions), p);
  }
}
