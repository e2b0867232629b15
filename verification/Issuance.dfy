// Enrolment, issuance and redemption together: with ideal signatures, tokens
// redeemed for a claim never outnumber the signatures issued under its keys,
// each to an unexpired enrollment old enough when it was signed.
module Issuance {
  import opened Results
  import opened Schemas
  import opened Registry
  import opened Verifier
  import opened Redemption
  import E = Eligibility
  import I = Issuer

  const ENROLLMENT_TTL := 365 * 24 * 60 * 60

  /** One signature the issuer made; its nonce is known once a token has been made from it. */
  datatype Issued = Issued(
    material: string,
    binding: I.Binding,
    enrollmentId: string,
    enrollment: I.Enrollment,
    signedAt: int,
    signedOn: E.Date,
    nonce: Option<string>)

  /** The fixed surroundings of a run. */
  datatype World = World(
    site: Site,
    hash: string -> string,
    keys: seq<I.KeyEntry>,
    store: I.KeyStore,
    signable: string -> bool)

  datatype System = System(redemption: State, enrollments: map<string, I.Enrollment>, issued: seq<Issued>)

  datatype Action =
    | Enroll(id: string, birth: E.Date, now: int)
    | IssueTokens(req: I.TokenRequest, now: int, today: E.Date)
    | Unblind(index: nat, nonce: string)
    | Redeem(step: Step)

  /** Ideal signatures: a nonce verifies under a key only if a signature made with that key was turned into it. */
  ghost predicate Backed(issued: seq<Issued>, material: string, nonce: string)
  {
    exists i :: 0 <= i < |issued| && Yields(issued[i], material, nonce)
  }

  predicate Yields(x: Issued, material: string, nonce: string)
  {
    x.material == material && x.nonce == Some(nonce)
  }

  /** A blind signature is for a nonce not known yet; a plain one is for the nonce sent. */
  function Records(req: I.TokenRequest, enrollment: I.Enrollment, grant: I.Grant, now: int, today: E.Date): seq<Issued>
    requires !grant.blind ==> grant.signatures == |req.nonces|
  {
    seq(grant.signatures, k requires 0 <= k < grant.signatures =>
      Issued(grant.entry.publicMaterial, req.Tuple(), req.enrollmentId, enrollment, now, today,
             if grant.blind then None else Some(req.nonces[k])))
  }

  /** The signature check of the verifier, answered by the ideal signatures. */
  ghost function Answered(w: World, s: System, step: Step): Step
  {
    if step.Check? && step.call in s.redemption.calls && s.redemption.calls[step.call].TokenCall? then
      var t := s.redemption.calls[step.call].token.token;
      var key := TokenKey(w.site, t);
      step.(signed := step.signed && key.Some? && Backed(s.issued, key.value.publicKey, t.nonce))
    else step
  }

  /** The enrollments after one more; an id is fresh, so one on file is not given again. */
  function Enrolled(
      enrollments: map<string, I.Enrollment>, id: string, birth: E.Date, now: int): map<string, I.Enrollment>
  {
    if id in enrollments then enrollments else enrollments[id := I.Enrollment(birth, now + ENROLLMENT_TTL)]
  }

  ghost function Act(w: World, s: System, a: Action): System
    requires I.Represents(w.keys, w.store)
  {
    match a
    case Enroll(id, birth, now) =>
      s.(enrollments := Enrolled(s.enrollments, id, birth, now))
    case IssueTokens(req, now, today) =>
      var row := if req.enrollmentId in s.enrollments then Some(s.enrollments[req.enrollmentId]) else None;
      var r := I.IssueGate(w.store, row, req, now, today, w.signable);
      if r.Err? then s else s.(issued := s.issued + Records(req, row.value, r.value, now, today))
    case Unblind(i, nonce) =>
      if i < |s.issued| && s.issued[i].nonce.None?
      then s.(issued := s.issued[i := s.issued[i].(nonce := Some(nonce))]) else s
    case Redeem(step) => s.(redemption := Redemption.Apply(w.site, w.hash, s.redemption, Answered(w, s, step)))
  }

  ghost function Play(w: World, actions: seq<Action>): System
    requires I.Represents(w.keys, w.store)
  {
    if |actions| == 0 then System(Start(), map[], [])
    else Act(w, Play(w, actions[..|actions| - 1]), actions[|actions| - 1])
  }

  /** A registry key with the material of a configured token key is bound as that key is. */
  ghost predicate RegistryMatches(w: World)
  {
    forall id, kid, e | e in w.keys && !e.vc && e.Bound() ::
      BoundAlike(LookupKey(w.site.registry, id, kid, TokenSigning), e)
  }

  predicate BoundAlike(listed: Option<IssuerKey>, e: I.KeyEntry)
    requires e.Bound()
  {
    listed.Some? && listed.value.publicKey == e.publicMaterial ==>
      listed.value.TokenBinding() == (e.claim, e.assurance, Some(e.epoch))
  }

  ghost predicate Sound(w: World)
  {
    w.site.policy.requireSingleUse && I.Represents(w.keys, w.store) && RegistryMatches(w)
  }

  // ---- What enrolment and issuance do ----

  /** An enrollment lasts 365 days from the day it is made; one on file stays as it is. */
  lemma EnrolledForAYear(enrollments: map<string, I.Enrollment>, id: string, birth: E.Date, now: int, other: string)
    ensures var t := Enrolled(enrollments, id, birth, now);
      && t.Keys == enrollments.Keys + {id}
      && (other in enrollments ==> t[other] == enrollments[other])
      && (id !in enrollments ==> t[id].birth == birth && t[id].expiresAt == now + 31_536_000)
  {}

  /** The enrollment is on file, unexpired and old enough, and a configured key serves the request. */
  ghost predicate Serves(w: World, s: System, req: I.TokenRequest, now: int, today: E.Date, e: I.KeyEntry)
  {
    && req.enrollmentId in s.enrollments && now < s.enrollments[req.enrollmentId].expiresAt
    && req.claim in E.EligibleClaims(s.enrollments[req.enrollmentId].birth, today)
    && I.CanServe(w.keys, req, e, w.signable)
  }

  /** What a key signs for the request: one signature for each nonce sent, or for each blinded message. */
  predicate Signs(s: System, t: System, req: I.TokenRequest, now: int, today: E.Date, e: I.KeyEntry)
    requires req.enrollmentId in s.enrollments
  {
    && |t.issued| == |s.issued| + |req.nonces| + |req.blinded| && t.issued[..|s.issued|] == s.issued
    && forall k :: |s.issued| <= k < |t.issued| ==>
      var n := k - |s.issued|;
      && t.issued[k].material == e.publicMaterial && t.issued[k].binding == (req.claim, req.assurance, req.epoch)
      && t.issued[k].enrollmentId == req.enrollmentId && t.issued[k].enrollment == s.enrollments[req.enrollmentId]
      && t.issued[k].signedAt == now && t.issued[k].signedOn == today
      && t.issued[k].nonce == if n < |req.nonces| then Some(req.nonces[n]) else None
  }

  /** A request is signed, item by item, by a key that serves it; when there is none, nothing changes. */
  lemma RequestSigned(w: World, s: System, req: I.TokenRequest, now: int, today: E.Date)
    requires I.Represents(w.keys, w.store)
    ensures var t := Act(w, s, IssueTokens(req, now, today));
      && t.redemption == s.redemption && t.enrollments == s.enrollments
      && (t == s || exists e :: Serves(w, s, req, now, today, e) && Signs(s, t, req, now, today, e))
      && ((exists e :: Serves(w, s, req, now, today, e)) ==> t != s)
  {
    hide E.EligibleClaims, I.Represents;
    var row := if req.enrollmentId in s.enrollments then Some(s.enrollments[req.enrollmentId]) else None;
    var r := I.IssueGate(w.store, row, req, now, today, w.signable);
    I.GrantExact(w.keys, w.store, row, req, now, today, w.signable);
    I.GrantIsEligible(w.keys, w.store, row, req, now, today, w.signable);
    I.GrantServes(w.keys, w.store, row, req, now, today, w.signable);
    hide I.IssueGate, I.CanServe;
    if r.Ok? {
      var t := Act(w, s, IssueTokens(req, now, today));
      assert Serves(w, s, req, now, today, r.value.entry);
      assert Signs(s, t, req, now, today, r.value.entry);
    }
  }

  // ---- What was issued ----

  /** Issued to an enrollment on file, unexpired and old enough when it was signed, under a configured key. */
  ghost predicate RightlyIssued(w: World, s: System, x: Issued)
  {
    && x.enrollmentId in s.enrollments && s.enrollments[x.enrollmentId] == x.enrollment
    && x.signedAt < x.enrollment.expiresAt
    && x.binding.0 in E.EligibleClaims(x.enrollment.birth, x.signedOn)
    && UnderKey(w, x)
  }

  ghost predicate UnderKey(w: World, x: Issued)
  {
    exists e :: e in w.keys && !e.vc && e.Bound() && e.Tuple() == x.binding && e.publicMaterial == x.material
  }

  ghost predicate AllRightlyIssued(w: World, s: System)
  {
    forall i :: 0 <= i < |s.issued| ==> RightlyIssued(w, s, s.issued[i])
  }

  lemma IssueKeepsRight(w: World, s: System, req: I.TokenRequest, now: int, today: E.Date)
    requires I.Represents(w.keys, w.store) && AllRightlyIssued(w, s)
    ensures AllRightlyIssued(w, Act(w, s, IssueTokens(req, now, today)))
  {
    hide I.Represents, E.EligibleClaims;
    var row := if req.enrollmentId in s.enrollments then Some(s.enrollments[req.enrollmentId]) else None;
    var r := I.IssueGate(w.store, row, req, now, today, w.signable);
    I.GrantIsEligible(w.keys, w.store, row, req, now, today, w.signable);
    hide I.IssueGate;
    if r.Ok? {
      var t := Act(w, s, IssueTokens(req, now, today));
      var records := Records(req, row.value, r.value, now, today);
      forall i | 0 <= i < |t.issued| ensures RightlyIssued(w, t, t.issued[i]) {
        if i < |s.issued| {
          assert t.issued[i] == s.issued[i] && RightlyIssued(w, s, s.issued[i]);
        } else {
          assert t.issued[i] == records[i - |s.issued|];
          assert UnderKey(w, t.issued[i]);
        }
      }
    }
  }

  lemma ActKeepsRight(w: World, s: System, a: Action)
    requires I.Represents(w.keys, w.store) && AllRightlyIssued(w, s)
    ensures AllRightlyIssued(w, Act(w, s, a))
  {
    hide I.Represents, I.IssueGate, Redemption.Apply, E.EligibleClaims;
    match a
    case IssueTokens(req, now, today) => IssueKeepsRight(w, s, req, now, today);
    case Enroll(id, birth, now) =>
      var t := Act(w, s, a);
      forall i | 0 <= i < |t.issued| ensures RightlyIssued(w, t, t.issued[i]) {
        assert RightlyIssued(w, s, s.issued[i]);
      }
    case Unblind(i, nonce) =>
      var t := Act(w, s, a);
      forall k | 0 <= k < |t.issued| ensures RightlyIssued(w, t, t.issued[k]) {
        assert RightlyIssued(w, s, s.issued[k]);
        assert UnderKey(w, s.issued[k]) ==> UnderKey(w, t.issued[k]);
      }
    case Redeem(step) =>
      var t := Act(w, s, a);
      forall i | 0 <= i < |t.issued| ensures RightlyIssued(w, t, t.issued[i]) {
        assert RightlyIssued(w, s, s.issued[i]);
      }
  }

  // ---- What stands behind a call ----

  /**
   * A token call past its local checks carries a nonce made from an issued
   * signature, under a key bound to its claim.
   */
  ghost predicate CallBacked(w: World, issued: seq<Issued>, call: Call)
  {
    call.TokenCall? && (call.phase.Checked? || call.phase.Bound? || Allowed(call)) ==>
      var t := call.token.token;
      var key := TokenKey(w.site, t);
      && key.Some? && key.value.claim == Some(t.claim) && call.phase.v.claim == Some(t.claim)
      && Backed(issued, key.value.publicKey, t.nonce)
  }

  ghost predicate AllBacked(w: World, s: System)
  {
    forall c | c in s.redemption.calls :: CallBacked(w, s.issued, s.redemption.calls[c])
  }

  lemma BackingStays(w: World, s: System, a: Action, material: string, nonce: string)
    requires I.Represents(w.keys, w.store) && Backed(s.issued, material, nonce)
    ensures Backed(Act(w, s, a).issued, material, nonce)
  {
    hide I.Represents, I.IssueGate, Redemption.Apply;
    var i :| 0 <= i < |s.issued| && Yields(s.issued[i], material, nonce);
    assert Act(w, s, a).issued[i] == s.issued[i];
  }

  /** What the local checks let through is backed. */
  lemma CheckedIsBacked(w: World, issued: seq<Issued>, call: Call, now: int, signed: bool)
    requires call.TokenCall? && call.phase.Begun?
    requires signed ==>
      var key := TokenKey(w.site, call.token.token);
      key.Some? && Backed(issued, key.value.publicKey, call.token.token.nonce)
    ensures CallBacked(w, issued, TokenCall(call.token, AfterCheck(w.site, call, now, signed)))
  {
    hide LookupKey, Backed, TrustedIssuer;
  }

  lemma LaterIsBacked(w: World, issued: seq<Issued>, call: Call, found: Option<Challenge>, unspent: bool)
    requires call.TokenCall? && CallBacked(w, issued, call)
    ensures call.phase.Checked? && !call.phase.v.allow ==>
      CallBacked(w, issued, TokenCall(call.token, AfterConsume(w.site, call, call.phase.v, found)))
    ensures call.phase.Bound? ==>
      CallBacked(w, issued, TokenCall(call.token, Done(TokenDecided(w.site, call.phase.v, unspent))))
  {
    hide LookupKey, Backed;
  }

  lemma RedeemKeepsBacked(w: World, s: System, step: Step)
    requires Sound(w) && AllBacked(w, s) && Running(w.site, s.redemption)
    ensures AllBacked(w, Act(w, s, Redeem(step)))
  {
    hide I.Represents, TokenLocal, VcLocal, TokenChallenged, VcChallenged, TokenDecided, VcDecided, Consumed,
        RegistryMatches,
      Backed, AfterCheck, AfterConsume, CallBacked, Allowed;
    var r := s.redemption;
    var t := Act(w, s, Redeem(step));
    forall c | c in t.redemption.calls ensures CallBacked(w, t.issued, t.redemption.calls[c]) {
      if c in r.calls && t.redemption.calls[c] == r.calls[c] {
        assert CallBacked(w, s.issued, r.calls[c]);
      } else {
        ChangedIsBacked(w, s, step, c);
      }
    }
  }

  lemma ChangedIsBacked(w: World, s: System, step: Step, c: nat)
    requires Sound(w) && AllBacked(w, s) && Running(w.site, s.redemption)
    requires var t := Act(w, s, Redeem(step));
      c in t.redemption.calls && !(c in s.redemption.calls && t.redemption.calls[c] == s.redemption.calls[c])
    ensures var t := Act(w, s, Redeem(step)); CallBacked(w, t.issued, t.redemption.calls[c])
  {
    hide I.Represents, TokenLocal, VcLocal, TokenChallenged, VcChallenged, TokenDecided, VcDecided, Consumed,
        RegistryMatches,
      Backed, AfterCheck, AfterConsume, LookupKey;
    var r := s.redemption;
    var t := Act(w, s, Redeem(step));
    if step.BeginToken? || step.BeginVc? || t.redemption.calls[c].VcCall? {
      assert t.redemption.calls[c].VcCall? || t.redemption.calls[c].phase.Begun?;
    } else {
      assert step.call == c && c in r.calls && r.calls[c].TokenCall?;
      var call := r.calls[c];
      assert CallBacked(w, s.issued, call) && StillRunning(w.site, call);
      if step.Check? {
        CheckedIsBacked(w, s.issued, call, step.now, Answered(w, s, step).signed);
      } else if step.Consume? {
        var b := call.Binding();
        LaterIsBacked(w, s.issued, call, Consumed(r.pending, b.challengeId, b.challenge, step.now), true);
      } else {
        LaterIsBacked(w, s.issued, call, None, w.hash(call.token.token.nonce) !in r.spent);
      }
    }
  }

  lemma ActKeepsBacked(w: World, s: System, a: Action)
    requires Sound(w) && AllBacked(w, s) && Running(w.site, s.redemption)
    ensures AllBacked(w, Act(w, s, a))
  {
    if a.Redeem? {
      RedeemKeepsBacked(w, s, a.step);
    } else {
      hide I.Represents, I.IssueGate, Redemption.Apply, RegistryMatches, LookupKey;
      var t := Act(w, s, a);
      assert t.redemption == s.redemption;
      forall c | c in t.redemption.calls ensures CallBacked(w, t.issued, t.redemption.calls[c]) {
        var call := s.redemption.calls[c];
        assert CallBacked(w, s.issued, call);
        if call.TokenCall? && (call.phase.Checked? || call.phase.Bound? || Allowed(call)) {
          BackingStays(w, s, a, TokenKey(w.site, call.token.token).value.publicKey, call.token.token.nonce);
        }
      }
    }
  }

  // ---- Every run ----

  ghost predicate SystemInv(w: World, s: System)
  {
    Inv(w.site, w.hash, s.redemption) && Running(w.site, s.redemption) && AllRightlyIssued(w, s) && AllBacked(w, s)
  }

  lemma ActKeepsInv(w: World, s: System, a: Action)
    requires Sound(w) && SystemInv(w, s)
    ensures SystemInv(w, Act(w, s, a))
  {
    ActKeepsRight(w, s, a);
    ActKeepsBacked(w, s, a);
    hide Inv, Running, AllRightlyIssued, AllBacked, I.IssueGate, Redemption.Apply, I.Represents, RegistryMatches;
    if a.Redeem? {
      StepKeepsInv(w.site, w.hash, s.redemption, Answered(w, s, a.step));
    }
  }

  lemma {:induction false} PlayKeepsInv(w: World, actions: seq<Action>)
    requires Sound(w)
    ensures SystemInv(w, Play(w, actions))
  {
    if |actions| > 0 {
      hide SystemInv, Act, RegistryMatches;
      PlayKeepsInv(w, actions[..|actions| - 1]);
      ActKeepsInv(w, Play(w, actions[..|actions| - 1]), actions[|actions| - 1]);
    }
  }

  // ---- The bound ----

  /** The calls that redeemed a token for the claim. */
  function AllowedFor(s: System, claim: AgeClaim): set<nat>
  {
    set c | c in s.redemption.calls && RedeemedFor(s.redemption.calls[c], claim)
  }

  predicate RedeemedFor(call: Call, claim: AgeClaim)
  {
    call.TokenCall? && Allowed(call) && call.phase.v.claim == Some(claim)
  }

  /** The signatures issued under the claim's keys. */
  function IssuedFor(s: System, claim: AgeClaim): set<nat>
  {
    set i: nat | i < |s.issued| && s.issued[i].binding.0 == claim
  }

  /** The token of call c carries the nonce that issued signature i was made into. */
  predicate MadeFrom(s: System, c: nat, i: nat)
  {
    && c in s.redemption.calls && s.redemption.calls[c].TokenCall? && i < |s.issued|
    && s.issued[i].nonce == Some(s.redemption.calls[c].token.token.nonce)
  }

  /** The signature a redeemed token was made from was issued for the claim it was redeemed for. */
  lemma SourceOf(w: World, s: System, c: nat, claim: AgeClaim) returns (i: nat)
    requires Sound(w) && SystemInv(w, s) && c in AllowedFor(s, claim)
    ensures i in IssuedFor(s, claim) && MadeFrom(s, c, i) && RightlyIssued(w, s, s.issued[i])
  {
    hide Inv, Running, I.Represents, LookupKey, E.EligibleClaims;
    var call := s.redemption.calls[c];
    assert CallBacked(w, s.issued, call);
    var t := call.token.token;
    var key := TokenKey(w.site, t).value;
    i :| 0 <= i < |s.issued| && Yields(s.issued[i], key.publicKey, t.nonce);
    assert RightlyIssued(w, s, s.issued[i]);
    var e :|
      && e in w.keys && !e.vc && e.Bound()
      && e.Tuple() == s.issued[i].binding && e.publicMaterial == s.issued[i].material;
    assert BoundAlike(LookupKey(w.site.registry, t.issuerId, t.issuerKeyId, TokenSigning), e);
  }

  lemma DistinctSources(w: World, s: System, c: nat, d: nat, i: nat, j: nat, claim: AgeClaim)
    requires Sound(w) && SystemInv(w, s) && c in AllowedFor(s, claim) && d in AllowedFor(s, claim) && c != d
    requires MadeFrom(s, c, i) && MadeFrom(s, d, j)
    ensures i != j
  {
    hide AllRightlyIssued, AllBacked, Running, SpentExact;
    assert !ShareNonce(w.hash, s.redemption.calls[c], s.redemption.calls[d]);
  }

  lemma {:induction false} InjectionBound(a: set<nat>, b: set<nat>, f: map<nat, nat>)
    requires f.Keys == a && (forall x | x in a :: f[x] in b)
    requires forall x, y | x in a && y in a && x != y :: f[x] != f[y]
    ensures |a| <= |b|
    decreases |a|
  {
    if a != {} {
      var x :| x in a;
      var a', b' := a - {x}, b - {f[x]};
      InjectionBound(a', b', map y | y in a' :: f[y]);
    }
  }

  /**
   * In every run of enrolment, issuance, minting and redemption steps, the tokens
   * redeemed for a claim do not outnumber the signatures issued for it, and every
   * one of those went to an unexpired enrollment old enough on the day.
   */
  lemma RedemptionsBounded(w: World, actions: seq<Action>, claim: AgeClaim)
    requires Sound(w)
    ensures var s := Play(w, actions);
      && |AllowedFor(s, claim)| <= |IssuedFor(s, claim)|
      && forall i | i in IssuedFor(s, claim) :: RightlyIssued(w, s, s.issued[i])
  {
    PlayKeepsInv(w, actions);
    var s := Play(w, actions);
    hide Play, RegistryMatches, I.Represents;
    assert AllRightlyIssued(w, s);
    var f: map<nat, nat> := map[];
    f := Sources(w, s, claim);
    InjectionBound(AllowedFor(s, claim), IssuedFor(s, claim), f);
  }

  /** One source for every redeeming call, no two the same. */
  lemma Sources(w: World, s: System, claim: AgeClaim) returns (f: map<nat, nat>)
    requires Sound(w) && SystemInv(w, s)
    ensures f.Keys == AllowedFor(s, claim) && forall c | c in f :: f[c] in IssuedFor(s, claim)
    ensures forall c, d | c in f && d in f && c != d :: f[c] != f[d]
  {
    hide *;
    var rest := AllowedFor(s, claim);
    f := map[];
    while rest != {}
      invariant f.Keys == AllowedFor(s, claim) - rest && rest <= AllowedFor(s, claim)
      invariant forall c | c in f :: f[c] in IssuedFor(s, claim) && MadeFrom(s, c, f[c])
      decreases |rest|
    {
      var c :| c in rest;
      var i := SourceOf(w, s, c, claim);
      f := f[c := i];
      rest := rest - {c};
    }
    forall c, d | c in f && d in f && c != d ensures f[c] != f[d] {
      DistinctSources(w, s, c, d, f[c], f[d], claim);
    }
  }
}
