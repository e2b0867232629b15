// Concurrent redemption: any number of verify calls, token and credential,
// interleave over one challenge store and one replay cache. A call runs its
// local checks on its own; only consume and check_and_insert touch the stores.
module Redemption {
  import opened Results
  import opened Schemas
  import opened Verifier

  datatype Phase = Begun | Checked(v: Verdict) | Bound(v: Verdict, challenge: Option<Challenge>) | Done(v: Verdict)

  datatype Call = TokenCall(token: Presentation, phase: Phase) | VcCall(vc: VcPresentation, phase: Phase)
  {
    function Binding(): DomainBinding
    {
      if TokenCall? then token.binding else vc.binding
    }
  }

  /** created remembers every id ever issued; the stores are pending and spent. */
  datatype State = State(
    pending: map<string, Challenge>, created: set<string>, spent: set<string>, calls: map<nat, Call>)

  /**
   * What can happen next. Clock readings and the outcome of signature and proof
   * checks are part of the step, so a run may have any of them.
   */
  datatype Step =
    | Create(id: string, value: string, claim: AgeClaim, minimum: AssuranceLevel, now: int, ttl: int)
    | BeginToken(call: nat, token: Presentation)
    | BeginVc(call: nat, vc: VcPresentation)
    | Check(call: nat, now: int, signed: bool)
    | Consume(call: nat, now: int)
    | Finish(call: nat, proven: bool)

  function Start(): State
  {
    State(map[], {}, {}, map[])
  }

  function WithPhase(s: State, c: nat, phase: Phase): State
    requires c in s.calls
  {
    s.(calls := s.calls[c := s.calls[c].(phase := phase)])
  }

  function AfterCheck(site: Site, call: Call, now: int, signed: bool): Phase
  {
    var stage :=
      match call
      case TokenCall(p, _) => TokenLocal(site, p, signed, now)
      case VcCall(p, _) => VcLocal(site, p, now);
    if stage.Decided? then Done(stage.verdict) else Checked(stage.verdict)
  }

  function AfterConsume(site: Site, call: Call, v: Verdict, found: Option<Challenge>): Phase
  {
    var stage :=
      match call
      case TokenCall(_, _) => TokenChallenged(site, v, found)
      case VcCall(p, _) => VcChallenged(p, v, found);
    if stage.Decided? then Done(stage.verdict) else Bound(stage.verdict, found)
  }

  predicate Consumes(site: Site, call: Call)
  {
    call.VcCall? || site.policy.requireDomainBinding
  }

  /** One step; a step that does not apply changes nothing, and a reused id or call number is not fresh. */
  function Apply(site: Site, hash: string -> string, s: State, step: Step): State
  {
    match step
    case Create(id, value, claim, minimum, now, ttl) =>
      if id in s.created then s
      else s.(pending := s.pending[id := Challenge(id, claim, minimum, site.audience, value, now, now + ttl)],
              created := s.created + {id})
    case BeginToken(c, p) => if c in s.calls then s else s.(calls := s.calls[c := TokenCall(p, Begun)])
    case BeginVc(c, p) => if c in s.calls then s else s.(calls := s.calls[c := VcCall(p, Begun)])
    case Check(c, now, signed) =>
      if c !in s.calls || !s.calls[c].phase.Begun? then s
      else WithPhase(s, c, AfterCheck(site, s.calls[c], now, signed))
    case Consume(c, now) =>
      if c !in s.calls || !s.calls[c].phase.Checked? then s
      else
        var call, b := s.calls[c], s.calls[c].Binding();
        var found := Consumed(s.pending, b.challengeId, b.challenge, now);
        WithPhase(s, c, AfterConsume(site, call, call.phase.v, found))
          .(pending := if Consumes(site, call) then Popped(s.pending, b.challengeId) else s.pending)
    case Finish(c, proven) =>
      if c !in s.calls || !s.calls[c].phase.Bound? then s
      else
        var call := s.calls[c];
        if call.TokenCall? then
          var h := hash(call.token.token.nonce);
          WithPhase(s, c, Done(TokenDecided(site, call.phase.v, h !in s.spent)))
            .(spent := if site.policy.requireSingleUse then s.spent + {h} else s.spent)
        else if call.phase.challenge.None? then s
        else WithPhase(s, c, Done(VcDecided(call.vc, call.phase.v, call.phase.challenge.value, proven)))
  }

  function Run(site: Site, hash: string -> string, steps: seq<Step>): State
  {
    if |steps| == 0 then Start() else Apply(site, hash, Run(site, hash, steps[..|steps| - 1]), steps[|steps| - 1])
  }

  // ---- What the properties speak of ----

  predicate Allowed(call: Call)
  {
    call.phase.Done? && call.phase.v.allow
  }

  /** The call was allowed and used up the token whose nonce hashes to h. */
  predicate Burns(hash: string -> string, call: Call, h: string)
  {
    call.TokenCall? && Allowed(call) && hash(call.token.token.nonce) == h
  }

  /** The call consumes a challenge and has had it accepted. */
  predicate HasChallenge(site: Site, call: Call)
  {
    Consumes(site, call) && (call.phase.Bound? || call.phase.Done?) && call.phase.v.flags.challengeValid
  }

  // ---- The invariant ----

  ghost predicate OnceCreated(s: State)
  {
    forall id | id in s.pending :: id in s.created
  }

  ghost predicate AcceptedIsGone(site: Site, s: State)
  {
    forall c | c in s.calls && HasChallenge(site, s.calls[c]) ::
      s.calls[c].Binding().challengeId in s.created && s.calls[c].Binding().challengeId !in s.pending
  }

  predicate ShareChallenge(site: Site, x: Call, y: Call)
  {
    HasChallenge(site, x) && HasChallenge(site, y) && x.Binding().challengeId == y.Binding().challengeId
  }

  ghost predicate ChallengesDiffer(site: Site, s: State)
  {
    forall c, d | c in s.calls && d in s.calls && c != d :: !ShareChallenge(site, s.calls[c], s.calls[d])
  }

  ghost predicate AllowedHadChallenge(site: Site, s: State)
  {
    forall c | c in s.calls && Allowed(s.calls[c]) && Consumes(site, s.calls[c]) :: HasChallenge(site, s.calls[c])
  }

  ghost predicate BurnedBySome(hash: string -> string, s: State, h: string)
  {
    exists c :: c in s.calls && Burns(hash, s.calls[c], h)
  }

  ghost predicate SpentExact(hash: string -> string, s: State)
  {
    forall h :: h in s.spent <==> BurnedBySome(hash, s, h)
  }

  predicate ShareNonce(hash: string -> string, x: Call, y: Call)
  {
    y.TokenCall? && Allowed(y) && Burns(hash, x, hash(y.token.token.nonce))
  }

  ghost predicate NoncesDiffer(hash: string -> string, s: State)
  {
    forall c, d | c in s.calls && d in s.calls && c != d :: !ShareNonce(hash, s.calls[c], s.calls[d])
  }

  /** What holds of the challenge store under every policy. */
  ghost predicate ChallengeInv(site: Site, s: State)
  {
    OnceCreated(s) && AcceptedIsGone(site, s) && ChallengesDiffer(site, s) && AllowedHadChallenge(site, s)
  }

  /** What holds of the replay cache; a policy without single use never touches it. */
  ghost predicate NonceInv(site: Site, hash: string -> string, s: State)
  {
    if site.policy.requireSingleUse then SpentExact(hash, s) && NoncesDiffer(hash, s) else s.spent == {}
  }

  ghost predicate Inv(site: Site, hash: string -> string, s: State)
  {
    ChallengeInv(site, s) && NonceInv(site, hash, s)
  }

  // ---- One call changes ----

  /** Call c becomes call; its challenge, if newly accepted, was pending and is not any more. */
  predicate ChallengeTaken(site: Site, s: State, c: nat, call: Call, pending: map<string, Challenge>)
  {
    HasChallenge(site, call) ==>
      var id := call.Binding().challengeId;
      (c in s.calls && HasChallenge(site, s.calls[c]) && s.calls[c].Binding().challengeId == id)
      || (id in s.pending && id !in pending)
  }

  lemma ReplaceKeepsChallenges(site: Site, s: State, c: nat, call: Call, pending: map<string, Challenge>)
    requires OnceCreated(s) && AcceptedIsGone(site, s) && ChallengesDiffer(site, s)
    requires pending.Keys <= s.pending.Keys && ChallengeTaken(site, s, c, call, pending)
    ensures var t := s.(calls := s.calls[c := call], pending := pending);
      OnceCreated(t) && AcceptedIsGone(site, t) && ChallengesDiffer(site, t)
  {
    var t := s.(calls := s.calls[c := call], pending := pending);
    assert OnceCreated(t) && AcceptedIsGone(site, t);
    forall d, e | d in t.calls && e in t.calls && d != e ensures !ShareChallenge(site, t.calls[d], t.calls[e]) {
      if d == c {
        OthersKeepAway(site, s, c, call, pending, e);
      } else if e == c {
        OthersKeepAway(site, s, c, call, pending, d);
      }
    }
  }

  lemma OthersKeepAway(site: Site, s: State, c: nat, call: Call, pending: map<string, Challenge>, d: nat)
    requires OnceCreated(s) && AcceptedIsGone(site, s) && ChallengesDiffer(site, s)
    requires ChallengeTaken(site, s, c, call, pending) && d in s.calls && d != c
    ensures !ShareChallenge(site, call, s.calls[d]) && !ShareChallenge(site, s.calls[d], call)
  {
    assert c in s.calls ==> !ShareChallenge(site, s.calls[c], s.calls[d]);
  }

  /** The hash is new and goes into the cache exactly when the call ends with a token allowed. */
  predicate NonceBurned(hash: string -> string, s: State, call: Call, spent: set<string>)
  {
    if call.TokenCall? && Allowed(call) then
      var h := hash(call.token.token.nonce);
      h !in s.spent && spent == s.spent + {h}
    else spent == s.spent
  }

  lemma ReplaceKeepsNonces(hash: string -> string, s: State, c: nat, call: Call, spent: set<string>)
    requires SpentExact(hash, s) && NoncesDiffer(hash, s)
    requires (c in s.calls ==> !Allowed(s.calls[c])) && NonceBurned(hash, s, call, spent)
    ensures var t := s.(calls := s.calls[c := call], spent := spent);
      SpentExact(hash, t) && NoncesDiffer(hash, t)
  {
    hide SpentExact, NoncesDiffer;
    var t := s.(calls := s.calls[c := call], spent := spent);
    SpentGrows(hash, s, c, call, spent);
    NoncesStayDifferent(hash, s, c, call, spent);
  }

  lemma SpentGrows(hash: string -> string, s: State, c: nat, call: Call, spent: set<string>)
    requires SpentExact(hash, s)
    requires (c in s.calls ==> !Allowed(s.calls[c])) && NonceBurned(hash, s, call, spent)
    ensures SpentExact(hash, s.(calls := s.calls[c := call], spent := spent))
  {
    var t := s.(calls := s.calls[c := call], spent := spent);
    forall h ensures BurnedBySome(hash, t, h) <==> BurnedBySome(hash, s, h) || Burns(hash, call, h) {
      if BurnedBySome(hash, s, h) {
        var d :| d in s.calls && Burns(hash, s.calls[d], h);
        assert t.calls[d] == s.calls[d];
      }
      if Burns(hash, call, h) {
        assert t.calls[c] == call;
      }
    }
  }

  lemma NoncesStayDifferent(hash: string -> string, s: State, c: nat, call: Call, spent: set<string>)
    requires SpentExact(hash, s) && NoncesDiffer(hash, s) && NonceBurned(hash, s, call, spent)
    ensures NoncesDiffer(hash, s.(calls := s.calls[c := call], spent := spent))
  {
    var t := s.(calls := s.calls[c := call], spent := spent);
    forall d, e | d in t.calls && e in t.calls && d != e ensures !ShareNonce(hash, t.calls[d], t.calls[e]) {
      if d == c && call.TokenCall? && Allowed(call) {
        assert !BurnedBySome(hash, s, hash(call.token.token.nonce));
      } else if e == c && call.TokenCall? && Allowed(call) {
        assert !BurnedBySome(hash, s, hash(call.token.token.nonce));
      }
    }
  }

  lemma ReplaceKeepsInv(site: Site, hash: string -> string, s: State, c: nat, call: Call,
      pending: map<string, Challenge>, spent: set<string>)
    requires Inv(site, hash, s)
    requires pending.Keys <= s.pending.Keys && ChallengeTaken(site, s, c, call, pending)
    requires c in s.calls ==> !Allowed(s.calls[c])
    requires if site.policy.requireSingleUse then NonceBurned(hash, s, call, spent) else spent == s.spent
    requires Allowed(call) && Consumes(site, call) ==> HasChallenge(site, call)
    ensures Inv(site, hash, State(pending, s.created, spent, s.calls[c := call]))
  {
    var t := State(pending, s.created, spent, s.calls[c := call]);
    ReplaceKeepsChallenges(site, s, c, call, pending);
    if site.policy.requireSingleUse {
      ReplaceKeepsNonces(hash, s, c, call, spent);
    }
    assert AllowedHadChallenge(site, t);
    hide Allowed, HasChallenge, Consumes, ChallengeTaken, NonceBurned, ShareChallenge, ShareNonce;
    var x := s.(calls := s.calls[c := call], pending := pending);
    var y := s.(calls := s.calls[c := call], spent := spent);
    assert OnceCreated(t) && AcceptedIsGone(site, t) && ChallengesDiffer(site, t);
    if site.policy.requireSingleUse {
      assert SpentExact(hash, t) by {
        assert forall h :: BurnedBySome(hash, t, h) <==> BurnedBySome(hash, y, h);
      }
      assert NoncesDiffer(hash, t);
    }
  }

  // ---- Every step keeps the invariant ----

  lemma LocalChecksDecideNothingElse(site: Site, call: Call, now: int, signed: bool)
    ensures
      var v := AfterCheck(site, call, now, signed).v;
      !v.allow && (Consumes(site, call) ==> !v.flags.challengeValid)
  {}

  lemma ConsumeAccepts(site: Site, call: Call, v: Verdict, found: Option<Challenge>)
    requires !v.allow
    ensures var p := AfterConsume(site, call, v, found);
      !p.v.allow && (Consumes(site, call) && p.v.flags.challengeValid ==> found.Some?)
  {}

  lemma FinishAllows(site: Site, call: Call, proven: bool, unspent: bool)
    requires call.phase.Bound? && !call.phase.v.allow
    ensures var v := TokenDecided(site, call.phase.v, unspent);
      && v.allow == (unspent || !site.policy.requireSingleUse)
      && v.flags.challengeValid == call.phase.v.flags.challengeValid
    ensures call.VcCall? && call.phase.challenge.Some? ==>
      var v := VcDecided(call.vc, call.phase.v, call.phase.challenge.value, proven);
      v.flags.challengeValid == call.phase.v.flags.challengeValid
  {}

  /** A call still running has not been allowed, and one past its challenge has had it accepted. */
  ghost predicate Running(site: Site, s: State)
  {
    forall c | c in s.calls :: StillRunning(site, s.calls[c])
  }

  predicate StillRunning(site: Site, call: Call)
  {
    match call.phase
    case Begun => true
    case Checked(v) => !v.allow
    case Bound(v, _) => !v.allow && (Consumes(site, call) ==> v.flags.challengeValid)
    case Done(_) => true
  }

  lemma PhasesStayRunning(site: Site, hash: string -> string, s: State, step: Step)
    requires Running(site, s)
    ensures Running(site, Apply(site, hash, s, step))
  {
    hide TokenLocal, VcLocal, TokenDecided, VcDecided, Consumed;
    match step
    case Check(c, now, signed) =>
      if c in s.calls {
        LocalChecksDecideNothingElse(site, s.calls[c], now, signed);
      }
    case Consume(c, now) =>
    case _ =>
  }

  lemma CreateKeeps(site: Site, hash: string -> string, s: State, step: Step)
    requires step.Create? && Inv(site, hash, s)
    ensures Inv(site, hash, Apply(site, hash, s, step))
  {
    hide Allowed, HasChallenge, Consumes, ShareChallenge, ShareNonce, Burns;
    var t := Apply(site, hash, s, step);
    assert t.calls == s.calls && t.spent == s.spent;
    if site.policy.requireSingleUse {
      assert SpentExact(hash, t) by {
        assert forall h :: BurnedBySome(hash, t, h) <==> BurnedBySome(hash, s, h);
      }
    }
  }

  lemma CheckKeeps(site: Site, hash: string -> string, s: State, step: Step)
    requires step.Check? && Inv(site, hash, s)
    ensures Inv(site, hash, Apply(site, hash, s, step))
  {
    hide Inv, TokenLocal, VcLocal;
    var c := step.call;
    if c in s.calls && s.calls[c].phase.Begun? {
      LocalChecksDecideNothingElse(site, s.calls[c], step.now, step.signed);
      var call := s.calls[c].(phase := AfterCheck(site, s.calls[c], step.now, step.signed));
      ReplaceKeepsInv(site, hash, s, c, call, s.pending, s.spent);
    }
  }

  lemma ConsumeKeeps(site: Site, hash: string -> string, s: State, step: Step)
    requires step.Consume? && Inv(site, hash, s) && Running(site, s)
    ensures Inv(site, hash, Apply(site, hash, s, step))
  {
    hide Inv, TokenChallenged, VcChallenged;
    var c := step.call;
    if c in s.calls && s.calls[c].phase.Checked? {
      var b := s.calls[c].Binding();
      var found := Consumed(s.pending, b.challengeId, b.challenge, step.now);
      assert StillRunning(site, s.calls[c]);
      ConsumeAccepts(site, s.calls[c], s.calls[c].phase.v, found);
      var call := s.calls[c].(phase := AfterConsume(site, s.calls[c], s.calls[c].phase.v, found));
      assert call.Binding() == b;
      var pending := if Consumes(site, s.calls[c]) then Popped(s.pending, b.challengeId) else s.pending;
      ReplaceKeepsInv(site, hash, s, c, call, pending, s.spent);
    }
  }

  lemma FinishKeeps(site: Site, hash: string -> string, s: State, step: Step)
    requires step.Finish? && Inv(site, hash, s) && Running(site, s)
    ensures Inv(site, hash, Apply(site, hash, s, step))
  {
    hide Inv, TokenDecided, VcDecided;
    var c := step.call;
    if c in s.calls && s.calls[c].phase.Bound? {
      var was := s.calls[c];
      assert StillRunning(site, was);
      var t := Apply(site, hash, s, step);
      if was.TokenCall? {
        var h := hash(was.token.token.nonce);
        FinishAllows(site, was, step.proven, h !in s.spent);
        assert h in s.spent ==> s.spent + {h} == s.spent;
        ReplaceKeepsInv(site, hash, s, c, t.calls[c], s.pending, t.spent);
      } else if was.phase.challenge.Some? {
        FinishAllows(site, was, step.proven, true);
        ReplaceKeepsInv(site, hash, s, c, t.calls[c], s.pending, s.spent);
      }
    }
  }

  lemma BeginKeeps(site: Site, hash: string -> string, s: State, step: Step)
    requires (step.BeginToken? || step.BeginVc?) && Inv(site, hash, s)
    ensures Inv(site, hash, Apply(site, hash, s, step))
  {
    hide Inv;
    if step.call !in s.calls {
      var call := if step.BeginToken? then TokenCall(step.token, Begun) else VcCall(step.vc, Begun);
      ReplaceKeepsInv(site, hash, s, step.call, call, s.pending, s.spent);
    }
  }

  lemma StepKeepsInv(site: Site, hash: string -> string, s: State, step: Step)
    requires Inv(site, hash, s) && Running(site, s)
    ensures Inv(site, hash, Apply(site, hash, s, step)) && Running(site, Apply(site, hash, s, step))
  {
    hide Inv, Running, Apply;
    PhasesStayRunning(site, hash, s, step);
    match step
    case Create(_, _, _, _, _, _) => CreateKeeps(site, hash, s, step);
    case BeginToken(_, _) => BeginKeeps(site, hash, s, step);
    case BeginVc(_, _) => BeginKeeps(site, hash, s, step);
    case Check(_, _, _) => CheckKeeps(site, hash, s, step);
    case Consume(_, _) => ConsumeKeeps(site, hash, s, step);
    case Finish(_, _) => FinishKeeps(site, hash, s, step);
  }

  lemma {:induction false} RunKeepsInv(site: Site, hash: string -> string, steps: seq<Step>)
    ensures Inv(site, hash, Run(site, hash, steps)) && Running(site, Run(site, hash, steps))
  {
    if |steps| == 0 {
    } else {
      hide Inv, Running, Apply;
      RunKeepsInv(site, hash, steps[..|steps| - 1]);
      StepKeepsInv(site, hash, Run(site, hash, steps[..|steps| - 1]), steps[|steps| - 1]);
    }
  }

  /**
   * In every run, however the calls interleave, and under every policy: no
   * challenge serves two allowed calls that consume one (credential calls always
   * do, token calls when domain binding is on), and with single use on no nonce
   * hash is allowed twice.
   */
  lemma SingleUse(site: Site, hash: string -> string, steps: seq<Step>, c: nat, d: nat)
    requires var s := Run(site, hash, steps);
      c in s.calls && d in s.calls && c != d && Allowed(s.calls[c]) && Allowed(s.calls[d])
    ensures var x, y := Run(site, hash, steps).calls[c], Run(site, hash, steps).calls[d];
      && (Consumes(site, x) && Consumes(site, y) ==> x.Binding().challengeId != y.Binding().challengeId)
      && (site.policy.requireSingleUse && x.TokenCall? && y.TokenCall? ==>
            hash(x.token.token.nonce) != hash(y.token.token.nonce))
  {
    hide Run, Consumes;
    RunKeepsInv(site, hash, steps);
    var s := Run(site, hash, steps);
    assert !ShareChallenge(site, s.calls[c], s.calls[d]);
    assert site.policy.requireSingleUse ==> !ShareNonce(hash, s.calls[c], s.calls[d]);
  }

  /** The replay cache holds exactly the hashes of the allowed tokens, and nothing when tokens may be reused. */
  lemma SpentIsAllowed(site: Site, hash: string -> string, steps: seq<Step>, h: string)
    ensures var s := Run(site, hash, steps);
      h in s.spent <==> site.policy.requireSingleUse && exists c :: c in s.calls && Burns(hash, s.calls[c], h)
  {
    hide Run;
    RunKeepsInv(site, hash, steps);
    assert BurnedBySome(hash, Run(site, hash, steps), h) <==>
      exists c :: c in Run(site, hash, steps).calls && Burns(hash, Run(site, hash, steps).calls[c], h);
  }

  /**
   * A denied attempt never burns a token: the cache grows only when a step
   * ends a call with ALLOW, and then by its hash.
   */
  lemma OnlyAllowBurns(site: Site, hash: string -> string, s: State, step: Step)
    ensures var t := Apply(site, hash, s, step);
      t.spent != s.spent ==>
        && step.Finish? && step.call in t.calls && t.calls[step.call].TokenCall? && Allowed(t.calls[step.call])
        && t.spent == s.spent + {hash(t.calls[step.call].token.token.nonce)}
  {
    if step.Finish? && step.call in s.calls && s.calls[step.call].phase.Bound? && s.calls[step.call].TokenCall? {
      var h := hash(s.calls[step.call].token.token.nonce);
      assert h in s.spent ==> s.spent + {h} == s.spent;
    }
  }

  // ---- A call that is not interrupted ----

  /** What each step does to its call and to the stores. */
  lemma CheckDoes(site: Site, hash: string -> string, s: State, c: nat, now: int, signed: bool)
    requires c in s.calls && s.calls[c].phase.Begun?
    ensures var t := Apply(site, hash, s, Check(c, now, signed));
      && c in t.calls && t.calls[c] == s.calls[c].(phase := AfterCheck(site, s.calls[c], now, signed))
      && t.pending == s.pending && t.spent == s.spent
  {
    hide AfterCheck;
  }

  lemma ConsumeDoes(site: Site, hash: string -> string, s: State, c: nat, now: int)
    requires c in s.calls
    ensures var t := Apply(site, hash, s, Consume(c, now));
      var call, b := s.calls[c], s.calls[c].Binding();
      && c in t.calls && t.spent == s.spent
      && if call.phase.Checked? then
           var found := Consumed(s.pending, b.challengeId, b.challenge, now);
           && t.calls[c] == call.(phase := AfterConsume(site, call, call.phase.v, found))
           && t.pending == if Consumes(site, call) then Popped(s.pending, b.challengeId) else s.pending
         else t.calls[c] == call && t.pending == s.pending
  {
    hide AfterConsume, Consumed, Consumes, Popped;
  }

  lemma FinishDoes(site: Site, hash: string -> string, s: State, c: nat, proven: bool)
    requires c in s.calls
    ensures var t := Apply(site, hash, s, Finish(c, proven));
      var call := s.calls[c];
      && c in t.calls && t.pending == s.pending
      && if call.phase.Bound? && call.TokenCall? then
           var h := hash(call.token.token.nonce);
           && t.calls[c].phase == Done(TokenDecided(site, call.phase.v, h !in s.spent))
           && t.spent == if site.policy.requireSingleUse then s.spent + {h} else s.spent
         else if call.phase.Bound? && call.phase.challenge.Some? then
           && t.calls[c].phase == Done(VcDecided(call.vc, call.phase.v, call.phase.challenge.value, proven))
           && t.spent == s.spent
         else t.calls[c] == call && t.spent == s.spent
  {
    hide TokenDecided, VcDecided;
  }

  /** The steps of one token call back to back decide what the sequential verifier decides. */
  lemma TokenCallAlone(site: Site, hash: string -> string, s: State, c: nat, p: Presentation, signed: bool, now: int,
      consumeNow: int)
    requires c !in s.calls
    ensures var s1 := Apply(site, hash, s, BeginToken(c, p));
      var s2 := Apply(site, hash, s1, Check(c, now, signed));
      var s3 := Apply(site, hash, s2, Consume(c, consumeNow));
      var s4 := Apply(site, hash, s3, Finish(c, false));
      var o := VerifyAlone(site, p, signed, hash(p.token.nonce), now, consumeNow, s.pending, s.spent);
      c in s4.calls && s4.calls[c].phase == Done(o.verdict) && s4.pending == o.pending && s4.spent == o.spent
  {
    var s1 := Apply(site, hash, s, BeginToken(c, p));
    assert s1 == s.(calls := s.calls[c := TokenCall(p, Begun)]);
    var s2 := Apply(site, hash, s1, Check(c, now, signed));
    hide Apply, TokenLocal, TokenChallenged, TokenDecided, Consumed, Popped, VcDecided;
    CheckDoes(site, hash, s1, c, now, signed);
    ConsumeDoes(site, hash, s2, c, consumeNow);
    FinishDoes(site, hash, Apply(site, hash, s2, Consume(c, consumeNow)), c, false);
  }

  lemma VcCallAlone(site: Site, hash: string -> string, s: State, c: nat, p: VcPresentation, proven: bool, now: int,
      consumeNow: int)
    requires c !in s.calls
    ensures var s1 := Apply(site, hash, s, BeginVc(c, p));
      var s2 := Apply(site, hash, s1, Check(c, now, false));
      var s3 := Apply(site, hash, s2, Consume(c, consumeNow));
      var s4 := Apply(site, hash, s3, Finish(c, proven));
      var o := VerifyVcAlone(site, p, proven, now, consumeNow, s.pending);
      c in s4.calls && s4.calls[c].phase == Done(o.verdict) && s4.pending == o.pending && s4.spent == s.spent
  {
    var s1 := Apply(site, hash, s, BeginVc(c, p));
    assert s1 == s.(calls := s.calls[c := VcCall(p, Begun)]);
    var s2 := Apply(site, hash, s1, Check(c, now, false));
    hide Apply, VcLocal, VcDecided, Consumed, Popped, TokenDecided;
    CheckDoes(site, hash, s1, c, now, false);
    ConsumeDoes(site, hash, s2, c, consumeNow);
    FinishDoes(site, hash, Apply(site, hash, s2, Consume(c, consumeNow)), c, proven);
  }

  /**
   * Nothing that went before can keep a token from being redeemed once: against a
   * newly created challenge, a presentation that passes the local checks in time,
   * with a nonce not yet spent, is allowed.
   */
  lemma FreshChallengeRedeems(site: Site, hash: string -> string, s: State, create: Step, c: nat, p: Presentation,
      now: int, consumeNow: int)
    requires create.Create? && create.id !in s.created && c !in s.calls
    requires create.claim == site.policy.requiredClaim && consumeNow <= create.now + create.ttl
    requires p.binding.challengeId == create.id && p.binding.challenge == create.value
    requires TokenLocal(site, p, true, now).Continue?
    requires site.policy.requireSingleUse ==> hash(p.token.nonce) !in s.spent
    ensures var s0 := Apply(site, hash, s, create);
      var s1 := Apply(site, hash, s0, BeginToken(c, p));
      var s2 := Apply(site, hash, s1, Check(c, now, true));
      var s3 := Apply(site, hash, s2, Consume(c, consumeNow));
      var s4 := Apply(site, hash, s3, Finish(c, false));
      && c in s4.calls && Allowed(s4.calls[c])
      && s4.spent == if site.policy.requireSingleUse then s.spent + {hash(p.token.nonce)} else s.spent
  {
    hide TokenLocal;
    var s0 := Apply(site, hash, s, create);
    assert s0.spent == s.spent && s0.calls == s.calls;
    TokenCallAlone(site, hash, s0, c, p, true, now, consumeNow);
    hide Apply;
    var o := VerifyAlone(site, p, true, hash(p.token.nonce), now, consumeNow, s0.pending, s0.spent);
    assert o.verdict.allow;
  }
}
