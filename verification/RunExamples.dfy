// A run of the whole system that ends with a token redeemed: enrolled, signed
// blindly, unblinded and presented.
module RunExamples {
  import opened Results
  import opened Schemas
  import opened Verifier
  import opened Redemption
  import Registry
  import E = Eligibility
  import I = Issuer
  import T = Issuance

  function TokenEntry(): I.KeyEntry
  {
    I.KeyEntry(false, Some(I.RSABSSA), "key", Some(Over18), Some(AAL1), "epoch", "material", 10)
  }

  function TokenStore(): I.KeyStore
  {
    I.KeyStore(map[(Over18, AAL1, "epoch") := TokenEntry()], [])
  }

  function ListedKey(): IssuerKey
  {
    IssuerKey("key", TokenSigning, I.RSABSSA, "material", Some(Over18), Some(AAL1), Some("epoch"), 0, 10)
  }

  function TokenSite(): Site
  {
    Site(Registry.TrustRegistry(map["issuer" := IssuerMetadata("issuer", Active, [ListedKey()])]),
         Policy(Over18, AAL1, ["issuer"], true, true, [I.RSABSSA]), "site", "issuer")
  }

  function TokenWorld(): T.World
  {
    T.World(TokenSite(), nonce => nonce, [TokenEntry()], TokenStore(), blinded => true)
  }

  function Born(): E.Date { E.Date(2000, 1, 1) }

  function Today(): E.Date { E.Date(2025, 1, 1) }

  function Request(): I.TokenRequest { I.TokenRequest("person", Over18, AAL1, "epoch", [], ["blinded"]) }

  function Token(): Presentation
  {
    Presentation(Over18, AgeToken(Over18, AAL1, "epoch", "issuer", "key", "nonce", ""),
                 DomainBinding("site", "value", "id", 0))
  }

  lemma TokenWorldSound()
    ensures T.Sound(TokenWorld())
  {
    var w := TokenWorld();
    var b := (Over18, AAL1, "epoch");
    assert TokenEntry().Tuple() == b && I.Holds(TokenStore().byTuple, TokenEntry());
    assert w.keys[0] == TokenEntry();
    assert I.VcEntries(w.keys[..0]) == [];
    forall id, kid, e | e in w.keys && !e.vc && e.Bound()
      ensures T.BoundAlike(Registry.LookupKey(w.site.registry, id, kid, TokenSigning), e)
    {
      assert e == TokenEntry();
      OnlyListedKey(id, kid);
    }
  }

  lemma OnlyListedKey(id: string, kid: string)
    ensures var k := Registry.LookupKey(TokenSite().registry, id, kid, TokenSigning);
      k.None? || k == Some(ListedKey())
  {
    assert Registry.FirstKey([ListedKey()][1..], kid, TokenSigning) == None;
  }

  lemma PlayMore(w: T.World, actions: seq<T.Action>, a: T.Action)
    requires I.Represents(w.keys, w.store)
    ensures T.Play(w, actions + [a]) == T.Act(w, T.Play(w, actions), a)
  {
    assert (actions + [a])[..|actions|] == actions;
  }

  lemma PlayNothing(w: T.World)
    requires I.Represents(w.keys, w.store)
    ensures T.Play(w, []) == T.System(Start(), map[], [])
  {}

  /** Enrolled, issued one blind signature, and the token made from it. */
  function Prepared(): seq<T.Action>
  {
    [] + [T.Enroll("person", Born(), 0)] + [T.IssueTokens(Request(), 1, Today())] + [T.Unblind(0, "nonce")]
  }

  lemma PreparedState()
    requires I.Represents(TokenWorld().keys, TokenWorld().store)
    ensures var s := T.Play(TokenWorld(), Prepared());
      s.redemption == Start() && T.Backed(s.issued, "material", "nonce")
  {
    var w := TokenWorld();
    PlayNothing(w);
    PlayMore(w, [], T.Enroll("person", Born(), 0));
    var enrolled := [] + [T.Enroll("person", Born(), 0)];
    PlayMore(w, enrolled, T.IssueTokens(Request(), 1, Today()));
    PlayMore(w, enrolled + [T.IssueTokens(Request(), 1, Today())], T.Unblind(0, "nonce"));
    hide T.Play, I.Represents;
    assert Over18 in E.EligibleClaims(Born(), Today());
    var enrollment := I.Enrollment(Born(), T.ENROLLMENT_TTL);
    var r := I.IssueGate(w.store, Some(enrollment), Request(), 1, Today(), w.signable);
    assert r == Ok(I.Grant(TokenEntry(), true, 1));
    var x := T.Records(Request(), enrollment, r.value, 1, Today());
    assert x[0].nonce == None;
    assert T.Play(w, enrolled + [T.IssueTokens(Request(), 1, Today())]).issued == x;
    assert T.Yields(T.Play(w, Prepared()).issued[0], "material", "nonce");
  }

  /** The same, then one presentation of the token for a new challenge. */
  function TokenRun(): seq<T.Action>
  {
    Prepared() + [T.Redeem(Create("id", "value", Over18, AAL1, 1, 5))] + [T.Redeem(BeginToken(0, Token()))]
    + [T.Redeem(Check(0, 1, true))] + [T.Redeem(Consume(0, 1))] + [T.Redeem(Finish(0, false))]
  }

  lemma TokenPasses()
    ensures TokenLocal(TokenSite(), Token(), true, 1).Continue?
    ensures TokenLocal(TokenSite(), Token(), true, 1).verdict.claim == Some(Over18)
    ensures TokenKey(TokenSite(), Token().token) == Some(ListedKey())
  {}

  /** A step answered as it stands changes the redemption only. */
  lemma TokenStep(w: T.World, s: T.System, step: Step)
    requires I.Represents(w.keys, w.store)
    requires step.Check? && step.call in s.redemption.calls && s.redemption.calls[step.call].TokenCall? ==>
      var t := s.redemption.calls[step.call].token.token;
      TokenKey(w.site, t).Some? && T.Backed(s.issued, TokenKey(w.site, t).value.publicKey, t.nonce)
    ensures T.Act(w, s, T.Redeem(step)) == s.(redemption := Apply(w.site, w.hash, s.redemption, step))
  {
    hide Apply, T.Backed, I.Represents, TokenKey;
  }

  /** The steps of a token call one after the other, from a state in which the token is backed. */
  lemma TokenSteps(w: T.World, actions: seq<T.Action>, create: Step, p: Presentation)
    requires I.Represents(w.keys, w.store) && create.Create? && T.Play(w, actions).redemption == Start()
    requires TokenKey(w.site, p.token).Some?
    requires T.Backed(T.Play(w, actions).issued, TokenKey(w.site, p.token).value.publicKey, p.token.nonce)
    ensures var t := T.Play(w, actions + [T.Redeem(create)] + [T.Redeem(BeginToken(0, p))]
                                + [T.Redeem(Check(0, 1, true))] + [T.Redeem(Consume(0, 1))]
                                + [T.Redeem(Finish(0, false))]);
      var s0 := Apply(w.site, w.hash, Start(), create);
      t.redemption == Apply(w.site, w.hash, Apply(w.site, w.hash, Apply(w.site, w.hash, Apply(w.site, w.hash,
        s0, BeginToken(0, p)), Check(0, 1, true)), Consume(0, 1)), Finish(0, false))
  {
    hide T.Play, T.Act, T.Backed, I.Represents, TokenKey;
    var a1 := actions + [T.Redeem(create)];
    var a2 := a1 + [T.Redeem(BeginToken(0, p))];
    var a3 := a2 + [T.Redeem(Check(0, 1, true))];
    var a4 := a3 + [T.Redeem(Consume(0, 1))];
    PlayMore(w, actions, T.Redeem(create));
    PlayMore(w, a1, T.Redeem(BeginToken(0, p)));
    PlayMore(w, a2, T.Redeem(Check(0, 1, true)));
    PlayMore(w, a3, T.Redeem(Consume(0, 1)));
    PlayMore(w, a4, T.Redeem(Finish(0, false)));
    TokenStep(w, T.Play(w, actions), create);
    TokenStep(w, T.Play(w, a1), BeginToken(0, p));
    assert T.Play(w, a2).redemption.calls == map[0 := TokenCall(p, Begun)];
    hide Apply;
    TokenStep(w, T.Play(w, a2), Check(0, 1, true));
    TokenStep(w, T.Play(w, a3), Consume(0, 1));
    TokenStep(w, T.Play(w, a4), Finish(0, false));
  }

  /** The run is of a sound world and redeems a token for the claim. */
  lemma OneTokenRedeemed()
    ensures T.Sound(TokenWorld()) && 0 in T.AllowedFor(T.Play(TokenWorld(), TokenRun()), Over18)
  {
    TokenWorldSound();
    var w := TokenWorld();
    var create := Create("id", "value", Over18, AAL1, 1, 5);
    PreparedState();
    TokenPasses();
    hide T.Play, T.Backed, TokenKey, Prepared, I.Represents, T.RegistryMatches, TokenLocal, T.Sound;
    TokenSteps(w, Prepared(), create, Token());
    FreshChallengeRedeems(w.site, w.hash, Start(), create, 0, Token(), 1, 1);
    TokenCallClaim(w.site, w.hash, Apply(w.site, w.hash, Start(), create), Token());
  }

  /** The verdict names the claim of the key. */
  lemma TokenCallClaim(site: Site, hash: string -> string, s: State, p: Presentation)
    requires 0 !in s.calls && TokenLocal(site, p, true, 1).verdict.claim == Some(Over18)
    ensures var s1 := Apply(site, hash, s, BeginToken(0, p));
      var s4 := Apply(site, hash, Apply(site, hash, Apply(site, hash, s1, Check(0, 1, true)), Consume(0, 1)),
                      Finish(0, false));
      0 in s4.calls && s4.calls[0].TokenCall? && !s4.calls[0].phase.Begun? && s4.calls[0].phase.v.claim == Some(Over18)
  {
    hide TokenLocal, Consumed;
  }
}
