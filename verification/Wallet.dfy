// The extension's token store (extension/core/store.js, protocol.js, and
// topUpPlan of registry.js) and the wallet's in-place counterpart
// (blindage/wallet/client.py, build_presentation).
module Wallet {
  import opened Results
  import opened Schemas

  /** A token as the extension holds it. An absent field is an empty string; spent may be missing on import. */
  datatype Token = Token(
    claim: string,
    assurance: string,
    epoch: string,
    issuerId: string,
    issuerKeyId: string,
    nonce: string,
    signature: string,
    spent: Option<bool>)
  {
    predicate IsSpent() { spent == Some(true) }
  }

  datatype Request = Request(
    requiredClaim: string, minimumAssurance: string, audience: string, challenge: string, challengeId: string)

  datatype Shown = Shown(
    requiredClaim: string, token: Token, audience: string, challenge: string, challengeId: string, timestamp: string)

  predicate KnownClaim(c: string)
  {
    c == "AGE_OVER_13" || c == "AGE_OVER_16" || c == "AGE_OVER_18" || c == "AGE_OVER_21"
  }

  /** The rank of a level, with the source's defaults for unknown ones. */
  function RankOf(level: string, unknown: int): int
  {
    if level == "AAL0" then 0
    else if level == "AAL1" then 1
    else if level == "AAL2" then 2
    else if level == "AAL3" then 3
    else unknown
  }

  predicate AtLeast(level: string, minimum: string)
  {
    RankOf(level, -1) >= RankOf(minimum, 99)
  }

  predicate IsValidToken(t: Token)
  {
    && KnownClaim(t.claim) && RankOf(t.assurance, -1) >= 0
    && t.nonce != "" && t.signature != "" && t.epoch != "" && t.issuerId != "" && t.issuerKeyId != ""
  }

  // ---- A JavaScript Map keyed by nonce: values in order of first insertion ----

  predicate Has(s: seq<Token>, nonce: string)
  {
    exists i :: 0 <= i < |s| && s[i].nonce == nonce
  }

  /** Map.set: an existing key keeps its place and gets the new value. */
  function Put(s: seq<Token>, t: Token): (r: seq<Token>)
    ensures |r| == if Has(s, t.nonce) then |s| else |s| + 1
  {
    if |s| == 0 then [t]
    else if s[0].nonce == t.nonce then [t] + s[1..]
    else [s[0]] + Put(s[1..], t)
  }

  function FromList(existing: seq<Token>): seq<Token>
  {
    if |existing| == 0 then [] else Put(FromList(existing[..|existing| - 1]), existing[|existing| - 1])
  }

  ghost predicate UniqueNonces(s: seq<Token>)
  {
    forall i, j :: 0 <= i < j < |s| ==> s[i].nonce != s[j].nonce
  }

  lemma {:induction false} PutNew(s: seq<Token>, t: Token)
    requires !Has(s, t.nonce)
    ensures Put(s, t) == s + [t]
  {
    if |s| > 0 {
      assert !Has(s[1..], t.nonce) by {
        assert forall i :: 0 <= i < |s| - 1 ==> s[1..][i] == s[i + 1];
      }
      PutNew(s[1..], t);
      assert s + [t] == [s[0]] + (s[1..] + [t]);
    }
  }

  /** A known nonce keeps its first place and gets the new token; a new one goes to the end. */
  lemma {:induction false} PutExact(s: seq<Token>, t: Token, k: nat)
    requires k < |s| && s[k].nonce == t.nonce && forall i :: 0 <= i < k ==> s[i].nonce != t.nonce
    ensures Put(s, t) == s[k := t]
  {
    if k > 0 {
      PutExact(s[1..], t, k - 1);
      assert s[k := t] == [s[0]] + s[1..][k - 1 := t];
    }
  }

  /** Building the Map from a list without repeated nonces gives the list back. */
  lemma {:induction false} FromUnique(s: seq<Token>)
    requires UniqueNonces(s)
    ensures FromList(s) == s
  {
    if |s| > 0 {
      var front := s[..|s| - 1];
      FromUnique(front);
      assert !Has(front, s[|s| - 1].nonce);
      PutNew(front, s[|s| - 1]);
      assert s == front + [s[|s| - 1]];
    }
  }

  // ---- mergeTokens ----

  datatype Merge = Merge(tokens: seq<Token>, added: nat, rejected: nat)

  function Normalised(t: Token): Token
  {
    t.(spent := if t.spent.None? then Some(false) else t.spent)
  }

  function Absorb(start: seq<Token>, incoming: seq<Token>): Merge
  {
    if |incoming| == 0 then Merge(start, 0, 0)
    else
      var m := Absorb(start, incoming[..|incoming| - 1]);
      var t := incoming[|incoming| - 1];
      if !IsValidToken(t) then m.(rejected := m.rejected + 1)
      else if Has(m.tokens, t.nonce) then m
      else m.(tokens := m.tokens + [Normalised(t)], added := m.added + 1)
  }

  method MergeTokens(existing: seq<Token>, incoming: seq<Token>) returns (m: Merge)
    ensures m == Absorb(FromList(existing), incoming)
  {
    var byNonce: seq<Token> := [];
    var i := 0;
    while i < |existing|
      invariant i <= |existing|
      invariant byNonce == FromList(existing[..i])
    {
      assert existing[..i + 1][..i] == existing[..i];
      byNonce := Put(byNonce, existing[i]);
      i := i + 1;
    }
    assert existing[..i] == existing;
    var added, rejected: nat := 0, 0;
    i := 0;
    while i < |incoming|
      invariant i <= |incoming|
      invariant Merge(byNonce, added, rejected) == Absorb(FromList(existing), incoming[..i])
    {
      var t := incoming[i];
      assert incoming[..i + 1][..i] == incoming[..i];
      i := i + 1;
      if !IsValidToken(t) {
        rejected := rejected + 1;
        continue;
      }
      if !Has(byNonce, t.nonce) {
        PutNew(byNonce, Normalised(t));
        byNonce := Put(byNonce, Normalised(t));
        added := added + 1;
      }
    }
    assert incoming[..i] == incoming;
    return Merge(byNonce, added, rejected);
  }

  /**
   * What merging does: the store stays as it is and grows at the end by exactly
   * the valid tokens with new nonces, which are the ones counted.
   */
  lemma {:induction false} AbsorbExact(start: seq<Token>, incoming: seq<Token>)
    requires UniqueNonces(start)
    ensures var m := Absorb(start, incoming);
      && start <= m.tokens && UniqueNonces(m.tokens)
      && |m.tokens| == |start| + m.added
      && m.added + m.rejected <= |incoming|
      && (forall n :: Has(m.tokens, n) <==> Has(start, n) || Offers(incoming, n))
      && (forall i :: |start| <= i < |m.tokens| ==> IsValidToken(m.tokens[i]) && m.tokens[i].spent.Some?)
  {
    if |incoming| > 0 {
      var front, t := incoming[..|incoming| - 1], incoming[|incoming| - 1];
      AbsorbExact(start, front);
      var m, m' := Absorb(start, front), Absorb(start, incoming);
      forall n ensures Has(m'.tokens, n) <==> Has(start, n) || Offers(incoming, n) {
        OffersOneMore(front, t, n);
        assert incoming == front + [t];
        HasOneMore(m.tokens, Normalised(t), n);
      }
    }
  }

  /** A valid incoming token carries the nonce. */
  predicate Offers(incoming: seq<Token>, nonce: string)
  {
    exists i :: 0 <= i < |incoming| && IsValidToken(incoming[i]) && incoming[i].nonce == nonce
  }

  lemma OffersOneMore(front: seq<Token>, t: Token, n: string)
    ensures Offers(front + [t], n) <==> Offers(front, n) || (IsValidToken(t) && t.nonce == n)
  {
    assert (front + [t])[|front|] == t;
    assert forall i :: 0 <= i < |front| ==> (front + [t])[i] == front[i];
  }

  lemma HasOneMore(s: seq<Token>, t: Token, n: string)
    ensures Has(s + [t], n) <==> Has(s, n) || t.nonce == n
  {
    assert (s + [t])[|s|] == t;
    assert forall i :: 0 <= i < |s| ==> (s + [t])[i] == s[i];
  }

  predicate Ascends(ks: seq<nat>)
  {
    forall i, j :: 0 <= i < j < |ks| ==> ks[i] < ks[j]
  }

  /** Position k offers the first valid token of a nonce that the store does not hold. */
  predicate FirstOffer(start: seq<Token>, incoming: seq<Token>, k: nat)
  {
    && k < |incoming| && IsValidToken(incoming[k]) && !Has(start, incoming[k].nonce)
    && !Offers(incoming[..k], incoming[k].nonce)
  }

  /** The token is stored as it came, with an absent spent flag read as false. */
  predicate StoredAs(t: Token, incoming: Token)
  {
    t == incoming.(spent := Some(incoming.IsSpent()))
  }

  /**
   * Which tokens are appended, and how: the first offers of new nonces, in the
   * order in which they came; the rejected ones are the invalid ones.
   */
  lemma {:induction false} AbsorbContents(start: seq<Token>, incoming: seq<Token>) returns (ks: seq<nat>)
    requires UniqueNonces(start)
    ensures Ascends(ks) && |ks| == Absorb(start, incoming).added
    ensures forall k: nat :: k in ks <==> FirstOffer(start, incoming, k)
    ensures |Absorb(start, incoming).tokens| == |start| + |ks|
    ensures forall i :: 0 <= i < |ks| ==>
      ks[i] < |incoming| && StoredAs(Absorb(start, incoming).tokens[|start| + i], incoming[ks[i]])
    ensures Absorb(start, incoming).rejected == |set k | 0 <= k < |incoming| && !IsValidToken(incoming[k])|
  {
    hide *;
    if |incoming| == 0 {
      ks := [];
      NothingAbsorbed(start, incoming);
    } else {
      var n := |incoming| - 1;
      var us := AbsorbContents(start, incoming[..n]);
      AbsorbStep(start, incoming);
      CountOneMore(incoming);
      forall k: nat ensures k < n ==> (FirstOffer(start, incoming, k) <==> FirstOffer(start, incoming[..n], k)) {
        OfferPrefix(start, incoming, n, k);
      }
      forall k: nat ensures FirstOffer(start, incoming, k) ==> k < |incoming| {
        OfferInside(start, incoming, k);
      }
      forall k: nat ensures FirstOffer(start, incoming[..n], k) ==> k < n {
        OfferInside(start, incoming[..n], k);
      }
      if FirstOffer(start, incoming, n) {
        ks := us + [n];
        AscendsFurther(us, n);
      } else {
        ks := us;
      }
    }
  }

  lemma NothingAbsorbed(start: seq<Token>, incoming: seq<Token>)
    requires |incoming| == 0
    ensures Absorb(start, incoming) == Merge(start, 0, 0) && Ascends([])
    ensures forall k: nat :: !FirstOffer(start, incoming, k)
    ensures (set k | 0 <= k < |incoming| && !IsValidToken(incoming[k])) == {}
  {}

  lemma OfferInside(start: seq<Token>, incoming: seq<Token>, k: nat)
    ensures FirstOffer(start, incoming, k) ==> k < |incoming|
  {}

  lemma AscendsFurther(ks: seq<nat>, n: nat)
    requires Ascends(ks) && forall k :: k in ks ==> k < n
    ensures Ascends(ks + [n])
  {
    forall i, j | 0 <= i < j < |ks + [n]| ensures (ks + [n])[i] < (ks + [n])[j] {
      assert ks[i] in ks;
    }
  }

  /** One more incoming token: appended when it is a first offer. */
  lemma AbsorbStep(start: seq<Token>, incoming: seq<Token>)
    requires |incoming| > 0 && UniqueNonces(start)
    ensures var n := |incoming| - 1;
      var m, m' := Absorb(start, incoming[..n]), Absorb(start, incoming);
      && |m.tokens| == |start| + m.added
      && m'.rejected == m.rejected + (if IsValidToken(incoming[n]) then 0 else 1)
      && if FirstOffer(start, incoming, n)
         then m'.added == m.added + 1 && exists t :: StoredAs(t, incoming[n]) && m'.tokens == m.tokens + [t]
         else m'.added == m.added && m'.tokens == m.tokens
  {
    hide IsValidToken;
    var n := |incoming| - 1;
    AbsorbExact(start, incoming[..n]);
    NormalisedIsStored(incoming[n]);
  }

  lemma NormalisedIsStored(t: Token)
    ensures StoredAs(Normalised(t), t)
  {
    match t.spent {
      case None =>
      case Some(b) =>
        assert t.spent == Some(t.IsSpent()) by {
          assert t.spent == Some(b);
        }
        assert t == t.(spent := t.spent);
    }
  }

  lemma OfferPrefix(start: seq<Token>, incoming: seq<Token>, n: nat, k: nat)
    requires n < |incoming|
    ensures k < n ==> (FirstOffer(start, incoming, k) <==> FirstOffer(start, incoming[..n], k))
  {
    if k < n {
      assert incoming[..n][..k] == incoming[..k];
    }
  }

  lemma CountOneMore(incoming: seq<Token>)
    requires |incoming| > 0
    ensures var n := |incoming| - 1;
      |set k | 0 <= k < |incoming| && !IsValidToken(incoming[k])| ==
      |set k | 0 <= k < n && !IsValidToken(incoming[..n][k])| + if IsValidToken(incoming[n]) then 0 else 1
  {
    hide IsValidToken;
    var n := |incoming| - 1;
    var all := set k | 0 <= k < |incoming| && !IsValidToken(incoming[k]);
    var old' := set k | 0 <= k < n && !IsValidToken(incoming[..n][k]);
    assert all == if IsValidToken(incoming[n]) then old' else old' + {n};
  }

  // ---- selectToken and approveRequest ----

  predicate Usable(t: Token, r: Request)
  {
    !t.IsSpent() && t.claim == r.requiredClaim && AtLeast(t.assurance, r.minimumAssurance)
  }

  /** The first usable token, or the length when there is none. */
  function FirstUsable(tokens: seq<Token>, r: Request): (k: nat)
    ensures k <= |tokens|
    ensures k < |tokens| ==> Usable(tokens[k], r)
    ensures forall i :: 0 <= i < k ==> !Usable(tokens[i], r)
  {
    if |tokens| == 0 then 0 else if Usable(tokens[0], r) then 0 else 1 + FirstUsable(tokens[1..], r)
  }

  method SelectToken(tokens: seq<Token>, r: Request) returns (t: Option<Token>)
    ensures var k := FirstUsable(tokens, r); t == if k < |tokens| then Some(tokens[k]) else None
  {
    var i := 0;
    while i < |tokens|
      invariant i <= |tokens|
      invariant forall j :: 0 <= j < i ==> !Usable(tokens[j], r)
    {
      if
        && !tokens[i].IsSpent() && tokens[i].claim == r.requiredClaim
        && AtLeast(tokens[i].assurance, r.minimumAssurance)
      {
        return Some(tokens[i]);
      }
      i := i + 1;
    }
    return None;
  }

  function MarkSpent(tokens: seq<Token>, nonce: string): (r: seq<Token>)
    ensures |r| == |tokens|
  {
    seq(|tokens|, i requires 0 <= i < |tokens| =>
      if tokens[i].nonce == nonce then tokens[i].(spent := Some(true)) else tokens[i])
  }

  datatype Approval = NoToken | Approved(shown: Shown, tokens: seq<Token>)

  function ApproveRequest(tokens: seq<Token>, r: Request, now: string): Approval
  {
    var k := FirstUsable(tokens, r);
    if k == |tokens| then NoToken
    else Approved(Shown(r.requiredClaim, tokens[k].(spent := None), r.audience, r.challenge, r.challengeId, now),
                  MarkSpent(tokens, tokens[k].nonce))
  }

  /**
   * An approval is refused exactly when no token is usable; otherwise the first
   * usable one is shown under the request, without its flag, and every token
   * with its nonce is marked: it alone, when nonces are unique.
   */
  lemma ApproveExact(tokens: seq<Token>, r: Request, now: string)
    ensures var a := ApproveRequest(tokens, r, now);
      && (a.NoToken? <==> forall i :: 0 <= i < |tokens| ==> !Usable(tokens[i], r))
      && (a.Approved? ==> exists k ::
            && 0 <= k < |tokens| && Usable(tokens[k], r) && (forall i :: 0 <= i < k ==> !Usable(tokens[i], r))
            && a.shown == Shown(r.requiredClaim, tokens[k].(spent := None), r.audience, r.challenge, r.challengeId, now)
            && |a.tokens| == |tokens|
            && (forall i :: 0 <= i < |tokens| ==>
                  a.tokens[i] ==
                  if tokens[i].nonce == tokens[k].nonce then tokens[i].(spent := Some(true)) else tokens[i])
            && (UniqueNonces(tokens) ==> a.tokens == tokens[k := tokens[k].(spent := Some(true))]))
  {
    hide Usable;
    var k := FirstUsable(tokens, r);
    if k < |tokens| && UniqueNonces(tokens) {
      var t := MarkSpent(tokens, tokens[k].nonce);
      assert t == tokens[k := tokens[k].(spent := Some(true))];
    }
  }

  // ---- Runs ----

  /** A handler run to its end: an import or a mint merges tokens, an approval shows one. */
  datatype Action = Import(incoming: seq<Token>) | Approve(request: Request, now: string)

  /** The stored tokens, and everything ever shown to a site. */
  datatype Store = Store(tokens: seq<Token>, shown: seq<Shown>)

  function Act(s: Store, a: Action): Store
  {
    match a
    case Import(incoming) => s.(tokens := Absorb(FromList(s.tokens), incoming).tokens)
    case Approve(r, now) =>
      var approval := ApproveRequest(s.tokens, r, now);
      if approval.NoToken? then s else Store(approval.tokens, s.shown + [approval.shown])
  }

  function Run(actions: seq<Action>): Store
  {
    if |actions| == 0 then Store([], []) else Act(Run(actions[..|actions| - 1]), actions[|actions| - 1])
  }

  predicate SpentIn(tokens: seq<Token>, nonce: string)
  {
    exists i :: 0 <= i < |tokens| && tokens[i].nonce == nonce && tokens[i].IsSpent()
  }

  ghost predicate ShownAreSpent(s: Store)
  {
    forall i :: 0 <= i < |s.shown| ==> SpentIn(s.tokens, s.shown[i].token.nonce)
  }

  ghost predicate ShownOnce(s: Store)
  {
    forall i, j :: 0 <= i < j < |s.shown| ==> s.shown[i].token.nonce != s.shown[j].token.nonce
  }

  ghost predicate AllValid(tokens: seq<Token>)
  {
    forall i :: 0 <= i < |tokens| ==> IsValidToken(tokens[i]) && tokens[i].spent.Some?
  }

  ghost predicate StoreInv(s: Store)
  {
    UniqueNonces(s.tokens) && AllValid(s.tokens) && ShownAreSpent(s) && ShownOnce(s)
  }

  /** A spent nonce stays spent, and no token leaves the store or changes otherwise. */
  ghost predicate Keeps(s: seq<Token>, t: seq<Token>)
  {
    && |s| <= |t|
    && forall i :: 0 <= i < |s| ==> t[i] == s[i] || t[i] == s[i].(spent := Some(true))
  }

  lemma KeepsSpent(s: seq<Token>, t: seq<Token>, nonce: string)
    requires Keeps(s, t) && SpentIn(s, nonce)
    ensures SpentIn(t, nonce)
  {
    var i :| 0 <= i < |s| && s[i].nonce == nonce && s[i].IsSpent();
    assert t[i].nonce == nonce && t[i].IsSpent();
  }

  lemma MarkKeeps(tokens: seq<Token>, k: nat)
    requires k < |tokens| && UniqueNonces(tokens) && AllValid(tokens)
    ensures var t := MarkSpent(tokens, tokens[k].nonce);
      && Keeps(tokens, t) && UniqueNonces(t) && AllValid(t) && SpentIn(t, tokens[k].nonce)
      && t == tokens[k := tokens[k].(spent := Some(true))]
  {
    var t := MarkSpent(tokens, tokens[k].nonce);
    assert t[k].IsSpent() && t[k].nonce == tokens[k].nonce;
    assert forall i :: 0 <= i < |tokens| ==> t[i].nonce == tokens[i].nonce;
  }

  lemma ApproveKeeps(s: Store, a: Action)
    requires StoreInv(s) && a.Approve?
    ensures StoreInv(Act(s, a)) && Keeps(s.tokens, Act(s, a).tokens)
  {
    hide IsValidToken, AtLeast;
    var k := FirstUsable(s.tokens, a.request);
    if k < |s.tokens| {
      var nonce := s.tokens[k].nonce;
      MarkKeeps(s.tokens, k);
      hide UniqueNonces, AllValid, MarkSpent;
      var t := Act(s, a);
      assert !SpentIn(s.tokens, nonce) by {
        OnlyOneWith(s.tokens, k);
      }
      forall i | 0 <= i < |t.shown| ensures SpentIn(t.tokens, t.shown[i].token.nonce) {
        if i < |s.shown| {
          KeepsSpent(s.tokens, t.tokens, s.shown[i].token.nonce);
        }
      }
    }
  }

  lemma OnlyOneWith(tokens: seq<Token>, k: nat)
    requires k < |tokens| && UniqueNonces(tokens) && !tokens[k].IsSpent()
    ensures !SpentIn(tokens, tokens[k].nonce)
  {}

  lemma ImportKeeps(s: Store, a: Action)
    requires StoreInv(s) && a.Import?
    ensures StoreInv(Act(s, a)) && Keeps(s.tokens, Act(s, a).tokens)
    ensures |Act(s, a).tokens| == |s.tokens| + Absorb(s.tokens, a.incoming).added
  {
    hide IsValidToken;
    FromUnique(s.tokens);
    AbsorbExact(s.tokens, a.incoming);
    var t := Act(s, a);
    hide Absorb, FromList, UniqueNonces;
    assert Keeps(s.tokens, t.tokens) by {
      assert forall i :: 0 <= i < |s.tokens| ==> t.tokens[i] == s.tokens[i];
    }
    forall i | 0 <= i < |t.shown| ensures SpentIn(t.tokens, t.shown[i].token.nonce) {
      KeepsSpent(s.tokens, t.tokens, s.shown[i].token.nonce);
    }
  }

  lemma {:induction false} RunKeepsInv(actions: seq<Action>)
    ensures StoreInv(Run(actions))
  {
    if |actions| > 0 {
      hide StoreInv, Act;
      RunKeepsInv(actions[..|actions| - 1]);
      var s, a := Run(actions[..|actions| - 1]), actions[|actions| - 1];
      match a
      case Import(_) => ImportKeeps(s, a);
      case Approve(_, _) => ApproveKeeps(s, a);
    } else {
      assert Run(actions) == Store([], []);
    }
  }

  /** One more import shows nothing, keeps the stored tokens and appends the first offers of new nonces. */
  lemma NextImport(actions: seq<Action>, incoming: seq<Token>) returns (ks: seq<nat>)
    ensures var s, t := Run(actions), Run(actions + [Import(incoming)]);
      && t.shown == s.shown && |t.tokens| == |s.tokens| + |ks| && t.tokens[..|s.tokens|] == s.tokens
      && Ascends(ks) && (forall k: nat :: k in ks <==> FirstOffer(s.tokens, incoming, k))
      && forall i :: 0 <= i < |ks| ==>
           ks[i] < |incoming| && StoredAs(t.tokens[|s.tokens| + i], incoming[ks[i]])
  {
    hide Absorb, StoreInv, IsValidToken, Ascends, FirstOffer, StoredAs;
    var s := Run(actions);
    assert (actions + [Import(incoming)])[..|actions|] == actions;
    RunKeepsInv(actions);
    UniqueInStore(s);
    FromStore(s);
    AbsorbExact(s.tokens, incoming);
    ks := AbsorbContents(s.tokens, incoming);
  }

  /** One more approval shows the first usable token after all that was shown before, and marks it; or does nothing. */
  lemma NextApproval(actions: seq<Action>, r: Request, now: string)
    ensures var s, t := Run(actions), Run(actions + [Approve(r, now)]);
      if forall i :: 0 <= i < |s.tokens| ==> !Usable(s.tokens[i], r) then t == s
      else exists k ::
        && 0 <= k < |s.tokens| && Usable(s.tokens[k], r) && (forall i :: 0 <= i < k ==> !Usable(s.tokens[i], r))
        && t.tokens == s.tokens[k := s.tokens[k].(spent := Some(true))]
        && t.shown == s.shown
           + [Shown(r.requiredClaim, s.tokens[k].(spent := None), r.audience, r.challenge, r.challengeId, now)]
  {
    hide Usable, ApproveRequest, StoreInv, UniqueNonces;
    var s := Run(actions);
    assert (actions + [Approve(r, now)])[..|actions|] == actions;
    RunKeepsInv(actions);
    UniqueInStore(s);
    ApproveExact(s.tokens, r, now);
  }

  lemma UniqueInStore(s: Store)
    requires StoreInv(s)
    ensures UniqueNonces(s.tokens)
  {}

  /** Nonces stay unique over every run, and no nonce is ever shown twice. */
  lemma SpendsOnce(actions: seq<Action>, i: nat, j: nat)
    ensures UniqueNonces(Run(actions).tokens)
    ensures i < j < |Run(actions).shown| ==>
      Run(actions).shown[i].token.nonce != Run(actions).shown[j].token.nonce
  {
    RunKeepsInv(actions);
  }

  lemma KeepsTransitive(s: seq<Token>, t: seq<Token>, u: seq<Token>)
    requires Keeps(s, t) && Keeps(t, u)
    ensures Keeps(s, u)
  {}

  /** Along a run tokens are never lost or altered, and a spent flag never reverts, whatever is imported later. */
  lemma {:induction false} SpentNeverReverts(actions: seq<Action>, k: nat)
    requires k <= |actions|
    ensures Keeps(Run(actions[..k]).tokens, Run(actions).tokens)
    ensures forall n :: SpentIn(Run(actions[..k]).tokens, n) ==> SpentIn(Run(actions).tokens, n)
  {
    hide Act, StoreInv;
    if k == |actions| {
      assert actions[..k] == actions;
    } else {
      var front, a := actions[..|actions| - 1], actions[|actions| - 1];
      SpentNeverReverts(front, k);
      assert front[..k] == actions[..k];
      RunKeepsInv(front);
      match a {
        case Import(_) => ImportKeeps(Run(front), a);
        case Approve(_, _) => ApproveKeeps(Run(front), a);
      }
      KeepsTransitive(Run(actions[..k]).tokens, Run(front).tokens, Run(actions).tokens);
    }
    forall n | SpentIn(Run(actions[..k]).tokens, n) ensures SpentIn(Run(actions).tokens, n) {
      KeepsSpent(Run(actions[..k]).tokens, Run(actions).tokens, n);
    }
  }

  /** The token count of a run is the sum of what the merges said they added. */
  function TotalAdded(actions: seq<Action>): nat
  {
    if |actions| == 0 then 0
    else
      var front, a := actions[..|actions| - 1], actions[|actions| - 1];
      TotalAdded(front) + if a.Import? then Absorb(FromList(Run(front).tokens), a.incoming).added else 0
  }

  lemma {:induction false} CountIsAdded(actions: seq<Action>)
    ensures |Run(actions).tokens| == TotalAdded(actions)
  {
    if |actions| > 0 {
      hide StoreInv, Absorb, FromList;
      var front, a := actions[..|actions| - 1], actions[|actions| - 1];
      CountIsAdded(front);
      RunKeepsInv(front);
      if a.Import? {
        ImportKeeps(Run(front), a);
        FromStore(Run(front));
      }
    }
  }

  lemma FromStore(s: Store)
    requires StoreInv(s)
    ensures FromList(s.tokens) == s.tokens
  {
    FromUnique(s.tokens);
  }

  // ---- topUpPlan ----

  predicate Counts(t: Token, claim: string, issuerId: string)
  {
    !t.IsSpent() && t.claim == claim && t.issuerId == issuerId
  }

  /** How many unspent tokens for the claim come from the issuer. */
  function Unspent(tokens: seq<Token>, claim: string, issuerId: string): nat
  {
    if |tokens| == 0 then 0
    else
      Unspent(tokens[..|tokens| - 1], claim, issuerId) + if Counts(tokens[|tokens| - 1], claim, issuerId) then 1 else 0
  }

  function Short(tokens: seq<Token>, issuers: seq<string>, claim: string, threshold: int): seq<string>
  {
    if |issuers| == 0 then []
    else
      var front, last := issuers[..|issuers| - 1], issuers[|issuers| - 1];
      Short(tokens, front, claim, threshold) + if Unspent(tokens, claim, last) < threshold then [last] else []
  }

  /** One pass counts per issuer, a second picks the issuers below the threshold. */
  method TopUpPlan(tokens: seq<Token>, issuers: seq<string>, claim: string, threshold: int) returns (plan: seq<string>)
    ensures plan == Short(tokens, issuers, claim, threshold)
  {
    var counts: map<string, nat> := map[];
    var i := 0;
    while i < |tokens|
      invariant i <= |tokens|
      invariant forall id :: (if id in counts then counts[id] else 0) == Unspent(tokens[..i], claim, id)
    {
      var t := tokens[i];
      assert tokens[..i + 1][..i] == tokens[..i];
      i := i + 1;
      if t.IsSpent() || t.claim != claim {
        continue;
      }
      counts := counts[t.issuerId := (if t.issuerId in counts then counts[t.issuerId] else 0) + 1];
    }
    assert tokens[..i] == tokens;
    plan := [];
    i := 0;
    while i < |issuers|
      invariant i <= |issuers|
      invariant plan == Short(tokens, issuers[..i], claim, threshold)
    {
      assert issuers[..i + 1][..i] == issuers[..i];
      if (if issuers[i] in counts then counts[issuers[i]] else 0) < threshold {
        plan := plan + [issuers[i]];
      }
      i := i + 1;
    }
    assert issuers[..i] == issuers;
  }

  /** An issuer is topped up exactly when it is enrolled and below the threshold. */
  lemma {:induction false} ShortExact(tokens: seq<Token>, issuers: seq<string>, claim: string, threshold: int,
      id: string)
    ensures id in Short(tokens, issuers, claim, threshold) <==> id in issuers && Unspent(tokens, claim, id) < threshold
  {
    if |issuers| > 0 {
      var front, last := issuers[..|issuers| - 1], issuers[|issuers| - 1];
      ShortExact(tokens, front, claim, threshold, id);
      assert issuers == front + [last];
    }
  }

  /** The positions of the unspent tokens for the claim from the issuer. */
  function UnspentAt(tokens: seq<Token>, claim: string, issuerId: string): set<nat>
  {
    set i: nat | i < |tokens| && tokens[i].spent != Some(true) && tokens[i].claim == claim
                 && tokens[i].issuerId == issuerId
  }

  /** The count is of these positions. */
  lemma {:induction false} UnspentCounts(tokens: seq<Token>, claim: string, issuerId: string)
    ensures Unspent(tokens, claim, issuerId) == |UnspentAt(tokens, claim, issuerId)|
  {
    if |tokens| == 0 {
      assert UnspentAt(tokens, claim, issuerId) == {};
    } else {
      UnspentCounts(tokens[..|tokens| - 1], claim, issuerId);
      LastUnspent(tokens, claim, issuerId);
      hide UnspentAt, Counts;
    }
  }

  lemma LastUnspent(tokens: seq<Token>, claim: string, issuerId: string)
    requires |tokens| > 0
    ensures var n := |tokens| - 1;
      && n !in UnspentAt(tokens[..n], claim, issuerId)
      && UnspentAt(tokens, claim, issuerId) == UnspentAt(tokens[..n], claim, issuerId)
           + if Counts(tokens[n], claim, issuerId) then {n} else {}
  {
    var n := |tokens| - 1;
    forall i: nat ensures i < n ==> tokens[..n][i] == tokens[i] {}
  }

  /** The plan lists the issuers at these positions, in ascending order. */
  predicate Picks(ks: seq<nat>, plan: seq<string>, issuers: seq<string>)
  {
    Ascends(ks) && |ks| == |plan| && forall i :: 0 <= i < |ks| ==> ks[i] < |issuers| && plan[i] == issuers[ks[i]]
  }

  lemma PicksFurther(ks: seq<nat>, plan: seq<string>, issuers: seq<string>)
    requires |issuers| > 0 && Picks(ks, plan, issuers[..|issuers| - 1])
    ensures Picks(ks, plan, issuers) && Picks(ks + [|issuers| - 1], plan + [issuers[|issuers| - 1]], issuers)
    ensures forall k :: k in ks ==> k < |issuers| - 1
  {
    var n := |issuers| - 1;
    forall k | k in ks ensures k < n {
      var i :| 0 <= i < |ks| && ks[i] == k;
    }
    AscendsFurther(ks, n);
  }

  /** The plan keeps the order of the enrolled issuers: it lists those below the threshold, position by position. */
  lemma {:induction false} PlanKeepsOrder(tokens: seq<Token>, issuers: seq<string>, claim: string, threshold: int)
    returns (ks: seq<nat>)
    ensures Picks(ks, Short(tokens, issuers, claim, threshold), issuers)
    ensures forall k: nat :: k in ks <==> k < |issuers| && Unspent(tokens, claim, issuers[k]) < threshold
  {
    hide Unspent, Short, Ascends;
    ShortStep(tokens, issuers, claim, threshold);
    if |issuers| == 0 {
      ks := [];
    } else {
      hide Picks;
      var n := |issuers| - 1;
      var us := PlanKeepsOrder(tokens, issuers[..n], claim, threshold);
      PicksFurther(us, Short(tokens, issuers[..n], claim, threshold), issuers);
      ks := if Unspent(tokens, claim, issuers[n]) < threshold then us + [n] else us;
    }
  }

  lemma ShortStep(tokens: seq<Token>, issuers: seq<string>, claim: string, threshold: int)
    ensures Ascends([])
    ensures Short(tokens, issuers, claim, threshold) ==
      if |issuers| == 0 then []
      else
        var n := |issuers| - 1;
        Short(tokens, issuers[..n], claim, threshold)
        + if Unspent(tokens, claim, issuers[n]) < threshold then [issuers[n]] else []
  {
    hide Unspent;
  }

  // ---- The wallet's build_presentation, which marks the stored token in place ----

  class StoredToken {
    const token: AgeToken
    var spent: bool

    constructor (token: AgeToken)
      ensures this.token == token && !spent
    {
      this.token := token;
      spent := false;
    }
  }

  datatype WalletError = ChallengeExpired | NoUnspentToken

  predicate Fits(t: AgeToken, c: Challenge)
    ensures Fits(t, c) <==>
      t.claim == c.requiredClaim && AssuranceRank(t.assurance) >= AssuranceRank(c.minimumAssurance)
  {
    t.claim == c.requiredClaim && AssuranceAtLeast(t.assurance, c.minimumAssurance)
  }

  /** Presents the first unspent fitting token and spends that one only; when it refuses, nothing is spent. */
  method BuildPresentation(tokens: seq<StoredToken>, c: Challenge, now: int)
    returns (r: Result<Presentation, WalletError>)
    modifies set t | t in tokens
    ensures r.Err? ==> forall t | t in tokens :: t.spent == old(t.spent)
    ensures r.Err? ==>
      if now > c.expiresAt then r.error.ChallengeExpired?
      else r.error.NoUnspentToken? && forall t | t in tokens :: old(t.spent) || !Fits(t.token, c)
    ensures r.Ok? ==> now <= c.expiresAt && exists k ::
      && 0 <= k < |tokens| && !old(tokens[k].spent)
      && tokens[k].token.claim == c.requiredClaim
      && AssuranceRank(tokens[k].token.assurance) >= AssuranceRank(c.minimumAssurance)
      && (forall i :: 0 <= i < k ==> old(tokens[i].spent) || !Fits(tokens[i].token, c))
      && tokens[k].spent && (forall t | t in tokens && t != tokens[k] :: t.spent == old(t.spent))
      && r.value == Presentation(c.requiredClaim, tokens[k].token,
                                 DomainBinding(c.audience, c.challenge, c.challengeId, now))
  {
    if now > c.expiresAt {
      return Err(ChallengeExpired);
    }
    var i := 0;
    while i < |tokens|
      invariant i <= |tokens|
      invariant forall j :: 0 <= j < i ==> tokens[j].spent || !Fits(tokens[j].token, c)
      invariant forall t | t in tokens :: t.spent == old(t.spent)
    {
      var stored := tokens[i];
      if !stored.spent && stored.token.claim == c.requiredClaim
        && AssuranceAtLeast(stored.token.assurance, c.minimumAssurance)
      {
        stored.spent := true;
        return Ok(Presentation(c.requiredClaim, stored.token,
                               DomainBinding(c.audience, c.challenge, c.challengeId, now)));
      }
      i := i + 1;
    }
    return Err(NoUnspentToken);
  }
}
