// The issuer: the key store (blindage/issuer/keys.py) and the gate in front of
// token signing (blindage/issuer/app.py).
module Issuer {
  import opened Results
  import opened Schemas
  import opened Eligibility

  const RSABSSA := "rsabssa-sha384-pss-deterministic"
  const ED25519 := "ed25519"
  const MOCK := "mock-hmac-sha256"

  const MAX_BATCH := 100

  type Binding = (AgeClaim, AssuranceLevel, string)

  /** A configured key. The claim or level is absent when the entry names none or an unknown one. */
  datatype KeyEntry = KeyEntry(
    vc: bool,
    declaredAlgorithm: Option<string>,
    keyId: string,
    claim: Option<AgeClaim>,
    assurance: Option<AssuranceLevel>,
    epoch: string,
    publicMaterial: string,
    validUntil: int)
  {
    function Algorithm(): string
    {
      if declaredAlgorithm.Some? then declaredAlgorithm.value else MOCK
    }

    predicate Bound() { claim.Some? && assurance.Some? }

    function Tuple(): Binding
      requires Bound()
    {
      (claim.value, assurance.value, epoch)
    }
  }

  datatype KeyError = VcAlgorithm | DuplicateVcKeyId | UnsupportedAlgorithm | UnknownBinding | DuplicateTuple

  /** The two tables of the store; vc entries stay in the order in which they were configured. */
  datatype KeyStore = KeyStore(byTuple: map<Binding, KeyEntry>, vc: seq<KeyEntry>)

  predicate TokenAlgorithm(a: string)
  {
    a == ED25519 || a == MOCK || a == RSABSSA
  }

  // ---- Which configurations load ----

  predicate EntryValid(e: KeyEntry)
  {
    if e.vc then e.Algorithm() == BBS else TokenAlgorithm(e.Algorithm()) && e.Bound()
  }

  ghost predicate EntriesValid(keys: seq<KeyEntry>)
  {
    forall i :: 0 <= i < |keys| ==> EntryValid(keys[i])
  }

  ghost predicate UniqueVcIds(keys: seq<KeyEntry>)
  {
    forall i, j :: 0 <= i < j < |keys| && keys[i].vc && keys[j].vc ==> keys[i].keyId != keys[j].keyId
  }

  ghost predicate UniqueTuples(keys: seq<KeyEntry>)
  {
    forall i, j :: 0 <= i < j < |keys| ==> !SameTuple(keys[i], keys[j])
  }

  /** The entry declares RSA blind signatures. */
  predicate DeclaresBlind(e: KeyEntry)
  {
    e.declaredAlgorithm == Some("rsabssa-sha384-pss-deterministic")
  }

  lemma BlindDeclared(e: KeyEntry)
    ensures e.Algorithm() == RSABSSA <==> DeclaresBlind(e)
  {
    assert MOCK[0] != RSABSSA[0];
    if e.declaredAlgorithm.Some? {
      assert e.declaredAlgorithm == Some(e.declaredAlgorithm.value);
    }
  }

  /** Two token keys bound to the same claim, level and epoch. */
  predicate SameTuple(d: KeyEntry, e: KeyEntry)
  {
    !d.vc && !e.vc && d.Bound() && e.Bound() && d.Tuple() == e.Tuple()
  }

  ghost predicate Loadable(keys: seq<KeyEntry>)
  {
    EntriesValid(keys) && UniqueVcIds(keys) && UniqueTuples(keys)
  }

  function VcEntries(keys: seq<KeyEntry>): seq<KeyEntry>
  {
    if |keys| == 0 then []
    else
      var front, last := keys[..|keys| - 1], keys[|keys| - 1];
      if last.vc then VcEntries(front) + [last] else VcEntries(front)
  }

  /** Entry e is the token key the table holds for its tuple. */
  predicate Holds(table: map<Binding, KeyEntry>, e: KeyEntry)
  {
    e.Bound() && e.Tuple() in table && table[e.Tuple()] == e
  }

  ghost predicate TokensListed(keys: seq<KeyEntry>, table: map<Binding, KeyEntry>)
  {
    forall i :: 0 <= i < |keys| && !keys[i].vc ==> Holds(table, keys[i])
  }

  ghost predicate TableSound(keys: seq<KeyEntry>, table: map<Binding, KeyEntry>)
  {
    forall b | b in table :: table[b] in keys && !table[b].vc && table[b].Bound() && table[b].Tuple() == b
  }

  /** The tables hold exactly the configured keys. */
  ghost predicate Represents(keys: seq<KeyEntry>, store: KeyStore)
  {
    TokensListed(keys, store.byTuple) && TableSound(keys, store.byTuple) && store.vc == VcEntries(keys)
  }

  lemma {:induction false} VcEntriesMembers(keys: seq<KeyEntry>, e: KeyEntry)
    ensures e in VcEntries(keys) <==> e in keys && e.vc
  {
    if |keys| > 0 {
      var front, last := keys[..|keys| - 1], keys[|keys| - 1];
      VcEntriesMembers(front, e);
      assert keys == front + [last];
    }
  }

  lemma ValidStep(front: seq<KeyEntry>, e: KeyEntry)
    requires EntriesValid(front) && EntryValid(e)
    ensures EntriesValid(front + [e])
  {
    hide EntryValid;
  }

  lemma VcIdStep(front: seq<KeyEntry>, e: KeyEntry)
    requires UniqueVcIds(front) && (e.vc ==> forall j :: 0 <= j < |front| && front[j].vc ==> front[j].keyId != e.keyId)
    ensures UniqueVcIds(front + [e])
  {}

  lemma TupleStep(front: seq<KeyEntry>, e: KeyEntry)
    requires UniqueTuples(front) && forall j :: 0 <= j < |front| ==> !SameTuple(front[j], e)
    ensures UniqueTuples(front + [e])
  {
    hide SameTuple;
  }

  lemma SoundStep(front: seq<KeyEntry>, e: KeyEntry, table: map<Binding, KeyEntry>)
    requires TableSound(front, table)
    ensures TableSound(front + [e], table)
  {}

  lemma VcStep(front: seq<KeyEntry>, e: KeyEntry, store: KeyStore)
    requires Loadable(front) && Represents(front, store) && e.vc && EntryValid(e)
    requires forall j :: 0 <= j < |front| && front[j].vc ==> front[j].keyId != e.keyId
    ensures Loadable(front + [e]) && Represents(front + [e], store.(vc := store.vc + [e]))
  {
    ValidStep(front, e);
    VcIdStep(front, e);
    TupleStep(front, e);
    SoundStep(front, e, store.byTuple);
    hide EntriesValid, UniqueVcIds, UniqueTuples, TableSound, Holds, EntryValid;
    assert (front + [e])[..|front|] == front;
  }

  lemma TokenStep(front: seq<KeyEntry>, e: KeyEntry, store: KeyStore)
    requires Loadable(front) && Represents(front, store) && !e.vc && EntryValid(e) && e.Tuple() !in store.byTuple
    ensures Loadable(front + [e]) && Represents(front + [e], store.(byTuple := store.byTuple[e.Tuple() := e]))
  {
    ValidStep(front, e);
    VcIdStep(front, e);
    forall j | 0 <= j < |front| ensures !SameTuple(front[j], e) {
      assert !front[j].vc ==> Holds(store.byTuple, front[j]);
    }
    TupleStep(front, e);
    ListedStep(front, e, store.byTuple);
    SoundGrows(front, e, store.byTuple);
    hide EntriesValid, UniqueVcIds, UniqueTuples, TableSound, TokensListed, EntryValid;
    assert (front + [e])[..|front|] == front;
  }

  lemma ListedStep(front: seq<KeyEntry>, e: KeyEntry, table: map<Binding, KeyEntry>)
    requires TokensListed(front, table) && e.Bound() && e.Tuple() !in table
    ensures TokensListed(front + [e], table[e.Tuple() := e])
  {
    forall i | 0 <= i < |front| && !front[i].vc ensures Holds(table[e.Tuple() := e], front[i]) {
      assert Holds(table, front[i]);
    }
  }

  lemma SoundGrows(front: seq<KeyEntry>, e: KeyEntry, table: map<Binding, KeyEntry>)
    requires TableSound(front, table) && !e.vc && e.Bound()
    ensures TableSound(front + [e], table[e.Tuple() := e])
  {
    assert (front + [e])[|front|] == e;
    SoundStep(front, e, table);
  }

  lemma Conflict(keys: seq<KeyEntry>, i: nat, store: KeyStore)
    requires i < |keys| && Represents(keys[..i], store)
    requires !EntryValid(keys[i])
      || (keys[i].vc && exists j :: 0 <= j < i && keys[j].vc && keys[j].keyId == keys[i].keyId)
      || (!keys[i].vc && keys[i].Tuple() in store.byTuple)
    ensures !Loadable(keys)
  {
    if EntryValid(keys[i]) && !keys[i].vc {
      var j :| 0 <= j < |keys[..i]| && keys[..i][j] == store.byTuple[keys[i].Tuple()];
      assert SameTuple(keys[j], keys[i]);
    }
  }

  /** Some entry is at fault in the way that the error names. */
  ghost predicate Refuses(keys: seq<KeyEntry>, e: KeyError)
  {
    match e
    case VcAlgorithm => exists i :: 0 <= i < |keys| && keys[i].vc && keys[i].Algorithm() != BBS
    case DuplicateVcKeyId => !UniqueVcIds(keys)
    case UnsupportedAlgorithm => exists i :: 0 <= i < |keys| && !keys[i].vc && !TokenAlgorithm(keys[i].Algorithm())
    case UnknownBinding => exists i :: 0 <= i < |keys| && !keys[i].vc && !keys[i].Bound()
    case DuplicateTuple => !UniqueTuples(keys)
  }

  lemma RepeatedTuple(keys: seq<KeyEntry>, i: nat, store: KeyStore)
    requires i < |keys| && Represents(keys[..i], store)
    requires !keys[i].vc && keys[i].Bound() && keys[i].Tuple() in store.byTuple
    ensures Refuses(keys, DuplicateTuple)
  {
    var j :| 0 <= j < |keys[..i]| && keys[..i][j] == store.byTuple[keys[i].Tuple()];
    assert SameTuple(keys[j], keys[i]);
  }

  /**
   * Which entries are valid: a vc entry declares the BBS suite; a token entry has
   * a claim and a level and declares one of three algorithms, or none, which
   * stands for the mock one.
   */
  lemma EntryValidExact(e: KeyEntry)
    ensures EntryValid(e) <==>
      if e.vc then e.declaredAlgorithm == Some("bbs-bls12381-sha256")
      else
        && e.claim.Some? && e.assurance.Some?
        && (|| e.declaredAlgorithm == None || e.declaredAlgorithm == Some("mock-hmac-sha256")
            || e.declaredAlgorithm == Some("ed25519")
            || e.declaredAlgorithm == Some("rsabssa-sha384-pss-deterministic"))
  {
    if e.declaredAlgorithm.Some? {
      assert e.declaredAlgorithm == Some(e.declaredAlgorithm.value);
    }
    assert MOCK[0] != BBS[0];
  }

  /** The constructor: loads exactly the loadable configurations, one key per tuple. */
  method Load(keys: seq<KeyEntry>) returns (r: Result<KeyStore, KeyError>)
    ensures r.Ok? <==> Loadable(keys)
    ensures r.Ok? ==> Represents(keys, r.value)
    ensures r.Err? ==> Refuses(keys, r.error)
  {
    hide Loadable, Represents;
    var byTuple: map<Binding, KeyEntry> := map[];
    var vc: seq<KeyEntry> := [];
    var vcIds: set<string> := {};
    var i := 0;
    EmptyStore();
    assert keys[..0] == [];
    while i < |keys|
      invariant i <= |keys|
      invariant Loadable(keys[..i]) && Represents(keys[..i], KeyStore(byTuple, vc))
      invariant vcIds == set j | 0 <= j < i && keys[j].vc :: keys[j].keyId
    {
      var e := keys[i];
      ghost var store := KeyStore(byTuple, vc);
      assert keys[..i + 1] == keys[..i] + [e];
      if e.vc {
        if e.Algorithm() != BBS {
          Conflict(keys, i, store);
          return Err(VcAlgorithm);
        }
        if e.keyId in vcIds {
          Conflict(keys, i, store);
          return Err(DuplicateVcKeyId);
        }
        VcStep(keys[..i], e, store);
        vcIds := vcIds + {e.keyId};
        vc := vc + [e];
      } else {
        if !TokenAlgorithm(e.Algorithm()) {
          Conflict(keys, i, store);
          return Err(UnsupportedAlgorithm);
        }
        if !e.Bound() {
          Conflict(keys, i, store);
          return Err(UnknownBinding);
        }
        if e.Tuple() in byTuple {
          Conflict(keys, i, store);
          RepeatedTuple(keys, i, store);
          return Err(DuplicateTuple);
        }
        TokenStep(keys[..i], e, store);
        byTuple := byTuple[e.Tuple() := e];
      }
      i := i + 1;
    }
    assert keys[..i] == keys;
    return Ok(KeyStore(byTuple, vc));
  }

  lemma EmptyStore()
    ensures Loadable([]) && Represents([], KeyStore(map[], []))
  {}

  // ---- Lookups ----

  function AlgorithmFor(store: KeyStore, b: Binding): Option<string>
  {
    if b in store.byTuple then Some(store.byTuple[b].Algorithm()) else None
  }

  function BlindSignerFor(store: KeyStore, b: Binding): Option<KeyEntry>
  {
    if b in store.byTuple && store.byTuple[b].Algorithm() == RSABSSA then Some(store.byTuple[b]) else None
  }

  function SignerFor(store: KeyStore, b: Binding): Option<KeyEntry>
  {
    if b in store.byTuple && store.byTuple[b].Algorithm() != RSABSSA then Some(store.byTuple[b]) else None
  }

  function VcSignerFor(store: KeyStore): Option<KeyEntry>
  {
    if |store.vc| == 0 then None else Some(store.vc[0])
  }

  /**
   * Key partitioning: a tuple has the one key configured for it, which signs
   * either blindly or in the open, never both.
   */
  lemma PartitionExact(keys: seq<KeyEntry>, store: KeyStore, b: Binding, e: KeyEntry)
    requires Represents(keys, store)
    ensures BlindSignerFor(store, b) == Some(e) <==>
      e in keys && !e.vc && e.Bound() && e.Tuple() == b && DeclaresBlind(e)
    ensures SignerFor(store, b) == Some(e) <==>
      e in keys && !e.vc && e.Bound() && e.Tuple() == b && !DeclaresBlind(e)
    ensures BlindSignerFor(store, b).None? || SignerFor(store, b).None?
    ensures AlgorithmFor(store, b).None? <==> BlindSignerFor(store, b).None? && SignerFor(store, b).None?
  {
    BlindDeclared(e);
    if e in keys && !e.vc {
      var i :| 0 <= i < |keys| && keys[i] == e;
      assert Holds(store.byTuple, keys[i]);
    }
  }

  /** The credential signer is a configured BBS key. */
  lemma VcSignerIsBbs(keys: seq<KeyEntry>, store: KeyStore)
    requires Loadable(keys) && Represents(keys, store)
    ensures VcSignerFor(store).Some? <==> exists e :: e in keys && e.vc
    ensures VcSignerFor(store).Some? ==>
      var e := VcSignerFor(store).value;
      e in keys && e.vc && e.declaredAlgorithm == Some("bbs-bls12381-sha256")
  {
    if |store.vc| > 0 {
      VcEntriesMembers(keys, store.vc[0]);
    }
    forall e | e in keys && e.vc ensures e in store.vc {
      VcEntriesMembers(keys, e);
    }
  }

  // ---- Token issuance ----

  datatype Enrollment = Enrollment(birth: Date, expiresAt: int)

  /** An absent list reads as an empty one: the source only ever asks whether it is non-empty. */
  datatype TokenRequest = TokenRequest(
    enrollmentId: string,
    claim: AgeClaim,
    assurance: AssuranceLevel,
    epoch: string,
    nonces: seq<string>,
    blinded: seq<string>)
  {
    function Tuple(): Binding { (claim, assurance, epoch) }
  }

  type Status = int

  /** What a granted request signs with, and how many signatures it returns. */
  datatype Grant = Grant(entry: KeyEntry, blind: bool, signatures: nat)

  /** The gates of POST /v1/tokens/issue, in order; signable says which blinded messages decode and can be signed. */
  function IssueGate(store: KeyStore, row: Option<Enrollment>, req: TokenRequest,
      now: int, today: Date, signable: string -> bool): Result<Grant, Status>
  {
    if (|req.nonces| > 0) == (|req.blinded| > 0) then Err(422)
    else if row.None? then Err(404)
    else if now >= row.value.expiresAt then Err(403)
    else if req.claim !in EligibleClaims(row.value.birth, today) then Err(403)
    else if AlgorithmFor(store, req.Tuple()).None? then Err(409)
    else if AlgorithmFor(store, req.Tuple()).value == RSABSSA then
      if |req.blinded| == 0 then Err(422)
      else if |req.blinded| > MAX_BATCH then Err(422)
      else if exists i :: 0 <= i < |req.blinded| && !signable(req.blinded[i]) then Err(422)
      else Ok(Grant(BlindSignerFor(store, req.Tuple()).value, true, |req.blinded|))
    else
      if |req.nonces| == 0 then Err(422)
      else if |req.nonces| > MAX_BATCH then Err(422)
      else Ok(Grant(SignerFor(store, req.Tuple()).value, false, |req.nonces|))
  }

  /**
   * Every grant is for an unexpired enrollment old enough for the claim, under
   * the one key bound to the requested tuple.
   */
  lemma GrantIsEligible(keys: seq<KeyEntry>, store: KeyStore, row: Option<Enrollment>, req: TokenRequest,
      now: int, today: Date, signable: string -> bool)
    requires Represents(keys, store)
    ensures var r := IssueGate(store, row, req, now, today, signable);
      r.Ok? ==>
        && row.Some? && now < row.value.expiresAt
        && req.claim in EligibleClaims(row.value.birth, today)
        && r.value.entry in keys && !r.value.entry.vc && r.value.entry.Bound() && r.value.entry.Tuple() == req.Tuple()
        && r.value.blind == DeclaresBlind(r.value.entry)
        && 1 <= r.value.signatures <= 100
        && r.value.signatures == if r.value.blind then |req.blinded| else |req.nonces|
  {
    var r := IssueGate(store, row, req, now, today, signable);
    if r.Ok? {
      PartitionExact(keys, store, req.Tuple(), r.value.entry);
    }
  }

  /** And nothing else is refused: these conditions suffice. */
  lemma GrantExact(keys: seq<KeyEntry>, store: KeyStore, row: Option<Enrollment>, req: TokenRequest,
      now: int, today: Date, signable: string -> bool)
    requires Represents(keys, store)
    ensures IssueGate(store, row, req, now, today, signable).Ok? <==>
      && row.Some? && now < row.value.expiresAt
      && req.claim in EligibleClaims(row.value.birth, today)
      && exists e :: CanServe(keys, req, e, signable)
  {
    var r := IssueGate(store, row, req, now, today, signable);
    if r.Ok? {
      PartitionExact(keys, store, req.Tuple(), r.value.entry);
      assert CanServe(keys, req, r.value.entry, signable);
    }
    if exists e :: CanServe(keys, req, e, signable) {
      var e :| CanServe(keys, req, e, signable);
      PartitionExact(keys, store, req.Tuple(), e);
    }
  }

  /** A grant is made by a key that can serve the request, and all of its payload is signed. */
  lemma GrantServes(keys: seq<KeyEntry>, store: KeyStore, row: Option<Enrollment>, req: TokenRequest,
      now: int, today: Date, signable: string -> bool)
    requires Represents(keys, store)
    ensures var r := IssueGate(store, row, req, now, today, signable);
      r.Ok? ==>
        && CanServe(keys, req, r.value.entry, signable)
        && r.value.signatures == |req.nonces| + |req.blinded| && r.value.blind == (|req.nonces| == 0)
  {
    hide EligibleClaims;
    var r := IssueGate(store, row, req, now, today, signable);
    if r.Ok? {
      PartitionExact(keys, store, req.Tuple(), r.value.entry);
    }
  }

  /** Which refusal a request meets: unknown, expired or ineligible, no key, or a payload the key does not take. */
  lemma RefusalExact(keys: seq<KeyEntry>, store: KeyStore, row: Option<Enrollment>, req: TokenRequest,
      now: int, today: Date, signable: string -> bool)
    requires Represents(keys, store) && (|req.nonces| > 0) != (|req.blinded| > 0)
    ensures var r := IssueGate(store, row, req, now, today, signable);
      var admitted := row.Some? && now < row.value.expiresAt && req.claim in EligibleClaims(row.value.birth, today);
      && (r == Err(404) <==> row.None?)
      && (r == Err(403) <==> row.Some? && !admitted)
      && (r == Err(409) <==> admitted && !Configured(keys, req.Tuple()))
      && (r == Err(422) <==> admitted && Configured(keys, req.Tuple()) && !exists e :: CanServe(keys, req, e, signable))
  {
    GrantExact(keys, store, row, req, now, today, signable);
    var b := req.Tuple();
    if b in store.byTuple {
      assert store.byTuple[b] in keys;
    }
    if Configured(keys, b) {
      var e :| e in keys && !e.vc && e.Bound() && e.Tuple() == b;
      PartitionExact(keys, store, b, e);
    }
  }

  /** A request with both payloads or with neither is refused with 422 before anything else is looked at. */
  lemma PayloadRefused(store: KeyStore, row: Option<Enrollment>, req: TokenRequest, now: int, today: Date,
      signable: string -> bool)
    ensures (req.nonces == [] && req.blinded == []) || (req.nonces != [] && req.blinded != []) ==>
      IssueGate(store, row, req, now, today, signable) == Err(422)
  {
    hide EligibleClaims;
  }

  /** Some token key is configured for the tuple. */
  ghost predicate Configured(keys: seq<KeyEntry>, b: Binding)
  {
    exists e :: e in keys && !e.vc && e.Bound() && e.Tuple() == b
  }

  /** A configured key for the tuple whose kind of payload, and only that kind, the request carries. */
  ghost predicate CanServe(keys: seq<KeyEntry>, req: TokenRequest, e: KeyEntry, signable: string -> bool)
  {
    && e in keys && !e.vc && e.Bound() && e.Tuple() == req.Tuple()
    && if DeclaresBlind(e)
       then |req.nonces| == 0 && 1 <= |req.blinded| <= 100
            && forall i :: 0 <= i < |req.blinded| ==> signable(req.blinded[i])
       else |req.blinded| == 0 && 1 <= |req.nonces| <= 100
  }
}
