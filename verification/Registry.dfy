// The trust registry (blindage/registry/store.py): which registries from_dict
// accepts, and what acceptance guarantees to lookups.
module Registry {
  import opened Results
  import opened Schemas

  datatype RegistryError =
    | InvalidContents
    | DuplicateIssuer(issuerId: string)
    | DuplicateKeyId(keyId: string)
    | DuplicateBinding(keyId: string)
    | MaterialReuse(keyId: string)
    | CrossPurpose(keyId: string)

  datatype TrustRegistry = TrustRegistry(issuers: map<string, IssuerMetadata>)

  // ---- What a registry must satisfy ----

  ghost predicate UniqueIssuerIds(issuers: seq<IssuerMetadata>)
  {
    forall i, j :: 0 <= i < j < |issuers| ==> issuers[i].issuerId != issuers[j].issuerId
  }

  ghost predicate UniqueKeyIds(keys: seq<IssuerKey>)
  {
    forall a, b :: 0 <= a < b < |keys| ==> keys[a].keyId != keys[b].keyId
  }

  ghost predicate UniqueBindings(keys: seq<IssuerKey>)
  {
    forall a, b :: 0 <= a < b < |keys| && keys[a].purpose.TokenSigning? && keys[b].purpose.TokenSigning? ==>
      keys[a].TokenBinding() != keys[b].TokenBinding()
  }

  /** No two token or vc keys, of whatever issuer, share their material. */
  ghost predicate DistinctMaterial(keys: seq<IssuerKey>)
  {
    forall a, b :: 0 <= a < b < |keys| && keys[a].Signs() && keys[b].Signs() ==> keys[a].publicKey != keys[b].publicKey
  }

  ghost predicate NoCrossPurpose(keys: seq<IssuerKey>)
  {
    forall a, b :: 0 <= a < |keys| && 0 <= b < |keys| && keys[a].purpose.RegistrySigning? && keys[b].Signs() ==>
      keys[a].publicKey != keys[b].publicKey
  }

  /** The keys of all issuers, in the order the loops meet them. */
  function AllKeys(issuers: seq<IssuerMetadata>): seq<IssuerKey>
  {
    if |issuers| == 0 then [] else AllKeys(issuers[..|issuers| - 1]) + issuers[|issuers| - 1].keys
  }

  ghost predicate AllValid(issuers: seq<IssuerMetadata>)
  {
    forall i :: 0 <= i < |issuers| ==> issuers[i].Valid()
  }

  ghost predicate Acceptable(issuers: seq<IssuerMetadata>)
  {
    && AllValid(issuers)
    && UniqueIssuerIds(issuers)
    && (forall i :: 0 <= i < |issuers| ==> UniqueKeyIds(issuers[i].keys) && UniqueBindings(issuers[i].keys))
    && DistinctMaterial(AllKeys(issuers))
    && NoCrossPurpose(AllKeys(issuers))
  }

  function ById(issuers: seq<IssuerMetadata>): map<string, IssuerMetadata>
  {
    if |issuers| == 0 then map[]
    else ById(issuers[..|issuers| - 1])[issuers[|issuers| - 1].issuerId := issuers[|issuers| - 1]]
  }

  // ---- from_dict ----

  /** Two keys of the list have this id. */
  ghost predicate RepeatsKeyId(keys: seq<IssuerKey>, id: string)
  {
    exists a, b :: 0 <= a < b < |keys| && keys[a].keyId == id && keys[b].keyId == id
  }

  /** The token key with this id is bound as an earlier token key of the list. */
  ghost predicate RepeatsBinding(keys: seq<IssuerKey>, id: string)
  {
    exists a, b :: 0 <= a < b < |keys| && keys[a].purpose.TokenSigning? && keys[b].purpose.TokenSigning?
      && keys[a].TokenBinding() == keys[b].TokenBinding() && keys[b].keyId == id
  }

  /** The token or vc key with this id has the material of an earlier one. */
  ghost predicate ReusesMaterial(keys: seq<IssuerKey>, id: string)
  {
    exists a, b :: 0 <= a < b < |keys| && keys[a].Signs() && keys[b].Signs()
      && keys[a].publicKey == keys[b].publicKey && keys[b].keyId == id
  }

  /** The registry key with this id has the material of a token or vc key. */
  ghost predicate CrossesPurpose(keys: seq<IssuerKey>, id: string)
  {
    exists a, b :: 0 <= a < |keys| && 0 <= b < |keys| && keys[a].purpose.RegistrySigning? && keys[b].Signs()
      && keys[a].publicKey == keys[b].publicKey && keys[a].keyId == id
  }

  ghost predicate RepeatsIssuerId(issuers: seq<IssuerMetadata>, id: string)
  {
    exists i, j :: 0 <= i < j < |issuers| && issuers[i].issuerId == id && issuers[j].issuerId == id
  }

  /** The sets the loops grow hold exactly what has been seen. */
  ghost predicate SeenMaterial(keys: seq<IssuerKey>, seen: set<string>)
  {
    forall m :: m in seen <==> HasMaterial(keys, m)
  }

  ghost predicate HasMaterial(keys: seq<IssuerKey>, m: string)
  {
    exists a :: 0 <= a < |keys| && keys[a].Signs() && keys[a].publicKey == m
  }

  lemma MaterialGrows(keys: seq<IssuerKey>, k: IssuerKey, seen: set<string>)
    requires SeenMaterial(keys, seen) && DistinctMaterial(keys)
    ensures k.Signs() ==> SeenMaterial(keys + [k], seen + {k.publicKey})
    ensures !k.Signs() ==> SeenMaterial(keys + [k], seen)
    ensures DistinctMaterial(keys + [k]) <==> !(k.Signs() && k.publicKey in seen)
  {
    var grown := keys + [k];
    assert grown[|keys|] == k;
    forall m ensures HasMaterial(grown, m) <==> HasMaterial(keys, m) || (k.Signs() && m == k.publicKey) {
      if HasMaterial(keys, m) {
        var a :| 0 <= a < |keys| && keys[a].Signs() && keys[a].publicKey == m;
        assert grown[a] == keys[a];
      }
      if k.Signs() && m == k.publicKey {
        assert grown[|keys|].Signs();
      }
    }
    if k.Signs() && k.publicKey in seen {
      var a :| 0 <= a < |keys| && keys[a].Signs() && keys[a].publicKey == k.publicKey;
      assert grown[a] == keys[a];
    } else {
      forall a, b | 0 <= a < b < |grown| && grown[a].Signs() && grown[b].Signs()
        ensures grown[a].publicKey != grown[b].publicKey
      {
        if b == |keys| {
          assert HasMaterial(keys, grown[a].publicKey) by {
            assert keys[a].Signs();
          }
        }
      }
    }
  }

  lemma {:induction false} AllKeysPrefix(issuers: seq<IssuerMetadata>, i: nat)
    requires i < |issuers|
    ensures AllKeys(issuers[..i]) + issuers[i].keys == AllKeys(issuers[..i + 1])
    ensures AllKeys(issuers[..i + 1]) <= AllKeys(issuers)
    decreases |issuers| - i
  {
    assert issuers[..i + 1][..i] == issuers[..i];
    if i + 1 < |issuers| {
      AllKeysPrefix(issuers, i + 1);
    } else {
      assert issuers[..i + 1] == issuers;
    }
  }

  lemma RepeatedMaterial(issuers: seq<IssuerMetadata>, i: nat, a: nat)
    requires i < |issuers| && a < |issuers[i].keys|
    requires DistinctMaterial(AllKeys(issuers[..i]) + issuers[i].keys[..a])
    requires !DistinctMaterial(AllKeys(issuers[..i]) + issuers[i].keys[..a] + [issuers[i].keys[a]])
    ensures !DistinctMaterial(AllKeys(issuers)) && ReusesMaterial(AllKeys(issuers), issuers[i].keys[a].keyId)
  {
    AllKeysPrefix(issuers, i);
    var part := AllKeys(issuers[..i]) + issuers[i].keys[..a] + [issuers[i].keys[a]];
    var all := AllKeys(issuers);
    assert part <= AllKeys(issuers[..i]) + issuers[i].keys;
    var x, y :| 0 <= x < y < |part| && part[x].Signs() && part[y].Signs() && part[x].publicKey == part[y].publicKey;
    assert all[x] == part[x] && all[y] == part[y];
  }

  /** The registry is at fault in the way that the error names, at the id that it names. */
  ghost predicate IsFault(issuers: seq<IssuerMetadata>, e: RegistryError)
  {
    match e
    case InvalidContents => !AllValid(issuers)
    case DuplicateIssuer(id) => RepeatsIssuerId(issuers, id)
    case DuplicateKeyId(id) => exists i :: 0 <= i < |issuers| && RepeatsKeyId(issuers[i].keys, id)
    case DuplicateBinding(id) => exists i :: 0 <= i < |issuers| && RepeatsBinding(issuers[i].keys, id)
    case MaterialReuse(id) => ReusesMaterial(AllKeys(issuers), id)
    case CrossPurpose(id) => CrossesPurpose(AllKeys(issuers), id)
  }

  lemma InvalidIsFault(issuers: seq<IssuerMetadata>, i: nat)
    requires i < |issuers| && !issuers[i].Valid()
    ensures IsFault(issuers, InvalidContents) && !Acceptable(issuers)
  {}

  lemma RepeatIsFault(issuers: seq<IssuerMetadata>, i: nat)
    requires i < |issuers| && exists j :: 0 <= j < i && issuers[j].issuerId == issuers[i].issuerId
    ensures IsFault(issuers, DuplicateIssuer(issuers[i].issuerId)) && !Acceptable(issuers)
  {}

  /** A registry at fault is not acceptable. */
  lemma FaultRefuses(issuers: seq<IssuerMetadata>, e: RegistryError)
    requires IsFault(issuers, e)
    ensures !Acceptable(issuers)
  {
    hide AllKeys;
  }

  /** The checks on one issuer's keys; seen is seen_material, shared by all issuers. */
  method CheckKeys(issuers: seq<IssuerMetadata>, i: nat, seen: set<string>)
    returns (r: Result<set<string>, RegistryError>)
    requires i < |issuers|
    requires SeenMaterial(AllKeys(issuers[..i]), seen) && DistinctMaterial(AllKeys(issuers[..i]))
    ensures r.Ok? ==>
      && SeenMaterial(AllKeys(issuers[..i + 1]), r.value) && DistinctMaterial(AllKeys(issuers[..i + 1]))
      && UniqueKeyIds(issuers[i].keys) && UniqueBindings(issuers[i].keys)
    ensures r.Err? ==> IsFault(issuers, r.error)
  {
    var keys := issuers[i].keys;
    ghost var before := AllKeys(issuers[..i]);
    var material := seen;
    var seenIds: set<string> := {};
    var seenBindings: set<(Option<AgeClaim>, Option<AssuranceLevel>, Option<string>)> := {};
    var a := 0;
    assert before + keys[..0] == before;
    while a < |keys|
      invariant a <= |keys|
      invariant seenIds == set b | 0 <= b < a :: keys[b].keyId
      invariant seenBindings == set b | 0 <= b < a && keys[b].purpose.TokenSigning? :: keys[b].TokenBinding()
      invariant UniqueKeyIds(keys[..a]) && UniqueBindings(keys[..a])
      invariant SeenMaterial(before + keys[..a], material) && DistinctMaterial(before + keys[..a])
    {
      var key := keys[a];
      MaterialGrows(before + keys[..a], key, material);
      assert before + keys[..a + 1] == before + keys[..a] + [key];
      if key.keyId in seenIds {
        return Err(DuplicateKeyId(key.keyId));
      }
      seenIds := seenIds + {key.keyId};
      if key.purpose.TokenSigning? {
        if key.TokenBinding() in seenBindings {
          return Err(DuplicateBinding(key.keyId));
        }
        seenBindings := seenBindings + {key.TokenBinding()};
      }
      if key.Signs() {
        if key.publicKey in material {
          RepeatedMaterial(issuers, i, a);
          return Err(MaterialReuse(key.keyId));
        }
        material := material + {key.publicKey};
      }
      a := a + 1;
    }
    AllKeysPrefix(issuers, i);
    assert keys[..a] == keys;
    return Ok(material);
  }

  /** The second pass: no registry key reuses token or vc material. */
  method CheckPurposes(issuers: seq<IssuerMetadata>, seen: set<string>) returns (e: Option<RegistryError>)
    requires SeenMaterial(AllKeys(issuers), seen)
    ensures e.None? <==> NoCrossPurpose(AllKeys(issuers))
    ensures e.Some? ==> e.value.CrossPurpose? && IsFault(issuers, e.value)
  {
    var i := 0;
    while i < |issuers|
      invariant i <= |issuers|
      invariant forall p :: 0 <= p < |AllKeys(issuers[..i])| && AllKeys(issuers[..i])[p].purpose.RegistrySigning? ==>
        AllKeys(issuers[..i])[p].publicKey !in seen
    {
      AllKeysPrefix(issuers, i);
      var keys := issuers[i].keys;
      var a := 0;
      while a < |keys|
        invariant a <= |keys|
        invariant forall b :: 0 <= b < a && keys[b].purpose.RegistrySigning? ==> keys[b].publicKey !in seen
      {
        if keys[a].purpose.RegistrySigning? && keys[a].publicKey in seen {
          Collision(issuers, i, a);
          return Some(CrossPurpose(keys[a].keyId));
        }
        a := a + 1;
      }
      i := i + 1;
    }
    assert issuers[..i] == issuers;
    forall x, y | 0 <= x < |AllKeys(issuers)| && 0 <= y < |AllKeys(issuers)|
      && AllKeys(issuers)[x].purpose.RegistrySigning? && AllKeys(issuers)[y].Signs()
      ensures AllKeys(issuers)[x].publicKey != AllKeys(issuers)[y].publicKey
    {
      assert HasMaterial(AllKeys(issuers), AllKeys(issuers)[y].publicKey);
    }
    return None;
  }

  lemma Collision(issuers: seq<IssuerMetadata>, i: nat, a: nat)
    requires i < |issuers| && a < |issuers[i].keys| && issuers[i].keys[a].purpose.RegistrySigning?
    requires HasMaterial(AllKeys(issuers), issuers[i].keys[a].publicKey)
    ensures !NoCrossPurpose(AllKeys(issuers)) && CrossesPurpose(AllKeys(issuers), issuers[i].keys[a].keyId)
  {
    AllKeysPrefix(issuers, i);
    var p := |AllKeys(issuers[..i])| + a;
    assert AllKeys(issuers)[p] == AllKeys(issuers[..i + 1])[p] == issuers[i].keys[a];
    var y :| 0 <= y < |AllKeys(issuers)| && AllKeys(issuers)[y].Signs()
      && AllKeys(issuers)[y].publicKey == issuers[i].keys[a].publicKey;
  }

  /** from_dict accepts exactly the acceptable registries, and every error names a true violation. */
  method FromDict(issuers: seq<IssuerMetadata>) returns (r: Result<TrustRegistry, RegistryError>)
    ensures r.Ok? <==> Acceptable(issuers)
    ensures r.Ok? ==> r.value.issuers == ById(issuers)
    ensures r.Err? ==> IsFault(issuers, r.error)
  {
    hide IsFault;
    var i := 0;
    while i < |issuers|
      invariant i <= |issuers|
      invariant forall j :: 0 <= j < i ==> issuers[j].Valid()
    {
      if !issuers[i].Valid() {
        InvalidIsFault(issuers, i);
        return Err(InvalidContents);
      }
      i := i + 1;
    }
    var seenIssuers: set<string>, material: set<string> := {}, {};
    var table: map<string, IssuerMetadata> := map[];
    i := 0;
    while i < |issuers|
      invariant i <= |issuers|
      invariant seenIssuers == set j | 0 <= j < i :: issuers[j].issuerId
      invariant UniqueIssuerIds(issuers[..i])
      invariant forall j :: 0 <= j < i ==> UniqueKeyIds(issuers[j].keys) && UniqueBindings(issuers[j].keys)
      invariant SeenMaterial(AllKeys(issuers[..i]), material) && DistinctMaterial(AllKeys(issuers[..i]))
      invariant table == ById(issuers[..i])
    {
      if issuers[i].issuerId in seenIssuers {
        RepeatIsFault(issuers, i);
        return Err(DuplicateIssuer(issuers[i].issuerId));
      }
      seenIssuers := seenIssuers + {issuers[i].issuerId};
      var checked := CheckKeys(issuers, i, material);
      if checked.Err? {
        FaultRefuses(issuers, checked.error);
        return Err(checked.error);
      }
      material := checked.value;
      assert issuers[..i + 1][..i] == issuers[..i];
      table := table[issuers[i].issuerId := issuers[i]];
      i := i + 1;
    }
    assert issuers[..i] == issuers;
    var crossed := CheckPurposes(issuers, material);
    if crossed.Some? {
      return Err(crossed.value);
    }
    return Ok(TrustRegistry(table));
  }

  // ---- Lookups ----

  function GetIssuer(r: TrustRegistry, issuerId: string): Option<IssuerMetadata>
  {
    if issuerId in r.issuers then Some(r.issuers[issuerId]) else None
  }

  function FirstKey(keys: seq<IssuerKey>, keyId: string, purpose: Purpose): Option<IssuerKey>
  {
    if |keys| == 0 then None
    else if keys[0].keyId == keyId && keys[0].purpose == purpose then Some(keys[0])
    else FirstKey(keys[1..], keyId, purpose)
  }

  function LookupKey(r: TrustRegistry, issuerId: string, keyId: string, purpose: Purpose): Option<IssuerKey>
  {
    if issuerId !in r.issuers then None else FirstKey(r.issuers[issuerId].keys, keyId, purpose)
  }

  /** get_token_key and get_vc_key, which differ only in the purpose they ask for. */
  method GetKey(r: TrustRegistry, issuerId: string, keyId: string, purpose: Purpose) returns (found: Option<IssuerKey>)
    ensures found == LookupKey(r, issuerId, keyId, purpose)
  {
    var issuer := GetIssuer(r, issuerId);
    if issuer.None? {
      return None;
    }
    var keys := issuer.value.keys;
    var a := 0;
    while a < |keys|
      invariant a <= |keys|
      invariant FirstKey(keys, keyId, purpose) == FirstKey(keys[a..], keyId, purpose)
    {
      if keys[a].keyId == keyId && keys[a].purpose == purpose {
        return Some(keys[a]);
      }
      a := a + 1;
    }
    return None;
  }

  // ---- What acceptance guarantees ----

  /** The registry lists this key under this issuer. */
  ghost predicate Lists(issuers: seq<IssuerMetadata>, issuerId: string, k: IssuerKey)
  {
    exists i :: 0 <= i < |issuers| && issuers[i].issuerId == issuerId && k in issuers[i].keys
  }

  lemma {:induction false} FirstKeySound(keys: seq<IssuerKey>, keyId: string, purpose: Purpose)
    ensures var f := FirstKey(keys, keyId, purpose);
      match f
      case Some(k) => k in keys && k.keyId == keyId && k.purpose == purpose
      case None => forall k | k in keys :: !(k.keyId == keyId && k.purpose == purpose)
  {
    if |keys| > 0 {
      FirstKeySound(keys[1..], keyId, purpose);
    }
  }

  lemma {:induction false} ByIdFinds(issuers: seq<IssuerMetadata>, issuerId: string)
    requires UniqueIssuerIds(issuers)
    ensures issuerId in ById(issuers) ==>
      ById(issuers)[issuerId] in issuers && ById(issuers)[issuerId].issuerId == issuerId
    ensures forall i :: 0 <= i < |issuers| && issuers[i].issuerId == issuerId ==>
      issuerId in ById(issuers) && ById(issuers)[issuerId] == issuers[i]
  {
    if |issuers| > 0 {
      ByIdFinds(issuers[..|issuers| - 1], issuerId);
    }
  }

  /** A lookup finds a key exactly when the registry lists it: list order plays no part. */
  lemma LookupExact(issuers: seq<IssuerMetadata>, issuerId: string, keyId: string, purpose: Purpose, k: IssuerKey)
    requires Acceptable(issuers)
    ensures LookupKey(TrustRegistry(ById(issuers)), issuerId, keyId, purpose) == Some(k) <==>
      Lists(issuers, issuerId, k) && k.keyId == keyId && k.purpose == purpose
  {
    hide DistinctMaterial, NoCrossPurpose, UniqueBindings, AllValid, AllKeys;
    ByIdFinds(issuers, issuerId);
    if issuerId in ById(issuers) {
      var m := ById(issuers)[issuerId];
      FirstKeySound(m.keys, keyId, purpose);
      var i :| 0 <= i < |issuers| && issuers[i] == m;
      if Lists(issuers, issuerId, k) && k.keyId == keyId && k.purpose == purpose {
        var j :| 0 <= j < |issuers| && issuers[j].issuerId == issuerId && k in issuers[j].keys;
        assert issuers[j] == m;
        SameIdSameKey(m.keys, k, FirstKey(m.keys, keyId, purpose).value);
      }
    }
  }

  lemma SameIdSameKey(keys: seq<IssuerKey>, k: IssuerKey, l: IssuerKey)
    requires UniqueKeyIds(keys) && k in keys && l in keys && k.keyId == l.keyId
    ensures k == l
  {
    var a :| 0 <= a < |keys| && keys[a] == k;
    var b :| 0 <= b < |keys| && keys[b] == l;
    assert !(a < b) && !(b < a);
  }

  /** Two accepted registries that list the same keys answer every lookup alike. */
  lemma LookupsIgnoreOrder(issuers: seq<IssuerMetadata>, others: seq<IssuerMetadata>,
      issuerId: string, keyId: string, purpose: Purpose)
    requires Acceptable(issuers) && Acceptable(others)
    requires forall k :: Lists(issuers, issuerId, k) <==> Lists(others, issuerId, k)
    ensures LookupKey(TrustRegistry(ById(issuers)), issuerId, keyId, purpose)
         == LookupKey(TrustRegistry(ById(others)), issuerId, keyId, purpose)
  {
    hide LookupKey, Acceptable, Lists;
    var x := LookupKey(TrustRegistry(ById(issuers)), issuerId, keyId, purpose);
    var y := LookupKey(TrustRegistry(ById(others)), issuerId, keyId, purpose);
    if x.Some? {
      LookupExact(issuers, issuerId, keyId, purpose, x.value);
      LookupExact(others, issuerId, keyId, purpose, x.value);
    } else if y.Some? {
      LookupExact(issuers, issuerId, keyId, purpose, y.value);
      LookupExact(others, issuerId, keyId, purpose, y.value);
    }
  }

  /** Where a key of an issuer sits among all keys. */
  lemma FlatPosition(issuers: seq<IssuerMetadata>, i: nat, a: nat) returns (p: nat)
    requires i < |issuers| && a < |issuers[i].keys|
    ensures p == |AllKeys(issuers[..i])| + a && p < |AllKeys(issuers[..i + 1])| <= |AllKeys(issuers)|
    ensures AllKeys(issuers)[p] == issuers[i].keys[a]
  {
    AllKeysPrefix(issuers, i);
    p := |AllKeys(issuers[..i])| + a;
    assert AllKeys(issuers)[p] == AllKeys(issuers[..i + 1])[p];
  }

  lemma {:induction false} PrefixesGrow(issuers: seq<IssuerMetadata>, i: nat, j: nat)
    requires i <= j <= |issuers|
    ensures |AllKeys(issuers[..i])| <= |AllKeys(issuers[..j])|
  {
    if i < j {
      assert issuers[..j][..j - 1] == issuers[..j - 1];
      PrefixesGrow(issuers, i, j - 1);
    }
  }

  /** Public key material determines the issuer, the purpose and the binding. */
  lemma MaterialDetermines(issuers: seq<IssuerMetadata>, id: string, k: IssuerKey, otherId: string, l: IssuerKey)
    requires Acceptable(issuers) && Lists(issuers, id, k) && Lists(issuers, otherId, l)
    requires k.Signs() && k.publicKey == l.publicKey
    ensures id == otherId && k == l
  {
    hide UniqueBindings, UniqueKeyIds, AllValid, UniqueIssuerIds, AllKeys;
    var i :| 0 <= i < |issuers| && issuers[i].issuerId == id && k in issuers[i].keys;
    var a :| 0 <= a < |issuers[i].keys| && issuers[i].keys[a] == k;
    var j :| 0 <= j < |issuers| && issuers[j].issuerId == otherId && l in issuers[j].keys;
    var b :| 0 <= b < |issuers[j].keys| && issuers[j].keys[b] == l;
    var p := FlatPosition(issuers, i, a);
    var q := FlatPosition(issuers, j, b);
    if i < j {
      PrefixesGrow(issuers, i + 1, j);
    } else if j < i {
      PrefixesGrow(issuers, j + 1, i);
    }
  }

  // ---- Acceptance over the places of keys ----

  /** Key a of issuer i. */
  datatype Place = Place(i: nat, a: nat)

  predicate IsPlace(issuers: seq<IssuerMetadata>, p: Place)
  {
    p.i < |issuers| && p.a < |issuers[p.i].keys|
  }

  function KeyAt(issuers: seq<IssuerMetadata>, p: Place): IssuerKey
    requires IsPlace(issuers, p)
  {
    issuers[p.i].keys[p.a]
  }

  /** No token or vc key shares its material with one at another place, of its issuer or of any other. */
  ghost predicate MaterialApart(issuers: seq<IssuerMetadata>)
  {
    forall p, q | IsPlace(issuers, p) && IsPlace(issuers, q) && p != q ::
      KeyAt(issuers, p).purpose != RegistrySigning && KeyAt(issuers, q).purpose != RegistrySigning ==>
      KeyAt(issuers, p).publicKey != KeyAt(issuers, q).publicKey
  }

  /** No registry key has the material of a token or vc key of any issuer. */
  ghost predicate PurposesApart(issuers: seq<IssuerMetadata>)
  {
    forall p, q | IsPlace(issuers, p) && IsPlace(issuers, q) ::
      KeyAt(issuers, p).purpose == RegistrySigning && KeyAt(issuers, q).purpose != RegistrySigning ==>
      KeyAt(issuers, p).publicKey != KeyAt(issuers, q).publicKey
  }

  /** Within an issuer no two keys share an id, and no two token keys a claim, level and epoch. */
  ghost predicate IssuerKeysApart(issuers: seq<IssuerMetadata>)
  {
    forall p, q | IsPlace(issuers, p) && IsPlace(issuers, q) && p.i == q.i && p.a < q.a ::
      var k, l := KeyAt(issuers, p), KeyAt(issuers, q);
      && k.keyId != l.keyId
      && (k.purpose == TokenSigning && l.purpose == TokenSigning ==>
            k.claim != l.claim || k.assurance != l.assurance || k.epoch != l.epoch)
  }

  /** Token keys bind a claim, a level and an epoch, vc keys a level and an epoch and no claim; no epoch is empty. */
  ghost predicate KeysBound(issuers: seq<IssuerMetadata>)
  {
    forall p | IsPlace(issuers, p) ::
      var k := KeyAt(issuers, p);
      && (k.purpose == TokenSigning ==> k.claim != None && k.assurance != None && k.epoch !in {None, Some("")})
      && (k.purpose == VcSigning ==> k.claim == None && k.assurance != None && k.epoch !in {None, Some("")})
  }

  /** Every position of the list of all keys is the place of a key of some issuer. */
  lemma {:induction false} PlaceOf(issuers: seq<IssuerMetadata>, n: nat) returns (p: Place)
    requires n < |AllKeys(issuers)|
    ensures IsPlace(issuers, p) && AllKeys(issuers)[n] == KeyAt(issuers, p)
    ensures n == |AllKeys(issuers[..p.i])| + p.a
  {
    var last := |issuers| - 1;
    if n < |AllKeys(issuers[..last])| {
      p := PlaceOf(issuers[..last], n);
      assert issuers[..last][..p.i] == issuers[..p.i];
    } else {
      p := Place(last, n - |AllKeys(issuers[..last])|);
    }
  }

  /** Different places are different positions. */
  lemma PositionsApart(issuers: seq<IssuerMetadata>, p: Place, q: Place)
    requires IsPlace(issuers, p) && IsPlace(issuers, q) && p != q
    ensures |AllKeys(issuers[..p.i])| + p.a != |AllKeys(issuers[..q.i])| + q.a
  {
    hide AllKeys;
    var m := FlatPosition(issuers, p.i, p.a);
    var n := FlatPosition(issuers, q.i, q.a);
    if p.i < q.i {
      PrefixesGrow(issuers, p.i + 1, q.i);
    } else if q.i < p.i {
      PrefixesGrow(issuers, q.i + 1, p.i);
    }
  }

  lemma DistinctByPlace(issuers: seq<IssuerMetadata>)
    ensures DistinctMaterial(AllKeys(issuers)) <==> MaterialApart(issuers)
  {
    hide AllKeys;
    var all := AllKeys(issuers);
    if DistinctMaterial(all) {
      forall p, q | IsPlace(issuers, p) && IsPlace(issuers, q) && p != q
        && KeyAt(issuers, p).Signs() && KeyAt(issuers, q).Signs()
        ensures KeyAt(issuers, p).publicKey != KeyAt(issuers, q).publicKey
      {
        var m := FlatPosition(issuers, p.i, p.a);
        var n := FlatPosition(issuers, q.i, q.a);
        PositionsApart(issuers, p, q);
        assert m < n || n < m;
      }
    }
    if MaterialApart(issuers) {
      forall m, n | 0 <= m < n < |all| && all[m].Signs() && all[n].Signs()
        ensures all[m].publicKey != all[n].publicKey
      {
        var p := PlaceOf(issuers, m);
        var q := PlaceOf(issuers, n);
      }
    }
  }

  lemma PurposesByPlace(issuers: seq<IssuerMetadata>)
    ensures NoCrossPurpose(AllKeys(issuers)) <==> PurposesApart(issuers)
  {
    hide AllKeys;
    var all := AllKeys(issuers);
    if NoCrossPurpose(all) {
      forall p, q | IsPlace(issuers, p) && IsPlace(issuers, q)
        && KeyAt(issuers, p).purpose.RegistrySigning? && KeyAt(issuers, q).Signs()
        ensures KeyAt(issuers, p).publicKey != KeyAt(issuers, q).publicKey
      {
        var m := FlatPosition(issuers, p.i, p.a);
        var n := FlatPosition(issuers, q.i, q.a);
      }
    }
    if PurposesApart(issuers) {
      forall m, n | 0 <= m < |all| && 0 <= n < |all| && all[m].purpose.RegistrySigning? && all[n].Signs()
        ensures all[m].publicKey != all[n].publicKey
      {
        var p := PlaceOf(issuers, m);
        var q := PlaceOf(issuers, n);
      }
    }
  }

  lemma ValidByPlace(issuers: seq<IssuerMetadata>)
    ensures AllValid(issuers) <==> KeysBound(issuers)
  {
    if KeysBound(issuers) {
      forall i, a | 0 <= i < |issuers| && 0 <= a < |issuers[i].keys| ensures issuers[i].keys[a].Valid() {
        var k := KeyAt(issuers, Place(i, a));
        assert k.epoch.Some? ==> k.epoch == Some(k.epoch.value);
      }
    }
    if AllValid(issuers) {
      forall p | IsPlace(issuers, p) ensures issuers[p.i].keys[p.a].Valid() {
        assert issuers[p.i].Valid();
      }
    }
  }

  lemma UniqueByPlace(issuers: seq<IssuerMetadata>)
    ensures (forall i :: 0 <= i < |issuers| ==> UniqueKeyIds(issuers[i].keys) && UniqueBindings(issuers[i].keys)) <==>
      IssuerKeysApart(issuers)
  {
    if IssuerKeysApart(issuers) {
      forall i, a, b | 0 <= i < |issuers| && 0 <= a < b < |issuers[i].keys|
        ensures issuers[i].keys[a].keyId != issuers[i].keys[b].keyId
        ensures issuers[i].keys[a].purpose.TokenSigning? && issuers[i].keys[b].purpose.TokenSigning? ==>
          issuers[i].keys[a].TokenBinding() != issuers[i].keys[b].TokenBinding()
      {
        assert KeyAt(issuers, Place(i, a)) == issuers[i].keys[a] && KeyAt(issuers, Place(i, b)) == issuers[i].keys[b];
      }
    }
  }

  /**
   * The registries that from_dict accepts, key by key: bound keys, issuer ids
   * and each issuer's key ids and token bindings unique, no material shared
   * between any two token or vc keys, and none between these and a registry key.
   */
  lemma AcceptableExact(issuers: seq<IssuerMetadata>)
    ensures Acceptable(issuers) <==>
      && KeysBound(issuers)
      && (forall i, j :: 0 <= i < j < |issuers| ==> issuers[i].issuerId != issuers[j].issuerId)
      && IssuerKeysApart(issuers) && MaterialApart(issuers) && PurposesApart(issuers)
  {
    ValidByPlace(issuers);
    UniqueByPlace(issuers);
    DistinctByPlace(issuers);
    PurposesByPlace(issuers);
    hide AllKeys, AllValid, UniqueKeyIds, UniqueBindings, DistinctMaterial, NoCrossPurpose, KeysBound, IssuerKeysApart,
        MaterialApart, PurposesApart;
  }
}
