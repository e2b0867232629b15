// Minting a batch of tokens (extension/core/mint.js, and mint in
// blindage/wallet/client.py): every nonce is paired with its own blinding
// inverse and its own signature.
module Mint {
  import opened BlindRsa
  import opened EmsaPss
  import opened Arithmetic
  import opened Octets
  import opened Results
  import Utf8

  /** token_message: the nonce in UTF-8 is all that is signed. */
  function TokenMessage(nonce: string): Octets
  {
    Utf8.Encode(nonce)
  }

  datatype Batch = Batch(nonces: seq<string>, invs: seq<nat>, blinded: seq<Octets>)

  datatype MintError = CountMismatch | FinalizeFailed(reason: RsaError)

  datatype Minted = Minted(nonce: string, signature: Octets)

  /** The random choices made for one token. */
  datatype Choice = Choice(nonce: string, salt: Octets, factor: nat)

  ghost predicate Usable(pub: PublicKey, choices: seq<Choice>)
  {
    pub.n > 1 && forall i :: 0 <= i < |choices| ==> Coprime(choices[i].factor, pub.n)
  }

  function Blinded(h: Sha384, pub: PublicKey, c: Choice): Result<Blinding, RsaError>
    requires pub.n > 1 && Coprime(c.factor, pub.n)
  {
    BlindWith(h, pub, TokenMessage(c.nonce), c.salt, c.factor)
  }

  /** Choice i is the first that cannot be blinded, for this reason. */
  ghost predicate FailsFirst(h: Sha384, pub: PublicKey, choices: seq<Choice>, i: nat, reason: RsaError)
    requires Usable(pub, choices)
  {
    && i < |choices| && Blinded(h, pub, choices[i]) == Err(reason)
    && forall j :: 0 <= j < i ==> Blinded(h, pub, choices[j]).Ok?
  }

  method PrepareBlindBatch(h: Sha384, pub: PublicKey, choices: seq<Choice>) returns (r: Result<Batch, RsaError>)
    requires Usable(pub, choices)
    ensures r.Ok? <==> forall i :: 0 <= i < |choices| ==> Blinded(h, pub, choices[i]).Ok?
    ensures r.Ok? ==> IsBatch(h, pub, choices, r.value)
    ensures r.Err? ==> exists i: nat :: FailsFirst(h, pub, choices, i, r.error)
  {
    hide Blinded;
    var nonces, invs, blinded := [], [], [];
    var i := 0;
    while i < |choices|
      invariant i <= |choices|
      invariant |nonces| == |invs| == |blinded| == i
      invariant forall k :: 0 <= k < i ==> InBatch(h, pub, choices[k], nonces[k], invs[k], blinded[k])
    {
      var blinding := Blinded(h, pub, choices[i]);
      if blinding.Err? {
        assert FailsFirst(h, pub, choices, i, blinding.error);
        return Err(blinding.error);
      }
      nonces := nonces + [choices[i].nonce];
      invs := invs + [blinding.value.inv];
      blinded := blinded + [blinding.value.blinded];
      i := i + 1;
    }
    return Ok(Batch(nonces, invs, blinded));
  }

  /** One position of a batch belongs to this choice. */
  predicate InBatch(h: Sha384, pub: PublicKey, c: Choice, nonce: string, inv: nat, blinded: Octets)
    requires pub.n > 1 && Coprime(c.factor, pub.n)
  {
    var b := Blinded(h, pub, c);
    nonce == c.nonce && b.Ok? && b.value.inv == inv && b.value.blinded == blinded
  }

  ghost predicate IsBatch(h: Sha384, pub: PublicKey, choices: seq<Choice>, b: Batch)
    requires Usable(pub, choices)
  {
    && |b.nonces| == |b.invs| == |b.blinded| == |choices|
    && forall i :: 0 <= i < |choices| ==> InBatch(h, pub, choices[i], b.nonces[i], b.invs[i], b.blinded[i])
  }

  function Finalized(h: Sha384, pub: PublicKey, nonce: string, signature: Octets, inv: nat): Result<Octets, RsaError>
    requires pub.n > 1
  {
    Finalize(h, pub, TokenMessage(nonce), signature, inv)
  }

  /** The counts match and every signature finalizes for its own nonce with its own inverse. */
  ghost predicate Assembles(h: Sha384, pub: PublicKey, nonces: seq<string>, invs: seq<nat>, signatures: seq<Octets>)
    requires pub.n > 1
  {
    && |signatures| == |nonces| == |invs|
    && forall i :: 0 <= i < |nonces| ==> Finalized(h, pub, nonces[i], signatures[i], invs[i]).Ok?
  }

  /** Signature i is the first that does not finalize, for this reason. */
  ghost predicate RejectsFirst(h: Sha384, pub: PublicKey, nonces: seq<string>, invs: seq<nat>, signatures: seq<Octets>,
      i: nat, reason: RsaError)
    requires pub.n > 1 && |signatures| == |nonces| == |invs|
  {
    && i < |nonces| && Finalized(h, pub, nonces[i], signatures[i], invs[i]) == Err(reason)
    && forall j :: 0 <= j < i ==> Finalized(h, pub, nonces[j], signatures[j], invs[j]).Ok?
  }

  /** Fails on a count mismatch or on the first signature that does not finalize; otherwise token i has nonce i. */
  method AssembleTokens(h: Sha384, pub: PublicKey, nonces: seq<string>, invs: seq<nat>, signatures: seq<Octets>)
    returns (r: Result<seq<Minted>, MintError>)
    requires pub.n > 1
    ensures r.Ok? <==> Assembles(h, pub, nonces, invs, signatures)
    ensures r.Err? ==> (r.error.CountMismatch? <==> !(|signatures| == |nonces| == |invs|))
    ensures r.Err? && r.error.FinalizeFailed? ==>
      |signatures| == |nonces| == |invs| &&
      exists i: nat :: RejectsFirst(h, pub, nonces, invs, signatures, i, r.error.reason)
    ensures r.Ok? ==> |r.value| == |nonces| && forall i :: 0 <= i < |nonces| ==>
      r.value[i] == Minted(nonces[i], Finalized(h, pub, nonces[i], signatures[i], invs[i]).value)
  {
    hide Finalized;
    if |signatures| != |nonces| || |invs| != |nonces| {
      return Err(CountMismatch);
    }
    var tokens: seq<Minted> := [];
    var i := 0;
    while i < |nonces|
      invariant i <= |nonces| && |tokens| == i
      invariant forall k :: 0 <= k < i ==> Finalized(h, pub, nonces[k], signatures[k], invs[k]).Ok?
      invariant forall k :: 0 <= k < i ==>
        tokens[k] == Minted(nonces[k], Finalized(h, pub, nonces[k], signatures[k], invs[k]).value)
    {
      var signature := Finalized(h, pub, nonces[i], signatures[i], invs[i]);
      if signature.Err? {
        assert RejectsFirst(h, pub, nonces, invs, signatures, i, signature.error);
        return Err(FinalizeFailed(signature.error));
      }
      tokens := tokens + [Minted(nonces[i], signature.value)];
      i := i + 1;
    }
    return Ok(tokens);
  }

  /** Whatever the issuer answers, a token that is assembled verifies for its own nonce. */
  lemma AssembledVerify(h: Sha384, pub: PublicKey, nonce: string, signature: Octets, inv: nat)
    requires pub.n > 1 && Finalized(h, pub, nonce, signature, inv).Ok?
    ensures PssVerify(h, pub, TokenMessage(nonce), Finalized(h, pub, nonce, signature, inv).value)
  {
    hide PssVerify, BitLength, OctetLength, I2osp, Os2ip, Pow;
  }

  /** The signature an honest issuer returns for position i. */
  predicate Honest(key: PrivateKey, b: Batch, signatures: seq<Octets>, i: nat)
    requires key.n > 1 && i < |b.blinded| && i < |signatures|
  {
    var s := BlindSign(key, b.blinded[i]);
    s.Ok? && s.value == signatures[i]
  }

  /**
   * A batch signed honestly, position by position, assembles: no token of it is
   * lost, and each verifies for the nonce it was blinded from.
   */
  lemma HonestBatchAssembles(h: Sha384, p: int, q: int, key: PrivateKey, choices: seq<Choice>, b: Batch,
      signatures: seq<Octets>)
    requires KeyPair(p, q, key) && key.n > 1
    requires Usable(PublicKey(key.n, key.e), choices) && IsBatch(h, PublicKey(key.n, key.e), choices, b)
    requires |signatures| == |choices| && forall i :: 0 <= i < |choices| ==> |choices[i].salt| == SALT_LEN
    requires forall i :: 0 <= i < |choices| ==> Honest(key, b, signatures, i)
    ensures var pub := PublicKey(key.n, key.e);
      && Assembles(h, pub, b.nonces, b.invs, signatures) && |b.nonces| == |choices|
      && (forall i :: 0 <= i < |choices| ==> b.nonces[i] == choices[i].nonce)
      && forall i :: 0 <= i < |choices| ==>
        PssVerify(h, pub, TokenMessage(b.nonces[i]), Finalized(h, pub, b.nonces[i], signatures[i], b.invs[i]).value)
  {
    hide Finalized, PssVerify, Honest, KeyPair, TokenMessage;
    forall i | 0 <= i < |choices|
      ensures b.nonces[i] == choices[i].nonce
      ensures var f := Finalized(h, PublicKey(key.n, key.e), b.nonces[i], signatures[i], b.invs[i]);
        f.Ok? && PssVerify(h, PublicKey(key.n, key.e), TokenMessage(b.nonces[i]), f.value)
    {
      HonestTokenAssembles(h, p, q, key, choices, b, signatures, i);
    }
  }

  lemma HonestTokenAssembles(h: Sha384, p: int, q: int, key: PrivateKey, choices: seq<Choice>, b: Batch,
      signatures: seq<Octets>, i: nat)
    requires KeyPair(p, q, key) && key.n > 1
    requires Usable(PublicKey(key.n, key.e), choices) && IsBatch(h, PublicKey(key.n, key.e), choices, b)
    requires |signatures| == |choices| && i < |choices| && |choices[i].salt| == SALT_LEN
    requires Honest(key, b, signatures, i)
    ensures b.nonces[i] == choices[i].nonce
    ensures var f := Finalized(h, PublicKey(key.n, key.e), b.nonces[i], signatures[i], b.invs[i]);
      f.Ok? && PssVerify(h, PublicKey(key.n, key.e), TokenMessage(b.nonces[i]), f.value)
  {
    var pub, c := PublicKey(key.n, key.e), choices[i];
    assert InBatch(h, pub, c, b.nonces[i], b.invs[i], b.blinded[i]);
    BlindedMessage(h, pub, c);
    hide PssVerify, BitLength, OctetLength, I2osp, Os2ip, Pow, Encode, KeyPair, BlindSign, Finalize, BlindWith;
    Completeness(h, p, q, key, TokenMessage(c.nonce), c.salt, c.factor);
  }

  lemma BlindedMessage(h: Sha384, pub: PublicKey, c: Choice)
    requires pub.n > 1 && Coprime(c.factor, pub.n) && Blinded(h, pub, c).Ok?
    ensures var em := Encode(h, TokenMessage(c.nonce), BitLength(pub.n) - 1, c.salt);
      em.Ok? && Coprime(Os2ip(em.value), pub.n)
  {
    hide Encode, BitLength, Os2ip;
  }
}
