// What EMSA-PSS encodings and PSS signatures are, octet by octet and without
// the functions that compute them, and what they bind: one encoding, one
// signature and one token stand for one message, or SHA-384 has collided on
// two inputs that the lemmas name.
module PssBinding {
  import opened Arithmetic
  import opened Bits
  import opened Octets
  import opened Results
  import opened EmsaPss
  import opened BlindRsa
  import opened Mint
  import Utf8

  // ---- Integers and octets ----

  /** OS2IP is big-endian: the first octet weighs 256 to the number of octets after it. */
  lemma FirstOctetWeighsMost(o: Octet, rest: Octets)
    ensures Os2ip([]) == 0
    ensures Os2ip([o] + rest) == o * Pow(256, |rest|) + Os2ip(rest)
  {
    Os2ipConcat([o], rest);
    OneOctet(o);
    hide Os2ip, Pow;
  }

  lemma OneOctet(o: Octet)
    ensures Os2ip([]) == 0 && Os2ip([o]) == o
  {
    assert [o][..0] == [];
  }

  /** The octet length of a modulus is the least number of octets that hold it. */
  lemma OctetLengthLeast(n: nat, len: nat)
    ensures n < Pow(256, len) <==> OctetLength(n) <= len
  {
    hide OctetLength, Pow;
    OctetLengthUnfolds(n);
    Pow256(len);
    if n == 0 {
      PowPositive(2, 8 * len);
    } else {
      BitLengthBounds(n);
      if BitLength(n) <= 8 * len {
        PowMonotone(2, BitLength(n), 8 * len);
      } else {
        PowMonotone(2, 8 * len, BitLength(n) - 1);
      }
    }
  }

  lemma OctetLengthUnfolds(n: nat)
    ensures OctetLength(0) == 0 && OctetLength(n) == (BitLength(n) + 7) / 8
  {
    assert BitLength(0) == 0;
  }

  /** Bit k of a. */
  function BitAt(a: nat, k: nat): nat
  {
    PowPositive(2, k);
    a / Pow(2, k) % 2
  }

  lemma BitAbove(a: nat, k: nat)
    ensures BitAt(a, 0) == a % 2
    ensures BitAt(a, k + 1) == BitAt(a / 2, k)
  {
    PowPositive(2, k);
    var p := Pow(2, k);
    assert Pow(2, 0) == 1;
    HalvesFirst(a, p);
  }

  lemma HalvesFirst(a: nat, p: int)
    requires p > 0
    ensures a / (2 * p) == a / 2 / p
  {
    var q, r := a / 2 / p, a / 2 % p;
    assert a / 2 == q * p + r;
    assert q * (2 * p) == 2 * (q * p);
    DivModUnique(a, q, 2 * r + a % 2, 2 * p);
  }

  /** XorBits and AndBits are the bitwise operations. */
  lemma {:induction false} BitwiseOperations(a: nat, b: nat, k: nat)
    ensures BitAt(XorBits(a, b), k) == 1 <==> BitAt(a, k) != BitAt(b, k)
    ensures BitAt(AndBits(a, b), k) == 1 <==> BitAt(a, k) == 1 && BitAt(b, k) == 1
    decreases k
  {
    hide BitAt, XorBits, AndBits;
    XorHalves(a, b);
    AndHalves(a, b);
    var j := if k == 0 then 0 else k - 1;
    BitAbove(a, j);
    BitAbove(b, j);
    BitAbove(XorBits(a, b), j);
    BitAbove(AndBits(a, b), j);
    if k > 0 {
      BitwiseOperations(a / 2, b / 2, j);
    }
  }

  // ---- MGF1 and the encoding, octet by octet ----

  /** Octet i of the mask: octet i mod 48 of the hash of the seed and the four-octet counter i / 48. */
  function MaskOctet(h: Sha384, seed: Octets, i: nat): Octet
    requires i < 48 * 0x1_0000_0000
  {
    assert Pow(256, 4) == 0x1_0000_0000;
    Hash(h, seed + I2osp(i / 48, 4))[i % 48]
  }

  lemma {:induction false} StreamOctets(h: Sha384, seed: Octets, blocks: nat, i: nat)
    requires blocks <= MAX_MASK_BLOCKS && i < blocks * HASH_LEN
    ensures MaskStream(h, seed, blocks)[i] == MaskOctet(h, seed, i)
  {
    if i < (blocks - 1) * HASH_LEN {
      StreamOctets(h, seed, blocks - 1, i);
    } else {
      assert i / 48 == blocks - 1;
    }
  }

  /** MGF1 fails for more than 2^32 blocks only, and is otherwise the mask of the standard. */
  lemma MaskOctets(h: Sha384, seed: Octets, maskLen: nat)
    ensures Mgf1(h, seed, maskLen).Ok? <==> maskLen <= 48 * 0x1_0000_0000
    ensures Mgf1(h, seed, maskLen).Ok? ==>
      var mask := Mgf1(h, seed, maskLen).value;
      forall i :: 0 <= i < maskLen ==> mask[i] == MaskOctet(h, seed, i)
  {
    hide MaskStream, MaskOctet;
    if Mgf1(h, seed, maskLen).Ok? {
      var blocks := CeilDiv(maskLen, HASH_LEN);
      forall i | 0 <= i < maskLen ensures Mgf1(h, seed, maskLen).value[i] == MaskOctet(h, seed, i) {
        StreamOctets(h, seed, blocks, i);
      }
    }
  }

  /** Octet i of the block before masking: zeros, the octet 01, the salt. */
  function PlainOctet(emLen: nat, salt: Octets, i: nat): Octet
    requires i < emLen - 49 && emLen >= 48 + |salt| + 2
  {
    var zeros := emLen - |salt| - 50;
    if i < zeros then 0 else if i == zeros then 1 else salt[i - zeros - 1]
  }

  /** Octet i of the masked block; the first one has its leading bits cleared. */
  function CodedOctet(h: Sha384, hash: Octets, emLen: nat, salt: Octets, top: nat, i: nat): nat
    requires i < emLen - 49 && 48 + |salt| + 2 <= emLen <= 48 * 0x1_0000_0000 + 49
  {
    PowPositive(2, top);
    var masked := XorBits(PlainOctet(emLen, salt, i), MaskOctet(h, hash, i));
    if i == 0 then AndBits(masked, 0xFF / Pow(2, top)) else masked
  }

  /**
   * EMSA-PSS-ENCODE written out: when it succeeds, and every octet of its
   * result. The hash covers eight zero octets, the hash of the message and the
   * salt; the block is masked, its leading bits are cleared, and 0xbc ends it.
   */
  lemma EncodedOctets(h: Sha384, message: Octets, emBits: nat, salt: Octets)
    ensures var emLen := (emBits + 7) / 8;
      Encode(h, message, emBits, salt).Ok? <==> 48 + |salt| + 2 <= emLen <= 48 * 0x1_0000_0000 + 49
    ensures Encode(h, message, emBits, salt).Ok? ==>
      var em, emLen := Encode(h, message, emBits, salt).value, (emBits + 7) / 8;
      var hash, top := Hash(h, Zeros(8) + Hash(h, message) + salt), 8 * emLen - emBits;
      && |em| == emLen && em[emLen - 1] == 0xbc && em[emLen - 49..emLen - 1] == hash
      && forall i :: 0 <= i < emLen - 49 ==> em[i] == CodedOctet(h, hash, emLen, salt, top, i)
  {
    hide *;
    var emLen := (emBits + 7) / 8;
    var hash, top := Hash(h, Zeros(8) + Hash(h, message) + salt), 8 * emLen - emBits;
    EncodedParts(h, message, emBits, salt);
    if emLen >= 48 + |salt| + 2 {
      MaskOctets(h, hash, emLen - 49);
    }
    if Encode(h, message, emBits, salt).Ok? {
      BlockOctets(emLen, salt, h, hash, top);
      var em := Encode(h, message, emBits, salt).value;
      var block := Masked(DataBlock(emLen, salt), Mgf1(h, hash, emLen - 49).value, top);
      ThreeParts(em, block, hash);
    }
  }

  /** An encoding is the masked block, the salted hash and the trailer. */
  lemma EncodedParts(h: Sha384, message: Octets, emBits: nat, salt: Octets)
    ensures HASH_LEN == 48
    ensures var emLen := (emBits + 7) / 8;
      var hash := Hash(h, Zeros(8) + Hash(h, message) + salt);
      && |hash| == 48
      && (Encode(h, message, emBits, salt).Ok? <==>
            emLen >= 48 + |salt| + 2 && Mgf1(h, hash, emLen - 49).Ok?)
      && (Encode(h, message, emBits, salt).Ok? ==>
            && |DataBlock(emLen, salt)| == emLen - 49 && |Mgf1(h, hash, emLen - 49).value| == emLen - 49
            && |Masked(DataBlock(emLen, salt), Mgf1(h, hash, emLen - 49).value, 8 * emLen - emBits)| == emLen - 49
            && Encode(h, message, emBits, salt).value ==
               Masked(DataBlock(emLen, salt), Mgf1(h, hash, emLen - 49).value, 8 * emLen - emBits) + hash + [0xbc])
  {
    hide Mgf1, Masked, DataBlock, Hash;
  }

  lemma ThreeParts(em: Octets, block: Octets, hash: Octets)
    requires em == block + hash + [0xbc] && |hash| == 48
    ensures |em| == |block| + 49 && em[|em| - 1] == 0xbc && em[|em| - 49..|em| - 1] == hash
    ensures forall i :: 0 <= i < |block| ==> em[i] == block[i]
  {}

  /** The octets of the masked block. */
  lemma BlockOctets(emLen: nat, salt: Octets, h: Sha384, hash: Octets, top: nat)
    requires 48 + |salt| + 2 <= emLen <= 48 * 0x1_0000_0000 + 49 && top < 8
    requires Mgf1(h, hash, emLen - 49).Ok?
    ensures var block := Masked(DataBlock(emLen, salt), Mgf1(h, hash, emLen - 49).value, top);
      forall i :: 0 <= i < emLen - 49 ==> block[i] == CodedOctet(h, hash, emLen, salt, top, i)
  {
    hide Mgf1, MaskOctet, PlainOctet, XorBits, AndBits, Pow, DataBlock, Masked;
    MaskOctets(h, hash, emLen - 49);
    var db, mask := DataBlock(emLen, salt), Mgf1(h, hash, emLen - 49).value;
    forall i | 0 <= i < emLen - 49 ensures Masked(db, mask, top)[i] == CodedOctet(h, hash, emLen, salt, top, i) {
      MaskedOctet(db, mask, top, i);
      PlainBlock(emLen, salt, i);
    }
  }

  lemma MaskedOctet(s: Octets, mask: Octets, top: nat, i: nat)
    requires |s| == |mask| > i && top < 8
    ensures Pow(2, top) > 0
    ensures Masked(s, mask, top)[i] ==
      if i == 0 then AndBits(XorBits(s[i], mask[i]), 0xFF / Pow(2, top)) else XorBits(s[i], mask[i])
  {
    hide Pow, AndBits, XorBits, KeepLow;
    KeepLowIsAnd(Xor(s[i], mask[i]), top);
  }

  lemma PlainBlock(emLen: nat, salt: Octets, i: nat)
    requires i < emLen - 49 && emLen >= 48 + |salt| + 2
    ensures DataBlock(emLen, salt)[i] == PlainOctet(emLen, salt, i)
  {}

  // ---- One message for an encoding, a signature, a token ----

  /** Two different octet strings with one hash. */
  predicate Collide(h: Sha384, x: Octets, y: Octets)
  {
    x != y && Hash(h, x) == Hash(h, y)
  }

  /** The octets that the salted hash of a message covers. */
  function Salted(h: Sha384, message: Octets, salt: Octets): Octets
  {
    Zeros(8) + Hash(h, message) + salt
  }

  /** The salt that verification finds in an encoding. */
  function FoundSalt(h: Sha384, em: Octets, emBits: nat, sLen: nat): Octets
    requires |em| == CeilDiv(emBits, 8) >= HASH_LEN + sLen + 2
  {
    var mask := Mgf1(h, HashPart(em), |em| - HASH_LEN - 1);
    if mask.Err? then [] else
      var db := Masked(MaskedPart(em), mask.value, 8 * |em| - emBits);
      db[|db| - sLen..]
  }

  /**
   * An encoding that verifies for two messages: they are one message, or they
   * collide, or the salted octets of the two collide.
   */
  lemma OneMessage(h: Sha384, m: Octets, m': Octets, em: Octets, emBits: nat, sLen: nat)
    requires |em| == CeilDiv(emBits, 8)
    requires EmsaPss.Verify(h, m, em, emBits, sLen) && EmsaPss.Verify(h, m', em, emBits, sLen)
    ensures var salt := FoundSalt(h, em, emBits, sLen);
      m == m' || Collide(h, m, m') || Collide(h, Salted(h, m, salt), Salted(h, m', salt))
  {
    hide Mgf1, Masked, Hash;
    var salt := FoundSalt(h, em, emBits, sLen);
    if Hash(h, m) != Hash(h, m') {
      assert Salted(h, m, salt)[8..56] == Hash(h, m) && Salted(h, m', salt)[8..56] == Hash(h, m');
    }
  }

  /** The encoding that a signature opens to. */
  function Opened(pub: PublicKey, signature: Octets): Octets
    requires pub.n > 1
  {
    var m, len := PowMod(Os2ip(signature), pub.e, pub.n), CeilDiv(BitLength(pub.n) - 1, 8);
    if m < Pow(256, len) then I2osp(m, len) else []
  }

  /** The salt in a signature that verifies. */
  function SaltOf(h: Sha384, pub: PublicKey, signature: Octets): Octets
    requires pub.n > 1
  {
    var em := Opened(pub, signature);
    if |em| == CeilDiv(BitLength(pub.n) - 1, 8) >= HASH_LEN + SALT_LEN + 2
    then FoundSalt(h, em, BitLength(pub.n) - 1, SALT_LEN) else []
  }

  /** A signature that verifies for two messages exhibits a collision. */
  lemma SignatureBindsMessage(h: Sha384, pub: PublicKey, m: Octets, m': Octets, signature: Octets)
    requires pub.n > 1 && PssVerify(h, pub, m, signature) && PssVerify(h, pub, m', signature)
    ensures var salt := SaltOf(h, pub, signature);
      m == m' || Collide(h, m, m') || Collide(h, Salted(h, m, salt), Salted(h, m', salt))
  {
    hide *;
    SaltLength();
    OpensTo(h, pub, m, signature);
    OpensTo(h, pub, m', signature);
    OneMessage(h, m, m', Opened(pub, signature), BitLength(pub.n) - 1, SALT_LEN);
  }

  /** A signature verifies when the encoding it opens to does. */
  lemma OpensTo(h: Sha384, pub: PublicKey, message: Octets, signature: Octets)
    requires pub.n > 1 && PssVerify(h, pub, message, signature)
    ensures BitLength(pub.n) >= 1
    ensures var em, emBits := Opened(pub, signature), BitLength(pub.n) - 1;
      && |em| == CeilDiv(emBits, 8) && EmsaPss.Verify(h, message, em, emBits, SALT_LEN)
      && SaltOf(h, pub, signature) == FoundSalt(h, em, emBits, SALT_LEN)
  {
    hide FoundSalt, I2osp, Os2ip, Pow, PowMod, BitLength, CeilDiv, MaskedPart, HashPart, Consistent, Masked, KeepLow;
  }

  /** A signature verifies for one token nonce only, or exhibits a collision. */
  lemma TokenBindsNonce(h: Sha384, pub: PublicKey, nonce: string, nonce': string, signature: Octets)
    requires pub.n > 1
    requires PssVerify(h, pub, TokenMessage(nonce), signature) && PssVerify(h, pub, TokenMessage(nonce'), signature)
    ensures var m, m', salt := Utf8.Encode(nonce), Utf8.Encode(nonce'), SaltOf(h, pub, signature);
      nonce == nonce' || Collide(h, m, m') || Collide(h, Salted(h, m, salt), Salted(h, m', salt))
  {
    hide PssVerify, Collide, Salted, SaltOf, Utf8.Encode;
    SignatureBindsMessage(h, pub, TokenMessage(nonce), TokenMessage(nonce'), signature);
    if TokenMessage(nonce) == TokenMessage(nonce') {
      MessageInjective(nonce, nonce');
    }
  }

  lemma MessageInjective(nonce: string, nonce': string)
    requires TokenMessage(nonce) == TokenMessage(nonce')
    ensures nonce == nonce'
  {
    hide Utf8.EncodeScalars, Utf8.CodePoints;
    Utf8.EncodingInjective(Utf8.CodePoints(nonce), Utf8.CodePoints(nonce'));
    Utf8.CodePointsInjective(nonce, nonce');
  }

  // ---- Which octets are signatures ----

  /**
   * The signatures on a message are exactly the octet strings of the modulus
   * length that read as some s below n whose e-th power is the encoding of the
   * message under a salt of 48 octets, which is the one found in the signature.
   */
  lemma PssVerifyExact(h: Sha384, pub: PublicKey, message: Octets, signature: Octets)
    requires pub.n > 1
    ensures PssVerify(h, pub, message, signature) <==>
      var em := Encode(h, message, BitLength(pub.n) - 1, SaltOf(h, pub, signature));
      && |signature| == OctetLength(pub.n) && Os2ip(signature) < pub.n
      && |SaltOf(h, pub, signature)| == 48
      && em.Ok? && PowMod(Os2ip(signature), pub.e, pub.n) == Os2ip(em.value)
  {
    hide *;
    var em := Encode(h, message, BitLength(pub.n) - 1, SaltOf(h, pub, signature));
    if PssVerify(h, pub, message, signature) {
      OpensToEncoding(h, pub, message, signature);
    }
    if
      && |signature| == OctetLength(pub.n) && Os2ip(signature) < pub.n && |SaltOf(h, pub, signature)| == 48
      && em.Ok? && PowMod(Os2ip(signature), pub.e, pub.n) == Os2ip(em.value)
    {
      BelowModulusFits(Os2ip(signature), pub.n);
      SaltLength();
      RootVerifies(h, pub, message, SaltOf(h, pub, signature), Os2ip(signature));
      I2ospOfOs2ip(signature);
    }
  }

  lemma SaltLength()
    ensures SALT_LEN == 48
  {}

  lemma OpensToEncoding(h: Sha384, pub: PublicKey, message: Octets, signature: Octets)
    requires pub.n > 1 && PssVerify(h, pub, message, signature)
    ensures var em := Encode(h, message, BitLength(pub.n) - 1, SaltOf(h, pub, signature));
      && |signature| == OctetLength(pub.n) && Os2ip(signature) < pub.n
      && |SaltOf(h, pub, signature)| == 48
      && em.Ok? && PowMod(Os2ip(signature), pub.e, pub.n) == Os2ip(em.value)
  {
    hide Encode, FoundSalt, I2osp, Os2ip, Pow, PowMod, BitLength, EmsaPss.Verify;
    var emBits, em := BitLength(pub.n) - 1, Opened(pub, signature);
    VerifiedSalt(h, message, em, emBits, SALT_LEN);
    Os2ipOfI2osp(PowMod(Os2ip(signature), pub.e, pub.n), CeilDiv(emBits, 8));
  }

  /** The salt found in an encoding that verifies is the one it was made with. */
  lemma VerifiedSalt(h: Sha384, message: Octets, em: Octets, emBits: nat, sLen: nat)
    requires |em| == CeilDiv(emBits, 8) && EmsaPss.Verify(h, message, em, emBits, sLen)
    ensures |em| >= HASH_LEN + sLen + 2
    ensures var salt := FoundSalt(h, em, emBits, sLen);
      |salt| == sLen && Encode(h, message, emBits, salt) == Ok(em)
  {
    hide Mgf1, Masked, Hash, Encode, KeepLow;
    Parts(em);
    var salt :=
      ConsistentEncoding(h, message, MaskedPart(em), HashPart(em), emBits, |em|, sLen);
  }

  // ---- What blind, blind_sign and finalize return ----

  /**
   * blind with salt and factor r: for a coprime encoding it returns the octets
   * of m * r^e mod n in the modulus length and the one inverse of r below n.
   */
  lemma BlindExact(h: Sha384, pub: PublicKey, message: Octets, salt: Octets, r: nat, b: Blinding)
    requires pub.n > 1 && Coprime(r, pub.n)
    ensures var em := Encode(h, message, BitLength(pub.n) - 1, salt);
      BlindWith(h, pub, message, salt, r) == Ok(b) <==>
        && em.Ok? && Coprime(Os2ip(em.value), pub.n)
        && |b.blinded| == OctetLength(pub.n) && Os2ip(b.blinded) < pub.n
        && Cong(Os2ip(b.blinded), Os2ip(em.value) * Pow(r, pub.e), pub.n)
        && b.inv < pub.n && Cong(r * b.inv, 1, pub.n)
  {
    hide Encode, BitLength, OctetLength, Os2ip, I2osp, Pow, Coprime, ModInv, Cong, BlindedValue;
    var em := Encode(h, message, BitLength(pub.n) - 1, salt);
    if em.Ok? && Coprime(Os2ip(em.value), pub.n) {
      var m := Os2ip(em.value);
      BlindedResidue(m, r, pub, b.blinded);
      if b.inv < pub.n && Cong(r * b.inv, 1, pub.n) {
        InverseUnique(r, b.inv, ModInv(r, pub.n), pub.n);
      }
    }
  }

  /** The octets of the blinded value are the ones of the residue of m * r^e. */
  lemma BlindedResidue(m: nat, r: nat, pub: PublicKey, o: Octets)
    requires pub.n > 1
    ensures BlindedValue(m, r, pub) < Pow(256, OctetLength(pub.n))
    ensures o == I2osp(BlindedValue(m, r, pub), OctetLength(pub.n)) <==>
      |o| == OctetLength(pub.n) && Os2ip(o) < pub.n && Cong(Os2ip(o), m * Pow(r, pub.e), pub.n)
  {
    var n, z := pub.n, BlindedValue(m, r, pub);
    CongMod(Pow(r, pub.e), n);
    CongMul(m, m, PowMod(r, pub.e, n), Pow(r, pub.e), n);
    CongMod(m * PowMod(r, pub.e, n), n);
    BelowModulusFits(z, n);
    OctetsOf(z, OctetLength(n), o);
    if Os2ip(o) < n && Cong(Os2ip(o), m * Pow(r, pub.e), n) {
      CongSmall(Os2ip(o), z, n);
    }
  }

  /** The octets of a value in a length are the only ones of that length that read as it. */
  lemma OctetsOf(v: nat, len: nat, o: Octets)
    requires v < Pow(256, len)
    ensures o == I2osp(v, len) <==> |o| == len && Os2ip(o) == v
  {
    Os2ipOfI2osp(v, len);
    I2ospOfOs2ip(o);
  }

  /**
   * blind_sign with a matching key pair: it refuses the values outside [2, n - 1],
   * and otherwise returns the one octet string of the modulus length whose value
   * is below n and has the blinded value as its e-th power.
   */
  lemma BlindSignExact(p: int, q: int, key: PrivateKey, blinded: Octets, signature: Octets)
    requires KeyPair(p, q, key) && key.n > 1
    ensures BlindSign(key, blinded) == Err(OutOfRange) <==> !(1 < Os2ip(blinded) < key.n)
    ensures BlindSign(key, blinded) == Ok(signature) <==>
      && 1 < Os2ip(blinded) < key.n
      && |signature| == OctetLength(key.n) && Os2ip(signature) < key.n
      && PowMod(Os2ip(signature), key.e, key.n) == Os2ip(blinded)
  {
    hide KeyPair, OctetLength, Os2ip, I2osp, Pow, PowMod;
    var m, s := Os2ip(blinded), Os2ip(signature);
    if m < key.n {
      RsaInverse(p, q, key, m);
      DivModUnique(m, 0, m, key.n);
      BelowModulusFits(PowMod(m, key.d, key.n), key.n);
      OctetsOf(PowMod(m, key.d, key.n), OctetLength(key.n), signature);
      if s < key.n {
        RsaInverse(p, q, key, s);
        DivModUnique(s, 0, s, key.n);
      }
    }
  }

  /**
   * finalize returns a signature exactly when the blind signature has the modulus
   * length and its product with the inverse, reduced, is a signature on the message.
   */
  lemma FinalizeExact(h: Sha384, pub: PublicKey, message: Octets, blindSig: Octets, inv: int, signature: Octets)
    requires pub.n > 1
    ensures var f := Finalize(h, pub, message, blindSig, inv);
      && (f == Err(BadLength) <==> |blindSig| != OctetLength(pub.n))
      && (f == Ok(signature) <==>
            && |blindSig| == OctetLength(pub.n) && PssVerify(h, pub, message, signature)
            && Os2ip(signature) < pub.n && Cong(Os2ip(signature), Os2ip(blindSig) * inv, pub.n))
  {
    hide OctetLength, Os2ip, I2osp, Pow, EmsaPss.Verify, BitLength;
    var n := pub.n;
    var s := Unblinded(Os2ip(blindSig), inv, n);
    BelowModulusFits(s, n);
    OctetsOf(s, OctetLength(n), signature);
    CongMod(Os2ip(blindSig) * inv, n);
    if Os2ip(signature) < n && Cong(Os2ip(signature), Os2ip(blindSig) * inv, n) {
      CongSmall(Os2ip(signature), s, n);
    }
  }

  /** The factor that blind settles on: the first draw r in [1, n - 1] that is coprime to n, and no other. */
  lemma {:induction false} FirstCoprimeExact(draws: seq<nat>, n: nat, r: nat)
    ensures FirstCoprime(draws, n) == Some(r) <==>
      exists i: nat :: SettlesAt(draws, n, i) && r == draws[i] + 1
    ensures FirstCoprime(draws, n).None? <==> forall i :: 0 <= i < |draws| ==> !Coprime(draws[i] + 1, n)
  {
    hide Coprime;
    if |draws| > 0 {
      FirstCoprimeExact(draws[1..], n, r);
      if Coprime(draws[0] + 1, n) {
        assert SettlesAt(draws, n, 0);
      } else {
        if i: nat :| SettlesAt(draws[1..], n, i) && r == draws[1..][i] + 1 {
          SettlesNext(draws, n, i);
          assert SettlesAt(draws, n, i + 1);
        }
        if i: nat :| SettlesAt(draws, n, i) && r == draws[i] + 1 {
          SettlesNext(draws, n, i - 1);
          assert SettlesAt(draws[1..], n, i - 1);
        }
      }
    }
  }

  predicate SettlesAt(draws: seq<nat>, n: nat, i: nat)
  {
    i < |draws| && Coprime(draws[i] + 1, n) && forall j :: 0 <= j < i ==> !Coprime(draws[j] + 1, n)
  }

  lemma SettlesNext(draws: seq<nat>, n: nat, i: nat)
    requires |draws| > 0 && !Coprime(draws[0] + 1, n)
    ensures SettlesAt(draws, n, i + 1) <==> SettlesAt(draws[1..], n, i)
  {
    hide Coprime;
    if SettlesAt(draws[1..], n, i) {
      forall j | 0 <= j < i + 1 ensures !Coprime(draws[j] + 1, n) {
        assert j > 0 ==> draws[j] == draws[1..][j - 1];
      }
    }
    if SettlesAt(draws, n, i + 1) {
      assert forall j :: 0 <= j < i ==> draws[1..][j] == draws[j + 1];
    }
  }
}
