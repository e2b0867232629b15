// EMSA-PSS with SHA-384 and MGF1 (section 9.1 and appendix B.2.1 of RFC 8017),
// encoding as in blindage/crypto/rsabssa.py and verification as the RFC states it.
module EmsaPss {
  import opened Arithmetic
  import opened Bits
  import opened Octets
  import opened Results

  const HASH_LEN := 48
  const SALT_LEN := 48
  const TRAILER: Octet := 0xbc
  const MAX_MASK_BLOCKS := 0x1_0000_0000

  /** SHA-384 is an arbitrary function; Hash keeps its 48-octet results. */
  type Sha384 = Octets -> Octets

  function Hash(h: Sha384, x: Octets): (d: Octets)
    ensures |d| == HASH_LEN
    ensures |h(x)| == 48 ==> d == h(x)
  {
    if |h(x)| == HASH_LEN then h(x) else Zeros(HASH_LEN)
  }

  datatype RsaError =
    | EncodingError
    | MaskTooLong
    | MessageNotCoprime
    | FactorNotCoprime
    | OutOfRange
    | SigningFailure
    | BadLength
    | InvalidSignature
    | IntegerTooLarge
    | NotInvertible
    | NoDraw

  function Zeros(n: nat): (z: Octets)
    ensures |z| == n && forall i :: 0 <= i < n ==> z[i] == 0
  {
    seq(n, _ => 0)
  }

  // ---- Masking ----

  function XorSeq(s: Octets, t: Octets): (r: Octets)
    requires |s| == |t|
    ensures |r| == |s|
  {
    seq(|s|, i requires 0 <= i < |s| => Xor(s[i], t[i]))
  }

  function Xor(a: Octet, b: Octet): Octet
  {
    SmallPowers();
    XorBelow(a, b, 8);
    XorBits(a, b)
  }

  /** a & (0xFF >> top): the low 8 - top bits of a. */
  function KeepLow(a: Octet, top: nat): Octet
    requires top < 8
  {
    LowMask(top);
    LowIsMod(a, 8 - top);
    Low(a, 8 - top)
  }

  lemma KeepLowIsAnd(a: Octet, top: nat)
    requires top < 8
    ensures Pow(2, top) > 0 && KeepLow(a, top) == AndBits(a, 0xFF / Pow(2, top))
  {
    LowMask(top);
    AndLowBits(a, 8 - top);
  }

  lemma LowMask(top: nat)
    requires top < 8
    ensures Pow(2, top) > 0 && 1 < Pow(2, 8 - top) <= 256
    ensures 0xFF / Pow(2, top) == Pow(2, 8 - top) - 1
  {
    SmallPowers();
  }

  /** Clears the leading top bits of the first octet. */
  function ClearTop(s: Octets, top: nat): (r: Octets)
    requires top < 8 && |s| > 0
    ensures |r| == |s|
  {
    [KeepLow(s[0], top)] + s[1..]
  }

  /** Exclusive or with the mask, then clearing of the leading bits. */
  function Masked(s: Octets, mask: Octets, top: nat): (r: Octets)
    requires |s| == |mask| > 0 && top < 8
    ensures |r| == |s|
  {
    ClearTop(XorSeq(s, mask), top)
  }

  lemma MaskedTopClear(s: Octets, mask: Octets, top: nat)
    requires |s| == |mask| > 0 && top < 8
    ensures KeepLow(Masked(s, mask, top)[0], top) == Masked(s, mask, top)[0]
  {
    KeepLowAgain(XorSeq(s, mask)[0], top);
  }

  lemma KeepLowUnmasks(a: Octet, b: Octet, top: nat)
    requires top < 8
    ensures KeepLow(Xor(KeepLow(Xor(a, b), top), b), top) == KeepLow(a, top)
  {
    XorUnderMask(a, b, 8 - top);
  }

  lemma KeepLowAgain(a: Octet, top: nat)
    requires top < 8
    ensures KeepLow(KeepLow(a, top), top) == KeepLow(a, top)
  {
    LowOfLow(a, 8 - top);
  }

  lemma KeepLowBit(a: Octet, top: nat)
    requires top < 8 && a <= 1
    ensures KeepLow(a, top) == a
  {
    LowMask(top);
    LowIsMod(a, 8 - top);
    DivModUnique(a, 0, a, Pow(2, 8 - top));
  }

  lemma SmallPowers()
    ensures Pow(2, 0) == 1 && Pow(2, 1) == 2 && Pow(2, 2) == 4 && Pow(2, 3) == 8 && Pow(2, 4) == 16
    ensures Pow(2, 5) == 32 && Pow(2, 6) == 64 && Pow(2, 7) == 128 && Pow(2, 8) == 256
  {
    assert Pow(2, 4) == 16;
    assert Pow(2, 5) == 2 * Pow(2, 4);
    assert Pow(2, 6) == 2 * Pow(2, 5);
    assert Pow(2, 7) == 2 * Pow(2, 6);
    assert Pow(2, 8) == 2 * Pow(2, 7);
  }

  // ---- MGF1 ----

  function CeilDiv(a: nat, b: nat): nat
    requires b > 0
  {
    (a + b - 1) / b
  }

  function Counter(c: nat): (s: Octets)
    requires c < MAX_MASK_BLOCKS
    ensures |s| == 4
  {
    assert Pow(256, 4) == MAX_MASK_BLOCKS;
    I2osp(c, 4)
  }

  /** Block c of the mask stream: Hash(seed || I2OSP(c, 4)). */
  function MaskBlock(h: Sha384, seed: Octets, c: nat): (b: Octets)
    requires c < MAX_MASK_BLOCKS
    ensures |b| == HASH_LEN
  {
    Hash(h, seed + Counter(c))
  }

  function MaskStream(h: Sha384, seed: Octets, blocks: nat): (s: Octets)
    requires blocks <= MAX_MASK_BLOCKS
    ensures |s| == blocks * HASH_LEN
  {
    if blocks == 0 then [] else MaskStream(h, seed, blocks - 1) + MaskBlock(h, seed, blocks - 1)
  }

  /** MGF1; a mask of more than 2^32 blocks is the RFC's "mask too long". */
  function Mgf1(h: Sha384, seed: Octets, maskLen: nat): (r: Result<Octets, RsaError>)
    ensures r.Ok? ==> |r.value| == maskLen
  {
    var blocks := CeilDiv(maskLen, HASH_LEN);
    if blocks > MAX_MASK_BLOCKS then Err(MaskTooLong)
    else Ok(MaskStream(h, seed, blocks)[..maskLen])
  }

  /** The loop of _mgf1: counter.to_bytes(4) fails from counter 2^32 on. */
  method Mgf1Loop(h: Sha384, seed: Octets, maskLen: nat) returns (r: Result<Octets, RsaError>)
    ensures r == Mgf1(h, seed, maskLen)
  {
    var output: Octets := [];
    var blocks := CeilDiv(maskLen, HASH_LEN);
    for counter := 0 to blocks
      invariant counter <= MAX_MASK_BLOCKS
      invariant output == MaskStream(h, seed, counter)
    {
      if counter >= MAX_MASK_BLOCKS {
        return Err(MaskTooLong);
      }
      output := output + MaskBlock(h, seed, counter);
    }
    return Ok(output[..maskLen]);
  }

  // ---- Encoding ----

  /** Hash of 00^8 || mHash || salt. */
  function SaltedHash(h: Sha384, message: Octets, salt: Octets): (r: Octets)
    ensures |r| == HASH_LEN
  {
    Hash(h, Zeros(8) + Hash(h, message) + salt)
  }

  function DataBlock(emLen: nat, salt: Octets): (db: Octets)
    requires emLen >= HASH_LEN + |salt| + 2
    ensures |db| == emLen - HASH_LEN - 1
  {
    Zeros(emLen - |salt| - HASH_LEN - 2) + [1] + salt
  }

  /** EMSA-PSS-ENCODE, section 9.1.1 of RFC 8017. */
  function Encode(h: Sha384, message: Octets, emBits: nat, salt: Octets): (r: Result<Octets, RsaError>)
    ensures r.Ok? ==> |r.value| == CeilDiv(emBits, 8)
  {
    var emLen := CeilDiv(emBits, 8);
    if emLen < HASH_LEN + |salt| + 2 then Err(EncodingError)
    else
      var hash := SaltedHash(h, message, salt);
      var db := DataBlock(emLen, salt);
      var dbMask :- Mgf1(h, hash, emLen - HASH_LEN - 1);
      var maskedDb := Masked(db, dbMask, 8 * emLen - emBits);
      Ok(maskedDb + hash + [TRAILER])
  }

  // ---- Verification ----

  function MaskedPart(em: Octets): (s: Octets)
    requires |em| >= HASH_LEN + 2
    ensures |s| == |em| - HASH_LEN - 1
  {
    em[..|em| - HASH_LEN - 1]
  }

  function HashPart(em: Octets): (s: Octets)
    requires |em| >= HASH_LEN + 2
    ensures |s| == HASH_LEN
  {
    em[|em| - HASH_LEN - 1..|em| - 1]
  }

  lemma Parts(em: Octets)
    requires |em| >= HASH_LEN + 2 && em[|em| - 1] == TRAILER
    ensures MaskedPart(em) + HashPart(em) + [TRAILER] == em
  {}

  /** Steps 10 to 14: padding, marker octet, and the hash recomputed from the message and the salt found. */
  predicate Consistent(h: Sha384, message: Octets, hash: Octets, db: Octets, sLen: nat)
    requires |db| >= sLen + 1
  {
    var psLen := |db| - sLen - 1;
    db[..psLen] == Zeros(psLen) &&
    db[psLen] == 1 &&
    hash == Hash(h, Zeros(8) + Hash(h, message) + db[psLen + 1..])
  }

  /** EMSA-PSS-VERIFY, section 9.1.2 of RFC 8017, for salts of sLen octets. */
  predicate Verify(h: Sha384, message: Octets, em: Octets, emBits: nat, sLen: nat)
    requires |em| == CeilDiv(emBits, 8)
  {
    |em| >= HASH_LEN + sLen + 2 &&
    em[|em| - 1] == TRAILER &&
    var top := 8 * |em| - emBits;
    KeepLow(MaskedPart(em)[0], top) == MaskedPart(em)[0] &&
    var mask := Mgf1(h, HashPart(em), |em| - HASH_LEN - 1);
    mask.Ok? &&
    Consistent(h, message, HashPart(em), Masked(MaskedPart(em), mask.value, top), sLen)
  }

  lemma ConsistentBlock(h: Sha384, message: Octets, hash: Octets, db: Octets, sLen: nat)
    requires |db| >= sLen + 1
    ensures Consistent(h, message, hash, db, sLen) ==>
      var salt := db[|db| - sLen..];
      hash == SaltedHash(h, message, salt) && db == DataBlock(|db| + HASH_LEN + 1, salt)
  {
    var psLen := |db| - sLen - 1;
    assert db == db[..psLen] + [db[psLen]] + db[psLen + 1..];
  }

  lemma BlockConsistent(h: Sha384, message: Octets, emLen: nat, salt: Octets)
    requires emLen >= HASH_LEN + |salt| + 2
    ensures Consistent(h, message, SaltedHash(h, message, salt), DataBlock(emLen, salt), |salt|)
  {
    var db := DataBlock(emLen, salt);
    assert db[..|db| - |salt| - 1] == Zeros(|db| - |salt| - 1);
    assert db[|db| - |salt|..] == salt;
  }

  /** Unmasking twice under the same cleared bits gives the block back. */
  lemma MaskInvolution(db: Octets, mask: Octets, top: nat)
    requires |db| == |mask| > 0 && top < 8
    ensures Masked(Masked(db, mask, top), mask, top) == ClearTop(db, top)
  {
    var back := Masked(Masked(db, mask, top), mask, top);
    forall i | 0 <= i < |db| ensures back[i] == ClearTop(db, top)[i] {
      MaskInvolutionAt(db, mask, top, i);
    }
  }

  lemma MaskInvolutionAt(db: Octets, mask: Octets, top: nat, i: nat)
    requires |db| == |mask| > i && top < 8
    ensures Masked(Masked(db, mask, top), mask, top)[i] == ClearTop(db, top)[i]
  {
    var masked := Masked(db, mask, top);
    if i == 0 {
      KeepLowUnmasks(db[0], mask[0], top);
      assert masked[0] == KeepLow(Xor(db[0], mask[0]), top);
    } else {
      XorCancels(db[i], mask[i]);
      assert masked[i] == Xor(db[i], mask[i]);
    }
  }

  lemma DataBlockTop(emLen: nat, salt: Octets, top: nat)
    requires emLen >= HASH_LEN + |salt| + 2 && top < 8
    ensures ClearTop(DataBlock(emLen, salt), top) == DataBlock(emLen, salt)
  {
    var db := DataBlock(emLen, salt);
    assert db[0] <= 1;
    KeepLowBit(db[0], top);
    ClearTopFixed(db, top);
  }

  /** Every encoding verifies for its own message. */
  lemma EncodingVerifies(h: Sha384, message: Octets, emBits: nat, salt: Octets)
    requires Encode(h, message, emBits, salt).Ok?
    ensures Verify(h, message, Encode(h, message, emBits, salt).value, emBits, |salt|)
  {
    EncodeShape(h, message, emBits, salt);
    var em := Encode(h, message, emBits, salt).value;
    var hash := SaltedHash(h, message, salt);
    var db := DataBlock(|em|, salt);
    var mask := Mgf1(h, hash, |em| - HASH_LEN - 1).value;
    var top := 8 * |em| - emBits;
    assert MaskedPart(em) == Masked(db, mask, top);
    assert HashPart(em) == hash;
    MaskedTopClear(db, mask, top);
    MaskInvolution(db, mask, top);
    DataBlockTop(|em|, salt, top);
    BlockConsistent(h, message, |em|, salt);
  }

  /** Conversely, whatever verifies is the encoding of the message under some salt. */
  lemma VerifiedIsEncoding(h: Sha384, message: Octets, em: Octets, emBits: nat, sLen: nat) returns (salt: Octets)
    requires |em| == CeilDiv(emBits, 8) && Verify(h, message, em, emBits, sLen)
    ensures |salt| == sLen && Encode(h, message, emBits, salt).Ok?
    ensures Encode(h, message, emBits, salt).value == em
  {
    hide Mgf1, Masked, Hash, Encode, KeepLow;
    Parts(em);
    salt := ConsistentEncoding(h, message, MaskedPart(em), HashPart(em), emBits, |em|, sLen);
  }

  lemma ConsistentEncoding(h: Sha384, message: Octets, maskedDb: Octets, hash: Octets, emBits: nat, emLen: nat,
      sLen: nat)
    returns (salt: Octets)
    requires emLen == CeilDiv(emBits, 8) >= HASH_LEN + sLen + 2 && |maskedDb| == emLen - HASH_LEN - 1
    requires KeepLow(maskedDb[0], 8 * emLen - emBits) == maskedDb[0]
    requires Mgf1(h, hash, emLen - HASH_LEN - 1).Ok?
    requires Consistent(h, message, hash,
                        Masked(maskedDb, Mgf1(h, hash, emLen - HASH_LEN - 1).value, 8 * emLen - emBits), sLen)
    ensures var db := Masked(maskedDb, Mgf1(h, hash, emLen - HASH_LEN - 1).value, 8 * emLen - emBits);
      |salt| == sLen && salt == db[|db| - sLen..]
    ensures Encode(h, message, emBits, salt).Ok?
    ensures Encode(h, message, emBits, salt).value == maskedDb + hash + [TRAILER]
  {
    var db := Masked(maskedDb, Mgf1(h, hash, emLen - HASH_LEN - 1).value, 8 * emLen - emBits);
    salt := db[|db| - sLen..];
    ConsistentBlock(h, message, hash, db, sLen);
    EncodeOfUnmasked(h, message, emBits, salt, emLen, maskedDb, hash);
  }

  lemma EncodeShape(h: Sha384, message: Octets, emBits: nat, salt: Octets)
    ensures var emLen := CeilDiv(emBits, 8);
      emLen >= HASH_LEN + |salt| + 2 && Mgf1(h, SaltedHash(h, message, salt), emLen - HASH_LEN - 1).Ok? ==>
      Encode(h, message, emBits, salt) ==
      Ok(Masked(DataBlock(emLen, salt), Mgf1(h, SaltedHash(h, message, salt), emLen - HASH_LEN - 1).value,
          8 * emLen - emBits)
        + SaltedHash(h, message, salt) + [TRAILER])
  {}

  /** Masking the unmasked block again gives the masked block back. */
  lemma Remask(db: Octets, mask: Octets, top: nat, maskedDb: Octets)
    requires top < 8 && |mask| == |maskedDb| == |db| > 0
    requires KeepLow(maskedDb[0], top) == maskedDb[0] && db == Masked(maskedDb, mask, top)
    ensures Masked(db, mask, top) == maskedDb
  {
    MaskInvolution(maskedDb, mask, top);
    ClearTopFixed(maskedDb, top);
  }

  lemma EncodeOfUnmasked(h: Sha384, message: Octets, emBits: nat, salt: Octets, emLen: nat, maskedDb: Octets,
      hash: Octets)
    requires emLen == CeilDiv(emBits, 8) >= HASH_LEN + |salt| + 2 && |maskedDb| == emLen - HASH_LEN - 1
    requires hash == SaltedHash(h, message, salt) && Mgf1(h, hash, emLen - HASH_LEN - 1).Ok?
    requires KeepLow(maskedDb[0], 8 * emLen - emBits) == maskedDb[0]
    requires DataBlock(emLen, salt) == Masked(maskedDb, Mgf1(h, hash, emLen - HASH_LEN - 1).value, 8 * emLen - emBits)
    ensures Encode(h, message, emBits, salt).Ok?
    ensures Encode(h, message, emBits, salt).value == maskedDb + hash + [TRAILER]
  {
    EncodeShape(h, message, emBits, salt);
    var mask := Mgf1(h, hash, emLen - HASH_LEN - 1).value;
    Remask(DataBlock(emLen, salt), mask, 8 * emLen - emBits, maskedDb);
  }

  lemma ClearTopFixed(s: Octets, top: nat)
    requires top < 8 && |s| > 0 && KeepLow(s[0], top) == s[0]
    ensures ClearTop(s, top) == s
  {
    assert s == [s[0]] + s[1..];
  }

  /** The encoded integer is below 2^emBits, whatever emBits is mod 8. */
  lemma EncodingBound(h: Sha384, message: Octets, emBits: nat, salt: Octets)
    requires Encode(h, message, emBits, salt).Ok?
    ensures Os2ip(Encode(h, message, emBits, salt).value) < Pow(2, emBits)
  {
    EncodingTopClear(h, message, emBits, salt);
    TopClearBound(Encode(h, message, emBits, salt).value, emBits);
  }

  lemma EncodingTopClear(h: Sha384, message: Octets, emBits: nat, salt: Octets)
    requires Encode(h, message, emBits, salt).Ok?
    ensures var em := Encode(h, message, emBits, salt).value;
      |em| > 0 && KeepLow(em[0], 8 * |em| - emBits) == em[0]
  {
    var em := Encode(h, message, emBits, salt).value;
    var mask := Mgf1(h, SaltedHash(h, message, salt), |em| - HASH_LEN - 1).value;
    MaskedTopClear(DataBlock(|em|, salt), mask, 8 * |em| - emBits);
  }

  lemma TopClearBound(em: Octets, emBits: nat)
    requires |em| == CeilDiv(emBits, 8) > 0 && KeepLow(em[0], 8 * |em| - emBits) == em[0]
    ensures Os2ip(em) < Pow(2, emBits)
  {
    var top := 8 * |em| - emBits;
    LowBound(em[0], 8 - top);
    LeadingBitsBound(em, top);
  }

  lemma LeadingBitsBound(em: Octets, top: nat)
    requires |em| > 0 && top < 8 && em[0] < Pow(2, 8 - top)
    ensures Os2ip(em) < Pow(2, 8 * |em| - top)
  {
    var rest := em[1..];
    var lead, lo := em[0], Pow(256, |rest|);
    assert em == [em[0]] + rest;
    Os2ipConcat([em[0]], rest);
    assert Os2ip([em[0]]) == lead by { assert Os2ip([em[0]][..0]) == 0; }
    Os2ipBound(rest);
    Pow256(|rest|);
    PowPositive(256, |rest|);
    ScaledBound(lead, Pow(2, 8 - top), lo, Os2ip(rest));
    PowAdd(2, 8 - top, 8 * |rest|);
  }

  lemma ScaledBound(x: int, bound: int, unit: int, y: int)
    requires x < bound && y < unit && unit > 0
    ensures x * unit + y < bound * unit
  {
    MulMonotone(x + 1, bound, unit);
    assert (x + 1) * unit == x * unit + unit;
  }
}
