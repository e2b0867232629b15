// The JavaScript port of the blinding arithmetic (extension/core/rsabssa.js):
// each loop is proved against the mathematical form used for the Python side,
// so both sides blind and finalize alike.
module RsaJs {
  import opened Arithmetic
  import opened Octets
  import opened EmsaPss
  import opened BlindRsa
  import opened Results

  /** BigInt %, which takes the sign of the dividend. */
  function JsRem(a: int, b: int): (r: int)
    requires b > 0
  {
    if a >= 0 then a % b else -((-a) % b)
  }

  lemma JsRemCong(a: int, b: int)
    requires b > 0
    ensures Cong(JsRem(a, b), a, b) && -b < JsRem(a, b) < b
  {
    if a >= 0 {
      CongMod(a, b);
    } else {
      var q, r := (-a) / b, (-a) % b;
      assert -a == q * b + r;
      CongIntro(-r, a, q, b);
    }
  }

  /** ((a % m) + m) % m is the residue of a, whatever its sign. */
  lemma JsResidue(a: int, m: int)
    requires m > 0
    ensures JsRem(JsRem(a, m) + m, m) == a % m
  {
    JsRemCong(a, m);
    CongIntro(JsRem(a, m) + m, JsRem(a, m), 1, m);
  }

  // ---- Octets and integers ----

  method Os2ipLoop(bytes: Octets) returns (v: nat)
    ensures v == Os2ip(bytes)
  {
    v := 0;
    for i := 0 to |bytes|
      invariant v == Os2ip(bytes[..i])
    {
      assert bytes[..i + 1][..i] == bytes[..i];
      v := v * 256 + bytes[i];
    }
    assert bytes[..|bytes|] == bytes;
  }

  /** The low len octets of any integer, most significant first. */
  function LowOctets(v: int, len: nat): (s: Octets)
    ensures |s| == len
    decreases len
  {
    if len == 0 then [] else LowOctets(v / 256, len - 1) + [v % 256]
  }

  /** What is left of v after len right shifts by 8. */
  function Shifted(v: int, len: nat): int
    decreases len
  {
    if len == 0 then v else Shifted(v / 256, len - 1)
  }

  lemma {:induction false} ShiftedOut(v: int, len: nat)
    ensures Shifted(v, len) == 0 <==> 0 <= v < Pow(256, len)
    ensures 0 <= v < Pow(256, len) ==> LowOctets(v, len) == I2osp(v, len)
    decreases len
  {
    if len > 0 {
      ShiftedOut(v / 256, len - 1);
      var p := Pow(256, len - 1);
      assert 0 <= v < 256 * p <==> 0 <= v / 256 < p;
    }
  }

  /** i2osp: fills the buffer from the end, and throws when something is left over. */
  method I2ospLoop(value: int, len: nat) returns (res: Result<Octets, RsaError>)
    ensures res.Ok? <==> 0 <= value < Pow(256, len)
    ensures res.Ok? ==> res.value == I2osp(value, len)
    ensures res.Err? ==> res.error == IntegerTooLarge
  {
    var out := new Octet[len](_ => 0);
    var v := value;
    var i := len - 1;
    while i >= 0
      invariant -1 <= i < len
      invariant Shifted(value, len) == Shifted(v, i + 1)
      invariant LowOctets(value, len) == LowOctets(v, i + 1) + out[i + 1..]
    {
      out[i] := v % 256;
      assert out[i..] == [v % 256] + out[i + 1..];
      v := v / 256;
      i := i - 1;
    }
    ShiftedOut(value, len);
    if v != 0 {
      return Err(IntegerTooLarge);
    }
    return Ok(out[..]);
  }

  // ---- Modular arithmetic ----

  /** modpow: square and multiply. */
  method ModPow(base: int, exp: nat, mod: int) returns (result: int)
    requires mod > 0
    ensures Cong(result, Pow(base, exp), mod)
    ensures base >= 0 ==> result == if exp == 0 then 1 else PowMod(base, exp, mod)
  {
    result := 1;
    var b := JsRem(base, mod);
    var e: nat := exp;
    JsRemCong(base, mod);
    CongPow(b, base, exp, mod);
    while e > 0
      invariant Cong(result * Pow(b, e), Pow(base, exp), mod)
      invariant base >= 0 ==> b >= 0 && result >= 0
      invariant base >= 0 && e < exp ==> e > 0 || result < mod
      invariant e <= exp && (e == exp ==> result == 1)
    {
      ghost var b0, r0 := b, result;
      SquareStep(r0, b0, e, mod);
      if e % 2 == 1 {
        result := JsRem(result * b, mod);
      }
      e := e / 2;
      b := JsRem(b * b, mod);
      if base >= 0 {
        MulNonNegative(r0, b0);
        MulNonNegative(b0, b0);
      }
    }
    assert Pow(b, 0) == 1;
    if base >= 0 && exp > 0 {
      DivModUnique(result, 0, result, mod);
    }
  }

  /** One round keeps result * b^e. */
  lemma SquareStep(result: int, b: int, e: nat, mod: int)
    requires mod > 0 && e > 0
    ensures var result' := if e % 2 == 1 then JsRem(result * b, mod) else result;
      Cong(result' * Pow(JsRem(b * b, mod), e / 2), result * Pow(b, e), mod)
  {
    hide Cong, JsRem, Pow;
    var h := e / 2;
    SquareHalf(b, h, mod);
    if e % 2 == 1 {
      OddRound(result, b, Pow(JsRem(b * b, mod), h), Pow(b, h + h), mod);
      PowStep(b, h + h);
      assert e == h + h + 1;
    } else {
      CongSelf(result, mod);
      CongMul(result, result, Pow(JsRem(b * b, mod), h), Pow(b, h + h), mod);
      assert e == h + h;
    }
  }

  lemma OddRound(result: int, b: int, sq: int, power: int, mod: int)
    requires mod > 0 && Cong(sq, power, mod)
    ensures Cong(JsRem(result * b, mod) * sq, result * (b * power), mod)
  {
    hide Cong, JsRem;
    JsRemCong(result * b, mod);
    CongMul(JsRem(result * b, mod), result * b, sq, power, mod);
    MulAssociative(result, b, power);
  }

  lemma CongSelf(x: int, n: int)
    requires n > 0
    ensures Cong(x, x, n)
  {}

  lemma SquareHalf(b: int, h: nat, mod: int)
    requires mod > 0
    ensures Cong(Pow(JsRem(b * b, mod), h), Pow(b, h + h), mod)
  {
    JsRemCong(b * b, mod);
    CongPow(JsRem(b * b, mod), b * b, h, mod);
    PowProduct(b, b, h);
    PowAdd(b, h, h);
  }

  /**
   * modinv, extended Euclid: throws exactly when a and m share a factor, and
   * otherwise returns the one residue that inverts a.
   */
  method ModInverse(a: int, m: int) returns (res: Result<int, RsaError>)
    requires m > 1
    ensures res.Ok? <==> Coprime(a % m, m)
    ensures res.Ok? ==> res.value == ModInv(a % m, m) && Cong(a * res.value, 1, m)
    ensures res.Err? ==> res.error == NotInvertible
  {
    hide Cong, Gcd, JsRem;
    JsResidue(a, m);
    var a0: nat := JsRem(JsRem(a, m) + m, m);
    CongMod(a, m);
    EuclidStart(a, a0, m);
    var old_r: nat, r: nat := a0, m;
    var old_s, s := 1, 0;
    while r != 0
      invariant Gcd(old_r, r) == Gcd(a0, m)
      invariant Cong(a * old_s, old_r, m) && Cong(a * s, r, m)
      decreases r
    {
      var q := old_r / r;
      BezoutStep(a, old_r, r, old_s, s, m);
      GcdStep(old_r, r);
      old_r, r := r, old_r - q * r;
      old_s, s := s, old_s - q * s;
    }
    GcdStep(old_r, 0);
    if old_r != 1 {
      return Err(NotInvertible);
    }
    var x := JsRem(JsRem(old_s, m) + m, m);
    JsResidue(old_s, m);
    InverseResidue(a, a0, old_s, x, m);
    return Ok(x);
  }

  lemma GcdStep(a: nat, b: nat)
    ensures Gcd(a, b) == if b == 0 then a else Gcd(b, a % b)
  {}

  lemma EuclidStart(a: int, a0: int, m: int)
    requires m > 0 && Cong(a0, a, m)
    ensures Cong(a * 1, a0, m) && Cong(a * 0, m, m)
  {
    CongIntro(m, a * 0, 1, m);
  }

  /** The residue of the final cofactor is the inverse. */
  lemma InverseResidue(a: int, a0: nat, s: int, x: int, m: int)
    requires m > 1 && Cong(a0, a, m) && Cong(a * s, 1, m) && x == s % m && Coprime(a0, m)
    ensures x == ModInv(a0, m) && Cong(a * x, 1, m)
  {
    CongMod(s, m);
    CongSelf(a, m);
    CongMul(a, a, x, s, m);
    CongMulRight(a0, a, x, m);
    InverseUnique(a0, x, ModInv(a0, m), m);
  }

  lemma BezoutStep(a: int, old_r: nat, r: nat, old_s: int, s: int, m: int)
    requires m > 0 && r > 0 && Cong(a * old_s, old_r, m) && Cong(a * s, r, m)
    ensures var q := old_r / r;
      old_r - q * r == old_r % r && Cong(a * (old_s - q * s), old_r - q * r, m)
  {
    hide Cong;
    var q := old_r / r;
    QuotientRemainder(old_r, r);
    CofactorCong(a * old_s, old_r, a * s, r, q, m);
    CofactorStep(a, old_s, q, s);
  }

  lemma CofactorCong(x: int, x': int, y: int, y': int, q: int, m: int)
    requires m > 0 && Cong(x, x', m) && Cong(y, y', m)
    ensures Cong(x - y * q, x' - y' * q, m)
  {
    CongMulRight(y, y', q, m);
    CongAdd(x, x', y * q, y' * q, m);
  }

  lemma QuotientRemainder(x: nat, y: nat)
    requires y > 0
    ensures x - (x / y) * y == x % y && (x / y) * y == y * (x / y)
  {}

  lemma CofactorStep(a: int, old_s: int, q: int, s: int)
    ensures a * (old_s - q * s) == a * old_s - (a * s) * q
  {
    assert a * (q * s) == (a * s) * q;
  }

  method GcdLoop(a0: nat, b0: nat) returns (a: nat)
    ensures a == Gcd(a0, b0)
    ensures a0 > 0 || b0 > 0 ==> a > 0 && Divides(a, a0) && Divides(a, b0)
    ensures forall d :: d > 0 && Divides(d, a0) && Divides(d, b0) ==> Divides(d, a)
  {
    a := a0;
    var b: nat := b0;
    while b != 0
      invariant Gcd(a, b) == Gcd(a0, b0)
      decreases b
    {
      a, b := b, a % b;
    }
    if a0 > 0 || b0 > 0 {
      GcdDivides(a0, b0);
    }
    forall d | d > 0 && Divides(d, a0) && Divides(d, b0) ensures Divides(d, a) {
      GcdGreatest(a0, b0, d);
    }
  }

  // ---- Buffers ----

  function Flatten(parts: seq<Octets>): Octets
  {
    if |parts| == 0 then [] else Flatten(parts[..|parts| - 1]) + parts[|parts| - 1]
  }

  function TotalLength(parts: seq<Octets>): nat
  {
    if |parts| == 0 then 0 else TotalLength(parts[..|parts| - 1]) + |parts[|parts| - 1]|
  }

  lemma {:induction false} FlattenLength(parts: seq<Octets>)
    ensures |Flatten(parts)| == TotalLength(parts)
  {
    if |parts| > 0 {
      FlattenLength(parts[..|parts| - 1]);
    }
  }

  lemma {:induction false} TotalLengthMonotone(parts: seq<Octets>, i: nat)
    requires i <= |parts|
    ensures TotalLength(parts[..i]) <= TotalLength(parts)
    decreases |parts| - i
  {
    if i < |parts| {
      assert parts[..i + 1][..i] == parts[..i];
      TotalLengthMonotone(parts, i + 1);
    } else {
      assert parts[..i] == parts;
    }
  }

  /** out.set(src, at) */
  method SetAt(out: array<Octet>, src: Octets, at: nat)
    requires at + |src| <= out.Length
    modifies out
    ensures out[..] == old(out[..at]) + src + old(out[at + |src|..])
  {
    forall k | 0 <= k < |src| {
      out[at + k] := src[k];
    }
  }

  /** concat: one buffer of the total length, filled part by part. */
  method Concat(parts: seq<Octets>) returns (r: Octets)
    ensures r == Flatten(parts)
  {
    var len := 0;
    for i := 0 to |parts|
      invariant len == TotalLength(parts[..i])
    {
      assert parts[..i + 1][..i] == parts[..i];
      len := len + |parts[i]|;
    }
    assert parts[..|parts|] == parts;
    var out := new Octet[len](_ => 0);
    var o := 0;
    for i := 0 to |parts|
      invariant o == TotalLength(parts[..i]) && o <= out.Length
      invariant out[..o] == Flatten(parts[..i])
    {
      assert parts[..i + 1][..i] == parts[..i];
      TotalLengthMonotone(parts, i + 1);
      SetAt(out, parts[i], o);
      assert out[..o + |parts[i]|] == Flatten(parts[..i]) + parts[i];
      o := o + |parts[i]|;
    }
    assert parts[..|parts|] == parts;
    return out[..];
  }

  lemma Flatten3(x: Octets, y: Octets, z: Octets)
    ensures Flatten([x, y, z]) == x + y + z
  {
    assert [x, y, z][..2] == [x, y] && [x, y][..1] == [x] && [x][..0] == [];
    assert Flatten([x]) == [] + x == x;
  }

  lemma Flatten2(x: Octets, y: Octets)
    ensures Flatten([x, y]) == x + y
  {
    assert [x, y][..1] == [x] && [x][..0] == [];
    assert Flatten([x]) == [] + x == x;
  }

  // ---- MGF1 and EMSA-PSS ----

  /** A mask short enough that the 32-bit counter never wraps. */
  predicate CounterFits(maskLen: nat)
  {
    CeilDiv(maskLen, HASH_LEN) <= MAX_MASK_BLOCKS
  }

  /** mgf1: streams blocks into the buffer; setUint32 wraps the counter at 2^32. */
  method Mgf1Stream(h: Sha384, seed: Octets, maskLen: nat) returns (r: Octets)
    ensures |r| == maskLen
    ensures CounterFits(maskLen) ==> Mgf1(h, seed, maskLen).Ok? && r == Mgf1(h, seed, maskLen).value
  {
    hide MaskBlock, MaskStream, Hash;
    var out := new Octet[maskLen](_ => 0);
    var counter, pos := 0, 0;
    while pos < maskLen
      invariant pos == if counter * HASH_LEN < maskLen then counter * HASH_LEN else maskLen
      invariant counter <= CeilDiv(maskLen, HASH_LEN)
      invariant CounterFits(maskLen) ==> out[..pos] == MaskStream(h, seed, counter)[..pos]
    {
      var block := MaskBlockJs(h, seed, counter);
      var take := if HASH_LEN < maskLen - pos then HASH_LEN else maskLen - pos;
      StreamStep(h, seed, maskLen, counter, pos, take, out[..pos], block);
      ghost var done := out[..pos];
      SetAt(out, block[..take], pos);
      assert out[..pos + take] == done + block[..take];
      pos := pos + take;
      counter := counter + 1;
    }
    assert out[..pos] == out[..];
    return out[..];
  }

  /** Appending one block, cut to what is still missing, extends the stream. */
  lemma StreamStep(h: Sha384, seed: Octets, maskLen: nat, counter: nat, pos: nat, take: nat, done: Octets,
      block: Octets)
    requires pos == counter * HASH_LEN < maskLen && take == if HASH_LEN < maskLen - pos then HASH_LEN else maskLen - pos
    requires |block| == HASH_LEN && (counter < MAX_MASK_BLOCKS ==> block == MaskBlock(h, seed, counter))
    requires CounterFits(maskLen) ==> done == MaskStream(h, seed, counter)[..pos]
    ensures counter + 1 <= CeilDiv(maskLen, HASH_LEN)
    ensures pos + take == if (counter + 1) * HASH_LEN < maskLen then (counter + 1) * HASH_LEN else maskLen
    ensures CounterFits(maskLen) ==> done + block[..take] == MaskStream(h, seed, counter + 1)[..pos + take]
  {
    if CounterFits(maskLen) {
      StreamExtend(h, seed, counter, take);
    }
  }

  method MaskBlockJs(h: Sha384, seed: Octets, counter: nat) returns (block: Octets)
    ensures |block| == HASH_LEN
    ensures counter < MAX_MASK_BLOCKS ==> block == MaskBlock(h, seed, counter)
  {
    var c := Counter(counter % MAX_MASK_BLOCKS);
    var input := Concat([seed, c]);
    Flatten2(seed, c);
    return Hash(h, input);
  }

  lemma StreamExtend(h: Sha384, seed: Octets, counter: nat, take: nat)
    requires counter < MAX_MASK_BLOCKS && take <= HASH_LEN
    ensures MaskStream(h, seed, counter + 1)[..counter * HASH_LEN + take]
         == MaskStream(h, seed, counter)[..counter * HASH_LEN] + MaskBlock(h, seed, counter)[..take]
  {}

  /** emsaPssEncode */
  method EncodeJs(h: Sha384, message: Octets, emBits: nat, salt: Octets) returns (res: Result<Octets, RsaError>)
    ensures CounterFits(CeilDiv(emBits, 8)) ==> res == Encode(h, message, emBits, salt)
  {
    hide Mgf1, Masked, Hash;
    var mHash := Hash(h, message);
    var emLen := CeilDiv(emBits, 8);
    var sLen := |salt|;
    if emLen < HASH_LEN + sLen + 2 {
      return Err(EncodingError);
    }
    var mPrime := Concat([Zeros(8), mHash, salt]);
    Flatten3(Zeros(8), mHash, salt);
    var hash := Hash(h, mPrime);
    var ps := Zeros(emLen - sLen - HASH_LEN - 2);
    var db := Concat([ps, [1], salt]);
    Flatten3(ps, [1], salt);
    var dbMask := Mgf1Stream(h, hash, emLen - HASH_LEN - 1);
    var topBits := 8 * emLen - emBits;
    var maskedDb := MaskInPlace(db, dbMask, topBits);
    var em := Concat([maskedDb, hash, [TRAILER]]);
    Flatten3(maskedDb, hash, [TRAILER]);
    EncodeShape(h, message, emBits, salt);
    return Ok(em);
  }

  /** The xor loop and the clearing of the first octet. */
  method MaskInPlace(db: Octets, mask: Octets, top: nat) returns (r: Octets)
    requires |db| == |mask| > 0 && top < 8
    ensures r == Masked(db, mask, top)
  {
    var out := new Octet[|db|](_ => 0);
    for i := 0 to |db|
      invariant out[..i] == XorSeq(db, mask)[..i]
    {
      out[i] := Xor(db[i], mask[i]);
      assert out[..i + 1] == out[..i] + [out[i]];
    }
    assert out[..] == XorSeq(db, mask);
    out[0] := KeepLow(out[0], top);
    assert out[1..] == XorSeq(db, mask)[1..];
    return out[..];
  }

  // ---- blindWith and finalize ----

  /** blindWith agrees with the Python blinding for the same salt and factor. */
  method BlindWithJs(h: Sha384, pub: PublicKey, message: Octets, salt: Octets, r: nat)
    returns (res: Result<Blinding, RsaError>)
    requires pub.n > 1
    ensures CounterFits(OctetLength(pub.n)) ==>
      res == if Coprime(r, pub.n) then BlindWith(h, pub, message, salt, r)
             else var m := EncodedMessage(h, pub, message, salt);
                  Err(if m.Err? then m.error else FactorNotCoprime)
  {
    hide Encode, Os2ip, BitLength, BlindInteger, Gcd;
    var encoded :- EncodeJs(h, message, BitLength(pub.n) - 1, salt);
    var m := Os2ipLoop(encoded);
    var g := GcdLoop(m, pub.n);
    if g != 1 {
      return Err(MessageNotCoprime);
    }
    g := GcdLoop(r, pub.n);
    if g != 1 {
      return Err(FactorNotCoprime);
    }
    var b := BlindIntegerJs(pub, m, r);
    return Ok(b);
  }

  /** The arithmetic of blindWith once both coprimality checks have passed. */
  method BlindIntegerJs(pub: PublicKey, m: nat, r: nat) returns (b: Blinding)
    requires pub.n > 1 && Coprime(r, pub.n)
    ensures b == BlindInteger(pub, m, r)
  {
    hide Cong, Gcd, I2osp;
    GcdOfResidue(r, pub.n);
    var inv := ModInverse(r, pub.n);
    var re := ModPow(r, pub.e, pub.n);
    PowModZero(r, pub.n);
    var z := (m * re) % pub.n;
    BelowModulusFits(z, pub.n);
    var blinded := I2ospLoop(z, OctetLength(pub.n));
    return Blinding(blinded.value, inv.value);
  }

  lemma PowModZero(r: int, n: nat)
    requires n > 1
    ensures PowMod(r, 0, n) == 1
  {
    DivModUnique(1, 0, 1, n);
  }

  /** Coprimality and the inverse depend only on the residue. */
  lemma GcdOfResidue(r: nat, n: nat)
    requires n > 1 && Coprime(r, n)
    ensures Coprime(r % n, n) && ModInv(r % n, n) == ModInv(r, n)
  {
    CongMod(r, n);
    CoprimeCong(r, r % n, n);
    var x := ModInv(r % n, n);
    CongMul(r % n, r, x, x, n);
    InverseUnique(r, x, ModInv(r, n), n);
  }

  method FinalizeJs(h: Sha384, pub: PublicKey, message: Octets, blindSig: Octets, inv: nat)
    returns (res: Result<Octets, RsaError>)
    requires pub.n > 1
    ensures res == Finalize(h, pub, message, blindSig, inv)
  {
    if |blindSig| != OctetLength(pub.n) {
      return Err(BadLength);
    }
    var z := Os2ipLoop(blindSig);
    var s := JsRem(z * inv, pub.n);
    BelowModulusFits(s, pub.n);
    var sig := I2ospLoop(s, OctetLength(pub.n));
    if !PssVerify(h, pub, message, sig.value) {
      return Err(InvalidSignature);
    }
    return Ok(sig.value);
  }
}
