// RSABSSA-SHA384-PSS-Deterministic (section 4 of RFC 9474) as written in
// blindage/crypto/rsabssa.py: blind, blind_sign and finalize, their
// completeness, and the perfect hiding of the message.
module BlindRsa {
  import opened Arithmetic
  import opened Primes
  import opened Octets
  import opened EmsaPss
  import opened Results

  datatype PublicKey = PublicKey(n: nat, e: nat)
  datatype PrivateKey = PrivateKey(n: nat, e: nat, d: nat)

  function Lcm(a: nat, b: nat): (m: nat)
    requires a > 0 && b > 0
    ensures m > 0 && Divides(a, m) && Divides(b, m)
  {
    GcdDivides(a, b);
    var g := Gcd(a, b);
    var k, l := a / g, b / g;
    assert a == k * g && b == l * g;
    assert k * b == l * a by { assert k * (l * g) == l * (k * g); }
    DividesIntro(b, k * b, k);
    DividesIntro(a, k * b, l);
    assert k > 0;
    MulPositive(k, b);
    k * b
  }

  /** n = p * q and e * d = 1 mod lcm(p - 1, q - 1). */
  ghost predicate KeyPair(p: int, q: int, key: PrivateKey)
  {
    && IsPrime(p) && IsPrime(q) && p != q
    && key.n == p * q
    && key.e * key.d >= 1
    && Divides(Lcm(p - 1, q - 1), key.e * key.d - 1)
  }

  // ---- The RSA permutation ----

  /** Key pairs exist: p = 3, q = 11, e = 3, d = 7. */
  lemma KeyPairExample()
    ensures KeyPair(3, 11, PrivateKey(33, 3, 7))
  {
    var key := PrivateKey(33, 3, 7);
    assert Gcd(2, 10) == 2;
  }

  lemma DividesTransitive(a: int, b: int, x: int)
    requires a > 0 && b > 0 && Divides(a, b) && Divides(b, x)
    ensures Divides(a, x)
  {
    var k, l := b / a, x / b;
    assert b == k * a && x == l * b;
    assert x == (l * k) * a by { assert l * (k * a) == (l * k) * a; }
    DividesIntro(a, x, l * k);
  }

  lemma ModulusLarge(p: int, q: int, key: PrivateKey)
    requires KeyPair(p, q, key)
    ensures key.n >= 6
  {
    if p == 2 {
      MulMonotone(3, q, 2);
    } else {
      MulMonotone(3, p, q);
    }
  }

  /** x^(e*d) = x mod n for every x: Fermat modulo each prime, then their product. */
  lemma RsaIdentity(p: int, q: int, key: PrivateKey, x: nat)
    requires KeyPair(p, q, key)
    ensures key.n > 0 && Cong(Pow(x, key.e * key.d), x, key.n)
  {
    ModulusLarge(p, q, key);
    var k := key.e * key.d;
    DividesTransitive(p - 1, Lcm(p - 1, q - 1), k - 1);
    DividesTransitive(q - 1, Lcm(p - 1, q - 1), k - 1);
    FermatExponent(p, x, k);
    FermatExponent(q, x, k);
    var diff := Pow(x, k) - x;
    DividesCong(Pow(x, k), x, p);
    DividesCong(Pow(x, k), x, q);
    PrimeProductDivides(p, q, diff);
    DividesCong(Pow(x, k), x, key.n);
  }

  function PowMod(b: int, e: nat, n: int): (r: int)
    requires n > 0
    ensures 0 <= r < n
  {
    Pow(b, e) % n
  }

  /** Raising to d and then e, or e and then d, gives the residue back. */
  lemma RsaInverse(p: int, q: int, key: PrivateKey, x: nat)
    requires KeyPair(p, q, key)
    ensures key.n > 0
    ensures PowMod(PowMod(x, key.d, key.n), key.e, key.n) == x % key.n
    ensures PowMod(PowMod(x, key.e, key.n), key.d, key.n) == x % key.n
  {
    RsaIdentity(p, q, key, x);
    PowModPow(x, key.d, key.e, key.n);
    PowModPow(x, key.e, key.d, key.n);
    assert key.d * key.e == key.e * key.d;
  }

  lemma PowModPow(x: int, a: nat, b: nat, n: int)
    requires n > 0
    ensures 0 <= a * b && PowMod(PowMod(x, a, n), b, n) == Pow(x, a * b) % n
  {
    PowMul(x, a, b);
    CongMod(Pow(x, a), n);
    CongPow(Pow(x, a) % n, Pow(x, a), b, n);
  }

  // ---- blind, blind_sign, finalize ----

  /** z = m * r^e mod n */
  function BlindedValue(m: int, r: int, pub: PublicKey): (z: int)
    requires pub.n > 0
    ensures 0 <= z < pub.n
  {
    (m * PowMod(r, pub.e, pub.n)) % pub.n
  }

  /** s * inv mod n */
  function Unblinded(s: int, inv: int, n: nat): (t: int)
    requires n > 0
    ensures 0 <= t < n
  {
    (s * inv) % n
  }

  datatype Blinding = Blinding(blinded: Octets, inv: nat)

  /** The message as the integer m that blind works on. */
  function EncodedMessage(h: Sha384, pub: PublicKey, message: Octets, salt: Octets): Result<nat, RsaError>
    requires pub.n > 1
  {
    var encoded :- Encode(h, message, BitLength(pub.n) - 1, salt);
    var m := Os2ip(encoded);
    if Coprime(m, pub.n) then Ok(m) else Err(MessageNotCoprime)
  }

  function BlindInteger(pub: PublicKey, m: nat, r: nat): Blinding
    requires pub.n > 1 && Coprime(r, pub.n)
  {
    var z := BlindedValue(m, r, pub);
    BelowModulusFits(z, pub.n);
    Blinding(I2osp(z, OctetLength(pub.n)), ModInv(r, pub.n))
  }

  /** What blind returns once it has settled on the salt and the factor r. */
  function BlindWith(h: Sha384, pub: PublicKey, message: Octets, salt: Octets, r: nat): Result<Blinding, RsaError>
    requires pub.n > 1 && Coprime(r, pub.n)
  {
    var m :- EncodedMessage(h, pub, message, salt);
    Ok(BlindInteger(pub, m, r))
  }

  /** Index of the first usable factor among the draws r = randbelow(n - 1) + 1. */
  function FirstCoprime(draws: seq<nat>, n: nat): (r: Option<nat>)
    ensures r.Some? ==> Coprime(r.value, n)
  {
    if |draws| == 0 then None
    else if Coprime(draws[0] + 1, n) then Some(draws[0] + 1)
    else FirstCoprime(draws[1..], n)
  }

  /** blind: salt and random draws are inputs; NoDraw means the draws given ran out. */
  method Blind(h: Sha384, pub: PublicKey, message: Octets, salt: Octets, draws: seq<nat>)
    returns (res: Result<Blinding, RsaError>)
    requires pub.n > 1
    ensures match FirstCoprime(draws, pub.n)
      case Some(r) => res == BlindWith(h, pub, message, salt, r)
      case None =>
        var m := EncodedMessage(h, pub, message, salt);
        res == Err(if m.Err? then m.error else NoDraw)
  {
    var m :- EncodedMessage(h, pub, message, salt);
    var i := 0;
    while i < |draws|
      invariant i <= |draws|
      invariant FirstCoprime(draws, pub.n) == FirstCoprime(draws[i..], pub.n)
    {
      var r := draws[i] + 1;
      if Gcd(r, pub.n) == 1 {
        return Ok(BlindInteger(pub, m, r));
      }
      assert draws[i..][1..] == draws[i + 1..];
      i := i + 1;
    }
    return Err(NoDraw);
  }

  /** blind_sign, with its range check and the check of the raw signature. */
  function BlindSign(key: PrivateKey, blinded: Octets): Result<Octets, RsaError>
    requires key.n > 1
  {
    var m := Os2ip(blinded);
    if m >= key.n || m <= 1 then Err(OutOfRange)
    else
      var s := PowMod(m, key.d, key.n);
      BelowModulusFits(s, key.n);
      if PowMod(s, key.e, key.n) != m then Err(SigningFailure)
      else Ok(I2osp(s, OctetLength(key.n)))
  }

  /** RSASSA-PSS-VERIFY, section 8.1.2 of RFC 8017. */
  predicate PssVerify(h: Sha384, pub: PublicKey, message: Octets, signature: Octets)
    requires pub.n > 1
  {
    |signature| == OctetLength(pub.n) &&
    var s := Os2ip(signature);
    var emBits := BitLength(pub.n) - 1;
    s < pub.n &&
    var m := PowMod(s, pub.e, pub.n);
    m < Pow(256, CeilDiv(emBits, 8)) &&
    Verify(h, message, I2osp(m, CeilDiv(emBits, 8)), emBits, SALT_LEN)
  }

  /** finalize: unblind, then verify before returning. */
  function Finalize(h: Sha384, pub: PublicKey, message: Octets, blindSig: Octets, inv: int): Result<Octets, RsaError>
    requires pub.n > 1
  {
    if |blindSig| != OctetLength(pub.n) then Err(BadLength)
    else
      var s := Unblinded(Os2ip(blindSig), inv, pub.n);
      BelowModulusFits(s, pub.n);
      var signature := I2osp(s, OctetLength(pub.n));
      if PssVerify(h, pub, message, signature) then Ok(signature) else Err(InvalidSignature)
  }

  // ---- Completeness ----

  /** Unblinding the signature on m * r^e leaves m^d. */
  lemma UnblindedSignature(p: int, q: int, key: PrivateKey, m: nat, r: nat)
    requires KeyPair(p, q, key) && key.n > 1 && Coprime(r, key.n)
    ensures var z := BlindedValue(m, r, PublicKey(key.n, key.e));
      Unblinded(PowMod(z, key.d, key.n), ModInv(r, key.n), key.n) == PowMod(m, key.d, key.n)
  {
    var n, d := key.n, key.d;
    var pub := PublicKey(n, key.e);
    SignedBlinded(p, q, key, m, r);
    CancelFactor(PowMod(BlindedValue(m, r, pub), d, n), Pow(m, d), r, ModInv(r, n), n);
  }

  lemma CancelFactor(s: int, x: int, r: int, inv: int, n: int)
    requires n > 0 && Cong(s, x * r, n) && Cong(r * inv, 1, n)
    ensures (s * inv) % n == x % n
  {
    CongMul(s, x * r, inv, inv, n);
    CongMul(x, x, r * inv, 1, n);
    assert x * r * inv == x * (r * inv);
  }

  /** (m * r^e)^d = m^d * r mod n */
  lemma SignedBlinded(p: int, q: int, key: PrivateKey, m: nat, r: nat)
    requires KeyPair(p, q, key) && key.n > 1
    ensures Cong(PowMod(BlindedValue(m, r, PublicKey(key.n, key.e)), key.d, key.n), Pow(m, key.d) * r, key.n)
  {
    var n, d := key.n, key.d;
    var re := PowMod(r, key.e, n);
    var z := BlindedValue(m, r, PublicKey(n, key.e));
    CongMod(m * re, n);
    CongPow(z, m * re, d, n);
    CongMod(Pow(z, d), n);
    PowProduct(m, re, d);
    RsaInverse(p, q, key, r);
    CongMul(Pow(m, d), Pow(m, d), Pow(re, d), r, n);
  }

  /** The encoded message, read as an integer, is a residue below n. */
  lemma EncodedBelowModulus(h: Sha384, n: nat, message: Octets, salt: Octets)
    requires n > 1 && Encode(h, message, BitLength(n) - 1, salt).Ok?
    ensures Os2ip(Encode(h, message, BitLength(n) - 1, salt).value) < n
  {
    hide Encode, Os2ip, BitLength, Pow;
    EncodingBound(h, message, BitLength(n) - 1, salt);
    BitLengthBounds(n);
  }

  /** m^d is a PSS signature on the encoded message m. */
  lemma RawSignatureVerifies(h: Sha384, p: int, q: int, key: PrivateKey, message: Octets, salt: Octets)
    requires KeyPair(p, q, key) && key.n > 1 && |salt| == SALT_LEN
    requires Encode(h, message, BitLength(key.n) - 1, salt).Ok?
    ensures var m := Os2ip(Encode(h, message, BitLength(key.n) - 1, salt).value);
      var s := PowMod(m, key.d, key.n);
      && PowMod(s, key.e, key.n) == m
      && s < Pow(256, OctetLength(key.n))
      && PssVerify(h, PublicKey(key.n, key.e), message, I2osp(s, OctetLength(key.n)))
  {
    var em := Encode(h, message, BitLength(key.n) - 1, salt).value;
    var m := Os2ip(em);
    EncodedBelowModulus(h, key.n, message, salt);
    RsaInverse(p, q, key, m);
    DivModUnique(m, 0, m, key.n);
    BelowModulusFits(PowMod(m, key.d, key.n), key.n);
    RootVerifies(h, PublicKey(key.n, key.e), message, salt, PowMod(m, key.d, key.n));
  }

  /** Any s < n whose e-th power is the encoded message verifies. */
  lemma RootVerifies(h: Sha384, pub: PublicKey, message: Octets, salt: Octets, s: nat)
    requires pub.n > 1 && |salt| == SALT_LEN && s < pub.n && s < Pow(256, OctetLength(pub.n))
    requires var em := Encode(h, message, BitLength(pub.n) - 1, salt);
      em.Ok? && PowMod(s, pub.e, pub.n) == Os2ip(em.value)
    ensures PssVerify(h, pub, message, I2osp(s, OctetLength(pub.n)))
  {
    hide Encode, Verify, Os2ip, I2osp, BitLength, Pow, PowMod;
    var em := Encode(h, message, BitLength(pub.n) - 1, salt).value;
    Os2ipOfI2osp(s, OctetLength(pub.n));
    I2ospOfOs2ip(em);
    EncodingVerifies(h, message, BitLength(pub.n) - 1, salt);
  }

  /**
   * Completeness: with a matching key pair, blind succeeds whenever the encoded
   * message is coprime to n; blind_sign then accepts exactly when the blinded
   * value is not 1, never hitting its signing-failure check; and finalize then
   * returns m^d, which PSS verification accepts.
   */
  lemma Completeness(h: Sha384, p: int, q: int, key: PrivateKey, message: Octets, salt: Octets, r: nat)
    requires KeyPair(p, q, key) && key.n > 1
    requires |salt| == SALT_LEN && Coprime(r, key.n)
    requires Encode(h, message, BitLength(key.n) - 1, salt).Ok?
    requires Coprime(Os2ip(Encode(h, message, BitLength(key.n) - 1, salt).value), key.n)
    ensures var pub := PublicKey(key.n, key.e);
      var m := Os2ip(Encode(h, message, BitLength(key.n) - 1, salt).value);
      var b := BlindWith(h, pub, message, salt, r);
      b.Ok? &&
      var s := BlindSign(key, b.value.blinded);
      && s != Err(SigningFailure)
      && (s.Ok? <==> BlindedValue(m, r, pub) != 1)
      && (s.Ok? ==>
          var f := Finalize(h, pub, message, s.value, b.value.inv);
          f.Ok? && PssVerify(h, pub, message, f.value) && Os2ip(f.value) == PowMod(m, key.d, key.n)
          && PowMod(Os2ip(f.value), key.e, key.n) == m)
  {
    var pub := PublicKey(key.n, key.e);
    var m := Os2ip(Encode(h, message, BitLength(key.n) - 1, salt).value);
    var z := BlindedValue(m, r, pub);
    BlindedIsUnit(m, r, pub);
    BelowModulusFits(z, key.n);
    SignBlinded(p, q, key, z);
    if z > 1 {
      UnblindedSignature(p, q, key, m, r);
      FinalizeUnblinded(h, p, q, key, message, salt, PowMod(z, key.d, key.n), ModInv(r, key.n));
    }
  }

  /** blind_sign on the octets of z: refused for 0 and 1 only, otherwise z^d. */
  lemma SignBlinded(p: int, q: int, key: PrivateKey, z: nat)
    requires KeyPair(p, q, key) && key.n > 1 && z < key.n && z < Pow(256, OctetLength(key.n))
    ensures var s := PowMod(z, key.d, key.n);
      s < Pow(256, OctetLength(key.n)) &&
      BlindSign(key, I2osp(z, OctetLength(key.n))) ==
      if z <= 1 then Err(OutOfRange) else Ok(I2osp(s, OctetLength(key.n)))
  {
    Os2ipOfI2osp(z, OctetLength(key.n));
    RsaInverse(p, q, key, z);
    DivModUnique(z, 0, z, key.n);
    BelowModulusFits(PowMod(z, key.d, key.n), key.n);
  }

  lemma FinalizeUnblinded(h: Sha384, p: int, q: int, key: PrivateKey, message: Octets, salt: Octets, s: nat, inv: nat)
    requires KeyPair(p, q, key) && key.n > 1 && s < Pow(256, OctetLength(key.n))
    requires |salt| == SALT_LEN && Encode(h, message, BitLength(key.n) - 1, salt).Ok?
    requires var m := Os2ip(Encode(h, message, BitLength(key.n) - 1, salt).value);
      Unblinded(s, inv, key.n) == PowMod(m, key.d, key.n)
    ensures var pub := PublicKey(key.n, key.e);
      var m := Os2ip(Encode(h, message, BitLength(key.n) - 1, salt).value);
      var f := Finalize(h, pub, message, I2osp(s, OctetLength(key.n)), inv);
      f.Ok? && PssVerify(h, pub, message, f.value)
      && Os2ip(f.value) == PowMod(m, key.d, key.n) && PowMod(Os2ip(f.value), key.e, key.n) == m
  {
    var m := Os2ip(Encode(h, message, BitLength(key.n) - 1, salt).value);
    Os2ipOfI2osp(s, OctetLength(key.n));
    RawSignatureVerifies(h, p, q, key, message, salt);
    Os2ipOfI2osp(PowMod(m, key.d, key.n), OctetLength(key.n));
  }

  // ---- Perfect blinding ----

  lemma BlindedIsUnit(m: nat, r: nat, pub: PublicKey)
    requires pub.n > 1 && Coprime(m, pub.n) && Coprime(r, pub.n)
    ensures Coprime(BlindedValue(m, r, pub), pub.n) && BlindedValue(m, r, pub) > 0
  {
    var n := pub.n;
    CoprimePow(r, pub.e, n);
    var re := PowMod(r, pub.e, n);
    CongMod(Pow(r, pub.e), n);
    CoprimeCong(Pow(r, pub.e), re, n);
    CoprimeProduct(m, re, n);
    CongMod(m * re, n);
    CoprimeCong(m * re, BlindedValue(m, r, pub), n);
    ZeroNotUnit(n);
  }

  lemma ZeroNotUnit(n: nat)
    requires n > 1
    ensures !Coprime(0, n)
  {
    DivModUnique(0, 0, 0, n);
    assert Gcd(0, n) == Gcd(n, 0);
  }

  /** The one factor that blinds m to z: (z / m)^d mod n. */
  function BlindingFactor(key: PrivateKey, m: nat, z: nat): nat
    requires key.n > 1 && Coprime(m, key.n)
  {
    PowMod((z * ModInv(m, key.n)) % key.n, key.d, key.n)
  }

  /**
   * Perfect blinding: for coprime m and z, exactly one unit r in [1, n - 1]
   * blinds m to z, so every blinded value is equally compatible with every message.
   */
  lemma PerfectBlinding(p: int, q: int, key: PrivateKey, m: nat, z: nat, r: nat)
    requires KeyPair(p, q, key) && key.n > 1
    requires Coprime(m, key.n) && Coprime(z, key.n) && z < key.n
    requires 1 <= r < key.n
    ensures Coprime(r, key.n) && BlindedValue(m, r, PublicKey(key.n, key.e)) == z
       <==> r == BlindingFactor(key, m, z)
  {
    var n := key.n;
    var pub := PublicKey(n, key.e);
    var w := (z * ModInv(m, n)) % n;
    QuotientFacts(m, z, n);
    if BlindedValue(m, r, pub) == z {
      // m * r^e = z = m * w, so r^e = w and r = w^d
      CongMod(m * PowMod(r, key.e, n), n);
      CongCancel(m, PowMod(r, key.e, n), w, n);
      CongSmall(PowMod(r, key.e, n), w, n);
      RsaInverse(p, q, key, r);
      DivModUnique(r, 0, r, n);
    }
    if r == BlindingFactor(key, m, z) {
      RsaInverse(p, q, key, w);
      DivModUnique(w, 0, w, n);
      CoprimePow(w, key.d, n);
      CongMod(Pow(w, key.d), n);
      CoprimeCong(Pow(w, key.d), r, n);
      DivModUnique(z, 0, z, n);
    }
  }

  lemma QuotientFacts(m: nat, z: nat, n: nat)
    requires n > 1 && Coprime(m, n) && Coprime(z, n)
    ensures var w := (z * ModInv(m, n)) % n;
      0 <= w < n && Cong(m * w, z, n) && Coprime(w, n)
  {
    var i := ModInv(m, n);
    var w := (z * i) % n;
    CongMod(z * i, n);
    CongMul(m, m, w, z * i, n);
    CongMul(m * i, 1, z, z, n);
    assert m * (z * i) == (m * i) * z;
    assert i * m == m * i;
    InverseCoprime(i, n, m);
    CoprimeProduct(z, i, n);
    CoprimeCong(z * i, w, n);
  }

  /** The blinding factor is itself a unit in range, so a match always exists. */
  lemma BlindingFactorInRange(p: int, q: int, key: PrivateKey, m: nat, z: nat)
    requires KeyPair(p, q, key) && key.n > 1 && Coprime(m, key.n) && Coprime(z, key.n) && z < key.n
    ensures 1 <= BlindingFactor(key, m, z) < key.n
  {
    QuotientFacts(m, z, key.n);
    var w := (z * ModInv(m, key.n)) % key.n;
    RsaInverse(p, q, key, w);
    DivModUnique(w, 0, w, key.n);
    ZeroNotUnit(key.n);
    assert key.e >= 1;
    assert Pow(0, key.e) == 0 * Pow(0, key.e - 1);
  }

  /**
   * Every message has the draw that blind_sign refuses: exactly one factor in
   * [1, n - 1] blinds it to 1, and the octets of 1 are out of range.
   */
  lemma RefusedDraw(p: int, q: int, key: PrivateKey, m: nat) returns (r: nat)
    requires KeyPair(p, q, key) && key.n > 1 && Coprime(m, key.n)
    ensures 1 <= r < key.n && Coprime(r, key.n)
    ensures BlindSign(key, BlindInteger(PublicKey(key.n, key.e), m, r).blinded) == Err(OutOfRange)
    ensures forall s: nat | 1 <= s < key.n ::
      Coprime(s, key.n) && BlindedValue(m, s, PublicKey(key.n, key.e)) == 1 <==> s == r
  {
    var n := key.n;
    OneIsUnit(n);
    hide PowMod, Pow, ModInv, Coprime, I2osp, Os2ip, OctetLength, KeyPair, BlindedValue;
    BlindingFactorInRange(p, q, key, m, 1);
    r := BlindingFactor(key, m, 1);
    PerfectBlinding(p, q, key, m, 1, r);
    BelowModulusFits(1, n);
    Os2ipOfI2osp(1, OctetLength(n));
    forall s: nat | 1 <= s < n
      ensures Coprime(s, n) && BlindedValue(m, s, PublicKey(n, key.e)) == 1 <==> s == r
    {
      PerfectBlinding(p, q, key, m, 1, s);
    }
  }

  lemma OneIsUnit(n: nat)
    requires n > 1
    ensures Coprime(1, n)
  {
    GcdDivides(1, n);
    DividesOne(Gcd(1, n));
  }
}
