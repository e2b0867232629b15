// Primes: Euclid's lemma, Fermat's little theorem, and the step from two
// prime moduli to their product.
module Primes {
  import opened Arithmetic

  ghost predicate IsPrime(p: int)
  {
    p >= 2 && forall d :: 2 <= d < p ==> !Divides(d, p)
  }

  lemma PrimeCoprime(p: int, a: int)
    requires IsPrime(p) && a >= 0 && !Divides(p, a)
    ensures Coprime(a, p)
  {
    GcdDivides(a, p);
    var g := Gcd(a, p);
    if g > p {
      DivModUnique(p, 0, p, g);
      assert false;
    }
  }

  lemma EuclidLemma(p: int, a: int, b: int)
    requires IsPrime(p) && a >= 0 && Divides(p, a * b)
    ensures Divides(p, a) || Divides(p, b)
  {
    if !Divides(p, a) {
      PrimeCoprime(p, a);
      CongIntro(a * 0, a * b, -((a * b) / p), p);
      CongCancel(a, b, 0, p);
      DivModUnique(0, 0, 0, p);
    }
  }

  /** Two distinct primes dividing x divide it together. */
  lemma PrimeProductDivides(p: int, q: int, x: int)
    requires IsPrime(p) && IsPrime(q) && p != q
    requires Divides(p, x) && Divides(q, x)
    ensures p * q > 0 && Divides(p * q, x)
  {
    var k := x / p;
    assert x == p * k;
    MulPositive(p, q);
    if Divides(q, p) {
      if q < p { assert false; }
      DivModUnique(p, 0, p, q);
      assert false;
    }
    EuclidLemma(q, p, k);
    assert k == (k / q) * q;
    assert x == (k / q) * (p * q);
    DividesIntro(p * q, x, k / q);
  }

  // ---- Products over sets of residues ----

  ghost function Pick<T>(s: set<T>): (x: T)
    requires s != {}
    ensures x in s
  {
    assert !(s <= {});
    var x :| x in s;
    x
  }

  /** A subset of the same size is the whole set. */
  lemma {:induction false} SubsetSize<T>(s: set<T>, t: set<T>)
    requires s <= t
    ensures |s| <= |t|
    ensures |s| == |t| ==> s == t
    decreases s
  {
    if s == {} {
      assert |t| == 0 ==> t == {};
    } else {
      var x := Pick(s);
      SubsetSize(s - {x}, t - {x});
      assert s == (s - {x}) + {x} && t == (t - {x}) + {x};
    }
  }

  ghost function Product(s: set<int>): int
  {
    if s == {} then 1
    else
      var x := Pick(s);
      x * Product(s - {x})
  }

  lemma MulSwap(x: int, y: int, z: int)
    ensures x * (y * z) == y * (x * z)
  {}

  lemma {:induction false} ProductRemove(s: set<int>, y: int)
    requires y in s
    ensures Product(s) == y * Product(s - {y})
    decreases s
  {
    var x := Pick(s);
    if x != y {
      ProductRemove(s - {x}, y);
      ProductRemove(s - {y}, x);
      assert s - {x} - {y} == s - {y} - {x};
      MulSwap(x, y, Product(s - {x} - {y}));
    }
  }

  ghost function Times(a: int, s: set<int>, p: int): set<int>
    requires p > 0
  {
    set x | x in s :: (a * x) % p
  }

  ghost predicate Residues(s: set<int>, p: int)
  {
    forall x :: x in s ==> 0 < x < p
  }

  lemma TimesInjective(a: nat, x: int, y: int, p: int)
    requires IsPrime(p) && Coprime(a, p) && 0 <= x < p && 0 <= y < p
    requires (a * x) % p == (a * y) % p
    ensures x == y
  {
    CongCancel(a, x, y, p);
    CongSmall(x, y, p);
  }

  lemma TimesNonzero(a: nat, x: int, p: int)
    requires IsPrime(p) && Coprime(a, p) && 0 < x < p
    ensures 0 < (a * x) % p < p
  {
    if (a * x) % p == 0 {
      assert a * 0 == 0;
      DivModUnique(0, 0, 0, p);
      TimesInjective(a, x, 0, p);
      assert false;
    }
  }

  /** Multiplying residues by a unit a scales their product by a^|s|. */
  lemma {:induction false} TimesProduct(a: nat, s: set<int>, p: int)
    requires IsPrime(p) && Coprime(a, p) && Residues(s, p)
    ensures Residues(Times(a, s, p), p) && |Times(a, s, p)| == |s|
    ensures Cong(Product(Times(a, s, p)), Pow(a, |s|) * Product(s), p)
    decreases s
  {
    if s == {} {
      assert Times(a, s, p) == {};
    } else {
      var x := Pick(s);
      TimesProduct(a, s - {x}, p);
      TimesProductAdd(a, s - {x}, x, p);
      assert s == (s - {x}) + {x};
    }
  }

  lemma TimesProductAdd(a: nat, s: set<int>, x: int, p: int)
    requires IsPrime(p) && Coprime(a, p) && Residues(s, p) && 0 < x < p && x !in s
    requires Residues(Times(a, s, p), p) && |Times(a, s, p)| == |s|
    requires Cong(Product(Times(a, s, p)), Pow(a, |s|) * Product(s), p)
    ensures Residues(Times(a, s + {x}, p), p) && |Times(a, s + {x}, p)| == |s + {x}|
    ensures Cong(Product(Times(a, s + {x}, p)), Pow(a, |s + {x}|) * Product(s + {x}), p)
  {
    hide IsPrime, Coprime, Cong, Times, Product;
    var fx := (a * x) % p;
    TimesAdd(a, s, x, p);
    TimesNonzero(a, x, p);
    TimesProductStep(a, x, fx, Product(Times(a, s, p)), Pow(a, |s|), Product(s), p);
    ProductRemove(Times(a, s + {x}, p), fx);
    ProductRemove(s + {x}, x);
    assert s + {x} - {x} == s;
    assert |s + {x}| == |s| + 1;
  }

  lemma TimesAdd(a: nat, s: set<int>, x: int, p: int)
    requires IsPrime(p) && Coprime(a, p) && Residues(s, p) && 0 < x < p && x !in s
    ensures (a * x) % p !in Times(a, s, p)
    ensures Times(a, s + {x}, p) == Times(a, s, p) + {(a * x) % p}
    ensures Times(a, s + {x}, p) - {(a * x) % p} == Times(a, s, p)
  {
    var fx := (a * x) % p;
    forall y | y in s && (a * y) % p == fx ensures false {
      TimesInjective(a, x, y, p);
    }
  }

  lemma TimesProductStep(a: nat, x: int, fx: int, t: int, e: int, s: int, p: int)
    requires p > 0 && fx == (a * x) % p && Cong(t, e * s, p)
    ensures Cong(fx * t, (a * e) * (x * s), p)
  {
    CongMod(a * x, p);
    CongMul(fx, a * x, t, e * s, p);
    MulExchange(a, x, e, s);
  }

  /** The residues 1, ..., n. */
  function Upto(n: nat): (s: set<int>)
    ensures |s| == n && forall x :: x in s <==> 0 < x <= n
  {
    if n == 0 then {} else Upto(n - 1) + {n}
  }

  lemma ProductCoprime(s: set<int>, p: int)
    requires IsPrime(p) && Residues(s, p)
    ensures Product(s) >= 0 && Coprime(Product(s), p)
    decreases s
  {
    if s == {} {
      CoprimeFromCombination(1, p, 1, 0);
    } else {
      var x := Pick(s);
      ProductCoprime(s - {x}, p);
      DivModUnique(x, 0, x, p);
      PrimeCoprime(p, x);
      CoprimeProduct(x, Product(s - {x}), p);
    }
  }

  /** Multiplying by a unit permutes the nonzero residues. */
  lemma TimesUpto(a: nat, p: int)
    requires IsPrime(p) && Coprime(a, p)
    ensures Residues(Upto(p - 1), p) && Times(a, Upto(p - 1), p) == Upto(p - 1)
  {
    assert p > 1;
    hide IsPrime, Coprime, Cong, Product, Times, Pow;
    var s := Upto(p - 1);
    hide Upto;
    TimesProduct(a, s, p);
    assert Times(a, s, p) <= s;
    SubsetSize(Times(a, s, p), s);
  }

  /** The product of the nonzero residues does not change when each is multiplied by a. */
  lemma ResidueProduct(a: nat, p: int) returns (q: nat)
    requires IsPrime(p) && Coprime(a, p)
    ensures Coprime(q, p) && p > 1 && Cong(q, Pow(a, p - 1) * q, p)
  {
    assert p > 1;
    hide IsPrime, Coprime, Cong, Times, Pow;
    var s := Upto(p - 1);
    assert |s| == p - 1;
    TimesUpto(a, p);
    hide Upto;
    TimesProduct(a, s, p);
    ProductCoprime(s, p);
    hide Residues, Product;
    q := Product(s);
  }

  /** Fermat's little theorem. */
  lemma Fermat(p: int, a: nat)
    requires IsPrime(p) && !Divides(p, a)
    ensures Cong(Pow(a, p - 1), 1, p)
  {
    PrimeCoprime(p, a);
    hide IsPrime, Coprime, Divides, Cong, Pow;
    var q := ResidueProduct(a, p);
    CancelProduct(q, Pow(a, p - 1), p);
  }

  lemma CancelProduct(q: nat, x: int, p: int)
    requires p > 1 && Coprime(q, p) && Cong(q, x * q, p)
    ensures Cong(x, 1, p)
  {
    assert x * q == q * x && q == q * 1;
    CongCancel(q, x, 1, p);
  }

  /** Raising to an exponent that is 1 mod p - 1 changes nothing mod p. */
  lemma FermatExponent(p: int, a: nat, k: nat)
    requires IsPrime(p) && k >= 1 && Divides(p - 1, k - 1)
    ensures Cong(Pow(a, k), a, p)
  {
    if Divides(p, a) {
      DivModUnique(0, 0, 0, p);
      CongMul(a, 0, Pow(a, k - 1), Pow(a, k - 1), p);
    } else {
      var j := (k - 1) / (p - 1);
      assert k - 1 == (p - 1) * j;
      PowMul(a, p - 1, j);
      Fermat(p, a);
      CongPow(Pow(a, p - 1), 1, j, p);
      PowOne(j);
      CongMul(a, a, Pow(a, k - 1), 1, p);
    }
  }

  lemma PowOne(e: nat)
    ensures Pow(1, e) == 1
  {}
}
