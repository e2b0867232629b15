// Abelian groups of prime exponent and pairings, given by their operations and
// the laws the proofs use. Each law is a named predicate, so that a proof
// states which instance it appeals to.
module Groups {
  import opened Arithmetic
  import opened Primes

  datatype Group<!G> = Group(zero: G, add: (G, G) -> G, neg: G -> G) {

    ghost predicate Associative(x: G, y: G, z: G)
    {
      add(add(x, y), z) == add(x, add(y, z))
    }

    ghost predicate Commutative(x: G, y: G)
    {
      add(x, y) == add(y, x)
    }

    ghost predicate Unit(x: G)
    {
      add(x, zero) == x
    }

    ghost predicate Opposite(x: G)
    {
      add(x, neg(x)) == zero
    }

    /** n-fold sum. */
    function Multiple(n: nat, x: G): G
    {
      if n == 0 then zero else add(Multiple(n - 1, x), x)
    }

    ghost predicate HasOrder(r: nat, x: G)
    {
      Multiple(r, x) == zero
    }

    /** Scalar multiplication; scalars count modulo the order r. */
    function Mul(r: nat, k: int, x: G): G
      requires r > 0
    {
      Multiple(k % r, x)
    }
  }

  ghost predicate IsGroup<G(!new)>(g: Group<G>, r: int)
  {
    && IsPrime(r)
    && (forall x, y, z :: g.Associative(x, y, z))
    && (forall x, y :: g.Commutative(x, y))
    && (forall x :: g.Unit(x))
    && (forall x :: g.Opposite(x))
    && (forall x :: g.HasOrder(r, x))
  }

  // ---- Group reasoning ----

  lemma ZeroLeft<G(!new)>(g: Group<G>, r: int, x: G)
    requires IsGroup(g, r)
    ensures g.add(g.zero, x) == x
  {
    assert g.Commutative(g.zero, x) && g.Unit(x);
  }

  /** (a + b) + (c + d) = (a + c) + (b + d) */
  lemma Exchange<G(!new)>(g: Group<G>, r: int, a: G, b: G, c: G, d: G)
    requires IsGroup(g, r)
    ensures g.add(g.add(a, b), g.add(c, d)) == g.add(g.add(a, c), g.add(b, d))
  {
    assert g.Associative(a, b, g.add(c, d)) && g.Associative(a, c, g.add(b, d));
    assert g.Associative(b, c, d) && g.Associative(c, b, d) && g.Commutative(b, c);
  }

  lemma Cancel<G(!new)>(g: Group<G>, r: int, x: G, y: G, z: G)
    requires IsGroup(g, r) && g.add(x, z) == g.add(y, z)
    ensures x == y
  {
    assert g.Associative(x, z, g.neg(z)) && g.Associative(y, z, g.neg(z));
    assert g.Opposite(z) && g.Unit(x) && g.Unit(y);
  }

  // ---- Scalar multiplication is linear ----

  lemma {:induction false} MultipleAdd<G(!new)>(g: Group<G>, r: int, m: nat, n: nat, x: G)
    requires IsGroup(g, r)
    ensures g.Multiple(m + n, x) == g.add(g.Multiple(m, x), g.Multiple(n, x))
  {
    if n == 0 {
      assert g.Unit(g.Multiple(m, x));
    } else {
      MultipleAdd(g, r, m, n - 1, x);
      assert g.Associative(g.Multiple(m, x), g.Multiple(n - 1, x), x);
    }
  }

  lemma {:induction false} MultipleOfSum<G(!new)>(g: Group<G>, r: int, n: nat, x: G, y: G)
    requires IsGroup(g, r)
    ensures g.Multiple(n, g.add(x, y)) == g.add(g.Multiple(n, x), g.Multiple(n, y))
  {
    if n == 0 {
      assert g.Unit(g.zero);
    } else {
      MultipleOfSum(g, r, n - 1, x, y);
      Exchange(g, r, g.Multiple(n - 1, x), g.Multiple(n - 1, y), x, y);
    }
  }

  lemma {:induction false} MultipleOfMultiple<G(!new)>(g: Group<G>, r: int, m: nat, n: nat, x: G)
    requires IsGroup(g, r)
    ensures m * n >= 0 && g.Multiple(m, g.Multiple(n, x)) == g.Multiple(m * n, x)
  {
    if m == 0 {
      assert m * n == 0;
    } else {
      MultipleOfMultiple(g, r, m - 1, n, x);
      assert m * n == (m - 1) * n + n;
      MultipleAdd(g, r, (m - 1) * n, n, x);
    }
  }

  lemma {:induction false} MultipleOfZero<G(!new)>(g: Group<G>, r: int, n: nat)
    requires IsGroup(g, r)
    ensures g.Multiple(n, g.zero) == g.zero
  {
    if n > 0 {
      MultipleOfZero(g, r, n - 1);
      assert g.Unit(g.zero);
    }
  }

  /** Only the residue of the multiplier matters. */
  lemma MultipleMod<G(!new)>(g: Group<G>, r: int, n: nat, x: G)
    requires IsGroup(g, r)
    ensures g.Multiple(n, x) == g.Mul(r, n, x)
  {
    OrderAnnihilates(g, r, x);
    hide IsGroup;
    var q := n / r;
    Division(n, r);
    MultipleAdd(g, r, q * r, n % r, x);
    MultipleOfMultiple(g, r, q, r, x);
    MultipleOfZero(g, r, q);
    ZeroLeft(g, r, g.Multiple(n % r, x));
  }

  lemma Division(n: nat, r: int)
    requires r > 0
    ensures n / r >= 0 && n / r * r >= 0 && n == n / r * r + n % r
  {
    MulNonNegative(n / r, r);
  }

  lemma OrderAnnihilates<G(!new)>(g: Group<G>, r: int, x: G)
    requires IsGroup(g, r)
    ensures r > 0 && g.Multiple(r, x) == g.zero
  {
    assert g.HasOrder(r, x);
  }

  lemma MulCong<G(!new)>(g: Group<G>, r: int, k: int, l: int, x: G)
    requires IsGroup(g, r) && Cong(k, l, r)
    ensures g.Mul(r, k, x) == g.Mul(r, l, x)
  {}

  lemma MulAdd<G(!new)>(g: Group<G>, r: int, k: int, l: int, x: G)
    requires IsGroup(g, r)
    ensures g.Mul(r, k + l, x) == g.add(g.Mul(r, k, x), g.Mul(r, l, x))
  {
    MultipleAdd(g, r, k % r, l % r, x);
    MultipleMod(g, r, k % r + l % r, x);
    CongMod(k, r);
    CongMod(l, r);
    CongAdd(k % r, k, l % r, l, r);
  }

  lemma MulOfSum<G(!new)>(g: Group<G>, r: int, k: int, x: G, y: G)
    requires IsGroup(g, r)
    ensures g.Mul(r, k, g.add(x, y)) == g.add(g.Mul(r, k, x), g.Mul(r, k, y))
  {
    MultipleOfSum(g, r, k % r, x, y);
  }

  lemma MulMul<G(!new)>(g: Group<G>, r: int, k: int, l: int, x: G)
    requires IsGroup(g, r)
    ensures g.Mul(r, k, g.Mul(r, l, x)) == g.Mul(r, k * l, x)
  {
    MultipleOfMultiple(g, r, k % r, l % r, x);
    MultipleMod(g, r, (k % r) * (l % r), x);
    CongMod(k, r);
    CongMod(l, r);
    CongMul(k % r, k, l % r, l, r);
  }

  lemma MulZero<G(!new)>(g: Group<G>, r: int, k: int, x: G)
    requires IsGroup(g, r)
    ensures g.Mul(r, k, g.zero) == g.zero && g.Mul(r, 0, x) == g.zero
  {
    MultipleOfZero(g, r, k % r);
    DivModUnique(0, 0, 0, r);
  }

  lemma MulOne<G(!new)>(g: Group<G>, r: int, x: G)
    requires IsGroup(g, r)
    ensures g.Mul(r, 1, x) == x
  {
    DivModUnique(1, 0, 1, r);
    assert g.Multiple(1, x) == g.add(g.zero, x);
    ZeroLeft(g, r, x);
  }

  lemma MulNeg<G(!new)>(g: Group<G>, r: int, k: int, x: G)
    requires IsGroup(g, r)
    ensures g.neg(g.Mul(r, k, x)) == g.Mul(r, -k, x)
  {
    var y := g.Mul(r, k, x);
    MulAdd(g, r, k, -k, x);
    MulZero(g, r, 0, x);
    assert g.Opposite(y) && g.Commutative(y, g.neg(y)) && g.Commutative(y, g.Mul(r, -k, x));
    Cancel(g, r, g.neg(y), g.Mul(r, -k, x), y);
  }

  /** A nonzero scalar kills only the zero element: the order is prime. */
  lemma MulInvertible<G(!new)>(g: Group<G>, r: int, k: nat, x: G)
    requires IsGroup(g, r) && k % r != 0
    ensures Coprime(k, r) && g.Mul(r, ModInv(k, r), g.Mul(r, k, x)) == x
    ensures g.Mul(r, k, x) == g.zero ==> x == g.zero
  {
    PrimeCoprime(r, k);
    var i := ModInv(k, r);
    MulMul(g, r, i, k, x);
    assert i * k == k * i;
    MulCong(g, r, i * k, 1, x);
    MulOne(g, r, x);
    MulZero(g, r, i, x);
  }

  // ---- Combinations of two points ----

  /** a * x + b * y */
  function Combine<G>(g: Group<G>, r: nat, a: int, x: G, b: int, y: G): G
    requires r > 0
  {
    g.add(g.Mul(r, a, x), g.Mul(r, b, y))
  }

  lemma CombineAdd<G(!new)>(g: Group<G>, r: int, a: int, b: int, c: int, d: int, x: G, y: G)
    requires IsGroup(g, r)
    ensures g.add(Combine(g, r, a, x, b, y), Combine(g, r, c, x, d, y)) == Combine(g, r, a + c, x, b + d, y)
  {
    Exchange(g, r, g.Mul(r, a, x), g.Mul(r, b, y), g.Mul(r, c, x), g.Mul(r, d, y));
    MulAdd(g, r, a, c, x);
    MulAdd(g, r, b, d, y);
  }

  lemma CombineMul<G(!new)>(g: Group<G>, r: int, k: int, a: int, b: int, x: G, y: G)
    requires IsGroup(g, r)
    ensures g.Mul(r, k, Combine(g, r, a, x, b, y)) == Combine(g, r, k * a, x, k * b, y)
  {
    MulOfSum(g, r, k, g.Mul(r, a, x), g.Mul(r, b, y));
    MulMul(g, r, k, a, x);
    MulMul(g, r, k, b, y);
  }

  // ---- Pairings ----

  datatype Pairing<!G1, !G2, !GT> = Pairing(g1: Group<G1>, g2: Group<G2>, gt: Group<GT>, e: (G2, G1) -> GT, base: G2) {

    ghost predicate LinearLeft(w: G2, v: G2, x: G1)
    {
      e(g2.add(w, v), x) == gt.add(e(w, x), e(v, x))
    }

    ghost predicate LinearRight(w: G2, x: G1, y: G1)
    {
      e(w, g1.add(x, y)) == gt.add(e(w, x), e(w, y))
    }

    ghost predicate NonDegenerate(x: G1)
    {
      e(base, x) == gt.zero ==> x == g1.zero
    }
  }

  /** Three groups of the same prime exponent with a bilinear, non-degenerate pairing. */
  ghost predicate IsPairing<G1(!new), G2(!new), GT(!new)>(p: Pairing<G1, G2, GT>, r: int)
  {
    && IsGroup(p.g1, r) && IsGroup(p.g2, r) && IsGroup(p.gt, r)
    && (forall w, v, x :: p.LinearLeft(w, v, x))
    && (forall w, x, y :: p.LinearRight(w, x, y))
    && (forall x :: p.NonDegenerate(x))
  }

  lemma PairZero<G1(!new), G2(!new), GT(!new)>(p: Pairing<G1, G2, GT>, r: int, w: G2, x: G1)
    requires IsPairing(p, r)
    ensures p.e(w, p.g1.zero) == p.gt.zero && p.e(p.g2.zero, x) == p.gt.zero
  {
    var u, v := p.e(w, p.g1.zero), p.e(p.g2.zero, x);
    assert p.g1.Unit(p.g1.zero) && p.LinearRight(w, p.g1.zero, p.g1.zero);
    assert p.g2.Unit(p.g2.zero) && p.LinearLeft(p.g2.zero, p.g2.zero, x);
    ZeroLeft(p.gt, r, u);
    ZeroLeft(p.gt, r, v);
    Cancel(p.gt, r, u, p.gt.zero, u);
    Cancel(p.gt, r, v, p.gt.zero, v);
  }

  lemma {:induction false} PairMultiple<G1(!new), G2(!new), GT(!new)>(p: Pairing<G1, G2, GT>, r: int, k: nat, w: G2,
      x: G1)
    requires IsPairing(p, r)
    ensures p.e(w, p.g1.Multiple(k, x)) == p.gt.Multiple(k, p.e(w, x))
    ensures p.e(p.g2.Multiple(k, w), x) == p.gt.Multiple(k, p.e(w, x))
  {
    if k == 0 {
      PairZero(p, r, w, x);
    } else {
      PairMultiple(p, r, k - 1, w, x);
      assert p.LinearRight(w, p.g1.Multiple(k - 1, x), x);
      assert p.LinearLeft(p.g2.Multiple(k - 1, w), w, x);
    }
  }

  /** A scalar moves between the two sides of the pairing, and out as a power. */
  lemma PairMul<G1(!new), G2(!new), GT(!new)>(p: Pairing<G1, G2, GT>, r: int, k: int, w: G2, x: G1)
    requires IsPairing(p, r)
    ensures p.e(w, p.g1.Mul(r, k, x)) == p.gt.Mul(r, k, p.e(w, x))
    ensures p.e(p.g2.Mul(r, k, w), x) == p.gt.Mul(r, k, p.e(w, x))
  {
    PairMultiple(p, r, k % r, w, x);
  }

  /** e(-w, y) cancels e(w, y), so the product test says the two pairings agree. */
  lemma PairQuotient<G1(!new), G2(!new), GT(!new)>(p: Pairing<G1, G2, GT>, r: int, t: GT, w: G2, y: G1)
    requires IsPairing(p, r)
    ensures p.gt.add(t, p.e(p.g2.neg(w), y)) == p.gt.zero <==> t == p.e(w, y)
  {
    var u, v := p.e(w, y), p.e(p.g2.neg(w), y);
    assert p.g2.Opposite(w) && p.LinearLeft(w, p.g2.neg(w), y);
    PairZero(p, r, w, y);
    assert p.gt.add(u, v) == p.gt.zero;
    if p.gt.add(t, v) == p.gt.zero {
      Cancel(p.gt, r, t, u, v);
    }
  }

  /** The base point separates points of G1. */
  lemma PairInjective<G1(!new), G2(!new), GT(!new)>(p: Pairing<G1, G2, GT>, r: int, x: G1, y: G1)
    requires IsPairing(p, r) && p.e(p.base, x) == p.e(p.base, y)
    ensures x == y
  {
    var d := p.g1.add(x, p.g1.neg(y));
    assert p.LinearRight(p.base, x, p.g1.neg(y)) && p.LinearRight(p.base, y, p.g1.neg(y));
    assert p.g1.Opposite(y);
    PairZero(p, r, p.base, x);
    assert p.NonDegenerate(d);
    Cancel(p.g1, r, x, y, p.g1.neg(y));
  }
}
