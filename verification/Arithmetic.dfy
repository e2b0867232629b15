// Integer arithmetic used by the RSA and BBS layers: powers, congruences,
// Euclid's algorithm and Bezout coefficients.
module Arithmetic {

  function Pow(b: int, e: nat): int
  {
    if e == 0 then 1 else b * Pow(b, e - 1)
  }

  lemma MulAssociative(x: int, y: int, z: int)
    ensures (x * y) * z == x * (y * z)
  {}

  lemma MulNonNegative(a: int, b: int)
    requires a >= 0 && b >= 0
    ensures a * b >= 0
  {}

  lemma PowStep(b: int, e: nat)
    ensures Pow(b, 0) == 1 && Pow(b, e + 1) == b * Pow(b, e)
  {}

  lemma {:induction false} PowAdd(b: int, x: nat, y: nat)
    ensures Pow(b, x + y) == Pow(b, x) * Pow(b, y)
  {
    hide Pow;
    if x == 0 {
      PowStep(b, y);
    } else {
      PowAdd(b, x - 1, y);
      PowStep(b, x - 1 + y);
      PowStep(b, x - 1);
      MulAssociative(b, Pow(b, x - 1), Pow(b, y));
    }
  }

  lemma PowMul(b: int, x: nat, y: nat)
    ensures 0 <= x * y
    ensures Pow(b, x * y) == Pow(Pow(b, x), y)
  {
    if y > 0 {
      PowMul(b, x, y - 1);
      assert x * y == x + x * (y - 1);
      PowAdd(b, x, x * (y - 1));
    } else {
      assert x * y == 0;
    }
  }

  /** (a * b) * (x * y) == (a * x) * (b * y) */
  lemma MulExchange(a: int, b: int, x: int, y: int)
    ensures (a * b) * (x * y) == (a * x) * (b * y)
  {
    assert (a * b) * (x * y) == a * (b * (x * y));
    assert b * (x * y) == x * (b * y);
    assert a * (x * (b * y)) == (a * x) * (b * y);
  }

  lemma PowProduct(a: int, b: int, e: nat)
    ensures Pow(a * b, e) == Pow(a, e) * Pow(b, e)
  {
    if e > 0 {
      PowProduct(a, b, e - 1);
      MulExchange(a, b, Pow(a, e - 1), Pow(b, e - 1));
    }
  }

  lemma PowPositive(b: int, e: nat)
    requires b > 0
    ensures Pow(b, e) > 0
  {
    if e > 0 {
      PowPositive(b, e - 1);
      MulPositive(b, Pow(b, e - 1));
    }
  }

  lemma MulPositive(a: int, b: int)
    requires a > 0 && b > 0
    ensures a * b > 0
  {}

  lemma PowMonotone(b: int, x: nat, y: nat)
    requires b > 0 && x <= y
    ensures Pow(b, x) <= Pow(b, y)
    decreases y
  {
    if x < y {
      PowMonotone(b, x, y - 1);
      PowPositive(b, y - 1);
      MulAtLeast(b, Pow(b, y - 1));
    }
  }

  // ---- Division and congruence ----

  lemma MulAtLeast(k: int, n: int)
    requires n > 0
    ensures k >= 1 ==> k * n >= n
  {
    assert k * n == n + (k - 1) * n;
  }

  lemma MulMonotone(a: int, b: int, n: int)
    requires n > 0
    ensures a <= b ==> a * n <= b * n
  {
    assert b * n - a * n == (b - a) * n;
  }

  lemma MulBetween(k: int, n: int)
    requires n > 0 && -n < k * n < n
    ensures k == 0
  {
    MulAtLeast(k, n);
    MulAtLeast(-k, n);
    assert (-k) * n == -(k * n);
  }

  /** Quotient and remainder are unique. */
  lemma DivModUnique(x: int, q: int, r: int, n: int)
    requires n > 0 && x == q * n + r && 0 <= r < n
    ensures x / n == q && x % n == r
  {
    var q', r' := x / n, x % n;
    assert x == q' * n + r';
    assert (q' - q) * n == r - r' by { assert (q' - q) * n == q' * n - q * n; }
    MulBetween(q' - q, n);
  }

  predicate Cong(a: int, b: int, n: int)
    requires n > 0
  {
    a % n == b % n
  }

  lemma CongIntro(a: int, b: int, k: int, n: int)
    requires n > 0 && a == b + k * n
    ensures Cong(a, b, n)
  {
    var q, r := b / n, b % n;
    assert a == (q + k) * n + r by { assert (q + k) * n == q * n + k * n; }
    DivModUnique(a, q + k, r, n);
  }

  lemma CongElim(a: int, b: int, n: int) returns (k: int)
    requires n > 0 && Cong(a, b, n)
    ensures a == b + k * n
  {
    k := a / n - b / n;
    assert k * n == a / n * n - b / n * n;
  }

  lemma CongMod(a: int, n: int)
    requires n > 0
    ensures Cong(a % n, a, n)
  {
    DivModUnique(a % n, 0, a % n, n);
  }

  lemma CongAdd(a: int, a': int, b: int, b': int, n: int)
    requires n > 0 && Cong(a, a', n) && Cong(b, b', n)
    ensures Cong(a + b, a' + b', n)
    ensures Cong(a - b, a' - b', n)
  {
    var k := CongElim(a, a', n);
    var l := CongElim(b, b', n);
    assert (k + l) * n == k * n + l * n;
    assert (k - l) * n == k * n - l * n;
    CongIntro(a + b, a' + b', k + l, n);
    CongIntro(a - b, a' - b', k - l, n);
  }

  lemma ScaledDifference(a: int, a': int, k: int, n: int, b: int)
    requires a == a' + k * n
    ensures a * b == a' * b + (k * b) * n
  {
    assert (a' + k * n) * b == a' * b + (k * n) * b;
    assert (k * n) * b == (k * b) * n;
  }

  lemma CongMulRight(a: int, a': int, b: int, n: int)
    requires n > 0 && Cong(a, a', n)
    ensures Cong(a * b, a' * b, n)
  {
    var k := CongElim(a, a', n);
    ScaledDifference(a, a', k, n, b);
    hide Cong;
    CongIntro(a * b, a' * b, k * b, n);
  }

  lemma CongMul(a: int, a': int, b: int, b': int, n: int)
    requires n > 0 && Cong(a, a', n) && Cong(b, b', n)
    ensures Cong(a * b, a' * b', n)
  {
    CongMulRight(a, a', b, n);
    CongMulRight(b, b', a', n);
    assert b * a' == a' * b && b' * a' == a' * b';
  }

  lemma CongPow(a: int, b: int, e: nat, n: int)
    requires n > 0 && Cong(a, b, n)
    ensures Cong(Pow(a, e), Pow(b, e), n)
  {
    if e > 0 {
      CongPow(a, b, e - 1, n);
      CongMul(a, b, Pow(a, e - 1), Pow(b, e - 1), n);
    }
  }

  lemma CongSmall(a: int, b: int, n: int)
    requires 0 <= a < n && 0 <= b < n && Cong(a, b, n)
    ensures a == b
  {
    DivModUnique(a, 0, a, n);
    DivModUnique(b, 0, b, n);
  }

  // ---- Divisibility ----

  predicate Divides(d: int, x: int)
    requires d > 0
  {
    x % d == 0
  }

  lemma DividesIntro(d: int, x: int, k: int)
    requires d > 0 && x == k * d
    ensures Divides(d, x)
  {
    DivModUnique(x, k, 0, d);
  }

  lemma DividesLinear(d: int, a: int, b: int, x: int, y: int)
    requires d > 0 && Divides(d, a) && Divides(d, b)
    ensures Divides(d, a * x + b * y)
  {
    var k, l := a / d, b / d;
    assert a == k * d && b == l * d;
    assert a * x + b * y == (k * x + l * y) * d by {
      assert (k * d) * x == (k * x) * d;
      assert (l * d) * y == (l * y) * d;
      assert (k * x + l * y) * d == (k * x) * d + (l * y) * d;
    }
    DividesIntro(d, a * x + b * y, k * x + l * y);
  }

  lemma DividesCong(a: int, b: int, n: int)
    requires n > 0
    ensures Divides(n, a - b) <==> Cong(a, b, n)
  {
    if Divides(n, a - b) {
      CongIntro(a, b, (a - b) / n, n);
    }
    if Cong(a, b, n) {
      var k := CongElim(a, b, n);
      DividesIntro(n, a - b, k);
    }
  }

  // ---- Euclid ----

  /** Euclid's loop, which is also what Python's math.gcd computes. */
  function Gcd(a: nat, b: nat): (g: nat)
    decreases b
  {
    if b == 0 then a else Gcd(b, a % b)
  }

  /** Coefficients x, y with a * x + b * y == Gcd(a, b). */
  function Combination(a: nat, b: nat): (c: (int, int))
    ensures a * c.0 + b * c.1 == Gcd(a, b)
    decreases b
  {
    if b == 0 then (1, 0)
    else
      var c := Combination(b, a % b);
      CombinationStep(a, b, c.0, c.1);
      (c.1, c.0 - (a / b) * c.1)
  }

  lemma CombinationStep(a: int, b: int, x: int, y: int)
    requires b > 0
    ensures a * y + b * (x - (a / b) * y) == b * x + (a % b) * y
  {
    var q, r := a / b, a % b;
    assert a == q * b + r;
    assert a * y == (q * b) * y + r * y;
    assert b * (x - q * y) == b * x - b * (q * y);
    assert b * (q * y) == (q * b) * y;
  }

  lemma GcdDivides(a: nat, b: nat)
    requires a > 0 || b > 0
    ensures Gcd(a, b) > 0 && Divides(Gcd(a, b), a) && Divides(Gcd(a, b), b)
    decreases b
  {
    if b == 0 {
      DividesIntro(a, a, 1);
      DividesIntro(a, 0, 0);
    } else {
      var q, r := a / b, a % b;
      GcdDivides(b, r);
      DividesLinear(Gcd(a, b), b, r, q, 1);
      assert b * q + r * 1 == a;
    }
  }

  /** Gcd is the greatest common divisor in the divisibility order. */
  lemma GcdGreatest(a: nat, b: nat, d: int)
    requires d > 0 && Divides(d, a) && Divides(d, b)
    ensures Divides(d, Gcd(a, b))
  {
    var (x, y) := Combination(a, b);
    DividesLinear(d, a, b, x, y);
  }

  predicate Coprime(a: nat, b: nat)
  {
    Gcd(a, b) == 1
  }

  lemma DividesOne(d: int)
    requires d > 0 && Divides(d, 1)
    ensures d == 1
  {
    if d > 1 {
      DivModUnique(1, 0, 1, d);
    }
  }

  /** A combination equal to one certifies coprimality. */
  lemma CoprimeFromCombination(a: nat, b: nat, x: int, y: int)
    requires a * x + b * y == 1
    ensures Coprime(a, b)
  {
    assert 0 * x + 0 * y == 0;
    GcdDivides(a, b);
    DividesLinear(Gcd(a, b), a, b, x, y);
    DividesOne(Gcd(a, b));
  }

  // ---- Inverses ----

  /** The inverse of a mod m in [0, m), as Python's pow(a, -1, m) returns it. */
  function ModInv(a: nat, m: nat): (x: nat)
    requires m > 1 && Coprime(a, m)
    ensures x < m && Cong(a * x, 1, m)
  {
    var (u, v) := Combination(a, m);
    InverseFromCombination(a, m, u, v);
    u % m
  }

  lemma InverseFromCombination(a: int, m: int, u: int, v: int)
    requires m > 1 && a * u + m * v == 1
    ensures Cong(a * (u % m), 1, m)
  {
    CongMod(u, m);
    CongMulRight(u % m, u, a, m);
    assert a * (u % m) == (u % m) * a && a * u == u * a;
    assert (-v) * m == -(m * v);
    CongIntro(a * u, 1, -v, m);
  }

  lemma InverseCoprime(a: nat, m: nat, x: int)
    requires m > 1 && Cong(a * x, 1, m)
    ensures Coprime(a, m)
  {
    var k := CongElim(a * x, 1, m);
    assert a * x + m * (-k) == 1 by { assert m * (-k) == -(k * m); }
    CoprimeFromCombination(a, m, x, -k);
  }

  lemma Regroup(a: int, i: int, x: int)
    ensures a * x * i == a * i * x
  {}

  /** A unit cancels from both sides of a congruence. */
  lemma CongCancel(a: nat, x: int, y: int, m: nat)
    requires m > 1 && Coprime(a, m) && Cong(a * x, a * y, m)
    ensures Cong(x, y, m)
  {
    var i := ModInv(a, m);
    hide ModInv, Coprime;
    CongMulRight(a * x, a * y, i, m);
    CongMulRight(a * i, 1, x, m);
    CongMulRight(a * i, 1, y, m);
    Regroup(a, i, x);
    Regroup(a, i, y);
  }

  lemma InverseUnique(a: nat, x: int, y: int, m: nat)
    requires m > 1 && 0 <= x < m && 0 <= y < m
    requires Cong(a * x, 1, m) && Cong(a * y, 1, m)
    ensures x == y
  {
    InverseCoprime(a, m, x);
    CongCancel(a, x, y, m);
    CongSmall(x, y, m);
  }

  lemma CoprimeProduct(a: nat, b: nat, m: nat)
    requires m > 1 && Coprime(a, m) && Coprime(b, m)
    ensures 0 <= a * b && Coprime(a * b, m)
  {
    var x, y := ModInv(a, m), ModInv(b, m);
    CongMul(a * x, 1, b * y, 1, m);
    MulExchange(a, x, b, y);
    InverseCoprime(a * b, m, x * y);
  }

  lemma CoprimePow(a: nat, e: nat, m: nat)
    requires m > 1 && Coprime(a, m)
    ensures 0 <= Pow(a, e) && Coprime(Pow(a, e), m)
  {
    if e == 0 {
      CoprimeFromCombination(1, m, 1, 0);
    } else {
      CoprimePow(a, e - 1, m);
      CoprimeProduct(a, Pow(a, e - 1), m);
    }
  }

  lemma CoprimeCong(a: nat, b: nat, m: nat)
    requires m > 1 && Coprime(a, m) && Cong(a, b, m)
    ensures Coprime(b, m)
  {
    var x := ModInv(a, m);
    CongMul(a, b, x, x, m);
    InverseCoprime(b, m, x);
  }
}
