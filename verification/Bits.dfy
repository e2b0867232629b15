// Bitwise operations on naturals, bit by bit, and how they meet masking by
// 2^k - 1.
module Bits {
  import opened Arithmetic

  function XorBits(a: nat, b: nat): nat
    decreases a + b
  {
    if a == 0 && b == 0 then 0 else 2 * XorBits(a / 2, b / 2) + (a + b) % 2
  }

  function AndBits(a: nat, b: nat): nat
    decreases a + b
  {
    if a == 0 && b == 0 then 0 else 2 * AndBits(a / 2, b / 2) + (if a % 2 == 1 && b % 2 == 1 then 1 else 0)
  }

  lemma {:induction false} XorCancels(a: nat, b: nat)
    ensures XorBits(XorBits(a, b), b) == a
    decreases a + b
  {
    if a == 0 && b == 0 {
    } else {
      hide XorBits;
      var x := XorBits(a, b);
      XorCancels(a / 2, b / 2);
      XorHalves(a, b);
      XorHalves(x, b);
      CancelHalves(XorBits(x, b), a, x, b);
    }
  }

  lemma CancelHalves(y: nat, a: nat, x: nat, b: nat)
    requires y / 2 == a / 2 && y % 2 == (x + b) % 2 && x % 2 == (a + b) % 2
    ensures y == a
  {}

  lemma XorHalves(a: nat, b: nat)
    ensures XorBits(a, b) / 2 == XorBits(a / 2, b / 2)
    ensures XorBits(a, b) % 2 == (a + b) % 2
  {}

  lemma AndHalves(a: nat, b: nat)
    ensures AndBits(a, b) / 2 == AndBits(a / 2, b / 2)
    ensures AndBits(a, b) % 2 == if a % 2 == 1 && b % 2 == 1 then 1 else 0
  {
  }

  lemma {:induction false} XorBelow(a: nat, b: nat, k: nat)
    requires a < Pow(2, k) && b < Pow(2, k)
    ensures XorBits(a, b) < Pow(2, k)
  {
    if k > 0 {
      XorBelow(a / 2, b / 2, k - 1);
      XorHalves(a, b);
    }
  }

  /** The low k bits of a. */
  function Low(a: nat, k: nat): nat
  {
    if k == 0 then 0 else 2 * Low(a / 2, k - 1) + a % 2
  }

  lemma {:induction false} LowIsMod(a: nat, k: nat)
    ensures Pow(2, k) > 0 && Low(a, k) == a % Pow(2, k)
  {
    PowPositive(2, k);
    if k > 0 {
      LowIsMod(a / 2, k - 1);
      LowStep(a, Pow(2, k - 1));
    }
  }

  lemma LowBound(a: nat, k: nat)
    ensures Low(a, k) < Pow(2, k)
  {
    LowIsMod(a, k);
  }

  lemma LowStep(a: nat, p: int)
    requires p > 0
    ensures a % (2 * p) == 2 * ((a / 2) % p) + a % 2
  {
    var q, r := (a / 2) / p, (a / 2) % p;
    assert a / 2 == q * p + r;
    assert q * (2 * p) == 2 * (q * p);
    DivModUnique(a, q, 2 * r + a % 2, 2 * p);
  }

  lemma LowHalves(a: nat, k: nat)
    requires k > 0
    ensures Low(a, k) / 2 == Low(a / 2, k - 1) && Low(a, k) % 2 == a % 2
  {}

  lemma SameHalves(a: nat, b: nat)
    requires a / 2 == b / 2 && a % 2 == b % 2
    ensures a == b
  {}

  lemma {:induction false} LowOfXor(a: nat, b: nat, k: nat)
    ensures Low(XorBits(a, b), k) == XorBits(Low(a, k), Low(b, k))
  {
    if k > 0 {
      LowOfXor(a / 2, b / 2, k - 1);
      var x, l, m := XorBits(a, b), Low(a, k), Low(b, k);
      XorHalves(a, b);
      LowHalves(a, k);
      LowHalves(b, k);
      LowHalves(x, k);
      XorHalves(l, m);
      ParityOfSum(a, b, l, m);
      SameHalves(Low(x, k), XorBits(l, m));
    }
  }

  lemma ParityOfSum(a: nat, b: nat, c: nat, d: nat)
    requires a % 2 == c % 2 && b % 2 == d % 2
    ensures (a + b) % 2 == (c + d) % 2
  {}

  lemma {:induction false} LowOfLow(a: nat, k: nat)
    ensures Low(Low(a, k), k) == Low(a, k)
  {
    if k > 0 {
      LowOfLow(a / 2, k - 1);
    }
  }

  /** And with 2^k - 1 keeps the low k bits. */
  lemma {:induction false} AndLowBits(a: nat, k: nat)
    ensures Pow(2, k) > 0 && AndBits(a, Pow(2, k) - 1) == Low(a, k)
  {
    PowPositive(2, k);
    var m := Pow(2, k) - 1;
    if k == 0 {
      AndZero(a);
    } else {
      AndLowBits(a / 2, k - 1);
      AndHalves(a, m);
      assert m / 2 == Pow(2, k - 1) - 1 && m % 2 == 1;
    }
  }

  lemma AndZero(a: nat)
    ensures AndBits(a, 0) == 0
  {}

  /** Masking the low k bits between two exclusive ors with b loses only the high bits. */
  lemma XorUnderMask(a: nat, b: nat, k: nat)
    ensures Low(XorBits(Low(XorBits(a, b), k), b), k) == Low(a, k)
  {
    LowOfXor(Low(XorBits(a, b), k), b, k);
    LowOfLow(XorBits(a, b), k);
    LowOfXor(a, b, k);
    XorCancels(Low(a, k), Low(b, k));
  }
}
