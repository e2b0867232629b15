// Octet strings and their reading as big-endian integers (OS2IP and I2OSP,
// sections 4.1 and 4.2 of RFC 8017), and bit lengths.
module Octets {
  import opened Arithmetic

  type Octet = x: int | 0 <= x < 256
  type Octets = seq<Octet>

  function Os2ip(s: Octets): nat
  {
    if |s| == 0 then 0 else Os2ip(s[..|s| - 1]) * 256 + s[|s| - 1]
  }

  /** The big-endian encoding in exactly len octets; Python's to_bytes demands that v fits. */
  function I2osp(v: nat, len: nat): (s: Octets)
    requires v < Pow(256, len)
    ensures |s| == len
  {
    if len == 0 then []
    else
      DivBelow(v, 256, Pow(256, len - 1));
      I2osp(v / 256, len - 1) + [v % 256]
  }

  lemma DivBelow(v: nat, b: int, m: int)
    requires b > 0 && v < b * m
    ensures v / b < m
  {
    MulMonotone(m, v / b, b);
  }

  lemma {:induction false} Os2ipBound(s: Octets)
    ensures Os2ip(s) < Pow(256, |s|)
  {
    if |s| > 0 {
      Os2ipBound(s[..|s| - 1]);
    }
  }

  lemma {:induction false} Os2ipOfI2osp(v: nat, len: nat)
    requires v < Pow(256, len)
    ensures Os2ip(I2osp(v, len)) == v
  {
    if len > 0 {
      DivBelow(v, 256, Pow(256, len - 1));
      Os2ipOfI2osp(v / 256, len - 1);
      var s := I2osp(v, len);
      assert s[..len - 1] == I2osp(v / 256, len - 1);
    }
  }

  lemma {:induction false} I2ospOfOs2ip(s: Octets)
    ensures Os2ip(s) < Pow(256, |s|)
    ensures I2osp(Os2ip(s), |s|) == s
  {
    Os2ipBound(s);
    if |s| > 0 {
      var front, last := s[..|s| - 1], s[|s| - 1];
      I2ospOfOs2ip(front);
      DivModUnique(Os2ip(s), Os2ip(front), last, 256);
      assert s == front + [last];
    }
  }

  lemma {:induction false} Os2ipConcat(s: Octets, t: Octets)
    ensures Os2ip(s + t) == Os2ip(s) * Pow(256, |t|) + Os2ip(t)
  {
    if |t| == 0 {
      assert s + t == s;
    } else {
      var front := t[..|t| - 1];
      Os2ipConcat(s, front);
      assert (s + t)[..|s + t| - 1] == s + front;
      ShiftIn(Os2ip(s), Pow(256, |front|), Os2ip(front));
    }
  }

  lemma ShiftIn(x: int, p: int, y: int)
    ensures (x * p + y) * 256 == x * (256 * p) + y * 256
  {}

  /** Length of the binary representation; 0 for 0. */
  function BitLength(n: nat): (b: nat)
    ensures n > 0 ==> b > 0
  {
    if n == 0 then 0 else BitLength(n / 2) + 1
  }

  lemma {:induction false} BitLengthBounds(n: nat)
    requires n > 0
    ensures BitLength(n) >= 1
    ensures Pow(2, BitLength(n) - 1) <= n < Pow(2, BitLength(n))
  {
    if n > 1 {
      BitLengthBounds(n / 2);
      var b := BitLength(n / 2);
      assert Pow(2, b) == 2 * Pow(2, b - 1);
      assert Pow(2, b + 1) == 2 * Pow(2, b);
    } else {
      assert BitLength(0) == 0;
      assert Pow(2, 0) == 1 && Pow(2, 1) == 2 * Pow(2, 0);
    }
  }

  lemma Pow256(k: nat)
    ensures Pow(256, k) == Pow(2, 8 * k)
  {
    assert Pow(2, 8) == 256;
    PowMul(2, 8, k);
  }

  /** Octets needed for a modulus: ceil(bit length / 8). */
  function OctetLength(n: nat): nat
  {
    (BitLength(n) + 7) / 8
  }

  lemma BelowModulusFits(v: nat, n: nat)
    requires v < n
    ensures v < Pow(256, OctetLength(n))
  {
    BitLengthBounds(n);
    Pow256(OctetLength(n));
    PowMonotone(2, BitLength(n), 8 * OctetLength(n));
  }
}
