/** Bitwise exclusive or on non-negative integers, one bit at a time, and
    the facts about it the xor filter needs: it works bit by bit, so the low
    bits of a result depend on the low bits of the operands only. */
module Bits {

  function Pow2(n: nat): (p: nat)
    ensures p >= 1
  {
    if n == 0 then 1 else 2 * Pow2(n - 1)
  }

  /** The low n bits of a ^ b. */
  function XorBits(a: nat, b: nat, n: nat): nat
  {
    if n == 0 then 0
    else (if a % 2 == b % 2 then 0 else 1) + 2 * XorBits(a / 2, b / 2, n - 1)
  }

  /** The n-bit xor has n bits. */
  lemma {:induction false} XorBitsBound(a: nat, b: nat, n: nat)
    ensures XorBits(a, b, n) < Pow2(n)
  {
    if n > 0 {
      XorBitsBound(a / 2, b / 2, n - 1);
    }
  }

  /** Go's `^` on two `uint32` values. */
  function Xor32(a: nat, b: nat): nat
  {
    XorBits(a, b, 32)
  }

  lemma {:induction false} XorBitsSelf(a: nat, n: nat)
    ensures XorBits(a, a, n) == 0
  {
    if n > 0 {
      XorBitsSelf(a / 2, n - 1);
    }
  }

  lemma {:induction false} XorBitsZero(a: nat, n: nat)
    ensures XorBits(a, 0, n) == a % Pow2(n)
  {
    if n > 0 {
      XorBitsZero(a / 2, n - 1);
      ModPow2Step(a, n - 1);
    }
  }

  lemma {:induction false} XorBitsCommutes(a: nat, b: nat, n: nat)
    ensures XorBits(a, b, n) == XorBits(b, a, n)
  {
    if n > 0 {
      XorBitsCommutes(a / 2, b / 2, n - 1);
    }
  }

  /** Keeping the low m bits of an n-bit xor gives the m-bit xor. */
  lemma {:induction false} XorBitsTruncate(a: nat, b: nat, n: nat, m: nat)
    requires m <= n
    ensures XorBits(a, b, n) % Pow2(m) == XorBits(a, b, m)
  {
    if m > 0 {
      var y := XorBits(a / 2, b / 2, n - 1);
      var bit := if a % 2 == b % 2 then 0 else 1;
      var x := bit + 2 * y;
      assert XorBits(a, b, n) == x;
      XorBitsTruncate(a / 2, b / 2, n - 1, m - 1);
      ModPow2Step(x, m - 1);
      Halves(x, bit, y);
    }
  }

  /** The m-bit xor looks at the low m bits of its operands only. */
  lemma {:induction false} XorBitsOfLow(a: nat, b: nat, m: nat)
    ensures XorBits(a % Pow2(m), b % Pow2(m), m) == XorBits(a, b, m)
  {
    if m > 0 {
      LowBits(a, m);
      LowBits(b, m);
      XorBitsOfLow(a / 2, b / 2, m - 1);
    }
  }

  /** The lowest bit of the low m bits of a, and the bits above it. */
  lemma LowBits(a: nat, m: nat)
    requires m > 0
    ensures (a % Pow2(m)) % 2 == a % 2
    ensures (a % Pow2(m)) / 2 == (a / 2) % Pow2(m - 1)
  {
    ModPow2Step(a, m - 1);
    Halves(a % Pow2(m), a % 2, (a / 2) % Pow2(m - 1));
  }

  lemma Halves(x: int, bit: int, s: int)
    requires 0 <= bit < 2 && x == bit + 2 * s
    ensures x % 2 == bit && x / 2 == s
  {
  }

  /** The low n + 1 bits of a are its lowest bit under the low n bits of
      a / 2. */
  lemma ModPow2Step(a: nat, n: nat)
    ensures a % Pow2(n + 1) == a % 2 + 2 * ((a / 2) % Pow2(n))
  {
    var p := Pow2(n);
    var q, s := (a / 2) / p, (a / 2) % p;
    assert a / 2 == p * q + s;
    assert a == (2 * p) * q + (a % 2 + 2 * s);
    ModUnique(a, 2 * p, q, a % 2 + 2 * s);
  }

  /** The remainder is the one r in [0, m) with a == m * k + r. */
  lemma ModUnique(a: int, m: int, k: int, r: int)
    requires 0 <= r < m && a == m * k + r
    ensures a % m == r
  {
    var k', r' := a / m, a % m;
    assert m * k + r == m * k' + r';
    if k' < k {
      assert m * k - m * k' == m * (k - k');
      MulAtLeast(m, k - k');
      assert false;
    } else if k' > k {
      assert m * k' - m * k == m * (k' - k);
      MulAtLeast(m, k' - k);
      assert false;
    }
  }

  lemma MulAtLeast(m: int, d: int)
    requires m > 0 && d >= 1
    ensures m * d >= m
  {
  }
}
