// Integer helpers the filter relies on: powers of two, bitwise XOR on
// non-negative integers, and the truncating remainder of C++.

module Bits {

  /** 2^n, the value of `1 << n` for the small shifts the filter uses. */
  function Pow2(n: nat): (r: nat)
    ensures r >= 1
  {
    if n == 0 then 1 else 2 * Pow2(n - 1)
  }

  /** n is a positive power of two. */
  predicate IsPow2(n: nat)
    decreases n
  {
    n == 1 || (n >= 2 && n % 2 == 0 && IsPow2(n / 2))
  }

  lemma {:induction false} Pow2Add(a: nat, b: nat)
    ensures Pow2(a + b) == Pow2(a) * Pow2(b)
  {
    if a > 0 {
      Pow2Add(a - 1, b);
      assert Pow2(a + b) == 2 * Pow2(a - 1 + b);
    }
  }

  /** Bitwise exclusive or of two non-negative integers, bit by bit from the least significant one. */
  function Xor(a: nat, b: nat): nat
    decreases a + b
  {
    if a == 0 then b
    else if b == 0 then a
    else 2 * Xor(a / 2, b / 2) + (if a % 2 == b % 2 then 0 else 1)
  }

  /** Every bit of Xor(a, b) is the sum modulo 2 of the same bits of a and b. */
  lemma XorDigits(a: nat, b: nat)
    ensures Xor(a, b) / 2 == Xor(a / 2, b / 2)
    ensures Xor(a, b) % 2 == (a % 2 + b % 2) % 2
  {
    if a == 0 {
      assert Xor(a / 2, b / 2) == b / 2;
    } else if b == 0 {
      assert Xor(a / 2, b / 2) == a / 2;
    } else {
      var bit := if a % 2 == b % 2 then 0 else 1;
      assert Xor(a, b) == 2 * Xor(a / 2, b / 2) + bit;
    }
  }

  lemma SameDigits(u: nat, v: nat)
    requires u / 2 == v / 2 && u % 2 == v % 2
    ensures u == v
  {
  }

  /** XOR with the same value twice is the identity: the two buckets of a pair lead back to each other. */
  lemma {:induction false} XorSelfInverse(a: nat, b: nat)
    ensures Xor(Xor(a, b), b) == a
    decreases a + b
  {
    if a + b > 0 {
      var x := Xor(a, b);
      XorDigits(a, b);
      XorDigits(x, b);
      XorSelfInverse(a / 2, b / 2);
      SameDigits(Xor(x, b), a);
    }
  }

  /** Below a power of two, XOR stays below it: with a power-of-two table size a bucket index XOR a hash is a bucket index. */
  lemma {:induction false} XorBelow(a: nat, b: nat, n: nat)
    requires IsPow2(n) && a < n && b < n
    ensures Xor(a, b) < n
    decreases n
  {
    if n > 1 {
      XorBelow(a / 2, b / 2, n / 2);
      XorDigits(a, b);
    }
  }

  /** XOR of two values below 2^k stays below 2^k: the 32-bit XOR of JSHash never leaves a word. */
  lemma {:induction false} XorBelowPow2(a: nat, b: nat, k: nat)
    requires a < Pow2(k) && b < Pow2(k)
    ensures Xor(a, b) < Pow2(k)
  {
    if k > 0 {
      XorBelowPow2(a / 2, b / 2, k - 1);
      XorDigits(a, b);
    }
  }

  /** The remainder of C++'s `a % n` for n > 0, which truncates toward zero and so keeps the sign of a. */
  function CRem(a: int, n: int): (r: int)
    requires n > 0
    ensures a >= 0 ==> r == a % n
    ensures a < 0 ==> -n < r <= 0 && (a - r) % n == 0
    ensures a == -1 && n >= 2 ==> r == -1
  {
    if a >= 0 then a % n
    else
      var q, m := (-a) / n, (-a) % n;
      assert a + m == -(q * n);
      NegMultipleMod(q, n);
      -m
  }

  lemma NegMultipleMod(q: nat, n: int)
    requires n > 0
    ensures (-(q * n)) % n == 0
  {
    var nq: int := 0 - (q as int);
    assert -(q * n) == nq * n;
    ModUnique(nq * n, n, nq, 0);
  }

  /** Division with remainder is unique: y == q * m + r with 0 <= r < m fixes y % m and y / m. */
  lemma ModUnique(y: int, m: int, q: int, r: int)
    requires m > 0 && 0 <= r < m && y == q * m + r
    ensures y % m == r && y / m == q
  {
    var q0, r0 := y / m, y % m;
    assert y == q0 * m + r0;
    assert (q0 - q) * m == r - r0;
    if q0 > q {
      MulAtLeast(q0 - q, m);
    } else if q0 < q {
      MulAtLeast(q - q0, m);
    }
  }

  /** A value already below the modulus is its own remainder. */
  lemma SmallMod(x: int, m: int)
    requires 0 <= x < m
    ensures x % m == x
  {
    ModUnique(x, m, 0, x);
  }

  lemma MulAtLeast(x: int, m: int)
    requires x >= 1 && m > 0
    ensures x * m >= m
  {
    assert x * m == (x - 1) * m + m;
  }

  /** Reducing modulo a multiple of m, then modulo m, is reducing modulo m. */
  lemma {:induction false} ModOfMod(x: nat, m: nat, k: nat)
    requires m > 0 && k > 0
    ensures (x % (m * k)) % m == x % m
  {
    var q := x / (m * k);
    var r := x % (m * k);
    assert x == (q * k) * m + r;
    ModAddMultiple(q * k, m, r);
  }

  lemma ModAddMultiple(c: int, m: int, r: int)
    requires m > 0
    ensures (c * m + r) % m == r % m
  {
    var y := c * m + r;
    assert y == (c + r / m) * m + r % m;
    ModUnique(y, m, c + r / m, r % m);
  }

  /** Reducing the factors of a product before multiplying does not change the product's remainder. */
  lemma MulAddMod(x: int, y: int, z: int, m: int)
    requires m > 0
    ensures ((x % m) * (y % m) + z) % m == (x * y + z) % m
  {
    var qx, rx := x / m, x % m;
    var qy, ry := y / m, y % m;
    assert x * y == (qx * m + rx) * (qy * m + ry);
    assert (qx * m + rx) * (qy * m + ry) == (qx * qy * m + qx * ry + rx * qy) * m + rx * ry;
    ModAddMultiple(qx * qy * m + qx * ry + rx * qy, m, rx * ry + z);
  }
}
