/** Powers of two, the integer floor-log2 that the cache uses to size its
    address fields, and the division facts that relate shifts and masks on
    an unsigned address to its block number. A right shift by k is division
    by 2^k and a mask of the low k bits is the remainder modulo 2^k. */
module Bits {

  function Pow2(k: nat): (r: nat)
    ensures r >= 1
  {
    if k == 0 then 1 else 2 * Pow2(k - 1)
  }

  /** n is 2^k for some k. */
  predicate IsPow2(n: nat)
  {
    if n == 0 then false
    else if n == 1 then true
    else n % 2 == 0 && IsPow2(n / 2)
  }

  /** Floor of log2 n, and 0 for n == 0 (the count of right shifts that
      leave a non-zero value). */
  function Log2(n: nat): (r: nat)
    ensures n <= 1 ==> r == 0
    ensures n >= 2 ==> 1 <= r < n
  {
    if n <= 1 then 0 else 1 + Log2(n / 2)
  }

  lemma {:induction false} Pow2Add(a: nat, b: nat)
    ensures Pow2(a + b) == Pow2(a) * Pow2(b)
  {
    if a > 0 {
      Pow2Add(a - 1, b);
      assert Pow2(a + b) == 2 * Pow2(a - 1 + b);
    }
  }

  /** Log2 is the floor of the logarithm: 2^Log2(n) <= n < 2^(Log2(n)+1). */
  lemma {:induction false} Log2Bounds(n: nat)
    requires n >= 1
    ensures Pow2(Log2(n)) <= n < Pow2(Log2(n) + 1)
  {
    if n > 1 {
      Log2Bounds(n / 2);
    }
  }

  /** On a power of two, Log2 is exact. */
  lemma {:induction false} Log2OfPow2(n: nat)
    requires IsPow2(n)
    ensures Pow2(Log2(n)) == n
  {
    if n > 1 {
      Log2OfPow2(n / 2);
    }
  }

  lemma MulLe(x: nat, y: nat, d: nat)
    requires x <= y
    ensures x * d <= y * d
  {
    assert y * d == x * d + (y - x) * d;
  }

  /** Euclidean division is determined by quotient and remainder. */
  lemma DivIsUnique(a: nat, d: nat, q: nat, r: nat)
    requires d > 0 && r < d && a == q * d + r
    ensures a / d == q && a % d == r
  {
    var q', r' := a / d, a % d;
    assert a == q' * d + r';
    if q' > q {
      MulLe(q + 1, q', d);
    } else if q' < q {
      MulLe(q' + 1, q, d);
    }
  }

  /** Shifting by p then by q is shifting by p * q. */
  lemma DivDiv(a: nat, p: nat, q: nat)
    requires p > 0 && q > 0
    ensures a / (p * q) == (a / p) / q
  {
    var x, r1 := a / p, a % p;
    var y, r2 := x / q, x % q;
    DigitsCombine(a, p, q, x, r1, y, r2);
    DivIsUnique(a, p * q, y, r2 * p + r1);
  }

  /** Two digits of a mixed-radix number combine into one of radix p * q. */
  lemma DigitsCombine(a: nat, p: nat, q: nat, x: nat, r1: nat, y: nat, r2: nat)
    requires r1 < p && r2 < q
    requires a == x * p + r1 && x == y * q + r2
    ensures a == y * (p * q) + (r2 * p + r1) && r2 * p + r1 < p * q
  {
    Distribute(y * q, r2, p);
    MulAssoc(y, q, p);
    MulLe(r2, q - 1, p);
    Distribute(q - 1, 1, p);
  }

  lemma Distribute(x: int, y: int, d: int)
    ensures (x + y) * d == x * d + y * d
  {
  }

  lemma MulAssoc(x: int, y: int, z: int)
    ensures x * y * z == x * (z * y)
  {
  }

  lemma DivBelow(a: nat, p: nat, q: nat)
    requires p > 0 && a < p * q
    ensures a / p < q
  {
  }

  /** Dividing a natural number by a positive one stays below the bound a
      product of the divisor gives, and is itself natural. */
  lemma DivBelowNat(a: nat, p: nat, q: nat)
    requires p > 0 && a < p * q
    ensures 0 <= a / p < q
  {
    DivBelow(a, p, q);
  }

  /** The quotient brackets the dividend. */
  lemma DivBounds(a: nat, d: nat)
    requires d > 0
    ensures (a / d) * d <= a < (a / d + 1) * d
  {
  }

  /** a in mixed radix p, q: offset a % p, then the low and high digits of
      the quotient. */
  lemma MixedRadix(a: nat, p: nat, q: nat)
    requires p > 0 && q > 0
    ensures a == ((a / p) / q * q + (a / p) % q) * p + a % p
  {
    var x := a / p;
    assert x == (x / q) * q + x % q;
  }

  /** Quotient and remainder together determine the number. */
  lemma QuotRemDetermine(x: nat, y: nat, q: nat)
    requires q > 0
    ensures x / q == y / q && x % q == y % q <==> x == y
  {
    assert x == (x / q) * q + x % q;
    assert y == (y / q) * q + y % q;
  }

  lemma Pow2Of32()
    ensures Pow2(32) == 0x1_0000_0000
  {
    assert Pow2(8) == 256;
    Pow2Add(8, 8);
    Pow2Add(16, 16);
  }
}
