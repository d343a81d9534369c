/** Powers of two with any integer exponent, as reals: the scales of floating-point numbers. */
module Dyadic {
  import opened Bits

  function P2(e: int): (r: real)
    ensures r > 0.0
    decreases if e < 0 then -e else e
  {
    if e == 0 then 1.0
    else if e > 0 then 2.0 * P2(e - 1)
    else P2(e + 1) / 2.0
  }

  /** m * 2^scale */
  function Scaled(m: int, scale: int): real {
    m as real * P2(scale)
  }

  lemma P2Next(e: int)
    ensures P2(e + 1) == 2.0 * P2(e)
  {}

  lemma {:induction false} P2Shift(e: int, n: nat)
    ensures P2(e + n) == Pow2(n) as real * P2(e)
  {
    hide P2;
    if n > 0 {
      P2Shift(e, n - 1);
      P2Next(e + n - 1);
      Regroup(2.0, Pow2(n - 1) as real, P2(e));
    } else {
      assert Pow2(0) == 1;
    }
  }

  lemma P2Zero()
    ensures P2(0) == 1.0
  {}

  lemma P2Add(a: int, b: int)
    ensures P2(a + b) == P2(a) * P2(b)
  {
    hide P2, Pow2;
    P2Zero();
    if b >= 0 {
      P2Shift(a, b);
      P2Shift(0, b);
    } else {
      P2Shift(a + b, -b);
      P2Shift(b, -b);
      ProductsEqual(Pow2(-b) as real, P2(a + b), P2(b), P2(a));
    }
  }

  lemma ProductsEqual(k: real, x: real, y: real, z: real)
    requires z == k * x && 1.0 == k * y
    ensures x == z * y
  {
    assert z * y == (k * x) * y == x * (k * y);
  }

  lemma {:induction false} P2Monotone(a: int, b: int)
    requires a <= b
    ensures P2(a) <= P2(b)
    ensures a < b ==> 2.0 * P2(a) <= P2(b)
    decreases b - a
  {
    if a < b {
      P2Monotone(a, b - 1);
      P2Next(b - 1);
    }
  }

  /** Shifting the mantissa left and the scale down keeps the value. */
  lemma ScaledShift(m: int, scale: int, n: nat)
    ensures Scaled(m * Pow2(n), scale - n) == Scaled(m, scale)
  {
    P2Shift(scale - n, n);
    Regroup(m as real, Pow2(n) as real, P2(scale - n));
  }

  lemma Regroup(x: real, y: real, z: real)
    ensures (x * y) * z == x * (y * z)
  {}

  lemma Exchange(x: real, y: real, p: real, q: real)
    ensures (x * y) * (p * q) == (x * p) * (y * q)
  {
    Regroup(x, y, p * q);
    Regroup(y, p, q);
    Regroup(p, y, q);
    assert y * p == p * y;
    Regroup(x, p, y * q);
  }

  lemma ScaledProduct(m: int, s: int, n: int, t: int)
    ensures Scaled(m * n, s + t) == Scaled(m, s) * Scaled(n, t)
  {
    hide P2;
    P2Add(s, t);
    Exchange(m as real, n as real, P2(s), P2(t));
    assert (m * n) as real == m as real * n as real;
  }

  lemma ScaledSum(m: int, n: int, s: int)
    ensures Scaled(m + n, s) == Scaled(m, s) + Scaled(n, s)
    ensures Scaled(-m, s) == -Scaled(m, s)
  {}

  lemma ScaledOrder(m: int, n: int, s: int)
    ensures m < n <==> Scaled(m, s) < Scaled(n, s)
    ensures m <= n <==> Scaled(m, s) <= Scaled(n, s)
  {
    var d, p := n as real - m as real, P2(s);
    assert Scaled(n, s) - Scaled(m, s) == d * p;
    if d > 0.0 {
      assert d * p > 0.0;
    } else if d < 0.0 {
      assert (-d) * p > 0.0;
    }
  }

  // --- shifts and bit lengths ---

  /** `n >> k` */
  function Shr(n: nat, k: nat): nat {
    QuotientBound(n, Pow2(k));
    n / Pow2(k)
  }

  /** `n << k` */
  function Shl(n: nat, k: nat): nat {
    MulMono(0, n, Pow2(k));
    n * Pow2(k)
  }

  /** `n & ((1 << k) - 1)` */
  function Low(n: nat, k: nat): nat {
    n % Pow2(k)
  }

  lemma Divided(n: nat, k: nat)
    ensures n == Shr(n, k) * Pow2(k) + Low(n, k) && 0 <= Low(n, k) < Pow2(k)
  {}

  lemma PowerStep(n: nat)
    requires n > 0
    ensures Pow2(n) == 2 * Pow2(n - 1)
  {}

  lemma Positive(x: nat, y: nat)
    requires x > 0 && y > 0
    ensures x * y > 0
  {}

  /** `int.bit_length` */
  function BitLength(n: nat): nat {
    if n == 0 then 0 else 1 + BitLength(n / 2)
  }

  lemma {:induction false} BitLengthBounds(n: nat)
    requires n > 0
    ensures BitLength(n) >= 1 && Pow2(BitLength(n) - 1) <= n < Pow2(BitLength(n))
  {
    if n > 1 {
      BitLengthBounds(n / 2);
    }
  }

  lemma BitLengthUnique(n: nat, k: nat)
    requires k >= 1 && Pow2(k - 1) <= n < Pow2(k)
    ensures BitLength(n) == k
  {
    BitLengthBounds(n);
    if BitLength(n) < k {
      Pow2Monotone(BitLength(n), k - 1);
    } else if BitLength(n) > k {
      Pow2Monotone(k, BitLength(n) - 1);
    }
  }
}
