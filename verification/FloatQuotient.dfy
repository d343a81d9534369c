/**
 `simulate` divides with Python's float division and truncates (`int(x / y)`). For 32-bit
 operands that is C's integer division, although the binary64 quotient is rounded.
 */
module FloatQuotient {
  import opened Bits
  import opened Dyadic
  import opened Float
  import opened FloatRounding

  const BINARY64 := Format(11, 52)

  /** Every small enough multiple of a power of two is a magnitude of the format. */
  lemma {:induction false} Normalised(n: nat, e: int, fmt: Format) returns (m: Magnitude)
    requires fmt.Valid() && n < Pow2(fmt.mant + 1) && e >= fmt.MinScale()
    ensures Canonical(m, fmt) && m.Value() == Scaled(n, e)
    decreases e - fmt.MinScale()
  {
    hide Pow2, Scaled, Format.MinScale;
    if n >= Pow2(fmt.mant) || e == fmt.MinScale() {
      m := Magnitude(n, e);
    } else {
      PowerStep(fmt.mant + 1);
      ScaledShift(n, e, 1);
      assert Pow2(1) == 2 by { Pow2Values(); }
      m := Normalised(2 * n, e - 1, fmt);
    }
  }

  /** A nearest magnitude does not pass another magnitude that x does not pass. */
  lemma NearestMonotone(fmt: Format, x: real, f: Magnitude, z: Magnitude)
    requires fmt.Valid() && RoundsTo(fmt, Nearest, x, f) && Canonical(z, fmt)
    ensures z.Value() <= x ==> z.Value() <= f.Value()
    ensures x <= z.Value() ==> f.Value() <= z.Value()
  {
    hide Canonical, Scaled;
    assert NoFarther(x, f, z);
  }

  lemma ValidFormat()
    ensures BINARY64.Valid() && BINARY64.MinScale() <= -64 && Pow2(53) >= Pow2(34) + Pow2(33)
  {
    hide Pow2;
    Pow2Monotone(8, BINARY64.exp - 1);
    Pow2Values();
    Pow2Monotone(35, 53);
    PowerStep(35);
    PowerStep(34);
  }

  /** The quotient of naturals below 2^32, rounded to nearest in binary64, has the integer quotient as its integer part. */
  lemma QuotientFloor(a: nat, b: nat, f: Magnitude)
    requires a <= TWO31 && 0 < b <= TWO31 && BINARY64.Valid()
    requires RoundsTo(BINARY64, Nearest, a as real / b as real, f)
    ensures f.Value().Floor == a / b
  {
    hide Pow2, Scaled, RoundsTo, Canonical, P2, BitLength;
    ValidFormat();
    var x, q, k := a as real / b as real, a / b, BitLength(b);
    BitLengthBounds(b);
    WholeQuotient(a, b);
    CeilingBound(a, b, k);
    ScaleOfWhole(q);
    var low := Normalised(q, 0, BINARY64);
    var n := (q + 1) * Pow2(k) - 1;
    BelowNext(a, b, k);
    KBound(b);
    var d: int := k;
    var high := Normalised(n, -d, BINARY64);
    NearestMonotone(BINARY64, x, f, low);
    NearestMonotone(BINARY64, x, f, high);
  }

  lemma KBound(b: nat)
    requires 0 < b <= TWO31
    ensures BitLength(b) <= 32
  {
    hide Pow2, BitLength;
    Pow2Values();
    BitLengthBounds(b);
    if BitLength(b) > 32 {
      Pow2Monotone(32, BitLength(b) - 1);
    }
  }

  lemma ScaleOfWhole(q: nat)
    ensures Scaled(q, 0) == q as real
  {}

  lemma WholeQuotient(a: nat, b: nat)
    requires b > 0
    ensures 0 <= a / b <= a && (a / b) as real <= a as real / b as real
    ensures a / b * b + b >= a + 1
  {
    QuotientBound(a, b);
    var q := a / b;
    assert a == q * b + a % b;
    assert q as real * b as real <= a as real by { assert q as real * b as real == (q * b) as real; }
    RealQuotientAtLeast(q as real, a as real, b as real);
  }

  lemma RealLess(x: real, y: real, b: real)
    requires x < y && b > 0.0
    ensures x * b < y * b
  {
    assert (y - x) * b > 0.0;
  }

  lemma RealQuotientAtLeast(q: real, a: real, b: real)
    requires b > 0.0 && q * b <= a
    ensures q <= a / b
  {
    assert a / b * b == a;
    if q > a / b {
      RealLess(a / b, q, b);
    }
  }

  lemma RealQuotientAtMost(q: real, a: real, b: real)
    requires b > 0.0 && a <= q * b
    ensures a / b <= q
  {
    assert a / b * b == a;
    if q < a / b {
      RealLess(q, a / b, b);
    }
  }

  /** The multiple of 2^-k just below q + 1 is at least the quotient, because 2^k is at least the divisor. */
  lemma BelowNext(a: nat, b: nat, k: nat)
    requires b > 0 && b <= Pow2(k) && a / b * b + b >= a + 1 && a / b >= 0
    ensures var n := (a / b + 1) * Pow2(k) - 1;
      && n >= 0 && a as real / b as real <= Scaled(n, 0 - k) < (a / b + 1) as real
  {
    hide P2, Pow2;
    var q, p := a / b, Pow2(k);
    var n, u := (q + 1) * p - 1, P2(0 - k);
    MulMono(1, q + 1, p);
    ScaledShift(q + 1, 0, k);
    ScaleOfWhole(q + 1);
    ScaledSum(n, 1, 0 - k);
    Unit(k);
    assert Scaled(n, 0 - k) == (q + 1) as real - u;
    MulReal(b, p, u);
    assert (q + 1) * b >= a + 1;
    Distributed((q + 1) as real, u, b as real);
    assert (q + 1) as real * b as real == ((q + 1) * b) as real;
    RealQuotientAtMost((q + 1) as real - u, a as real, b as real);
  }

  lemma Unit(k: nat)
    ensures Pow2(k) as real * P2(0 - k) == 1.0 && Scaled(1, 0 - k) == P2(0 - k)
  {
    hide P2;
    P2Shift(0 - k, k);
    P2Zero();
  }

  lemma MulReal(b: nat, p: nat, u: real)
    requires b <= p && u > 0.0 && p as real * u == 1.0
    ensures b as real * u <= 1.0
  {
    assert (p as real - b as real) * u >= 0.0;
  }

  lemma Distributed(x: real, u: real, b: real)
    ensures (x - u) * b == x * b - u * b
  {}

  /** The witness has at most 34 bits. */
  lemma CeilingBound(a: nat, b: nat, k: nat)
    requires a <= TWO31 && 0 < b <= TWO31 && k == BitLength(b) && a / b >= 0
    ensures a / b <= TWO31 && (a / b + 1) * Pow2(k) <= Pow2(34) && TWO31 < Pow2(34)
  {
    hide Pow2, BitLength;
    var q := a / b;
    QuotientBound(a, b);
    BitLengthBounds(b);
    PowerStep(k);
    Pow2Values();
    PowerStep(34);
    PowerStep(33);
    assert q * b <= a;
    MulMono(Pow2(k), 2 * b, q + 1);
    assert (q + 1) * (2 * b) == 2 * (q * b) + 2 * b;
  }

  /** Main result: truncating the rounded quotient is C's integer division, for all 32-bit operands. */
  lemma TruncatedFloatQuotient(x: int, y: int, f: Magnitude)
    requires -TWO31 <= x < TWO31 && -TWO31 <= y < TWO31 && y != 0 && BINARY64.Valid()
    requires RoundsTo(BINARY64, Nearest, Abs(x) as real / Abs(y) as real, f)
    ensures TruncDiv(x, y) == if (x < 0) == (y < 0) then f.Value().Floor else -f.Value().Floor
  {
    hide RoundsTo;
    QuotientFloor(Abs(x), Abs(y), f);
  }
}
