/**
 The error of the Newton-Raphson reciprocal of tb/uvm/rt_ref.py: for every normalised
 operand no 32-bit mask changes a value, three iterations come within about 1.5 of 2^61 / m,
 and the t, u and v that a hit reports are within a matching distance of their quotients.
 */
module Reciprocal {
  import opened Bits
  import opened Dyadic
  import opened RayTriangle

  const T := 0x2000_0000_0000_0000
  const T16 := 0x0200_0000_0000_0000

  predicate IsNormalised(m: int) {
    TWO31 <= m < TWO32
  }

  /** How far m * r is from 2^61. */
  function Residual(m: int, r: int): int {
    T - m * r
  }

  lemma SquareBound(e: int, b: int)
    requires -b <= e <= b
    ensures 0 <= e * e <= b * b
  {
    var d: nat, s: nat := b - e, b + e;
    assert d * s >= 0;
    assert d * s == b * b - e * e;
  }

  // --- the first approximation ---

  /** 24/17 - 8/17 * D is within one part in sixteen of 1 / D. */
  lemma StartBound(m: u32)
    requires IsNormalised(m)
    ensures NrStart(m) == PlainStart(m)
    ensures -T16 <= Residual(m, NrStart(m)) <= T16
  {
    var s := NR_C2 * m / 0x8000_0000;
    var low := NR_C2 * m % 0x8000_0000;
    assert NR_C2 * m == s * 0x8000_0000 + low;
    var r := NR_C1 - s;
    assert 0 <= r < TWO32;
    var mm := m * m;
    Parabola(m);
    ScaledStart(m, s, low, r);
  }

  lemma Parabola(m: int)
    requires TWO31 <= m <= TWO32
    ensures m * m <= 3 * TWO31 * m - 2 * TWO31 * TWO31
    ensures m * m >= 3 * TWO31 * m - 9 * 0x4000_0000 * 0x4000_0000
  {
    Expand(m, TWO31);
    MulMono(0, m - TWO31, TWO32 - m);
    Square(m - 3 * 0x4000_0000);
    ExpandSquare(m, 3 * 0x4000_0000);
  }

  lemma Expand(m: int, a: int)
    ensures (m - a) * (2 * a - m) == 3 * a * m - 2 * a * a - m * m
  {}

  lemma ExpandSquare(m: int, a: int)
    ensures (m - a) * (m - a) == m * m - 2 * a * m + a * a
  {}

  lemma Square(x: int)
    ensures x * x >= 0
  {}

  lemma ScaledStart(m: int, s: int, low: int, r: int)
    requires NR_C2 * m == s * 0x8000_0000 + low && 0 <= low < 0x8000_0000 && r == NR_C1 - s
    requires TWO31 <= m < TWO32
    requires m * m <= 3 * TWO31 * m - 2 * TWO31 * TWO31
    requires m * m >= 3 * TWO31 * m - 9 * 0x4000_0000 * 0x4000_0000
    ensures -T16 <= Residual(m, r) <= T16
  {
    assert 0x8000_0000 * (m * r) == 0x8000_0000 * NR_C1 * m - m * (s * 0x8000_0000);
    assert m * (s * 0x8000_0000) == m * (NR_C2 * m - low);
    assert m * (NR_C2 * m - low) == NR_C2 * (m * m) - m * low;
    MulMono(0, low, m);
    MulMono(low, 0x8000_0000, m);
  }

  // --- one iteration ---

  /** The residual after a step: (E^2 - X * a) / 2^61 + m * c / 2^30, where a and c are what the shifts discard. */
  lemma StepIdentity(m: int, r: int, p: int, a: int, r': int, c: int)
    requires m * r == p * 0x8000_0000 + a
    requires r * (0x8000_0000 - p) == r' * 0x4000_0000 + c
    ensures T * Residual(m, r') == Residual(m, r) * Residual(m, r) - (m * r) * a + 0x8000_0000 * (m * c)
  {
    var x := m * r;
    assert m * (r * (0x8000_0000 - p)) == m * (r' * 0x4000_0000 + c);
    assert m * (r * (0x8000_0000 - p)) == x * (0x8000_0000 - p);
    assert m * (r' * 0x4000_0000 + c) == 0x4000_0000 * (m * r') + m * c;
    assert 0x8000_0000 * (x * (0x8000_0000 - p)) == x * (0x4000_0000_0000_0000 - (x - a));
    assert x * (0x4000_0000_0000_0000 - (x - a)) == 0x4000_0000_0000_0000 * x - x * x + x * a;
    var e := Residual(m, r);
    assert e * e == T * T - 2 * T * x + x * x;
  }

  /** One step squares the relative error, up to truncation, and no mask changes a value. */
  lemma StepBound(m: u32, r: u32, b: int)
    requires IsNormalised(m) && 0 <= b <= T16 && -b <= Residual(m, r) <= b
    ensures m * r / 0x8000_0000 < 0x8000_0000
    ensures NrStep(m, r) == PlainStep(m, r)
    ensures T * Residual(m, NrStep(m, r)) <= b * b + T * m
    ensures T * Residual(m, NrStep(m, r)) >= -((T - Residual(m, r)) * 0x7FFF_FFFF)
    ensures -(TWO31 + TWO31 / 16) <= Residual(m, NrStep(m, r))
  {
    hide Residual, NrStep, Wrap;
    var x, p, a := ProductSplit(m, r);
    ResidualOf(m, r);
    var f := 0x8000_0000 - p;
    var r', c := FactorSplit(r, f);
    StepIdentity(m, r, p, a, r', c);
    SquareBound(Residual(m, r), b);
    Discarded(m, x, a, c);
    RangeOfStep(m, r', b, T * Residual(m, r'));
    StepShape(m, r, p, r');
  }

  lemma ResidualOf(m: int, r: int)
    ensures Residual(m, r) == T - m * r
  {}

  lemma ProductSplit(m: nat, r: nat) returns (x: nat, p: nat, a: nat)
    ensures x == m * r == p * 0x8000_0000 + a && p == m * r / 0x8000_0000 && a < 0x8000_0000
  {
    MulMono(0, m, r);
    x := m * r;
    p, a := x / 0x8000_0000, x % 0x8000_0000;
  }

  lemma FactorSplit(r: nat, f: nat) returns (r': int, c: nat)
    ensures r * f == r' * 0x4000_0000 + c && r' == r * f / 0x4000_0000 && c < 0x4000_0000
  {
    var y := r * f;
    r', c := y / 0x4000_0000, y % 0x4000_0000;
  }

  lemma StepShape(m: u32, r: u32, p: nat, r': int)
    requires p == m * r / 0x8000_0000 && p < 0x8000_0000
    requires r' == r * (0x8000_0000 - p) / 0x4000_0000 && 0 <= r' < TWO32
    ensures NrStep(m, r) == r'
  {
    hide Wrap;
    WrapSmall(p);
    WrapSmall(0x8000_0000 - p);
    WrapSmall(r');
  }

  lemma Discarded(m: int, x: int, a: int, c: int)
    requires 0 <= m && 0 <= x && 0 <= a < 0x8000_0000 && 0 <= c < 0x4000_0000
    ensures 0 <= x * a <= x * 0x7FFF_FFFF
    ensures 0 <= 0x8000_0000 * (m * c) <= T * m
  {
    MulMono(0, a, x);
    MulMono(a, 0x7FFF_FFFF, x);
    MulMono(0, c, m);
    MulMono(c, 0x4000_0000, m);
  }

  /** The result of a step is a word. */
  lemma RangeOfStep(m: int, r: int, b: int, scaled: int)
    requires IsNormalised(m) && 0 <= b <= T16 && scaled == T * Residual(m, r)
    requires -((T + b) * 0x7FFF_FFFF) <= scaled <= b * b + T * m
    ensures 0 <= r < TWO32
    ensures -(TWO31 + TWO31 / 16) <= Residual(m, r)
  {
    SquareBound(b, T16);
    MulMono(T + b, T + T16, 0x7FFF_FFFF);
    assert Residual(m, r) <= T / 256 + TWO32;
    if r < 0 {
      MulMono(r, -1, m);
    } else if r >= TWO32 {
      MulMono(TWO32, r, m);
    }
  }

  lemma BoundedBy(b: int, e: int, m: int, next: int)
    requires 0 <= b && IsNormalised(m) && T * e <= b * b + T * m && b * b <= T * next
    ensures e <= next + m
  {}

  /** The start value and the step without their 32-bit masks. */
  function PlainStart(m: int): int {
    NR_C1 - NR_C2 * m / 0x8000_0000
  }

  function PlainStep(m: int, r: int): int {
    r * (0x8000_0000 - m * r / 0x8000_0000) / 0x4000_0000
  }

  /** Main result: the reciprocal of a normalised operand; the masks could be left out. */
  lemma NewtonRaphsonBound(m: u32)
    requires IsNormalised(m)
    ensures NewtonRaphson(m) == PlainStep(m, PlainStep(m, PlainStep(m, PlainStart(m))))
    ensures T - m - 0x4000_0000 <= m * NewtonRaphson(m) <= T + TWO31 + 4
  {
    hide NrStart, NrStep, Residual;
    StartBound(m);
    var r0 := NrStart(m);
    StepBound(m, r0, T16);
    var r1 := NrStep(m, r0);
    var b1 := T / 256 + TWO32;
    BoundedBy(T16, Residual(m, r1), m, T / 256);
    StepBound(m, r1, b1);
    var r2 := NrStep(m, r1);
    var b2 := 0x2000_0000_0000 + 2 * TWO32;
    BoundedBy(b1, Residual(m, r2), m, 0x2000_0000_0000 + TWO32 / 4);
    StepBound(m, r2, b2);
    var r3 := NrStep(m, r2);
    BoundedBy(b2, Residual(m, r3), m, 0x4000_0000);
    LastResidual(m, r3, Residual(m, r2));
  }

  lemma LastResidual(m: int, r: int, before: int)
    requires T * Residual(m, r) >= -((T - before) * 0x7FFF_FFFF) && -(TWO31 + TWO31 / 16) <= before
    requires Residual(m, r) <= 0x4000_0000 + m
    ensures T - m - 0x4000_0000 <= m * r <= T + TWO31 + 4
  {
    assert (T - before) * 0x7FFF_FFFF <= (T + TWO32) * 0x7FFF_FFFF;
  }

  // --- the reciprocal of a determinant ---

  lemma Normalises(n: u32)
    requires n > 0
    ensures IsNormalised(n * Pow2(Clz(n)))
  {
    hide Pow2, BitLength;
    var len := BitLength(n);
    WordLength(n);
    BitLengthBounds(n);
    Pow2Values();
    Pow2Add(len, 32 - len);
    Pow2Add(len - 1, 32 - len);
    assert len - 1 + (32 - len) == 31;
    MulMono(Pow2(len - 1), n, Pow2(32 - len));
    MulMono(n + 1, Pow2(len), Pow2(32 - len));
    assert (n + 1) * Pow2(32 - len) == n * Pow2(32 - len) + Pow2(32 - len);
  }

  /** The reciprocal is at most about 1 + 10 / n below 2^32 / n, and at most 4 / n above. */
  lemma RecipBound(n: u32)
    requires n > 0
    ensures TWO32 - n - 10 <= n * Recip(n) <= TWO32 + 4
  {
    hide Pow2, NewtonRaphson, Clz, Low, Wrap;
    var k := Clz(n);
    Normalises(n);
    var m := n * Pow2(k);
    WrapSmall(m);
    var r := NewtonRaphson(m);
    NewtonRaphsonBound(m);
    var shifted := Shl(r, k);
    assert n * shifted == m * r by { Exchange3(n, r, Pow2(k)); }
    var wide := Shr(shifted, 29);
    Divided(shifted, 29);
    assert Pow2(29) == 0x2000_0000 by { Power29(); }
    WideBound(n, m, shifted, wide, Low(shifted, 29));
    if wide >= TWO32 && n > 1 {
      MulMono(2, n, wide);
    }
  }

  lemma Exchange3(n: int, r: int, p: int)
    ensures n * (r * p) == (n * p) * r
  {}

  lemma Power29()
    ensures Pow2(29) == 0x2000_0000
  {
    Pow2Values();
    assert Pow2(31) == 2 * Pow2(30) && Pow2(30) == 2 * Pow2(29);
  }

  lemma WideBound(n: u32, m: u32, shifted: nat, wide: nat, low: nat)
    requires shifted == wide * 0x2000_0000 + low && low < 0x2000_0000
    requires T - m - 0x4000_0000 <= n * shifted <= T + TWO31 + 4
    ensures TWO32 - n - 10 <= n * wide <= TWO32 + 4
  {
    assert n * shifted == 0x2000_0000 * (n * wide) + n * low;
    MulMono(0, low, n);
    MulMono(low, 0x2000_0000, n);
  }

  /** out is num / n in Q16.16, from the reciprocal's error and one truncation; or it is saturated. */
  predicate Approximates(out: nat, num: int, n: int) {
    && n * out * FX_ONE <= num * (TWO32 + 4)
    && (out == T_MAX || n * (out + 1) * FX_ONE > num * (TWO32 - n - 10))
  }

  lemma ScaleBound(num: u32, n: u32)
    requires n > 0
    ensures Approximates(Scale(num, Recip(n)), num, n)
  {
    hide Recip;
    var recip := Recip(n);
    RecipBound(n);
    var x := num * recip;
    MulMono(0, num, recip);
    var w, low := x / FX_ONE, x % FX_ONE;
    assert x == w * FX_ONE + low;
    assert num * (n * recip) == n * x by { Exchange3(num, n, recip); }
    assert n * x == n * w * FX_ONE + n * low by { Distribute3(n, w, low); }
    MulMono(n * recip, TWO32 + 4, num);
    MulMono(TWO32 - n - 10, n * recip, num);
    MulMono(0, low, n);
    MulMono(low, FX_ONE - 1, n);
    var out := Scale(num, recip);
    MulMono(out, w, n);
    assert n * (w + 1) * FX_ONE == n * w * FX_ONE + n * FX_ONE by { Distribute3(n, w, FX_ONE); }
  }

  lemma Distribute3(n: int, w: int, low: int)
    ensures n * (w * FX_ONE + low) == n * w * FX_ONE + n * low
    ensures n * (w + 1) * FX_ONE == n * w * FX_ONE + n * FX_ONE
  {}

  lemma FromSum(n: int, u: nat, v: nat, x: int, y: int)
    requires n > 0 && x >= 0 && y >= 0 && x + y <= n
    requires Approximates(u, x, n) && Approximates(v, y, n)
    ensures u + v <= FX_ONE
  {
    MulMono(x + y, n, TWO32 + 4);
    assert (x + y) * (TWO32 + 4) == x * (TWO32 + 4) + y * (TWO32 + 4);
    assert n * (u + v) * FX_ONE == n * u * FX_ONE + n * v * FX_ONE;
    if u + v >= FX_ONE + 1 {
      MulMono(FX_ONE + 1, u + v, n);
    }
  }

  /** Wrapped values, as the quotients are. */
  predicate InRange(q: Quotients) {
    && -TWO31 <= q.det < TWO31 && -TWO31 <= q.t < TWO31 && -TWO31 <= q.u < TWO31 && -TWO31 <= q.v < TWO31
  }

  lemma QuotientsInRange(o: Vec, d: Vec, v0: Vec, v1: Vec, v2: Vec)
    ensures InRange(QuotientsOf(o, d, v0, v1, v2).Normalised())
  {
    hide FxMul, Sub, Cross;
  }

  lemma ResolveBounds(q: Quotients)
    requires InRange(q) && Resolve(q).Hit?
    ensures var r, n := Resolve(q), Wrap(q.det);
      && q.IsHit() && n > 0
      && Approximates(r.t, q.t, n) && Approximates(r.u, q.u, n) && Approximates(r.v, q.v, n)
      && r.u + r.v <= FX_ONE
  {
    hide Scale, Recip, Approximates;
    var n := PositiveDet(q);
    ScaleBound(Wrap(q.t), n);
    ScaleBound(Wrap(q.u), n);
    ScaleBound(Wrap(q.v), n);
    var r := Resolve(q);
    FromSum(n, r.u, r.v, q.u, q.v);
  }

  /**
   Main result: a reported hit has t, u and v near the exact quotients by the determinant,
   and its barycentric coordinates stay inside the triangle: u + v <= 1.0.
   */
  lemma HitBounds(ray: Ray, v0: Vec, v1: Vec, v2: Vec)
    requires TriIsect(ray, v0, v1, v2).Hit?
    ensures var r, q := TriIsect(ray, v0, v1, v2), QuotientsOf(ray.o, ray.d, v0, v1, v2).Normalised();
      var n := Wrap(q.det);
      && n > 0 && Approximates(r.t, q.t, n) && Approximates(r.u, q.u, n) && Approximates(r.v, q.v, n)
      && r.u + r.v <= FX_ONE
  {
    hide QuotientsOf, Resolve, Approximates;
    QuotientsInRange(ray.o, ray.d, v0, v1, v2);
    ResolveBounds(QuotientsOf(ray.o, ray.d, v0, v1, v2).Normalised());
  }
}
