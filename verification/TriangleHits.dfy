/**
 When `tri_isect` of tb/uvm/rt_ref.py reports a hit. Where nothing is lost or wraps it does so
 exactly when the ray meets the triangle at a positive parameter, for either winding, and
 exchanging two vertices exchanges the barycentric coordinates. Where truncation loses
 something, a ray that meets the triangle by more than the error is a hit, and a hit meets
 the triangle up to the error.
 */
module TriangleHits {
  import opened Bits
  import opened RayTriangle
  import opened RayGeometry
  import opened RayError

  /** det, t, u and v over one scale, as signed products; a negative det turns all signs. */
  predicate Inside(det: int, t: int, u: int, v: int) {
    if det > 0 then u >= 0 && v >= 0 && u + v <= det && t > 0
    else det < 0 && u <= 0 && v <= 0 && u + v >= det && t < 0
  }

  /** The one value of each numerator whose negation is not a signed word. */
  predicate NegationWraps(q: Quotients) {
    q.det < 0 && (q.t == -TWO31 || q.u == -TWO31 || q.v == -TWO31)
  }

  predicate Words(q: Quotients) {
    InRange(q.det) && InRange(q.t) && InRange(q.u) && InRange(q.v)
  }

  lemma NegatedWord(x: int)
    requires InRange(x)
    ensures Signed(-x) == if x == -TWO31 then x else -x
  {
    if x != -TWO31 {
      SignedOfWrap(-x);
    }
  }

  lemma WordOf(x: int)
    requires 0 <= x <= TWO31
    ensures Wrap(x) == x && Wrap(if x == TWO31 then -x else x) == x
  {}

  /** The branches of `tri_isect` after the numerators, in terms of the numerators before the sign is turned. */
  lemma ReportsInside(q: Quotients)
    requires Words(q)
    ensures Resolve(q.Normalised()).Hit? <==> Inside(q.det, q.t, q.u, q.v) && !NegationWraps(q)
  {
    hide Signed, Wrap, Recip, Scale;
    if q.det < 0 {
      NegatedWord(q.det);
      NegatedWord(q.t);
      NegatedWord(q.u);
      NegatedWord(q.v);
      WordOf(-q.det);
    } else {
      WordOf(q.det);
    }
  }

  lemma QuotientWords(o: Vec, d: Vec, v0: Vec, v1: Vec, v2: Vec)
    ensures Words(QuotientsOf(o, d, v0, v1, v2))
  {
    hide FxMul, Cross, Sub;
  }

  lemma InsideScaled(det: int, t: int, u: int, v: int, k: int)
    requires k > 0
    ensures Inside(k * det, k * t, k * u, k * v) <==> Inside(det, t, u, v)
  {
    SignScaled(det, k);
    SignScaled(t, k);
    SignScaled(u, k);
    SignScaled(v, k);
    SignScaled(u + v - det, k);
    assert k * (u + v - det) == k * u + k * v - k * det;
  }

  lemma SignScaled(x: int, k: int)
    requires k > 0
    ensures k * x > 0 <==> x > 0
    ensures k * x < 0 <==> x < 0
  {}

  // --- the products of Cramer's rule ---

  function Minus(a: Vec, b: Vec): Vec {
    Vec(a.x - b.x, a.y - b.y, a.z - b.z)
  }

  /** det, t, u and v for the edges e1, e2 and the way s from v0 to the origin of the ray, without any rounding. */
  function DetOf(d: Vec, e1: Vec, e2: Vec): int { Plain(e1, PlainCross(d, e2)) }

  function TOf(s: Vec, e1: Vec, e2: Vec): int { Plain(e2, PlainCross(s, e1)) }

  function UOf(s: Vec, d: Vec, e2: Vec): int { Plain(s, PlainCross(d, e2)) }

  function VOf(s: Vec, d: Vec, e1: Vec): int { Plain(d, PlainCross(s, e1)) }

  lemma ExactDifference(a: Vec, b: Vec)
    requires ExactSub(a, b)
    ensures Sub(a, b) == Minus(a, b)
  {
    hide Signed;
    SignedOfWrap(a.x - b.x);
    SignedOfWrap(a.y - b.y);
    SignedOfWrap(a.z - b.z);
  }

  lemma LosslessProducts(o: Vec, d: Vec, v0: Vec, v1: Vec, v2: Vec)
    requires Lossless(o, d, v0, v1, v2)
    ensures Sub(v1, v0) == Minus(v1, v0) && Sub(v2, v0) == Minus(v2, v0) && Sub(o, v0) == Minus(o, v0)
    ensures AreProducts(QuotientsOf(o, d, v0, v1, v2), Minus(o, v0), d, Minus(v1, v0), Minus(v2, v0))
  {
    hide Sub, Cross, Dot, ExactCross, ExactDot, Plain, PlainCross, ExactSub, Minus;
    ExactDifference(v1, v0);
    ExactDifference(v2, v0);
    ExactDifference(o, v0);
    var e1, e2, s := Sub(v1, v0), Sub(v2, v0), Sub(o, v0);
    TripleScaled(e1, d, e2);
    TripleScaled(e2, s, e1);
    TripleScaled(s, d, e2);
    TripleScaled(d, s, e1);
  }

  /** A hit by the exact products, in units of 2^-32, for either sign of det. */
  lemma HitByProducts(ray: Ray, v0: Vec, v1: Vec, v2: Vec)
    requires Lossless(ray.o, ray.d, v0, v1, v2)
    ensures var e1, e2, s := Minus(v1, v0), Minus(v2, v0), Minus(ray.o, v0);
      TriIsect(ray, v0, v1, v2).Hit? <==>
        && Inside(DetOf(ray.d, e1, e2), TOf(s, e1, e2), UOf(s, ray.d, e2), VOf(s, ray.d, e1))
        && !NegationWraps(QuotientsOf(ray.o, ray.d, v0, v1, v2))
  {
    hide QuotientsOf, Lossless, Resolve, Quotients.Normalised, Inside, Plain, PlainCross, Minus, Words, NegationWraps;
    var q := QuotientsOf(ray.o, ray.d, v0, v1, v2);
    LosslessProducts(ray.o, ray.d, v0, v1, v2);
    QuotientWords(ray.o, ray.d, v0, v1, v2);
    ReportsInside(q);
    InsideScaled(q.det, q.t, q.u, q.v, FX_ONE * FX_ONE);
  }

  // --- geometry ---

  /** n * s + t * d == u * e1 + v * e2: at parameter t / n the ray is at the point with coordinates u / n and v / n of the plane. */
  predicate MeetsAt(s: Vec, d: Vec, e1: Vec, e2: Vec, n: int, t: int, u: int, v: int) {
    n > 0 && t > 0 && u >= 0 && v >= 0 && u + v <= n && Solves(n, t, u, v, s, d, e1, e2)
  }

  /** The ray meets the triangle at a positive rational parameter. */
  ghost predicate Meets(o: Vec, d: Vec, v0: Vec, v1: Vec, v2: Vec) {
    exists n: int, t: int, u: int, v: int :: MeetsAt(Minus(o, v0), d, Minus(v1, v0), Minus(v2, v0), n, t, u, v)
  }

  /** A vector is orthogonal to its cross products. */
  lemma Orthogonal(a: Vec, b: Vec)
    ensures Plain(a, PlainCross(a, b)) == 0 && Plain(b, PlainCross(a, b)) == 0
  {
    var h := PlainCross(a, b);
    Spread(a.x, a.y, b.z, a.z, b.y);
    Spread(a.y, a.z, b.x, a.x, b.z);
    Spread(a.z, a.x, b.y, a.y, b.x);
    Spread(b.x, a.y, b.z, a.z, b.y);
    Spread(b.y, a.z, b.x, a.x, b.z);
    Spread(b.z, a.x, b.y, a.y, b.x);
    Thrice(a.x, a.y, b.z);
    Thrice(a.x, a.z, b.y);
    Thrice(a.y, a.z, b.x);
    Thrice(a.x, b.y, b.z);
    Thrice(b.x, a.y, b.z);
    Thrice(b.x, a.z, b.y);
  }

  lemma Spread(k: int, p: int, q: int, r: int, s: int)
    ensures k * (p * q - r * s) == k * (p * q) - k * (r * s)
  {}

  lemma Thrice(x: int, y: int, z: int)
    ensures x * (y * z) == y * (x * z) == z * (x * y)
    ensures x * (y * z) == y * (z * x) == z * (y * x) == x * (z * y)
  {}

  /** The equation, multiplied with a vector. */
  lemma Multiplied(s: Vec, d: Vec, e1: Vec, e2: Vec, n: int, t: int, u: int, v: int, h: Vec)
    requires Solves(n, t, u, v, s, d, e1, e2)
    ensures n * Plain(s, h) + t * Plain(d, h) == u * Plain(e1, h) + v * Plain(e2, h)
  {
    Term(n, s, h);
    Term(t, d, h);
    Term(u, e1, h);
    Term(v, e2, h);
    Row(n, t, u, v, s.x, d.x, e1.x, e2.x, h.x);
    Row(n, t, u, v, s.y, d.y, e1.y, e2.y, h.y);
    Row(n, t, u, v, s.z, d.z, e1.z, e2.z, h.z);
  }

  lemma Term(k: int, a: Vec, h: Vec)
    ensures k * Plain(a, h) == k * a.x * h.x + k * a.y * h.y + k * a.z * h.z
  {}

  lemma Row(n: int, t: int, u: int, v: int, s: int, d: int, e1: int, e2: int, h: int)
    requires n * s + t * d == u * e1 + v * e2
    ensures n * s * h + t * d * h == u * e1 * h + v * e2 * h
  {
    assert (n * s + t * d) * h == n * s * h + t * d * h;
    assert (u * e1 + v * e2) * h == u * e1 * h + v * e2 * h;
  }

  lemma Reversed(a: Vec, b: Vec, h: Vec)
    ensures Plain(h, PlainCross(b, a)) == -Plain(h, PlainCross(a, b))
  {
    Opposite(h.x, a.y * b.z, a.z * b.y);
    Opposite(h.y, a.z * b.x, a.x * b.z);
    Opposite(h.z, a.x * b.y, a.y * b.x);
  }

  lemma Opposite(k: int, p: int, q: int)
    ensures k * (q - p) == -(k * (p - q))
  {}

  /** The triple product of three vectors may be rotated. */
  lemma Cyclic(a: Vec, b: Vec, c: Vec)
    ensures Plain(a, PlainCross(b, c)) == Plain(b, PlainCross(c, a))
  {
    Spread(a.x, b.y, c.z, b.z, c.y);
    Spread(a.y, b.z, c.x, b.x, c.z);
    Spread(a.z, b.x, c.y, b.y, c.x);
    Spread(b.x, c.y, a.z, c.z, a.y);
    Spread(b.y, c.z, a.x, c.x, a.z);
    Spread(b.z, c.x, a.y, c.y, a.x);
    Thrice(a.x, b.y, c.z);
    Thrice(a.x, b.z, c.y);
    Thrice(a.y, b.z, c.x);
    Thrice(a.y, b.x, c.z);
    Thrice(a.z, b.x, c.y);
    Thrice(a.z, b.y, c.x);
  }

  /** A solution is the one of Cramer's rule. */
  lemma SolutionUnique(s: Vec, d: Vec, e1: Vec, e2: Vec, n: int, t: int, u: int, v: int)
    requires Solves(n, t, u, v, s, d, e1, e2)
    ensures n * UOf(s, d, e2) == u * DetOf(d, e1, e2)
    ensures n * VOf(s, d, e1) == v * DetOf(d, e1, e2)
    ensures n * TOf(s, e1, e2) == t * DetOf(d, e1, e2)
  {
    hide Plain, PlainCross, Solves;
    Multiplied(s, d, e1, e2, n, t, u, v, PlainCross(d, e2));
    Orthogonal(d, e2);
    Multiplied(s, d, e1, e2, n, t, u, v, PlainCross(d, e1));
    Orthogonal(d, e1);
    Cyclic(e2, d, e1);
    Cyclic(d, e1, e2);
    Reversed(d, e2, e1);
    Cyclic(s, d, e1);
    Reversed(s, e1, d);
    Multiplied(s, d, e1, e2, n, t, u, v, PlainCross(e1, e2));
    Orthogonal(e1, e2);
    Cyclic(e2, s, e1);
    TripleFacts(s, d, e1, e2);
    Combined(n, t, v, UOf(s, d, e2), VOf(s, d, e1), TOf(s, e1, e2), DetOf(d, e1, e2));
  }

  /** The triple products that occur, in terms of the four that are computed. */
  lemma TripleFacts(s: Vec, d: Vec, e1: Vec, e2: Vec)
    ensures Plain(e2, PlainCross(d, e1)) == -DetOf(d, e1, e2) && Plain(d, PlainCross(e1, e2)) == -DetOf(d, e1, e2)
    ensures Plain(s, PlainCross(d, e1)) == -VOf(s, d, e1) && Plain(s, PlainCross(e1, e2)) == TOf(s, e1, e2)
  {
    hide Plain, PlainCross;
    Cyclic(e1, d, e2);
    Cyclic(d, e2, e1);
    Reversed(d, e1, e2);
    Reversed(e1, e2, d);
    Cyclic(e2, e1, d);
    Cyclic(s, d, e1);
    Reversed(s, e1, d);
    Cyclic(s, e1, e2);
    Cyclic(e1, e2, s);
    Cyclic(e2, d, e1);
    Cyclic(d, e1, s);
  }

  lemma Combined(n: int, t: int, v: int, u0: int, v0: int, t0: int, det: int)
    ensures n * -v0 == v * -det ==> n * v0 == v * det
    ensures n * t0 + t * -det == 0 ==> n * t0 == t * det
  {}

  /** Without rounding, the products of Cramer's rule solve the equation. */
  lemma ProductsSolvePlainly(s: Vec, d: Vec, e1: Vec, e2: Vec)
    ensures Solves(DetOf(d, e1, e2), TOf(s, e1, e2), UOf(s, d, e2), VOf(s, d, e1), s, d, e1, e2)
  {
    hide Plain, PlainCross, Rotated;
    CramerX(e1, d, e2, s);
    RotatedCramer(e1, d, e2, s);
    RotatedCramer(Rotated(e1), Rotated(d), Rotated(e2), Rotated(s));
    RotatedTwice(e1, d, e2, s);
  }

  lemma InsideNegated(det: int, t: int, u: int, v: int)
    ensures Inside(-det, -t, -u, -v) <==> Inside(det, t, u, v)
  {}

  /** Where ray and triangle are not parallel, the products are inside exactly when the ray meets the triangle. */
  lemma MeetsInside(o: Vec, d: Vec, v0: Vec, v1: Vec, v2: Vec)
    ensures var e1, e2, s := Minus(v1, v0), Minus(v2, v0), Minus(o, v0);
      Inside(DetOf(d, e1, e2), TOf(s, e1, e2), UOf(s, d, e2), VOf(s, d, e1))
      <==> DetOf(d, e1, e2) != 0 && Meets(o, d, v0, v1, v2)
  {
    hide DetOf, TOf, UOf, VOf, Minus, Solves;
    var e1, e2, s := Minus(v1, v0), Minus(v2, v0), Minus(o, v0);
    var det, t, u, v := DetOf(d, e1, e2), TOf(s, e1, e2), UOf(s, d, e2), VOf(s, d, e1);
    if Inside(det, t, u, v) {
      ProductsSolvePlainly(s, d, e1, e2);
      if det > 0 {
        assert MeetsAt(s, d, e1, e2, det, t, u, v);
      } else {
        NegatedSolve(det, t, u, v, s, d, e1, e2);
        assert MeetsAt(s, d, e1, e2, -det, -t, -u, -v);
      }
    }
    if det != 0 && Meets(o, d, v0, v1, v2) {
      var n: int, t': int, u': int, v': int :| MeetsAt(s, d, e1, e2, n, t', u', v');
      SolutionUnique(s, d, e1, e2, n, t', u', v');
      SameRatios(det, t, u, v, n, t', u', v');
    }
  }

  lemma SameRatios(det: int, t: int, u: int, v: int, n: int, t': int, u': int, v': int)
    requires det != 0 && n > 0 && Inside(n, t', u', v')
    requires n * u == u' * det && n * v == v' * det && n * t == t' * det
    ensures Inside(det, t, u, v)
  {
    hide Inside;
    InsideScaled(det, t, u, v, n);
    if det > 0 {
      InsideScaled(n, t', u', v', det);
      assert det * n == n * det && det * t' == n * t && det * u' == n * u && det * v' == n * v;
    } else {
      InsideScaled(n, t', u', v', -det);
      InsideNegated(n * det, n * t, n * u, n * v);
      NegatedFactor(det, n);
      NegatedFactor(det, t');
      NegatedFactor(det, u');
      NegatedFactor(det, v');
    }
  }

  lemma NegatedFactor(k: int, x: int)
    ensures -k * x == -(x * k)
  {}

  /** A numerator is the negative word of greatest magnitude and det is negative: the sign cannot be turned. */
  predicate Extreme(det: int, t: int, u: int, v: int) {
    var least := -TWO31 * (FX_ONE * FX_ONE);
    det < 0 && (t == least || u == least || v == least)
  }

  lemma ExtremeScaled(q: Quotients)
    ensures NegationWraps(q) <==>
      Extreme(FX_ONE * FX_ONE * q.det, FX_ONE * FX_ONE * q.t, FX_ONE * FX_ONE * q.u, FX_ONE * FX_ONE * q.v)
  {}

  /** Main result: without loss, a hit is reported if and only if the ray meets the triangle and is not parallel to it, one extreme apart. */
  lemma HitExactly(ray: Ray, v0: Vec, v1: Vec, v2: Vec)
    requires Lossless(ray.o, ray.d, v0, v1, v2)
    ensures var e1, e2, s := Minus(v1, v0), Minus(v2, v0), Minus(ray.o, v0);
      var det := DetOf(ray.d, e1, e2);
      TriIsect(ray, v0, v1, v2).Hit? <==>
        && det != 0 && Meets(ray.o, ray.d, v0, v1, v2)
        && !Extreme(det, TOf(s, e1, e2), UOf(s, ray.d, e2), VOf(s, ray.d, e1))
  {
    hide QuotientsOf, Lossless, TriIsect, Inside, Plain, PlainCross, Minus, NegationWraps, Extreme, Meets;
    var q := QuotientsOf(ray.o, ray.d, v0, v1, v2);
    HitByProducts(ray, v0, v1, v2);
    MeetsInside(ray.o, ray.d, v0, v1, v2);
    LosslessProducts(ray.o, ray.d, v0, v1, v2);
    ExtremeScaled(q);
  }

  // --- the extreme occurs ---

  /** A ray from 32768.0 below a unit triangle, straight up through its inside, is reported as a miss. */
  lemma ExtremeMissed()
    ensures var ray := Ray(Vec(16384, 16384, -TWO31), Vec(0, 0, FX_ONE), Vec(T_MAX, T_MAX, FX_ONE));
      var v0, v1, v2 := Vec(0, 0, 0), Vec(FX_ONE, 0, 0), Vec(0, FX_ONE, 0);
      && Lossless(ray.o, ray.d, v0, v1, v2) && Meets(ray.o, ray.d, v0, v1, v2)
      && TriIsect(ray, v0, v1, v2).Miss?
  {
    hide Lossless, TriIsect, Minus, DetOf, TOf, UOf, VOf, Solves, Extreme;
    var o, d, e1, e2 := Vec(16384, 16384, -TWO31), Vec(0, 0, FX_ONE), Vec(FX_ONE, 0, 0), Vec(0, FX_ONE, 0);
    var v0 := Vec(0, 0, 0);
    ExtremeLossless();
    ExtremeValues();
    assert MeetsAt(o, d, e1, e2, 4, 131072, 1, 1);
    HitExactly(Ray(o, d, Vec(T_MAX, T_MAX, FX_ONE)), v0, e1, e2);
  }

  lemma ExtremeValues()
    ensures var o, d, e1, e2 := Vec(16384, 16384, -TWO31), Vec(0, 0, FX_ONE), Vec(FX_ONE, 0, 0), Vec(0, FX_ONE, 0);
      var v0 := Vec(0, 0, 0);
      && Minus(o, v0) == o && Minus(e1, v0) == e1 && Minus(e2, v0) == e2
      && Solves(4, 131072, 1, 1, o, d, e1, e2)
      && Extreme(DetOf(d, e1, e2), TOf(o, e1, e2), UOf(o, d, e2), VOf(o, d, e1))
  {
    hide DetOf, TOf, UOf, VOf;
    ExtremeDet();
    ExtremeT();
  }

  lemma ExtremeDet()
    ensures DetOf(Vec(0, 0, FX_ONE), Vec(FX_ONE, 0, 0), Vec(0, FX_ONE, 0)) == -0x1_0000_0000_0000
  {
    hide PlainCross;
    AlongAxes(Vec(0, 0, FX_ONE), Vec(0, FX_ONE, 0));
    assert PlainCross(Vec(0, 0, FX_ONE), Vec(0, FX_ONE, 0)) == Vec(-0x1_0000_0000, 0, 0);
  }

  lemma ExtremeT()
    ensures TOf(Vec(16384, 16384, -TWO31), Vec(FX_ONE, 0, 0), Vec(0, FX_ONE, 0)) == -TWO31 * (FX_ONE * FX_ONE)
  {
    hide PlainCross;
    AlongAxes(Vec(16384, 16384, -TWO31), Vec(FX_ONE, 0, 0));
    assert PlainCross(Vec(16384, 16384, -TWO31), Vec(FX_ONE, 0, 0)) == Vec(0, -TWO31 * FX_ONE, -0x4000_0000);
  }

  /** The cross product with a vector along an axis. */
  lemma AlongAxes(a: Vec, b: Vec)
    ensures b.y == 0 && b.z == 0 ==> PlainCross(a, b) == Vec(0, a.z * b.x, -(a.y * b.x))
    ensures b.x == 0 && b.z == 0 ==> PlainCross(a, b) == Vec(-(a.z * b.y), 0, a.x * b.y)
  {}

  lemma Products()
    ensures FxMul(0, 0) == 0 && FxMul(FX_ONE, FX_ONE) == FX_ONE && FxMul(-FX_ONE, FX_ONE) == -FX_ONE && FxMul(FX_ONE, -FX_ONE) == -FX_ONE
    ensures FxMul(0, FX_ONE) == 0 && FxMul(FX_ONE, 0) == 0 && FxMul(16384, FX_ONE) == 16384 && FxMul(16384, 0) == 0 && FxMul(0, 16384) == 0
    ensures FxMul(-TWO31, 0) == 0 && FxMul(-TWO31, FX_ONE) == -TWO31 && FxMul(FX_ONE, -TWO31) == -TWO31 && FxMul(0, -TWO31) == 0
    ensures FxMul(16384, -FX_ONE) == -16384 && FxMul(FX_ONE, -16384) == -16384 && FxMul(0, -16384) == 0 && FxMul(0, -FX_ONE) == 0
  {}

  lemma ExtremeLossless()
    ensures Lossless(Vec(16384, 16384, -TWO31), Vec(0, 0, FX_ONE), Vec(0, 0, 0), Vec(FX_ONE, 0, 0), Vec(0, FX_ONE, 0))
  {
    hide FxMul;
    Products();
    var o, d, e1, e2 := Vec(16384, 16384, -TWO31), Vec(0, 0, FX_ONE), Vec(FX_ONE, 0, 0), Vec(0, FX_ONE, 0);
    var v0 := Vec(0, 0, 0);
    assert Sub(e1, v0) == e1 && Sub(e2, v0) == e2 && Sub(o, v0) == o;
    assert Cross(d, e2) == Vec(-FX_ONE, 0, 0);
    assert Cross(o, e1) == Vec(0, -TWO31, -16384);
    assert ExactCross(d, e2) && ExactCross(o, e1);
  }

  // --- the other winding ---

  lemma MirroredProducts(s: Vec, d: Vec, e1: Vec, e2: Vec)
    ensures DetOf(d, e2, e1) == -DetOf(d, e1, e2) && TOf(s, e2, e1) == -TOf(s, e1, e2)
    ensures UOf(s, d, e1) == -VOf(s, d, e1) && VOf(s, d, e2) == -UOf(s, d, e2)
  {
    hide Plain, PlainCross;
    TripleFacts(s, d, e1, e2);
    TripleFacts(s, d, e2, e1);
    Reversed(e1, e2, s);
  }

  lemma MirroredQuotients(ray: Ray, v0: Vec, v1: Vec, v2: Vec)
    requires Lossless(ray.o, ray.d, v0, v1, v2) && Lossless(ray.o, ray.d, v0, v2, v1)
    ensures var q := QuotientsOf(ray.o, ray.d, v0, v1, v2);
      QuotientsOf(ray.o, ray.d, v0, v2, v1) == Quotients(-q.det, -q.t, -q.v, -q.u)
  {
    hide QuotientsOf, Lossless, Plain, PlainCross, Minus;
    LosslessProducts(ray.o, ray.d, v0, v1, v2);
    LosslessProducts(ray.o, ray.d, v0, v2, v1);
    MirroredProducts(Minus(ray.o, v0), ray.d, Minus(v1, v0), Minus(v2, v0));
  }

  /** Main result: without loss, exchanging v1 and v2 exchanges u and v and keeps the hit and its t. */
  lemma MirrorExchanges(ray: Ray, v0: Vec, v1: Vec, v2: Vec)
    requires Lossless(ray.o, ray.d, v0, v1, v2) && Lossless(ray.o, ray.d, v0, v2, v1)
    ensures TriIsect(ray, v0, v2, v1) ==
      match TriIsect(ray, v0, v1, v2)
      case Miss => Miss
      case Hit(t, u, v) => Hit(t, v, u)
  {
    hide QuotientsOf, Lossless, Recip, Scale, Signed, Wrap;
    var q := QuotientsOf(ray.o, ray.d, v0, v1, v2);
    MirroredQuotients(ray, v0, v1, v2);
    QuotientWords(ray.o, ray.d, v0, v1, v2);
    QuotientWords(ray.o, ray.d, v0, v2, v1);
    NegatedWord(q.det);
    NegatedWord(q.t);
    NegatedWord(q.u);
    NegatedWord(q.v);
    NegatedWord(-q.det);
    NegatedWord(-q.t);
    NegatedWord(-q.u);
    NegatedWord(-q.v);
    WordOf(0);
  }

  // --- with truncation ---

  /** Inside, with a margin for every comparison that is at least its error; sign is that of det. */
  predicate InsideBy(det: int, t: int, u: int, v: int, ed: int, et: int, eu: int, ev: int) {
    if det > 0 then det > ed && u >= eu && v >= ev && u + v + eu + ev + ed <= det && t > et
    else det < -ed && u <= -eu && v <= -ev && u + v - eu - ev - ed >= det && t < -et
  }

  lemma NearInside(det: int, t: int, u: int, v: int, dd: int, tt: int, uu: int, vv: int, ed: nat, et: nat, eu: nat, ev: nat)
    requires Near(det, dd, ed) && Near(t, tt, et) && Near(u, uu, eu) && Near(v, vv, ev)
    requires InsideBy(dd, tt, uu, vv, ed, et, eu, ev)
    ensures Inside(det, t, u, v)
  {}

  /** One of the comparisons fails by more than its error. */
  predicate OutsideBy(det: int, t: int, u: int, v: int, ed: int, et: int, eu: int, ev: int) {
    || (det > ed && (u < -eu || v < -ev || u + v > det + eu + ev + ed || t <= -et))
    || (det < -ed && (u > eu || v > ev || u + v < det - eu - ev - ed || t >= et))
  }

  lemma NearOutside(det: int, t: int, u: int, v: int, dd: int, tt: int, uu: int, vv: int, ed: nat, et: nat, eu: nat, ev: nat)
    requires Near(det, dd, ed) && Near(t, tt, et) && Near(u, uu, eu) && Near(v, vv, ev)
    requires OutsideBy(dd, tt, uu, vv, ed, et, eu, ev)
    ensures !Inside(det, t, u, v)
  {}

  lemma WrapFreeProducts(o: Vec, d: Vec, v0: Vec, v1: Vec, v2: Vec)
    requires WrapFree(o, d, v0, v1, v2)
    ensures NearProducts(QuotientsOf(o, d, v0, v1, v2), Minus(o, v0), d, Minus(v1, v0), Minus(v2, v0))
  {
    hide Sub, Cross, Dot, CrossFits, DotFits, Plain, PlainCross, ExactSub, Near, Size, Minus;
    ExactDifference(v1, v0);
    ExactDifference(v2, v0);
    ExactDifference(o, v0);
    var e1, e2, s := Sub(v1, v0), Sub(v2, v0), Sub(o, v0);
    TripleNear(e1, d, e2);
    TripleNear(e2, s, e1);
    TripleNear(s, d, e2);
    TripleNear(d, s, e1);
  }

  /**
   Main result: where nothing wraps, a ray that meets the triangle by more than the error of
   the products is a hit, the extreme apart, and one that misses it by more is a miss.
   */
  lemma HitUpToError(ray: Ray, v0: Vec, v1: Vec, v2: Vec)
    requires WrapFree(ray.o, ray.d, v0, v1, v2)
    ensures var e1, e2, s := Minus(v1, v0), Minus(v2, v0), Minus(ray.o, v0);
      var det, t, u, v := DetOf(ray.d, e1, e2), TOf(s, e1, e2), UOf(s, ray.d, e2), VOf(s, ray.d, e1);
      var ed, et, eu, ev := FX_ONE * Error(e1), FX_ONE * Error(e2), FX_ONE * Error(s), FX_ONE * Error(ray.d);
      && (InsideBy(det, t, u, v, ed, et, eu, ev) && !NegationWraps(QuotientsOf(ray.o, ray.d, v0, v1, v2)) ==> TriIsect(ray, v0, v1, v2).Hit?)
      && (OutsideBy(det, t, u, v, ed, et, eu, ev) ==> TriIsect(ray, v0, v1, v2).Miss?)
  {
    hide QuotientsOf, WrapFree, Resolve, Quotients.Normalised, Inside, InsideBy, OutsideBy, Plain, PlainCross, Minus, Words, NegationWraps, Near, Error;
    var e1, e2, s := Minus(v1, v0), Minus(v2, v0), Minus(ray.o, v0);
    var det, t, u, v := DetOf(ray.d, e1, e2), TOf(s, e1, e2), UOf(s, ray.d, e2), VOf(s, ray.d, e1);
    var ed, et, eu, ev := FX_ONE * Error(e1), FX_ONE * Error(e2), FX_ONE * Error(s), FX_ONE * Error(ray.d);
    var q := QuotientsOf(ray.o, ray.d, v0, v1, v2);
    var k := FX_ONE * FX_ONE;
    WrapFreeProducts(ray.o, ray.d, v0, v1, v2);
    QuotientWords(ray.o, ray.d, v0, v1, v2);
    ReportsInside(q);
    InsideScaled(q.det, q.t, q.u, q.v, k);
    if InsideBy(det, t, u, v, ed, et, eu, ev) {
      NearInside(k * q.det, k * q.t, k * q.u, k * q.v, det, t, u, v, ed, et, eu, ev);
    }
    if OutsideBy(det, t, u, v, ed, et, eu, ev) {
      NearOutside(k * q.det, k * q.t, k * q.u, k * q.v, det, t, u, v, ed, et, eu, ev);
    }
  }
}
