/**
 What the intersection arithmetic of tb/uvm/rt_ref.py is for. Where no fixed-point operation
 discards bits or wraps, the numerators of a ray and a triangle solve the intersection
 equation, and a box that the ray meets in time is not rejected. RayError bounds what
 truncation changes about this.
 */
module RayGeometry {
  import opened Bits
  import opened RayTriangle

  /** The product is exact in Q16.16. */
  predicate ExactMul(a: int, b: int) {
    FX_ONE * FxMul(a, b) == a * b
  }

  predicate InRange(x: int) {
    -TWO31 <= x < TWO31
  }

  predicate ExactSub(a: Vec, b: Vec) {
    InRange(a.x - b.x) && InRange(a.y - b.y) && InRange(a.z - b.z)
  }

  predicate ExactCross(a: Vec, b: Vec) {
    && ExactMul(a.y, b.z) && ExactMul(a.z, b.y) && InRange(FxMul(a.y, b.z) - FxMul(a.z, b.y))
    && ExactMul(a.z, b.x) && ExactMul(a.x, b.z) && InRange(FxMul(a.z, b.x) - FxMul(a.x, b.z))
    && ExactMul(a.x, b.y) && ExactMul(a.y, b.x) && InRange(FxMul(a.x, b.y) - FxMul(a.y, b.x))
  }

  predicate ExactDot(a: Vec, b: Vec) {
    && ExactMul(a.x, b.x) && ExactMul(a.y, b.y) && ExactMul(a.z, b.z)
    && InRange(FxMul(a.x, b.x) + FxMul(a.y, b.y) + FxMul(a.z, b.z))
  }

  /** No operation on the way to the quotients loses anything. */
  predicate Lossless(o: Vec, d: Vec, v0: Vec, v1: Vec, v2: Vec) {
    var e1, e2, s := Sub(v1, v0), Sub(v2, v0), Sub(o, v0);
    var h, q := Cross(d, e2), Cross(s, e1);
    && ExactSub(v1, v0) && ExactSub(v2, v0) && ExactSub(o, v0)
    && ExactCross(d, e2) && ExactCross(s, e1)
    && ExactDot(e1, h) && ExactDot(s, h) && ExactDot(d, q) && ExactDot(e2, q)
  }

  /** s + t * d == u * e1 + v * e2, all over the common denominator det. */
  predicate Solves(det: int, t: int, u: int, v: int, s: Vec, d: Vec, e1: Vec, e2: Vec) {
    && det * s.x + t * d.x == u * e1.x + v * e2.x
    && det * s.y + t * d.y == u * e1.y + v * e2.y
    && det * s.z + t * d.z == u * e1.z + v * e2.z
  }

  lemma CrossScaled(a: Vec, b: Vec)
    requires ExactCross(a, b)
    ensures FX_ONE * Cross(a, b).x == a.y * b.z - a.z * b.y
    ensures FX_ONE * Cross(a, b).y == a.z * b.x - a.x * b.z
    ensures FX_ONE * Cross(a, b).z == a.x * b.y - a.y * b.x
  {
    hide FxMul;
  }

  lemma DotScaled(a: Vec, b: Vec)
    requires ExactDot(a, b)
    ensures FX_ONE * Dot(a, b) == a.x * b.x + a.y * b.y + a.z * b.z
  {
    hide FxMul;
  }

  /** A dot product with a cross product, in units of 2^-32. */
  lemma TripleScaled(a: Vec, b: Vec, c: Vec)
    requires ExactCross(b, c) && ExactDot(a, Cross(b, c))
    ensures FX_ONE * FX_ONE * Dot(a, Cross(b, c)) == Plain(a, PlainCross(b, c))
  {
    hide Cross, Dot, ExactCross, ExactDot;
    CrossScaled(b, c);
    DotScaled(a, Cross(b, c));
    var h := Cross(b, c);
    Scaled(a.x, h.x);
    Scaled(a.y, h.y);
    Scaled(a.z, h.z);
  }

  lemma Scaled(x: int, y: int)
    ensures FX_ONE * (x * y) == x * (FX_ONE * y)
  {}

  // --- Cramer's rule ---

  function Plain(a: Vec, b: Vec): int {
    a.x * b.x + a.y * b.y + a.z * b.z
  }

  function PlainCross(a: Vec, b: Vec): Vec {
    Vec(a.y * b.z - a.z * b.y, a.z * b.x - a.x * b.z, a.x * b.y - a.y * b.x)
  }

  lemma Expand(a: Vec, s: Vec, h: Vec)
    ensures Plain(a, h) * s.x - Plain(s, h) * a.x == h.y * (s.x * a.y - s.y * a.x) - h.z * (s.z * a.x - s.x * a.z)
  {
    Terms(a, h, s.x);
    Terms(s, h, a.x);
    Difference(h.y, s.x, a.y, s.y, a.x);
    Difference(h.z, s.z, a.x, s.x, a.z);
  }

  lemma Terms(a: Vec, h: Vec, k: int)
    ensures Plain(a, h) * k == h.x * (a.x * k) + h.y * (a.y * k) + h.z * (a.z * k)
  {}

  lemma Difference(k: int, p: int, q: int, r: int, s: int)
    ensures k * (p * q - r * s) == k * (p * q) - k * (r * s)
  {}

  /** The x component of det * s + t * d == u * e1 + v * e2, for a = e1, b = d, c = e2. */
  lemma CramerX(a: Vec, b: Vec, c: Vec, s: Vec)
    ensures var h, q := PlainCross(b, c), PlainCross(s, a);
      Plain(a, h) * s.x + Plain(c, q) * b.x == Plain(s, h) * a.x + Plain(b, q) * c.x
  {
    hide Plain;
    var h, q := PlainCross(b, c), PlainCross(s, a);
    Expand(a, s, h);
    Expand(c, b, q);
    assert h.y * q.z == q.z * h.y && h.z * q.y == q.y * h.z;
    assert b.x * c.z - b.z * c.x == -h.y;
  }

  function Rotated(a: Vec): Vec {
    Vec(a.y, a.z, a.x)
  }

  lemma Rotation(a: Vec, b: Vec)
    ensures Plain(Rotated(a), Rotated(b)) == Plain(a, b)
    ensures PlainCross(Rotated(a), Rotated(b)) == Rotated(PlainCross(a, b))
  {}

  /** One component of the equation, from the scaled quotients. */
  lemma Component(det: int, t: int, u: int, v: int, s: int, d: int, e1: int, e2: int, dd: int, tt: int, uu: int, vv: int)
    requires dd == FX_ONE * FX_ONE * det && tt == FX_ONE * FX_ONE * t && uu == FX_ONE * FX_ONE * u && vv == FX_ONE * FX_ONE * v
    requires dd * s + tt * d == uu * e1 + vv * e2
    ensures det * s + t * d == u * e1 + v * e2
  {
    Factor(det, s);
    Factor(t, d);
    Factor(u, e1);
    Factor(v, e2);
  }

  lemma Factor(x: int, y: int)
    ensures FX_ONE * FX_ONE * x * y == FX_ONE * FX_ONE * (x * y)
  {}

  /** The quotients, in units of 2^-32, are the products of Cramer's rule. */
  predicate AreProducts(q: Quotients, s: Vec, d: Vec, e1: Vec, e2: Vec) {
    && Plain(e1, PlainCross(d, e2)) == FX_ONE * FX_ONE * q.det && Plain(e2, PlainCross(s, e1)) == FX_ONE * FX_ONE * q.t
    && Plain(s, PlainCross(d, e2)) == FX_ONE * FX_ONE * q.u && Plain(d, PlainCross(s, e1)) == FX_ONE * FX_ONE * q.v
  }

  lemma ProductsSolve(q: Quotients, s: Vec, d: Vec, e1: Vec, e2: Vec)
    requires AreProducts(q, s, d, e1, e2)
    ensures Solves(q.det, q.t, q.u, q.v, s, d, e1, e2)
  {
    hide Plain, PlainCross, Rotated;
    var dd, tt := Plain(e1, PlainCross(d, e2)), Plain(e2, PlainCross(s, e1));
    var uu, vv := Plain(s, PlainCross(d, e2)), Plain(d, PlainCross(s, e1));
    CramerX(e1, d, e2, s);
    Component(q.det, q.t, q.u, q.v, s.x, d.x, e1.x, e2.x, dd, tt, uu, vv);
    RotatedCramer(e1, d, e2, s);
    Component(q.det, q.t, q.u, q.v, s.y, d.y, e1.y, e2.y, dd, tt, uu, vv);
    RotatedCramer(Rotated(e1), Rotated(d), Rotated(e2), Rotated(s));
    RotatedTwice(e1, d, e2, s);
    Component(q.det, q.t, q.u, q.v, s.z, d.z, e1.z, e2.z, dd, tt, uu, vv);
  }

  /** Without loss, det, t, u and v satisfy s + t * d == u * e1 + v * e2 over the common denominator det. */
  lemma QuotientsSolve(o: Vec, d: Vec, v0: Vec, v1: Vec, v2: Vec)
    requires Lossless(o, d, v0, v1, v2)
    ensures var q := QuotientsOf(o, d, v0, v1, v2);
      Solves(q.det, q.t, q.u, q.v, Sub(o, v0), d, Sub(v1, v0), Sub(v2, v0))
  {
    hide Sub, Cross, Dot, ExactCross, ExactDot, Plain, PlainCross, ExactSub, Solves;
    var e1, e2, s := Sub(v1, v0), Sub(v2, v0), Sub(o, v0);
    TripleScaled(e1, d, e2);
    TripleScaled(e2, s, e1);
    TripleScaled(s, d, e2);
    TripleScaled(d, s, e1);
    ProductsSolve(QuotientsOf(o, d, v0, v1, v2), s, d, e1, e2);
  }

  /** The sign normalisation keeps the equation, but for the one value whose negation wraps. */
  lemma NormalisedSolve(q: Quotients, s: Vec, d: Vec, e1: Vec, e2: Vec)
    requires Solves(q.det, q.t, q.u, q.v, s, d, e1, e2)
    requires -TWO31 < q.det < TWO31 && -TWO31 < q.t < TWO31 && -TWO31 < q.u < TWO31 && -TWO31 < q.v < TWO31
    ensures var n := q.Normalised(); Solves(n.det, n.t, n.u, n.v, s, d, e1, e2) && n.det >= 0
  {
    hide *;
    NormalisedShape(q);
    if q.det < 0 {
      NegatedSolve(q.det, q.t, q.u, q.v, s, d, e1, e2);
    }
  }

  lemma NormalisedShape(q: Quotients)
    requires -TWO31 < q.det < TWO31 && -TWO31 < q.t < TWO31 && -TWO31 < q.u < TWO31 && -TWO31 < q.v < TWO31
    ensures q.Normalised() == if q.det < 0 then Quotients(-q.det, -q.t, -q.u, -q.v) else q
  {
    hide Signed;
    SignedOfWrap(-q.det);
    SignedOfWrap(-q.t);
    SignedOfWrap(-q.u);
    SignedOfWrap(-q.v);
  }

  lemma NegatedSolve(det: int, t: int, u: int, v: int, s: Vec, d: Vec, e1: Vec, e2: Vec)
    requires Solves(det, t, u, v, s, d, e1, e2)
    ensures Solves(-det, -t, -u, -v, s, d, e1, e2)
  {
    NegatedEquation(det * s.x, t * d.x, u * e1.x, v * e2.x);
    NegatedEquation(det * s.y, t * d.y, u * e1.y, v * e2.y);
    NegatedEquation(det * s.z, t * d.z, u * e1.z, v * e2.z);
    NegatedProducts(det, t, u, v, s.x, d.x, e1.x, e2.x);
    NegatedProducts(det, t, u, v, s.y, d.y, e1.y, e2.y);
    NegatedProducts(det, t, u, v, s.z, d.z, e1.z, e2.z);
  }

  lemma NegatedEquation(a: int, b: int, c: int, e: int)
    requires a + b == c + e
    ensures -a + -b == -c + -e
  {}

  lemma NegatedProducts(a: int, b: int, c: int, e: int, w: int, x: int, y: int, z: int)
    ensures -a * w == -(a * w) && -b * x == -(b * x) && -c * y == -(c * y) && -e * z == -(e * z)
  {}

  /** The same identity in the next component, by a cyclic change of axes. */
  lemma RotatedCramer(a: Vec, b: Vec, c: Vec, s: Vec)
    ensures var h, q := PlainCross(b, c), PlainCross(s, a);
      Plain(a, h) * s.y + Plain(c, q) * b.y == Plain(s, h) * a.y + Plain(b, q) * c.y
  {
    hide Plain, PlainCross;
    CramerX(Rotated(a), Rotated(b), Rotated(c), Rotated(s));
    RotatedProducts(a, b, c, s);
  }

  lemma RotatedProducts(a: Vec, b: Vec, c: Vec, s: Vec)
    ensures var h, q := PlainCross(b, c), PlainCross(s, a);
      var h', q' := PlainCross(Rotated(b), Rotated(c)), PlainCross(Rotated(s), Rotated(a));
      && Plain(Rotated(a), h') == Plain(a, h) && Plain(Rotated(c), q') == Plain(c, q)
      && Plain(Rotated(s), h') == Plain(s, h) && Plain(Rotated(b), q') == Plain(b, q)
  {
    hide Plain, PlainCross;
    Rotation(b, c);
    Rotation(s, a);
    Rotation(a, PlainCross(b, c));
    Rotation(c, PlainCross(s, a));
    Rotation(s, PlainCross(b, c));
    Rotation(b, PlainCross(s, a));
  }

  lemma RotatedTwice(a: Vec, b: Vec, c: Vec, s: Vec)
    ensures var h, q := PlainCross(b, c), PlainCross(s, a);
      var h', q' := PlainCross(Rotated(b), Rotated(c)), PlainCross(Rotated(s), Rotated(a));
      && Plain(Rotated(a), h') == Plain(a, h) && Plain(Rotated(c), q') == Plain(c, q)
      && Plain(Rotated(s), h') == Plain(s, h) && Plain(Rotated(b), q') == Plain(b, q)
      && Rotated(s).y == s.z && Rotated(b).y == b.z && Rotated(a).y == a.z && Rotated(c).y == c.z
  {
    hide Plain, PlainCross;
    RotatedProducts(a, b, c, s);
  }

  // --- boxes ---

  /** On one axis: the inverse direction is exact, and so are the products with it. */
  predicate ExactAxis(o: int, d: int, inv: int, lo: int, hi: int) {
    && d * inv == FX_ONE * FX_ONE && InRange(lo - o) && InRange(hi - o)
    && ExactMul(lo - o, inv) && ExactMul(hi - o, inv)
  }

  /** At parameter t, in Q16.16, the ray is within the slab. */
  predicate WithinSlab(o: int, d: int, lo: int, hi: int, t: int) {
    FX_ONE * lo <= FX_ONE * o + t * d <= FX_ONE * hi
  }

  lemma SlabContains(o: int, d: int, inv: int, lo: int, hi: int, t: int)
    requires ExactAxis(o, d, inv, lo, hi) && WithinSlab(o, d, lo, hi, t)
    ensures var t1, t2 := FxMul(Signed(lo - o), inv), FxMul(Signed(hi - o), inv); Min(t1, t2) <= t <= Max(t1, t2)
  {
    hide FxMul, Signed;
    var a, b := lo - o, hi - o;
    SignedOfWrap(a);
    SignedOfWrap(b);
    SlabSide(a, t, d, inv, FxMul(a, inv));
    SlabSide(b, t, d, inv, FxMul(b, inv));
    Invertible(d, inv);
  }

  lemma Invertible(d: int, inv: int)
    ensures inv == 0 ==> d * inv == 0
  {}

  /** The near side has the smaller parameter when the ray moves towards larger coordinates, and the larger one otherwise. */
  lemma SlabSide(a: int, t: int, d: int, inv: int, t1: int)
    requires FX_ONE * t1 == a * inv && d * inv == FX_ONE * FX_ONE
    ensures FX_ONE * a <= t * d && inv > 0 ==> t1 <= t
    ensures FX_ONE * a <= t * d && inv < 0 ==> t <= t1
    ensures t * d <= FX_ONE * a && inv > 0 ==> t <= t1
    ensures t * d <= FX_ONE * a && inv < 0 ==> t1 <= t
  {
    var x, y := FX_ONE * a, t * d;
    Regrouped(t, d, inv);
    Factored(a, inv);
    assert x * inv == FX_ONE * FX_ONE * t1 && y * inv == FX_ONE * FX_ONE * t;
    ScaledOrder(x, y, inv);
  }

  lemma ScaledOrder(x: int, y: int, k: int)
    ensures x <= y && k > 0 ==> x * k <= y * k
    ensures x <= y && k < 0 ==> y * k <= x * k
    ensures y <= x && k > 0 ==> y * k <= x * k
    ensures y <= x && k < 0 ==> x * k <= y * k
  {
    var u, v := if x <= y then x else y, if x <= y then y else x;
    if k > 0 {
      MulMono(u, v, k);
    } else if k < 0 {
      MulMono(u, v, -k);
      Negated(u, k);
      Negated(v, k);
    }
  }

  lemma Regrouped(t: int, d: int, inv: int)
    ensures t * d * inv == t * (d * inv)
  {}

  lemma Factored(a: int, inv: int)
    ensures FX_ONE * a * inv == FX_ONE * (a * inv)
  {}

  lemma Negated(a: int, inv: int)
    ensures a * -inv == -(a * inv)
  {}

  /** Where its products are exact, the box test accepts every box that the ray meets by tMax. */
  lemma BoxAccepts(ray: Ray, tMax: int, bmin: Vec, bmax: Vec, t: int)
    requires ExactAxis(ray.o.x, ray.d.x, ray.inv.x, bmin.x, bmax.x)
    requires ExactAxis(ray.o.y, ray.d.y, ray.inv.y, bmin.y, bmax.y)
    requires ExactAxis(ray.o.z, ray.d.z, ray.inv.z, bmin.z, bmax.z)
    requires 0 <= t <= tMax
    requires WithinSlab(ray.o.x, ray.d.x, bmin.x, bmax.x, t)
    requires WithinSlab(ray.o.y, ray.d.y, bmin.y, bmax.y, t)
    requires WithinSlab(ray.o.z, ray.d.z, bmin.z, bmax.z, t)
    ensures BoxHit(ray, tMax, bmin, bmax)
  {
    hide FxMul, ExactAxis, WithinSlab, Signed;
    SlabContains(ray.o.x, ray.d.x, ray.inv.x, bmin.x, bmax.x, t);
    SlabContains(ray.o.y, ray.d.y, ray.inv.y, bmin.y, bmax.y, t);
    SlabContains(ray.o.z, ray.d.z, ray.inv.z, bmin.z, bmax.z, t);
  }

  /** t lies between the slab products of one axis. */
  predicate Between(t: int, o: int, inv: int, lo: int, hi: int) {
    var t1, t2 := FxMul(Signed(lo - o), inv), FxMul(Signed(hi - o), inv);
    (t1 <= t <= t2) || (t2 <= t <= t1)
  }

  /** The box test asks for a parameter from 0 to tMax at which the ray is between all three pairs of slab products. */
  lemma BoxIntervals(ray: Ray, tMax: int, bmin: Vec, bmax: Vec)
    requires tMax >= 0
    ensures BoxHit(ray, tMax, bmin, bmax) <==>
      exists t: int ::
        && 0 <= t <= tMax
        && Between(t, ray.o.x, ray.inv.x, bmin.x, bmax.x)
        && Between(t, ray.o.y, ray.inv.y, bmin.y, bmax.y)
        && Between(t, ray.o.z, ray.inv.z, bmin.z, bmax.z)
  {
    hide FxMul, Signed;
    if BoxHit(ray, tMax, bmin, bmax) {
      var t := Max(BoxSpan(ray, bmin, bmax).lo, 0);
      assert Between(t, ray.o.x, ray.inv.x, bmin.x, bmax.x);
      assert Between(t, ray.o.y, ray.inv.y, bmin.y, bmax.y);
      assert Between(t, ray.o.z, ray.inv.z, bmin.z, bmax.z);
    }
  }

  lemma SlabExactly(o: int, d: int, inv: int, lo: int, hi: int, t: int)
    requires ExactAxis(o, d, inv, lo, hi) && lo <= hi
    ensures Between(t, o, inv, lo, hi) <==> WithinSlab(o, d, lo, hi, t)
  {
    hide FxMul, Signed;
    if WithinSlab(o, d, lo, hi, t) {
      SlabContains(o, d, inv, lo, hi, t);
    }
    var a, b := lo - o, hi - o;
    SignedOfWrap(a);
    SignedOfWrap(b);
    SlabBack(a, t, d, inv, FxMul(a, inv));
    SlabBack(b, t, d, inv, FxMul(b, inv));
    Invertible(d, inv);
    SlabOrder(a, b, inv, FxMul(a, inv), FxMul(b, inv));
  }

  /** From the order of the parameters to that of the coordinates. */
  lemma SlabBack(a: int, t: int, d: int, inv: int, t1: int)
    requires FX_ONE * t1 == a * inv && d * inv == FX_ONE * FX_ONE
    ensures inv > 0 && t1 <= t ==> FX_ONE * a <= t * d
    ensures inv > 0 && t <= t1 ==> t * d <= FX_ONE * a
    ensures inv < 0 && t <= t1 ==> FX_ONE * a <= t * d
    ensures inv < 0 && t1 <= t ==> t * d <= FX_ONE * a
  {
    var x, y := FX_ONE * a, t * d;
    Regrouped(t, d, inv);
    Factored(a, inv);
    assert x * inv == FX_ONE * FX_ONE * t1 && y * inv == FX_ONE * FX_ONE * t;
    StrictOrder(x, y, inv);
    StrictOrder(y, x, inv);
  }

  lemma StrictOrder(x: int, y: int, k: int)
    ensures x < y && k > 0 ==> x * k < y * k
    ensures x < y && k < 0 ==> y * k < x * k
  {
    if x < y && k > 0 {
      ScaledOrder(x + 1, y, k);
      assert (x + 1) * k == x * k + k;
    } else if x < y && k < 0 {
      ScaledOrder(x + 1, y, k);
      assert (x + 1) * k == x * k + k;
    }
  }

  lemma SlabOrder(a: int, b: int, inv: int, t1: int, t2: int)
    requires FX_ONE * t1 == a * inv && FX_ONE * t2 == b * inv && a <= b
    ensures inv > 0 ==> t1 <= t2
    ensures inv < 0 ==> t2 <= t1
  {
    ScaledOrder(a, b, inv);
  }

  /** Where its products are exact, the box test accepts a box if and only if the ray is in it at some time from 0 to tMax. */
  lemma BoxExactly(ray: Ray, tMax: int, bmin: Vec, bmax: Vec)
    requires ExactAxis(ray.o.x, ray.d.x, ray.inv.x, bmin.x, bmax.x) && bmin.x <= bmax.x
    requires ExactAxis(ray.o.y, ray.d.y, ray.inv.y, bmin.y, bmax.y) && bmin.y <= bmax.y
    requires ExactAxis(ray.o.z, ray.d.z, ray.inv.z, bmin.z, bmax.z) && bmin.z <= bmax.z
    requires tMax >= 0
    ensures BoxHit(ray, tMax, bmin, bmax) <==>
      exists t: int ::
        && 0 <= t <= tMax
        && WithinSlab(ray.o.x, ray.d.x, bmin.x, bmax.x, t)
        && WithinSlab(ray.o.y, ray.d.y, bmin.y, bmax.y, t)
        && WithinSlab(ray.o.z, ray.d.z, bmin.z, bmax.z, t)
  {
    hide ExactAxis, WithinSlab, Between, BoxHit;
    BoxIntervals(ray, tMax, bmin, bmax);
    forall t: int
      ensures Between(t, ray.o.x, ray.inv.x, bmin.x, bmax.x) <==> WithinSlab(ray.o.x, ray.d.x, bmin.x, bmax.x, t)
      ensures Between(t, ray.o.y, ray.inv.y, bmin.y, bmax.y) <==> WithinSlab(ray.o.y, ray.d.y, bmin.y, bmax.y, t)
      ensures Between(t, ray.o.z, ray.inv.z, bmin.z, bmax.z) <==> WithinSlab(ray.o.z, ray.d.z, bmin.z, bmax.z, t)
    {
      SlabExactly(ray.o.x, ray.d.x, ray.inv.x, bmin.x, bmax.x, t);
      SlabExactly(ray.o.y, ray.d.y, ray.inv.y, bmin.y, bmax.y, t);
      SlabExactly(ray.o.z, ray.d.z, ray.inv.z, bmin.z, bmax.z, t);
    }
  }
}
