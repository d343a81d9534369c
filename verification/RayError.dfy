/**
 How far truncation takes the intersection arithmetic of tb/uvm/rt_ref.py. Where nothing
 wraps, the numerators of a ray and a triangle satisfy the intersection equation up to a
 bound in the sizes of its vectors, each slab product is near the exact parameter, and a box
 that exceeds what the ray meets by that slack is never rejected.
 */
module RayError {
  import opened Bits
  import opened RayTriangle
  import opened RayGeometry

  /** The product is not reduced modulo 2^32, only truncated. */
  predicate Plainly(a: int, b: int) {
    InRange(a * b / FX_ONE)
  }

  lemma Truncated(a: int, b: int)
    requires Plainly(a, b)
    ensures 0 <= a * b - FX_ONE * FxMul(a, b) < FX_ONE
  {
    var p := a * b;
    SignedOfWrap(p / FX_ONE);
  }

  predicate CrossFits(a: Vec, b: Vec) {
    && Plainly(a.y, b.z) && Plainly(a.z, b.y) && InRange(FxMul(a.y, b.z) - FxMul(a.z, b.y))
    && Plainly(a.z, b.x) && Plainly(a.x, b.z) && InRange(FxMul(a.z, b.x) - FxMul(a.x, b.z))
    && Plainly(a.x, b.y) && Plainly(a.y, b.x) && InRange(FxMul(a.x, b.y) - FxMul(a.y, b.x))
  }

  predicate DotFits(a: Vec, b: Vec) {
    && Plainly(a.x, b.x) && Plainly(a.y, b.y) && Plainly(a.z, b.z)
    && InRange(FxMul(a.x, b.x) + FxMul(a.y, b.y) + FxMul(a.z, b.z))
  }

  /** No operation on the way to the quotients wraps. */
  predicate WrapFree(o: Vec, d: Vec, v0: Vec, v1: Vec, v2: Vec) {
    var e1, e2, s := Sub(v1, v0), Sub(v2, v0), Sub(o, v0);
    var h, q := Cross(d, e2), Cross(s, e1);
    && ExactSub(v1, v0) && ExactSub(v2, v0) && ExactSub(o, v0)
    && CrossFits(d, e2) && CrossFits(s, e1)
    && DotFits(e1, h) && DotFits(s, h) && DotFits(d, q) && DotFits(e2, q)
  }

  /** x is within e of y. */
  predicate Near(x: int, y: int, e: int) {
    -e <= x - y <= e
  }

  function Abs(x: int): nat {
    if x < 0 then -x else x
  }

  function Size(a: Vec): nat {
    Abs(a.x) + Abs(a.y) + Abs(a.z)
  }

  lemma CrossNear(a: Vec, b: Vec)
    requires CrossFits(a, b)
    ensures var h, p := Cross(a, b), PlainCross(a, b);
      Near(FX_ONE * h.x, p.x, FX_ONE) && Near(FX_ONE * h.y, p.y, FX_ONE) && Near(FX_ONE * h.z, p.z, FX_ONE)
  {
    hide FxMul, Signed;
    Truncated(a.y, b.z);
    Truncated(a.z, b.y);
    Truncated(a.z, b.x);
    Truncated(a.x, b.z);
    Truncated(a.x, b.y);
    Truncated(a.y, b.x);
    SignedOfWrap(FxMul(a.y, b.z) - FxMul(a.z, b.y));
    SignedOfWrap(FxMul(a.z, b.x) - FxMul(a.x, b.z));
    SignedOfWrap(FxMul(a.x, b.y) - FxMul(a.y, b.x));
  }

  lemma DotNear(a: Vec, b: Vec)
    requires DotFits(a, b)
    ensures Near(FX_ONE * Dot(a, b), Plain(a, b), 3 * FX_ONE)
  {
    hide FxMul, Signed;
    Truncated(a.x, b.x);
    Truncated(a.y, b.y);
    Truncated(a.z, b.z);
    SignedOfWrap(FxMul(a.x, b.x) + FxMul(a.y, b.y) + FxMul(a.z, b.z));
  }

  lemma ProductNear(a: int, x: int, y: int, e: int)
    requires Near(x, y, e)
    ensures Near(a * x, a * y, Abs(a) * e)
  {
    var d := x - y;
    assert a * x - a * y == a * d;
    ProductBound(a, d, e);
  }

  lemma ProductBound(a: int, d: int, e: int)
    requires -e <= d <= e
    ensures -(Abs(a) * e) <= a * d <= Abs(a) * e
  {
    if a >= 0 {
      MulMono(d, e, a);
      MulMono(-e, d, a);
    } else {
      MulMono(d, e, -a);
      MulMono(-e, d, -a);
    }
  }

  /** The error of a dot product with a cross product, in units of 2^-32. */
  lemma TripleNear(a: Vec, b: Vec, c: Vec)
    requires CrossFits(b, c) && DotFits(a, Cross(b, c))
    ensures Near(FX_ONE * FX_ONE * Dot(a, Cross(b, c)), Plain(a, PlainCross(b, c)), FX_ONE * (Size(a) + 3 * FX_ONE))
  {
    hide Cross, Dot, PlainCross, CrossFits, DotFits;
    var h, p := Cross(b, c), PlainCross(b, c);
    CrossNear(b, c);
    DotNear(a, h);
    ProductNear(a.x, FX_ONE * h.x, p.x, FX_ONE);
    ProductNear(a.y, FX_ONE * h.y, p.y, FX_ONE);
    ProductNear(a.z, FX_ONE * h.z, p.z, FX_ONE);
    Scaled(a.x, h.x);
    Scaled(a.y, h.y);
    Scaled(a.z, h.z);
  }

  /** The quotients' own error: the vector that the cross product is multiplied with, and three truncations. */
  function Error(a: Vec): nat {
    Size(a) + 3 * FX_ONE
  }

  /** One component of the equation, in units of 2^-16. */
  predicate NearlyEqual(det: int, t: int, u: int, v: int, s: int, d: int, e1: int, e2: int, bound: int) {
    Near(FX_ONE * (det * s + t * d), FX_ONE * (u * e1 + v * e2), bound)
  }

  function Bound(ed: nat, et: nat, eu: nat, ev: nat, s: int, d: int, e1: int, e2: int): int {
    Abs(s) * ed + Abs(d) * et + Abs(e1) * eu + Abs(e2) * ev
  }

  /** s + t * d and u * e1 + v * e2, over the common denominator det, are this near in every component. */
  predicate NearlySolves(q: Quotients, s: Vec, d: Vec, e1: Vec, e2: Vec) {
    var ed, et, eu, ev := Error(e1), Error(e2), Error(s), Error(d);
    && NearlyEqual(q.det, q.t, q.u, q.v, s.x, d.x, e1.x, e2.x, Bound(ed, et, eu, ev, s.x, d.x, e1.x, e2.x))
    && NearlyEqual(q.det, q.t, q.u, q.v, s.y, d.y, e1.y, e2.y, Bound(ed, et, eu, ev, s.y, d.y, e1.y, e2.y))
    && NearlyEqual(q.det, q.t, q.u, q.v, s.z, d.z, e1.z, e2.z, Bound(ed, et, eu, ev, s.z, d.z, e1.z, e2.z))
  }

  lemma ComponentNear(det: int, t: int, u: int, v: int, dd: int, tt: int, uu: int, vv: int,
                      ed: nat, et: nat, eu: nat, ev: nat, s: int, d: int, e1: int, e2: int)
    requires Near(FX_ONE * FX_ONE * det, dd, FX_ONE * ed) && Near(FX_ONE * FX_ONE * t, tt, FX_ONE * et)
    requires Near(FX_ONE * FX_ONE * u, uu, FX_ONE * eu) && Near(FX_ONE * FX_ONE * v, vv, FX_ONE * ev)
    requires dd * s + tt * d == uu * e1 + vv * e2
    ensures NearlyEqual(det, t, u, v, s, d, e1, e2, Bound(ed, et, eu, ev, s, d, e1, e2))
  {
    TermNear(det, dd, ed, s);
    TermNear(t, tt, et, d);
    TermNear(u, uu, eu, e1);
    TermNear(v, vv, ev, e2);
  }

  lemma TermNear(x: int, y: int, e: nat, k: int)
    requires Near(FX_ONE * FX_ONE * x, y, FX_ONE * e)
    ensures Near(FX_ONE * FX_ONE * (x * k), y * k, FX_ONE * (Abs(k) * e))
  {
    ProductNear(k, FX_ONE * FX_ONE * x, y, FX_ONE * e);
    Factor(x, k);
    Scaled(Abs(k), e);
    assert k * y == y * k && k * (FX_ONE * FX_ONE * x) == FX_ONE * FX_ONE * x * k;
  }

  /** The quotients, in units of 2^-32, are near the products of Cramer's rule. */
  predicate NearProducts(q: Quotients, s: Vec, d: Vec, e1: Vec, e2: Vec) {
    && Near(FX_ONE * FX_ONE * q.det, Plain(e1, PlainCross(d, e2)), FX_ONE * Error(e1))
    && Near(FX_ONE * FX_ONE * q.t, Plain(e2, PlainCross(s, e1)), FX_ONE * Error(e2))
    && Near(FX_ONE * FX_ONE * q.u, Plain(s, PlainCross(d, e2)), FX_ONE * Error(s))
    && Near(FX_ONE * FX_ONE * q.v, Plain(d, PlainCross(s, e1)), FX_ONE * Error(d))
  }

  lemma ProductsNearlySolve(q: Quotients, s: Vec, d: Vec, e1: Vec, e2: Vec)
    requires NearProducts(q, s, d, e1, e2)
    ensures NearlySolves(q, s, d, e1, e2)
  {
    hide Plain, PlainCross, Rotated, Near, NearlyEqual, Bound, Error;
    var dd, tt := Plain(e1, PlainCross(d, e2)), Plain(e2, PlainCross(s, e1));
    var uu, vv := Plain(s, PlainCross(d, e2)), Plain(d, PlainCross(s, e1));
    var ed, et, eu, ev := Error(e1), Error(e2), Error(s), Error(d);
    CramerX(e1, d, e2, s);
    ComponentNear(q.det, q.t, q.u, q.v, dd, tt, uu, vv, ed, et, eu, ev, s.x, d.x, e1.x, e2.x);
    RotatedCramer(e1, d, e2, s);
    ComponentNear(q.det, q.t, q.u, q.v, dd, tt, uu, vv, ed, et, eu, ev, s.y, d.y, e1.y, e2.y);
    RotatedCramer(Rotated(e1), Rotated(d), Rotated(e2), Rotated(s));
    RotatedTwice(e1, d, e2, s);
    ComponentNear(q.det, q.t, q.u, q.v, dd, tt, uu, vv, ed, et, eu, ev, s.z, d.z, e1.z, e2.z);
  }

  /** Main result: where nothing wraps, the quotients nearly satisfy the intersection equation. */
  lemma QuotientsNearlySolve(o: Vec, d: Vec, v0: Vec, v1: Vec, v2: Vec)
    requires WrapFree(o, d, v0, v1, v2)
    ensures NearlySolves(QuotientsOf(o, d, v0, v1, v2), Sub(o, v0), d, Sub(v1, v0), Sub(v2, v0))
  {
    hide Sub, Cross, Dot, CrossFits, DotFits, Plain, PlainCross, ExactSub, NearlySolves, Near, Size;
    var e1, e2, s := Sub(v1, v0), Sub(v2, v0), Sub(o, v0);
    TripleNear(e1, d, e2);
    TripleNear(e2, s, e1);
    TripleNear(s, d, e2);
    TripleNear(d, s, e1);
    ProductsNearlySolve(QuotientsOf(o, d, v0, v1, v2), s, d, e1, e2);
  }

  // --- slabs and boxes ---

  /** `fx_inv_dir`: the inverse direction that the testbench feeds. */
  function InvDir(d: int): int {
    if d == 0 then T_MAX
    else if d > 0 then Min(TWO32 / d, T_MAX)
    else -Min(TWO32 / -d, T_MAX)
  }

  /** The inverse falls short of 2^32 / d by less than one. */
  lemma InverseNear(d: int)
    requires d >= 3 || d <= -3
    ensures TWO32 - Abs(d) < d * InvDir(d) <= TWO32
  {
    if d > 0 {
      QuotientSmall(d);
      assert TWO32 == TWO32 / d * d + TWO32 % d;
    } else {
      QuotientSmall(-d);
      assert TWO32 == TWO32 / -d * -d + TWO32 % -d;
      SignsCancel(d, TWO32 / -d);
    }
  }

  lemma SignsCancel(d: int, q: int)
    ensures d * -q == q * -d
  {}

  lemma QuotientSmall(d: int)
    requires d >= 3
    ensures 0 <= TWO32 / d <= T_MAX
  {
    var q := TWO32 / d;
    assert TWO32 == q * d + TWO32 % d;
    if q > T_MAX {
      MulMono(T_MAX + 1, q, d);
    } else if q < 0 {
      MulMono(q, -1, d);
    }
  }

  /** How far a slab product may be off, times the direction. */
  function SlabError(a: int, d: int): int {
    (Abs(a) + FX_ONE) * Abs(d)
  }

  /** The slab product is within |a| / 2^16 + 1 of the exact parameter a * 2^16 / d. */
  lemma SlabNear(a: int, d: int)
    requires (d >= 3 || d <= -3) && Plainly(a, InvDir(d))
    ensures Near(FX_ONE * (FxMul(a, InvDir(d)) * d), FX_ONE * FX_ONE * a, SlabError(a, d))
  {
    hide FxMul, InvDir;
    var inv, t1 := InvDir(d), FxMul(a, InvDir(d));
    InverseNear(d);
    Truncated(a, inv);
    var rest, lost := TWO32 - d * inv, a * inv - FX_ONE * t1;
    ProductBound(a, rest, Abs(d));
    ProductBound(d, lost, FX_ONE);
    assert a * (d * inv) == d * (a * inv) by { Exchange(a, d, inv); }
    assert d * (a * inv) == d * (FX_ONE * t1) + d * lost by { Split(d, FX_ONE * t1, lost); }
    assert a * rest == a * TWO32 - a * (d * inv) by { Split(a, d * inv, rest); }
    assert d * (FX_ONE * t1) == FX_ONE * (t1 * d) by { Scaled(t1, d); Exchange(d, FX_ONE, t1); }
    assert SlabError(a, d) == Abs(a) * Abs(d) + FX_ONE * Abs(d) by { SlabErrorSum(Abs(a), Abs(d)); }
  }

  lemma Exchange(a: int, d: int, inv: int)
    ensures a * (d * inv) == d * (a * inv)
  {}

  lemma Split(d: int, x: int, y: int)
    ensures d * (x + y) == d * x + d * y
  {}

  lemma SlabErrorSum(a: int, d: int)
    ensures (a + FX_ONE) * d == a * d + FX_ONE * d
  {}

  /**
   At parameter t the ray is inside the slab by the error of its products; along an axis that
   it does not move on, only the saturated product with the far side matters.
   */
  predicate WellInside(o: int, d: int, lo: int, hi: int, t: int) {
    var a, b := lo - o, hi - o;
    && InRange(a) && InRange(b)
    && if d == 0 then a <= 0 && FX_ONE * t <= b * T_MAX
       else
         && (d >= 3 || d <= -3)
         && FX_ONE * FX_ONE * a + SlabError(a, d) <= FX_ONE * (t * d) <= FX_ONE * FX_ONE * b - SlabError(b, d)
  }

  lemma SlabKept(o: int, d: int, lo: int, hi: int, t: int)
    requires WellInside(o, d, lo, hi, t) && t >= 0 && Plainly(lo - o, InvDir(d)) && Plainly(hi - o, InvDir(d))
    ensures var t1, t2 := FxMul(Signed(lo - o), InvDir(d)), FxMul(Signed(hi - o), InvDir(d)); Min(t1, t2) <= t <= Max(t1, t2)
  {
    hide FxMul, SlabError, Signed;
    var a, b := lo - o, hi - o;
    SignedOfWrap(a);
    SignedOfWrap(b);
    if d == 0 {
      Truncated(a, T_MAX);
      Truncated(b, T_MAX);
      MulMono(a, 0, T_MAX);
    } else {
      SlabNear(a, d);
      SlabNear(b, d);
      Ordered(FxMul(a, InvDir(d)), t, d);
      Ordered(FxMul(b, InvDir(d)), t, d);
    }
  }

  lemma Ordered(x: int, t: int, d: int)
    requires d != 0
    ensures d > 0 ==> (x * d <= t * d <==> x <= t) && (t * d <= x * d <==> t <= x)
    ensures d < 0 ==> (x * d <= t * d <==> t <= x) && (t * d <= x * d <==> x <= t)
  {
    if d > 0 {
      StrictlyOrdered(x, t, d);
      StrictlyOrdered(t, x, d);
    } else {
      StrictlyOrdered(x, t, -d);
      StrictlyOrdered(t, x, -d);
      Negated(x, d);
      Negated(t, d);
    }
  }

  lemma StrictlyOrdered(x: int, t: int, d: int)
    requires d > 0
    ensures x < t ==> x * d < t * d
    ensures x == t ==> x * d == t * d
  {
    if x < t {
      MulMono(x + 1, t, d);
      SlabSum(x, d);
    }
  }

  lemma SlabSum(x: int, d: int)
    ensures (x + 1) * d == x * d + d
  {}

  /** Main result: a box that the ray meets by tMax, with the slack of its slab products to spare, is never rejected. */
  lemma BoxKept(ray: Ray, tMax: int, bmin: Vec, bmax: Vec, t: int)
    requires ray.inv == Vec(InvDir(ray.d.x), InvDir(ray.d.y), InvDir(ray.d.z)) && 0 <= t <= tMax
    requires WellInside(ray.o.x, ray.d.x, bmin.x, bmax.x, t)
    requires WellInside(ray.o.y, ray.d.y, bmin.y, bmax.y, t)
    requires WellInside(ray.o.z, ray.d.z, bmin.z, bmax.z, t)
    requires Plainly(bmin.x - ray.o.x, ray.inv.x) && Plainly(bmax.x - ray.o.x, ray.inv.x)
    requires Plainly(bmin.y - ray.o.y, ray.inv.y) && Plainly(bmax.y - ray.o.y, ray.inv.y)
    requires Plainly(bmin.z - ray.o.z, ray.inv.z) && Plainly(bmax.z - ray.o.z, ray.inv.z)
    ensures BoxHit(ray, tMax, bmin, bmax)
  {
    hide FxMul, WellInside, Signed, InvDir, Plainly;
    SlabKept(ray.o.x, ray.d.x, bmin.x, bmax.x, t);
    SlabKept(ray.o.y, ray.d.y, bmin.y, bmax.y, t);
    SlabKept(ray.o.z, ray.d.z, bmin.z, bmax.z, t);
  }
}
