/** Fixed-point ray/triangle and ray/box intersection (tb/uvm/rt_ref.py), integer for integer. */
module RayTriangle {
  import opened Bits
  import opened Dyadic

  const FX_ONE := 0x1_0000
  const NR_C1 := 1515870810
  const NR_C2 := 505290270
  const T_MAX := 0x7FFF_FFFF

  datatype Vec = Vec(x: int, y: int, z: int)

  /** `fx_mul`: Python's shift floors. */
  function FxMul(a: int, b: int): int {
    Signed(a * b / FX_ONE)
  }

  function Sub(a: Vec, b: Vec): Vec {
    Vec(Signed(a.x - b.x), Signed(a.y - b.y), Signed(a.z - b.z))
  }

  function Cross(a: Vec, b: Vec): Vec {
    Vec(Signed(FxMul(a.y, b.z) - FxMul(a.z, b.y)),
        Signed(FxMul(a.z, b.x) - FxMul(a.x, b.z)),
        Signed(FxMul(a.x, b.y) - FxMul(a.y, b.x)))
  }

  function Dot(a: Vec, b: Vec): int {
    Signed(FxMul(a.x, b.x) + FxMul(a.y, b.y) + FxMul(a.z, b.z))
  }

  // --- reciprocal ---

  /** `clz32` on a word. */
  function Clz(x: u32): (n: nat)
    ensures n <= 32
  {
    WordLength(x);
    32 - BitLength(x)
  }

  lemma WordLength(x: u32)
    ensures BitLength(x) <= 32
  {
    hide Pow2, BitLength;
    Pow2Values();
    if x > 0 {
      BitLengthBounds(x);
      if BitLength(x) > 32 {
        Pow2Monotone(32, BitLength(x) - 1);
      }
    } else {
      assert BitLength(0) == 0 by { ZeroLength(); }
    }
  }

  lemma ZeroLength()
    ensures BitLength(0) == 0
  {}

  /** `clz32` as it scans: from bit 31 down to the first one. */
  method CountLeadingZeros(x: u32) returns (n: nat)
    ensures n == Clz(x)
  {
    hide Pow2, BitLength;
    if x == 0 {
      ZeroLength();
      return 32;
    }
    Pow2Values();
    var i := 32;
    while i > 0
      invariant 0 <= i <= 32 && x < Pow2(i)
    {
      i := i - 1;
      PowerStep(i + 1);
      TopBitSet(x, i);
      if Shr(x, i) % 2 == 1 {
        BitLengthUnique(x, i + 1);
        return 31 - i;
      }
    }
    PowerZero();
    assert false;
  }

  lemma PowerZero()
    ensures Pow2(0) == 1
  {}

  lemma TopBitSet(x: nat, i: nat)
    requires x < 2 * Pow2(i)
    ensures Shr(x, i) % 2 == 1 <==> x >= Pow2(i)
  {
    hide Pow2, Shr, Low;
    Divided(x, i);
    if Shr(x, i) >= 2 {
      MulMono(2, Shr(x, i), Pow2(i));
    }
  }

  function NrStart(m: u32): u32 {
    Wrap(NR_C1 - NR_C2 * m / 0x8000_0000)
  }

  function NrStep(m: u32, r: u32): u32 {
    var p := Wrap(m * r / 0x8000_0000);
    Wrap(r * Wrap(0x8000_0000 - p) / 0x4000_0000)
  }

  /** Three Newton-Raphson iterations: about 2^61 / m. */
  function NewtonRaphson(m: u32): u32 {
    NrStep(m, NrStep(m, NrStep(m, NrStart(m))))
  }

  /** The reciprocal of a positive word: about 2^32 / n, saturated. */
  function Recip(n: u32): u32
    requires n > 0
  {
    var k := Clz(n);
    var r := NewtonRaphson(Wrap(n * Pow2(k)));
    var wide := Shr(Shl(r, k), 29);
    if wide > 0xFFFF_FFFF then 0xFFFF_FFFF else wide
  }

  /** The quotient of a word by the reciprocal's argument, in Q16.16, saturated. */
  function Scale(num: u32, recip: u32): nat {
    MulMono(0, num, recip);
    var w: nat := num * recip / FX_ONE;
    if w >= TWO31 then T_MAX else w
  }

  datatype Hit = Miss | Hit(t: nat, u: nat, v: nat)

  datatype Triangle = Triangle(id: int, v0: Vec, v1: Vec, v2: Vec)

  datatype Ray = Ray(o: Vec, d: Vec, inv: Vec)

  /** The determinant and the numerators of t, u and v after the sign normalisation. */
  datatype Quotients = Quotients(det: int, t: int, u: int, v: int) {
    function Normalised(): Quotients {
      if det < 0 then Quotients(Signed(-det), Signed(-t), Signed(-u), Signed(-v)) else this
    }

    predicate IsHit() {
      det != 0 && u >= 0 && v >= 0 && u + v <= Wrap(det) && t > 0
    }
  }

  function QuotientsOf(o: Vec, d: Vec, v0: Vec, v1: Vec, v2: Vec): Quotients {
    var e1, e2, s := Sub(v1, v0), Sub(v2, v0), Sub(o, v0);
    var h, q := Cross(d, e2), Cross(s, e1);
    Quotients(Dot(e1, h), Dot(e2, q), Dot(s, h), Dot(d, q))
  }

  /** The tail of `tri_isect`, from the normalised quotients. */
  function Resolve(n: Quotients): Hit {
    if !n.IsHit() then Miss
    else
      var recip := Recip(PositiveDet(n));
      Hit(Scale(Wrap(n.t), recip), Scale(Wrap(n.u), recip), Scale(Wrap(n.v), recip))
  }

  /** The determinant as an unsigned word; a hit has a nonzero one. */
  function PositiveDet(n: Quotients): (w: u32)
    ensures w > 0
  {
    if Wrap(n.det) == 0 then 0x8000_0000 else Wrap(n.det)
  }

  /** `tri_isect` */
  function TriIsect(ray: Ray, v0: Vec, v1: Vec, v2: Vec): Hit {
    Resolve(QuotientsOf(ray.o, ray.d, v0, v1, v2).Normalised())
  }

  function Min(x: int, y: int): int {
    if x < y then x else y
  }

  function Max(x: int, y: int): int {
    if x > y then x else y
  }

  /** Where a ray enters and leaves the slabs of a box. */
  datatype Span = Span(lo: int, hi: int)

  function BoxSpan(ray: Ray, bmin: Vec, bmax: Vec): Span {
    var a, b := Sub(bmin, ray.o), Sub(bmax, ray.o);
    var x1, x2 := FxMul(a.x, ray.inv.x), FxMul(b.x, ray.inv.x);
    var y1, y2 := FxMul(a.y, ray.inv.y), FxMul(b.y, ray.inv.y);
    var z1, z2 := FxMul(a.z, ray.inv.z), FxMul(b.z, ray.inv.z);
    Span(Max(Max(Min(x1, x2), Min(y1, y2)), Min(z1, z2)), Min(Min(Max(x1, x2), Max(y1, y2)), Max(z1, z2)))
  }

  /** `box_isect`, its first result. */
  predicate BoxHit(ray: Ray, tMax: int, bmin: Vec, bmax: Vec) {
    var span := BoxSpan(ray, bmin, bmax);
    span.lo <= span.hi && span.hi >= 0 && span.lo <= tMax
  }
}
