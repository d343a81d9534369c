/**
 The hypothesis of the traversal theorem is needed: a ray along an axis has the saturated
 inverse direction 0x7FFFFFFF on the other two, with which the slab products wrap around
 once a box reaches 2.0 from the origin; the root is rejected although the ray hits.
 */
module BvhLimits {
  import opened RayTriangle
  import opened BvhTree
  import opened BvhTraversal
  import opened Reciprocal

  const LOW := -131072
  const HIGH := 131072
  const V0 := Vec(LOW, LOW, FX_ONE)
  const V1 := Vec(HIGH, LOW, FX_ONE)
  const V2 := Vec(0, HIGH, FX_ONE)

  /** Along the z axis, with the inverse direction that the testbench feeds. */
  const ALONG_Z := Ray(Vec(0, 0, 0), Vec(0, 0, FX_ONE), Vec(T_MAX, T_MAX, FX_ONE))

  function Twins(): seq<Triangle> {
    [Triangle(1, V0, V1, V2), Triangle(2, V0, V1, V2)]
  }

  lemma Edges()
    ensures Sub(V1, V0) == Vec(262144, 0, 0) && Sub(V2, V0) == Vec(131072, 262144, 0)
    ensures Sub(ALONG_Z.o, V0) == Vec(131072, 131072, -65536)
  {}

  lemma CrossOfDirection()
    ensures Cross(ALONG_Z.d, Vec(131072, 262144, 0)) == Vec(-262144, 131072, 0)
  {}

  lemma CrossOfOffset()
    ensures Cross(Vec(131072, 131072, -65536), Vec(262144, 0, 0)) == Vec(0, -262144, -524288)
  {}

  lemma Dots()
    ensures Dot(Vec(262144, 0, 0), Vec(-262144, 131072, 0)) == -1048576
    ensures Dot(Vec(131072, 262144, 0), Vec(0, -262144, -524288)) == -1048576
    ensures Dot(Vec(131072, 131072, -65536), Vec(-262144, 131072, 0)) == -262144
    ensures Dot(ALONG_Z.d, Vec(0, -262144, -524288)) == -524288
  {}

  lemma RayQuotients()
    ensures QuotientsOf(ALONG_Z.o, ALONG_Z.d, V0, V1, V2).Normalised() == Quotients(1048576, 1048576, 262144, 524288)
  {
    hide Sub, Cross, Dot;
    Edges();
    CrossOfDirection();
    CrossOfOffset();
    Dots();
  }

  lemma TheRayHits()
    ensures HitOf(ALONG_Z, Triangle(1, V0, V1, V2)).Hit?
    ensures HitOf(ALONG_Z, Triangle(1, V0, V1, V2)).t < T_MAX
  {
    hide QuotientsOf, Recip, Scale;
    RayQuotients();
    HitBounds(ALONG_Z, V0, V1, V2);
  }

  lemma SlabProducts()
    ensures FxMul(LOW, T_MAX) == 2 && FxMul(HIGH, T_MAX) == -2 && FxMul(FX_ONE, FX_ONE) == FX_ONE
  {}

  lemma RootRejected()
    ensures !BoxHit(ALONG_Z, T_MAX, Vec(LOW, LOW, FX_ONE), Vec(HIGH, HIGH, FX_ONE))
  {
    hide FxMul;
    SlabProducts();
  }

  /** The walk over two triangles finds nothing, and yet both are hit. */
  lemma HitOverlooked()
    ensures Visit(ALONG_Z, BuildTree(Twins()), NOTHING) == NOTHING
    ensures !Closest(ALONG_Z, Twins(), NOTHING) && !Conservative(ALONG_Z, BuildTree(Twins()))
  {
    hide BoxHit, HitOf;
    TheRayHits();
    RootRejected();
    var items := Twins();
    assert MinOf(items) == Vec(LOW, LOW, FX_ONE) && MaxOf(items) == Vec(HIGH, HIGH, FX_ONE);
    assert items[0] == Triangle(1, V0, V1, V2) && items[0] in items;
    if Conservative(ALONG_Z, BuildTree(items)) {
      VisitFindsClosest(ALONG_Z, items);
    }
  }
}
