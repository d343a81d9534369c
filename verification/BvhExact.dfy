/**
 When the bounded-stack walk of tb/uvm/rt_ref.py finds the closest hit: what counts is
 whether the boxes above a nearest triangle accept the ray. One condition is sufficient and
 one necessary; they are the same, and so exact, when no box is entered later than just
 beyond a hit below it (EntersInTime).
 */
module BvhExact {
  import opened RayTriangle
  import opened BvhTree
  import opened BvhTraversal

  /** The triangle is in a leaf, and with ct the best so far every box above that leaf accepts the ray. */
  predicate Accepted(ray: Ray, t: Tree, tri: Triangle, ct: int) {
    match t
    case Leaf(x) => x == tri
    case Split(bmin, bmax, left, right) =>
      BoxHit(ray, ct, bmin, bmax) && (Accepted(ray, left, tri, ct) || Accepted(ray, right, tri, ct))
  }

  /** The triangle is hit before `T_MAX`, and none is hit before it. */
  predicate Nearest(ray: Ray, tris: seq<Triangle>, tri: Triangle) {
    && tri in tris && HitOf(ray, tri).Hit? && HitOf(ray, tri).t < T_MAX
    && forall x <- tris :: HitOf(ray, x).Hit? ==> HitOf(ray, x).t >= HitOf(ray, tri).t
  }

  lemma {:induction false} VisitNearer(ray: Ray, t: Tree, best: Best)
    ensures Visit(ray, t, best).ct <= best.ct
  {
    hide HitOf, BoxHit;
    if t.Split? && BoxHit(ray, best.ct, t.bmin, t.bmax) {
      VisitNearer(ray, Near(ray, t), best);
      VisitNearer(ray, Far(ray, t), Visit(ray, Near(ray, t), best));
    }
  }

  lemma {:induction false} VisitSound(ray: Ray, t: Tree, tris: seq<Triangle>, best: Best)
    requires Within(t, tris) && Sound(ray, tris, best)
    ensures Sound(ray, tris, Visit(ray, t, best))
  {
    hide HitOf, BoxHit, Sound, Within;
    if t.Leaf? {
      UpdateSound(ray, tris, t, best);
    } else if BoxHit(ray, best.ct, t.bmin, t.bmax) {
      ChildrenWithin(ray, t, tris);
      VisitSound(ray, Near(ray, t), tris, best);
      VisitSound(ray, Far(ray, t), tris, Visit(ray, Near(ray, t), best));
    }
  }

  /** A hit whose boxes accept the ray while nothing nearer is known is not missed. */
  lemma {:induction false} AcceptedFound(ray: Ray, t: Tree, tri: Triangle, best: Best)
    requires HitOf(ray, tri).Hit? && Accepted(ray, t, tri, HitOf(ray, tri).t + 1)
    ensures Visit(ray, t, best).ct <= HitOf(ray, tri).t
  {
    hide HitOf, BoxHit;
    var m := HitOf(ray, tri).t;
    if best.ct <= m {
      VisitNearer(ray, t, best);
    } else if t.Split? {
      BoxMonotone(ray, m + 1, best.ct, t.bmin, t.bmax);
      var mid := Visit(ray, Near(ray, t), best);
      VisitNearer(ray, Far(ray, t), mid);
      if Accepted(ray, Near(ray, t), tri, m + 1) {
        AcceptedFound(ray, Near(ray, t), tri, best);
      } else {
        AcceptedFound(ray, Far(ray, t), tri, mid);
      }
    }
  }

  /** The walk stops at the nearest hit it can know. */
  lemma {:induction false} VisitAtLeast(ray: Ray, t: Tree, best: Best, m: int)
    requires best.ct >= m && forall x <- Leaves(t) :: HitOf(ray, x).Hit? ==> HitOf(ray, x).t >= m
    ensures Visit(ray, t, best).ct >= m
  {
    hide HitOf, BoxHit;
    match t
    case Leaf(tri) => assert tri in Leaves(t);
    case Split(_, _, left, right) =>
      assert forall x :: x in Leaves(left) || x in Leaves(right) ==> x in Leaves(t);
      if BoxHit(ray, best.ct, t.bmin, t.bmax) {
        VisitAtLeast(ray, Near(ray, t), best, m);
        VisitAtLeast(ray, Far(ray, t), Visit(ray, Near(ray, t), best), m);
      }
  }

  /** Whatever the walk takes, the boxes above it accept the ray at the start. */
  lemma {:induction false} TakenAccepted(ray: Ray, t: Tree, best: Best) returns (tri: Triangle)
    requires best.ct <= T_MAX && Visit(ray, t, best).ct < best.ct
    ensures tri in Leaves(t) && HitOf(ray, tri).Hit? && HitOf(ray, tri).t == Visit(ray, t, best).ct
    ensures Accepted(ray, t, tri, T_MAX)
  {
    hide HitOf, BoxHit;
    match t
    case Leaf(x) => tri := x;
    case Split(_, _, _, _) =>
      BoxMonotone(ray, best.ct, T_MAX, t.bmin, t.bmax);
      var mid := Visit(ray, Near(ray, t), best);
      VisitNearer(ray, Near(ray, t), best);
      if Visit(ray, Far(ray, t), mid).ct < mid.ct {
        tri := TakenAccepted(ray, Far(ray, t), mid);
      } else {
        VisitNearer(ray, Far(ray, t), mid);
        tri := TakenAccepted(ray, Near(ray, t), best);
      }
  }

  /** It suffices that the boxes above one nearest triangle accept the ray just beyond it. */
  lemma ClosestIf(ray: Ray, t: Tree, tri: Triangle)
    requires Nearest(ray, Leaves(t), tri) && Accepted(ray, t, tri, HitOf(ray, tri).t + 1)
    ensures Closest(ray, Leaves(t), Visit(ray, t, NOTHING))
  {
    hide HitOf, Visit, Accepted;
    VisitSound(ray, t, Leaves(t), NOTHING);
    AcceptedFound(ray, t, tri, NOTHING);
  }

  /** It is necessary that the boxes above some nearest triangle accept the ray at all. */
  lemma ClosestOnlyIf(ray: Ray, t: Tree, tri: Triangle) returns (x: Triangle)
    requires Nearest(ray, Leaves(t), tri) && Closest(ray, Leaves(t), Visit(ray, t, NOTHING))
    ensures Nearest(ray, Leaves(t), x) && Accepted(ray, t, x, T_MAX)
  {
    hide HitOf, Visit, Accepted, Sound;
    var m := HitOf(ray, tri).t;
    VisitAtLeast(ray, t, NOTHING, m);
    x := TakenAccepted(ray, t, NOTHING);
  }

  /** No box is entered later than just beyond a hit below it: then the two conditions are one. */
  predicate EntersInTime(ray: Ray, t: Tree) {
    match t
    case Leaf(_) => true
    case Split(bmin, bmax, left, right) =>
      && EntersInTime(ray, left) && EntersInTime(ray, right)
      && forall x <- Leaves(t) :: HitOf(ray, x).Hit? && HitOf(ray, x).t < T_MAX ==> BoxSpan(ray, bmin, bmax).lo <= HitOf(ray, x).t + 1
  }

  lemma {:induction false} AcceptedEarlier(ray: Ray, t: Tree, tri: Triangle)
    requires EntersInTime(ray, t) && HitOf(ray, tri).Hit? && HitOf(ray, tri).t < T_MAX && Accepted(ray, t, tri, T_MAX)
    ensures tri in Leaves(t) && Accepted(ray, t, tri, HitOf(ray, tri).t + 1)
  {
    hide HitOf, BoxSpan;
    if t.Split? {
      if Accepted(ray, t.left, tri, T_MAX) {
        AcceptedEarlier(ray, t.left, tri);
      } else {
        AcceptedEarlier(ray, t.right, tri);
      }
    }
  }

  /** Main result: when boxes are entered in time, the walk finds the closest hit if and only if the boxes above some nearest triangle accept the ray. */
  lemma ClosestExactly(ray: Ray, t: Tree, tri: Triangle)
    requires Nearest(ray, Leaves(t), tri) && EntersInTime(ray, t)
    ensures Closest(ray, Leaves(t), Visit(ray, t, NOTHING))
       <==> exists x <- Leaves(t) :: Nearest(ray, Leaves(t), x) && Accepted(ray, t, x, T_MAX)
  {
    hide HitOf, Visit, Accepted, Closest, EntersInTime;
    if Closest(ray, Leaves(t), Visit(ray, t, NOTHING)) {
      var x := ClosestOnlyIf(ray, t, tri);
    }
    forall x | x in Leaves(t) && Nearest(ray, Leaves(t), x) && Accepted(ray, t, x, T_MAX)
      ensures Closest(ray, Leaves(t), Visit(ray, t, NOTHING))
    {
      AcceptedEarlier(ray, t, x);
      ClosestIf(ray, t, x);
    }
  }

  /** When nothing is hit, the walk says so. */
  lemma NothingToFind(ray: Ray, t: Tree)
    requires forall x <- Leaves(t) :: HitOf(ray, x).Hit? ==> HitOf(ray, x).t >= T_MAX
    ensures Visit(ray, t, NOTHING) == NOTHING
  {
    hide HitOf, Visit;
    VisitAtLeast(ray, t, NOTHING, T_MAX);
    VisitSound(ray, t, Leaves(t), NOTHING);
  }
}
