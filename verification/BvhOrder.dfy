/**
 Which of several nearest triangles `traverse` of tb/uvm/rt_ref.py reports: the first one in
 the order of the leaves when the ray moves towards larger x, and the last one otherwise.
 */
module BvhOrder {
  import opened RayTriangle
  import opened BvhTree
  import opened BvhTraversal

  function Reversed(s: seq<Triangle>): seq<Triangle> {
    if s == [] then [] else Reversed(s[1..]) + [s[0]]
  }

  lemma {:induction false} ReversedConcat(a: seq<Triangle>, b: seq<Triangle>)
    ensures Reversed(a + b) == Reversed(b) + Reversed(a)
  {
    if a == [] {
      assert a + b == b;
    } else {
      ReversedConcat(a[1..], b);
      assert (a + b)[1..] == a[1..] + b;
    }
  }

  /** The walk reaches the leaves from left to right, or from right to left. */
  lemma {:induction false} OrderOfWalk(ray: Ray, t: Tree)
    ensures Order(ray, t) == if ray.d.x >= 0 then Leaves(t) else Reversed(Leaves(t))
  {
    match t {
      case Leaf(tri) =>
        assert Reversed([tri]) == [tri];
      case Split(_, _, left, right) =>
        OrderOfWalk(ray, left);
        OrderOfWalk(ray, right);
        ReversedConcat(Leaves(left), Leaves(right));
    }
  }

  /** The i-th triangle is hit at ct, nothing nearer is, and nothing before it as near. */
  predicate FirstNearest(ray: Ray, tris: seq<Triangle>, i: nat, best: Best) {
    && i < |tris| && best.found && best.id == tris[i].id && best.ct < T_MAX
    && (match TriIsect(ray, tris[i].v0, tris[i].v1, tris[i].v2)
        case Miss => false
        case Hit(t, u, v) => t == best.ct && u == best.u && v == best.v)
    && (forall j :: 0 <= j < i && HitOf(ray, tris[j]).Hit? ==> HitOf(ray, tris[j]).t > best.ct)
    && forall j :: i <= j < |tris| && HitOf(ray, tris[j]).Hit? ==> HitOf(ray, tris[j]).t >= best.ct
  }

  predicate NothingNear(ray: Ray, tris: seq<Triangle>) {
    forall j :: 0 <= j < |tris| && HitOf(ray, tris[j]).Hit? ==> HitOf(ray, tris[j]).t >= T_MAX
  }

  /** The result over a list is its first nearest triangle, or nothing. */
  ghost predicate FirstOrNothing(ray: Ray, tris: seq<Triangle>, best: Best) {
    (best == NOTHING && NothingNear(ray, tris)) || exists i: nat :: FirstNearest(ray, tris, i, best)
  }

  lemma OneMore(ray: Ray, tris: seq<Triangle>, tri: Triangle, best: Best)
    requires FirstOrNothing(ray, tris, best)
    ensures FirstOrNothing(ray, tris + [tri], Update(ray, tri, best))
  {
    hide TriIsect;
    var more, h, best' := tris + [tri], HitOf(ray, tri), Update(ray, tri, best);
    if h.Hit? && h.t < best.ct {
      assert FirstNearest(ray, more, |tris|, best');
    } else if best != NOTHING || !NothingNear(ray, tris) {
      var i: nat :| FirstNearest(ray, tris, i, best);
      assert FirstNearest(ray, more, i, best');
    }
  }

  lemma {:induction false} SearchFindsFirst(ray: Ray, tris: seq<Triangle>, n: nat, best: Best)
    requires n <= |tris| && FirstOrNothing(ray, tris[..n], best)
    ensures FirstOrNothing(ray, tris, Search(ray, tris[n..], best))
    decreases |tris| - n
  {
    hide FirstOrNothing, Update;
    if n == |tris| {
      assert tris[..n] == tris;
    } else {
      OneMore(ray, tris[..n], tris[n], best);
      assert tris[..n + 1] == tris[..n] + [tris[n]];
      assert tris[n..][1..] == tris[n + 1..];
      SearchFindsFirst(ray, tris, n + 1, Update(ray, tris[n], best));
    }
  }

  /** Main result: the triangle that the walk reports, ties included. */
  lemma WalkFindsFirst(ray: Ray, t: Tree)
    requires Conservative(ray, t)
    ensures FirstOrNothing(ray, if ray.d.x >= 0 then Leaves(t) else Reversed(Leaves(t)), Visit(ray, t, NOTHING))
  {
    hide FirstOrNothing, Conservative, Visit;
    var order := Order(ray, t);
    OrderOfWalk(ray, t);
    VisitIsSearch(ray, t, NOTHING);
    NothingFirst(ray);
    assert order[..0] == [] && order[0..] == order;
    SearchFindsFirst(ray, order, 0, NOTHING);
  }

  lemma NothingFirst(ray: Ray)
    ensures FirstOrNothing(ray, [], NOTHING)
  {}
}
