/**
 Which tree `build_bvh` of tb/uvm/rt_ref.py builds: the bounds of every node are attained,
 and its triangles are split at the median of their centroids along the first of the widest
 axes, equal centroids in the order of the list. This describes exactly one tree.
 */
module BvhShape {
  import opened RayTriangle
  import opened BvhTree

  function Extent(bmin: Vec, bmax: Vec, axis: Axis): int {
    Along(bmax, axis) - Along(bmin, axis)
  }

  /** No axis is wider, and every earlier axis is narrower. */
  predicate IsFirstWidest(bmin: Vec, bmax: Vec, axis: Axis) {
    && Extent(bmin, bmax, X) <= Extent(bmin, bmax, axis)
    && Extent(bmin, bmax, Y) <= Extent(bmin, bmax, axis)
    && Extent(bmin, bmax, Z) <= Extent(bmin, bmax, axis)
    && (axis != X ==> Extent(bmin, bmax, X) < Extent(bmin, bmax, axis))
    && (axis == Z ==> Extent(bmin, bmax, Y) < Extent(bmin, bmax, axis))
  }

  predicate IsVertex(v: Vec, t: Triangle) {
    v == t.v0 || v == t.v1 || v == t.v2
  }

  /** Some triangle of the list has a vertex with this coordinate. */
  ghost predicate Attained(x: int, items: seq<Triangle>, axis: Axis) {
    exists t: Triangle, v: Vec :: t in items && IsVertex(v, t) && Along(v, axis) == x
  }

  /** The box encloses all triangles of the list, and each of its six sides touches a vertex. */
  ghost predicate Tight(bmin: Vec, bmax: Vec, items: seq<Triangle>) {
    && (forall t <- items :: Encloses(bmin, bmax, t))
    && forall axis: Axis :: Attained(Along(bmin, axis), items, axis) && Attained(Along(bmax, axis), items, axis)
  }

  /** The two lists, one after the other, are the items in the order of their keys, those with equal keys in their old order. */
  ghost predicate Halved(items: seq<Triangle>, axis: Axis, low: seq<Triangle>, high: seq<Triangle>) {
    && |low| == |items| / 2 && |low| + |high| == |items|
    && InOrder(low + high, axis)
    && forall k: int :: OfKey(low + high, k, axis) == OfKey(items, k, axis)
  }

  /** The tree over a list of triangles. */
  ghost predicate Shaped(t: Tree, items: seq<Triangle>)
    decreases t
  {
    match t
    case Leaf(tri) => items == [tri]
    case Split(bmin, bmax, left, right) =>
      && |items| >= 2 && Tight(bmin, bmax, items)
      && exists axis: Axis, low: seq<Triangle>, high: seq<Triangle> ::
        IsFirstWidest(bmin, bmax, axis) && Halved(items, axis, low, high) && Shaped(left, low) && Shaped(right, high)
  }

  // --- the tree that is built ---

  lemma WidestIsFirst(bmin: Vec, bmax: Vec)
    ensures IsFirstWidest(bmin, bmax, WidestAxis(bmin, bmax))
  {}

  lemma AttainedMore(x: int, items: seq<Triangle>, more: seq<Triangle>, axis: Axis)
    requires Attained(x, items, axis) && forall t <- items :: t in more
    ensures Attained(x, more, axis)
  {
    var t: Triangle, v: Vec :| t in items && IsVertex(v, t) && Along(v, axis) == x;
    assert t in more;
  }

  lemma FirstAttained(t: Triangle, items: seq<Triangle>, axis: Axis)
    requires t in items
    ensures Attained(Along(TriMin(t), axis), items, axis) && Attained(Along(TriMax(t), axis), items, axis)
  {
    hide Attained;
    VertexAttained(t, t.v0, items, axis);
    VertexAttained(t, t.v1, items, axis);
    VertexAttained(t, t.v2, items, axis);
  }

  lemma VertexAttained(t: Triangle, v: Vec, items: seq<Triangle>, axis: Axis)
    requires t in items && IsVertex(v, t)
    ensures Attained(Along(v, axis), items, axis)
  {}

  lemma {:induction false} BoundsAttained(items: seq<Triangle>, axis: Axis)
    requires items != []
    ensures Attained(Along(MinOf(items), axis), items, axis) && Attained(Along(MaxOf(items), axis), items, axis)
  {
    hide Attained, TriMin, TriMax;
    FirstAttained(items[0], items, axis);
    if |items| > 1 {
      BoundsAttained(items[1..], axis);
      AttainedMore(Along(MinOf(items[1..]), axis), items[1..], items, axis);
      AttainedMore(Along(MaxOf(items[1..]), axis), items[1..], items, axis);
    }
  }

  lemma BoundsTight(items: seq<Triangle>)
    requires items != []
    ensures Tight(MinOf(items), MaxOf(items), items)
  {
    hide MinOf, MaxOf, Attained, Encloses;
    BoundsEnclose(items);
    forall axis: Axis
      ensures Attained(Along(MinOf(items), axis), items, axis) && Attained(Along(MaxOf(items), axis), items, axis)
    {
      BoundsAttained(items, axis);
    }
  }

  lemma HalvesHalve(items: seq<Triangle>)
    requires |items| >= 2
    ensures var axis := WidestAxis(MinOf(items), MaxOf(items)); Halved(items, axis, Halves(items).0, Halves(items).1)
  {
    hide MinOf, MaxOf, WidestAxis, Sorted, InOrder, OfKey, Halves;
    SortedIsSorted(items, WidestAxis(MinOf(items), MaxOf(items)));
    HalvesJoined(items);
  }

  lemma HalvesJoined(items: seq<Triangle>)
    requires |items| >= 2
    ensures Halves(items).0 + Halves(items).1 == Sorted(items, WidestAxis(MinOf(items), MaxOf(items)))
  {
    hide *;
    HalvesShape(items);
    var sorted := Sorted(items, WidestAxis(MinOf(items), MaxOf(items)));
    TakeDrop(sorted, |items| / 2);
  }

  lemma HalvesShape(items: seq<Triangle>)
    requires |items| >= 2
    ensures var sorted := Sorted(items, WidestAxis(MinOf(items), MaxOf(items)));
      Halves(items) == (sorted[..|items| / 2], sorted[|items| / 2..])
  {
    hide MinOf, MaxOf, WidestAxis, Sorted;
  }

  lemma TakeDrop(s: seq<Triangle>, n: nat)
    requires n <= |s|
    ensures s[..n] + s[n..] == s
  {}

  /** Main result: the tree that is built is the one described. */
  lemma {:induction false} BuiltAsDescribed(items: seq<Triangle>)
    requires items != []
    ensures Shaped(BuildTree(items), items)
    decreases |items|
  {
    hide Halves, MinOf, MaxOf, Tight, Halved, IsFirstWidest, WidestAxis;
    if |items| == 1 {
      assert items == [items[0]];
    } else {
      var h := Halves(items);
      BoundsTight(items);
      WidestIsFirst(MinOf(items), MaxOf(items));
      HalvesHalve(items);
      BuiltAsDescribed(h.0);
      BuiltAsDescribed(h.1);
    }
  }

  // --- the description fits one tree only ---

  lemma AxisUnique(bmin: Vec, bmax: Vec, a: Axis, b: Axis)
    requires IsFirstWidest(bmin, bmax, a) && IsFirstWidest(bmin, bmax, b)
    ensures a == b
  {}

  lemma LowerSide(bmin: Vec, bmax: Vec, bmin': Vec, bmax': Vec, items: seq<Triangle>, axis: Axis)
    requires Tight(bmin, bmax, items) && Tight(bmin', bmax', items)
    ensures Along(bmin, axis) >= Along(bmin', axis) && Along(bmax, axis) <= Along(bmax', axis)
  {
    assert Attained(Along(bmin, axis), items, axis) && Attained(Along(bmax, axis), items, axis);
    var t: Triangle, v: Vec :| t in items && IsVertex(v, t) && Along(v, axis) == Along(bmin, axis);
    assert Encloses(bmin', bmax', t);
    var t': Triangle, v': Vec :| t' in items && IsVertex(v', t') && Along(v', axis) == Along(bmax, axis);
    assert Encloses(bmin', bmax', t');
  }

  lemma BoundsUnique(bmin: Vec, bmax: Vec, bmin': Vec, bmax': Vec, items: seq<Triangle>)
    requires Tight(bmin, bmax, items) && Tight(bmin', bmax', items)
    ensures bmin == bmin' && bmax == bmax'
  {
    hide Tight;
    LowerSide(bmin, bmax, bmin', bmax', items, X);
    LowerSide(bmin', bmax', bmin, bmax, items, X);
    LowerSide(bmin, bmax, bmin', bmax', items, Y);
    LowerSide(bmin', bmax', bmin, bmax, items, Y);
    LowerSide(bmin, bmax, bmin', bmax', items, Z);
    LowerSide(bmin', bmax', bmin, bmax, items, Z);
  }

  lemma {:induction false} OfKeyIn(items: seq<Triangle>, t: Triangle, axis: Axis)
    ensures t in OfKey(items, Key(t, axis), axis) <==> t in items
  {
    if items != [] {
      OfKeyIn(items[1..], t, axis);
      assert items == [items[0]] + items[1..];
    }
  }

  /** A list in order is determined by what it holds for each key. */
  lemma {:induction false} OrderUnique(xs: seq<Triangle>, ys: seq<Triangle>, axis: Axis)
    requires InOrder(xs, axis) && InOrder(ys, axis) && forall k: int :: OfKey(xs, k, axis) == OfKey(ys, k, axis)
    ensures xs == ys
    decreases |xs|
  {
    if xs == [] {
      FirstOfItsKey(ys, axis);
    } else {
      OfKeyIn(xs, xs[0], axis);
      OfKeyIn(ys, xs[0], axis);
      assert xs[0] in ys;
      OfKeyIn(ys, ys[0], axis);
      OfKeyIn(xs, ys[0], axis);
      assert ys[0] in xs;
      var k := Key(xs[0], axis);
      LeastFirst(xs, ys[0], axis);
      LeastFirst(ys, xs[0], axis);
      assert xs[0] == OfKey(xs, k, axis)[0] == OfKey(ys, k, axis)[0] == ys[0];
      forall j: int
        ensures OfKey(xs[1..], j, axis) == OfKey(ys[1..], j, axis)
      {
        assert OfKey(xs, j, axis) == OfKey(ys, j, axis);
        SameTail(if Key(xs[0], axis) == j then [xs[0]] else [], OfKey(xs[1..], j, axis), OfKey(ys[1..], j, axis));
      }
      OrderOfTail(xs, axis);
      OrderOfTail(ys, axis);
      OrderUnique(xs[1..], ys[1..], axis);
      assert xs == [xs[0]] + xs[1..] && ys == [ys[0]] + ys[1..];
    }
  }

  lemma FirstOfItsKey(items: seq<Triangle>, axis: Axis)
    ensures items != [] ==> OfKey(items, Key(items[0], axis), axis) != []
  {}

  lemma SameTail(a: seq<Triangle>, b: seq<Triangle>, c: seq<Triangle>)
    requires a + b == a + c
    ensures b == c
  {
    assert (a + b)[|a|..] == b && (a + c)[|a|..] == c;
  }

  lemma LeastFirst(items: seq<Triangle>, t: Triangle, axis: Axis)
    requires InOrder(items, axis) && t in items
    ensures Key(items[0], axis) <= Key(t, axis)
  {}

  lemma HalvesUnique(items: seq<Triangle>, axis: Axis, a: seq<Triangle>, b: seq<Triangle>, a': seq<Triangle>, b': seq<Triangle>)
    requires Halved(items, axis, a, b) && Halved(items, axis, a', b')
    ensures a == a' && b == b'
  {
    hide InOrder, OfKey;
    OrderUnique(a + b, a' + b', axis);
    assert (a + b)[..|a|] == a && (a' + b')[..|a|] == a' && (a + b)[|a|..] == b && (a' + b')[|a|..] == b';
  }

  /** Two trees of this description over the same list are the same. */
  lemma {:induction false} ShapeUnique(t: Tree, t': Tree, items: seq<Triangle>)
    requires Shaped(t, items) && Shaped(t', items)
    ensures t == t'
    decreases t
  {
    hide Tight, Halved, IsFirstWidest;
    if t.Split? && t'.Split? {
      BoundsUnique(t.bmin, t.bmax, t'.bmin, t'.bmax, items);
      var axis: Axis, low: seq<Triangle>, high: seq<Triangle> :|
        IsFirstWidest(t.bmin, t.bmax, axis) && Halved(items, axis, low, high) && Shaped(t.left, low) && Shaped(t.right, high);
      var axis': Axis, low': seq<Triangle>, high': seq<Triangle> :|
        IsFirstWidest(t'.bmin, t'.bmax, axis') && Halved(items, axis', low', high') && Shaped(t'.left, low') && Shaped(t'.right, high');
      AxisUnique(t.bmin, t.bmax, axis, axis');
      HalvesUnique(items, axis, low, high, low', high');
      ShapeUnique(t.left, t'.left, low);
      ShapeUnique(t.right, t'.right, high);
    }
  }

  // --- what one sees in the tree ---

  /** At every split the left half has the lower centroids along the first of the widest axes, and the bounds are tight. */
  ghost predicate SplitAtMedian(t: Tree) {
    match t
    case Leaf(_) => true
    case Split(bmin, bmax, left, right) =>
      && SplitAtMedian(left) && SplitAtMedian(right)
      && |Leaves(left)| == |Leaves(t)| / 2
      && Tight(bmin, bmax, Leaves(t))
      && forall axis: Axis, l: Triangle, r: Triangle ::
           IsFirstWidest(bmin, bmax, axis) && l in Leaves(left) && r in Leaves(right) ==> Key(l, axis) <= Key(r, axis)
  }

  lemma SameMembers(xs: seq<Triangle>, ys: seq<Triangle>)
    requires multiset(xs) == multiset(ys)
    ensures |xs| == |ys| && forall t: Triangle :: t in xs <==> t in ys
  {
    assert |multiset(xs)| == |xs| && |multiset(ys)| == |ys|;
    forall t: Triangle
      ensures t in xs <==> t in ys
    {
      assert t in multiset(xs) <==> t in multiset(ys);
    }
  }

  lemma TightSame(bmin: Vec, bmax: Vec, xs: seq<Triangle>, ys: seq<Triangle>)
    requires Tight(bmin, bmax, xs) && forall t: Triangle :: t in xs <==> t in ys
    ensures Tight(bmin, bmax, ys)
  {
    hide Attained, Encloses;
    forall axis: Axis
      ensures Attained(Along(bmin, axis), ys, axis) && Attained(Along(bmax, axis), ys, axis)
    {
      AttainedMore(Along(bmin, axis), xs, ys, axis);
      AttainedMore(Along(bmax, axis), xs, ys, axis);
    }
  }

  lemma LowBeforeHigh(items: seq<Triangle>, axis: Axis, low: seq<Triangle>, high: seq<Triangle>, l: Triangle, r: Triangle)
    requires Halved(items, axis, low, high) && l in low && r in high
    ensures Key(l, axis) <= Key(r, axis)
  {
    var i :| 0 <= i < |low| && low[i] == l;
    var j :| 0 <= j < |high| && high[j] == r;
    assert (low + high)[i] == l && (low + high)[|low| + j] == r;
  }

  /** Main result: the leaves below every split of the tree that is built. */
  lemma {:induction false} BuiltAtMedian(items: seq<Triangle>)
    requires items != []
    ensures SplitAtMedian(BuildTree(items))
    decreases |items|
  {
    hide Halves, MinOf, MaxOf, Tight, Halved, IsFirstWidest, WidestAxis, Key;
    if |items| > 1 {
      var h, bmin, bmax := Halves(items), MinOf(items), MaxOf(items);
      var axis := WidestAxis(bmin, bmax);
      BuiltAtMedian(h.0);
      BuiltAtMedian(h.1);
      LeavesAreItems(items);
      LeavesAreItems(h.0);
      LeavesAreItems(h.1);
      SameMembers(Leaves(BuildTree(items)), items);
      SameMembers(Leaves(BuildTree(h.0)), h.0);
      SameMembers(Leaves(BuildTree(h.1)), h.1);
      BoundsTight(items);
      TightSame(bmin, bmax, items, Leaves(BuildTree(items)));
      WidestIsFirst(bmin, bmax);
      HalvesHalve(items);
      forall a: Axis, l: Triangle, r: Triangle | IsFirstWidest(bmin, bmax, a) && l in h.0 && r in h.1
        ensures Key(l, a) <= Key(r, a)
      {
        AxisUnique(bmin, bmax, axis, a);
        LowBeforeHigh(items, axis, h.0, h.1, l, r);
      }
    }
  }
}
