/**
 The tree that `build_bvh` of tb/uvm/rt_ref.py builds, as a value: median split along the
 widest axis of the bounds. It holds exactly the triangles given, its boxes enclose them,
 and its height is at most the logarithm of their number, rounded up.
 */
module BvhTree {
  import opened Bits
  import opened RayTriangle

  datatype Tree =
    | Leaf(tri: Triangle)
    | Split(bmin: Vec, bmax: Vec, left: Tree, right: Tree)

  function Size(t: Tree): (n: nat)
    ensures n >= 1
  {
    match t
    case Leaf(_) => 1
    case Split(_, _, left, right) => 1 + Size(left) + Size(right)
  }

  function Height(t: Tree): nat {
    match t
    case Leaf(_) => 0
    case Split(_, _, left, right) => 1 + (if Height(left) > Height(right) then Height(left) else Height(right))
  }

  function Leaves(t: Tree): seq<Triangle> {
    match t
    case Leaf(tri) => [tri]
    case Split(_, _, left, right) => Leaves(left) + Leaves(right)
  }

  // --- bounds ---

  function VecMin(a: Vec, b: Vec): Vec {
    Vec(Min(a.x, b.x), Min(a.y, b.y), Min(a.z, b.z))
  }

  function VecMax(a: Vec, b: Vec): Vec {
    Vec(Max(a.x, b.x), Max(a.y, b.y), Max(a.z, b.z))
  }

  /** `tri_bounds` */
  function TriMin(t: Triangle): Vec {
    VecMin(VecMin(t.v0, t.v1), t.v2)
  }

  function TriMax(t: Triangle): Vec {
    VecMax(VecMax(t.v0, t.v1), t.v2)
  }

  function MinOf(items: seq<Triangle>): Vec
    requires items != []
  {
    if |items| == 1 then TriMin(items[0]) else VecMin(TriMin(items[0]), MinOf(items[1..]))
  }

  function MaxOf(items: seq<Triangle>): Vec
    requires items != []
  {
    if |items| == 1 then TriMax(items[0]) else VecMax(TriMax(items[0]), MaxOf(items[1..]))
  }

  predicate AtMost(a: Vec, b: Vec) {
    a.x <= b.x && a.y <= b.y && a.z <= b.z
  }

  /** All vertices of the triangle are inside the box. */
  predicate Encloses(bmin: Vec, bmax: Vec, t: Triangle) {
    && AtMost(bmin, t.v0) && AtMost(bmin, t.v1) && AtMost(bmin, t.v2)
    && AtMost(t.v0, bmax) && AtMost(t.v1, bmax) && AtMost(t.v2, bmax)
  }

  lemma {:induction false} BoundsEnclose(items: seq<Triangle>)
    requires items != []
    ensures forall t <- items :: Encloses(MinOf(items), MaxOf(items), t)
  {
    if |items| > 1 {
      BoundsEnclose(items[1..]);
      assert items == [items[0]] + items[1..];
    }
  }

  // --- sorting ---

  datatype Axis = X | Y | Z

  function Along(v: Vec, axis: Axis): int {
    match axis
    case X => v.x
    case Y => v.y
    case Z => v.z
  }

  /** `ext.index(max(ext))`: the first of the widest axes. */
  function WidestAxis(bmin: Vec, bmax: Vec): Axis {
    var x, y, z := bmax.x - bmin.x, bmax.y - bmin.y, bmax.z - bmin.z;
    if x >= y && x >= z then X else if y >= z then Y else Z
  }

  function Key(t: Triangle, axis: Axis): int {
    Along(t.v0, axis) + Along(t.v1, axis) + Along(t.v2, axis)
  }

  /** `sorted` is stable: an item goes before the items whose keys are at least its own. */
  function Insert(t: Triangle, items: seq<Triangle>, axis: Axis): seq<Triangle> {
    if items == [] || Key(t, axis) <= Key(items[0], axis) then [t] + items
    else [items[0]] + Insert(t, items[1..], axis)
  }

  function Sorted(items: seq<Triangle>, axis: Axis): (r: seq<Triangle>)
    ensures |r| == |items|
  {
    SortedSameSize(items, axis);
    SortItems(items, axis)
  }

  function SortItems(items: seq<Triangle>, axis: Axis): seq<Triangle> {
    if items == [] then [] else Insert(items[0], SortItems(items[1..], axis), axis)
  }

  lemma {:induction false} InsertKeeps(t: Triangle, items: seq<Triangle>, axis: Axis)
    ensures |Insert(t, items, axis)| == |items| + 1
    ensures multiset(Insert(t, items, axis)) == multiset(items) + multiset{t}
    ensures InOrder(items, axis) ==> InOrder(Insert(t, items, axis), axis)
  {
    if !(items == [] || Key(t, axis) <= Key(items[0], axis)) {
      var rest := Insert(t, items[1..], axis);
      InsertKeeps(t, items[1..], axis);
      assert items == [items[0]] + items[1..];
      assert multiset(rest) == multiset(items[1..]) + multiset{t};
      if InOrder(items, axis) {
        OrderOfTail(items, axis);
        FirstIsLeast(items[0], rest, t, items[1..], axis);
      }
    }
  }

  predicate InOrder(items: seq<Triangle>, axis: Axis) {
    forall i, j :: 0 <= i < j < |items| ==> Key(items[i], axis) <= Key(items[j], axis)
  }

  lemma OrderOfTail(items: seq<Triangle>, axis: Axis)
    requires InOrder(items, axis) && items != []
    ensures InOrder(items[1..], axis)
    ensures forall x <- items[1..] :: Key(items[0], axis) <= Key(x, axis)
  {}

  lemma FirstIsLeast(first: Triangle, rest: seq<Triangle>, t: Triangle, tail: seq<Triangle>, axis: Axis)
    requires multiset(rest) == multiset(tail) + multiset{t} && InOrder(rest, axis)
    requires Key(first, axis) <= Key(t, axis) && forall x <- tail :: Key(first, axis) <= Key(x, axis)
    ensures InOrder([first] + rest, axis)
  {
    forall x | x in rest
      ensures Key(first, axis) <= Key(x, axis)
    {
      assert x in multiset(rest);
      assert x in tail || x == t;
    }
  }

  lemma {:induction false} SortedSameSize(items: seq<Triangle>, axis: Axis)
    ensures |SortItems(items, axis)| == |items|
  {
    if items != [] {
      SortedSameSize(items[1..], axis);
      InsertKeeps(items[0], SortItems(items[1..], axis), axis);
    }
  }

  /** The items with one key, in their order. */
  function OfKey(items: seq<Triangle>, k: int, axis: Axis): seq<Triangle> {
    if items == [] then []
    else (if Key(items[0], axis) == k then [items[0]] else []) + OfKey(items[1..], k, axis)
  }

  lemma OfKeyFirst(t: Triangle, items: seq<Triangle>, k: int, axis: Axis)
    ensures OfKey([t] + items, k, axis) == (if Key(t, axis) == k then [t] else []) + OfKey(items, k, axis)
  {
    assert ([t] + items)[1..] == items;
  }

  lemma {:induction false} InsertStable(t: Triangle, items: seq<Triangle>, k: int, axis: Axis)
    ensures OfKey(Insert(t, items, axis), k, axis) == OfKey([t] + items, k, axis)
  {
    OfKeyFirst(t, items, k, axis);
    if !(items == [] || Key(t, axis) <= Key(items[0], axis)) {
      InsertStable(t, items[1..], k, axis);
      OfKeyFirst(t, items[1..], k, axis);
      OfKeyFirst(items[0], Insert(t, items[1..], axis), k, axis);
      OfKeyFirst(items[0], items[1..], k, axis);
      assert items == [items[0]] + items[1..];
    }
  }

  /** Sorting orders the keys, keeps the items, and keeps the order of items with equal keys. */
  lemma {:induction false} SortedIsSorted(items: seq<Triangle>, axis: Axis)
    ensures InOrder(Sorted(items, axis), axis) && multiset(Sorted(items, axis)) == multiset(items)
    ensures forall k: int :: OfKey(Sorted(items, axis), k, axis) == OfKey(items, k, axis)
  {
    if items != [] {
      var rest := Sorted(items[1..], axis);
      SortedIsSorted(items[1..], axis);
      InsertKeeps(items[0], rest, axis);
      assert items == [items[0]] + items[1..];
      forall k: int
        ensures OfKey(Sorted(items, axis), k, axis) == OfKey(items, k, axis)
      {
        InsertStable(items[0], rest, k, axis);
        OfKeyFirst(items[0], rest, k, axis);
        OfKeyFirst(items[0], items[1..], k, axis);
      }
    }
  }

  // --- the tree ---

  /** The halves of a list that is sorted along the widest axis of its bounds. */
  function Halves(items: seq<Triangle>): (h: (seq<Triangle>, seq<Triangle>))
    requires |items| >= 2
    ensures |h.0| == |items| / 2 && |h.0| + |h.1| == |items|
  {
    var items' := Sorted(items, WidestAxis(MinOf(items), MaxOf(items)));
    (items'[..|items| / 2], items'[|items| / 2..])
  }

  function BuildTree(items: seq<Triangle>): Tree
    requires items != []
    decreases |items|
  {
    if |items| == 1 then Leaf(items[0])
    else
      var h := Halves(items);
      Split(MinOf(items), MaxOf(items), BuildTree(h.0), BuildTree(h.1))
  }

  lemma HalvesKeep(items: seq<Triangle>)
    requires |items| >= 2
    ensures multiset(Halves(items).0) + multiset(Halves(items).1) == multiset(items)
  {
    var axis := WidestAxis(MinOf(items), MaxOf(items));
    SortedIsSorted(items, axis);
    assert Sorted(items, axis) == Halves(items).0 + Halves(items).1;
  }

  /** Every triangle is in exactly one leaf. */
  lemma {:induction false} LeavesAreItems(items: seq<Triangle>)
    requires items != []
    ensures multiset(Leaves(BuildTree(items))) == multiset(items)
    decreases |items|
  {
    hide Halves, MinOf, MaxOf;
    if |items| == 1 {
      assert items == [items[0]];
    } else {
      var h := Halves(items);
      HalvesKeep(items);
      LeavesAreItems(h.0);
      LeavesAreItems(h.1);
    }
  }

  /** Every box encloses all vertices below it. */
  predicate WellBounded(t: Tree) {
    match t
    case Leaf(_) => true
    case Split(bmin, bmax, left, right) =>
      && WellBounded(left) && WellBounded(right)
      && forall tri <- Leaves(t) :: Encloses(bmin, bmax, tri)
  }

  lemma {:induction false} BoxesEnclose(items: seq<Triangle>)
    requires items != []
    ensures WellBounded(BuildTree(items))
    decreases |items|
  {
    hide Halves, MinOf, MaxOf, Encloses;
    if |items| > 1 {
      var h := Halves(items);
      BoxesEnclose(h.0);
      BoxesEnclose(h.1);
      LeavesAreItems(items);
      BoundsEnclose(items);
      forall tri | tri in Leaves(BuildTree(items))
        ensures Encloses(MinOf(items), MaxOf(items), tri)
      {
        assert tri in multiset(Leaves(BuildTree(items)));
      }
    }
  }

  /** The height is at most the logarithm of the number of triangles, rounded up. */
  lemma {:induction false} HeightBound(items: seq<Triangle>, k: nat)
    requires items != [] && |items| <= Pow2(k)
    ensures Height(BuildTree(items)) <= k
    decreases |items|
  {
    hide Halves, MinOf, MaxOf;
    if |items| > 1 {
      assert Pow2(0) == 1;
      var h := Halves(items);
      assert Pow2(k) == 2 * Pow2(k - 1);
      HeightBound(h.0, k - 1);
      HeightBound(h.1, k - 1);
    }
  }

  /** A tree over n triangles has 2 * n - 1 nodes. */
  lemma {:induction false} SizeOfTree(items: seq<Triangle>)
    requires items != []
    ensures Size(BuildTree(items)) == 2 * |items| - 1
    decreases |items|
  {
    hide Halves, MinOf, MaxOf;
    if |items| > 1 {
      SizeOfTree(Halves(items).0);
      SizeOfTree(Halves(items).1);
    }
  }
}
