/**
 `traverse` of tb/uvm/rt_ref.py: a stack of 32 entries, pruning by the nearest hit so far.
 It visits the tree as a recursive walk would, never drops a far child of a tree that
 `build_bvh` makes, and finds the closest hit of all triangles provided that no box test
 rejects a node holding one that is nearer.
 */
module BvhTraversal {
  import opened Bits
  import opened RayTriangle
  import opened BvhTree
  import opened BvhBuilder
  import opened Options

  const STACK_DEPTH := 32

  /** `ct` and `best`. */
  datatype Best = Best(ct: int, found: bool, id: int, u: nat, v: nat)

  const NOTHING := Best(T_MAX, false, 0, 0, 0)

  function HitOf(ray: Ray, tri: Triangle): Hit {
    TriIsect(ray, tri.v0, tri.v1, tri.v2)
  }

  function Update(ray: Ray, tri: Triangle, best: Best): Best {
    var h := HitOf(ray, tri);
    if h.Hit? && h.t < best.ct then Best(h.t, true, tri.id, h.u, h.v) else best
  }

  function Near(ray: Ray, t: Tree): Tree
    requires t.Split?
  {
    if ray.d.x >= 0 then t.left else t.right
  }

  function Far(ray: Ray, t: Tree): Tree
    requires t.Split?
  {
    if ray.d.x >= 0 then t.right else t.left
  }

  /** The recursive walk: the near child first, nodes behind the nearest hit so far pruned. */
  function Visit(ray: Ray, t: Tree, best: Best): Best {
    match t
    case Leaf(tri) => Update(ray, tri, best)
    case Split(bmin, bmax, _, _) =>
      if BoxHit(ray, best.ct, bmin, bmax) then Visit(ray, Far(ray, t), Visit(ray, Near(ray, t), best)) else best
  }

  function VisitStack(ray: Ray, trees: seq<Tree>, best: Best): Best {
    if trees == [] then best
    else
      var n := |trees| - 1;
      VisitStack(ray, trees[..n], Visit(ray, trees[n], best))
  }

  function TotalSize(trees: seq<Tree>): nat {
    if trees == [] then 0 else TotalSize(trees[..|trees| - 1]) + Size(trees[|trees| - 1])
  }

  lemma Push(ray: Ray, trees: seq<Tree>, t: Tree, best: Best)
    ensures VisitStack(ray, trees + [t], best) == VisitStack(ray, trees, Visit(ray, t, best))
    ensures TotalSize(trees + [t]) == TotalSize(trees) + Size(t)
  {
    assert (trees + [t])[..|trees|] == trees;
  }

  /** Every stored subtree fits below the stack entries under it. */
  predicate Shallow(trees: seq<Tree>, h: nat) {
    forall i :: 0 <= i < |trees| ==> i + Height(trees[i]) <= h
  }

  /** The best so far is nothing, or the hit of some triangle of the tree. */
  predicate Sound(ray: Ray, tris: seq<Triangle>, best: Best) {
    best == NOTHING || exists tri <- tris :: Update(ray, tri, NOTHING) == best
  }

  predicate AllWithin(trees: seq<Tree>, tris: seq<Triangle>) {
    forall i :: 0 <= i < |trees| ==> Within(trees[i], tris)
  }

  predicate Within(t: Tree, tris: seq<Triangle>) {
    forall tri <- Leaves(t) :: tri in tris
  }

  lemma ChildrenWithin(ray: Ray, t: Tree, tris: seq<Triangle>)
    requires t.Split? && Within(t, tris)
    ensures Within(Near(ray, t), tris) && Within(Far(ray, t), tris)
  {
    forall tri | tri in Leaves(t.left) || tri in Leaves(t.right)
      ensures tri in tris
    {
      assert tri in Leaves(t);
    }
  }

  lemma UpdateSound(ray: Ray, tris: seq<Triangle>, t: Tree, best: Best)
    requires t.Leaf? && Within(t, tris) && Sound(ray, tris, best)
    ensures Sound(ray, tris, Update(ray, t.tri, best))
  {
    assert t.tri in Leaves(t);
  }

  /** Where the loop stands: the subtrees on the stack, the tree as a whole, and what the walk has still to do. */
  ghost predicate Waiting(nodes: map<nat, Node>, ray: Ray, tree: Tree, stack: seq<nat>, trees: seq<Tree>, best: Best) {
    && |stack| == |trees|
    && (forall i :: 0 <= i < |stack| ==> Stored(nodes, stack[i], trees[i]))
    && AllWithin(trees, Leaves(tree)) && Sound(ray, Leaves(tree), best)
    && (Height(tree) <= STACK_DEPTH ==>
          Shallow(trees, STACK_DEPTH) && VisitStack(ray, trees, best) == Visit(ray, tree, NOTHING))
  }

  /** The same with a current node. */
  ghost predicate Walking(nodes: map<nat, Node>, ray: Ray, tree: Tree, stack: seq<nat>, trees: seq<Tree>, node: nat, t: Tree, best: Best) {
    && |stack| == |trees| && Stored(nodes, node, t)
    && (forall i :: 0 <= i < |stack| ==> Stored(nodes, stack[i], trees[i]))
    && Within(t, Leaves(tree)) && AllWithin(trees, Leaves(tree)) && Sound(ray, Leaves(tree), best)
    && (Height(tree) <= STACK_DEPTH ==>
          && |stack| + Height(t) <= STACK_DEPTH && Shallow(trees, STACK_DEPTH)
          && VisitStack(ray, trees, Visit(ray, t, best)) == Visit(ray, tree, NOTHING))
  }

  lemma LeafStep(nodes: map<nat, Node>, ray: Ray, tree: Tree, stack: seq<nat>, trees: seq<Tree>, node: nat, t: Tree, best: Best)
    requires Walking(nodes, ray, tree, stack, trees, node, t, best) && t.Leaf?
    ensures Waiting(nodes, ray, tree, stack, trees, Update(ray, t.tri, best))
  {
    hide Stored, Update, Sound, AllWithin, Within;
    UpdateSound(ray, Leaves(tree), t, best);
  }

  lemma RejectStep(nodes: map<nat, Node>, ray: Ray, tree: Tree, stack: seq<nat>, trees: seq<Tree>, node: nat, t: Tree, best: Best)
    requires Walking(nodes, ray, tree, stack, trees, node, t, best) && t.Split? && !BoxHit(ray, best.ct, t.bmin, t.bmax)
    ensures Waiting(nodes, ray, tree, stack, trees, best)
  {
    hide Stored, Sound, AllWithin, BoxHit;
  }

  lemma PopStep(nodes: map<nat, Node>, ray: Ray, tree: Tree, stack: seq<nat>, trees: seq<Tree>, best: Best)
    requires Waiting(nodes, ray, tree, stack, trees, best) && stack != []
    ensures var n := |stack| - 1; Walking(nodes, ray, tree, stack[..n], trees[..n], stack[n], trees[n], best)
  {
    hide Stored, Sound, Within, Visit;
  }

  lemma DescendStep(nodes: map<nat, Node>, ray: Ray, tree: Tree, stack: seq<nat>, trees: seq<Tree>, node: nat, t: Tree, best: Best)
    requires Walking(nodes, ray, tree, stack, trees, node, t, best) && t.Split? && BoxHit(ray, best.ct, t.bmin, t.bmax)
    ensures node in nodes
    ensures var n := nodes[node];
      && n.InnerNode?
      && var near, far := if ray.d.x >= 0 then n.left else n.right, if ray.d.x >= 0 then n.right else n.left;
      if |stack| < STACK_DEPTH then
        Walking(nodes, ray, tree, stack + [far], trees + [Far(ray, t)], near, Near(ray, t), best)
      else Walking(nodes, ray, tree, stack, trees, near, Near(ray, t), best)
  {
    hide Sound, Within, BoxHit, Size, Stored, Visit, VisitStack, Height, Near, Far, Leaves;
    ChildrenWithin(ray, t, Leaves(tree));
    ChildHeights(ray, t);
    ChildrenStored(nodes, ray, node, t);
    VisitAccepted(ray, t, best);
    Push(ray, trees, Far(ray, t), Visit(ray, Near(ray, t), best));
  }

  lemma ChildrenStored(nodes: map<nat, Node>, ray: Ray, node: nat, t: Tree)
    requires Stored(nodes, node, t) && t.Split?
    ensures node in nodes
    ensures var n := nodes[node];
      && n.InnerNode?
      && Stored(nodes, if ray.d.x >= 0 then n.left else n.right, Near(ray, t))
      && Stored(nodes, if ray.d.x >= 0 then n.right else n.left, Far(ray, t))
  {}

  lemma VisitAccepted(ray: Ray, t: Tree, best: Best)
    requires t.Split? && BoxHit(ray, best.ct, t.bmin, t.bmax)
    ensures Visit(ray, t, best) == Visit(ray, Far(ray, t), Visit(ray, Near(ray, t), best))
  {
    hide BoxHit;
  }

  lemma StoredKind(nodes: map<nat, Node>, node: nat, t: Tree)
    requires Stored(nodes, node, t)
    ensures node in nodes
    ensures t.Leaf? ==> nodes[node] == LeafNode(t.tri)
    ensures t.Split? ==> nodes[node].InnerNode? && nodes[node].bmin == t.bmin && nodes[node].bmax == t.bmax
  {}

  lemma Started(nodes: map<nat, Node>, root: nat, ray: Ray, tree: Tree)
    requires Stored(nodes, root, tree)
    ensures Walking(nodes, ray, tree, [], [], root, tree, NOTHING)
  {}

  lemma Finished(nodes: map<nat, Node>, ray: Ray, tree: Tree, best: Best)
    requires Waiting(nodes, ray, tree, [], [], best)
    ensures Sound(ray, Leaves(tree), best)
    ensures Height(tree) <= STACK_DEPTH ==> best == Visit(ray, tree, NOTHING)
  {}

  /**
   The loop. On every stored tree it terminates and what it reports is a real hit; on a tree
   of height at most 32 it drops nothing and computes the recursive walk.
   */
  method Traverse(nodes: map<nat, Node>, root: nat, ray: Ray, ghost tree: Tree) returns (best: Best)
    requires Stored(nodes, root, tree)
    ensures Sound(ray, Leaves(tree), best)
    ensures Height(tree) <= STACK_DEPTH ==> best == Visit(ray, tree, NOTHING)
  {
    hide Walking, Waiting, TriIsect, BoxHit, Height, Stored, Visit, VisitStack, Sound;
    var stack: seq<nat>, node := [], root;
    ghost var trees: seq<Tree>, t := [], tree;
    best := NOTHING;
    Started(nodes, root, ray, tree);
    while true
      invariant |stack| == |trees| && Stored(nodes, node, t)
      invariant Walking(nodes, ray, tree, stack, trees, node, t, best)
      decreases Size(t) + TotalSize(trees)
    {
      StoredKind(nodes, node, t);
      match nodes[node] {
        case LeafNode(tri) =>
          LeafStep(nodes, ray, tree, stack, trees, node, t, best);
          var h := TriIsect(ray, tri.v0, tri.v1, tri.v2);
          if h.Hit? && h.t < best.ct {
            best := Best(h.t, true, tri.id, h.u, h.v);
          }
          if stack == [] {
            Finished(nodes, ray, tree, best);
            break;
          }
          PopStep(nodes, ray, tree, stack, trees, best);
          node, stack := stack[|stack| - 1], stack[..|stack| - 1];
          t, trees := trees[|trees| - 1], trees[..|trees| - 1];
        case InnerNode(left, right, bmin, bmax) =>
          var near, far := if ray.d.x >= 0 then left else right, if ray.d.x >= 0 then right else left;
          ChildHeights(ray, t);
          if BoxHit(ray, best.ct, bmin, bmax) {
            DescendStep(nodes, ray, tree, stack, trees, node, t, best);
            Push(ray, trees, Far(ray, t), best);
            if |stack| < STACK_DEPTH {
              stack, trees := stack + [far], trees + [Far(ray, t)];
            }
            node, t := near, Near(ray, t);
          } else {
            RejectStep(nodes, ray, tree, stack, trees, node, t, best);
            if stack == [] {
              Finished(nodes, ray, tree, best);
              break;
            }
            PopStep(nodes, ray, tree, stack, trees, best);
            node, stack := stack[|stack| - 1], stack[..|stack| - 1];
            t, trees := trees[|trees| - 1], trees[..|trees| - 1];
          }
      }
      WalkingShape(nodes, ray, tree, stack, trees, node, t, best);
    }
  }

  lemma WalkingShape(nodes: map<nat, Node>, ray: Ray, tree: Tree, stack: seq<nat>, trees: seq<Tree>, node: nat, t: Tree, best: Best)
    requires Walking(nodes, ray, tree, stack, trees, node, t, best)
    ensures |stack| == |trees| && Stored(nodes, node, t)
  {}

  lemma ChildHeights(ray: Ray, t: Tree)
    requires t.Split?
    ensures Height(Near(ray, t)) < Height(t) && Height(Far(ray, t)) < Height(t)
    ensures Size(Near(ray, t)) + Size(Far(ray, t)) < Size(t)
  {}

  // --- agreement with the brute-force search ---

  /** The triangles in the order in which the walk reaches them. */
  function Order(ray: Ray, t: Tree): seq<Triangle> {
    match t
    case Leaf(tri) => [tri]
    case Split(_, _, _, _) => Order(ray, Near(ray, t)) + Order(ray, Far(ray, t))
  }

  /** Brute force: every triangle in turn. */
  function Search(ray: Ray, tris: seq<Triangle>, best: Best): Best {
    if tris == [] then best else Search(ray, tris[1..], Update(ray, tris[0], best))
  }

  /** No box test rejects a node below which some triangle is hit: the hypothesis of the agreement. */
  predicate Conservative(ray: Ray, t: Tree) {
    match t
    case Leaf(_) => true
    case Split(bmin, bmax, left, right) =>
      && Conservative(ray, left) && Conservative(ray, right)
      && forall tri <- Leaves(t) :: HitOf(ray, tri).Hit? && HitOf(ray, tri).t < T_MAX ==> BoxHit(ray, HitOf(ray, tri).t + 1, bmin, bmax)
  }

  lemma {:induction false} OrderIsLeaves(ray: Ray, t: Tree)
    ensures multiset(Order(ray, t)) == multiset(Leaves(t))
  {
    if t.Split? {
      OrderIsLeaves(ray, t.left);
      OrderIsLeaves(ray, t.right);
    }
  }

  lemma {:induction false} SearchAppend(ray: Ray, xs: seq<Triangle>, ys: seq<Triangle>, best: Best)
    ensures Search(ray, xs + ys, best) == Search(ray, ys, Search(ray, xs, best))
  {
    if xs == [] {
      assert xs + ys == ys;
    } else {
      assert (xs + ys)[1..] == xs[1..] + ys;
      SearchAppend(ray, xs[1..], ys, Update(ray, xs[0], best));
    }
  }

  lemma {:induction false} SearchNothingNearer(ray: Ray, tris: seq<Triangle>, best: Best)
    requires forall tri <- tris :: HitOf(ray, tri).Hit? ==> HitOf(ray, tri).t >= best.ct
    ensures Search(ray, tris, best) == best
  {
    hide HitOf;
    if tris != [] {
      SearchNothingNearer(ray, tris[1..], best);
    }
  }

  lemma {:induction false} SearchNearer(ray: Ray, tris: seq<Triangle>, best: Best)
    ensures Search(ray, tris, best).ct <= best.ct
  {
    hide HitOf;
    if tris != [] {
      SearchNearer(ray, tris[1..], Update(ray, tris[0], best));
    }
  }

  lemma RejectedHasNothingNearer(ray: Ray, t: Tree, best: Best)
    requires t.Split? && Conservative(ray, t) && best.ct <= T_MAX && !BoxHit(ray, best.ct, t.bmin, t.bmax)
    ensures forall tri <- Order(ray, t) :: HitOf(ray, tri).Hit? ==> HitOf(ray, tri).t >= best.ct
  {
    hide HitOf;
    OrderIsLeaves(ray, t);
    forall tri | tri in Order(ray, t) && HitOf(ray, tri).Hit?
      ensures HitOf(ray, tri).t >= best.ct
    {
      assert tri in multiset(Leaves(t));
      BoxMonotone(ray, HitOf(ray, tri).t + 1, best.ct, t.bmin, t.bmax);
    }
  }

  lemma BoxMonotone(ray: Ray, t1: int, t2: int, bmin: Vec, bmax: Vec)
    ensures t1 <= t2 && BoxHit(ray, t1, bmin, bmax) ==> BoxHit(ray, t2, bmin, bmax)
  {
    hide BoxSpan;
  }

  /** The walk prunes nothing that matters. */
  lemma {:induction false} VisitIsSearch(ray: Ray, t: Tree, best: Best)
    requires Conservative(ray, t) && best.ct <= T_MAX
    ensures Visit(ray, t, best) == Search(ray, Order(ray, t), best)
  {
    hide HitOf, BoxHit;
    match t
    case Leaf(tri) =>
    case Split(bmin, bmax, left, right) =>
      if BoxHit(ray, best.ct, bmin, bmax) {
        VisitIsSearch(ray, Near(ray, t), best);
        SearchNearer(ray, Order(ray, Near(ray, t)), best);
        VisitIsSearch(ray, Far(ray, t), Visit(ray, Near(ray, t), best));
        SearchAppend(ray, Order(ray, Near(ray, t)), Order(ray, Far(ray, t)), best);
      } else {
        RejectedHasNothingNearer(ray, t, best);
        SearchNothingNearer(ray, Order(ray, t), best);
      }
  }

  /** best is the closest hit among the triangles below `T_MAX`, or nothing when there is none. */
  predicate Closest(ray: Ray, tris: seq<Triangle>, best: Best) {
    && Sound(ray, tris, best)
    && forall tri <- tris :: HitOf(ray, tri).Hit? ==> HitOf(ray, tri).t >= best.ct
  }

  lemma {:induction false} SearchIsClosest(ray: Ray, tris: seq<Triangle>, n: nat, best: Best)
    requires n <= |tris| && Closest(ray, tris[..n], best)
    ensures Closest(ray, tris, Search(ray, tris[n..], best))
    decreases |tris| - n
  {
    hide HitOf;
    if n == |tris| {
      assert tris[..n] == tris;
    } else {
      var best' := Update(ray, tris[n], best);
      assert tris[..n + 1] == tris[..n] + [tris[n]];
      assert tris[n..][1..] == tris[n + 1..];
      if best' == best {
        assert Sound(ray, tris[..n + 1], best);
      } else {
        assert tris[n] in tris[..n + 1];
      }
      SearchIsClosest(ray, tris, n + 1, best');
    }
  }

  lemma SameTriangles(ray: Ray, xs: seq<Triangle>, ys: seq<Triangle>, best: Best)
    requires multiset(xs) == multiset(ys) && Closest(ray, xs, best)
    ensures Closest(ray, ys, best)
  {
    hide HitOf;
    forall tri
      ensures tri in xs <==> tri in ys
    {
      assert tri in multiset(xs) <==> tri in multiset(ys);
    }
  }

  /** Main result: on a tree over the triangles, the walk finds the closest hit of all of them. */
  lemma VisitFindsClosest(ray: Ray, tris: seq<Triangle>)
    requires tris != [] && Conservative(ray, BuildTree(tris))
    ensures Closest(ray, tris, Visit(ray, BuildTree(tris), NOTHING))
  {
    hide Closest, Conservative, Visit, BuildTree;
    var t := BuildTree(tris);
    var order := Order(ray, t);
    VisitIsSearch(ray, t, NOTHING);
    assert order[0..] == order;
    NothingIsClosest(ray, order);
    SearchIsClosest(ray, order, 0, NOTHING);
    OrderIsLeaves(ray, t);
    LeavesAreItems(tris);
    SameTriangles(ray, order, tris, Visit(ray, t, NOTHING));
  }

  lemma NothingIsClosest(ray: Ray, tris: seq<Triangle>)
    ensures Closest(ray, tris[..0], NOTHING)
  {}

  /** Build and trace: up to 2^32 triangles no far child is dropped, and the closest hit is found. */
  method TraceClosest(tris: seq<Triangle>, ray: Ray) returns (best: Option<Best>)
    ensures best.None? <==> tris == []
    ensures tris != [] ==> Sound(ray, Leaves(BuildTree(tris)), best.value)
    ensures 0 < |tris| <= TWO32 && Conservative(ray, BuildTree(tris)) ==> Closest(ray, tris, best.value)
  {
    hide Closest, Conservative, Visit, Pow2, BuildTree;
    var builder := new Builder();
    var root := builder.Build(tris);
    if root.None? {
      return None;
    }
    var b := Traverse(builder.nodes, root.value, ray, BuildTree(tris));
    if |tris| <= TWO32 {
      Pow2Values();
      HeightBound(tris, 32);
      if Conservative(ray, BuildTree(tris)) {
        VisitFindsClosest(ray, tris);
      }
    }
    best := Some(b);
  }
}
