/** `build_bvh` of tb/uvm/rt_ref.py: the nodes by address, filled in by a recursive builder. */
module BvhBuilder {
  import opened RayTriangle
  import opened BvhTree
  import opened Options

  /** A BVHNode; `Blank` is one that has been allocated and not filled in. */
  datatype Node =
    | Blank
    | LeafNode(tri: Triangle)
    | InnerNode(left: nat, right: nat, bmin: Vec, bmax: Vec)

  /** The tree is stored from `addr` on, in preorder, so that no two nodes share an address. */
  predicate Stored(nodes: map<nat, Node>, addr: nat, t: Tree)
    decreases t
  {
    && addr in nodes
    && match t
       case Leaf(tri) => nodes[addr] == LeafNode(tri)
       case Split(bmin, bmax, left, right) =>
         && nodes[addr] == InnerNode(addr + 1, addr + 1 + Size(left), bmin, bmax)
         && Stored(nodes, addr + 1, left) && Stored(nodes, addr + 1 + Size(left), right)
  }

  lemma {:induction false} StoredSame(nodes: map<nat, Node>, nodes': map<nat, Node>, addr: nat, t: Tree)
    requires Stored(nodes, addr, t)
    requires forall a :: addr <= a < addr + Size(t) && a in nodes ==> a in nodes' && nodes'[a] == nodes[a]
    ensures Stored(nodes', addr, t)
    decreases t
  {
    match t
    case Leaf(_) =>
    case Split(_, _, left, right) =>
      StoredSame(nodes, nodes', addr + 1, left);
      StoredSame(nodes, nodes', addr + 1 + Size(left), right);
  }

  /** The addresses in use are those below `next`. */
  ghost predicate Occupies(nodes: map<nat, Node>, next: nat) {
    forall a: nat :: a in nodes <==> 1 <= a < next
  }

  /** No node has changed. */
  ghost predicate Kept(nodes: map<nat, Node>, nodes': map<nat, Node>) {
    forall a: nat :: a in nodes ==> a in nodes' && nodes'[a] == nodes[a]
  }

  /** Filling in the node at a fresh address, and the subtrees below it, leaves all nodes from before alone. */
  lemma KeptThrough(n0: map<nat, Node>, n1: map<nat, Node>, n2: map<nat, Node>, n3: map<nat, Node>, addr: nat, x: Node)
    requires addr >= 1 && Occupies(n0, addr) && n1 == n0[addr := Blank] && Kept(n1, n2) && n3 == n2[addr := x]
    ensures Kept(n0, n3)
  {}

  lemma OccupiesNext(nodes: map<nat, Node>, next: nat, x: Node)
    requires next >= 1 && Occupies(nodes, next)
    ensures Occupies(nodes[next := x], next + 1)
  {}

  lemma OccupiesSame(nodes: map<nat, Node>, next: nat, addr: nat, x: Node)
    requires Occupies(nodes, next) && 1 <= addr < next
    ensures addr in nodes && Occupies(nodes[addr := x], next)
  {}

  lemma KeptSame(nodes: map<nat, Node>)
    ensures Kept(nodes, nodes)
  {}

  lemma KeptTrans(a: map<nat, Node>, b: map<nat, Node>, c: map<nat, Node>)
    requires Kept(a, b) && Kept(b, c)
    ensures Kept(a, c)
  {}

  /** A subtree survives what keeps all nodes and refills another one. */
  lemma SubtreeKept(nodes: map<nat, Node>, nodes': map<nat, Node>, addr: nat, t: Tree, other: nat, x: Node)
    requires Stored(nodes, addr, t) && Kept(nodes, nodes') && other < addr
    ensures Stored(nodes'[other := x], addr, t)
  {
    hide Stored, Size;
    StoredSame(nodes, nodes'[other := x], addr, t);
  }

  lemma TreeShape(items: seq<Triangle>)
    requires items != []
    ensures |items| == 1 ==> BuildTree(items) == Leaf(items[0]) && Size(BuildTree(items)) == 1
    ensures |items| > 1 ==>
      var l, r := BuildTree(Halves(items).0), BuildTree(Halves(items).1);
      BuildTree(items) == Split(MinOf(items), MaxOf(items), l, r) && Size(BuildTree(items)) == 1 + Size(l) + Size(r)
  {
    hide Halves, MinOf, MaxOf;
  }

  lemma LeafStored(nodes: map<nat, Node>, addr: nat, tri: Triangle)
    requires addr in nodes && nodes[addr] == LeafNode(tri)
    ensures Stored(nodes, addr, Leaf(tri))
  {}

  lemma SplitStored(nodes: map<nat, Node>, addr: nat, bmin: Vec, bmax: Vec, left: Tree, right: Tree)
    requires addr in nodes && nodes[addr] == InnerNode(addr + 1, addr + 1 + Size(left), bmin, bmax)
    requires Stored(nodes, addr + 1, left) && Stored(nodes, addr + 1 + Size(left), right)
    ensures Stored(nodes, addr, Split(bmin, bmax, left, right))
  {}

  class Builder {
    var nodes: map<nat, Node>
    var nextAddr: nat

    ghost predicate Valid()
      reads this
    {
      nextAddr >= 1 && Occupies(nodes, nextAddr)
    }

    constructor ()
      ensures Valid() && nodes == map[] && nextAddr == 1
    {
      nodes, nextAddr := map[], 1;
    }

    method Alloc() returns (addr: nat)
      modifies this
      ensures addr == old(nextAddr) && nextAddr == addr + 1 && nodes == old(nodes)
    {
      addr := nextAddr;
      nextAddr := nextAddr + 1;
    }

    /** `rec`: stores the tree over the items at fresh addresses and leaves all other nodes alone. */
    method Rec(items: seq<Triangle>) returns (addr: nat)
      requires Valid() && items != []
      modifies this
      ensures Valid() && addr == old(nextAddr) && nextAddr == old(nextAddr) + Size(BuildTree(items))
      ensures Stored(nodes, addr, BuildTree(items))
      ensures Kept(old(nodes), nodes)
      decreases |items|
    {
      hide Halves, MinOf, MaxOf, Stored, Size, BuildTree, Occupies, Kept;
      ghost var nodes0 := nodes;
      TreeShape(items);
      addr := Alloc();
      OccupiesNext(nodes, addr, Blank);
      nodes := nodes[addr := Blank];
      ghost var nodes1 := nodes;
      if |items| == 1 {
        KeptSame(nodes1);
        KeptThrough(nodes0, nodes1, nodes1, nodes1[addr := LeafNode(items[0])], addr, LeafNode(items[0]));
        OccupiesSame(nodes, nextAddr, addr, LeafNode(items[0]));
        nodes := nodes[addr := LeafNode(items[0])];
        LeafStored(nodes, addr, items[0]);
        return;
      }
      var h := Halves(items);
      var left := Rec(h.0);
      ghost var nodes2 := nodes;
      var right := Rec(h.1);
      ghost var nodes3, node := nodes, InnerNode(left, right, MinOf(items), MaxOf(items));
      KeptTrans(nodes1, nodes2, nodes3);
      KeptThrough(nodes0, nodes1, nodes3, nodes3[addr := node], addr, node);
      KeptSame(nodes3);
      SubtreeKept(nodes2, nodes3, left, BuildTree(h.0), addr, node);
      SubtreeKept(nodes3, nodes3, right, BuildTree(h.1), addr, node);
      OccupiesSame(nodes, nextAddr, addr, node);
      nodes := nodes[addr := InnerNode(left, right, MinOf(items), MaxOf(items))];
      SplitStored(nodes, addr, MinOf(items), MaxOf(items), BuildTree(h.0), BuildTree(h.1));
    }

    /** The empty list raises an exception, after a node has been allocated. */
    method Build(tris: seq<Triangle>) returns (root: Option<nat>)
      requires Valid() && nodes == map[] && nextAddr == 1
      modifies this
      ensures root.None? <==> tris == []
      ensures root.Some? ==> root.value == 1 && Stored(nodes, 1, BuildTree(tris))
      ensures root.Some? ==> forall a: nat :: a in nodes <==> 1 <= a <= 2 * |tris| - 1
    {
      if tris == [] {
        var _ := Alloc();
        return None;
      }
      var addr := Rec(tris);
      SizeOfTree(tris);
      root := Some(addr);
    }
  }
}
