/** Recognition of the canonical matrix-multiplication triple loop (`match_matmul` of compiler/titan_compiler.py). */
module TensorMatch {
  import opened Kernel
  import opened Options

  /** The symbols of C[i*N + j] = sum over k < K of A[i*K + k] * B[k*N + j]. */
  datatype Matmul = Matmul(A: string, B: string, C: string, M: string, N: string, K: string)

  /** The names of the loop variables and the accumulator. */
  datatype Locals = Locals(i: string, j: string, k: string, acc: string)

  datatype RangeLoop = RangeLoop(ivar: string, bound: string, body: Block)

  /** `_match_range1`: for <name> in range(<Name>) */
  function MatchRange1(s: Stmt): Option<RangeLoop> {
    if s.For? && |s.args| == 1 && s.args[0].Name? then Some(RangeLoop(s.ivar, s.args[0].id, s.body)) else None
  }

  /** The stride of `row * stride + col` with its operands taken in the given order. */
  function MatchOrdered(mul: Expr, other: Expr, row: string, col: string): Option<string> {
    if mul.Bin? && mul.op == Mult && other.Name? && other.id == col then
      if mul.left.Name? && mul.left.id == row && mul.right.Name? then Some(mul.right.id)
      else if mul.right.Name? && mul.right.id == row && mul.left.Name? then Some(mul.left.id)
      else None
    else None
  }

  /** `_match_affine`: either operand may be the product. */
  function MatchAffine(e: Expr, row: string, col: string): Option<string> {
    if e.Bin? && e.op == Add then
      var first := MatchOrdered(e.left, e.right, row, col);
      if first.Some? then first else MatchOrdered(e.right, e.left, row, col)
    else None
  }

  datatype Product = Product(A: string, strideA: string, B: string, strideB: string)

  function MatchFactors(lhs: Expr, rhs: Expr, i: string, k: string, j: string): Option<Product> {
    if lhs.Subscript? && rhs.Subscript? then
      var a :- MatchAffine(lhs.index, i, k);
      var b :- MatchAffine(rhs.index, k, j);
      Some(Product(lhs.arr, a, rhs.arr, b))
    else None
  }

  /** `_match_prod`: either factor may be the element of A. */
  function MatchProd(e: Expr, i: string, k: string, j: string): Option<Product> {
    if e.Bin? && e.op == Mult then
      var first := MatchFactors(e.left, e.right, i, k, j);
      if first.Some? then first else MatchFactors(e.right, e.left, i, k, j)
    else None
  }

  /** The product added to the accumulator by `acc += p`, `acc = acc + p` or `acc = p + acc`. */
  function MatchAccumulate(s: Stmt, acc: string): Option<Expr> {
    if s.AugAssign? && s.op == Add && s.target == ToName(acc) then Some(s.value)
    else if s.Assign? && s.target == ToName(acc) && s.value.Bin? && s.value.op == Add then
      if s.value.left == Name(acc) then Some(s.value.right)
      else if s.value.right == Name(acc) then Some(s.value.left)
      else None
    else None
  }

  function StripDocstrings(b: Block): Block {
    match b
    case Nil => Nil
    case Cons(head, tail) => if head.Docstring? then StripDocstrings(tail) else Cons(head, StripDocstrings(tail))
  }

  function Only(b: Block): Option<Stmt> {
    if b.Cons? && b.tail.Nil? then Some(b.head) else None
  }

  /** `match_matmul`, with the local names it has seen. */
  function MatchMatmul(k: Kernel): Option<(Matmul, Locals)> {
    var outer :- Only(StripDocstrings(k.body));
    var li :- MatchRange1(outer);
    var middle :- Only(li.body);
    var lj :- MatchRange1(middle);
    MatchBody(lj.body, li, lj)
  }

  function MatchBody(b: Block, li: RangeLoop, lj: RangeLoop): Option<(Matmul, Locals)> {
    if b.Cons? && b.tail.Cons? && b.tail.tail.Cons? && b.tail.tail.tail.Nil? then
      var init, loop, store := b.head, b.tail.head, b.tail.tail.head;
      if init.Assign? && init.target.ToName? && init.value == Const(0) then
        var acc := init.target.id;
        var lk :- MatchRange1(loop);
        var inner :- Only(lk.body);
        var prod :- MatchAccumulate(inner, acc);
        var p :- MatchProd(prod, li.ivar, lk.ivar, lj.ivar);
        if p.strideA != lk.bound || p.strideB != lj.bound then None
        else if store.Assign? && store.target.ToElement? && store.value == Name(acc)
                && MatchAffine(store.target.index, li.ivar, lj.ivar) == Some(lj.bound)
        then Some((Matmul(p.A, p.B, store.target.arr, li.bound, lj.bound, lk.bound), Locals(li.ivar, lj.ivar, lk.ivar, acc)))
        else None
      else None
    else None
  }
}
