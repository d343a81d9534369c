/**
 What match_matmul accepts, form by form: the products and sums may be written in either
 order and the accumulation in three ways. The tensor backend compiles such a kernel exactly
 when its symbols are parameters and the registers suffice.
 */
module TensorForms {
  import opened Isa
  import opened Kernel
  import opened Codegen
  import opened TensorMatch
  import opened TensorBackend
  import opened Options

  /** row * stride + col, with factors and terms in either order. */
  predicate IsAffine(e: Expr, row: string, stride: string, col: string) {
    || e == Bin(Add, Bin(Mult, Name(row), Name(stride)), Name(col))
    || e == Bin(Add, Bin(Mult, Name(stride), Name(row)), Name(col))
    || e == Bin(Add, Name(col), Bin(Mult, Name(row), Name(stride)))
    || e == Bin(Add, Name(col), Bin(Mult, Name(stride), Name(row)))
  }

  predicate IsElement(e: Expr, arr: string, row: string, stride: string, col: string) {
    e.Subscript? && e.arr == arr && IsAffine(e.index, row, stride, col)
  }

  /** A[i * K + k] * B[k * N + j], in either order. */
  predicate IsProduct(e: Expr, mm: Matmul, l: Locals) {
    && e.Bin? && e.op == Mult
    && (|| (IsElement(e.left, mm.A, l.i, mm.K, l.k) && IsElement(e.right, mm.B, l.k, mm.N, l.j))
        || (IsElement(e.right, mm.A, l.i, mm.K, l.k) && IsElement(e.left, mm.B, l.k, mm.N, l.j)))
  }

  /** acc += p, acc = acc + p, or acc = p + acc */
  predicate IsStep(s: Stmt, mm: Matmul, l: Locals) {
    || (s.AugAssign? && s.target == ToName(l.acc) && s.op == Add && IsProduct(s.value, mm, l))
    || (s.Assign? && s.target == ToName(l.acc) && s.value.Bin? && s.value.op == Add
        && ((s.value.left == Name(l.acc) && IsProduct(s.value.right, mm, l))
            || (s.value.right == Name(l.acc) && IsProduct(s.value.left, mm, l))))
  }

  /** for ivar in range(bound), with or without an else clause */
  predicate IsLoop(s: Stmt, ivar: string, bound: string) {
    s.For? && s.ivar == ivar && s.args == [Name(bound)]
  }

  predicate IsStore(s: Stmt, mm: Matmul, l: Locals) {
    s.Assign? && s.target.ToElement? && s.target.arr == mm.C && IsAffine(s.target.index, l.i, mm.N, l.j) && s.value == Name(l.acc)
  }

  /** acc = 0, the innermost loop with one statement, C[i * N + j] = acc */
  predicate IsCell(b: Block, mm: Matmul, l: Locals) {
    && b.Cons? && b.head == Assign(ToName(l.acc), Const(0))
    && b.tail.Cons? && IsLoop(b.tail.head, l.k, mm.K) && b.tail.head.body.Cons? && b.tail.head.body.tail == Nil
    && IsStep(b.tail.head.body.head, mm, l)
    && b.tail.tail.Cons? && IsStore(b.tail.tail.head, mm, l) && b.tail.tail.tail == Nil
  }

  /** Docstrings apart, the kernel is three nested loops around such a cell. */
  ghost predicate IsMatmul(k: Kernel, mm: Matmul, l: Locals) {
    exists s: Stmt :: OnlyStatement(k.body, s) && IsNest(s, mm, l)
  }

  predicate IsNest(s: Stmt, mm: Matmul, l: Locals) {
    && IsLoop(s, l.i, mm.M) && s.body.Cons? && s.body.tail == Nil
    && IsLoop(s.body.head, l.j, mm.N) && IsCell(s.body.head.body, mm, l)
  }

  /** The block holds docstrings and this one statement. */
  predicate OnlyStatement(b: Block, s: Stmt) {
    b.Cons? && if b.head.Docstring? then OnlyStatement(b.tail, s) else b.head == s && OnlyDocstrings(b.tail)
  }

  predicate OnlyDocstrings(b: Block) {
    b.Cons? ==> b.head.Docstring? && OnlyDocstrings(b.tail)
  }

  // --- recognition of each form ---

  lemma OrderedExactly(mul: Expr, other: Expr, row: string, stride: string, col: string)
    ensures MatchOrdered(mul, other, row, col) == Some(stride) <==>
      other == Name(col) && (mul == Bin(Mult, Name(row), Name(stride)) || mul == Bin(Mult, Name(stride), Name(row)))
  {}

  lemma AffineExactly(e: Expr, row: string, stride: string, col: string)
    ensures MatchAffine(e, row, col) == Some(stride) <==> IsAffine(e, row, stride, col)
  {
    hide MatchOrdered;
    if e.Bin? && e.op == Add {
      OrderedExactly(e.left, e.right, row, stride, col);
      OrderedExactly(e.right, e.left, row, stride, col);
      OrderedOnce(e.left, e.right, row, col);
    }
  }

  /** At most one of the two orders has a product on the left. */
  lemma OrderedOnce(a: Expr, b: Expr, row: string, col: string)
    ensures MatchOrdered(a, b, row, col).None? || MatchOrdered(b, a, row, col).None?
  {}

  lemma FactorsExactly(a: Expr, b: Expr, mm: Matmul, l: Locals)
    ensures MatchFactors(a, b, l.i, l.k, l.j) == Some(Product(mm.A, mm.K, mm.B, mm.N)) <==>
      IsElement(a, mm.A, l.i, mm.K, l.k) && IsElement(b, mm.B, l.k, mm.N, l.j)
  {
    hide MatchAffine, IsAffine;
    if a.Subscript? && b.Subscript? {
      AffineExactly(a.index, l.i, mm.K, l.k);
      AffineExactly(b.index, l.k, mm.N, l.j);
    }
  }

  /** With different names for the inner loops, the factors match in one order at most. */
  lemma FactorsOnce(a: Expr, b: Expr, i: string, k: string, j: string)
    requires j != k
    ensures MatchFactors(a, b, i, k, j).None? || MatchFactors(b, a, i, k, j).None?
  {
    hide MatchAffine;
    if a.Subscript? {
      AffineColumn(a.index, i, k, k, j);
    }
  }

  lemma AffineColumn(e: Expr, row: string, col: string, row': string, col': string)
    requires col != col'
    ensures MatchAffine(e, row, col).None? || MatchAffine(e, row', col').None?
  {}

  lemma ProductExactly(e: Expr, mm: Matmul, l: Locals)
    requires l.j != l.k
    ensures MatchProd(e, l.i, l.k, l.j) == Some(Product(mm.A, mm.K, mm.B, mm.N)) <==> IsProduct(e, mm, l)
  {
    hide MatchFactors, IsElement;
    if e.Bin? && e.op == Mult {
      FactorsExactly(e.left, e.right, mm, l);
      FactorsExactly(e.right, e.left, mm, l);
      FactorsOnce(e.left, e.right, l.i, l.k, l.j);
    }
  }

  lemma AccumulateExactly(s: Stmt, acc: string, prod: Expr)
    ensures MatchAccumulate(s, acc) == Some(prod) <==>
      || s == AugAssign(ToName(acc), Add, prod)
      || s == Assign(ToName(acc), Bin(Add, Name(acc), prod))
      || s == Assign(ToName(acc), Bin(Add, prod, Name(acc)))
  {}

  lemma StepExactly(s: Stmt, mm: Matmul, l: Locals)
    requires l.j != l.k
    ensures IsStep(s, mm, l) <==>
      MatchAccumulate(s, l.acc).Some? && MatchProd(MatchAccumulate(s, l.acc).value, l.i, l.k, l.j) == Some(Product(mm.A, mm.K, mm.B, mm.N))
  {
    hide MatchProd, IsProduct;
    if MatchAccumulate(s, l.acc).Some? {
      AccumulateExactly(s, l.acc, MatchAccumulate(s, l.acc).value);
      ProductExactly(MatchAccumulate(s, l.acc).value, mm, l);
    }
    if IsStep(s, mm, l) {
      StepAccumulates(s, mm, l);
    }
  }

  lemma StepAccumulates(s: Stmt, mm: Matmul, l: Locals)
    requires IsStep(s, mm, l)
    ensures MatchAccumulate(s, l.acc).Some? && IsProduct(MatchAccumulate(s, l.acc).value, mm, l)
  {
    NameIsNoProduct(l.acc, mm, l);
  }

  lemma NameIsNoProduct(id: string, mm: Matmul, l: Locals)
    ensures !IsProduct(Name(id), mm, l)
  {}

  lemma LoopExactly(s: Stmt, ivar: string, bound: string)
    ensures IsLoop(s, ivar, bound) <==> MatchRange1(s).Some? && MatchRange1(s).value == RangeLoop(ivar, bound, s.body)
  {
    if MatchRange1(s).Some? {
      assert s.args == [s.args[0]];
    }
  }

  lemma CellExactly(b: Block, li: RangeLoop, lj: RangeLoop, mm: Matmul, l: Locals)
    requires li.ivar == l.i && li.bound == mm.M && lj.ivar == l.j && lj.bound == mm.N && l.j != l.k
    ensures MatchBody(b, li, lj) == Some((mm, l)) <==> IsCell(b, mm, l)
  {
    hide MatchRange1, MatchAccumulate, MatchProd, MatchAffine, IsStep, IsLoop, IsAffine;
    if b.Cons? && b.tail.Cons? && b.tail.tail.Cons? && b.tail.tail.tail.Nil? {
      var loop, store := b.tail.head, b.tail.tail.head;
      LoopExactly(loop, l.k, mm.K);
      if loop.For? && loop.body.Cons? {
        StepExactly(loop.body.head, mm, l);
      }
      if store.Assign? && store.target.ToElement? {
        AffineExactly(store.target.index, l.i, mm.N, l.j);
      }
      RangeIsLoop(loop);
    }
  }

  lemma RangeIsLoop(s: Stmt)
    ensures MatchRange1(s).Some? ==> s.For? && MatchRange1(s).value.body == s.body && IsLoop(s, MatchRange1(s).value.ivar, MatchRange1(s).value.bound)
  {
    if MatchRange1(s).Some? {
      LoopExactly(s, MatchRange1(s).value.ivar, MatchRange1(s).value.bound);
    }
  }

  lemma {:induction false} OnlyExactly(b: Block, s: Stmt)
    requires !s.Docstring?
    ensures Only(StripDocstrings(b)) == Some(s) <==> OnlyStatement(b, s)
  {
    if b.Cons? {
      if b.head.Docstring? {
        OnlyExactly(b.tail, s);
      } else {
        NoneLeft(b.tail);
      }
    }
  }

  lemma {:induction false} NoneLeft(b: Block)
    ensures StripDocstrings(b) == Nil <==> OnlyDocstrings(b)
  {
    if b.Cons? {
      NoneLeft(b.tail);
    }
  }

  lemma {:induction false} StripsDocstrings(b: Block)
    ensures StripDocstrings(b).Cons? ==> !StripDocstrings(b).head.Docstring?
  {
    if b.Cons? && b.head.Docstring? {
      StripsDocstrings(b.tail);
    }
  }

  lemma CellNames(b: Block, li: RangeLoop, lj: RangeLoop, mm: Matmul, l: Locals)
    requires MatchBody(b, li, lj) == Some((mm, l))
    ensures li.ivar == l.i && li.bound == mm.M && lj.ivar == l.j && lj.bound == mm.N
  {
    hide MatchRange1, MatchAccumulate, MatchProd, MatchAffine;
  }

  lemma NestMatches(s: Stmt, mm: Matmul, l: Locals)
    requires IsNest(s, mm, l) && l.j != l.k
    ensures s.For? && MatchRange1(s) == Some(RangeLoop(l.i, mm.M, s.body)) && Only(s.body) == Some(s.body.head)
    ensures MatchRange1(s.body.head) == Some(RangeLoop(l.j, mm.N, s.body.head.body))
    ensures MatchBody(s.body.head.body, MatchRange1(s).value, MatchRange1(s.body.head).value) == Some((mm, l))
  {
    hide MatchRange1, MatchBody, IsCell, IsLoop;
    LoopIsFor(s, l.i, mm.M);
    LoopExactly(s, l.i, mm.M);
    LoopExactly(s.body.head, l.j, mm.N);
    LoopIsFor(s.body.head, l.j, mm.N);
    CellExactly(s.body.head.body, MatchRange1(s).value, MatchRange1(s.body.head).value, mm, l);
  }

  lemma LoopIsFor(s: Stmt, ivar: string, bound: string)
    requires IsLoop(s, ivar, bound)
    ensures s.For?
  {}

  /** Main result: match_matmul accepts a kernel, with these symbols and names, if and only if it is written in one of the forms. */
  lemma MatchesExactly(k: Kernel, mm: Matmul, l: Locals)
    requires l.j != l.k
    ensures MatchMatmul(k) == Some((mm, l)) <==> IsMatmul(k, mm, l)
  {
    hide MatchRange1, MatchBody, IsCell, IsLoop, OnlyStatement, StripDocstrings;
    if MatchMatmul(k) == Some((mm, l)) {
      var outer := Only(StripDocstrings(k.body)).value;
      var li := MatchRange1(outer).value;
      var middle := Only(li.body).value;
      var lj := MatchRange1(middle).value;
      StripsDocstrings(k.body);
      OnlyExactly(k.body, outer);
      CellNames(lj.body, li, lj, mm, l);
      RangeIsLoop(outer);
      RangeIsLoop(middle);
      CellExactly(lj.body, li, lj, mm, l);
      assert IsNest(outer, mm, l);
    }
    if IsMatmul(k, mm, l) {
      var s: Stmt :| OnlyStatement(k.body, s) && IsNest(s, mm, l);
      NestMatches(s, mm, l);
      OnlyExactly(k.body, s);
    }
  }

  /** The tensor backend, in either mode: a matmul whose symbols are parameters, of which there are at most 48. */
  lemma TensorCompilesExactly(k: Kernel, fp8: bool)
    ensures CompileTensor(k, fp8).Some? <==>
      && MatchMatmul(k).Some?
      && var mm := MatchMatmul(k).value.0; {mm.A, mm.B, mm.C, mm.M, mm.N, mm.K} <= Names(k.params) && |k.params| <= 48
  {
    hide MatchMatmul, TensorCode;
  }

  // --- the two modes ---

  /** The same instructions, but for bit 0 of the third source field of WMMA. */
  predicate DifferInMode(int8: seq<Instr>, fp8: seq<Instr>) {
    && |int8| == |fp8|
    && forall i :: 0 <= i < |int8| ==>
         if int8[i].op == OP_WMMA then int8[i].RForm? && int8[i].rs3 == 0 && fp8[i] == int8[i].(rs3 := 1) else fp8[i] == int8[i]
  }

  predicate NoWmma(code: seq<Instr>) {
    forall i :: 0 <= i < |code| ==> code[i].op != OP_WMMA
  }

  lemma JoinNoWmma(a: seq<Instr>, b: seq<Instr>)
    requires NoWmma(a) && NoWmma(b)
    ensures NoWmma(a + b)
  {}

  lemma JoinThree(a: seq<Instr>, b: seq<Instr>, c: seq<Instr>)
    requires NoWmma(a) && NoWmma(b) && NoWmma(c)
    ensures NoWmma(a + b + c)
  {
    hide NoWmma;
    JoinNoWmma(a, b);
    JoinNoWmma(a + b, c);
  }

  lemma PartsNoWmma(x: Regs)
    ensures NoWmma(Loads(x.p)) && NoWmma(Strides(x)) && NoWmma(TileC(x)) && NoWmma(TileAB(x)) && NoWmma([EXIT])
  {}

  lemma LoopNoWmma(ivar: nat, bound: nat, top: nat, end: nat)
    ensures NoWmma(Zero(ivar)) && NoWmma(LoopTest(ivar, bound, end)) && NoWmma(LoopBack(ivar, TILE, top))
  {}

  /** What comes before and after the WMMA instruction. */
  lemma AroundWmma(x: Regs) returns (before: seq<Instr>, after: seq<Instr>)
    ensures NoWmma(before) && NoWmma(after)
    ensures forall flags: nat :: TensorCode(x, flags) == before + WmmaCode(x, flags) + after
  {
    hide NoWmma, Loads, Strides, Zero, TileC, TileAB, WmmaCode, LoopTest, LoopBack;
    PartsNoWmma(x);
    LoopNoWmma(x.I0(), x.m, TopI(x), EndI(x));
    LoopNoWmma(x.J0(), x.n, TopJ(x), EndJ(x));
    LoopNoWmma(x.K0(), x.k, TopK(x), EndK(x));
    var c1 := Loads(x.p) + Strides(x) + Zero(x.I0());
    JoinThree(Loads(x.p), Strides(x), Zero(x.I0()));
    var c2 := c1 + LoopTest(x.I0(), x.m, EndI(x)) + Zero(x.J0());
    JoinThree(c1, LoopTest(x.I0(), x.m, EndI(x)), Zero(x.J0()));
    var c3 := c2 + LoopTest(x.J0(), x.n, EndJ(x)) + TileC(x);
    JoinThree(c2, LoopTest(x.J0(), x.n, EndJ(x)), TileC(x));
    var c4 := c3 + Zero(x.K0()) + LoopTest(x.K0(), x.k, EndK(x));
    JoinThree(c3, Zero(x.K0()), LoopTest(x.K0(), x.k, EndK(x)));
    before := c4 + TileAB(x);
    JoinNoWmma(c4, TileAB(x));
    var b1, b2, b3 := LoopBack(x.K0(), TILE, TopK(x)), LoopBack(x.J0(), TILE, TopJ(x)), LoopBack(x.I0(), TILE, TopI(x));
    JoinThree(b1, b2, b3);
    after := b1 + b2 + b3 + [EXIT];
    JoinNoWmma(b1 + b2 + b3, [EXIT]);
    forall flags: nat
      ensures TensorCode(x, flags) == before + WmmaCode(x, flags) + after
    {
      Regrouped(before + WmmaCode(x, flags), b1, b2, b3, [EXIT]);
    }
  }

  lemma Regrouped(p: seq<Instr>, a: seq<Instr>, b: seq<Instr>, c: seq<Instr>, d: seq<Instr>)
    ensures p + a + b + c + d == p + (a + b + c + d)
  {}

  lemma OnlyWmmaDiffers(before: seq<Instr>, after: seq<Instr>, x: Regs)
    requires NoWmma(before) && NoWmma(after)
    ensures DifferInMode(before + WmmaCode(x, 0) + after, before + WmmaCode(x, 1) + after)
  {}

  /** The FP8 program of a kernel is its INT8 program with the mode bit set. */
  lemma ModesDiffer(k: Kernel)
    requires CompileTensor(k, false).Some?
    ensures CompileTensor(k, true).Some? && DifferInMode(CompileTensor(k, false).value, CompileTensor(k, true).value)
  {
    hide MatchMatmul, RegsOf, TensorCode, DifferInMode;
    var x := RegsOf(k.params, MatchMatmul(k).value.0).value;
    var before, after := AroundWmma(x);
    OnlyWmmaDiffers(before, after, x);
  }
}
