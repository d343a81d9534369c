/**
 Both backends compile matrix multiplications: the tensor backend those that match_matmul
 accepts and whose symbols are among at most 48 parameters, the scalar backend all of these
 without an else clause, for up to 46 parameters. The repository's own kernel is one.
 */
module MatmulCompiles {
  import opened Kernel
  import opened TensorMatch
  import opened TensorBackend
  import opened MatmulMeaning
  import opened Acceptance
  import opened CodeSize
  import opened Options
  import Codegen
  import TensorLimits

  // --- expressions ---

  /** A supported expression over these names, by its register need and its length. */
  predicate Costs(e: Expr, names: set<string>, need: nat, length: nat) {
    Supported(e) && Reads(e) <= names && Need(e) == need && ExprLength(e) == length && Temporary(e) == 1
  }

  lemma AffineCosts(e: Expr, row: string, col: string, stride: string)
    requires MatchAffine(e, row, col) == Some(stride)
    ensures Costs(e, {row, stride, col}, 2, 2)
  {
    hide MatchOrdered;
    TensorLimits.AffineReads(e, row, col, stride);
    if MatchOrdered(e.left, e.right, row, col).Some? {
      OrderedCosts(e.left, e.right, row, col);
      SumCosts(e.left, e.right);
    } else {
      OrderedCosts(e.right, e.left, row, col);
      SumCosts(e.left, e.right);
    }
  }

  lemma SumCosts(left: Expr, right: Expr)
    requires (Costs(left, Reads(left), 1, 1) && right.Name?) || (left.Name? && Costs(right, Reads(right), 1, 1) && right.Bin?)
    ensures Costs(Bin(Add, left, right), Reads(Bin(Add, left, right)), 2, 2)
  {
    if right.Name? {
      assert Need(Bin(Add, left, right)) == Greater(1, Greater(1, 2));
    } else {
      assert Need(Bin(Add, left, right)) == Greater(0, Greater(1, 2));
    }
  }

  lemma OrderedCosts(mul: Expr, other: Expr, row: string, col: string)
    requires MatchOrdered(mul, other, row, col).Some?
    ensures Costs(mul, Reads(mul), 1, 1) && mul.Bin? && other.Name?
  {}

  lemma ElementCosts(arr: string, index: Expr, names: set<string>)
    requires Costs(index, names, 2, 2)
    ensures Costs(Subscript(arr, index), names + {arr}, 2, 4)
  {}

  lemma FactorsCost(left: Expr, right: Expr, i: string, k: string, j: string, p: Product)
    requires MatchFactors(left, right, i, k, j) == Some(p)
    ensures Costs(left, {p.A, p.strideA, i, k}, 2, 4) && Costs(right, {p.B, p.strideB, k, j}, 2, 4)
  {
    hide MatchAffine, Costs;
    AffineCosts(left.index, i, k, p.strideA);
    AffineCosts(right.index, k, j, p.strideB);
    ElementCosts(left.arr, left.index, {i, p.strideA, k});
    ElementCosts(right.arr, right.index, {k, p.strideB, j});
    assert {i, p.strideA, k} + {p.A} == {p.A, p.strideA, i, k} && {k, p.strideB, j} + {p.B} == {p.B, p.strideB, k, j};
  }

  lemma TwoElements(left: Expr, right: Expr, a: set<string>, b: set<string>)
    requires Costs(left, a, 2, 4) && Costs(right, b, 2, 4) && left.Subscript? && right.Subscript?
    ensures Costs(Bin(Mult, left, right), a + b, 3, 9)
  {}

  lemma ProductCosts(e: Expr, i: string, k: string, j: string, p: Product)
    requires MatchProd(e, i, k, j) == Some(p)
    ensures Costs(e, {p.A, p.B, p.strideA, p.strideB, i, k, j}, 3, 9)
  {
    hide MatchFactors, Costs;
    var a, b := {p.A, p.strideA, i, k}, {p.B, p.strideB, k, j};
    SubscriptFactors(e.left, e.right, i, k, j);
    SubscriptFactors(e.right, e.left, i, k, j);
    if MatchFactors(e.left, e.right, i, k, j).Some? {
      FactorsCost(e.left, e.right, i, k, j, p);
      TwoElements(e.left, e.right, a, b);
      assert a + b == {p.A, p.B, p.strideA, p.strideB, i, k, j};
    } else {
      FactorsCost(e.right, e.left, i, k, j, p);
      TwoElements(e.left, e.right, b, a);
      assert b + a == {p.A, p.B, p.strideA, p.strideB, i, k, j};
    }
  }

  lemma SubscriptFactors(left: Expr, right: Expr, i: string, k: string, j: string)
    ensures MatchFactors(left, right, i, k, j).Some? ==> left.Subscript? && right.Subscript?
  {}

  // --- statements ---

  lemma AccumulateCosts(s: Stmt, acc: string, prod: Expr, names: set<string>, depth: nat)
    requires MatchAccumulate(s, acc) == Some(prod) && acc in names && Costs(prod, names, 3, 9) && |names| + depth + 3 <= REGISTERS
    ensures StmtFits(s, names, depth) && Introduces(s) == {acc} && StmtLength(s) == 11 && !s.For?
  {
    var assign := if s.AugAssign? then Expand(s.target, s.op, s.value) else s;
    assert assign == Assign(ToName(acc), assign.value) && assign.value.Bin?;
    assert Need(assign.value) == 3 && ExprLength(assign.value) == 10;
    assert Reads(assign.value) <= names;
  }

  lemma LoopFits(s: Stmt, r: RangeLoop, names: set<string>, depth: nat)
    requires MatchRange1(s) == Some(r) && !s.hasElse && r.bound in names && |names| + depth + 2 <= REGISTERS
    requires BlockFits(r.body, names + {r.ivar}, depth + 1)
    ensures StmtFits(s, names, depth) && Introduces(s) == {r.ivar} + BlockIntroduces(r.body) && StmtLength(s) == 7 + BlockLength(r.body)
  {
    hide BlockFits, BlockIntroduces, BlockLength;
    MoreNames(names, r.ivar);
    assert RangeOf(s.args) == Some(Range(Const(0), Name(r.bound), 1));
    assert ExprFits(Const(0), names + {r.ivar}, |names + {r.ivar}| + depth);
  }

  lemma InitFits(acc: string, names: set<string>, depth: nat)
    requires |names| + depth + 2 <= REGISTERS
    ensures var s := Assign(ToName(acc), Const(0)); StmtFits(s, names, depth) && Introduces(s) == {acc} && StmtLength(s) == 2
  {}

  lemma StoreFits(s: Stmt, acc: string, names: set<string>, depth: nat)
    requires s.Assign? && s.target.ToElement? && s.value == Name(acc) && acc in names && s.target.arr in names
    requires Costs(s.target.index, names, 2, 2) && |names| + depth + 2 <= REGISTERS
    ensures StmtFits(s, names, depth) && Introduces(s) == {} && StmtLength(s) == 4
  {}

  lemma Single(s: Stmt, names: set<string>, depth: nat)
    requires StmtFits(s, names, depth)
    ensures var b := Cons(s, Nil);
      BlockFits(b, names, depth) && BlockIntroduces(b) == Introduces(s) && BlockLength(b) == StmtLength(s)
  {
    hide StmtFits, Introduces, StmtLength;
  }

  lemma Sequence(a: Stmt, b: Stmt, c: Stmt, names: set<string>, depth: nat)
    requires StmtFits(a, names, depth) && StmtFits(b, names + Introduces(a), depth)
    requires StmtFits(c, names + Introduces(a) + Introduces(b), depth)
    ensures var body := Cons(a, Cons(b, Cons(c, Nil)));
      BlockFits(body, names, depth) && BlockLength(body) == StmtLength(a) + StmtLength(b) + StmtLength(c)
  {
    hide StmtFits, Introduces, StmtLength;
    Single(c, names + Introduces(a) + Introduces(b), depth);
  }

  lemma CostsMore(e: Expr, names: set<string>, names': set<string>, need: nat, length: nat)
    requires Costs(e, names, need, length) && names <= names'
    ensures Costs(e, names', need, length)
  {}

  /** The body of the two outer loops: the accumulator, the inner loop and the store. */
  lemma CellFits(p: Parts, mm: Matmul, l: Locals, names: set<string>)
    requires Recognised(p, mm, l) && !p.loop.hasElse
    requires {mm.A, mm.B, mm.C, mm.M, mm.N, mm.K, l.i, l.j} <= names && |names| + 8 <= REGISTERS
    ensures BlockFits(p.middle.body, names, 2) && BlockLength(p.middle.body) == 24
  {
    hide MatchProd, MatchAffine, MatchAccumulate, StmtFits, Introduces, StmtLength, BlockFits, BlockLength, BlockIntroduces, Costs;
    var named := names + {l.acc};
    var inside := named + {l.k};
    MoreNames(names, l.acc);
    MoreNames(named, l.k);
    InitFits(l.acc, names, 2);
    ProductCosts(p.prod, l.i, l.k, l.j, Product(mm.A, mm.K, mm.B, mm.N));
    CostsMore(p.prod, {mm.A, mm.B, mm.K, mm.N, l.i, l.k, l.j}, inside, 3, 9);
    AccumulateCosts(p.step, l.acc, p.prod, inside, 3);
    Single(p.step, inside, 3);
    LoopFits(p.loop, p.inner, named, 2);
    assert named + ({l.k} + {l.acc}) == inside;
    AffineCosts(p.store.target.index, l.i, l.j, mm.N);
    CostsMore(p.store.target.index, {l.i, mm.N, l.j}, inside, 2, 2);
    StoreFits(p.store, l.acc, inside, 2);
    Sequence(p.init, p.loop, p.store, names, 2);
  }

  // --- docstrings ---

  lemma {:induction false} StripCosts(b: Block, names: set<string>, depth: nat)
    ensures BlockFits(StripDocstrings(b), names, depth) <==> BlockFits(b, names, depth)
    ensures BlockLength(StripDocstrings(b)) == BlockLength(b)
  {
    if b.Cons? {
      StripCosts(b.tail, names + Introduces(b.head), depth);
      if b.head.Docstring? {
        assert names + Introduces(b.head) == names;
      }
    }
  }

  // --- kernels ---

  /** Main result: a matmul of up to 46 parameters compiles on the scalar backend if and only if it has no else clause. */
  lemma MatmulCompilesExactly(k: Kernel, mm: Matmul, l: Locals)
    requires MatchMatmul(k) == Some((mm, l)) && |k.params| <= 46
    requires {mm.A, mm.B, mm.C, mm.M, mm.N, mm.K} <= Names(k.params)
    ensures Codegen.Compile(k).Some? <==> ElseFree(k.body)
    ensures Codegen.Compile(k).Some? ==> |Codegen.Compile(k).value| == |k.params| + 39
  {
    hide MatchMatmul, Recognised, ElsesOf, Codegen.Compile, BlockFits, BlockLength, ElseFree, StripDocstrings, StmtFits, StmtLength, EndsFit;
    if Codegen.Compile(k).Some? {
      TensorLimits.CompiledElseFree(k);
    }
    if ElseFree(k.body) {
      var p := PartsOf(k, mm, l);
      ElseFreeFlags(k, mm, l);
      TensorLimits.LoopNames(p, mm, l);
      var names, b := Names(k.params), StripDocstrings(k.body);
      FewNames(k.params);
      var outside := names + {l.i};
      MoreNames(names, l.i);
      MoreNames(outside, l.j);
      NoElse(k);
      CellFits(p, mm, l, outside + {l.j});
      LoopFits(p.outer.body.head, p.middle, outside, 1);
      Single(p.outer.body.head, outside, 1);
      LoopFits(b.head, p.outer, names, 0);
      Single(b.head, names, 0);
      StripCosts(k.body, names, 0);
      ShortEnds(k.body, |k.params|);
      CompilesExactly(k);
    }
  }

  lemma NoElse(k: Kernel)
    requires MatchMatmul(k).Some? && ElsesOf(k) == Elses(false, false, false)
    ensures var outer := StripDocstrings(k.body).head; !outer.hasElse && !outer.body.head.hasElse
  {}

  lemma {:induction false} FewNames(params: seq<string>)
    ensures |Names(params)| <= |params|
  {
    if params == [] {
      assert Names(params) == {};
    } else {
      var k := |params| - 1;
      FewNames(params[..k]);
      assert params == params[..k] + [params[k]];
      assert Names(params) == Names(params[..k]) + {params[k]};
      MoreNames(Names(params[..k]), params[k]);
    }
  }

  // --- the repository's kernel ---

  /** compiler/kernels/matmul.py */
  function RepositoryMatmul(): Kernel {
    var prod := Bin(Mult, Subscript("A", TensorLimits.Index("i", "K", "k")), Subscript("B", TensorLimits.Index("k", "N", "j")));
    var step := Assign(ToName("acc"), Bin(Add, Name("acc"), prod));
    var cell := Cons(Assign(ToName("acc"), Const(0)),
                     Cons(For("k", [Name("K")], Cons(step, Nil), false),
                          Cons(Assign(ToElement("C", TensorLimits.Index("i", "N", "j")), Name("acc")), Nil)));
    Kernel(["A", "B", "C", "M", "N", "K"],
           Cons(Docstring, Cons(For("i", [Name("M")], Cons(For("j", [Name("N")], cell, false), Nil), false), Nil)))
  }

  /** The kernel is recognised, and both backends compile it. */
  lemma RepositoryMatmulCompiles()
    ensures MatchMatmul(RepositoryMatmul()) == Some((Matmul("A", "B", "C", "M", "N", "K"), Locals("i", "j", "k", "acc")))
    ensures Codegen.Compile(RepositoryMatmul()).Some? && |Codegen.Compile(RepositoryMatmul()).value| == 45
    ensures CompileTensor(RepositoryMatmul(), false).Some? && CompileTensor(RepositoryMatmul(), true).Some?
  {
    hide MatchAffine, Codegen.Compile, TensorCode, TensorLimits.Index;
    var mm, l, k := Matmul("A", "B", "C", "M", "N", "K"), Locals("i", "j", "k", "acc"), RepositoryMatmul();
    TensorLimits.IndexMatches("i", "K", "k");
    TensorLimits.IndexMatches("k", "N", "j");
    TensorLimits.IndexMatches("i", "N", "j");
    RepositoryMatches();
    SixNames(mm, k.params);
    MatmulCompilesExactly(k, mm, l);
  }

  lemma RepositoryMatches()
    ensures MatchMatmul(RepositoryMatmul()) == Some((Matmul("A", "B", "C", "M", "N", "K"), Locals("i", "j", "k", "acc")))
    ensures ElseFree(RepositoryMatmul().body)
  {
    hide MatchAffine, TensorLimits.Index;
    TensorLimits.IndexMatches("i", "K", "k");
    TensorLimits.IndexMatches("k", "N", "j");
    TensorLimits.IndexMatches("i", "N", "j");
    var outer := RepositoryMatmul().body.tail.head;
    var middle := outer.body.head;
    var cell := middle.body;
    var step := cell.tail.head.body.head;
    assert MatchProd(step.value.right, "i", "k", "j") == Some(Product("A", "K", "B", "N"));
    assert MatchAccumulate(step, "acc") == Some(step.value.right);
    assert MatchBody(cell, MatchRange1(outer).value, MatchRange1(middle).value)
        == Some((Matmul("A", "B", "C", "M", "N", "K"), Locals("i", "j", "k", "acc")));
    assert StripDocstrings(RepositoryMatmul().body) == Cons(outer, Nil);
    assert ElseFree(cell) && ElseFree(outer.body);
  }

  lemma SixNames(mm: Matmul, params: seq<string>)
    requires params == [mm.A, mm.B, mm.C, mm.M, mm.N, mm.K]
    ensures {mm.A, mm.B, mm.C, mm.M, mm.N, mm.K} <= Names(params)
  {}

  /** Whatever the names, the canonical kernel compiles on both backends. */
  lemma CanonicalCompiles(mm: Matmul, l: Locals)
    ensures Codegen.Compile(TensorLimits.Canonical(mm, l, false)).Some?
    ensures CompileTensor(TensorLimits.Canonical(mm, l, false), false).Some?
  {
    hide MatchMatmul, Codegen.Compile, TensorCode;
    var k := TensorLimits.Canonical(mm, l, false);
    TensorLimits.CanonicalMatches(mm, l, false);
    SixNames(mm, k.params);
    CanonicalElseFree(mm, l);
    MatmulCompilesExactly(k, mm, l);
  }

  lemma CanonicalElseFree(mm: Matmul, l: Locals)
    ensures ElseFree(TensorLimits.Canonical(mm, l, false).body)
  {
    var cell := TensorLimits.CellBody(mm, l);
    assert ElseFree(cell.tail.head.body) && ElseFree(cell.tail.tail);
    assert ElseFree(cell.tail);
    assert ElseFree(cell);
    assert ElseFree(TensorLimits.Canonical(mm, l, false).body.head.body);
  }
}
