/**
 What the recognition of matrix multiplications leaves unchecked: match_matmul does not look
 at the else clause of a loop, so the tensor backend compiles such a kernel and drops the
 clause, where the scalar backend refuses it.
 */
module TensorLimits {
  import opened Kernel
  import opened TensorMatch
  import opened TensorBackend
  import opened MatmulMeaning
  import opened Options
  import Codegen
  import Memory

  function Index(row: string, stride: string, col: string): Expr {
    Bin(Add, Bin(Mult, Name(row), Name(stride)), Name(col))
  }

  function Step(mm: Matmul, l: Locals): Stmt {
    AugAssign(ToName(l.acc), Add, Bin(Mult, Subscript(mm.A, Index(l.i, mm.K, l.k)), Subscript(mm.B, Index(l.k, mm.N, l.j))))
  }

  function CellBody(mm: Matmul, l: Locals): Block {
    Cons(Assign(ToName(l.acc), Const(0)),
         Cons(For(l.k, [Name(mm.K)], Cons(Step(mm, l), Nil), false),
              Cons(Assign(ToElement(mm.C, Index(l.i, mm.N, l.j)), Name(l.acc)), Nil)))
  }

  /** The canonical kernel in the given names, with or without an else clause on its outermost loop. */
  function Canonical(mm: Matmul, l: Locals, hasElse: bool): Kernel {
    Kernel([mm.A, mm.B, mm.C, mm.M, mm.N, mm.K],
           Cons(For(l.i, [Name(mm.M)], Cons(For(l.j, [Name(mm.N)], CellBody(mm, l), false), Nil), hasElse), Nil))
  }

  lemma IndexMatches(row: string, stride: string, col: string)
    ensures MatchAffine(Index(row, stride, col), row, col) == Some(stride)
  {}

  lemma CanonicalMatches(mm: Matmul, l: Locals, hasElse: bool)
    ensures MatchMatmul(Canonical(mm, l, hasElse)) == Some((mm, l))
  {
    hide MatchAffine;
    IndexMatches(l.i, mm.K, l.k);
    IndexMatches(l.k, mm.N, l.j);
    IndexMatches(l.i, mm.N, l.j);
    var outer := Canonical(mm, l, hasElse).body.head;
    var middle := outer.body.head;
    assert MatchProd(Step(mm, l).value, l.i, l.k, l.j) == Some(Product(mm.A, mm.K, mm.B, mm.N));
    assert MatchBody(CellBody(mm, l), MatchRange1(outer).value, MatchRange1(middle).value) == Some((mm, l));
    assert StripDocstrings(Canonical(mm, l, hasElse).body) == Canonical(mm, l, hasElse).body;
  }

  /**
   Whatever the names, the tensor backend compiles the kernel with the clause to the same
   program as the one without it; the scalar backend refuses it.
   */
  lemma ElseClauseDropped(mm: Matmul, l: Locals, env: Env, mem: Memory.Bytes)
    ensures CompileTensor(Canonical(mm, l, true), false).Some?
    ensures CompileTensor(Canonical(mm, l, true), false) == CompileTensor(Canonical(mm, l, false), false)
    ensures Codegen.Compile(Canonical(mm, l, true)).None?
    ensures !ElseFree(Canonical(mm, l, true).body) && ExecBlock(Canonical(mm, l, true).body, env, mem) == Stuck
  {
    hide MatchMatmul, TensorCode, Codegen.Compile;
    CanonicalMatches(mm, l, true);
    CanonicalMatches(mm, l, false);
    ElseSticks(Canonical(mm, l, true).body.head, Nil, env, mem);
    if Codegen.Compile(Canonical(mm, l, true)).Some? {
      CompiledElseFree(Canonical(mm, l, true));
    }
  }

  /** The scalar backend refuses every else clause. */
  lemma CompiledElseFree(k: Kernel)
    requires Codegen.Compile(k).Some?
    ensures ElseFree(k.body)
  {
    hide Codegen.GenBlock;
    var prologue := Codegen.GenParams(k.params).value;
    BlockElseFree(k.body, prologue.alloc, |prologue.code|);
  }

  lemma {:induction false} BlockElseFree(b: Block, a: Codegen.Alloc, at: nat)
    requires Codegen.GenBlock(b, a, at).Some?
    ensures ElseFree(b)
  {
    hide Codegen.GenLoopHead, Codegen.GenAssign, Codegen.Release;
    if b.Cons? {
      var first := Codegen.GenStmt(b.head, a, at).value;
      BlockElseFree(b.tail, first.alloc, at + |first.code|);
      if b.head.For? {
        var head := Codegen.GenLoopHead(b.head.ivar, RangeOf(b.head.args).value, a).value;
        BlockElseFree(b.head.body, head.alloc, at + |head.code| + 2);
      }
    }
  }

  // --- the scope check ---

  lemma {:induction false} StripScope(b: Block, defined: set<string>, active: set<string>)
    ensures BlockScope(StripDocstrings(b), defined, active) == BlockScope(b, defined, active)
  {
    if b.Cons? {
      if b.head.Docstring? {
        StripScope(b.tail, defined, active);
      } else if Scope(b.head, defined, active).Some? {
        StripScope(b.tail, Scope(b.head, defined, active).value, active);
      }
    }
  }

  lemma AffineReads(e: Expr, row: string, col: string, stride: string)
    requires MatchAffine(e, row, col) == Some(stride)
    ensures Reads(e) <= {row, stride, col}
  {
    hide MatchOrdered;
    if MatchOrdered(e.left, e.right, row, col).Some? {
      OrderedReads(e.left, e.right, row, col, stride);
    } else {
      OrderedReads(e.right, e.left, row, col, stride);
    }
  }

  lemma OrderedReads(mul: Expr, other: Expr, row: string, col: string, stride: string)
    requires MatchOrdered(mul, other, row, col) == Some(stride)
    ensures Reads(mul) + Reads(other) <= {row, stride, col}
  {
    assert Reads(mul) == Reads(mul.left) + Reads(mul.right);
  }

  lemma ProductReads(e: Expr, i: string, k: string, j: string, p: Product)
    requires MatchProd(e, i, k, j) == Some(p)
    ensures Reads(e) <= {p.A, p.B, p.strideA, p.strideB, i, k, j}
  {
    hide MatchAffine;
    if MatchFactors(e.left, e.right, i, k, j).Some? {
      AffineReads(e.left.index, i, k, p.strideA);
      AffineReads(e.right.index, k, j, p.strideB);
    } else {
      AffineReads(e.right.index, i, k, p.strideA);
      AffineReads(e.left.index, k, j, p.strideB);
    }
  }

  lemma AccumulateScope(s: Stmt, acc: string, prod: Expr, defined: set<string>, active: set<string>)
    requires MatchAccumulate(s, acc) == Some(prod) && acc in defined && acc !in active && Reads(prod) <= defined
    ensures BlockScope(Cons(s, Nil), defined, active) == Some(defined)
    ensures BlockLoopVars(Cons(s, Nil)) == {}
  {
    var assign := if s.AugAssign? then Expand(s.target, s.op, s.value) else s;
    assert Reads(assign.value) <= defined;
    assert defined + {acc} == defined;
    assert Scope(s, defined, active) == Some(defined);
  }

  lemma LoopScope(s: Stmt, r: RangeLoop, defined: set<string>, active: set<string>, vars: set<string>)
    requires MatchRange1(s) == Some(r) && r.ivar !in active && r.bound in defined && r.bound != r.ivar
    requires vars == BlockLoopVars(r.body)
    requires BlockScope(r.body, defined - vars + {r.ivar}, active + {r.ivar}).Some?
    ensures Scope(s, defined, active) == Some(defined - vars - {r.ivar})
    ensures LoopVars(s) == {r.ivar} + vars
  {}

  lemma CellScope(p: Parts, mm: Matmul, l: Locals, defined: set<string>)
    requires Recognised(p, mm, l) && Separate(mm, l)
    requires {mm.A, mm.B, mm.C, mm.M, mm.N, mm.K, l.i, l.j} <= defined
    ensures BlockScope(p.middle.body, defined, {l.i, l.j}).Some?
    ensures BlockLoopVars(p.middle.body) == {l.k}
  {
    hide MatchProd, MatchAffine, MatchAccumulate;
    var active, none := {l.i, l.j}, {};
    var d1 := defined + {l.acc};
    assert Scope(p.init, defined, active) == Some(d1);
    ProductReads(p.prod, l.i, l.k, l.j, Product(mm.A, mm.K, mm.B, mm.N));
    assert d1 - none == d1;
    AccumulateScope(p.step, l.acc, p.prod, d1 + {l.k}, active + {l.k});
    LoopScope(p.loop, p.inner, d1, active, none);
    var d2 := d1 - none - {l.k};
    AffineReads(p.store.target.index, l.i, l.j, mm.N);
    assert Scope(p.store, d2, active) == Some(d2);
    assert BlockScope(Cons(p.store, Nil), d2, active) == Some(d2);
    assert BlockScope(Cons(p.loop, Cons(p.store, Nil)), d1, active) == Some(d2);
    assert LoopVars(p.store) == {} && BlockLoopVars(Nil) == {} && LoopVars(p.init) == {};
    assert BlockLoopVars(Cons(p.store, Nil)) == {};
    assert BlockLoopVars(Cons(p.loop, Cons(p.store, Nil))) == {l.k};
  }

  /** An accepted kernel with distinct names whose symbols are parameters passes the scope check. */
  lemma MatmulWellScoped(k: Kernel, mm: Matmul, l: Locals)
    requires MatchMatmul(k) == Some((mm, l)) && Separate(mm, l)
    requires {mm.A, mm.B, mm.C, mm.M, mm.N, mm.K} <= Names(k.params)
    ensures WellScoped(k)
  {
    hide MatchMatmul, Recognised, ElsesOf;
    var p := PartsOf(k, mm, l);
    LoopNames(p, mm, l);
    var names, none, b := Names(k.params), {}, StripDocstrings(k.body);
    var kept := names - {l.j, l.k} + {l.i};
    StripScope(k.body, names, none);
    CellScope(p, mm, l, kept - {l.k} + {l.j});
    assert none + {l.i} == {l.i} && {l.i} + {l.j} == {l.i, l.j};
    LoopScope(p.outer.body.head, p.middle, kept, {l.i}, {l.k});
    assert BlockLoopVars(p.outer.body) == {l.j, l.k};
    assert BlockScope(p.outer.body, kept, {l.i}).Some?;
    LoopScope(b.head, p.outer, names, none, {l.j, l.k});
    assert BlockScope(b, names, none).Some?;
  }

  lemma LoopNames(p: Parts, mm: Matmul, l: Locals)
    requires Recognised(p, mm, l)
    ensures p.outer.ivar == l.i && p.outer.bound == mm.M && p.middle.ivar == l.j && p.middle.bound == mm.N
  {}
}
