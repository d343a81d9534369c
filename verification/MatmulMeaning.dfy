/**
 What the scalar triple loop means: every kernel that match_matmul accepts stores in each
 C[i*N + j] the sum over k < K of A[i*K + k] * B[k*N + j], modulo 2^32, for int32 arrays
 with C apart from A and B. With byte operands that sign-extend to the same values, the
 tensor program leaves the same words in a zeroed C.
 */
module MatmulMeaning {
  import opened Bits
  import opened Memory
  import opened Kernel
  import opened TensorMatch
  import opened TensorTiles
  import opened Options

  /** Base addresses and dimensions of C = A * B over arrays of 32-bit words. */
  datatype Gemm32 = Gemm32(a: nat, b: nat, c: nat, m: nat, n: nat, k: nat) {
    predicate Fits(size: nat) {
      && a + 4 * (m * k) <= size && b + 4 * (k * n) <= size && c + 4 * (m * n) <= size
      && (c + 4 * (m * n) <= a || a + 4 * (m * k) <= c)
      && (c + 4 * (m * n) <= b || b + 4 * (k * n) <= c)
    }

    function AddrA(i: nat, q: nat): nat {
      a + 4 * (i * k + q)
    }

    function AddrB(q: nat, j: nat): nat {
      b + 4 * (q * n + j)
    }

    function Cell(i: nat, j: nat): nat {
      c + 4 * (i * n + j)
    }

    predicate InC(x: int) {
      c <= x < c + 4 * (m * n)
    }
  }

  lemma AddrABound(g: Gemm32, size: nat, i: nat, q: nat)
    requires g.Fits(size) && i < g.m && q < g.k
    ensures 0 <= i * g.k && i * g.k + q < g.m * g.k
    ensures g.AddrA(i, q) + 4 <= size && (g.AddrA(i, q) + 4 <= g.c || g.c + 4 * (g.m * g.n) <= g.AddrA(i, q))
  {
    IndexBound(i, q, g.m, g.k);
  }

  lemma AddrBBound(g: Gemm32, size: nat, q: nat, j: nat)
    requires g.Fits(size) && q < g.k && j < g.n
    ensures 0 <= q * g.n && q * g.n + j < g.k * g.n
    ensures g.AddrB(q, j) + 4 <= size && (g.AddrB(q, j) + 4 <= g.c || g.c + 4 * (g.m * g.n) <= g.AddrB(q, j))
  {
    IndexBound(q, j, g.k, g.n);
  }

  lemma CellBound(g: Gemm32, size: nat, i: nat, j: nat)
    requires g.Fits(size) && i < g.m && j < g.n
    ensures 0 <= i * g.n && i * g.n + j < g.m * g.n
    ensures g.c <= g.Cell(i, j) && g.Cell(i, j) + 4 <= g.c + 4 * (g.m * g.n) <= size
  {
    IndexBound(i, j, g.m, g.n);
  }

  function Elem32(mem: Bytes, addr: nat): int
    requires InBounds(mem, addr, 4)
  {
    Signed(Rd32(mem, addr))
  }

  function Sum32(g: Gemm32, mem: Bytes, i: nat, j: nat, n: nat): int
    requires g.Fits(|mem|) && i < g.m && j < g.n && n <= g.k
  {
    if n == 0 then 0
    else
      AddrABound(g, |mem|, i, n - 1);
      AddrBBound(g, |mem|, n - 1, j);
      Sum32(g, mem, i, j, n - 1) + Elem32(mem, g.AddrA(i, n - 1)) * Elem32(mem, g.AddrB(n - 1, j))
  }

  ghost predicate OutsideSame(g: Gemm32, mem0: Bytes, mem: Bytes) {
    |mem| == |mem0| && forall x: nat :: x < |mem0| && !g.InC(x) ==> mem[x] == mem0[x]
  }

  lemma ReadSame(g: Gemm32, mem0: Bytes, mem: Bytes, addr: nat)
    requires OutsideSame(g, mem0, mem) && addr + 4 <= |mem0|
    requires addr + 4 <= g.c || g.c + 4 * (g.m * g.n) <= addr
    ensures Rd32(mem, addr) == Rd32(mem0, addr)
  {
    assert !g.InC(addr) && !g.InC(addr + 1) && !g.InC(addr + 2) && !g.InC(addr + 3);
  }

  // --- names and values ---

  /** The symbols denote the problem, and the local names are different from them and from each other. */
  predicate Denotes(env: Env, mm: Matmul, g: Gemm32) {
    && {mm.A, mm.B, mm.C, mm.M, mm.N, mm.K} <= env.Keys
    && Wrap(env[mm.A]) == g.a && Wrap(env[mm.B]) == g.b && Wrap(env[mm.C]) == g.c
    && env[mm.M] == g.m && env[mm.N] == g.n && env[mm.K] == g.k
  }

  predicate Separate(mm: Matmul, l: Locals) {
    && {l.i, l.j, l.k, l.acc} !! {mm.A, mm.B, mm.C, mm.M, mm.N, mm.K}
    && l.i != l.j && l.i != l.k && l.i != l.acc && l.j != l.k && l.j != l.acc && l.k != l.acc
  }

  lemma AffineValue(e: Expr, row: string, col: string, env: Env, mem: Bytes, stride: string)
    requires MatchAffine(e, row, col) == Some(stride) && {row, col, stride} <= env.Keys
    requires 0 <= env[row] as int * env[stride] as int && 0 <= env[col]
    requires env[row] as int * env[stride] as int + env[col] as int < TWO31
    ensures Eval(e, env, mem) == Some(env[row] as int * env[stride] as int + env[col] as int)
  {
    hide Signed;
    var product: int := env[row] as int * env[stride] as int;
    SignedOfWrap(product);
    SignedOfWrap(product + env[col] as int);
    assert env[stride] as int * env[row] as int == product;
    if MatchOrdered(e.left, e.right, row, col).Some? {
      OrderedValue(e.left, row, env, mem, stride, product);
    } else {
      OrderedValue(e.right, row, env, mem, stride, product);
    }
  }

  lemma OrderedValue(mul: Expr, row: string, env: Env, mem: Bytes, stride: string, product: int)
    requires row in env && stride in env && product == env[row] as int * env[stride] as int && 0 <= product < TWO31
    requires mul.Bin? && mul.op == Mult && mul.left.Name? && mul.right.Name?
    requires (mul.left.id == row && mul.right.id == stride) || (mul.left.id == stride && mul.right.id == row)
    ensures Eval(mul, env, mem) == Some(product)
  {
    assert env[stride] as int * env[row] as int == product;
    assert Signed(product) == product;
  }

  /** The loop variables and the accumulator are bound; i, j, q are the iteration at hand. */
  predicate Iteration(env: Env, mm: Matmul, l: Locals, g: Gemm32, i: nat, j: nat) {
    && Denotes(env, mm, g) && Separate(mm, l)
    && l.i in env && env[l.i] == i && l.j in env && env[l.j] == j
  }

  lemma ElementValue(arr: string, index: Expr, env: Env, mem: Bytes, base: nat, x: nat)
    requires arr in env && Wrap(env[arr]) == base && x < TWO31 && InBounds(mem, base + 4 * x, 4)
    requires Eval(index, env, mem) == Some(x)
    ensures ElementAddress(arr, x, env, mem) == Some(base + 4 * x)
    ensures Eval(Subscript(arr, index), env, mem) == Some(Elem32(mem, base + 4 * x))
  {}

  /** Element of A in one factor, element of B in the other. */
  lemma FactorsValue(lhs: Expr, rhs: Expr, env: Env, mem: Bytes, mm: Matmul, l: Locals, g: Gemm32, i: nat, j: nat, q: nat)
    requires g.Fits(|mem|) && |mem| <= TWO32 && Iteration(env, mm, l, g, i, j) && l.k in env && env[l.k] == q
    requires i < g.m && j < g.n && q < g.k
    requires MatchFactors(lhs, rhs, l.i, l.k, l.j) == Some(Product(mm.A, mm.K, mm.B, mm.N))
    ensures g.AddrA(i, q) + 4 <= |mem| && g.AddrB(q, j) + 4 <= |mem|
    ensures Eval(lhs, env, mem) == Some(Elem32(mem, g.AddrA(i, q)))
    ensures Eval(rhs, env, mem) == Some(Elem32(mem, g.AddrB(q, j)))
  {
    hide Eval, MatchAffine, ElementAddress, Elem32, Wrap;
    AddrABound(g, |mem|, i, q);
    AddrBBound(g, |mem|, q, j);
    AffineValue(lhs.index, l.i, l.k, env, mem, mm.K);
    AffineValue(rhs.index, l.k, l.j, env, mem, mm.N);
    ElementValue(mm.A, lhs.index, env, mem, g.a, i * g.k + q);
    ElementValue(mm.B, rhs.index, env, mem, g.b, q * g.n + j);
  }

  lemma ProductValue(e: Expr, env: Env, mem: Bytes, mm: Matmul, l: Locals, g: Gemm32, i: nat, j: nat, q: nat)
    requires g.Fits(|mem|) && |mem| <= TWO32 && Iteration(env, mm, l, g, i, j) && l.k in env && env[l.k] == q
    requires i < g.m && j < g.n && q < g.k
    requires MatchProd(e, l.i, l.k, l.j) == Some(Product(mm.A, mm.K, mm.B, mm.N))
    ensures g.AddrA(i, q) + 4 <= |mem| && g.AddrB(q, j) + 4 <= |mem|
    ensures Eval(e, env, mem) == Some(Signed(Elem32(mem, g.AddrA(i, q)) * Elem32(mem, g.AddrB(q, j))))
  {
    hide MatchFactors, Elem32, Iteration, Gemm32.Fits, Signed;
    if MatchFactors(e.left, e.right, l.i, l.k, l.j).Some? {
      FactorsValue(e.left, e.right, env, mem, mm, l, g, i, j, q);
    } else {
      FactorsValue(e.right, e.left, env, mem, mm, l, g, i, j, q);
      Commute(Elem32(mem, g.AddrA(i, q)), Elem32(mem, g.AddrB(q, j)));
    }
  }

  lemma Commute(x: int, y: int)
    ensures x * y == y * x
  {}

  lemma SignedSum(s: int, x: int)
    ensures Signed(Signed(s) + Signed(x)) == Signed(s + x)
  {}

  /** The accumulation statement adds one product. */
  lemma AccumulateValue(st: Stmt, env: Env, mem: Bytes, acc: string, prod: Expr, s: int, x: int)
    requires MatchAccumulate(st, acc) == Some(prod) && acc in env && env[acc] == Signed(s)
    requires Eval(prod, env, mem) == Some(Signed(x))
    ensures Exec(st, env, mem) == Normal(env[acc := Signed(s + x)], mem)
  {
    hide Signed;
    SignedSum(s, x);
    SignedSum(x, s);
    var e := if st.AugAssign? then Bin(Add, Name(acc), st.value) else st.value;
    assert Eval(Name(acc), env, mem) == Some(env[acc]);
    assert Eval(e, env, mem) == Some(Signed(s + x));
    assert Exec(st, env, mem) == ExecAssign(ToName(acc), e, env, mem);
  }

  /** The two environments agree outside `names`. */
  ghost predicate SameExcept(env: Env, env': Env, names: set<string>) {
    forall x :: x !in names ==> (x in env <==> x in env') && (x in env ==> env'[x] == env[x])
  }

  lemma DenotesSame(env: Env, env': Env, mm: Matmul, l: Locals, g: Gemm32, names: set<string>)
    requires Denotes(env, mm, g) && Separate(mm, l) && SameExcept(env, env', names) && names <= {l.i, l.j, l.k, l.acc}
    ensures Denotes(env', mm, g)
  {
    assert forall x :: x in {mm.A, mm.B, mm.C, mm.M, mm.N, mm.K} ==> x !in names;
  }

  /** The recognised parts of the kernel. */
  datatype Parts = Parts(outer: RangeLoop, middle: RangeLoop, inner: RangeLoop, init: Stmt, loop: Stmt, store: Stmt, step: Stmt, prod: Expr)

  /** The pieces of an accepted kernel fit together as match_matmul has checked. */
  predicate Recognised(p: Parts, mm: Matmul, l: Locals) {
    && p.outer.ivar == l.i && p.outer.bound == mm.M
    && p.middle.ivar == l.j && p.middle.bound == mm.N
    && p.inner.ivar == l.k && p.inner.bound == mm.K
    && MatchRange1(p.loop) == Some(p.inner)
    && p.middle.body == Cons(p.init, Cons(p.loop, Cons(p.store, Nil)))
    && p.init == Assign(ToName(l.acc), Const(0))
    && p.inner.body == Cons(p.step, Nil)
    && MatchAccumulate(p.step, l.acc) == Some(p.prod)
    && MatchProd(p.prod, l.i, l.k, l.j) == Some(Product(mm.A, mm.K, mm.B, mm.N))
    && p.store.Assign? && p.store.target.ToElement? && p.store.target.arr == mm.C && p.store.value == Name(l.acc)
    && MatchAffine(p.store.target.index, l.i, l.j) == Some(mm.N)
  }

  lemma OneStatement(st: Stmt, env: Env, mem: Bytes)
    requires Exec(st, env, mem).Normal?
    ensures ExecBlock(Cons(st, Nil), env, mem) == Exec(st, env, mem)
  {}

  /** The innermost loop, from iteration q on, completes the sum. */
  lemma {:induction false} KMeaning(p: Parts, mm: Matmul, l: Locals, g: Gemm32, env: Env, mem: Bytes, i: nat, j: nat, q: nat) returns (env': Env)
    requires Recognised(p, mm, l) && g.Fits(|mem|) && |mem| <= TWO32 && Iteration(env, mm, l, g, i, j)
    requires i < g.m && j < g.n && q <= g.k < TWO31 && l.acc in env && env[l.acc] == Signed(Sum32(g, mem, i, j, q))
    ensures Iterate(l.k, q, g.k, 1, p.inner.body, env, mem) == Normal(env', mem)
    ensures SameExcept(env, env', {l.k, l.acc}) && l.acc in env' && env'[l.acc] == Signed(Sum32(g, mem, i, j, g.k))
    decreases g.k - q
  {
    hide Exec, Eval, Signed, Elem32, MatchAccumulate, MatchProd, MatchAffine, Gemm32.Fits, Gemm32.AddrA, Gemm32.AddrB, Wrap;
    if q == g.k {
      env' := env;
    } else {
      var env1 := env[l.k := q];
      DenotesSame(env, env1, mm, l, g, {l.k});
      ProductValue(p.prod, env1, mem, mm, l, g, i, j, q);
      var x := Elem32(mem, g.AddrA(i, q)) * Elem32(mem, g.AddrB(q, j));
      AccumulateValue(p.step, env1, mem, l.acc, p.prod, Sum32(g, mem, i, j, q), x);
      OneStatement(p.step, env1, mem);
      var env2 := env1[l.acc := Signed(Sum32(g, mem, i, j, q) + x)];
      DenotesSame(env, env2, mm, l, g, {l.k, l.acc});
      env' := KMeaning(p, mm, l, g, env2, mem, i, j, q + 1);
    }
  }

  lemma StoreValue(st: Stmt, env: Env, mem: Bytes, addr: nat)
    requires st.Assign? && st.target.ToElement? && st.value.Name? && st.value.id in env
    requires Eval(st.target.index, env, mem).Some?
    requires ElementAddress(st.target.arr, Eval(st.target.index, env, mem).value, env, mem) == Some(addr) && InBounds(mem, addr, 4)
    ensures Exec(st, env, mem) == Normal(env, Wr32(mem, addr, Wrap(env[st.value.id])))
  {
    assert Eval(st.value, env, mem) == Some(env[st.value.id]);
  }

  lemma ThreeStatements(a: Stmt, b: Stmt, c: Stmt, env: Env, mem: Bytes, env1: Env, env2: Env, env3: Env, mem3: Bytes)
    requires Exec(a, env, mem) == Normal(env1, mem) && Exec(b, env1, mem) == Normal(env2, mem)
    requires Exec(c, env2, mem) == Normal(env3, mem3)
    ensures ExecBlock(Cons(a, Cons(b, Cons(c, Nil))), env, mem) == Normal(env3, mem3)
  {
    assert ExecBlock(Cons(c, Nil), env2, mem) == Normal(env3, mem3);
    assert ExecBlock(Cons(b, Cons(c, Nil)), env1, mem) == Normal(env3, mem3);
  }

  lemma RangeValue(s: Stmt, r: RangeLoop, env: Env, mem: Bytes, n: nat)
    requires MatchRange1(s) == Some(r) && !s.hasElse && r.bound in env && env[r.bound] == n
    ensures Exec(s, env, mem) == Iterate(r.ivar, 0, n, 1, r.body, env, mem)
  {
    assert Eval(Const(0), env, mem) == Some(0);
    assert Eval(s.args[0], env, mem) == Some(n);
  }

  /** One pass of the middle loop stores one cell. */
  lemma CellMeaning(p: Parts, mm: Matmul, l: Locals, g: Gemm32, env: Env, mem: Bytes, i: nat, j: nat) returns (env': Env)
    requires Recognised(p, mm, l) && g.Fits(|mem|) && |mem| <= TWO32 && Iteration(env, mm, l, g, i, j) && !p.loop.hasElse
    requires i < g.m && j < g.n && g.k < TWO31
    ensures g.Cell(i, j) + 4 <= |mem|
    ensures ExecBlock(p.middle.body, env, mem) == Normal(env', Wr32(mem, g.Cell(i, j), Wrap(Sum32(g, mem, i, j, g.k))))
    ensures SameExcept(env, env', {l.k, l.acc})
  {
    hide Exec, Eval, Signed, Elem32, Sum32, MatchAccumulate, MatchProd, MatchAffine, ElementAddress, Wrap, Wr32, Iterate;
    hide Gemm32.Fits, Gemm32.AddrA, Gemm32.AddrB;
    CellBound(g, |mem|, i, j);
    var env1 := env[l.acc := 0];
    InitValue(p.init, l.acc, env, mem);
    SumStarts(g, mem, i, j);
    DenotesSame(env, env1, mm, l, g, {l.acc});
    RangeValue(p.loop, p.inner, env1, mem, g.k);
    env' := KMeaning(p, mm, l, g, env1, mem, i, j, 0);
    DenotesSame(env, env', mm, l, g, {l.k, l.acc});
    AffineValue(p.store.target.index, l.i, l.j, env', mem, mm.N);
    IndexFits(g, |mem|);
    ElementValue(mm.C, p.store.target.index, env', mem, g.c, i * g.n + j);
    StoreValue(p.store, env', mem, g.Cell(i, j));
    WordOfSum(Sum32(g, mem, i, j, g.k));
    ThreeStatements(p.init, p.loop, p.store, env, mem, env1, env', env', Wr32(mem, g.Cell(i, j), Wrap(Sum32(g, mem, i, j, g.k))));
  }

  lemma InitValue(st: Stmt, acc: string, env: Env, mem: Bytes)
    requires st == Assign(ToName(acc), Const(0))
    ensures Exec(st, env, mem) == Normal(env[acc := 0], mem)
  {
    assert Eval(Const(0), env, mem) == Some(0);
  }

  lemma SumStarts(g: Gemm32, mem: Bytes, i: nat, j: nat)
    requires g.Fits(|mem|) && i < g.m && j < g.n
    ensures Signed(Sum32(g, mem, i, j, 0)) == 0
  {}

  lemma IndexFits(g: Gemm32, size: nat)
    requires g.Fits(size) && size <= TWO32
    ensures g.m * g.n < TWO31
  {}

  lemma WordOfSum(x: int)
    ensures Wrap(Signed(x)) == Wrap(x)
  {}

  // --- the whole of C ---

  predicate Before(i': nat, j': nat, i: nat, j: nat) {
    i' < i || (i' == i && j' < j)
  }

  predicate CellDone(g: Gemm32, mem0: Bytes, mem: Bytes, i: nat, j: nat)
    requires g.Fits(|mem0|) && |mem| == |mem0| && i < g.m && j < g.n
  {
    CellBound(g, |mem0|, i, j);
    Rd32(mem, g.Cell(i, j)) == Wrap(Sum32(g, mem0, i, j, g.k))
  }

  /** The cells before (i, j) in row-major order hold their sums, and nothing outside C has changed. */
  ghost predicate Filled(g: Gemm32, mem0: Bytes, mem: Bytes, i: nat, j: nat)
    requires g.Fits(|mem0|)
  {
    && OutsideSame(g, mem0, mem)
    && forall i': nat, j': nat :: i' < g.m && j' < g.n && Before(i', j', i, j) ==> CellDone(g, mem0, mem, i', j')
  }

  lemma {:induction false} SumSame(g: Gemm32, mem0: Bytes, mem: Bytes, i: nat, j: nat, n: nat)
    requires g.Fits(|mem0|) && OutsideSame(g, mem0, mem) && i < g.m && j < g.n && n <= g.k
    ensures Sum32(g, mem, i, j, n) == Sum32(g, mem0, i, j, n)
  {
    hide Rd32, Gemm32.Fits, Gemm32.AddrA, Gemm32.AddrB;
    if n > 0 {
      SumSame(g, mem0, mem, i, j, n - 1);
      AddrABound(g, |mem0|, i, n - 1);
      AddrBBound(g, |mem0|, n - 1, j);
      ReadSame(g, mem0, mem, g.AddrA(i, n - 1));
      ReadSame(g, mem0, mem, g.AddrB(n - 1, j));
    }
  }

  lemma CellsApart32(g: Gemm32, i: nat, j: nat, i': nat, j': nat)
    requires j < g.n && j' < g.n && (i != i' || j != j')
    ensures g.Cell(i, j) + 4 <= g.Cell(i', j') || g.Cell(i', j') + 4 <= g.Cell(i, j)
  {
    IndexDistinct(i, j, i', j', g.n);
  }

  lemma FillCell(g: Gemm32, mem0: Bytes, mem: Bytes, i: nat, j: nat)
    requires g.Fits(|mem0|) && Filled(g, mem0, mem, i, j) && i < g.m && j < g.n
    ensures g.Cell(i, j) + 4 <= |mem|
    ensures Filled(g, mem0, Wr32(mem, g.Cell(i, j), Wrap(Sum32(g, mem, i, j, g.k))), i, j + 1)
  {
    hide Rd32, Wr32, Sum32, Gemm32.Fits, Wrap;
    CellBound(g, |mem0|, i, j);
    SumSame(g, mem0, mem, i, j, g.k);
    var w := Wrap(Sum32(g, mem0, i, j, g.k));
    var mem' := Wr32(mem, g.Cell(i, j), w);
    forall i': nat, j': nat | i' < g.m && j' < g.n && Before(i', j', i, j + 1)
      ensures CellDone(g, mem0, mem', i', j')
    {
      if i' == i && j' == j {
      } else {
        assert CellDone(g, mem0, mem, i', j');
        CellBound(g, |mem0|, i', j');
        CellsApart32(g, i, j, i', j');
        RdAfterWrElsewhere(mem, g.Cell(i, j), w, g.Cell(i', j'));
      }
    }
  }

  lemma NextRow(g: Gemm32, mem0: Bytes, mem: Bytes, i: nat)
    requires g.Fits(|mem0|) && Filled(g, mem0, mem, i, g.n)
    ensures Filled(g, mem0, mem, i + 1, 0)
  {
    hide CellDone, Gemm32.Fits;
  }

  lemma {:induction false} JMeaning(p: Parts, mm: Matmul, l: Locals, g: Gemm32, env: Env, mem0: Bytes, mem: Bytes, i: nat, j: nat)
      returns (env': Env, mem': Bytes)
    requires Recognised(p, mm, l) && g.Fits(|mem0|) && |mem0| <= TWO32 && Filled(g, mem0, mem, i, j)
    requires Denotes(env, mm, g) && Separate(mm, l) && l.i in env && env[l.i] == i
    requires i < g.m && j <= g.n < TWO31 && g.k < TWO31 && (j < g.n ==> !p.loop.hasElse)
    ensures Iterate(l.j, j, g.n, 1, p.middle.body, env, mem) == Normal(env', mem')
    ensures Filled(g, mem0, mem', i + 1, 0) && SameExcept(env, env', {l.j, l.k, l.acc})
    decreases g.n - j
  {
    hide ExecBlock, Filled, Gemm32.Fits, Recognised, Sum32, Wr32;
    if j == g.n {
      NextRow(g, mem0, mem, i);
      env', mem' := env, mem;
    } else {
      var env1 := env[l.j := j];
      DenotesSame(env, env1, mm, l, g, {l.j});
      FilledSize(g, mem0, mem, i, j);
      var env2 := CellMeaning(p, mm, l, g, env1, mem, i, j);
      FillCell(g, mem0, mem, i, j);
      DenotesSame(env, env2, mm, l, g, {l.j, l.k, l.acc});
      env', mem' := JMeaning(p, mm, l, g, env2, mem0, Wr32(mem, g.Cell(i, j), Wrap(Sum32(g, mem, i, j, g.k))), i, j + 1);
    }
  }

  lemma FilledSize(g: Gemm32, mem0: Bytes, mem: Bytes, i: nat, j: nat)
    requires g.Fits(|mem0|) && Filled(g, mem0, mem, i, j)
    ensures |mem| == |mem0|
  {}

  lemma {:induction false} IMeaning(p: Parts, mm: Matmul, l: Locals, g: Gemm32, env: Env, mem0: Bytes, mem: Bytes, i: nat)
      returns (env': Env, mem': Bytes)
    requires Recognised(p, mm, l) && g.Fits(|mem0|) && |mem0| <= TWO32 && Filled(g, mem0, mem, i, 0)
    requires p.outer.body.Cons? && p.outer.body.tail == Nil
    requires MatchRange1(p.outer.body.head) == Some(p.middle)
    requires i < g.m ==> !p.outer.body.head.hasElse && (g.n > 0 ==> !p.loop.hasElse)
    requires Denotes(env, mm, g) && Separate(mm, l)
    requires i <= g.m < TWO31 && g.n < TWO31 && g.k < TWO31
    ensures Iterate(l.i, i, g.m, 1, p.outer.body, env, mem) == Normal(env', mem')
    ensures Filled(g, mem0, mem', g.m, 0)
    decreases g.m - i
  {
    hide Exec, Filled, Gemm32.Fits;
    if i == g.m {
      env', mem' := env, mem;
    } else {
      var env1 := env[l.i := i];
      DenotesSame(env, env1, mm, l, g, {l.i});
      RangeValue(p.outer.body.head, p.middle, env1, mem, g.n);
      var env2, mem2 := JMeaning(p, mm, l, g, env1, mem0, mem, i, 0);
      OneStatement(p.outer.body.head, env1, mem);
      DenotesSame(env, env2, mm, l, g, {l.i, l.j, l.k, l.acc});
      env', mem' := IMeaning(p, mm, l, g, env2, mem0, mem2, i + 1);
    }
  }

  // --- kernels ---

  predicate ElseFree(b: Block) {
    match b
    case Nil => true
    case Cons(head, tail) => (head.For? ==> !head.hasElse && ElseFree(head.body)) && ElseFree(tail)
  }

  lemma {:induction false} StripMeaning(b: Block, env: Env, mem: Bytes)
    ensures ExecBlock(StripDocstrings(b), env, mem) == ExecBlock(b, env, mem)
    ensures ElseFree(b) <==> ElseFree(StripDocstrings(b))
  {
    match b {
      case Nil =>
      case Cons(head, tail) =>
        if head.Docstring? {
          StripMeaning(tail, env, mem);
        } else {
          match Exec(head, env, mem) {
            case Normal(env', mem') => StripMeaning(tail, env', mem');
            case _ => StripMeaning(tail, env, mem);
          }
        }
    }
  }

  /** What the innermost checks of match_matmul establish. */
  lemma BodyParts(outer: RangeLoop, middle: RangeLoop, mm: Matmul, l: Locals) returns (p: Parts)
    requires MatchBody(middle.body, outer, middle) == Some((mm, l))
    ensures p.outer == outer && p.middle == middle && Recognised(p, mm, l)
  {
    hide MatchProd, MatchAffine, MatchAccumulate;
    var b := middle.body;
    var init, loop, store := b.head, b.tail.head, b.tail.tail.head;
    assert b == Cons(init, Cons(loop, Cons(store, Nil)));
    var inner := MatchRange1(loop).value;
    var step := inner.body.head;
    p := Parts(outer, middle, inner, init, loop, store, step, MatchAccumulate(step, init.target.id).value);
  }

  /** Which of the three loops of an accepted kernel have an else clause, which match_matmul does not look at. */
  datatype Elses = Elses(outer: bool, middle: bool, inner: bool) {
    /** No loop that is reached, in a problem with m rows and n columns, has one. */
    predicate Skipped(m: nat, n: nat) {
      !outer && (m > 0 ==> !middle && (n > 0 ==> !inner))
    }
  }

  function ElsesOf(k: Kernel): Elses
    requires MatchMatmul(k).Some?
  {
    var outer := StripDocstrings(k.body).head;
    var middle := outer.body.head;
    Elses(outer.hasElse, middle.hasElse, middle.body.tail.head.hasElse)
  }

  /** The pieces of an accepted kernel. */
  lemma PartsOf(k: Kernel, mm: Matmul, l: Locals) returns (p: Parts)
    requires MatchMatmul(k) == Some((mm, l))
    ensures Recognised(p, mm, l)
    ensures StripDocstrings(k.body).Cons? && StripDocstrings(k.body).tail == Nil
    ensures MatchRange1(StripDocstrings(k.body).head) == Some(p.outer)
    ensures p.outer.body.Cons? && p.outer.body.tail == Nil
    ensures MatchRange1(p.outer.body.head) == Some(p.middle)
    ensures ElsesOf(k) == Elses(StripDocstrings(k.body).head.hasElse, p.outer.body.head.hasElse, p.loop.hasElse)
  {
    hide MatchBody;
    var outer := MatchRange1(StripDocstrings(k.body).head).value;
    var middle := MatchRange1(outer.body.head).value;
    p := BodyParts(outer, middle, mm, l);
  }

  // --- else clauses ---

  lemma ElseSticks(s: Stmt, tail: Block, env: Env, mem: Bytes)
    requires s.For? && s.hasElse
    ensures Exec(s, env, mem) == Stuck && ExecBlock(Cons(s, tail), env, mem) == Stuck
  {}

  lemma FirstIterationSticks(ivar: string, n: nat, body: Block, env: Env, mem: Bytes)
    requires 0 < n < TWO31 && ExecBlock(body, env[ivar := 0], mem) == Stuck
    ensures Iterate(ivar, 0, n, 1, body, env, mem) == Stuck
  {
    hide ExecBlock;
  }

  /** An else clause of the innermost loop ends the run in the first cell. */
  lemma CellSticks(p: Parts, mm: Matmul, l: Locals, env: Env, mem: Bytes)
    requires Recognised(p, mm, l) && p.loop.hasElse
    ensures ExecBlock(p.middle.body, env, mem) == Stuck
  {
    hide MatchAccumulate, MatchProd, MatchAffine;
    InitValue(p.init, l.acc, env, mem);
    ElseSticks(p.loop, Cons(p.store, Nil), env[l.acc := 0], mem);
  }

  lemma OneStuck(st: Stmt, env: Env, mem: Bytes)
    requires Exec(st, env, mem) == Stuck
    ensures ExecBlock(Cons(st, Nil), env, mem) == Stuck
  {
    hide Exec;
  }

  /** A run that reaches a loop with an else clause leaves the language subset. */
  lemma ReachedElseSticks(p: Parts, mm: Matmul, l: Locals, g: Gemm32, s: Stmt, env: Env, mem: Bytes)
    requires Recognised(p, mm, l) && MatchRange1(s) == Some(p.outer)
    requires p.outer.body.Cons? && p.outer.body.tail == Nil && MatchRange1(p.outer.body.head) == Some(p.middle)
    requires Denotes(env, mm, g) && Separate(mm, l) && g.m < TWO31 && g.n < TWO31
    requires !Elses(s.hasElse, p.outer.body.head.hasElse, p.loop.hasElse).Skipped(g.m, g.n)
    ensures Exec(s, env, mem) == Stuck
  {
    hide Exec, ExecBlock, Iterate, MatchAccumulate, MatchProd, MatchAffine;
    var mid := p.outer.body.head;
    if s.hasElse {
      ElseSticks(s, Nil, env, mem);
    } else {
      RangeValue(s, p.outer, env, mem, g.m);
      var env1 := env[l.i := 0];
      DenotesSame(env, env1, mm, l, g, {l.i});
      if mid.hasElse {
        ElseSticks(mid, Nil, env1, mem);
      } else {
        RangeValue(mid, p.middle, env1, mem, g.n);
        CellSticks(p, mm, l, env1[l.j := 0], mem);
        FirstIterationSticks(l.j, g.n, p.middle.body, env1, mem);
      }
      OneStuck(mid, env1, mem);
      FirstIterationSticks(l.i, g.m, p.outer.body, env, mem);
    }
  }

  /**
   The scalar meaning of an accepted kernel: its run stays in the language exactly when it
   reaches no else clause, and then each C[i*N + j] is the sum of products modulo 2^32 and
   memory outside C is unchanged.
   */
  lemma MatmulKernelMeaning(k: Kernel, mm: Matmul, l: Locals, g: Gemm32, mem: Bytes, paramAddr: u32)
    requires MatchMatmul(k) == Some((mm, l)) && Separate(mm, l)
    requires |mem| <= TWO32 && InBounds(mem, paramAddr, 4 * |k.params|)
    requires Denotes(ParamEnv(k.params, mem, paramAddr), mm, g) && g.Fits(|mem|)
    ensures RunKernel(k, mem, paramAddr).Some? <==> ElsesOf(k).Skipped(g.m, g.n)
    ensures RunKernel(k, mem, paramAddr).Some? ==> Filled(g, mem, RunKernel(k, mem, paramAddr).value, g.m, 0)
  {
    hide Exec, Filled, Gemm32.Fits, MatchMatmul, Recognised, ParamEnv, Separate, Iterate;
    var env, b := ParamEnv(k.params, mem, paramAddr), StripDocstrings(k.body);
    StripMeaning(k.body, env, mem);
    var p := PartsOf(k, mm, l);
    Dimensions(env, mm, g);
    RecognisedNames(p, mm, l);
    if ElsesOf(k).Skipped(g.m, g.n) {
      NothingFilled(g, mem);
      RangeValue(b.head, p.outer, env, mem, g.m);
      var env', mem' := IMeaning(p, mm, l, g, env, mem, mem, 0);
      OneStatement(b.head, env, mem);
    } else {
      ReachedElseSticks(p, mm, l, g, b.head, env, mem);
      OneStuck(b.head, env, mem);
    }
  }

  /** Where there is a cell to compute, an accepted kernel has this meaning if and only if it is free of else clauses. */
  lemma MatmulExactly(k: Kernel, mm: Matmul, l: Locals, g: Gemm32, mem: Bytes, paramAddr: u32)
    requires MatchMatmul(k) == Some((mm, l)) && Separate(mm, l)
    requires |mem| <= TWO32 && InBounds(mem, paramAddr, 4 * |k.params|)
    requires Denotes(ParamEnv(k.params, mem, paramAddr), mm, g) && g.Fits(|mem|) && g.m > 0 && g.n > 0
    ensures ElseFree(k.body)
       <==> RunKernel(k, mem, paramAddr).Some? && Filled(g, mem, RunKernel(k, mem, paramAddr).value, g.m, 0)
  {
    hide Filled, Gemm32.Fits, MatchMatmul, ParamEnv, Separate, RunKernel, ElsesOf, ElseFree;
    MatmulKernelMeaning(k, mm, l, g, mem, paramAddr);
    ElseFreeFlags(k, mm, l);
  }

  lemma ElseFreeFlags(k: Kernel, mm: Matmul, l: Locals)
    requires MatchMatmul(k) == Some((mm, l))
    ensures ElseFree(k.body) <==> ElsesOf(k) == Elses(false, false, false)
  {
    hide MatchMatmul, MatchAccumulate, MatchProd, MatchAffine, ElsesOf;
    var p := PartsOf(k, mm, l);
    StripMeaning(k.body, map[], []);
    AccumulateIsNoLoop(p.step, l.acc);
    assert ElseFree(p.inner.body);
    assert p.loop.For? && p.loop.body == p.inner.body && !p.init.For? && !p.store.For?;
    assert ElseFree(Cons(p.store, Nil));
    assert ElseFree(Cons(p.loop, Cons(p.store, Nil))) <==> !p.loop.hasElse;
    assert ElseFree(p.middle.body) <==> !p.loop.hasElse;
    assert ElseFree(p.outer.body) <==> !p.outer.body.head.hasElse && ElseFree(p.middle.body);
  }

  lemma AccumulateIsNoLoop(s: Stmt, acc: string)
    ensures MatchAccumulate(s, acc).Some? ==> !s.For?
  {}

  lemma Dimensions(env: Env, mm: Matmul, g: Gemm32)
    requires Denotes(env, mm, g)
    ensures g.m < TWO31 && g.n < TWO31 && g.k < TWO31
  {}

  lemma RecognisedNames(p: Parts, mm: Matmul, l: Locals)
    requires Recognised(p, mm, l)
    ensures p.outer.ivar == l.i && p.outer.bound == mm.M
  {}

  lemma NothingFilled(g: Gemm32, mem: Bytes)
    requires g.Fits(|mem|)
    ensures Filled(g, mem, mem, 0, 0)
  {}
}
