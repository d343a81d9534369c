/**
 The two backends agree: an accepted kernel compiled by the scalar backend over int32
 arrays, and by the tensor backend over int8 arrays with the same values and a zeroed C,
 leave the same words in C.
 */
module TensorEquivalence {
  import opened Bits
  import opened Memory
  import opened Machine
  import opened Kernel
  import opened TensorMatch
  import opened TensorBackend
  import opened TensorTiles
  import opened TensorProof
  import opened MatmulMeaning
  import opened Options
  import Codegen
  import Preservation
  import MatmulCompiles
  import TensorLimits

  /** The byte operands sign-extend to the word operands, and C is zero to begin with. */
  ghost predicate SameProblem(g: Gemm, mem8: Bytes, g32: Gemm32, mem32: Bytes)
    requires g.Fits(|mem8|) && g32.Fits(|mem32|)
  {
    && g32.m == g.m && g32.n == g.n && g32.k == g.k
    && (forall i: nat, q: nat :: i < g.m && q < g.k ==> SameA(g, mem8, g32, mem32, i, q))
    && (forall q: nat, j: nat :: q < g.k && j < g.n ==> SameB(g, mem8, g32, mem32, q, j))
    && forall i: nat, j: nat :: g.Valid(i, j) ==> ZeroCell(g, mem8, i, j)
  }

  predicate SameA(g: Gemm, mem8: Bytes, g32: Gemm32, mem32: Bytes, i: nat, q: nat)
    requires g.Fits(|mem8|) && g32.Fits(|mem32|) && g32.m == g.m && g32.k == g.k && i < g.m && q < g.k
  {
    MatmulMeaning.AddrABound(g32, |mem32|, i, q);
    ElemA(g, mem8, i, q) == Elem32(mem32, g32.AddrA(i, q))
  }

  predicate SameB(g: Gemm, mem8: Bytes, g32: Gemm32, mem32: Bytes, q: nat, j: nat)
    requires g.Fits(|mem8|) && g32.Fits(|mem32|) && g32.n == g.n && g32.k == g.k && q < g.k && j < g.n
  {
    MatmulMeaning.AddrBBound(g32, |mem32|, q, j);
    ElemB(g, mem8, q, j) == Elem32(mem32, g32.AddrB(q, j))
  }

  predicate ZeroCell(g: Gemm, mem8: Bytes, i: nat, j: nat)
    requires g.Fits(|mem8|) && g.Valid(i, j)
  {
    CellBounds(g, |mem8|, i, j);
    Rd32(mem8, g.Cell(i, j)) == 0
  }

  lemma {:induction false} SumsEqual(g: Gemm, mem8: Bytes, g32: Gemm32, mem32: Bytes, i: nat, j: nat, n: nat)
    requires g.Fits(|mem8|) && g32.Fits(|mem32|) && SameProblem(g, mem8, g32, mem32)
    requires g.Valid(i, j) && n <= g.k
    ensures Sum(g, mem8, i, j, n) == Sum32(g32, mem32, i, j, n)
  {
    hide Gemm.Fits, Gemm32.Fits, Elem32, ElemA, ElemB, Gemm32.AddrA, Gemm32.AddrB;
    if n > 0 {
      SumsEqual(g, mem8, g32, mem32, i, j, n - 1);
      assert SameA(g, mem8, g32, mem32, i, n - 1) && SameB(g, mem8, g32, mem32, n - 1, j);
    }
  }

  /** Cell (i, j) of the two results holds the same word. */
  predicate SameCell(g: Gemm, mem8: Bytes, g32: Gemm32, mem32: Bytes, i: nat, j: nat)
    requires g.Fits(|mem8|) && g32.Fits(|mem32|) && g32.m == g.m && g32.n == g.n && g.Valid(i, j)
  {
    CellBounds(g, |mem8|, i, j);
    CellBound(g32, |mem32|, i, j);
    Rd32(mem8, g.Cell(i, j)) == Rd32(mem32, g32.Cell(i, j))
  }

  lemma ResultsEqual(g: Gemm, mem8: Bytes, done8: Bytes, g32: Gemm32, mem32: Bytes, done32: Bytes, i: nat, j: nat)
    requires g.Fits(|mem8|) && g32.Fits(|mem32|) && SameProblem(g, mem8, g32, mem32)
    requires Multiplied(g, mem8, done8) && Filled(g32, mem32, done32, g32.m, 0)
    requires g.Valid(i, j)
    ensures |done8| == |mem8| && |done32| == |mem32| && SameCell(g, done8, g32, done32, i, j)
  {
    hide Gemm.Fits, Gemm32.Fits, Sum, Sum32, Rd32;
    SumsEqual(g, mem8, g32, mem32, i, j, g.k);
    assert ZeroCell(g, mem8, i, j);
    assert CellHolds(g, mem8, done8, i, j, g.k);
    CellValue(g, mem8, done8, i, j, g.k);
    assert Before(i, j, g32.m, 0);
    assert CellDone(g32, mem32, done32, i, j);
  }

  /** Main result: both compiled programs reach EXIT, and every cell of C agrees. */
  lemma BackendsAgree(k: Kernel, mm: Matmul, l: Locals, x: Regs, mem8: Bytes, param8: u32, g32: Gemm32, mem32: Bytes, param32: u32)
      returns (done8: Bytes, done32: Bytes)
    requires MatchMatmul(k) == Some((mm, l)) && Separate(mm, l)
    requires RegsOf(k.params, mm) == Some(x) && x.Valid() && x.p == |k.params|
    requires Codegen.Compile(k).Some?
    requires |mem8| <= TWO32 && InBounds(mem8, param8, 4 * |k.params|)
    requires |mem32| <= TWO32 && InBounds(mem32, param32, 4 * |k.params|)
    requires g32.Fits(|mem32|) && Denotes(ParamEnv(k.params, mem32, param32), mm, g32)
    requires var g := Problem(x, mem8, param8);
      && g.Fits(|mem8|) && g.m < TWO31 && g.n < TWO31 && g.k < TWO31
      && SameProblem(g, mem8, g32, mem32)
    ensures CompileTensor(k, false).Some? && Program(CompileTensor(k, false).value)
    ensures Program(Codegen.Compile(k).value)
    ensures Preservation.ExitsWith(CompileTensor(k, false).value, Boot(mem8, param8), done8)
    ensures Preservation.ExitsWith(Codegen.Compile(k).value, Boot(mem32, param32), done32)
    ensures |done8| == |mem8| && |done32| == |mem32|
    ensures var g := Problem(x, mem8, param8); forall i: nat, j: nat :: g.Valid(i, j) ==> SameCell(g, done8, g32, done32, i, j)
  {
    hide Multiplied, Filled, SameProblem, Gemm.Fits, Gemm32.Fits, Problem, WellScoped, Codegen.Compile, CompileTensor, RunN, Boot,
         MatchMatmul, RegsOf, RunKernel, Denotes, Separate, ElseFree, ElsesOf, SameCell;
    var g := Problem(x, mem8, param8);
    done8 := TensorMultiplies(k, x, mem8, param8);
    Preservation.CompiledEncodable(k);
    TensorLimits.CompiledElseFree(k);
    SymbolsAreParams(k, mm, x);
    TensorLimits.MatmulWellScoped(k, mm, l);
    ElseFreeFlags(k, mm, l);
    MatmulKernelMeaning(k, mm, l, g32, mem32, param32);
    done32 := RunKernel(k, mem32, param32).value;
    Preservation.CompilationPreservesMeaning(k, mem32, param32);
    Sizes(g, mem8, done8, g32, mem32, done32);
    forall i: nat, j: nat | g.Valid(i, j)
      ensures SameCell(g, done8, g32, done32, i, j)
    {
      ResultsEqual(g, mem8, done8, g32, mem32, done32, i, j);
    }
  }

  /** The same for every accepted kernel of up to 46 parameters without an else clause: the scalar backend compiles it. */
  lemma MatmulsAgree(k: Kernel, mm: Matmul, l: Locals, x: Regs, mem8: Bytes, param8: u32, g32: Gemm32, mem32: Bytes, param32: u32)
      returns (done8: Bytes, done32: Bytes)
    requires MatchMatmul(k) == Some((mm, l)) && Separate(mm, l) && ElseFree(k.body) && |k.params| <= 46
    requires RegsOf(k.params, mm) == Some(x) && x.Valid() && x.p == |k.params|
    requires |mem8| <= TWO32 && InBounds(mem8, param8, 4 * |k.params|)
    requires |mem32| <= TWO32 && InBounds(mem32, param32, 4 * |k.params|)
    requires g32.Fits(|mem32|) && Denotes(ParamEnv(k.params, mem32, param32), mm, g32)
    requires var g := Problem(x, mem8, param8);
      && g.Fits(|mem8|) && g.m < TWO31 && g.n < TWO31 && g.k < TWO31
      && SameProblem(g, mem8, g32, mem32)
    ensures CompileTensor(k, false).Some? && Program(CompileTensor(k, false).value)
    ensures Codegen.Compile(k).Some? && Program(Codegen.Compile(k).value)
    ensures Preservation.ExitsWith(CompileTensor(k, false).value, Boot(mem8, param8), done8)
    ensures Preservation.ExitsWith(Codegen.Compile(k).value, Boot(mem32, param32), done32)
    ensures |done8| == |mem8| && |done32| == |mem32|
    ensures var g := Problem(x, mem8, param8); forall i: nat, j: nat :: g.Valid(i, j) ==> SameCell(g, done8, g32, done32, i, j)
  {
    hide SameProblem, Gemm.Fits, Gemm32.Fits, Problem, Codegen.Compile, CompileTensor, Boot, MatchMatmul, RegsOf, Denotes, Separate, ElseFree, SameCell, Preservation.ExitsWith;
    SymbolsAreParams(k, mm, x);
    MatmulCompiles.MatmulCompilesExactly(k, mm, l);
    done8, done32 := BackendsAgree(k, mm, l, x, mem8, param8, g32, mem32, param32);
  }

  lemma SymbolsAreParams(k: Kernel, mm: Matmul, x: Regs)
    requires RegsOf(k.params, mm) == Some(x)
    ensures {mm.A, mm.B, mm.C, mm.M, mm.N, mm.K} <= Names(k.params)
  {}

  lemma Sizes(g: Gemm, mem8: Bytes, done8: Bytes, g32: Gemm32, mem32: Bytes, done32: Bytes)
    requires g.Fits(|mem8|) && g32.Fits(|mem32|) && SameProblem(g, mem8, g32, mem32)
    requires Multiplied(g, mem8, done8) && Filled(g32, mem32, done32, g32.m, 0)
    ensures |done8| == |mem8| && |done32| == |mem32| && g32.m == g.m && g32.n == g.n
  {}
}
