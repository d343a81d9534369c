/**
 The whole stack for the tensor backend: a matmul kernel compiled to the tile loops, loaded
 and launched through the runtime, multiplies matrices that lie in the caller's buffers.
 */
module TensorLaunch {
  import opened Bits
  import opened Memory
  import opened Machine
  import opened Kernel
  import opened GpuThread
  import opened CommandRing
  import opened VramTable
  import opened Options
  import opened TensorMatch
  import opened TensorBackend
  import opened TensorTiles
  import opened TensorProof
  import opened TensorThread
  import opened FullStack
  import Agreement
  import Assembler
  import Runtime
  import TensorEmitter
  import Toolchain

  /** The problem that the launch parameters describe. */
  function ProblemOf(x: Regs, params: seq<u32>): Gemm
    requires x.Valid() && x.p == |params|
  {
    Gemm(params[x.a - 2], params[x.b - 2], params[x.c - 2], params[x.m - 2], params[x.n - 2], params[x.k - 2])
  }

  /** The matrices lie in live buffers, C apart from A and B, and all dimensions are multiples of 16. */
  ghost predicate InBuffers(allocs: map<nat, Runtime.Allocation>, g: Gemm, size: nat) {
    && g.Fits(size) && g.m < TWO31 && g.n < TWO31 && g.k < TWO31
    && Runtime.LiesInOne(allocs, g.a, g.m * g.k) && Runtime.LiesInOne(allocs, g.b, g.k * g.n)
    && Runtime.LiesInOne(allocs, g.c, 4 * (g.m * g.n))
  }

  /** C has the product added, and every other byte of every buffer is as before. */
  ghost predicate ProductInBuffers(allocs: map<nat, Runtime.Allocation>, g: Gemm, before: Bytes, after: Bytes)
    requires g.Fits(|before|)
  {
    && |after| == |before|
    && (forall i: nat, j: nat :: g.Valid(i, j) ==> CellHolds(g, before, after, i, j, g.k))
    && forall b: nat, a: nat :: b in allocs && b <= a < b + allocs[b].size && a < |before| && !g.InC(a) ==> after[a] == before[a]
  }

  predicate SameRange(mem: Bytes, mem': Bytes, lo: nat, n: nat) {
    |mem| == |mem'| && forall a: nat :: lo <= a < lo + n && a < |mem| ==> mem'[a] == mem[a]
  }

  lemma RangeSame(allocs: map<nat, Runtime.Allocation>, before: Bytes, after: Bytes, lo: nat, n: nat)
    requires SameBuffers(allocs, before, after) && Runtime.LiesInOne(allocs, lo, n)
    ensures SameRange(before, after, lo, n)
  {
    var base: nat :| Runtime.LiesIn(allocs, base, lo, n);
    forall a: nat | lo <= a < lo + n && a < |before|
      ensures after[a] == before[a]
    {
      assert base in allocs && base <= a < base + allocs[base].size;
    }
  }

  lemma {:induction false} SumSame(g: Gemm, mem: Bytes, mem': Bytes, i: nat, j: nat, n: nat)
    requires g.Fits(|mem|) && |mem'| == |mem| && g.Valid(i, j) && n <= g.k
    requires SameRange(mem, mem', g.a, g.m * g.k) && SameRange(mem, mem', g.b, g.k * g.n)
    ensures Sum(g, mem', i, j, n) == Sum(g, mem, i, j, n)
  {
    hide Gemm.AddrA, Gemm.AddrB, Gemm.Fits;
    if n > 0 {
      SumSame(g, mem, mem', i, j, n - 1);
      AddrABound(g, i, n - 1);
      AddrBBound(g, n - 1, j);
      OperandsInBounds(g, |mem|, i, j, n - 1);
    }
  }

  lemma WordSame(mem: Bytes, mem': Bytes, addr: nat)
    requires SameRange(mem, mem', addr, 4) && addr + 4 <= |mem|
    ensures Rd32(mem', addr) == Rd32(mem, addr)
  {}

  lemma CellSame(g: Gemm, mem: Bytes, mem': Bytes, after: Bytes, i: nat, j: nat)
    requires g.Fits(|mem|) && |mem'| == |mem| && |after| == |mem| && g.Valid(i, j)
    requires SameRange(mem, mem', g.a, g.m * g.k) && SameRange(mem, mem', g.b, g.k * g.n)
    requires SameRange(mem, mem', g.c, 4 * (g.m * g.n))
    requires CellHolds(g, mem', after, i, j, g.k)
    ensures CellHolds(g, mem, after, i, j, g.k)
  {
    hide Sum, Gemm.Fits, Rd32, Gemm.Cell;
    SumSame(g, mem, mem', i, j, g.k);
    CellInC(g, i, j);
    CellBounds(g, |mem|, i, j);
    WordSame(mem, mem', g.Cell(i, j));
  }

  /** What the launched program does to its memory, it does to the buffers as they were before the launch. */
  lemma ProductOfBuffers(allocs: map<nat, Runtime.Allocation>, g: Gemm, before: Bytes, mem: Bytes, after: Bytes)
    requires SameBuffers(allocs, before, mem) && InBuffers(allocs, g, |before|) && Multiplied(g, mem, after)
    ensures ProductInBuffers(allocs, g, before, after)
  {
    hide Gemm.Fits, CellHolds, Runtime.LiesInOne, Gemm.InC;
    RangeSame(allocs, before, mem, g.a, g.m * g.k);
    RangeSame(allocs, before, mem, g.b, g.k * g.n);
    RangeSame(allocs, before, mem, g.c, 4 * (g.m * g.n));
    forall i: nat, j: nat | g.Valid(i, j)
      ensures CellHolds(g, before, after, i, j, g.k)
    {
      CellSame(g, before, mem, after, i, j);
    }
  }

  /** The code of a launch lies apart from C. */
  lemma CodeApart(allocs: map<nat, Runtime.Allocation>, g: Gemm, keep: Region)
    requires Runtime.ApartFromAll(allocs, keep.lo, |keep.bytes|) && Runtime.LiesInOne(allocs, g.c, 4 * (g.m * g.n))
    ensures Apart(keep, g)
  {
    var base: nat :| Runtime.LiesIn(allocs, base, g.c, 4 * (g.m * g.n));
  }

  lemma LaunchedProblem(x: Regs, params: seq<u32>, l: Launch)
    requires x.Valid() && x.p == |params| && InBounds(l.mem, l.block, 4 * x.p)
    requires forall i :: 0 <= i < |params| ==> Rd32(l.mem, l.block + 4 * i) == params[i]
    ensures Problem(x, l.mem, l.block) == ProblemOf(x, params)
  {
    hide Rd32;
    assert forall reg: nat :: x.Param(reg) ==> Rd32(l.mem, l.block as int + 4 * (reg - 2)) == params[reg - 2];
  }

  /** A launch of one thread of a tensor program over matrices in live buffers. */
  lemma TensorLaunchMeaning(h: HostMath, k: Kernel, x: Regs, words: seq<u32>, params: seq<u32>, l: Launch,
                            allocs: map<nat, Runtime.Allocation>, before: Bytes)
    requires MatchMatmul(k).Some? && RegsOf(k.params, MatchMatmul(k).value.0) == Some(x) && x.Valid() && x.p == |k.params| == |params|
    requires CompileTensor(k, false).Some? && Assembler.EncodesTo(words, CompileTensor(k, false).value)
    requires InPlace(l, words, params, allocs, before)
    requires InBuffers(allocs, ProblemOf(x, params), |before|)
    ensures var d, g := RunThreads(h, l.codeAddr, l.block, 0, 1, Device(l.mem, false)), ProblemOf(x, params);
      if Steps(x, g) <= MAX_STEPS then !d.error && ProductInBuffers(allocs, g, before, d.vram) else d.error
  {
    hide Agreement.CodeInMemory, MatchMatmul, RegsOf, CompileTensor, RunThread, Steps, Rd32, Multiplied, SameBuffers, Runtime.ApartFromAll, Runtime.LiesInOne, Gemm.Fits, Problem, ProblemOf, ProductInBuffers, Apart;
    var g := ProblemOf(x, params);
    LaunchedProblem(x, params, l);
    Toolchain.DecodesTo(words, CompileTensor(k, false).value);
    CodeIsInBounds(l, words);
    CodeApart(allocs, g, Region(l.codeAddr, l.mem[l.codeAddr..l.codeAddr + 4 * |words|]));
    var mem' := TensorOnGpu(h, k, x, words, l.codeAddr, l.mem, l.block, 0, 1);
    ProductOfBuffers(allocs, g, before, l.mem, mem');
  }

  lemma CodeIsInBounds(l: Launch, words: seq<u32>)
    requires Agreement.CodeInMemory(l.mem, l.codeAddr, words)
    ensures l.codeAddr + 4 * |words| <= |l.mem|
  {}

  /** Compile with the tensor backend, load, launch one thread and unload. */
  method CompileAndMultiply(rt: Runtime.Runtime, k: Kernel, params: seq<u32>) returns (e: Option<Runtime.Error>)
    requires rt.Valid() && !rt.drv.hw.error && |params| == |k.params|
    requires Moderate(4 * |params|, rt.drv.hw.vram.Length) && Moderate(4, rt.drv.hw.vram.Length)
    requires CompileTensor(k, false).Some? ==> Moderate(4 * |CompileTensor(k, false).value|, rt.drv.hw.vram.Length)
    modifies rt, rt.drv, rt.drv.hw, rt.drv.hw.vram, rt.drv.hw.ring, rt.drv.bos
    ensures rt.Valid() && rt.allocs == old(rt.allocs)
    ensures e.None? <==> CompileTensor(k, false).None?
    ensures e.Some? ==> MatchMatmul(k).Some? && RegsOf(k.params, MatchMatmul(k).value.0).Some?
    ensures e == Some(Runtime.Success) ==>
      var x := RegsOf(k.params, MatchMatmul(k).value.0).value;
      && x.Valid() && x.p == |params|
      && var g := ProblemOf(x, params);
         InBuffers(old(rt.allocs), g, |old(rt.Vram())|) ==>
           if Steps(x, g) <= MAX_STEPS then !rt.drv.hw.error && ProductInBuffers(old(rt.allocs), g, old(rt.Vram()), rt.Vram())
           else rt.drv.hw.error
  {
    hide CompileTensor, MatchMatmul, RegsOf, RunThreads, InPlace, InBuffers, ProductInBuffers, Steps, ProblemOf, Runtime.InStep, TableOk, Assembler.EncodesTo;
    var compiled := TensorEmitter.CompileTensorWords(k, false);
    if compiled.None? {
      return None;
    }
    ghost var x := CompiledFrom(k);
    SameLength(compiled.value, CompileTensor(k, false).value);
    ghost var before, allocs := rt.Vram(), rt.allocs;
    var launched;
    ghost var l;
    launched, l := LoadAndLaunch(rt, compiled.value, params);
    if launched.Success? && InBuffers(allocs, ProblemOf(x, params), |before|) {
      TensorLaunchMeaning(rt.drv.hw.math, k, x, compiled.value, params, l, allocs, before);
    }
    e := Some(launched);
  }

  lemma CompiledFrom(k: Kernel) returns (x: Regs)
    requires CompileTensor(k, false).Some?
    ensures MatchMatmul(k).Some? && RegsOf(k.params, MatchMatmul(k).value.0) == Some(x)
    ensures x.Valid() && x.p == |k.params|
  {
    hide MatchMatmul;
    x := RegsOf(k.params, MatchMatmul(k).value.0).value;
    RegsValid(k.params, MatchMatmul(k).value.0);
  }
}
