/**
 The tensor program on the GPU model: since it stores into C only, it keeps its own code
 whenever the code lies apart from C, and it takes a known number of instructions. So a
 thread multiplies the matrices exactly when that number is within the watchdog's limit.
 */
module TensorThread {
  import opened Bits
  import opened Isa
  import opened Memory
  import opened Machine
  import opened Kernel
  import opened Codegen
  import opened Agreement
  import opened GpuThread
  import opened TensorMatch
  import opened TensorBackend
  import opened TensorTiles
  import opened TensorProof
  import opened Options
  import CodeIntact
  import Preservation

  predicate AllReadShared(code: seq<Instr>) {
    forall k :: 0 <= k < |code| ==> ReadsShared(code[k])
  }

  lemma JoinReadShared(a: seq<Instr>, b: seq<Instr>)
    requires AllReadShared(a) && AllReadShared(b)
    ensures AllReadShared(a + b)
  {}

  lemma PartsReadShared(x: Regs)
    requires x.Valid()
    ensures AllReadShared(Loads(x.p)) && AllReadShared(Strides(x)) && AllReadShared(TileC(x))
    ensures AllReadShared(TileAB(x)) && AllReadShared(WmmaCode(x, 0)) && AllReadShared([EXIT])
  {}

  lemma LoopReadShared(ivar: nat, bound: nat, top: nat, end: nat)
    requires ivar < POOL_HI && bound < POOL_HI
    ensures AllReadShared(Zero(ivar)) && AllReadShared(LoopTest(ivar, bound, end)) && AllReadShared(LoopBack(ivar, TILE, top))
  {}

  /** The tensor program never reads the launch registers r61 and r62. */
  lemma TensorReadsShared(x: Regs)
    requires x.Valid()
    ensures AllReadShared(TensorCode(x, 0))
  {
    hide AllReadShared, Loads, Strides, Zero, TileC, TileAB, WmmaCode, LoopTest, LoopBack;
    PartsReadShared(x);
    LoopReadShared(x.I0(), x.m, TopI(x), EndI(x));
    LoopReadShared(x.J0(), x.n, TopJ(x), EndJ(x));
    LoopReadShared(x.K0(), x.k, TopK(x), EndK(x));
    var c1 := Loads(x.p) + Strides(x);
    JoinReadShared(Loads(x.p), Strides(x));
    var c2 := c1 + Zero(x.I0()) + LoopTest(x.I0(), x.m, EndI(x));
    JoinThree(c1, Zero(x.I0()), LoopTest(x.I0(), x.m, EndI(x)));
    var c3 := c2 + Zero(x.J0()) + LoopTest(x.J0(), x.n, EndJ(x));
    JoinThree(c2, Zero(x.J0()), LoopTest(x.J0(), x.n, EndJ(x)));
    var c4 := c3 + TileC(x) + Zero(x.K0()) + LoopTest(x.K0(), x.k, EndK(x));
    JoinThree(c3, TileC(x), Zero(x.K0()));
    JoinReadShared(c3 + TileC(x) + Zero(x.K0()), LoopTest(x.K0(), x.k, EndK(x)));
    var c5 := c4 + TileAB(x) + WmmaCode(x, 0);
    JoinThree(c4, TileAB(x), WmmaCode(x, 0));
    var c6 := c5 + LoopBack(x.K0(), TILE, TopK(x)) + LoopBack(x.J0(), TILE, TopJ(x));
    JoinThree(c5, LoopBack(x.K0(), TILE, TopK(x)), LoopBack(x.J0(), TILE, TopJ(x)));
    JoinThree(c6, LoopBack(x.I0(), TILE, TopI(x)), [EXIT]);
  }

  lemma JoinThree(a: seq<Instr>, b: seq<Instr>, c: seq<Instr>)
    requires AllReadShared(a) && AllReadShared(b) && AllReadShared(c)
    ensures AllReadShared(a + b + c)
  {
    hide AllReadShared;
    JoinReadShared(a, b);
    JoinReadShared(a + b, c);
  }

  lemma WordsReadShared(words: seq<u32>, code: seq<Instr>)
    requires |words| == |code| && Disassemble(words) == code && AllReadShared(code)
    ensures forall i :: 0 <= i < |words| ==> ReadsShared(Decode(words[i]))
  {
    hide Decode, ReadsShared;
    forall i | 0 <= i < |words|
      ensures ReadsShared(Decode(words[i]))
    {
      assert Disassemble(words)[i] == Decode(words[i]);
    }
  }

  /** The dimensions and addresses that the parameter block describes are ones that the program handles. */
  predicate Suitable(x: Regs, mem: Bytes, paramAddr: u32)
    requires x.Valid() && InBounds(mem, paramAddr, 4 * x.p)
  {
    var g := Problem(x, mem, paramAddr);
    g.Fits(|mem|) && g.m < TWO31 && g.n < TWO31 && g.k < TWO31
  }

  function Steps(x: Regs, g: Gemm): nat {
    TensorSteps(x.p, g.m / 16, g.n / 16, g.k / 16)
  }

  /**
   A thread that runs the tensor program from VRAM, with the code apart from C: it retires
   and leaves the matrix product in C if and only if the program's length
   p + 7 + m/16 * (7 + n/16 * (11 + 11 * k/16)) is within the watchdog's limit; otherwise
   it ends with an error.
   */
  lemma TensorOnGpu(h: HostMath, k: Kernel, x: Regs, words: seq<u32>, codeAddr: u32, mem: Bytes, paramAddr: u32, tid: u32, nthreads: u32)
      returns (mem': Bytes)
    requires MatchMatmul(k).Some? && RegsOf(k.params, MatchMatmul(k).value.0) == Some(x) && x.Valid() && x.p == |k.params|
    requires CompileTensor(k, false).Some? && |words| == |CompileTensor(k, false).value| && Disassemble(words) == CompileTensor(k, false).value
    requires |mem| < TWO32 && CodeInMemory(mem, codeAddr, words) && InBounds(mem, paramAddr, 4 * |k.params|)
    requires Suitable(x, mem, paramAddr) && Apart(Region(codeAddr, mem[codeAddr..codeAddr + 4 * |words|]), Problem(x, mem, paramAddr))
    ensures Multiplied(Problem(x, mem, paramAddr), mem, mem')
    ensures var e := RunThread(h, codeAddr, StartThread(paramAddr, tid, nthreads), Device(mem, false), MAX_STEPS);
      if Steps(x, Problem(x, mem, paramAddr)) <= MAX_STEPS then e == ThreadEnd(true, Device(mem', false))
      else !e.ok && e.d.error
  {
    hide *;
    var code, keep, s := CompileTensor(k, false).value, CodeIntact.CodeRegion(mem, codeAddr, words), Boot(mem, paramAddr);
    RegionIs(mem, codeAddr, words);
    SuitableParts(x, mem, paramAddr);
    var steps;
    mem', steps := TensorKeeps(k, keep, x, mem, paramAddr);
    EndsAt(code, keep, s, mem', steps);
    CompiledTensor(k, x);
    TensorReadsShared(x);
    WordsReadShared(words, code);
    CodeIntact.ThreadOutcome(h, words, codeAddr, mem, paramAddr, tid, nthreads, MAX_STEPS, mem');
    StepsAre(x, Problem(x, mem, paramAddr));
    if steps <= MAX_STEPS {
      StoppedStays(code, s, steps, MAX_STEPS);
    } else {
      StillRunning(code, s, steps - 1, MAX_STEPS);
    }
  }

  lemma RegionIs(mem: Bytes, codeAddr: u32, words: seq<u32>)
    requires CodeInMemory(mem, codeAddr, words)
    ensures codeAddr + 4 * |words| <= |mem|
    ensures CodeIntact.CodeRegion(mem, codeAddr, words) == Region(codeAddr, mem[codeAddr..codeAddr + 4 * |words|])
  {}

  lemma SuitableParts(x: Regs, mem: Bytes, paramAddr: u32)
    requires x.Valid() && InBounds(mem, paramAddr, 4 * x.p) && Suitable(x, mem, paramAddr)
    ensures var g := Problem(x, mem, paramAddr); g.Fits(|mem|) && g.m < TWO31 && g.n < TWO31 && g.k < TWO31
  {}

  lemma StepsAre(x: Regs, g: Gemm)
    ensures Steps(x, g) == TensorSteps(x.p, g.m / 16, g.n / 16, g.k / 16)
  {}

  lemma EndsAt(code: seq<Instr>, keep: Region, s: State, mem: Bytes, n: nat)
    requires Program(code) && s.Valid() && RunN(code, s, n) == Exited(mem) && Preservation.KeepsFor(code, keep, s, n)
    ensures Preservation.Ends(code, keep, s, mem)
  {}

  lemma StillRunning(code: seq<Instr>, s: State, n: nat, m: nat)
    requires Program(code) && s.Valid() && m <= n && RunN(code, s, n).Running?
    ensures RunN(code, s, m).Running?
  {
    if !RunN(code, s, m).Running? {
      StoppedStays(code, s, m, n);
    }
  }
}
