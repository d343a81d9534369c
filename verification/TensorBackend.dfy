/** The tensor backend (`compile_tensor` of compiler/titan_compiler.py): a matmul as a loop nest over 16x16x16 tiles. */
module TensorBackend {
  import opened Isa
  import opened Kernel
  import opened Codegen
  import opened Assembler
  import opened TensorMatch
  import opened Options

  const TILE := 16

  /** Where the kernel's symbols and the loop nest's own values live; p is the number of parameters. */
  datatype Regs = Regs(p: nat, a: nat, b: nat, c: nat, m: nat, n: nat, k: nat) {
    function I0(): nat { 2 + p }
    function J0(): nat { 3 + p }
    function K0(): nat { 4 + p }
    function T0(): nat { 5 + p }
    function T1(): nat { 6 + p }
    function Ap(): nat { 7 + p }
    function Bp(): nat { 8 + p }
    function Cp(): nat { 9 + p }

    predicate Param(q: nat) {
      2 <= q < 2 + p
    }

    /** Symbols are in parameter registers, and everything fits the pool. */
    predicate Valid() {
      && 10 + p <= POOL_HI
      && Param(a) && Param(b) && Param(c) && Param(m) && Param(n) && Param(k)
    }
  }

  /** The register of a parameter: parameters occupy r2, r3, ... in order. */
  function ParamReg(params: seq<string>, name: string): (r: nat)
    requires name in params
    ensures 2 <= r < 2 + |params| && params[r - 2] == name
    decreases |params|
  {
    var last := |params| - 1;
    if params[last] == name then 2 + last
    else
      assert name in params[..last];
      ParamReg(params[..last], name)
  }

  function RegsOf(params: seq<string>, mm: Matmul): Option<Regs> {
    if {mm.A, mm.B, mm.C, mm.M, mm.N, mm.K} <= Names(params) && 10 + |params| <= POOL_HI then
      Some(Regs(|params|, ParamReg(params, mm.A), ParamReg(params, mm.B), ParamReg(params, mm.C),
                ParamReg(params, mm.M), ParamReg(params, mm.N), ParamReg(params, mm.K)))
    else None
  }

  function Loads(n: nat): (code: seq<Instr>)
    ensures |code| == n
  {
    seq(n, idx requires 0 <= idx < n => IForm(OP_LOAD, 2 + idx, R_PARAM, 4 * idx, 0))
  }

  /** WMMA element strides: lda = K, ldb = N, ldc = N. */
  function Strides(g: Regs): seq<Instr> {
    [IForm(OP_ADD, R_LDA, g.k, 0, 0), IForm(OP_ADD, R_LDB, g.n, 0, 0), IForm(OP_ADD, R_LDC, g.n, 0, 0)]
  }

  function Zero(rd: nat): seq<Instr> {
    [IForm(OP_ADD, rd, R_ZERO, 0, 0)]
  }

  /** cp = C + 4 * (i0 * N + j0) */
  function TileC(g: Regs): seq<Instr> {
    [RForm(OP_MUL, g.T0(), g.I0(), g.n, 0, 0), RForm(OP_ADD, g.T0(), g.T0(), g.J0(), 0, 0),
     IForm(OP_SHL, g.T0(), g.T0(), 2, 0), RForm(OP_ADD, g.Cp(), g.c, g.T0(), 0, 0)]
  }

  /** d = base + u * v + w, through the temporary t. */
  function Address(t: nat, d: nat, base: nat, u: nat, v: nat, w: nat): (code: seq<Instr>)
    ensures |code| == 3
  {
    [RForm(OP_MUL, t, u, v, 0, 0), RForm(OP_ADD, t, t, w, 0, 0), RForm(OP_ADD, d, base, t, 0, 0)]
  }

  /** ap = A + i0 * K + k0 and bp = B + k0 * N + j0 */
  function TileAB(g: Regs): seq<Instr> {
    Address(g.T0(), g.Ap(), g.a, g.I0(), g.k, g.K0()) + Address(g.T1(), g.Bp(), g.b, g.K0(), g.n, g.J0())
  }

  function WmmaCode(g: Regs, flags: nat): seq<Instr> {
    [RForm(OP_WMMA, g.Cp(), g.Ap(), g.Bp(), flags, 0)]
  }

  // instruction indices of the labels
  function TopI(g: Regs): nat { g.p + 4 }
  function TopJ(g: Regs): nat { g.p + 7 }
  function TopK(g: Regs): nat { g.p + 14 }
  function EndK(g: Regs): nat { g.p + 25 }
  function EndJ(g: Regs): nat { g.p + 27 }
  function EndI(g: Regs): nat { g.p + 29 }

  function TensorCode(g: Regs, flags: nat): seq<Instr> {
    Loads(g.p) + Strides(g)
    + Zero(g.I0()) + LoopTest(g.I0(), g.m, EndI(g))
    + Zero(g.J0()) + LoopTest(g.J0(), g.n, EndJ(g))
    + TileC(g)
    + Zero(g.K0()) + LoopTest(g.K0(), g.k, EndK(g))
    + TileAB(g) + WmmaCode(g, flags)
    + LoopBack(g.K0(), TILE, TopK(g))
    + LoopBack(g.J0(), TILE, TopJ(g))
    + LoopBack(g.I0(), TILE, TopI(g))
    + [EXIT]
  }

  /** The tensor program of a kernel; None when the compiler raises an exception. */
  function CompileTensor(k: Kernel, fp8: bool): Option<seq<Instr>> {
    var mm :- MatchMatmul(k);
    var g :- RegsOf(k.params, mm.0);
    Some(TensorCode(g, if fp8 then 1 else 0))
  }

  lemma JoinEncodable(a: seq<Instr>, b: seq<Instr>)
    requires AllEncodable(a) && AllEncodable(b)
    ensures AllEncodable(a + b)
  {}

  lemma PartsEncodable(g: Regs, flags: nat)
    requires g.Valid() && flags < 2
    ensures AllEncodable(Loads(g.p)) && AllEncodable(Strides(g)) && AllEncodable(TileC(g))
    ensures AllEncodable(TileAB(g)) && AllEncodable(WmmaCode(g, flags)) && AllEncodable([EXIT])
  {}

  lemma LoopEncodable(ivar: nat, bound: nat, top: nat, end: nat)
    requires ivar < 64 && bound < 64 && top <= IMM_MAX && end <= IMM_MAX
    ensures AllEncodable(Zero(ivar)) && AllEncodable(LoopTest(ivar, bound, end)) && AllEncodable(LoopBack(ivar, TILE, top))
  {}

  lemma TensorEncodable(g: Regs, flags: nat)
    requires g.Valid() && flags < 2
    ensures AllEncodable(TensorCode(g, flags))
  {
    hide AllEncodable, Loads, Strides, Zero, TileC, TileAB, WmmaCode, LoopTest, LoopBack;
    PartsEncodable(g, flags);
    LoopEncodable(g.I0(), g.m, TopI(g), EndI(g));
    LoopEncodable(g.J0(), g.n, TopJ(g), EndJ(g));
    LoopEncodable(g.K0(), g.k, TopK(g), EndK(g));
    var c1 := Loads(g.p) + Strides(g);
    JoinEncodable(Loads(g.p), Strides(g));
    var c2 := c1 + Zero(g.I0()) + LoopTest(g.I0(), g.m, EndI(g));
    JoinEncodable(c1, Zero(g.I0()));
    JoinEncodable(c1 + Zero(g.I0()), LoopTest(g.I0(), g.m, EndI(g)));
    var c3 := c2 + Zero(g.J0()) + LoopTest(g.J0(), g.n, EndJ(g));
    JoinEncodable(c2, Zero(g.J0()));
    JoinEncodable(c2 + Zero(g.J0()), LoopTest(g.J0(), g.n, EndJ(g)));
    var c4 := c3 + TileC(g) + Zero(g.K0()) + LoopTest(g.K0(), g.k, EndK(g));
    JoinEncodable(c3, TileC(g));
    JoinEncodable(c3 + TileC(g), Zero(g.K0()));
    JoinEncodable(c3 + TileC(g) + Zero(g.K0()), LoopTest(g.K0(), g.k, EndK(g)));
    var c5 := c4 + TileAB(g) + WmmaCode(g, flags);
    JoinEncodable(c4, TileAB(g));
    JoinEncodable(c4 + TileAB(g), WmmaCode(g, flags));
    var c6 := c5 + LoopBack(g.K0(), TILE, TopK(g)) + LoopBack(g.J0(), TILE, TopJ(g));
    JoinEncodable(c5, LoopBack(g.K0(), TILE, TopK(g)));
    JoinEncodable(c5 + LoopBack(g.K0(), TILE, TopK(g)), LoopBack(g.J0(), TILE, TopJ(g)));
    JoinEncodable(c6, LoopBack(g.I0(), TILE, TopI(g)));
    JoinEncodable(c6 + LoopBack(g.I0(), TILE, TopI(g)), [EXIT]);
  }

  lemma RegsValid(params: seq<string>, mm: Matmul)
    requires RegsOf(params, mm).Some?
    ensures RegsOf(params, mm).value.Valid()
  {}
}
