/**
 The tensor program computes the matrix product: started on the machine with the kernel's
 parameter block, the tile loops reach EXIT having added A * B to C, element by element
 modulo 2^32, and having changed nothing else.
 */
module TensorProof {
  import opened Bits
  import opened Isa
  import opened Memory
  import opened Machine
  import opened Kernel
  import opened Codegen
  import opened ExprPreservation
  import opened Preservation
  import opened TensorMatch
  import opened TensorBackend
  import opened TensorTiles
  import opened Options

  /** The registers the loop nest relies on hold the problem's addresses, dimensions and strides. */
  predicate Setup(s: State, x: Regs, g: Gemm) {
    && Live(s) && x.Valid()
    && s.r[x.a] == g.a && s.r[x.b] == g.b && s.r[x.c] == g.c
    && s.r[x.m] == g.m && s.r[x.n] == g.n && s.r[x.k] == g.k
    && s.r[R_LDA] == g.k && s.r[R_LDB] == g.n && s.r[R_LDC] == g.n
    && g.m < TWO31 && g.n < TWO31 && g.k < TWO31
  }

  /** Registers up to `last` and the stride registers are untouched. */
  predicate KeptBelow(r: seq<u32>, r': seq<u32>, last: nat) {
    |r| == 64 && |r'| == 64 && forall q :: 0 <= q < 64 && (q <= last || q >= POOL_HI) ==> r'[q] == r[q]
  }

  lemma SetupKept(s: State, t: State, x: Regs, g: Gemm, last: nat)
    requires Setup(s, x, g) && Live(t) && KeptBelow(s.r, t.r, last) && last >= x.p + 1
    ensures Setup(t, x, g)
  {}

  lemma KeptTrans(r0: seq<u32>, r1: seq<u32>, r2: seq<u32>, last: nat)
    requires KeptBelow(r0, r1, last) && KeptBelow(r1, r2, last)
    ensures KeptBelow(r0, r2, last)
  {}

  /** The parts of the program are where the labels say. */
  predicate Placed(code: seq<Instr>, x: Regs) {
    && Program(code) && x.Valid()
    && CodeAt(code, TopI(x) - 1, Zero(x.I0())) && CodeAt(code, TopI(x), LoopTest(x.I0(), x.m, EndI(x)))
    && CodeAt(code, TopJ(x) - 1, Zero(x.J0())) && CodeAt(code, TopJ(x), LoopTest(x.J0(), x.n, EndJ(x)))
    && CodeAt(code, TopJ(x) + 2, TileC(x))
    && CodeAt(code, TopK(x) - 1, Zero(x.K0())) && CodeAt(code, TopK(x), LoopTest(x.K0(), x.k, EndK(x)))
    && CodeAt(code, TopK(x) + 2, TileAB(x))
    && CodeAt(code, TopK(x) + 8, WmmaCode(x, 0))
    && CodeAt(code, EndK(x) - 2, LoopBack(x.K0(), TILE, TopK(x)))
    && CodeAt(code, EndJ(x) - 2, LoopBack(x.J0(), TILE, TopJ(x)))
    && CodeAt(code, EndI(x) - 2, LoopBack(x.I0(), TILE, TopI(x)))
    && CodeAt(code, EndI(x), [EXIT])
  }

  // --- straight-line parts ---

  lemma AluTakes(code: seq<Instr>, keep: Region, s: State, t: State, i: Instr, n: nat)
    requires Program(code) && s.Valid() && Live(t) && Takes(code, keep, s, t, n)
    requires i.Encodable() && CodeAt(code, t.pc, [i]) && IsAlu(i.op) && i.pred == 0 && 0 < i.rd
    ensures var u := t.Set(i.rd, Alu(i.op, t.r[i.rs1], OperandB(i, t.r))); Live(u) && Takes(code, keep, s, u, n + 1)
  {
    var u := t.Set(i.rd, Alu(i.op, t.r[i.rs1], OperandB(i, t.r)));
    hide Alu, Execute;
    AluStep(code, t, i);
    TakesStep(code, keep, t, i, u);
    TakesTrans(code, keep, s, n, t, 1, u);
  }

  lemma ZeroCorrect(code: seq<Instr>, keep: Region, s: State, rd: nat) returns (t: State)
    requires Program(code) && Live(s) && 0 < rd < 64 && CodeAt(code, s.pc, Zero(rd)) && keep.Holds(s.mem)
    ensures t == s.Set(rd, 0) && Live(t) && Takes(code, keep, s, t, 1)
  {
    hide Alu, RunN, Execute;
    SmallConstants(0);
    TakesRefl(code, keep, s);
    AluTakes(code, keep, s, s, Zero(rd)[0], 0);
    t := s.Set(rd, 0);
  }

  lemma MulSmall(a: u32, b: u32)
    requires a < TWO31 && b < TWO31 && a * b < TWO32
    ensures Alu(OP_MUL, a, b) == a * b
  {
    var product := a * b;
    assert Signed(a) == a && Signed(b) == b;
  }

  lemma AddSmall(a: u32, b: u32)
    requires a + b < TWO32
    ensures Alu(OP_ADD, a, b) == a + b
  {}

  /** Offsets and addresses of a tile do not wrap. */
  lemma TileBounds(g: Gemm, size: nat, i0: nat, j0: nat)
    requires g.Fits(size) && size <= TWO32 && i0 < g.m && j0 < g.n
    ensures 0 <= i0 * g.n && 4 * (i0 * g.n + j0) < TWO32 && g.Cell(i0, j0) < TWO32
  {
    IndexBound(i0, j0, g.m, g.n);
  }

  lemma OperandBounds(g: Gemm, size: nat, i0: nat, j0: nat, k0: nat)
    requires g.Fits(size) && size <= TWO32 && i0 < g.m && j0 < g.n && k0 < g.k
    ensures 0 <= i0 * g.k && i0 * g.k + k0 < TWO32 && g.AddrA(i0, k0) < TWO32
    ensures 0 <= k0 * g.n && k0 * g.n + j0 < TWO32 && g.AddrB(k0, j0) < TWO32
  {
    AddrABound(g, i0, k0);
    AddrBBound(g, k0, j0);
    ProductFits(i0, g.k);
    ProductFits(k0, g.n);
  }

  lemma ProductFits(x: nat, y: nat)
    ensures x * y >= 0
  {}

  /** The address computations: from s, straight to t. */
  predicate Straight(s: State, t: State, len: nat) {
    Live(t) && t.pc == s.pc + len && t.p == s.p && t.mem == s.mem
  }

  lemma TileCCorrect(code: seq<Instr>, keep: Region, s: State, x: Regs, g: Gemm, i0: nat, j0: nat) returns (t: State)
    requires Program(code) && Setup(s, x, g) && g.Fits(|s.mem|) && i0 < g.m && j0 < g.n && keep.Holds(s.mem)
    requires CodeAt(code, s.pc, TileC(x)) && s.r[x.I0()] == i0 && s.r[x.J0()] == j0
    ensures Straight(s, t, 4) && Takes(code, keep, s, t, 4) && KeptBelow(s.r, t.r, x.K0())
    ensures t.r[x.Cp()] == g.Cell(i0, j0)
  {
    hide Alu, RunN, Execute, Gemm.Fits;
    var part := TileC(x);
    assert forall q :: 0 <= q < 4 ==> CodeAt(code, s.pc + q, [part[q]]);
    TileBounds(g, |s.mem|, i0, j0);
    TakesRefl(code, keep, s);
    var v1: u32 := i0 * g.n;
    MulSmall(i0, g.n);
    AluTakes(code, keep, s, s, part[0], 0);
    var s1 := s.Set(x.T0(), v1);
    var v2: u32 := v1 as int + j0;
    AddSmall(v1, j0);
    AluTakes(code, keep, s, s1, part[1], 1);
    var s2 := s1.Set(x.T0(), v2);
    ShiftByTwo(v2);
    WrapSmall(v2);
    AluTakes(code, keep, s, s2, part[2], 2);
    var v3: u32 := 4 * v2 as int;
    var s3 := s2.Set(x.T0(), v3);
    AddSmall(g.c, v3);
    AluTakes(code, keep, s, s3, part[3], 3);
    t := s3.Set(x.Cp(), g.Cell(i0, j0));
  }

  lemma AddressCorrect(code: seq<Instr>, keep: Region, s: State, t: nat, d: nat, base: nat, u: nat, v: nat, w: nat) returns (s': State)
    requires Program(code) && Live(s) && CodeAt(code, s.pc, Address(t, d, base, u, v, w)) && keep.Holds(s.mem)
    requires 0 < t < POOL_HI && 0 < d < POOL_HI && t != d && t != base && t != w && base < 64 && u < 64 && v < 64 && w < 64
    requires s.r[u] < TWO31 && s.r[v] < TWO31
    requires var product: int := s.r[u] as int * s.r[v] as int;
      product >= 0 && s.r[base] as int + product + s.r[w] as int < TWO32
    ensures Live(s') && Takes(code, keep, s, s', 3) && s'.pc == s.pc + 3 && s'.p == s.p && s'.mem == s.mem
    ensures s'.r[d] == s.r[base] as int + s.r[u] as int * s.r[v] as int + s.r[w] as int
    ensures forall q :: 0 <= q < 64 && q != t && q != d ==> s'.r[q] == s.r[q]
  {
    hide Alu, RunN, Execute;
    var part := Address(t, d, base, u, v, w);
    assert forall q :: 0 <= q < 3 ==> CodeAt(code, s.pc + q, [part[q]]);
    TakesRefl(code, keep, s);
    var product: u32 := s.r[u] as int * s.r[v] as int;
    MulSmall(s.r[u], s.r[v]);
    AluTakes(code, keep, s, s, part[0], 0);
    var s1 := s.Set(t, product);
    AddSmall(product, s.r[w]);
    AluTakes(code, keep, s, s1, part[1], 1);
    var offset: u32 := product as int + s.r[w] as int;
    var s2 := s1.Set(t, offset);
    AddSmall(s.r[base], offset);
    AluTakes(code, keep, s, s2, part[2], 2);
    s' := s2.Set(d, s.r[base] as int + offset as int);
  }

  lemma TileABCorrect(code: seq<Instr>, keep: Region, s: State, x: Regs, g: Gemm, i0: nat, j0: nat, k0: nat) returns (t: State)
    requires Program(code) && Setup(s, x, g) && g.Fits(|s.mem|) && i0 < g.m && j0 < g.n && k0 < g.k && keep.Holds(s.mem)
    requires CodeAt(code, s.pc, TileAB(x)) && s.r[x.I0()] == i0 && s.r[x.J0()] == j0 && s.r[x.K0()] == k0
    ensures Straight(s, t, 6) && Takes(code, keep, s, t, 6) && KeptBelow(s.r, t.r, x.K0())
    ensures t.r[x.Cp()] == s.r[x.Cp()] && t.r[x.Ap()] == g.AddrA(i0, k0) && t.r[x.Bp()] == g.AddrB(k0, j0)
  {
    hide Alu, RunN, Execute, Gemm.Fits, CodeAt, Address;
    CodeAtSplit(code, s.pc, Address(x.T0(), x.Ap(), x.a, x.I0(), x.k, x.K0()), Address(x.T1(), x.Bp(), x.b, x.K0(), x.n, x.J0()));
    OperandBounds(g, |s.mem|, i0, j0, k0);
    var t1 := AddressCorrect(code, keep, s, x.T0(), x.Ap(), x.a, x.I0(), x.k, x.K0());
    t := AddressCorrect(code, keep, t1, x.T1(), x.Bp(), x.b, x.K0(), x.n, x.J0());
    TakesTrans(code, keep, s, 3, t1, 3, t);
  }

  // --- the loop nest ---

  /** The region has no byte of C. */
  predicate Apart(keep: Region, g: Gemm) {
    keep.lo + |keep.bytes| <= g.c || g.c + 4 * (g.m * g.n) <= keep.lo
  }

  lemma ApartHolds(keep: Region, g: Gemm, mem0: Bytes, mem: Bytes, p: Position)
    requires g.Fits(|mem0|) && Inside(g, p) && Progress(g, mem0, mem, p) && keep.Holds(mem0) && Apart(keep, g)
    ensures keep.Holds(mem)
  {
    hide CellHolds, Gemm.Fits;
    forall k | keep.lo <= k < keep.lo + |keep.bytes|
      ensures mem[k] == mem0[k]
    {
      assert !g.InC(k);
    }
  }

  /** Everything about a state in the nest except where control is. */
  ghost predicate InNest(s: State, keep: Region, x: Regs, g: Gemm, mem0: Bytes, p: Position)
  {
    && Setup(s, x, g) && |mem0| <= TWO32 && g.Fits(|mem0|) && Inside(g, p) && Progress(g, mem0, s.mem, p)
    && keep.Holds(mem0) && keep.Holds(s.mem) && Apart(keep, g)
  }

  // --- how long the nest runs ---

  function KSteps(k0: nat, k: nat): nat
    decreases if k0 < k then k - k0 else 0
  {
    if k0 >= k then 2 else 11 + KSteps(k0 + 16, k)
  }

  function JSteps(j0: nat, n: nat, k: nat): nat
    decreases if j0 < n then n - j0 else 0
  {
    if j0 >= n then 2 else 9 + KSteps(0, k) + JSteps(j0 + 16, n, k)
  }

  function ISteps(i0: nat, m: nat, n: nat, k: nat): nat
    decreases if i0 < m then m - i0 else 0
  {
    if i0 >= m then 2 else 5 + JSteps(0, n, k) + ISteps(i0 + 16, m, n, k)
  }

  /** Instructions from start to EXIT, by the number of tiles in each dimension. */
  function TensorSteps(p: nat, m: nat, n: nat, k: nat): nat {
    p + 7 + m * (7 + n * (11 + 11 * k))
  }

  lemma {:induction false} KStepsClosed(k0: nat, tiles: nat)
    ensures KSteps(k0, k0 + 16 * tiles) == 2 + 11 * tiles
    decreases tiles
  {
    if tiles > 0 {
      KStepsClosed(k0 + 16, tiles - 1);
    }
  }

  lemma OneMore(n: nat, c: nat)
    requires n > 0
    ensures n * c == c + (n - 1) * c
  {}

  lemma {:induction false} JStepsClosed(j0: nat, tiles: nat, k: nat)
    ensures JSteps(j0, j0 + 16 * tiles, 16 * k) == 2 + tiles * (11 + 11 * k)
    decreases tiles
  {
    if tiles > 0 {
      JStepsClosed(j0 + 16, tiles - 1, k);
      KStepsClosed(0, k);
      OneMore(tiles, 11 + 11 * k);
    }
  }

  lemma {:induction false} IStepsClosed(i0: nat, tiles: nat, n: nat, k: nat)
    ensures ISteps(i0, i0 + 16 * tiles, 16 * n, 16 * k) == 2 + tiles * (7 + n * (11 + 11 * k))
    decreases tiles
  {
    if tiles > 0 {
      IStepsClosed(i0 + 16, tiles - 1, n, k);
      JStepsClosed(0, n, k);
      OneMore(tiles, 7 + n * (11 + 11 * k));
    }
  }

  /** The WMMA instruction at a tile: sixteen more products for each of its cells. */
  lemma WmmaCorrect(code: seq<Instr>, keep: Region, s: State, x: Regs, g: Gemm, mem0: Bytes, i0: nat, j0: nat, k0: nat) returns (t: State)
    requires Program(code) && InNest(s, keep, x, g, mem0, Position(i0, j0, k0, 0)) && AtTile(g, Position(i0, j0, k0, 0))
    requires CodeAt(code, s.pc, WmmaCode(x, 0))
    requires s.r[x.Cp()] == g.Cell(i0, j0) && s.r[x.Ap()] == g.AddrA(i0, k0) && s.r[x.Bp()] == g.AddrB(k0, j0)
    ensures Live(t) && Takes(code, keep, s, t, 1) && t.pc == s.pc + 1 && t.r == s.r
    ensures k0 + 16 <= g.k && InNest(t, keep, x, g, mem0, Position(i0, j0, k0 + 16, 0))
  {
    hide Wmma, Progress, Gemm.Fits, Gemm.Cell, Gemm.AddrA, Gemm.AddrB;
    var p := Position(i0, j0, k0, 0);
    var i := WmmaCode(x, 0)[0];
    TileInside(g, |mem0|, p, 0, 0);
    WmmaProgress(g, mem0, s.mem, p, 256);
    assert WmmaTile(i, s.r) == TileAt(g, p);
    t := s.(pc := s.pc + 1, mem := Wmma(s.mem, TileAt(g, p), 256).value);
    SizeKept(g, mem0, t.mem, p.(done := 256));
    ApartHolds(keep, g, mem0, t.mem, p.(done := 256));
    TakesStep(code, keep, s, i, t);
    NextK(g, mem0, t.mem, i0, j0, k0);
  }

  lemma SizeKept(g: Gemm, mem0: Bytes, mem: Bytes, p: Position)
    requires g.Fits(|mem0|) && Inside(g, p) && Progress(g, mem0, mem, p)
    ensures |mem| == |mem0|
  {}

  lemma NestKept(s: State, t: State, keep: Region, x: Regs, g: Gemm, mem0: Bytes, p: Position, last: nat)
    requires InNest(s, keep, x, g, mem0, p) && Live(t) && t.mem == s.mem && KeptBelow(s.r, t.r, last) && last >= x.p + 1
    ensures InNest(t, keep, x, g, mem0, p)
  {
    hide Progress, Gemm.Fits;
    SetupKept(s, t, x, g, last);
  }

  lemma KeptOne(r: seq<u32>, q: nat, v: u32, last: nat)
    requires |r| == 64 && last < q < POOL_HI
    ensures KeptBelow(r, r[q := v], last)
  {}

  lemma KeptLess(r: seq<u32>, r': seq<u32>, last: nat, less: nat)
    requires KeptBelow(r, r', last) && less <= last
    ensures KeptBelow(r, r', less)
  {}

  /** One pass through the body of the innermost loop. */
  lemma KStep(code: seq<Instr>, keep: Region, s: State, x: Regs, g: Gemm, mem0: Bytes, i0: nat, j0: nat, k0: nat) returns (t: State)
    requires Placed(code, x) && InNest(s, keep, x, g, mem0, Position(i0, j0, k0, 0)) && AtTile(g, Position(i0, j0, k0, 0))
    requires s.pc == TopK(x) + 2
    requires s.r[x.I0()] == i0 && s.r[x.J0()] == j0 && s.r[x.K0()] == k0 && s.r[x.Cp()] == g.Cell(i0, j0)
    ensures Takes(code, keep, s, t, 9) && t.pc == TopK(x) && KeptBelow(s.r, t.r, x.J0())
    ensures k0 + 16 <= g.k && InNest(t, keep, x, g, mem0, Position(i0, j0, k0 + 16, 0))
    ensures t.r[x.I0()] == i0 && t.r[x.J0()] == j0 && t.r[x.K0()] == k0 + 16 && t.r[x.Cp()] == g.Cell(i0, j0)
  {
    hide Wmma, Progress, Gemm.Fits, Gemm.Cell, Gemm.AddrA, Gemm.AddrB, Alu, RunN, Execute, CodeAt, KeptBelow;
    SizeKept(g, mem0, s.mem, Position(i0, j0, k0, 0));
    var t1 := TileABCorrect(code, keep, s, x, g, i0, j0, k0);
    NestKept(s, t1, keep, x, g, mem0, Position(i0, j0, k0, 0), x.K0());
    var t2 := WmmaCorrect(code, keep, t1, x, g, mem0, i0, j0, k0);
    KeptReads(s.r, t1.r, x);
    WrapSmall(k0);
    WrapSmall(k0 + 16);
    t := LoopBackCorrect(code, keep, t2, x.K0(), TILE, TopK(x), k0);
    KeptOne(t2.r, x.K0(), k0 + 16, x.J0());
    NestKept(t2, t, keep, x, g, mem0, Position(i0, j0, k0 + 16, 0), x.J0());
    TakesTrans(code, keep, s, 6, t1, 1, t2);
    TakesTrans(code, keep, s, 7, t2, 2, t);
    KeptLess(s.r, t1.r, x.K0(), x.J0());
    KeptTrans(s.r, t1.r, t.r, x.J0());
  }

  lemma KeptReads(r: seq<u32>, r': seq<u32>, x: Regs)
    requires x.Valid() && KeptBelow(r, r', x.K0())
    ensures r'[x.I0()] == r[x.I0()] && r'[x.J0()] == r[x.J0()] && r'[x.K0()] == r[x.K0()]
  {}

  lemma {:induction false} KLoop(code: seq<Instr>, keep: Region, s: State, x: Regs, g: Gemm, mem0: Bytes, i0: nat, j0: nat, k0: nat)
      returns (t: State)
    requires Placed(code, x) && k0 <= g.k && InNest(s, keep, x, g, mem0, Position(i0, j0, k0, 0))
    requires i0 < g.m && j0 < g.n && i0 % 16 == 0 && j0 % 16 == 0 && k0 % 16 == 0
    requires s.pc == TopK(x)
    requires s.r[x.I0()] == i0 && s.r[x.J0()] == j0 && s.r[x.K0()] == k0 && s.r[x.Cp()] == g.Cell(i0, j0)
    ensures Takes(code, keep, s, t, KSteps(k0, g.k)) && t.pc == EndK(x) && KeptBelow(s.r, t.r, x.J0())
    ensures InNest(t, keep, x, g, mem0, Position(i0, j0, g.k, 0))
    decreases g.k - k0
  {
    hide Progress, Gemm.Fits, Gemm.Cell, CodeAt, KeptBelow, RunN;
    WrapSmall(k0);
    WrapSmall(g.k);
    var t1 := LoopTestCorrect(code, keep, s, x.K0(), x.k, EndK(x), k0, g.k);
    KeptSame(s.r, x.J0());
    NestKept(s, t1, keep, x, g, mem0, Position(i0, j0, k0, 0), x.J0());
    if k0 >= g.k {
      t := t1;
    } else {
      var t2 := KStep(code, keep, t1, x, g, mem0, i0, j0, k0);
      t := KLoop(code, keep, t2, x, g, mem0, i0, j0, k0 + 16);
      TakesTrans(code, keep, s, 2, t1, 9, t2);
      TakesTrans(code, keep, s, 11, t2, KSteps(k0 + 16, g.k), t);
      KeptTrans(s.r, t2.r, t.r, x.J0());
    }
  }

  lemma KeptSame(r: seq<u32>, last: nat)
    requires |r| == 64
    ensures KeptBelow(r, r, last)
  {}

  /** One tile of C, from its address to the end of its sum. */
  lemma JStep(code: seq<Instr>, keep: Region, s: State, x: Regs, g: Gemm, mem0: Bytes, i0: nat, j0: nat) returns (t: State)
    requires Placed(code, x) && InNest(s, keep, x, g, mem0, Position(i0, j0, 0, 0))
    requires i0 < g.m && j0 < g.n && i0 % 16 == 0 && j0 % 16 == 0
    requires s.pc == TopJ(x) + 2 && s.r[x.I0()] == i0 && s.r[x.J0()] == j0
    ensures Takes(code, keep, s, t, 7 + KSteps(0, g.k)) && t.pc == TopJ(x) && KeptBelow(s.r, t.r, x.I0())
    ensures InNest(t, keep, x, g, mem0, Position(i0, j0 + 16, 0, 0))
    ensures t.r[x.I0()] == i0 && j0 + 16 < TWO32 && t.r[x.J0()] == j0 + 16
  {
    hide Progress, Gemm.Fits, Gemm.Cell, CodeAt, KeptBelow, RunN;
    SizeKept(g, mem0, s.mem, Position(i0, j0, 0, 0));
    var t1 := TileCCorrect(code, keep, s, x, g, i0, j0);
    NestKept(s, t1, keep, x, g, mem0, Position(i0, j0, 0, 0), x.K0());
    KeptReads(s.r, t1.r, x);
    var t2 := ZeroCorrect(code, keep, t1, x.K0());
    KeptOne(t1.r, x.K0(), 0, x.J0());
    NestKept(t1, t2, keep, x, g, mem0, Position(i0, j0, 0, 0), x.J0());
    var t3 := KLoop(code, keep, t2, x, g, mem0, i0, j0, 0);
    KeptReadsIJ(t2.r, t3.r, x);
    NextJ(g, mem0, t3.mem, i0, j0);
    WrapSmall(j0);
    WrapSmall(j0 + 16);
    t := LoopBackCorrect(code, keep, t3, x.J0(), TILE, TopJ(x), j0);
    KeptOne(t3.r, x.J0(), j0 + 16, x.I0());
    NestKept(t3, t, keep, x, g, mem0, Position(i0, j0 + 16, 0, 0), x.I0());
    TakesTrans(code, keep, s, 4, t1, 1, t2);
    TakesTrans(code, keep, s, 5, t2, KSteps(0, g.k), t3);
    TakesTrans(code, keep, s, 5 + KSteps(0, g.k), t3, 2, t);
    KeptLess(s.r, t1.r, x.K0(), x.I0());
    KeptLess(t1.r, t2.r, x.J0(), x.I0());
    KeptLess(t2.r, t3.r, x.J0(), x.I0());
    KeptTrans(s.r, t1.r, t2.r, x.I0());
    KeptTrans(s.r, t2.r, t3.r, x.I0());
    KeptTrans(s.r, t3.r, t.r, x.I0());
  }

  lemma NextTile(g: Gemm, size: nat, i0: nat, j0: nat)
    requires g.Fits(size)
    ensures i0 < g.m && i0 % 16 == 0 ==> i0 + 16 <= g.m
    ensures j0 < g.n && j0 % 16 == 0 ==> j0 + 16 <= g.n
  {}

  lemma KeptReadsIJ(r: seq<u32>, r': seq<u32>, x: Regs)
    requires x.Valid() && KeptBelow(r, r', x.J0())
    ensures r'[x.I0()] == r[x.I0()] && r'[x.J0()] == r[x.J0()]
  {}

  lemma KeptReadsI(r: seq<u32>, r': seq<u32>, x: Regs)
    requires x.Valid() && KeptBelow(r, r', x.I0())
    ensures r'[x.I0()] == r[x.I0()]
  {}

  lemma {:induction false} JLoop(code: seq<Instr>, keep: Region, s: State, x: Regs, g: Gemm, mem0: Bytes, i0: nat, j0: nat) returns (t: State)
    requires Placed(code, x) && j0 <= g.n && InNest(s, keep, x, g, mem0, Position(i0, j0, 0, 0))
    requires i0 < g.m && i0 % 16 == 0 && j0 % 16 == 0
    requires s.pc == TopJ(x) && s.r[x.I0()] == i0 && s.r[x.J0()] == j0
    ensures Takes(code, keep, s, t, JSteps(j0, g.n, g.k)) && t.pc == EndJ(x) && KeptBelow(s.r, t.r, x.I0())
    ensures InNest(t, keep, x, g, mem0, Position(i0, g.n, 0, 0))
    decreases g.n - j0
  {
    hide Progress, Gemm.Fits, Gemm.Cell, CodeAt, KeptBelow, RunN;
    NextTile(g, |mem0|, i0, j0);
    WrapSmall(j0);
    WrapSmall(g.n);
    var t1 := LoopTestCorrect(code, keep, s, x.J0(), x.n, EndJ(x), j0, g.n);
    KeptSame(s.r, x.I0());
    NestKept(s, t1, keep, x, g, mem0, Position(i0, j0, 0, 0), x.I0());
    if j0 >= g.n {
      t := t1;
    } else {
      var t2 := JStep(code, keep, t1, x, g, mem0, i0, j0);
      t := JLoop(code, keep, t2, x, g, mem0, i0, j0 + 16);
      TakesTrans(code, keep, s, 2, t1, 7 + KSteps(0, g.k), t2);
      TakesTrans(code, keep, s, 9 + KSteps(0, g.k), t2, JSteps(j0 + 16, g.n, g.k), t);
      KeptTrans(s.r, t2.r, t.r, x.I0());
    }
  }

  /** One row of tiles. */
  lemma IStep(code: seq<Instr>, keep: Region, s: State, x: Regs, g: Gemm, mem0: Bytes, i0: nat) returns (t: State)
    requires Placed(code, x) && InNest(s, keep, x, g, mem0, Position(i0, 0, 0, 0))
    requires i0 < g.m && i0 % 16 == 0
    requires s.pc == TopI(x) + 2 && s.r[x.I0()] == i0
    ensures Takes(code, keep, s, t, 3 + JSteps(0, g.n, g.k)) && t.pc == TopI(x)
    ensures InNest(t, keep, x, g, mem0, Position(i0 + 16, 0, 0, 0))
    ensures i0 + 16 < TWO32 && t.r[x.I0()] == i0 + 16
  {
    hide Progress, Gemm.Fits, Gemm.Cell, CodeAt, KeptBelow, RunN;
    var t1 := ZeroCorrect(code, keep, s, x.J0());
    KeptOne(s.r, x.J0(), 0, x.I0());
    NestKept(s, t1, keep, x, g, mem0, Position(i0, 0, 0, 0), x.I0());
    var t2 := JLoop(code, keep, t1, x, g, mem0, i0, 0);
    KeptReadsI(t1.r, t2.r, x);
    NextI(g, mem0, t2.mem, i0);
    WrapSmall(i0);
    WrapSmall(i0 + 16);
    t := LoopBackCorrect(code, keep, t2, x.I0(), TILE, TopI(x), i0);
    KeptOne(t2.r, x.I0(), i0 + 16, x.p + 1);
    NestKept(t2, t, keep, x, g, mem0, Position(i0 + 16, 0, 0, 0), x.p + 1);
    TakesTrans(code, keep, s, 1, t1, JSteps(0, g.n, g.k), t2);
    TakesTrans(code, keep, s, 1 + JSteps(0, g.n, g.k), t2, 2, t);
  }

  lemma {:induction false} ILoop(code: seq<Instr>, keep: Region, s: State, x: Regs, g: Gemm, mem0: Bytes, i0: nat) returns (t: State)
    requires Placed(code, x) && i0 <= g.m && InNest(s, keep, x, g, mem0, Position(i0, 0, 0, 0))
    requires i0 % 16 == 0
    requires s.pc == TopI(x) && s.r[x.I0()] == i0
    ensures Live(t) && Takes(code, keep, s, t, ISteps(i0, g.m, g.n, g.k)) && t.pc == EndI(x) && Multiplied(g, mem0, t.mem)
    decreases g.m - i0
  {
    hide Progress, Gemm.Fits, Gemm.Cell, CodeAt, KeptBelow, RunN, Multiplied;
    NextTile(g, |mem0|, i0, 0);
    WrapSmall(i0);
    WrapSmall(g.m);
    var t1 := LoopTestCorrect(code, keep, s, x.I0(), x.m, EndI(x), i0, g.m);
    KeptSame(s.r, x.I0());
    NestKept(s, t1, keep, x, g, mem0, Position(i0, 0, 0, 0), x.I0());
    if i0 >= g.m {
      t := t1;
      AllProgress(g, mem0, t.mem);
    } else {
      var t2 := IStep(code, keep, t1, x, g, mem0, i0);
      t := ILoop(code, keep, t2, x, g, mem0, i0 + 16);
      TakesTrans(code, keep, s, 2, t1, 3 + JSteps(0, g.n, g.k), t2);
      TakesTrans(code, keep, s, 5 + JSteps(0, g.n, g.k), t2, ISteps(i0 + 16, g.m, g.n, g.k), t);
    }
  }

  // --- prologue ---

  lemma {:induction false} LoadsCorrect(code: seq<Instr>, keep: Region, n: nat, mem: Bytes, paramAddr: u32) returns (t: State)
    requires Program(code) && |mem| <= TWO32 && InBounds(mem, paramAddr, 4 * n) && 2 + n <= POOL_HI && keep.Holds(mem)
    requires CodeAt(code, 0, Loads(n))
    ensures Live(t) && Takes(code, keep, Boot(mem, paramAddr), t, n) && t.pc == n && t.mem == mem
    ensures forall q :: 0 <= q < n ==> t.r[2 + q] == Rd32(mem, paramAddr as int + 4 * q)
    ensures t.r[R_PARAM] == paramAddr
  {
    hide RunN, Execute, Rd32;
    if n == 0 {
      BootLive(mem, paramAddr);
      t := Boot(mem, paramAddr);
      TakesRefl(code, keep, t);
    } else {
      var load := IForm(OP_LOAD, n + 1, R_PARAM, 4 * (n - 1), 0);
      assert Loads(n) == Loads(n - 1) + [load];
      CodeAtSplit(code, 0, Loads(n - 1), [load]);
      var t1 := LoadsCorrect(code, keep, n - 1, mem, paramAddr);
      t := ParamLoad(code, keep, t1, n + 1, 4 * (n - 1));
      TakesTrans(code, keep, Boot(mem, paramAddr), n - 1, t1, 1, t);
    }
  }

  lemma StridesCorrect(code: seq<Instr>, keep: Region, s: State, x: Regs) returns (t: State)
    requires Program(code) && Live(s) && x.Valid() && CodeAt(code, s.pc, Strides(x)) && keep.Holds(s.mem)
    ensures Live(t) && Takes(code, keep, s, t, 3) && t.pc == s.pc + 3 && t.mem == s.mem
    ensures t.r[R_LDA] == s.r[x.k] && t.r[R_LDB] == s.r[x.n] && t.r[R_LDC] == s.r[x.n]
    ensures forall q :: 0 <= q < POOL_HI ==> t.r[q] == s.r[q]
  {
    hide Alu, RunN, Execute;
    var part := Strides(x);
    assert forall q :: 0 <= q < 3 ==> CodeAt(code, s.pc + q, [part[q]]);
    TakesRefl(code, keep, s);
    AddZero(s.r[x.k]);
    AddZero(s.r[x.n]);
    AluTakes(code, keep, s, s, part[0], 0);
    var s1 := s.Set(R_LDA, s.r[x.k]);
    AluTakes(code, keep, s, s1, part[1], 1);
    var s2 := s1.Set(R_LDB, s.r[x.n]);
    AluTakes(code, keep, s, s2, part[2], 2);
    t := s2.Set(R_LDC, s.r[x.n]);
  }

  lemma PartLengths(x: Regs)
    ensures |Strides(x)| == 3 && |TileC(x)| == 4 && |TileAB(x)| == 6 && |WmmaCode(x, 0)| == 1
    ensures |Zero(x.I0())| == |Zero(x.J0())| == |Zero(x.K0())| == 1
    ensures forall i, b, end: nat :: |LoopTest(i, b, end)| == 2
    ensures forall i, b, top: nat :: b > 0 ==> |LoopBack(i, b, top)| == 2
  {}

  lemma TensorPlaced(x: Regs)
    requires x.Valid()
    ensures Program(TensorCode(x, 0)) && Placed(TensorCode(x, 0), x)
    ensures CodeAt(TensorCode(x, 0), 0, Loads(x.p)) && CodeAt(TensorCode(x, 0), x.p, Strides(x))
  {
    hide CodeAt, Loads, Strides, Zero, TileC, TileAB, WmmaCode, LoopTest, LoopBack;
    TensorEncodable(x, 0);
    PartLengths(x);
    var code := TensorCode(x, 0);
    var c1 := Loads(x.p) + Strides(x) + Zero(x.I0());
    var c2 := c1 + LoopTest(x.I0(), x.m, EndI(x)) + Zero(x.J0());
    var c3 := c2 + LoopTest(x.J0(), x.n, EndJ(x)) + TileC(x) + Zero(x.K0());
    var c4 := c3 + LoopTest(x.K0(), x.k, EndK(x)) + TileAB(x) + WmmaCode(x, 0);
    var c5 := c4 + LoopBack(x.K0(), TILE, TopK(x)) + LoopBack(x.J0(), TILE, TopJ(x)) + LoopBack(x.I0(), TILE, TopI(x));
    CodeAtWhole(code);
    CodeAtSplit(code, 0, c5, [EXIT]);
    SplitThree(code, c4, LoopBack(x.K0(), TILE, TopK(x)), LoopBack(x.J0(), TILE, TopJ(x)), LoopBack(x.I0(), TILE, TopI(x)));
    SplitThree(code, c3, LoopTest(x.K0(), x.k, EndK(x)), TileAB(x), WmmaCode(x, 0));
    SplitThree(code, c2, LoopTest(x.J0(), x.n, EndJ(x)), TileC(x), Zero(x.K0()));
    SplitTwo(code, c1, LoopTest(x.I0(), x.m, EndI(x)), Zero(x.J0()));
    SplitTwo(code, Loads(x.p), Strides(x), Zero(x.I0()));
  }

  lemma SplitTwo(code: seq<Instr>, a: seq<Instr>, b: seq<Instr>, c: seq<Instr>)
    requires CodeAt(code, 0, a + b + c)
    ensures CodeAt(code, 0, a) && CodeAt(code, |a|, b) && CodeAt(code, |a| + |b|, c)
  {
    hide CodeAt;
    CodeAtSplit(code, 0, a + b, c);
    CodeAtSplit(code, 0, a, b);
  }

  lemma SplitThree(code: seq<Instr>, a: seq<Instr>, b: seq<Instr>, c: seq<Instr>, d: seq<Instr>)
    requires CodeAt(code, 0, a + b + c + d)
    ensures CodeAt(code, 0, a) && CodeAt(code, |a|, b) && CodeAt(code, |a| + |b|, c) && CodeAt(code, |a| + |b| + |c|, d)
  {
    hide CodeAt;
    CodeAtSplit(code, 0, a + b + c, d);
    SplitTwo(code, a, b, c);
  }

  /** The problem that a parameter block describes. */
  function Problem(x: Regs, mem: Bytes, paramAddr: u32): Gemm
    requires x.Valid() && InBounds(mem, paramAddr, 4 * x.p)
  {
    var value := (reg: nat) requires x.Param(reg) => Rd32(mem, paramAddr as int + 4 * (reg - 2));
    Gemm(value(x.a), value(x.b), value(x.c), value(x.m), value(x.n), value(x.k))
  }

  lemma ProblemSetup(t1: State, t2: State, x: Regs, mem: Bytes, paramAddr: u32)
    requires x.Valid() && InBounds(mem, paramAddr, 4 * x.p) && t1.Valid() && Live(t2)
    requires forall q :: 0 <= q < x.p ==> t1.r[2 + q] == Rd32(mem, paramAddr as int + 4 * q)
    requires t2.r[R_LDA] == t1.r[x.k] && t2.r[R_LDB] == t1.r[x.n] && t2.r[R_LDC] == t1.r[x.n]
    requires forall q :: 0 <= q < POOL_HI ==> t2.r[q] == t1.r[q]
    requires var g := Problem(x, mem, paramAddr); g.m < TWO31 && g.n < TWO31 && g.k < TWO31
    ensures Setup(t2, x, Problem(x, mem, paramAddr))
  {
    hide Rd32;
    forall reg: nat | x.Param(reg)
      ensures t2.r[reg] == Rd32(mem, paramAddr as int + 4 * (reg - 2))
    {
      assert t1.r[2 + (reg - 2)] == Rd32(mem, paramAddr as int + 4 * (reg - 2));
    }
  }

  /** Control is at EXIT after n steps, so the run exits in n + 1 and no sooner. */
  lemma ExitNext(code: seq<Instr>, keep: Region, s: State, t: State, n: nat)
    requires Program(code) && s.Valid() && Live(t) && Takes(code, keep, s, t, n) && CodeAt(code, t.pc, [EXIT])
    ensures RunN(code, s, n).Running? && RunN(code, s, n + 1) == Exited(t.mem) && KeepsFor(code, keep, s, n + 1)
  {
    ExitCorrect(code, keep, t);
    assert [EXIT][0] == EXIT && code[t.pc + 0] == EXIT;
    RunSplit(code, s, n, 1);
  }

  lemma Prologue(keep: Region, x: Regs, mem: Bytes, paramAddr: u32) returns (t: State)
    requires |mem| <= TWO32 && x.Valid() && InBounds(mem, paramAddr, 4 * x.p) && keep.Holds(mem)
    requires var g := Problem(x, mem, paramAddr); g.m < TWO31 && g.n < TWO31 && g.k < TWO31
    ensures Program(TensorCode(x, 0)) && Placed(TensorCode(x, 0), x)
    ensures Takes(TensorCode(x, 0), keep, Boot(mem, paramAddr), t, x.p + 4)
    ensures Setup(t, x, Problem(x, mem, paramAddr)) && t.mem == mem && t.pc == TopI(x) && t.r[x.I0()] == 0
  {
    hide Placed, CodeAt, RunN, KeepsFor, Takes, Rd32, TensorCode, Boot, Problem, Setup;
    var code, g, s := TensorCode(x, 0), Problem(x, mem, paramAddr), Boot(mem, paramAddr);
    TensorPlaced(x);
    PlacedStart(code, x);
    var t1 := LoadsCorrect(code, keep, x.p, mem, paramAddr);
    var t2 := StridesCorrect(code, keep, t1, x);
    ProblemSetup(t1, t2, x, mem, paramAddr);
    t := ZeroCorrect(code, keep, t2, x.I0());
    KeptOne(t2.r, x.I0(), 0, x.p + 1);
    SetupKept(t2, t, x, g, x.p + 1);
    TakesTrans(code, keep, s, x.p, t1, 3, t2);
    TakesTrans(code, keep, s, x.p + 3, t2, 1, t);
  }

  lemma PlacedStart(code: seq<Instr>, x: Regs)
    requires Placed(code, x)
    ensures CodeAt(code, x.p + 3, Zero(x.I0()))
  {}

  lemma PlacedEnd(code: seq<Instr>, x: Regs)
    requires Placed(code, x)
    ensures CodeAt(code, EndI(x), [EXIT])
  {}

  /**
   The INT8 tensor program of every kernel that match_matmul accepts adds
   sum over k < K of A[i*K + k] * B[k*N + j], modulo 2^32, to each C[i*N + j] and changes
   no other byte, for all dimensions that are multiples of 16 and C apart from A and B. It
   takes exactly TensorSteps instructions, and a region of memory apart from C is held all
   the way.
   */
  lemma TensorKeeps(k: Kernel, keep: Region, x: Regs, mem: Bytes, paramAddr: u32) returns (mem': Bytes, steps: nat)
    requires MatchMatmul(k).Some? && RegsOf(k.params, MatchMatmul(k).value.0) == Some(x)
    requires |mem| <= TWO32 && InBounds(mem, paramAddr, 4 * |k.params|) && keep.Holds(mem)
    requires x.Valid() && x.p == |k.params|
    requires var g := Problem(x, mem, paramAddr); g.Fits(|mem|) && g.m < TWO31 && g.n < TWO31 && g.k < TWO31 && Apart(keep, g)
    ensures CompileTensor(k, false).Some? && Program(CompileTensor(k, false).value)
    ensures var g := Problem(x, mem, paramAddr); 0 < steps == TensorSteps(x.p, g.m / 16, g.n / 16, g.k / 16)
    ensures var code, s := CompileTensor(k, false).value, Boot(mem, paramAddr);
      RunN(code, s, steps - 1).Running? && RunN(code, s, steps) == Exited(mem') && KeepsFor(code, keep, s, steps)
    ensures Multiplied(Problem(x, mem, paramAddr), mem, mem')
  {
    hide *;
    var code, g, s := TensorCode(x, 0), Problem(x, mem, paramAddr), Boot(mem, paramAddr);
    CompiledTensor(k, x);
    var t := Prologue(keep, x, mem, paramAddr);
    StartNest(t, keep, x, g);
    var t' := ILoop(code, keep, t, x, g, mem, 0);
    var n := ISteps(0, g.m, g.n, g.k);
    SetupValid(t, x, g);
    TakesTrans(code, keep, s, x.p + 4, t, n, t');
    PlacedEnd(code, x);
    ExitNext(code, keep, s, t', x.p + 4 + n);
    StepsOfProblem(x.p, g, |mem|);
    mem', steps := t'.mem, x.p + 5 + n;
  }

  lemma CompiledTensor(k: Kernel, x: Regs)
    requires MatchMatmul(k).Some? && RegsOf(k.params, MatchMatmul(k).value.0) == Some(x)
    ensures CompileTensor(k, false) == Some(TensorCode(x, 0))
  {}

  lemma SetupValid(s: State, x: Regs, g: Gemm)
    requires Setup(s, x, g)
    ensures s.Valid()
  {}

  lemma StartNest(s: State, keep: Region, x: Regs, g: Gemm)
    requires Setup(s, x, g) && |s.mem| <= TWO32 && g.Fits(|s.mem|) && keep.Holds(s.mem) && Apart(keep, g)
    ensures InNest(s, keep, x, g, s.mem, Position(0, 0, 0, 0))
  {
    NoProgress(g, s.mem);
  }

  lemma StepsOfProblem(p: nat, g: Gemm, size: nat)
    requires g.Fits(size)
    ensures p + 5 + ISteps(0, g.m, g.n, g.k) == TensorSteps(p, g.m / 16, g.n / 16, g.k / 16)
  {
    IStepsClosed(0, g.m / 16, g.n / 16, g.k / 16);
  }

  lemma TensorMultiplies(k: Kernel, x: Regs, mem: Bytes, paramAddr: u32) returns (mem': Bytes)
    requires MatchMatmul(k).Some? && RegsOf(k.params, MatchMatmul(k).value.0) == Some(x)
    requires |mem| <= TWO32 && InBounds(mem, paramAddr, 4 * |k.params|)
    requires x.Valid() && x.p == |k.params|
    requires var g := Problem(x, mem, paramAddr); g.Fits(|mem|) && g.m < TWO31 && g.n < TWO31 && g.k < TWO31
    ensures CompileTensor(k, false).Some? && Program(CompileTensor(k, false).value)
    ensures ExitsWith(CompileTensor(k, false).value, Boot(mem, paramAddr), mem')
    ensures Multiplied(Problem(x, mem, paramAddr), mem, mem')
  {
    hide Multiplied, Gemm.Fits, Problem, MatchMatmul, RegsOf, CompileTensor, RunN, KeepsFor;
    var steps;
    mem', steps := TensorKeeps(k, NOWHERE, x, mem, paramAddr);
  }
}
