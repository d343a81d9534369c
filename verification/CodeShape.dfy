/**
 What compiled scalar code can touch: every instruction writes pool registers only (r2 to
 r57) and reads nothing but those, r0 and r1. So r0 reads 0 on every run although the
 machine does not hardwire it, and the launch registers never matter.
 */
module CodeShape {
  import opened Bits
  import opened Isa
  import opened Memory
  import opened Machine
  import opened Kernel
  import opened Codegen
  import opened Allocation
  import opened Agreement
  import opened GpuThread
  import CodeIntact
  import Preservation

  predicate Source(q: nat) {
    q == R_ZERO || q == R_PARAM || InPool(q)
  }

  predicate WritesRegister(i: Instr) {
    IsAlu(i.op) || i.op == OP_LOAD
  }

  predicate Confined(i: Instr) {
    && (WritesRegister(i) || i.op in {OP_SETP, OP_STORE, OP_BRANCH, OP_BARRIER})
    && (WritesRegister(i) ==> InPool(i.rd))
    && Source(i.rs1) && (i.RForm? ==> Source(i.rs2))
    && (i.op == OP_STORE ==> Source(i.rd))
  }

  predicate AllConfined(code: seq<Instr>) {
    forall k :: 0 <= k < |code| ==> Confined(code[k])
  }

  lemma ConcatConfined(a: seq<Instr>, b: seq<Instr>)
    requires AllConfined(a) && AllConfined(b)
    ensures AllConfined(a + b)
  {}

  lemma ConstConfined(rd: nat, value: int)
    requires InPool(rd)
    ensures AllConfined(LoadConst(rd, value))
  {}

  lemma OperatorConfined(op: Op, t: nat, a: nat, b: nat)
    requires op == Mod || Opcode(op).Some?
    requires InPool(t) && InPool(a) && InPool(b)
    ensures AllConfined(OperatorCode(op, t, a, b))
  {}

  lemma {:induction false} ExprConfined(e: Expr, free: seq<nat>, vars: map<string, nat>)
    requires HomesOk(vars) && FreeOk(free, vars) && GenExpr(e, free, vars).Some?
    ensures AllConfined(GenExpr(e, free, vars).value.code)
    decreases e, 0
  {
    hide Distinct, HomesOk, FreeOk, LoadConst, OperatorCode;
    match e {
      case Const(v) =>
        TakeFront(free, vars);
        ConstConfined(free[0], v);
      case Name(_) =>
      case Neg(operand) =>
        var src := GenExpr(operand, free, vars).value;
        ExprConfined(operand, free, vars);
        ExprAllocation(operand, free, vars);
        Retarget(src, free, vars);
        ConcatConfined(src.code, [RForm(OP_SUB, src.free[0], R_ZERO, src.reg, 0, 0)]);
      case Bin(op, left, right) =>
        var a := GenExpr(left, free, vars).value;
        ExprConfined(left, free, vars);
        ExprAllocation(left, free, vars);
        DeliversFree(a, free, vars);
        if SmallConst(right) && op != Mod {
          Retarget(a, free, vars);
          ConcatConfined(a.code, [IForm(Opcode(op).value, a.free[0], a.reg, right.v, 0)]);
        } else {
          var b := GenExpr(right, a.free, vars).value;
          ExprConfined(right, a.free, vars);
          ExprAllocation(right, a.free, vars);
          DeliversFree(b, a.free, vars);
          RetargetTwo(a, b, free, vars);
          OperatorConfined(op, b.free[0], a.reg, b.reg);
          ConcatConfined(a.code, b.code);
          ConcatConfined(a.code + b.code, OperatorCode(op, b.free[0], a.reg, b.reg));
        }
      case Subscript(arr, index) =>
        var off := GenOffset(arr, index, free, vars).value;
        OffsetConfined(arr, index, free, vars);
        OffsetAllocation(arr, index, free, vars);
        Retarget(off, free, vars);
        HomeConfined(vars, arr);
        ConcatConfined(off.code, [RForm(OP_LOAD, off.free[0], vars[arr], off.reg, 0, 0)]);
    }
  }

  lemma HomeConfined(vars: map<string, nat>, x: string)
    requires HomesOk(vars) && x in vars
    ensures InPool(vars[x])
  {}

  lemma {:induction false} OffsetConfined(arr: string, index: Expr, free: seq<nat>, vars: map<string, nat>)
    requires HomesOk(vars) && FreeOk(free, vars) && GenOffset(arr, index, free, vars).Some?
    ensures AllConfined(GenOffset(arr, index, free, vars).value.code)
    decreases index, 1
  {
    var idx := GenExpr(index, free, vars).value;
    ExprConfined(index, free, vars);
    ExprAllocation(index, free, vars);
    Retarget(idx, free, vars);
    ConcatConfined(idx.code, [IForm(OP_SHL, idx.free[0], idx.reg, 2, 0)]);
  }

  lemma AssignConfined(target: Target, value: Expr, a: Alloc)
    requires AllocOk(a) && GenAssign(target, value, a).Some?
    ensures AllConfined(GenAssign(target, value, a).value.code)
  {
    hide Distinct;
    var src := GenExpr(value, a.free, a.vars).value;
    ExprConfined(value, a.free, a.vars);
    ExprAllocation(value, a.free, a.vars);
    DeliversFree(src, a.free, a.vars);
    match target {
      case ToName(id) =>
        var mid := Alloc(src.free, a.vars);
        HomeAllocation(mid, id);
        HomeConfined(Home(mid, id).value.vars, id);
        ConcatConfined(src.code, Move(Home(mid, id).value.vars[id], src.reg));
      case ToElement(arr, index) =>
        var off := GenOffset(arr, index, src.free, a.vars).value;
        OffsetConfined(arr, index, src.free, a.vars);
        OffsetAllocation(arr, index, src.free, a.vars);
        DeliversFree(off, src.free, a.vars);
        HomeConfined(a.vars, arr);
        ConcatConfined(src.code, off.code);
        ConcatConfined(src.code + off.code, [RForm(OP_STORE, src.reg, a.vars[arr], off.reg, 0, 0)]);
    }
  }

  lemma LoopHeadConfined(ivar: string, range: Range, a: Alloc)
    requires AllocOk(a) && GenLoopHead(ivar, range, a).Some?
    ensures AllConfined(GenLoopHead(ivar, range, a).value.code)
  {
    hide Distinct;
    var home := Home(a, ivar).value;
    HomeAllocation(a, ivar);
    var start := GenExpr(range.start, home.free, home.vars).value;
    ExprConfined(range.start, home.free, home.vars);
    ExprAllocation(range.start, home.free, home.vars);
    DeliversFree(start, home.free, home.vars);
    if start.tmp {
      ReleaseHeld(start.free, home.vars, start.reg);
    }
    var free := ReleaseIf(start.tmp, start.free, home.vars, start.reg);
    var stop := GenExpr(range.stop, free, home.vars).value;
    ExprConfined(range.stop, free, home.vars);
    ExprAllocation(range.stop, free, home.vars);
    DeliversFree(stop, free, home.vars);
    if !stop.tmp {
      TakeFront(stop.free, home.vars);
      ConcatConfined(stop.code, Move(stop.free[0], stop.reg));
    }
    HomeConfined(home.vars, ivar);
    ConcatConfined(start.code, Move(home.vars[ivar], start.reg));
    ConcatConfined(start.code + Move(home.vars[ivar], start.reg), GenBound(range.stop, free, home.vars).value.code);
  }

  lemma LoopPartsConfined(ivar: nat, bound: nat, step: nat, end: nat, top: nat)
    requires InPool(ivar) && InPool(bound)
    ensures AllConfined(LoopTest(ivar, bound, end)) && AllConfined(LoopBack(ivar, step, top))
  {}

  lemma LoopHeadRegisters(ivar: string, range: Range, a: Alloc)
    requires AllocOk(a) && GenLoopHead(ivar, range, a).Some?
    ensures var head := GenLoopHead(ivar, range, a).value; AllocOk(head.alloc) && InPool(head.ivar) && InPool(head.bound)
  {
    hide Distinct, FreeOk, Held;
    LoopHeadAllocation(ivar, range, a);
    var head := GenLoopHead(ivar, range, a).value;
    HomeConfined(head.alloc.vars, ivar);
    HeldInPool(head.bound, head.alloc.free, head.alloc.vars);
  }

  lemma HeldInPool(reg: nat, free: seq<nat>, vars: map<string, nat>)
    requires Held(reg, free, vars)
    ensures InPool(reg)
  {}

  lemma {:induction false} ForConfined(s: Stmt, a: Alloc, at: nat)
    requires s.For? && AllocOk(a) && GenStmt(s, a, at).Some?
    ensures AllConfined(GenStmt(s, a, at).value.code)
    decreases s, 0
  {
    hide AllConfined, AllocOk, GenLoopHead, GenBlock, LoopTest, LoopBack, Release;
    var range := RangeOf(s.args).value;
    var head := GenLoopHead(s.ivar, range, a).value;
    LoopHeadConfined(s.ivar, range, a);
    LoopHeadRegisters(s.ivar, range, a);
    var top := at + |head.code|;
    var inner := GenBlock(s.body, head.alloc, top + 2).value;
    BlockConfined(s.body, head.alloc, top + 2);
    var end := top + 2 + |inner.code| + 2;
    LoopPartsConfined(head.ivar, head.bound, range.step, end, top);
    var test, back := LoopTest(head.ivar, head.bound, end), LoopBack(head.ivar, range.step, top);
    ConcatConfined(head.code, test);
    ConcatConfined(head.code + test, inner.code);
    ConcatConfined(head.code + test + inner.code, back);
  }

  lemma {:induction false} StmtConfined(s: Stmt, a: Alloc, at: nat)
    requires AllocOk(a) && GenStmt(s, a, at).Some?
    ensures AllConfined(GenStmt(s, a, at).value.code)
    decreases s, 1
  {
    hide AllocOk, GenAssign, GenLoopHead, GenBlock;
    match s {
      case For(_, _, _, _) =>
        ForConfined(s, a, at);
      case Assign(target, value) =>
        AssignConfined(target, value, a);
      case AugAssign(target, op, value) =>
        var assign := Expand(target, op, value);
        AssignConfined(assign.target, assign.value, a);
      case Return(_) =>
      case Docstring =>
      case Pass =>
    }
  }

  lemma NothingConfined()
    ensures AllConfined([])
  {}

  lemma {:induction false} BlockConfined(b: Block, a: Alloc, at: nat)
    requires AllocOk(a) && GenBlock(b, a, at).Some?
    ensures AllConfined(GenBlock(b, a, at).value.code)
    decreases b
  {
    hide AllConfined, AllocOk, GenStmt;
    match b {
      case Nil =>
        NothingConfined();
      case Cons(head, tail) =>
        StmtConfined(head, a, at);
        StmtAllocation(head, a, at);
        var first := GenStmt(head, a, at).value;
        BlockConfined(tail, first.alloc, at + |first.code|);
        ConcatConfined(first.code, GenBlock(tail, first.alloc, at + |first.code|).value.code);
    }
  }

  lemma {:induction false} ParamsConfined(params: seq<string>)
    requires GenParams(params).Some?
    ensures AllConfined(GenParams(params).value.code)
  {
    if params != [] {
      var k := |params| - 1;
      var before := GenParams(params[..k]).value;
      ParamsConfined(params[..k]);
      Preservation.ParamsAllocation(params[..k]);
      HomeAllocation(before.alloc, params[k]);
      HomeConfined(GenParams(params).value.alloc.vars, params[k]);
      ConcatConfined(before.code, [IForm(OP_LOAD, GenParams(params).value.alloc.vars[params[k]], R_PARAM, 4 * k, 0)]);
    }
  }

  /** No compiled kernel writes r0, r1 or r58 to r63, and none reads r58 to r63. */
  lemma CompiledConfined(k: Kernel)
    requires Compile(k).Some?
    ensures AllConfined(Compile(k).value)
  {
    var prologue := GenParams(k.params).value;
    var body := GenBlock(k.body, prologue.alloc, |prologue.code|).value;
    ParamsConfined(k.params);
    Preservation.ParamsAllocation(k.params);
    BlockConfined(k.body, prologue.alloc, |prologue.code|);
    ConcatConfined(prologue.code, body.code);
    ConcatConfined(prologue.code + body.code, [EXIT]);
  }

  /** Registers outside the pool keep their entry values throughout every run of confined code. */
  lemma {:induction false} ReservedKept(code: seq<Instr>, s: State, n: nat)
    requires Program(code) && AllConfined(code) && s.Valid() && RunN(code, s, n).Running?
    ensures forall q :: 0 <= q < 64 && !InPool(q) ==> RunN(code, s, n).s.r[q] == s.r[q]
    decreases n
  {
    hide Alu, Rd32, Wr32;
    if n > 0 {
      ReservedKept(code, Step(code, s).s, n - 1);
    }
  }

  lemma ConfinedReadsShared(i: Instr)
    requires i.Encodable() && Confined(i)
    ensures ReadsShared(i)
  {}

  lemma CompiledReadsShared(k: Kernel, words: seq<u32>)
    requires Compile(k).Some? && |words| == |Compile(k).value| && Disassemble(words) == Compile(k).value
    ensures forall i :: 0 <= i < |words| ==> ReadsShared(Decode(words[i]))
  {
    hide Compile, ReadsShared, Confined;
    CompiledConfined(k);
    forall i | 0 <= i < |words|
      ensures ReadsShared(Decode(words[i]))
    {
      assert Disassemble(words)[i] == Decode(words[i]);
      ConfinedReadsShared(Decode(words[i]));
    }
  }

  /**
   No store of the kernel's run touches the words of its code: a condition on the kernel,
   its parameters and memory, and the place of the code.
   */
  ghost predicate SparesCode(k: Kernel, mem: Bytes, paramAddr: u32, codeAddr: u32, words: seq<u32>)
    requires InBounds(mem, paramAddr, 4 * |k.params|) && CodeInMemory(mem, codeAddr, words)
  {
    Preservation.BlockAvoids(CodeIntact.CodeRegion(mem, codeAddr, words), k.body, ParamEnv(k.params, mem, paramAddr), mem)
  }

  /**
   A compiled kernel on the GPU model: any thread of any launch that runs it from VRAM
   retires and leaves the memory the kernel computes, provided no store of the kernel
   touches the code. The exception is a run of more steps than the watchdog allows, which
   ends with an error.
   */
  lemma CompiledKernelOnGpu(m: HostMath, k: Kernel, words: seq<u32>, codeAddr: u32, mem: Bytes, paramAddr: u32,
                            tid: u32, nthreads: u32)
    requires Compile(k).Some? && |words| == |Compile(k).value| && Disassemble(words) == Compile(k).value
    requires |mem| < TWO32 && CodeInMemory(mem, codeAddr, words)
    requires WellScoped(k) && InBounds(mem, paramAddr, 4 * |k.params|) && RunKernel(k, mem, paramAddr).Some?
    requires SparesCode(k, mem, paramAddr, codeAddr, words)
    ensures var e := RunThread(m, codeAddr, StartThread(paramAddr, tid, nthreads), Device(mem, false), MAX_STEPS);
      if RunN(Disassemble(words), Boot(mem, paramAddr), MAX_STEPS).Running? then !e.ok && e.d.error
      else e == ThreadEnd(true, Device(RunKernel(k, mem, paramAddr).value, false))
  {
    hide RunKernel, Compile, RunThread, RunN, WellScoped, CodeInMemory, ReadsShared, Preservation.Ends, CodeIntact.CodeRegion;
    Preservation.CompilationPreservesRegion(k, CodeIntact.CodeRegion(mem, codeAddr, words), mem, paramAddr);
    CompiledReadsShared(k, words);
    CodeIntact.ThreadOutcome(m, words, codeAddr, mem, paramAddr, tid, nthreads, MAX_STEPS, RunKernel(k, mem, paramAddr).value);
  }
}
