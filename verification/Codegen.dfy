/**
 What the scalar backend generates (class ScalarCodegen of compiler/titan_compiler.py), as
 a function of the syntax tree: instruction selection and the register allocator, with
 branch targets already resolved. Module ScalarBackend has the imperative code generator,
 with its label fixups and encoded words, and proves that it produces this code.
 */
module Codegen {
  import opened Bits
  import opened Isa
  import opened Kernel
  import opened Options

  /** The allocator: registers free for use, front first, and the home register of each name. */
  datatype Alloc = Alloc(free: seq<nat>, vars: map<string, nat>)

  datatype ExprCode = ExprCode(code: seq<Instr>, free: seq<nat>, reg: nat, tmp: bool)

  datatype StmtCode = StmtCode(code: seq<Instr>, alloc: Alloc)

  /** R_POOL */
  function Pool(lo: nat): (pool: seq<nat>)
    requires lo <= POOL_HI
    ensures |pool| == POOL_HI - lo
    decreases POOL_HI - lo
  {
    if lo == POOL_HI then [] else [lo] + Pool(lo + 1)
  }

  predicate InPool(reg: nat) {
    POOL_LO <= reg < POOL_HI
  }

  function Release(free: seq<nat>, vars: map<string, nat>, reg: nat): seq<nat> {
    if InPool(reg) && reg !in vars.Values then [reg] + free else free
  }

  function ReleaseIf(tmp: bool, free: seq<nat>, vars: map<string, nat>, reg: nat): seq<nat> {
    if tmp then Release(free, vars, reg) else free
  }

  /** `var_reg`: the home of a name, allocated at its first mention. */
  function Home(a: Alloc, name: string): Option<Alloc> {
    if name in a.vars then Some(a)
    else if a.free == [] then None
    else Some(Alloc(a.free[1..], a.vars[name := a.free[0]]))
  }

  /** `li`: a 32-bit constant. */
  function LoadConst(rd: nat, value: int): seq<Instr> {
    var v := Wrap(value);
    if v <= IMM_MAX then [IForm(OP_ADD, rd, R_ZERO, v, 0)]
    else if TWO32 - v <= IMM_MAX then
      [IForm(OP_ADD, rd, R_ZERO, TWO32 - v, 0), RForm(OP_SUB, rd, R_ZERO, rd, 0, 0)]
    else
      [IForm(OP_ADD, rd, R_ZERO, v / 0x100_0000 % 0x100, 0),
       IForm(OP_SHL, rd, rd, 12, 0),
       IForm(OP_OR, rd, rd, v / 0x1000 % 0x1000, 0),
       IForm(OP_SHL, rd, rd, 12, 0),
       IForm(OP_OR, rd, rd, v % 0x1000, 0)]
  }

  function Move(rd: nat, rs: nat): seq<Instr> {
    if rd != rs then [IForm(OP_ADD, rd, rs, 0, 0)] else []
  }

  /** The BINOPS table; Mod is expanded by GenBin. */
  function Opcode(op: Op): Option<nat> {
    match op
    case Add => Some(OP_ADD)
    case Sub => Some(OP_SUB)
    case Mult => Some(OP_MUL)
    case LShift => Some(OP_SHL)
    case RShift => Some(OP_SRA)
    case BitAnd => Some(OP_AND)
    case BitOr => Some(OP_OR)
    case BitXor => Some(OP_XOR)
    case FloorDiv => Some(OP_DIV)
    case Mod => None
    case OtherOp => None
  }

  predicate SmallConst(e: Expr) {
    e.Const? && 0 <= e.v <= IMM_MAX
  }

  /** The operator itself; a remainder is a - (a / b) * b. */
  function OperatorCode(op: Op, t: nat, a: nat, b: nat): seq<Instr>
    requires op == Mod || Opcode(op).Some?
  {
    if op == Mod then
      [RForm(OP_DIV, t, a, b, 0, 0), RForm(OP_MUL, t, t, b, 0, 0), RForm(OP_SUB, t, a, t, 0, 0)]
    else [RForm(Opcode(op).value, t, a, b, 0, 0)]
  }

  function GenExpr(e: Expr, free: seq<nat>, vars: map<string, nat>): Option<ExprCode>
    decreases e, 0
  {
    match e
    case Const(v) =>
      if free == [] then None
      else Some(ExprCode(LoadConst(free[0], v), free[1..], free[0], true))
    case Name(id) =>
      if id in vars then Some(ExprCode([], free, vars[id], false)) else None
    case Neg(operand) =>
      var src :- GenExpr(operand, free, vars);
      if src.free == [] then None
      else
        var t := src.free[0];
        Some(ExprCode(src.code + [RForm(OP_SUB, t, R_ZERO, src.reg, 0, 0)],
                      ReleaseIf(src.tmp, src.free[1..], vars, src.reg), t, true))
    case Bin(op, left, right) =>
      if op != Mod && Opcode(op).None? then None
      else
        var a :- GenExpr(left, free, vars);
        if SmallConst(right) && op != Mod then
          if a.free == [] then None
          else
            var t := a.free[0];
            Some(ExprCode(a.code + [IForm(Opcode(op).value, t, a.reg, right.v, 0)],
                          ReleaseIf(a.tmp, a.free[1..], vars, a.reg), t, true))
        else
          var b :- GenExpr(right, a.free, vars);
          if b.free == [] then None
          else
            var t := b.free[0];
            Some(ExprCode(a.code + b.code + OperatorCode(op, t, a.reg, b.reg),
                          ReleaseIf(b.tmp, ReleaseIf(a.tmp, b.free[1..], vars, a.reg), vars, b.reg), t, true))
    case Subscript(arr, index) =>
      var off :- GenOffset(arr, index, free, vars);
      if off.free == [] then None
      else
        var t := off.free[0];
        Some(ExprCode(off.code + [RForm(OP_LOAD, t, vars[arr], off.reg, 0, 0)],
                      Release(off.free[1..], vars, off.reg), t, true))
    case OtherExpr => None
  }

  /** `gen_subscript`: the byte offset of an element, in a temporary. */
  function GenOffset(arr: string, index: Expr, free: seq<nat>, vars: map<string, nat>): (r: Option<ExprCode>)
    ensures r.Some? ==> arr in vars
    decreases index, 1
  {
    if arr !in vars then None
    else
      var idx :- GenExpr(index, free, vars);
      if idx.free == [] then None
      else
        var off := idx.free[0];
        Some(ExprCode(idx.code + [IForm(OP_SHL, off, idx.reg, 2, 0)],
                      ReleaseIf(idx.tmp, idx.free[1..], vars, idx.reg), off, true))
  }

  function GenAssign(target: Target, value: Expr, a: Alloc): Option<StmtCode> {
    match target
    case ToName(id) =>
      var src :- GenExpr(value, a.free, a.vars);
      var home :- Home(Alloc(src.free, a.vars), id);
      Some(StmtCode(src.code + Move(home.vars[id], src.reg),
                    home.(free := ReleaseIf(src.tmp, home.free, home.vars, src.reg))))
    case ToElement(arr, index) =>
      var val :- GenExpr(value, a.free, a.vars);
      var off :- GenOffset(arr, index, val.free, a.vars);
      Some(StmtCode(val.code + off.code + [RForm(OP_STORE, val.reg, a.vars[arr], off.reg, 0, 0)],
                    a.(free := Release(ReleaseIf(val.tmp, off.free, a.vars, val.reg), a.vars, off.reg))))
    case OtherTarget => None
  }

  /** The bounds of a loop: its variable set to the start value, the stop value in a private register. */
  datatype LoopHead = LoopHead(code: seq<Instr>, alloc: Alloc, ivar: nat, bound: nat)

  /** The stop value, moved to a register of its own when it is a variable, which the body might assign. */
  function GenBound(e: Expr, free: seq<nat>, vars: map<string, nat>): Option<ExprCode> {
    var stop :- GenExpr(e, free, vars);
    if stop.tmp then Some(stop)
    else if stop.free == [] then None
    else
      var held := stop.free[0];
      Some(ExprCode(stop.code + Move(held, stop.reg), stop.free[1..], held, true))
  }

  function GenLoopHead(ivar: string, range: Range, a: Alloc): Option<LoopHead> {
    var home :- Home(a, ivar);
    var reg := home.vars[ivar];
    var start :- GenExpr(range.start, home.free, home.vars);
    var free := ReleaseIf(start.tmp, start.free, home.vars, start.reg);
    var bound :- GenBound(range.stop, free, home.vars);
    Some(LoopHead(start.code + Move(reg, start.reg) + bound.code, home.(free := bound.free), reg, bound.reg))
  }

  /** The compare and the conditional exit at the top of a loop. */
  function LoopTest(ivar: nat, bound: nat, end: nat): seq<Instr> {
    [RForm(OP_SETP, CMP_GE * 4 + 1, ivar, bound, 0, 0), IForm(OP_BRANCH, 0, 0, end, 1)]
  }

  function LoopBack(ivar: nat, step: nat, top: nat): seq<Instr> {
    [IForm(OP_ADD, ivar, ivar, step, 0), IForm(OP_BRANCH, 0, 0, top, 0)]
  }

  const EXIT := IForm(OP_BARRIER, 0, 0, EXIT_IMM, 0)

  /** Code for one statement placed at instruction index `at`. */
  function GenStmt(s: Stmt, a: Alloc, at: nat): Option<StmtCode>
    decreases s
  {
    match s
    case For(ivar, args, body, hasElse) =>
      var range :- RangeOf(args);
      var head :- GenLoopHead(ivar, range, a);
      var top := at + |head.code|;
      var inner :- GenBlock(body, head.alloc, top + 2);
      if hasElse || range.step > IMM_MAX then None
      else
        var end := top + 2 + |inner.code| + 2;
        Some(StmtCode(
          head.code + LoopTest(head.ivar, head.bound, end) + inner.code + LoopBack(head.ivar, range.step, top),
          inner.alloc.(free := Release(inner.alloc.free, inner.alloc.vars, head.bound))))
    case Assign(target, value) => GenAssign(target, value, a)
    case AugAssign(target, op, value) =>
      var assign := Expand(target, op, value);
      if assign.Assign? then GenAssign(assign.target, assign.value, a) else None
    case Return(hasValue) => if hasValue then None else Some(StmtCode([EXIT], a))
    case Docstring => Some(StmtCode([], a))
    case Pass => Some(StmtCode([], a))
    case OtherStmt => None
  }

  function GenBlock(b: Block, a: Alloc, at: nat): Option<StmtCode>
    decreases b
  {
    match b
    case Nil => Some(StmtCode([], a))
    case Cons(head, tail) =>
      var first :- GenStmt(head, a, at);
      var rest :- GenBlock(tail, first.alloc, at + |first.code|);
      Some(StmtCode(first.code + rest.code, rest.alloc))
  }

  /** The prologue: each parameter into its home register. */
  function GenParams(params: seq<string>): Option<StmtCode> {
    if params == [] then Some(StmtCode([], Alloc(Pool(POOL_LO), map[])))
    else
      var k := |params| - 1;
      var before :- GenParams(params[..k]);
      var home :- Home(before.alloc, params[k]);
      if 4 * k > IMM_MAX then None
      else Some(StmtCode(before.code + [IForm(OP_LOAD, home.vars[params[k]], R_PARAM, 4 * k, 0)], home))
  }

  /** The whole kernel; None when the compiler raises an exception. */
  function Compile(k: Kernel): Option<seq<Instr>> {
    var prologue :- GenParams(k.params);
    var body :- GenBlock(k.body, prologue.alloc, |prologue.code|);
    var code := prologue.code + body.code + [EXIT];
    if forall i :: 0 <= i < |code| ==> code[i].Encodable() then Some(code) else None
  }
}
