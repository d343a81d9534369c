/**
 The kernel language of compiler/titan_compiler.py and its meaning.

 Integers are 32-bit two's complement, `//` and `%` truncate toward zero, shifts use the
 low five bits of their right operand. `for` is Python's: the bounds are evaluated once,
 before the loop variable is touched, the variable takes the successive values of the
 range whatever the body does to it, and keeps the last of them afterwards. A run is
 `Stuck` when it leaves the subset: an unbound name, an index that is negative or outside
 memory, or a loop counter that passes 2^31 - 1.
 */
module Kernel {
  import opened Bits
  import opened Memory
  import opened Options

  datatype Op = Add | Sub | Mult | LShift | RShift | BitAnd | BitOr | BitXor | FloorDiv | Mod | OtherOp

  datatype Expr =
    | Const(v: int)
    | Name(id: string)
    | Neg(operand: Expr)
    | Bin(op: Op, left: Expr, right: Expr)
    | Subscript(arr: string, index: Expr)
    | OtherExpr

  datatype Target = ToName(id: string) | ToElement(arr: string, index: Expr) | OtherTarget

  datatype Stmt =
    | For(ivar: string, args: seq<Expr>, body: Block, hasElse: bool)
    | Assign(target: Target, value: Expr)
    | AugAssign(target: Target, op: Op, value: Expr)
    | Return(hasValue: bool)
    | Docstring
    | Pass
    | OtherStmt

  datatype Block = Nil | Cons(head: Stmt, tail: Block)

  datatype Kernel = Kernel(params: seq<string>, body: Block)

  datatype Range = Range(start: Expr, stop: Expr, step: int)

  /** `range(stop)`, `range(start, stop)`, `range(start, stop, step)` with a positive constant step. */
  function RangeOf(args: seq<Expr>): Option<Range> {
    if |args| == 1 then Some(Range(Const(0), args[0], 1))
    else if |args| == 2 then Some(Range(args[0], args[1], 1))
    else if |args| == 3 && args[2].Const? && args[2].v > 0 then Some(Range(args[0], args[1], args[2].v))
    else None
  }

  /** An augmented assignment is the assignment of the operation applied to its target. */
  function Expand(target: Target, op: Op, value: Expr): Stmt {
    match target
    case ToName(id) => Assign(target, Bin(op, Name(id), value))
    case ToElement(arr, index) => Assign(target, Bin(op, Subscript(arr, index), value))
    case OtherTarget => OtherStmt
  }

  // --- Meaning ---

  /** Values are signed 32-bit integers. */
  type i32 = x: int | -0x8000_0000 <= x < 0x8000_0000

  type Env = map<string, i32>

  datatype Result = Normal(env: Env, mem: Bytes) | Returned(mem: Bytes) | Stuck

  function Apply(op: Op, x: i32, y: i32): Option<i32> {
    match op
    case Add => Some(Signed(x + y))
    case Sub => Some(Signed(x - y))
    case Mult => Some(Signed(x * y))
    case LShift => Some(Signed(x * Pow2(y % 32)))
    case RShift => Some(Signed(x / Pow2(y % 32)))
    case BitAnd => Some(Signed(Bitwise32(AND, Wrap(x), Wrap(y))))
    case BitOr => Some(Signed(Bitwise32(OR, Wrap(x), Wrap(y))))
    case BitXor => Some(Signed(Bitwise32(XOR, Wrap(x), Wrap(y))))
    case FloorDiv => Some(if y == 0 then -1 else Signed(TruncDiv(x, y)))
    case Mod => Some(if y == 0 then x else Signed(x - TruncDiv(x, y) * y))
    case OtherOp => None
  }

  /** Address of element `index` of the int32 array that name `arr` points to. */
  function ElementAddress(arr: string, index: i32, env: Env, mem: Bytes): Option<nat> {
    if arr in env && index >= 0 && InBounds(mem, Wrap(env[arr]) + 4 * index, 4)
    then Some(Wrap(env[arr]) + 4 * index)
    else None
  }

  function Eval(e: Expr, env: Env, mem: Bytes): Option<i32> {
    match e
    case Const(v) => Some(Signed(v))
    case Name(id) => if id in env then Some(env[id]) else None
    case Neg(operand) =>
      var x :- Eval(operand, env, mem);
      Some(Signed(0 - x as int))
    case Bin(op, left, right) =>
      var x :- Eval(left, env, mem);
      var y :- Eval(right, env, mem);
      Apply(op, x, y)
    case Subscript(arr, index) =>
      var i :- Eval(index, env, mem);
      var addr :- ElementAddress(arr, i, env, mem);
      if InBounds(mem, addr, 4) then Some(Signed(Rd32(mem, addr))) else None
    case OtherExpr => None
  }

  function ExecAssign(target: Target, value: Expr, env: Env, mem: Bytes): Result {
    var v := Eval(value, env, mem);
    if v.None? then Stuck
    else match target
      case ToName(id) => Normal(env[id := v.value], mem)
      case ToElement(arr, index) =>
        var i := Eval(index, env, mem);
        if i.None? then Stuck
        else
          var addr := ElementAddress(arr, i.value, env, mem);
          if addr.Some? && InBounds(mem, addr.value, 4) then Normal(env, Wr32(mem, addr.value, Wrap(v.value))) else Stuck
      case OtherTarget => Stuck
  }

  function ExecBlock(b: Block, env: Env, mem: Bytes): Result
    decreases b, 0, 0
  {
    match b
    case Nil => Normal(env, mem)
    case Cons(head, tail) =>
      match Exec(head, env, mem)
      case Normal(env', mem') => ExecBlock(tail, env', mem')
      case Returned(mem') => Returned(mem')
      case Stuck => Stuck
  }

  function Exec(s: Stmt, env: Env, mem: Bytes): Result
    decreases s, 0, 0
  {
    match s
    case For(ivar, args, body, hasElse) =>
      var range := RangeOf(args);
      if hasElse || range.None? then Stuck
      else
        var start, stop := Eval(range.value.start, env, mem), Eval(range.value.stop, env, mem);
        if start.None? || stop.None? then Stuck
        else Iterate(ivar, start.value, stop.value, range.value.step, body, env, mem)
    case Assign(target, value) => ExecAssign(target, value, env, mem)
    case AugAssign(target, op, value) =>
      var assign := Expand(target, op, value);
      if assign.Assign? then ExecAssign(assign.target, assign.value, env, mem) else Stuck
    case Return(hasValue) => if hasValue then Stuck else Returned(mem)
    case Docstring => Normal(env, mem)
    case Pass => Normal(env, mem)
    case OtherStmt => Stuck
  }

  /** The iterations of a `for` from counter value i on. */
  function Iterate(ivar: string, i: i32, stop: i32, step: int, body: Block, env: Env, mem: Bytes): Result
    decreases body, 1, if i < stop then stop - i else 0
  {
    if i >= stop then Normal(env, mem)
    else match ExecBlock(body, env[ivar := i], mem)
      case Normal(env', mem') =>
        if step <= 0 || i + step >= TWO31 then Stuck else Iterate(ivar, i + step, stop, step, body, env', mem')
      case Returned(mem') => Returned(mem')
      case Stuck => Stuck
  }

  /** The parameters are read in order from consecutive words of the parameter block. */
  function ParamEnv(params: seq<string>, mem: Bytes, paramAddr: u32): Env
    requires InBounds(mem, paramAddr, 4 * |params|)
  {
    if params == [] then map[]
    else
      var k := |params| - 1;
      ParamEnv(params[..k], mem, paramAddr)[params[k] := Signed(Rd32(mem, paramAddr + 4 * k))]
  }

  /** The memory a kernel leaves behind, when its run stays inside the subset. */
  function RunKernel(k: Kernel, mem: Bytes, paramAddr: u32): Option<Bytes>
    requires InBounds(mem, paramAddr, 4 * |k.params|)
  {
    match ExecBlock(k.body, ParamEnv(k.params, mem, paramAddr), mem)
    case Normal(_, mem') => Some(mem')
    case Returned(mem') => Some(mem')
    case Stuck => None
  }

  // --- The discipline under which the lowering of `for` is faithful ---

  function Reads(e: Expr): set<string> {
    match e
    case Const(_) => {}
    case Name(id) => {id}
    case Neg(operand) => Reads(operand)
    case Bin(_, left, right) => Reads(left) + Reads(right)
    case Subscript(arr, index) => {arr} + Reads(index)
    case OtherExpr => {}
  }

  function LoopVars(s: Stmt): set<string> {
    match s
    case For(ivar, _, body, _) => {ivar} + BlockLoopVars(body)
    case _ => {}
  }

  function BlockLoopVars(b: Block): set<string> {
    match b
    case Nil => {}
    case Cons(head, tail) => LoopVars(head) + BlockLoopVars(tail)
  }

  /**
   Scope check. `defined` holds the names certain to be bound on every path, `active` the
   variables of the enclosing loops. None when the statement reads a name that may be
   unbound (a loop variable counts as unbound after its loop), assigns the variable of an
   enclosing loop, or has a stop bound that mentions its own loop variable; otherwise the
   names bound afterwards.
   */
  function Scope(s: Stmt, defined: set<string>, active: set<string>): Option<set<string>> {
    match s
    case For(ivar, args, body, _) =>
      var range :- RangeOf(args);
      if ivar !in active && Reads(range.start) <= defined && Reads(range.stop) <= defined - {ivar} then
        var kept := defined - BlockLoopVars(body);
        var inner :- BlockScope(body, kept + {ivar}, active + {ivar});
        Some(kept - {ivar})
      else None
    case Assign(target, value) => ScopeAssign(target, value, defined, active)
    case AugAssign(target, op, value) =>
      var assign := Expand(target, op, value);
      if assign.Assign? then ScopeAssign(assign.target, assign.value, defined, active) else None
    case Return(_) => Some(defined)
    case Docstring => Some(defined)
    case Pass => Some(defined)
    case OtherStmt => None
  }

  function ScopeAssign(target: Target, value: Expr, defined: set<string>, active: set<string>): Option<set<string>> {
    match target
    case ToName(id) => if Reads(value) <= defined && id !in active then Some(defined + {id}) else None
    case ToElement(arr, index) => if Reads(value) + Reads(index) + {arr} <= defined then Some(defined) else None
    case OtherTarget => None
  }

  function BlockScope(b: Block, defined: set<string>, active: set<string>): Option<set<string>> {
    match b
    case Nil => Some(defined)
    case Cons(head, tail) =>
      var next :- Scope(head, defined, active);
      BlockScope(tail, next, active)
  }

  function Names(params: seq<string>): set<string> {
    set p | p in params
  }

  predicate WellScoped(k: Kernel) {
    BlockScope(k.body, Names(k.params), {}).Some?
  }
}
