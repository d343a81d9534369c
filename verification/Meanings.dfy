/**
 The meaning of each construct of the kernel language, stated from the outside: when an
 expression has a value, what simple statements, augmented assignments and counting loops
 leave behind, which calls of `range` there are, and what the scope check asks of code
 without loops.
 */
module Meanings {
  import opened Bits
  import opened Memory
  import opened Kernel
  import opened Acceptance
  import opened Options
  import Codegen
  import Isa

  // --- expressions ---

  /** The expression reads no array. */
  predicate Arithmetic(e: Expr) {
    match e
    case Neg(operand) => Arithmetic(operand)
    case Bin(_, left, right) => Arithmetic(left) && Arithmetic(right)
    case Subscript(_, _) => false
    case _ => true
  }

  /** An expression without array reads has a value exactly when it is supported and its names are bound. */
  lemma {:induction false} ArithmeticDefined(e: Expr, env: Env, mem: Bytes)
    requires Arithmetic(e)
    ensures Eval(e, env, mem).Some? <==> Supported(e) && Reads(e) <= env.Keys
  {
    hide Signed, Wrap, Bitwise32, TruncDiv;
    match e {
      case Const(_) =>
      case Name(_) =>
      case Neg(operand) => ArithmeticDefined(operand, env, mem);
      case Bin(op, left, right) =>
        ArithmeticDefined(left, env, mem);
        ArithmeticDefined(right, env, mem);
      case OtherExpr =>
    }
  }

  /** An array element has a value exactly when its index does and is in bounds; it is the signed word there. */
  lemma ElementDefined(arr: string, index: Expr, env: Env, mem: Bytes)
    requires arr in env && Eval(index, env, mem).Some?
    ensures var i := Eval(index, env, mem).value;
      var e := Eval(Subscript(arr, index), env, mem);
      && (e.Some? <==> i >= 0 && Wrap(env[arr]) + 4 * i + 4 <= |mem|)
      && (e.Some? ==> Wrap(e.value) == Rd32(mem, Wrap(env[arr]) + 4 * i))
  {
    hide Rd32, Wrap, Signed;
    var i: int := Eval(index, env, mem).value;
    if i >= 0 && Wrap(env[arr]) + 4 * i + 4 <= |mem| {
      WordOfSigned(Rd32(mem, Wrap(env[arr]) + 4 * i));
    }
  }

  // --- statements ---

  /** Statements that change nothing, and the return from a kernel. */
  lemma SimpleMeanings(env: Env, mem: Bytes)
    ensures Exec(Pass, env, mem) == Exec(Docstring, env, mem) == Normal(env, mem)
    ensures Exec(Return(false), env, mem) == Returned(mem) && Exec(Return(true), env, mem) == Stuck
  {}

  /** An assignment binds the name, or stores the word, and changes nothing else. */
  lemma AssignmentMeanings(id: string, arr: string, index: Expr, value: Expr, env: Env, mem: Bytes)
    requires Eval(value, env, mem).Some?
    ensures Exec(Assign(ToName(id), value), env, mem) == Normal(env[id := Eval(value, env, mem).value], mem)
    ensures arr in env && Eval(index, env, mem).Some? && Eval(Subscript(arr, index), env, mem).Some? ==>
      var after := Exec(Assign(ToElement(arr, index), value), env, mem);
      && after.Normal? && after.env == env && |after.mem| == |mem|
      && var at := Wrap(env[arr]) + 4 * Eval(index, env, mem).value;
         && 0 <= at && at + 4 <= |mem|
         && Rd32(after.mem, at) == Wrap(Eval(value, env, mem).value)
         && forall a: nat :: a < |mem| && !(at <= a < at + 4) ==> after.mem[a] == mem[a]
  {
    hide Rd32, Wr32;
    if arr in env && Eval(index, env, mem).Some? && Eval(Subscript(arr, index), env, mem).Some? {
      ElementDefined(arr, index, env, mem);
    }
  }

  /** `t op= e` means and compiles to `t = t op e`, for names and for array elements. */
  lemma AugmentedAssignments(id: string, arr: string, index: Expr, op: Op, value: Expr, env: Env, mem: Bytes, a: Codegen.Alloc, at: nat)
    ensures var plain := Assign(ToName(id), Bin(op, Name(id), value));
      Exec(AugAssign(ToName(id), op, value), env, mem) == Exec(plain, env, mem)
      && Codegen.GenStmt(AugAssign(ToName(id), op, value), a, at) == Codegen.GenStmt(plain, a, at)
    ensures var plain := Assign(ToElement(arr, index), Bin(op, Subscript(arr, index), value));
      Exec(AugAssign(ToElement(arr, index), op, value), env, mem) == Exec(plain, env, mem)
      && Codegen.GenStmt(AugAssign(ToElement(arr, index), op, value), a, at) == Codegen.GenStmt(plain, a, at)
  {
    hide Eval, Codegen.GenAssign;
  }

  /** The legal calls of `range`, and no others. */
  lemma LegalRanges(args: seq<Expr>)
    ensures RangeOf(args).Some? <==> |args| == 1 || |args| == 2 || (|args| == 3 && args[2].Const? && args[2].v > 0)
    ensures |args| == 1 ==> RangeOf(args) == Some(Range(Const(0), args[0], 1))
    ensures |args| == 2 ==> RangeOf(args) == Some(Range(args[0], args[1], 1))
    ensures |args| == 3 && RangeOf(args).Some? ==> RangeOf(args) == Some(Range(args[0], args[1], args[2].v))
  {}

  // --- loops ---

  /** The last value of the range, when there is one. */
  function LastOf(start: int, stop: int, step: int): int
    requires start < stop && step > 0
  {
    start + (stop - 1 - start) / step * step
  }

  lemma LastAfterOne(start: int, stop: int, step: int)
    requires start < stop && step > 0
    ensures start + step < stop ==> LastOf(start + step, stop, step) == LastOf(start, stop, step)
    ensures start + step >= stop ==> LastOf(start, stop, step) == start
  {
    var d := stop - 1 - start;
    var q, r := d / step, d % step;
    assert d == q * step + r;
    if start + step < stop {
      var d' := d - step;
      assert d' == (q - 1) * step + r;
      Isa.QuotientUnique(d' / step, d' % step, q - 1, r, step);
      assert (q - 1) * step == q * step - step;
    } else {
      Isa.QuotientUnique(q, r, 0, d, step);
    }
  }

  /** A loop that does nothing leaves its variable at the last value of the range, and alone when the range is empty. */
  lemma {:induction false} CountingLoop(ivar: string, i: i32, stop: i32, step: nat, env: Env, mem: Bytes)
    requires step > 0 && (i < stop ==> LastOf(i, stop, step) + step < TWO31)
    ensures i >= stop ==> Iterate(ivar, i, stop, step, Nil, env, mem) == Normal(env, mem)
    ensures i < stop ==>
      && -TWO31 <= LastOf(i, stop, step) < TWO31
      && Iterate(ivar, i, stop, step, Nil, env, mem) == Normal(env[ivar := LastOf(i, stop, step)], mem)
    decreases if i < stop then stop - i else 0
  {
    hide LastOf;
    if i < stop {
      LastAfterOne(i, stop, step);
      if i + step < stop {
        CountingLoop(ivar, i + step, stop, step, env[ivar := i], mem);
        assert env[ivar := i][ivar := LastOf(i, stop, step)] == env[ivar := LastOf(i, stop, step)];
      } else {
        assert Iterate(ivar, i, stop, step, Nil, env, mem) == Iterate(ivar, i + step, stop, step, Nil, env[ivar := i], mem);
      }
    }
  }

  /** A kernel has a result exactly when its run does not leave the subset. */
  lemma ResultDefined(k: Kernel, mem: Bytes, paramAddr: u32)
    requires InBounds(mem, paramAddr, 4 * |k.params|)
    ensures RunKernel(k, mem, paramAddr).Some? <==> ExecBlock(k.body, ParamEnv(k.params, mem, paramAddr), mem) != Stuck
  {
    hide ExecBlock, ParamEnv;
  }

  // --- the scope check ---

  predicate LoopFree(b: Block) {
    b.Cons? ==> !b.head.For? && b.head != OtherStmt && LoopFree(b.tail)
  }

  /** The names that a statement without a loop reads. */
  function ReadsOf(s: Stmt): set<string> {
    match s
    case Assign(ToName(_), value) => Reads(value)
    case Assign(ToElement(arr, index), value) => {arr} + Reads(index) + Reads(value)
    case AugAssign(ToName(id), _, value) => {id} + Reads(value)
    case AugAssign(ToElement(arr, index), _, value) => {arr} + Reads(index) + Reads(value)
    case _ => {}
  }

  predicate HasTarget(s: Stmt) {
    match s
    case Assign(target, _) => target != OtherTarget
    case AugAssign(target, _, _) => target != OtherTarget
    case _ => true
  }

  /** Every name is a parameter or assigned before it is read. */
  predicate BoundBeforeRead(b: Block, names: set<string>) {
    b.Cons? ==> HasTarget(b.head) && ReadsOf(b.head) <= names && BoundBeforeRead(b.tail, names + Introduces(b.head))
  }

  /** Code without loops passes the scope check exactly when every name is bound before it is read. */
  lemma {:induction false} LoopFreeScope(b: Block, names: set<string>)
    requires LoopFree(b)
    ensures BlockScope(b, names, {}).Some? <==> BoundBeforeRead(b, names)
  {
    if b.Cons? {
      SimpleScope(b.head, names);
      if Scope(b.head, names, {}).Some? {
        LoopFreeScope(b.tail, names + Introduces(b.head));
      }
    }
  }

  lemma SimpleScope(s: Stmt, names: set<string>)
    requires !s.For? && s != OtherStmt
    ensures Scope(s, names, {}).Some? <==> HasTarget(s) && ReadsOf(s) <= names
    ensures Scope(s, names, {}).Some? ==> Scope(s, names, {}).value == names + Introduces(s)
  {
    match s {
      case Assign(ToElement(arr, index), value) =>
        assert ReadsOf(s) == Reads(value) + Reads(index) + {arr};
        assert names + Introduces(s) == names;
      case AugAssign(ToElement(arr, index), op, value) =>
        assert ReadsOf(s) == ({arr} + Reads(index)) + Reads(value);
        assert Reads(Bin(op, Subscript(arr, index), value)) == ({arr} + Reads(index)) + Reads(value);
        assert names + Introduces(s) == names;
      case AugAssign(ToName(id), op, value) =>
        assert Reads(Bin(op, Name(id), value)) == {id} + Reads(value);
      case _ => NothingAdded(names);
    }
  }
}
