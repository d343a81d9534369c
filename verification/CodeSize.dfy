/**
 How long compiled code is and where its branches go, from the syntax tree alone, and with
 that exactly which kernels the scalar backend compiles.
 */
module CodeSize {
  import opened Bits
  import opened Isa
  import opened Machine
  import opened Kernel
  import opened Codegen
  import opened Allocation
  import opened Acceptance
  import opened Options
  import Preservation

  // --- code length ---

  /** `li`: one instruction for 12 bits, two for the negative of 12 bits, five otherwise. */
  function ConstLength(v: int): nat {
    var w := v % TWO32;
    if w < 0x1000 then 1 else if w > TWO32 - 0x1000 then 2 else 5
  }

  function ExprLength(e: Expr): nat {
    match e
    case Const(v) => ConstLength(v)
    case Name(_) => 0
    case Neg(operand) => ExprLength(operand) + 1
    case Bin(op, left, right) =>
      if Immediate(op, right) then ExprLength(left) + 1
      else ExprLength(left) + ExprLength(right) + if op == Mod then 3 else 1
    case Subscript(_, index) => ExprLength(index) + 2
    case OtherExpr => 0
  }

  /** Assigning a value to a name: a move, unless the value is in its register already. */
  function BindLength(id: string, value: Expr): nat {
    ExprLength(value) + if value == Name(id) then 0 else 1
  }

  function AssignLength(target: Target, value: Expr): nat {
    match target
    case ToName(id) => BindLength(id, value)
    case ToElement(_, index) => ExprLength(value) + ExprLength(index) + 2
    case OtherTarget => 0
  }

  function HeadLength(ivar: string, range: Range): nat {
    BindLength(ivar, range.start) + ExprLength(range.stop) + if range.stop.Name? then 1 else 0
  }

  function StmtLength(s: Stmt): nat {
    match s
    case For(ivar, args, body, _) =>
      (if RangeOf(args).Some? then HeadLength(ivar, RangeOf(args).value) else 0) + 2 + BlockLength(body) + 2
    case Assign(target, value) => AssignLength(target, value)
    case AugAssign(target, op, value) =>
      var assign := Expand(target, op, value);
      if assign.Assign? then AssignLength(assign.target, assign.value) else 0
    case Return(_) => 1
    case _ => 0
  }

  function BlockLength(b: Block): nat {
    match b
    case Nil => 0
    case Cons(head, tail) => StmtLength(head) + BlockLength(tail)
  }

  lemma ConstLengthOf(rd: nat, v: int)
    ensures |LoadConst(rd, v)| == ConstLength(v)
  {
    assert Wrap(v) == v % TWO32;
  }

  lemma {:induction false} ExprLengthOf(e: Expr, free: seq<nat>, vars: map<string, nat>)
    requires GenExpr(e, free, vars).Some?
    ensures |GenExpr(e, free, vars).value.code| == ExprLength(e)
    decreases e
  {
    hide Release, LoadConst;
    match e {
      case Const(v) => ConstLengthOf(free[0], v);
      case Name(_) =>
      case Neg(operand) => ExprLengthOf(operand, free, vars);
      case Bin(op, left, right) =>
        ExprLengthOf(left, free, vars);
        if !(SmallConst(right) && op != Mod) {
          ExprLengthOf(right, GenExpr(left, free, vars).value.free, vars);
        }
      case Subscript(_, index) => ExprLengthOf(index, free, vars);
    }
  }

  /** The home of a name is neither a register held aside nor the home of another name. */
  lemma HomeIsOther(a: Alloc, id: string, reg: nat)
    requires AllocOk(a) && Home(a, id).Some?
    requires Held(reg, a.free, a.vars) || exists x :: x in a.vars && x != id && a.vars[x] == reg
    ensures Home(a, id).value.vars[id] != reg
  {}

  lemma MoveLength(id: string, value: Expr, src: ExprCode, free: seq<nat>, vars: map<string, nat>, home: Alloc)
    requires HomesOk(vars) && FreeOk(free, vars) && GenExpr(value, free, vars) == Some(src)
    requires Home(Alloc(src.free, vars), id) == Some(home)
    ensures |Move(home.vars[id], src.reg)| == if value == Name(id) then 0 else 1
  {
    hide GenExpr, Release, HomesOk, FreeOk, Home;
    ExprAllocation(value, free, vars);
    ExprAccepted(value, free, vars);
    DeliversFree(src, free, vars);
    if value.Name? {
      NameShape(value.id, free, vars);
      if value.id == id {
        HomeOfKnown(Alloc(src.free, vars), id);
      } else {
        assert value.id in vars && value.id != id && vars[value.id] == src.reg;
        HomeIsOther(Alloc(src.free, vars), id, src.reg);
      }
    } else {
      HomeIsOther(Alloc(src.free, vars), id, src.reg);
    }
  }

  lemma HomeOfKnown(a: Alloc, id: string)
    requires id in a.vars
    ensures Home(a, id) == Some(a)
  {}

  lemma NameShape(id: string, free: seq<nat>, vars: map<string, nat>)
    requires GenExpr(Name(id), free, vars).Some?
    ensures id in vars && GenExpr(Name(id), free, vars) == Some(ExprCode([], free, vars[id], false))
  {}

  lemma AssignLengthOf(target: Target, value: Expr, a: Alloc)
    requires AllocOk(a) && GenAssign(target, value, a).Some?
    ensures |GenAssign(target, value, a).value.code| == AssignLength(target, value)
  {
    hide HomesOk, FreeOk, GenExpr, Home, Move, Release;
    ExprLengthOf(value, a.free, a.vars);
    var src := GenExpr(value, a.free, a.vars).value;
    match target {
      case ToName(id) => MoveLength(id, value, src, a.free, a.vars, Home(Alloc(src.free, a.vars), id).value);
      case ToElement(arr, index) => ExprLengthOf(index, src.free, a.vars);
    }
  }

  lemma BoundLengthOf(e: Expr, free: seq<nat>, vars: map<string, nat>)
    requires HomesOk(vars) && FreeOk(free, vars) && GenBound(e, free, vars).Some?
    ensures |GenBound(e, free, vars).value.code| == ExprLength(e) + if e.Name? then 1 else 0
  {
    hide GenExpr, HomesOk, FreeOk, Delivers;
    ExprLengthOf(e, free, vars);
    ExprAccepted(e, free, vars);
    if e.Name? {
      NameShape(e.id, free, vars);
      FrontIsNoHome(free, vars, e.id);
    }
  }

  lemma FrontIsNoHome(free: seq<nat>, vars: map<string, nat>, x: string)
    requires FreeOk(free, vars) && x in vars && free != []
    ensures free[0] != vars[x]
  {
    assert free[0] in free;
  }

  lemma HeadLengthOf(ivar: string, range: Range, a: Alloc)
    requires AllocOk(a) && GenLoopHead(ivar, range, a).Some?
    ensures |GenLoopHead(ivar, range, a).value.code| == HeadLength(ivar, range)
  {
    hide HomesOk, FreeOk, GenExpr, GenBound, Move, Release;
    HomeAllocation(a, ivar);
    var home := Home(a, ivar).value;
    ExprLengthOf(range.start, home.free, home.vars);
    ExprAllocation(range.start, home.free, home.vars);
    var start := GenExpr(range.start, home.free, home.vars).value;
    ExprOwned(start, home);
    ReleaseIfOwned(home.(free := start.free), start.tmp, start.reg);
    assert Home(Alloc(start.free, home.vars), ivar) == Some(Alloc(start.free, home.vars));
    MoveLength(ivar, range.start, start, home.free, home.vars, Alloc(start.free, home.vars));
    BoundLengthOf(range.stop, ReleaseIf(start.tmp, start.free, home.vars, start.reg), home.vars);
  }

  lemma {:induction false} StmtLengthOf(s: Stmt, a: Alloc, at: nat)
    requires AllocOk(a) && GenStmt(s, a, at).Some?
    ensures |GenStmt(s, a, at).value.code| == StmtLength(s)
    decreases s
  {
    hide AllocOk, GenAssign, GenLoopHead, Release;
    match s {
      case For(ivar, args, body, _) =>
        var range := RangeOf(args).value;
        var head := GenLoopHead(ivar, range, a).value;
        HeadLengthOf(ivar, range, a);
        LoopHeadAllocation(ivar, range, a);
        BlockLengthOf(body, head.alloc, at + |head.code| + 2);
      case Assign(target, value) => AssignLengthOf(target, value, a);
      case AugAssign(target, op, value) =>
        var assign := Expand(target, op, value);
        AssignLengthOf(assign.target, assign.value, a);
      case Return(_) =>
      case Docstring =>
      case Pass =>
    }
  }

  lemma {:induction false} BlockLengthOf(b: Block, a: Alloc, at: nat)
    requires AllocOk(a) && GenBlock(b, a, at).Some?
    ensures |GenBlock(b, a, at).value.code| == BlockLength(b)
    decreases b
  {
    hide AllocOk, GenStmt;
    match b {
      case Nil =>
      case Cons(head, tail) =>
        StmtLengthOf(head, a, at);
        StmtAllocation(head, a, at);
        var first := GenStmt(head, a, at).value;
        BlockLengthOf(tail, first.alloc, at + |first.code|);
    }
  }

  // --- branch targets ---

  /** The end of every loop of the block is an instruction index of 12 bits. */
  predicate EndsFit(b: Block, at: nat) {
    match b
    case Nil => true
    case Cons(head, tail) => (head.For? ==> at + StmtLength(head) <= IMM_MAX) && EndsFit(tail, at + StmtLength(head))
  }

  lemma {:induction false} ShortEnds(b: Block, at: nat)
    requires at + BlockLength(b) <= IMM_MAX
    ensures EndsFit(b, at)
  {
    if b.Cons? {
      ShortEnds(b.tail, at + StmtLength(b.head));
    }
  }

  lemma JoinProgram(a: seq<Instr>, b: seq<Instr>)
    ensures Program(a + b) <==> Program(a) && Program(b)
  {
    if Program(a + b) {
      forall k | 0 <= k < |a|
        ensures a[k].Encodable()
      {
        assert (a + b)[k] == a[k];
      }
      forall k | 0 <= k < |b|
        ensures b[k].Encodable()
      {
        assert (a + b)[|a| + k] == b[k];
      }
    }
  }

  lemma ConstProgram(rd: nat, v: int)
    requires InPool(rd)
    ensures Program(LoadConst(rd, v))
  {}

  lemma OperatorProgram(op: Op, t: nat, a: nat, b: nat)
    requires op == Mod || Opcode(op).Some?
    requires InPool(t) && InPool(a) && InPool(b)
    ensures Program(OperatorCode(op, t, a, b))
  {}

  lemma MoveProgram(rd: nat, rs: nat)
    requires InPool(rd) && InPool(rs)
    ensures Program(Move(rd, rs))
  {}

  lemma OneProgram(i: Instr)
    requires i.Encodable()
    ensures Program([i])
  {}

  lemma HomeInPool(vars: map<string, nat>, x: string)
    requires HomesOk(vars) && x in vars
    ensures InPool(vars[x])
  {}

  lemma FrontInPool(free: seq<nat>, vars: map<string, nat>)
    requires FreeOk(free, vars) && free != []
    ensures InPool(free[0])
  {
    assert free[0] in free;
  }

  lemma {:induction false} ExprProgram(e: Expr, free: seq<nat>, vars: map<string, nat>)
    requires HomesOk(vars) && FreeOk(free, vars) && GenExpr(e, free, vars).Some?
    ensures Program(GenExpr(e, free, vars).value.code)
    decreases e, 0
  {
    hide HomesOk, FreeOk, LoadConst, OperatorCode, Program, Release, Delivers;
    match e {
      case Const(v) =>
        FrontInPool(free, vars);
        ConstProgram(free[0], v);
      case Name(_) => NoProgram();
      case Neg(operand) =>
        var src := GenExpr(operand, free, vars).value;
        ExprProgram(operand, free, vars);
        ExprAllocation(operand, free, vars);
        DeliversFree(src, free, vars);
        FrontInPool(src.free, vars);
        var i := RForm(OP_SUB, src.free[0], R_ZERO, src.reg, 0, 0);
        OneProgram(i);
        JoinProgram(src.code, [i]);
      case Bin(op, left, right) =>
        var a := GenExpr(left, free, vars).value;
        ExprProgram(left, free, vars);
        ExprAllocation(left, free, vars);
        DeliversFree(a, free, vars);
        if SmallConst(right) && op != Mod {
          FrontInPool(a.free, vars);
          var i := IForm(Opcode(op).value, a.free[0], a.reg, right.v, 0);
          OneProgram(i);
          JoinProgram(a.code, [i]);
        } else {
          var b := GenExpr(right, a.free, vars).value;
          ExprProgram(right, a.free, vars);
          ExprAllocation(right, a.free, vars);
          DeliversFree(b, a.free, vars);
          FrontInPool(b.free, vars);
          OperatorProgram(op, b.free[0], a.reg, b.reg);
          JoinProgram(a.code, b.code);
          JoinProgram(a.code + b.code, OperatorCode(op, b.free[0], a.reg, b.reg));
        }
      case Subscript(arr, index) =>
        var off := GenOffset(arr, index, free, vars).value;
        OffsetProgram(arr, index, free, vars);
        OffsetAllocation(arr, index, free, vars);
        DeliversFree(off, free, vars);
        FrontInPool(off.free, vars);
        HomeInPool(vars, arr);
        var i := RForm(OP_LOAD, off.free[0], vars[arr], off.reg, 0, 0);
        OneProgram(i);
        JoinProgram(off.code, [i]);
    }
  }

  lemma NoProgram()
    ensures Program([])
  {}

  lemma {:induction false} OffsetProgram(arr: string, index: Expr, free: seq<nat>, vars: map<string, nat>)
    requires HomesOk(vars) && FreeOk(free, vars) && GenOffset(arr, index, free, vars).Some?
    ensures Program(GenOffset(arr, index, free, vars).value.code)
    decreases index, 1
  {
    hide HomesOk, FreeOk, Program, Delivers;
    var idx := GenExpr(index, free, vars).value;
    ExprProgram(index, free, vars);
    ExprAllocation(index, free, vars);
    DeliversFree(idx, free, vars);
    FrontInPool(idx.free, vars);
    var i := IForm(OP_SHL, idx.free[0], idx.reg, 2, 0);
    OneProgram(i);
    JoinProgram(idx.code, [i]);
  }

  lemma AssignProgram(target: Target, value: Expr, a: Alloc)
    requires AllocOk(a) && GenAssign(target, value, a).Some?
    ensures Program(GenAssign(target, value, a).value.code)
  {
    hide HomesOk, FreeOk, Program, Delivers, Release, Home;
    var src := GenExpr(value, a.free, a.vars).value;
    ExprProgram(value, a.free, a.vars);
    ExprAllocation(value, a.free, a.vars);
    DeliversFree(src, a.free, a.vars);
    match target {
      case ToName(id) =>
        var mid := Alloc(src.free, a.vars);
        HomeAllocation(mid, id);
        var home := Home(mid, id).value;
        HomeInPool(home.vars, id);
        MoveProgram(home.vars[id], src.reg);
        JoinProgram(src.code, Move(home.vars[id], src.reg));
      case ToElement(arr, index) =>
        var off := GenOffset(arr, index, src.free, a.vars).value;
        OffsetProgram(arr, index, src.free, a.vars);
        OffsetAllocation(arr, index, src.free, a.vars);
        DeliversFree(off, src.free, a.vars);
        HomeInPool(a.vars, arr);
        var i := RForm(OP_STORE, src.reg, a.vars[arr], off.reg, 0, 0);
        OneProgram(i);
        JoinProgram(src.code, off.code);
        JoinProgram(src.code + off.code, [i]);
    }
  }

  lemma BoundProgram(e: Expr, free: seq<nat>, vars: map<string, nat>)
    requires HomesOk(vars) && FreeOk(free, vars) && GenBound(e, free, vars).Some?
    ensures Program(GenBound(e, free, vars).value.code)
  {
    hide HomesOk, FreeOk, Program, Delivers, GenExpr;
    var stop := GenExpr(e, free, vars).value;
    ExprProgram(e, free, vars);
    ExprAllocation(e, free, vars);
    DeliversFree(stop, free, vars);
    if !stop.tmp {
      FrontInPool(stop.free, vars);
      MoveProgram(stop.free[0], stop.reg);
      JoinProgram(stop.code, Move(stop.free[0], stop.reg));
    }
  }

  lemma HeadProgram(ivar: string, range: Range, a: Alloc)
    requires AllocOk(a) && GenLoopHead(ivar, range, a).Some?
    ensures var h := GenLoopHead(ivar, range, a).value; Program(h.code) && InPool(h.ivar) && InPool(h.bound)
  {
    hide HomesOk, FreeOk, Program, Delivers, GenExpr, GenBound, Home, Release, ReleaseIf;
    HomeAllocation(a, ivar);
    var home := Home(a, ivar).value;
    var start := GenExpr(range.start, home.free, home.vars).value;
    ExprProgram(range.start, home.free, home.vars);
    ExprAllocation(range.start, home.free, home.vars);
    DeliversFree(start, home.free, home.vars);
    HomeInPool(home.vars, ivar);
    MoveProgram(home.vars[ivar], start.reg);
    JoinProgram(start.code, Move(home.vars[ivar], start.reg));
    StartReleased(range.start, home);
    var free := ReleaseIf(start.tmp, start.free, home.vars, start.reg);
    BoundProgram(range.stop, free, home.vars);
    BoundAllocation(range.stop, free, home.vars);
    var bound := GenBound(range.stop, free, home.vars).value;
    DeliversFree(bound, free, home.vars);
    JoinProgram(start.code + Move(home.vars[ivar], start.reg), bound.code);
  }

  lemma LoopProgram(ivar: nat, bound: nat, step: nat, end: nat, top: nat)
    requires InPool(ivar) && InPool(bound) && step <= IMM_MAX && top <= end
    ensures Program(LoopTest(ivar, bound, end)) && Program(LoopBack(ivar, step, top)) <==> end <= IMM_MAX
  {
    assert LoopTest(ivar, bound, end)[1].Encodable() <==> end <= IMM_MAX;
  }

  lemma ForParts(s: Stmt, a: Alloc, at: nat)
    requires s.For? && GenStmt(s, a, at).Some?
    ensures RangeOf(s.args).Some? && RangeOf(s.args).value.step <= IMM_MAX && GenLoopHead(s.ivar, RangeOf(s.args).value, a).Some?
    ensures var range := RangeOf(s.args).value;
      var head := GenLoopHead(s.ivar, range, a).value;
      var top := at + |head.code|;
      var inner := GenBlock(s.body, head.alloc, top + 2);
      && inner.Some?
      && var end := top + 2 + |inner.value.code| + 2;
         GenStmt(s, a, at).value.code
         == head.code + LoopTest(head.ivar, head.bound, end) + inner.value.code + LoopBack(head.ivar, range.step, top)
  {
    hide GenLoopHead, GenBlock, LoopTest, LoopBack, Release;
  }

  lemma FourPrograms(a: seq<Instr>, b: seq<Instr>, c: seq<Instr>, d: seq<Instr>)
    ensures Program(a + b + c + d) <==> Program(a) && Program(b) && Program(c) && Program(d)
  {
    hide Program;
    JoinProgram(a, b);
    JoinProgram(a + b, c);
    JoinProgram(a + b + c, d);
  }

  lemma {:induction false} ForProgram(s: Stmt, a: Alloc, at: nat)
    requires s.For? && AllocOk(a) && GenStmt(s, a, at).Some?
    ensures Program(GenStmt(s, a, at).value.code) <==> at + StmtLength(s) <= IMM_MAX
    decreases s, 0
  {
    hide AllocOk, GenLoopHead, GenBlock, GenStmt, LoopTest, LoopBack, Program, EndsFit, HeadLength;
    ForParts(s, a, at);
    var range := RangeOf(s.args).value;
    var head := GenLoopHead(s.ivar, range, a).value;
    var top := at + |head.code|;
    var inner := GenBlock(s.body, head.alloc, top + 2).value;
    var end := top + 2 + |inner.code| + 2;
    HeadProgram(s.ivar, range, a);
    HeadLengthOf(s.ivar, range, a);
    LoopHeadAllocation(s.ivar, range, a);
    BlockLengthOf(s.body, head.alloc, top + 2);
    BlockProgram(s.body, head.alloc, top + 2);
    LoopProgram(head.ivar, head.bound, range.step, end, top);
    FourPrograms(head.code, LoopTest(head.ivar, head.bound, end), inner.code, LoopBack(head.ivar, range.step, top));
    if end <= IMM_MAX {
      ShortEnds(s.body, top + 2);
    }
  }

  lemma {:induction false} StmtProgram(s: Stmt, a: Alloc, at: nat)
    requires AllocOk(a) && GenStmt(s, a, at).Some?
    ensures Program(GenStmt(s, a, at).value.code) <==> (s.For? ==> at + StmtLength(s) <= IMM_MAX)
    decreases s, 1
  {
    hide AllocOk, GenAssign, GenLoopHead, GenBlock, StmtLength;
    match s {
      case For(_, _, _, _) => ForProgram(s, a, at);
      case Assign(target, value) => AssignProgram(target, value, a);
      case AugAssign(target, op, value) =>
        var assign := Expand(target, op, value);
        AssignProgram(assign.target, assign.value, a);
      case Return(_) =>
      case Docstring =>
      case Pass =>
    }
  }

  /** The code of a block is encodable exactly when the ends of its loops are. */
  lemma {:induction false} BlockProgram(b: Block, a: Alloc, at: nat)
    requires AllocOk(a) && GenBlock(b, a, at).Some?
    ensures Program(GenBlock(b, a, at).value.code) <==> EndsFit(b, at)
    decreases b
  {
    hide AllocOk, GenStmt, Program, StmtLength;
    match b {
      case Nil => NoProgram();
      case Cons(head, tail) =>
        var first := GenStmt(head, a, at).value;
        StmtProgram(head, a, at);
        StmtLengthOf(head, a, at);
        StmtAllocation(head, a, at);
        BlockProgram(tail, first.alloc, at + |first.code|);
        JoinProgram(first.code, GenBlock(tail, first.alloc, at + |first.code|).value.code);
    }
  }

  // --- kernels ---

  predicate ParamsFit(params: seq<string>) {
    |Names(params)| <= REGISTERS && (params != [] ==> 4 * (|params| - 1) <= IMM_MAX)
  }

  lemma PoolSize()
    ensures |Pool(POOL_LO)| == REGISTERS
  {}

  lemma ParamsShape(params: seq<string>)
    requires params != []
    ensures var k := |params| - 1;
      var before := GenParams(params[..k]);
      && (before.None? ==> GenParams(params).None?)
      && (before.Some? ==>
            var home := Home(before.value.alloc, params[k]);
            && (GenParams(params).Some? <==> home.Some? && 4 * k <= IMM_MAX)
            && (GenParams(params).Some? ==>
                  && GenParams(params).value.alloc == home.value && params[k] in home.value.vars
                  && GenParams(params).value.code
                     == before.value.code + [IForm(OP_LOAD, home.value.vars[params[k]], R_PARAM, 4 * k, 0)]))
  {}

  lemma MoreNames(a: set<string>, x: string)
    ensures |a| <= |a + {x}| <= |a| + 1
    ensures x !in a ==> |a + {x}| == |a| + 1
    ensures x in a ==> a + {x} == a
  {
    if x in a {
      assert a + {x} == a;
    }
  }

  lemma {:induction false} ParamsAccepted(params: seq<string>)
    ensures GenParams(params).Some? <==> ParamsFit(params)
    ensures GenParams(params).Some? ==>
      var g := GenParams(params).value;
      Accounted(g.alloc, 0) && g.alloc.vars.Keys == Names(params) && |g.code| == |params| && Program(g.code)
  {
    hide HomesOk, FreeOk, Program, Home, Pool;
    if params == [] {
      PoolSize();
      Preservation.ParamsAllocation(params);
      NoProgram();
      assert GenParams(params).value.alloc.vars.Keys == Names(params) == {};
    } else {
      var k := |params| - 1;
      var names := Names(params[..k]);
      ParamsAccepted(params[..k]);
      ParamsShape(params);
      Preservation.NamesLast(params);
      MoreNames(names, params[k]);
      if GenParams(params[..k]).Some? {
        var before := GenParams(params[..k]).value;
        HomeCount(before.alloc, params[k]);
        if GenParams(params).Some? {
          var home := Home(before.alloc, params[k]).value;
          HomeInPool(home.vars, params[k]);
          OneProgram(IForm(OP_LOAD, home.vars[params[k]], R_PARAM, 4 * k, 0));
          JoinProgram(before.code, [IForm(OP_LOAD, home.vars[params[k]], R_PARAM, 4 * k, 0)]);
        }
      }
    }
  }

  /** The scalar backend's subset of the language, and its limits on registers and code size. */
  predicate Compilable(k: Kernel) {
    ParamsFit(k.params) && BlockFits(k.body, Names(k.params), 0) && EndsFit(k.body, |k.params|)
  }

  /** Main result: the scalar backend compiles a kernel if and only if its text is within the subset and the limits. */
  lemma CompilesExactly(k: Kernel)
    ensures Compile(k).Some? <==> Compilable(k)
    ensures Compile(k).Some? ==> |Compile(k).value| == |k.params| + BlockLength(k.body) + 1
  {
    hide GenParams, GenBlock, Accounted, ParamsFit, BlockFits, EndsFit, Program;
    ParamsAccepted(k.params);
    if GenParams(k.params).Some? {
      var prologue := GenParams(k.params).value;
      BlockAccepted(k.body, prologue.alloc, 0, |prologue.code|);
      if GenBlock(k.body, prologue.alloc, |prologue.code|).Some? {
        var body := GenBlock(k.body, prologue.alloc, |prologue.code|).value;
        AccountedOk(prologue.alloc, 0);
        BlockLengthOf(k.body, prologue.alloc, |prologue.code|);
        BlockProgram(k.body, prologue.alloc, |prologue.code|);
        OneProgram(EXIT);
        JoinProgram(prologue.code, body.code);
        JoinProgram(prologue.code + body.code, [EXIT]);
        CompileShape(k, prologue, body);
      }
    }
  }

  lemma CompileShape(k: Kernel, prologue: StmtCode, body: StmtCode)
    requires GenParams(k.params) == Some(prologue) && GenBlock(k.body, prologue.alloc, |prologue.code|) == Some(body)
    ensures var code := prologue.code + body.code + [EXIT];
      && (Compile(k).Some? <==> Program(code))
      && (Compile(k).Some? ==> Compile(k).value == code)
  {
    hide GenParams, GenBlock;
  }
}
