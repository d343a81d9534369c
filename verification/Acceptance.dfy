/**
 Which kernels the scalar backend compiles, from the syntax tree alone: its constructs are
 supported, the names it reads have been mentioned before, its registers suffice, and its
 branch targets and parameter offsets fit 12 bits. Nothing else makes the compiler raise an
 exception.
 */
module Acceptance {
  import opened Isa
  import opened Kernel
  import opened Codegen
  import opened Allocation
  import opened Options

  /** How many registers the pool r2..r57 has. */
  const REGISTERS: nat := 56

  // --- expressions ---

  predicate Supported(e: Expr) {
    match e
    case Const(_) => true
    case Name(_) => true
    case Neg(operand) => Supported(operand)
    case Bin(op, left, right) => op != OtherOp && Supported(left) && Supported(right)
    case Subscript(_, index) => Supported(index)
    case OtherExpr => false
  }

  function Greater(a: nat, b: nat): nat {
    if a < b then b else a
  }

  /** The register that the value of an expression occupies, beyond the homes of names. */
  function Temporary(e: Expr): nat {
    if e.Name? then 0 else 1
  }

  /**
   How many free registers an expression needs: operands are computed from left to right,
   each held while the next is computed, and the result is taken before they are given back.
   */
  function Need(e: Expr): nat {
    match e
    case Const(_) => 1
    case Name(_) => 0
    case Neg(operand) => Greater(Need(operand), Temporary(operand) + 1)
    case Bin(op, left, right) =>
      var held := Temporary(left);
      if Immediate(op, right) then Greater(Need(left), held + 1)
      else Greater(Need(left), Greater(held + Need(right), held + Temporary(right) + 1))
    case Subscript(_, index) => Greater(Need(index), 2)
    case OtherExpr => 1
  }

  /** The right operand is part of the instruction: a constant of 12 bits, but not for a remainder. */
  predicate Immediate(op: Op, right: Expr) {
    op != Mod && right.Const? && 0 <= right.v < 0x1000
  }

  /** What is left of the free list when an expression has been compiled. */
  predicate Leaves(g: ExprCode, e: Expr, free: seq<nat>) {
    |g.free| + Temporary(e) == |free| && (g.tmp <==> Temporary(e) == 1)
  }

  lemma RetargetCount(g: ExprCode, free: seq<nat>, vars: map<string, nat>)
    requires FreeOk(free, vars) && Delivers(g, free, vars) && g.free != []
    ensures |ReleaseIf(g.tmp, g.free[1..], vars, g.reg)| == |g.free| - 1 + if g.tmp then 1 else 0
  {
    TakeFront(g.free, vars);
    if g.tmp {
      ReleaseHeld(g.free[1..], vars, g.reg);
    }
  }

  lemma RetargetTwoCount(a: ExprCode, b: ExprCode, free: seq<nat>, vars: map<string, nat>)
    requires FreeOk(free, vars) && Delivers(a, free, vars) && Delivers(b, a.free, vars) && b.free != []
    ensures |ReleaseIf(b.tmp, ReleaseIf(a.tmp, b.free[1..], vars, a.reg), vars, b.reg)|
         == |b.free| - 1 + (if a.tmp then 1 else 0) + if b.tmp then 1 else 0
  {
    TakeFront(b.free, vars);
    if a.tmp {
      ReleaseHeld(b.free[1..], vars, a.reg);
    }
    if b.tmp {
      ReleaseHeld(ReleaseIf(a.tmp, b.free[1..], vars, a.reg), vars, b.reg);
    }
  }

  lemma OpcodeOfSupported(op: Op)
    ensures op != OtherOp <==> op == Mod || Opcode(op).Some?
  {}

  /** An expression compiles exactly when it is supported, its names have homes and there are registers for it. */
  lemma {:induction false} ExprAccepted(e: Expr, free: seq<nat>, vars: map<string, nat>)
    requires HomesOk(vars) && FreeOk(free, vars)
    ensures GenExpr(e, free, vars).Some? <==> Supported(e) && Reads(e) <= vars.Keys && Need(e) <= |free|
    ensures GenExpr(e, free, vars).Some? ==> Leaves(GenExpr(e, free, vars).value, e, free)
    decreases e, 1
  {
    hide HomesOk, FreeOk, Delivers, Distinct, Release, LoadConst, OperatorCode;
    match e {
      case Const(_) =>
      case Name(_) =>
      case Neg(operand) =>
        ExprAccepted(operand, free, vars);
        if GenExpr(operand, free, vars).Some? {
          var src := GenExpr(operand, free, vars).value;
          ExprAllocation(operand, free, vars);
          if src.free != [] {
            RetargetCount(src, free, vars);
          }
        }
      case Bin(op, left, right) =>
        OpcodeOfSupported(op);
        BinAccepted(op, left, right, free, vars);
      case Subscript(arr, index) =>
        OffsetAccepted(arr, index, free, vars);
        if GenOffset(arr, index, free, vars).Some? {
          var off := GenOffset(arr, index, free, vars).value;
          OffsetAllocation(arr, index, free, vars);
          if off.free != [] {
            RetargetCount(off, free, vars);
          }
        }
      case OtherExpr =>
    }
  }

  lemma ImmediateShape(op: Op, left: Expr, right: Expr, free: seq<nat>, vars: map<string, nat>)
    requires Immediate(op, right)
    ensures var e, a := Bin(op, left, right), GenExpr(left, free, vars);
      && (GenExpr(e, free, vars).Some? <==> op != OtherOp && a.Some? && a.value.free != [])
      && (GenExpr(e, free, vars).Some? ==>
            var g := GenExpr(e, free, vars).value;
            g.tmp && g.free == ReleaseIf(a.value.tmp, a.value.free[1..], vars, a.value.reg))
      && Need(e) == Greater(Need(left), Temporary(left) + 1) && Reads(e) == Reads(left) && (Supported(e) <==> op != OtherOp && Supported(left))
  {
    hide Release;
    OpcodeOfSupported(op);
    assert SmallConst(right) && Reads(right) == {};
    assert Reads(Bin(op, left, right)) == Reads(left);
  }

  lemma TwoShape(op: Op, left: Expr, right: Expr, free: seq<nat>, vars: map<string, nat>)
    requires !Immediate(op, right)
    ensures var e, a := Bin(op, left, right), GenExpr(left, free, vars);
      && (a.None? ==> GenExpr(e, free, vars).None?)
      && (a.Some? ==>
            var b := GenExpr(right, a.value.free, vars);
            && (GenExpr(e, free, vars).Some? <==> op != OtherOp && b.Some? && b.value.free != [])
            && (GenExpr(e, free, vars).Some? ==>
                  var g := GenExpr(e, free, vars).value;
                  g.tmp && g.free == ReleaseIf(b.value.tmp, ReleaseIf(a.value.tmp, b.value.free[1..], vars, a.value.reg), vars, b.value.reg)))
      && Need(e) == Greater(Need(left), Greater(Temporary(left) + Need(right), Temporary(left) + Temporary(right) + 1))
  {
    hide Release, OperatorCode;
    OpcodeOfSupported(op);
    assert !(SmallConst(right) && op != Mod);
  }

  lemma {:induction false} BinAccepted(op: Op, left: Expr, right: Expr, free: seq<nat>, vars: map<string, nat>)
    requires HomesOk(vars) && FreeOk(free, vars)
    ensures var e := Bin(op, left, right);
      && (GenExpr(e, free, vars).Some? <==> Supported(e) && Reads(e) <= vars.Keys && Need(e) <= |free|)
      && (GenExpr(e, free, vars).Some? ==> Leaves(GenExpr(e, free, vars).value, e, free))
    decreases Bin(op, left, right), 0
  {
    hide HomesOk, FreeOk, Delivers, Release, ReleaseIf, GenExpr, Need, Immediate;
    ExprAccepted(left, free, vars);
    if Immediate(op, right) {
      ImmediateShape(op, left, right, free, vars);
    } else {
      TwoShape(op, left, right, free, vars);
    }
    if GenExpr(left, free, vars).Some? {
      var a := GenExpr(left, free, vars).value;
      ExprAllocation(left, free, vars);
      DeliversFree(a, free, vars);
      if Immediate(op, right) {
        if a.free != [] {
          RetargetCount(a, free, vars);
        }
      } else {
        ExprAccepted(right, a.free, vars);
        if GenExpr(right, a.free, vars).Some? {
          var b := GenExpr(right, a.free, vars).value;
          ExprAllocation(right, a.free, vars);
          if b.free != [] {
            RetargetTwoCount(a, b, free, vars);
          }
        }
      }
    }
  }

  lemma {:induction false} OffsetAccepted(arr: string, index: Expr, free: seq<nat>, vars: map<string, nat>)
    requires HomesOk(vars) && FreeOk(free, vars)
    ensures GenOffset(arr, index, free, vars).Some? <==>
      arr in vars && Supported(index) && Reads(index) <= vars.Keys && Need(index) <= |free| && Temporary(index) + 1 <= |free|
    ensures GenOffset(arr, index, free, vars).Some? ==>
      var g := GenOffset(arr, index, free, vars).value; g.tmp && |g.free| + 1 == |free|
    decreases index, 2
  {
    hide HomesOk, FreeOk, Delivers, Distinct, Release;
    ExprAccepted(index, free, vars);
    if GenExpr(index, free, vars).Some? {
      var idx := GenExpr(index, free, vars).value;
      ExprAllocation(index, free, vars);
      if idx.free != [] {
        RetargetCount(idx, free, vars);
      }
    }
  }

  // --- statements ---

  /** With `used` registers taken, the expression compiles. */
  predicate ExprFits(e: Expr, names: set<string>, used: nat) {
    Supported(e) && Reads(e) <= names && used + Need(e) <= REGISTERS
  }

  predicate OffsetFits(arr: string, index: Expr, names: set<string>, used: nat) {
    arr in names && ExprFits(index, names, used) && used + Temporary(index) + 1 <= REGISTERS
  }

  predicate AssignFits(target: Target, value: Expr, names: set<string>, used: nat) {
    && ExprFits(value, names, used)
    && match target
       case ToName(id) => id in names || used + Temporary(value) + 1 <= REGISTERS
       case ToElement(arr, index) => OffsetFits(arr, index, names, used + Temporary(value))
       case OtherTarget => false
  }

  /** The names that get a home in a statement. */
  function Introduces(s: Stmt): set<string> {
    match s
    case For(ivar, _, body, _) => {ivar} + BlockIntroduces(body)
    case Assign(target, _) => TargetName(target)
    case AugAssign(target, _, _) => TargetName(target)
    case _ => {}
  }

  function BlockIntroduces(b: Block): set<string> {
    match b
    case Nil => {}
    case Cons(head, tail) => Introduces(head) + BlockIntroduces(tail)
  }

  function TargetName(target: Target): set<string> {
    match target
    case ToName(id) => {id}
    case _ => {}
  }

  /**
   A statement that comes after the mention of `names` in the text, inside `depth` loops:
   every name has a register, and so has the bound of every enclosing loop.
   */
  predicate StmtFits(s: Stmt, names: set<string>, depth: nat) {
    match s
    case For(ivar, args, body, hasElse) =>
      var range, inside := RangeOf(args), names + {ivar};
      && range.Some? && range.value.step <= IMM_MAX && !hasElse
      && ExprFits(range.value.start, inside, |inside| + depth) && ExprFits(range.value.stop, inside, |inside| + depth)
      && |inside| + depth + 1 <= REGISTERS
      && BlockFits(body, inside, depth + 1)
    case Assign(target, value) => AssignFits(target, value, names, |names| + depth)
    case AugAssign(target, op, value) =>
      var assign := Expand(target, op, value);
      assign.Assign? && AssignFits(assign.target, assign.value, names, |names| + depth)
    case Return(hasValue) => !hasValue
    case Docstring => true
    case Pass => true
    case OtherStmt => false
  }

  predicate BlockFits(b: Block, names: set<string>, depth: nat) {
    match b
    case Nil => true
    case Cons(head, tail) => StmtFits(head, names, depth) && BlockFits(tail, names + Introduces(head), depth)
  }

  /** Every register is free, the home of a name, or the bound of one of `depth` loops. */
  predicate Accounted(a: Alloc, depth: nat) {
    AllocOk(a) && |a.free| + |a.vars.Keys| + depth == REGISTERS
  }

  lemma HomeCount(a: Alloc, name: string)
    requires AllocOk(a)
    ensures Home(a, name).Some? <==> name in a.vars || |a.free| > 0
    ensures Home(a, name).Some? ==>
      var b := Home(a, name).value;
      AllocOk(b) && b.vars.Keys == a.vars.Keys + {name} && |b.free| + |b.vars.Keys| == |a.free| + |a.vars.Keys|
  {
    if Home(a, name).Some? {
      HomeAllocation(a, name);
      var b := Home(a, name).value;
      if name in a.vars {
        assert a.vars.Keys + {name} == a.vars.Keys;
      } else {
        assert b.vars.Keys == a.vars.Keys + {name};
      }
    }
  }

  lemma NameAssignShape(id: string, value: Expr, a: Alloc)
    ensures var src := GenExpr(value, a.free, a.vars);
      && (src.None? ==> GenAssign(ToName(id), value, a).None?)
      && (src.Some? ==>
            var home := Home(a.(free := src.value.free), id);
            && (GenAssign(ToName(id), value, a).Some? <==> home.Some?)
            && (home.Some? ==>
                  GenAssign(ToName(id), value, a).value.alloc
                  == home.value.(free := ReleaseIf(src.value.tmp, home.value.free, home.value.vars, src.value.reg))))
  {
    hide GenExpr, Home, Release;
  }

  lemma ReleaseIfCount(a: Alloc, tmp: bool, reg: nat)
    requires AllocOk(a) && (tmp ==> Held(reg, a.free, a.vars))
    ensures var b := a.(free := ReleaseIf(tmp, a.free, a.vars, reg)); AllocOk(b) && |b.free| == |a.free| + if tmp then 1 else 0
  {
    if tmp {
      ReleaseHeld(a.free, a.vars, reg);
    }
  }

  lemma HeldOfTemporary(g: ExprCode, free: seq<nat>, vars: map<string, nat>)
    requires Delivers(g, free, vars)
    ensures g.tmp ==> Held(g.reg, g.free, vars)
  {}

  lemma NameAccepted(id: string, value: Expr, a: Alloc, depth: nat)
    requires Accounted(a, depth)
    ensures GenAssign(ToName(id), value, a).Some? <==> AssignFits(ToName(id), value, a.vars.Keys, |a.vars.Keys| + depth)
    ensures GenAssign(ToName(id), value, a).Some? ==>
      var b := GenAssign(ToName(id), value, a).value.alloc; b.vars.Keys == a.vars.Keys + {id} && Accounted(b, depth)
  {
    hide FreeOk, HomesOk, Need, GenExpr, GenAssign, Home, Release, ReleaseIf, Held, Owned, Delivers;
    NameAssignShape(id, value, a);
    ExprAccepted(value, a.free, a.vars);
    if GenExpr(value, a.free, a.vars).Some? {
      var src := GenExpr(value, a.free, a.vars).value;
      ExprAllocation(value, a.free, a.vars);
      ExprOwned(src, a);
      var mid := a.(free := src.free);
      HomeCount(mid, id);
      if Home(mid, id).Some? {
        var home := Home(mid, id).value;
        HomeAllocation(mid, id);
        GrownOwned(mid, home);
        HeldOfTemporary(src, a.free, a.vars);
        if src.tmp {
          HeldThroughout(src.reg, mid, home);
        }
        ReleaseIfCount(home, src.tmp, src.reg);
      }
    }
  }

  lemma ElementAssignShape(arr: string, index: Expr, value: Expr, a: Alloc)
    ensures var val, g := GenExpr(value, a.free, a.vars), GenAssign(ToElement(arr, index), value, a);
      && (val.None? ==> g.None?)
      && (val.Some? ==>
            var off := GenOffset(arr, index, val.value.free, a.vars);
            && (g.Some? <==> off.Some?)
            && (off.Some? ==>
                  g.value.alloc
                  == a.(free := Release(ReleaseIf(val.value.tmp, off.value.free, a.vars, val.value.reg), a.vars, off.value.reg))))
  {
    hide GenExpr, GenOffset, Release;
  }

  lemma ElementAccepted(arr: string, index: Expr, value: Expr, a: Alloc, depth: nat)
    requires Accounted(a, depth)
    ensures GenAssign(ToElement(arr, index), value, a).Some? <==> AssignFits(ToElement(arr, index), value, a.vars.Keys, |a.vars.Keys| + depth)
    ensures GenAssign(ToElement(arr, index), value, a).Some? ==>
      var b := GenAssign(ToElement(arr, index), value, a).value.alloc; b.vars.Keys == a.vars.Keys && Accounted(b, depth)
  {
    hide FreeOk, HomesOk, Need, Reads, Supported, GenExpr, GenOffset, GenAssign, Release, ReleaseIf, Delivers, Held, Owned;
    ElementAssignShape(arr, index, value, a);
    ExprAccepted(value, a.free, a.vars);
    if GenExpr(value, a.free, a.vars).Some? {
      var val := GenExpr(value, a.free, a.vars).value;
      ExprAllocation(value, a.free, a.vars);
      DeliversFree(val, a.free, a.vars);
      OffsetAccepted(arr, index, val.free, a.vars);
      if GenOffset(arr, index, val.free, a.vars).Some? {
        var off := GenOffset(arr, index, val.free, a.vars).value;
        OffsetAllocation(arr, index, val.free, a.vars);
        AssignAllocation(ToElement(arr, index), value, a);
        ReleasedCount(val, off, a);
      }
    }
  }

  lemma ReleasedCount(val: ExprCode, off: ExprCode, a: Alloc)
    requires AllocOk(a) && Delivers(val, a.free, a.vars) && Delivers(off, val.free, a.vars) && off.tmp
    ensures |Release(ReleaseIf(val.tmp, off.free, a.vars, val.reg), a.vars, off.reg)| == |off.free| + 1 + if val.tmp then 1 else 0
  {
    if val.tmp {
      ReleaseHeld(off.free, a.vars, val.reg);
    }
    ReleaseHeld(ReleaseIf(val.tmp, off.free, a.vars, val.reg), a.vars, off.reg);
  }

  lemma AssignAccepted(target: Target, value: Expr, a: Alloc, depth: nat)
    requires Accounted(a, depth)
    ensures GenAssign(target, value, a).Some? <==> AssignFits(target, value, a.vars.Keys, |a.vars.Keys| + depth)
    ensures GenAssign(target, value, a).Some? ==>
      var b := GenAssign(target, value, a).value.alloc; b.vars.Keys == a.vars.Keys + TargetName(target) && Accounted(b, depth)
  {
    hide Accounted, AssignFits;
    match target {
      case ToName(id) => NameAccepted(id, value, a, depth);
      case ToElement(arr, index) => ElementAccepted(arr, index, value, a, depth);
      case OtherTarget => OtherTargetRefused(value, a, depth);
    }
  }

  lemma OtherTargetRefused(value: Expr, a: Alloc, depth: nat)
    ensures GenAssign(OtherTarget, value, a).None? && !AssignFits(OtherTarget, value, a.vars.Keys, |a.vars.Keys| + depth)
  {}

  lemma BoundAccepted(e: Expr, free: seq<nat>, vars: map<string, nat>)
    requires HomesOk(vars) && FreeOk(free, vars)
    ensures GenBound(e, free, vars).Some? <==> Supported(e) && Reads(e) <= vars.Keys && Need(e) <= |free| && 1 <= |free|
    ensures GenBound(e, free, vars).Some? ==> |GenBound(e, free, vars).value.free| + 1 == |free|
  {
    hide FreeOk, HomesOk, GenExpr;
    ExprAccepted(e, free, vars);
    NeedOfTemporary(e);
  }

  lemma NeedOfTemporary(e: Expr)
    ensures Temporary(e) <= Need(e)
  {}

  lemma HeadShape(ivar: string, range: Range, a: Alloc, home: Alloc)
    requires Home(a, ivar) == Some(home)
    ensures var start, head := GenExpr(range.start, home.free, home.vars), GenLoopHead(ivar, range, a);
      && (start.None? ==> head.None?)
      && (start.Some? ==>
            var bound := GenBound(range.stop, ReleaseIf(start.value.tmp, start.value.free, home.vars, start.value.reg), home.vars);
            && (head.Some? <==> bound.Some?)
            && (head.Some? ==> head.value.alloc == home.(free := bound.value.free)))
  {
    hide GenExpr, GenBound, Home, ReleaseIf, Move;
  }

  lemma HeadWithoutHome(ivar: string, range: Range, a: Alloc)
    requires Home(a, ivar).None?
    ensures GenLoopHead(ivar, range, a).None?
  {
    hide GenExpr, GenBound, Home;
  }

  /** The start value is given back before the stop value is computed. */
  lemma StartReleased(e: Expr, home: Alloc)
    requires AllocOk(home) && GenExpr(e, home.free, home.vars).Some?
    ensures var g := GenExpr(e, home.free, home.vars).value;
      var b := home.(free := ReleaseIf(g.tmp, g.free, home.vars, g.reg));
      AllocOk(b) && |b.free| == |home.free|
  {
    hide FreeOk, HomesOk, GenExpr, Held, Release, Delivers, Owned;
    ExprAccepted(e, home.free, home.vars);
    ExprAllocation(e, home.free, home.vars);
    var g := GenExpr(e, home.free, home.vars).value;
    ExprOwned(g, home);
    HeldOfTemporary(g, home.free, home.vars);
    ReleaseIfCount(home.(free := g.free), g.tmp, g.reg);
  }

  lemma HeadAccepted(ivar: string, range: Range, a: Alloc, depth: nat)
    requires Accounted(a, depth)
    ensures GenLoopHead(ivar, range, a).Some? <==>
      var inside := a.vars.Keys + {ivar};
      && ExprFits(range.start, inside, |inside| + depth) && ExprFits(range.stop, inside, |inside| + depth)
      && |inside| + depth + 1 <= REGISTERS
    ensures GenLoopHead(ivar, range, a).Some? ==>
      var h := GenLoopHead(ivar, range, a).value; h.alloc.vars.Keys == a.vars.Keys + {ivar} && Accounted(h.alloc, depth + 1)
  {
    hide FreeOk, HomesOk, Need, Reads, Supported, GenExpr, GenBound, GenLoopHead, Home, Release, ReleaseIf, Held, Owned;
    HomeCount(a, ivar);
    if Home(a, ivar).None? {
      HeadWithoutHome(ivar, range, a);
      HomelessFull(a, ivar);
    } else {
      var home := Home(a, ivar).value;
      HeadShape(ivar, range, a, home);
      ExprAccepted(range.start, home.free, home.vars);
      if GenExpr(range.start, home.free, home.vars).Some? {
        var start := GenExpr(range.start, home.free, home.vars).value;
        StartReleased(range.start, home);
        var free := ReleaseIf(start.tmp, start.free, home.vars, start.reg);
        BoundAccepted(range.stop, free, home.vars);
        if GenBound(range.stop, free, home.vars).Some? {
          LoopHeadAllocation(ivar, range, a);
        }
      }
    }
  }

  lemma HomelessFull(a: Alloc, ivar: string)
    requires AllocOk(a) && Home(a, ivar).None?
    ensures ivar !in a.vars && |a.free| == 0 && |a.vars.Keys + {ivar}| == |a.vars.Keys| + 1
  {}

  lemma ForShape(s: Stmt, a: Alloc, at: nat)
    requires s.For? && RangeOf(s.args).Some? && GenLoopHead(s.ivar, RangeOf(s.args).value, a).Some?
    ensures var head := GenLoopHead(s.ivar, RangeOf(s.args).value, a).value;
      var inner := GenBlock(s.body, head.alloc, at + |head.code| + 2);
      && (GenStmt(s, a, at).Some? <==> inner.Some? && RangeOf(s.args).value.step <= IMM_MAX && !s.hasElse)
      && (GenStmt(s, a, at).Some? ==>
            GenStmt(s, a, at).value.alloc
            == inner.value.alloc.(free := Release(inner.value.alloc.free, inner.value.alloc.vars, head.bound)))
  {
    hide GenLoopHead, GenBlock, LoopTest, LoopBack, Release;
  }

  lemma ForRefused(s: Stmt, a: Alloc, at: nat)
    requires s.For? && (RangeOf(s.args).None? || GenLoopHead(s.ivar, RangeOf(s.args).value, a).None?)
    ensures GenStmt(s, a, at).None?
  {
    hide GenLoopHead, GenBlock;
  }

  lemma ForFits(s: Stmt, names: set<string>, depth: nat)
    requires s.For?
    ensures var range, inside := RangeOf(s.args), names + {s.ivar};
      StmtFits(s, names, depth) <==>
        && range.Some? && range.value.step <= IMM_MAX && !s.hasElse
        && ExprFits(range.value.start, inside, |inside| + depth) && ExprFits(range.value.stop, inside, |inside| + depth)
        && |inside| + depth + 1 <= REGISTERS
        && BlockFits(s.body, inside, depth + 1)
  {
    hide ExprFits, BlockFits;
  }

  lemma {:induction false} ForAccepted(s: Stmt, a: Alloc, depth: nat, at: nat)
    requires s.For? && Accounted(a, depth)
    ensures GenStmt(s, a, at).Some? <==> StmtFits(s, a.vars.Keys, depth)
    ensures GenStmt(s, a, at).Some? ==>
      var b := GenStmt(s, a, at).value.alloc; b.vars.Keys == a.vars.Keys + Introduces(s) && Accounted(b, depth)
    decreases s, 0
  {
    hide *;
    AccountedOk(a, depth);
    ForFits(s, a.vars.Keys, depth);
    if RangeOf(s.args).None? {
      ForRefused(s, a, at);
    } else {
      var range := RangeOf(s.args).value;
      HeadAccepted(s.ivar, range, a, depth);
      if GenLoopHead(s.ivar, range, a).None? {
        ForRefused(s, a, at);
      } else {
        var head := GenLoopHead(s.ivar, range, a).value;
        var top := at + |head.code| + 2;
        ForShape(s, a, at);
        BlockAccepted(s.body, head.alloc, depth + 1, top);
        if GenStmt(s, a, at).Some? {
          BoundBack(s.ivar, range, s.body, a, depth, top);
          ForIntroduces(s, a.vars.Keys);
        }
      }
    }
  }

  /** After the body the bound of the loop is given back. */
  lemma BoundBack(ivar: string, range: Range, body: Block, a: Alloc, depth: nat, top: nat)
    requires AllocOk(a) && GenLoopHead(ivar, range, a).Some?
    requires var head := GenLoopHead(ivar, range, a).value;
      GenBlock(body, head.alloc, top).Some? && Accounted(GenBlock(body, head.alloc, top).value.alloc, depth + 1)
    ensures var head := GenLoopHead(ivar, range, a).value;
      var inner := GenBlock(body, head.alloc, top).value.alloc;
      Accounted(inner.(free := Release(inner.free, inner.vars, head.bound)), depth)
  {
    hide *;
    var head := GenLoopHead(ivar, range, a).value;
    var inner := GenBlock(body, head.alloc, top).value.alloc;
    LoopHeadAllocation(ivar, range, a);
    BlockAllocation(body, head.alloc, top);
    GrownOwned(head.alloc, inner);
    HeldThroughout(head.bound, head.alloc, inner);
    BoundReleased(inner, head.bound, depth);
  }

  lemma AccountedOk(a: Alloc, depth: nat)
    requires Accounted(a, depth)
    ensures AllocOk(a)
  {}

  lemma GrownOwned(a: Alloc, b: Alloc)
    requires Grows(a, b)
    ensures Owned(b) == Owned(a)
  {}

  lemma ForIntroduces(s: Stmt, names: set<string>)
    requires s.For?
    ensures names + Introduces(s) == names + {s.ivar} + BlockIntroduces(s.body)
  {}

  lemma BoundReleased(a: Alloc, reg: nat, depth: nat)
    requires Accounted(a, depth + 1) && Held(reg, a.free, a.vars)
    ensures Accounted(a.(free := Release(a.free, a.vars, reg)), depth)
  {
    ReleaseHeld(a.free, a.vars, reg);
  }

  /** The assignment that a statement stands for. */
  function Assignment(s: Stmt): Stmt {
    if s.AugAssign? then Expand(s.target, s.op, s.value) else s
  }

  lemma AssignmentShape(s: Stmt, names: set<string>, depth: nat, a: Alloc, at: nat)
    requires s.Assign? || s.AugAssign?
    ensures var t := Assignment(s);
      && (!t.Assign? ==> GenStmt(s, a, at).None? && !StmtFits(s, names, depth))
      && (t.Assign? ==>
            && GenStmt(s, a, at) == GenAssign(t.target, t.value, a)
            && (StmtFits(s, names, depth) <==> AssignFits(t.target, t.value, names, |names| + depth))
            && Introduces(s) == TargetName(t.target))
  {
    hide GenAssign, AssignFits;
  }

  lemma OthersShape(s: Stmt, names: set<string>, depth: nat, a: Alloc, at: nat)
    requires !s.For? && !s.Assign? && !s.AugAssign?
    ensures GenStmt(s, a, at).Some? <==> StmtFits(s, names, depth)
    ensures GenStmt(s, a, at).Some? ==> GenStmt(s, a, at).value.alloc == a && names + Introduces(s) == names
  {}

  lemma {:induction false} StmtAccepted(s: Stmt, a: Alloc, depth: nat, at: nat)
    requires Accounted(a, depth)
    ensures GenStmt(s, a, at).Some? <==> StmtFits(s, a.vars.Keys, depth)
    ensures GenStmt(s, a, at).Some? ==>
      var b := GenStmt(s, a, at).value.alloc; b.vars.Keys == a.vars.Keys + Introduces(s) && Accounted(b, depth)
    decreases s, 1
  {
    hide *;
    if s.For? {
      ForAccepted(s, a, depth, at);
    } else if s.Assign? || s.AugAssign? {
      AssignmentShape(s, a.vars.Keys, depth, a, at);
      if Assignment(s).Assign? {
        AssignAccepted(Assignment(s).target, Assignment(s).value, a, depth);
      }
    } else {
      OthersShape(s, a.vars.Keys, depth, a, at);
    }
  }

  lemma NothingAdded(names: set<string>)
    ensures names + {} == names
  {}

  lemma AddedTwice(a: set<string>, b: set<string>, c: set<string>)
    ensures a + b + c == a + (b + c)
  {}

  lemma {:induction false} BlockAccepted(b: Block, a: Alloc, depth: nat, at: nat)
    requires Accounted(a, depth)
    ensures GenBlock(b, a, at).Some? <==> BlockFits(b, a.vars.Keys, depth)
    ensures GenBlock(b, a, at).Some? ==>
      var c := GenBlock(b, a, at).value.alloc; c.vars.Keys == a.vars.Keys + BlockIntroduces(b) && Accounted(c, depth)
    decreases b
  {
    hide Accounted, GenStmt, StmtFits, Introduces;
    match b {
      case Nil => NothingAdded(a.vars.Keys);
      case Cons(head, tail) =>
        StmtAccepted(head, a, depth, at);
        if GenStmt(head, a, at).Some? {
          var first := GenStmt(head, a, at).value;
          BlockAccepted(tail, first.alloc, depth, at + |first.code|);
          AddedTwice(a.vars.Keys, Introduces(head), BlockIntroduces(tail));
        }
    }
  }
}
