/**
 Safety of the register allocator: at every point of code generation the free list has no
 duplicates, stays inside the pool r2..r57 and is disjoint from the home registers of
 names and from every live temporary.
 */
module Allocation {
  import opened Isa
  import opened Kernel
  import opened Codegen
  import opened Options

  predicate Distinct(free: seq<nat>) {
    forall i, j :: 0 <= i < j < |free| ==> free[i] != free[j]
  }

  /** Homes are pool registers, and no two names share one. */
  predicate HomesOk(vars: map<string, nat>) {
    && (forall x :: x in vars ==> InPool(vars[x]))
    && forall x, y :: x in vars && y in vars && x != y ==> vars[x] != vars[y]
  }

  predicate FreeOk(free: seq<nat>, vars: map<string, nat>) {
    && Distinct(free)
    && (forall f :: f in free ==> InPool(f))
    && forall f, x :: f in free && x in vars ==> f != vars[x]
  }

  predicate AllocOk(a: Alloc) {
    HomesOk(a.vars) && FreeOk(a.free, a.vars)
  }

  /** A register is taken: neither free nor anybody's home. */
  predicate Held(reg: nat, free: seq<nat>, vars: map<string, nat>) {
    InPool(reg) && reg !in free && forall x :: x in vars ==> vars[x] != reg
  }

  lemma {:induction false} PoolOk(lo: nat)
    requires POOL_LO <= lo <= POOL_HI
    ensures forall k :: 0 <= k < |Pool(lo)| ==> Pool(lo)[k] == lo + k
    decreases POOL_HI - lo
  {
    if lo < POOL_HI {
      PoolOk(lo + 1);
    }
  }

  lemma TakeFront(free: seq<nat>, vars: map<string, nat>)
    requires FreeOk(free, vars) && free != []
    ensures FreeOk(free[1..], vars) && Held(free[0], free[1..], vars)
    ensures forall f :: f in free <==> f == free[0] || f in free[1..]
  {
    assert free == [free[0]] + free[1..];
    assert forall f :: f in free <==> f == free[0] || f in free[1..];
  }

  lemma ReleaseHeld(free: seq<nat>, vars: map<string, nat>, reg: nat)
    requires FreeOk(free, vars) && Held(reg, free, vars)
    ensures var free' := Release(free, vars, reg);
      free' == [reg] + free && FreeOk(free', vars)
    ensures forall f :: f in Release(free, vars, reg) <==> f == reg || f in free
  {}

  /** The register that holds the value of an expression: a held temporary taken from the free list, or a home. */
  predicate Delivers(g: ExprCode, free: seq<nat>, vars: map<string, nat>) {
    && FreeOk(g.free, vars)
    && InPool(g.reg)
    && (forall f :: f in g.free ==> f in free)
    && (if g.tmp then
          && g.reg in free && Held(g.reg, g.free, vars)
          && (forall f :: f in free ==> f in g.free || f == g.reg)
        else
          && (exists x :: x in vars && vars[x] == g.reg)
          && g.free == free)
  }

  lemma DeliversFree(g: ExprCode, free: seq<nat>, vars: map<string, nat>)
    requires Delivers(g, free, vars)
    ensures FreeOk(g.free, vars) && InPool(g.reg)
  {}

  /** Taking a target register and then giving back the operand it was computed from. */
  lemma Retarget(g: ExprCode, free: seq<nat>, vars: map<string, nat>)
    requires FreeOk(free, vars) && Delivers(g, free, vars) && g.free != []
    ensures var t, rest := g.free[0], ReleaseIf(g.tmp, g.free[1..], vars, g.reg);
      forall code :: Delivers(ExprCode(code, rest, t, true), free, vars)
    ensures g.free[0] != g.reg && g.free[0] in free && InPool(g.free[0])
  {
    TakeFront(g.free, vars);
    if g.tmp {
      ReleaseHeld(g.free[1..], vars, g.reg);
    }
  }

  /** Expression code: one temporary at most is taken, and every other free register is given back. */
  lemma {:induction false} ExprAllocation(e: Expr, free: seq<nat>, vars: map<string, nat>)
    requires HomesOk(vars) && FreeOk(free, vars)
    requires GenExpr(e, free, vars).Some?
    ensures Delivers(GenExpr(e, free, vars).value, free, vars)
    decreases e, 0
  {
    match e {
      case Const(v) =>
        TakeFront(free, vars);
      case Name(id) =>
      case Neg(operand) =>
        ExprAllocation(operand, free, vars);
        Retarget(GenExpr(operand, free, vars).value, free, vars);
      case Bin(op, left, right) =>
        ExprAllocation(left, free, vars);
        var a := GenExpr(left, free, vars).value;
        if SmallConst(right) && op != Mod {
          Retarget(a, free, vars);
        } else {
          ExprAllocation(right, a.free, vars);
          var b := GenExpr(right, a.free, vars).value;
          RetargetTwo(a, b, free, vars);
        }
      case Subscript(arr, index) =>
        OffsetAllocation(arr, index, free, vars);
        var off := GenOffset(arr, index, free, vars).value;
        Retarget(off, free, vars);
        assert Delivers(ExprCode(GenExpr(e, free, vars).value.code, ReleaseIf(off.tmp, off.free[1..], vars, off.reg), off.free[0], true),
                        free, vars);
    }
  }

  lemma RetargetTwo(a: ExprCode, b: ExprCode, free: seq<nat>, vars: map<string, nat>)
    requires FreeOk(free, vars) && Delivers(a, free, vars) && Delivers(b, a.free, vars) && b.free != []
    ensures var t, rest := b.free[0], ReleaseIf(b.tmp, ReleaseIf(a.tmp, b.free[1..], vars, a.reg), vars, b.reg);
      forall code :: Delivers(ExprCode(code, rest, t, true), free, vars)
    ensures b.free[0] != a.reg && b.free[0] != b.reg && b.free[0] in free && InPool(b.free[0])
    ensures a.reg < 64 && (b.tmp ==> a.reg != b.reg)
  {
    TakeFront(b.free, vars);
    if a.tmp {
      ReleaseHeld(b.free[1..], vars, a.reg);
    }
    if b.tmp {
      ReleaseHeld(ReleaseIf(a.tmp, b.free[1..], vars, a.reg), vars, b.reg);
    }
  }

  lemma {:induction false} OffsetAllocation(arr: string, index: Expr, free: seq<nat>, vars: map<string, nat>)
    requires HomesOk(vars) && FreeOk(free, vars)
    requires GenOffset(arr, index, free, vars).Some?
    ensures Delivers(GenOffset(arr, index, free, vars).value, free, vars)
    ensures GenOffset(arr, index, free, vars).value.tmp
    decreases index, 1
  {
    ExprAllocation(index, free, vars);
    Retarget(GenExpr(index, free, vars).value, free, vars);
  }

  // --- Statements ---

  /** The registers at a statement's disposal: the free ones and the homes. */
  function Owned(a: Alloc): set<nat> {
    (set f | f in a.free) + a.vars.Values
  }

  /** No register is lost or gained, and homes never move. */
  predicate Grows(a: Alloc, b: Alloc) {
    Owned(b) == Owned(a) && Extends(a.vars, b.vars)
  }

  predicate Extends(vars: map<string, nat>, vars': map<string, nat>) {
    forall x :: x in vars ==> x in vars' && vars'[x] == vars[x]
  }

  lemma HomeAllocation(a: Alloc, name: string)
    requires AllocOk(a) && Home(a, name).Some?
    ensures var b := Home(a, name).value;
      && AllocOk(b) && Grows(a, b) && name in b.vars
      && (forall f :: f in b.free ==> f in a.free)
      && (name !in a.vars ==> b.vars[name] in a.free && b.vars[name] !in b.free)
  {
    if name !in a.vars {
      var b := Home(a, name).value;
      TakeFront(a.free, a.vars);
      assert b.vars.Values == a.vars.Values + {a.free[0]} by {
        assert forall x :: x in a.vars ==> b.vars[x] == a.vars[x];
        assert b.vars[name] == a.free[0];
      }
    }
  }

  /** A register held aside is still held aside after the other registers change hands. */
  lemma HeldThroughout(reg: nat, a: Alloc, b: Alloc)
    requires Held(reg, a.free, a.vars) && Owned(b) == Owned(a)
    ensures Held(reg, b.free, b.vars)
  {
    assert reg !in Owned(b);
    forall x | x in b.vars
      ensures b.vars[x] != reg
    {
      assert b.vars[x] in Owned(b);
    }
    assert reg in b.free ==> reg in Owned(b);
  }

  lemma ReleaseOwned(a: Alloc, reg: nat)
    requires AllocOk(a) && Held(reg, a.free, a.vars)
    ensures var b := a.(free := Release(a.free, a.vars, reg));
      AllocOk(b) && Owned(b) == Owned(a) + {reg}
  {
    ReleaseHeld(a.free, a.vars, reg);
  }

  /** The registers still owned after an expression is computed, and after its temporary is given back. */
  lemma ExprOwned(g: ExprCode, a: Alloc)
    requires AllocOk(a) && Delivers(g, a.free, a.vars)
    ensures AllocOk(a.(free := g.free))
    ensures Owned(a) == Owned(a.(free := g.free)) + if g.tmp then {g.reg} else {}
  {}

  lemma ReleaseIfOwned(a: Alloc, tmp: bool, reg: nat)
    requires AllocOk(a) && (tmp ==> Held(reg, a.free, a.vars))
    ensures var b := a.(free := ReleaseIf(tmp, a.free, a.vars, reg));
      AllocOk(b) && Owned(b) == Owned(a) + if tmp then {reg} else {}
  {
    if tmp {
      ReleaseOwned(a, reg);
    }
  }

  lemma AssignAllocation(target: Target, value: Expr, a: Alloc)
    requires AllocOk(a) && GenAssign(target, value, a).Some?
    ensures var b := GenAssign(target, value, a).value.alloc;
      AllocOk(b) && Grows(a, b)
  {
    hide FreeOk, HomesOk;
    var src := GenExpr(value, a.free, a.vars).value;
    ExprAllocation(value, a.free, a.vars);
    ExprOwned(src, a);
    var mid := a.(free := src.free);
    match target {
      case ToName(id) =>
        var home := Home(mid, id).value;
        HomeAllocation(mid, id);
        if src.tmp {
          HeldThroughout(src.reg, mid, home);
        }
        ReleaseIfOwned(home, src.tmp, src.reg);
      case ToElement(arr, index) =>
        ElementAllocation(arr, index, src, a);
    }
  }

  lemma ElementAllocation(arr: string, index: Expr, val: ExprCode, a: Alloc)
    requires AllocOk(a) && Delivers(val, a.free, a.vars) && GenOffset(arr, index, val.free, a.vars).Some?
    ensures var off := GenOffset(arr, index, val.free, a.vars).value;
      var b := a.(free := Release(ReleaseIf(val.tmp, off.free, a.vars, val.reg), a.vars, off.reg));
      AllocOk(b) && Owned(b) == Owned(a)
  {
    var off := GenOffset(arr, index, val.free, a.vars).value;
    var mid, last := a.(free := val.free), a.(free := off.free);
    ExprOwned(val, a);
    OffsetAllocation(arr, index, val.free, a.vars);
    ExprOwned(off, mid);
    ReleaseIfOwned(last, val.tmp, val.reg);
    ReleaseOwned(last.(free := ReleaseIf(val.tmp, off.free, a.vars, val.reg)), off.reg);
  }

  lemma BoundAllocation(e: Expr, free: seq<nat>, vars: map<string, nat>)
    requires HomesOk(vars) && FreeOk(free, vars) && GenBound(e, free, vars).Some?
    ensures var g := GenBound(e, free, vars).value; g.tmp && Delivers(g, free, vars)
  {
    ExprAllocation(e, free, vars);
    var stop := GenExpr(e, free, vars).value;
    if !stop.tmp {
      TakeFront(free, vars);
    }
  }

  lemma LoopHeadAllocation(ivar: string, range: Range, a: Alloc)
    requires AllocOk(a) && GenLoopHead(ivar, range, a).Some?
    ensures var h := GenLoopHead(ivar, range, a).value;
      && AllocOk(h.alloc) && Extends(a.vars, h.alloc.vars)
      && Held(h.bound, h.alloc.free, h.alloc.vars) && Owned(h.alloc) + {h.bound} == Owned(a)
      && ivar in h.alloc.vars && h.ivar == h.alloc.vars[ivar]
  {
    hide Distinct, HomesOk;
    var home := Home(a, ivar).value;
    HomeAllocation(a, ivar);
    var start := GenExpr(range.start, home.free, home.vars).value;
    ExprAllocation(range.start, home.free, home.vars);
    ExprOwned(start, home);
    var free := ReleaseIf(start.tmp, start.free, home.vars, start.reg);
    ReleaseIfOwned(home.(free := start.free), start.tmp, start.reg);
    var bound := GenBound(range.stop, free, home.vars).value;
    BoundAllocation(range.stop, free, home.vars);
    ExprOwned(bound, home.(free := free));
  }

  /** Statements hand back every register they take, except the homes of the names they introduce. */
  lemma {:induction false} StmtAllocation(s: Stmt, a: Alloc, at: nat)
    requires AllocOk(a) && GenStmt(s, a, at).Some?
    ensures var b := GenStmt(s, a, at).value.alloc;
      AllocOk(b) && Grows(a, b)
    decreases s
  {
    match s {
      case For(ivar, args, body, _) =>
        var range := RangeOf(args).value;
        var head := GenLoopHead(ivar, range, a).value;
        LoopHeadAllocation(ivar, range, a);
        var top := at + |head.code|;
        BlockAllocation(body, head.alloc, top + 2);
        var inner := GenBlock(body, head.alloc, top + 2).value.alloc;
        HeldThroughout(head.bound, head.alloc, inner);
        ReleaseOwned(inner, head.bound);
      case Assign(target, value) =>
        AssignAllocation(target, value, a);
      case AugAssign(target, op, value) =>
        var assign := Expand(target, op, value);
        AssignAllocation(assign.target, assign.value, a);
      case Return(_) =>
      case Docstring =>
      case Pass =>
    }
  }

  lemma {:induction false} BlockAllocation(b: Block, a: Alloc, at: nat)
    requires AllocOk(a) && GenBlock(b, a, at).Some?
    ensures var c := GenBlock(b, a, at).value.alloc;
      AllocOk(c) && Grows(a, c)
    decreases b
  {
    match b {
      case Nil =>
      case Cons(head, tail) =>
        StmtAllocation(head, a, at);
        var first := GenStmt(head, a, at).value;
        BlockAllocation(tail, first.alloc, at + |first.code|);
    }
  }

  // --- held bounds ---

  /** At every statement of the block, those of nested loops included, the register is neither free nor a home. */
  predicate HeldDuring(reg: nat, b: Block, a: Alloc, at: nat)
    requires GenBlock(b, a, at).Some?
    decreases b
  {
    Held(reg, a.free, a.vars) &&
    match b
    case Nil => true
    case Cons(head, tail) =>
      var first := GenStmt(head, a, at).value;
      && HeldDuring(reg, tail, first.alloc, at + |first.code|)
      && (head.For? ==>
            var h := GenLoopHead(head.ivar, RangeOf(head.args).value, a).value;
            HeldDuring(reg, head.body, h.alloc, at + |h.code| + 2))
  }

  lemma {:induction false} HeldStaysHeld(reg: nat, b: Block, a: Alloc, at: nat)
    requires AllocOk(a) && GenBlock(b, a, at).Some? && Held(reg, a.free, a.vars)
    ensures HeldDuring(reg, b, a, at)
    decreases b
  {
    hide AllocOk, Held, Owned, Extends, GenLoopHead, GenStmt;
    match b {
      case Nil =>
      case Cons(head, tail) =>
        var first := GenStmt(head, a, at).value;
        StmtAllocation(head, a, at);
        HeldThroughout(reg, a, first.alloc);
        HeldStaysHeld(reg, tail, first.alloc, at + |first.code|);
        if head.For? {
          ForParts(head, a, at);
          var h := GenLoopHead(head.ivar, RangeOf(head.args).value, a).value;
          HeldInHead(reg, head.ivar, RangeOf(head.args).value, a);
          HeldStaysHeld(reg, head.body, h.alloc, at + |h.code| + 2);
        }
    }
  }

  lemma ForParts(s: Stmt, a: Alloc, at: nat)
    requires s.For? && GenStmt(s, a, at).Some?
    ensures RangeOf(s.args).Some? && GenLoopHead(s.ivar, RangeOf(s.args).value, a).Some?
    ensures var h := GenLoopHead(s.ivar, RangeOf(s.args).value, a).value; GenBlock(s.body, h.alloc, at + |h.code| + 2).Some?
  {
    hide GenLoopHead, GenBlock;
  }

  lemma HeldInHead(reg: nat, ivar: string, range: Range, a: Alloc)
    requires AllocOk(a) && GenLoopHead(ivar, range, a).Some? && Held(reg, a.free, a.vars)
    ensures var h := GenLoopHead(ivar, range, a).value; AllocOk(h.alloc) && Held(reg, h.alloc.free, h.alloc.vars)
  {
    hide AllocOk, GenLoopHead, Held;
    LoopHeadAllocation(ivar, range, a);
    HeldBelow(reg, a, GenLoopHead(ivar, range, a).value.alloc);
  }

  lemma HeldBelow(reg: nat, a: Alloc, b: Alloc)
    requires Held(reg, a.free, a.vars) && Owned(b) <= Owned(a)
    ensures Held(reg, b.free, b.vars)
  {
    assert reg !in Owned(b);
    forall x | x in b.vars
      ensures b.vars[x] != reg
    {
      assert b.vars[x] in Owned(b);
    }
    assert reg in b.free ==> reg in Owned(b);
  }

  /** The bound of a loop is out of reach of the allocator throughout the code of its body. */
  lemma BoundHeldDuringBody(s: Stmt, a: Alloc, at: nat)
    requires s.For? && AllocOk(a) && GenStmt(s, a, at).Some?
    ensures var h := GenLoopHead(s.ivar, RangeOf(s.args).value, a).value; HeldDuring(h.bound, s.body, h.alloc, at + |h.code| + 2)
  {
    hide AllocOk, Held, GenLoopHead, GenStmt, HeldDuring;
    ForParts(s, a, at);
    var h := GenLoopHead(s.ivar, RangeOf(s.args).value, a).value;
    LoopHeadAllocation(s.ivar, RangeOf(s.args).value, a);
    HeldStaysHeld(h.bound, s.body, h.alloc, at + |h.code| + 2);
  }
}
