/**
 The imperative code generator (class ScalarCodegen of compiler/titan_compiler.py). Each
 method is proved to emit exactly the code that module Codegen describes; an exception is
 the result None or false. Compile delivers its 32-bit encoding.
 */
module ScalarBackend {
  import opened Bits
  import opened Isa
  import opened Kernel
  import opened Allocation
  import opened Assembler
  import opened Options
  import Codegen

  /** The listing has grown by code that links to `code` and whose branches use new labels only. */
  predicate Extended(listing: seq<Symbolic>, labels: Labels, listing': seq<Symbolic>, labels': Labels, code: seq<Instr>) {
    && listing <= listing' && labels <= labels'
    && Link(listing'[|listing|..], labels') == code
    && Closed(listing'[|listing|..], labels', |labels|)
  }

  lemma ExtendedPlain(listing: seq<Symbolic>, labels: Labels, code: seq<Instr>)
    ensures Extended(listing, labels, listing + AllPlain(code), labels, code)
  {
    assert (listing + AllPlain(code))[|listing|..] == AllPlain(code);
  }

  lemma ExtendedThen(l0: seq<Symbolic>, b0: Labels, l1: seq<Symbolic>, b1: Labels, c1: seq<Instr>,
                     l2: seq<Symbolic>, b2: Labels, c2: seq<Instr>)
    requires Extended(l0, b0, l1, b1, c1) && Extended(l1, b1, l2, b2, c2)
    ensures Extended(l0, b0, l2, b2, c1 + c2)
  {
    var p1, p2, p := l1[|l0|..], l2[|l1|..], l2[|l0|..];
    assert p == p1 + p2;
    forall k | 0 <= k < |p|
      ensures LinkOne(p[k], b2) == (c1 + c2)[k]
      ensures p[k].Jump? ==> |b0| <= p[k].target < |b2| && b2[p[k].target].Some?
    {
      if k < |p1| {
        assert p[k] == p1[k];
        assert LinkOne(p1[k], b1) == c1[k];
      } else {
        assert p[k] == p2[k - |p1|];
      }
    }
  }

  function LoopCode(ivar: nat, bound: nat, step: nat, top: nat, inner: seq<Instr>): seq<Instr> {
    Codegen.LoopTest(ivar, bound, top + 2 + |inner| + 2) + inner + Codegen.LoopBack(ivar, step, top)
  }

  /** The listing of a loop whose `top` and `end` labels were made between its head and its test. */
  lemma LoopLinked(l1: seq<Symbolic>, b: Labels, l2: seq<Symbolic>, b2: Labels, ivar: nat, bound: nat, step: nat,
                   l3: seq<Symbolic>, b3: Labels, inner: seq<Instr>, l4: seq<Symbolic>, b4: Labels)
    requires l2 == l1 + TestSymbols(ivar, bound, |b| + 1) && b2 == b + [Some(|l1|)] + [None]
    requires Extended(l2, b2, l3, b3, inner)
    requires l4 == l3 + BackSymbols(ivar, step, |b|) && |b| + 1 < |b3| && b4 == b3[|b| + 1 := Some(|l4|)]
    ensures Extended(l1, b, l4, b4, LoopCode(ivar, bound, step, |l1|, inner))
  {
    var test, back := TestSymbols(ivar, bound, |b| + 1), BackSymbols(ivar, step, |b|);
    var body, part := l3[|l2|..], l4[|l1|..];
    assert part == test + body + back;
    assert b3[|b|] == b2[|b|] == Some(|l1|);
    var code := LoopCode(ivar, bound, step, |l1|, inner);
    forall k | 0 <= k < |part|
      ensures LinkOne(part[k], b4) == code[k]
      ensures part[k].Jump? ==> |b| <= part[k].target < |b4| && b4[part[k].target].Some?
    {
      if 2 <= k < 2 + |body| {
        assert part[k] == body[k - 2];
        assert LinkOne(body[k - 2], b3) == inner[k - 2];
      }
    }
  }

  class ScalarCodegen {
    const asm: Assembler
    var free: seq<nat>
    var vars: map<string, nat>

    ghost predicate Valid()
      reads this, asm
    {
      asm.Valid() && AllocOk(Registers())
    }

    ghost function Registers(): Codegen.Alloc
      reads this
    {
      Codegen.Alloc(free, vars)
    }

    constructor ()
      ensures Valid() && fresh(asm)
      ensures Registers() == Codegen.Alloc(Codegen.Pool(POOL_LO), map[]) && asm.listing == [] && asm.labels == []
    {
      asm := new Assembler();
      free, vars := Codegen.Pool(POOL_LO), map[];
      new;
      PoolOk(POOL_LO);
    }

    // --- register management ---

    method Take() returns (r: Option<nat>)
      requires AllocOk(Registers())
      modifies this
      ensures vars == old(vars)
      ensures r.None? <==> old(free) == []
      ensures r.Some? ==> r.value == old(free)[0] && free == old(free)[1..] && InPool(r.value) && AllocOk(Registers())
    {
      if free == [] {
        return None;
      }
      TakeFront(free, vars);
      r := Some(free[0]);
      free := free[1..];
    }

    method Release(reg: nat)
      modifies this
      ensures vars == old(vars) && free == Codegen.Release(old(free), vars, reg)
    {
      if Codegen.InPool(reg) && reg !in vars.Values {
        free := [reg] + free;
      }
    }

    method VarReg(name: string) returns (r: Option<nat>)
      requires AllocOk(Registers())
      modifies this
      ensures r.None? <==> Codegen.Home(old(Registers()), name).None?
      ensures r.Some? ==> Registers() == Codegen.Home(old(Registers()), name).value && AllocOk(Registers())
      ensures r.Some? ==> name in vars && vars[name] == r.value && InPool(r.value)
    {
      HomeFacts(Registers(), name);
      if name !in vars {
        var reg := Take();
        if reg.None? {
          return None;
        }
        vars := vars[name := reg.value];
      }
      r := Some(vars[name]);
    }

    // --- expression lowering; the result is (register, is_temp) ---

    method GenExpr(e: Expr) returns (r: Option<(nat, bool)>)
      requires Valid()
      modifies this, asm
      ensures vars == old(vars)
      ensures r.None? <==> Codegen.GenExpr(e, old(free), vars).None?
      ensures r.Some? ==> Emitted(old(free), old(asm.listing), old(asm.labels), Codegen.GenExpr(e, old(free), vars).value)
      ensures r.Some? ==> r.value.0 == Codegen.GenExpr(e, old(free), vars).value.reg
      ensures r.Some? ==> r.value.1 == Codegen.GenExpr(e, old(free), vars).value.tmp
      decreases e, 1
    {
      hide FreeOk, HomesOk, Distinct, Held, Codegen.Release, Codegen.LoadConst;
      ghost var listing0, free0 := asm.listing, free;
      ghost var spec := Codegen.GenExpr(e, free, vars);
      if spec.Some? {
        ExprAllocation(e, free, vars);
      }
      match e {
        case Const(v) =>
          var t := Take();
          if t.None? {
            return None;
          }
          ConstEncodable(t.value, v);
          asm.EmitAll(Codegen.LoadConst(t.value, v));
          r := Some((t.value, true));
        case Name(id) =>
          if id !in vars {
            return None;
          }
          assert asm.listing == listing0 + AllPlain([]);
          r := Some((vars[id], false));
        case Neg(operand) =>
          var src := GenExpr(operand);
          if src.None? {
            return None;
          }
          ghost var g1 := Codegen.GenExpr(operand, free0, vars).value;
          var t := Take();
          if t.None? {
            return None;
          }
          asm.Emit(RForm(OP_SUB, t.value, R_ZERO, src.value.0, 0, 0));
          PlainThen(listing0, g1.code, RForm(OP_SUB, t.value, R_ZERO, src.value.0, 0, 0));
          if src.value.1 {
            Release(src.value.0);
          }
          r := Some((t.value, true));
        case Bin(op, left, right) =>
          r := GenBinop(op, left, right);
        case Subscript(arr, index) =>
          r := GenLoad(arr, index);
        case OtherExpr =>
          r := None;
      }
    }

    method GenLoad(arr: string, index: Expr) returns (r: Option<(nat, bool)>)
      requires Valid()
      modifies this, asm
      ensures vars == old(vars)
      ensures var spec := Codegen.GenExpr(Subscript(arr, index), old(free), vars);
        && (r.None? <==> spec.None?)
        && (r.Some? ==> Emitted(old(free), old(asm.listing), old(asm.labels), spec.value))
        && (r.Some? ==> r.value == (spec.value.reg, spec.value.tmp))
      decreases Subscript(arr, index), 0
    {
      ghost var listing0, free0 := asm.listing, free;
      if Codegen.GenExpr(Subscript(arr, index), free, vars).Some? {
        ExprAllocation(Subscript(arr, index), free, vars);
      }
      var off := GenSubscript(arr, index);
      if off.None? {
        return None;
      }
      ghost var g := Codegen.GenOffset(arr, index, free0, vars).value;
      var t := Take();
      if t.None? {
        return None;
      }
      var load := RForm(OP_LOAD, t.value, off.value.0, off.value.1, 0, 0);
      asm.Emit(load);
      PlainThen(listing0, g.code, load);
      Release(off.value.1);
      r := Some((t.value, true));
    }

    method GenBinop(op: Op, left: Expr, right: Expr) returns (r: Option<(nat, bool)>)
      requires Valid()
      modifies this, asm
      ensures vars == old(vars)
      ensures var spec := Codegen.GenExpr(Bin(op, left, right), old(free), vars);
        && (r.None? <==> spec.None?)
        && (r.Some? ==> Emitted(old(free), old(asm.listing), old(asm.labels), spec.value))
        && (r.Some? ==> r.value == (spec.value.reg, spec.value.tmp))
      decreases Bin(op, left, right), 0
    {
      hide FreeOk, HomesOk, Distinct, Held, Codegen.OperatorCode, Codegen.Release, Codegen.GenExpr;
      ghost var listing0, free0 := asm.listing, free;
      BinShape(op, left, right, free, vars);
      if Codegen.GenExpr(Bin(op, left, right), free, vars).Some? {
        ExprAllocation(Bin(op, left, right), free, vars);
      }
      if op != Mod && Codegen.Opcode(op).None? {
        return None;
      }
      if Codegen.SmallConst(right) && op != Mod {
        r := GenImmediate(op, left, right.v);
        return;
      }
      var a := GenExpr(left);
      if a.None? {
        return None;
      }
      ghost var ga := Codegen.GenExpr(left, free0, vars).value;
      var b := GenExpr(right);
      if b.None? {
        return None;
      }
      ghost var gb := Codegen.GenExpr(right, ga.free, vars).value;
      var t := Take();
      if t.None? {
        return None;
      }
      OperatorEncodable(op, t.value, a.value.0, b.value.0);
      asm.EmitAll(Codegen.OperatorCode(op, t.value, a.value.0, b.value.0));
      PlainConcat(listing0, ga.code, gb.code, Codegen.OperatorCode(op, t.value, a.value.0, b.value.0));
      if a.value.1 {
        Release(a.value.0);
      }
      if b.value.1 {
        Release(b.value.0);
      }
      r := Some((t.value, true));
    }

    /** The immediate form, for a small constant on the right. */
    method GenImmediate(op: Op, left: Expr, c: nat) returns (r: Option<(nat, bool)>)
      requires Valid() && Codegen.Opcode(op).Some? && c <= IMM_MAX
      modifies this, asm
      ensures vars == old(vars)
      ensures var spec := Codegen.GenExpr(Bin(op, left, Const(c)), old(free), vars);
        && (r.None? <==> spec.None?)
        && (r.Some? ==> Emitted(old(free), old(asm.listing), old(asm.labels), spec.value))
        && (r.Some? ==> r.value == (spec.value.reg, spec.value.tmp))
      decreases left, 2
    {
      hide FreeOk, HomesOk, Distinct, Held, Codegen.Release, Codegen.GenExpr;
      ghost var listing0, free0 := asm.listing, free;
      ImmediateShape(op, left, c, free, vars);
      if Codegen.GenExpr(Bin(op, left, Const(c)), free, vars).Some? {
        ExprAllocation(Bin(op, left, Const(c)), free, vars);
      }
      var a := GenExpr(left);
      if a.None? {
        return None;
      }
      ghost var ga := Codegen.GenExpr(left, free0, vars).value;
      var t := Take();
      if t.None? {
        return None;
      }
      var i := IForm(Codegen.Opcode(op).value, t.value, a.value.0, c, 0);
      asm.Emit(i);
      PlainThen(listing0, ga.code, i);
      if a.value.1 {
        Release(a.value.0);
      }
      r := Some((t.value, true));
    }

    /** The base register and the offset register of an element. */
    method GenSubscript(arr: string, index: Expr) returns (r: Option<(nat, nat)>)
      requires Valid()
      modifies this, asm
      ensures vars == old(vars)
      ensures var spec := Codegen.GenOffset(arr, index, old(free), vars);
        && (r.None? <==> spec.None?)
        && (r.Some? ==> Emitted(old(free), old(asm.listing), old(asm.labels), spec.value) && spec.value.tmp)
        && (r.Some? ==> r.value == (vars[arr], spec.value.reg))
      decreases index, 2
    {
      ghost var listing0, free0 := asm.listing, free;
      if Codegen.GenOffset(arr, index, free, vars).Some? {
        OffsetAllocation(arr, index, free, vars);
      }
      if arr !in vars {
        return None;
      }
      var idx := GenExpr(index);
      if idx.None? {
        return None;
      }
      ghost var g := Codegen.GenExpr(index, free0, vars).value;
      var off := Take();
      if off.None? {
        return None;
      }
      var i := IForm(OP_SHL, off.value, idx.value.0, 2, 0);
      asm.Emit(i);
      PlainThen(listing0, g.code, i);
      if idx.value.1 {
        Release(idx.value.0);
      }
      r := Some((vars[arr], off.value));
    }

    /** Expression code has been appended, and the free list is what it leaves. */
    ghost predicate Emitted(free0: seq<nat>, listing0: seq<Symbolic>, labels0: Labels, g: Codegen.ExprCode)
      reads this, asm
    {
      && Valid() && Delivers(g, free0, vars) && free == g.free
      && asm.listing == listing0 + AllPlain(g.code) && asm.labels == labels0
    }

    // --- statement lowering ---

    method Move(rd: nat, rs: nat)
      requires asm.Valid() && rd < 64 && rs < 64
      modifies asm
      ensures asm.Valid() && asm.labels == old(asm.labels)
      ensures asm.listing == old(asm.listing) + AllPlain(Codegen.Move(rd, rs))
    {
      if rd != rs {
        asm.Emit(IForm(OP_ADD, rd, rs, 0, 0));
      }
    }

    method GenAssign(target: Target, value: Expr) returns (ok: bool)
      requires Valid()
      modifies this, asm
      ensures var spec := Codegen.GenAssign(target, value, old(Registers()));
        && (ok <==> spec.Some?)
        && (ok ==> Grown(old(asm.listing), old(asm.labels), spec.value))
    {
      ghost var spec, listing0, regs := Codegen.GenAssign(target, value, Registers()), asm.listing, Registers();
      if spec.Some? {
        AssignAllocation(target, value, Registers());
      }
      match target {
        case ToName(id) =>
          ok := GenNameAssign(id, value);
        case ToElement(arr, index) =>
          ok := GenElementAssign(arr, index, value);
        case OtherTarget =>
          ok := false;
      }
    }

    method GenNameAssign(id: string, value: Expr) returns (ok: bool)
      requires Valid()
      modifies this, asm
      ensures var spec := Codegen.GenAssign(ToName(id), value, old(Registers()));
        && (ok <==> spec.Some?)
        && (ok ==> Grown(old(asm.listing), old(asm.labels), spec.value))
    {
      hide FreeOk, HomesOk, Distinct, Held, Extended, AllPlain, Codegen.Release, Codegen.GenExpr, Codegen.Move;
      ghost var listing0, regs := asm.listing, Registers();
      if Codegen.GenAssign(ToName(id), value, regs).Some? {
        AssignAllocation(ToName(id), value, regs);
      }
      var src := GenExpr(value);
      if src.None? {
        return false;
      }
      ghost var g := Codegen.GenExpr(value, regs.free, vars).value;
      var dst := VarReg(id);
      if dst.None? {
        return false;
      }
      Move(dst.value, src.value.0);
      if src.value.1 {
        Release(src.value.0);
      }
      PlainTwice(listing0, g.code, Codegen.Move(dst.value, src.value.0));
      ExtendedPlain(listing0, asm.labels, g.code + Codegen.Move(dst.value, src.value.0));
      ok := true;
    }

    method GenElementAssign(arr: string, index: Expr, value: Expr) returns (ok: bool)
      requires Valid()
      modifies this, asm
      ensures var spec := Codegen.GenAssign(ToElement(arr, index), value, old(Registers()));
        && (ok <==> spec.Some?)
        && (ok ==> Grown(old(asm.listing), old(asm.labels), spec.value))
    {
      hide FreeOk, HomesOk, Distinct, Held, Extended, AllPlain, Codegen.Release, Codegen.GenExpr, Codegen.GenOffset, Codegen.GenAssign, AllocOk;
      ElementAssignShape(arr, index, value, Registers());
      AllocParts(Registers());
      ghost var listing0, regs := asm.listing, Registers();
      if Codegen.GenAssign(ToElement(arr, index), value, regs).Some? {
        AssignAllocation(ToElement(arr, index), value, regs);
      }
      var val := GenExpr(value);
      if val.None? {
        return false;
      }
      ghost var g := Codegen.GenExpr(value, regs.free, vars).value;
      var off := GenSubscript(arr, index);
      if off.None? {
        return false;
      }
      ghost var h := Codegen.GenOffset(arr, index, g.free, vars).value;
      var store := RForm(OP_STORE, val.value.0, off.value.0, off.value.1, 0, 0);
      assert InPool(off.value.0) by { HomeInPool(vars, arr); }
      asm.Emit(store);
      if val.value.1 {
        Release(val.value.0);
      }
      Release(off.value.1);
      PlainTwice(listing0, g.code, h.code);
      PlainThen(listing0, g.code + h.code, store);
      ExtendedPlain(listing0, asm.labels, g.code + h.code + [store]);
      ok := true;
    }

    /** Loop variable and bound registers, with the code that sets them. */
    method GenLoopHead(ivar: string, range: Range) returns (r: Option<(nat, nat)>)
      requires Valid()
      modifies this, asm
      ensures var spec := Codegen.GenLoopHead(ivar, range, old(Registers()));
        && (r.None? <==> spec.None?)
        && (r.Some? ==>
              && r.value == (spec.value.ivar, spec.value.bound) && InPool(r.value.0) && InPool(r.value.1)
              && Grown(old(asm.listing), old(asm.labels), Codegen.StmtCode(spec.value.code, spec.value.alloc))
              && asm.labels == old(asm.labels))
    {
      hide FreeOk, HomesOk, Distinct, Held, Codegen.Release, Codegen.GenExpr, Codegen.Move, Codegen.GenBound, Codegen.Home;
      ghost var listing0, regs := asm.listing, Registers();
      if Codegen.GenLoopHead(ivar, range, regs).Some? {
        LoopHeadAllocation(ivar, range, regs);
      }
      var reg := VarReg(ivar);
      if reg.None? {
        return None;
      }
      ghost var free1 := free;
      var start := GenExpr(range.start);
      if start.None? {
        return None;
      }
      ghost var g := Codegen.GenExpr(range.start, free1, vars).value;
      Move(reg.value, start.value.0);
      ReleaseDelivered(g, free1, vars);
      if start.value.1 {
        Release(start.value.0);
      }
      PlainTwice(listing0, g.code, Codegen.Move(reg.value, start.value.0));
      ghost var head := g.code + Codegen.Move(reg.value, start.value.0);
      ghost var free2 := free;
      var bound := GenBound(range.stop);
      if bound.None? {
        return None;
      }
      ghost var h := Codegen.GenBound(range.stop, free2, vars).value;
      PlainTwice(listing0, head, h.code);
      ExtendedPlain(listing0, asm.labels, head + h.code);
      r := Some((reg.value, bound.value));
    }

    /** The stop value, kept in a private register in case the body writes the source variable. */
    method GenBound(stop: Expr) returns (r: Option<nat>)
      requires Valid()
      modifies this, asm
      ensures vars == old(vars)
      ensures var spec := Codegen.GenBound(stop, old(free), vars);
        && (r.None? <==> spec.None?)
        && (r.Some? ==> Emitted(old(free), old(asm.listing), old(asm.labels), spec.value) && r.value == spec.value.reg)
    {
      hide FreeOk, HomesOk, Distinct, Held, Codegen.GenExpr, Codegen.Move;
      ghost var listing0, free0 := asm.listing, free;
      if Codegen.GenBound(stop, free, vars).Some? {
        BoundAllocation(stop, free, vars);
      }
      var reg := GenExpr(stop);
      if reg.None? {
        return None;
      }
      if reg.value.1 {
        return Some(reg.value.0);
      }
      ghost var g := Codegen.GenExpr(stop, free0, vars).value;
      var held := Take();
      if held.None? {
        return None;
      }
      Move(held.value, reg.value.0);
      PlainTwice(listing0, g.code, Codegen.Move(held.value, reg.value.0));
      r := Some(held.value);
    }

    method GenFor(ivar: string, args: seq<Expr>, body: Block, hasElse: bool) returns (ok: bool)
      requires Valid()
      modifies this, asm
      ensures var spec := Codegen.GenStmt(For(ivar, args, body, hasElse), old(Registers()), |old(asm.listing)|);
        && (ok <==> spec.Some?)
        && (ok ==> Grown(old(asm.listing), old(asm.labels), spec.value))
      decreases For(ivar, args, body, hasElse), 0
    {
      hide FreeOk, HomesOk, Distinct, Held, Extended, Codegen.GenLoopHead, Codegen.Release, Codegen.GenStmt, Codegen.GenBlock;
      ghost var listing0, labels0, regs := asm.listing, asm.labels, Registers();
      ghost var spec := Codegen.GenStmt(For(ivar, args, body, hasElse), regs, |listing0|);
      ForShape(ivar, args, body, hasElse, regs, |listing0|);
      if spec.Some? {
        StmtAllocation(For(ivar, args, body, hasElse), regs, |listing0|);
      }
      var range := RangeOf(args);
      if range.None? {
        return false;
      }
      var head := GenLoopHead(ivar, range.value);
      if head.None? {
        return false;
      }
      ghost var h := Codegen.GenLoopHead(ivar, range.value, regs).value;
      ghost var listing1 := asm.listing;
      ExtendedSize(listing0, labels0, listing1, asm.labels, h.code);
      ok := GenLoop(head.value.0, head.value.1, range.value.step, body, hasElse);
      if ok {
        ghost var inner := Codegen.GenBlock(body, h.alloc, |listing1| + 2).value;
        ghost var loop := LoopCode(h.ivar, h.bound, range.value.step, |listing1|, inner.code);
        ExtendedThen(listing0, labels0, listing1, labels0, h.code, asm.listing, asm.labels, loop);
        Release(head.value.1);
      }
    }

    /** The test, the body and the branch back, between the labels `top` and `end`. */
    method GenLoop(ivar: nat, bound: nat, step: nat, body: Block, hasElse: bool) returns (ok: bool)
      requires Valid() && InPool(ivar) && InPool(bound)
      modifies this, asm
      ensures var top := |old(asm.listing)|;
        var inner := Codegen.GenBlock(body, old(Registers()), top + 2);
        && (ok <==> inner.Some? && !hasElse && step <= IMM_MAX)
        && (ok ==>
              && Valid() && Registers() == inner.value.alloc
              && Extended(old(asm.listing), old(asm.labels), asm.listing, asm.labels,
                          LoopCode(ivar, bound, step, top, inner.value.code)))
      decreases body, 1
    {
      hide FreeOk, HomesOk, Distinct, Held, Extended, Codegen.GenBlock, LoopCode, TestSymbols, BackSymbols;
      ghost var listing1, labels1, regs := asm.listing, asm.labels, Registers();
      var top, end := asm.OpenLoop(ivar, bound);
      ghost var listing2, labels2 := asm.listing, asm.labels;
      ok := GenBlock(body);
      if !ok {
        return;
      }
      if hasElse || step > IMM_MAX {
        return false;
      }
      ghost var inner := Codegen.GenBlock(body, regs, |listing1| + 2).value;
      ghost var listing3, labels3 := asm.listing, asm.labels;
      ExtendedLabels(listing2, labels2, listing3, labels3, inner.code);
      asm.CloseLoop(ivar, step, top, end);
      LoopLinked(listing1, labels1, listing2, labels2, ivar, bound, step, listing3, labels3, inner.code, asm.listing, asm.labels);
    }

    method GenStmt(s: Stmt) returns (ok: bool)
      requires Valid()
      modifies this, asm
      ensures var spec := Codegen.GenStmt(s, old(Registers()), |old(asm.listing)|);
        && (ok <==> spec.Some?)
        && (ok ==> Grown(old(asm.listing), old(asm.labels), spec.value))
      decreases s, 1
    {
      match s {
        case For(ivar, args, body, hasElse) =>
          ok := GenFor(ivar, args, body, hasElse);
        case Assign(target, value) =>
          ok := GenAssign(target, value);
        case AugAssign(target, op, value) =>
          var assign := Expand(target, op, value);
          if assign.Assign? {
            ok := GenAssign(assign.target, assign.value);
          } else {
            ok := false;
          }
        case Return(hasValue) =>
          if hasValue {
            return false;
          }
          ghost var listing0 := asm.listing;
          asm.Emit(Codegen.EXIT);
          assert AllPlain([Codegen.EXIT]) == [Plain(Codegen.EXIT)];
          ExtendedPlain(listing0, asm.labels, [Codegen.EXIT]);
          ok := true;
        case Docstring =>
          ExtendedPlain(asm.listing, asm.labels, []);
          assert asm.listing + AllPlain([]) == asm.listing;
          ok := true;
        case Pass =>
          ExtendedPlain(asm.listing, asm.labels, []);
          assert asm.listing + AllPlain([]) == asm.listing;
          ok := true;
        case OtherStmt =>
          ok := false;
      }
    }

    method GenBlock(b: Block) returns (ok: bool)
      requires Valid()
      modifies this, asm
      ensures var spec := Codegen.GenBlock(b, old(Registers()), |old(asm.listing)|);
        && (ok <==> spec.Some?)
        && (ok ==> Grown(old(asm.listing), old(asm.labels), spec.value))
      decreases b, 0
    {
      hide Extended, FreeOk, HomesOk, Distinct;
      ghost var listing0, labels0, regs := asm.listing, asm.labels, Registers();
      match b {
        case Nil =>
          ExtendedPlain(asm.listing, asm.labels, []);
          assert asm.listing + AllPlain([]) == asm.listing;
          ok := true;
        case Cons(head, tail) =>
          ok := GenStmt(head);
          if !ok {
            return;
          }
          ghost var first := Codegen.GenStmt(head, regs, |listing0|).value;
          ghost var listing1, labels1 := asm.listing, asm.labels;
          ExtendedSize(listing0, labels0, listing1, labels1, first.code);
          ok := GenBlock(tail);
          if ok {
            ghost var rest := Codegen.GenBlock(tail, first.alloc, |listing1|).value;
            ExtendedThen(listing0, labels0, listing1, labels1, first.code, asm.listing, asm.labels, rest.code);
          }
      }
    }

    /** The prologue: load the parameters from the parameter block. */
    method GenParams(params: seq<string>) returns (ok: bool)
      requires Valid() && Registers() == Codegen.Alloc(Codegen.Pool(POOL_LO), map[]) && asm.listing == [] && asm.labels == []
      modifies this, asm
      ensures var spec := Codegen.GenParams(params);
        && (ok <==> spec.Some?)
        && (ok ==>
              && Valid() && Registers() == spec.value.alloc
              && asm.listing == AllPlain(spec.value.code) && asm.labels == [])
    {
      hide FreeOk, HomesOk, Distinct, AllPlain, Codegen.GenParams, Codegen.Home;
      ParamsNone(params[..0]);
      ghost var code: seq<Instr> := [];
      var idx := 0;
      while idx < |params|
        invariant idx <= |params| && Valid() && asm.labels == []
        invariant Codegen.GenParams(params[..idx]) == Some(Codegen.StmtCode(code, Registers()))
        invariant asm.listing == AllPlain(code)
      {
        ParamsShape(params, idx);
        ParamsFail(params, idx + 1);
        var reg := VarReg(params[idx]);
        if reg.None? || 4 * idx > IMM_MAX {
          return false;
        }
        var load := IForm(OP_LOAD, reg.value, R_PARAM, 4 * idx, 0);
        asm.Emit(load);
        PlainLast(code, load);
        code := code + [load];
        idx := idx + 1;
      }
      assert params[..|params|] == params;
      ok := true;
    }

    /** The words of the whole kernel, or None when the compiler raises an exception. */
    method Compile(k: Kernel) returns (r: Option<seq<u32>>)
      requires Valid() && Registers() == Codegen.Alloc(Codegen.Pool(POOL_LO), map[]) && asm.listing == [] && asm.labels == []
      modifies this, asm
      ensures r.None? <==> Codegen.Compile(k).None?
      ensures r.Some? ==> EncodesTo(r.value, Codegen.Compile(k).value)
    {
      hide FreeOk, HomesOk, Distinct, Codegen.GenParams, Codegen.GenBlock, Extended, EncodesTo;
      ghost var spec := Codegen.Compile(k);
      CompileShape(k);
      var ok := GenParams(k.params);
      if !ok {
        return None;
      }
      ghost var p := Codegen.GenParams(k.params).value;
      ghost var listing1, labels1 := asm.listing, asm.labels;
      PlainExtends(listing1, p.code);
      ok := GenBlock(k.body);
      if !ok {
        return None;
      }
      ghost var b := Codegen.GenBlock(k.body, p.alloc, |p.code|).value;
      ghost var listing2, labels2 := asm.listing, asm.labels;
      ExtendedThen([], [], listing1, labels1, p.code, listing2, labels2, b.code);
      asm.Emit(Codegen.EXIT);
      ExitExtends(listing2, labels2);
      ExtendedThen([], [], listing2, labels2, p.code + b.code, asm.listing, asm.labels, [Codegen.EXIT]);
      ExtendedWhole(asm.listing, asm.labels, p.code + b.code + [Codegen.EXIT]);
      ok := asm.Finalize();
      r := if ok then Some(asm.words) else None;
    }

    /** Code has been appended for a statement, and the registers are what it leaves. */
    ghost predicate Grown(listing0: seq<Symbolic>, labels0: Labels, g: Codegen.StmtCode)
      reads this, asm
    {
      && Valid() && Registers() == g.alloc
      && Extended(listing0, labels0, asm.listing, asm.labels, g.code)
    }
  }

  lemma ExtendedSize(listing: seq<Symbolic>, labels: Labels, listing': seq<Symbolic>, labels': Labels, code: seq<Instr>)
    requires Extended(listing, labels, listing', labels', code)
    ensures |listing'| == |listing| + |code|
  {}

  lemma ExtendedLabels(listing: seq<Symbolic>, labels: Labels, listing': seq<Symbolic>, labels': Labels, code: seq<Instr>)
    requires Extended(listing, labels, listing', labels', code)
    ensures labels <= labels'
  {}

  lemma AllocParts(a: Codegen.Alloc)
    ensures AllocOk(a) <==> HomesOk(a.vars) && FreeOk(a.free, a.vars)
  {}

  lemma ElementAssignShape(arr: string, index: Expr, value: Expr, a: Codegen.Alloc)
    ensures var spec, val := Codegen.GenAssign(ToElement(arr, index), value, a), Codegen.GenExpr(value, a.free, a.vars);
      if val.None? then spec.None?
      else
        var off := Codegen.GenOffset(arr, index, val.value.free, a.vars);
        if off.None? then spec.None?
        else
          var free := Codegen.ReleaseIf(val.value.tmp, off.value.free, a.vars, val.value.reg);
          arr in a.vars && spec == Some(Codegen.StmtCode(
            val.value.code + off.value.code + [RForm(OP_STORE, val.value.reg, a.vars[arr], off.value.reg, 0, 0)],
            a.(free := Codegen.Release(free, a.vars, off.value.reg))))
  {
    hide Codegen.GenExpr, Codegen.Release;
  }

  lemma ReleaseDelivered(g: Codegen.ExprCode, free: seq<nat>, vars: map<string, nat>)
    requires HomesOk(vars) && Delivers(g, free, vars)
    ensures FreeOk(Codegen.ReleaseIf(g.tmp, g.free, vars, g.reg), vars)
  {
    if g.tmp {
      ReleaseHeld(g.free, vars, g.reg);
    }
  }

  lemma PlainExtends(listing: seq<Symbolic>, code: seq<Instr>)
    requires listing == AllPlain(code)
    ensures Extended([], [], listing, [], code)
  {
    ExtendedPlain([], [], code);
    assert [] + AllPlain(code) == listing;
  }

  lemma ExitExtends(listing: seq<Symbolic>, labels: Labels)
    ensures Extended(listing, labels, listing + [Plain(Codegen.EXIT)], labels, [Codegen.EXIT])
  {
    ExtendedPlain(listing, labels, [Codegen.EXIT]);
    assert AllPlain([Codegen.EXIT]) == [Plain(Codegen.EXIT)];
  }

  lemma CompileShape(k: Kernel)
    ensures var spec, p := Codegen.Compile(k), Codegen.GenParams(k.params);
      if p.None? then spec.None?
      else
        var b := Codegen.GenBlock(k.body, p.value.alloc, |p.value.code|);
        if b.None? then spec.None?
        else
          var code := p.value.code + b.value.code + [Codegen.EXIT];
          spec == if AllEncodable(code) then Some(code) else None
  {}

  lemma ExtendedWhole(listing: seq<Symbolic>, labels: Labels, code: seq<Instr>)
    requires Extended([], [], listing, labels, code)
    ensures Link(listing, labels) == code && Closed(listing, labels, 0)
  {
    assert listing[0..] == listing;
  }

  lemma ParamsNone(params: seq<string>)
    requires params == []
    ensures Codegen.GenParams(params) == Some(Codegen.StmtCode([], Codegen.Alloc(Codegen.Pool(POOL_LO), map[])))
  {}

  lemma ParamsShape(params: seq<string>, k: nat)
    requires k < |params|
    ensures var before, next := Codegen.GenParams(params[..k]), Codegen.GenParams(params[..k + 1]);
      if before.None? then next.None?
      else
        var home := Codegen.Home(before.value.alloc, params[k]);
        if home.None? || 4 * k > IMM_MAX then next.None?
        else next == Some(Codegen.StmtCode(
          before.value.code + [IForm(OP_LOAD, home.value.vars[params[k]], R_PARAM, 4 * k, 0)], home.value))
  {
    assert params[..k + 1][..k] == params[..k];
  }

  /** When the prologue cannot be generated for some of the parameters, it cannot for all of them. */
  lemma {:induction false} ParamsFail(params: seq<string>, n: nat)
    requires n <= |params|
    ensures Codegen.GenParams(params[..n]).None? ==> Codegen.GenParams(params).None?
    decreases |params|
  {
    if n == |params| {
      assert params[..n] == params;
    } else {
      var k := |params| - 1;
      assert params[..k][..n] == params[..n];
      ParamsFail(params[..k], n);
    }
  }

  lemma HomeInPool(vars: map<string, nat>, x: string)
    requires HomesOk(vars) && x in vars
    ensures InPool(vars[x])
  {}

  lemma PlainTwice(listing: seq<Symbolic>, a: seq<Instr>, b: seq<Instr>)
    ensures listing + AllPlain(a) + AllPlain(b) == listing + AllPlain(a + b)
  {
    assert AllPlain(a + b) == AllPlain(a) + AllPlain(b);
  }

  lemma ForShape(ivar: string, args: seq<Expr>, body: Block, hasElse: bool, a: Codegen.Alloc, at: nat)
    ensures var spec, range := Codegen.GenStmt(For(ivar, args, body, hasElse), a, at), RangeOf(args);
      if range.None? then spec.None?
      else
        var head := Codegen.GenLoopHead(ivar, range.value, a);
        if head.None? then spec.None?
        else
          var h, top := head.value, at + |head.value.code|;
          var inner := Codegen.GenBlock(body, h.alloc, top + 2);
          if inner.None? || hasElse || range.value.step > IMM_MAX then spec.None?
          else
            spec == Some(Codegen.StmtCode(
              h.code + LoopCode(h.ivar, h.bound, range.value.step, top, inner.value.code),
              Codegen.Alloc(Codegen.Release(inner.value.alloc.free, inner.value.alloc.vars, h.bound), inner.value.alloc.vars)))
  {
    hide Codegen.GenLoopHead, Codegen.GenBlock, Codegen.Release, RangeOf, Codegen.LoopTest, Codegen.LoopBack;
    Regroup();
  }

  lemma Regroup()
    ensures forall head, test, inner, back: seq<Instr> {:trigger head + test + inner + back} ::
      head + test + inner + back == head + (test + inner + back)
  {}

  lemma ImmediateShape(op: Op, left: Expr, c: nat, free: seq<nat>, vars: map<string, nat>)
    requires Codegen.Opcode(op).Some? && c <= IMM_MAX
    ensures var a, spec := Codegen.GenExpr(left, free, vars), Codegen.GenExpr(Bin(op, left, Const(c)), free, vars);
      && (spec.Some? <==> a.Some? && a.value.free != [])
      && (spec.Some? ==>
            spec.value == Codegen.ExprCode(
              a.value.code + [IForm(Codegen.Opcode(op).value, a.value.free[0], a.value.reg, c, 0)],
              Codegen.ReleaseIf(a.value.tmp, a.value.free[1..], vars, a.value.reg), a.value.free[0], true))
  {}

  lemma BinShape(op: Op, left: Expr, right: Expr, free: seq<nat>, vars: map<string, nat>)
    ensures op != Mod && Codegen.Opcode(op).None? ==> Codegen.GenExpr(Bin(op, left, right), free, vars).None?
    ensures (Codegen.Opcode(op).Some? || op == Mod) && !(Codegen.SmallConst(right) && op != Mod) ==>
      var a, spec := Codegen.GenExpr(left, free, vars), Codegen.GenExpr(Bin(op, left, right), free, vars);
      if a.None? then spec.None?
      else
        var b := Codegen.GenExpr(right, a.value.free, vars);
        if b.None? || b.value.free == [] then spec.None?
        else
          var t := b.value.free[0];
          spec == Some(Codegen.ExprCode(
            a.value.code + b.value.code + Codegen.OperatorCode(op, t, a.value.reg, b.value.reg),
            Codegen.ReleaseIf(b.value.tmp, Codegen.ReleaseIf(a.value.tmp, b.value.free[1..], vars, a.value.reg), vars, b.value.reg),
            t, true))
  {}

  lemma OperatorEncodable(op: Op, t: nat, a: nat, b: nat)
    requires op == Mod || Codegen.Opcode(op).Some?
    requires InPool(t) && InPool(a) && InPool(b)
    ensures AllEncodable(Codegen.OperatorCode(op, t, a, b))
  {}

  lemma ConstEncodable(rd: nat, value: int)
    requires InPool(rd)
    ensures AllEncodable(Codegen.LoadConst(rd, value))
  {}

  lemma PlainConcat(listing: seq<Symbolic>, a: seq<Instr>, b: seq<Instr>, c: seq<Instr>)
    ensures listing + AllPlain(a) + AllPlain(b) + AllPlain(c) == listing + AllPlain(a + b + c)
  {
    assert AllPlain(a + b + c) == AllPlain(a) + AllPlain(b) + AllPlain(c);
  }

  lemma PlainLast(code: seq<Instr>, i: Instr)
    ensures AllPlain(code) + [Plain(i)] == AllPlain(code + [i])
  {}

  lemma PlainThen(listing: seq<Symbolic>, code: seq<Instr>, i: Instr)
    ensures listing + AllPlain(code) + [Plain(i)] == listing + AllPlain(code + [i])
  {
    PlainLast(code, i);
  }

  predicate InPool(reg: nat) {
    Codegen.InPool(reg)
  }

  lemma HomeFacts(a: Codegen.Alloc, name: string)
    requires AllocOk(a)
    ensures Codegen.Home(a, name).Some? ==> AllocOk(Codegen.Home(a, name).value)
  {
    if Codegen.Home(a, name).Some? {
      HomeAllocation(a, name);
    }
  }
}
