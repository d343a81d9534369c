/**
 The scalar backend preserves meaning: when the run of a well-scoped kernel stays inside
 the language subset, its compiled code, started on the machine, exits with the memory that
 the kernel computes.
 */
module Preservation {
  import opened Bits
  import opened Isa
  import opened Memory
  import opened Machine
  import opened Kernel
  import opened Codegen
  import opened Allocation
  import opened ExprPreservation
  import opened Options

  // --- Runs ---

  /** In n steps from s memory holds the region throughout. */
  ghost predicate KeepsFor(code: seq<Instr>, keep: Region, s: State, n: nat)
    requires Program(code) && s.Valid()
  {
    forall k: nat :: k <= n && RunN(code, s, k).Running? ==> keep.Holds(RunN(code, s, k).s.mem)
  }

  /** In n steps the run from s comes to t, and memory holds the region all the way. */
  ghost predicate Takes(code: seq<Instr>, keep: Region, s: State, t: State, n: nat)
    requires Program(code) && s.Valid()
  {
    keep.Holds(t.mem) && RunN(code, s, n) == Running(t) && KeepsFor(code, keep, s, n)
  }

  /** The run from s comes to t, and memory holds the region all the way. */
  ghost predicate Reaches(code: seq<Instr>, keep: Region, s: State, t: State)
    requires Program(code) && s.Valid()
  {
    exists n: nat :: Takes(code, keep, s, t, n)
  }

  /** The run from s comes to EXIT with memory mem, and holds the region all the way. */
  ghost predicate Ends(code: seq<Instr>, keep: Region, s: State, mem: Bytes)
    requires Program(code) && s.Valid()
  {
    exists n: nat :: RunN(code, s, n) == Exited(mem) && KeepsFor(code, keep, s, n)
  }

  ghost predicate ExitsWith(code: seq<Instr>, s: State, mem: Bytes)
    requires Program(code) && s.Valid()
  {
    exists n: nat :: RunN(code, s, n) == Exited(mem)
  }

  lemma TakesRefl(code: seq<Instr>, keep: Region, s: State)
    requires Program(code) && s.Valid() && keep.Holds(s.mem)
    ensures Takes(code, keep, s, s, 0)
  {}

  lemma ReachesRefl(code: seq<Instr>, keep: Region, s: State)
    requires Program(code) && s.Valid() && keep.Holds(s.mem)
    ensures Reaches(code, keep, s, s)
  {
    TakesRefl(code, keep, s);
  }

  lemma KeepsLonger(code: seq<Instr>, keep: Region, s: State, m: nat, t: State, n: nat)
    requires Program(code) && s.Valid() && t.Valid()
    requires RunN(code, s, m) == Running(t) && KeepsFor(code, keep, s, m) && KeepsFor(code, keep, t, n)
    ensures KeepsFor(code, keep, s, m + n)
  {
    forall k: nat | k <= m + n && RunN(code, s, k).Running?
      ensures keep.Holds(RunN(code, s, k).s.mem)
    {
      if k > m {
        RunSplit(code, s, m, k - m);
      }
    }
  }

  lemma TakesTrans(code: seq<Instr>, keep: Region, s: State, m: nat, t: State, n: nat, u: State)
    requires Program(code) && s.Valid() && t.Valid()
    requires Takes(code, keep, s, t, m) && Takes(code, keep, t, u, n)
    ensures Takes(code, keep, s, u, m + n)
  {
    hide RunN, KeepsFor;
    RunSplit(code, s, m, n);
    KeepsLonger(code, keep, s, m, t, n);
  }

  lemma ReachesTrans(code: seq<Instr>, keep: Region, s: State, t: State, u: State)
    requires Program(code) && s.Valid() && t.Valid()
    requires Reaches(code, keep, s, t) && Reaches(code, keep, t, u)
    ensures Reaches(code, keep, s, u)
  {
    hide Takes;
    var m: nat :| Takes(code, keep, s, t, m);
    var n: nat :| Takes(code, keep, t, u, n);
    TakesTrans(code, keep, s, m, t, n, u);
  }

  lemma ReachesExit(code: seq<Instr>, keep: Region, s: State, t: State, mem: Bytes)
    requires Program(code) && s.Valid() && t.Valid()
    requires Reaches(code, keep, s, t) && Ends(code, keep, t, mem)
    ensures Ends(code, keep, s, mem)
  {
    hide RunN, KeepsFor;
    var m: nat :| Takes(code, keep, s, t, m);
    var n: nat :| RunN(code, t, n) == Exited(mem) && KeepsFor(code, keep, t, n);
    RunSplit(code, s, m, n);
    KeepsLonger(code, keep, s, m, t, n);
  }

  lemma TakesStep(code: seq<Instr>, keep: Region, s: State, i: Instr, t: State)
    requires Program(code) && s.Valid() && i.Encodable() && CodeAt(code, s.pc, [i])
    requires Execute(i, s) == Running(t) && keep.Holds(s.mem) && keep.Holds(t.mem)
    ensures t.Valid() && Takes(code, keep, s, t, 1)
  {
    hide Execute;
    assert [i][0] == i && code[s.pc + 0] == i;
    assert RunN(code, s, 1) == RunN(code, t, 0) == Running(t);
    assert RunN(code, s, 0) == Running(s);
    assert KeepsFor(code, keep, s, 1);
  }

  lemma ReachesStep(code: seq<Instr>, keep: Region, s: State, i: Instr, t: State)
    requires Program(code) && s.Valid() && i.Encodable() && CodeAt(code, s.pc, [i])
    requires Execute(i, s) == Running(t) && keep.Holds(s.mem) && keep.Holds(t.mem)
    ensures t.Valid() && Reaches(code, keep, s, t)
  {
    hide Execute, RunN;
    TakesStep(code, keep, s, i, t);
  }

  // --- Code without stores ---

  predicate Quiet(i: Instr) {
    (IsAlu(i.op) || i.op == OP_LOAD) && i.pred == 0
  }

  predicate AllQuiet(code: seq<Instr>) {
    forall k :: 0 <= k < |code| ==> Quiet(code[k])
  }

  lemma QuietConcat(a: seq<Instr>, b: seq<Instr>)
    requires AllQuiet(a) && AllQuiet(b)
    ensures AllQuiet(a + b)
  {}

  /** The code of expressions computes and loads, and stores nothing. */
  lemma {:induction false} ExprQuiet(e: Expr, free: seq<nat>, vars: map<string, nat>)
    requires GenExpr(e, free, vars).Some?
    ensures AllQuiet(GenExpr(e, free, vars).value.code)
    decreases e, 0
  {
    hide AllQuiet, Release;
    match e {
      case Const(v) => ConstQuiet(free[0], v);
      case Name(_) => NothingQuiet();
      case Neg(operand) =>
        var src := GenExpr(operand, free, vars).value;
        ExprQuiet(operand, free, vars);
        OneQuiet(RForm(OP_SUB, src.free[0], R_ZERO, src.reg, 0, 0));
        QuietConcat(src.code, [RForm(OP_SUB, src.free[0], R_ZERO, src.reg, 0, 0)]);
      case Bin(op, left, right) =>
        var a := GenExpr(left, free, vars).value;
        ExprQuiet(left, free, vars);
        if SmallConst(right) && op != Mod {
          OperatorOpcode(op);
          OneQuiet(IForm(Opcode(op).value, a.free[0], a.reg, right.v, 0));
          QuietConcat(a.code, [IForm(Opcode(op).value, a.free[0], a.reg, right.v, 0)]);
        } else {
          var b := GenExpr(right, a.free, vars).value;
          ExprQuiet(right, a.free, vars);
          OperatorQuiet(op, b.free[0], a.reg, b.reg);
          QuietConcat(a.code, b.code);
          QuietConcat(a.code + b.code, OperatorCode(op, b.free[0], a.reg, b.reg));
        }
      case Subscript(arr, index) =>
        var off := GenOffset(arr, index, free, vars).value;
        OffsetQuiet(arr, index, free, vars);
        OneQuiet(RForm(OP_LOAD, off.free[0], vars[arr], off.reg, 0, 0));
        QuietConcat(off.code, [RForm(OP_LOAD, off.free[0], vars[arr], off.reg, 0, 0)]);
    }
  }

  lemma {:induction false} OffsetQuiet(arr: string, index: Expr, free: seq<nat>, vars: map<string, nat>)
    requires GenOffset(arr, index, free, vars).Some?
    ensures AllQuiet(GenOffset(arr, index, free, vars).value.code)
    decreases index, 1
  {
    hide AllQuiet;
    var idx := GenExpr(index, free, vars).value;
    ExprQuiet(index, free, vars);
    OneQuiet(IForm(OP_SHL, idx.free[0], idx.reg, 2, 0));
    QuietConcat(idx.code, [IForm(OP_SHL, idx.free[0], idx.reg, 2, 0)]);
  }

  lemma NothingQuiet()
    ensures AllQuiet([])
  {}

  lemma OneQuiet(i: Instr)
    requires Quiet(i)
    ensures AllQuiet([i])
  {}

  lemma OperatorOpcode(op: Op)
    requires Opcode(op).Some?
    ensures IsAlu(Opcode(op).value)
  {}

  lemma ConstQuiet(rd: nat, value: int)
    ensures AllQuiet(LoadConst(rd, value))
  {}

  lemma OperatorQuiet(op: Op, t: nat, a: nat, b: nat)
    requires op == Mod || Opcode(op).Some?
    ensures AllQuiet(OperatorCode(op, t, a, b))
  {}

  /** Code without stores and branches runs straight on, and memory stays the same. */
  lemma {:induction false} QuietKeeps(code: seq<Instr>, part: seq<Instr>, s: State, n: nat)
    requires Program(code) && s.Valid() && s.p[0] && CodeAt(code, s.pc, part) && AllQuiet(part)
    requires n <= |part| && RunN(code, s, n).Running?
    ensures RunN(code, s, n).s.mem == s.mem
    decreases n
  {
    hide Alu, Rd32;
    if n > 0 {
      var i := part[0];
      assert code[s.pc + 0] == i;
      var t := Step(code, s).s;
      assert t.mem == s.mem && t.p == s.p && t.pc == s.pc + 1;
      assert CodeAt(code, t.pc, part[1..]) by {
        assert forall k :: 0 <= k < |part| - 1 ==> part[1..][k] == part[k + 1] == code[s.pc + (k + 1)];
      }
      QuietKeeps(code, part[1..], t, n - 1);
    }
  }

  lemma ComputesReaches(code: seq<Instr>, keep: Region, s: State, t: State, g: ExprCode, free: seq<nat>, w: u32)
    requires Program(code) && Live(s) && Computes(code, s, t, g, free, w) && keep.Holds(s.mem)
    requires CodeAt(code, s.pc, g.code) && AllQuiet(g.code)
    ensures Reaches(code, keep, s, t)
  {
    hide CodeAt, AllQuiet, RunN, Preserves;
    forall k: nat | k <= |g.code| && RunN(code, s, k).Running?
      ensures keep.Holds(RunN(code, s, k).s.mem)
    {
      QuietKeeps(code, g.code, s, k);
    }
    assert Takes(code, keep, s, t, |g.code|);
  }

  // --- Stores of a run ---

  /** No store of the statement's run touches the region. */
  ghost predicate StoresAvoid(keep: Region, s: Stmt, env: Env, mem: Bytes)
    decreases s, 0, 0
  {
    match s
    case For(ivar, args, body, _) =>
      var range := RangeOf(args);
      range.Some? ==>
        var start, stop := Eval(range.value.start, env, mem), Eval(range.value.stop, env, mem);
        start.Some? && stop.Some? ==> IterationsAvoid(keep, ivar, start.value, stop.value, range.value.step, body, env, mem)
    case Assign(target, _) => TargetAvoids(keep, target, env, mem)
    case AugAssign(target, _, _) => TargetAvoids(keep, target, env, mem)
    case _ => true
  }

  predicate TargetAvoids(keep: Region, target: Target, env: Env, mem: Bytes) {
    target.ToElement? ==>
      var i := Eval(target.index, env, mem);
      i.Some? ==>
        var addr := ElementAddress(target.arr, i.value, env, mem);
        addr.Some? ==> keep.Avoids(addr.value)
  }

  ghost predicate BlockAvoids(keep: Region, b: Block, env: Env, mem: Bytes)
    decreases b, 0, 0
  {
    match b
    case Nil => true
    case Cons(head, tail) =>
      && StoresAvoid(keep, head, env, mem)
      && (Exec(head, env, mem).Normal? ==> BlockAvoids(keep, tail, Exec(head, env, mem).env, Exec(head, env, mem).mem))
  }

  ghost predicate IterationsAvoid(keep: Region, ivar: string, i: i32, stop: i32, step: int, body: Block, env: Env, mem: Bytes)
    decreases body, 1, if i < stop then stop - i else 0
  {
    i < stop ==>
      && BlockAvoids(keep, body, env[ivar := i], mem)
      && var after := ExecBlock(body, env[ivar := i], mem);
      after.Normal? && step > 0 && i + step < TWO31 ==>
        IterationsAvoid(keep, ivar, i + step, stop, step, body, after.env, after.mem)
  }

  // --- What statement code keeps ---

  /** Registers outside `owned` keep their values. */
  predicate Untouched(owned: set<nat>, r: seq<u32>, r': seq<u32>) {
    |r| == 64 && |r'| == 64 && forall q :: 0 <= q < 64 && q !in owned ==> r'[q] == r[q]
  }

  lemma UntouchedTrans(owned: set<nat>, r0: seq<u32>, r1: seq<u32>, r2: seq<u32>)
    requires Untouched(owned, r0, r1) && Untouched(owned, r1, r2)
    ensures Untouched(owned, r0, r2)
  {}

  lemma UntouchedSame(owned: set<nat>, r: seq<u32>)
    requires |r| == 64
    ensures Untouched(owned, r, r)
  {}

  /** The code between s and t has run to its end: control is `len` instructions on, and `names` are in their homes. */
  ghost predicate Arrives(code: seq<Instr>, keep: Region, s: State, t: State, len: nat, owned: set<nat>,
                          names: set<string>, env: Env, vars: map<string, nat>, mem: Bytes)
    requires Program(code) && s.Valid()
  {
    && Live(t) && Reaches(code, keep, s, t)
    && t.pc == s.pc + len && t.mem == mem
    && Untouched(owned, s.r, t.r)
    && Agrees(names, env, vars, t.r)
  }

  lemma ReachesHolds(code: seq<Instr>, keep: Region, s: State, t: State)
    requires Program(code) && s.Valid() && Reaches(code, keep, s, t)
    ensures keep.Holds(t.mem)
  {}

  /** Two stretches of code, one after the other. */
  lemma ArrivesThen(code: seq<Instr>, keep: Region, s: State, t: State, len: nat, owned: set<nat>, names: set<string>, env: Env,
                    vars: map<string, nat>, u: State, len': nat, owned': set<nat>, names': set<string>, env': Env,
                    vars': map<string, nat>)
    requires Program(code) && s.Valid() && t.Valid() && owned' <= owned
    requires Arrives(code, keep, s, t, len, owned, names, env, vars, t.mem)
    requires Arrives(code, keep, t, u, len', owned', names', env', vars', u.mem)
    ensures Arrives(code, keep, s, u, len + len', owned, names', env', vars', u.mem)
  {
    hide Reaches, Agrees;
    ReachesTrans(code, keep, s, t, u);
  }

  lemma AgreesExtends(names: set<string>, env: Env, vars: map<string, nat>, vars': map<string, nat>, r: seq<u32>)
    requires Agrees(names, env, vars, r) && Extends(vars, vars')
    ensures Agrees(names, env, vars', r)
  {}

  lemma FreeOwned(a: Alloc, r: seq<u32>, r': seq<u32>)
    requires Preserves(a.free, r, r')
    ensures Untouched(Owned(a), r, r')
  {}

  // --- Moves ---

  lemma MoveCorrect(code: seq<Instr>, keep: Region, s: State, rd: nat, rs: nat) returns (t: State)
    requires Program(code) && Live(s) && 0 < rd < 64 && rs < 64 && CodeAt(code, s.pc, Move(rd, rs)) && keep.Holds(s.mem)
    ensures t == State(s.r[rd := s.r[rs]], s.p, s.pc + |Move(rd, rs)|, s.mem)
    ensures Live(t) && Reaches(code, keep, s, t)
  {
    if rd == rs {
      ReachesRefl(code, keep, s);
      t := s;
    } else {
      t := s.Set(rd, s.r[rs]);
      ReachesStep(code, keep, s, IForm(OP_ADD, rd, rs, 0, 0), t);
    }
  }

  // --- Assignments ---

  lemma AssignCorrect(code: seq<Instr>, keep: Region, s: State, target: Target, value: Expr, a: Alloc,
                      defined: set<string>, active: set<string>, env: Env) returns (t: State)
    requires Program(code) && Live(s) && AllocOk(a) && keep.Holds(s.mem)
    requires GenAssign(target, value, a).Some? && CodeAt(code, s.pc, GenAssign(target, value, a).value.code)
    requires ScopeAssign(target, value, defined, active).Some? && Agrees(defined, env, a.vars, s.r)
    requires ExecAssign(target, value, env, s.mem).Normal? && TargetAvoids(keep, target, env, s.mem)
    ensures var g, after := GenAssign(target, value, a).value, ExecAssign(target, value, env, s.mem);
      Arrives(code, keep, s, t, |g.code|, Owned(a), ScopeAssign(target, value, defined, active).value, after.env, g.alloc.vars, after.mem)
  {
    match target {
      case ToName(id) => t := NameAssignCorrect(code, keep, s, id, value, a, defined, env);
      case ToElement(arr, index) => t := ElementAssignCorrect(code, keep, s, arr, index, value, a, defined, env);
    }
  }

  /** Writing the home of a name binds the name and disturbs no other. */
  lemma AgreesBound(names: set<string>, env: Env, vars: map<string, nat>, vars': map<string, nat>, r: seq<u32>,
                    id: string, v: i32)
    requires Agrees(names, env, vars, r) && Extends(vars, vars') && HomesOk(vars') && id in vars'
    ensures Agrees(names + {id}, env[id := v], vars', r[vars'[id] := Wrap(v)])
  {
    var r', env' := r[vars'[id] := Wrap(v)], env[id := v];
    forall x | x in names + {id}
      ensures x in env' && x in vars' && vars'[x] < 64 && r'[vars'[x]] == Wrap(env'[x])
    {}
  }

  lemma NameAssignCorrect(code: seq<Instr>, keep: Region, s: State, id: string, value: Expr, a: Alloc, defined: set<string>, env: Env)
      returns (t: State)
    requires Program(code) && Live(s) && AllocOk(a) && keep.Holds(s.mem)
    requires var g := GenAssign(ToName(id), value, a); g.Some? && CodeAt(code, s.pc, g.value.code)
    requires Reads(value) <= defined && Agrees(defined, env, a.vars, s.r)
    requires Eval(value, env, s.mem).Some?
    ensures var g := GenAssign(ToName(id), value, a).value;
      Arrives(code, keep, s, t, |g.code|, Owned(a), defined + {id}, env[id := Eval(value, env, s.mem).value], g.alloc.vars, s.mem)
  {
    hide Alu, RunN, Execute, GenExpr, Eval, Agrees, Preserves, Distinct;
    var src, v := GenExpr(value, a.free, a.vars).value, Eval(value, env, s.mem).value;
    var mid := Alloc(src.free, a.vars);
    var home := Home(mid, id).value;
    var dst := home.vars[id];
    CodeAtSplit(code, s.pc, src.code, Move(dst, src.reg));
    AgreesSubset(Reads(value), defined, env, a.vars, s.r);
    var t1 := ExprCorrect(code, s, value, a.free, a.vars, env);
    ExprAllocation(value, a.free, a.vars);
    HomeAllocation(mid, id);
    ExprQuiet(value, a.free, a.vars);
    ComputesReaches(code, keep, s, t1, src, a.free, Wrap(v));
    AgreesPreserved(defined, env, a.vars, a.free, s.r, t1.r);
    t := MoveCorrect(code, keep, t1, dst, src.reg);
    ReachesTrans(code, keep, s, t1, t);
    FreeOwned(a, s.r, t1.r);
    AgreesBound(defined, env, a.vars, home.vars, t1.r, id, v);
    assert dst in Owned(home) && Owned(home) == Owned(mid) <= Owned(a);
  }

  lemma StoreCorrect(code: seq<Instr>, keep: Region, s: State, val: nat, base: nat, off: nat) returns (t: State)
    requires Program(code) && Live(s) && val < 64 && base < 64 && off < 64 && keep.Holds(s.mem)
    requires CodeAt(code, s.pc, [RForm(OP_STORE, val, base, off, 0, 0)])
    requires InBounds(s.mem, s.r[base] as int + s.r[off] as int, 4) && keep.Avoids(s.r[base] as int + s.r[off] as int)
    ensures t == s.(pc := s.pc + 1, mem := Wr32(s.mem, s.r[base] as int + s.r[off] as int, s.r[val]))
    ensures Live(t) && Reaches(code, keep, s, t)
  {
    t := s.(pc := s.pc + 1, mem := Wr32(s.mem, s.r[base] as int + s.r[off] as int, s.r[val]));
    StoreElsewhere(keep, s.mem, s.r[base] as int + s.r[off] as int, s.r[val]);
    ReachesStep(code, keep, s, RForm(OP_STORE, val, base, off, 0, 0), t);
  }

  lemma RegisterKept(free: seq<nat>, r: seq<u32>, r': seq<u32>, q: nat)
    requires Preserves(free, r, r') && q < 64 && q !in free
    ensures r'[q] == r[q]
  {}

  lemma DeliveredRegister(g: ExprCode, free: seq<nat>, vars: map<string, nat>)
    requires HomesOk(vars) && FreeOk(free, vars) && Delivers(g, free, vars)
    ensures g.reg < 64 && g.reg !in g.free
  {}

  lemma ElementAssignCorrect(code: seq<Instr>, keep: Region, s: State, arr: string, index: Expr, value: Expr, a: Alloc,
                             defined: set<string>, env: Env)
      returns (t: State)
    requires Program(code) && Live(s) && AllocOk(a) && keep.Holds(s.mem)
    requires var g := GenAssign(ToElement(arr, index), value, a); g.Some? && CodeAt(code, s.pc, g.value.code)
    requires Reads(value) + Reads(index) + {arr} <= defined && Agrees(defined, env, a.vars, s.r)
    requires ExecAssign(ToElement(arr, index), value, env, s.mem).Normal? && TargetAvoids(keep, ToElement(arr, index), env, s.mem)
    ensures var g := GenAssign(ToElement(arr, index), value, a).value;
      Arrives(code, keep, s, t, |g.code|, Owned(a), defined, env, g.alloc.vars, ExecAssign(ToElement(arr, index), value, env, s.mem).mem)
  {
    hide Alu, RunN, Execute, GenExpr, Eval, Distinct;
    hide Rd32, Wr32, CodeAt, Preserves, Agrees, Untouched, HomesOk, FreeOk, Reaches, Delivers, Owned;
    var val, v := GenExpr(value, a.free, a.vars).value, Eval(value, env, s.mem).value;
    var off, k := GenOffset(arr, index, val.free, a.vars).value, Eval(index, env, s.mem).value;
    var store := RForm(OP_STORE, val.reg, a.vars[arr], off.reg, 0, 0);
    CodeAtSplit(code, s.pc, val.code + off.code, [store]);
    CodeAtSplit(code, s.pc, val.code, off.code);
    AgreesSubset(Reads(value), defined, env, a.vars, s.r);
    var t1 := ExprCorrect(code, s, value, a.free, a.vars, env);
    ExprAllocation(value, a.free, a.vars);
    AgreesPreserved(defined, env, a.vars, a.free, s.r, t1.r);
    AgreesSubset(Reads(index) + {arr}, defined, env, a.vars, t1.r);
    var t2 := OffsetCorrect(code, t1, arr, index, val.free, a.vars, env);
    OffsetAllocation(arr, index, val.free, a.vars);
    DeliversFree(val, a.free, a.vars);
    DeliversFree(off, val.free, a.vars);
    AgreesPreserved(defined, env, a.vars, val.free, t1.r, t2.r);
    FrameGrows(val.free, a.free, s.r, t1.r, t2.r);
    DeliveredRegister(val, a.free, a.vars);
    RegisterKept(val.free, t1.r, t2.r, val.reg);
    FreeOwned(a, s.r, t2.r);
    ExprQuiet(value, a.free, a.vars);
    OffsetQuiet(arr, index, val.free, a.vars);
    ComputesReaches(code, keep, s, t1, val, a.free, Wrap(v));
    ComputesReaches(code, keep, t1, t2, off, val.free, 4 * k as int);
    ReachesTrans(code, keep, s, t1, t2);
    t := StoreCorrect(code, keep, t2, val.reg, a.vars[arr], off.reg);
    ReachesTrans(code, keep, s, t2, t);
  }

  // --- Loops ---

  /** Executing a statement leaves the variables of the enclosing loops alone. */
  lemma {:induction false} ActiveKept(st: Stmt, defined: set<string>, active: set<string>, env: Env, mem: Bytes, x: string)
    requires Scope(st, defined, active).Some? && x in active && x in env
    requires Exec(st, env, mem).Normal?
    ensures x in Exec(st, env, mem).env && Exec(st, env, mem).env[x] == env[x]
    decreases st, 0, 0
  {
    match st {
      case For(ivar, args, body, _) =>
        var range := RangeOf(args).value;
        var i, stop := Eval(range.start, env, mem).value, Eval(range.stop, env, mem).value;
        IterateKeepsActive(ivar, i, stop, range.step, body, defined - BlockLoopVars(body) + {ivar}, active, env, mem, x);
      case Assign(_, _) =>
      case AugAssign(_, _, _) =>
      case Return(_) =>
      case Docstring =>
      case Pass =>
    }
  }

  lemma {:induction false} BlockActiveKept(b: Block, defined: set<string>, active: set<string>, env: Env, mem: Bytes, x: string)
    requires BlockScope(b, defined, active).Some? && x in active && x in env
    requires ExecBlock(b, env, mem).Normal?
    ensures x in ExecBlock(b, env, mem).env && ExecBlock(b, env, mem).env[x] == env[x]
    decreases b, 0, 0
  {
    match b {
      case Nil =>
      case Cons(head, tail) =>
        ActiveKept(head, defined, active, env, mem, x);
        var next := Exec(head, env, mem);
        BlockActiveKept(tail, Scope(head, defined, active).value, active, next.env, next.mem, x);
    }
  }

  lemma {:induction false} IterateKeepsActive(ivar: string, i: i32, stop: i32, step: int, body: Block,
                                              defined: set<string>, active: set<string>, env: Env, mem: Bytes, x: string)
    requires ivar !in active && BlockScope(body, defined, active + {ivar}).Some? && x in active && x in env
    requires Iterate(ivar, i, stop, step, body, env, mem).Normal?
    ensures var r := Iterate(ivar, i, stop, step, body, env, mem); x in r.env && r.env[x] == env[x]
    decreases body, 1, if i < stop then stop - i else 0
  {
    if i < stop {
      BlockActiveKept(body, defined, active + {ivar}, env[ivar := i], mem, x);
      var r := ExecBlock(body, env[ivar := i], mem);
      IterateKeepsActive(ivar, i + step, stop, step, body, defined, active, r.env, r.mem, x);
    }
  }

  /** The scope check forgets no name but loop variables, and inner loops reuse no active one. */
  lemma {:induction false} ScopeKeeps(st: Stmt, defined: set<string>, active: set<string>)
    requires Scope(st, defined, active).Some?
    ensures defined - LoopVars(st) <= Scope(st, defined, active).value
    ensures LoopVars(st) !! active
    decreases st
  {
    match st {
      case For(ivar, args, body, _) =>
        BlockScopeKeeps(body, defined - BlockLoopVars(body) + {ivar}, active + {ivar});
      case Assign(_, _) =>
      case AugAssign(_, _, _) =>
      case Return(_) =>
      case Docstring =>
      case Pass =>
    }
  }

  lemma {:induction false} BlockScopeKeeps(b: Block, defined: set<string>, active: set<string>)
    requires BlockScope(b, defined, active).Some?
    ensures defined - BlockLoopVars(b) <= BlockScope(b, defined, active).value
    ensures BlockLoopVars(b) !! active
    decreases b
  {
    match b {
      case Nil =>
      case Cons(head, tail) =>
        ScopeKeeps(head, defined, active);
        BlockScopeKeeps(tail, Scope(head, defined, active).value, active);
    }
  }

  /** The loop test: fall through into the body while i < stop, leave to `end` otherwise. */
  lemma LoopTestCorrect(code: seq<Instr>, keep: Region, s: State, ivar: nat, bound: nat, end: nat, i: i32, stop: i32) returns (t: State)
    requires Program(code) && Live(s) && ivar < 64 && bound < 64 && end <= IMM_MAX && keep.Holds(s.mem)
    requires CodeAt(code, s.pc, LoopTest(ivar, bound, end))
    requires s.r[ivar] == Wrap(i) && s.r[bound] == Wrap(stop)
    ensures t == s.(p := s.p[1 := i >= stop], pc := if i >= stop then end else s.pc + 2)
    ensures Live(t) && Takes(code, keep, s, t, 2) && Reaches(code, keep, s, t)
  {
    SignedOfWrap(i);
    SignedOfWrap(stop);
    var setp, branch := LoopTest(ivar, bound, end)[0], LoopTest(ivar, bound, end)[1];
    assert LoopTest(ivar, bound, end) == [setp] + [branch];
    CodeAtSplit(code, s.pc, [setp], [branch]);
    var mid := s.(p := s.p[1 := i >= stop], pc := s.pc + 1);
    TakesStep(code, keep, s, setp, mid);
    t := mid.(pc := if i >= stop then end else mid.pc + 1);
    TakesStep(code, keep, mid, branch, t);
    TakesTrans(code, keep, s, 1, mid, 1, t);
  }

  lemma LoopBackCorrect(code: seq<Instr>, keep: Region, s: State, ivar: nat, step: nat, top: nat, i: i32) returns (t: State)
    requires Program(code) && Live(s) && 0 < ivar < 64 && step <= IMM_MAX && top <= IMM_MAX && keep.Holds(s.mem)
    requires CodeAt(code, s.pc, LoopBack(ivar, step, top))
    requires s.r[ivar] == Wrap(i)
    ensures t == s.(r := s.r[ivar := Wrap(i + step)], pc := top)
    ensures Live(t) && Takes(code, keep, s, t, 2) && Reaches(code, keep, s, t)
  {
    var add, branch := LoopBack(ivar, step, top)[0], LoopBack(ivar, step, top)[1];
    assert LoopBack(ivar, step, top) == [add] + [branch];
    CodeAtSplit(code, s.pc, [add], [branch]);
    var mid := s.Set(ivar, Wrap(i + step));
    assert Alu(OP_ADD, Wrap(i), step) == Wrap(i + step);
    TakesStep(code, keep, s, add, mid);
    t := mid.(pc := top);
    TakesStep(code, keep, mid, branch, t);
    TakesTrans(code, keep, s, 1, mid, 1, t);
  }

  /** Start value in the loop variable's home, stop value in a private register. */
  lemma LoopHeadCorrect(code: seq<Instr>, keep: Region, s: State, ivar: string, range: Range, a: Alloc, defined: set<string>, env: Env)
      returns (t: State)
    requires Program(code) && Live(s) && AllocOk(a) && keep.Holds(s.mem)
    requires GenLoopHead(ivar, range, a).Some? && CodeAt(code, s.pc, GenLoopHead(ivar, range, a).value.code)
    requires Reads(range.start) <= defined && Reads(range.stop) <= defined - {ivar} && Agrees(defined, env, a.vars, s.r)
    requires Eval(range.start, env, s.mem).Some? && Eval(range.stop, env, s.mem).Some?
    ensures var h := GenLoopHead(ivar, range, a).value;
      && Arrives(code, keep, s, t, |h.code|, Owned(a), defined - {ivar}, env, h.alloc.vars, s.mem)
      && h.ivar < 64 && t.r[h.ivar] == Wrap(Eval(range.start, env, s.mem).value)
      && h.bound < 64 && t.r[h.bound] == Wrap(Eval(range.stop, env, s.mem).value)
  {
    hide Alu, RunN, Execute, GenExpr, GenBound, Eval, Distinct, Preserves, CodeAt;
    var h := GenLoopHead(ivar, range, a).value;
    var home := Home(a, ivar).value;
    HomeAllocation(a, ivar);
    var reg := home.vars[ivar];
    var start := GenExpr(range.start, home.free, home.vars).value;
    ExprAllocation(range.start, home.free, home.vars);
    ExprOwned(start, home);
    ReleaseIfOwned(home.(free := start.free), start.tmp, start.reg);
    var mid := home.(free := ReleaseIf(start.tmp, start.free, home.vars, start.reg));
    var bound := GenBound(range.stop, mid.free, mid.vars).value;
    CodeAtSplit(code, s.pc, start.code + Move(reg, start.reg), bound.code);
    AgreesExtends(defined, env, a.vars, home.vars, s.r);
    var t1 := LoopStartCorrect(code, keep, s, ivar, range.start, home, defined, env);
    AgreesSubset(Reads(range.stop), defined - {ivar}, env, home.vars, t1.r);
    t := BoundCorrect(code, t1, range.stop, mid.free, mid.vars, env);
    BoundQuiet(range.stop, mid.free, mid.vars);
    ComputesReaches(code, keep, t1, t, bound, mid.free, Wrap(Eval(range.stop, env, s.mem).value));
    ReachesTrans(code, keep, s, t1, t);
    AgreesPreserved(defined - {ivar}, env, mid.vars, mid.free, t1.r, t.r);
    HomePreserved(ivar, mid, t1.r, t.r);
    FreeOwned(mid, t1.r, t.r);
    UntouchedTrans(Owned(a), s.r, t1.r, t.r);
  }

  lemma BoundQuiet(e: Expr, free: seq<nat>, vars: map<string, nat>)
    requires GenBound(e, free, vars).Some?
    ensures AllQuiet(GenBound(e, free, vars).value.code)
  {
    hide GenExpr, AllQuiet;
    ExprQuiet(e, free, vars);
    var stop := GenExpr(e, free, vars).value;
    if !stop.tmp {
      MoveQuiet(stop.free[0], stop.reg);
      QuietConcat(stop.code, Move(stop.free[0], stop.reg));
    }
  }

  lemma MoveQuiet(rd: nat, rs: nat)
    ensures AllQuiet(Move(rd, rs))
  {}

  lemma HomePreserved(x: string, a: Alloc, r: seq<u32>, r': seq<u32>)
    requires AllocOk(a) && x in a.vars && Preserves(a.free, r, r')
    ensures a.vars[x] < 64 && r'[a.vars[x]] == r[a.vars[x]]
  {}

  lemma BoundCorrect(code: seq<Instr>, s: State, e: Expr, free: seq<nat>, vars: map<string, nat>, env: Env)
      returns (t: State)
    requires Program(code) && Live(s)
    requires HomesOk(vars) && FreeOk(free, vars)
    requires GenBound(e, free, vars).Some? && CodeAt(code, s.pc, GenBound(e, free, vars).value.code)
    requires Agrees(Reads(e), env, vars, s.r)
    requires Eval(e, env, s.mem).Some?
    ensures Computes(code, s, t, GenBound(e, free, vars).value, free, Wrap(Eval(e, env, s.mem).value))
  {
    hide Alu, RunN, Execute, GenExpr, Eval, Distinct;
    var g, v := GenBound(e, free, vars).value, Eval(e, env, s.mem).value;
    var stop := GenExpr(e, free, vars).value;
    ExprAllocation(e, free, vars);
    PoolExcludes(free, vars);
    if stop.tmp {
      t := ExprCorrect(code, s, e, free, vars, env);
    } else {
      TakeFront(free, vars);
      CodeAtSplit(code, s.pc, stop.code, Move(g.reg, stop.reg));
      var t1 := ExprCorrect(code, s, e, free, vars, env);
      AddZero(Wrap(v));
      ComputesThen(code, s, t1, stop, free, Wrap(v), IForm(OP_ADD, g.reg, stop.reg, 0, 0), Wrap(v), g);
      t := t1.Set(g.reg, Wrap(v));
    }
  }

  lemma AddZero(w: u32)
    ensures Alu(OP_ADD, w, 0) == w
  {}

  lemma LoopStartCorrect(code: seq<Instr>, keep: Region, s: State, ivar: string, e: Expr, home: Alloc, defined: set<string>, env: Env)
      returns (t: State)
    requires Program(code) && Live(s) && AllocOk(home) && ivar in home.vars && keep.Holds(s.mem)
    requires GenExpr(e, home.free, home.vars).Some?
    requires var start := GenExpr(e, home.free, home.vars).value; CodeAt(code, s.pc, start.code + Move(home.vars[ivar], start.reg))
    requires Reads(e) <= defined && Agrees(defined, env, home.vars, s.r)
    requires Eval(e, env, s.mem).Some?
    ensures var start := GenExpr(e, home.free, home.vars).value;
      && Arrives(code, keep, s, t, |start.code + Move(home.vars[ivar], start.reg)|, Owned(home), defined - {ivar}, env, home.vars, s.mem)
      && home.vars[ivar] < 64 && t.r[home.vars[ivar]] == Wrap(Eval(e, env, s.mem).value)
  {
    hide Alu, RunN, Execute, GenExpr, Eval, Distinct;
    var start, reg := GenExpr(e, home.free, home.vars).value, home.vars[ivar];
    CodeAtSplit(code, s.pc, start.code, Move(reg, start.reg));
    AgreesSubset(Reads(e), defined, env, home.vars, s.r);
    var t1 := ExprCorrect(code, s, e, home.free, home.vars, env);
    ExprAllocation(e, home.free, home.vars);
    ExprQuiet(e, home.free, home.vars);
    ComputesReaches(code, keep, s, t1, start, home.free, Wrap(Eval(e, env, s.mem).value));
    AgreesPreserved(defined, env, home.vars, home.free, s.r, t1.r);
    t := MoveCorrect(code, keep, t1, reg, start.reg);
    ReachesTrans(code, keep, s, t1, t);
    FreeOwned(home, s.r, t1.r);
    assert reg in Owned(home);
  }

  /** A compiled loop in place: its head has run with `alloc`, and its test, body and back branch start at `top`. */
  datatype Loop = Loop(ivar: string, step: nat, body: Block, kept: set<string>, active: set<string>,
                       alloc: Alloc, bound: nat, top: nat)
  {
    function Reg(): nat
      requires ivar in alloc.vars
    {
      alloc.vars[ivar]
    }

    function Inner(): Option<StmtCode> {
      GenBlock(body, alloc, top + 2)
    }

    function End(): nat
      requires Inner().Some?
    {
      top + 2 + |Inner().value.code| + 2
    }

    predicate InPlace(code: seq<Instr>) {
      && AllocOk(alloc) && ivar in alloc.vars && Held(bound, alloc.free, alloc.vars)
      && Inner().Some? && 0 < step <= IMM_MAX && End() <= IMM_MAX
      && CodeAt(code, top, LoopTest(Reg(), bound, End()))
      && CodeAt(code, top + 2, Inner().value.code)
      && CodeAt(code, End() - 2, LoopBack(Reg(), step, top))
      && ivar !in active && kept !! BlockLoopVars(body)
      && BlockScope(body, kept + {ivar}, active + {ivar}).Some?
    }

    /** At the top of the loop, about to test counter value i. */
    predicate AtTop(s: State, i: i32, stop: i32, env: Env)
      requires ivar in alloc.vars
    {
      && Live(s) && s.pc == top
      && Reg() < 64 && s.r[Reg()] == Wrap(i)
      && bound < 64 && s.r[bound] == Wrap(stop)
      && Agrees(kept - {ivar}, env, alloc.vars, s.r)
    }
  }

  /** Code after the loop, or inside it, relative to the state at the top. */
  ghost predicate Leaves(code: seq<Instr>, keep: Region, s: State, t: State, l: Loop, env: Env, mem: Bytes)
    requires Program(code) && s.Valid() && l.Inner().Some?
  {
    && Live(t) && Reaches(code, keep, s, t) && t.pc == l.End() && t.mem == mem
    && Untouched(Owned(l.alloc), s.r, t.r)
    && Agrees(l.kept - {l.ivar}, env, l.Inner().value.alloc.vars, t.r)
  }

  lemma {:induction false} StmtCorrect(code: seq<Instr>, keep: Region, s: State, st: Stmt, a: Alloc,
                                       defined: set<string>, active: set<string>, env: Env) returns (t: State)
    requires Program(code) && Live(s) && AllocOk(a) && keep.Holds(s.mem)
    requires GenStmt(st, a, s.pc).Some? && CodeAt(code, s.pc, GenStmt(st, a, s.pc).value.code)
    requires Scope(st, defined, active).Some? && Agrees(defined, env, a.vars, s.r)
    requires !Exec(st, env, s.mem).Stuck? && StoresAvoid(keep, st, env, s.mem)
    ensures match Exec(st, env, s.mem)
      case Normal(env', mem') =>
        var g := GenStmt(st, a, s.pc).value;
        Arrives(code, keep, s, t, |g.code|, Owned(a), Scope(st, defined, active).value, env', g.alloc.vars, mem')
      case Returned(mem') => Ends(code, keep, s, mem')
      case Stuck => true
    decreases st, 0, 0
  {
    hide Alu, RunN, Execute, GenExpr, Eval, Distinct, CodeAt, Preserves;
    match st {
      case For(ivar, args, body, _) =>
        t := ForCorrect(code, keep, s, st, a, defined, active, env);
      case Assign(target, value) =>
        t := AssignCorrect(code, keep, s, target, value, a, defined, active, env);
      case AugAssign(target, op, value) =>
        var assign := Expand(target, op, value);
        t := AssignCorrect(code, keep, s, assign.target, assign.value, a, defined, active, env);
      case Return(_) =>
        ExitCorrect(code, keep, s);
        t := s;
      case Docstring =>
        ReachesRefl(code, keep, s);
        t := s;
      case Pass =>
        ReachesRefl(code, keep, s);
        t := s;
    }
  }

  lemma ExitCorrect(code: seq<Instr>, keep: Region, s: State)
    requires Program(code) && Live(s) && CodeAt(code, s.pc, [EXIT]) && keep.Holds(s.mem)
    ensures Ends(code, keep, s, s.mem)
  {
    assert [EXIT][0] == EXIT && code[s.pc + 0] == EXIT;
    assert RunN(code, s, 1) == Exited(s.mem);
  }

  lemma {:induction false} BlockCorrect(code: seq<Instr>, keep: Region, s: State, b: Block, a: Alloc,
                                        defined: set<string>, active: set<string>, env: Env) returns (t: State)
    requires Program(code) && Live(s) && AllocOk(a) && keep.Holds(s.mem)
    requires GenBlock(b, a, s.pc).Some? && CodeAt(code, s.pc, GenBlock(b, a, s.pc).value.code)
    requires BlockScope(b, defined, active).Some? && Agrees(defined, env, a.vars, s.r)
    requires !ExecBlock(b, env, s.mem).Stuck? && BlockAvoids(keep, b, env, s.mem)
    ensures match ExecBlock(b, env, s.mem)
      case Normal(env', mem') =>
        var g := GenBlock(b, a, s.pc).value;
        Arrives(code, keep, s, t, |g.code|, Owned(a), BlockScope(b, defined, active).value, env', g.alloc.vars, mem')
      case Returned(mem') => Ends(code, keep, s, mem')
      case Stuck => true
    decreases b, 0, 0
  {
    hide Alu, RunN, Execute, GenExpr, Eval, Distinct, CodeAt, Preserves, Reaches, Ends, GenStmt, Scope, Exec, Agrees, Untouched;
    match b {
      case Nil =>
        ReachesRefl(code, keep, s);
        UntouchedSame(Owned(a), s.r);
        t := s;
      case Cons(head, tail) =>
        var first, names := GenStmt(head, a, s.pc).value, Scope(head, defined, active).value;
        var rest := GenBlock(tail, first.alloc, s.pc + |first.code|).value;
        CodeAtSplit(code, s.pc, first.code, rest.code);
        var t1 := StmtCorrect(code, keep, s, head, a, defined, active, env);
        t := t1;
        var next := Exec(head, env, s.mem);
        if next.Normal? {
          ReachesHolds(code, keep, s, t1);
          StmtAllocation(head, a, s.pc);
          t := BlockCorrect(code, keep, t1, tail, first.alloc, names, active, next.env);
          var last := ExecBlock(tail, next.env, next.mem);
          if last.Normal? {
            ArrivesThen(code, keep, s, t1, |first.code|, Owned(a), names, next.env, first.alloc.vars, t, |rest.code|,
                        Owned(first.alloc), BlockScope(tail, names, active).value, last.env, rest.alloc.vars);
          } else {
            ReachesExit(code, keep, s, t1, last.mem);
          }
        }
    }
  }

  lemma {:induction false} ForCorrect(code: seq<Instr>, keep: Region, s: State, st: Stmt, a: Alloc,
                                      defined: set<string>, active: set<string>, env: Env) returns (t: State)
    requires Program(code) && Live(s) && AllocOk(a) && st.For? && keep.Holds(s.mem)
    requires GenStmt(st, a, s.pc).Some? && CodeAt(code, s.pc, GenStmt(st, a, s.pc).value.code)
    requires Scope(st, defined, active).Some? && Agrees(defined, env, a.vars, s.r)
    requires !Exec(st, env, s.mem).Stuck? && StoresAvoid(keep, st, env, s.mem)
    ensures match Exec(st, env, s.mem)
      case Normal(env', mem') =>
        var g := GenStmt(st, a, s.pc).value;
        Arrives(code, keep, s, t, |g.code|, Owned(a), Scope(st, defined, active).value, env', g.alloc.vars, mem')
      case Returned(mem') => Ends(code, keep, s, mem')
      case Stuck => true
    decreases st.body, 2, 0
  {
    hide Alu, RunN, Execute, GenExpr, GenLoopHead, Eval, Distinct, CodeAt, Preserves, HomesOk, FreeOk;
    var range := RangeOf(st.args).value;
    var head := GenLoopHead(st.ivar, range, a).value;
    var top := s.pc + |head.code|;
    var kept := defined - BlockLoopVars(st.body);
    var l := Loop(st.ivar, range.step, st.body, kept, active, head.alloc, head.bound, top);
    LoopHeadAllocation(st.ivar, range, a);
    LoopCodeInPlace(code, s.pc, head.code, l);
    var t1 := LoopHeadCorrect(code, keep, s, st.ivar, range, a, defined, env);
    AgreesSubset(kept - {st.ivar}, defined - {st.ivar}, env, head.alloc.vars, t1.r);
    var i, stop := Eval(range.start, env, s.mem).value, Eval(range.stop, env, s.mem).value;
    t := IterateCorrect(code, keep, t1, l, i, stop, env);
    var last := Iterate(l.ivar, i, stop, l.step, l.body, env, s.mem);
    if last.Normal? {
      ReachesTrans(code, keep, s, t1, t);
      UntouchedTrans(Owned(a), s.r, t1.r, t.r);
    } else {
      ReachesExit(code, keep, s, t1, last.mem);
    }
  }

  lemma LoopCodeInPlace(code: seq<Instr>, at: nat, head: seq<Instr>, l: Loop)
    requires Program(code) && l.ivar in l.alloc.vars && l.Inner().Some? && l.top == at + |head|
    requires CodeAt(code, at, head + LoopTest(l.Reg(), l.bound, l.End()) + l.Inner().value.code + LoopBack(l.Reg(), l.step, l.top))
    requires l.step > 0
    ensures CodeAt(code, at, head)
    ensures CodeAt(code, l.top, LoopTest(l.Reg(), l.bound, l.End()))
    ensures CodeAt(code, l.top + 2, l.Inner().value.code)
    ensures CodeAt(code, l.End() - 2, LoopBack(l.Reg(), l.step, l.top))
    ensures l.End() <= IMM_MAX
  {
    hide CodeAt, GenBlock;
    var test, inner, back := LoopTest(l.Reg(), l.bound, l.End()), l.Inner().value.code, LoopBack(l.Reg(), l.step, l.top);
    CodeAtSplit(code, at, head + test + inner, back);
    CodeAtSplit(code, at, head + test, inner);
    CodeAtSplit(code, at, head, test);
    InPlaceEncodable(code, l.top, test, 1);
  }

  lemma {:induction false} IterateCorrect(code: seq<Instr>, keep: Region, s: State, l: Loop, i: i32, stop: i32, env: Env) returns (t: State)
    requires Program(code) && l.InPlace(code) && l.AtTop(s, i, stop, env) && keep.Holds(s.mem)
    requires IterationsAvoid(keep, l.ivar, i, stop, l.step, l.body, env, s.mem)
    requires !Iterate(l.ivar, i, stop, l.step, l.body, env, s.mem).Stuck?
    ensures match Iterate(l.ivar, i, stop, l.step, l.body, env, s.mem)
      case Normal(env', mem') => Leaves(code, keep, s, t, l, env', mem')
      case Returned(mem') => Ends(code, keep, s, mem')
      case Stuck => true
    decreases l.body, 1, if i < stop then stop - i else 0
  {
    hide Alu, RunN, Execute, GenExpr, Eval, Distinct, CodeAt, Preserves, FreeOk, GenBlock, BlockScope;
    var inner := l.Inner().value;
    BlockAllocation(l.body, l.alloc, l.top + 2);
    var t1 := LoopTestCorrect(code, keep, s, l.Reg(), l.bound, l.End(), i, stop);
    if i >= stop {
      AgreesExtends(l.kept - {l.ivar}, env, l.alloc.vars, inner.alloc.vars, t1.r);
      t := t1;
    } else {
      var env1, names := env[l.ivar := i], l.kept + {l.ivar};
      LoopVarBound(l, env, s.r, i);
      var t2 := BlockCorrect(code, keep, t1, l.body, l.alloc, names, l.active + {l.ivar}, env1);
      t := t2;
      var after := ExecBlock(l.body, env1, s.mem);
      if after.Returned? {
        ReachesExit(code, keep, s, t1, after.mem);
      } else {
        var t3 := NextIteration(code, keep, s, t1, t2, l, i, stop, env, after.env);
        t := IterateCorrect(code, keep, t3, l, i + l.step, stop, after.env);
        var last := Iterate(l.ivar, i + l.step, stop, l.step, l.body, after.env, after.mem);
        if last.Normal? {
          ReachesTrans(code, keep, s, t3, t);
          UntouchedTrans(Owned(l.alloc), s.r, t3.r, t.r);
        } else {
          ReachesExit(code, keep, s, t3, last.mem);
        }
      }
    }
  }

  lemma LoopVarBound(l: Loop, env: Env, r: seq<u32>, i: i32)
    requires l.ivar in l.alloc.vars && l.Reg() < 64 && Agrees(l.kept - {l.ivar}, env, l.alloc.vars, r) && r[l.Reg()] == Wrap(i)
    ensures Agrees(l.kept + {l.ivar}, env[l.ivar := i], l.alloc.vars, r)
  {}

  /** From the end of the body, in state t2, back to the top with the counter advanced. */
  lemma NextIteration(code: seq<Instr>, keep: Region, s: State, t1: State, t2: State, l: Loop, i: i32, stop: i32, env: Env, env': Env)
      returns (t3: State)
    requires Program(code) && l.InPlace(code) && l.AtTop(s, i, stop, env) && i + l.step < TWO31 && keep.Holds(s.mem)
    requires Live(t1) && Reaches(code, keep, s, t1) && t1.r == s.r && t1.pc == l.top + 2 && t1.mem == s.mem
    requires ExecBlock(l.body, env[l.ivar := i], s.mem).Normal? && ExecBlock(l.body, env[l.ivar := i], s.mem).env == env'
    requires var names := BlockScope(l.body, l.kept + {l.ivar}, l.active + {l.ivar}).value;
      Arrives(code, keep, t1, t2, |l.Inner().value.code|, Owned(l.alloc), names, env', l.Inner().value.alloc.vars, t2.mem)
    ensures l.AtTop(t3, i + l.step, stop, env') && Reaches(code, keep, s, t3) && t3.mem == t2.mem
    ensures Untouched(Owned(l.alloc), s.r, t3.r)
  {
    hide Alu, RunN, Execute, CodeAt, GenBlock, ExecBlock, BlockScope, Distinct;
    var inner, names := l.Inner().value, BlockScope(l.body, l.kept + {l.ivar}, l.active + {l.ivar}).value;
    BlockAllocation(l.body, l.alloc, l.top + 2);
    BlockScopeKeeps(l.body, l.kept + {l.ivar}, l.active + {l.ivar});
    assert l.kept + {l.ivar} <= names;
    BlockActiveKept(l.body, l.kept + {l.ivar}, l.active + {l.ivar}, env[l.ivar := i], s.mem, l.ivar);
    assert l.ivar in names && t2.r[l.Reg()] == Wrap(i);
    t3 := LoopBackCorrect(code, keep, t2, l.Reg(), l.step, l.top, i);
    ReachesTrans(code, keep, s, t1, t2);
    ReachesTrans(code, keep, s, t2, t3);
    assert l.Reg() in Owned(l.alloc) && l.bound !in Owned(l.alloc);
    forall x | x in l.kept - {l.ivar}
      ensures x in env' && x in l.alloc.vars && t3.r[l.alloc.vars[x]] == Wrap(env'[x])
    {
      assert x in names && x in l.alloc.vars;
      assert l.alloc.vars[x] == inner.alloc.vars[x];
    }
  }

  /** An instruction in place in a program is encodable. */
  lemma InPlaceEncodable(code: seq<Instr>, at: nat, part: seq<Instr>, k: nat)
    requires Program(code) && CodeAt(code, at, part) && k < |part|
    ensures part[k].Encodable()
  {
    assert code[at + k] == part[k];
  }

  // --- Kernels ---

  lemma {:induction false} ParamsAllocation(params: seq<string>)
    requires GenParams(params).Some?
    ensures AllocOk(GenParams(params).value.alloc)
  {
    if params == [] {
      PoolOk(POOL_LO);
    } else {
      var k := |params| - 1;
      ParamsAllocation(params[..k]);
      HomeAllocation(GenParams(params[..k]).value.alloc, params[k]);
    }
  }

  lemma ParamLoad(code: seq<Instr>, keep: Region, s: State, rd: nat, offset: nat) returns (t: State)
    requires Program(code) && Live(s) && 0 < rd < 64 && offset <= IMM_MAX && keep.Holds(s.mem)
    requires CodeAt(code, s.pc, [IForm(OP_LOAD, rd, R_PARAM, offset, 0)])
    requires InBounds(s.mem, s.r[R_PARAM] as int + offset, 4)
    ensures t == s.Set(rd, Rd32(s.mem, s.r[R_PARAM] as int + offset))
    ensures Live(t) && Takes(code, keep, s, t, 1) && Reaches(code, keep, s, t)
  {
    t := s.Set(rd, Rd32(s.mem, s.r[R_PARAM] as int + offset));
    TakesStep(code, keep, s, IForm(OP_LOAD, rd, R_PARAM, offset, 0), t);
  }

  /** The prologue brings every parameter into its home register. */
  lemma {:induction false} ParamsCorrect(code: seq<Instr>, keep: Region, params: seq<string>, mem: Bytes, paramAddr: u32) returns (t: State)
    requires Program(code) && |mem| <= TWO32 && InBounds(mem, paramAddr, 4 * |params|) && keep.Holds(mem)
    requires GenParams(params).Some? && CodeAt(code, 0, GenParams(params).value.code)
    ensures var g := GenParams(params).value;
      && Live(t) && Reaches(code, keep, Boot(mem, paramAddr), t)
      && t.pc == |g.code| && t.mem == mem && t.r[R_PARAM] == paramAddr
      && Agrees(Names(params), ParamEnv(params, mem, paramAddr), g.alloc.vars, t.r)
  {
    hide Execute, RunN, Distinct, FreeOk, Boot, Rd32, Agrees, Extends, Owned, CodeAt;
    var s, g := Boot(mem, paramAddr), GenParams(params).value;
    if params == [] {
      BootLive(mem, paramAddr);
      ReachesRefl(code, keep, s);
      t := s;
    } else {
      var k := |params| - 1;
      var before, p := GenParams(params[..k]).value, params[k];
      ParamsAllocation(params[..k]);
      ParamsAllocation(params);
      HomeAllocation(before.alloc, p);
      var rd := g.alloc.vars[p];
      CodeAtSplit(code, 0, before.code, [IForm(OP_LOAD, rd, R_PARAM, 4 * k, 0)]);
      var t1 := ParamsCorrect(code, keep, params[..k], mem, paramAddr);
      t := ParamLoad(code, keep, t1, rd, 4 * k);
      ReachesTrans(code, keep, s, t1, t);
      var w := Rd32(mem, paramAddr as int + 4 * k);
      AgreesBound(Names(params[..k]), ParamEnv(params[..k], mem, paramAddr), before.alloc.vars, g.alloc.vars, t1.r, p, Signed(w));
      assert Wrap(Signed(w)) == w;
      NamesLast(params);
    }
  }

  lemma BootLive(mem: Bytes, paramAddr: u32)
    requires |mem| <= TWO32
    ensures var s := Boot(mem, paramAddr);
      Live(s) && s.pc == 0 && s.mem == mem && s.r[R_PARAM] == paramAddr && Agrees(Names([]), map[], map[], s.r)
  {}

  lemma NamesLast(params: seq<string>)
    requires params != []
    ensures Names(params) == Names(params[..|params| - 1]) + {params[|params| - 1]}
  {
    assert params == params[..|params| - 1] + [params[|params| - 1]];
  }

  lemma CompiledEncodable(k: Kernel)
    requires Compile(k).Some?
    ensures Program(Compile(k).value)
  {}

  /** A run that holds a region still exits with its memory. */
  lemma EndsExits(code: seq<Instr>, keep: Region, s: State, mem: Bytes)
    requires Program(code) && s.Valid() && Ends(code, keep, s, mem)
    ensures ExitsWith(code, s, mem)
  {
    hide RunN, KeepsFor;
    var n: nat :| RunN(code, s, n) == Exited(mem) && KeepsFor(code, keep, s, n);
  }

  /**
   Semantic preservation, with a region of memory that the kernel does not store to. The
   compiled instructions, started at instruction 0 with the parameter block address in r1,
   reach EXIT with exactly the memory the kernel computes, and hold the region on the way.
   */
  lemma CompilationPreservesRegion(k: Kernel, keep: Region, mem: Bytes, paramAddr: u32)
    requires WellScoped(k) && Compile(k).Some?
    requires |mem| <= TWO32 && InBounds(mem, paramAddr, 4 * |k.params|) && keep.Holds(mem)
    requires RunKernel(k, mem, paramAddr).Some? && BlockAvoids(keep, k.body, ParamEnv(k.params, mem, paramAddr), mem)
    ensures Ends(Compile(k).value, keep, Boot(mem, paramAddr), RunKernel(k, mem, paramAddr).value)
  {
    hide Execute, RunN, Distinct, FreeOk, HomesOk, GenBlock, GenParams, CodeAt, KeepsFor, BlockAvoids;
    var code := Compile(k).value;
    var prologue := GenParams(k.params).value;
    var body := GenBlock(k.body, prologue.alloc, |prologue.code|).value;
    CodeAtWhole(code);
    CodeAtSplit(code, 0, prologue.code + body.code, [EXIT]);
    CodeAtSplit(code, 0, prologue.code, body.code);
    ParamsAllocation(k.params);
    var s, names, env := Boot(mem, paramAddr), Names(k.params), ParamEnv(k.params, mem, paramAddr);
    var t1 := ParamsCorrect(code, keep, k.params, mem, paramAddr);
    var t2 := BlockCorrect(code, keep, t1, k.body, prologue.alloc, names, {}, env);
    if ExecBlock(k.body, env, mem).Normal? {
      ExitCorrect(code, keep, t2);
      ReachesExit(code, keep, t1, t2, t2.mem);
    }
    ReachesExit(code, keep, s, t1, RunKernel(k, mem, paramAddr).value);
  }

  /** Every run avoids the region of no bytes. */
  lemma {:induction false} NowhereAvoided(b: Block, env: Env, mem: Bytes)
    ensures BlockAvoids(NOWHERE, b, env, mem)
    decreases b, 0, 0
  {
    if b.Cons? {
      StatementAvoidsNowhere(b.head, env, mem);
      if Exec(b.head, env, mem).Normal? {
        NowhereAvoided(b.tail, Exec(b.head, env, mem).env, Exec(b.head, env, mem).mem);
      }
    }
  }

  lemma {:induction false} StatementAvoidsNowhere(s: Stmt, env: Env, mem: Bytes)
    ensures StoresAvoid(NOWHERE, s, env, mem)
    decreases s, 0, 0
  {
    if s.For? && RangeOf(s.args).Some? {
      var range := RangeOf(s.args).value;
      var start, stop := Eval(range.start, env, mem), Eval(range.stop, env, mem);
      if start.Some? && stop.Some? {
        IterationsAvoidNowhere(s.ivar, start.value, stop.value, range.step, s.body, env, mem);
      }
    }
  }

  lemma {:induction false} IterationsAvoidNowhere(ivar: string, i: i32, stop: i32, step: int, body: Block, env: Env, mem: Bytes)
    ensures IterationsAvoid(NOWHERE, ivar, i, stop, step, body, env, mem)
    decreases body, 1, if i < stop then stop - i else 0
  {
    hide ExecBlock;
    if i < stop {
      NowhereAvoided(body, env[ivar := i], mem);
      var after := ExecBlock(body, env[ivar := i], mem);
      if after.Normal? && step > 0 && i + step < TWO31 {
        IterationsAvoidNowhere(ivar, i + step, stop, step, body, after.env, after.mem);
      }
    }
  }

  /** Semantic preservation, for every well-scoped kernel whose run stays inside the subset. */
  lemma CompilationPreservesMeaning(k: Kernel, mem: Bytes, paramAddr: u32)
    requires WellScoped(k) && Compile(k).Some?
    requires |mem| <= TWO32 && InBounds(mem, paramAddr, 4 * |k.params|)
    requires RunKernel(k, mem, paramAddr).Some?
    ensures ExitsWith(Compile(k).value, Boot(mem, paramAddr), RunKernel(k, mem, paramAddr).value)
  {
    hide Compile, WellScoped, RunKernel, Ends, ExitsWith, BlockAvoids;
    CompiledEncodable(k);
    NowhereAvoided(k.body, ParamEnv(k.params, mem, paramAddr), mem);
    CompilationPreservesRegion(k, NOWHERE, mem, paramAddr);
    EndsExits(Compile(k).value, NOWHERE, Boot(mem, paramAddr), RunKernel(k, mem, paramAddr).value);
  }

  lemma CodeAtWhole(code: seq<Instr>)
    ensures CodeAt(code, 0, code)
  {}
}
