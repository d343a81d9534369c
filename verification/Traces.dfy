/** Steps shared by the counterexamples to the scope discipline: compiling and running small kernels. */
module Traces {
  import opened Bits
  import opened Isa
  import opened Memory
  import opened Machine
  import opened Kernel
  import opened Options
  import opened Codegen
  import opened Preservation
  import ScalarBackend

  // --- compiling ---

  lemma ParamStep(params: seq<string>, name: string, code: seq<Instr>, free: seq<nat>, vars: map<string, nat>)
    requires GenParams(params) == Some(StmtCode(code, Alloc(free, vars))) && free != [] && name !in vars && |params| < 8
    ensures GenParams(params + [name])
         == Some(StmtCode(code + [IForm(OP_LOAD, free[0], R_PARAM, 4 * |params|, 0)], Alloc(free[1..], vars[name := free[0]])))
  {
    hide GenParams;
    var all := params + [name];
    assert all[..|params|] == params && all[..|params| + 1] == all;
    ScalarBackend.ParamsShape(all, |params|);
  }

  lemma PoolStep(lo: nat)
    requires lo < POOL_HI
    ensures Pool(lo)[0] == lo && Pool(lo)[1..] == Pool(lo + 1)
  {}

  lemma NoParams()
    ensures GenParams([]) == Some(StmtCode([], Alloc(Pool(2), map[])))
  {}

  lemma BoundOfName(id: string, free: seq<nat>, vars: map<string, nat>)
    requires id in vars && free != [] && vars[id] != free[0]
    ensures GenBound(Name(id), free, vars)
         == Some(ExprCode([IForm(OP_ADD, free[0], vars[id], 0, 0)], free[1..], free[0], true))
  {
    assert [] + Move(free[0], vars[id]) == [IForm(OP_ADD, free[0], vars[id], 0, 0)];
  }

  lemma BackTo(lo: nat, vars: map<string, nat>)
    requires POOL_LO <= lo < POOL_HI && lo !in vars.Values
    ensures Release(Pool(lo + 1), vars, lo) == Pool(lo)
  {
    PoolStep(lo);
  }

  lemma OneStatement(s: Stmt, a: Alloc, at: nat)
    requires GenStmt(s, a, at).Some?
    ensures GenBlock(Cons(s, Nil), a, at) == GenStmt(s, a, at)
  {
    hide GenStmt;
    var first, none := GenStmt(s, a, at).value, [];
    assert GenBlock(Nil, first.alloc, at + |first.code|) == Some(StmtCode(none, first.alloc));
    assert first.code + none == first.code;
  }

  lemma LoopStatement(ivar: string, args: seq<Expr>, body: Block, a: Alloc, at: nat, head: LoopHead, inner: seq<Instr>)
    requires RangeOf(args).Some? && RangeOf(args).value.step <= IMM_MAX && GenLoopHead(ivar, RangeOf(args).value, a) == Some(head)
    requires var g := GenBlock(body, head.alloc, at + |head.code| + 2); g.Some? && g.value.code == inner
    ensures var g, top := GenStmt(For(ivar, args, body, false), a, at), at + |head.code|;
      && g.Some?
      && g.value.code == head.code + LoopTest(head.ivar, head.bound, top + 2 + |inner| + 2) + inner
                         + LoopBack(head.ivar, RangeOf(args).value.step, top)
  {
    hide GenLoopHead, GenBlock, LoopTest, LoopBack;
  }

  lemma WholeProgram(k: Kernel, s: Stmt, prologue: StmtCode, body: seq<Instr>)
    requires GenParams(k.params) == Some(prologue) && k.body == Cons(s, Nil)
    requires var g := GenStmt(s, prologue.alloc, |prologue.code|); g.Some? && g.value.code == body
    requires Program(prologue.code + body + [EXIT])
    ensures Compile(k) == Some(prologue.code + body + [EXIT])
  {
    hide GenParams, GenStmt;
    OneStatement(s, prologue.alloc, |prologue.code|);
  }

  // --- running ---

  lemma Once(code: seq<Instr>, s: State, t: State, mem: Bytes)
    requires Program(code) && s.Valid() && Step(code, s) == Running(t) && ExitsWith(code, t, mem)
    ensures ExitsWith(code, s, mem)
  {
    var n: nat :| RunN(code, t, n) == Exited(mem);
    assert RunN(code, s, n + 1) == RunN(code, t, n);
  }

  lemma ExitsHere(code: seq<Instr>, s: State)
    requires Program(code) && s.Valid() && s.p[0] && s.pc < |code| && code[s.pc] == EXIT
    ensures ExitsWith(code, s, s.mem)
  {
    assert RunN(code, s, 1) == Exited(s.mem);
  }

  /** The state after an addition of an immediate. */
  lemma AddStep(s: State, rd: nat, rs: nat, imm: nat)
    requires s.Valid() && s.p[0] && rd < 64 && rs < 64 && imm <= IMM_MAX
    ensures Execute(IForm(OP_ADD, rd, rs, imm, 0), s) == Running(s.Set(rd, Wrap(s.r[rs] + imm)))
  {
    hide Wrap;
  }

  predicate Ready(s: State, pc: nat) {
    s.Valid() && s.pc == pc && s.p[0] && s.r[0] == 0
  }

  /** From s the program exits with m whenever it does from t. */
  ghost predicate LeadsTo(code: seq<Instr>, s: State, t: State)
    requires s.Valid() && t.Valid() && Program(code)
  {
    forall m: Bytes :: ExitsWith(code, t, m) ==> ExitsWith(code, s, m)
  }

  lemma Follows(code: seq<Instr>, s: State, i: Instr, t: State)
    requires Program(code) && s.Valid() && s.pc < |code| && code[s.pc] == i && Execute(i, s) == Running(t)
    ensures t.Valid() && LeadsTo(code, s, t)
  {
    hide Execute;
    forall m: Bytes | ExitsWith(code, t, m)
      ensures ExitsWith(code, s, m)
    {
      Once(code, s, t, m);
    }
  }

  lemma Trans(code: seq<Instr>, s: State, t: State, u: State)
    requires s.Valid() && t.Valid() && u.Valid() && Program(code) && LeadsTo(code, s, t) && LeadsTo(code, t, u)
    ensures LeadsTo(code, s, u)
  {}

  lemma AddImmediate(code: seq<Instr>, s: State, rd: nat, rs: nat, imm: nat)
    requires Program(code) && s.Valid() && s.p[0] && rd < 64 && rs < 64 && imm <= IMM_MAX && s.r[rs] + imm < TWO32
    requires s.pc < |code| && code[s.pc] == IForm(OP_ADD, rd, rs, imm, 0)
    ensures LeadsTo(code, s, s.Set(rd, s.r[rs] + imm))
  {
    hide LeadsTo;
    AddStep(s, rd, rs, imm);
    Follows(code, s, IForm(OP_ADD, rd, rs, imm, 0), s.Set(rd, s.r[rs] + imm));
  }

  /** A loop test at `at`: on to the end when the variable has reached the bound. */
  lemma TestRuns(code: seq<Instr>, s: State, t: State, ivar: nat, bound: nat, end: nat)
    requires Program(code) && s.Valid() && s.p[0] && s.pc + 1 < |code| && ivar < 64 && bound < 64 && end <= IMM_MAX
    requires code[s.pc] == RForm(OP_SETP, CMP_GE * 4 + 1, ivar, bound, 0, 0)
    requires code[s.pc + 1] == IForm(OP_BRANCH, 0, 0, end, 1)
    requires s.r[ivar] < TWO31 && s.r[bound] < TWO31
    requires t == s.(p := s.p[1 := s.r[ivar] >= s.r[bound]], pc := if s.r[ivar] >= s.r[bound] then end else s.pc + 2)
    ensures LeadsTo(code, s, t)
  {
    hide LeadsTo;
    var s1 := s.(p := s.p[1 := s.r[ivar] >= s.r[bound]], pc := s.pc + 1);
    Follows(code, s, RForm(OP_SETP, CMP_GE * 4 + 1, ivar, bound, 0, 0), s1);
    Follows(code, s1, IForm(OP_BRANCH, 0, 0, end, 1), t);
    Trans(code, s, s1, t);
  }

  lemma Arrive(code: seq<Instr>, s: State, t: State)
    requires s.Valid() && t.Valid() && Program(code) && LeadsTo(code, s, t) && ExitsWith(code, t, t.mem)
    ensures ExitsWith(code, s, t.mem)
  {}
}
