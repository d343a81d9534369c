/**
 The scope discipline of module Kernel is needed. A loop counts its variable up to the
 bound, so a kernel that reads the variable after the loop is compiled to a program that
 stores the bound, where Python stores the last value of the range.
 */
module ScopeLimits {
  import opened Bits
  import opened Isa
  import opened Memory
  import opened Machine
  import opened Kernel
  import opened Options
  import opened Codegen
  import opened Preservation
  import opened Traces

  /** for i in range(n): pass; out[0] = i */
  function ReadAfterLoop(): Kernel {
    Kernel(["out", "n"], Cons(EmptyLoop(), Cons(StoreVariable(), Nil)))
  }

  function EmptyLoop(): Stmt {
    For("i", [Name("n")], Cons(Pass, Nil), false)
  }

  function StoreVariable(): Stmt {
    Assign(ToElement("out", Const(0)), Name("i"))
  }

  /** Its code: out is in r2, n in r3, i in r4 and the private copy of the bound in r5. */
  function ReadAfterLoopCode(): seq<Instr> {
    [IForm(OP_LOAD, 2, R_PARAM, 0, 0), IForm(OP_LOAD, 3, R_PARAM, 4, 0),
     IForm(OP_ADD, 5, R_ZERO, 0, 0), IForm(OP_ADD, 4, 5, 0, 0), IForm(OP_ADD, 5, 3, 0, 0),
     RForm(OP_SETP, CMP_GE * 4 + 1, 4, 5, 0, 0), IForm(OP_BRANCH, 0, 0, 9, 1),
     IForm(OP_ADD, 4, 4, 1, 0), IForm(OP_BRANCH, 0, 0, 5, 0),
     IForm(OP_ADD, 5, R_ZERO, 0, 0), IForm(OP_SHL, 6, 5, 2, 0), RForm(OP_STORE, 4, 2, 6, 0, 0), EXIT]
  }

  // --- compiling it ---

  lemma ParamsCompile()
    ensures GenParams(["out", "n"]) == Some(StmtCode(ReadAfterLoopCode()[..2], Alloc(Pool(4), map["out" := 2, "n" := 3])))
  {
    hide GenParams, Pool;
    NoParams();
    PoolStep(2);
    PoolStep(3);
    ParamStep([], "out", [], Pool(2), map[]);
    assert [] + ["out"] == ["out"];
    var first := [] + [IForm(OP_LOAD, 2, R_PARAM, 0, 0)];
    ParamStep(["out"], "n", first, Pool(3), map["out" := 2]);
    assert ["out"] + ["n"] == ["out", "n"];
    assert first + [IForm(OP_LOAD, 3, R_PARAM, 4, 0)] == ReadAfterLoopCode()[..2];
  }

  lemma HeadCompiles()
    ensures GenLoopHead("i", Range(Const(0), Name("n"), 1), Alloc(Pool(4), map["out" := 2, "n" := 3]))
         == Some(LoopHead(ReadAfterLoopCode()[2..5], Alloc(Pool(6), map["out" := 2, "n" := 3, "i" := 4]), 4, 5))
  {
    hide Pool;
    PoolStep(4);
    PoolStep(5);
    var vars := map["out" := 2, "n" := 3, "i" := 4];
    assert Home(Alloc(Pool(4), map["out" := 2, "n" := 3]), "i") == Some(Alloc(Pool(5), vars));
    assert GenExpr(Const(0), Pool(5), vars) == Some(ExprCode([IForm(OP_ADD, 5, R_ZERO, 0, 0)], Pool(6), 5, true));
    assert Release(Pool(6), vars, 5) == Pool(5) by { assert [Pool(5)[0]] + Pool(5)[1..] == Pool(5); }
    BoundOfName("n", Pool(5), vars);
    assert [IForm(OP_ADD, 5, R_ZERO, 0, 0)] + Move(4, 5) + [IForm(OP_ADD, 5, 3, 0, 0)] == ReadAfterLoopCode()[2..5];
  }

  lemma LoopCompiles()
    ensures GenStmt(EmptyLoop(), Alloc(Pool(4), map["out" := 2, "n" := 3]), 2)
         == Some(StmtCode(ReadAfterLoopCode()[2..9], Alloc(Pool(5), map["out" := 2, "n" := 3, "i" := 4])))
  {
    hide Pool, GenLoopHead;
    HeadCompiles();
    PoolStep(5);
    var a := Alloc(Pool(6), map["out" := 2, "n" := 3, "i" := 4]);
    assert RangeOf([Name("n")]) == Some(Range(Const(0), Name("n"), 1));
    var none: seq<Instr> := [];
    assert none + none == none;
    assert GenBlock(Nil, a, 7) == Some(StmtCode([], a));
    assert GenBlock(Cons(Pass, Nil), a, 7) == Some(StmtCode([], a));
    assert Release(Pool(6), a.vars, 5) == Pool(5) by { assert [Pool(5)[0]] + Pool(5)[1..] == Pool(5); }
    assert ReadAfterLoopCode()[2..5] + LoopTest(4, 5, 9) + [] + LoopBack(4, 1, 5) == ReadAfterLoopCode()[2..9];
  }

  lemma StoreCompiles()
    ensures var g := GenStmt(StoreVariable(), Alloc(Pool(5), map["out" := 2, "n" := 3, "i" := 4]), 9);
      g.Some? && g.value.code == ReadAfterLoopCode()[9..12]
  {
    hide Pool;
    PoolStep(5);
    PoolStep(6);
    var vars := map["out" := 2, "n" := 3, "i" := 4];
    assert GenExpr(Name("i"), Pool(5), vars) == Some(ExprCode([], Pool(5), 4, false));
    assert GenExpr(Const(0), Pool(5), vars) == Some(ExprCode([IForm(OP_ADD, 5, R_ZERO, 0, 0)], Pool(6), 5, true));
    var off := GenOffset("out", Const(0), Pool(5), vars);
    assert off.Some? && off.value.reg == 6;
    assert off.value.code == [IForm(OP_ADD, 5, R_ZERO, 0, 0)] + [IForm(OP_SHL, 6, 5, 2, 0)];
    assert [] + off.value.code + [RForm(OP_STORE, 4, 2, 6, 0, 0)] == ReadAfterLoopCode()[9..12];
  }

  lemma ReadAfterLoopCompiles()
    ensures Compile(ReadAfterLoop()) == Some(ReadAfterLoopCode())
  {
    hide GenParams, GenStmt, Pool;
    ParamsCompile();
    LoopCompiles();
    StoreCompiles();
    var a := Alloc(Pool(4), map["out" := 2, "n" := 3]);
    var tail := GenBlock(Cons(StoreVariable(), Nil), Alloc(Pool(5), map["out" := 2, "n" := 3, "i" := 4]), 9);
    assert tail.Some? && tail.value.code == ReadAfterLoopCode()[9..12] + [];
    var body := GenBlock(ReadAfterLoop().body, a, 2);
    assert body.Some? && body.value.code == ReadAfterLoopCode()[2..9] + (ReadAfterLoopCode()[9..12] + []);
    assert ReadAfterLoopCode()[..2] + body.value.code + [EXIT] == ReadAfterLoopCode();
  }

  // --- running it ---

  lemma CodeEncodable()
    ensures Program(ReadAfterLoopCode()) && |ReadAfterLoopCode()| == 13
  {}

  lemma TailStores(s: State)
    requires s.Valid() && s.pc == 9 && s.p[0] && s.r[0] == 0 && InBounds(s.mem, s.r[2], 4)
    ensures Program(ReadAfterLoopCode()) && ExitsWith(ReadAfterLoopCode(), s, Wr32(s.mem, s.r[2], s.r[4]))
  {
    hide Wr32, RunN;
    CodeEncodable();
    var code := ReadAfterLoopCode();
    var t := s.Set(5, 0);
    AddStep(s, 5, 0, 0);
    var u := t.Set(6, 0);
    assert Pow2(2) == 4;
    assert Execute(code[10], t) == Running(u);
    var v := u.(pc := 12, mem := Wr32(s.mem, s.r[2], s.r[4]));
    assert Execute(code[11], u) == Running(v);
    ExitsHere(code, v);
    Once(code, u, v, v.mem);
    Once(code, t, u, v.mem);
    Once(code, s, t, v.mem);
  }

  /** The loop counts to its bound. */
  lemma {:induction false} LoopCounts(s: State)
    requires s.Valid() && s.pc == 5 && s.p[0] && s.r[0] == 0 && InBounds(s.mem, s.r[2], 4)
    requires s.r[4] <= s.r[5] < TWO31
    ensures Program(ReadAfterLoopCode()) && ExitsWith(ReadAfterLoopCode(), s, Wr32(s.mem, s.r[2], s.r[5]))
    decreases s.r[5] - s.r[4]
  {
    hide Wr32, RunN;
    CodeEncodable();
    var code := ReadAfterLoopCode();
    var t := s.(p := s.p[1 := s.r[4] >= s.r[5]], pc := 6);
    assert Execute(code[5], s) == Running(t);
    if s.r[4] == s.r[5] {
      var u := t.(pc := 9);
      assert Execute(code[6], t) == Running(u);
      TailStores(u);
      Once(code, t, u, Wr32(s.mem, s.r[2], s.r[5]));
    } else {
      var u := t.(pc := 7);
      assert Execute(code[6], t) == Running(u);
      AddStep(u, 4, 4, 1);
      var v := u.Set(4, s.r[4] + 1);
      var w := v.(pc := 5);
      assert Execute(code[8], v) == Running(w);
      LoopCounts(w);
      Once(code, v, w, Wr32(s.mem, s.r[2], s.r[5]));
      Once(code, u, v, Wr32(s.mem, s.r[2], s.r[5]));
      Once(code, t, u, Wr32(s.mem, s.r[2], s.r[5]));
    }
    Once(code, s, t, Wr32(s.mem, s.r[2], s.r[5]));
  }

  /** The compiled program stores the bound. */
  lemma MachineStoresBound(mem: Bytes, paramAddr: u32)
    requires InBounds(mem, paramAddr, 8) && InBounds(mem, Rd32(mem, paramAddr), 4) && Rd32(mem, paramAddr + 4) < TWO31
    ensures Program(ReadAfterLoopCode())
    ensures ExitsWith(ReadAfterLoopCode(), Boot(mem, paramAddr), Wr32(mem, Rd32(mem, paramAddr), Rd32(mem, paramAddr + 4)))
  {
    hide Wr32, Rd32, RunN;
    CodeEncodable();
    var code, s := ReadAfterLoopCode(), Boot(mem, paramAddr);
    var out, n := Rd32(mem, paramAddr), Rd32(mem, paramAddr + 4);
    var s1 := s.Set(2, out);
    assert Execute(code[0], s) == Running(s1);
    var s2 := s1.Set(3, n);
    assert Execute(code[1], s1) == Running(s2);
    AddStep(s2, 5, 0, 0);
    var s3 := s2.Set(5, 0);
    AddStep(s3, 4, 5, 0);
    var s4 := s3.Set(4, 0);
    AddStep(s4, 5, 3, 0);
    var s5 := s4.Set(5, n);
    LoopCounts(s5);
    var mem' := Wr32(mem, out, n);
    Once(code, s4, s5, mem');
    Once(code, s3, s4, mem');
    Once(code, s2, s3, mem');
    Once(code, s1, s2, mem');
    Once(code, s, s1, mem');
  }

  // --- its meaning ---

  lemma {:induction false} EmptyIterations(i: nat, n: nat, env: Env, mem: Bytes)
    requires i < n < TWO31
    ensures Iterate("i", i, n, 1, Cons(Pass, Nil), env, mem) == Normal(env["i" := n - 1], mem)
    decreases n - i
  {
    assert ExecBlock(Cons(Pass, Nil), env["i" := i], mem) == Normal(env["i" := i], mem);
    if i + 1 < n {
      EmptyIterations(i + 1, n, env["i" := i], mem);
      assert env["i" := i]["i" := n - 1] == env["i" := n - 1];
    }
  }

  /** Python stores the last value of the range. */
  lemma PythonStoresLast(mem: Bytes, paramAddr: u32)
    requires InBounds(mem, paramAddr, 8) && InBounds(mem, Rd32(mem, paramAddr), 4) && 0 < Rd32(mem, paramAddr + 4) < TWO31
    ensures RunKernel(ReadAfterLoop(), mem, paramAddr) == Some(Wr32(mem, Rd32(mem, paramAddr), Rd32(mem, paramAddr + 4) - 1))
  {
    hide Wr32, Rd32, Iterate;
    var out, n := Rd32(mem, paramAddr), Rd32(mem, paramAddr + 4);
    var env := ParamEnv(["out", "n"], mem, paramAddr);
    ParamsBound(mem, paramAddr);
    EmptyIterations(0, n, env, mem);
    assert Exec(EmptyLoop(), env, mem) == Normal(env["i" := n - 1], mem) by {
      assert Eval(Const(0), env, mem) == Some(0) && Eval(Name("n"), env, mem) == Some(n);
    }
    var env' := env["i" := n - 1];
    assert Exec(StoreVariable(), env', mem) == Normal(env', Wr32(mem, out, n - 1)) by {
      assert Eval(Const(0), env', mem) == Some(0) && Eval(Name("i"), env', mem) == Some(n - 1);
    }
  }

  lemma ParamsBound(mem: Bytes, paramAddr: u32)
    requires InBounds(mem, paramAddr, 8)
    ensures var env := ParamEnv(["out", "n"], mem, paramAddr);
      && "out" in env && env["out"] == Signed(Rd32(mem, paramAddr))
      && "n" in env && env["n"] == Signed(Rd32(mem, paramAddr + 4))
  {
    hide Rd32;
    assert ["out", "n"][..1] == ["out"];
    assert ParamEnv(["out"], mem, paramAddr)["out"] == Signed(Rd32(mem, paramAddr));
  }

  /** Main result: for every positive bound the compiled program and Python leave different memories. */
  lemma LoopVariableAfterLoopDiffers(mem: Bytes, paramAddr: u32)
    requires InBounds(mem, paramAddr, 8) && InBounds(mem, Rd32(mem, paramAddr), 4) && 0 < Rd32(mem, paramAddr + 4) < TWO31
    ensures !WellScoped(ReadAfterLoop())
    ensures Compile(ReadAfterLoop()).Some? && Program(Compile(ReadAfterLoop()).value)
    ensures RunKernel(ReadAfterLoop(), mem, paramAddr).Some?
    ensures exists mem' :: ExitsWith(Compile(ReadAfterLoop()).value, Boot(mem, paramAddr), mem')
                           && mem' != RunKernel(ReadAfterLoop(), mem, paramAddr).value
  {
    hide Wr32, RunKernel, Compile, WellScoped;
    ReadAfterLoopCompiles();
    MachineStoresBound(mem, paramAddr);
    PythonStoresLast(mem, paramAddr);
    OutsideDiscipline();
    var out, n := Rd32(mem, paramAddr), Rd32(mem, paramAddr + 4);
    assert Rd32(Wr32(mem, out, n), out) == n && Rd32(Wr32(mem, out, n - 1), out) == n - 1;
  }

  lemma OutsideDiscipline()
    ensures !WellScoped(ReadAfterLoop())
  {
    var names := {"out", "n"};
    assert Names(["out", "n"]) == names;
    assert BlockScope(Cons(Pass, Nil), names - {"i"} + {"i"}, {"i"}).Some?;
    assert BlockLoopVars(Cons(Pass, Nil)) == {};
    assert Scope(EmptyLoop(), names, {}).Some? ==> "i" !in Scope(EmptyLoop(), names, {}).value;
    assert Reads(Name("i")) == {"i"};
  }
}
