/**
 The other rejections of the scope check, and the bound on loop counters: a kernel for each
 that the compiler accepts and whose compiled program goes another way than Python.
 */
module ScopeCases {
  import opened Bits
  import opened Isa
  import opened Memory
  import opened Machine
  import opened Kernel
  import opened Options
  import opened Codegen
  import opened Preservation
  import opened Traces

  /** Two parameters in r2 and r3. */
  lemma TwoParamsCompile(a: string, b: string)
    requires a != b
    ensures GenParams([a, b]) == Some(StmtCode([IForm(OP_LOAD, 2, R_PARAM, 0, 0), IForm(OP_LOAD, 3, R_PARAM, 4, 0)],
                                               Alloc(Pool(4), map[a := 2, b := 3])))
  {
    hide GenParams, Pool;
    NoParams();
    PoolStep(2);
    PoolStep(3);
    ParamStep([], a, [], Pool(2), map[]);
    assert [] + [a] == [a];
    var first := [] + [IForm(OP_LOAD, 2, R_PARAM, 0, 0)];
    ParamStep([a], b, first, Pool(3), map[a := 2]);
    assert [a] + [b] == [a, b];
    assert first + [IForm(OP_LOAD, 3, R_PARAM, 4, 0)] == [IForm(OP_LOAD, 2, R_PARAM, 0, 0), IForm(OP_LOAD, 3, R_PARAM, 4, 0)];
  }

  lemma TwoParamsBound(a: string, b: string, mem: Bytes, paramAddr: u32)
    requires a != b && InBounds(mem, paramAddr, 8)
    ensures var env := ParamEnv([a, b], mem, paramAddr);
      && a in env && env[a] == Signed(Rd32(mem, paramAddr))
      && b in env && env[b] == Signed(Rd32(mem, paramAddr as int + 4))
  {
    hide Rd32;
    assert [a, b][..1] == [a];
    assert ParamEnv([a], mem, paramAddr)[a] == Signed(Rd32(mem, paramAddr));
  }

  /** After the two loads the parameters are in their registers. */
  lemma LoadsRun(code: seq<Instr>, mem: Bytes, paramAddr: u32) returns (s: State)
    requires Program(code) && |code| > 2 && InBounds(mem, paramAddr, 8)
    requires code[0] == IForm(OP_LOAD, 2, R_PARAM, 0, 0) && code[1] == IForm(OP_LOAD, 3, R_PARAM, 4, 0)
    ensures Ready(s, 2) && s.mem == mem && s.r[2] == Rd32(mem, paramAddr) && s.r[3] == Rd32(mem, paramAddr as int + 4)
    ensures LeadsTo(code, Boot(mem, paramAddr), s) && RunN(code, Boot(mem, paramAddr), 2) == Running(s)
  {
    hide Rd32, LeadsTo;
    var s0 := Boot(mem, paramAddr);
    var s1 := s0.Set(2, Rd32(mem, paramAddr));
    assert Execute(code[0], s0) == Running(s1);
    s := s1.Set(3, Rd32(mem, paramAddr as int + 4));
    assert Execute(code[1], s1) == Running(s);
    Follows(code, s0, code[0], s1);
    Follows(code, s1, code[1], s);
    Trans(code, s0, s1, s);
    TwoSteps(code, s0, s1, s);
  }

  lemma TwoSteps(code: seq<Instr>, s: State, t: State, u: State)
    requires Program(code) && s.Valid() && Step(code, s) == Running(t) && Step(code, t) == Running(u)
    ensures RunN(code, s, 2) == Running(u)
  {
    hide Step;
    assert RunN(code, u, 0) == Running(u);
    assert RunN(code, t, 1) == Running(u);
  }

  // --- a stop bound that mentions its own variable ---

  /** for i in range(i): out[0] = 1 */
  function OwnBound(): Kernel {
    Kernel(["out", "i"], Cons(For("i", [Name("i")], Cons(SetFirst(), Nil), false), Nil))
  }

  function SetFirst(): Stmt {
    Assign(ToElement("out", Const(0)), Const(1))
  }

  function OwnBoundCode(): seq<Instr> {
    [IForm(OP_LOAD, 2, R_PARAM, 0, 0), IForm(OP_LOAD, 3, R_PARAM, 4, 0),
     IForm(OP_ADD, 4, R_ZERO, 0, 0), IForm(OP_ADD, 3, 4, 0, 0), IForm(OP_ADD, 4, 3, 0, 0),
     RForm(OP_SETP, CMP_GE * 4 + 1, 3, 4, 0, 0), IForm(OP_BRANCH, 0, 0, 13, 1),
     IForm(OP_ADD, 5, R_ZERO, 1, 0), IForm(OP_ADD, 6, R_ZERO, 0, 0), IForm(OP_SHL, 7, 6, 2, 0), RForm(OP_STORE, 5, 2, 7, 0, 0),
     IForm(OP_ADD, 3, 3, 1, 0), IForm(OP_BRANCH, 0, 0, 5, 0), EXIT]
  }

  const OUT_I := map["out" := 2, "i" := 3]

  lemma OwnBoundHead()
    ensures GenLoopHead("i", Range(Const(0), Name("i"), 1), Alloc(Pool(4), OUT_I))
         == Some(LoopHead(OwnBoundCode()[2..5], Alloc(Pool(5), OUT_I), 3, 4))
  {
    hide Pool, Release;
    PoolStep(4);
    BackTo(4, OUT_I);
    assert GenExpr(Const(0), Pool(4), OUT_I) == Some(ExprCode([IForm(OP_ADD, 4, R_ZERO, 0, 0)], Pool(5), 4, true));
    BoundOfName("i", Pool(4), OUT_I);
    assert [IForm(OP_ADD, 4, R_ZERO, 0, 0)] + Move(3, 4) + [IForm(OP_ADD, 4, 3, 0, 0)] == OwnBoundCode()[2..5];
  }

  lemma SetFirstCompiles()
    ensures var g := GenStmt(SetFirst(), Alloc(Pool(5), OUT_I), 7); g.Some? && g.value.code == OwnBoundCode()[7..11]
  {
    hide Pool;
    PoolStep(5);
    PoolStep(6);
    PoolStep(7);
    assert GenExpr(Const(1), Pool(5), OUT_I) == Some(ExprCode([IForm(OP_ADD, 5, R_ZERO, 1, 0)], Pool(6), 5, true));
    assert GenExpr(Const(0), Pool(6), OUT_I) == Some(ExprCode([IForm(OP_ADD, 6, R_ZERO, 0, 0)], Pool(7), 6, true));
    var off := GenOffset("out", Const(0), Pool(6), OUT_I);
    assert off.Some? && off.value.reg == 7 && off.value.code == [IForm(OP_ADD, 6, R_ZERO, 0, 0)] + [IForm(OP_SHL, 7, 6, 2, 0)];
    assert [IForm(OP_ADD, 5, R_ZERO, 1, 0)] + off.value.code + [RForm(OP_STORE, 5, 2, 7, 0, 0)] == OwnBoundCode()[7..11];
  }

  lemma OwnBoundEncodable()
    ensures Program(OwnBoundCode()) && |OwnBoundCode()| == 14
  {}

  lemma OwnBoundCompiles()
    ensures Compile(OwnBound()) == Some(OwnBoundCode()) && Program(OwnBoundCode())
  {
    hide Pool, GenParams, GenLoopHead, GenStmt, GenBlock;
    TwoParamsCompile("out", "i");
    OwnBoundHead();
    SetFirstCompiles();
    OneStatement(SetFirst(), Alloc(Pool(5), OUT_I), 7);
    var head := LoopHead(OwnBoundCode()[2..5], Alloc(Pool(5), OUT_I), 3, 4);
    assert RangeOf([Name("i")]) == Some(Range(Const(0), Name("i"), 1));
    LoopStatement("i", [Name("i")], Cons(SetFirst(), Nil), Alloc(Pool(4), OUT_I), 2, head, OwnBoundCode()[7..11]);
    assert OwnBoundCode()[2..5] + LoopTest(3, 4, 13) + OwnBoundCode()[7..11] + LoopBack(3, 1, 5) == OwnBoundCode()[2..13];
    assert [IForm(OP_LOAD, 2, R_PARAM, 0, 0), IForm(OP_LOAD, 3, R_PARAM, 4, 0)] + OwnBoundCode()[2..13] + [EXIT] == OwnBoundCode();
    var prologue := StmtCode([IForm(OP_LOAD, 2, R_PARAM, 0, 0), IForm(OP_LOAD, 3, R_PARAM, 4, 0)], Alloc(Pool(4), OUT_I));
    OwnBoundEncodable();
    WholeProgram(OwnBound(), OwnBound().body.head, prologue, OwnBoundCode()[2..13]);
  }

  /** The bound is read after the variable has been set to 0, so the loop is skipped. */
  lemma OwnBoundRuns(mem: Bytes, paramAddr: u32)
    requires InBounds(mem, paramAddr, 8)
    ensures Program(OwnBoundCode()) && ExitsWith(OwnBoundCode(), Boot(mem, paramAddr), mem)
  {
    hide Rd32, LeadsTo;
    var code := OwnBoundCode();
    OwnBoundEncodable();
    var s := LoadsRun(code, mem, paramAddr);
    var s1 := s.Set(4, 0);
    AddImmediate(code, s, 4, 0, 0);
    var s2 := s1.Set(3, 0);
    AddImmediate(code, s1, 3, 4, 0);
    var s3 := s2.Set(4, 0);
    AddImmediate(code, s2, 4, 3, 0);
    var t := s3.(p := s3.p[1 := true], pc := 13);
    TestRuns(code, s3, t, 3, 4, 13);
    ExitsHere(code, t);
    Trans(code, Boot(mem, paramAddr), s, s1);
    Trans(code, Boot(mem, paramAddr), s1, s2);
    Trans(code, Boot(mem, paramAddr), s2, s3);
    Trans(code, Boot(mem, paramAddr), s3, t);
    Arrive(code, Boot(mem, paramAddr), t);
  }

  lemma SetFirstMeaning(env: Env, mem: Bytes, out: u32)
    requires "out" in env && env["out"] == Signed(out) && InBounds(mem, out, 4)
    ensures ExecBlock(Cons(SetFirst(), Nil), env, mem) == Normal(env, Wr32(mem, out, 1))
  {
    hide Wr32;
    assert Eval(Const(1), env, mem) == Some(1) && Eval(Const(0), env, mem) == Some(0);
    assert Exec(SetFirst(), env, mem) == Normal(env, Wr32(mem, out, 1));
  }

  lemma WrittenTwice(mem: Bytes, addr: nat, v: u32)
    requires InBounds(mem, addr, 4)
    ensures Wr32(Wr32(mem, addr, v), addr, v) == Wr32(mem, addr, v)
  {}

  lemma {:induction false} IterationsSetFirst(j: nat, n: nat, env: Env, mem: Bytes, out: u32) returns (env': Env)
    requires j < n < TWO31 && "out" in env && env["out"] == Signed(out) && InBounds(mem, out, 4)
    ensures Iterate("i", j, n, 1, Cons(SetFirst(), Nil), env, mem) == Normal(env', Wr32(mem, out, 1))
    decreases n - j
  {
    hide Wr32, ExecBlock;
    var env1, mem1 := env["i" := j], Wr32(mem, out, 1);
    SetFirstMeaning(env1, mem, out);
    if j + 1 < n {
      env' := IterationsSetFirst(j + 1, n, env1, mem1, out);
      WrittenTwice(mem, out, 1);
    } else {
      env' := env1;
    }
  }

  /** For every positive i, Python stores 1 and the compiled program stores nothing. */
  lemma OwnBoundDiffers(mem: Bytes, paramAddr: u32)
    requires InBounds(mem, paramAddr, 8) && InBounds(mem, Rd32(mem, paramAddr), 4) && 0 < Rd32(mem, paramAddr as int + 4) < TWO31
    ensures !WellScoped(OwnBound()) && Compile(OwnBound()).Some? && Program(Compile(OwnBound()).value)
    ensures ExitsWith(Compile(OwnBound()).value, Boot(mem, paramAddr), mem)
    ensures RunKernel(OwnBound(), mem, paramAddr) == Some(Wr32(mem, Rd32(mem, paramAddr), 1))
  {
    hide Wr32, Rd32, Iterate, Compile, WellScoped;
    OwnBoundCompiles();
    OwnBoundRuns(mem, paramAddr);
    OwnBoundScope();
    var out, n := Rd32(mem, paramAddr), Rd32(mem, paramAddr as int + 4);
    var env := ParamEnv(["out", "i"], mem, paramAddr);
    TwoParamsBound("out", "i", mem, paramAddr);
    SignedOfWrap(n);
    var env' := IterationsSetFirst(0, n, env, mem, out);
    assert Eval(Const(0), env, mem) == Some(0) && Eval(Name("i"), env, mem) == Some(n);
    assert Exec(OwnBound().body.head, env, mem) == Normal(env', Wr32(mem, out, 1));
  }

  lemma OwnBoundScope()
    ensures !WellScoped(OwnBound())
  {
    assert RangeOf([Name("i")]) == Some(Range(Const(0), Name("i"), 1));
    assert Reads(Name("i")) == {"i"};
  }

  // --- an assignment to the variable of an enclosing loop ---

  /** for i in range(2): out[i] = 7; i = 5 */
  function AssignedVariable(): Kernel {
    Kernel(["out", "n"], Cons(For("i", [Const(2)], Cons(SetElement(), Cons(Jump(), Nil)), false), Nil))
  }

  function SetElement(): Stmt {
    Assign(ToElement("out", Name("i")), Const(7))
  }

  function Jump(): Stmt {
    Assign(ToName("i"), Const(5))
  }

  function AssignedCode(): seq<Instr> {
    [IForm(OP_LOAD, 2, R_PARAM, 0, 0), IForm(OP_LOAD, 3, R_PARAM, 4, 0),
     IForm(OP_ADD, 5, R_ZERO, 0, 0), IForm(OP_ADD, 4, 5, 0, 0), IForm(OP_ADD, 5, R_ZERO, 2, 0),
     RForm(OP_SETP, CMP_GE * 4 + 1, 4, 5, 0, 0), IForm(OP_BRANCH, 0, 0, 14, 1),
     IForm(OP_ADD, 6, R_ZERO, 7, 0), IForm(OP_SHL, 7, 4, 2, 0), RForm(OP_STORE, 6, 2, 7, 0, 0),
     IForm(OP_ADD, 7, R_ZERO, 5, 0), IForm(OP_ADD, 4, 7, 0, 0),
     IForm(OP_ADD, 4, 4, 1, 0), IForm(OP_BRANCH, 0, 0, 5, 0), EXIT]
  }

  const OUT_N := map["out" := 2, "n" := 3]
  const OUT_N_I := map["out" := 2, "n" := 3, "i" := 4]

  lemma AssignedHead()
    ensures GenLoopHead("i", Range(Const(0), Const(2), 1), Alloc(Pool(4), OUT_N))
         == Some(LoopHead(AssignedCode()[2..5], Alloc(Pool(6), OUT_N_I), 4, 5))
  {
    hide Pool, Release;
    PoolStep(4);
    PoolStep(5);
    BackTo(5, OUT_N_I);
    assert OUT_N["i" := 4] == OUT_N_I;
    assert GenExpr(Const(0), Pool(5), OUT_N_I) == Some(ExprCode([IForm(OP_ADD, 5, R_ZERO, 0, 0)], Pool(6), 5, true));
    assert GenExpr(Const(2), Pool(5), OUT_N_I) == Some(ExprCode([IForm(OP_ADD, 5, R_ZERO, 2, 0)], Pool(6), 5, true));
    assert [IForm(OP_ADD, 5, R_ZERO, 0, 0)] + Move(4, 5) + [IForm(OP_ADD, 5, R_ZERO, 2, 0)] == AssignedCode()[2..5];
  }

  lemma SetElementCompiles()
    ensures GenStmt(SetElement(), Alloc(Pool(6), OUT_N_I), 7)
         == Some(StmtCode(AssignedCode()[7..10], Alloc([7] + ([6] + Pool(8)), OUT_N_I)))
  {
    hide Pool;
    PoolStep(6);
    PoolStep(7);
    var none: seq<Instr> := [];
    assert GenExpr(Const(7), Pool(6), OUT_N_I) == Some(ExprCode([IForm(OP_ADD, 6, R_ZERO, 7, 0)], Pool(7), 6, true));
    assert GenExpr(Name("i"), Pool(7), OUT_N_I) == Some(ExprCode(none, Pool(7), 4, false));
    assert none + [IForm(OP_SHL, 7, 4, 2, 0)] == [IForm(OP_SHL, 7, 4, 2, 0)];
    assert GenOffset("out", Name("i"), Pool(7), OUT_N_I) == Some(ExprCode([IForm(OP_SHL, 7, 4, 2, 0)], Pool(8), 7, true));
    assert [IForm(OP_ADD, 6, R_ZERO, 7, 0)] + [IForm(OP_SHL, 7, 4, 2, 0)] + [RForm(OP_STORE, 6, 2, 7, 0, 0)] == AssignedCode()[7..10];
  }

  lemma JumpCompiles()
    ensures var g := GenStmt(Jump(), Alloc([7] + ([6] + Pool(8)), OUT_N_I), 10); g.Some? && g.value.code == AssignedCode()[10..12]
  {
    hide Pool;
    var free := [7] + ([6] + Pool(8));
    assert GenExpr(Const(5), free, OUT_N_I) == Some(ExprCode([IForm(OP_ADD, 7, R_ZERO, 5, 0)], free[1..], 7, true));
    assert [IForm(OP_ADD, 7, R_ZERO, 5, 0)] + Move(4, 7) == AssignedCode()[10..12];
  }

  lemma AssignedBodyCompiles()
    ensures var g := GenBlock(Cons(SetElement(), Cons(Jump(), Nil)), Alloc(Pool(6), OUT_N_I), 7);
      g.Some? && g.value.code == AssignedCode()[7..12]
  {
    hide Pool, GenStmt;
    SetElementCompiles();
    JumpCompiles();
    OneStatement(Jump(), Alloc([7] + ([6] + Pool(8)), OUT_N_I), 10);
    assert AssignedCode()[7..10] + AssignedCode()[10..12] == AssignedCode()[7..12];
  }

  lemma AssignedEncodable()
    ensures Program(AssignedCode()) && |AssignedCode()| == 15
  {}

  lemma AssignedCompiles()
    ensures Compile(AssignedVariable()) == Some(AssignedCode())
  {
    hide Pool, GenParams, GenLoopHead, GenStmt, GenBlock;
    TwoParamsCompile("out", "n");
    AssignedHead();
    AssignedBodyCompiles();
    AssignedEncodable();
    var head := LoopHead(AssignedCode()[2..5], Alloc(Pool(6), OUT_N_I), 4, 5);
    assert RangeOf([Const(2)]) == Some(Range(Const(0), Const(2), 1));
    LoopStatement("i", [Const(2)], Cons(SetElement(), Cons(Jump(), Nil)), Alloc(Pool(4), OUT_N), 2, head, AssignedCode()[7..12]);
    assert AssignedCode()[2..5] + LoopTest(4, 5, 14) + AssignedCode()[7..12] + LoopBack(4, 1, 5) == AssignedCode()[2..14];
    assert [IForm(OP_LOAD, 2, R_PARAM, 0, 0), IForm(OP_LOAD, 3, R_PARAM, 4, 0)] + AssignedCode()[2..14] + [EXIT] == AssignedCode();
    var prologue := StmtCode([IForm(OP_LOAD, 2, R_PARAM, 0, 0), IForm(OP_LOAD, 3, R_PARAM, 4, 0)], Alloc(Pool(4), OUT_N));
    WholeProgram(AssignedVariable(), AssignedVariable().body.head, prologue, AssignedCode()[2..14]);
  }

  /** One turn of the loop: the element is stored, and the counter jumps past the bound. */
  lemma AssignedTurn(s: State, t: State)
    requires Ready(s, 7) && s.r[4] == 0 && InBounds(s.mem, s.r[2], 4)
    requires t == State(s.r[6 := 7][7 := 5][4 := 6], s.p, 5, Wr32(s.mem, s.r[2], 7))
    ensures Program(AssignedCode()) && LeadsTo(AssignedCode(), s, t)
  {
    hide LeadsTo, Wr32, Alu;
    AssignedEncodable();
    var code := AssignedCode();
    var s1 := s.Set(6, 7);
    AddImmediate(code, s, 6, 0, 7);
    var s2 := s1.Set(7, 0);
    ShiftZero(s1);
    Follows(code, s1, code[8], s2);
    var s3 := s2.(pc := 10, mem := Wr32(s.mem, s.r[2], 7));
    StoreAt(s2);
    Follows(code, s2, code[9], s3);
    var s4 := s3.Set(7, 5);
    AddImmediate(code, s3, 7, 0, 5);
    var s5 := s4.Set(4, 5);
    AddImmediate(code, s4, 4, 7, 0);
    var s6 := s5.Set(4, 6);
    AddImmediate(code, s5, 4, 4, 1);
    Follows(code, s6, code[13], t);
    Trans(code, s, s1, s2);
    Trans(code, s, s2, s3);
    Trans(code, s, s3, s4);
    Trans(code, s, s4, s5);
    Trans(code, s, s5, s6);
    Trans(code, s, s6, t);
  }

  lemma ShiftZero(s: State)
    requires s.Valid() && s.p[0] && s.r[4] == 0
    ensures Execute(IForm(OP_SHL, 7, 4, 2, 0), s) == Running(s.Set(7, 0))
  {}

  lemma StoreAt(s: State)
    requires s.Valid() && s.p[0] && s.r[7] == 0 && InBounds(s.mem, s.r[2], 4)
    ensures Execute(RForm(OP_STORE, 6, 2, 7, 0, 0), s) == Running(s.(pc := s.pc + 1, mem := Wr32(s.mem, s.r[2], s.r[6])))
  {
    hide Wr32;
  }

  lemma AssignedRuns(mem: Bytes, paramAddr: u32)
    requires InBounds(mem, paramAddr, 8) && InBounds(mem, Rd32(mem, paramAddr), 8)
    ensures Program(AssignedCode()) && ExitsWith(AssignedCode(), Boot(mem, paramAddr), Wr32(mem, Rd32(mem, paramAddr), 7))
  {
    hide Rd32, Wr32, LeadsTo;
    AssignedEncodable();
    var code, boot := AssignedCode(), Boot(mem, paramAddr);
    var s := LoadsRun(code, mem, paramAddr);
    var s1 := s.Set(5, 0);
    AddImmediate(code, s, 5, 0, 0);
    var s2 := s1.Set(4, 0);
    AddImmediate(code, s1, 4, 5, 0);
    var s3 := s2.Set(5, 2);
    AddImmediate(code, s2, 5, 0, 2);
    var s4 := s3.(p := s3.p[1 := false], pc := 7);
    TestRuns(code, s3, s4, 4, 5, 14);
    var s5 := State(s4.r[6 := 7][7 := 5][4 := 6], s4.p, 5, Wr32(mem, s4.r[2], 7));
    AssignedTurn(s4, s5);
    var t := s5.(p := s5.p[1 := true], pc := 14);
    TestRuns(code, s5, t, 4, 5, 14);
    ExitsHere(code, t);
    Trans(code, boot, s, s1);
    Trans(code, boot, s1, s2);
    Trans(code, boot, s2, s3);
    Trans(code, boot, s3, s4);
    Trans(code, boot, s4, s5);
    Trans(code, boot, s5, t);
    Arrive(code, boot, t);
  }

  lemma AssignedTurnMeaning(env: Env, mem: Bytes, out: u32, i: nat)
    requires i <= 1 && "i" in env && env["i"] == i && "out" in env && env["out"] == Signed(out) && InBounds(mem, out as int + 4 * i, 4)
    ensures ExecBlock(Cons(SetElement(), Cons(Jump(), Nil)), env, mem) == Normal(env["i" := 5], Wr32(mem, out as int + 4 * i, 7))
  {
    hide Wr32;
    var mem' := Wr32(mem, out as int + 4 * i, 7);
    assert Eval(Const(7), env, mem) == Some(7) && Eval(Name("i"), env, mem) == Some(i);
    assert Exec(SetElement(), env, mem) == Normal(env, mem');
    assert Eval(Const(5), env, mem') == Some(5);
    assert Exec(Jump(), env, mem') == Normal(env["i" := 5], mem');
    assert ExecBlock(Cons(Jump(), Nil), env, mem') == Normal(env["i" := 5], mem');
  }

  /** Python stores 7 in out[0] and out[1], the compiled program in out[0] only. */
  lemma AssignedDiffers(mem: Bytes, paramAddr: u32)
    requires InBounds(mem, paramAddr, 8) && InBounds(mem, Rd32(mem, paramAddr), 8)
    ensures !WellScoped(AssignedVariable()) && Compile(AssignedVariable()).Some? && Program(Compile(AssignedVariable()).value)
    ensures var out := Rd32(mem, paramAddr) as int;
      && ExitsWith(Compile(AssignedVariable()).value, Boot(mem, paramAddr), Wr32(mem, out, 7))
      && RunKernel(AssignedVariable(), mem, paramAddr) == Some(Wr32(Wr32(mem, out, 7), out + 4, 7))
  {
    hide Wr32, Rd32, ExecBlock, Compile, WellScoped;
    AssignedCompiles();
    AssignedEncodable();
    AssignedRuns(mem, paramAddr);
    AssignedScope();
    var out := Rd32(mem, paramAddr);
    var env := ParamEnv(["out", "n"], mem, paramAddr);
    TwoParamsBound("out", "n", mem, paramAddr);
    var body := Cons(SetElement(), Cons(Jump(), Nil));
    var mem1 := Wr32(mem, out, 7);
    AssignedTurnMeaning(env["i" := 0], mem, out, 0);
    var env1 := env["i" := 0]["i" := 5];
    AssignedTurnMeaning(env1["i" := 1], mem1, out, 1);
    var env2, mem2 := env1["i" := 1]["i" := 5], Wr32(mem1, out as int + 4, 7);
    assert Iterate("i", 2, 2, 1, body, env2, mem2) == Normal(env2, mem2);
    assert Iterate("i", 1, 2, 1, body, env1, mem1) == Normal(env2, mem2);
    assert Iterate("i", 0, 2, 1, body, env, mem) == Normal(env2, mem2);
    LoopOverTwo(env, mem, body);
    OneLoop(AssignedVariable().body.head, env, mem);
  }

  lemma LoopOverTwo(env: Env, mem: Bytes, body: Block)
    ensures Exec(For("i", [Const(2)], body, false), env, mem) == Iterate("i", 0, 2, 1, body, env, mem)
  {
    assert Eval(Const(2), env, mem) == Some(2) && Eval(Const(0), env, mem) == Some(0);
  }

  lemma OneLoop(s: Stmt, env: Env, mem: Bytes)
    requires Exec(s, env, mem).Normal?
    ensures ExecBlock(Cons(s, Nil), env, mem) == Exec(s, env, mem)
  {}

  lemma AssignedScope()
    ensures !WellScoped(AssignedVariable())
  {
    var names, none := Names(["out", "n"]), {};
    var kept := names - BlockLoopVars(Cons(SetElement(), Cons(Jump(), Nil))) + {"i"};
    assert "i" in none + {"i"};
    assert Scope(Jump(), kept, none + {"i"}).None?;
    assert BlockScope(Cons(Jump(), Nil), kept, none + {"i"}).None?;
    assert BlockScope(Cons(SetElement(), Cons(Jump(), Nil)), kept, none + {"i"}).None?;
    assert RangeOf([Const(2)]) == Some(Range(Const(0), Const(2), 1));
    assert Scope(AssignedVariable().body.head, names, none).None?;
  }

  // --- a counter that passes 2^31 - 1 ---

  /** for i in range(a, b, 2): pass */
  function CountByTwo(): Kernel {
    Kernel(["a", "b"], Cons(For("i", [Name("a"), Name("b"), Const(2)], Cons(Pass, Nil), false), Nil))
  }

  function CountCode(): seq<Instr> {
    [IForm(OP_LOAD, 2, R_PARAM, 0, 0), IForm(OP_LOAD, 3, R_PARAM, 4, 0),
     IForm(OP_ADD, 4, 2, 0, 0), IForm(OP_ADD, 5, 3, 0, 0),
     RForm(OP_SETP, CMP_GE * 4 + 1, 4, 5, 0, 0), IForm(OP_BRANCH, 0, 0, 8, 1),
     IForm(OP_ADD, 4, 4, 2, 0), IForm(OP_BRANCH, 0, 0, 4, 0), EXIT]
  }

  const A_B := map["a" := 2, "b" := 3]
  const A_B_I := map["a" := 2, "b" := 3, "i" := 4]

  lemma CountHead()
    ensures GenLoopHead("i", Range(Name("a"), Name("b"), 2), Alloc(Pool(4), A_B))
         == Some(LoopHead(CountCode()[2..4], Alloc(Pool(6), A_B_I), 4, 5))
  {
    hide Pool, Release;
    PoolStep(4);
    PoolStep(5);
    var none: seq<Instr> := [];
    assert A_B["i" := 4] == A_B_I;
    assert GenExpr(Name("a"), Pool(5), A_B_I) == Some(ExprCode(none, Pool(5), 2, false));
    BoundOfName("b", Pool(5), A_B_I);
    assert none + Move(4, 2) + [IForm(OP_ADD, 5, 3, 0, 0)] == CountCode()[2..4];
  }

  lemma CountEncodable()
    ensures Program(CountCode()) && |CountCode()| == 9
  {}

  lemma CountCompiles()
    ensures Compile(CountByTwo()) == Some(CountCode())
  {
    hide Pool, GenParams, GenLoopHead, GenStmt;
    TwoParamsCompile("a", "b");
    CountHead();
    CountEncodable();
    var head, none := LoopHead(CountCode()[2..4], Alloc(Pool(6), A_B_I), 4, 5), [];
    PassStatement(head.alloc, 6);
    OneStatement(Pass, head.alloc, 6);
    assert RangeOf([Name("a"), Name("b"), Const(2)]) == Some(Range(Name("a"), Name("b"), 2));
    LoopStatement("i", [Name("a"), Name("b"), Const(2)], Cons(Pass, Nil), Alloc(Pool(4), A_B), 2, head, none);
    assert CountCode()[2..4] + LoopTest(4, 5, 8) + none + LoopBack(4, 2, 4) == CountCode()[2..8];
    assert [IForm(OP_LOAD, 2, R_PARAM, 0, 0), IForm(OP_LOAD, 3, R_PARAM, 4, 0)] + CountCode()[2..8] + [EXIT] == CountCode();
    var prologue := StmtCode([IForm(OP_LOAD, 2, R_PARAM, 0, 0), IForm(OP_LOAD, 3, R_PARAM, 4, 0)], Alloc(Pool(4), A_B));
    WholeProgram(CountByTwo(), CountByTwo().body.head, prologue, CountCode()[2..8]);
  }

  lemma PassStatement(a: Alloc, at: nat)
    ensures GenStmt(Pass, a, at) == Some(StmtCode([], a))
  {}

  /** Inside the loop, with an even counter and the greatest bound; before the branch the test has failed. */
  predicate Turning(s: State) {
    && s.Valid() && s.p[0] && 4 <= s.pc <= 7
    && s.r[4] % 2 == 0 && s.r[5] == 0x7FFF_FFFF && (s.pc == 5 ==> !s.p[1])
  }

  lemma KeepsTurning(s: State)
    requires Turning(s)
    ensures Program(CountCode()) && Step(CountCode(), s).Running? && Turning(Step(CountCode(), s).s)
  {
    CountEncodable();
    EvenCounter(s.r[4]);
    if s.pc == 6 {
      AddStep(s, 4, 4, 2);
    }
  }

  /** An even word is below the greatest bound, and stays even when 2 is added. */
  lemma EvenCounter(x: u32)
    requires x % 2 == 0
    ensures Signed(x) < 0x7FFF_FFFF && Signed(0x7FFF_FFFF) == 0x7FFF_FFFF && Wrap(x + 2) % 2 == 0
  {}

  lemma {:induction false} TurnsForever(s: State, n: nat)
    requires Turning(s)
    ensures Program(CountCode()) && RunN(CountCode(), s, n).Running?
    decreases n
  {
    hide Step, Turning;
    TurningValid(s);
    KeepsTurning(s);
    if n > 0 {
      TurnsForever(Step(CountCode(), s).s, n - 1);
    }
  }

  lemma TurningValid(s: State)
    requires Turning(s)
    ensures s.Valid()
  {}

  /** From an even counter the loop ends past 2^31 - 1, outside the language subset. */
  lemma {:induction false} CounterPasses(i: int, env: Env, mem: Bytes)
    requires -TWO31 <= i < TWO31 && i % 2 == 0
    ensures Iterate("i", i, 0x7FFF_FFFF, 2, Cons(Pass, Nil), env, mem) == Stuck
    decreases TWO31 - i
  {
    var env' := env["i" := i];
    assert ExecBlock(Cons(Pass, Nil), env', mem) == Normal(env', mem);
    if i + 2 < TWO31 {
      CounterPasses(i + 2, env', mem);
    }
  }

  /** Counting by two towards 2^31 - 1 from an even number: the range ends, the compiled program never does. */
  lemma CounterNeverStops(mem: Bytes, paramAddr: u32, n: nat)
    requires InBounds(mem, paramAddr, 8) && Rd32(mem, paramAddr) % 2 == 0 && Rd32(mem, paramAddr as int + 4) == 0x7FFF_FFFF
    ensures WellScoped(CountByTwo()) && RunKernel(CountByTwo(), mem, paramAddr).None?
    ensures Compile(CountByTwo()).Some? && Program(Compile(CountByTwo()).value)
    ensures RunN(Compile(CountByTwo()).value, Boot(mem, paramAddr), n).Running?
  {
    hide Rd32, Compile, WellScoped, Iterate, RunN, Turning;
    CountCompiles();
    CountEncodable();
    CountScope();
    var code, boot := CountCode(), Boot(mem, paramAddr);
    var t := Entered(mem, paramAddr);
    TurnsForever(t, n);
    RunSplit(code, boot, 4, n);
    if !RunN(code, boot, n).Running? {
      StoppedStays(code, boot, n, 4 + n);
    }
    var env := ParamEnv(["a", "b"], mem, paramAddr);
    TwoParamsBound("a", "b", mem, paramAddr);
    EvenSigned(Rd32(mem, paramAddr));
    CounterPasses(env["a"], env, mem);
    CountMeaning(env, mem);
  }

  lemma EvenSigned(x: u32)
    requires x % 2 == 0
    ensures Signed(x) % 2 == 0 && Signed(0x7FFF_FFFF) == 0x7FFF_FFFF
  {}

  lemma CountMeaning(env: Env, mem: Bytes)
    requires "a" in env && "b" in env
    ensures ExecBlock(CountByTwo().body, env, mem)
         == ExecBlock(Cons(CountByTwo().body.head, Nil), env, mem)
    ensures Exec(CountByTwo().body.head, env, mem) == Iterate("i", env["a"], env["b"], 2, Cons(Pass, Nil), env, mem)
    ensures Exec(CountByTwo().body.head, env, mem) == Stuck ==> ExecBlock(CountByTwo().body, env, mem) == Stuck
  {
    hide Iterate;
    assert Eval(Name("a"), env, mem) == Some(env["a"]) && Eval(Name("b"), env, mem) == Some(env["b"]);
    assert RangeOf([Name("a"), Name("b"), Const(2)]) == Some(Range(Name("a"), Name("b"), 2));
  }

  lemma Entered(mem: Bytes, paramAddr: u32) returns (t: State)
    requires InBounds(mem, paramAddr, 8) && Rd32(mem, paramAddr) % 2 == 0 && Rd32(mem, paramAddr as int + 4) == 0x7FFF_FFFF
    ensures Turning(t) && Program(CountCode()) && RunN(CountCode(), Boot(mem, paramAddr), 4) == Running(t)
  {
    hide Rd32, RunN, LeadsTo;
    CountEncodable();
    var code := CountCode();
    var s := LoadsRun(code, mem, paramAddr);
    var s1 := s.Set(4, s.r[2]);
    AddStep(s, 4, 2, 0);
    t := s1.Set(5, s.r[3]);
    AddStep(s1, 5, 3, 0);
    TwoSteps(code, s, s1, t);
    RunSplit(code, Boot(mem, paramAddr), 2, 2);
  }

  lemma CountScope()
    ensures WellScoped(CountByTwo())
  {
    var names, none := Names(["a", "b"]), {};
    assert RangeOf([Name("a"), Name("b"), Const(2)]) == Some(Range(Name("a"), Name("b"), 2));
    assert BlockScope(Cons(Pass, Nil), names - none + {"i"}, none + {"i"}).Some?;
    assert BlockLoopVars(Cons(Pass, Nil)) == none;
    assert Scope(CountByTwo().body.head, names, none).Some?;
  }
}
