/**
 A second limit of the compiler: a name that is first assigned inside a loop gets its
 register there, from those that temporaries earlier in the text have used. If a later turn
 of an enclosing loop skips the assignment, those temporaries overwrite the value, although
 every read in Python finds the name bound. Hence the scope check drops such names.
 */
module RegisterReuse {
  import opened Bits
  import opened Isa
  import opened Memory
  import opened Machine
  import opened Kernel
  import opened Options
  import opened Codegen
  import opened Preservation
  import opened Traces

  /** for i in range(2): (for j in range(1 - i * i): x = 7); out[i] = x */
  function SkippedAssignment(): Kernel {
    Kernel(["out"], Cons(For("i", [Const(2)], Cons(Inner(), Cons(StoreX(), Nil)), false), Nil))
  }

  function Stop(): Expr {
    Bin(Sub, Const(1), Bin(Mult, Name("i"), Name("i")))
  }

  function SetX(): Stmt {
    Assign(ToName("x"), Const(7))
  }

  function Inner(): Stmt {
    For("j", [Stop()], Cons(SetX(), Nil), false)
  }

  function StoreX(): Stmt {
    Assign(ToElement("out", Name("i")), Name("x"))
  }

  /** Its code: out in r2, i in r3, j in r5; x shares r6 with the constant 1 of the inner bound. */
  function SkippedCode(): seq<Instr> {
    [IForm(OP_LOAD, 2, R_PARAM, 0, 0),
     IForm(OP_ADD, 4, R_ZERO, 0, 0), IForm(OP_ADD, 3, 4, 0, 0), IForm(OP_ADD, 4, R_ZERO, 2, 0),
     RForm(OP_SETP, CMP_GE * 4 + 1, 3, 4, 0, 0), IForm(OP_BRANCH, 0, 0, 21, 1),
     IForm(OP_ADD, 6, R_ZERO, 0, 0), IForm(OP_ADD, 5, 6, 0, 0), IForm(OP_ADD, 6, R_ZERO, 1, 0),
     RForm(OP_MUL, 7, 3, 3, 0, 0), RForm(OP_SUB, 8, 6, 7, 0, 0),
     RForm(OP_SETP, CMP_GE * 4 + 1, 5, 8, 0, 0), IForm(OP_BRANCH, 0, 0, 17, 1),
     IForm(OP_ADD, 7, R_ZERO, 7, 0), IForm(OP_ADD, 6, 7, 0, 0),
     IForm(OP_ADD, 5, 5, 1, 0), IForm(OP_BRANCH, 0, 0, 11, 0),
     IForm(OP_SHL, 8, 3, 2, 0), RForm(OP_STORE, 6, 2, 8, 0, 0),
     IForm(OP_ADD, 3, 3, 1, 0), IForm(OP_BRANCH, 0, 0, 4, 0), EXIT]
  }

  // --- compiling it ---

  lemma ParamCompiles()
    ensures GenParams(["out"]) == Some(StmtCode(SkippedCode()[..1], Alloc(Pool(3), map["out" := 2])))
  {
    hide GenParams, Pool;
    NoParams();
    PoolStep(2);
    ParamStep([], "out", [], Pool(2), map[]);
    assert [] + ["out"] == ["out"];
    assert [] + [IForm(OP_LOAD, 2, R_PARAM, 0, 0)] == SkippedCode()[..1];
  }

  lemma OuterHead()
    ensures GenLoopHead("i", Range(Const(0), Const(2), 1), Alloc(Pool(3), map["out" := 2]))
         == Some(LoopHead(SkippedCode()[1..4], Alloc(Pool(5), map["out" := 2, "i" := 3]), 3, 4))
  {
    hide Pool, Release;
    PoolStep(3);
    PoolStep(4);
    var vars := map["out" := 2, "i" := 3];
    BackTo(4, vars);
    assert GenExpr(Const(0), Pool(4), vars) == Some(ExprCode([IForm(OP_ADD, 4, R_ZERO, 0, 0)], Pool(5), 4, true));
    assert GenExpr(Const(2), Pool(4), vars) == Some(ExprCode([IForm(OP_ADD, 4, R_ZERO, 2, 0)], Pool(5), 4, true));
    assert [IForm(OP_ADD, 4, R_ZERO, 0, 0)] + Move(3, 4) + [IForm(OP_ADD, 4, R_ZERO, 2, 0)] == SkippedCode()[1..4];
  }

  const V3 := map["out" := 2, "i" := 3, "j" := 5]
  const V4 := map["out" := 2, "i" := 3, "j" := 5, "x" := 6]

  /** The registers free after the inner bound: r7 and r6, which its temporaries have used, come first. */
  function AfterBound(): seq<nat> {
    [7] + ([6] + Pool(9))
  }

  lemma StopCompiles()
    ensures GenExpr(Stop(), Pool(6), V3) == Some(ExprCode(SkippedCode()[8..11], AfterBound(), 8, true))
  {
    hide Pool;
    PoolStep(6);
    PoolStep(7);
    PoolStep(8);
    var product := Bin(Mult, Name("i"), Name("i"));
    var none: seq<Instr> := [];
    assert GenExpr(Const(1), Pool(6), V3) == Some(ExprCode([IForm(OP_ADD, 6, R_ZERO, 1, 0)], Pool(7), 6, true));
    assert GenExpr(Name("i"), Pool(7), V3) == Some(ExprCode(none, Pool(7), 3, false));
    assert none + none + [RForm(OP_MUL, 7, 3, 3, 0, 0)] == [RForm(OP_MUL, 7, 3, 3, 0, 0)];
    assert GenExpr(product, Pool(7), V3) == Some(ExprCode([RForm(OP_MUL, 7, 3, 3, 0, 0)], Pool(8), 7, true));
    assert [IForm(OP_ADD, 6, R_ZERO, 1, 0)] + [RForm(OP_MUL, 7, 3, 3, 0, 0)] + [RForm(OP_SUB, 8, 6, 7, 0, 0)] == SkippedCode()[8..11];
  }

  lemma InnerHead()
    ensures GenLoopHead("j", Range(Const(0), Stop(), 1), Alloc(Pool(5), map["out" := 2, "i" := 3]))
         == Some(LoopHead(SkippedCode()[6..11], Alloc(AfterBound(), V3), 5, 8))
  {
    hide Pool, Release, AfterBound;
    PoolStep(5);
    PoolStep(6);
    BackTo(6, V3);
    StopCompiles();
    assert map["out" := 2, "i" := 3]["j" := 5] == V3;
    assert GenExpr(Const(0), Pool(6), V3) == Some(ExprCode([IForm(OP_ADD, 6, R_ZERO, 0, 0)], Pool(7), 6, true));
    assert [IForm(OP_ADD, 6, R_ZERO, 0, 0)] + Move(5, 6) + SkippedCode()[8..11] == SkippedCode()[6..11];
  }

  lemma SetXCompiles()
    ensures GenStmt(SetX(), Alloc(AfterBound(), V3), 13) == Some(StmtCode(SkippedCode()[13..15], Alloc([7] + Pool(9), V4)))
  {
    hide Pool;
    var free := AfterBound();
    assert free[0] == 7 && free[1..] == [6] + Pool(9);
    assert GenExpr(Const(7), free, V3) == Some(ExprCode([IForm(OP_ADD, 7, R_ZERO, 7, 0)], [6] + Pool(9), 7, true));
    assert ([6] + Pool(9))[1..] == Pool(9) && V3["x" := 6] == V4;
    assert Home(Alloc([6] + Pool(9), V3), "x") == Some(Alloc(Pool(9), V4));
    assert [IForm(OP_ADD, 7, R_ZERO, 7, 0)] + Move(6, 7) == SkippedCode()[13..15];
  }

  lemma InnerCompiles()
    ensures GenStmt(Inner(), Alloc(Pool(5), map["out" := 2, "i" := 3]), 6)
         == Some(StmtCode(SkippedCode()[6..17], Alloc([8] + ([7] + Pool(9)), V4)))
  {
    hide Pool, GenLoopHead, AfterBound;
    InnerHead();
    SetXCompiles();
    assert RangeOf([Stop()]) == Some(Range(Const(0), Stop(), 1));
    var a := Alloc([7] + Pool(9), V4);
    var none: seq<Instr> := [];
    assert GenBlock(Nil, a, 15) == Some(StmtCode(none, a));
    assert SkippedCode()[13..15] + none == SkippedCode()[13..15];
    assert GenBlock(Cons(SetX(), Nil), Alloc(AfterBound(), V3), 13) == Some(StmtCode(SkippedCode()[13..15], a));
    assert SkippedCode()[6..11] + LoopTest(5, 8, 17) + SkippedCode()[13..15] + LoopBack(5, 1, 11) == SkippedCode()[6..17];
  }

  lemma StoreXCompiles()
    ensures var g := GenStmt(StoreX(), Alloc([8] + ([7] + Pool(9)), V4), 17);
      g.Some? && g.value.code == SkippedCode()[17..19]
  {
    hide Pool;
    var free := [8] + ([7] + Pool(9));
    var none: seq<Instr> := [];
    assert GenExpr(Name("x"), free, V4) == Some(ExprCode(none, free, 6, false));
    assert GenExpr(Name("i"), free, V4) == Some(ExprCode(none, free, 3, false));
    assert none + [IForm(OP_SHL, 8, 3, 2, 0)] == [IForm(OP_SHL, 8, 3, 2, 0)];
    var off := GenOffset("out", Name("i"), free, V4);
    assert off.Some? && off.value.reg == 8 && off.value.code == [IForm(OP_SHL, 8, 3, 2, 0)];
    assert none + [IForm(OP_SHL, 8, 3, 2, 0)] + [RForm(OP_STORE, 6, 2, 8, 0, 0)] == SkippedCode()[17..19];
  }

  lemma BodyCompiles()
    ensures var g := GenBlock(Cons(Inner(), Cons(StoreX(), Nil)), Alloc(Pool(5), map["out" := 2, "i" := 3]), 6);
      g.Some? && g.value.code == SkippedCode()[6..19]
  {
    hide Pool, GenStmt;
    InnerCompiles();
    StoreXCompiles();
    var tail := GenBlock(Cons(StoreX(), Nil), Alloc([8] + ([7] + Pool(9)), V4), 17);
    var none: seq<Instr> := [];
    assert tail.Some? && tail.value.code == SkippedCode()[17..19] + none;
    assert SkippedCode()[6..17] + (SkippedCode()[17..19] + none) == SkippedCode()[6..19];
  }

  function Outer(): Stmt {
    For("i", [Const(2)], Cons(Inner(), Cons(StoreX(), Nil)), false)
  }

  lemma OuterCompiles()
    ensures var g := GenStmt(Outer(), Alloc(Pool(3), map["out" := 2]), 1); g.Some? && g.value.code == SkippedCode()[1..21]
  {
    hide Pool, GenLoopHead, Release, GenBlock;
    OuterHead();
    BodyCompiles();
    assert RangeOf([Const(2)]) == Some(Range(Const(0), Const(2), 1));
    assert SkippedCode()[1..4] + LoopTest(3, 4, 21) + SkippedCode()[6..19] + LoopBack(3, 1, 4) == SkippedCode()[1..21];
  }

  lemma SkippedCompiles()
    ensures Compile(SkippedAssignment()) == Some(SkippedCode())
  {
    hide Pool, GenParams, GenStmt;
    ParamCompiles();
    OuterCompiles();
    var none: seq<Instr> := [];
    var body := GenBlock(SkippedAssignment().body, Alloc(Pool(3), map["out" := 2]), 1);
    assert body.Some? && body.value.code == SkippedCode()[1..21] + none;
    assert SkippedCode()[..1] + (SkippedCode()[1..21] + none) + [EXIT] == SkippedCode();
    SkippedEncodable();
    assert |SkippedCode()[..1]| == 1 && SkippedAssignment().params == ["out"];
    assert Compile(SkippedAssignment()) == Some(SkippedCode()[..1] + body.value.code + [EXIT]);
  }

  lemma SkippedEncodable()
    ensures |SkippedCode()| == 22 && Program(SkippedCode())
  {}

  // --- running it ---

  /** The inner bound, in the turns i = 0 and i = 1: its constant 1 goes to r6. */
  lemma BoundRuns(s: State, t: State)
    requires Ready(s, 6) && s.r[3] <= 1
    requires t == s.(r := s.r[6 := 1][5 := 0][7 := s.r[3]][8 := 1 - s.r[3] as int], pc := 11)
    ensures Program(SkippedCode()) && LeadsTo(SkippedCode(), s, t)
  {
    hide LeadsTo;
    var s1 := s.Set(6, 0);
    AddImmediate(SkippedCode(), s, 6, 0, 0);
    var s2 := s1.Set(5, 0);
    AddImmediate(SkippedCode(), s1, 5, 6, 0);
    var s3 := s2.Set(6, 1);
    AddImmediate(SkippedCode(), s2, 6, 0, 1);
    var s4 := s3.Set(7, s.r[3]);
    assert Alu(OP_MUL, s.r[3], s.r[3]) == s.r[3];
    Follows(SkippedCode(), s3, RForm(OP_MUL, 7, 3, 3, 0, 0), s4);
    var s5 := s4.Set(8, 1 - s.r[3] as int);
    Follows(SkippedCode(), s4, RForm(OP_SUB, 8, 6, 7, 0, 0), s5);
    assert s5 == t;
    Trans(SkippedCode(), s, s1, s2);
    Trans(SkippedCode(), s, s2, s3);
    Trans(SkippedCode(), s, s3, s4);
    Trans(SkippedCode(), s, s4, t);
  }

  /** The assignment, and the turn of the inner loop. */
  lemma AssignmentRuns(s: State, t: State)
    requires Ready(s, 13) && s.r[5] == 0 && t == s.(r := s.r[7 := 7][6 := 7][5 := 1], pc := 11)
    ensures Program(SkippedCode()) && LeadsTo(SkippedCode(), s, t)
  {
    hide LeadsTo;
    var s1 := s.Set(7, 7);
    AddImmediate(SkippedCode(), s, 7, 0, 7);
    var s2 := s1.Set(6, 7);
    AddImmediate(SkippedCode(), s1, 6, 7, 0);
    var s3 := s2.Set(5, 1);
    AddImmediate(SkippedCode(), s2, 5, 5, 1);
    Follows(SkippedCode(), s3, IForm(OP_BRANCH, 0, 0, 11, 0), t);
    Trans(SkippedCode(), s, s1, s2);
    Trans(SkippedCode(), s, s2, s3);
    Trans(SkippedCode(), s, s3, t);
  }

  lemma ShiftStep(s: State)
    requires Ready(s, 17) && s.r[3] <= 1
    ensures Execute(IForm(OP_SHL, 8, 3, 2, 0), s) == Running(s.Set(8, 4 * s.r[3]))
  {
    hide Wr32, Rd32, Alu;
    ShiftSmall(s.r[3]);
  }

  lemma ShiftSmall(a: u32)
    requires a <= 1
    ensures Alu(OP_SHL, a, 2) == 4 * a
  {
    hide Pow2;
    assert Pow2(2) == 4 by { PowerTwo(); }
    Fourfold(a, Pow2(2));
  }

  lemma PowerTwo()
    ensures Pow2(2) == 4
  {}

  lemma Fourfold(a: u32, p: nat)
    requires a <= 1 && p == 4
    ensures Wrap(a * p) == 4 * a
  {}

  lemma StoreStep(s: State)
    requires s.Valid() && s.p[0] && InBounds(s.mem, s.r[2] as int + s.r[8] as int, 4)
    ensures Execute(RForm(OP_STORE, 6, 2, 8, 0, 0), s)
         == Running(s.(pc := s.pc + 1, mem := Wr32(s.mem, s.r[2] as int + s.r[8] as int, s.r[6])))
  {
    hide Wr32;
  }

  /** The store of r6, and the turn of the outer loop. */
  lemma StoreRuns(s: State, t: State)
    requires Ready(s, 17) && s.r[3] <= 1 && InBounds(s.mem, s.r[2] + 4 * s.r[3] as int, 4)
    requires t == State(s.r[8 := 4 * s.r[3]][3 := s.r[3] + 1], s.p, 4, Wr32(s.mem, s.r[2] + 4 * s.r[3] as int, s.r[6]))
    ensures Program(SkippedCode()) && LeadsTo(SkippedCode(), s, t)
  {
    hide LeadsTo, Wr32, Alu;
    var s1 := s.Set(8, 4 * s.r[3]);
    ShiftStep(s);
    Follows(SkippedCode(), s, IForm(OP_SHL, 8, 3, 2, 0), s1);
    var s2 := s1.(pc := 19, mem := Wr32(s.mem, s.r[2] + 4 * s.r[3] as int, s.r[6]));
    StoreStep(s1);
    Follows(SkippedCode(), s1, RForm(OP_STORE, 6, 2, 8, 0, 0), s2);
    var s3 := s2.Set(3, s.r[3] + 1);
    AddImmediate(SkippedCode(), s2, 3, 3, 1);
    Follows(SkippedCode(), s3, IForm(OP_BRANCH, 0, 0, 4, 0), t);
    Trans(SkippedCode(), s, s1, s2);
    Trans(SkippedCode(), s, s2, s3);
    Trans(SkippedCode(), s, s3, t);
  }

  /** The first turn stores 7, out of r6. */
  lemma FirstTurn(s: State) returns (t: State)
    requires Ready(s, 4) && s.r[3] == 0 && s.r[4] == 2 && InBounds(s.mem, s.r[2], 4)
    ensures Ready(t, 4) && t.r[2] == s.r[2] && t.r[3] == 1 && t.r[4] == 2 && t.mem == Wr32(s.mem, s.r[2], 7)
    ensures Program(SkippedCode()) && LeadsTo(SkippedCode(), s, t)
  {
    hide LeadsTo, Wr32;
    var s1 := s.(p := s.p[1 := false], pc := 6);
    TestRuns(SkippedCode(), s, s1, 3, 4, 21);
    var s2 := s1.(r := s1.r[6 := 1][5 := 0][7 := 0][8 := 1], pc := 11);
    BoundRuns(s1, s2);
    var s3 := s2.(p := s2.p[1 := false], pc := 13);
    TestRuns(SkippedCode(), s2, s3, 5, 8, 17);
    var s4 := s3.(r := s3.r[7 := 7][6 := 7][5 := 1], pc := 11);
    AssignmentRuns(s3, s4);
    var s5 := s4.(p := s4.p[1 := true], pc := 17);
    TestRuns(SkippedCode(), s4, s5, 5, 8, 17);
    t := State(s5.r[8 := 0][3 := 1], s5.p, 4, Wr32(s.mem, s.r[2], 7));
    StoreRuns(s5, t);
    Trans(SkippedCode(), s, s1, s2);
    Trans(SkippedCode(), s, s2, s3);
    Trans(SkippedCode(), s, s3, s4);
    Trans(SkippedCode(), s, s4, s5);
    Trans(SkippedCode(), s, s5, t);
  }

  /** The second turn skips the assignment and stores what the bound has left in r6. */
  lemma SecondTurn(s: State) returns (t: State)
    requires Ready(s, 4) && s.r[3] == 1 && s.r[4] == 2 && InBounds(s.mem, s.r[2] as int + 4, 4)
    ensures Ready(t, 4) && t.r[3] == 2 && t.r[4] == 2 && t.mem == Wr32(s.mem, s.r[2] as int + 4, 1)
    ensures Program(SkippedCode()) && LeadsTo(SkippedCode(), s, t)
  {
    hide LeadsTo, Wr32;
    var s1 := s.(p := s.p[1 := false], pc := 6);
    TestRuns(SkippedCode(), s, s1, 3, 4, 21);
    var s2 := s1.(r := s1.r[6 := 1][5 := 0][7 := 1][8 := 0], pc := 11);
    BoundRuns(s1, s2);
    var s3 := s2.(p := s2.p[1 := true], pc := 17);
    TestRuns(SkippedCode(), s2, s3, 5, 8, 17);
    t := State(s3.r[8 := 4][3 := 2], s3.p, 4, Wr32(s.mem, s.r[2] as int + 4, 1));
    StoreRuns(s3, t);
    Trans(SkippedCode(), s, s1, s2);
    Trans(SkippedCode(), s, s2, s3);
    Trans(SkippedCode(), s, s3, t);
  }

  lemma MachineStoresOne(mem: Bytes, paramAddr: u32)
    requires InBounds(mem, paramAddr, 4) && InBounds(mem, Rd32(mem, paramAddr), 8)
    ensures Program(SkippedCode())
    ensures var out := Rd32(mem, paramAddr);
      ExitsWith(SkippedCode(), Boot(mem, paramAddr), Wr32(Wr32(mem, out, 7), out as int + 4, 1))
  {
    hide LeadsTo, Wr32, Rd32;
    SkippedEncodable();
    var s, out := Boot(mem, paramAddr), Rd32(mem, paramAddr);
    var s1 := s.Set(2, out);
    Follows(SkippedCode(), s, IForm(OP_LOAD, 2, R_PARAM, 0, 0), s1);
    var s2 := s1.Set(4, 0);
    AddImmediate(SkippedCode(), s1, 4, 0, 0);
    var s3 := s2.Set(3, 0);
    AddImmediate(SkippedCode(), s2, 3, 4, 0);
    var s4 := s3.Set(4, 2);
    AddImmediate(SkippedCode(), s3, 4, 0, 2);
    Trans(SkippedCode(), s, s1, s2);
    Trans(SkippedCode(), s, s2, s3);
    Trans(SkippedCode(), s, s3, s4);
    var t1 := FirstTurn(s4);
    var t2 := SecondTurn(t1);
    var t3 := t2.(p := t2.p[1 := true], pc := 21);
    TestRuns(SkippedCode(), t2, t3, 3, 4, 21);
    ExitsHere(SkippedCode(), t3);
    Trans(SkippedCode(), s, s4, t1);
    Trans(SkippedCode(), s, t1, t2);
    Trans(SkippedCode(), s, t2, t3);
    Arrive(SkippedCode(), s, t3);
  }

  // --- its meaning ---

  lemma InnerMeaning(env: Env, mem: Bytes, i: nat)
    requires "i" in env && env["i"] == i && i <= 1
    ensures Exec(Inner(), env, mem) == Normal(if i == 0 then env["j" := 0]["x" := 7] else env, mem)
  {
    hide Apply;
    assert Apply(Mult, i, i) == Some(i) && Apply(Sub, 1, i) == Some(1 - i) by { SmallValues(i); }
    assert Eval(Bin(Mult, Name("i"), Name("i")), env, mem) == Some(i);
    assert Eval(Const(1), env, mem) == Some(1) && Eval(Const(0), env, mem) == Some(0);
    assert Eval(Stop(), env, mem) == Some(1 - i);
    assert RangeOf([Stop()]) == Some(Range(Const(0), Stop(), 1));
    if i == 0 {
      OneTurn(env, mem);
    }
  }

  lemma SmallValues(i: nat)
    requires i <= 1
    ensures Apply(Mult, i, i) == Some(i) && Apply(Sub, 1, i) == Some(1 - i)
  {}

  lemma OneTurn(env: Env, mem: Bytes)
    ensures Iterate("j", 0, 1, 1, Cons(SetX(), Nil), env, mem) == Normal(env["j" := 0]["x" := 7], mem)
  {
    var env1 := env["j" := 0];
    assert Eval(Const(7), env1, mem) == Some(7);
    assert Exec(SetX(), env1, mem) == Normal(env1["x" := 7], mem);
    assert ExecBlock(Cons(SetX(), Nil), env1, mem) == Normal(env1["x" := 7], mem);
  }

  /** One turn of the outer loop stores x, which is 7 in both. */
  lemma TurnMeaning(env: Env, mem: Bytes, out: u32, i: nat) returns (env': Env)
    requires i <= 1 && "i" in env && env["i"] == i && "out" in env && env["out"] == Signed(out)
    requires (i == 0 || ("x" in env && env["x"] == 7)) && InBounds(mem, out + 4 * i, 4)
    ensures ExecBlock(Cons(Inner(), Cons(StoreX(), Nil)), env, mem) == Normal(env', Wr32(mem, out + 4 * i, 7))
    ensures "out" in env' && env'["out"] == Signed(out) && "x" in env' && env'["x"] == 7
  {
    hide Wr32, Exec, Inner;
    InnerMeaning(env, mem, i);
    env' := if i == 0 then env["j" := 0]["x" := 7] else env;
    StoreMeaning(env', mem, out, i);
    assert ExecBlock(Cons(StoreX(), Nil), env', mem) == Normal(env', Wr32(mem, out + 4 * i, 7));
  }

  lemma StoreMeaning(env: Env, mem: Bytes, out: u32, i: nat)
    requires i <= 1 && "i" in env && env["i"] == i && "out" in env && env["out"] == Signed(out)
    requires "x" in env && env["x"] == 7 && InBounds(mem, out + 4 * i, 4)
    ensures Exec(StoreX(), env, mem) == Normal(env, Wr32(mem, out + 4 * i, 7))
  {
    hide Wr32;
    assert Eval(Name("x"), env, mem) == Some(7) && Eval(Name("i"), env, mem) == Some(i);
  }

  lemma PythonStoresSeven(mem: Bytes, paramAddr: u32)
    requires InBounds(mem, paramAddr, 4) && InBounds(mem, Rd32(mem, paramAddr), 8)
    ensures var out := Rd32(mem, paramAddr);
      RunKernel(SkippedAssignment(), mem, paramAddr) == Some(Wr32(Wr32(mem, out, 7), out as int + 4, 7))
  {
    hide Wr32, Rd32, Exec;
    var out := Rd32(mem, paramAddr);
    var env := ParamEnv(["out"], mem, paramAddr);
    assert ["out"][..0] == [];
    assert env["out"] == Signed(out);
    var body := Cons(Inner(), Cons(StoreX(), Nil));
    var env1 := TurnMeaning(env["i" := 0], mem, out, 0);
    var mem1 := Wr32(mem, out, 7);
    var env2 := TurnMeaning(env1["i" := 1], mem1, out, 1);
    var mem2 := Wr32(mem1, out as int + 4, 7);
    assert Iterate("i", 2, 2, 1, body, env2, mem2) == Normal(env2, mem2);
    assert Iterate("i", 1, 2, 1, body, env1, mem1) == Normal(env2, mem2);
    assert Iterate("i", 0, 2, 1, body, env, mem) == Normal(env2, mem2);
    OuterMeaning(env, mem, body);
    assert ExecBlock(SkippedAssignment().body, env, mem) == Normal(env2, mem2);
  }

  lemma OuterMeaning(env: Env, mem: Bytes, body: Block)
    ensures Exec(For("i", [Const(2)], body, false), env, mem) == Iterate("i", 0, 2, 1, body, env, mem)
  {
    assert Eval(Const(2), env, mem) == Some(2) && Eval(Const(0), env, mem) == Some(0);
  }

  /** Main result: wherever the array lies, the compiled program stores 1 in out[1], where Python stores 7. */
  lemma ValueOverwritten(mem: Bytes, paramAddr: u32) returns (compiled: Bytes, meant: Bytes)
    requires InBounds(mem, paramAddr, 4) && InBounds(mem, Rd32(mem, paramAddr), 8)
    ensures !WellScoped(SkippedAssignment())
    ensures Compile(SkippedAssignment()).Some? && Program(Compile(SkippedAssignment()).value)
    ensures ExitsWith(Compile(SkippedAssignment()).value, Boot(mem, paramAddr), compiled)
    ensures RunKernel(SkippedAssignment(), mem, paramAddr) == Some(meant)
    ensures var out := Rd32(mem, paramAddr) as int;
      && |compiled| == |meant| == |mem|
      && Rd32(compiled, out) == 7 && Rd32(meant, out) == 7
      && Rd32(compiled, out + 4) == 1 && Rd32(meant, out + 4) == 7
  {
    hide Wr32, RunKernel, Compile, WellScoped, Rd32;
    SkippedCompiles();
    MachineStoresOne(mem, paramAddr);
    PythonStoresSeven(mem, paramAddr);
    NotWellScoped();
    var out := Rd32(mem, paramAddr) as int;
    var first := Wr32(mem, out, 7);
    compiled, meant := Wr32(first, out + 4, 1), Wr32(first, out + 4, 7);
    RdAfterWrElsewhere(first, out + 4, 1, out);
    RdAfterWrElsewhere(first, out + 4, 7, out);
  }

  lemma NotWellScoped()
    ensures !WellScoped(SkippedAssignment())
  {
    var names := {"out"};
    assert Names(["out"]) == names;
    var inner := {"out", "i"};
    assert BlockLoopVars(Cons(Inner(), Cons(StoreX(), Nil))) == {"j"};
    assert names - {"j"} + {"i"} == inner;
    assert Scope(Inner(), inner, {"i"}).Some? ==> "x" !in Scope(Inner(), inner, {"i"}).value;
    assert Reads(Name("x")) == {"x"};
    assert BlockScope(Cons(Inner(), Cons(StoreX(), Nil)), inner, {"i"}).None?;
    assert RangeOf([Const(2)]) == Some(Range(Const(0), Const(2), 1));
    var none: set<string> := {};
    assert none + {"i"} == {"i"};
    assert Scope(Outer(), names, none).None?;
  }
}
