/** Expression code computes the value of the expression, into a register it may use. */
module ExprPreservation {
  import opened Bits
  import opened Isa
  import opened Memory
  import opened Machine
  import opened Kernel
  import opened Codegen
  import opened Allocation
  import opened Options

  /** `part` sits at index `at` of the program. */
  predicate CodeAt(code: seq<Instr>, at: nat, part: seq<Instr>) {
    at + |part| <= |code| && forall k :: 0 <= k < |part| ==> code[at + k] == part[k]
  }

  lemma CodeAtSplit(code: seq<Instr>, at: nat, a: seq<Instr>, b: seq<Instr>)
    requires CodeAt(code, at, a + b)
    ensures CodeAt(code, at, a) && CodeAt(code, at + |a|, b)
  {
    assert forall k :: 0 <= k < |a| ==> (a + b)[k] == a[k];
    assert forall k :: 0 <= k < |b| ==> (a + b)[|a| + k] == b[k];
  }

  /** The names in `names` are bound, and their home registers hold their values. */
  predicate Agrees(names: set<string>, env: Env, vars: map<string, nat>, r: seq<u32>) {
    |r| == 64 && forall x :: x in names ==> x in env && x in vars && vars[x] < 64 && r[vars[x]] == Wrap(env[x])
  }

  /** A thread state in which unpredicated instructions execute and r0 reads zero. */
  predicate Live(s: State) {
    s.Valid() && s.p[0] && s.r[R_ZERO] == 0 && |s.mem| <= TWO32
  }

  /** Registers outside `free` keep their values. */
  predicate Preserves(free: seq<nat>, r: seq<u32>, r': seq<u32>) {
    |r| == 64 && |r'| == 64 && forall q :: 0 <= q < 64 && q !in free ==> r'[q] == r[q]
  }

  // --- Arithmetic: the machine operations on words mirror the operations on signed values ---

  lemma ModTimes(a: int, b: int, p: int)
    requires Wrap(a) == Wrap(b)
    ensures Wrap(a * p) == Wrap(b * p)
  {
    var k := a / TWO32 - b / TWO32;
    assert a - b == k * TWO32;
    assert a * p - b * p == (k * p) * TWO32;
    WrapShift(b * p, k * p);
  }

  lemma WrapShift(x: int, k: int)
    ensures Wrap(x + k * TWO32) == Wrap(x)
  {}

  lemma LowFive(y: i32)
    ensures Wrap(y) % 32 == y % 32
  {}

  lemma ShiftLeftWords(x: i32, y: i32)
    ensures Wrap(Wrap(x) * Pow2(Wrap(y) % 32)) == Wrap(x * Pow2(y % 32))
  {
    LowFive(y);
    ModTimes(Wrap(x), x, Pow2(y % 32));
  }

  lemma SumWords(x: i32, y: i32)
    ensures Wrap(Wrap(x) + Wrap(y)) == Wrap(x + y)
    ensures Wrap(Wrap(x) - Wrap(y)) == Wrap(x - y)
  {
    var a, b := if x < 0 then 1 else 0, if y < 0 then 1 else 0;
    assert Wrap(x) == x + a * TWO32 && Wrap(y) == y + b * TWO32;
    WrapShift(x + y, a + b);
    WrapShift(x - y, a - b);
  }

  lemma AddSubWords(x: i32, y: i32)
    ensures Alu(OP_ADD, Wrap(x), Wrap(y)) == Wrap(Signed(x + y))
    ensures Alu(OP_SUB, Wrap(x), Wrap(y)) == Wrap(Signed(x - y))
  {
    SumWords(x, y);
  }

  lemma MulWords(x: i32, y: i32)
    ensures Alu(OP_MUL, Wrap(x), Wrap(y)) == Wrap(Signed(x * y))
  {
    SignedOfWrap(x);
    SignedOfWrap(y);
  }

  lemma DivWords(x: i32, y: i32)
    ensures Alu(OP_DIV, Wrap(x), Wrap(y)) == Wrap(if y == 0 then -1 else Signed(TruncDiv(x, y)))
  {
    SignedOfWrap(x);
    SignedOfWrap(y);
  }

  lemma ShiftWords(x: i32, y: i32)
    ensures Alu(OP_SHL, Wrap(x), Wrap(y)) == Wrap(Signed(x * Pow2(y % 32)))
    ensures Alu(OP_SRA, Wrap(x), Wrap(y)) == Wrap(Signed(x / Pow2(y % 32)))
  {
    ShiftLeftWords(x, y);
    LowFive(y);
    SignedOfWrap(x);
  }

  lemma BitWords(op: Connective, x: i32, y: i32)
    ensures Bitwise32(op, Wrap(x), Wrap(y)) == Wrap(Signed(Bitwise32(op, Wrap(x), Wrap(y))))
  {
    SignedOfWrap(Bitwise32(op, Wrap(x), Wrap(y)));
  }

  /** Every opcode in the table computes the word of the signed result. */
  lemma AluApplies(op: Op, x: i32, y: i32)
    requires Opcode(op).Some?
    ensures IsAlu(Opcode(op).value)
    ensures Apply(op, x, y).Some?
    ensures Alu(Opcode(op).value, Wrap(x), Wrap(y)) == Wrap(Apply(op, x, y).value)
  {
    match op {
      case LShift => ShiftWords(x, y);
      case RShift => ShiftWords(x, y);
      case FloorDiv => DivWords(x, y);
      case Mult => MulWords(x, y);
      case Add => AddSubWords(x, y);
      case Sub => AddSubWords(x, y);
      case BitAnd => BitWords(AND, x, y);
      case BitOr => BitWords(OR, x, y);
      case BitXor => BitWords(XOR, x, y);
    }
  }

  /** DIV, MUL, SUB give the remainder of truncating division, and the dividend when the divisor is zero. */
  lemma RemainderApplies(x: i32, y: i32)
    ensures var q := Alu(OP_DIV, Wrap(x), Wrap(y));
      Alu(OP_SUB, Wrap(x), Alu(OP_MUL, q, Wrap(y))) == Wrap(Apply(Mod, x, y).value)
  {
    SignedOfWrap(x);
    SignedOfWrap(y);
    if y != 0 {
      RemainderWords(x, y, TruncDiv(x, y));
    }
  }

  lemma RemainderWords(x: int, y: int, q: int)
    ensures Wrap(Wrap(x) - Wrap(Signed(Wrap(q)) * y)) == Wrap(x - q * y)
  {
    var p := Signed(Wrap(q)) * y;
    ModTimes(Signed(Wrap(q)), q, y);
    WrapSub(x, p);
    WrapSub(x, q * y);
  }

  // --- Single instructions ---

  lemma AluStep(code: seq<Instr>, s: State, i: Instr)
    requires Program(code) && Live(s) && i.Encodable() && CodeAt(code, s.pc, [i])
    requires IsAlu(i.op) && i.pred == 0
    ensures RunN(code, s, 1) == Running(s.Set(i.rd, Alu(i.op, s.r[i.rs1], OperandB(i, s.r))))
  {
    assert [i][0] == i && code[s.pc + 0] == i;
    assert RunN(code, s, 1) == RunN(code, Execute(i, s).s, 0);
  }

  lemma LoadStep(code: seq<Instr>, s: State, i: Instr)
    requires Program(code) && Live(s) && i.Encodable() && CodeAt(code, s.pc, [i])
    requires i.op == OP_LOAD && i.pred == 0
    requires InBounds(s.mem, s.r[i.rs1] + OperandB(i, s.r), 4)
    ensures RunN(code, s, 1) == Running(s.Set(i.rd, Rd32(s.mem, s.r[i.rs1] + OperandB(i, s.r))))
  {
    assert [i][0] == i && code[s.pc + 0] == i;
    assert RunN(code, s, 1) == RunN(code, Execute(i, s).s, 0);
  }

  /** Appends one arithmetic instruction to a run. */
  lemma AluThen(code: seq<Instr>, s: State, m: nat, s1: State, i: Instr)
    requires Program(code) && s.Valid() && Live(s1) && i.Encodable() && CodeAt(code, s1.pc, [i])
    requires RunN(code, s, m) == Running(s1)
    requires IsAlu(i.op) && i.pred == 0
    ensures RunN(code, s, m + 1) == Running(s1.Set(i.rd, Alu(i.op, s1.r[i.rs1], OperandB(i, s1.r))))
  {
    AluStep(code, s1, i);
    RunSplit(code, s, m, 1);
  }

  lemma Chain(code: seq<Instr>, s: State, m: nat, s1: State, n: nat, s2: State)
    requires Program(code) && s.Valid()
    requires RunN(code, s, m) == Running(s1)
    requires s1.Valid() && RunN(code, s1, n) == Running(s2)
    ensures RunN(code, s, m + n) == Running(s2)
  {
    RunSplit(code, s, m, n);
  }

  // --- li ---

  /** Shifting left by 12 and or-ing in 12 more bits. */
  lemma ShiftIn(h: nat, l: nat)
    requires l < 0x1000 && h * 0x1000 + l < TWO32
    ensures Alu(OP_OR, Alu(OP_SHL, h, 12), l) == h * 0x1000 + l
  {
    hide Bitwise, Pow2;
    Pow2Values();
    OrDisjoint(h, l, 12);
    assert Alu(OP_SHL, h, 12) == h * 0x1000;
  }

  lemma SmallConstants(v: u32)
    ensures Alu(OP_ADD, 0, v) == v
    ensures Alu(OP_SUB, 0, Wrap(TWO32 - v)) == v
  {}

  function LongForm(rd: nat, top: nat, mid: nat, low: nat): seq<Instr> {
    [IForm(OP_ADD, rd, R_ZERO, top, 0), IForm(OP_SHL, rd, rd, 12, 0), IForm(OP_OR, rd, rd, mid, 0),
     IForm(OP_SHL, rd, rd, 12, 0), IForm(OP_OR, rd, rd, low, 0)]
  }

  lemma LongFormCorrect(code: seq<Instr>, s: State, rd: nat, top: nat, mid: nat, low: nat)
    requires Program(code) && Live(s) && 0 < rd < 64
    requires top < 0x100 && mid < 0x1000 && low < 0x1000
    requires CodeAt(code, s.pc, LongForm(rd, top, mid, low))
    ensures RunN(code, s, 5)
         == Running(State(s.r[rd := top * 0x100_0000 + mid * 0x1000 + low], s.p, s.pc + 5, s.mem))
  {
    hide Alu, RunN, Execute;
    var part := LongForm(rd, top, mid, low);
    assert forall k :: 0 <= k < 5 ==> CodeAt(code, s.pc + k, [part[k]]);
    SmallConstants(top);
    AluStep(code, s, part[0]);
    var s1 := s.Set(rd, top);
    AluThen(code, s, 1, s1, part[1]);
    var s2 := s1.Set(rd, Alu(OP_SHL, top, 12));
    ShiftIn(top, mid);
    AluThen(code, s, 2, s2, part[2]);
    var h := top * 0x1000 + mid;
    var s3 := s2.Set(rd, h);
    AluThen(code, s, 3, s3, part[3]);
    var s4 := s3.Set(rd, Alu(OP_SHL, h, 12));
    ShiftIn(h, low);
    AluThen(code, s, 4, s4, part[4]);
    assert s4.Set(rd, h * 0x1000 + low).r == s.r[rd := h * 0x1000 + low];
  }

  /** `li` leaves exactly the low 32 bits of the constant in its register and touches nothing else. */
  lemma LoadConstCorrect(code: seq<Instr>, s: State, rd: nat, value: int)
    requires Program(code) && Live(s) && 0 < rd < 64
    requires CodeAt(code, s.pc, LoadConst(rd, value))
    ensures RunN(code, s, |LoadConst(rd, value)|)
         == Running(State(s.r[rd := Wrap(value)], s.p, s.pc + |LoadConst(rd, value)|, s.mem))
  {
    hide Alu, RunN, Execute;
    var v, part := Wrap(value), LoadConst(rd, value);
    if v <= IMM_MAX {
      SmallConstants(v);
      AluStep(code, s, part[0]);
    } else if TWO32 - v <= IMM_MAX {
      NegatedConstant(code, s, rd, TWO32 - v);
    } else {
      LongFormCorrect(code, s, rd, v / 0x100_0000 % 0x100, v / 0x1000 % 0x1000, v % 0x1000);
    }
  }

  lemma NegatedConstant(code: seq<Instr>, s: State, rd: nat, c: nat)
    requires Program(code) && Live(s) && 0 < rd < 64 && 0 < c <= IMM_MAX
    requires CodeAt(code, s.pc, [IForm(OP_ADD, rd, R_ZERO, c, 0), RForm(OP_SUB, rd, R_ZERO, rd, 0, 0)])
    ensures RunN(code, s, 2) == Running(State(s.r[rd := TWO32 - c], s.p, s.pc + 2, s.mem))
  {
    hide Alu, RunN, Execute;
    var first, second := IForm(OP_ADD, rd, R_ZERO, c, 0), RForm(OP_SUB, rd, R_ZERO, rd, 0, 0);
    assert [first] + [second] == [first, second];
    CodeAtSplit(code, s.pc, [first], [second]);
    SmallConstants(c);
    SmallConstants(TWO32 - c);
    AluStep(code, s, first);
    var s1 := s.Set(rd, c);
    AluThen(code, s, 1, s1, second);
    assert s1.Set(rd, TWO32 - c).r == s.r[rd := TWO32 - c];
  }

  // --- Expressions ---

  /** From s, the code of g runs to its end in state t, leaving the word w in its register. */
  predicate Computes(code: seq<Instr>, s: State, t: State, g: ExprCode, free: seq<nat>, w: u32)
    requires Program(code) && s.Valid()
  {
    && RunN(code, s, |g.code|) == Running(t)
    && Live(t) && t.pc == s.pc + |g.code| && t.p == s.p && t.mem == s.mem
    && InPool(g.reg) && t.r[g.reg] == w
    && Preserves(free, s.r, t.r)
  }

  lemma AgreesPreserved(names: set<string>, env: Env, vars: map<string, nat>, free: seq<nat>, r: seq<u32>, r': seq<u32>)
    requires Agrees(names, env, vars, r) && Preserves(free, r, r') && FreeOk(free, vars)
    ensures Agrees(names, env, vars, r')
  {}

  lemma AgreesSubset(names: set<string>, more: set<string>, env: Env, vars: map<string, nat>, r: seq<u32>)
    requires Agrees(more, env, vars, r) && names <= more
    ensures Agrees(names, env, vars, r)
  {}

  lemma FrameGrows(smaller: seq<nat>, free: seq<nat>, r0: seq<u32>, r1: seq<u32>, r2: seq<u32>)
    requires Preserves(free, r0, r1) && Preserves(smaller, r1, r2)
    requires forall f :: f in smaller ==> f in free
    ensures Preserves(free, r0, r2)
  {}

  lemma PoolExcludes(free: seq<nat>, vars: map<string, nat>)
    requires FreeOk(free, vars)
    ensures R_ZERO !in free && R_PARAM !in free
  {}

  lemma RunZero(code: seq<Instr>, s: State)
    requires Program(code) && s.Valid()
    ensures RunN(code, s, 0) == Running(s)
  {}

  /** One arithmetic instruction more, into a register taken from the free list. */
  lemma ComputesThen(code: seq<Instr>, s: State, t: State, g: ExprCode, free: seq<nat>, v: u32,
                     i: Instr, w: u32, g': ExprCode)
    requires Program(code) && s.Valid() && Computes(code, s, t, g, free, v)
    requires i.Encodable() && CodeAt(code, t.pc, [i]) && IsAlu(i.op) && i.pred == 0
    requires i.rd in free && InPool(i.rd) && R_ZERO !in free
    requires Alu(i.op, t.r[i.rs1], OperandB(i, t.r)) == w
    requires g'.code == g.code + [i] && g'.reg == i.rd
    ensures Computes(code, s, t.Set(i.rd, w), g', free, w)
  {
    hide Alu, RunN, Execute;
    AluThen(code, s, |g.code|, t, i);
  }

  /** One load more, into a register taken from the free list. */
  lemma ComputesLoad(code: seq<Instr>, s: State, t: State, g: ExprCode, free: seq<nat>, v: u32, i: Instr, g': ExprCode)
    requires Program(code) && s.Valid() && Computes(code, s, t, g, free, v)
    requires i.RForm? && i.Encodable() && CodeAt(code, t.pc, [i]) && i.op == OP_LOAD && i.pred == 0
    requires i.rd in free && InPool(i.rd) && R_ZERO !in free
    requires InBounds(t.mem, t.r[i.rs1] as int + t.r[i.rs2] as int, 4)
    requires g'.code == g.code + [i] && g'.reg == i.rd
    ensures var w := Rd32(t.mem, t.r[i.rs1] as int + t.r[i.rs2] as int);
      Computes(code, s, t.Set(i.rd, w), g', free, w)
  {
    hide RunN, Execute, Rd32;
    LoadStep(code, t, i);
    Chain(code, s, |g.code|, t, 1, t.Set(i.rd, Rd32(t.mem, t.r[i.rs1] as int + t.r[i.rs2] as int)));
  }

  /** Code for a second operand, run after the first. */
  lemma ComputesBoth(code: seq<Instr>, s: State, t1: State, t2: State, a: ExprCode, b: ExprCode,
                     free: seq<nat>, vars: map<string, nat>, x: u32, y: u32, g: ExprCode)
    requires Program(code) && s.Valid() && Computes(code, s, t1, a, free, x) && Computes(code, t1, t2, b, a.free, y)
    requires FreeOk(free, vars) && Delivers(a, free, vars)
    requires g.code == a.code + b.code && g.reg == b.reg
    ensures Computes(code, s, t2, g, free, y) && t2.r[a.reg] == x
  {
    hide RunN, Execute;
    Chain(code, s, |a.code|, t1, |b.code|, t2);
    FrameGrows(a.free, free, s.r, t1.r, t2.r);
  }

  lemma NegApplies(x: i32)
    ensures Alu(OP_SUB, 0, Wrap(x)) == Wrap(Signed(0 - x as int))
  {
    AddSubWords(0, x);
  }

  lemma {:induction false} ExprCorrect(code: seq<Instr>, s: State, e: Expr, free: seq<nat>, vars: map<string, nat>, env: Env)
      returns (t: State)
    requires Program(code) && Live(s)
    requires HomesOk(vars) && FreeOk(free, vars)
    requires GenExpr(e, free, vars).Some? && CodeAt(code, s.pc, GenExpr(e, free, vars).value.code)
    requires Agrees(Reads(e), env, vars, s.r)
    requires Eval(e, env, s.mem).Some?
    ensures Computes(code, s, t, GenExpr(e, free, vars).value, free, Wrap(Eval(e, env, s.mem).value))
    decreases e, 1
  {
    hide Alu, RunN, Execute, LoadConst;
    var g := GenExpr(e, free, vars).value;
    match e {
      case Const(c) =>
        PoolExcludes(free, vars);
        assert free[0] in free;
        LoadConstCorrect(code, s, free[0], c);
        t := State(s.r[free[0] := Wrap(c)], s.p, s.pc + |g.code|, s.mem);
      case Name(id) =>
        RunZero(code, s);
        t := s;
      case Neg(operand) =>
        t := NegCorrect(code, s, operand, free, vars, env);
      case Bin(op, left, right) =>
        if SmallConst(right) && op != Mod {
          t := ImmediateCorrect(code, s, op, left, right.v, free, vars, env);
        } else {
          t := BinCorrect(code, s, op, left, right, free, vars, env);
        }
      case Subscript(arr, index) =>
        t := ElementCorrect(code, s, arr, index, free, vars, env);
    }
  }

  lemma {:induction false} NegCorrect(code: seq<Instr>, s: State, operand: Expr, free: seq<nat>, vars: map<string, nat>, env: Env)
      returns (t: State)
    requires Program(code) && Live(s)
    requires HomesOk(vars) && FreeOk(free, vars)
    requires var e := Neg(operand);
      && GenExpr(e, free, vars).Some? && CodeAt(code, s.pc, GenExpr(e, free, vars).value.code)
      && Agrees(Reads(e), env, vars, s.r) && Eval(e, env, s.mem).Some?
    ensures var e := Neg(operand);
      Computes(code, s, t, GenExpr(e, free, vars).value, free, Wrap(Eval(e, env, s.mem).value))
    decreases Neg(operand), 0
  {
    hide Alu, RunN, Execute, LoadConst, Wrap, Signed, Program, Distinct, HomesOk, FreeOk, CodeAt, Preserves, Delivers;
    var e := Neg(operand);
    var g, v := GenExpr(e, free, vars).value, Eval(e, env, s.mem).value;
    var src, x := GenExpr(operand, free, vars).value, Eval(operand, env, s.mem).value;
    PoolExcludes(free, vars);
    ExprAllocation(operand, free, vars);
    Retarget(src, free, vars);
    var i := RForm(OP_SUB, src.free[0], R_ZERO, src.reg, 0, 0);
    CodeAtSplit(code, s.pc, src.code, [i]);
    var t1 := ExprCorrect(code, s, operand, free, vars, env);
    NegApplies(x);
    ComputesThen(code, s, t1, src, free, Wrap(x), i, Wrap(v), g);
    t := t1.Set(i.rd, Wrap(v));
  }

  lemma SmallConstantWord(c: int)
    requires 0 <= c <= IMM_MAX
    ensures Wrap(c) == c && Signed(c) == c
  {}

  lemma {:induction false} ImmediateCorrect(code: seq<Instr>, s: State, op: Op, left: Expr, c: int,
                                            free: seq<nat>, vars: map<string, nat>, env: Env)
      returns (t: State)
    requires Program(code) && Live(s)
    requires HomesOk(vars) && FreeOk(free, vars)
    requires op != Mod && 0 <= c <= IMM_MAX
    requires var e := Bin(op, left, Const(c));
      && GenExpr(e, free, vars).Some? && CodeAt(code, s.pc, GenExpr(e, free, vars).value.code)
      && Agrees(Reads(e), env, vars, s.r) && Eval(e, env, s.mem).Some?
    ensures var e := Bin(op, left, Const(c));
      Computes(code, s, t, GenExpr(e, free, vars).value, free, Wrap(Eval(e, env, s.mem).value))
    decreases Bin(op, left, Const(c)), 0
  {
    hide Alu, RunN, Execute, LoadConst, Wrap, Signed, Program, Distinct, HomesOk, FreeOk, CodeAt, Preserves, Delivers, Apply;
    var e := Bin(op, left, Const(c));
    var g, v := GenExpr(e, free, vars).value, Eval(e, env, s.mem).value;
    var a, x := GenExpr(left, free, vars).value, Eval(left, env, s.mem).value;
    PoolExcludes(free, vars);
    ExprAllocation(left, free, vars);
    Retarget(a, free, vars);
    AluApplies(op, x, Signed(c));
    SmallConstantWord(c);
    var i := IForm(Opcode(op).value, a.free[0], a.reg, c, 0);
    CodeAtSplit(code, s.pc, a.code, [i]);
    var t1 := ExprCorrect(code, s, left, free, vars, env);
    ComputesThen(code, s, t1, a, free, Wrap(x), i, Wrap(v), g);
    t := t1.Set(i.rd, Wrap(v));
  }

  lemma {:induction false} BinCorrect(code: seq<Instr>, s: State, op: Op, left: Expr, right: Expr,
                                      free: seq<nat>, vars: map<string, nat>, env: Env)
      returns (t: State)
    requires Program(code) && Live(s)
    requires HomesOk(vars) && FreeOk(free, vars)
    requires !SmallConst(right) || op == Mod
    requires var e := Bin(op, left, right);
      && GenExpr(e, free, vars).Some? && CodeAt(code, s.pc, GenExpr(e, free, vars).value.code)
      && Agrees(Reads(e), env, vars, s.r) && Eval(e, env, s.mem).Some?
    ensures var e := Bin(op, left, right);
      Computes(code, s, t, GenExpr(e, free, vars).value, free, Wrap(Eval(e, env, s.mem).value))
    decreases Bin(op, left, right), 0
  {
    hide *;
    var e := Bin(op, left, right);
    LiveValid(s);
    BinShape(op, left, right, free, vars);
    BinMeaning(op, left, right, env, s.mem);
    AgreesSubset(Reads(left), Reads(e), env, vars, s.r);
    AgreesSubset(Reads(right), Reads(e), env, vars, s.r);
    var g, v := GenExpr(e, free, vars).value, Eval(e, env, s.mem).value;
    var a, x := GenExpr(left, free, vars).value, Eval(left, env, s.mem).value;
    var b, y := GenExpr(right, a.free, vars).value, Eval(right, env, s.mem).value;
    ExprAllocation(left, free, vars);
    DeliversFree(a, free, vars);
    ExprAllocation(right, a.free, vars);
    RetargetTwo(a, b, free, vars);
    var ops := OperatorCode(op, b.free[0], a.reg, b.reg);
    CodeAtSplit(code, s.pc, a.code + b.code, ops);
    CodeAtSplit(code, s.pc, a.code, b.code);
    var t1 := ExprCorrect(code, s, left, free, vars, env);
    ComputesState(code, s, t1, a, free, Wrap(x));
    AgreesPreserved(Reads(right), env, vars, free, s.r, t1.r);
    var t2 := ExprCorrect(code, t1, right, a.free, vars, env);
    ComputesState(code, t1, t2, b, a.free, Wrap(y));
    var both := ExprCode(a.code + b.code, b.free, b.reg, b.tmp);
    ComputesBoth(code, s, t1, t2, a, b, free, vars, Wrap(x), Wrap(y), both);
    PoolExcludes(free, vars);
    t := OperatorCorrect(code, s, t2, op, both, free, a.reg, b.free[0], x, y, g);
  }

  lemma LiveValid(s: State)
    requires Live(s)
    ensures s.Valid()
  {}

  lemma ComputesState(code: seq<Instr>, s: State, t: State, g: ExprCode, free: seq<nat>, w: u32)
    requires Program(code) && s.Valid() && Computes(code, s, t, g, free, w)
    ensures Live(t) && t.pc == s.pc + |g.code| && t.mem == s.mem && Preserves(free, s.r, t.r)
    ensures InPool(g.reg) && t.r[g.reg] == w
    ensures s.Valid() && t.Valid()
  {}

  lemma BinShape(op: Op, left: Expr, right: Expr, free: seq<nat>, vars: map<string, nat>)
    requires !SmallConst(right) || op == Mod
    requires GenExpr(Bin(op, left, right), free, vars).Some?
    ensures op == Mod || Opcode(op).Some?
    ensures GenExpr(left, free, vars).Some?
    ensures GenExpr(right, GenExpr(left, free, vars).value.free, vars).Some?
    ensures Reads(left) <= Reads(Bin(op, left, right)) && Reads(right) <= Reads(Bin(op, left, right))
    ensures var a := GenExpr(left, free, vars).value;
      var b := GenExpr(right, a.free, vars).value;
      var g := GenExpr(Bin(op, left, right), free, vars).value;
      && b.free != []
      && g.code == a.code + b.code + OperatorCode(op, b.free[0], a.reg, b.reg)
      && g.reg == b.free[0]
  {}

  lemma BinMeaning(op: Op, left: Expr, right: Expr, env: Env, mem: Bytes)
    requires Eval(Bin(op, left, right), env, mem).Some?
    ensures Eval(left, env, mem).Some? && Eval(right, env, mem).Some?
    ensures Eval(Bin(op, left, right), env, mem) == Apply(op, Eval(left, env, mem).value, Eval(right, env, mem).value)
  {}

  lemma OperatorCorrect(code: seq<Instr>, s: State, t2: State, op: Op, both: ExprCode, free: seq<nat>, a: nat, t: nat,
                        x: i32, y: i32, g: ExprCode)
      returns (t3: State)
    requires Program(code) && s.Valid() && Computes(code, s, t2, both, free, Wrap(y))
    requires op == Mod || Opcode(op).Some?
    requires CodeAt(code, t2.pc, OperatorCode(op, t, a, both.reg))
    requires a < 64 && t2.r[a] == Wrap(x) && t != a && t != both.reg
    requires t in free && InPool(t) && R_ZERO !in free
    requires g.code == both.code + OperatorCode(op, t, a, both.reg) && g.reg == t
    ensures Apply(op, x, y).Some? && Computes(code, s, t3, g, free, Wrap(Apply(op, x, y).value))
  {
    hide Alu, RunN, Execute;
    if op == Mod {
      t3 := State(t2.r[t := Wrap(Apply(op, x, y).value)], t2.p, t2.pc + 3, t2.mem);
      RemainderCorrect(code, s, t2, both, free, a, t, x, y, g);
    } else {
      AluApplies(op, x, y);
      t3 := t2.Set(t, Wrap(Apply(op, x, y).value));
      ComputesThen(code, s, t2, both, free, Wrap(y), OperatorCode(op, t, a, both.reg)[0], Wrap(Apply(op, x, y).value), g);
    }
  }

  lemma RemainderCorrect(code: seq<Instr>, s: State, t2: State, both: ExprCode, free: seq<nat>, a: nat, t: nat,
                         x: i32, y: i32, g: ExprCode)
    requires Program(code) && s.Valid() && Computes(code, s, t2, both, free, Wrap(y))
    requires CodeAt(code, t2.pc, OperatorCode(Mod, t, a, both.reg))
    requires a < 64 && t2.r[a] == Wrap(x) && t != a && t != both.reg
    requires t in free && InPool(t) && R_ZERO !in free
    requires g.code == both.code + OperatorCode(Mod, t, a, both.reg) && g.reg == t
    ensures Computes(code, s, State(t2.r[t := Wrap(Apply(Mod, x, y).value)], t2.p, t2.pc + 3, t2.mem), g, free,
                     Wrap(Apply(Mod, x, y).value))
  {
    hide Alu, RunN, Execute;
    var ops, b := OperatorCode(Mod, t, a, both.reg), both.reg;
    assert forall k :: 0 <= k < 3 ==> CodeAt(code, t2.pc + k, [ops[k]]);
    RemainderApplies(x, y);
    var q := Alu(OP_DIV, Wrap(x), Wrap(y));
    var m := Alu(OP_MUL, q, Wrap(y));
    var w := Wrap(Apply(Mod, x, y).value);
    var g1 := ExprCode(both.code + [ops[0]], free, t, true);
    var g2 := ExprCode(g1.code + [ops[1]], free, t, true);
    ComputesThen(code, s, t2, both, free, Wrap(y), ops[0], q, g1);
    var t3 := t2.Set(t, q);
    ComputesThen(code, s, t3, g1, free, q, ops[1], m, g2);
    var t4 := t3.Set(t, m);
    assert g.code == g2.code + [ops[2]];
    ComputesThen(code, s, t4, g2, free, m, ops[2], w, g);
    assert t4.Set(t, w).r == t2.r[t := w];
  }

  lemma {:induction false} ElementCorrect(code: seq<Instr>, s: State, arr: string, index: Expr,
                                          free: seq<nat>, vars: map<string, nat>, env: Env)
      returns (t: State)
    requires Program(code) && Live(s)
    requires HomesOk(vars) && FreeOk(free, vars)
    requires var e := Subscript(arr, index);
      && GenExpr(e, free, vars).Some? && CodeAt(code, s.pc, GenExpr(e, free, vars).value.code)
      && Agrees(Reads(e), env, vars, s.r) && Eval(e, env, s.mem).Some?
    ensures var e := Subscript(arr, index);
      Computes(code, s, t, GenExpr(e, free, vars).value, free, Wrap(Eval(e, env, s.mem).value))
    decreases Subscript(arr, index), 0
  {
    hide Alu, RunN, Execute, LoadConst, Wrap, Signed, Program, Distinct, HomesOk, FreeOk, CodeAt, Preserves, Delivers, Rd32;
    var e := Subscript(arr, index);
    var g, v := GenExpr(e, free, vars).value, Eval(e, env, s.mem).value;
    var off := GenOffset(arr, index, free, vars).value;
    PoolExcludes(free, vars);
    OffsetAllocation(arr, index, free, vars);
    Retarget(off, free, vars);
    var i := RForm(OP_LOAD, off.free[0], vars[arr], off.reg, 0, 0);
    CodeAtSplit(code, s.pc, off.code, [i]);
    var t1 := OffsetCorrect(code, s, arr, index, free, vars, env);
    ComputesLoad(code, s, t1, off, free, t1.r[off.reg], i, g);
    LoadedWord(t1.mem, t1.r[i.rs1] as int + t1.r[i.rs2] as int);
    t := t1.Set(i.rd, Wrap(v));
  }

  lemma LoadedWord(mem: Bytes, addr: int)
    requires InBounds(mem, addr, 4)
    ensures Wrap(Signed(Rd32(mem, addr))) == Rd32(mem, addr)
  {
    WordOfSigned(Rd32(mem, addr));
  }

  lemma ShiftByTwo(i: int)
    requires 0 <= 4 * i < TWO32
    ensures Alu(OP_SHL, Wrap(i), 2) == 4 * i
  {
    assert Pow2(2) == 4;
  }

  lemma {:induction false} OffsetCorrect(code: seq<Instr>, s: State, arr: string, index: Expr,
                                         free: seq<nat>, vars: map<string, nat>, env: Env)
      returns (t: State)
    requires Program(code) && Live(s)
    requires HomesOk(vars) && FreeOk(free, vars)
    requires GenOffset(arr, index, free, vars).Some? && CodeAt(code, s.pc, GenOffset(arr, index, free, vars).value.code)
    requires Agrees(Reads(index) + {arr}, env, vars, s.r)
    requires Eval(index, env, s.mem).Some? && ElementAddress(arr, Eval(index, env, s.mem).value, env, s.mem).Some?
    ensures var i := Eval(index, env, s.mem).value;
      && 4 * i < TWO32
      && Computes(code, s, t, GenOffset(arr, index, free, vars).value, free, 4 * i)
      && t.r[vars[arr]] == Wrap(env[arr])
    decreases index, 2
  {
    hide Alu, RunN, Execute, LoadConst, GenExpr, GenOffset, Eval, ElementAddress, Computes, Wrap, Signed, Program, Agrees,
      Preserves, Distinct, HomesOk, CodeAt, Delivers, FreeOk;
    OffsetShape(arr, index, free, vars);
    var off := GenOffset(arr, index, free, vars).value;
    var idx, x := GenExpr(index, free, vars).value, Eval(index, env, s.mem).value;
    LiveValid(s);
    AddressBound(arr, x, env, s.mem);
    PoolExcludes(free, vars);
    ExprAllocation(index, free, vars);
    Retarget(idx, free, vars);
    DeliversFree(idx, free, vars);
    var i := IForm(OP_SHL, idx.free[0], idx.reg, 2, 0);
    CodeAtSplit(code, s.pc, idx.code, [i]);
    AgreesSubset(Reads(index), Reads(index) + {arr}, env, vars, s.r);
    var t1 := ExprCorrect(code, s, index, free, vars, env);
    ComputesState(code, s, t1, idx, free, Wrap(x));
    ShiftByTwo(x);
    var w: u32 := 4 * x as int;
    ComputesThen(code, s, t1, idx, free, Wrap(x), i, w, off);
    t := t1.Set(i.rd, w);
    ComputesState(code, s, t, off, free, w);
    AgreesPreserved(Reads(index) + {arr}, env, vars, free, s.r, t.r);
    AgreesAt(Reads(index) + {arr}, env, vars, t.r, arr);
  }

  lemma OffsetShape(arr: string, index: Expr, free: seq<nat>, vars: map<string, nat>)
    requires GenOffset(arr, index, free, vars).Some?
    ensures arr in vars && GenExpr(index, free, vars).Some?
    ensures var idx, off := GenExpr(index, free, vars).value, GenOffset(arr, index, free, vars).value;
      idx.free != [] && off.reg == idx.free[0] && off.code == idx.code + [IForm(OP_SHL, idx.free[0], idx.reg, 2, 0)]
  {}

  lemma AddressBound(arr: string, i: i32, env: Env, mem: Bytes)
    requires |mem| <= TWO32 && ElementAddress(arr, i, env, mem).Some?
    ensures 0 <= 4 * i as int < TWO32
  {}

  lemma AgreesAt(names: set<string>, env: Env, vars: map<string, nat>, r: seq<u32>, x: string)
    requires Agrees(names, env, vars, r) && x in names
    ensures x in env && x in vars && vars[x] < |r| && r[vars[x]] == Wrap(env[x])
  {}
}
