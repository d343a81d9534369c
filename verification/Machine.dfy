/**
 The reference ISA simulator of compiler/titan_compiler.py: one instruction step, runs of
 steps, and the `simulate` loop with its watchdog.
 */
module Machine {
  import opened Bits
  import opened Isa
  import opened Memory
  import opened Options

  datatype State = State(r: seq<u32>, p: seq<bool>, pc: nat, mem: Bytes) {
    predicate Valid() {
      |r| == 64 && |p| == 4
    }

    function Set(rd: nat, v: u32): State
      requires Valid() && rd < 64
    {
      this.(r := r[rd := v], pc := pc + 1)
    }
  }

  /** What one step does; `Fault` stands for the Python exceptions. */
  datatype Outcome = Running(s: State) | Exited(mem: Bytes) | Fault

  /** `(w >> 3) & 0xFFF`, read from either form. */
  function Imm(i: Instr): nat {
    match i
    case RForm(_, _, _, rs2, rs3, _) => rs2 * 64 + rs3
    case IForm(_, _, _, imm, _) => imm
  }

  /** `(w >> 9) & 63` and `(w >> 3) & 63`, read from either form. */
  function Rs2(i: Instr): nat {
    match i
    case RForm(_, _, _, rs2, _, _) => rs2
    case IForm(_, _, _, imm, _) => imm / 64
  }

  function Rs3(i: Instr): nat {
    match i
    case RForm(_, _, _, _, rs3, _) => rs3
    case IForm(_, _, _, imm, _) => imm % 64
  }

  function OperandB(i: Instr, r: seq<u32>): u32
    requires i.Encodable() && |r| == 64
  {
    match i
    case RForm(_, _, _, rs2, _, _) => r[rs2]
    case IForm(_, _, _, imm, _) => imm
  }

  predicate IsAlu(op: nat) {
    op in {OP_ADD, OP_SUB, OP_MUL, OP_DIV, OP_AND, OP_OR, OP_XOR, OP_SHL, OP_SHR, OP_SRA}
  }

  function Alu(op: nat, a: u32, b: u32): u32
    requires IsAlu(op)
  {
    if op == OP_ADD then Wrap(a + b)
    else if op == OP_SUB then Wrap(a - b)
    else if op == OP_MUL then Wrap(Signed(a) * Signed(b))
    else if op == OP_DIV then (if Signed(b) == 0 then 0xFFFF_FFFF else Wrap(TruncDiv(Signed(a), Signed(b))))
    else if op == OP_AND then Bitwise32(AND, a, b)
    else if op == OP_OR then Bitwise32(OR, a, b)
    else if op == OP_XOR then Bitwise32(XOR, a, b)
    else if op == OP_SHL then Wrap(a * Pow2(b % 32))
    else if op == OP_SHR then ShiftRight(a, b % 32)
    else Wrap(Signed(a) / Pow2(b % 32))
  }

  function ShiftRight(a: u32, k: nat): u32 {
    QuotientBound(a, Pow2(k));
    a / Pow2(k)
  }

  function Compare(cond: nat, a: u32, b: u32): bool
    requires cond <= 5
  {
    if cond == CMP_EQ then a == b
    else if cond == CMP_NE then a != b
    else if cond == CMP_LT then Signed(a) < Signed(b)
    else if cond == CMP_GE then Signed(a) >= Signed(b)
    else if cond == CMP_LTU then a < b
    else a >= b
  }

  // --- WMMA, INT8 mode ---

  /** `x - 256 if x & 0x80 else x` */
  function SignedByte(x: u8): int {
    if x >= 128 then x - 256 else x
  }

  /** Where the tiles of one WMMA lie: base addresses and row strides of C, A and B. */
  datatype Tile = Tile(ca: nat, aa: nat, ba: nat, lda: nat, ldb: nat, ldc: nat) {
    function C(row: nat, col: nat): nat {
      ca + 4 * (row * ldc + col)
    }

    function A(row: nat, k: nat): nat {
      aa + row * lda + k
    }

    function B(k: nat, col: nat): nat {
      ba + k * ldb + col
    }
  }

  /** Sum of the first n products of one row of A with one column of B; None when an index is out of range. */
  function Dot(mem: Bytes, t: Tile, row: nat, col: nat, n: nat): Option<int> {
    if n == 0 then Some(0)
    else
      var rest := Dot(mem, t, row, col, n - 1);
      if rest.Some? && t.A(row, n - 1) < |mem| && t.B(n - 1, col) < |mem|
      then Some(rest.value + SignedByte(mem[t.A(row, n - 1)]) * SignedByte(mem[t.B(n - 1, col)]))
      else None
  }

  function WmmaElement(mem: Bytes, t: Tile, row: nat, col: nat): Option<Bytes> {
    var dot := Dot(mem, t, row, col, 16);
    if dot.Some? && InBounds(mem, t.C(row, col), 4)
    then Some(Wr32(mem, t.C(row, col), Wrap(Signed(Rd32(mem, t.C(row, col))) + dot.value)))
    else None
  }

  /** The first n elements of the tile, in row-major order, each updated in place. */
  function Wmma(mem: Bytes, t: Tile, n: nat): Option<Bytes> {
    if n == 0 then Some(mem)
    else
      var done := Wmma(mem, t, n - 1);
      if done.Some? then WmmaElement(done.value, t, (n - 1) / 16, (n - 1) % 16) else None
  }

  function WmmaTile(i: Instr, r: seq<u32>): Tile
    requires i.Encodable() && |r| == 64
  {
    Tile(r[i.rd], r[i.rs1], r[Rs2(i)], r[R_LDA], r[R_LDB], r[R_LDC])
  }

  // --- Steps and runs ---

  function Execute(i: Instr, s: State): (o: Outcome)
    requires i.Encodable() && s.Valid()
    ensures o.Running? ==> o.s.Valid()
  {
    var a, b := s.r[i.rs1], OperandB(i, s.r);
    var next := s.(pc := s.pc + 1);
    if !s.p[i.pred] then Running(next)
    else if IsAlu(i.op) then Running(s.Set(i.rd, Alu(i.op, a, b)))
    else if i.op == OP_SETP then
      var cond, dst := i.rd / 4 % 8, i.rd % 4;
      if cond > 5 then Fault
      else if dst == 0 then Running(next)
      else Running(next.(p := s.p[dst := Compare(cond, a, b)]))
    else if i.op == OP_LOAD then
      if InBounds(s.mem, a + b, 4) then Running(s.Set(i.rd, Rd32(s.mem, a + b))) else Fault
    else if i.op == OP_STORE then
      if InBounds(s.mem, a + b, 4) then Running(next.(mem := Wr32(s.mem, a + b, s.r[i.rd]))) else Fault
    else if i.op == OP_BRANCH then Running(s.(pc := Imm(i)))
    else if i.op == OP_BARRIER then
      if i.IForm? && i.imm == EXIT_IMM then Exited(s.mem) else Running(next)
    else if i.op == OP_WMMA && Rs3(i) % 2 == 0 then
      var m := Wmma(s.mem, WmmaTile(i, s.r), 256);
      if m.Some? then Running(next.(mem := m.value)) else Fault
    else Fault
  }

  predicate Program(code: seq<Instr>) {
    forall k :: 0 <= k < |code| ==> code[k].Encodable()
  }

  function Step(code: seq<Instr>, s: State): (o: Outcome)
    requires Program(code) && s.Valid()
    ensures o.Running? ==> o.s.Valid()
  {
    if s.pc < |code| then Execute(code[s.pc], s) else Fault
  }

  function RunN(code: seq<Instr>, s: State, n: nat): (o: Outcome)
    requires Program(code) && s.Valid()
    ensures o.Running? ==> o.s.Valid()
    decreases n
  {
    if n == 0 then Running(s)
    else
      var o := Step(code, s);
      if o.Running? then RunN(code, o.s, n - 1) else o
  }

  lemma {:induction false} RunSplit(code: seq<Instr>, s: State, m: nat, n: nat)
    requires Program(code) && s.Valid()
    requires RunN(code, s, m).Running?
    ensures RunN(code, s, m + n) == RunN(code, RunN(code, s, m).s, n)
    decreases m
  {
    if m > 0 {
      RunSplit(code, Step(code, s).s, m - 1, n);
    }
  }

  /** A run that has stopped stays stopped. */
  lemma {:induction false} StoppedStays(code: seq<Instr>, s: State, m: nat, n: nat)
    requires Program(code) && s.Valid() && m <= n && !RunN(code, s, m).Running?
    ensures RunN(code, s, n) == RunN(code, s, m)
    decreases m
  {
    if m > 0 && Step(code, s).Running? {
      StoppedStays(code, Step(code, s).s, m - 1, n - 1);
    }
  }

  function Disassemble(words: seq<u32>): (code: seq<Instr>)
    ensures |code| == |words| && Program(code)
  {
    seq(|words|, k requires 0 <= k < |words| => Decode(words[k]))
  }

  function Boot(mem: Bytes, paramAddr: u32): (s: State)
    ensures s.Valid()
  {
    State(seq(64, k => if k == R_PARAM then paramAddr else 0), [true, false, false, false], 0, mem)
  }
}
