/**
 One thread of the functional GPU model (`exec_thread` and `exec_wmma` of
 driver/titan_x6_gpu_model.c): 32-bit address arithmetic, instruction fetch from VRAM, and
 VRAM faults that latch an error instead of raising an exception. Host floating point is a
 parameter.
 */
module GpuThread {
  import opened Bits
  import opened Isa
  import opened Memory
  import opened Machine

  const OP_MULHI := 3
  const OP_SLT := 11
  const OP_SLTU := 12
  const OP_MIN := 13
  const OP_MAX := 14
  const OP_FMA := 15
  const OP_ATOM_ADD := 30
  const OP_ATOM_CAS := 31
  const MAX_STEPS: nat := 0x400_0000

  /** The C library's float operations: (opcode, a, b, c) for the float opcodes, and one FP8 multiply-accumulate. */
  datatype HostMath = HostMath(op: (nat, u32, u32, u32) -> u32, fp8Mac: (u32, u8, u8) -> u32)

  /** VRAM and the ERROR bit of the status register. */
  datatype Device = Device(vram: Bytes, error: bool)

  datatype Thread = Thread(r: seq<u32>, p: seq<bool>, pc: u32) {
    predicate Valid() {
      |r| == 64 && |p| == 4
    }
  }

  /** `vram_rd32`: a fault latches the error and reads 0. */
  function VramRead(d: Device, addr: u32): (u32, Device) {
    if addr + 4 <= |d.vram| then (Rd32(d.vram, addr), d) else (0, d.(error := true))
  }

  /** `vram_wr32`: a fault latches the error and writes nothing. */
  function VramWrite(d: Device, addr: u32, v: u32): Device {
    if addr + 4 <= |d.vram| then d.(vram := Wr32(d.vram, addr, v)) else d.(error := true)
  }

  // --- exec_wmma: the simulator's element addresses, reduced to uint32_t ---

  function AddrA(t: Tile, row: nat, k: nat): u32 {
    Wrap(t.A(row, k))
  }

  function AddrB(t: Tile, k: nat, col: nat): u32 {
    Wrap(t.B(k, col))
  }

  function AddrC(t: Tile, row: nat, col: nat): u32 {
    Wrap(t.C(row, col))
  }

  /** The accumulator after n products, as a 32-bit pattern; stop = true when an operand address faults. */
  function Accumulate(m: HostMath, vram: Bytes, fp8: bool, t: Tile, row: nat, col: nat, start: u32, n: nat): (u32, bool) {
    if n == 0 then (start, false)
    else
      var (acc, stop) := Accumulate(m, vram, fp8, t, row, col, start, n - 1);
      var a, b := AddrA(t, row, n - 1), AddrB(t, n - 1, col);
      if stop || a >= |vram| || b >= |vram| then (acc, true)
      else if fp8 then (m.fp8Mac(acc, vram[a], vram[b]), false)
      else (Wrap(acc + SignedByte(vram[a]) * SignedByte(vram[b])), false)
  }

  /** One output element; stop = true when `exec_wmma` returns early. */
  function ExecElement(m: HostMath, d: Device, fp8: bool, t: Tile, row: nat, col: nat): (Device, bool) {
    var (start, read) := VramRead(d, AddrC(t, row, col));
    var (acc, stop) := Accumulate(m, read.vram, fp8, t, row, col, start, 16);
    if stop then (read.(error := true), true)
    else (VramWrite(read, AddrC(t, row, col), acc), false)
  }

  /** The first n elements in row-major order. */
  function ExecWmma(m: HostMath, d: Device, fp8: bool, t: Tile, n: nat): (Device, bool) {
    if n == 0 then (d, false)
    else
      var (done, stopped) := ExecWmma(m, d, fp8, t, n - 1);
      if stopped then (done, true) else ExecElement(m, done, fp8, t, (n - 1) / 16, (n - 1) % 16)
  }

  // --- the instruction switch ---

  predicate IsHostFloat(op: nat) {
    op in {16, 17, 18, 19, 20, 27, 28, 29}
  }

  /** Register results of the remaining integer instructions. */
  function IntegerOp(op: nat, a: u32, b: u32, c: u32): u32
    requires op in {OP_MULHI, OP_SLT, OP_SLTU, OP_MIN, OP_MAX, OP_FMA}
  {
    if op == OP_MULHI then Wrap((Signed(a) * Signed(b)) / TWO32)
    else if op == OP_SLT then (if Signed(a) < Signed(b) then 1 else 0)
    else if op == OP_SLTU then (if a < b then 1 else 0)
    else if op == OP_MIN then (if Signed(a) < Signed(b) then a else b)
    else if op == OP_MAX then (if Signed(a) > Signed(b) then a else b)
    else Wrap(Signed(a) * Signed(b) + c)
  }

  /** DIV with its three cases; the others as in the reference simulator. */
  function CAlu(op: nat, a: u32, b: u32): u32
    requires IsAlu(op)
  {
    if op == OP_DIV then
      if Signed(b) == 0 then 0xFFFF_FFFF
      else if Signed(a) == -TWO31 && Signed(b) == -1 then a
      else Wrap(TruncDiv(Signed(a), Signed(b)))
    else Alu(op, a, b)
  }

  function CCompare(cond: nat, a: u32, b: u32): bool {
    if cond <= 5 then Compare(cond, a, b) else false
  }

  datatype Effect = Effect(t: Thread, d: Device) | Retired

  function Advance(t: Thread): Thread {
    t.(pc := Wrap(t.pc + 1))
  }

  function Put(t: Thread, rd: nat, v: u32): Thread
    requires t.Valid() && rd < 64
  {
    Advance(t.(r := t.r[rd := v]))
  }

  function Switch(m: HostMath, i: Instr, t: Thread, d: Device): (e: Effect)
    requires i.Encodable() && t.Valid()
    ensures e.Effect? ==> e.t.Valid()
  {
    var a, b, c := t.r[i.rs1], OperandB(i, t.r), t.r[Rs3(i)];
    if !t.p[i.pred] then Effect(Advance(t), d)
    else if IsAlu(i.op) then Effect(Put(t, i.rd, CAlu(i.op, a, b)), d)
    else if i.op in {OP_MULHI, OP_SLT, OP_SLTU, OP_MIN, OP_MAX, OP_FMA} then Effect(Put(t, i.rd, IntegerOp(i.op, a, b, c)), d)
    else if IsHostFloat(i.op) then Effect(Put(t, i.rd, m.op(i.op, a, b, if i.op == 20 then Rs3(i) else c)), d)
    else if i.op == OP_SETP then
      var dst := i.rd % 4;
      Effect(Advance(if dst != 0 then t.(p := t.p[dst := CCompare(i.rd / 4 % 8, a, b)]) else t), d)
    else if i.op == OP_LOAD then
      var (v, d') := VramRead(d, Wrap(a + b));
      Effect(Put(t, i.rd, v), d')
    else if i.op == OP_STORE then Effect(Advance(t), VramWrite(d, Wrap(a + b), t.r[i.rd]))
    else if i.op == OP_BRANCH then Effect(t.(pc := Imm(i)), d)
    else if i.op == OP_BARRIER then
      if i.IForm? && i.imm == EXIT_IMM then Retired else Effect(Advance(t), d)
    else if i.op == OP_WMMA then
      Effect(Advance(t), ExecWmma(m, d, Rs3(i) % 2 == 1, WmmaTile(i, t.r), 256).0)
    else if i.op == OP_ATOM_ADD then
      var (old_, d') := VramRead(d, a);
      Effect(Put(t, i.rd, old_), VramWrite(d', a, Wrap(old_ + b)))
    else
      var (old_, d') := VramRead(d, a);
      Effect(Put(t, i.rd, old_), if old_ == t.r[Rs2(i)] then VramWrite(d', a, c) else d')
  }

  // --- the thread loop ---

  /** How a thread ends: EXIT (0) or an error return (-1), and the device it leaves. */
  datatype ThreadEnd = ThreadEnd(ok: bool, d: Device)

  function Fetch(d: Device, codeAddr: u32, pc: u32): (u32, Device) {
    VramRead(d, Wrap(codeAddr + pc * 4))
  }

  /** The loop with `fuel` instructions left before the watchdog. */
  function RunThread(m: HostMath, codeAddr: u32, t: Thread, d: Device, fuel: nat): ThreadEnd
    requires t.Valid()
    decreases fuel
  {
    if fuel == 0 then ThreadEnd(false, d.(error := true))
    else
      var (inst, d1) := Fetch(d, codeAddr, t.pc);
      if d1.error then ThreadEnd(false, d1)
      else match Switch(m, Decode(inst), t, d1)
        case Retired => ThreadEnd(true, d1)
        case Effect(t', d') => if d'.error then ThreadEnd(false, d') else RunThread(m, codeAddr, t', d', fuel - 1)
  }

  function StartThread(paramAddr: u32, tid: u32, nthreads: u32): (t: Thread)
    ensures t.Valid()
  {
    Thread(seq(64, k => if k == R_PARAM then paramAddr else if k == R_TID then tid else if k == R_NTHREADS then nthreads else 0),
           [true, false, false, false], 0)
  }
}
