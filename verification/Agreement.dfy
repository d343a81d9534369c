/**
 The two interpreters of the ISA agree: on code that reads neither r61 nor r62, a step (and
 so a run) of the reference simulator that raises no exception is also a step of the
 functional GPU model, as long as the code in VRAM is not overwritten.
 */
module Agreement {
  import opened Bits
  import opened Isa
  import opened Memory
  import opened Machine
  import opened GpuThread

  /** Equal except for the launch registers, which the simulator leaves at 0. */
  predicate SameRegisters(r: seq<u32>, r': seq<u32>) {
    |r| == 64 && |r'| == 64 && forall q :: 0 <= q < 64 && q != R_NTHREADS && q != R_TID ==> r'[q] == r[q]
  }

  predicate Shared(q: nat) {
    q != R_NTHREADS && q != R_TID
  }

  /** The instruction has no launch register among its sources. */
  predicate ReadsShared(i: Instr) {
    && Shared(i.rs1) && (i.RForm? ==> Shared(i.rs2))
    && (i.op == OP_STORE || i.op == OP_WMMA ==> Shared(i.rd))
    && (i.op == OP_WMMA ==> Shared(Rs2(i)))
  }

  predicate Matches(s: State, t: Thread, d: Device) {
    s.Valid() && t.Valid() && SameRegisters(s.r, t.r) && t.p == s.p && t.pc == s.pc && d == Device(s.mem, false)
  }

  lemma SignedQuotient(a: u32, b: u32)
    ensures CAlu(OP_DIV, a, b) == Alu(OP_DIV, a, b)
  {}

  // --- WMMA ---

  lemma {:induction false} AccumulateAgrees(m: HostMath, mem: Bytes, t: Tile, row: nat, col: nat, start: u32, n: nat)
    requires |mem| < TWO32 && Dot(mem, t, row, col, n).Some?
    ensures Accumulate(m, mem, false, t, row, col, start, n) == (Wrap(start + Dot(mem, t, row, col, n).value), false)
  {
    hide Tile.A, Tile.B, Wrap, SignedByte;
    WrapSmall(start);
    if n > 0 {
      AccumulateAgrees(m, mem, t, row, col, start, n - 1);
      var a, b := t.A(row, n - 1), t.B(n - 1, col);
      WrapSmall(a);
      WrapSmall(b);
      WrapAdd(start + Dot(mem, t, row, col, n - 1).value, SignedByte(mem[a]) * SignedByte(mem[b]));
    }
  }

  lemma SignedAdd(w: u32, y: int)
    ensures Wrap(Signed(w) + y) == Wrap(w + y)
  {}

  lemma ElementAgrees(m: HostMath, mem: Bytes, t: Tile, row: nat, col: nat)
    requires |mem| < TWO32 && WmmaElement(mem, t, row, col).Some?
    ensures |WmmaElement(mem, t, row, col).value| == |mem|
    ensures ExecElement(m, Device(mem, false), false, t, row, col) == (Device(WmmaElement(mem, t, row, col).value, false), false)
  {
    hide Wr32, Rd32, Tile.C, Dot, Accumulate, Signed;
    var start := Rd32(mem, t.C(row, col));
    assert AddrC(t, row, col) == t.C(row, col);
    AccumulateAgrees(m, mem, t, row, col, start, 16);
    SignedAdd(start, Dot(mem, t, row, col, 16).value);
  }

  lemma {:induction false} WmmaAgrees(m: HostMath, mem: Bytes, t: Tile, n: nat)
    requires |mem| < TWO32 && Wmma(mem, t, n).Some?
    ensures |Wmma(mem, t, n).value| == |mem|
    ensures ExecWmma(m, Device(mem, false), false, t, n) == (Device(Wmma(mem, t, n).value, false), false)
  {
    if n > 0 {
      WmmaAgrees(m, mem, t, n - 1);
      ElementAgrees(m, Wmma(mem, t, n - 1).value, t, (n - 1) / 16, (n - 1) % 16);
    }
  }

  // --- one instruction ---

  lemma OperandsAgree(i: Instr, s: State, t: Thread, d: Device)
    requires i.Encodable() && ReadsShared(i) && Matches(s, t, d)
    ensures t.r[i.rs1] == s.r[i.rs1] && OperandB(i, t.r) == OperandB(i, s.r)
    ensures i.op == OP_STORE || i.op == OP_WMMA ==> t.r[i.rd] == s.r[i.rd]
    ensures i.op == OP_WMMA ==> WmmaTile(i, t.r) == WmmaTile(i, s.r)
  {}

  lemma AluAgrees(op: nat, a: u32, b: u32)
    requires IsAlu(op)
    ensures CAlu(op, a, b) == Alu(op, a, b)
  {
    if op == OP_DIV {
      SignedQuotient(a, b);
    }
  }

  /** Every instruction the simulator executes without an exception has the same effect in the GPU model. */
  lemma StepAgrees(m: HostMath, i: Instr, s: State, t: Thread, d: Device)
    requires i.Encodable() && ReadsShared(i) && Matches(s, t, d)
    requires |s.mem| < TWO32 && s.pc + 1 < TWO32
    ensures match Execute(i, s)
      case Running(s') => var e := Switch(m, i, t, d); e.Effect? && Matches(s', e.t, e.d) && |s'.mem| == |s.mem|
      case Exited(mem) => Switch(m, i, t, d).Retired? && mem == s.mem
      case Fault => true
  {
    hide Alu, CAlu, Rd32, Wr32, Compare, Wmma, ExecWmma, IntegerOp, Wrap, WmmaTile, Imm, OperandB, ReadsShared;
    OperandsAgree(i, s, t, d);
    WrapSmall(s.pc + 1);
    WrapSmall(s.r[i.rs1] as int + OperandB(i, s.r) as int);
    if IsAlu(i.op) {
      AluAgrees(i.op, s.r[i.rs1], OperandB(i, s.r));
    } else if i.op == OP_WMMA && Wmma(s.mem, WmmaTile(i, s.r), 256).Some? {
      WmmaAgrees(m, s.mem, WmmaTile(i, s.r), 256);
    }
  }

  // --- whole runs ---

  /** The words are stored in memory from codeAddr on. */
  predicate CodeInMemory(mem: Bytes, codeAddr: u32, words: seq<u32>) {
    && codeAddr + 4 * |words| <= |mem|
    && forall k :: 0 <= k < |words| ==> Rd32(mem, codeAddr + 4 * k) == words[k]
  }

  /** In n steps from s the code in memory is never overwritten. */
  predicate CodeKept(words: seq<u32>, codeAddr: u32, s: State, n: nat)
    requires s.Valid()
    decreases n
  {
    && CodeInMemory(s.mem, codeAddr, words)
    && (n > 0 ==>
          var o := Step(Disassemble(words), s);
          o.Running? ==> CodeKept(words, codeAddr, o.s, n - 1))
  }

  /**
   A run of the simulator to EXIT in n steps is a run of `exec_thread` to a successful
   return, with the same final memory, whatever the thread id and launch width in its
   registers.
   */
  lemma {:induction false} RunsAgree(m: HostMath, words: seq<u32>, codeAddr: u32, s: State, t: Thread, d: Device, n: nat, mem: Bytes, fuel: nat)
    requires Matches(s, t, d) && |s.mem| < TWO32 && n <= fuel
    requires forall k :: 0 <= k < |words| ==> ReadsShared(Decode(words[k]))
    requires CodeKept(words, codeAddr, s, n)
    requires RunN(Disassemble(words), s, n) == Exited(mem)
    ensures RunThread(m, codeAddr, t, d, fuel) == ThreadEnd(true, Device(mem, false))
    decreases n
  {
    hide Execute, Switch, Decode, Rd32;
    var code := Disassemble(words);
    var o := Step(code, s);
    assert s.pc < |words|;
    assert Fetch(d, codeAddr, t.pc) == (words[s.pc], d) by { FetchAgrees(s.mem, codeAddr, words, s.pc); }
    StepAgrees(m, Decode(words[s.pc]), s, t, d);
    if o.Running? {
      var e := Switch(m, Decode(words[s.pc]), t, d);
      RunsAgree(m, words, codeAddr, o.s, e.t, e.d, n - 1, mem, fuel - 1);
    }
  }

  /** A run that is still going after n steps is a run of `exec_thread` that its watchdog stops after n instructions. */
  lemma {:induction false} WatchdogAgrees(m: HostMath, words: seq<u32>, codeAddr: u32, s: State, t: Thread, d: Device, n: nat)
    requires Matches(s, t, d) && |s.mem| < TWO32
    requires forall k :: 0 <= k < |words| ==> ReadsShared(Decode(words[k]))
    requires CodeKept(words, codeAddr, s, n)
    requires RunN(Disassemble(words), s, n).Running?
    ensures RunThread(m, codeAddr, t, d, n) == ThreadEnd(false, Device(RunN(Disassemble(words), s, n).s.mem, true))
    decreases n
  {
    hide Execute, Switch, Decode, Rd32;
    if n > 0 {
      var o := Step(Disassemble(words), s);
      assert Fetch(d, codeAddr, t.pc) == (words[s.pc], d) by { FetchAgrees(s.mem, codeAddr, words, s.pc); }
      StepAgrees(m, Decode(words[s.pc]), s, t, d);
      var e := Switch(m, Decode(words[s.pc]), t, d);
      WatchdogAgrees(m, words, codeAddr, o.s, e.t, e.d, n - 1);
    }
  }

  lemma FetchAgrees(mem: Bytes, codeAddr: u32, words: seq<u32>, pc: nat)
    requires CodeInMemory(mem, codeAddr, words) && pc < |words| && |mem| < TWO32
    ensures pc < TWO32 && Fetch(Device(mem, false), codeAddr, pc) == (words[pc], Device(mem, false))
  {
    hide Rd32;
    assert Wrap(codeAddr + pc * 4) == codeAddr + 4 * pc;
  }
}
