/**
 `simulate` of compiler/titan_compiler.py as it runs: registers, predicates and memory are
 updated in place, one instruction at a time, until EXIT, an exception or the watchdog.
 */
module Simulator {
  import opened Bits
  import opened Isa
  import opened Memory
  import opened Machine
  import opened Options

  datatype StepResult = Next(pc: nat) | Exit | Crash

  datatype SimResult = Finished(steps: nat) | WatchdogExpired | Crashed

  ghost function Snapshot(r: array<u32>, p: array<bool>, pc: nat, mem: array<u8>): State
    reads r, p, mem
  {
    State(r[..], p[..], pc, mem[..])
  }

  method WriteWord(mem: array<u8>, addr: nat, v: u32)
    requires InBounds(mem[..], addr, 4)
    modifies mem
    ensures mem[..] == Wr32(old(mem[..]), addr, v)
  {
    mem[addr] := v % 0x100;
    mem[addr + 1] := v / 0x100 % 0x100;
    mem[addr + 2] := v / 0x1_0000 % 0x100;
    mem[addr + 3] := v / 0x100_0000;
  }

  /** One output element of the tile; false when an index is out of range. */
  method WmmaElementInPlace(mem: array<u8>, t: Tile, row: nat, col: nat) returns (ok: bool)
    modifies mem
    ensures ok == WmmaElement(old(mem[..]), t, row, col).Some?
    ensures ok ==> mem[..] == WmmaElement(old(mem[..]), t, row, col).value
  {
    hide Wr32, Rd32;
    var ea := t.C(row, col);
    var acc := 0;
    var k := 0;
    while k < 16
      invariant k <= 16 && Dot(mem[..], t, row, col, k) == Some(acc)
      invariant mem[..] == old(mem[..])
    {
      if t.A(row, k) >= mem.Length || t.B(k, col) >= mem.Length {
        DotFails(mem[..], t, row, col, k + 1, 16);
        return false;
      }
      acc := acc + SignedByte(mem[t.A(row, k)]) * SignedByte(mem[t.B(k, col)]);
      k := k + 1;
    }
    if ea + 4 > mem.Length {
      return false;
    }
    WriteWord(mem, ea, Wrap(Signed(Rd32(mem[..], ea)) + acc));
    ok := true;
  }

  lemma {:induction false} DotFails(mem: Bytes, t: Tile, row: nat, col: nat, m: nat, n: nat)
    requires m <= n && Dot(mem, t, row, col, m).None?
    ensures Dot(mem, t, row, col, n).None?
  {
    if m < n {
      DotFails(mem, t, row, col, m, n - 1);
    }
  }

  lemma {:induction false} WmmaFails(mem: Bytes, t: Tile, m: nat, n: nat)
    requires m <= n && Wmma(mem, t, m).None?
    ensures Wmma(mem, t, n).None?
  {
    if m < n {
      WmmaFails(mem, t, m, n - 1);
    }
  }

  method WmmaInPlace(mem: array<u8>, t: Tile) returns (ok: bool)
    modifies mem
    ensures ok == Wmma(old(mem[..]), t, 256).Some?
    ensures ok ==> mem[..] == Wmma(old(mem[..]), t, 256).value
  {
    hide WmmaElement;
    ghost var mem0 := mem[..];
    var row := 0;
    while row < 16
      invariant row <= 16 && Wmma(mem0, t, row * 16) == Some(mem[..])
    {
      var col := 0;
      while col < 16
        invariant col <= 16 && Wmma(mem0, t, row * 16 + col) == Some(mem[..])
      {
        var done := WmmaElementInPlace(mem, t, row, col);
        assert (row * 16 + col) / 16 == row && (row * 16 + col) % 16 == col;
        if !done {
          WmmaFails(mem0, t, row * 16 + col + 1, 256);
          return false;
        }
        col := col + 1;
      }
      row := row + 1;
    }
    ok := true;
  }

  /** The body of the interpreter loop for one decoded instruction. */
  method ExecuteInPlace(i: Instr, r: array<u32>, p: array<bool>, pc: nat, mem: array<u8>) returns (o: StepResult)
    requires i.Encodable() && r.Length == 64 && p.Length == 4
    modifies r, p, mem
    ensures match Execute(i, old(Snapshot(r, p, pc, mem)))
      case Running(s) => o == Next(s.pc) && Snapshot(r, p, s.pc, mem) == s
      case Exited(m) => o == Exit && mem[..] == m
      case Fault => o == Crash
  {
    hide Wr32, Rd32, Wmma, Alu;
    var a, b := r[i.rs1], OperandB(i, r[..]);
    o := Next(pc + 1);
    if !p[i.pred] {
      return;
    }
    if IsAlu(i.op) {
      r[i.rd] := Alu(i.op, a, b);
    } else if i.op == OP_SETP {
      var cond, dst := i.rd / 4 % 8, i.rd % 4;
      if cond > 5 {
        return Crash;
      }
      if dst != 0 {
        p[dst] := Compare(cond, a, b);
      }
    } else if i.op == OP_LOAD {
      if a as int + b as int + 4 > mem.Length {
        return Crash;
      }
      r[i.rd] := Rd32(mem[..], a as int + b as int);
    } else if i.op == OP_STORE {
      if a as int + b as int + 4 > mem.Length {
        return Crash;
      }
      WriteWord(mem, a as int + b as int, r[i.rd]);
    } else if i.op == OP_BRANCH {
      o := Next(Imm(i));
    } else if i.op == OP_BARRIER {
      if i.IForm? && i.imm == EXIT_IMM {
        return Exit;
      }
    } else if i.op == OP_WMMA && Rs3(i) % 2 == 0 {
      var ok := WmmaInPlace(mem, WmmaTile(i, r[..]));
      if !ok {
        return Crash;
      }
    } else {
      return Crash;
    }
  }

  /** What `simulate` reports, in terms of runs of the machine. */
  ghost predicate Reports(code: seq<Instr>, s: State, maxSteps: nat, r: SimResult, mem: Bytes)
    requires Program(code) && s.Valid()
  {
    match r
    case Finished(steps) =>
      0 < steps <= maxSteps && RunN(code, s, steps - 1).Running? && RunN(code, s, steps) == Exited(mem)
    case WatchdogExpired => RunN(code, s, maxSteps).Running? && RunN(code, s, maxSteps).s.mem == mem
    case Crashed => exists n: nat :: n <= maxSteps && RunN(code, s, n).Fault?
  }

  method Simulate(words: seq<u32>, mem: array<u8>, paramAddr: u32, maxSteps: nat) returns (res: SimResult)
    modifies mem
    ensures Reports(Disassemble(words), Boot(old(mem[..]), paramAddr), maxSteps, res, mem[..])
  {
    hide Execute;
    ghost var code, boot := Disassemble(words), Boot(mem[..], paramAddr);
    var r := new u32[64](k => if k == R_PARAM then paramAddr else 0);
    var p := new bool[4](k => k == 0);
    var pc := 0;
    var steps := 0;
    assert Snapshot(r, p, pc, mem) == boot;
    while steps < maxSteps
      invariant steps <= maxSteps && r.Length == 64 && p.Length == 4 && fresh(r) && fresh(p)
      invariant RunN(code, boot, steps) == Running(Snapshot(r, p, pc, mem))
    {
      ghost var s := Snapshot(r, p, pc, mem);
      RunSplit(code, boot, steps, 1);
      assert RunN(code, boot, steps + 1) == OneStep(code, s);
      steps := steps + 1;
      if pc >= |words| {
        return Crashed;
      }
      var o := ExecuteInPlace(Decode(words[pc]), r, p, pc, mem);
      match o {
        case Next(next) => pc := next;
        case Exit => return Finished(steps);
        case Crash => return Crashed;
      }
    }
    res := WatchdogExpired;
  }

  function OneStep(code: seq<Instr>, s: State): Outcome
    requires Program(code) && s.Valid()
  {
    RunN(code, s, 1)
  }
}
