/**
 The functional GPU model as it runs (driver/titan_x6_gpu_model.c): VRAM, status and the
 command ring in place. A thread is proved to do what module GpuThread says, and the command
 processor to execute the packets of the ring, drain it and retire its fence.
 */
module GpuDevice {
  import opened Bits
  import opened Isa
  import opened Memory
  import opened Machine
  import opened GpuThread
  import opened CommandRing
  import opened Options
  import Simulator

  ghost function ThreadOf(r: array<u32>, p: array<bool>, pc: u32): Thread
    reads r, p
  {
    Thread(r[..], p[..], pc)
  }

  class Gpu {
    const math: HostMath
    const vram: array<u8>
    const ring: array<u64>
    var rptr: nat
    var wptr: nat
    var ctrl: u32
    var error: bool
    var busy: bool
    var fenceSeq: u32
    var intrStatus: u32

    ghost function Dev(): Device
      reads this, vram
    {
      Device(vram[..], error)
    }

    ghost predicate Valid()
      reads this
    {
      ring.Length == RING_QWORDS && rptr < RING_QWORDS && wptr < RING_QWORDS && vram.Length < TWO32
    }

    /** `titan_gpu_create` and `titan_gpu_bind_ring`. */
    constructor (math: HostMath, vramBytes: u32, ring: array<u64>)
      requires ring.Length == RING_QWORDS
      ensures Valid() && this.math == math && this.ring == ring && fresh(vram) && vram.Length == vramBytes
      ensures rptr == 0 && wptr == 0 && ctrl == 0 && !error && !busy && fenceSeq == 0 && intrStatus == 0
    {
      this.math, this.ring := math, ring;
      vram := new u8[vramBytes](_ => 0);
      rptr, wptr, ctrl, error, busy, fenceSeq, intrStatus := 0, 0, 0, false, false, 0, 0;
    }

    /** `vram_ok` */
    method VramOk(addr: u32, len: u32) returns (ok: bool)
      modifies this`error
      ensures ok == (addr as int + len as int <= vram.Length) && error == (old(error) || !ok)
    {
      ok := addr as int + len as int <= vram.Length;
      if !ok {
        error := true;
      }
    }

    /** `vram_rd32` */
    method Read32(addr: u32) returns (v: u32)
      modifies this`error
      ensures VramRead(old(Dev()), addr) == (v, Dev())
    {
      v := 0;
      var ok := VramOk(addr, 4);
      if ok {
        v := Rd32(vram[..], addr);
      }
    }

    /** `vram_wr32` */
    method Write32(addr: u32, v: u32)
      modifies this`error, vram
      ensures VramWrite(old(Dev()), addr, v) == Dev()
    {
      hide Wr32;
      var ok := VramOk(addr, 4);
      if ok {
        Simulator.WriteWord(vram, addr, v);
      }
    }

    /** One output element of `exec_wmma`; stop = true for its early return. */
    method ExecElementInPlace(fp8: bool, t: Tile, row: nat, col: nat) returns (stop: bool)
      modifies this`error, vram
      ensures ExecElement(math, old(Dev()), fp8, t, row, col) == (Dev(), stop)
    {
      hide Wr32, Rd32, AddrA, AddrB, AddrC;
      var ea := AddrC(t, row, col);
      var start := Read32(ea);
      ghost var read := Dev();
      var acc := start;
      for k := 0 to 16
        invariant Accumulate(math, vram[..], fp8, t, row, col, start, k) == (acc, false)
        invariant Dev() == read
      {
        var a, b := AddrA(t, row, k), AddrB(t, k, col);
        var okA := VramOk(a, 1);
        var okB := true;
        if okA {
          okB := VramOk(b, 1);
        }
        if !okA || !okB {
          StopsAt(math, vram[..], fp8, t, row, col, start, k + 1, 16);
          return true;
        }
        acc := if fp8 then math.fp8Mac(acc, vram[a], vram[b]) else Wrap(acc + SignedByte(vram[a]) * SignedByte(vram[b]));
      }
      Write32(ea, acc);
      stop := false;
    }

    /** `exec_wmma` */
    method ExecWmmaInPlace(fp8: bool, t: Tile)
      modifies this`error, vram
      ensures Dev() == ExecWmma(math, old(Dev()), fp8, t, 256).0
    {
      hide ExecElement;
      ghost var d := Dev();
      for row := 0 to 16
        invariant ExecWmma(math, d, fp8, t, row * 16) == (Dev(), false)
      {
        for col := 0 to 16
          invariant ExecWmma(math, d, fp8, t, row * 16 + col) == (Dev(), false)
        {
          var stop := ExecElementInPlace(fp8, t, row, col);
          assert (row * 16 + col) / 16 == row && (row * 16 + col) % 16 == col;
          if stop {
            StaysStopped(math, d, fp8, t, row * 16 + col + 1, 256);
            return;
          }
        }
      }
    }

    /** The arithmetic cases of the switch. */
    function Arithmetic(i: Instr, r: seq<u32>): u32
      requires i.Encodable() && |r| == 64 && IsRegisterOp(i.op)
    {
      var a, b, c := r[i.rs1], OperandB(i, r), r[Rs3(i)];
      if IsAlu(i.op) then CAlu(i.op, a, b)
      else if IsHostFloat(i.op) then math.op(i.op, a, b, if i.op == 20 then Rs3(i) else c)
      else IntegerOp(i.op, a, b, c)
    }

    /** The switch on the opcode, for one instruction that is not predicated off. */
    method Dispatch(i: Instr, r: array<u32>, p: array<bool>, pc: u32) returns (retired: bool, nextPc: u32)
      requires i.Encodable() && r.Length == 64 && p.Length == 4 && p[i.pred]
      modifies this`error, vram, r, p
      ensures match Switch(math, i, old(ThreadOf(r, p, pc)), old(Dev()))
        case Retired => retired && Dev() == old(Dev())
        case Effect(t, d) => !retired && ThreadOf(r, p, nextPc) == t && Dev() == d
    {
      hide Wr32, Rd32, ExecWmma, CAlu, IntegerOp, VramRead, VramWrite, Wrap, CCompare;
      var a, b := r[i.rs1], OperandB(i, r[..]);
      retired, nextPc := false, Wrap(pc + 1);
      if IsRegisterOp(i.op) {
        r[i.rd] := Arithmetic(i, r[..]);
      } else if i.op == OP_SETP {
        var dst := i.rd % 4;
        if dst != 0 {
          p[dst] := CCompare(i.rd / 4 % 8, a, b);
        }
      } else if i.op == OP_LOAD {
        r[i.rd] := Read32(Wrap(a as int + b as int));
      } else if i.op == OP_STORE {
        Write32(Wrap(a as int + b as int), r[i.rd]);
      } else if i.op == OP_BRANCH {
        nextPc := Imm(i);
      } else if i.op == OP_BARRIER {
        retired := i.IForm? && i.imm == EXIT_IMM;
      } else if i.op == OP_WMMA {
        ExecWmmaInPlace(Rs3(i) % 2 == 1, WmmaTile(i, r[..]));
      } else if i.op == OP_ATOM_ADD {
        var old_ := Read32(a);
        Write32(a, Wrap(old_ as int + b as int));
        r[i.rd] := old_;
      } else {
        var old_ := Read32(a);
        if old_ == r[Rs2(i)] {
          Write32(a, r[Rs3(i)]);
        }
        r[i.rd] := old_;
      }
    }

    /** `exec_thread`: until EXIT, a fault or the watchdog. */
    method ExecThread(codeAddr: u32, paramAddr: u32, tid: u32, nthreads: u32) returns (ok: bool)
      modifies this`error, vram
      ensures ThreadEnd(ok, Dev()) == RunThread(math, codeAddr, StartThread(paramAddr, tid, nthreads), old(Dev()), MAX_STEPS)
    {
      hide Switch, Decode, VramRead;
      ghost var t0, d0 := StartThread(paramAddr, tid, nthreads), Dev();
      var r := new u32[64](k => if k == R_PARAM then paramAddr else if k == R_TID then tid else if k == R_NTHREADS then nthreads else 0);
      var p := new bool[4](k => k == 0);
      var pc: u32, steps := 0, 0;
      assert ThreadOf(r, p, pc) == t0;
      while true
        invariant steps <= MAX_STEPS && fresh(r) && fresh(p) && r.Length == 64 && p.Length == 4
        invariant RunThread(math, codeAddr, t0, d0, MAX_STEPS) == RunThread(math, codeAddr, ThreadOf(r, p, pc), Dev(), MAX_STEPS - steps)
        decreases MAX_STEPS - steps
      {
        if steps == MAX_STEPS {
          error := true;
          return false;
        }
        steps := steps + 1;
        var inst := Read32(Wrap(codeAddr as int + pc as int * 4));
        if error {
          return false;
        }
        var i := Decode(inst);
        if !p[i.pred] {
          PredicatedOff(math, i, ThreadOf(r, p, pc), Dev());
          pc := Wrap(pc as int + 1);
        } else {
          var retired, next := Dispatch(i, r, p, pc);
          if retired {
            return true;
          }
          if error {
            return false;
          }
          pc := next;
        }
      }
    }

    ghost function Proc(): Processor
      reads this, vram
    {
      Processor(Dev(), fenceSeq, intrStatus)
    }

    /** `ring_pop` */
    method Pop() returns (q: u64)
      requires Valid() && rptr != wptr
      modifies this`rptr
      ensures Valid() && Pending(ring[..], old(rptr), wptr) == [q] + Pending(ring[..], rptr, wptr)
    {
      PendingRead(ring[..], rptr, wptr);
      q := ring[rptr];
      rptr := Succ(rptr);
    }

    /** The threads of a dispatch packet. */
    method DispatchThreads(codeAddr: u32, paramAddr: u32, n: u32)
      modifies this`error, vram
      ensures Dev() == RunThreads(math, codeAddr, paramAddr, 0, n, old(Dev()))
    {
      hide RunThread;
      ghost var d := Dev();
      var t: u32 := 0;
      while t < n
        invariant t <= n && RunThreads(math, codeAddr, paramAddr, t, n, Dev()) == RunThreads(math, codeAddr, paramAddr, 0, n, d)
      {
        var ok := ExecThread(codeAddr, paramAddr, t, n);
        if !ok {
          return;
        }
        t := t + 1;
      }
    }

    method Copy(src: u32, dst: u32, len: u32)
      modifies this`error, vram
      ensures Dev() == if src + len <= vram.Length && dst + len <= vram.Length
                       then old(Dev()).(vram := Moved(old(vram[..]), src, dst, len)) else old(Dev()).(error := true)
    {
      var ok := VramOk(src, len);
      if ok {
        ok := VramOk(dst, len);
      }
      if ok {
        ghost var before := vram[..];
        forall k | 0 <= k < len {
          vram[dst + k] := vram[src + k];
        }
        assert vram[..] == Moved(before, src, dst, len);
      }
    }

    /** One turn of the command processor's loop: pops a packet and executes it. */
    method ProcessPacket()
      requires Valid() && rptr != wptr && Parse(Pending(ring[..], rptr, wptr)).Some?
      requires Fits(Parse(Pending(ring[..], rptr, wptr)).value[0])
      modifies this`rptr, this`error, this`fenceSeq, this`intrStatus, vram
      ensures Valid()
      ensures var words := old(Pending(ring[..], rptr, wptr));
        && words != [] && Length(words[0]).Some? && Length(words[0]).value <= |words|
        && Pending(ring[..], rptr, wptr) == words[Length(words[0]).value..]
        && Proc() == Perform(math, First(words), old(Proc()))
    {
      hide Pending, RunThreads, Moved, Parse;
      ghost var words := Pending(ring[..], rptr, wptr);
      FirstPacket(words);
      var hdr := Pop();
      var op := hdr % 0x100;
      if op == CMD_DISPATCH {
        var q1 := Pop();
        var q2 := Pop();
        assert words == [hdr, q1, q2] + Pending(ring[..], rptr, wptr);
        var nthreads := High32(q2);
        DispatchThreads(Low32(q1), Low32(q2), if nthreads == 0 then 1 else nthreads);
      } else if op == CMD_DMA {
        var src := Pop();
        var dst := Pop();
        var len := Pop();
        assert words == [hdr, src, dst, len] + Pending(ring[..], rptr, wptr);
        Copy(Low32(src), Low32(dst), Low32(len));
      } else if op == CMD_FENCE {
        fenceSeq := Low32(hdr / 0x100);
        intrStatus := WithBit0(intrStatus);
      }
    }

    /** `process_ring`: drains a ring whose pending words divide into packets, executing them in order. */
    method ProcessRing()
      requires Valid() && Parse(Pending(ring[..], rptr, wptr)).Some?
      requires forall p <- Parse(Pending(ring[..], rptr, wptr)).value :: Fits(p)
      modifies this`rptr, this`busy, this`error, this`fenceSeq, this`intrStatus, vram
      ensures Valid()
      ensures ctrl % 2 == 0 ==> rptr == old(rptr) && Proc() == old(Proc())
      ensures ctrl % 2 == 1 ==> rptr == wptr && !busy
      ensures ctrl % 2 == 1 ==> Proc() == ExecuteAll(math, Parse(old(Pending(ring[..], rptr, wptr))).value, old(Proc()))
    {
      hide Pending, Perform, Fits;
      if ctrl % 2 == 0 {
        return;
      }
      busy := true;
      ghost var words, start := Pending(ring[..], rptr, wptr), Proc();
      while rptr != wptr
        invariant Valid() && Parse(Pending(ring[..], rptr, wptr)).Some?
        invariant forall p <- Parse(Pending(ring[..], rptr, wptr)).value :: Fits(p)
        invariant ExecuteAll(math, Parse(Pending(ring[..], rptr, wptr)).value, Proc()) == ExecuteAll(math, Parse(words).value, start)
        decreases |Pending(ring[..], rptr, wptr)|
      {
        FirstPacket(Pending(ring[..], rptr, wptr));
        ProcessPacket();
      }
      busy := false;
    }

    /** A write of the doorbell register: the ring is processed up to the new write pointer. */
    method Doorbell(value: u32)
      requires Valid()
      requires Parse(Pending(ring[..], rptr, value % RING_QWORDS)).Some?
      requires forall p <- Parse(Pending(ring[..], rptr, value % RING_QWORDS)).value :: Fits(p)
      modifies this`rptr, this`wptr, this`busy, this`error, this`fenceSeq, this`intrStatus, vram
      ensures Valid() && wptr == value % RING_QWORDS
      ensures ctrl % 2 == 0 ==> rptr == old(rptr) && Proc() == old(Proc())
      ensures ctrl % 2 == 1 ==> rptr == wptr && !busy
      ensures ctrl % 2 == 1 ==>
        Proc() == ExecuteAll(math, Parse(old(Pending(ring[..], rptr, value % RING_QWORDS))).value, old(Proc()))
    {
      hide Pending, Parse, Fits;
      wptr := value % RING_QWORDS;
      ProcessRing();
    }

    /** A write of the interrupt register's bit 0 clears it. */
    method AcknowledgeFence()
      modifies this`intrStatus
      ensures intrStatus == old(intrStatus) - old(intrStatus) % 2
    {
      intrStatus := intrStatus - intrStatus % 2;
    }

    /** A write of the control register. */
    method SetControl(value: u32)
      modifies this`ctrl
      ensures ctrl == value
    {
      ctrl := value;
    }
  }

  lemma FirstPacket(words: seq<u64>)
    requires Parse(words).Some? && words != []
    ensures Length(words[0]).Some? && Length(words[0]).value <= |words|
    ensures Parse(words).value == [First(words)] + Parse(words[Length(words[0]).value..]).value
  {}

  lemma PredicatedOff(m: HostMath, i: Instr, t: Thread, d: Device)
    requires i.Encodable() && t.Valid() && !t.p[i.pred]
    ensures Switch(m, i, t, d) == Effect(Advance(t), d)
  {}

  predicate IsRegisterOp(op: nat) {
    IsAlu(op) || IsHostFloat(op) || op in {OP_MULHI, OP_SLT, OP_SLTU, OP_MIN, OP_MAX, OP_FMA}
  }

  lemma {:induction false} StopsAt(m: HostMath, vram: Bytes, fp8: bool, t: Tile, row: nat, col: nat, start: u32, k: nat, n: nat)
    requires k <= n && Accumulate(m, vram, fp8, t, row, col, start, k).1
    ensures Accumulate(m, vram, fp8, t, row, col, start, n).1
    decreases n
  {
    if k < n {
      StopsAt(m, vram, fp8, t, row, col, start, k, n - 1);
    }
  }

  lemma {:induction false} StaysStopped(m: HostMath, d: Device, fp8: bool, t: Tile, k: nat, n: nat)
    requires k <= n && ExecWmma(m, d, fp8, t, k).1
    ensures ExecWmma(m, d, fp8, t, n) == ExecWmma(m, d, fp8, t, k)
    decreases n
  {
    hide ExecElement;
    if k < n {
      StaysStopped(m, d, fp8, t, k, n - 1);
    }
  }
}
