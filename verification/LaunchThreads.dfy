/**
 What the threads of a dispatch have in their registers (driver/titan_x6_gpu_model.c): thread
 t of n starts at instruction 0 with its number t in r62 and n in r61. Shown on a program
 that stores n + t in element t of an array: after the dispatch of n threads all n elements
 hold their sums, and nothing else has changed.
 */
module LaunchThreads {
  import opened Bits
  import opened Isa
  import opened Memory
  import opened Machine
  import opened GpuThread
  import opened CommandRing
  import opened Agreement

  /** The registers of thread t of n. */
  lemma StartRegisters(paramAddr: u32, t: u32, n: u32)
    ensures var th := StartThread(paramAddr, t, n);
      && th.pc == 0 && th.p == [true, false, false, false] && |th.r| == 64
      && th.r[62] == t && th.r[61] == n && th.r[1] == paramAddr
      && forall q :: 0 <= q < 64 && q !in {1, 61, 62} ==> th.r[q] == 0
  {}

  /** out[t] = n + t, for the array whose address is the only parameter. */
  function NumberCode(): (code: seq<Instr>)
    ensures |code| == 5
  {
    [IForm(OP_LOAD, 2, R_PARAM, 0, 0),
     IForm(OP_SHL, 3, R_TID, 2, 0),
     RForm(OP_ADD, 4, R_NTHREADS, R_TID, 0, 0),
     RForm(OP_STORE, 4, 2, 3, 0, 0),
     IForm(OP_BARRIER, 0, 0, EXIT_IMM, 0)]
  }

  /** Code and parameter are in place, and the array of n words is in bounds and apart from both. */
  predicate Placed(mem: Bytes, codeAddr: u32, words: seq<u32>, paramAddr: u32, out: nat, n: nat) {
    && |words| == 5 && Disassemble(words) == NumberCode() && |mem| < TWO32
    && CodeInMemory(mem, codeAddr, words) && InBounds(mem, paramAddr, 4) && Rd32(mem, paramAddr) == out
    && out + 4 * n <= |mem|
    && (out + 4 * n <= codeAddr || codeAddr + 20 <= out) && (out + 4 * n <= paramAddr || paramAddr + 4 <= out)
  }

  /** One turn of the interpreter loop. */
  lemma Turn(m: HostMath, codeAddr: u32, words: seq<u32>, t: Thread, t': Thread, d: Device, d': Device, fuel: nat)
    requires t.Valid() && t'.Valid() && !d.error && !d'.error && |d.vram| < TWO32 && CodeInMemory(d.vram, codeAddr, words)
    requires t.pc < |words| && fuel > 0 && Switch(m, Decode(words[t.pc]), t, d) == Effect(t', d')
    ensures RunThread(m, codeAddr, t, d, fuel) == RunThread(m, codeAddr, t', d', fuel - 1)
  {
    hide Switch, Decode, CodeInMemory;
    FetchAgrees(d.vram, codeAddr, words, t.pc);
  }

  lemma LastTurn(m: HostMath, codeAddr: u32, words: seq<u32>, t: Thread, d: Device, fuel: nat)
    requires t.Valid() && !d.error && |d.vram| < TWO32 && CodeInMemory(d.vram, codeAddr, words)
    requires t.pc < |words| && fuel > 0 && Switch(m, Decode(words[t.pc]), t, d) == Retired
    ensures RunThread(m, codeAddr, t, d, fuel) == ThreadEnd(true, d)
  {
    hide Switch, Decode, CodeInMemory;
    FetchAgrees(d.vram, codeAddr, words, t.pc);
  }

  lemma CodeOfWords(words: seq<u32>)
    requires |words| == 5 && Disassemble(words) == NumberCode()
    ensures Decode(words[0]) == IForm(OP_LOAD, 2, R_PARAM, 0, 0) && Decode(words[1]) == IForm(OP_SHL, 3, R_TID, 2, 0)
    ensures Decode(words[2]) == RForm(OP_ADD, 4, R_NTHREADS, R_TID, 0, 0) && Decode(words[3]) == RForm(OP_STORE, 4, 2, 3, 0, 0)
    ensures Decode(words[4]) == IForm(OP_BARRIER, 0, 0, EXIT_IMM, 0)
  {
    hide Decode;
    assert Disassemble(words)[0] == Decode(words[0]) && Disassemble(words)[1] == Decode(words[1]) && Disassemble(words)[2] == Decode(words[2]);
    assert Disassemble(words)[3] == Decode(words[3]) && Disassemble(words)[4] == Decode(words[4]);
  }

  // --- the five instructions ---

  lemma LoadTurn(m: HostMath, t: Thread, d: Device)
    requires t.Valid() && t.p[0] && t.pc == 0 && InBounds(d.vram, t.r[1], 4) && |d.vram| < TWO32
    ensures Switch(m, IForm(OP_LOAD, 2, R_PARAM, 0, 0), t, d) == Effect(t.(r := t.r[2 := Rd32(d.vram, t.r[1])], pc := 1), d)
  {
    hide Rd32;
    WrapSmall(t.r[1]);
    assert Wrap(t.r[1] + 0) == t.r[1];
  }

  lemma ShiftTurn(m: HostMath, t: Thread, d: Device)
    requires t.Valid() && t.p[0] && t.pc == 1 && 4 * t.r[62] < TWO32
    ensures Switch(m, IForm(OP_SHL, 3, R_TID, 2, 0), t, d) == Effect(t.(r := t.r[3 := 4 * t.r[62]], pc := 2), d)
  {
    assert Pow2(2) == 4;
    WrapSmall(t.r[62] * 4);
  }

  lemma AddTurn(m: HostMath, t: Thread, d: Device)
    requires t.Valid() && t.p[0] && t.pc == 2
    ensures Switch(m, RForm(OP_ADD, 4, R_NTHREADS, R_TID, 0, 0), t, d) == Effect(t.(r := t.r[4 := Wrap(t.r[61] as int + t.r[62] as int)], pc := 3), d)
  {}

  lemma StoreTurn(m: HostMath, t: Thread, d: Device)
    requires t.Valid() && t.p[0] && t.pc == 3 && t.r[2] + t.r[3] + 4 <= |d.vram| < TWO32
    ensures Switch(m, RForm(OP_STORE, 4, 2, 3, 0, 0), t, d)
         == Effect(t.(pc := 4), d.(vram := Wr32(d.vram, t.r[2] as int + t.r[3] as int, t.r[4])))
  {
    hide Wr32;
    WrapSmall(t.r[2] as int + t.r[3] as int);
  }

  lemma ExitTurn(m: HostMath, t: Thread, d: Device)
    requires t.Valid() && t.p[0]
    ensures Switch(m, IForm(OP_BARRIER, 0, 0, EXIT_IMM, 0), t, d) == Retired
  {}

  /** Thread t stores the sum of what it finds in r61 and r62, in its own element. */
  lemma ThreadNumbers(m: HostMath, mem: Bytes, codeAddr: u32, words: seq<u32>, paramAddr: u32, out: nat, t: u32, n: u32)
    requires Placed(mem, codeAddr, words, paramAddr, out, n) && t < n
    ensures RunThread(m, codeAddr, StartThread(paramAddr, t, n), Device(mem, false), MAX_STEPS)
         == ThreadEnd(true, Device(Wr32(mem, out + 4 * t, Wrap(n + t)), false))
  {
    hide Switch, RunThread, StartThread, Decode, Rd32, Wr32, Disassemble;
    var d := Device(mem, false);
    var t0 := StartThread(paramAddr, t, n);
    StartRegisters(paramAddr, t, n);
    CodeOfWords(words);
    LoadTurn(m, t0, d);
    var t1 := t0.(r := t0.r[2 := Rd32(mem, paramAddr)], pc := 1);
    Turn(m, codeAddr, words, t0, t1, d, d, MAX_STEPS);
    ShiftTurn(m, t1, d);
    var t2 := t1.(r := t1.r[3 := 4 * t], pc := 2);
    Turn(m, codeAddr, words, t1, t2, d, d, MAX_STEPS - 1);
    AddTurn(m, t2, d);
    var t3 := t2.(r := t2.r[4 := Wrap(n + t)], pc := 3);
    Turn(m, codeAddr, words, t2, t3, d, d, MAX_STEPS - 2);
    StoreTurn(m, t3, d);
    var t4, d4 := t3.(pc := 4), d.(vram := Wr32(mem, out + 4 * t, Wrap(n + t)));
    Turn(m, codeAddr, words, t3, t4, d, d4, MAX_STEPS - 3);
    ExitTurn(m, t4, d4);
    CodeStays(mem, codeAddr, words, out + 4 * t, Wrap(n + t));
    LastTurn(m, codeAddr, words, t4, d4, MAX_STEPS - 4);
  }

  lemma CodeStays(mem: Bytes, codeAddr: u32, words: seq<u32>, addr: nat, v: u32)
    requires CodeInMemory(mem, codeAddr, words) && InBounds(mem, addr, 4)
    requires addr + 4 <= codeAddr || codeAddr + 4 * |words| <= addr
    ensures CodeInMemory(Wr32(mem, addr, v), codeAddr, words)
  {
    hide Rd32, Wr32;
    forall k | 0 <= k < |words|
      ensures Rd32(Wr32(mem, addr, v), codeAddr + 4 * k) == words[k]
    {
      RdAfterWrElsewhere(mem, addr, v, codeAddr + 4 * k);
    }
  }

  // --- all threads ---

  /** The first k elements hold their sums, and nothing outside the array has changed. */
  predicate Numbered(before: Bytes, mem: Bytes, out: nat, n: u32, k: nat) {
    && |mem| == |before| && k <= n && out + 4 * n <= |before|
    && (forall t: nat :: t < k ==> Rd32(mem, out + 4 * t) == Wrap(n + t))
    && forall a: nat :: a < |before| && !(out <= a < out + 4 * n) ==> mem[a] == before[a]
  }

  lemma OneNumbered(before: Bytes, mem: Bytes, out: nat, n: u32, k: nat)
    requires Numbered(before, mem, out, n, k) && k < n
    ensures Numbered(before, Wr32(mem, out + 4 * k, Wrap(n + k)), out, n, k + 1)
  {
    hide Rd32, Wr32, Wrap;
    var mem' := Wr32(mem, out + 4 * k, Wrap(n + k));
    forall t: nat | t < k + 1
      ensures Rd32(mem', out + 4 * t) == Wrap(n + t)
    {
      if t < k {
        RdAfterWrElsewhere(mem, out + 4 * k, Wrap(n + k), out + 4 * t);
      }
    }
  }

  lemma StillPlaced(mem: Bytes, codeAddr: u32, words: seq<u32>, paramAddr: u32, out: nat, n: nat, k: nat, v: u32)
    requires Placed(mem, codeAddr, words, paramAddr, out, n) && k < n
    ensures Placed(Wr32(mem, out + 4 * k, v), codeAddr, words, paramAddr, out, n)
  {
    hide Rd32, Wr32, Disassemble, CodeInMemory;
    CodeStays(mem, codeAddr, words, out + 4 * k, v);
    RdAfterWrElsewhere(mem, out + 4 * k, v, paramAddr);
  }

  lemma {:induction false} ThreadsNumber(m: HostMath, before: Bytes, mem: Bytes, codeAddr: u32, words: seq<u32>, paramAddr: u32, out: nat, k: u32, n: u32)
    requires Placed(mem, codeAddr, words, paramAddr, out, n) && k <= n && Numbered(before, mem, out, n, k)
    ensures var d := RunThreads(m, codeAddr, paramAddr, k, n, Device(mem, false)); !d.error && Numbered(before, d.vram, out, n, n)
    decreases n - k
  {
    hide Placed, Numbered, RunThread, StartThread, Wr32;
    if k < n {
      PlacedBound(mem, codeAddr, words, paramAddr, out, n);
      ThreadNumbers(m, mem, codeAddr, words, paramAddr, out, k, n);
      OneNumbered(before, mem, out, n, k);
      StillPlaced(mem, codeAddr, words, paramAddr, out, n, k, Wrap(n + k));
      ThreadsNumber(m, before, Wr32(mem, out + 4 * k, Wrap(n + k)), codeAddr, words, paramAddr, out, k + 1, n);
    }
  }

  lemma PlacedBound(mem: Bytes, codeAddr: u32, words: seq<u32>, paramAddr: u32, out: nat, n: nat)
    requires Placed(mem, codeAddr, words, paramAddr, out, n)
    ensures out + 4 * n <= |mem|
  {}

  /** Main result: after the dispatch, element t of the array holds n + t for every t below n, and no other byte has changed. */
  lemma DispatchNumbers(m: HostMath, mem: Bytes, codeAddr: u32, words: seq<u32>, paramAddr: u32, out: nat, n: u32)
    requires Placed(mem, codeAddr, words, paramAddr, out, n)
    ensures var d := RunThreads(m, codeAddr, paramAddr, 0, n, Device(mem, false));
      && !d.error && |d.vram| == |mem| && out + 4 * n <= |mem|
      && (forall t: nat :: t < n ==> Rd32(d.vram, out + 4 * t) == Wrap(n + t))
      && forall a: nat :: a < |mem| && !(out <= a < out + 4 * n) ==> d.vram[a] == mem[a]
  {
    hide RunThreads;
    ThreadsNumber(m, mem, mem, codeAddr, words, paramAddr, out, 0, n);
  }

  /** A packet for no threads runs one, and a packet for n threads runs threads 0 to n - 1. */
  lemma PacketThreads(m: HostMath, codeAddr: u32, paramAddr: u32, s: Processor)
    ensures Perform(m, Dispatch(codeAddr, paramAddr, 0), s) == Perform(m, Dispatch(codeAddr, paramAddr, 1), s)
    ensures forall n: u32 :: n > 0 ==> Perform(m, Dispatch(codeAddr, paramAddr, n), s).d == RunThreads(m, codeAddr, paramAddr, 0, n, s.d)
  {}

  // --- failing threads ---

  /** A thread that does not come to EXIT leaves the error bit set, and one that does leaves it clear. */
  lemma {:induction false} FailureLatched(m: HostMath, codeAddr: u32, t: Thread, d: Device, fuel: nat)
    requires t.Valid() && !d.error
    ensures var e := RunThread(m, codeAddr, t, d, fuel); e.d.error <==> !e.ok
    decreases fuel
  {
    hide Switch, Decode;
    if fuel > 0 {
      var (inst, d1) := Fetch(d, codeAddr, t.pc);
      if !d1.error {
        match Switch(m, Decode(inst), t, d1) {
          case Retired =>
          case Effect(t', d') =>
            if !d'.error {
              FailureLatched(m, codeAddr, t', d', fuel - 1);
            }
        }
      }
    }
  }

  /** What threads k, k + 1, ..., t - 1 leave when all of them retire. */
  ghost predicate AllRetire(m: HostMath, codeAddr: u32, paramAddr: u32, k: u32, t: u32, n: u32, d: Device, d': Device)
    requires k <= t <= n
    decreases t - k
  {
    if k == t then d' == d
    else
      var e := RunThread(m, codeAddr, StartThread(paramAddr, k, n), d, MAX_STEPS);
      e.ok && AllRetire(m, codeAddr, paramAddr, k + 1, t, n, e.d, d')
  }

  /** A dispatch stops at the first thread that fails: the threads after it do not run, and the error bit is set. */
  lemma {:induction false} StopsAtFailure(m: HostMath, codeAddr: u32, paramAddr: u32, k: u32, t: u32, n: u32, d: Device, d': Device)
    requires k <= t < n && !d.error && AllRetire(m, codeAddr, paramAddr, k, t, n, d, d')
    requires !RunThread(m, codeAddr, StartThread(paramAddr, t, n), d', MAX_STEPS).ok
    ensures RunThreads(m, codeAddr, paramAddr, k, n, d) == RunThread(m, codeAddr, StartThread(paramAddr, t, n), d', MAX_STEPS).d
    ensures RunThreads(m, codeAddr, paramAddr, k, n, d).error
    decreases t - k
  {
    hide RunThread, StartThread;
    var e := RunThread(m, codeAddr, StartThread(paramAddr, k, n), d, MAX_STEPS);
    FailureLatched(m, codeAddr, StartThread(paramAddr, k, n), d, MAX_STEPS);
    if k < t {
      StopsAtFailure(m, codeAddr, paramAddr, k + 1, t, n, e.d, d');
    }
  }
}
