/**
 Programs that store nothing into their own code: a run that holds the bytes of the code
 keeps the code in place, so the GPU model executes it as the simulator does, to the end or
 to the watchdog.
 */
module CodeIntact {
  import opened Bits
  import opened Isa
  import opened Memory
  import opened Machine
  import opened Agreement
  import opened GpuThread
  import Preservation

  /** The bytes of the code. */
  function CodeRegion(mem: Bytes, codeAddr: u32, words: seq<u32>): (keep: Region)
    requires CodeInMemory(mem, codeAddr, words)
    ensures keep.Holds(mem)
  {
    Region(codeAddr, mem[codeAddr..codeAddr + 4 * |words|])
  }

  lemma HoldsCode(mem: Bytes, codeAddr: u32, words: seq<u32>, mem': Bytes)
    requires CodeInMemory(mem, codeAddr, words) && CodeRegion(mem, codeAddr, words).Holds(mem')
    ensures CodeInMemory(mem', codeAddr, words)
  {
    var keep := CodeRegion(mem, codeAddr, words);
    forall k | 0 <= k < |words|
      ensures Rd32(mem', codeAddr + 4 * k) == words[k]
    {
      assert Rd32(mem, codeAddr + 4 * k) == words[k];
      assert forall a {:trigger mem'[a]} :: codeAddr <= a < codeAddr + 4 * |words| ==> mem'[a] == keep.bytes[a - codeAddr] == mem[a];
    }
  }

  lemma KeepsNext(code: seq<Instr>, keep: Region, s: State, n: nat)
    requires Program(code) && s.Valid() && n > 0 && Step(code, s).Running? && Preservation.KeepsFor(code, keep, s, n)
    ensures Preservation.KeepsFor(code, keep, Step(code, s).s, n - 1)
  {
    hide Step;
    forall k: nat | k <= n - 1 && RunN(code, Step(code, s).s, k).Running?
      ensures keep.Holds(RunN(code, Step(code, s).s, k).s.mem)
    {
      assert RunN(code, s, k + 1) == RunN(code, Step(code, s).s, k);
    }
  }

  /** Memory that holds the bytes of the code for n steps holds the code for n steps. */
  lemma {:induction false} KeptForSteps(words: seq<u32>, codeAddr: u32, mem: Bytes, s: State, n: nat)
    requires s.Valid() && CodeInMemory(mem, codeAddr, words)
    requires Preservation.KeepsFor(Disassemble(words), CodeRegion(mem, codeAddr, words), s, n)
    ensures CodeKept(words, codeAddr, s, n)
    decreases n
  {
    hide Step, CodeInMemory, CodeRegion;
    assert RunN(Disassemble(words), s, 0) == Machine.Running(s);
    HoldsCode(mem, codeAddr, words, s.mem);
    if n > 0 && Step(Disassemble(words), s).Running? {
      KeepsNext(Disassemble(words), CodeRegion(mem, codeAddr, words), s, n);
      KeptForSteps(words, codeAddr, mem, Step(Disassemble(words), s).s, n - 1);
    }
  }

  /** A run that has held a region to its end holds it however long one watches. */
  lemma KeepsForever(code: seq<Instr>, keep: Region, s: State, n: nat, n': nat)
    requires Program(code) && s.Valid() && !RunN(code, s, n).Running? && Preservation.KeepsFor(code, keep, s, n)
    ensures Preservation.KeepsFor(code, keep, s, n')
  {
    forall k: nat | k <= n' && RunN(code, s, k).Running?
      ensures keep.Holds(RunN(code, s, k).s.mem)
    {
      if k > n {
        StoppedStays(code, s, n, k);
      }
    }
  }

  /**
   A program whose simulator run exits with memory mem', holding the code on the way: a
   thread on the GPU model leaves mem' when the run takes no more steps than the watchdog
   allows, and is stopped with an error when it takes more.
   */
  lemma ThreadOutcome(m: HostMath, words: seq<u32>, codeAddr: u32, mem: Bytes, paramAddr: u32, tid: u32, nthreads: u32,
                      fuel: nat, mem': Bytes)
    requires |mem| < TWO32 && CodeInMemory(mem, codeAddr, words)
    requires forall k :: 0 <= k < |words| ==> ReadsShared(Decode(words[k]))
    requires Preservation.Ends(Disassemble(words), CodeRegion(mem, codeAddr, words), Boot(mem, paramAddr), mem')
    ensures var e := RunThread(m, codeAddr, StartThread(paramAddr, tid, nthreads), Device(mem, false), fuel);
      if RunN(Disassemble(words), Boot(mem, paramAddr), fuel).Running? then !e.ok && e.d.error
      else e == ThreadEnd(true, Device(mem', false))
  {
    hide RunN, RunThread, CodeKept, Decode, CodeInMemory, CodeRegion, ReadsShared, Preservation.KeepsFor;
    var code, keep, s, t := Disassemble(words), CodeRegion(mem, codeAddr, words), Boot(mem, paramAddr), StartThread(paramAddr, tid, nthreads);
    var n: nat :| RunN(code, s, n) == Exited(mem') && Preservation.KeepsFor(code, keep, s, n);
    KeepsForever(code, keep, s, n, fuel);
    KeptForSteps(words, codeAddr, mem, s, fuel);
    if RunN(code, s, fuel).Running? {
      WatchdogAgrees(m, words, codeAddr, s, t, Device(mem, false), fuel);
    } else {
      if n <= fuel {
        StoppedStays(code, s, n, fuel);
      } else {
        StoppedStays(code, s, fuel, n);
      }
      RunsAgree(m, words, codeAddr, s, t, Device(mem, false), fuel, mem', fuel);
    }
  }
}
