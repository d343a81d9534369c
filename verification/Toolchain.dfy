/** From the kernel to the memory that `simulate` leaves: code generator, encoder, decoder and machine together. */
module Toolchain {
  import opened Bits
  import opened Isa
  import opened Memory
  import opened Machine
  import opened Kernel
  import opened Assembler
  import opened Simulator
  import opened ScalarBackend
  import opened Options
  import Codegen
  import Preservation

  lemma DecodesTo(words: seq<u32>, code: seq<Instr>)
    requires EncodesTo(words, code)
    ensures Disassemble(words) == code
  {
    forall k | 0 <= k < |code|
      ensures Disassemble(words)[k] == code[k]
    {
      DecodeEncode(code[k]);
    }
  }

  /** Whatever budget of at least n steps `simulate` is given, it finishes after n steps and leaves memory mem'. */
  ghost predicate FinishesIn(words: seq<u32>, s: State, n: nat, mem': Bytes)
    requires s.Valid()
  {
    forall budget: nat, r: SimResult, m: Bytes ::
      budget >= n && Reports(Disassemble(words), s, budget, r, m) ==> r == Finished(n) && m == mem'
  }

  /**
   The words of a compiled well-scoped kernel, executed by `simulate` with a large enough
   step budget, finish, and memory is what the kernel computes.
   */
  lemma CompiledKernelRuns(k: Kernel, words: seq<u32>, mem: Bytes, paramAddr: u32)
    requires WellScoped(k) && Codegen.Compile(k).Some? && EncodesTo(words, Codegen.Compile(k).value)
    requires |mem| <= TWO32 && InBounds(mem, paramAddr, 4 * |k.params|)
    requires RunKernel(k, mem, paramAddr).Some?
    ensures exists n: nat :: FinishesIn(words, Boot(mem, paramAddr), n, RunKernel(k, mem, paramAddr).value)
  {
    hide Codegen.Compile, RunKernel, RunN, Boot, Reports;
    DecodesTo(words, Codegen.Compile(k).value);
    Preservation.CompilationPreservesMeaning(k, mem, paramAddr);
    FinishesAtExit(words, Boot(mem, paramAddr), RunKernel(k, mem, paramAddr).value);
  }

  lemma FinishesAtExit(words: seq<u32>, s: State, mem': Bytes)
    requires s.Valid() && Preservation.ExitsWith(Disassemble(words), s, mem')
    ensures exists n: nat :: FinishesIn(words, s, n, mem')
  {
    var n := FirstExit(Disassemble(words), s, mem');
    forall budget: nat, r: SimResult, m: Bytes | budget >= n && Reports(Disassemble(words), s, budget, r, m)
      ensures r == Finished(n) && m == mem'
    {
      ReportedExit(Disassemble(words), s, n, mem', budget, r, m);
    }
    assert FinishesIn(words, s, n, mem');
  }

  /** The step count at which a run first reaches EXIT. */
  lemma FirstExit(code: seq<Instr>, s: State, mem: Bytes) returns (n: nat)
    requires Program(code) && s.Valid() && Preservation.ExitsWith(code, s, mem)
    ensures RunN(code, s, n) == Exited(mem) && forall m: nat :: m < n ==> RunN(code, s, m).Running?
  {
    n :| RunN(code, s, n) == Exited(mem);
    while exists m: nat :: m < n && !RunN(code, s, m).Running?
      invariant RunN(code, s, n) == Exited(mem)
      decreases n
    {
      var m: nat :| m < n && !RunN(code, s, m).Running?;
      StoppedStays(code, s, m, n);
      n := m;
    }
  }

  lemma ReportedExit(code: seq<Instr>, s: State, n: nat, mem': Bytes, budget: nat, r: SimResult, m: Bytes)
    requires Program(code) && s.Valid() && budget >= n && Reports(code, s, budget, r, m)
    requires RunN(code, s, n) == Exited(mem') && forall j: nat :: j < n ==> RunN(code, s, j).Running?
    ensures r.Finished? && r.steps == n && m == mem'
  {
    StoppedStays(code, s, n, budget);
    match r {
      case Finished(steps) =>
        if steps > n {
          StoppedStays(code, s, n, steps - 1);
        }
      case WatchdogExpired =>
      case Crashed =>
        var j: nat :| j <= budget && RunN(code, s, j).Fault?;
        if j >= n {
          StoppedStays(code, s, n, j);
        }
    }
  }

  /** The scalar path of the tool: compile, then run the words on the simulator. */
  method CompileAndSimulate(k: Kernel, mem: array<u8>, paramAddr: u32, maxSteps: nat) returns (res: Option<SimResult>)
    modifies mem
    ensures res.None? <==> Codegen.Compile(k).None?
    ensures res.Some? ==> Reports(Codegen.Compile(k).value, Boot(old(mem[..]), paramAddr), maxSteps, res.value, mem[..])
  {
    var gen := new ScalarCodegen();
    var words := gen.Compile(k);
    if words.None? {
      return None;
    }
    DecodesTo(words.value, Codegen.Compile(k).value);
    var r := Simulate(words.value, mem, paramAddr, maxSteps);
    res := Some(r);
  }
}
