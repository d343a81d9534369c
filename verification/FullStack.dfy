/**
 The whole stack: a kernel compiled by either backend, loaded and launched through the
 runtime, the driver, the command ring and the GPU model, leaves in device memory what the
 kernel means.
 */
module FullStack {
  import opened Bits
  import opened Memory
  import opened Machine
  import opened Kernel
  import opened GpuThread
  import opened CommandRing
  import opened Agreement
  import opened VramTable
  import opened Options
  import Assembler
  import Isa
  import Codegen
  import CodeShape
  import Runtime
  import ScalarBackend
  import Toolchain

  /** What a launch found in place: the addresses of code and parameters, and memory as the thread starts. */
  datatype Launch = Launch(codeAddr: u32, block: u32, mem: Bytes)

  // --- words in memory ---

  function LittleEndian(w: u32): (bytes: Bytes)
    ensures |bytes| == 4
  {
    [w % 0x100, w / 0x100 % 0x100, w / 0x1_0000 % 0x100, w / 0x100_0000]
  }

  lemma FirstRead(w: u32, rest: Bytes)
    ensures Rd32(LittleEndian(w) + rest, 0) == w
  {
    BytesOfWord(w);
  }

  lemma {:induction false} WordBytesRead(words: seq<u32>, i: nat)
    requires i < |words|
    ensures Rd32(Runtime.WordBytes(words), 4 * i) == words[i]
  {
    hide Rd32;
    var rest := Runtime.WordBytes(words[1..]);
    FirstRead(words[0], rest);
    if i > 0 {
      WordBytesRead(words[1..], i - 1);
      AppendedRead(LittleEndian(words[0]), rest, 4 * (i - 1));
    }
  }

  lemma AppendedRead(front: Bytes, rest: Bytes, k: nat)
    requires k + 4 <= |rest|
    ensures Rd32(front + rest, |front| + k) == Rd32(rest, k)
  {
    assert forall b: nat :: b < |rest| ==> (front + rest)[|front| + b] == rest[b];
  }

  lemma StoredRead(mem: Bytes, at: nat, words: seq<u32>, i: nat)
    requires at + 4 * |words| <= |mem| && i < |words|
    ensures Rd32(Runtime.Stored(mem, at, Runtime.WordBytes(words)), at + 4 * i) == words[i]
  {
    hide Runtime.WordBytes, Runtime.Stored, Rd32;
    var data := Runtime.WordBytes(words);
    WordBytesRead(words, i);
    StoredInside(mem, at, data, 4 * i);
  }

  lemma StoredInside(mem: Bytes, at: nat, data: Bytes, k: nat)
    requires at + |data| <= |mem| && k + 4 <= |data|
    ensures Rd32(Runtime.Stored(mem, at, data), at + k) == Rd32(data, k)
  {
    assert forall b: nat :: b < |data| ==> Runtime.Stored(mem, at, data)[at + b] == data[b];
  }

  lemma StoredOutside(mem: Bytes, at: nat, data: Bytes, addr: nat)
    requires at + |data| <= |mem| && addr + 4 <= |mem| && (addr + 4 <= at || at + |data| <= addr)
    ensures Rd32(Runtime.Stored(mem, at, data), addr) == Rd32(mem, addr)
  {
    assert forall b: nat :: b < |mem| && !(at <= b < at + |data|) ==> Runtime.Stored(mem, at, data)[b] == mem[b];
  }

  /** Code and parameters are in memory, apart from each other. */
  lemma LoadedWords(before: Bytes, l: Launch, words: seq<u32>, params: seq<u32>)
    requires l.codeAddr + 4 * |words| <= |before| && l.block + 4 * |params| <= |before|
    requires l.block + 4 * |params| <= l.codeAddr || l.codeAddr + 4 * |words| <= l.block
    requires l.mem == Runtime.Stored(Runtime.Stored(before, l.codeAddr, Runtime.WordBytes(words)), l.block, Runtime.WordBytes(params))
    ensures CodeInMemory(l.mem, l.codeAddr, words) && InBounds(l.mem, l.block, 4 * |params|)
    ensures forall i :: 0 <= i < |params| ==> Rd32(l.mem, l.block + 4 * i) == params[i]
  {
    hide Runtime.WordBytes, Rd32, Runtime.Stored;
    var loaded := Runtime.Stored(before, l.codeAddr, Runtime.WordBytes(words));
    forall i | 0 <= i < |words|
      ensures Rd32(l.mem, l.codeAddr + 4 * i) == words[i]
    {
      StoredOutside(loaded, l.block, Runtime.WordBytes(params), l.codeAddr + 4 * i);
      StoredRead(before, l.codeAddr, words, i);
    }
    forall i | 0 <= i < |params|
      ensures Rd32(l.mem, l.block + 4 * i) == params[i]
    {
      StoredRead(loaded, l.block, params, i);
    }
  }

  /** Code and parameters are where the launch says, and every buffer of the caller is as before. */
  ghost predicate InPlace(l: Launch, words: seq<u32>, params: seq<u32>, allocs: map<nat, Runtime.Allocation>, before: Bytes) {
    && |l.mem| == |before| < TWO32
    && CodeInMemory(l.mem, l.codeAddr, words) && InBounds(l.mem, l.block, 4 * |params|)
    && (forall i :: 0 <= i < |params| ==> Rd32(l.mem, l.block + 4 * i) == params[i])
    && Runtime.ApartFromAll(allocs, l.codeAddr, 4 * |words|)
    && SameBuffers(allocs, before, l.mem)
  }

  ghost predicate SameBuffers(allocs: map<nat, Runtime.Allocation>, before: Bytes, after: Bytes) {
    |after| == |before| && forall b: nat, a: nat :: b in allocs && b <= a < b + allocs[b].size && a < |before| ==> after[a] == before[a]
  }

  /** A store leaves the bytes of the buffers that it does not meet. */
  lemma BuffersKept(mem: Bytes, allocs: map<nat, Runtime.Allocation>, at: nat, data: Bytes)
    requires at + |data| <= |mem| && Runtime.ApartFromAll(allocs, at, |data|)
    ensures SameBuffers(allocs, mem, Runtime.Stored(mem, at, data))
  {
    forall b: nat, a: nat | b in allocs && b <= a < b + allocs[b].size && a < |mem|
      ensures Runtime.Stored(mem, at, data)[a] == mem[a]
    {}
  }

  lemma FewerBuffers(allocs: map<nat, Runtime.Allocation>, base: nat, a: Runtime.Allocation, at: nat, n: nat)
    requires base !in allocs && Runtime.ApartFromAll(allocs[base := a], at, n)
    ensures Runtime.ApartFromAll(allocs, at, n) && (at + n <= base || base + a.size <= at)
  {
    forall b: nat | b in allocs
      ensures at + n <= b || b + allocs[b].size <= at
    {
      assert b in allocs[base := a];
    }
    assert base in allocs[base := a];
  }

  lemma LaunchInPlace(before: Bytes, allocs: map<nat, Runtime.Allocation>, code: Runtime.Allocation, l: Launch, words: seq<u32>, params: seq<u32>)
    requires |before| < TWO32 && l.codeAddr + 4 * |words| <= |before| && l.block + 4 * |params| <= |before|
    requires l.codeAddr as nat !in allocs && Runtime.ApartFromAll(allocs, l.codeAddr, 4 * |words|)
    requires 4 * |words| <= code.size && Runtime.ApartFromAll(allocs[l.codeAddr as nat := code], l.block, 4 * |params|)
    requires l.mem == Runtime.Stored(Runtime.Stored(before, l.codeAddr, Runtime.WordBytes(words)), l.block, Runtime.WordBytes(params))
    ensures InPlace(l, words, params, allocs, before)
  {
    hide Runtime.WordBytes, Rd32, CodeInMemory, Runtime.Stored, Runtime.ApartFromAll;
    FewerBuffers(allocs, l.codeAddr, code, l.block, 4 * |params|);
    LoadedWords(before, l, words, params);
    BuffersKept(before, allocs, l.codeAddr, Runtime.WordBytes(words));
    BuffersKept(Runtime.Stored(before, l.codeAddr, Runtime.WordBytes(words)), allocs, l.block, Runtime.WordBytes(params));
  }

  // --- loading and launching ---

  /** Load a module, launch one thread and unload. */
  method LoadAndLaunch(rt: Runtime.Runtime, words: seq<u32>, params: seq<u32>) returns (e: Runtime.Error, ghost l: Launch)
    requires rt.Valid()
    requires Moderate(4 * |params|, rt.drv.hw.vram.Length) && Moderate(4, rt.drv.hw.vram.Length)
    requires Moderate(4 * |words|, rt.drv.hw.vram.Length)
    modifies rt, rt.drv, rt.drv.hw, rt.drv.hw.vram, rt.drv.hw.ring, rt.drv.bos
    ensures rt.Valid() && rt.allocs == old(rt.allocs)
    ensures e.Success? ==> InPlace(l, words, params, old(rt.allocs), old(rt.Vram()))
    ensures e.Success? ==>
      rt.drv.hw.Dev() == RunThreads(rt.drv.hw.math, l.codeAddr, l.block, 0, 1, Device(l.mem, old(rt.drv.hw.error)))
  {
    hide RunThreads, Runtime.WordBytes, Runtime.Stored, Runtime.InStep, TableOk, Runtime.ApartFromAll, InPlace;
    l := Launch(0, 0, []);
    ghost var before, allocs := rt.Vram(), rt.allocs;
    var m, codeAddr := rt.ModuleLoad(words);
    if !m.Success? {
      return m, l;
    }
    ghost var loaded, code := rt.Vram(), rt.allocs[codeAddr];
    assert rt.allocs == allocs[codeAddr as int := code];
    ghost var block;
    e, block := rt.LaunchKernel(codeAddr, params, 1);
    if e.Success? {
      l := Launch(codeAddr, block, Runtime.Stored(loaded, block, Runtime.WordBytes(params)));
      LaunchInPlace(before, allocs, code, l, words, params);
    }
    var f := rt.Free(codeAddr);
  }

  // --- scalar kernels ---

  /** The kernel is within the subset, and its run from the launched memory stores nothing into the code. */
  ghost predicate Proper(k: Kernel, words: seq<u32>, l: Launch)
    requires InBounds(l.mem, l.block, 4 * |k.params|) && CodeInMemory(l.mem, l.codeAddr, words)
  {
    WellScoped(k) && RunKernel(k, l.mem, l.block).Some? && CodeShape.SparesCode(k, l.mem, l.block, l.codeAddr, words)
  }

  /** The watchdog stops the run of these words. */
  predicate TooLong(words: seq<u32>, l: Launch) {
    RunN(Disassemble(words), Boot(l.mem, l.block), MAX_STEPS).Running?
  }

  /** A launch of one thread of a proper compiled kernel computes the kernel, or reports that it ran too long. */
  lemma LaunchMeaning(m: HostMath, k: Kernel, words: seq<u32>, l: Launch)
    requires Codegen.Compile(k).Some? && Assembler.EncodesTo(words, Codegen.Compile(k).value)
    requires |l.mem| < TWO32 && InBounds(l.mem, l.block, 4 * |k.params|) && CodeInMemory(l.mem, l.codeAddr, words)
    requires Proper(k, words, l)
    ensures var d := RunThreads(m, l.codeAddr, l.block, 0, 1, Device(l.mem, false));
      if TooLong(words, l) then d.error else d == Device(RunKernel(k, l.mem, l.block).value, false)
  {
    hide Codegen.Compile, RunKernel, RunThread, RunN, CodeInMemory, WellScoped, CodeShape.SparesCode;
    Toolchain.DecodesTo(words, Codegen.Compile(k).value);
    CodeShape.CompiledKernelOnGpu(m, k, words, l.codeAddr, l.mem, l.block, 0, 1);
  }

  /** Compile with the scalar backend, load, launch one thread and unload. */
  method CompileAndLaunch(rt: Runtime.Runtime, k: Kernel, params: seq<u32>) returns (e: Option<Runtime.Error>, ghost words: seq<u32>, ghost l: Launch)
    requires rt.Valid() && !rt.drv.hw.error && |params| == |k.params|
    requires Moderate(4 * |params|, rt.drv.hw.vram.Length) && Moderate(4, rt.drv.hw.vram.Length)
    requires Codegen.Compile(k).Some? ==> Moderate(4 * |Codegen.Compile(k).value|, rt.drv.hw.vram.Length)
    modifies rt, rt.drv, rt.drv.hw, rt.drv.hw.vram, rt.drv.hw.ring, rt.drv.bos
    ensures rt.Valid() && rt.allocs == old(rt.allocs)
    ensures e.None? <==> Codegen.Compile(k).None?
    ensures e == Some(Runtime.Success) ==>
      && Assembler.EncodesTo(words, Codegen.Compile(k).value)
      && InPlace(l, words, params, old(rt.allocs), old(rt.Vram()))
      && (Proper(k, words, l) ==>
            if TooLong(words, l) then rt.drv.hw.error
            else rt.Vram() == RunKernel(k, l.mem, l.block).value && !rt.drv.hw.error)
  {
    hide Codegen.Compile, RunThreads, RunKernel, CodeInMemory, Proper, TooLong, Runtime.InStep, TableOk, Assembler.EncodesTo;
    words, l := [], Launch(0, 0, []);
    var gen := new ScalarBackend.ScalarCodegen();
    var compiled := gen.Compile(k);
    if compiled.None? {
      return None, words, l;
    }
    words := compiled.value;
    SameLength(words, Codegen.Compile(k).value);
    var launched;
    launched, l := LoadAndLaunch(rt, compiled.value, params);
    if launched.Success? && Proper(k, words, l) {
      LaunchMeaning(rt.drv.hw.math, k, words, l);
    }
    e := Some(launched);
  }

  lemma SameLength(words: seq<u32>, code: seq<Isa.Instr>)
    requires Assembler.EncodesTo(words, code)
    ensures |words| == |code|
  {}
}
