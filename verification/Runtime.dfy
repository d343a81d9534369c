/**
 The user-space runtime (driver/titan_runtime.cpp) on top of the driver: its allocation map
 stays in step with the driver's table, so that to its callers device memory is a set of
 independent buffers.
 */
module Runtime {
  import opened Bits
  import opened Memory
  import opened GpuThread
  import opened CommandRing
  import opened GpuDevice
  import opened VramTable
  import opened DriverDevice
  import opened Options

  datatype Error = Success | InvalidValue | MemoryAllocation | InvalidModule | LaunchFailure | Timeout | Ioctl

  datatype Allocation = Allocation(handle: nat, size: nat)

  /** Every recorded allocation is a live object under its handle, and every live object is recorded. */
  ghost predicate InStep(allocs: map<nat, Allocation>, t: seq<Bo>) {
    && (forall base :: base in allocs ==>
          1 <= allocs[base].handle <= |t| && t[allocs[base].handle - 1] == Bo(base, allocs[base].size, true))
    && forall i :: 0 <= i < |t| && t[i].used ==> t[i].addr in allocs && allocs[t[i].addr] == Allocation(i + 1, t[i].size)
  }

  /** The range lies in the buffer at `base`. */
  predicate LiesIn(allocs: map<nat, Allocation>, base: nat, dptr: nat, n: nat) {
    base in allocs && base <= dptr && dptr + n <= base + allocs[base].size
  }

  ghost predicate LiesInOne(allocs: map<nat, Allocation>, dptr: nat, n: nat) {
    exists base :: LiesIn(allocs, base, dptr, n)
  }

  function Content(a: Allocation, vram: Bytes, base: nat): (bytes: Bytes)
    requires base + a.size <= |vram|
    ensures |bytes| == a.size
  {
    vram[base..base + a.size]
  }

  /** The buffers and their contents. */
  ghost function BuffersOf(allocs: map<nat, Allocation>, vram: Bytes): map<nat, Bytes>
    requires forall base: nat :: base in allocs ==> base + allocs[base].size <= |vram|
  {
    map base: nat | base in allocs :: Content(allocs[base], vram, base)
  }

  /** A buffer with some of its bytes replaced. */
  function Patched(buffer: Bytes, offset: nat, data: Bytes): Bytes
    requires offset + |data| <= |buffer|
  {
    buffer[..offset] + data + buffer[offset + |data|..]
  }

  lemma Located(allocs: map<nat, Allocation>, t: seq<Bo>, vram: nat)
    requires InStep(allocs, t) && TableOk(t, vram)
    ensures forall base: nat :: base in allocs ==> HEAP_BASE <= base && allocs[base].size > 0 && base + allocs[base].size <= vram
  {
    forall base | base in allocs
      ensures HEAP_BASE <= base && allocs[base].size > 0 && base + allocs[base].size <= vram
    {
      assert Placed(t[allocs[base].handle - 1], vram);
    }
  }

  /** Buffers at different addresses do not overlap. */
  lemma BuffersApart(allocs: map<nat, Allocation>, t: seq<Bo>, vram: nat, a: nat, b: nat)
    requires InStep(allocs, t) && TableOk(t, vram) && a in allocs && b in allocs && a != b
    ensures a + allocs[a].size <= b || b + allocs[b].size <= a
  {
    var i, j := allocs[a].handle - 1, allocs[b].handle - 1;
    Located(allocs, t, vram);
    if i < j {
      assert !Overlaps(t[i], t[j].addr, t[j].size);
    } else {
      assert !Overlaps(t[j], t[i].addr, t[i].size);
    }
  }

  /** The range meets no live buffer. */
  ghost predicate ApartFromAll(allocs: map<nat, Allocation>, lo: nat, n: nat) {
    forall b: nat :: b in allocs ==> lo + n <= b || b + allocs[b].size <= lo
  }

  lemma NewApart(allocs: map<nat, Allocation>, t: seq<Bo>, vram: nat, base: nat, n: nat)
    requires InStep(allocs, t) && TableOk(t, vram) && LiesIn(allocs, base, base, n)
    ensures ApartFromAll(allocs - {base}, base, n)
  {
    hide InStep, TableOk;
    forall b: nat | b in allocs - {base}
      ensures base + n <= b || b + allocs[b].size <= base
    {
      BuffersApart(allocs, t, vram, base, b);
    }
  }

  lemma AllocInStep(allocs: map<nat, Allocation>, t: seq<Bo>, vram: nat, slot: nat, addr: nat, n: nat)
    requires InStep(allocs, t) && TableOk(t, vram) && slot < |t| && !t[slot].used && n > 0 && Free(t, addr, n)
    ensures addr !in allocs && InStep(allocs[addr := Allocation(slot + 1, n)], t[slot := Bo(addr, n, true)])
  {
    Located(allocs, t, vram);
    if addr in allocs {
      assert Overlaps(t[allocs[addr].handle - 1], addr, n);
    }
  }

  lemma FreeInStep(allocs: map<nat, Allocation>, t: seq<Bo>, base: nat)
    requires InStep(allocs, t) && base in allocs
    ensures var slot := allocs[base].handle - 1; InStep(allocs - {base}, t[slot := t[slot].(used := false)])
  {
    var slot := allocs[base].handle - 1;
    var t' := t[slot := t[slot].(used := false)];
    forall i | 0 <= i < |t'| && t'[i].used
      ensures t'[i].addr in allocs - {base}
    {
      assert allocs[t[i].addr].handle == i + 1;
    }
  }

  /** A write inside one buffer changes that buffer and no other. */
  lemma WriteRefines(allocs: map<nat, Allocation>, t: seq<Bo>, vram: Bytes, base: nat, offset: nat, data: Bytes)
    requires InStep(allocs, t) && TableOk(t, |vram|) && base in allocs && offset + |data| <= allocs[base].size
    ensures forall b: nat :: b in allocs ==> b + allocs[b].size <= |vram|
    ensures base + offset + |data| <= |vram|
    ensures var vram' := vram[..base + offset] + data + vram[base + offset + |data|..];
      var before := BuffersOf(allocs, vram);
      && |vram'| == |vram|
      && BuffersOf(allocs, vram') == before[base := Patched(before[base], offset, data)]
  {
    hide InStep, TableOk;
    Located(allocs, t, |vram|);
    var vram' := vram[..base + offset] + data + vram[base + offset + |data|..];
    SliceOfOwn(vram, base, allocs[base].size, offset, data);
    forall b: nat | b in allocs && b != base
      ensures vram'[b..b + allocs[b].size] == vram[b..b + allocs[b].size]
    {
      BuffersApart(allocs, t, |vram|, b, base);
      SliceOfOther(vram, base + offset, data, b, b + allocs[b].size);
    }
  }

  lemma SliceOfOther(mem: Bytes, at: nat, data: Bytes, lo: nat, hi: nat)
    requires at + |data| <= |mem| && lo <= hi <= |mem| && (hi <= at || at + |data| <= lo)
    ensures (mem[..at] + data + mem[at + |data|..])[lo..hi] == mem[lo..hi]
  {}

  lemma SliceOfOwn(mem: Bytes, base: nat, size: nat, offset: nat, data: Bytes)
    requires base + size <= |mem| && offset + |data| <= size
    ensures (mem[..base + offset] + data + mem[base + offset + |data|..])[base..base + size]
         == Patched(mem[base..base + size], offset, data)
  {}

  /** The largest key not above x: `upper_bound` and one step back. */
  method FloorKey(m: map<nat, Allocation>, x: nat) returns (k: Option<nat>)
    ensures k.None? <==> forall key :: key in m ==> key > x
    ensures k.Some? ==> k.value in m && k.value <= x && forall key :: key in m && key <= x ==> key <= k.value
  {
    k := None;
    var rest := m.Keys;
    while rest != {}
      invariant rest <= m.Keys
      invariant k.None? ==> forall key :: key in m && key !in rest ==> key > x
      invariant k.Some? ==> k.value in m && k.value <= x && forall key :: key in m && key !in rest && key <= x ==> key <= k.value
      decreases |rest|
    {
      var key :| key in rest;
      rest := rest - {key};
      if key <= x && (k.None? || key > k.value) {
        k := Some(key);
      }
    }
  }

  class Runtime {
    const drv: Driver
    var allocs: map<nat, Allocation>
    var lastFence: u32

    ghost predicate Valid()
      reads this, drv, drv.hw, drv.hw.vram, drv.hw.ring, drv.bos
    {
      drv.Valid() && InStep(allocs, drv.bos[..])
    }

    ghost function Vram(): Bytes
      reads this, drv, drv.hw, drv.hw.vram
    {
      drv.hw.vram[..]
    }

    /** What the caller sees: buffers by address. */
    ghost function Buffers(): map<nat, Bytes>
      requires Valid()
      reads this, drv, drv.hw, drv.hw.vram, drv.hw.ring, drv.bos
    {
      Located(allocs, drv.bos[..], drv.hw.vram.Length);
      BuffersOf(allocs, Vram())
    }

    /** `titanInit` */
    constructor (math: HostMath, vramBytes: u32)
      ensures Valid() && fresh(drv) && fresh(drv.hw) && fresh(drv.hw.vram) && fresh(drv.hw.ring) && fresh(drv.bos)
      ensures allocs == map[] && lastFence == 0 && Buffers() == map[]
    {
      drv := new Driver(math, vramBytes);
      allocs, lastFence := map[], 0;
    }

    /** `resolve`: succeeds exactly when the range lies in one live buffer. */
    method Resolve(dptr: nat, n: nat) returns (r: Option<(nat, nat)>)
      requires Valid() && n > 0
      ensures r.Some? <==> LiesInOne(allocs, dptr, n)
      ensures r.Some? ==>
        exists base :: LiesIn(allocs, base, dptr, n) && r.value == (allocs[base].handle, dptr - base)
    {
      hide Driver.Valid, Placed, Overlaps;
      var k := FloorKey(allocs, dptr);
      if k.None? {
        return None;
      }
      var base := k.value;
      OnlyFloor(allocs, drv.bos[..], drv.hw.vram.Length, base, dptr, n) by { DriverTable(drv); }
      if dptr < base || dptr + n > base + allocs[base].size {
        return None;
      }
      assert LiesIn(allocs, base, dptr, n);
      r := Some((allocs[base].handle, dptr - base));
    }

    /** `titanMalloc`: a new buffer, or failure exactly when the driver has no slot or no room. */
    method Malloc(size: nat) returns (e: Error, dptr: nat)
      requires Valid() && Moderate(size, drv.hw.vram.Length)
      modifies this, drv.bos
      ensures Valid() && Vram() == old(Vram())
      ensures e == InvalidValue <==> size == 0
      ensures e == MemoryAllocation <==>
        size > 0 && (NoSlot(old(drv.bos[..])) || forall a: nat :: !FitsAt(old(drv.bos[..]), drv.hw.vram.Length, Needed(size), a))
      ensures e.Success? || e.InvalidValue? || e.MemoryAllocation?
      ensures !e.Success? ==> Buffers() == old(Buffers()) && allocs == old(allocs)
      ensures e.Success? ==> dptr in allocs && dptr !in old(allocs) && allocs - {dptr} == old(allocs)
      ensures e.Success? ==>
        && dptr !in old(Buffers()) && dptr in Buffers() && size <= |Buffers()[dptr]| == Needed(size)
        && Buffers() - {dptr} == old(Buffers())
    {
      hide InStep, TableOk, Needed;
      if size == 0 {
        return InvalidValue, 0;
      }
      ghost var t, before := drv.bos[..], Buffers();
      var r := drv.Alloc(size);
      if !r.Ok? {
        return MemoryAllocation, 0;
      }
      NeededBounds(size, drv.hw.vram.Length);
      var (handle, addr) := r.value;
      AllocInStep(allocs, t, drv.hw.vram.Length, handle - 1, addr, Needed(size));
      allocs := allocs[addr := Allocation(handle, Needed(size))];
      Located(allocs, drv.bos[..], drv.hw.vram.Length);
      assert Buffers() - {addr} == before;
      return Success, addr;
    }

    /** `titanFree` */
    method Free(dptr: nat) returns (e: Error)
      requires Valid()
      modifies this, drv.bos
      ensures Valid() && Vram() == old(Vram())
      ensures e == if dptr in old(Buffers()) then Success else InvalidValue
      ensures Buffers() == old(Buffers()) - {dptr} && allocs == old(allocs) - {dptr}
    {
      hide InStep, TableOk;
      if dptr !in allocs {
        return InvalidValue;
      }
      ghost var t := drv.bos[..];
      FreeInStep(allocs, t, dptr);
      LiveHandle(allocs, t, dptr);
      ghost var before := Buffers();
      var _ := drv.GemFree(allocs[dptr].handle);
      allocs := allocs - {dptr};
      assert Buffers() == before - {dptr};
      return Success;
    }

    /** `titanMemcpy`, host to device: succeeds exactly when the range lies in one buffer, and changes no other. */
    method CopyToDevice(dptr: nat, data: Bytes) returns (e: Error)
      requires Valid()
      modifies drv.hw.vram
      ensures Valid() && allocs == old(allocs)
      ensures e == if data == [] || LiesInOne(allocs, dptr, |data|) then Success else InvalidValue
      ensures e.InvalidValue? || data == [] ==> Vram() == old(Vram())
      ensures e.Success? && data != [] ==> dptr + |data| <= |Vram()| && Vram() == Stored(old(Vram()), dptr, data)
      ensures e.Success? && data != [] ==>
        exists base :: LiesIn(allocs, base, dptr, |data|) && base in old(Buffers())
          && Buffers() == old(Buffers())[base := Patched(old(Buffers())[base], dptr - base, data)]
    {
      hide InStep, TableOk, Patched, Content, LiesInOne;
      if data == [] {
        return Success;
      }
      var where_ := Resolve(dptr, |data|);
      if where_.None? {
        return InvalidValue;
      }
      ghost var base: nat :| LiesIn(allocs, base, dptr, |data|) && where_.value == (allocs[base].handle, dptr - base);
      LiveHandle(allocs, drv.bos[..], base);
      WriteRefines(allocs, drv.bos[..], Vram(), base, dptr - base, data);
      ghost var before, vram := Buffers(), Vram();
      var r := drv.GemWrite(where_.value.0, where_.value.1, data);
      assert Vram() == Stored(vram, dptr, data);
      assert Buffers() == before[base := Patched(before[base], dptr - base, data)];
      return if r.Ok? then Success else Ioctl;
    }

    /** `titanMemset`: every byte of the range becomes the low byte of the value, and no other byte of memory changes. */
    method Memset(dptr: nat, value: int, n: nat) returns (e: Error)
      requires Valid()
      modifies drv.hw.vram
      ensures Valid() && allocs == old(allocs)
      ensures e == if n == 0 || LiesInOne(allocs, dptr, n) then Success else InvalidValue
      ensures e.InvalidValue? || n == 0 ==> Vram() == old(Vram())
      ensures e.Success? && n > 0 ==>
        exists base :: LiesIn(allocs, base, dptr, n) && base in old(Buffers())
          && Buffers() == old(Buffers())[base := Patched(old(Buffers())[base], dptr - base, Filled(value, n))]
      ensures e.Success? && n > 0 ==>
        && dptr + n <= |Vram()| == |old(Vram())|
        && (forall a :: dptr <= a < dptr + n ==> Vram()[a] == value % 0x100)
        && forall a :: 0 <= a < |Vram()| && !(dptr <= a < dptr + n) ==> Vram()[a] == old(Vram())[a]
    {
      hide InStep, TableOk, Patched, BuffersOf, Filled;
      ghost var before := Vram();
      FilledBytes(value, n);
      e := CopyToDevice(dptr, Filled(value, n));
      if e.Success? && n > 0 {
        StoredBytes(before, dptr, Filled(value, n));
      }
    }

    /** `titanMemcpy`, device to host: the bytes of the one buffer in which the range lies. */
    method CopyToHost(dptr: nat, n: nat) returns (e: Error, data: Bytes)
      requires Valid()
      ensures e == if n == 0 || LiesInOne(allocs, dptr, n) then Success else InvalidValue
      ensures e.Success? && n > 0 ==>
        exists base :: LiesIn(allocs, base, dptr, n) && base in Buffers() && dptr - base + n <= |Buffers()[base]|
          && data == Buffers()[base][dptr - base..dptr - base + n]
      ensures e.Success? && n > 0 ==> dptr + n <= |Vram()| && data == Vram()[dptr..dptr + n]
      ensures !e.Success? || n == 0 ==> data == []
    {
      hide InStep, TableOk, BuffersOf, LiesInOne, Content;
      if n == 0 {
        return Success, [];
      }
      var where_ := Resolve(dptr, n);
      if where_.None? {
        return InvalidValue, [];
      }
      ghost var base: nat :| LiesIn(allocs, base, dptr, n) && where_.value == (allocs[base].handle, dptr - base);
      LiveHandle(allocs, drv.bos[..], base);
      Located(allocs, drv.bos[..], drv.hw.vram.Length);
      var r := drv.GemRead(where_.value.0, where_.value.1, n);
      ReadRefines(allocs, Vram(), base, dptr - base, n);
      assert base + (dptr - base) == dptr;
      assert r == Ok(Vram()[dptr..dptr + n]);
      return if r.Ok? then Success else Ioctl, if r.Ok? then r.value else [];
    }

    /** `titanDeviceSynchronize` */
    method Synchronize() returns (ok: bool)
      requires Valid()
      modifies drv.hw`intrStatus
      ensures Valid() && Buffers() == old(Buffers())
      ensures ok <==> lastFence == 0 || FenceDone(drv.hw.fenceSeq, lastFence)
    {
      hide InStep, TableOk;
      if lastFence == 0 {
        return true;
      }
      var r := drv.Wait(lastFence, 1000);
      ok := r.Ok?;
    }

    /**
     `titanMemcpy`, device to device: a DMA packet through the ring, awaited. It moves any
     bytes of VRAM as memmove would; outside VRAM the device latches an error and nothing
     moves. The runtime does not check the ranges against its buffers (see RuntimeCopies);
     between live buffers only the destination changes.
     */
    method CopyOnDevice(dst: u32, src: u32, n: u32) returns (e: Error)
      requires Valid()
      modifies this`lastFence, drv, drv.hw, drv.hw.vram, drv.hw.ring
      ensures Valid() && allocs == old(allocs) && e == Success
      ensures drv.hw.error == (old(drv.hw.error) || (n > 0 && (src + n > drv.hw.vram.Length || dst + n > drv.hw.vram.Length)))
      ensures Vram() == if src + n <= |old(Vram())| && dst + n <= |old(Vram())| then Moved(old(Vram()), src, dst, n) else old(Vram())
      ensures forall a, b ::
        LiesIn(allocs, a, src, n) && LiesIn(allocs, b, dst, n) && a in old(Buffers()) && b in old(Buffers()) ==>
          Buffers() == old(Buffers())[b := Patched(old(Buffers())[b], dst - b, old(Buffers())[a][src - a..src - a + n])]
    {
      hide InStep, TableOk, Patched, Content, ExecuteAll, Parse, Moved;
      ghost var vram, before, proc := Vram(), Buffers(), drv.hw.Proc();
      Located(allocs, drv.bos[..], drv.hw.vram.Length);
      forall a, b | LiesIn(allocs, a, src, n) && LiesIn(allocs, b, dst, n) && a in before && b in before
        ensures src + n <= |vram| && dst + n <= |vram|
        ensures BuffersOf(allocs, Moved(vram, src, dst, n)) == before[b := Patched(before[b], dst - b, before[a][src - a..src - a + n])]
      {
        CopyRefines(allocs, drv.bos[..], vram, a, b, src, dst, n);
      }
      if n == 0 {
        MovedNothing(vram, src, dst);
        return Success;
      }
      CopyPacketParses(src, dst, n);
      var r := drv.Submit(CopyPacket(src, dst, n));
      PacketThenFence(drv.hw.math, Dma(src, dst, n), r.value, proc);
      if r.Ok? {
        lastFence := r.value;
      }
      var ok := Synchronize();
      e := if !r.Ok? then Ioctl else if ok then Success else Timeout;
    }

    /** `titanModuleLoad`, from the words of the module on: they are copied into a new buffer. */
    method ModuleLoad(words: seq<u32>) returns (e: Error, codeAddr: u32)
      requires Valid() && Moderate(4 * |words|, drv.hw.vram.Length)
      modifies this, drv.bos, drv.hw.vram
      ensures Valid() && drv.hw.error == old(drv.hw.error)
      ensures e == InvalidModule <==> words == []
      ensures e.Success? || e.InvalidModule? || e.MemoryAllocation?
      ensures !e.Success? ==> Vram() == old(Vram()) && allocs == old(allocs)
      ensures e.Success? ==>
        && codeAddr in allocs && allocs - {codeAddr as int} == old(allocs) && 4 * |words| <= allocs[codeAddr].size
        && codeAddr + 4 * |words| <= |old(Vram())| && Vram() == Stored(old(Vram()), codeAddr, WordBytes(words))
      ensures e.Success? ==> ApartFromAll(old(allocs), codeAddr, 4 * |words|)
    {
      hide ApartFromAll, InStep, TableOk, WordBytes, Stored, BuffersOf, FitsAt, NoSlot, Needed;
      codeAddr := 0;
      if words == [] {
        return InvalidModule, 0;
      }
      var m, code := Malloc(4 * |words|);
      if !m.Success? {
        return MemoryAllocation, 0;
      }
      Located(allocs, drv.bos[..], drv.hw.vram.Length);
      BufferSizes(allocs, Vram(), code);
      NewApart(allocs, drv.bos[..], drv.hw.vram.Length, code, 4 * |words|);
      assert LiesIn(allocs, code, code, 4 * |words|);
      var c := CopyToDevice(code, WordBytes(words));
      return c, code;
    }

    /**
     `titanLaunchKernel`: uploads the parameter block, dispatches the threads through the
     ring, waits for them and releases the block. The device memory it leaves is what the
     threads make of the memory with the parameters in place.
     */
    method LaunchKernel(codeAddr: u32, params: seq<u32>, n: u32) returns (e: Error, ghost block: u32)
      requires Valid() && Moderate(4 * |params|, drv.hw.vram.Length) && Moderate(4, drv.hw.vram.Length)
      modifies this, drv, drv.hw, drv.hw.vram, drv.hw.ring, drv.bos
      ensures Valid() && allocs == old(allocs)
      ensures e == InvalidValue <==> n == 0
      ensures e.Success? || e.InvalidValue? || e.MemoryAllocation?
      ensures !e.Success? ==> Vram() == old(Vram()) && drv.hw.error == old(drv.hw.error)
      ensures e.Success? ==>
        && block !in allocs && block + 4 * |params| <= |old(Vram())|
        && drv.hw.Dev() == RunThreads(drv.hw.math, codeAddr, block, 0, n,
                                      Device(Stored(old(Vram()), block, WordBytes(params)), old(drv.hw.error)))
      ensures e.Success? ==> ApartFromAll(old(allocs), block, 4 * |params|)
    {
      hide ApartFromAll, InStep, TableOk, ExecuteAll, Parse, RunThreads, WordBytes, Stored, BuffersOf, FitsAt, NoSlot, Needed;
      block := 0;
      if n == 0 {
        return InvalidValue, 0;
      }
      ghost var vram0, allocs0, error0 := Vram(), allocs, drv.hw.error;
      var m, pblock := Malloc(if params == [] then 4 else 4 * |params|);
      if !m.Success? {
        return MemoryAllocation, 0;
      }
      Located(allocs, drv.bos[..], drv.hw.vram.Length);
      BufferSizes(allocs, Vram(), pblock);
      NewApart(allocs, drv.bos[..], drv.hw.vram.Length, pblock, 4 * |params|);
      if params != [] {
        assert LiesIn(allocs, pblock, pblock, 4 * |params|);
        var c := CopyToDevice(pblock, WordBytes(params));
      } else {
        StoredNothing(vram0, pblock, WordBytes(params));
      }
      block := pblock;
      ghost var launched, proc := Vram(), drv.hw.Proc();
      assert launched == Stored(vram0, block, WordBytes(params));
      LaunchPacketParses(codeAddr, pblock, n);
      var r := drv.Submit(LaunchPacket(codeAddr, pblock, n));
      PacketThenFence(drv.hw.math, Dispatch(codeAddr, pblock, n), r.value, proc);
      if r.Ok? {
        lastFence := r.value;
      }
      var ok := Synchronize();
      var f := Free(pblock);
      assert allocs == allocs0;
      e := if r.Ok? && ok then Success else LaunchFailure;
    }
  }

  lemma BufferSizes(allocs: map<nat, Allocation>, vram: Bytes, base: nat)
    requires base in allocs && forall b: nat :: b in allocs ==> b + allocs[b].size <= |vram|
    ensures base in BuffersOf(allocs, vram) && |BuffersOf(allocs, vram)[base]| == allocs[base].size
  {}

  lemma StoredNothing(mem: Bytes, at: nat, data: Bytes)
    requires at <= |mem| && data == []
    ensures Stored(mem, at, data) == mem
  {}

  lemma CopyRefines(allocs: map<nat, Allocation>, t: seq<Bo>, vram: Bytes, a: nat, b: nat, src: nat, dst: nat, n: nat)
    requires InStep(allocs, t) && TableOk(t, |vram|) && LiesIn(allocs, a, src, n) && LiesIn(allocs, b, dst, n)
    ensures forall base: nat :: base in allocs ==> base + allocs[base].size <= |vram|
    ensures src + n <= |vram| && dst + n <= |vram|
    ensures var before := BuffersOf(allocs, vram);
      BuffersOf(allocs, Moved(vram, src, dst, n)) == before[b := Patched(before[b], dst - b, before[a][src - a..src - a + n])]
  {
    hide InStep, TableOk, Patched, Content;
    Located(allocs, t, |vram|);
    PartOfContent(allocs[a], vram, a, src - a, n);
    WriteRefines(allocs, t, vram, b, dst - b, vram[src..src + n]);
  }

  lemma MovedNothing(vram: Bytes, src: nat, dst: nat)
    ensures src <= |vram| && dst <= |vram| ==> Moved(vram, src, dst, 0) == vram
  {}

  lemma PartOfContent(a: Allocation, vram: Bytes, base: nat, offset: nat, n: nat)
    requires base + a.size <= |vram| && offset + n <= a.size
    ensures vram[base + offset..base + offset + n] == Content(a, vram, base)[offset..offset + n]
  {
    var whole, part := vram[base..base + a.size], vram[base + offset..base + offset + n];
    assert forall k :: 0 <= k < n ==> whole[offset..offset + n][k] == whole[offset + k] == vram[base + offset + k] == part[k];
    assert whole[offset..offset + n] == part;
  }

  lemma ReadRefines(allocs: map<nat, Allocation>, vram: Bytes, base: nat, offset: nat, n: nat)
    requires forall b: nat :: b in allocs ==> b + allocs[b].size <= |vram|
    requires base in allocs && offset + n <= allocs[base].size
    ensures var buffers := BuffersOf(allocs, vram);
      && base in buffers && offset + n <= |buffers[base]|
      && base + offset + n <= |vram| && vram[base + offset..base + offset + n] == buffers[base][offset..offset + n]
  {
    PartOfContent(allocs[base], vram, base, offset, n);
  }

  /** The DMA packet of a device-to-device copy. */
  function CopyPacket(src: u32, dst: u32, n: u32): (words: seq<u64>)
    ensures |words| == 4
  {
    [CMD_DMA, src, dst, n]
  }

  lemma CopyPacketParses(src: u32, dst: u32, n: u32)
    ensures Parse(CopyPacket(src, dst, n)) == Some([Dma(src, dst, n)])
  {
    var words := CopyPacket(src, dst, n);
    ParseStep(words);
    assert words[4..] == [];
    ParseNothing();
    assert [First(words)] + [] == [Dma(src, dst, n)];
  }

  lemma PacketThenFence(m: HostMath, p: Packet, seq_: u32, s: Processor)
    ensures ExecuteAll(m, [p] + [Fence(seq_)], s) == Perform(m, Fence(seq_), Perform(m, p, s))
  {
    hide Perform;
    var ps := [p] + [Fence(seq_)];
    assert ps[1..] == [Fence(seq_)];
    var s' := Perform(m, ps[0], s);
    assert [Fence(seq_)][1..] == [];
    assert ExecuteAll(m, [Fence(seq_)], s') == Perform(m, Fence(seq_), s');
  }

  /** The packet of a kernel launch. */
  function LaunchPacket(codeAddr: u32, paramAddr: u32, n: u32): (words: seq<u64>)
    ensures |words| == 3
  {
    [CMD_DISPATCH, codeAddr, n as int * TWO32 + paramAddr as int]
  }

  lemma LaunchPacketParses(codeAddr: u32, paramAddr: u32, n: u32)
    ensures Parse(LaunchPacket(codeAddr, paramAddr, n)) == Some([Dispatch(codeAddr, paramAddr, n)])
  {
    var words := LaunchPacket(codeAddr, paramAddr, n);
    ParseStep(words);
    assert words[3..] == [];
    ParseNothing();
    assert Low32(words[2]) == paramAddr && High32(words[2]) == n;
    assert [First(words)] + [] == [Dispatch(codeAddr, paramAddr, n)];
  }

  /** The bytes of an array of uint32_t. */
  function WordBytes(words: seq<u32>): (bytes: Bytes)
    ensures |bytes| == 4 * |words|
  {
    if words == [] then []
    else
      var w := words[0];
      [w % 0x100, w / 0x100 % 0x100, w / 0x1_0000 % 0x100, w / 0x100_0000] + WordBytes(words[1..])
  }

  /** Memory with data stored at an address. */
  function Stored(mem: Bytes, at: nat, data: Bytes): (mem': Bytes)
    requires at + |data| <= |mem|
    ensures |mem'| == |mem|
  {
    mem[..at] + data + mem[at + |data|..]
  }

  /** `std::vector<uint8_t> buf(size, (uint8_t)value)` */
  function Filled(value: int, n: nat): Bytes {
    seq(n, _ => value % 0x100)
  }

  lemma FilledBytes(value: int, n: nat)
    ensures |Filled(value, n)| == n && forall k :: 0 <= k < n ==> Filled(value, n)[k] == value % 0x100
  {}

  lemma StoredBytes(mem: Bytes, at: nat, data: Bytes)
    requires at + |data| <= |mem|
    ensures forall a :: at <= a < at + |data| ==> Stored(mem, at, data)[a] == data[a - at]
    ensures forall a :: 0 <= a < |mem| && !(at <= a < at + |data|) ==> Stored(mem, at, data)[a] == mem[a]
  {}

  /** A caller that sets a range and reads it back gets that many copies of the low byte. */
  method SetAndReadBack(rt: Runtime, dptr: nat, value: int, n: nat) returns (e: Error, data: Bytes)
    requires rt.Valid()
    modifies rt.drv.hw.vram
    ensures rt.Valid()
    ensures e == if n == 0 || LiesInOne(rt.allocs, dptr, n) then Success else InvalidValue
    ensures e.Success? ==> |data| == n && forall k :: 0 <= k < n ==> data[k] == value % 0x100
  {
    hide InStep, TableOk, Patched, BuffersOf, LiesInOne;
    e := rt.Memset(dptr, value, n);
    if !e.Success? {
      return e, [];
    }
    e, data := rt.CopyToHost(dptr, n);
  }

  lemma LiveHandle(allocs: map<nat, Allocation>, t: seq<Bo>, base: nat)
    requires InStep(allocs, t) && base in allocs
    ensures 1 <= allocs[base].handle <= |t| && t[allocs[base].handle - 1] == Bo(base, allocs[base].size, true)
  {}

  lemma DriverTable(drv: Driver)
    requires drv.Valid()
    ensures TableOk(drv.bos[..], drv.hw.vram.Length)
  {}

  /** A range that lies in some buffer lies in the one that starts at or last before it. */
  lemma OnlyFloor(allocs: map<nat, Allocation>, t: seq<Bo>, vram: nat, floor: nat, dptr: nat, n: nat)
    requires InStep(allocs, t) && TableOk(t, vram) && n > 0
    requires floor in allocs && floor <= dptr && forall key :: key in allocs && key <= dptr ==> key <= floor
    ensures LiesInOne(allocs, dptr, n) <==> LiesIn(allocs, floor, dptr, n)
  {
    if LiesInOne(allocs, dptr, n) {
      var base :| LiesIn(allocs, base, dptr, n);
      if base != floor {
        BuffersApart(allocs, t, vram, base, floor);
      }
    }
  }
}
