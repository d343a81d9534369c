/**
 The driver's device state (driver/titan_x6_drv.c): first-fit allocation of buffer objects,
 reads and writes through them, and command submission through the ring.
 */
module DriverDevice {
  import opened Bits
  import opened Memory
  import opened GpuThread
  import opened CommandRing
  import opened GpuDevice
  import opened VramTable
  import opened Options

  datatype Status<T> = Ok(value: T) | EInval | ENoMem | ETimedOut

  /** `titan_fence_done`, from the fence register. */
  predicate FenceDone(fenceSeq: u32, seq_: u32) {
    Signed(fenceSeq as int - seq_ as int) >= 0
  }

  class Driver {
    const hw: Gpu
    const bos: array<Bo>
    var ringWptr: nat
    var fenceCounter: u32

    ghost predicate Valid()
      reads this, hw, hw.vram, hw.ring, bos
    {
      && hw.Valid() && hw.ctrl % 2 == 1
      && TableOk(bos[..], hw.vram.Length)
      && ringWptr == hw.wptr == hw.rptr
    }

    /** `titan_probe_common`: empty tables, a device with cleared VRAM, and the command processor enabled. */
    constructor (math: HostMath, vramBytes: u32)
      ensures Valid() && fresh(hw) && fresh(hw.vram) && fresh(hw.ring) && fresh(bos)
      ensures hw.math == math && hw.vram.Length == vramBytes && fenceCounter == 0 && !hw.error && hw.fenceSeq == 0
      ensures forall i :: 0 <= i < bos.Length ==> !bos[i].used
    {
      bos := new Bo[MAX_BOS](_ => Bo(0, 0, false));
      ringWptr, fenceCounter := 0, 0;
      var ring := new u64[RING_QWORDS](_ => 0);
      var gpu := new Gpu(math, vramBytes, ring);
      NothingPending(ring[..], 0);
      gpu.Doorbell(0);
      gpu.SetControl(1);
      hw := gpu;
    }

    // --- buffer objects ---

    method RangeIsFree(addr: nat, size: nat) returns (free: bool)
      ensures free == Free(bos[..], addr, size)
    {
      for i := 0 to bos.Length
        invariant Free(bos[..i], addr, size)
      {
        var bo := bos[i];
        if bo.used && addr < bo.addr + bo.size && bo.addr < addr + size {
          assert bos[..][i] == bo;
          return false;
        }
        assert bos[..i + 1] == bos[..i] + [bo];
      }
      assert bos[..bos.Length] == bos[..];
      return true;
    }

    method FindSlot() returns (slot: nat)
      ensures slot <= bos.Length
      ensures slot < bos.Length ==> !bos[slot].used
      ensures forall i :: 0 <= i < slot ==> bos[i].used
    {
      slot := 0;
      while slot < bos.Length && bos[slot].used
        invariant slot <= bos.Length && forall i :: 0 <= i < slot ==> bos[i].used
      {
        slot := slot + 1;
      }
    }

    /** The address after the objects in the way of n bytes at addr. */
    method SkipPast(addr: nat, n: nat) returns (next: nat)
      requires TableOk(bos[..], hw.vram.Length) && addr % PAGE == 0 && addr >= HEAP_BASE && !Free(bos[..], addr, n)
      ensures addr < next && next % PAGE == 0
      ensures next <= addr + PAGE || next <= hw.vram.Length
      ensures forall a: nat :: addr <= a < next ==> !FitsAt(bos[..], hw.vram.Length, n, a)
    {
      ghost var t, vram := bos[..], hw.vram.Length;
      next := addr + PAGE;
      assert forall a: nat :: addr <= a < next ==> !FitsAt(t, vram, n, a);
      for i := 0 to bos.Length
        invariant addr + PAGE <= next && next % PAGE == 0 && (next <= addr + PAGE || next <= vram)
        invariant forall a: nat :: addr <= a < next ==> !FitsAt(t, vram, n, a)
      {
        var bo := bos[i];
        if bo.used && addr < bo.addr + bo.size && bo.addr < addr + n && bo.addr + bo.size > next {
          forall a: nat | addr <= a < bo.addr + bo.size
            ensures !FitsAt(t, vram, n, a)
          {
            JumpSkipsNothing(t, vram, n, addr, i, a);
          }
          next := bo.addr + bo.size;
        }
      }
    }

    /**
     `titan_bo_alloc`: the lowest page address at which the rounded size fits, in the first
     free slot. It fails exactly when there is no free slot or no such address.
     */
    method Alloc(size: nat) returns (r: Status<(nat, nat)>)
      requires Valid() && Moderate(size, hw.vram.Length)
      modifies bos
      ensures Valid()
      ensures r.Ok? || r.ENoMem?
      ensures r.ENoMem? <==> NoSlot(old(bos[..])) || forall a: nat :: !FitsAt(old(bos[..]), hw.vram.Length, Needed(size), a)
      ensures r.ENoMem? ==> bos[..] == old(bos[..])
      ensures r.Ok? ==>
        var (handle, addr) := r.value;
        && 1 <= handle <= MAX_BOS && !old(bos[..])[handle - 1].used
        && (forall i :: 0 <= i < handle - 1 ==> old(bos[..])[i].used)
        && FitsAt(old(bos[..]), hw.vram.Length, Needed(size), addr)
        && NothingFitsBelow(old(bos[..]), hw.vram.Length, Needed(size), addr)
        && bos[..] == old(bos[..])[handle - 1 := Bo(addr, Needed(size), true)]
    {
      hide TableOk, Needed;
      var need, vram := Needed(size), hw.vram.Length;
      NeededBounds(size, vram);
      ghost var t := bos[..];
      TableSize(t, vram);
      var slot := FindSlot();
      if slot == MAX_BOS {
        assert NoSlot(t);
        return ENoMem;
      }
      assert !t[slot].used;
      var addr := HEAP_BASE;
      while addr + need <= vram
        invariant addr % PAGE == 0 && addr >= HEAP_BASE && NothingFitsBelow(t, vram, need, addr) && bos[..] == t
        decreases vram - addr
      {
        var free := RangeIsFree(addr, need);
        if free {
          assert FitsAt(t, vram, need, addr);
          AllocKeeps(t, vram, slot, need, addr);
          bos[slot] := Bo(addr, need, true);
          assert bos[..] == t[slot := Bo(addr, need, true)];
          return Ok((slot + 1, addr));
        }
        var next := SkipPast(addr, need);
        forall a: nat | a < next
          ensures !FitsAt(t, vram, need, a)
        {
          assert a >= addr ==> !FitsAt(bos[..], hw.vram.Length, need, a);
          assert bos[..] == t;
        }
        addr := next;
      }
      forall a: nat
        ensures !FitsAt(t, vram, need, a)
      {}
      return ENoMem;
    }

    /** `titan_bo_lookup` */
    predicate IsLive(handle: nat)
      reads bos
    {
      1 <= handle <= bos.Length && bos[handle - 1].used
    }

    /** TITAN_IOCTL_GEM_FREE */
    method GemFree(handle: nat) returns (r: Status<()>)
      requires Valid()
      modifies bos
      ensures Valid()
      ensures r == if old(IsLive(handle)) then Ok(()) else EInval
      ensures bos[..] == if old(IsLive(handle)) then old(bos[..])[handle - 1 := old(bos[..])[handle - 1].(used := false)]
                         else old(bos[..])
    {
      hide TableOk;
      TableSize(bos[..], hw.vram.Length);
      if !IsLive(handle) {
        return EInval;
      }
      FreeKeeps(bos[..], hw.vram.Length, handle - 1);
      ghost var t := bos[..];
      bos[handle - 1] := bos[handle - 1].(used := false);
      assert bos[..] == t[handle - 1 := t[handle - 1].(used := false)];
      r := Ok(());
    }

    /** The checks of GEM_WRITE and GEM_READ. */
    predicate Accessible(handle: nat, offset: nat, n: nat)
      reads bos
    {
      IsLive(handle) && offset + n <= bos[handle - 1].size
    }

    lemma AccessInBounds(handle: nat, offset: nat, n: nat)
      requires Valid() && Accessible(handle, offset, n)
      ensures bos[handle - 1].addr + offset + n <= hw.vram.Length
    {
      assert Placed(bos[..][handle - 1], hw.vram.Length);
    }

    /** TITAN_IOCTL_GEM_WRITE */
    method GemWrite(handle: nat, offset: nat, data: Bytes) returns (r: Status<()>)
      requires Valid()
      modifies hw.vram
      ensures Valid() && bos[..] == old(bos[..])
      ensures r == if old(Accessible(handle, offset, |data|)) then Ok(()) else EInval
      ensures r.EInval? ==> hw.vram[..] == old(hw.vram[..])
      ensures r.Ok? ==>
        var at := bos[handle - 1].addr + offset;
        && at + |data| <= hw.vram.Length
        && hw.vram[..] == old(hw.vram[..at]) + data + old(hw.vram[at + |data|..])
    {
      if !Accessible(handle, offset, |data|) {
        return EInval;
      }
      AccessInBounds(handle, offset, |data|);
      var at := bos[handle - 1].addr + offset;
      forall k | 0 <= k < |data| {
        hw.vram[at + k] := data[k];
      }
      r := Ok(());
    }

    /** TITAN_IOCTL_GEM_READ */
    method GemRead(handle: nat, offset: nat, n: nat) returns (r: Status<Bytes>)
      requires Valid()
      ensures if Accessible(handle, offset, n)
              then bos[handle - 1].addr + offset + n <= hw.vram.Length
                   && r == Ok(hw.vram[bos[handle - 1].addr + offset..bos[handle - 1].addr + offset + n])
              else r == EInval
    {
      if !Accessible(handle, offset, n) {
        return EInval;
      }
      AccessInBounds(handle, offset, n);
      var at := bos[handle - 1].addr + offset;
      r := Ok(hw.vram[at..at + n]);
    }

    // --- command submission ---

    /** The validation loop of `titan_submit`: known opcodes, and packets that add up. */
    method Validate(cmds: seq<u64>) returns (ok: bool)
      ensures ok == Parse(cmds).Some?
    {
      hide Parse, Length;
      var i := 0;
      assert cmds[0..] == cmds;
      while i < |cmds|
        invariant i <= |cmds| && (Parse(cmds[i..]).Some? <==> Parse(cmds).Some?)
      {
        ParseStep(cmds[i..]);
        var len := Length(cmds[i]);
        if len.None? || i + len.value > |cmds| {
          return false;
        }
        assert cmds[i..][len.value..] == cmds[i + len.value..];
        i := i + len.value;
      }
      assert cmds[i..] == [];
      ParseNothing();
      return true;
    }

    /** Appends one word to the ring. */
    method Put(x: u64)
      requires hw.ring.Length == RING_QWORDS && ringWptr < RING_QWORDS && hw.rptr < RING_QWORDS
      requires Distance(hw.rptr, ringWptr) < RING_QWORDS - 1
      modifies this`ringWptr, hw.ring
      ensures ringWptr < RING_QWORDS && Distance(hw.rptr, ringWptr) == old(Distance(hw.rptr, ringWptr)) + 1
      ensures Pending(hw.ring[..], hw.rptr, ringWptr) == old(Pending(hw.ring[..], hw.rptr, ringWptr)) + [x]
    {
      PendingWrite(hw.ring[..], hw.rptr, ringWptr, x);
      hw.ring[ringWptr] := x;
      ringWptr := Succ(ringWptr);
    }

    /** The packets that a command buffer divides into may use 32-bit DMA operands only. */
    ghost predicate Submittable(cmds: seq<u64>) {
      Parse(cmds).Some? ==> forall p <- Parse(cmds).value :: Fits(p)
    }

    /**
     `titan_submit`. An illegal batch is refused and changes nothing. Otherwise the device
     has executed exactly the packets of the batch, then retired a fence with the new
     sequence number, and the ring is empty again.
     */
    method Submit(cmds: seq<u64>) returns (r: Status<u32>)
      requires Valid() && Submittable(cmds)
      modifies this`ringWptr, this`fenceCounter, hw, hw.vram, hw.ring
      ensures Valid()
      ensures r.Ok? || r.EInval?
      ensures r.EInval? <==> |cmds| == 0 || |cmds| > RING_QWORDS - 2 || Parse(cmds).None?
      ensures r.EInval? ==> fenceCounter == old(fenceCounter) && hw.Proc() == old(hw.Proc())
      ensures r.Ok? ==> r.value == fenceCounter == Wrap(old(fenceCounter) + 1) && hw.fenceSeq == r.value && FenceDone(hw.fenceSeq, r.value)
      ensures r.Ok? ==> hw.Proc() == ExecuteAll(hw.math, Parse(cmds).value + [Fence(r.value)], old(hw.Proc()))
    {
      hide Pending, Parse, Fits, ExecuteAll, TableOk, FenceHeader, Distance;
      if |cmds| == 0 || |cmds| > RING_QWORDS - 2 {
        return EInval;
      }
      var ok := Validate(cmds);
      if !ok {
        return EInval;
      }
      StartsEmpty(hw.ring[..], hw.rptr);
      for i := 0 to |cmds|
        invariant ringWptr < RING_QWORDS && hw.ring.Length == RING_QWORDS && Distance(hw.rptr, ringWptr) == i
        invariant Pending(hw.ring[..], hw.rptr, ringWptr) == cmds[..i]
        modifies this`ringWptr, hw.ring
      {
        Put(cmds[i]);
        assert cmds[..i + 1] == cmds[..i] + [cmds[i]];
      }
      assert cmds[..|cmds|] == cmds;
      fenceCounter := Wrap(fenceCounter as int + 1);
      Put(FenceHeader(fenceCounter));
      BatchPackets(cmds, fenceCounter);
      ghost var before := hw.Proc();
      hw.Doorbell(ringWptr);
      FenceRetires(hw.math, Parse(cmds).value, fenceCounter, before);
      r := Ok(fenceCounter);
    }

    /** TITAN_IOCTL_WAIT: a bounded poll of the fence register, then the acknowledgement of the interrupt. */
    method Wait(fence: u32, timeoutMs: u32) returns (r: Status<()>)
      requires Valid()
      modifies hw`intrStatus
      ensures Valid()
      ensures r == if FenceDone(hw.fenceSeq, fence) then Ok(()) else ETimedOut
      ensures hw.intrStatus == if r.Ok? then old(hw.intrStatus) - old(hw.intrStatus) % 2 else old(hw.intrStatus)
    {
      hide TableOk, FenceDone;
      var spins: u32 := if timeoutMs != 0 then Wrap(timeoutMs as int * 1000) else 1;
      while !FenceDone(hw.fenceSeq, fence) && spins != 0
        modifies {}
        decreases spins
      {
        spins := spins - 1;
      }
      if !FenceDone(hw.fenceSeq, fence) {
        return ETimedOut;
      }
      hw.AcknowledgeFence();
      r := Ok(());
    }
  }

  lemma StartsEmpty(ring: seq<u64>, r: nat)
    requires |ring| == RING_QWORDS && r < RING_QWORDS
    ensures Pending(ring, r, r) == [] && Distance(r, r) == 0
  {}

  /** The batch with its fence divides into the packets of the batch and the fence: it is never read as an operand. */
  lemma BatchPackets(cmds: seq<u64>, seq_: u32)
    requires Parse(cmds).Some? && forall p <- Parse(cmds).value :: Fits(p)
    ensures Parse(cmds + [FenceHeader(seq_)]) == Some(Parse(cmds).value + [Fence(seq_)])
    ensures forall p <- Parse(cmds).value + [Fence(seq_)] :: Fits(p)
  {
    hide Parse, FenceHeader;
    ParseFence(seq_);
    ParseAppend(cmds, [FenceHeader(seq_)]);
  }

  lemma FenceRetires(m: HostMath, ps: seq<Packet>, seq_: u32, s: Processor)
    ensures ExecuteAll(m, ps + [Fence(seq_)], s).fenceSeq == seq_ && FenceDone(seq_, seq_)
  {
    ExecuteAppend(m, ps, [Fence(seq_)], s);
    var s' := ExecuteAll(m, ps, s);
    assert [Fence(seq_)][1..] == [];
  }

  lemma NothingPending(ring: seq<u64>, r: nat)
    requires |ring| == RING_QWORDS && r < RING_QWORDS
    ensures Pending(ring, r, r) == [] && Parse([]) == Some([])
  {}

  lemma TableSize(t: seq<Bo>, vram: nat)
    requires TableOk(t, vram)
    ensures |t| == MAX_BOS
  {}
}
