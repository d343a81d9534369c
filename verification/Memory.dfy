/** Byte-addressed little-endian memory, as `struct.pack_into("<I", ...)` and `memcpy` of a uint32_t use it. */
module Memory {
  import opened Bits

  type Bytes = seq<u8>

  predicate InBounds(mem: Bytes, addr: int, len: nat) {
    0 <= addr && addr + len <= |mem|
  }

  function Rd32(mem: Bytes, addr: int): u32
    requires InBounds(mem, addr, 4)
  {
    mem[addr] as int + 0x100 * mem[addr + 1] as int + 0x1_0000 * mem[addr + 2] as int + 0x100_0000 * mem[addr + 3] as int
  }

  function Wr32(mem: Bytes, addr: int, v: u32): (mem': Bytes)
    requires InBounds(mem, addr, 4)
    ensures |mem'| == |mem|
    ensures Rd32(mem', addr) == v
    ensures forall k {:trigger mem'[k]} :: 0 <= k < |mem| && !(addr <= k < addr + 4) ==> mem'[k] == mem[k]
  {
    BytesOfWord(v);
    mem[addr := v % 0x100][addr + 1 := v / 0x100 % 0x100][addr + 2 := v / 0x1_0000 % 0x100][addr + 3 := v / 0x100_0000]
  }

  lemma BytesOfWord(v: u32)
    ensures v == v % 0x100 + 0x100 * (v / 0x100 % 0x100) + 0x1_0000 * (v / 0x1_0000 % 0x100) + 0x100_0000 * (v / 0x100_0000)
  {
    assert v / 0x1_0000 == v / 0x100 / 0x100;
    assert v / 0x100_0000 == v / 0x1_0000 / 0x100;
  }

  /** A word read is not affected by a write that does not overlap it. */
  lemma RdAfterWrElsewhere(mem: Bytes, addr: int, v: u32, at: int)
    requires InBounds(mem, addr, 4) && InBounds(mem, at, 4)
    requires at + 4 <= addr || addr + 4 <= at
    ensures Rd32(Wr32(mem, addr, v), at) == Rd32(mem, at)
  {
    var mem' := Wr32(mem, addr, v);
    assert mem'[at] == mem[at] && mem'[at + 1] == mem[at + 1] && mem'[at + 2] == mem[at + 2] && mem'[at + 3] == mem[at + 3];
  }

  /** A part of memory that is meant to stay as it is. */
  datatype Region = Region(lo: nat, bytes: Bytes) {
    predicate Holds(mem: Bytes) {
      lo + |bytes| <= |mem| && mem[lo..lo + |bytes|] == bytes
    }

    /** A word store at this address does not touch it. */
    predicate Avoids(addr: int) {
      addr + 4 <= lo || lo + |bytes| <= addr
    }
  }

  /** The region of no bytes, which every memory holds and every store avoids. */
  const NOWHERE := Region(0, [])

  lemma StoreElsewhere(keep: Region, mem: Bytes, addr: nat, v: u32)
    requires keep.Holds(mem) && InBounds(mem, addr, 4) && keep.Avoids(addr)
    ensures keep.Holds(Wr32(mem, addr, v))
  {
    var mem' := Wr32(mem, addr, v);
    assert forall k :: keep.lo <= k < keep.lo + |keep.bytes| ==> mem'[k] == mem[k];
  }
}
