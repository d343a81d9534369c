/** The buffer-object table of driver/titan_x6_drv.c: what fits where, and which tables are sound. */
module VramTable {
  import opened Bits

  const PAGE := 4096
  const MAX_BOS := 1024
  const HEAP_BASE := 4096

  datatype Bo = Bo(addr: nat, size: nat, used: bool)

  /** `round_up_page`, with its truncation to uint32_t. */
  function RoundUp(size: nat): u32 {
    (size + PAGE - 1) / PAGE * PAGE % TWO32
  }

  /** The size that the allocator looks for. */
  function Needed(size: nat): u32 {
    RoundUp(if size == 0 then 1 else size)
  }

  /** No 32-bit sum of the allocator wraps for this request. */
  predicate Moderate(size: nat, vram: nat) {
    size + vram + 2 * PAGE <= TWO32
  }

  lemma NeededBounds(size: nat, vram: nat)
    requires Moderate(size, vram)
    ensures Needed(size) % PAGE == 0 && PAGE <= Needed(size) && size <= Needed(size) < size + PAGE + 1
    ensures Needed(size) + vram + PAGE <= TWO32
  {}

  /** The size looked for is the least positive number of whole pages that holds the request. */
  lemma NeededIsLeast(size: nat, vram: nat, pages: nat)
    requires Moderate(size, vram)
    ensures Needed(size) % PAGE == 0 && size <= Needed(size) && 0 < Needed(size)
    ensures size <= pages * PAGE && 0 < pages ==> Needed(size) <= pages * PAGE
  {}

  predicate Overlaps(bo: Bo, addr: nat, n: nat) {
    addr < bo.addr + bo.size && bo.addr < addr + n
  }

  /** `range_is_free` */
  predicate Free(t: seq<Bo>, addr: nat, n: nat) {
    forall i :: 0 <= i < |t| && t[i].used ==> !Overlaps(t[i], addr, n)
  }

  /** A page address at which n bytes fit. */
  predicate FitsAt(t: seq<Bo>, vram: nat, n: nat, addr: nat) {
    addr % PAGE == 0 && HEAP_BASE <= addr && addr + n <= vram && Free(t, addr, n)
  }

  predicate NothingFitsBelow(t: seq<Bo>, vram: nat, n: nat, addr: nat) {
    forall a: nat :: a < addr ==> !FitsAt(t, vram, n, a)
  }

  predicate Placed(bo: Bo, vram: nat) {
    bo.addr % PAGE == 0 && bo.size % PAGE == 0 && bo.size > 0 && HEAP_BASE <= bo.addr && bo.addr + bo.size <= vram
  }

  /** Live objects are page-aligned, inside the heap and pairwise disjoint. */
  predicate TableOk(t: seq<Bo>, vram: nat) {
    && |t| == MAX_BOS
    && (forall i :: 0 <= i < |t| && t[i].used ==> Placed(t[i], vram))
    && forall i, j :: 0 <= i < j < |t| && t[i].used && t[j].used ==> !Overlaps(t[i], t[j].addr, t[j].size)
  }

  predicate NoSlot(t: seq<Bo>) {
    forall i :: 0 <= i < |t| ==> t[i].used
  }

  lemma AllocKeeps(t: seq<Bo>, vram: nat, slot: nat, n: nat, addr: nat)
    requires TableOk(t, vram) && slot < |t| && !t[slot].used && n > 0 && n % PAGE == 0 && FitsAt(t, vram, n, addr)
    ensures TableOk(t[slot := Bo(addr, n, true)], vram)
  {}

  lemma FreeKeeps(t: seq<Bo>, vram: nat, slot: nat)
    requires TableOk(t, vram) && slot < |t|
    ensures TableOk(t[slot := t[slot].(used := false)], vram)
  {}

  /**
   The jump past the objects that overlap the range at addr skips no fit: at every address
   up to the end of one of them, that object is still in the way.
   */
  lemma JumpSkipsNothing(t: seq<Bo>, vram: nat, n: nat, addr: nat, i: nat, a: nat)
    requires i < |t| && t[i].used && Overlaps(t[i], addr, n) && addr <= a < t[i].addr + t[i].size
    ensures !FitsAt(t, vram, n, a)
  {
    assert Overlaps(t[i], a, n);
  }
}
