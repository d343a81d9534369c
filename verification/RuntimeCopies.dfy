/**
 Device-to-device copies are not checked against the allocation map
 (driver/titan_runtime.cpp): one that runs over the end of a buffer reports success and
 changes the next one. A copy is confined to the buffer it is aimed at exactly when its
 destination range meets no other.
 */
module RuntimeCopies {
  import opened Bits
  import opened Memory
  import opened CommandRing
  import opened VramTable
  import opened Runtime
  import Isa

  /** The range has a byte in the buffer at b. */
  predicate Meets(allocs: map<nat, Allocation>, b: nat, dst: nat, n: nat) {
    b in allocs && n > 0 && allocs[b].size > 0 && dst < b + allocs[b].size && b < dst + n
  }

  ghost predicate MeetsNoOther(allocs: map<nat, Allocation>, b: nat, dst: nat, n: nat) {
    forall a: nat :: Meets(allocs, a, dst, n) ==> a == b
  }

  /** Every buffer but the one at b has its content still. */
  ghost predicate OthersKept(allocs: map<nat, Allocation>, vram: Bytes, vram': Bytes, b: nat)
    requires |vram'| == |vram| && forall a: nat :: a in allocs ==> a + allocs[a].size <= |vram|
  {
    forall a: nat :: a in allocs && a != b ==> Content(allocs[a], vram', a) == Content(allocs[a], vram, a)
  }

  /** Whatever is in memory, the copy changes no buffer but the one at b. */
  ghost predicate Confined(allocs: map<nat, Allocation>, size: nat, src: nat, dst: nat, n: nat, b: nat)
    requires src + n <= size && dst + n <= size && forall a: nat :: a in allocs ==> a + allocs[a].size <= size
  {
    forall vram: Bytes :: |vram| == size ==> OthersKept(allocs, vram, Moved(vram, src, dst, n), b)
  }

  lemma MovedAt(vram: Bytes, src: nat, dst: nat, n: nat, x: nat)
    requires src + n <= |vram| && dst + n <= |vram| && x < |vram|
    ensures Moved(vram, src, dst, n)[x] == if dst <= x < dst + n then vram[src + (x - dst)] else vram[x]
  {}

  /** A buffer that the range does not meet keeps its content. */
  lemma UnmetKept(allocs: map<nat, Allocation>, vram: Bytes, src: nat, dst: nat, n: nat, a: nat)
    requires src + n <= |vram| && dst + n <= |vram| && a in allocs && a + allocs[a].size <= |vram|
    requires src == dst || !Meets(allocs, a, dst, n)
    ensures Content(allocs[a], Moved(vram, src, dst, n), a) == Content(allocs[a], vram, a)
  {
    hide Moved;
    var before, after := Content(allocs[a], vram, a), Content(allocs[a], Moved(vram, src, dst, n), a);
    forall k | 0 <= k < allocs[a].size
      ensures after[k] == before[k]
    {
      MovedAt(vram, src, dst, n, a + k);
    }
  }

  /** Memory striped with 0 and 1, d bytes each: a shift by d changes every byte. */
  function Stripes(size: nat, d: nat): (mem: Bytes)
    requires d > 0
    ensures |mem| == size
  {
    seq(size, p => p / d % 2)
  }

  lemma StripesDiffer(size: nat, d: nat, x: nat, y: nat)
    requires d > 0 && x < size && y < size && (y == x + d || x == y + d)
    ensures Stripes(size, d)[x] != Stripes(size, d)[y]
  {
    NextStripe(if x < y then x else y, d);
  }

  lemma NextStripe(x: nat, d: nat)
    requires d > 0
    ensures (x + d) / d == x / d + 1
  {
    var q, r := x / d, x % d;
    assert x == q * d + r;
    assert x + d == (q + 1) * d + r;
    Isa.QuotientUnique((x + d) / d, (x + d) % d, q + 1, r, d);
  }

  /** A second buffer that the range meets is changed by some content. */
  lemma MetChanged(allocs: map<nat, Allocation>, size: nat, src: nat, dst: nat, n: nat, a: nat) returns (vram: Bytes)
    requires src + n <= size && dst + n <= size && src != dst
    requires Meets(allocs, a, dst, n) && a + allocs[a].size <= size
    ensures |vram| == size && Content(allocs[a], Moved(vram, src, dst, n), a) != Content(allocs[a], vram, a)
  {
    hide Moved, Stripes;
    assert dst < a + allocs[a].size && a < dst + n;
    var d := if src < dst then dst - src else src - dst;
    vram := Stripes(size, d);
    var x := if a < dst then dst else a;
    MovedAt(vram, src, dst, n, x);
    StripesDiffer(size, d, x, src + (x - dst));
    assert Content(allocs[a], vram, a)[x - a] == vram[x];
    assert Content(allocs[a], Moved(vram, src, dst, n), a)[x - a] == Moved(vram, src, dst, n)[x];
  }

  /**
   Main result: for every content of memory the copy changes no buffer but the one at b, if
   and only if its destination range meets no other buffer (or source and destination are
   the same).
   */
  lemma ConfinedExactly(allocs: map<nat, Allocation>, size: nat, src: nat, dst: nat, n: nat, b: nat)
    requires src + n <= size && dst + n <= size && forall a: nat :: a in allocs ==> a + allocs[a].size <= size
    ensures Confined(allocs, size, src, dst, n, b) <==> src == dst || MeetsNoOther(allocs, b, dst, n)
  {
    hide Moved, Content, Meets;
    if src == dst || MeetsNoOther(allocs, b, dst, n) {
      forall vram: Bytes | |vram| == size
        ensures OthersKept(allocs, vram, Moved(vram, src, dst, n), b)
      {
        forall a: nat | a in allocs && a != b
          ensures Content(allocs[a], Moved(vram, src, dst, n), a) == Content(allocs[a], vram, a)
        {
          UnmetKept(allocs, vram, src, dst, n, a);
        }
      }
    } else {
      var a: nat :| Meets(allocs, a, dst, n) && a != b;
      MetInMap(allocs, a, dst, n);
      var vram := MetChanged(allocs, size, src, dst, n, a);
      assert !OthersKept(allocs, vram, Moved(vram, src, dst, n), b);
    }
  }

  lemma MetInMap(allocs: map<nat, Allocation>, a: nat, dst: nat, n: nat)
    requires Meets(allocs, a, dst, n)
    ensures a in allocs
  {}

  /** The two bytes across the border of adjacent buffers: a host copy of that range is refused, a device copy changes the second buffer. */
  lemma NeighbourChanged(allocs: map<nat, Allocation>, t: seq<Bo>, vram: Bytes, a: nat, b: nat, src: nat)
    requires InStep(allocs, t) && TableOk(t, |vram|) && a in allocs && b in allocs && b == a + allocs[a].size
    requires src + 2 <= |vram| && vram[src + 1] != vram[b]
    ensures b + allocs[b].size <= |vram| && allocs[b].size > 0 && b - 1 + 2 <= |vram|
    ensures LiesIn(allocs, a, b - 1, 1) && !LiesInOne(allocs, b - 1, 2)
    ensures Content(allocs[b], Moved(vram, src, b - 1, 2), b) != Content(allocs[b], vram, b)
  {
    hide Moved, InStep, TableOk;
    Located(allocs, t, |vram|);
    MovedAt(vram, src, b - 1, 2, b);
    assert Content(allocs[b], vram, b)[0] == vram[b];
    assert Content(allocs[b], Moved(vram, src, b - 1, 2), b)[0] == Moved(vram, src, b - 1, 2)[b];
    if LiesInOne(allocs, b - 1, 2) {
      var c :| LiesIn(allocs, c, b - 1, 2);
      if c != a {
        BuffersApart(allocs, t, |vram|, a, c);
      }
    }
  }

  /** Two buffers of a page each, one after the other, as two first allocations place them. */
  function TwoBuffers(): map<nat, Allocation> {
    map[4096 := Allocation(1, 4096), 8192 := Allocation(2, 4096)]
  }

  function TwoObjects(): seq<Bo> {
    seq(MAX_BOS, i => if i == 0 then Bo(4096, 4096, true) else if i == 1 then Bo(8192, 4096, true) else Bo(0, 0, false))
  }

  /** A concrete case: copying address 0, of memory that is 1 from address 1 to 8191, to the last byte of the first buffer. */
  lemma CrossingCopy()
    ensures InStep(TwoBuffers(), TwoObjects())
    ensures var vram: Bytes := seq(16384, x => if 1 <= x < 8192 then 1 else 0);
      && TableOk(TwoObjects(), |vram|) && !LiesInOne(TwoBuffers(), 8191, 2)
      && Content(TwoBuffers()[8192], Moved(vram, 0, 8191, 2), 8192) != Content(TwoBuffers()[8192], vram, 8192)
  {
    hide Moved, Content;
    var vram: Bytes := seq(16384, x => if 1 <= x < 8192 then 1 else 0);
    NeighbourChanged(TwoBuffers(), TwoObjects(), vram, 4096, 8192, 0);
  }
}
