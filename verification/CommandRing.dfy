/**
 The command ring of driver/titan_x6_drv.h: 64-bit words with the opcode in the low byte,
 how a sequence of words divides into packets, and what the packets do to the device.
 */
module CommandRing {
  import opened Bits
  import opened Memory
  import opened GpuThread
  import opened Options

  const RING_QWORDS := 512
  const CMD_NOP := 0
  const CMD_DISPATCH := 2
  const CMD_DMA := 3
  const CMD_FENCE := 4

  type u64 = x: int | 0 <= x < 0x1_0000_0000_0000_0000

  /** `(uint32_t)x` */
  function Low32(x: u64): u32 {
    x % TWO32
  }

  function High32(x: u64): u32 {
    x / TWO32
  }

  /** `TITAN_CMD_HDR(TITAN_CMD_FENCE, seq)` */
  function FenceHeader(seq_: u32): u64 {
    seq_ * 0x100 + CMD_FENCE
  }

  // --- packets ---

  datatype Packet =
    | Nop
    | Dispatch(codeAddr: u32, paramAddr: u32, nthreads: u32)
    | Dma(src: u64, dst: u64, len: u64)
    | Fence(seq_: u32)

  /** How many words a packet with this header occupies; None for an unknown opcode. */
  function Length(header: u64): (n: Option<nat>)
    ensures n.Some? ==> 1 <= n.value <= 4
  {
    var op := header % 0x100;
    if op == CMD_NOP || op == CMD_FENCE then Some(1)
    else if op == CMD_DISPATCH then Some(3)
    else if op == CMD_DMA then Some(4)
    else None
  }

  /** The first packet of a sequence of words. */
  function First(words: seq<u64>): Packet
    requires words != [] && Length(words[0]).Some? && Length(words[0]).value <= |words|
  {
    var op := words[0] % 0x100;
    if op == CMD_NOP then Nop
    else if op == CMD_FENCE then Fence(Low32(words[0] / 0x100))
    else if op == CMD_DISPATCH then Dispatch(Low32(words[1]), Low32(words[2]), High32(words[2]))
    else Dma(words[1], words[2], words[3])
  }

  /** The packets that the words divide into; None when an opcode is unknown or the last packet is cut short. */
  function Parse(words: seq<u64>): Option<seq<Packet>>
    decreases |words|
  {
    if words == [] then Some([])
    else
      var n :- Length(words[0]);
      if n > |words| then None
      else
        var rest :- Parse(words[n..]);
        Some([First(words)] + rest)
  }

  lemma ParseStep(words: seq<u64>)
    requires words != []
    ensures var n := Length(words[0]);
      if n.None? || n.value > |words| then Parse(words).None?
      else
        && (Parse(words).Some? <==> Parse(words[n.value..]).Some?)
        && (Parse(words).Some? ==> Parse(words).value == [First(words)] + Parse(words[n.value..]).value)
  {
    hide First, Length;
  }

  lemma FirstOfAppend(a: seq<u64>, b: seq<u64>)
    requires a != [] && Length(a[0]).Some? && Length(a[0]).value <= |a|
    ensures First(a + b) == First(a)
  {
    assert forall k :: 0 <= k < |a| ==> (a + b)[k] == a[k];
  }

  lemma {:induction false} ParseAppend(a: seq<u64>, b: seq<u64>)
    requires Parse(a).Some?
    ensures Parse(a + b).Some? <==> Parse(b).Some?
    ensures Parse(b).Some? ==> Parse(a + b).value == Parse(a).value + Parse(b).value
    decreases |a|
  {
    hide First, Length, Parse;
    if a == [] {
      assert a + b == b;
      ParseNothing();
    } else {
      ParseStep(a);
      ParseStep(a + b);
      FirstOfAppend(a, b);
      var n := Length(a[0]).value;
      assert (a + b)[n..] == a[n..] + b;
      ParseAppend(a[n..], b);
    }
  }

  lemma ParseNothing()
    ensures Parse([]) == Some([])
  {}

  lemma ParseFence(seq_: u32)
    ensures Parse([FenceHeader(seq_)]) == Some([Fence(seq_)])
  {
    var w := FenceHeader(seq_);
    assert w % 0x100 == CMD_FENCE && w / 0x100 == seq_;
    var words := [w];
    assert Length(words[0]) == Some(1);
    assert words[1..] == [];
    assert Parse(words[1..]) == Some([]);
    assert First(words) == Fence(seq_);
    assert [First(words)] + [] == [Fence(seq_)];
  }

  /** A packet as words; the driver leaves the upper bits of the headers of DISPATCH and DMA at 0. */
  function WordsOf(p: Packet): (words: seq<u64>)
    ensures 1 <= |words| <= 4
  {
    match p
    case Nop => [CMD_NOP]
    case Dispatch(codeAddr, paramAddr, nthreads) => [CMD_DISPATCH, codeAddr, nthreads as int * TWO32 + paramAddr as int]
    case Dma(src, dst, len) => [CMD_DMA, src, dst, len]
    case Fence(seq_) => [FenceHeader(seq_)]
  }

  function AllWords(ps: seq<Packet>): seq<u64> {
    if ps == [] then [] else WordsOf(ps[0]) + AllWords(ps[1..])
  }

  lemma OnePacket(p: Packet)
    ensures var w := WordsOf(p); Length(w[0]) == Some(|w|) && First(w) == p
  {
    if p.Dispatch? {
      var w := p.nthreads as int * TWO32 + p.paramAddr as int;
      assert Low32(w) == p.paramAddr && High32(w) == p.nthreads;
    }
  }

  /** Packets survive being written as words and read again, whatever their number and kinds. */
  lemma {:induction false} ParseOfWords(ps: seq<Packet>)
    ensures Parse(AllWords(ps)) == Some(ps)
  {
    hide Length, First, WordsOf, Parse;
    if ps == [] {
      ParseNothing();
    } else {
      var w, rest := WordsOf(ps[0]), AllWords(ps[1..]);
      OnePacket(ps[0]);
      ParseOfWords(ps[1..]);
      ParseStep(w + rest);
      FirstOfAppend(w, rest);
      assert (w + rest)[0] == w[0] && (w + rest)[|w|..] == rest;
      assert ps == [ps[0]] + ps[1..];
    }
  }

  /** Every other opcode is refused, wherever it comes after whole packets. */
  lemma UnknownRefused(ps: seq<Packet>, header: u64, rest: seq<u64>)
    requires header % 0x100 !in {CMD_NOP, CMD_DISPATCH, CMD_DMA, CMD_FENCE}
    ensures Parse(AllWords(ps) + [header] + rest).None?
  {
    hide AllWords;
    ParseOfWords(ps);
    ParseAppend(AllWords(ps), [header] + rest);
    ParseStep([header] + rest);
    assert AllWords(ps) + [header] + rest == AllWords(ps) + ([header] + rest);
  }

  // --- what packets do ---

  /** The device, the fence register and the interrupt register. */
  datatype Processor = Processor(d: Device, fenceSeq: u32, intr: u32)

  /** The threads t, t + 1, ... of a dispatch, until one fails. */
  function RunThreads(m: HostMath, codeAddr: u32, paramAddr: u32, t: u32, n: u32, d: Device): Device
    requires t <= n
    decreases n - t
  {
    if t == n then d
    else
      var end := RunThread(m, codeAddr, StartThread(paramAddr, t, n), d, MAX_STEPS);
      if end.ok then RunThreads(m, codeAddr, paramAddr, t + 1, n, end.d) else end.d
  }

  /** `memmove` */
  function Moved(vram: Bytes, src: nat, dst: nat, len: nat): (r: Bytes)
    requires src + len <= |vram| && dst + len <= |vram|
    ensures |r| == |vram|
  {
    vram[..dst] + vram[src..src + len] + vram[dst + len..]
  }

  /** DMA operands that fit the 32 bits in which they are checked. */
  predicate Fits(p: Packet) {
    p.Dma? ==> p.src < TWO32 && p.dst < TWO32 && p.len < TWO32
  }

  function Perform(m: HostMath, p: Packet, s: Processor): Processor {
    match p
    case Nop => s
    case Dispatch(codeAddr, paramAddr, nthreads) =>
      s.(d := RunThreads(m, codeAddr, paramAddr, 0, if nthreads == 0 then 1 else nthreads, s.d))
    case Dma(src, dst, len) =>
      if src + len <= |s.d.vram| && dst + len <= |s.d.vram| then s.(d := s.d.(vram := Moved(s.d.vram, src, dst, len)))
      else s.(d := s.d.(error := true))
    case Fence(seq_) => s.(fenceSeq := seq_, intr := WithBit0(s.intr))
  }

  function WithBit0(x: u32): u32 {
    if x % 2 == 0 then x + 1 else x
  }

  function ExecuteAll(m: HostMath, ps: seq<Packet>, s: Processor): Processor {
    if ps == [] then s else ExecuteAll(m, ps[1..], Perform(m, ps[0], s))
  }

  lemma {:induction false} ExecuteAppend(m: HostMath, ps: seq<Packet>, qs: seq<Packet>, s: Processor)
    ensures ExecuteAll(m, ps + qs, s) == ExecuteAll(m, qs, ExecuteAll(m, ps, s))
  {
    if ps == [] {
      assert ps + qs == qs;
    } else {
      assert (ps + qs)[1..] == ps[1..] + qs;
      ExecuteAppend(m, ps[1..], qs, Perform(m, ps[0], s));
    }
  }

  // --- the ring ---

  function Succ(i: nat): nat
    requires i < RING_QWORDS
  {
    if i + 1 == RING_QWORDS then 0 else i + 1
  }

  function Slot(r: nat, k: nat): (i: nat)
    requires r < RING_QWORDS && k < RING_QWORDS
    ensures i < RING_QWORDS
  {
    if r + k < RING_QWORDS then r + k else r + k - RING_QWORDS
  }

  /** How many words lie between the pointers. */
  function Distance(r: nat, w: nat): (n: nat)
    requires r < RING_QWORDS && w < RING_QWORDS
    ensures n < RING_QWORDS
  {
    if w >= r then w - r else w + RING_QWORDS - r
  }

  /** The words between the pointers, in order. */
  function Pending(ring: seq<u64>, r: nat, w: nat): (words: seq<u64>)
    requires |ring| == RING_QWORDS && r < RING_QWORDS && w < RING_QWORDS
    ensures |words| == Distance(r, w)
  {
    seq(Distance(r, w), k requires 0 <= k < Distance(r, w) => ring[Slot(r, k)])
  }

  /** Writing at the write pointer appends a word, also across the end of the ring. */
  lemma PendingWrite(ring: seq<u64>, r: nat, w: nat, x: u64)
    requires |ring| == RING_QWORDS && r < RING_QWORDS && w < RING_QWORDS && Distance(r, w) < RING_QWORDS - 1
    ensures Pending(ring[w := x], r, Succ(w)) == Pending(ring, r, w) + [x]
  {}

  /** Reading at the read pointer removes the first word. */
  lemma PendingRead(ring: seq<u64>, r: nat, w: nat)
    requires |ring| == RING_QWORDS && r < RING_QWORDS && w < RING_QWORDS && r != w
    ensures Pending(ring, r, w) == [ring[r]] + Pending(ring, Succ(r), w)
  {}
}
