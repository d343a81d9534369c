/**
 Fences over sequences of accepted submissions: a retired fence stays done through exactly
 the next 2^31 - 1 submissions, and then reads as pending until the numbers come round.
 */
module FenceOrder {
  import opened Bits
  import opened GpuThread
  import opened CommandRing
  import opened DriverDevice
  import opened Options

  /** What the command processor and the driver's fence counter hold. */
  datatype Host = Host(p: Processor, counter: u32)

  predicate Accepted(cmds: seq<u64>) {
    0 < |cmds| <= RING_QWORDS - 2 && Parse(cmds).Some?
  }

  /** The effect of one accepted submission, as the contract of Driver.Submit states it. */
  function Submitted(m: HostMath, h: Host, cmds: seq<u64>): Host
    requires Accepted(cmds)
  {
    var seq_ := Wrap(h.counter + 1);
    Host(ExecuteAll(m, Parse(cmds).value + [Fence(seq_)], h.p), seq_)
  }

  function SubmittedAll(m: HostMath, h: Host, batches: seq<seq<u64>>): Host
    requires forall b <- batches :: Accepted(b)
  {
    if batches == [] then h
    else
      var n := |batches| - 1;
      Submitted(m, SubmittedAll(m, h, batches[..n]), batches[n])
  }

  /** The sequence number that batch i of a run receives. */
  function SeqOf(counter: u32, i: nat): u32 {
    Wrap(counter + i + 1)
  }

  lemma {:induction false} CounterAfter(m: HostMath, h: Host, batches: seq<seq<u64>>)
    requires forall b <- batches :: Accepted(b)
    ensures var h' := SubmittedAll(m, h, batches);
      && h'.counter == Wrap(h.counter + |batches|)
      && (batches != [] ==> h'.p.fenceSeq == h'.counter)
  {
    hide ExecuteAll, Parse;
    if batches != [] {
      var n := |batches| - 1;
      assert Accepted(batches[n]);
      CounterAfter(m, h, batches[..n]);
      var before := SubmittedAll(m, h, batches[..n]);
      FenceRetires(m, Parse(batches[n]).value, Wrap(before.counter + 1), before.p);
      WrapAdd(h.counter + n, 1);
    }
  }

  lemma DoneExactly(counter: u32, i: nat, n: nat)
    requires i < n
    ensures FenceDone(Wrap(counter + n), SeqOf(counter, i)) <==> (n - 1 - i) % TWO32 < TWO31
  {
    hide Wrap, Signed;
    var x, y := counter + n, counter + i + 1;
    WrapSub(x, y);
    SignedByWrap(Wrap(x) as int - Wrap(y) as int, x - y);
    NonNegative(x - y);
  }

  lemma SignedByWrap(x: int, y: int)
    requires Wrap(x) == Wrap(y)
    ensures Signed(x) == Signed(y)
  {}

  lemma NonNegative(x: int)
    ensures Signed(x) >= 0 <==> x % TWO32 < TWO31
  {}

  /**
   Main result: after a run of n accepted submissions the fence of submission i reads as
   done exactly when the number of later submissions, modulo 2^32, is below 2^31.
   */
  lemma FenceLifetime(m: HostMath, h: Host, batches: seq<seq<u64>>, i: nat)
    requires i < |batches| && forall b <- batches :: Accepted(b)
    ensures FenceDone(SubmittedAll(m, h, batches).p.fenceSeq, SeqOf(h.counter, i)) <==> (|batches| - 1 - i) % TWO32 < TWO31
  {
    hide FenceDone;
    CounterAfter(m, h, batches);
    DoneExactly(h.counter, i, |batches|);
  }
}
