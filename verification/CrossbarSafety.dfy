/**
 Properties of every run of the crossbar: responses go to the masters in the order in which
 their requests were accepted, each to exactly one; a requesting master waits at most as
 many pointer advances as there are masters, provided they are made while the FIFO has
 space; and without that proviso it can be starved for ever.
 */
module CrossbarSafety {
  import opened Options
  import opened CrossbarModel

  // --- the outstanding requests ---

  /** Where the k-th outstanding entry of the FIFO is. */
  function Slot(rd: nat, k: nat): nat
    requires rd < FIFO_DEPTH && k <= FIFO_DEPTH
  {
    if rd + k < FIFO_DEPTH then rd + k else rd + k - FIFO_DEPTH
  }

  /** The FIFO window of length count from the read pointer on: the masters still to be answered, oldest first. */
  function Window(fifo: seq<nat>, rd: nat, count: nat): (w: seq<nat>)
    requires |fifo| == FIFO_DEPTH && rd < FIFO_DEPTH && count <= FIFO_DEPTH
    ensures |w| == count
  {
    seq(count, k requires 0 <= k < count => fifo[Slot(rd, k)])
  }

  function Outstanding(s: State): (w: seq<nat>)
    requires |s.fifo| == FIFO_DEPTH && s.rd < FIFO_DEPTH && s.count <= FIFO_DEPTH
    ensures |w| == s.count
  {
    Window(s.fifo, s.rd, s.count)
  }

  lemma WindowPush(fifo: seq<nat>, rd: nat, count: nat, g: nat)
    requires |fifo| == FIFO_DEPTH && rd < FIFO_DEPTH && count < FIFO_DEPTH
    ensures Window(fifo[Slot(rd, count) := g], rd, count + 1) == Window(fifo, rd, count) + [g]
  {}

  lemma WindowPop(fifo: seq<nat>, rd: nat, count: nat)
    requires |fifo| == FIFO_DEPTH && rd < FIFO_DEPTH && 0 < count <= FIFO_DEPTH
    ensures [fifo[rd]] + Window(fifo, Slot(rd, 1), count - 1) == Window(fifo, rd, count)
  {}

  /** A simultaneous accept and answer, also when the FIFO is full and both use the same slot. */
  lemma WindowRotate(fifo: seq<nat>, rd: nat, count: nat, g: nat)
    requires |fifo| == FIFO_DEPTH && rd < FIFO_DEPTH && 0 < count <= FIFO_DEPTH
    ensures [fifo[rd]] + Window(fifo[Slot(rd, count) := g], Slot(rd, 1), count) == Window(fifo, rd, count) + [g]
  {}

  predicate Invariant(s: State, n: nat) {
    && n >= 1 && s.rr < n && |s.fifo| == FIFO_DEPTH && s.count <= FIFO_DEPTH && s.rd < FIFO_DEPTH
    && s.wr == Slot(s.rd, s.count)
    && forall k :: 0 <= k < FIFO_DEPTH ==> s.fifo[k] < n
  }

  /** The slave answers only when a request is outstanding. */
  predicate Legal(s: State, i: Input, n: nat) {
    |i.valid| == n && |i.requests| == n && (i.respValid ==> s.count != 0)
  }

  lemma ResetInvariant(n: nat)
    requires n >= 1
    ensures Invariant(Reset(), n) && Outstanding(Reset()) == []
  {}

  function Taken(s: State, i: Input): seq<nat>
    requires s.rr < |i.valid|
  {
    if Accepts(s, i) then [Grant(s, i).value] else []
  }

  function Answered(s: State, i: Input): seq<nat>
    requires |s.fifo| == FIFO_DEPTH && s.rd < FIFO_DEPTH
  {
    if i.respValid then [s.fifo[s.rd]] else []
  }

  /** Every step keeps the invariant, removes the answered request at the front and appends the accepted one. */
  lemma StepOutstanding(s: State, i: Input, n: nat)
    requires Invariant(s, n) && Legal(s, i, n)
    ensures Invariant(Next(s, i, n), n)
    ensures Outstanding(s) + Taken(s, i) == Answered(s, i) + Outstanding(Next(s, i, n))
  {
    hide Grant, Window;
    if Accepts(s, i) && i.respValid {
      WindowRotate(s.fifo, s.rd, s.count, Grant(s, i).value);
    } else if Accepts(s, i) {
      WindowPush(s.fifo, s.rd, s.count, Grant(s, i).value);
    } else if i.respValid {
      WindowPop(s.fifo, s.rd, s.count);
    }
  }

  // --- what the masters and the slave see ---

  /** A response is presented to exactly one master, the issuer of the oldest outstanding request, with the slave's data. */
  lemma ResponseRouting(s: State, i: Input, n: nat)
    requires Invariant(s, n) && Legal(s, i, n)
    ensures var out := Outputs(s, i, n);
      && |out.mRespValid| == n && |out.mRespData| == n
      && (forall m :: 0 <= m < n ==> (out.mRespValid[m] <==> i.respValid && m == Outstanding(s)[0]))
      && (i.respValid ==> Outstanding(s)[0] < n && out.mRespData[Outstanding(s)[0]] == i.respData)
  {
    if i.respValid {
      assert Outstanding(s)[0] == s.fifo[s.rd];
    }
  }

  /**
   The two sides of a handshake agree: a requesting master sees ready exactly when it is the
   one accepted, and the slave takes a request exactly then, with that master's payload.
   */
  lemma HandshakesAgree(s: State, i: Input, n: nat)
    requires Invariant(s, n) && Legal(s, i, n)
    ensures var out := Outputs(s, i, n);
      && |out.mReady| == n
      && (forall m :: 0 <= m < n ==> (out.mReady[m] <==> Taken(s, i) == [m]))
      && (out.sValid && i.reqReady <==> Taken(s, i) != [])
      && (Taken(s, i) != [] ==> Taken(s, i)[0] < n && i.valid[Taken(s, i)[0]] && out.sRequest == i.requests[Taken(s, i)[0]])
  {}

  // --- runs ---

  function Run(s: State, inputs: seq<Input>, n: nat): State
    requires Invariant(s, n) && LegalRun(s, inputs, n)
    decreases |inputs|
  {
    if inputs == [] then s
    else
      StepOutstanding(s, inputs[0], n);
      Run(Next(s, inputs[0], n), inputs[1..], n)
  }

  predicate LegalRun(s: State, inputs: seq<Input>, n: nat)
    requires Invariant(s, n)
    decreases |inputs|
  {
    inputs == [] ||
    (Legal(s, inputs[0], n) && (StepOutstanding(s, inputs[0], n); LegalRun(Next(s, inputs[0], n), inputs[1..], n)))
  }

  /** The masters whose requests a run accepts, in order. */
  function AllTaken(s: State, inputs: seq<Input>, n: nat): seq<nat>
    requires Invariant(s, n) && LegalRun(s, inputs, n)
    decreases |inputs|
  {
    if inputs == [] then []
    else
      StepOutstanding(s, inputs[0], n);
      Taken(s, inputs[0]) + AllTaken(Next(s, inputs[0], n), inputs[1..], n)
  }

  /** The masters that a run answers, in order. */
  function AllAnswered(s: State, inputs: seq<Input>, n: nat): seq<nat>
    requires Invariant(s, n) && LegalRun(s, inputs, n)
    decreases |inputs|
  {
    if inputs == [] then []
    else
      StepOutstanding(s, inputs[0], n);
      Answered(s, inputs[0]) + AllAnswered(Next(s, inputs[0], n), inputs[1..], n)
  }

  lemma {:induction false} RunConserves(s: State, inputs: seq<Input>, n: nat)
    requires Invariant(s, n) && LegalRun(s, inputs, n)
    ensures Invariant(Run(s, inputs, n), n)
    ensures Outstanding(s) + AllTaken(s, inputs, n) == AllAnswered(s, inputs, n) + Outstanding(Run(s, inputs, n))
    decreases |inputs|
  {
    hide Next, Outstanding, Taken, Answered;
    if inputs != [] {
      StepOutstanding(s, inputs[0], n);
      var s' := Next(s, inputs[0], n);
      RunConserves(s', inputs[1..], n);
      var o, t, a := Outstanding(s), Taken(s, inputs[0]), Answered(s, inputs[0]);
      var ts, as_, end := AllTaken(s', inputs[1..], n), AllAnswered(s', inputs[1..], n), Outstanding(Run(s, inputs, n));
      assert o + (t + ts) == (o + t) + ts == (a + Outstanding(s')) + ts == a + (Outstanding(s') + ts) == a + (as_ + end) == (a + as_) + end;
    }
  }

  /**
   Main result: on every run from reset, the masters answered are exactly those accepted, in
   the same order, except for the ones still in the FIFO window, of which there are at most 16.
   */
  lemma ResponsesInOrder(inputs: seq<Input>, n: nat)
    requires n >= 1 && Invariant(Reset(), n) && LegalRun(Reset(), inputs, n)
    ensures var end := Run(Reset(), inputs, n);
      && Invariant(end, n) && |Outstanding(end)| <= FIFO_DEPTH
      && AllTaken(Reset(), inputs, n) == AllAnswered(Reset(), inputs, n) + Outstanding(end)
  {
    RunConserves(Reset(), inputs, n);
    ResetInvariant(n);
    assert Outstanding(Reset()) + AllTaken(Reset(), inputs, n) == AllTaken(Reset(), inputs, n);
  }

  // --- waiting ---

  /** A requesting master at the pointer is granted. */
  lemma {:induction false} PointerGranted(rr: nat, valid: seq<bool>, k: nat)
    requires rr < |valid| && valid[rr] && 1 <= k <= |valid|
    ensures GrantAmong(rr, valid, k) == Some(rr)
  {
    if k > 1 {
      PointerGranted(rr, valid, k - 1);
    }
  }

  /** How many advances the pointer is away from master m. */
  function Away(rr: nat, m: nat, n: nat): nat
    requires rr < n && m < n
  {
    if m >= rr then m - rr else m + n - rr
  }

  function CountAdvances(s: State, inputs: seq<Input>, n: nat): nat
    requires Invariant(s, n) && LegalRun(s, inputs, n)
    decreases |inputs|
  {
    if inputs == [] then 0
    else
      StepOutstanding(s, inputs[0], n);
      (if Advances(s, inputs[0]) then 1 else 0) + CountAdvances(Next(s, inputs[0], n), inputs[1..], n)
  }

  /** Master m requests in every cycle, and whenever the pointer advances the FIFO has space. */
  predicate RequestsWithSpace(s: State, inputs: seq<Input>, n: nat, m: nat)
    requires Invariant(s, n) && LegalRun(s, inputs, n) && m < n
    decreases |inputs|
  {
    inputs == [] ||
    (&& inputs[0].valid[m] && (Advances(s, inputs[0]) ==> HasSpace(s, inputs[0]))
     && (StepOutstanding(s, inputs[0], n); RequestsWithSpace(Next(s, inputs[0], n), inputs[1..], n, m)))
  }

  lemma {:induction false} Waiting(s: State, inputs: seq<Input>, n: nat, m: nat)
    requires Invariant(s, n) && LegalRun(s, inputs, n) && m < n && RequestsWithSpace(s, inputs, n, m)
    requires CountAdvances(s, inputs, n) > Away(s.rr, m, n)
    ensures m in AllTaken(s, inputs, n)
    decreases |inputs|
  {
    var i := inputs[0];
    StepOutstanding(s, i, n);
    var s' := Next(s, i, n);
    if Advances(s, i) && s.rr == m {
      PointerGranted(s.rr, i.valid, n);
      assert Taken(s, i) == [m];
    } else {
      assert Advances(s, i) ==> Away(s'.rr, m, n) == Away(s.rr, m, n) - 1;
      Waiting(s', inputs[1..], n, m);
    }
  }

  /** Main result: n pointer advances made with space are enough for every requesting master. */
  lemma BoundedWaiting(s: State, inputs: seq<Input>, n: nat, m: nat)
    requires Invariant(s, n) && LegalRun(s, inputs, n) && m < n && RequestsWithSpace(s, inputs, n, m)
    requires CountAdvances(s, inputs, n) >= n
    ensures m in AllTaken(s, inputs, n)
  {
    Waiting(s, inputs, n, m);
  }

  /** In some cycle the pointer is at master m and advances while the FIFO has space. */
  predicate PassedWithSpace(s: State, inputs: seq<Input>, n: nat, m: nat)
    requires Invariant(s, n) && LegalRun(s, inputs, n)
    decreases |inputs|
  {
    inputs != [] &&
    ((s.rr == m && Advances(s, inputs[0]) && HasSpace(s, inputs[0]))
     || (StepOutstanding(s, inputs[0], n); PassedWithSpace(Next(s, inputs[0], n), inputs[1..], n, m)))
  }

  /** When all masters request all the time, one is accepted if and only if the pointer passes it with space. */
  lemma {:induction false} SaturatedExactly(s: State, inputs: seq<Input>, n: nat, m: nat)
    requires Invariant(s, n) && LegalRun(s, inputs, n) && m < n
    requires forall i <- inputs :: forall k :: 0 <= k < |i.valid| ==> i.valid[k]
    ensures m in AllTaken(s, inputs, n) <==> PassedWithSpace(s, inputs, n, m)
    decreases |inputs|
  {
    hide Outstanding;
    if inputs != [] {
      var i := inputs[0];
      StepOutstanding(s, i, n);
      assert i in inputs;
      PointerGranted(s.rr, i.valid, n);
      SaturatedExactly(Next(s, i, n), inputs[1..], n, m);
    }
  }

  // --- starvation ---

  const SOME_REQUEST := Request(0, 0, false)

  /** Both of two masters request and the slave is ready; it answers in the given cycle or not. */
  function Busy(respValid: bool): Input {
    Input([true, true], [SOME_REQUEST, SOME_REQUEST], true, respValid, 0)
  }

  /** A slave that answers every other cycle. */
  function Alternate(k: nat): seq<Input> {
    if k == 0 then [] else [Busy(false), Busy(true)] + Alternate(k - 1)
  }

  /** With the FIFO full, the pointer passes master 0 in the cycles without space and is at master 1 in the others. */
  lemma {:induction false} Starves(s: State, k: nat)
    requires Invariant(s, 2) && s.rr == 0 && s.count == FIFO_DEPTH
    ensures LegalRun(s, Alternate(k), 2)
    ensures 0 !in AllTaken(s, Alternate(k), 2) && |AllTaken(s, Alternate(k), 2)| == k
    ensures CountAdvances(s, Alternate(k), 2) == 2 * k
    decreases k
  {
    if k > 0 {
      var s1 := Next(s, Busy(false), 2);
      var s2 := Next(s1, Busy(true), 2);
      PointerGranted(0, [true, true], 2);
      PointerGranted(1, [true, true], 2);
      StepOutstanding(s, Busy(false), 2);
      assert s1 == s.(rr := 1);
      StepOutstanding(s1, Busy(true), 2);
      Starves(s2, k - 1);
      assert Alternate(k)[1..] == [Busy(true)] + Alternate(k - 1);
      assert Alternate(k)[1..][1..] == Alternate(k - 1);
      assert Taken(s, Busy(false)) == [] && Taken(s1, Busy(true)) == [1];
    }
  }

  function Fill(k: nat): seq<Input> {
    if k == 0 then [] else [Busy(false)] + Fill(k - 1)
  }

  /** The full state is reached after sixteen accepted requests. */
  lemma {:induction false} FullReachable(s: State, k: nat)
    requires Invariant(s, 2) && s.count + k == FIFO_DEPTH && s.rr == s.count % 2
    ensures LegalRun(s, Fill(k), 2) && Invariant(Run(s, Fill(k), 2), 2)
    ensures Run(s, Fill(k), 2).rr == 0 && Run(s, Fill(k), 2).count == FIFO_DEPTH
    decreases k
  {
    if k > 0 {
      PointerGranted(s.rr, [true, true], 2);
      StepOutstanding(s, Busy(false), 2);
      assert Fill(k)[1..] == Fill(k - 1);
      FullReachable(Next(s, Busy(false), 2), k - 1);
    }
  }

  /**
   The proviso is needed: in a reachable state, for every length there is a run in which
   master 0 requests in every cycle, the pointer advances in every cycle, master 1 is
   accepted over and over, and master 0 never is.
   */
  lemma StarvationReachable(k: nat) returns (s: State)
    ensures Invariant(Reset(), 2) && LegalRun(Reset(), Fill(16), 2) && s == Run(Reset(), Fill(16), 2)
    ensures Invariant(s, 2) && LegalRun(s, Alternate(k), 2)
    ensures forall i <- Alternate(k) :: i.valid == [true, true]
    ensures CountAdvances(s, Alternate(k), 2) == |Alternate(k)| == 2 * k
    ensures 0 !in AllTaken(s, Alternate(k), 2) && |AllTaken(s, Alternate(k), 2)| == k
  {
    hide AllTaken, CountAdvances, LegalRun, Run, Alternate, Fill, Invariant;
    ResetInvariant(2);
    FullReachable(Reset(), 16);
    s := Run(Reset(), Fill(16), 2);
    Starves(s, k);
    AlternateShape(k);
  }

  lemma {:induction false} AlternateShape(k: nat)
    ensures |Alternate(k)| == 2 * k && forall i <- Alternate(k) :: i == Busy(false) || i == Busy(true)
  {
    if k > 0 {
      AlternateShape(k - 1);
    }
  }
}
