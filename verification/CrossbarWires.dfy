/**
 What the crossbar's wires carry in every cycle, whether or not the slave is ready: the
 request line, its payload, the ready and response lines and the pointer, in terms of the
 first requesting master from the pointer on; and what a response that nobody waits for does.
 */
module CrossbarWires {
  import opened Options
  import opened CrossbarModel
  import opened CrossbarSafety

  predicate Requested(i: Input) {
    true in i.valid
  }

  /** Master m requests, and no requesting master comes before it, counting from the pointer. */
  predicate FirstRequester(s: State, i: Input, n: nat, m: nat)
    requires s.rr < n && |i.valid| == n
  {
    m < n && i.valid[m] && forall k :: 0 <= k < n && i.valid[k] ==> Away(s.rr, m, n) <= Away(s.rr, k, n)
  }

  predicate Shaped(i: Input, n: nat) {
    |i.valid| == n && |i.requests| == n
  }

  // --- the arbiter ---

  lemma AwayOfCandidate(rr: nat, m: nat, n: nat)
    requires rr < n && m < n
    ensures Candidate(rr, m, n) < n && Away(rr, Candidate(rr, m, n), n) == m
    ensures Away(rr, m, n) < n && Candidate(rr, Away(rr, m, n), n) == m
  {}

  lemma {:induction false} GrantAmongFirst(rr: nat, valid: seq<bool>, k: nat)
    requires rr < |valid| && k <= |valid|
    ensures match GrantAmong(rr, valid, k)
      case None => forall m :: 0 <= m < |valid| && Away(rr, m, |valid|) < k ==> !valid[m]
      case Some(g) => Away(rr, g, |valid|) < k && forall m :: 0 <= m < |valid| && valid[m] ==> Away(rr, g, |valid|) <= Away(rr, m, |valid|)
  {
    if k > 0 {
      GrantAmongFirst(rr, valid, k - 1);
      AwayOfCandidate(rr, k - 1, |valid|);
      forall m | 0 <= m < |valid|
        ensures Away(rr, m, |valid|) == k - 1 <==> m == Candidate(rr, k - 1, |valid|)
      {
        AwayOfCandidate(rr, m, |valid|);
      }
    }
  }

  /** The grant goes to the first requesting master, and to nobody only when none requests. */
  lemma GrantIsFirst(s: State, i: Input, n: nat)
    requires s.rr < n && Shaped(i, n)
    ensures Grant(s, i).Some? <==> Requested(i)
    ensures forall m: nat :: Grant(s, i) == Some(m) <==> FirstRequester(s, i, n, m)
  {
    GrantAmongFirst(s.rr, i.valid, n);
    forall m | 0 <= m < n
      ensures Away(s.rr, m, n) < n && Candidate(s.rr, Away(s.rr, m, n), n) == m
    {
      AwayOfCandidate(s.rr, m, n);
    }
  }

  // --- the wires ---

  /**
   Main result: the request line is up exactly when some master requests and the FIFO has
   space or frees an entry, whatever the slave's ready line says; it carries the payload of
   the first requesting master, and that of master 0 when none requests.
   */
  lemma RequestLine(s: State, i: Input, n: nat)
    requires Invariant(s, n) && Shaped(i, n)
    ensures var out := Outputs(s, i, n);
      && (out.sValid <==> Requested(i) && (s.count < FIFO_DEPTH || i.respValid))
      && (forall m: nat :: FirstRequester(s, i, n, m) ==> out.sRequest == i.requests[m])
      && (!Requested(i) ==> out.sRequest == i.requests[0])
  {
    hide Grant, FirstRequester;
    GrantIsFirst(s, i, n);
    forall m: nat | FirstRequester(s, i, n, m)
      ensures m < n && Outputs(s, i, n).sRequest == i.requests[m]
    {
      assert Grant(s, i) == Some(m);
    }
  }

  /** A master is ready exactly when it is the first requesting one, the slave is ready and the FIFO has space. */
  lemma ReadyLines(s: State, i: Input, n: nat)
    requires Invariant(s, n) && Shaped(i, n)
    ensures var out := Outputs(s, i, n);
      && |out.mReady| == n
      && forall m :: 0 <= m < n ==>
           (out.mReady[m] <==> FirstRequester(s, i, n, m) && i.reqReady && (s.count < FIFO_DEPTH || i.respValid))
  {
    hide Grant, FirstRequester;
    GrantIsFirst(s, i, n);
  }

  /** Nobody is answered without an outstanding request, and masters that are not answered read zeros. */
  lemma ResponseLines(s: State, i: Input, n: nat)
    requires Invariant(s, n) && Shaped(i, n)
    ensures var out := Outputs(s, i, n);
      && |out.mRespValid| == n && |out.mRespData| == n
      && (forall m :: 0 <= m < n ==> (out.mRespValid[m] <==> i.respValid && s.count > 0 && m == Outstanding(s)[0]))
      && (forall m :: 0 <= m < n ==> out.mRespData[m] == if out.mRespValid[m] then i.respData else 0)
  {
    if s.count > 0 {
      assert Outstanding(s)[0] == s.fifo[s.rd];
    }
  }

  /** The pointer moves to the next master exactly when some master requests and the slave is ready, with or without space. */
  lemma PointerMoves(s: State, i: Input, n: nat)
    requires Invariant(s, n) && Shaped(i, n)
    ensures Next(s, i, n).rr == if Requested(i) && i.reqReady then (s.rr + 1) % n else s.rr
  {
    hide Grant;
    GrantIsFirst(s, i, n);
    if s.rr == n - 1 {
      assert (s.rr + 1) % n == 0;
    } else {
      assert (s.rr + 1) % n == s.rr + 1;
    }
  }

  // --- responses that nobody waits for ---

  /** The masters that see a response. */
  function Seen(s: State, i: Input): seq<nat>
    requires |s.fifo| == FIFO_DEPTH && s.rd < FIFO_DEPTH
  {
    if i.respValid && s.count > 0 then [s.fifo[s.rd]] else []
  }

  /** No request is lost and none is invented: what was outstanding or is accepted is answered or still outstanding. */
  predicate Conserves(s: State, i: Input, n: nat)
    requires Invariant(s, n) && Shaped(i, n)
  {
    Invariant(Next(s, i, n), n) && Outstanding(s) + Taken(s, i) == Seen(s, i) + Outstanding(Next(s, i, n))
  }

  /** Main result: a cycle conserves requests if and only if the slave does not answer while nothing is outstanding. */
  lemma ConservesExactly(s: State, i: Input, n: nat)
    requires Invariant(s, n) && Shaped(i, n)
    ensures Conserves(s, i, n) <==> Legal(s, i, n)
  {
    hide Grant;
    if Legal(s, i, n) {
      StepOutstanding(s, i, n);
    } else {
      assert Outstanding(s) == [] && Seen(s, i) == [];
      if Accepts(s, i) {
        assert Next(s, i, n).count == 0;
        assert Outstanding(s) + Taken(s, i) == [Grant(s, i).value];
      } else {
        assert Next(s, i, n).count == 31;
      }
    }
  }

  /** Inputs of cycles in which the slave does not answer. */
  predicate AllQuiet(inputs: seq<Input>, n: nat) {
    forall k :: 0 <= k < |inputs| ==> Shaped(inputs[k], n) && !inputs[k].respValid
  }

  predicate Registers(s: State, n: nat) {
    n >= 1 && s.rr < n && |s.fifo| == FIFO_DEPTH && s.wr < FIFO_DEPTH && s.rd < FIFO_DEPTH
  }

  /** The masters whose requests are accepted in these cycles. */
  function TakenIn(s: State, inputs: seq<Input>, n: nat): seq<nat>
    requires Registers(s, n) && AllQuiet(inputs, n)
    decreases |inputs|
  {
    if inputs == [] then [] else Taken(s, inputs[0]) + TakenIn(Next(s, inputs[0], n), inputs[1..], n)
  }

  /** With the count at 31 nothing is accepted for as long as the slave stays quiet, whoever asks. */
  lemma {:induction false} BlockedWhileQuiet(s: State, inputs: seq<Input>, n: nat)
    requires Registers(s, n) && s.count == 31 && AllQuiet(inputs, n)
    ensures TakenIn(s, inputs, n) == []
    decreases |inputs|
  {
    hide Grant;
    if inputs != [] {
      BlockedWhileQuiet(Next(s, inputs[0], n), inputs[1..], n);
    }
  }

  /** One response out of nowhere brings the reset state there, and it answers nobody. */
  lemma UnsolicitedFromReset(n: nat, data: nat)
    requires n >= 1
    ensures var i := Input(seq(n, _ => false), seq(n, _ => SOME_REQUEST), true, true, data);
      && Shaped(i, n) && !Legal(Reset(), i, n) && Seen(Reset(), i) == []
      && Registers(Next(Reset(), i, n), n) && Next(Reset(), i, n).count == 31
  {
    var i := Input(seq(n, _ => false), seq(n, _ => SOME_REQUEST), true, true, data);
    GrantIsFirst(Reset(), i, n);
  }
}
