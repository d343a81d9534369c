/**
 The crossbar titan_x5_crossbar, whose Verilog text is in bin/rewrite_crossbar.py, with one
 slave: a clock edge as a step between states, and the signals it drives in each cycle.
 */
module CrossbarModel {
  import opened Options

  const FIFO_DEPTH := 16

  /** What a master asks for. */
  datatype Request = Request(addr: nat, wdata: nat, write: bool)

  /** The inputs of one cycle. */
  datatype Input = Input(valid: seq<bool>, requests: seq<Request>, reqReady: bool, respValid: bool, respData: nat)

  /** The registers. */
  datatype State = State(rr: nat, fifo: seq<nat>, count: nat, wr: nat, rd: nat)

  predicate WellFormed(s: State, i: Input, n: nat) {
    n >= 1 && s.rr < n && |s.fifo| == FIFO_DEPTH && s.wr < FIFO_DEPTH && s.rd < FIFO_DEPTH && |i.valid| == n && |i.requests| == n
  }

  function Reset(): State {
    State(0, seq(FIFO_DEPTH, _ => 0), 0, 0, 0)
  }

  /** `check_idx`: the master m places after the pointer. */
  function Candidate(rr: nat, m: nat, n: nat): nat
    requires rr < n && m < n
  {
    if rr + m >= n then rr + m - n else rr + m
  }

  /** The first requesting master from the pointer on, looking at the first k of them. */
  function GrantAmong(rr: nat, valid: seq<bool>, k: nat): (g: Option<nat>)
    requires rr < |valid| && k <= |valid|
    ensures g.Some? ==> g.value < |valid| && valid[g.value]
  {
    if k == 0 then None
    else
      var earlier := GrantAmong(rr, valid, k - 1);
      var c := Candidate(rr, k - 1, |valid|);
      if earlier.None? && valid[c] then Some(c) else earlier
  }

  function Grant(s: State, i: Input): (g: Option<nat>)
    requires s.rr < |i.valid|
    ensures g.Some? ==> g.value < |i.valid| && i.valid[g.value]
  {
    GrantAmong(s.rr, i.valid, |i.valid|)
  }

  predicate HasSpace(s: State, i: Input) {
    s.count < FIFO_DEPTH || i.respValid
  }

  /** The pointer moves whether or not the FIFO has space. */
  predicate Advances(s: State, i: Input)
    requires s.rr < |i.valid|
  {
    Grant(s, i).Some? && i.reqReady
  }

  /** `req_accepted` */
  predicate Accepts(s: State, i: Input)
    requires s.rr < |i.valid|
  {
    Advances(s, i) && HasSpace(s, i)
  }

  /** One clock edge; the pointers are 4 bits wide and the count 5. */
  function Next(s: State, i: Input, n: nat): State
    requires WellFormed(s, i, n)
  {
    var rr := if !Advances(s, i) then s.rr else if s.rr == n - 1 then 0 else s.rr + 1;
    if Accepts(s, i) && !i.respValid then
      State(rr, s.fifo[s.wr := Grant(s, i).value], (s.count + 1) % 32, (s.wr + 1) % 16, s.rd)
    else if !Accepts(s, i) && i.respValid then State(rr, s.fifo, (s.count + 31) % 32, s.wr, (s.rd + 1) % 16)
    else if Accepts(s, i) then State(rr, s.fifo[s.wr := Grant(s, i).value], s.count, (s.wr + 1) % 16, (s.rd + 1) % 16)
    else s.(rr := rr)
  }

  /** The outputs of one cycle. */
  datatype Output = Output(sValid: bool, sRequest: Request, mReady: seq<bool>, mRespValid: seq<bool>, mRespData: seq<nat>)

  /** Master m is ready; master m is answered. */
  predicate Ready(s: State, i: Input, m: nat)
    requires s.rr < |i.valid|
  {
    Grant(s, i) == Some(m) && i.reqReady && HasSpace(s, i)
  }

  predicate Answers(s: State, i: Input, m: nat)
    requires s.rd < |s.fifo|
  {
    i.respValid && s.count != 0 && s.fifo[s.rd] == m
  }

  function Outputs(s: State, i: Input, n: nat): Output
    requires WellFormed(s, i, n)
  {
    var g := Grant(s, i);
    Output(g.Some? && HasSpace(s, i),
           i.requests[if g.Some? then g.value else 0],
           seq(n, m requires 0 <= m < n => Ready(s, i, m)),
           seq(n, m requires 0 <= m < n => Answers(s, i, m)),
           seq(n, m requires 0 <= m < n => if Answers(s, i, m) then i.respData else 0))
  }

  class Crossbar {
    const n: nat
    var rr: nat
    const fifo: array<nat>
    var count: nat
    var wr: nat
    var rd: nat

    ghost predicate Valid()
      reads this
    {
      n >= 1 && rr < n && fifo.Length == FIFO_DEPTH && wr < FIFO_DEPTH && rd < FIFO_DEPTH
    }

    ghost function Registers(): State
      reads this, fifo
    {
      State(rr, fifo[..], count, wr, rd)
    }

    /** The registers after reset. */
    constructor (masters: nat)
      requires masters >= 1
      ensures Valid() && n == masters && fresh(fifo) && Registers() == Reset()
    {
      n := masters;
      rr, count, wr, rd := 0, 0, 0, 0;
      fifo := new nat[FIFO_DEPTH](_ => 0);
    }

    /** The combinational arbiter: a loop over the masters from the pointer on. */
    method Arbitrate(valid: seq<bool>) returns (granted: bool, grant: nat)
      requires Valid() && |valid| == n
      ensures GrantAmong(rr, valid, n) == if granted then Some(grant) else None
      ensures grant < n && (!granted ==> grant == 0)
    {
      granted, grant := false, 0;
      for m := 0 to n
        invariant GrantAmong(rr, valid, m) == if granted then Some(grant) else None
        invariant grant < n && (!granted ==> grant == 0)
      {
        var idx := rr + m;
        if idx >= n {
          idx := idx - n;
        }
        if !granted && valid[idx] {
          granted, grant := true, idx;
        }
      }
    }

    /** The combinational outputs, from the arbiter's grant. */
    method Drive(i: Input, granted: bool, grant: nat) returns (out: Output)
      requires Valid() && |i.valid| == n && |i.requests| == n && grant < n
      requires Grant(Registers(), i) == (if granted then Some(grant) else None) && (!granted ==> grant == 0)
      ensures out == Outputs(Registers(), i, n)
    {
      hide Grant;
      ghost var s := Registers();
      var space := count < FIFO_DEPTH || i.respValid;
      var answering := i.respValid && count != 0;
      var head := fifo[rd];
      var ready := seq(n, m requires 0 <= m < n => granted && grant == m && i.reqReady && space);
      var respValid := seq(n, m requires 0 <= m < n => answering && head == m);
      var respData := seq(n, m requires 0 <= m < n => if answering && head == m then i.respData else 0);
      out := Output(granted && space, i.requests[grant], ready, respValid, respData);
      assert ready == Outputs(s, i, n).mReady;
      assert respValid == Outputs(s, i, n).mRespValid;
      assert respData == Outputs(s, i, n).mRespData;
    }

    /** One cycle: the outputs it drives, and the registers after the clock edge. */
    method Clock(i: Input) returns (out: Output)
      requires Valid() && |i.valid| == n && |i.requests| == n
      modifies this, fifo
      ensures Valid()
      ensures out == Outputs(old(Registers()), i, n)
      ensures Registers() == Next(old(Registers()), i, n)
    {
      hide Outputs, GrantAmong;
      var granted, grant := Arbitrate(i.valid);
      out := Drive(i, granted, grant);
      var accepted := granted && i.reqReady && (count < FIFO_DEPTH || i.respValid);
      if granted && i.reqReady {
        rr := if rr == n - 1 then 0 else rr + 1;
      }
      if accepted {
        fifo[wr] := grant;
        wr := (wr + 1) % 16;
      }
      if i.respValid {
        rd := (rd + 1) % 16;
      }
      if accepted && !i.respValid {
        count := (count + 1) % 32;
      } else if !accepted && i.respValid {
        count := (count + 31) % 32;
      }
    }
  }
}
