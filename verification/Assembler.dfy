/**
 The instruction stream with label fixups (class Assembler of compiler/titan_compiler.py).
 A Label object is represented by its index in `labels`, whose entry is its pc once bound.
 */
module Assembler {
  import opened Bits
  import opened Isa
  import opened Options
  import Codegen

  /** An emitted instruction before linking: complete, or a branch to a label. */
  datatype Symbolic = Plain(i: Instr) | Jump(target: nat, pred: nat)

  type Labels = seq<Option<nat>>

  datatype Fixup = Fixup(at: nat, target: nat)

  /** The instruction as it is emitted: a branch has immediate 0 until it is linked. */
  function Emitted(s: Symbolic): Instr {
    match s
    case Plain(i) => i
    case Jump(_, pred) => IForm(OP_BRANCH, 0, 0, 0, pred)
  }

  function LinkOne(s: Symbolic, labels: Labels): Instr {
    match s
    case Plain(i) => i
    case Jump(target, pred) =>
      IForm(OP_BRANCH, 0, 0, if target < |labels| && labels[target].Some? then labels[target].value else 0, pred)
  }

  function Link(listing: seq<Symbolic>, labels: Labels): (code: seq<Instr>)
    ensures |code| == |listing|
    ensures forall k :: 0 <= k < |code| ==> code[k] == LinkOne(listing[k], labels)
  {
    seq(|listing|, k requires 0 <= k < |listing| => LinkOne(listing[k], labels))
  }

  function AllPlain(code: seq<Instr>): (listing: seq<Symbolic>)
    ensures |listing| == |code|
    ensures forall k :: 0 <= k < |code| ==> listing[k] == Plain(code[k])
  {
    seq(|code|, k requires 0 <= k < |code| => Plain(code[k]))
  }

  /** Every branch in the listing goes to a label with index at least lo that is bound. */
  predicate Closed(listing: seq<Symbolic>, labels: Labels, lo: nat) {
    forall k :: 0 <= k < |listing| && listing[k].Jump? ==>
      lo <= listing[k].target < |labels| && labels[listing[k].target].Some?
  }

  function Jumps(listing: seq<Symbolic>): seq<Fixup> {
    if listing == [] then []
    else
      var n := |listing| - 1;
      Jumps(listing[..n]) + if listing[n].Jump? then [Fixup(n, listing[n].target)] else []
  }

  /** `finalize` on one word: the target is or-ed into the immediate field. */
  function Patch(w: u32, target: nat): nat {
    Bitwise(OR, w, target * 8)
  }

  /** The test and the back branch as they are emitted, with symbolic targets. */
  function TestSymbols(ivar: nat, bound: nat, end: nat): (r: seq<Symbolic>)
    ensures |r| == 2
  {
    [Plain(Codegen.LoopTest(ivar, bound, 0)[0]), Jump(end, 1)]
  }

  function BackSymbols(ivar: nat, step: nat, top: nat): seq<Symbolic> {
    [Plain(Codegen.LoopBack(ivar, step, 0)[0]), Jump(top, 0)]
  }

  predicate EncodesTo(words: seq<u32>, code: seq<Instr>) {
    && |words| == |code|
    && forall k :: 0 <= k < |code| ==> code[k].Encodable() && words[k] == Encode(code[k])
  }

  predicate AllEncodable(code: seq<Instr>) {
    forall k :: 0 <= k < |code| ==> code[k].Encodable()
  }

  class Assembler {
    var words: seq<u32>
    var fixups: seq<Fixup>
    var labels: Labels
    ghost var listing: seq<Symbolic>

    ghost predicate Valid()
      reads this
    {
      && |words| == |listing|
      && (forall k :: 0 <= k < |words| ==> Emitted(listing[k]).Encodable() && words[k] == Encode(Emitted(listing[k])))
      && fixups == Jumps(listing)
      && forall k :: 0 <= k < |listing| && listing[k].Jump? ==> listing[k].target < |labels|
    }

    constructor ()
      ensures Valid() && listing == [] && labels == []
    {
      words, fixups, labels, listing := [], [], [], [];
    }

    /** `r` and `i`. */
    method Emit(i: Instr)
      requires Valid() && i.Encodable()
      modifies this
      ensures Valid() && listing == old(listing) + [Plain(i)] && labels == old(labels)
    {
      words := words + [Encode(i)];
      listing := listing + [Plain(i)];
      assert listing[..|listing| - 1] == old(listing);
    }

    method EmitAll(code: seq<Instr>)
      requires Valid() && forall k :: 0 <= k < |code| ==> code[k].Encodable()
      modifies this
      ensures Valid() && listing == old(listing) + AllPlain(code) && labels == old(labels)
    {
      for k := 0 to |code|
        invariant Valid() && listing == old(listing) + AllPlain(code[..k]) && labels == old(labels)
      {
        Emit(code[k]);
        assert AllPlain(code[..k + 1]) == AllPlain(code[..k]) + [Plain(code[k])];
      }
      assert code[..|code|] == code;
    }

    method NewLabel() returns (lbl: nat)
      requires Valid()
      modifies this
      ensures Valid() && listing == old(listing) && labels == old(labels) + [None] && lbl == |old(labels)|
    {
      lbl := |labels|;
      labels := labels + [None];
    }

    method Bind(lbl: nat)
      requires Valid() && lbl < |labels|
      modifies this
      ensures Valid() && listing == old(listing) && labels == old(labels)[lbl := Some(|listing|)]
    {
      labels := labels[lbl := Some(|words|)];
    }

    method Here() returns (lbl: nat)
      requires Valid()
      modifies this
      ensures Valid() && listing == old(listing) && labels == old(labels) + [Some(|listing|)] && lbl == |old(labels)|
    {
      lbl := NewLabel();
      Bind(lbl);
    }

    method Branch(lbl: nat, pred: nat)
      requires Valid() && lbl < |labels| && pred < 4
      modifies this
      ensures Valid() && listing == old(listing) + [Jump(lbl, pred)] && labels == old(labels)
    {
      fixups := fixups + [Fixup(|words|, lbl)];
      words := words + [Encode(IForm(OP_BRANCH, 0, 0, 0, pred))];
      listing := listing + [Jump(lbl, pred)];
      assert listing[..|listing| - 1] == old(listing);
    }

    /** Opens a loop: labels for its top and its end, the compare, and the branch to the end. */
    method OpenLoop(ivar: nat, bound: nat) returns (top: nat, end: nat)
      requires Valid() && ivar < 64 && bound < 64
      modifies this
      ensures Valid() && top == |old(labels)| && end == top + 1
      ensures labels == old(labels) + [Some(|old(listing)|)] + [None]
      ensures listing == old(listing) + TestSymbols(ivar, bound, end)
    {
      top := Here();
      end := NewLabel();
      Emit(RForm(OP_SETP, CMP_GE * 4 + 1, ivar, bound, 0, 0));
      Branch(end, 1);
    }

    /** Closes it: the increment, the branch to the top, and the end. */
    method CloseLoop(ivar: nat, step: nat, top: nat, end: nat)
      requires Valid() && ivar < 64 && step <= IMM_MAX && top < |labels| && end < |labels|
      modifies this
      ensures Valid()
      ensures listing == old(listing) + BackSymbols(ivar, step, top)
      ensures labels == old(labels)[end := Some(|listing|)]
    {
      Emit(IForm(OP_ADD, ivar, ivar, step, 0));
      Branch(top, 0);
      Bind(end);
    }

    /**
     Links the program. Fails when a label is unbound or out of the 12-bit range;
     otherwise the words become the encoding of the linked listing.
     */
    method Finalize() returns (ok: bool)
      requires Valid()
      modifies this
      ensures ok == (Closed(listing, labels, 0) && AllEncodable(Link(listing, labels)))
      ensures ok ==> EncodesTo(words, Link(listing, labels))
      ensures listing == old(listing) && labels == old(labels)
    {
      hide Encode, Bitwise, Linked;
      JumpsComplete(listing);
      FirstFixup(listing);
      LinkedStart(words, listing, labels);
      LinkPlain(words, listing, labels, 0, Frontier(listing, 0));
      var n := 0;
      while n < |fixups|
        invariant n <= |fixups| && fixups == Jumps(listing)
        invariant listing == old(listing) && labels == old(labels) && |words| == |listing|
        invariant forall k :: 0 <= k < |listing| && listing[k].Jump? ==> listing[k].target < |labels|
        invariant Linked(words, listing, labels, Frontier(listing, n))
      {
        var f := fixups[n];
        NextFixup(listing, n);
        if labels[f.target].None? || labels[f.target].value > IMM_MAX {
          assert labels[f.target].Some? ==> !Link(listing, labels)[f.at].Encodable();
          return false;
        }
        LinkJump(words, listing, labels, f.at);
        words := words[f.at := Patch(words[f.at], labels[f.target].value)];
        LinkPlain(words, listing, labels, f.at + 1, Frontier(listing, n + 1));
        n := n + 1;
      }
      LinkedAll(words, listing, labels);
      return true;
    }
  }

  /** The first m words are linked, the others are as emitted. */
  ghost predicate Linked(words: seq<u32>, listing: seq<Symbolic>, labels: Labels, m: nat) {
    && |words| == |listing| && m <= |listing|
    && (forall k :: 0 <= k < m ==>
          && (listing[k].Jump? ==> listing[k].target < |labels| && labels[listing[k].target].Some?)
          && LinkOne(listing[k], labels).Encodable() && words[k] == Encode(LinkOne(listing[k], labels)))
    && forall k :: m <= k < |listing| ==> Emitted(listing[k]).Encodable() && words[k] == Encode(Emitted(listing[k]))
  }

  lemma LinkedStart(words: seq<u32>, listing: seq<Symbolic>, labels: Labels)
    requires |words| == |listing|
    requires forall k :: 0 <= k < |words| ==> Emitted(listing[k]).Encodable() && words[k] == Encode(Emitted(listing[k]))
    ensures Linked(words, listing, labels, 0)
  {}

  lemma LinkPlain(words: seq<u32>, listing: seq<Symbolic>, labels: Labels, m: nat, m': nat)
    requires Linked(words, listing, labels, m) && m <= m' <= |listing|
    requires forall k :: m <= k < m' ==> listing[k].Plain?
    ensures Linked(words, listing, labels, m')
  {
    hide Encode;
  }

  lemma LinkJump(words: seq<u32>, listing: seq<Symbolic>, labels: Labels, m: nat)
    requires Linked(words, listing, labels, m) && m < |listing| && listing[m].Jump?
    requires listing[m].target < |labels| && labels[listing[m].target].Some? && labels[listing[m].target].value <= IMM_MAX
    ensures Patch(words[m], labels[listing[m].target].value) < TWO32
    ensures Linked(words[m := Patch(words[m], labels[listing[m].target].value)], listing, labels, m + 1)
  {
    hide Encode, Bitwise;
    PatchBranch(labels[listing[m].target].value, listing[m].pred);
  }

  lemma LinkedAll(words: seq<u32>, listing: seq<Symbolic>, labels: Labels)
    requires Linked(words, listing, labels, |listing|)
    ensures Closed(listing, labels, 0) && EncodesTo(words, Link(listing, labels))
  {
    hide Encode;
  }

  ghost predicate Done(fixups: seq<Fixup>, n: nat, k: nat)
    requires n <= |fixups|
  {
    exists j :: 0 <= j < n && fixups[j].at == k
  }

  /** The fixups are exactly the branches of the listing, in order. */
  ghost predicate Complete(listing: seq<Symbolic>, fixups: seq<Fixup>) {
    && (forall j :: 0 <= j < |fixups| ==>
          fixups[j].at < |listing| && listing[fixups[j].at].Jump? && listing[fixups[j].at].target == fixups[j].target)
    && (forall k :: 0 <= k < |listing| && listing[k].Jump? ==> Done(fixups, |fixups|, k))
    && forall i, j :: 0 <= i < j < |fixups| ==> fixups[i].at < fixups[j].at
  }

  lemma {:induction false} JumpsComplete(listing: seq<Symbolic>)
    ensures Complete(listing, Jumps(listing))
  {
    if listing != [] {
      var n := |listing| - 1;
      JumpsComplete(listing[..n]);
      assert listing == listing[..n] + [listing[n]];
      CompleteExtend(listing[..n], Jumps(listing[..n]), listing[n]);
    }
  }

  lemma CompleteExtend(listing: seq<Symbolic>, fixups: seq<Fixup>, last: Symbolic)
    requires Complete(listing, fixups)
    ensures Complete(listing + [last], fixups + if last.Jump? then [Fixup(|listing|, last.target)] else [])
  {
    var listing', fixups' := listing + [last], fixups + if last.Jump? then [Fixup(|listing|, last.target)] else [];
    forall k | 0 <= k < |listing'| && listing'[k].Jump?
      ensures Done(fixups', |fixups'|, k)
    {
      if k < |listing| {
        var j :| 0 <= j < |fixups| && fixups[j].at == k;
        assert fixups'[j].at == k;
      } else {
        assert fixups'[|fixups|].at == k;
      }
    }
  }

  /** Where the n-th branch is; everything before it has been linked when n fixups are done. */
  function Frontier(listing: seq<Symbolic>, n: nat): nat {
    if n < |Jumps(listing)| then Jumps(listing)[n].at else |listing|
  }

  lemma FirstFixup(listing: seq<Symbolic>)
    ensures Frontier(listing, 0) <= |listing|
    ensures forall k :: 0 <= k < Frontier(listing, 0) ==> listing[k].Plain?
  {
    JumpsComplete(listing);
  }

  /** Between one branch of the fixup list and the next there is no other. */
  lemma NextFixup(listing: seq<Symbolic>, n: nat)
    requires n < |Jumps(listing)|
    ensures Frontier(listing, n) < |listing| && listing[Frontier(listing, n)].Jump?
    ensures listing[Frontier(listing, n)].target == Jumps(listing)[n].target
    ensures Frontier(listing, n) < Frontier(listing, n + 1) <= |listing|
    ensures forall k :: Frontier(listing, n) < k < Frontier(listing, n + 1) ==> listing[k].Plain?
  {
    JumpsComplete(listing);
    forall k | Frontier(listing, n) < k < Frontier(listing, n + 1)
      ensures listing[k].Plain?
    {
      if listing[k].Jump? {
        var j :| 0 <= j < |Jumps(listing)| && Jumps(listing)[j].at == k;
      }
    }
  }
}
