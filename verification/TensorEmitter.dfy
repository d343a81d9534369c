/**
 `compile_tensor` of compiler/titan_compiler.py as it emits: three nested loops with labels
 on an Assembler. The words it delivers encode TensorBackend.CompileTensor.
 */
module TensorEmitter {
  import opened Bits
  import opened Isa
  import opened Kernel
  import opened Assembler
  import opened TensorMatch
  import opened TensorBackend
  import opened Options
  import Codegen
  import ScalarBackend

  function KBody(g: Regs, flags: nat): seq<Instr> {
    TileAB(g) + WmmaCode(g, flags)
  }

  function KLoop(g: Regs, flags: nat): seq<Instr> {
    ScalarBackend.LoopCode(g.K0(), g.k, TILE, TopK(g), KBody(g, flags))
  }

  function JBody(g: Regs, flags: nat): seq<Instr> {
    TileC(g) + Zero(g.K0()) + KLoop(g, flags)
  }

  function JLoop(g: Regs, flags: nat): seq<Instr> {
    ScalarBackend.LoopCode(g.J0(), g.n, TILE, TopJ(g), JBody(g, flags))
  }

  function IBody(g: Regs, flags: nat): seq<Instr> {
    Zero(g.J0()) + JLoop(g, flags)
  }

  function ILoop(g: Regs, flags: nat): seq<Instr> {
    ScalarBackend.LoopCode(g.I0(), g.m, TILE, TopI(g), IBody(g, flags))
  }

  /** The flat listing of the tensor program is the nest of its three loops. */
  lemma NestedCode(g: Regs, flags: nat)
    ensures TensorCode(g, flags) == Loads(g.p) + Strides(g) + Zero(g.I0()) + ILoop(g, flags) + [Codegen.EXIT]
    ensures |KBody(g, flags)| == 7 && |JBody(g, flags)| == 16 && |IBody(g, flags)| == 21
  {
    hide Loads, Address;
    var k := KLoop(g, flags);
    assert k == Codegen.LoopTest(g.K0(), g.k, EndK(g)) + KBody(g, flags) + Codegen.LoopBack(g.K0(), TILE, TopK(g));
    var j := JLoop(g, flags);
    assert j == Codegen.LoopTest(g.J0(), g.n, EndJ(g)) + JBody(g, flags) + Codegen.LoopBack(g.J0(), TILE, TopJ(g));
    var i := ILoop(g, flags);
    assert i == Codegen.LoopTest(g.I0(), g.m, EndI(g)) + IBody(g, flags) + Codegen.LoopBack(g.I0(), TILE, TopI(g));
    assert TensorCode(g, flags) == Loads(g.p) + Strides(g) + Zero(g.I0()) + i + [Codegen.EXIT];
  }

  /** The loop over k0: one tile product per iteration. */
  method EmitKLoop(asm: Assembler, g: Regs, flags: nat)
    requires asm.Valid() && g.Valid() && flags < 2 && |asm.listing| == TopK(g)
    modifies asm
    ensures asm.Valid()
    ensures ScalarBackend.Extended(old(asm.listing), old(asm.labels), asm.listing, asm.labels, KLoop(g, flags))
  {
    hide ScalarBackend.Extended, ScalarBackend.LoopCode, TestSymbols, BackSymbols, Instr.Encodable;
    ghost var listing1, labels1 := asm.listing, asm.labels;
    OperandsEncodable(g, flags);
    var top, end := asm.OpenLoop(g.K0(), g.k);
    ghost var listing2, labels2 := asm.listing, asm.labels;
    asm.EmitAll(KBody(g, flags));
    ScalarBackend.ExtendedPlain(listing2, labels2, KBody(g, flags));
    ghost var listing3, labels3 := asm.listing, asm.labels;
    asm.CloseLoop(g.K0(), TILE, top, end);
    ScalarBackend.LoopLinked(listing1, labels1, listing2, labels2, g.K0(), g.k, TILE, listing3, labels3, KBody(g, flags), asm.listing, asm.labels);
  }

  lemma OperandsEncodable(g: Regs, flags: nat)
    requires g.Valid() && flags < 2
    ensures AllEncodable(KBody(g, flags)) && AllEncodable(TileC(g) + Zero(g.K0())) && AllEncodable(Zero(g.J0()))
    ensures AllEncodable(Loads(g.p) + Strides(g) + Zero(g.I0())) && Codegen.EXIT.Encodable()
    ensures g.k < 64 && g.n < 64 && g.m < 64 && g.K0() < 64
  {}

  /** The loop over j0: each iteration addresses a tile of C and sums its products. */
  method EmitJLoop(asm: Assembler, g: Regs, flags: nat)
    requires asm.Valid() && g.Valid() && flags < 2 && |asm.listing| == TopJ(g)
    modifies asm
    ensures asm.Valid()
    ensures ScalarBackend.Extended(old(asm.listing), old(asm.labels), asm.listing, asm.labels, JLoop(g, flags))
  {
    hide ScalarBackend.Extended, ScalarBackend.LoopCode, TestSymbols, BackSymbols, Instr.Encodable, KLoop, TileC;
    ghost var listing1, labels1 := asm.listing, asm.labels;
    OperandsEncodable(g, flags);
    var top, end := asm.OpenLoop(g.J0(), g.n);
    ghost var listing2, labels2 := asm.listing, asm.labels;
    ghost var before := TileC(g) + Zero(g.K0());
    asm.EmitAll(TileC(g) + Zero(g.K0()));
    ScalarBackend.ExtendedPlain(listing2, labels2, before);
    ghost var listing3, labels3 := asm.listing, asm.labels;
    BeforeK(g);
    EmitKLoop(asm, g, flags);
    ScalarBackend.ExtendedThen(listing2, labels2, listing3, labels3, before, asm.listing, asm.labels, KLoop(g, flags));
    ghost var listing4, labels4 := asm.listing, asm.labels;
    ScalarBackend.ExtendedLabels(listing2, labels2, listing4, labels4, JBody(g, flags));
    asm.CloseLoop(g.J0(), TILE, top, end);
    ScalarBackend.LoopLinked(listing1, labels1, listing2, labels2, g.J0(), g.n, TILE, listing4, labels4, JBody(g, flags), asm.listing, asm.labels);
  }

  lemma BeforeK(g: Regs)
    ensures |TileC(g) + Zero(g.K0())| == 5 && TopJ(g) + 2 + 5 == TopK(g)
  {}

  /** The loop over i0. */
  method EmitILoop(asm: Assembler, g: Regs, flags: nat)
    requires asm.Valid() && g.Valid() && flags < 2 && |asm.listing| == TopI(g)
    modifies asm
    ensures asm.Valid()
    ensures ScalarBackend.Extended(old(asm.listing), old(asm.labels), asm.listing, asm.labels, ILoop(g, flags))
  {
    hide ScalarBackend.Extended, ScalarBackend.LoopCode, TestSymbols, BackSymbols, Instr.Encodable, JLoop;
    ghost var listing1, labels1 := asm.listing, asm.labels;
    OperandsEncodable(g, flags);
    var top, end := asm.OpenLoop(g.I0(), g.m);
    ghost var listing2, labels2 := asm.listing, asm.labels;
    asm.EmitAll(Zero(g.J0()));
    ScalarBackend.ExtendedPlain(listing2, labels2, Zero(g.J0()));
    ghost var listing3, labels3 := asm.listing, asm.labels;
    EmitJLoop(asm, g, flags);
    ScalarBackend.ExtendedThen(listing2, labels2, listing3, labels3, Zero(g.J0()), asm.listing, asm.labels, JLoop(g, flags));
    ghost var listing4, labels4 := asm.listing, asm.labels;
    ScalarBackend.ExtendedLabels(listing2, labels2, listing4, labels4, IBody(g, flags));
    asm.CloseLoop(g.I0(), TILE, top, end);
    ScalarBackend.LoopLinked(listing1, labels1, listing2, labels2, g.I0(), g.m, TILE, listing4, labels4, IBody(g, flags), asm.listing, asm.labels);
  }

  /** The register that holds each parameter, taken from the front of the pool in order; None when it runs out. */
  method AssignParams(params: seq<string>) returns (reg: Option<map<string, nat>>)
    ensures reg.None? <==> |params| > POOL_HI - POOL_LO
    ensures reg.Some? ==> reg.value.Keys == Names(params)
    ensures reg.Some? ==> forall name <- params :: reg.value[name] == ParamReg(params, name)
  {
    var regs, free := map[], Codegen.Pool(POOL_LO);
    for idx := 0 to |params|
      invariant idx + |free| == POOL_HI - POOL_LO && free == Codegen.Pool(POOL_LO + idx)
      invariant regs.Keys == Names(params[..idx])
      invariant forall name <- params[..idx] :: regs[name] == ParamReg(params[..idx], name)
    {
      if free == [] {
        return None;
      }
      assert params[..idx + 1][..idx] == params[..idx];
      regs, free := regs[params[idx] := free[0]], free[1..];
      NextParam(params, idx);
    }
    assert params[..|params|] == params;
    return Some(regs);
  }

  lemma NextParam(params: seq<string>, idx: nat)
    requires idx < |params|
    ensures Names(params[..idx + 1]) == Names(params[..idx]) + {params[idx]}
    ensures forall name <- params[..idx + 1] :: name != params[idx] ==> name in params[..idx]
    ensures forall name <- params[..idx + 1] ::
      ParamReg(params[..idx + 1], name) == if name == params[idx] then 2 + idx else ParamReg(params[..idx], name)
  {
    var longer := params[..idx + 1];
    assert longer[..idx] == params[..idx];
    forall name | name in longer
      ensures name != params[idx] ==> name in params[..idx]
      ensures ParamReg(longer, name) == if name == params[idx] then 2 + idx else ParamReg(params[..idx], name)
    {
      assert longer[|longer| - 1] == params[idx];
    }
  }

  /** Fails, as the exceptions do, when the kernel is no matmul, a symbol is no parameter or registers run out. */
  method CompileTensorWords(k: Kernel, fp8: bool) returns (words: Option<seq<u32>>)
    ensures words.None? <==> CompileTensor(k, fp8).None?
    ensures words.Some? ==> EncodesTo(words.value, CompileTensor(k, fp8).value)
  {
    hide ScalarBackend.Extended, Instr.Encodable, ILoop, TensorCode, MatchMatmul, Loads, Strides;
    var found := MatchMatmul(k);
    if found.None? {
      return None;
    }
    var mm := found.value.0;
    var reg := AssignParams(k.params);
    if reg.None? || !({mm.A, mm.B, mm.C, mm.M, mm.N, mm.K} <= reg.value.Keys) || 8 + |k.params| > POOL_HI - POOL_LO {
      return None;
    }
    var g := Regs(|k.params|, reg.value[mm.A], reg.value[mm.B], reg.value[mm.C], reg.value[mm.M], reg.value[mm.N], reg.value[mm.K]);
    assert RegsOf(k.params, mm) == Some(g);
    RegsValid(k.params, mm);
    var flags := if fp8 then 1 else 0;
    OperandsEncodable(g, flags);
    TensorEncodable(g, flags);
    NestedCode(g, flags);
    var asm := new Assembler();
    ghost var head := Loads(g.p) + Strides(g) + Zero(g.I0());
    asm.EmitAll(Loads(g.p) + Strides(g) + Zero(g.I0()));
    BeforeI(g);
    ScalarBackend.PlainExtends(asm.listing, head);
    ghost var listing1, labels1 := asm.listing, asm.labels;
    EmitILoop(asm, g, flags);
    ghost var listing2, labels2 := asm.listing, asm.labels;
    ScalarBackend.ExtendedThen([], [], listing1, labels1, head, listing2, labels2, ILoop(g, flags));
    asm.Emit(Codegen.EXIT);
    ScalarBackend.ExitExtends(listing2, labels2);
    ScalarBackend.ExtendedThen([], [], listing2, labels2, head + ILoop(g, flags), asm.listing, asm.labels, [Codegen.EXIT]);
    ScalarBackend.ExtendedWhole(asm.listing, asm.labels, TensorCode(g, flags));
    var ok := asm.Finalize();
    words := Some(asm.words);
  }

  lemma BeforeI(g: Regs)
    ensures |Loads(g.p) + Strides(g) + Zero(g.I0())| == TopI(g)
  {}
}
