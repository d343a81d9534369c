/**
 Titan ISA v2: the 32-bit instruction word, its two encoders and the field extractors
 (compiler/titan_compiler.py, driver/titan_x6_isa.h).
 */
module Isa {
  import opened Bits

  const OP_ADD := 0
  const OP_SUB := 1
  const OP_MUL := 2
  const OP_DIV := 4
  const OP_AND := 5
  const OP_OR := 6
  const OP_XOR := 7
  const OP_SHL := 8
  const OP_SHR := 9
  const OP_SRA := 10
  const OP_SETP := 21
  const OP_LOAD := 22
  const OP_STORE := 23
  const OP_BRANCH := 24
  const OP_BARRIER := 25
  const OP_WMMA := 26

  const CMP_EQ := 0
  const CMP_NE := 1
  const CMP_LT := 2
  const CMP_GE := 3
  const CMP_LTU := 4
  const CMP_GEU := 5

  const R_ZERO := 0
  const R_PARAM := 1
  const R_LDA := 58
  const R_LDB := 59
  const R_LDC := 60
  const R_NTHREADS := 61
  const R_TID := 62
  const POOL_LO := 2
  const POOL_HI := 58
  const EXIT_IMM := 0xFFF
  const IMM_MAX := 0xFFF

  /** An instruction by its fields: the register form and the 12-bit immediate form. */
  datatype Instr =
    | RForm(op: nat, rd: nat, rs1: nat, rs2: nat, rs3: nat, pred: nat)
    | IForm(op: nat, rd: nat, rs1: nat, imm: nat, pred: nat)
  {
    /** Every field fits its bit range. */
    predicate Encodable() {
      && op < 32 && rd < 64 && rs1 < 64 && pred < 4
      && match this
         case RForm(_, _, _, rs2, rs3, _) => rs2 < 64 && rs3 < 64
         case IForm(_, _, _, imm, _) => imm <= IMM_MAX
    }
  }

  /** `enc_r`: shifted fields joined by `|`. */
  function EncR(op: nat, rd: nat, rs1: nat, rs2: nat, rs3: nat, pred: nat): nat {
    Bitwise(OR, Bitwise(OR, Bitwise(OR, Bitwise(OR, Bitwise(OR,
      op * 0x800_0000, (rd % 64) * 0x20_0000), (rs1 % 64) * 0x8000),
      (rs2 % 64) * 0x200), (rs3 % 64) * 8), (pred % 4) * 2)
  }

  /** `enc_i`; the assertion on the immediate range is the caller's obligation. */
  function EncI(op: nat, rd: nat, rs1: nat, imm: nat, pred: nat): nat
    requires imm <= IMM_MAX
  {
    Bitwise(OR, Bitwise(OR, Bitwise(OR, Bitwise(OR, Bitwise(OR,
      op * 0x800_0000, (rd % 64) * 0x20_0000), (rs1 % 64) * 0x8000),
      imm * 8), (pred % 4) * 2), 1)
  }

  function Encode(i: Instr): (w: u32)
    requires i.Encodable()
  {
    EncodeIsSum(i);
    DecodeLayout(i);
    match i
    case RForm(op, rd, rs1, rs2, rs3, pred) => EncR(op, rd, rs1, rs2, rs3, pred)
    case IForm(op, rd, rs1, imm, pred) => EncI(op, rd, rs1, imm, pred)
  }

  /** The decoder's field extraction; the low bit selects the form. */
  function Decode(w: u32): (i: Instr)
    ensures i.Encodable()
  {
    var op, rd, rs1, pred := w / 0x800_0000, (w / 0x20_0000) % 64, (w / 0x8000) % 64, (w / 2) % 4;
    if w % 2 == 1 then IForm(op, rd, rs1, (w / 8) % 0x1000, pred)
    else RForm(op, rd, rs1, (w / 0x200) % 64, (w / 8) % 64, pred)
  }

  /** The word as the sum of its fields, each at its own weight. */
  function Layout(i: Instr): nat {
    var high := i.op * 0x800_0000 + i.rd * 0x20_0000 + i.rs1 * 0x8000;
    match i
    case RForm(_, _, _, rs2, rs3, pred) => high + rs2 * 0x200 + rs3 * 8 + pred * 2
    case IForm(_, _, _, imm, pred) => high + imm * 8 + pred * 2 + 1
  }

  lemma Join(a: nat, b: nat, k: nat, p: nat)
    requires p == Pow2(k) && b < p
    ensures Bitwise(OR, a * p, b) == a * p + b
  {
    OrDisjoint(a, b, k);
  }

  /** The shifted fields do not overlap, so joining them with `|` adds them. */
  lemma EncodeIsSum(i: Instr)
    requires i.Encodable()
    ensures i.RForm? ==> EncR(i.op, i.rd, i.rs1, i.rs2, i.rs3, i.pred) == Layout(i)
    ensures i.IForm? ==> EncI(i.op, i.rd, i.rs1, i.imm, i.pred) == Layout(i)
  {
    hide Bitwise;
    match i {
      case RForm(op, rd, rs1, rs2, rs3, pred) => EncRSum(op, rd, rs1, rs2, rs3, pred);
      case IForm(op, rd, rs1, imm, pred) => EncISum(op, rd, rs1, imm, pred);
    }
  }

  lemma SmallMod(x: nat)
    requires x < 64
    ensures x % 64 == x
  {}

  lemma EncRSum(op: nat, rd: nat, rs1: nat, rs2: nat, rs3: nat, pred: nat)
    requires RForm(op, rd, rs1, rs2, rs3, pred).Encodable()
    ensures EncR(op, rd, rs1, rs2, rs3, pred) == Layout(RForm(op, rd, rs1, rs2, rs3, pred))
  {
    hide Bitwise, Pow2;
    Pow2Values();
    var a := op * 64 + rd;
    var b := a * 64 + rs1;
    var c := b * 64 + rs2;
    var d := c * 64 + rs3;
    SmallMod(rd);
    SmallMod(rs1);
    SmallMod(rs2);
    SmallMod(rs3);
    Join(op, rd * 0x20_0000, 27, 0x800_0000);
    var w1 := Bitwise(OR, op * 0x800_0000, rd * 0x20_0000);
    assert w1 == a * 0x20_0000;
    Join(a, rs1 * 0x8000, 21, 0x20_0000);
    var w2 := Bitwise(OR, w1, rs1 * 0x8000);
    assert w2 == b * 0x8000;
    Join(b, rs2 * 0x200, 15, 0x8000);
    var w3 := Bitwise(OR, w2, rs2 * 0x200);
    assert w3 == c * 0x200;
    Join(c, rs3 * 8, 9, 0x200);
    var w4 := Bitwise(OR, w3, rs3 * 8);
    assert w4 == d * 8;
    Join(d, pred * 2, 3, 8);
  }

  lemma EncISum(op: nat, rd: nat, rs1: nat, imm: nat, pred: nat)
    requires IForm(op, rd, rs1, imm, pred).Encodable()
    ensures EncI(op, rd, rs1, imm, pred) == Layout(IForm(op, rd, rs1, imm, pred))
  {
    hide Bitwise, Pow2;
    Pow2Values();
    var a := op * 64 + rd;
    var b := a * 64 + rs1;
    var c := b * 0x1000 + imm;
    SmallMod(rd);
    SmallMod(rs1);
    Join(op, rd * 0x20_0000, 27, 0x800_0000);
    var w1 := Bitwise(OR, op * 0x800_0000, rd * 0x20_0000);
    assert w1 == a * 0x20_0000;
    Join(a, rs1 * 0x8000, 21, 0x20_0000);
    var w2 := Bitwise(OR, w1, rs1 * 0x8000);
    assert w2 == b * 0x8000;
    Join(b, imm * 8, 15, 0x8000);
    var w3 := Bitwise(OR, w2, imm * 8);
    assert w3 == c * 8;
    Join(c, pred * 2, 3, 8);
    var w4 := Bitwise(OR, w3, pred * 2);
    assert w4 == (c * 4 + pred) * 2;
    Join(c * 4 + pred, 1, 1, 2);
  }

  lemma Field(w: nat, q: nat, r: nat, d: nat)
    requires w == q * d + r && r < d
    ensures w / d == q && w % d == r
  {
    QuotientUnique(w / d, w % d, q, r, d);
  }

  lemma QuotientUnique(p: int, m: int, q: int, r: int, d: int)
    requires p * d + m == q * d + r && 0 <= m < d && 0 <= r < d
    ensures p == q && m == r
  {
    assert (p - q) * d == r - m;
    assert (q - p) * d == m - r;
    if p > q {
      AtLeastOnce(p - q, d);
    } else if p < q {
      AtLeastOnce(q - p, d);
    }
  }

  lemma {:induction false} AtLeastOnce(e: nat, d: nat)
    requires e >= 1
    ensures e * d >= d
  {
    if e > 1 {
      AtLeastOnce(e - 1, d);
      assert e * d == (e - 1) * d + d;
    }
  }

  /** The decoder recovers exactly the fields that were encoded. */
  lemma DecodeEncode(i: Instr)
    requires i.Encodable()
    ensures Decode(Encode(i)) == i
  {
    hide Bitwise;
    EncodeIsSum(i);
    DecodeLayout(i);
  }

  lemma DecodeLayout(i: Instr)
    requires i.Encodable()
    ensures Layout(i) < TWO32 && Decode(Layout(i)) == i
  {
    var w := Layout(i);
    var a := i.op * 64 + i.rd;
    var b := a * 64 + i.rs1;
    Field(w, i.op, w - i.op * 0x800_0000, 0x800_0000);
    Field(w, a, w - a * 0x20_0000, 0x20_0000);
    Field(w, b, w - b * 0x8000, 0x8000);
    Field(a, i.op, i.rd, 64);
    Field(b, a, i.rs1, 64);
    var low := if i.RForm? then i.rs2 * 64 + i.rs3 else i.imm;
    var c := b * 0x1000 + low;
    var u := if i.IForm? then 1 else 0;
    assert w == (c * 4 + i.pred) * 2 + u;
    Field(w, c * 4 + i.pred, u, 2);
    Field(w, c, i.pred * 2 + u, 8);
    Field(c * 4 + i.pred, c, i.pred, 4);
    Field(c, b, low, 0x1000);
    if i.RForm? {
      var d := b * 64 + i.rs2;
      Field(w, d, i.rs3 * 8 + i.pred * 2, 0x200);
      Field(d, b, i.rs2, 64);
      Field(c, d, i.rs3, 64);
    }
  }

  /** `finalize`: OR-ing a target into a branch emitted with immediate 0 encodes that target. */
  lemma PatchBranch(target: nat, pred: nat)
    requires target <= IMM_MAX && pred < 4
    ensures Bitwise(OR, Encode(IForm(OP_BRANCH, 0, 0, 0, pred)), target * 8)
         == Encode(IForm(OP_BRANCH, 0, 0, target, pred))
  {
    hide Bitwise;
    Pow2Values();
    EncodeIsSum(IForm(OP_BRANCH, 0, 0, 0, pred));
    EncodeIsSum(IForm(OP_BRANCH, 0, 0, target, pred));
    var hi, lo := OP_BRANCH * 0x1000, pred * 2 + 1;
    assert Encode(IForm(OP_BRANCH, 0, 0, 0, pred)) == (hi * 0x1000) * 8 + lo;
    OrSplit(hi * 0x1000, lo, target, 0, 3);
    OrZero(lo);
    OrDisjoint(hi, target, 12);
  }
}
