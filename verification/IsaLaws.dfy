/**
 Laws of the integer instructions (driver/titan_x6_gpu_model.c): the high half of a product
 completes the low half, the fused and the selecting instructions agree with those they
 combine, shifts scale, comparisons and bitwise operators follow from additions and
 subtractions, and the atomics exchange with memory.
 */
module IsaLaws {
  import opened Bits
  import opened Dyadic
  import opened Isa
  import opened Memory
  import opened Machine
  import opened GpuThread

  /** MULHI and MUL together hold the exact signed 64-bit product. */
  lemma HighAndLow(a: u32, b: u32, c: u32)
    ensures Signed(IntegerOp(OP_MULHI, a, b, c)) * TWO32 + CAlu(OP_MUL, a, b) == Signed(a) * Signed(b)
  {
    hide Signed, Wrap;
    var x, y := Signed(a), Signed(b);
    ProductRange(x, y);
    HalvesOfProduct(x * y);
  }

  lemma ProductRange(x: int, y: int)
    requires -TWO31 <= x < TWO31 && -TWO31 <= y < TWO31
    ensures -TWO31 * TWO31 <= x * y <= TWO31 * TWO31
  {
    var u, v := if x < 0 then -x else x, if y < 0 then -y else y;
    MulMono(u, TWO31, v);
    MulMono(v, TWO31, TWO31);
    assert x * y == u * v || x * y == -(u * v);
    MulMono(0, u, v);
  }

  lemma HalvesOfProduct(p: int)
    requires -TWO31 * TWO31 <= p <= TWO31 * TWO31
    ensures Signed(Wrap(p / TWO32)) * TWO32 + Wrap(p) == p
  {
    var h, l := p / TWO32, p % TWO32;
    assert p == h * TWO32 + l;
    assert -TWO31 <= h < TWO31;
  }

  /** Integer FMA is MUL followed by ADD. */
  lemma FmaIsMulThenAdd(a: u32, b: u32, c: u32)
    ensures IntegerOp(OP_FMA, a, b, c) == CAlu(OP_ADD, CAlu(OP_MUL, a, b), c)
  {
    hide Signed;
    WrapAdd(Signed(a) * Signed(b), c);
  }

  /** MIN and MAX select the two operands in signed order, SLT and SLTU agree with the predicates of SETP. */
  lemma SelectionsAgree(a: u32, b: u32, c: u32)
    ensures var least, most := IntegerOp(OP_MIN, a, b, c), IntegerOp(OP_MAX, a, b, c);
      multiset{least, most} == multiset{a, b} && Signed(least) <= Signed(most)
    ensures IntegerOp(OP_SLT, a, b, c) == if CCompare(CMP_LT, a, b) then 1 else 0
    ensures IntegerOp(OP_SLTU, a, b, c) == if CCompare(CMP_LTU, a, b) then 1 else 0
    ensures CCompare(CMP_NE, a, b) == !CCompare(CMP_EQ, a, b)
    ensures CCompare(CMP_GE, a, b) == !CCompare(CMP_LT, a, b)
    ensures CCompare(CMP_GEU, a, b) == !CCompare(CMP_LTU, a, b)
    ensures CCompare(CMP_EQ, a, b) <==> CCompare(CMP_GE, a, b) && CCompare(CMP_GE, b, a)
  {
    SignedInjective(a, b);
  }

  lemma SignedInjective(a: u32, b: u32)
    ensures Signed(a) == Signed(b) <==> a == b
  {}

  /** A right shift is undone by the left shift, but for the bits shifted out. */
  lemma ShiftsCancel(a: u32, k: u32)
    requires k < 32
    ensures CAlu(OP_SHL, CAlu(OP_SHR, a, k), k) == a - Low(a, k)
    ensures Signed(CAlu(OP_SRA, a, k)) * Pow2(k) <= Signed(a) < (Signed(CAlu(OP_SRA, a, k)) + 1) * Pow2(k)
  {
    hide Pow2, Signed;
    var p := Pow2(k);
    LogicalShift(a, p);
    ArithmeticShift(a, p);
    assert k % 32 == k;
  }

  lemma LogicalShift(a: u32, p: nat)
    requires p > 0
    ensures 0 <= a / p && a / p * p == a - a % p && Wrap(a / p * p) == a - a % p
  {
    QuotientBound(a, p);
    var q, r := a / p, a % p;
    assert a == q * p + r;
    MulMono(0, q, p);
  }

  lemma ArithmeticShift(a: u32, p: nat)
    requires p > 0
    ensures Signed(Wrap(Signed(a) / p)) == Signed(a) / p
    ensures Signed(a) / p * p <= Signed(a) < (Signed(a) / p + 1) * p
  {
    hide Signed;
    var x := Signed(a);
    var q, r := x / p, x % p;
    assert x == q * p + r;
    assert (q + 1) * p == q * p + p;
    QuotientInRange(x, p);
    SignedOfWrap(q);
  }

  lemma QuotientInRange(x: int, p: nat)
    requires p > 0 && -TWO31 <= x < TWO31
    ensures -TWO31 <= x / p < TWO31
  {
    var q, r := x / p, x % p;
    assert x == q * p + r;
    if q >= TWO31 {
      MulMono(1, p, q);
    } else if q < -TWO31 {
      MulMono(1, p, -q - 1);
    }
  }

  /** The logical right shift is the floor of the unsigned quotient, the left shift the product modulo 2^32. */
  lemma ShiftsScale(a: u32, k: u32)
    requires k < 32
    ensures CAlu(OP_SHR, a, k) as int * Pow2(k) <= a < (CAlu(OP_SHR, a, k) as int + 1) * Pow2(k)
    ensures CAlu(OP_SHL, a, k) == Wrap(a * Pow2(k))
  {
    hide Pow2;
    var p := Pow2(k);
    LogicalShift(a, p);
    assert k % 32 == k;
    assert (a / p + 1) * p == a / p * p + p;
  }

  /** The unsigned comparison is the borrow of the subtraction, the signed one the unsigned one after moving both operands by 2^31. */
  lemma ComparisonsByArithmetic(a: u32, b: u32)
    ensures CCompare(CMP_LTU, a, b) <==> CAlu(OP_SUB, a, b) as int != a as int - b as int
    ensures CCompare(CMP_LT, a, b) <==> CCompare(CMP_LTU, CAlu(OP_ADD, a, 0x8000_0000), CAlu(OP_ADD, b, 0x8000_0000))
    ensures CCompare(CMP_EQ, a, b) <==> CAlu(OP_SUB, a, b) == 0
  {
    hide Wrap, Signed;
    Borrow(a, b);
    MovedUp(a);
    MovedUp(b);
  }

  lemma Borrow(a: u32, b: u32)
    ensures Wrap(a - b) == if a < b then a as int - b as int + TWO32 else a as int - b as int
  {}

  lemma MovedUp(a: u32)
    ensures Wrap(a + 0x8000_0000) == Signed(a) + TWO31
  {}

  // --- bits ---

  lemma {:induction false} SumOfBits(x: nat, y: nat)
    ensures Bitwise(AND, x, y) + Bitwise(OR, x, y) == x + y
    ensures Bitwise(XOR, x, y) + 2 * Bitwise(AND, x, y) == x + y
    decreases x + y
  {
    if x != 0 || y != 0 {
      SumOfBits(x / 2, y / 2);
    }
  }

  lemma {:induction false} AndItself(x: nat)
    ensures Bitwise(AND, x, x) == x && Bitwise(AND, x, 0) == 0 && Bitwise(AND, 0, x) == 0
    decreases x
  {
    if x != 0 {
      AndItself(x / 2);
    }
  }

  /**
   The bitwise instructions: AND of a word with itself and with 0, and OR and XOR from AND
   by addition. Bit by bit these fix all three truth tables.
   */
  lemma BitwiseByArithmetic(a: u32, b: u32)
    ensures CAlu(OP_AND, a, a) == a && CAlu(OP_AND, a, 0) == 0 && CAlu(OP_AND, 0, a) == 0
    ensures CAlu(OP_AND, a, b) as int + CAlu(OP_OR, a, b) as int == a as int + b as int
    ensures CAlu(OP_XOR, a, b) as int + 2 * CAlu(OP_AND, a, b) as int == a as int + b as int
    ensures CAlu(OP_XOR, CAlu(OP_XOR, a, b), b) == a
  {
    hide Bitwise;
    AndItself(a);
    SumOfBits(a, b);
    XorTwice(a, b);
  }

  lemma {:induction false} XorTwice(x: nat, y: nat)
    ensures Bitwise(XOR, Bitwise(XOR, x, y), y) == x
    decreases x + y
  {
    if x != 0 || y != 0 {
      XorTwice(x / 2, y / 2);
      XorHalves(x, y);
      XorHalves(Bitwise(XOR, x, y), y);
    }
  }

  lemma XorHalves(x: nat, y: nat)
    ensures Bitwise(XOR, x, y) / 2 == Bitwise(XOR, x / 2, y / 2)
    ensures Bitwise(XOR, x, y) % 2 == (x + y) % 2
  {
    hide Bitwise;
    HalfOf(x, y);
    OneAndDouble(XOR.Bit(x % 2, y % 2), Bitwise(XOR, x / 2, y / 2));
  }

  lemma OneAndDouble(bit: nat, q: nat)
    requires bit <= 1
    ensures (bit + 2 * q) / 2 == q && (bit + 2 * q) % 2 == bit
  {}

  lemma HalfOf(x: nat, y: nat)
    ensures Bitwise(XOR, x, y) == XOR.Bit(x % 2, y % 2) + 2 * Bitwise(XOR, x / 2, y / 2)
  {}

  /** The atomics return the old word and leave the new one, in range. */
  lemma AtomicsExchange(m: HostMath, i: Instr, t: Thread, d: Device)
    requires i.Encodable() && t.Valid() && t.p[i.pred] && i.op in {OP_ATOM_ADD, OP_ATOM_CAS}
    requires t.r[i.rs1] + 4 <= |d.vram|
    ensures var a := t.r[i.rs1];
      var before := Rd32(d.vram, a);
      var e := Switch(m, i, t, d);
      && e.Effect? && e.t.r[i.rd] == before && e.d.error == d.error && |e.d.vram| == |d.vram|
      && Rd32(e.d.vram, a) == (if i.op == OP_ATOM_ADD then Wrap(before + OperandB(i, t.r))
                               else if before == t.r[Rs2(i)] then t.r[Rs3(i)] else before)
      && forall k :: 0 <= k < |d.vram| && !(a <= k < a + 4) ==> e.d.vram[k] == d.vram[k]
  {
    hide Rd32, Wr32, Wrap, OperandB;
  }
}
