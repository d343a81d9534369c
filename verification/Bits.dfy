/**
 Machine integers as they appear throughout the Titan X6 sources: 32-bit words held as
 unbounded integers in range, explicit wrap-around, the signed reading of a word, and the
 bitwise operators of Python and C on non-negative integers.
 */
module Bits {

  const TWO31 := 0x8000_0000
  const TWO32 := 0x1_0000_0000

  type u32 = x: int | 0 <= x < 0x1_0000_0000
  type u8 = x: int | 0 <= x < 0x100

  /** `x & 0xFFFFFFFF` in Python, the implicit reduction of uint32_t in C. */
  function Wrap(x: int): (r: u32) {
    x % TWO32
  }

  /** `s32` / `se32` / the `(int32_t)` cast: the two's-complement reading of the low 32 bits. */
  function Signed(x: int): (r: int)
    ensures -TWO31 <= r < TWO31
    ensures Wrap(r) == Wrap(x)
  {
    var w := x % TWO32;
    if w >= TWO31 then w - TWO32 else w
  }

  lemma WordOfSigned(w: u32)
    ensures Wrap(Signed(w)) == w
  {}

  lemma SignedOfWrap(x: int)
    ensures Signed(Wrap(x)) == Signed(x)
    ensures -TWO31 <= x < TWO31 ==> Signed(x) == x
  {}

  lemma WrapSmall(x: int)
    ensures 0 <= x < TWO32 ==> Wrap(x) == x
  {}

  lemma WrapAdd(x: int, y: int)
    ensures Wrap(Wrap(x) + y) == Wrap(x + y)
  {}

  lemma WrapSub(a: int, b: int)
    ensures Wrap(Wrap(a) as int - Wrap(b) as int) == Wrap(a - b)
  {}

  /** Division that truncates toward zero, as C's `/` does. */
  function TruncDiv(x: int, y: int): int
    requires y != 0
  {
    if x >= 0 then (if y > 0 then x / y else -(x / -y))
    else if y > 0 then -(-x / y) else -x / -y
  }

  function Pow2(n: nat): (r: nat)
    ensures r > 0
  {
    if n == 0 then 1 else 2 * Pow2(n - 1)
  }

  lemma {:induction false} Pow2Add(m: nat, n: nat)
    ensures Pow2(m + n) == Pow2(m) * Pow2(n)
  {
    if m > 0 {
      Pow2Add(m - 1, n);
      assert Pow2(m) * Pow2(n) == 2 * (Pow2(m - 1) * Pow2(n));
    }
  }

  lemma {:induction false} Pow2Monotone(m: nat, n: nat)
    requires m <= n
    ensures Pow2(m) <= Pow2(n)
    ensures m < n ==> 2 * Pow2(m) <= Pow2(n)
  {
    if m < n {
      Pow2Monotone(m, n - 1);
    }
  }

  lemma MulMono(a: int, b: int, c: int)
    requires a <= b && 0 <= c
    ensures a * c <= b * c
  {
    var d: nat, e: nat := b - a, c;
    assert d * e >= 0;
    assert d * e == b * c - a * c;
  }

  lemma QuotientBound(a: nat, d: nat)
    requires d > 0
    ensures 0 <= a / d <= a
  {
    var q, r := a / d, a % d;
    assert a == q * d + r;
    if q < 0 {
      MulMono(q, -1, d);
    } else {
      MulMono(1, d, q);
    }
  }

  /** The powers of two that occur as field positions and word sizes. */
  lemma Pow2Values()
    ensures Pow2(1) == 2 && Pow2(3) == 8 && Pow2(8) == 0x100 && Pow2(9) == 0x200 && Pow2(12) == 0x1000
    ensures Pow2(15) == 0x8000 && Pow2(16) == 0x1_0000 && Pow2(21) == 0x20_0000
    ensures Pow2(24) == 0x100_0000 && Pow2(27) == 0x800_0000
    ensures Pow2(31) == TWO31 && Pow2(32) == TWO32
  {
    assert Pow2(1) == 2 && Pow2(3) == 8 && Pow2(4) == 16;
    Pow2Add(4, 4);
    Pow2Add(8, 4);
    assert Pow2(9) == 0x200;
    Pow2Add(12, 3);
    Pow2Add(8, 8);
    Pow2Add(12, 9);
    Pow2Add(16, 8);
    Pow2Add(24, 3);
    Pow2Add(16, 15);
    Pow2Add(16, 16);
  }

  /** The bitwise connectives, applied bit by bit to non-negative integers. */
  datatype Connective = AND | OR | XOR {
    function Bit(x: nat, y: nat): (r: nat)
      ensures r <= 1
    {
      match this
      case AND => if x == 1 && y == 1 then 1 else 0
      case OR => if x == 1 || y == 1 then 1 else 0
      case XOR => if x != y then 1 else 0
    }
  }

  function Bitwise(op: Connective, a: nat, b: nat): (r: nat)
    decreases a + b
  {
    if a == 0 && b == 0 then 0
    else op.Bit(a % 2, b % 2) + 2 * Bitwise(op, a / 2, b / 2)
  }

  /** Bitwise operators do not leave the width of their operands. */
  lemma {:induction false} BitwiseBound(op: Connective, a: nat, b: nat, n: nat)
    requires a < Pow2(n) && b < Pow2(n)
    ensures Bitwise(op, a, b) < Pow2(n)
  {
    if n > 0 {
      BitwiseBound(op, a / 2, b / 2, n - 1);
    }
  }

  function Bitwise32(op: Connective, a: u32, b: u32): (r: u32) {
    Pow2Values();
    BitwiseBound(op, a, b, 32);
    Bitwise(op, a, b)
  }

  lemma {:induction false} OrZero(a: nat)
    ensures Bitwise(OR, a, 0) == a
    decreases a
  {
    if a > 0 {
      OrZero(a / 2);
    }
  }

  /** OR of values that share no bit position is addition. */
  lemma {:induction false} OrDisjoint(a: nat, b: nat, k: nat)
    requires b < Pow2(k)
    ensures Bitwise(OR, a * Pow2(k), b) == a * Pow2(k) + b
  {
    if k == 0 {
      OrZero(a);
    } else {
      var p := Pow2(k - 1);
      assert a * Pow2(k) == 2 * (a * p);
      OrDisjoint(a, b / 2, k - 1);
      assert (a * Pow2(k)) / 2 == a * p && (a * Pow2(k)) % 2 == 0;
    }
  }

  /** OR acts separately on the bits below and above position k. */
  lemma {:induction false} OrSplit(h1: nat, l1: nat, h2: nat, l2: nat, k: nat)
    requires l1 < Pow2(k) && l2 < Pow2(k)
    ensures Bitwise(OR, h1 * Pow2(k) + l1, h2 * Pow2(k) + l2)
         == Bitwise(OR, h1, h2) * Pow2(k) + Bitwise(OR, l1, l2)
  {
    if k > 0 {
      OrSplit(h1, l1 / 2, h2, l2 / 2, k - 1) by {
        Halves(h1, l1, k);
        Halves(h2, l2, k);
      }
      OrDouble(h1, l1, h2, l2, k);
    }
  }

  lemma OrDouble(h1: nat, l1: nat, h2: nat, l2: nat, k: nat)
    requires k > 0 && l1 < Pow2(k) && l2 < Pow2(k)
    requires Bitwise(OR, h1 * Pow2(k - 1) + l1 / 2, h2 * Pow2(k - 1) + l2 / 2)
          == Bitwise(OR, h1, h2) * Pow2(k - 1) + Bitwise(OR, l1 / 2, l2 / 2)
    ensures Bitwise(OR, h1 * Pow2(k) + l1, h2 * Pow2(k) + l2)
         == Bitwise(OR, h1, h2) * Pow2(k) + Bitwise(OR, l1, l2)
  {
    hide Bitwise, Pow2;
    var a, b := h1 * Pow2(k) + l1, h2 * Pow2(k) + l2;
    Halves(h1, l1, k);
    Halves(h2, l2, k);
    OrStep(a, b);
    OrStep(l1, l2);
    Halves(Bitwise(OR, h1, h2), 0, k);
  }

  lemma OrStep(a: nat, b: nat)
    ensures Bitwise(OR, a, b) == OR.Bit(a % 2, b % 2) + 2 * Bitwise(OR, a / 2, b / 2)
  {}

  lemma Halves(h: nat, l: nat, k: nat)
    requires k > 0 && l < Pow2(k)
    ensures h * Pow2(k) == 2 * (h * Pow2(k - 1))
    ensures var x := h * Pow2(k) + l; x / 2 == h * Pow2(k - 1) + l / 2 && x % 2 == l % 2
    ensures l / 2 < Pow2(k - 1)
  {
    assert h * Pow2(k) == 2 * (h * Pow2(k - 1));
  }
}
