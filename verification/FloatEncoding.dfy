/** The fields of a floating-point word: packing them with shifts and `|`, and decoding them again. */
module FloatEncoding {
  import opened Bits
  import opened Dyadic
  import opened Float
  import Isa

  lemma {:induction false} OrCommutes(a: nat, b: nat)
    ensures Bitwise(OR, a, b) == Bitwise(OR, b, a)
    decreases a + b
  {
    if a != 0 || b != 0 {
      OrCommutes(a / 2, b / 2);
    }
  }

  lemma Quotient(n: nat, k: nat, q: nat)
    requires q * Pow2(k) <= n < q * Pow2(k) + Pow2(k)
    ensures Shr(n, k) == q && Low(n, k) == n - q * Pow2(k)
  {
    Divided(n, k);
    Isa.QuotientUnique(Shr(n, k), Low(n, k), q, n - q * Pow2(k), Pow2(k));
  }

  /** The word as a sum. */
  function Sum(fmt: Format, sign: Sign, e: nat, f: nat): int {
    (sign * Pow2(fmt.exp) + e) * Pow2(fmt.mant) + f
  }

  lemma FieldBounds(fmt: Format, e: nat, f: nat)
    requires e < Pow2(fmt.exp) && f < Pow2(fmt.mant)
    ensures Pow2(fmt.exp + fmt.mant) == Pow2(fmt.exp) * Pow2(fmt.mant)
    ensures 0 <= e * Pow2(fmt.mant) + f < Pow2(fmt.exp + fmt.mant)
  {
    hide Pow2;
    Pow2Add(fmt.exp, fmt.mant);
    MulMono(0, e, Pow2(fmt.mant));
    MulMono(e + 1, Pow2(fmt.exp), Pow2(fmt.mant));
    assert (e + 1) * Pow2(fmt.mant) == e * Pow2(fmt.mant) + Pow2(fmt.mant);
  }

  lemma JoinIsSum(fmt: Format, sign: Sign, e: nat, f: nat)
    requires e < Pow2(fmt.exp) && f < Pow2(fmt.mant)
    ensures Sum(fmt, sign, e, f) == sign * Pow2(fmt.exp + fmt.mant) + (e * Pow2(fmt.mant) + f)
    ensures fmt.Join(sign, e, f) == Sum(fmt, sign, e, f)
    ensures Bitwise(OR, Shl(sign, fmt.exp + fmt.mant), Shl(e, fmt.mant)) == Sum(fmt, sign, e, 0)
  {
    hide Pow2, Bitwise;
    FieldBounds(fmt, e, f);
    var high := sign * Pow2(fmt.exp) + e;
    Distribute(sign, Pow2(fmt.exp), e, Pow2(fmt.mant));
    OrDisjoint(sign, Shl(e, fmt.mant), fmt.exp + fmt.mant);
    NonNegative(sign, Pow2(fmt.exp));
    OrDisjoint(high, f, fmt.mant);
  }

  lemma NonNegative(x: nat, y: nat)
    ensures x * y >= 0
  {
    MulMono(0, x, y);
  }

  lemma Distribute(s: int, p: int, e: int, q: int)
    ensures (s * p + e) * q == s * (p * q) + e * q
  {
    assert (s * p) * q == s * (p * q);
  }

  lemma FieldsOfSum(fmt: Format, sign: Sign, e: nat, f: nat)
    requires e < Pow2(fmt.exp) && f < Pow2(fmt.mant)
    ensures var w := Sum(fmt, sign, e, f);
      && 0 <= w < 2 * Pow2(fmt.exp + fmt.mant)
      && Shr(w, fmt.exp + fmt.mant) == sign && Low(Shr(w, fmt.mant), fmt.exp) == e && Low(w, fmt.mant) == f
  {
    hide Pow2, Shr, Low;
    FieldBounds(fmt, e, f);
    Distribute(sign, Pow2(fmt.exp), e, Pow2(fmt.mant));
    NonNegative(sign, Pow2(fmt.exp + fmt.mant));
    NonNegative(sign, Pow2(fmt.exp));
    MulMono(sign, 1, Pow2(fmt.exp + fmt.mant));
    var w := Sum(fmt, sign, e, f);
    Quotient(w, fmt.exp + fmt.mant, sign);
    Quotient(w, fmt.mant, sign * Pow2(fmt.exp) + e);
    Quotient(sign * Pow2(fmt.exp) + e, fmt.exp, sign);
  }

  lemma FormatFacts(fmt: Format)
    requires fmt.Valid()
    ensures fmt.EmaxField() == 2 * fmt.Bias() + 1 && fmt.Bias() >= 1 && Pow2(fmt.exp) == fmt.EmaxField() + 1
    ensures Pow2(fmt.mant) == 2 * Pow2(fmt.mant - 1) && Pow2(fmt.mant - 1) >= 1
  {
    Pow2Monotone(1, fmt.exp - 1);
    assert Pow2(1) == 2;
  }

  /** What the fields mean. */
  function Meaning(fmt: Format, sign: Sign, e: nat, f: nat): Number
    requires fmt.Valid()
  {
    if e == fmt.EmaxField() then
      if f == 0 then Infinity(sign) else NaN(Shr(f, fmt.mant - 1) % 2 == 0)
    else if e == 0 then Finite(sign, f, fmt.MinScale())
    else Finite(sign, f + Pow2(fmt.mant), e - fmt.Bias() - fmt.mant)
  }

  lemma DecodeJoin(fmt: Format, sign: Sign, e: nat, f: nat)
    requires fmt.Valid() && e < Pow2(fmt.exp) && f < Pow2(fmt.mant)
    ensures fmt.Join(sign, e, f) < 2 * Pow2(fmt.exp + fmt.mant)
    ensures Decode(fmt.Join(sign, e, f), fmt) == Meaning(fmt, sign, e, f)
  {
    hide Pow2, Bitwise, Shr, Low, Sum, Format.Join;
    JoinIsSum(fmt, sign, e, f);
    FieldsOfSum(fmt, sign, e, f);
    OrCommutes(f, Pow2(fmt.mant));
    OrDisjoint(1, f, fmt.mant);
  }

  /** The special words are joins too. */
  lemma SpecialJoins(fmt: Format, sign: Sign)
    requires fmt.Valid()
    ensures fmt.Inf(sign) == fmt.Join(sign, fmt.EmaxField(), 0)
    ensures fmt.ZeroBits(sign) == fmt.Join(sign, 0, 0)
    ensures fmt.Qnan() == fmt.Join(0, fmt.EmaxField(), Pow2(fmt.mant - 1))
  {
    hide Pow2, Bitwise;
    FormatFacts(fmt);
    OrZero(Bitwise(OR, Shl(sign, fmt.exp + fmt.mant), Shl(fmt.EmaxField(), fmt.mant)));
    OrZero(Shl(sign, fmt.exp + fmt.mant));
    OrZero(Shl(fmt.EmaxField(), fmt.mant));
    OrCommutes(0, Shl(fmt.EmaxField(), fmt.mant));
  }

  lemma SubnormalJoin(fmt: Format, sign: Sign, f: nat)
    ensures Bitwise(OR, Shl(sign, fmt.exp + fmt.mant), f) == fmt.Join(sign, 0, f)
  {
    hide Pow2, Bitwise;
    OrZero(Shl(sign, fmt.exp + fmt.mant));
  }

  /** A quiet NaN, the infinities, the zeros and the largest finite numbers decode as such. */
  lemma SpecialsDecode(fmt: Format, sign: Sign)
    requires fmt.Valid()
    ensures Decode(fmt.Qnan(), fmt) == NaN(false)
    ensures Decode(fmt.Inf(sign), fmt) == Infinity(sign)
    ensures Decode(fmt.ZeroBits(sign), fmt) == Finite(sign, 0, fmt.MinScale())
    ensures Decode(fmt.MaxFinite(sign), fmt)
         == Finite(sign, 2 * Pow2(fmt.mant) - 1, fmt.EmaxField() - 1 - fmt.Bias() - fmt.mant)
  {
    hide Pow2, Bitwise, Shr, Low, Decode, Format.Join, Format.Inf, Format.ZeroBits, Format.Qnan, Format.Bias, Format.EmaxField;
    FormatFacts(fmt);
    SpecialJoins(fmt, sign);
    DecodeJoin(fmt, sign, fmt.EmaxField(), 0);
    DecodeJoin(fmt, sign, 0, 0);
    DecodeJoin(fmt, 0, fmt.EmaxField(), Pow2(fmt.mant - 1));
    Quotient(Pow2(fmt.mant - 1), fmt.mant - 1, 1);
    DecodeJoin(fmt, sign, fmt.EmaxField() - 1, Pow2(fmt.mant) - 1);
    MaxFiniteJoin(fmt, sign);
  }

  lemma MaxFiniteJoin(fmt: Format, sign: Sign)
    requires fmt.Valid()
    ensures fmt.MaxFinite(sign) == fmt.Join(sign, fmt.EmaxField() - 1, Pow2(fmt.mant) - 1)
  {}
}
