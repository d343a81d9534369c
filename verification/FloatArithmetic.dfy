/**
 Addition, multiplication and fused multiply-add (tb/uvm/fp_ref.py) are correctly rounded on
 finite operands, and the fused operation agrees, bits and flags, with the plain ones.
 */
module FloatArithmetic {
  import opened Bits
  import opened Dyadic
  import opened Float
  import opened FloatEncoding
  import opened FloatRounding

  function SignedMant(sign: Sign, mant: nat): int {
    if sign == 1 then 0 - mant else mant
  }

  /** The real number that a sign, a mantissa and a scale denote. */
  function Exact(sign: Sign, mant: nat, scale: int): real {
    Scaled(SignedMant(sign, mant), scale)
  }

  function ValueOf(x: Number): real
    requires x.Finite?
  {
    Exact(x.sign, x.mant, x.scale)
  }

  function SignOfReal(x: real): Sign {
    if x < 0.0 then 1 else 0
  }

  function AbsReal(x: real): real {
    if x < 0.0 then -x else x
  }

  /** r is the one correct result for the exact nonzero value x. */
  ghost predicate CorrectlyRounded(fmt: Format, rm: Rounding, x: real, r: Result)
    requires fmt.Valid()
  {
    var sign := SignOfReal(x);
    exists y: Magnitude :: RoundsTo(fmt, DirectionOf(rm, sign), AbsReal(x), y) && Delivers(fmt, DirectionOf(rm, sign), sign, AbsReal(x), y, r)
  }

  lemma RoundPackRounds(sign: Sign, mant: nat, scale: int, rm: Rounding, fmt: Format)
    requires fmt.Valid() && mant > 0
    ensures Exact(sign, mant, scale) != 0.0 && SignOfReal(Exact(sign, mant, scale)) == sign
    ensures AbsReal(Exact(sign, mant, scale)) == Scaled(mant, scale)
    ensures CorrectlyRounded(fmt, rm, Exact(sign, mant, scale), RoundPack(sign, mant, scale, rm, fmt))
  {
    hide RoundPack, RoundsTo, Delivers, Scaled;
    ScaledOrder(0, mant, scale);
    ScaledZero(scale);
    ScaledSum(mant, 0, scale);
    var y := RoundPackCorrect(sign, mant, scale, rm, fmt);
  }

  // --- sums ---

  lemma AlignedValue(sign: Sign, mant: nat, scale: int, to: int)
    requires to <= scale
    ensures Scaled(Aligned(sign, mant, scale, to), to) == Exact(sign, mant, scale)
  {
    hide Scaled, Pow2;
    ScaledShift(SignedMant(sign, mant), scale, scale - to);
    assert Aligned(sign, mant, scale, to) == SignedMant(sign, mant) * Pow2(scale - to);
  }

  /** The aligned integer sum is the exact sum. */
  lemma SumValue(sa: Sign, ma: nat, ca: int, sb: Sign, mb: nat, cb: int) returns (s: int, scale: int)
    ensures scale == Min(ca, cb) && s == Aligned(sa, ma, ca, scale) + Aligned(sb, mb, cb, scale)
    ensures Scaled(s, scale) == Exact(sa, ma, ca) + Exact(sb, mb, cb)
    ensures s == 0 <==> Scaled(s, scale) == 0.0
    ensures s < 0 <==> Scaled(s, scale) < 0.0
    ensures Exact(if s < 0 then 1 else 0, Abs(s), scale) == Scaled(s, scale)
  {
    hide Scaled, Aligned, Exact;
    scale := Min(ca, cb);
    s := Aligned(sa, ma, ca, scale) + Aligned(sb, mb, cb, scale);
    AlignedValue(sa, ma, ca, scale);
    AlignedValue(sb, mb, cb, scale);
    ScaledSum(Aligned(sa, ma, ca, scale), Aligned(sb, mb, cb, scale), scale);
    ScaledOrder(s, 0, scale);
    ScaledOrder(0, s, scale);
    ScaledZero(scale);
    SignAndAbs(s, scale);
  }

  lemma SignAndAbs(s: int, scale: int)
    ensures Exact(if s < 0 then 1 else 0, Abs(s), scale) == Scaled(s, scale)
  {}

  lemma SumRounds(sa: Sign, ma: nat, ca: int, sb: Sign, mb: nat, cb: int, rm: Rounding, fmt: Format)
    requires fmt.Valid()
    ensures var x, r := Exact(sa, ma, ca) + Exact(sb, mb, cb), RoundSum(sa, ma, ca, sb, mb, cb, rm, fmt);
      if x == 0.0 then r == Result(fmt.ZeroBits(if rm == RDN then 1 else 0), NONE)
      else CorrectlyRounded(fmt, rm, x, r)
  {
    hide Scaled, Aligned, Exact, RoundPack, CorrectlyRounded, Format.ZeroBits;
    var s, scale := SumValue(sa, ma, ca, sb, mb, cb);
    if s != 0 {
      RoundPackRounds(if s < 0 then 1 else 0, Abs(s), scale, rm, fmt);
    }
  }

  /** A rounded sum depends only on the exact sum. */
  lemma SumOfValue(sa: Sign, ma: nat, ca: int, sb: Sign, mb: nat, cb: int,
                   sa': Sign, ma': nat, ca': int, sb': Sign, mb': nat, cb': int, rm: Rounding, fmt: Format)
    requires fmt.Valid() && Exact(sa, ma, ca) + Exact(sb, mb, cb) == Exact(sa', ma', ca') + Exact(sb', mb', cb')
    ensures RoundSum(sa, ma, ca, sb, mb, cb, rm, fmt) == RoundSum(sa', ma', ca', sb', mb', cb', rm, fmt)
  {
    hide Scaled, Aligned, Exact, RoundPack, Format.ZeroBits;
    var s, scale := SumValue(sa, ma, ca, sb, mb, cb);
    var s', scale' := SumValue(sa', ma', ca', sb', mb', cb');
    if s != 0 {
      var sign: Sign := if s < 0 then 1 else 0;
      SameMagnitude(sign, Abs(s), scale, Abs(s'), scale');
      RoundPackOfValue(sign, Abs(s), scale, Abs(s'), scale', rm, fmt);
    }
  }

  lemma SameMagnitude(sign: Sign, m1: nat, s1: int, m2: nat, s2: int)
    requires Exact(sign, m1, s1) == Exact(sign, m2, s2)
    ensures Scaled(m1, s1) == Scaled(m2, s2)
  {
    hide P2;
    ScaledSum(m1, 0, s1);
    ScaledSum(m2, 0, s2);
  }

  // --- products ---

  lemma ProductValue(sa: Sign, ma: nat, ca: int, sb: Sign, mb: nat, cb: int)
    ensures ma * mb >= 0
    ensures Exact(Xor(sa, sb), ma * mb, ca + cb) == Exact(sa, ma, ca) * Exact(sb, mb, cb)
  {
    hide Scaled;
    NonNegative(ma, mb);
    ScaledProduct(SignedMant(sa, ma), ca, SignedMant(sb, mb), cb);
    SignedProduct(sa, ma, sb, mb);
  }

  lemma SignedProduct(sa: Sign, ma: nat, sb: Sign, mb: nat)
    ensures ma * mb >= 0 && SignedMant(sa, ma) * SignedMant(sb, mb) == SignedMant(Xor(sa, sb), ma * mb)
  {
    NonNegative(ma, mb);
    var x: int, y: int := ma, mb;
    assert (-x) * y == -(x * y) && x * (-y) == -(x * y) && (-x) * (-y) == x * y;
  }

  // --- correct rounding of the operations ---

  /** Addition of finite numbers: correctly rounded, and an exact zero has the sign section 6.3 prescribes. */
  lemma AddCorrect(aBits: nat, bBits: nat, rm: Rounding, fmt: Format)
    requires fmt.Valid() && Decode(aBits, fmt).Finite? && Decode(bBits, fmt).Finite?
    ensures var a, b, r := Decode(aBits, fmt), Decode(bBits, fmt), Add(aBits, bBits, rm, fmt);
      var x := ValueOf(a) + ValueOf(b);
      && (x != 0.0 ==> CorrectlyRounded(fmt, rm, x, r))
      && (x == 0.0 ==>
            && r.flags == NONE
            && Decode(r.bits, fmt) == Finite(if a.IsZero() && b.IsZero() && a.sign == b.sign then a.sign else if rm == RDN then 1 else 0,
                                             0, fmt.MinScale()))
  {
    hide Decode, RoundSum, CorrectlyRounded, Format.ZeroBits, Scaled;
    var a, b := Decode(aBits, fmt), Decode(bBits, fmt);
    SpecialsDecode(fmt, 0);
    SpecialsDecode(fmt, 1);
    SumRounds(a.sign, a.mant, a.scale, b.sign, b.mant, b.scale, rm, fmt);
    ScaledZero(a.scale);
    ScaledZero(b.scale);
  }

  function MultipliedValue(a: Number, b: Number): real
    requires a.Finite? && b.Finite?
  {
    ValueOf(a) * ValueOf(b)
  }

  /** Multiplication of finite numbers. */
  lemma MulCorrect(aBits: nat, bBits: nat, rm: Rounding, fmt: Format)
    requires fmt.Valid() && Decode(aBits, fmt).Finite? && Decode(bBits, fmt).Finite?
    ensures var a, b, r := Decode(aBits, fmt), Decode(bBits, fmt), Mul(aBits, bBits, rm, fmt);
      var x := MultipliedValue(a, b);
      && (x != 0.0 ==> CorrectlyRounded(fmt, rm, x, r))
      && (x == 0.0 ==> r.flags == NONE && Decode(r.bits, fmt) == Finite(Xor(a.sign, b.sign), 0, fmt.MinScale()))
  {
    hide Decode, Mul, CorrectlyRounded, Exact, Format.MinScale;
    var a, b := Decode(aBits, fmt), Decode(bBits, fmt);
    ProductValue(a.sign, a.mant, a.scale, b.sign, b.mant, b.scale);
    MulRounds(aBits, bBits, rm, fmt, MultipliedValue(a, b));
  }

  lemma MulRounds(aBits: nat, bBits: nat, rm: Rounding, fmt: Format, x: real)
    requires fmt.Valid() && Decode(aBits, fmt).Finite? && Decode(bBits, fmt).Finite?
    requires var a, b := Decode(aBits, fmt), Decode(bBits, fmt);
      a.mant * b.mant >= 0 && x == Exact(Xor(a.sign, b.sign), a.mant * b.mant, a.scale + b.scale)
    ensures var a, b, r := Decode(aBits, fmt), Decode(bBits, fmt), Mul(aBits, bBits, rm, fmt);
      && (x != 0.0 ==> CorrectlyRounded(fmt, rm, x, r))
      && (x == 0.0 ==> r.flags == NONE && Decode(r.bits, fmt) == Finite(Xor(a.sign, b.sign), 0, fmt.MinScale()))
  {
    hide Decode, RoundPack, CorrectlyRounded, Format.ZeroBits, Format.MinScale, Exact;
    var a, b := Decode(aBits, fmt), Decode(bBits, fmt);
    SpecialsDecode(fmt, Xor(a.sign, b.sign));
    ZeroProduct(a.mant, b.mant);
    ZeroExact(Xor(a.sign, b.sign), a.scale + b.scale);
    if a.mant > 0 && b.mant > 0 {
      Positive(a.mant, b.mant);
      RoundPackRounds(Xor(a.sign, b.sign), a.mant * b.mant, a.scale + b.scale, rm, fmt);
    }
  }

  function FusedValue(a: Number, b: Number, c: Number): real
    requires a.Finite? && b.Finite? && c.Finite?
  {
    ValueOf(a) * ValueOf(b) + ValueOf(c)
  }

  /** Fused multiply-add of finite numbers: the exact a * b + c is rounded once. */
  lemma FmaCorrect(aBits: nat, bBits: nat, cBits: nat, rm: Rounding, fmt: Format)
    requires fmt.Valid() && Decode(aBits, fmt).Finite? && Decode(bBits, fmt).Finite? && Decode(cBits, fmt).Finite?
    ensures var a, b, c, r := Decode(aBits, fmt), Decode(bBits, fmt), Decode(cBits, fmt), Fma(aBits, bBits, cBits, rm, fmt);
      var x, ps := FusedValue(a, b, c), Xor(a.sign, b.sign);
      && (x != 0.0 ==> CorrectlyRounded(fmt, rm, x, r))
      && (x == 0.0 ==>
            && r.flags == NONE
            && Decode(r.bits, fmt) == Finite(if (a.IsZero() || b.IsZero()) && c.IsZero() && ps == c.sign then ps else if rm == RDN then 1 else 0,
                                             0, fmt.MinScale()))
  {
    hide Decode, Fma, CorrectlyRounded, Format.MinScale, Exact;
    var a, b, c := Decode(aBits, fmt), Decode(bBits, fmt), Decode(cBits, fmt);
    ProductValue(a.sign, a.mant, a.scale, b.sign, b.mant, b.scale);
    FmaRounds(aBits, bBits, cBits, rm, fmt, FusedValue(a, b, c));
  }

  lemma FmaRounds(aBits: nat, bBits: nat, cBits: nat, rm: Rounding, fmt: Format, x: real)
    requires fmt.Valid() && Decode(aBits, fmt).Finite? && Decode(bBits, fmt).Finite? && Decode(cBits, fmt).Finite?
    requires var a, b, c := Decode(aBits, fmt), Decode(bBits, fmt), Decode(cBits, fmt);
      a.mant * b.mant >= 0 && x == Exact(Xor(a.sign, b.sign), a.mant * b.mant, a.scale + b.scale) + ValueOf(c)
    ensures var a, b, c, r := Decode(aBits, fmt), Decode(bBits, fmt), Decode(cBits, fmt), Fma(aBits, bBits, cBits, rm, fmt);
      var ps := Xor(a.sign, b.sign);
      && (x != 0.0 ==> CorrectlyRounded(fmt, rm, x, r))
      && (x == 0.0 ==>
            && r.flags == NONE
            && Decode(r.bits, fmt) == Finite(if (a.IsZero() || b.IsZero()) && c.IsZero() && ps == c.sign then ps else if rm == RDN then 1 else 0,
                                             0, fmt.MinScale()))
  {
    hide Decode, RoundSum, CorrectlyRounded, Format.ZeroBits, Format.MinScale, Scaled, Exact;
    var a, b, c := Decode(aBits, fmt), Decode(bBits, fmt), Decode(cBits, fmt);
    var ps := Xor(a.sign, b.sign);
    SpecialsDecode(fmt, 0);
    SpecialsDecode(fmt, 1);
    NonNegative(a.mant, b.mant);
    SumRounds(ps, a.mant * b.mant, a.scale + b.scale, c.sign, c.mant, c.scale, rm, fmt);
    ZeroProduct(a.mant, b.mant);
    ZeroExact(ps, a.scale + b.scale);
    ZeroExact(c.sign, c.scale);
  }

  lemma ZeroProduct(x: nat, y: nat)
    ensures x == 0 || y == 0 ==> x * y == 0
  {}

  lemma ZeroExact(sign: Sign, scale: int)
    ensures Exact(sign, 0, scale) == 0.0
  {}

  // --- fused identities ---

  /** The word of 1.0. */
  function One(fmt: Format): nat
    requires fmt.Valid()
  {
    fmt.Join(0, fmt.Bias(), 0)
  }

  lemma OneDecodes(fmt: Format)
    requires fmt.Valid()
    ensures Decode(One(fmt), fmt) == Finite(0, Pow2(fmt.mant), 0 - fmt.mant)
  {
    hide *;
    FormatFacts(fmt);
    DecodeJoin(fmt, 0, fmt.Bias(), 0);
    NormalMeaning(fmt, fmt.Bias());
    assert One(fmt) == fmt.Join(0, fmt.Bias(), 0) by { OneFields(fmt); }
  }

  lemma OneFields(fmt: Format)
    requires fmt.Valid()
    ensures One(fmt) == fmt.Join(0, fmt.Bias(), 0)
  {}

  lemma NormalMeaning(fmt: Format, e: nat)
    requires fmt.Valid() && 0 < e < fmt.EmaxField()
    ensures Meaning(fmt, 0, e, 0) == Finite(0, Pow2(fmt.mant), e - fmt.Bias() - fmt.mant)
  {
    hide Pow2, Shr, Format.Bias, Format.EmaxField;
  }

  /** fma(a, 1, c) is a + c, on all operands in all modes: bits and flags. */
  lemma FmaOneIsAdd(aBits: nat, cBits: nat, rm: Rounding, fmt: Format)
    requires fmt.Valid()
    ensures Fma(aBits, One(fmt), cBits, rm, fmt) == Add(aBits, cBits, rm, fmt)
  {
    hide Decode, RoundSum, One, Pow2, Scaled;
    var a, c := Decode(aBits, fmt), Decode(cBits, fmt);
    OneDecodes(fmt);
    if a.Finite? && c.Finite? {
      NonNegative(a.mant, Pow2(fmt.mant));
      ScaledShift(SignedMant(a.sign, a.mant), a.scale, fmt.mant);
      SignedProduct(a.sign, a.mant, 0, Pow2(fmt.mant));
      if a.mant > 0 {
        Positive(a.mant, Pow2(fmt.mant));
      }
      SumOfValue(a.sign, a.mant * Pow2(fmt.mant), a.scale - fmt.mant, c.sign, c.mant, c.scale,
                 a.sign, a.mant, a.scale, c.sign, c.mant, c.scale, rm, fmt);
    }
  }

  /** The sign of a product. */
  function ProductSign(aBits: nat, bBits: nat, fmt: Format): Sign
    requires fmt.Valid()
  {
    Xor(SignOf(Decode(aBits, fmt)), SignOf(Decode(bBits, fmt)))
  }

  /** fma(a, b, 0) with the zero of the product's sign is a * b, on all operands in all modes: bits and flags. */
  lemma FmaZeroIsMul(aBits: nat, bBits: nat, rm: Rounding, fmt: Format)
    requires fmt.Valid()
    ensures Fma(aBits, bBits, fmt.ZeroBits(ProductSign(aBits, bBits, fmt)), rm, fmt) == Mul(aBits, bBits, rm, fmt)
  {
    hide Decode, RoundSum, RoundPack, Scaled, Format.ZeroBits;
    var a, b, ps := Decode(aBits, fmt), Decode(bBits, fmt), ProductSign(aBits, bBits, fmt);
    SpecialsDecode(fmt, ps);
    if a.Finite? && b.Finite? && a.mant > 0 && b.mant > 0 {
      Positive(a.mant, b.mant);
      SumWithZero(ps, a.mant * b.mant, a.scale + b.scale, fmt.MinScale(), rm, fmt);
    }
  }

  lemma SumWithZero(sign: Sign, mant: nat, scale: int, zeroScale: int, rm: Rounding, fmt: Format)
    requires fmt.Valid() && mant > 0
    ensures RoundSum(sign, mant, scale, sign, 0, zeroScale, rm, fmt) == RoundPack(sign, mant, scale, rm, fmt)
  {
    hide Scaled, Aligned, RoundPack, RoundsTo;
    var s, to := SumValue(sign, mant, scale, sign, 0, zeroScale);
    ScaledZero(zeroScale);
    RoundPackRounds(sign, mant, scale, rm, fmt);
    SameMagnitude(sign, Abs(s), to, mant, scale);
    RoundPackOfValue(sign, Abs(s), to, mant, scale, rm, fmt);
  }

  /** Addition and multiplication are commutative, bits and flags. */
  lemma Commutes(aBits: nat, bBits: nat, rm: Rounding, fmt: Format)
    requires fmt.Valid()
    ensures Add(aBits, bBits, rm, fmt) == Add(bBits, aBits, rm, fmt)
    ensures Mul(aBits, bBits, rm, fmt) == Mul(bBits, aBits, rm, fmt)
  {
    hide Decode, RoundSum, RoundPack, Format.ZeroBits, Format.Inf, Format.Qnan;
    var a, b := Decode(aBits, fmt), Decode(bBits, fmt);
    if a.Finite? && b.Finite? {
      SumCommutes(a.sign, a.mant, a.scale, b.sign, b.mant, b.scale, rm, fmt);
      ProductCommutes(a.mant, b.mant);
    }
  }

  lemma SumCommutes(sa: Sign, ma: nat, ca: int, sb: Sign, mb: nat, cb: int, rm: Rounding, fmt: Format)
    requires fmt.Valid()
    ensures RoundSum(sa, ma, ca, sb, mb, cb, rm, fmt) == RoundSum(sb, mb, cb, sa, ma, ca, rm, fmt)
  {
    hide Aligned, RoundPack, Format.ZeroBits;
  }

  lemma ProductCommutes(x: int, y: int)
    ensures x * y == y * x
  {}
}
