/**
 The words that the IEEE-754 reference model delivers: they fit the width of the format, a
 word other than a NaN is determined by the number it stands for, and there is one NaN.
 */
module FloatWords {
  import opened Bits
  import opened Dyadic
  import opened Float
  import opened FloatEncoding

  /** A word of the format: sign, exponent and fraction, and nothing above them. */
  predicate IsWord(bits: nat, fmt: Format) {
    bits < 2 * Pow2(fmt.exp + fmt.mant)
  }

  lemma JoinFits(fmt: Format, sign: Sign, e: nat, f: nat)
    requires fmt.Valid() && e < Pow2(fmt.exp) && f < Pow2(fmt.mant)
    ensures IsWord(fmt.Join(sign, e, f), fmt)
  {
    hide Decode, Format.Join, Pow2;
    DecodeJoin(fmt, sign, e, f);
  }

  lemma SpecialsFit(fmt: Format, sign: Sign)
    requires fmt.Valid()
    ensures IsWord(fmt.Inf(sign), fmt) && IsWord(fmt.ZeroBits(sign), fmt) && IsWord(fmt.Qnan(), fmt) && IsWord(fmt.MaxFinite(sign), fmt)
  {
    hide Format.Join, Format.Inf, Format.ZeroBits, Format.Qnan, Format.MaxFinite, IsWord, Pow2;
    FormatFacts(fmt);
    SpecialJoins(fmt, sign);
    MaxFiniteJoin(fmt, sign);
    JoinFits(fmt, sign, fmt.EmaxField(), 0);
    JoinFits(fmt, sign, 0, 0);
    JoinFits(fmt, 0, fmt.EmaxField(), Pow2(fmt.mant - 1));
    JoinFits(fmt, sign, fmt.EmaxField() - 1, Pow2(fmt.mant) - 1);
  }

  lemma LowBound(n: nat, k: nat)
    ensures Low(n, k) < Pow2(k)
  {
    Divided(n, k);
  }

  lemma ShiftedOut(n: nat, k: nat)
    requires Shr(n, k) == 0
    ensures n < Pow2(k)
  {
    Divided(n, k);
  }

  lemma PackFits(m: Magnitude, inexact: bool, sign: Sign, rm: Rounding, fmt: Format)
    requires fmt.Valid() && m.exp >= fmt.MinScale()
    ensures IsWord(Pack(m, inexact, sign, rm, fmt).bits, fmt)
  {
    hide Format.Join, Format.Inf, Format.ZeroBits, Format.MaxFinite, IsWord, Pow2, Shr, Low, Bitwise, Shl;
    FormatFacts(fmt);
    SpecialsFit(fmt, sign);
    if m.sig != 0 {
      if Shr(m.sig, fmt.mant) != 0 {
        LowBound(m.sig, fmt.mant);
        var biased := m.exp + fmt.mant + fmt.Bias();
        if biased < fmt.EmaxField() {
          JoinFits(fmt, sign, biased, Low(m.sig, fmt.mant));
        }
      } else {
        ShiftedOut(m.sig, fmt.mant);
        SubnormalJoin(fmt, sign, m.sig);
        JoinFits(fmt, sign, 0, m.sig);
      }
    }
  }

  lemma RoundSumFits(sa: Sign, ma: nat, ca: int, sb: Sign, mb: nat, cb: int, rm: Rounding, fmt: Format)
    requires fmt.Valid()
    ensures IsWord(RoundSum(sa, ma, ca, sb, mb, cb, rm, fmt).bits, fmt)
  {
    hide Aligned, RoundPack, Format.ZeroBits, IsWord;
    SpecialsFit(fmt, 0);
    SpecialsFit(fmt, 1);
    var scale := Min(ca, cb);
    var s := Aligned(sa, ma, ca, scale) + Aligned(sb, mb, cb, scale);
    RoundPackFits(if s < 0 then 1 else 0, Abs(s), scale, rm, fmt);
  }

  lemma RoundPackFits(sign: Sign, mant: nat, scale: int, rm: Rounding, fmt: Format)
    requires fmt.Valid()
    ensures IsWord(RoundPack(sign, mant, scale, rm, fmt).bits, fmt)
  {
    hide Split, Rounded, Pack, IsWord;
    var c := Split(mant, scale, fmt);
    PackFits(Rounded(c, sign, rm, fmt), c.Inexact(), sign, rm, fmt);
  }

  /** Every result is a word of the format. */
  lemma ResultsAreWords(aBits: nat, bBits: nat, cBits: nat, rm: Rounding, fmt: Format)
    requires fmt.Valid()
    ensures IsWord(Add(aBits, bBits, rm, fmt).bits, fmt)
    ensures IsWord(Mul(aBits, bBits, rm, fmt).bits, fmt)
    ensures IsWord(Fma(aBits, bBits, cBits, rm, fmt).bits, fmt)
  {
    hide Decode, RoundSum, RoundPack, IsWord, Format.Qnan, Format.Inf, Format.ZeroBits;
    var a, b, c := Decode(aBits, fmt), Decode(bBits, fmt), Decode(cBits, fmt);
    SpecialsFit(fmt, 0);
    SpecialsFit(fmt, 1);
    if a.Finite? && b.Finite? {
      RoundSumFits(a.sign, a.mant, a.scale, b.sign, b.mant, b.scale, rm, fmt);
      RoundPackFits(Xor(a.sign, b.sign), a.mant * b.mant, a.scale + b.scale, rm, fmt);
      if c.Finite? {
        RoundSumFits(Xor(a.sign, b.sign), a.mant * b.mant, a.scale + b.scale, c.sign, c.mant, c.scale, rm, fmt);
      }
    }
  }

  // --- words and numbers ---

  lemma FieldsOfWord(bits: nat, fmt: Format)
    requires fmt.Valid() && IsWord(bits, fmt)
    ensures var sign, e, f := Shr(bits, fmt.exp + fmt.mant) % 2, Low(Shr(bits, fmt.mant), fmt.exp), Low(bits, fmt.mant);
      e < Pow2(fmt.exp) && f < Pow2(fmt.mant) && bits == sign * Pow2(fmt.exp + fmt.mant) + (e * Pow2(fmt.mant) + f)
  {
    hide Pow2, Shr, Low;
    var p, q := Pow2(fmt.exp), Pow2(fmt.mant);
    Pow2Add(fmt.exp, fmt.mant);
    Divided(bits, fmt.mant);
    Divided(bits, fmt.exp + fmt.mant);
    Divided(Shr(bits, fmt.mant), fmt.exp);
    var high, sign, low := Shr(bits, fmt.mant), Shr(bits, fmt.exp + fmt.mant), Low(bits, fmt.exp + fmt.mant);
    var s, e, f := Shr(high, fmt.exp), Low(high, fmt.exp), Low(bits, fmt.mant);
    SignIsBit(sign, low, p * q, bits);
    Regroup(s, e, f, p, q);
    TwoFields(e, f, p, q);
    Isa.QuotientUnique(sign, low, s, e * q + f, p * q);
  }

  lemma SignIsBit(sign: nat, low: nat, p: nat, bits: nat)
    requires bits == sign * p + low && bits < 2 * p
    ensures sign < 2
  {
    if sign >= 2 {
      MulMono(2, sign, p);
    }
  }

  lemma Regroup(s: nat, e: nat, f: nat, p: nat, q: nat)
    ensures (s * p + e) * q + f == s * (p * q) + (e * q + f)
  {
    Distribute(s, p, e, q);
  }

  lemma TwoFields(e: nat, f: nat, p: nat, q: nat)
    requires e < p && f < q
    ensures 0 <= e * q && e * q + f < p * q
  {
    MulMono(e + 1, p, q);
    assert (e + 1) * q == e * q + q;
    MulMono(0, e, q);
  }

  lemma MeaningInjective(fmt: Format, s: Sign, e: nat, f: nat, s': Sign, e': nat, f': nat)
    requires fmt.Valid() && e < Pow2(fmt.exp) && f < Pow2(fmt.mant) && e' < Pow2(fmt.exp) && f' < Pow2(fmt.mant)
    requires Meaning(fmt, s, e, f) == Meaning(fmt, s', e', f') && !Meaning(fmt, s, e, f).NaN?
    ensures s == s' && e == e' && f == f'
  {
    hide Pow2, Shr;
    FormatFacts(fmt);
  }

  lemma WordMeaning(bits: nat, fmt: Format) returns (s: Sign, e: nat, f: nat)
    requires fmt.Valid() && IsWord(bits, fmt)
    ensures e < Pow2(fmt.exp) && f < Pow2(fmt.mant) && bits == s * Pow2(fmt.exp + fmt.mant) + (e * Pow2(fmt.mant) + f)
    ensures Decode(bits, fmt) == Meaning(fmt, s, e, f)
  {
    hide Pow2, Shr, Low, Bitwise, Sum, Format.Join, Decode;
    s, e, f := Shr(bits, fmt.exp + fmt.mant) % 2, Low(Shr(bits, fmt.mant), fmt.exp), Low(bits, fmt.mant);
    FieldsOfWord(bits, fmt);
    JoinIsSum(fmt, s, e, f);
    DecodeJoin(fmt, s, e, f);
  }

  /** Main result: a word that is no NaN is determined by the number it stands for. */
  lemma WordDetermined(a: nat, b: nat, fmt: Format)
    requires fmt.Valid() && IsWord(a, fmt) && IsWord(b, fmt) && Decode(a, fmt) == Decode(b, fmt) && !Decode(a, fmt).NaN?
    ensures a == b
  {
    hide Pow2, Decode, Meaning, IsWord;
    var s, e, f := WordMeaning(a, fmt);
    var s', e', f' := WordMeaning(b, fmt);
    MeaningInjective(fmt, s, e, f, s', e', f');
  }

  /** The special words of the two formats in use. */
  lemma SpecialWords()
    ensures FP32.Qnan() == 0x7FC0_0000 && FP32.Inf(0) == 0x7F80_0000 && FP32.Inf(1) == 0xFF80_0000 && FP32.ZeroBits(1) == 0x8000_0000
    ensures FP16.Qnan() == 0x7E00 && FP16.Inf(0) == 0x7C00 && FP16.Inf(1) == 0xFC00 && FP16.ZeroBits(1) == 0x8000
  {
    hide Format.Qnan, Format.Inf, Format.ZeroBits, Format.Join, Bitwise, Shl, Pow2;
    Powers();
    SpecialJoins(FP32, 0);
    SpecialJoins(FP32, 1);
    SpecialJoins(FP16, 0);
    SpecialJoins(FP16, 1);
    JoinIsSum(FP32, 0, 255, 0x40_0000);
    JoinIsSum(FP32, 0, 255, 0);
    JoinIsSum(FP32, 1, 255, 0);
    JoinIsSum(FP32, 1, 0, 0);
    JoinIsSum(FP16, 0, 31, 0x200);
    JoinIsSum(FP16, 0, 31, 0);
    JoinIsSum(FP16, 1, 31, 0);
    JoinIsSum(FP16, 1, 0, 0);
  }

  lemma Powers()
    ensures Pow2(5) == 0x20 && Pow2(8) == 0x100 && Pow2(9) == 0x200 && Pow2(10) == 0x400 && Pow2(15) == 0x8000
    ensures Pow2(22) == 0x40_0000 && Pow2(23) == 0x80_0000 && Pow2(31) == 0x8000_0000
  {
    assert Pow2(5) == 0x20;
    Pow2Add(5, 3);
    Pow2Add(8, 1);
    Pow2Add(9, 1);
    Pow2Add(10, 5);
    Pow2Add(15, 7);
    Pow2Add(22, 1);
    Pow2Add(23, 8);
    assert Pow2(1) == 2 && Pow2(3) == 8 && Pow2(7) == 0x80;
  }
}
