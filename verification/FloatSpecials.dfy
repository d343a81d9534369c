/**
 Special operands of the IEEE-754 reference model: exactly when a result is NaN, when the
 invalid flag is raised, and what infinite operands give, on all operands in all modes.
 */
module FloatSpecials {
  import opened Float
  import opened FloatEncoding
  import opened FloatRounding
  import opened FloatArithmetic

  /** The operation has no meaningful result: infinity minus infinity, or zero times infinity. */
  predicate OppositeInfinities(a: Number, b: Number) {
    a.Infinity? && b.Infinity? && a.sign != b.sign
  }

  predicate ZeroTimesInfinity(a: Number, b: Number) {
    (a.Infinity? && b.IsZero()) || (a.IsZero() && b.Infinity?)
  }

  predicate Signals(x: Number) {
    x.NaN? && x.signalling
  }

  /** A rounded result is a number and not an invalid one. */
  lemma RoundedIsNumber(fmt: Format, rm: Rounding, x: real, r: Result)
    requires fmt.Valid() && CorrectlyRounded(fmt, rm, x, r)
    ensures !Decode(r.bits, fmt).NaN? && !r.flags.invalid
  {
    hide RoundsTo, Decode;
  }

  /** r is an infinity of the given sign, without flags. */
  predicate IsInfinity(r: Result, fmt: Format, sign: Sign)
    requires fmt.Valid()
  {
    Decode(r.bits, fmt) == Infinity(sign) && r.flags == NONE
  }

  lemma AddSpecials(aBits: nat, bBits: nat, rm: Rounding, fmt: Format)
    requires fmt.Valid()
    ensures var a, b, r := Decode(aBits, fmt), Decode(bBits, fmt), Add(aBits, bBits, rm, fmt);
      && (Decode(r.bits, fmt).NaN? <==> a.NaN? || b.NaN? || OppositeInfinities(a, b))
      && (Decode(r.bits, fmt).NaN? ==> r == Result(fmt.Qnan(), Flags(r.flags.invalid, false, false, false)))
      && (r.flags.invalid <==> Signals(a) || Signals(b) || OppositeInfinities(a, b))
      && (a.Infinity? && !b.NaN? && !OppositeInfinities(a, b) ==> IsInfinity(r, fmt, a.sign))
      && (b.Infinity? && !a.NaN? && !OppositeInfinities(a, b) ==> IsInfinity(r, fmt, b.sign))
  {
    hide Decode, RoundSum, CorrectlyRounded, Format.Qnan, Format.Inf, Format.ZeroBits;
    var a, b := Decode(aBits, fmt), Decode(bBits, fmt);
    SpecialsDecode(fmt, 0);
    SpecialsDecode(fmt, 1);
    if a.Finite? && b.Finite? {
      AddCorrect(aBits, bBits, rm, fmt);
      var x := ValueOf(a) + ValueOf(b);
      if x != 0.0 {
        RoundedIsNumber(fmt, rm, x, Add(aBits, bBits, rm, fmt));
      }
    }
  }

  lemma MulSpecials(aBits: nat, bBits: nat, rm: Rounding, fmt: Format)
    requires fmt.Valid()
    ensures var a, b, r := Decode(aBits, fmt), Decode(bBits, fmt), Mul(aBits, bBits, rm, fmt);
      && (Decode(r.bits, fmt).NaN? <==> a.NaN? || b.NaN? || ZeroTimesInfinity(a, b))
      && (Decode(r.bits, fmt).NaN? ==> r == Result(fmt.Qnan(), Flags(r.flags.invalid, false, false, false)))
      && (r.flags.invalid <==> Signals(a) || Signals(b) || (!a.NaN? && !b.NaN? && ZeroTimesInfinity(a, b)))
      && ((a.Infinity? || b.Infinity?) && !a.NaN? && !b.NaN? && !ZeroTimesInfinity(a, b) ==>
            IsInfinity(r, fmt, Xor(a.sign, b.sign)))
  {
    hide Decode, RoundPack, CorrectlyRounded, Format.Qnan, Format.Inf, Format.ZeroBits;
    var a, b := Decode(aBits, fmt), Decode(bBits, fmt);
    SpecialsDecode(fmt, 0);
    SpecialsDecode(fmt, 1);
    if a.Finite? && b.Finite? {
      FiniteProduct(aBits, bBits, rm, fmt);
    }
  }

  lemma FiniteProduct(aBits: nat, bBits: nat, rm: Rounding, fmt: Format)
    requires fmt.Valid() && Decode(aBits, fmt).Finite? && Decode(bBits, fmt).Finite?
    ensures var r := Mul(aBits, bBits, rm, fmt); !Decode(r.bits, fmt).NaN? && !r.flags.invalid
  {
    hide Decode, Mul, CorrectlyRounded, Exact;
    MulCorrect(aBits, bBits, rm, fmt);
    var x := MultipliedValue(Decode(aBits, fmt), Decode(bBits, fmt));
    if x != 0.0 {
      RoundedIsNumber(fmt, rm, x, Mul(aBits, bBits, rm, fmt));
    }
  }

  /** 0 * infinity raises invalid even when the addend is a quiet NaN. */
  lemma FmaSpecials(aBits: nat, bBits: nat, cBits: nat, rm: Rounding, fmt: Format)
    requires fmt.Valid()
    ensures var a, b, c, r := Decode(aBits, fmt), Decode(bBits, fmt), Decode(cBits, fmt), Fma(aBits, bBits, cBits, rm, fmt);
      var ps := Xor(SignOf(a), SignOf(b));
      var infiniteProduct := !a.NaN? && !b.NaN? && (a.Infinity? || b.Infinity?) && !ZeroTimesInfinity(a, b);
      var cancels := infiniteProduct && c.Infinity? && c.sign != ps;
      && (Decode(r.bits, fmt).NaN? <==> a.NaN? || b.NaN? || c.NaN? || ZeroTimesInfinity(a, b) || cancels)
      && (Decode(r.bits, fmt).NaN? ==> r == Result(fmt.Qnan(), Flags(r.flags.invalid, false, false, false)))
      && (r.flags.invalid <==> Signals(a) || Signals(b) || Signals(c) || ZeroTimesInfinity(a, b) || cancels)
      && (infiniteProduct && !c.NaN? && !cancels ==> IsInfinity(r, fmt, ps))
      && (a.Finite? && b.Finite? && c.Infinity? ==> IsInfinity(r, fmt, c.sign))
  {
    hide Decode, RoundSum, CorrectlyRounded, Format.Qnan, Format.Inf, Format.ZeroBits;
    var a, b, c := Decode(aBits, fmt), Decode(bBits, fmt), Decode(cBits, fmt);
    SpecialsDecode(fmt, 0);
    SpecialsDecode(fmt, 1);
    if a.Finite? && b.Finite? && c.Finite? {
      FmaCorrect(aBits, bBits, cBits, rm, fmt);
      var x := FusedValue(a, b, c);
      if x != 0.0 {
        RoundedIsNumber(fmt, rm, x, Fma(aBits, bBits, cBits, rm, fmt));
      }
    }
  }
}
