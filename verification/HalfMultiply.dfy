/**
 The FP16 multiplier of the tensor core model (tb/uvm/tensor_ref.py), which is written
 independently of the IEEE reference model, delivers the same bits.
 */
module HalfMultiply {
  import opened Bits
  import opened Dyadic
  import opened Float
  import opened FloatEncoding
  import opened FloatRounding

  /** `_rshift_rne` */
  function ShiftNearest(v: nat, s: int): nat {
    if s <= 0 then Shl(v, -s)
    else
      var q, rem, half := Shr(v, s), Low(v, s), Pow2(s - 1);
      if rem > half || (rem == half && q % 2 == 1) then q + 1 else q
  }

  /** The last part of `fp16_mul`: the product mp * 2^ep rounded to half precision. */
  function PackHalf(sr: Sign, mp: nat, ep: int): nat {
    var pos := BitLength(mp) - 1 + ep;
    var mant := ShiftNearest(mp, BitLength(mp) - 11);
    var carried := Shr(mant, 11) != 0;
    var eField := (if carried then pos + 1 else pos) + 15;
    if pos >= -14 && eField >= 31 then Bitwise(OR, Shl(sr, 15), 0x7C00)
    else if pos >= -14 && eField >= 1 then
      Bitwise(OR, Bitwise(OR, Shl(sr, 15), Shl(eField, 10)), Low(if carried then Shr(mant, 1) else mant, 10))
    else
      var n := ShiftNearest(mp, -(ep + 24));
      if n == 0 then Shl(sr, 15)
      else if n >= 0x400 then Bitwise(OR, Bitwise(OR, Shl(sr, 15), Shl(1, 10)), Low(n, 10))
      else Bitwise(OR, Shl(sr, 15), n)
  }

  /** `fp16_mul` */
  function HalfMul(a: nat, b: nat): nat {
    var sa: Sign, ea, fa := Shr(a, 15) % 2, Low(Shr(a, 10), 5), Low(a, 10);
    var sb: Sign, eb, fb := Shr(b, 15) % 2, Low(Shr(b, 10), 5), Low(b, 10);
    var sr := Xor(sa, sb);
    var aInf, bInf := ea == 31 && fa == 0, eb == 31 && fb == 0;
    var aZero, bZero := ea == 0 && fa == 0, eb == 0 && fb == 0;
    if (ea == 31 && fa != 0) || (eb == 31 && fb != 0) || (aInf && bZero) || (aZero && bInf) then 0x7E00
    else if aInf || bInf then Bitwise(OR, Shl(sr, 15), 0x7C00)
    else if aZero || bZero then Shl(sr, 15)
    else
      var ma, mb := Bitwise(OR, fa, if ea != 0 then 0x400 else 0), Bitwise(OR, fb, if eb != 0 then 0x400 else 0);
      var ea', eb' := if ea != 0 then ea else 1, if eb != 0 then eb else 1;
      PackHalf(sr, Product(ma, mb), (ea' - 15 - 10) + (eb' - 15 - 10))
  }

  function Product(x: nat, y: nat): nat {
    NonNegative(x, y);
    x * y
  }

  lemma HalfFormat()
    ensures FP16.Valid() && FP16.MinScale() == -24 && FP16.EmaxField() == 31 && FP16.Bias() == 15
    ensures Pow2(10) == 0x400 && Pow2(11) == 0x800 && Pow2(5) == 32 && Pow2(9) == 0x200 && Shl(31, 10) == 0x7C00
  {
    Pow2Values();
    assert Pow2(4) == 16;
    Pow2Add(8, 2);
    Pow2Add(8, 3);
  }

  /** The nearest shift is the kept mantissa, plus one when the reference model increments it. */
  lemma ShiftIsIncrement(mant: nat, scale: int, sign: Sign)
    requires FP16.Valid()
    ensures var c := Split(mant, scale, FP16);
      ShiftNearest(mant, c.lsb - scale) == if Increment(c, sign, RNE) then c.kept + 1 else c.kept
  {
    hide Pow2, Shr, Low, BitLength, Format.MinScale;
    var shift := Split(mant, scale, FP16).lsb - scale;
    if shift > 0 {
      Divided(mant, shift);
      TopBit(Low(mant, shift), shift);
    }
  }

  /** The kept mantissa is normal exactly when the leading bit is in the normal range. */
  lemma KeptRange(mant: nat, scale: int, fmt: Format)
    requires fmt.Valid() && mant > 0
    ensures var c := Split(mant, scale, fmt);
      c.kept < Pow2(fmt.mant + 1) && (c.kept >= Pow2(fmt.mant) <==> scale + BitLength(mant) - 1 - fmt.mant >= fmt.MinScale())
  {
    hide Pow2, Shr, Shl, Low, BitLength, Format.MinScale;
    KeptCanonical(mant, scale, fmt);
    BitLengthBounds(mant);
    var len := BitLength(mant);
    var shift := Split(mant, scale, fmt).lsb - scale;
    if shift > 0 {
      ShrBounds(mant, shift, fmt.mant);
      if len - 1 >= fmt.mant + shift {
        Pow2Monotone(fmt.mant + shift, len - 1);
      } else {
        Pow2Monotone(len, fmt.mant + shift);
      }
    } else {
      ShlBounds(mant, -shift, len);
      ShlBounds(mant, -shift, len - 1);
      if len - 1 - shift >= fmt.mant {
        Pow2Monotone(fmt.mant, len - 1 - shift);
      } else {
        Pow2Monotone(len - shift, fmt.mant);
      }
    }
  }

  lemma Carried(n: nat)
    requires n <= 0x800
    ensures Shr(n, 11) != 0 <==> n == 0x800
    ensures n == 0x800 ==> Shr(n, 1) == 0x400 && Low(0x400, 10) == 0
  {
    hide Pow2, Shr, Low;
    HalfFormat();
    assert Pow2(1) == 2 by { Pow2Values(); }
    Quotient(n, 11, if n == 0x800 then 1 else 0);
    if n == 0x800 {
      Quotient(n, 1, 0x400);
      Quotient(0x400, 10, 1);
    }
  }

  lemma PackHalfAgrees(sr: Sign, mp: nat, ep: int)
    requires mp > 0 && FP16.Valid()
    ensures PackHalf(sr, mp, ep) == RoundPack(sr, mp, ep, RNE, FP16).bits
  {
    hide Pow2, Shr, Shl, Low, BitLength, Bitwise, ShiftNearest, Increment, Split, Format.MinScale, Format.EmaxField, Format.Bias;
    HalfFormat();
    var c := Split(mp, ep, FP16);
    var kept := if Increment(c, sr, RNE) then c.kept + 1 else c.kept;
    SplitLsb(mp, ep);
    ShiftIsIncrement(mp, ep, sr);
    KeptRange(mp, ep, FP16);
    CarryOut(c.kept, FP16);
    Carried(kept);
    TopDigit(c.kept, FP16);
    TopDigit(kept / 2, FP16);
    if kept < 0x800 {
      TopDigit(kept, FP16);
    }
  }

  lemma SplitLsb(mp: nat, ep: int)
    requires FP16.Valid()
    ensures var pos := BitLength(mp) - 1 + ep; Split(mp, ep, FP16).lsb == if pos >= -14 then pos - 10 else -24
  {
    hide Pow2, Shr, Shl, Low, BitLength;
    HalfFormat();
  }

  /** Main result: on all operands the two multipliers deliver the same word. */
  lemma MultipliersAgree(a: nat, b: nat)
    ensures FP16.Valid() && HalfMul(a, b) == Mul(a, b, RNE, FP16).bits
  {
    hide Pow2, Shr, Shl, Low, Bitwise, PackHalf, RoundPack, Format.MinScale, Format.EmaxField, Format.Bias;
    HalfFormat();
    QuietNaN();
    HalfOperand(a);
    HalfOperand(b);
    var x, y := Decode(a, FP16), Decode(b, FP16);
    if x.Finite? && y.Finite? && x.mant > 0 && y.mant > 0 {
      Positive(x.mant, y.mant);
      PackHalfAgrees(Xor(x.sign, y.sign), x.mant * y.mant, x.scale + y.scale);
    }
  }

  lemma QuietNaN()
    ensures FP16.Valid() && FP16.Qnan() == 0x7E00
  {
    hide Bitwise, Pow2, Shl;
    HalfFormat();
    OrCommutes(0x7C00, 0x200);
    assert Bitwise(OR, 31 * Pow2(10), Pow2(9)) == 31 * Pow2(10) + Pow2(9) by { OrDisjoint(31, Pow2(9), 10); }
  }

  /** How the fields of an operand decode. */
  lemma HalfOperand(a: nat)
    requires FP16.Valid()
    ensures var e, f := Low(Shr(a, 10), 5), Low(a, 10);
      var ma := Bitwise(OR, f, if e != 0 then 0x400 else 0);
      && (e == 31 ==> Decode(a, FP16) == if f == 0 then Infinity(Shr(a, 15) % 2) else NaN(Shr(f, 9) % 2 == 0))
      && (e != 31 ==> Decode(a, FP16) == Finite(Shr(a, 15) % 2, ma, (if e != 0 then e else 1) - 25))
      && (ma == 0 <==> e == 0 && f == 0)
  {
    hide Pow2, Shr, Shl, Low, Bitwise;
    HalfFormat();
    var f := Low(a, 10);
    Divided(a, 10);
    OrZero(f);
    OrCommutes(f, 0x400);
    OrDisjoint(1, f, 10);
  }
}
