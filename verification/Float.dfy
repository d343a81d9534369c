/**
 The IEEE-754 reference model (tb/uvm/fp_ref.py): binary formats of any width, four
 rounding modes, exception flags, and addition, multiplication and fused multiply-add in
 exact integer arithmetic with one rounding.
 */
module Float {
  import opened Bits
  import opened Dyadic

  type Sign = s: nat | s < 2

  datatype Format = Format(exp: nat, mant: nat) {
    predicate Valid() {
      exp >= 2 && mant >= 1
    }

    function Bias(): nat
      requires Valid()
    {
      Pow2(exp - 1) - 1
    }

    function EmaxField(): nat {
      Pow2(exp) - 1
    }

    /** Scale of the last place of a subnormal number. */
    function MinScale(): int
      requires Valid()
    {
      1 - Bias() - mant
    }

    /** `sign << (WIDTH - 1) | e << MANT | f` */
    function Join(sign: Sign, e: nat, f: nat): nat {
      Bitwise(OR, Bitwise(OR, Shl(sign, exp + mant), Shl(e, mant)), f)
    }

    function Qnan(): nat
      requires Valid()
    {
      Bitwise(OR, Shl(EmaxField(), mant), Pow2(mant - 1))
    }

    function Inf(sign: Sign): nat {
      Bitwise(OR, Shl(sign, exp + mant), Shl(EmaxField(), mant))
    }

    function MaxFinite(sign: Sign): nat
      requires Valid()
    {
      Join(sign, Pow2(exp) - 2, Pow2(mant) - 1)
    }

    function ZeroBits(sign: Sign): nat {
      Shl(sign, exp + mant)
    }
  }

  const FP32 := Format(8, 23)
  const FP16 := Format(5, 10)

  datatype Rounding = RNE | RTZ | RDN | RUP

  datatype Flags = Flags(invalid: bool, overflow: bool, underflow: bool, inexact: bool)

  const NONE := Flags(false, false, false, false)
  const INVALID := Flags(true, false, false, false)

  datatype Result = Result(bits: nat, flags: Flags)

  datatype Number =
    | NaN(signalling: bool)
    | Infinity(sign: Sign)
    | Finite(sign: Sign, mant: nat, scale: int)
  {
    predicate IsZero() {
      Finite? && mant == 0
    }
  }

  /** `_decode`; a zero is finite with mantissa 0. */
  function Decode(bits: nat, fmt: Format): Number
    requires fmt.Valid()
  {
    var sign, e, f := Shr(bits, fmt.exp + fmt.mant) % 2, Low(Shr(bits, fmt.mant), fmt.exp), Low(bits, fmt.mant);
    if e == fmt.EmaxField() then
      if f == 0 then Infinity(sign) else NaN(Shr(f, fmt.mant - 1) % 2 == 0)
    else if e == 0 then Finite(sign, f, fmt.MinScale())
    else Finite(sign, Bitwise(OR, f, Pow2(fmt.mant)), e - fmt.Bias() - fmt.mant)
  }

  // --- _round_pack ---

  /** The kept mantissa, the exponent of its last place, and what lies below it. */
  datatype Cut = Cut(kept: nat, lsb: int, roundBit: nat, sticky: bool) {
    predicate Inexact() {
      roundBit != 0 || sticky
    }
  }

  function Split(mant: nat, scale: int, fmt: Format): (c: Cut)
    requires fmt.Valid()
    ensures c.lsb >= fmt.MinScale()
  {
    var msb := scale + BitLength(mant) - 1;
    var lsb := if msb - fmt.mant > fmt.MinScale() then msb - fmt.mant else fmt.MinScale();
    var shift := lsb - scale;
    if shift > 0 then
      var rem := Low(mant, shift);
      Cut(Shr(mant, shift), lsb, Shr(rem, shift - 1) % 2, Low(rem, shift - 1) != 0)
    else Cut(Shl(mant, -shift), lsb, 0, false)
  }

  predicate Increment(c: Cut, sign: Sign, rm: Rounding) {
    match rm
    case RNE => c.roundBit == 1 && (c.sticky || c.kept % 2 == 1)
    case RTZ => false
    case RDN => sign == 1 && c.Inexact()
    case RUP => sign == 0 && c.Inexact()
  }

  /** The kept mantissa after rounding, renormalised when the increment carries out of it. */
  function Rounded(c: Cut, sign: Sign, rm: Rounding, fmt: Format): (m: Magnitude)
    ensures m.exp >= c.lsb
  {
    if Increment(c, sign, rm) then
      if BitLength(c.kept + 1) > fmt.mant + 1 then Magnitude((c.kept + 1) / 2, c.lsb + 1) else Magnitude(c.kept + 1, c.lsb)
    else Magnitude(c.kept, c.lsb)
  }

  datatype Magnitude = Magnitude(sig: nat, exp: int) {
    function Value(): real {
      Scaled(sig, exp)
    }
  }

  function Overflowed(sign: Sign, rm: Rounding, fmt: Format): nat
    requires fmt.Valid()
  {
    match rm
    case RNE => fmt.Inf(sign)
    case RTZ => fmt.MaxFinite(sign)
    case RDN => if sign == 1 then fmt.Inf(sign) else fmt.MaxFinite(sign)
    case RUP => if sign == 1 then fmt.MaxFinite(sign) else fmt.Inf(sign)
  }

  function Pack(m: Magnitude, inexact: bool, sign: Sign, rm: Rounding, fmt: Format): Result
    requires fmt.Valid() && m.exp >= fmt.MinScale()
  {
    if m.sig == 0 then Result(fmt.ZeroBits(sign), Flags(false, false, inexact, inexact))
    else if Shr(m.sig, fmt.mant) != 0 then
      var biased := m.exp + fmt.mant + fmt.Bias();
      if biased >= fmt.EmaxField() then Result(Overflowed(sign, rm, fmt), Flags(false, true, false, true))
      else Result(fmt.Join(sign, biased, Low(m.sig, fmt.mant)), Flags(false, false, false, inexact))
    else Result(Bitwise(OR, Shl(sign, fmt.exp + fmt.mant), m.sig), Flags(false, false, inexact, inexact))
  }

  /** `_round_pack`: rounds the exact magnitude mant * 2^scale into the format. */
  function RoundPack(sign: Sign, mant: nat, scale: int, rm: Rounding, fmt: Format): Result
    requires fmt.Valid()
  {
    var c := Split(mant, scale, fmt);
    Pack(Rounded(c, sign, rm, fmt), c.Inexact(), sign, rm, fmt)
  }

  // --- arithmetic ---

  function Min(x: int, y: int): int {
    if x < y then x else y
  }

  function Abs(x: int): nat {
    if x < 0 then -x else x
  }

  /** The mantissa at a smaller scale, with its sign. */
  function Aligned(sign: Sign, mant: nat, scale: int, to: int): int
    requires to <= scale
  {
    Shl(mant, scale - to) * (if sign == 1 then -1 else 1)
  }

  /** The rounded sum of two finite numbers, not both zero. */
  function RoundSum(sa: Sign, ma: nat, ca: int, sb: Sign, mb: nat, cb: int, rm: Rounding, fmt: Format): Result
    requires fmt.Valid()
  {
    var scale := Min(ca, cb);
    var s := Aligned(sa, ma, ca, scale) + Aligned(sb, mb, cb, scale);
    if s == 0 then Result(fmt.ZeroBits(if rm == RDN then 1 else 0), NONE)
    else RoundPack(if s < 0 then 1 else 0, Abs(s), scale, rm, fmt)
  }

  function Add(aBits: nat, bBits: nat, rm: Rounding, fmt: Format): Result
    requires fmt.Valid()
  {
    var a, b := Decode(aBits, fmt), Decode(bBits, fmt);
    if a.NaN? || b.NaN? then
      Result(fmt.Qnan(), Flags((a.NaN? && a.signalling) || (b.NaN? && b.signalling), false, false, false))
    else if a.Infinity? && b.Infinity? then
      if a.sign != b.sign then Result(fmt.Qnan(), INVALID) else Result(fmt.Inf(a.sign), NONE)
    else if a.Infinity? then Result(fmt.Inf(a.sign), NONE)
    else if b.Infinity? then Result(fmt.Inf(b.sign), NONE)
    else if a.mant == 0 && b.mant == 0 then
      Result(fmt.ZeroBits(if a.sign == b.sign then a.sign else if rm == RDN then 1 else 0), NONE)
    else RoundSum(a.sign, a.mant, a.scale, b.sign, b.mant, b.scale, rm, fmt)
  }

  function Xor(s: Sign, t: Sign): Sign {
    if s == t then 0 else 1
  }

  function SignOf(x: Number): Sign {
    if x.NaN? then 0 else x.sign
  }

  function Mul(aBits: nat, bBits: nat, rm: Rounding, fmt: Format): Result
    requires fmt.Valid()
  {
    var a, b := Decode(aBits, fmt), Decode(bBits, fmt);
    var sign := Xor(SignOf(a), SignOf(b));
    if a.NaN? || b.NaN? then
      Result(fmt.Qnan(), Flags((a.NaN? && a.signalling) || (b.NaN? && b.signalling), false, false, false))
    else if (a.Infinity? && b.IsZero()) || (a.IsZero() && b.Infinity?) then Result(fmt.Qnan(), INVALID)
    else if a.Infinity? || b.Infinity? then Result(fmt.Inf(sign), NONE)
    else if a.mant == 0 || b.mant == 0 then Result(fmt.ZeroBits(sign), NONE)
    else RoundPack(sign, a.mant * b.mant, a.scale + b.scale, rm, fmt)
  }

  function Fma(aBits: nat, bBits: nat, cBits: nat, rm: Rounding, fmt: Format): Result
    requires fmt.Valid()
  {
    var a, b, c := Decode(aBits, fmt), Decode(bBits, fmt), Decode(cBits, fmt);
    var ps := Xor(SignOf(a), SignOf(b));
    var mulInvalid := (a.Infinity? && b.IsZero()) || (a.IsZero() && b.Infinity?);
    if a.NaN? || b.NaN? || c.NaN? then
      var signalling := (a.NaN? && a.signalling) || (b.NaN? && b.signalling) || (c.NaN? && c.signalling);
      Result(fmt.Qnan(), Flags(signalling || mulInvalid, false, false, false))
    else if mulInvalid then Result(fmt.Qnan(), INVALID)
    else if a.Infinity? || b.Infinity? then
      if c.Infinity? && c.sign != ps then Result(fmt.Qnan(), INVALID) else Result(fmt.Inf(ps), NONE)
    else if c.Infinity? then Result(fmt.Inf(c.sign), NONE)
    else if (a.mant == 0 || b.mant == 0) && c.mant == 0 then
      Result(fmt.ZeroBits(if ps == c.sign then ps else if rm == RDN then 1 else 0), NONE)
    else RoundSum(ps, a.mant * b.mant, a.scale + b.scale, c.sign, c.mant, c.scale, rm, fmt)
  }
}
