/**
 The underflow flag of the IEEE-754 reference model. It is raised when the delivered
 magnitude is inexact and below the normal numbers. Section 7.5 of IEEE 754-2008, for
 tininess after rounding, asks instead whether the result rounded with an unbounded exponent
 range is below them. The two differ in exactly one situation: the delivered magnitude is
 the smallest normal one, and the unbounded rounding is below it.
 */
module FloatUnderflow {
  import opened Bits
  import opened Dyadic
  import opened Float
  import opened FloatEncoding
  import opened FloatRounding

  /** The nonzero magnitudes with the precision of the format and any exponent. */
  predicate Normal(m: Magnitude, fmt: Format) {
    Pow2(fmt.mant) <= m.sig < Pow2(fmt.mant + 1)
  }

  /** z is the magnitude that the rounding mode requires for x when the exponent range is unbounded. */
  ghost predicate RoundsUnbounded(fmt: Format, dir: Direction, x: real, z: Magnitude) {
    && Normal(z, fmt)
    && match dir
       case Nearest => forall w: Magnitude :: Normal(w, fmt) ==> NoFarther(x, z, w)
       case Down => z.Value() <= x && forall w: Magnitude :: Normal(w, fmt) && w.Value() <= x ==> w.Value() <= z.Value()
       case Up => x <= z.Value() && forall w: Magnitude :: Normal(w, fmt) && x <= w.Value() ==> z.Value() <= w.Value()
  }

  /** The underflow of section 7.5: inexact, and tiny after rounding. */
  predicate Underflows(fmt: Format, x: real, y: Magnitude, z: Magnitude)
    requires fmt.Valid()
  {
    y.Value() != x && z.Value() < SmallestNormal(fmt)
  }

  /** The smallest normal magnitude. */
  function Threshold(fmt: Format): Magnitude
    requires fmt.Valid()
  {
    Magnitude(Pow2(fmt.mant), fmt.MinScale())
  }

  lemma ThresholdFacts(fmt: Format)
    requires fmt.Valid()
    ensures Canonical(Threshold(fmt), fmt) && Normal(Threshold(fmt), fmt)
    ensures Threshold(fmt).Value() == SmallestNormal(fmt) && Threshold(fmt).sig % 2 == 0
  {
    hide P2;
    PowerStep(fmt.mant + 1);
    PowerStep(fmt.mant);
    ScaledOne(Pow2(fmt.mant), fmt.MinScale(), 1 - fmt.Bias(), fmt.mant);
  }

  /** A magnitude of the format from the threshold on is normal; one below lies a whole last place below. */
  lemma AroundThreshold(y: Magnitude, fmt: Format)
    requires fmt.Valid() && Canonical(y, fmt)
    ensures y.Value() >= SmallestNormal(fmt) ==> Normal(y, fmt)
    ensures y.Value() < SmallestNormal(fmt) ==> y.Value() <= SmallestNormal(fmt) - P2(fmt.MinScale())
  {
    hide Pow2, P2, Scaled, SmallestNormal;
    BelowNormal(y, fmt);
    ThresholdFacts(fmt);
    if y.Value() < SmallestNormal(fmt) {
      ScaledOrder(y.sig + 1, Pow2(fmt.mant), fmt.MinScale());
      NextPlace(y.sig, fmt.MinScale());
    }
  }

  /** Half a last place below the threshold there is a number, when the exponent is unbounded. */
  lemma HalfBelow(fmt: Format) returns (w: Magnitude)
    requires fmt.Valid()
    ensures Normal(w, fmt) && w.Value() == SmallestNormal(fmt) - P2(fmt.MinScale()) / 2.0
  {
    hide Pow2, P2, Scaled;
    var e := fmt.MinScale();
    w := Magnitude(Pow2(fmt.mant + 1) - 1, e - 1);
    PowerStep(fmt.mant + 1);
    ThresholdFacts(fmt);
    NextPlace(w.sig, e - 1);
    PowerOne();
    ScaledShift(Pow2(fmt.mant), e, 1);
    P2Next(e - 1);
  }

  lemma PowerOne()
    ensures Pow2(1) == 2
  {}

  /** When the delivered magnitude is below the threshold, so is the unbounded rounding. */
  lemma BelowStaysBelow(fmt: Format, dir: Direction, x: real, y: Magnitude, z: Magnitude)
    requires fmt.Valid() && x > 0.0 && RoundsTo(fmt, dir, x, y) && RoundsUnbounded(fmt, dir, x, z)
    requires y.Value() < SmallestNormal(fmt)
    ensures z.Value() < SmallestNormal(fmt)
  {
    hide Canonical, Normal, Scaled, SmallestNormal, P2;
    var t := Threshold(fmt);
    ThresholdFacts(fmt);
    AroundThreshold(y, fmt);
    UnitPositive(fmt.MinScale());
    var w := HalfBelow(fmt);
    match dir {
      case Nearest =>
        assert NoFarther(x, y, t);
        assert NoFarther(x, z, w);
      case Down =>
        assert x < t.Value();
      case Up =>
        assert z.Value() <= w.Value();
    }
  }

  /** When the delivered magnitude is above the threshold, the unbounded rounding is not below it. */
  lemma AboveStaysAbove(fmt: Format, dir: Direction, x: real, y: Magnitude, z: Magnitude)
    requires fmt.Valid() && RoundsTo(fmt, dir, x, y) && RoundsUnbounded(fmt, dir, x, z)
    requires y.Value() > SmallestNormal(fmt)
    ensures z.Value() >= SmallestNormal(fmt)
  {
    hide Canonical, Normal, Scaled, SmallestNormal;
    var t := Threshold(fmt);
    ThresholdFacts(fmt);
    if dir == Nearest {
      assert NoFarther(x, y, t);
      assert NoFarther(x, z, t);
    }
  }

  /** A value at the threshold is its own rounding. */
  lemma ThresholdExact(fmt: Format, dir: Direction, x: real, z: Magnitude)
    requires fmt.Valid() && x == SmallestNormal(fmt) && RoundsUnbounded(fmt, dir, x, z)
    ensures z.Value() == x
  {
    hide Canonical, Normal, Scaled, SmallestNormal;
    ThresholdFacts(fmt);
    if dir == Nearest {
      assert NoFarther(x, z, Threshold(fmt));
    }
  }

  /** Main result: the flag differs from section 7.5 if and only if y is the smallest normal and z is below it. */
  lemma UnderflowExactly(sign: Sign, mant: nat, scale: int, rm: Rounding, fmt: Format, y: Magnitude, z: Magnitude)
    requires fmt.Valid() && mant > 0
    requires RoundsTo(fmt, DirectionOf(rm, sign), Scaled(mant, scale), y)
    requires RoundsUnbounded(fmt, DirectionOf(rm, sign), Scaled(mant, scale), z)
    ensures RoundPack(sign, mant, scale, rm, fmt).flags.underflow != Underflows(fmt, Scaled(mant, scale), y, z)
       <==> y.Value() == SmallestNormal(fmt) && z.Value() < SmallestNormal(fmt)
  {
    hide RoundsTo, RoundsUnbounded, RoundPack, Scaled, SmallestNormal, Largest;
    var x, dir := Scaled(mant, scale), DirectionOf(rm, sign);
    ScaledOrder(0, mant, scale);
    ScaledZero(scale);
    var y' := RoundPackCorrect(sign, mant, scale, rm, fmt);
    RoundsToUnique(fmt, dir, x, y, y');
    LargestIsNormal(fmt);
    if y.Value() < SmallestNormal(fmt) {
      BelowStaysBelow(fmt, dir, x, y, z);
    } else if y.Value() > SmallestNormal(fmt) {
      AboveStaysAbove(fmt, dir, x, y, z);
    } else if x == SmallestNormal(fmt) {
      ThresholdExact(fmt, dir, x, z);
    }
  }

  lemma LargestIsNormal(fmt: Format)
    requires fmt.Valid()
    ensures Largest(fmt).Value() >= SmallestNormal(fmt)
  {
    hide Pow2, Scaled, SmallestNormal;
    LargestCanonical(fmt);
    BelowNormal(Largest(fmt), fmt);
    PowerStep(fmt.mant + 1);
  }

  // --- the condition on the exact value ---

  /** The exact values that round up to the smallest normal magnitude, but not when the exponent is unbounded. */
  predicate InWindow(fmt: Format, dir: Direction, x: real)
    requires fmt.Valid()
  {
    var t, u := SmallestNormal(fmt), P2(fmt.MinScale());
    match dir
    case Nearest => t - u / 2.0 <= x < t - u / 4.0
    case Down => false
    case Up => t - u < x <= t - u / 2.0
  }

  /** The magnitudes just below the threshold: with the least exponent of the format, and with an unbounded one. */
  lemma JustBelow(fmt: Format) returns (b: Magnitude, w: Magnitude)
    requires fmt.Valid()
    ensures Canonical(b, fmt) && b.sig % 2 == 1 && b.Value() == SmallestNormal(fmt) - P2(fmt.MinScale())
    ensures Normal(w, fmt) && w.sig % 2 == 1 && w.Value() == SmallestNormal(fmt) - P2(fmt.MinScale()) / 2.0
    ensures forall z: Magnitude :: Normal(z, fmt) && z.Value() < SmallestNormal(fmt) ==> z.Value() <= w.Value()
    ensures forall z: Magnitude :: Normal(z, fmt) && z.Value() == w.Value() ==> z == w
  {
    hide Pow2, P2, Scaled, SmallestNormal;
    ThresholdFacts(fmt);
    PowerStep(fmt.mant + 1);
    PowerStep(fmt.mant);
    b := Magnitude(Pow2(fmt.mant) - 1, fmt.MinScale());
    NextPlace(b.sig, fmt.MinScale());
    w := Magnitude(Pow2(fmt.mant + 1) - 1, fmt.MinScale() - 1);
    var h := HalfBelow(fmt);
    PowerOne();
    NextPlace(w.sig, w.exp);
    ScaledShift(Pow2(fmt.mant), fmt.MinScale(), 1);
    P2Next(w.exp);
    forall z: Magnitude | Normal(z, fmt)
      ensures z.Value() < SmallestNormal(fmt) ==> z.Value() <= w.Value()
      ensures z.Value() == w.Value() ==> z == w
    {
      NormalOrder(z, w, fmt);
      NormalOrder(Threshold(fmt), z, fmt);
    }
  }

  /** Normal magnitudes are ordered by their exponents first. */
  lemma NormalOrder(z: Magnitude, w: Magnitude, fmt: Format)
    requires Normal(z, fmt) && Normal(w, fmt)
    ensures z.exp < w.exp ==> z.Value() < w.Value()
    ensures z.exp > w.exp ==> z.Value() > w.Value()
    ensures z.exp == w.exp ==> (z.sig <= w.sig <==> z.Value() <= w.Value())
    ensures z.exp == w.exp ==> (z.sig < w.sig <==> z.Value() < w.Value())
  {
    hide Pow2, Scaled;
    if z.exp < w.exp {
      LowerExponent(z, w, fmt);
    } else if w.exp < z.exp {
      LowerExponent(w, z, fmt);
    } else {
      ScaledOrder(z.sig, w.sig, z.exp);
    }
  }

  lemma LowerExponent(z: Magnitude, w: Magnitude, fmt: Format)
    requires Normal(z, fmt) && Normal(w, fmt) && z.exp < w.exp
    ensures z.Value() < w.Value()
  {
    hide Pow2, Scaled;
    var d := w.exp - z.exp;
    ScaledShift(w.sig, w.exp, d);
    Pow2Monotone(1, d);
    PowerOne();
    PowerStep(fmt.mant + 1);
    MulMono(Pow2(fmt.mant), w.sig, Pow2(d));
    MulMono(2, Pow2(d), Pow2(fmt.mant));
    ScaledOrder(z.sig, w.sig * Pow2(d), z.exp);
  }

  lemma NearestWindow(fmt: Format, x: real, y: Magnitude, z: Magnitude)
    requires fmt.Valid() && RoundsTo(fmt, Nearest, x, y) && RoundsUnbounded(fmt, Nearest, x, z)
    ensures InWindow(fmt, Nearest, x) <==> y.Value() == SmallestNormal(fmt) && z.Value() < SmallestNormal(fmt)
  {
    hide Canonical, Normal, Scaled, SmallestNormal, P2;
    var t := Threshold(fmt);
    ThresholdFacts(fmt);
    AroundThreshold(y, fmt);
    UnitPositive(fmt.MinScale());
    var b, w := JustBelow(fmt);
    assert NoFarther(x, y, t) && NoFarther(x, y, b) && NoFarther(x, z, t) && NoFarther(x, z, w);
    CanonicalUnique(y, b, fmt);
  }

  lemma UpWindow(fmt: Format, x: real, y: Magnitude, z: Magnitude)
    requires fmt.Valid() && RoundsTo(fmt, Up, x, y) && RoundsUnbounded(fmt, Up, x, z)
    ensures InWindow(fmt, Up, x) <==> y.Value() == SmallestNormal(fmt) && z.Value() < SmallestNormal(fmt)
  {
    hide Canonical, Normal, Scaled, SmallestNormal, P2;
    ThresholdFacts(fmt);
    AroundThreshold(y, fmt);
    UnitPositive(fmt.MinScale());
    var b, w := JustBelow(fmt);
  }

  lemma DownWindow(fmt: Format, x: real, y: Magnitude, z: Magnitude)
    requires fmt.Valid() && RoundsTo(fmt, Down, x, y) && RoundsUnbounded(fmt, Down, x, z)
    ensures !(y.Value() == SmallestNormal(fmt) && z.Value() < SmallestNormal(fmt))
  {
    hide Canonical, Normal, Scaled, SmallestNormal;
    ThresholdFacts(fmt);
  }

  /** Some magnitude is required when the exponent is unbounded: the one that a wide enough format of the same precision delivers. */
  lemma UnboundedExists(sign: Sign, mant: nat, scale: int, rm: Rounding, fmt: Format, wide: Format) returns (z: Magnitude)
    requires fmt.Valid() && wide.Valid() && wide.mant == fmt.mant && mant > 0 && wide.MinScale() + fmt.mant <= scale
    ensures RoundsUnbounded(fmt, DirectionOf(rm, sign), Scaled(mant, scale), z)
    ensures z == Rounded(Split(mant, scale, wide), sign, rm, wide)
  {
    hide Pow2, P2, Scaled, SmallestNormal, Split, Rounded, Format.MinScale, RoundsTo;
    var x, dir := Scaled(mant, scale), DirectionOf(rm, sign);
    z := Rounded(Split(mant, scale, wide), sign, rm, wide);
    RoundedCorrect(sign, mant, scale, rm, wide);
    WideIsUnbounded(x, dir, fmt, wide, z) by {
      ScaledShift(mant, scale, scale - wide.MinScale());
      Pow2Monotone(fmt.mant, scale - wide.MinScale());
      MulMono(1, mant, Pow2(scale - wide.MinScale()));
      ScaledOrder(Pow2(fmt.mant), mant * Pow2(scale - wide.MinScale()), wide.MinScale());
    }
  }

  lemma WideIsUnbounded(x: real, dir: Direction, fmt: Format, wide: Format, z: Magnitude)
    requires fmt.Valid() && wide.Valid() && wide.mant == fmt.mant && RoundsTo(wide, dir, x, z)
    requires x >= Scaled(Pow2(fmt.mant), wide.MinScale())
    ensures RoundsUnbounded(fmt, dir, x, z)
  {
    hide Scaled, Pow2, Format.MinScale, SmallestNormal, P2;
    var t := Threshold(wide);
    ThresholdFacts(wide);
    AroundThreshold(z, wide);
    if dir == Nearest {
      assert NoFarther(x, z, t);
    }
    forall w: Magnitude | Normal(w, fmt)
      ensures Canonical(w, wide) || w.Value() < t.Value()
    {
      NormalOrder(w, t, wide);
    }
  }

  /** A format of the same precision that is wide enough always exists. */
  lemma WideEnough(scale: int, fmt: Format) returns (wide: Format)
    requires fmt.Valid()
    ensures wide.Valid() && wide.mant == fmt.mant && wide.MinScale() + fmt.mant <= scale
  {
    var n: nat := if scale < 0 then -scale else 0;
    wide := Format(n + 3, fmt.mant);
    AtLeastExponent(n + 2);
  }

  lemma {:induction false} AtLeastExponent(n: nat)
    ensures Pow2(n) >= n + 1
  {
    if n > 0 {
      AtLeastExponent(n - 1);
    }
  }

  /**
   Main result on inputs: the flag differs from section 7.5 if and only if the exact value
   lies in the window below the smallest normal magnitude.
   */
  lemma UnderflowWindow(sign: Sign, mant: nat, scale: int, rm: Rounding, fmt: Format) returns (y: Magnitude, z: Magnitude)
    requires fmt.Valid() && mant > 0
    ensures RoundsTo(fmt, DirectionOf(rm, sign), Scaled(mant, scale), y)
    ensures RoundsUnbounded(fmt, DirectionOf(rm, sign), Scaled(mant, scale), z)
    ensures RoundPack(sign, mant, scale, rm, fmt).flags.underflow != Underflows(fmt, Scaled(mant, scale), y, z)
       <==> InWindow(fmt, DirectionOf(rm, sign), Scaled(mant, scale))
  {
    hide RoundsTo, RoundsUnbounded, RoundPack, Scaled, SmallestNormal, Underflows, InWindow, Delivers, Pack;
    var x := Scaled(mant, scale);
    y := RoundPackCorrect(sign, mant, scale, rm, fmt);
    var wide := WideEnough(scale, fmt);
    z := UnboundedExists(sign, mant, scale, rm, fmt, wide);
    UnderflowExactly(sign, mant, scale, rm, fmt, y, z);
    match DirectionOf(rm, sign) {
      case Nearest => NearestWindow(fmt, x, y, z);
      case Down =>
        DownWindow(fmt, x, y, z);
        NoWindowDown(fmt, x);
      case Up => UpWindow(fmt, x, y, z);
    }
  }

  lemma NoWindowDown(fmt: Format, x: real)
    requires fmt.Valid()
    ensures !InWindow(fmt, Down, x)
  {}

  // --- a product that shows the difference ---

  lemma SinglePrecision()
    ensures FP32.Valid() && FP32.Bias() == 127 && FP32.EmaxField() == 255 && FP32.MinScale() == -149
    ensures Pow2(8) == 0x100 && Pow2(23) == 0x80_0000
  {
    Pow2Values();
    assert Pow2(24) == 2 * Pow2(23);
    assert Pow2(8) == 2 * Pow2(7);
  }

  lemma Operands()
    ensures FP32.Valid()
    ensures Decode(0x2000_0800, FP32) == Finite(0, 0x80_0800, -86)
    ensures Decode(0x1FFF_F000, FP32) == Finite(0, 0xFF_F000, -87)
  {
    hide Decode, Pow2, Format.Join, Format.Bias, Format.EmaxField, Format.MinScale, Shr;
    SinglePrecision();
    JoinIsSum(FP32, 0, 64, 0x800);
    JoinIsSum(FP32, 0, 63, 0x7F_F000);
    DecodeJoin(FP32, 0, 64, 0x800);
    DecodeJoin(FP32, 0, 63, 0x7F_F000);
  }

  /** The exact product of the operands is half a last place below the smallest normal magnitude. */
  lemma ProductOfOperands()
    ensures FP32.Valid() && 0x80_0800 * 0xFF_F000 == 0xFF_FFFF * 0x80_0000
    ensures Scaled(0xFF_FFFF * 0x80_0000, -173) == SmallestNormal(FP32) - P2(FP32.MinScale()) / 2.0
  {
    hide Pow2, P2, Scaled, Format.MinScale, SmallestNormal;
    SinglePrecision();
    ThresholdFacts(FP32);
    ScaledShift(0xFF_FFFF, -150, 23);
    NextPlace(0xFF_FFFF, -150);
    PowerOne();
    ScaledShift(0x80_0000, -149, 1);
    P2Next(-150);
  }

  /** A product in single precision, to nearest: inexact and tiny after rounding, and the flag is not raised. */
  lemma UnderflowMissed() returns (z: Magnitude)
    ensures FP32.Valid()
    ensures var r := Mul(0x2000_0800, 0x1FFF_F000, RNE, FP32); r.flags.inexact && !r.flags.underflow
    ensures RoundsUnbounded(FP32, Nearest, Scaled(0x80_0800 * 0xFF_F000, -173), z) && z.Value() < SmallestNormal(FP32)
  {
    hide Decode, Pow2, P2, RoundPack, RoundsTo, RoundsUnbounded, Format.MinScale, Scaled, SmallestNormal, Largest;
    Operands();
    ProductOfOperands();
    var m := 0x80_0800 * 0xFF_F000;
    UnitPositive(FP32.MinScale());
    var y;
    y, z := UnderflowWindow(0, m, -173, RNE, FP32);
    NearestWindow(FP32, Scaled(m, -173), y, z);
    var y' := RoundPackCorrect(0, m, -173, RNE, FP32);
    RoundsToUnique(FP32, Nearest, Scaled(m, -173), y, y');
    LargestIsNormal(FP32);
  }
}
