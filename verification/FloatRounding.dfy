/**
 Correct rounding: `_round_pack` returns what sections 4.3 and 7.4 of IEEE 754-2008
 require of the exact magnitude mant * 2^scale, in every mode and format, and its inexact
 flag says exactly when the result differs from the exact value. The underflow flag tests
 the delivered magnitude; FloatUnderflow compares it with section 7.5.
 */
module FloatRounding {
  import opened Bits
  import opened Dyadic
  import opened Float
  import opened FloatEncoding

  /** The magnitudes of the format with the exponent range unbounded above, each written in one way. */
  predicate Canonical(m: Magnitude, fmt: Format)
    requires fmt.Valid()
  {
    && m.sig < Pow2(fmt.mant + 1) && m.exp >= fmt.MinScale()
    && (m.sig >= Pow2(fmt.mant) || m.exp == fmt.MinScale())
  }

  datatype Direction = Nearest | Down | Up

  /** What a rounding mode does to the magnitude of a number with the given sign. */
  function DirectionOf(rm: Rounding, sign: Sign): Direction {
    match rm
    case RNE => Nearest
    case RTZ => Down
    case RDN => if sign == 1 then Up else Down
    case RUP => if sign == 0 then Up else Down
  }

  function Distance(x: real, y: real): real {
    if x < y then y - x else x - y
  }

  /** No other magnitude is nearer, and y is even if another one is as near. */
  predicate NoFarther(x: real, y: Magnitude, z: Magnitude) {
    var dy, dz := Distance(x, y.Value()), Distance(x, z.Value());
    dy < dz || (dy == dz && (z.Value() == y.Value() || y.sig % 2 == 0))
  }

  /** y is the magnitude that the rounding mode requires for x. */
  ghost predicate RoundsTo(fmt: Format, dir: Direction, x: real, y: Magnitude)
    requires fmt.Valid()
  {
    && Canonical(y, fmt)
    && match dir
       case Nearest => forall z: Magnitude :: Canonical(z, fmt) ==> NoFarther(x, y, z)
       case Down => y.Value() <= x && forall z: Magnitude :: Canonical(z, fmt) && z.Value() <= x ==> z.Value() <= y.Value()
       case Up => x <= y.Value() && forall z: Magnitude :: Canonical(z, fmt) && x <= z.Value() ==> y.Value() <= z.Value()
  }

  // --- the cut ---

  /** The cut splits x exactly; the round and sticky bits place the rest against half a last place. */
  ghost predicate SplitsExactly(x: real, c: Cut) {
    var t, u := x - Scaled(c.kept, c.lsb), P2(c.lsb);
    && 0.0 <= t < u && c.roundBit < 2
    && (t == 0.0 <==> !c.Inexact())
    && (t > u / 2.0 <==> c.roundBit == 1 && c.sticky)
    && (t == u / 2.0 <==> c.roundBit == 1 && !c.sticky)
  }

  lemma TopBit(rem: nat, shift: nat)
    requires shift > 0 && rem < Pow2(shift)
    ensures var half := Pow2(shift - 1);
      && Shr(rem, shift - 1) % 2 == (if rem >= half then 1 else 0)
      && Low(rem, shift - 1) == (if rem >= half then rem - half else rem)
  {
    hide Pow2, Shr, Low;
    assert Pow2(shift) == 2 * Pow2(shift - 1) by { PowerStep(shift); }
    var half := Pow2(shift - 1);
    Quotient(rem, shift - 1, if rem >= half then 1 else 0);
  }

  lemma SplitExact(mant: nat, scale: int, fmt: Format)
    requires fmt.Valid()
    ensures SplitsExactly(Scaled(mant, scale), Split(mant, scale, fmt))
  {
    hide Pow2, P2, Shr, Low, BitLength, Format.MinScale, Scaled;
    var c := Split(mant, scale, fmt);
    var shift := c.lsb - scale;
    if shift > 0 {
      var rem, u := Low(mant, shift), Pow2(shift);
      Divided(mant, shift);
      TopBit(rem, shift);
      PowerStep(shift);
      assert mant == Shr(mant, shift) * u + rem;
      ScaledSum(Shr(mant, shift) * u, rem, scale);
      ScaledShift(Shr(mant, shift), c.lsb, shift);
      ScaledOne(u, scale, c.lsb, shift);
      assert Scaled(mant, scale) - Scaled(c.kept, c.lsb) == Scaled(rem, scale);
      ScaledOrder(rem, u, scale);
      ScaledOrder(0, rem, scale);
      ScaledZero(scale);
      HalfOrder(rem, Pow2(shift - 1), scale);
    } else {
      ScaledShift(mant, scale, -shift);
      UnitPositive(c.lsb);
    }
  }

  lemma ScaledOne(u: int, scale: int, lsb: int, shift: nat)
    requires u == Pow2(shift) && lsb == scale + shift
    ensures Scaled(u, scale) == P2(lsb)
  {
    hide P2;
    P2Shift(scale, shift);
  }

  lemma ScaledZero(scale: int)
    ensures Scaled(0, scale) == 0.0
  {}

  lemma UnitPositive(e: int)
    ensures P2(e) > 0.0
  {}

  lemma HalfOrder(rem: int, half: int, scale: int)
    ensures Scaled(2 * half, scale) / 2.0 == Scaled(half, scale)
    ensures rem > half <==> Scaled(rem, scale) > Scaled(half, scale)
    ensures rem == half <==> Scaled(rem, scale) == Scaled(half, scale)
  {
    ScaledSum(half, half, scale);
    ScaledOrder(half, rem, scale);
    ScaledOrder(rem, half, scale);
  }

  // --- the kept mantissa ---

  lemma ShrBounds(n: nat, k: nat, b: nat)
    ensures n < Pow2(b + k) ==> Shr(n, k) < Pow2(b)
    ensures n >= Pow2(b + k) ==> Shr(n, k) >= Pow2(b)
  {
    hide Pow2, Shr, Low;
    Divided(n, k);
    Pow2Add(b, k);
    assert (Shr(n, k) + 1) * Pow2(k) == Shr(n, k) * Pow2(k) + Pow2(k);
    if n < Pow2(b + k) && Shr(n, k) >= Pow2(b) {
      MulMono(Pow2(b), Shr(n, k), Pow2(k));
    }
    if n >= Pow2(b + k) && Shr(n, k) < Pow2(b) {
      MulMono(Shr(n, k) + 1, Pow2(b), Pow2(k));
    }
  }

  lemma ShlBounds(n: nat, k: nat, b: nat)
    ensures n < Pow2(b) ==> Shl(n, k) < Pow2(b + k)
    ensures n >= Pow2(b) ==> Shl(n, k) >= Pow2(b + k)
  {
    hide Pow2;
    Pow2Add(b, k);
    if n < Pow2(b) {
      MulMono(n + 1, Pow2(b), Pow2(k));
      assert (n + 1) * Pow2(k) == n * Pow2(k) + Pow2(k);
    } else {
      MulMono(Pow2(b), n, Pow2(k));
    }
  }

  lemma KeptCanonical(mant: nat, scale: int, fmt: Format)
    requires fmt.Valid() && mant > 0
    ensures var c := Split(mant, scale, fmt); Canonical(Magnitude(c.kept, c.lsb), fmt)
  {
    hide Pow2, Shr, Shl, Low, BitLength, Format.MinScale;
    BitLengthBounds(mant);
    var c, len := Split(mant, scale, fmt), BitLength(mant);
    var shift := c.lsb - scale;
    if shift > 0 {
      ShrBounds(mant, shift, fmt.mant);
      ShrBounds(mant, shift, fmt.mant + 1);
      Pow2Monotone(len, fmt.mant + 1 + shift);
      if c.lsb > fmt.MinScale() {
        assert len - 1 == fmt.mant + shift;
      }
    } else {
      ShlBounds(mant, -shift, len);
      ShlBounds(mant, -shift, len - 1);
      Pow2Monotone(len - shift, fmt.mant + 1);
      if c.lsb > fmt.MinScale() {
        assert len - 1 - shift == fmt.mant;
      }
    }
  }

  /** Between a canonical magnitude and the next multiple of its last place there is no other. */
  lemma Gap(m: Magnitude, z: Magnitude, fmt: Format)
    requires fmt.Valid() && Canonical(m, fmt) && Canonical(z, fmt)
    ensures z.Value() <= m.Value() || Scaled(m.sig + 1, m.exp) <= z.Value()
  {
    hide Pow2, Scaled, Format.MinScale;
    if z.exp >= m.exp {
      var d := z.exp - m.exp;
      ScaledShift(z.sig, z.exp, d);
      ScaledOrder(z.sig * Pow2(d), m.sig, m.exp);
      ScaledOrder(m.sig + 1, z.sig * Pow2(d), m.exp);
    } else {
      LowerBinade(z, m, fmt);
    }
  }

  /** A magnitude with a smaller exponent is smaller. */
  lemma LowerBinade(z: Magnitude, m: Magnitude, fmt: Format)
    requires fmt.Valid() && Canonical(m, fmt) && Canonical(z, fmt) && z.exp < m.exp
    ensures z.Value() < m.Value()
  {
    hide Pow2, Scaled, Format.MinScale;
    var d := m.exp - z.exp;
    ScaledShift(m.sig, m.exp, d);
    Pow2Monotone(1, d);
    PowerStep(fmt.mant + 1);
    MulMono(Pow2(fmt.mant), m.sig, Pow2(d));
    assert Pow2(1) == 2 by { Pow2Values(); }
    MulMono(2, Pow2(d), Pow2(fmt.mant));
    ScaledOrder(z.sig, m.sig * Pow2(d), z.exp);
  }

  /** A magnitude is written in one way. */
  lemma CanonicalUnique(m: Magnitude, z: Magnitude, fmt: Format)
    requires fmt.Valid() && Canonical(m, fmt) && Canonical(z, fmt)
    ensures m.Value() == z.Value() ==> m == z
  {
    hide Pow2, Scaled, Format.MinScale;
    if z.exp < m.exp {
      LowerBinade(z, m, fmt);
    } else if m.exp < z.exp {
      LowerBinade(m, z, fmt);
    } else {
      ScaledOrder(m.sig, z.sig, m.exp);
      ScaledOrder(z.sig, m.sig, m.exp);
    }
  }

  // --- the rounded magnitude ---

  lemma CarryOut(sig: nat, fmt: Format)
    requires fmt.Valid() && sig < Pow2(fmt.mant + 1)
    ensures BitLength(sig + 1) > fmt.mant + 1 <==> sig + 1 == Pow2(fmt.mant + 1)
    ensures Pow2(fmt.mant + 1) == 2 * Pow2(fmt.mant) && Pow2(fmt.mant) % 2 == 0
  {
    hide Pow2, BitLength;
    PowerStep(fmt.mant + 1);
    PowerStep(fmt.mant);
    BitLengthBounds(sig + 1);
    if sig + 1 == Pow2(fmt.mant + 1) {
      PowerStep(fmt.mant + 2);
      BitLengthUnique(sig + 1, fmt.mant + 2);
    } else if BitLength(sig + 1) > fmt.mant + 1 {
      Pow2Monotone(fmt.mant + 1, BitLength(sig + 1) - 1);
    }
  }

  /** Rounding keeps the cut magnitude or takes the next one, which is even when the kept one is odd. */
  lemma Candidate(c: Cut, sign: Sign, rm: Rounding, fmt: Format)
    requires fmt.Valid() && Canonical(Magnitude(c.kept, c.lsb), fmt)
    ensures var y := Rounded(c, sign, rm, fmt);
      && Canonical(y, fmt)
      && y.Value() == Scaled(if Increment(c, sign, rm) then c.kept + 1 else c.kept, c.lsb)
      && (Increment(c, sign, rm) && c.kept % 2 == 1 ==> y.sig % 2 == 0)
      && (!Increment(c, sign, rm) ==> y.sig == c.kept)
  {
    hide Pow2, BitLength, Scaled, Format.MinScale, Increment;
    if Increment(c, sign, rm) {
      CarryOut(c.kept, fmt);
      Pow2Values();
      ScaledShift((c.kept + 1) / 2, c.lsb + 1, 1);
    }
  }

  /** Rounding to nearest with ties to even, from how the rest compares with half a last place. */
  lemma NearestRounds(x: real, m: Magnitude, y: Magnitude, up: bool, fmt: Format)
    requires fmt.Valid() && Canonical(m, fmt) && Canonical(y, fmt)
    requires y.Value() == Scaled(if up then m.sig + 1 else m.sig, m.exp)
    requires var t, u := x - m.Value(), P2(m.exp);
      && 0.0 <= t < u
      && (t > u / 2.0 ==> up) && (t < u / 2.0 ==> !up) && (t == u / 2.0 ==> y.sig % 2 == 0)
    ensures RoundsTo(fmt, Nearest, x, y)
  {
    hide Scaled, Canonical;
    NextPlace(m.sig, m.exp);
    forall z: Magnitude | Canonical(z, fmt)
      ensures NoFarther(x, y, z)
    {
      Gap(m, z, fmt);
    }
  }

  lemma NextPlace(n: int, e: int)
    ensures Scaled(n + 1, e) == Scaled(n, e) + P2(e)
  {}

  lemma DirectedRounds(x: real, m: Magnitude, y: Magnitude, up: bool, fmt: Format)
    requires fmt.Valid() && Canonical(m, fmt) && Canonical(y, fmt)
    requires y.Value() == Scaled(if up then m.sig + 1 else m.sig, m.exp)
    requires 0.0 <= x - m.Value() < P2(m.exp)
    ensures !up ==> RoundsTo(fmt, Down, x, y)
    ensures (up <==> x != m.Value()) ==> RoundsTo(fmt, Up, x, y)
  {
    hide Scaled, Canonical;
    NextPlace(m.sig, m.exp);
    forall z: Magnitude | Canonical(z, fmt)
      ensures z.Value() <= m.Value() || Scaled(m.sig + 1, m.exp) <= z.Value()
    {
      Gap(m, z, fmt);
    }
  }

  /** The magnitude that `_round_pack` delivers is the one IEEE 754 requires. */
  lemma RoundedCorrect(sign: Sign, mant: nat, scale: int, rm: Rounding, fmt: Format)
    requires fmt.Valid() && mant > 0
    ensures var c := Split(mant, scale, fmt);
      && RoundsTo(fmt, DirectionOf(rm, sign), Scaled(mant, scale), Rounded(c, sign, rm, fmt))
      && (c.Inexact() <==> Rounded(c, sign, rm, fmt).Value() != Scaled(mant, scale))
  {
    hide Split, Rounded, Canonical, RoundsTo, Scaled;
    var x, c := Scaled(mant, scale), Split(mant, scale, fmt);
    var m, y := Magnitude(c.kept, c.lsb), Rounded(c, sign, rm, fmt);
    SplitExact(mant, scale, fmt);
    KeptCanonical(mant, scale, fmt);
    Candidate(c, sign, rm, fmt);
    NextPlace(c.kept, c.lsb);
    if DirectionOf(rm, sign) == Nearest {
      NearestRounds(x, m, y, Increment(c, sign, rm), fmt);
    } else {
      DirectedRounds(x, m, y, Increment(c, sign, rm), fmt);
    }
  }

  // --- the delivered word and flags ---

  /** The largest finite magnitude of the format. */
  function Largest(fmt: Format): Magnitude
    requires fmt.Valid()
  {
    Magnitude(2 * Pow2(fmt.mant) - 1, fmt.EmaxField() - 1 - fmt.Bias() - fmt.mant)
  }

  /** The smallest normal magnitude is 2^(1 - bias). */
  function SmallestNormal(fmt: Format): real
    requires fmt.Valid()
  {
    P2(1 - fmt.Bias())
  }

  /**
   r is the word and the flags for a number of the given sign whose exact magnitude x rounds
   to y. Beyond the largest finite magnitude it is infinity, or that magnitude when rounding
   towards zero, with overflow and inexact. Otherwise it decodes to y; it is inexact when y
   is not x, and underflows when moreover y is below the normal numbers.
   */
  predicate Delivers(fmt: Format, dir: Direction, sign: Sign, x: real, y: Magnitude, r: Result)
    requires fmt.Valid()
  {
    if y.Value() > Largest(fmt).Value() then
      && r.flags == Flags(false, true, false, true)
      && Decode(r.bits, fmt) == (if dir == Down then Finite(sign, Largest(fmt).sig, Largest(fmt).exp) else Infinity(sign))
    else
      && r.flags == Flags(false, false, y.Value() != x && y.Value() < SmallestNormal(fmt), y.Value() != x)
      && Decode(r.bits, fmt) == Finite(sign, y.sig, y.exp)
  }

  lemma LargestCanonical(fmt: Format)
    requires fmt.Valid()
    ensures Canonical(Largest(fmt), fmt) && Pow2(fmt.mant + 1) == 2 * Pow2(fmt.mant)
    ensures Largest(fmt).exp >= fmt.MinScale()
  {
    hide Pow2;
    FormatFacts(fmt);
    PowerStep(fmt.mant + 1);
  }

  lemma ExceedsLargest(y: Magnitude, fmt: Format)
    requires fmt.Valid() && Canonical(y, fmt)
    ensures y.Value() > Largest(fmt).Value() <==> y.exp > Largest(fmt).exp
  {
    hide Pow2, Scaled, Format.MinScale;
    LargestCanonical(fmt);
    if y.exp > Largest(fmt).exp {
      LowerBinade(Largest(fmt), y, fmt);
    } else if y.exp < Largest(fmt).exp {
      LowerBinade(y, Largest(fmt), fmt);
    } else {
      ScaledOrder(y.sig, Largest(fmt).sig, y.exp);
    }
  }

  lemma BelowNormal(y: Magnitude, fmt: Format)
    requires fmt.Valid() && Canonical(y, fmt)
    ensures y.Value() < SmallestNormal(fmt) <==> y.sig < Pow2(fmt.mant)
  {
    hide Pow2, P2, Scaled;
    var least := Magnitude(Pow2(fmt.mant), fmt.MinScale());
    ScaledOne(Pow2(fmt.mant), fmt.MinScale(), 1 - fmt.Bias(), fmt.mant);
    PowerStep(fmt.mant + 1);
    if y.exp > fmt.MinScale() {
      LowerBinade(least, y, fmt);
    } else {
      ScaledOrder(y.sig, Pow2(fmt.mant), fmt.MinScale());
    }
  }

  lemma TopDigit(sig: nat, fmt: Format)
    requires sig < Pow2(fmt.mant + 1)
    ensures Shr(sig, fmt.mant) != 0 <==> sig >= Pow2(fmt.mant)
    ensures sig >= Pow2(fmt.mant) ==> Low(sig, fmt.mant) == sig - Pow2(fmt.mant)
  {
    hide Pow2, Shr, Low;
    PowerStep(fmt.mant + 1);
    Quotient(sig, fmt.mant, if sig >= Pow2(fmt.mant) then 1 else 0);
  }

  lemma OverflowDecodes(sign: Sign, rm: Rounding, fmt: Format)
    requires fmt.Valid()
    ensures Decode(Overflowed(sign, rm, fmt), fmt)
         == if DirectionOf(rm, sign) == Down then Finite(sign, Largest(fmt).sig, Largest(fmt).exp) else Infinity(sign)
  {
    hide Decode, Format.Inf, Format.MaxFinite, Pow2;
    SpecialsDecode(fmt, sign);
  }

  lemma PackDelivers(y: Magnitude, x: real, sign: Sign, rm: Rounding, fmt: Format)
    requires fmt.Valid() && Canonical(y, fmt)
    ensures Delivers(fmt, DirectionOf(rm, sign), sign, x, y, Pack(y, y.Value() != x, sign, rm, fmt))
  {
    hide Decode, Pow2, Bitwise, Shr, Low, Shl, Overflowed, Format.Join, Format.ZeroBits, DirectionOf, SmallestNormal, Scaled;
    ExceedsLargest(y, fmt);
    BelowNormal(y, fmt);
    TopDigit(y.sig, fmt);
    LargestCanonical(fmt);
    OverflowDecodes(sign, rm, fmt);
    FormatFacts(fmt);
    if y.sig < Pow2(fmt.mant) {
      SpecialJoins(fmt, sign);
      SubnormalJoin(fmt, sign, y.sig);
      DecodeJoin(fmt, sign, 0, y.sig);
    } else if y.exp <= Largest(fmt).exp {
      DecodeJoin(fmt, sign, y.exp + fmt.mant + fmt.Bias(), y.sig - Pow2(fmt.mant));
    }
  }

  /** Main result: `_round_pack` rounds correctly and raises the flags of Delivers. */
  lemma RoundPackCorrect(sign: Sign, mant: nat, scale: int, rm: Rounding, fmt: Format) returns (y: Magnitude)
    requires fmt.Valid() && mant > 0
    ensures RoundsTo(fmt, DirectionOf(rm, sign), Scaled(mant, scale), y)
    ensures Delivers(fmt, DirectionOf(rm, sign), sign, Scaled(mant, scale), y, RoundPack(sign, mant, scale, rm, fmt))
    ensures RoundPack(sign, mant, scale, rm, fmt) == Pack(y, y.Value() != Scaled(mant, scale), sign, rm, fmt)
  {
    hide Delivers, Pack, Split, Rounded;
    RoundedCorrect(sign, mant, scale, rm, fmt);
    y := Rounded(Split(mant, scale, fmt), sign, rm, fmt);
    PackDelivers(y, Scaled(mant, scale), sign, rm, fmt);
  }

  // --- rounding is a function of the value ---

  /** The required magnitude is unique. */
  lemma RoundsToUnique(fmt: Format, dir: Direction, x: real, y: Magnitude, z: Magnitude)
    requires fmt.Valid() && RoundsTo(fmt, dir, x, y) && RoundsTo(fmt, dir, x, z)
    ensures y == z
  {
    hide Canonical, Scaled;
    if dir == Nearest {
      assert NoFarther(x, y, z) && NoFarther(x, z, y);
      NothingBetween(fmt, x, y, z);
      Adjacent(fmt, y, z);
      Adjacent(fmt, z, y);
    }
    CanonicalUnique(y, z, fmt);
  }

  /** No magnitude lies strictly between two that are as near to x as possible. */
  lemma NothingBetween(fmt: Format, x: real, y: Magnitude, z: Magnitude)
    requires fmt.Valid() && RoundsTo(fmt, Nearest, x, y) && RoundsTo(fmt, Nearest, x, z)
    ensures forall w: Magnitude :: Canonical(w, fmt) ==> !(y.Value() < w.Value() < z.Value()) && !(z.Value() < w.Value() < y.Value())
  {
    hide Canonical, Scaled;
    forall w: Magnitude | Canonical(w, fmt)
      ensures !(y.Value() < w.Value() < z.Value()) && !(z.Value() < w.Value() < y.Value())
    {
      assert NoFarther(x, y, w) && NoFarther(x, z, w) && NoFarther(x, y, z) && NoFarther(x, z, y);
    }
  }

  /** Of two adjacent magnitudes one is odd. */
  lemma Adjacent(fmt: Format, y: Magnitude, z: Magnitude)
    requires fmt.Valid() && Canonical(y, fmt) && Canonical(z, fmt)
    requires forall w: Magnitude :: Canonical(w, fmt) ==> !(y.Value() < w.Value() < z.Value())
    ensures y.Value() < z.Value() ==> y.sig % 2 == 1 || z.sig % 2 == 1
  {
    hide Scaled, Format.MinScale, Pow2;
    PowerStep(fmt.mant + 1);
    if y.Value() < z.Value() && y.sig % 2 == 0 {
      var next := Magnitude(y.sig + 1, y.exp);
      Gap(y, z, fmt);
      NextPlace(y.sig, y.exp);
      UnitPositive(y.exp);
      CanonicalUnique(z, next, fmt);
    }
  }

  /** `_round_pack` depends on its mantissa and scale only through their value. */
  lemma RoundPackOfValue(sign: Sign, m1: nat, s1: int, m2: nat, s2: int, rm: Rounding, fmt: Format)
    requires fmt.Valid() && m1 > 0 && m2 > 0 && Scaled(m1, s1) == Scaled(m2, s2)
    ensures RoundPack(sign, m1, s1, rm, fmt) == RoundPack(sign, m2, s2, rm, fmt)
  {
    hide RoundPack, Scaled, RoundsTo, Pack, Delivers;
    var y1 := RoundPackCorrect(sign, m1, s1, rm, fmt);
    var y2 := RoundPackCorrect(sign, m2, s2, rm, fmt);
    RoundsToUnique(fmt, DirectionOf(rm, sign), Scaled(m1, s1), y1, y2);
  }
}
