/** Conversions between 32-bit floats and 16-bit halves, on their bit patterns (IEEE 754-2008, section 3.4). */
module HalfFloat {
  import opened Bits

  type Half = h: int | 0 <= h < 0x1_0000

  // The fields put together below never share a bit, so every OR of the program is a sum here.

  function Sign(val: u32): nat { val / 0x8000_0000 }

  function Exponent(val: u32): nat { val / 0x80_0000 % 0x100 }

  function Mantissa(val: u32): nat { val % 0x80_0000 }

  function FloatToHalf(val: u32): Half {
    var mant := val / 0x2000 % 0x400;
    var sign := val / 0x8000_0000 * 0x8000;
    var texp := val / 0x80_0000 % 0x100;
    var exp := texp % 0x10 * 0x400 + if texp >= 0x80 then 0x4000 else 0;
    sign + mant + exp
  }

  function HalfToFloat(half: Half): u32 {
    var low := half / 0x400 % 0x10 * 0x80;
    var exp :=
      if half / 0x4000 % 2 == 1 then low + 0x4000
      else if low != 0 then low + 0x3800
      else low;
    half / 0x8000 * 0x8000_0000 + half % 0x400 * 0x2000 + exp * 0x1_0000
  }

  /** The bits with the low 13 of the mantissa cleared. */
  function Truncated(val: u32): u32 { val - val % 0x2000 }

  /** A word put together from its fields. */
  lemma Fields(val: u32)
    ensures val == Sign(val) * 0x8000_0000 + Exponent(val) * 0x80_0000 + Mantissa(val)
    ensures Sign(val) <= 1 && Exponent(val) < 0x100 && Mantissa(val) < 0x80_0000
  {
    ModSplit(val, 0x80_0000, 0x100);
    assert val / 0x80_0000 / 0x100 == Sign(val);
  }

  lemma HalfFields(half: Half)
    ensures var s, e, m := half / 0x8000, half / 0x400 % 0x20, half % 0x400;
      && half == s * 0x8000 + e * 0x400 + m && s <= 1 && e < 0x20
      && half / 0x400 % 0x10 == e % 0x10 && half / 0x4000 % 2 == e / 0x10
  {
    var t := half / 0x400;
    assert half / 0x8000 == t / 0x20 && half / 0x4000 == t / 0x10;
    ModSplit(t, 0x10, 2);
  }

  /** The half with sign s, exponent field e and mantissa m. */
  lemma ExpandHalf(half: Half, s: nat, e: nat, m: nat)
    requires s <= 1 && e < 0x20 && m < 0x400 && half == s * 0x8000 + e * 0x400 + m
    ensures HalfToFloat(half) ==
      s * 0x8000_0000 + (if e == 0 then 0 else e + 112) * 0x80_0000 + m * 0x2000
  {
    HalfFields(half);
    assert half / 0x8000 == s && half % 0x400 == m && half / 0x400 % 0x20 == e;
  }

  /** The float with sign s, exponent field e and mantissa m. */
  lemma ShrinkFloat(val: u32, s: nat, e: nat, m: nat)
    requires s <= 1 && e < 0x100 && m < 0x80_0000 && val == s * 0x8000_0000 + e * 0x80_0000 + m
    ensures Sign(val) == s && Exponent(val) == e && Mantissa(val) == m
    ensures FloatToHalf(val) == s * 0x8000 + (e % 0x10 + if e >= 0x80 then 0x10 else 0) * 0x400 + m / 0x2000
  {
    assert val / 0x80_0000 == s * 0x100 + e;
    assert val / 0x2000 == s * 0x4_0000 + e * 0x400 + m / 0x2000;
  }

  /** Half to float and back is the identity on every half. */
  lemma HalfRoundTrip(half: Half)
    ensures FloatToHalf(HalfToFloat(half)) == half
  {
    hide FloatToHalf, HalfToFloat;
    HalfFields(half);
    var s, e, m := half / 0x8000, half / 0x400 % 0x20, half % 0x400;
    var e' := if e == 0 then 0 else e + 112;
    ExpandHalf(half, s, e, m);
    ShrinkFloat(HalfToFloat(half), s, e', m * 0x2000);
  }

  predicate HalfRange(val: u32) { Exponent(val) == 0 || 113 <= Exponent(val) <= 143 }

  /** Through half and back a float loses exactly its low 13 mantissa bits, precisely when its exponent
      field is 0 or one of 113 to 143. */
  lemma TruncatesIff(val: u32)
    ensures HalfToFloat(FloatToHalf(val)) == Truncated(val) <==> HalfRange(val)
  {
    hide FloatToHalf, HalfToFloat;
    Fields(val);
    var s, e, m := Sign(val), Exponent(val), Mantissa(val);
    var h := e % 0x10 + if e >= 0x80 then 0x10 else 0;
    ShrinkFloat(val, s, e, m);
    ExpandHalf(FloatToHalf(val), s, h, m / 0x2000);
    assert val % 0x2000 == m % 0x2000;
  }

  /** The bits of a float below its sign: they order magnitudes. */
  function Absolute(val: u32): nat { val % 0x8000_0000 }

  /** The half's value has the sign of the float and is the largest among all halves no larger in magnitude. */
  ghost predicate RoundedDown(val: u32) {
    var t := HalfToFloat(FloatToHalf(val));
    && Sign(t) == Sign(val) && Absolute(t) <= Absolute(val)
    && forall half: Half :: Absolute(HalfToFloat(half)) <= Absolute(val) ==> Absolute(HalfToFloat(half)) <= Absolute(t)
  }

  /** Outside HalfRange the exponent is cut, which only comes out right where the nearest half is all ones. */
  predicate LuckyCut(val: u32) {
    var e := Exponent(val);
    Mantissa(val) / 0x2000 == 0x3FF && ((1 <= e <= 112 && e % 16 == 0) || (e >= 144 && e % 16 == 15))
  }

  /** Rounding is toward zero exactly for exponent fields 0 and 113 to 143, and for the all-ones mantissas
      whose cut exponent happens to be that of the nearest half below. */
  lemma RoundsTowardZero(val: u32)
    ensures RoundedDown(val) <==> HalfRange(val) || LuckyCut(val)
  {
    hide FloatToHalf, HalfToFloat, RoundedDown, LuckyCut;
    if HalfRange(val) {
      RoundedInRange(val);
    } else if Exponent(val) <= 112 {
      RoundedBelow(val);
    } else {
      RoundedAbove(val);
    }
  }

  lemma RoundedInRange(val: u32)
    requires HalfRange(val)
    ensures RoundedDown(val)
  {
    hide FloatToHalf, HalfToFloat, HalfRange, Truncated, Sign;
    TruncatesIff(val);
    forall half: Half
      ensures Absolute(HalfToFloat(half)) <= Absolute(val) ==> Absolute(HalfToFloat(half)) <= Absolute(Truncated(val))
    {
      NoLowBits(half);
      LowBitsClear(HalfToFloat(half), val);
    }
    LowBitsClear(0, val);
  }

  lemma HalfValue(half: Half)
    ensures var e, m := half / 0x400 % 0x20, half % 0x400;
      Absolute(HalfToFloat(half)) == (if e == 0 then 0 else e + 112) * 0x80_0000 + m * 0x2000
  {
    hide HalfToFloat;
    HalfFields(half);
    ExpandHalf(half, half / 0x8000, half / 0x400 % 0x20, half % 0x400);
  }

  /** The value of a float's half, field by field. */
  lemma ThroughHalf(val: u32)
    ensures
      var e := Exponent(val);
      var h := e % 0x10 + if e >= 0x80 then 0x10 else 0;
      && Sign(HalfToFloat(FloatToHalf(val))) == Sign(val)
      && Absolute(HalfToFloat(FloatToHalf(val)))
        == (if h == 0 then 0 else h + 112) * 0x80_0000 + Mantissa(val) / 0x2000 * 0x2000
  {
    hide FloatToHalf, HalfToFloat;
    Fields(val);
    var s, e, m := Sign(val), Exponent(val), Mantissa(val);
    ShrinkFloat(val, s, e, m);
    ExpandHalf(FloatToHalf(val), s, e % 0x10 + if e >= 0x80 then 0x10 else 0, m / 0x2000);
  }

  lemma AbsoluteFields(val: u32)
    ensures Absolute(val) == Exponent(val) * 0x80_0000 + Mantissa(val) && Mantissa(val) < 0x80_0000
  {
    Fields(val);
  }

  /** Between the largest subnormal half and the smallest normal one. */
  lemma RoundedBelow(val: u32)
    requires 1 <= Exponent(val) <= 112
    ensures RoundedDown(val) <==> LuckyCut(val)
  {
    hide FloatToHalf, HalfToFloat, Absolute, Sign, Exponent, Mantissa;
    AbsoluteFields(val);
    ThroughHalf(val);
    HalfValue(0x3FF);
    forall half: Half
      ensures Absolute(HalfToFloat(half)) <= Absolute(val) ==> Absolute(HalfToFloat(half)) <= 0x7F_E000
    {
      HalfValue(half);
      HalfFields(half);
    }
  }

  /** Above the largest half. */
  lemma RoundedAbove(val: u32)
    requires 144 <= Exponent(val)
    ensures RoundedDown(val) <==> LuckyCut(val)
  {
    hide FloatToHalf, HalfToFloat, Absolute, Sign, Exponent, Mantissa;
    AbsoluteFields(val);
    ThroughHalf(val);
    HalfValue(0x7FFF);
    forall half: Half ensures Absolute(HalfToFloat(half)) <= 0x47FF_E000 {
      HalfValue(half);
      HalfFields(half);
    }
  }

  lemma NoLowBits(half: Half)
    ensures HalfToFloat(half) % 0x2000 == 0
  {
    hide HalfToFloat;
    HalfFields(half);
    ExpandHalf(half, half / 0x8000, half / 0x400 % 0x20, half % 0x400);
  }

  lemma LowBitsClear(a: u32, val: u32)
    requires a % 0x2000 == 0
    ensures a % 0x8000_0000 <= val % 0x8000_0000 ==> a % 0x8000_0000 <= Truncated(val) % 0x8000_0000
    ensures Truncated(val) % 0x8000_0000 <= val % 0x8000_0000 && Sign(Truncated(val)) == Sign(val)
  {
    hide Truncated, Sign;
    TruncatedParts(val);
    MultipleBelow(a % 0x8000_0000, val % 0x8000_0000);
  }

  lemma TruncatedParts(val: u32)
    ensures Truncated(val) % 0x8000_0000 == val % 0x8000_0000 - val % 0x8000_0000 % 0x2000
    ensures Sign(Truncated(val)) == Sign(val)
  {
    var y := val % 0x8000_0000;
    assert y % 0x2000 == val % 0x2000;
    assert Truncated(val) == Sign(val) * 0x8000_0000 + (y - y % 0x2000);
  }

  lemma MultipleBelow(x: nat, y: nat)
    ensures x % 0x2000 == 0 && x <= y ==> x <= y - y % 0x2000
  {
  }

  // ---------------------------------------------------------------- real values

  /** 2 to the power e. */
  function Scale(e: int): (r: real)
    ensures r > 0.0
  {
    if e >= 0 then Pow2(e) as real else 1.0 / (Pow2(-e) as real)
  }

  function Fraction(val: u32): real { Mantissa(val) as real / 8388608.0 }

  /** The magnitude of a normal float. */
  function Magnitude(val: u32): real
    requires 1 <= Exponent(val) <= 254
  {
    Times(Scale(Exponent(val) - 127), 1.0 + Fraction(val))
  }

  /** Products kept apart from the arithmetic around them. */
  function Times(s: real, x: real): real { s * x }

  lemma ScaledGap(s: real, x: real, y: real)
    requires s > 0.0 && 0.0 <= y <= x && (x - y) * 1024.0 < 1.0
    ensures Times(s, 1.0 + y) <= Times(s, 1.0 + x)
    ensures (Times(s, 1.0 + x) - Times(s, 1.0 + y)) * 1024.0 < Times(s, 1.0 + x)
  {
    var p, q := s * x, s * y;
    assert Times(s, 1.0 + x) == s + p && Times(s, 1.0 + y) == s + q;
    var gap := 1.0 - (x - y) * 1024.0;
    assert 0.0 < s * gap == s - (p - q) * 1024.0;
    assert 0.0 <= p && 0.0 <= s * (x - y) == p - q;
  }

  lemma FractionGap(u: u32, v: u32)
    requires Mantissa(v) <= Mantissa(u) < Mantissa(v) + 0x2000
    ensures 0.0 <= Fraction(v) <= Fraction(u) && (Fraction(u) - Fraction(v)) * 1024.0 < 1.0
  {
  }

  /** The half of a normal float is no larger in magnitude and off by less than one part in 1024. */
  lemma RelativeError(val: u32)
    requires 113 <= Exponent(val) <= 143
    ensures var t := HalfToFloat(FloatToHalf(val));
      && Sign(t) == Sign(val) && Exponent(t) == Exponent(val)
      && Magnitude(t) <= Magnitude(val)
      && (Magnitude(val) - Magnitude(t)) * 1024.0 < Magnitude(val)
  {
    hide FloatToHalf, HalfToFloat, Scale, Fraction, Truncated, Exponent, Mantissa, Sign, Times;
    TruncatesIff(val);
    TruncatedFields(val);
    FractionGap(val, Truncated(val));
    ScaledGap(Scale(Exponent(val) - 127), Fraction(val), Fraction(Truncated(val)));
  }

  lemma TruncatedFields(val: u32)
    ensures Sign(Truncated(val)) == Sign(val) && Exponent(Truncated(val)) == Exponent(val)
    ensures Mantissa(Truncated(val)) <= Mantissa(val) < Mantissa(Truncated(val)) + 0x2000
  {
    hide FloatToHalf;
    Fields(val);
    var m := Mantissa(val);
    assert val % 0x2000 == m % 0x2000;
    ShrinkFloat(Truncated(val), Sign(val), Exponent(val), m - m % 0x2000);
  }
}
