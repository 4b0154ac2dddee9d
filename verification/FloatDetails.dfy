/** float_details: a mantissa and a power of two, with the zero bytes of the mantissa taken off. */
module FloatDetails {
  import opened PackedIntegers
  import opened Serialization

  function TwoTo(e: int): real
    decreases if e < 0 then -e else e
  {
    if e == 0 then 1.0 else if e > 0 then 2.0 * TwoTo(e - 1) else TwoTo(e + 1) / 2.0
  }

  /** The number that mantissa and exponent stand for. */
  function Number(mantissa: int, exponent: int): real {
    mantissa as real * TwoTo(exponent)
  }

  lemma TwoToNext(e: int)
    ensures TwoTo(e + 1) == 2.0 * TwoTo(e)
  {}

  lemma TwoToByte(e: int)
    ensures TwoTo(e + 8) == 256.0 * TwoTo(e)
  {
    hide TwoTo;
    TwoToNext(e); TwoToNext(e + 1); TwoToNext(e + 2); TwoToNext(e + 3);
    TwoToNext(e + 4); TwoToNext(e + 5); TwoToNext(e + 6); TwoToNext(e + 7);
  }

  /** A zero byte less in the mantissa is eight more in the exponent. */
  lemma ByteOff(mantissa: int, exponent: int)
    requires mantissa % 256 == 0
    ensures Number(mantissa / 256, exponent + 8) == Number(mantissa, exponent)
  {
    TwoToByte(exponent);
    hide TwoTo;
    var q := mantissa / 256;
    assert mantissa == 256 * q;
    assert mantissa as real == 256.0 * q as real;
    Regroup(q as real, TwoTo(exponent));
  }

  lemma Regroup(q: real, t: real)
    ensures (256.0 * q) * t == q * (256.0 * t)
  {}

  function Span(n: nat): (r: nat)
    ensures r >= 1
  {
    if n == 0 then 1 else 256 * Span(n - 1)
  }

  /** m is below 128 times 256 to the power of n - 1, on either side. */
  ghost predicate InBytes(m: int, n: nat) {
    if n == 0 then m == 0 else 0 <= 2 * m + Span(n) && 2 * m < Span(n)
  }

  lemma Shrinks(m: int, n: nat)
    requires n >= 1 && InBytes(m, n) && m % 256 == 0
    ensures InBytes(m / 256, n - 1)
  {
    assert m == 256 * (m / 256);
  }

  /** What is left when zero bytes go from the mantissa to the exponent, `room` of them at most. */
  function Compacted(mantissa: int, exponent: int, room: nat): (int, int)
    decreases room
  {
    if room > 0 && mantissa % 256 == 0 then Compacted(mantissa / 256, exponent + 8, room - 1) else (mantissa, exponent)
  }

  /** The number stays what it is, and a mantissa of eight bytes that is not zero ends with a byte that is not. */
  lemma {:induction false} CompactedKeeps(mantissa: int, exponent: int, room: nat)
    ensures var (m, e) := Compacted(mantissa, exponent, room);
      && Number(m, e) == Number(mantissa, exponent) && exponent <= e <= exponent + 8 * room
      && (mantissa == 0 ==> m == 0 && e == exponent + 8 * room)
      && (mantissa != 0 && InBytes(mantissa, room) ==> m % 256 != 0)
      && (mantissa >= 0 ==> 0 <= m <= mantissa) && (mantissa < 0 ==> mantissa <= m < 0)
    decreases room
  {
    hide Number;
    if room > 0 && mantissa % 256 == 0 {
      ByteOff(mantissa, exponent);
      if InBytes(mantissa, room) { Shrinks(mantissa, room); }
      CompactedKeeps(mantissa / 256, exponent + 8, room - 1);
    }
  }

  /** The loop of convert_from_T: at most eight zero bytes go. */
  method Compact(mantissa0: int, exponent0: int) returns (mantissa: int, exponent: int)
    requires -0x8000_0000_0000_0000 <= mantissa0 < 0x8000_0000_0000_0000
    ensures (mantissa, exponent) == Compacted(mantissa0, exponent0, 8)
    ensures Number(mantissa, exponent) == Number(mantissa0, exponent0)
    ensures mantissa0 != 0 ==> mantissa % 256 != 0
  {
    CompactedKeeps(mantissa0, exponent0, 8);
    assert InBytes(mantissa0, 8);
    hide Number;
    mantissa, exponent := mantissa0, exponent0;
    var i := 0;
    while i < 8 && mantissa % 256 == 0
      invariant 0 <= i <= 8 && Compacted(mantissa, exponent, 8 - i) == Compacted(mantissa0, exponent0, 8)
    {
      mantissa := mantissa / 256;
      exponent := exponent + 8;
      i := i + 1;
    }
  }

  // ---- the conversions ---------------------------------------------------------------------------

  /** A floating point number; zero with a sign is one of its own. */
  datatype Float = Finite(x: real) | NegativeZero | Infinity | MinusInfinity | NotANumber

  const IS_INF := 32000
  const IS_NINF := 32001
  const IS_NAN := 32002

  predicate IsFinite(val: Float) { val.Finite? || val.NegativeZero? }

  /** convert_from_T; mantissa and exponent are those frexp gives for a finite number. */
  function ConvertFrom(val: Float, mantissa: int, exponent: int): (int, int) {
    match val
    case Infinity => (0, IS_INF)
    case MinusInfinity => (0, IS_NINF)
    case Finite(x) => Compacted(mantissa, exponent, 8)
    case NegativeZero => Compacted(mantissa, exponent, 8)
    case NotANumber => (0, IS_NAN)
  }

  function ConvertTo(mantissa: int, exponent: int): Float {
    if exponent < IS_INF then Finite(Number(mantissa, exponent))
    else if exponent == IS_INF then Infinity
    else if exponent == IS_NINF then MinusInfinity
    else NotANumber
  }

  /** Any mantissa with the exponents 32000, 32001 and those above is infinity, minus infinity, not a number. */
  lemma Marks(m: int, e: int)
    ensures ConvertTo(m, 32000) == Infinity && ConvertTo(m, 32001) == MinusInfinity
    ensures e >= 32002 ==> ConvertTo(m, e) == NotANumber
    ensures e < 32000 ==> ConvertTo(m, e) == Finite(m as real * TwoTo(e))
    ensures TwoTo(0) == 1.0 && TwoTo(8) == 256.0 && TwoTo(-8) == 1.0 / 256.0
  {
    TwoToByte(0);
    TwoToByte(-8);
  }

  /** What stands in a file for the numbers that are none, byte by byte. */
  lemma MarksWritten(m: int, e: int)
    ensures var (i, j) := ConvertFrom(Infinity, m, e); Written(FloatValue(i, j)) == [1, 0, 2, 0x00, 0x7D]
    ensures var (i, j) := ConvertFrom(MinusInfinity, m, e); Written(FloatValue(i, j)) == [1, 0, 2, 0x01, 0x7D]
    ensures var (i, j) := ConvertFrom(NotANumber, m, e); Written(FloatValue(i, j)) == [1, 0, 2, 0x02, 0x7D]
  {
    assert IntCode(0) == [1, 0];
    assert LittleEndian(32000) == [0x00] + LittleEndian(0x7D);
    assert LittleEndian(32001) == [0x01] + LittleEndian(0x7D);
    assert LittleEndian(32002) == [0x02] + LittleEndian(0x7D);
  }

  /** What frexp and the multiplication by 2^digits give: mantissa times 2^exponent is the number, in the ranges of its type. */
  ghost predicate Splits(val: Float, mantissa: int, exponent: int) {
    IsFinite(val) ==>
      && (if val.Finite? then val.x == Number(mantissa, exponent) else mantissa == 0)
      && -0x8000_0000_0000_0000 <= mantissa < 0x8000_0000_0000_0000 && -32768 <= exponent < IS_INF - 64
  }

  /** A double has 53 bits and exponents up to 1024, so it is far from the three marks; so is a long double. */
  lemma DoubleSplits(x: real, mantissa: int, exp: int, digits: nat)
    requires digits <= 63 && -16445 <= exp <= 16384
    requires -0x8000_0000_0000_0000 <= mantissa < 0x8000_0000_0000_0000
    requires x == Number(mantissa, exp - digits)
    ensures Splits(Finite(x), mantissa, exp - digits)
  {}

  /** What comes back of a number: the sign of zero is lost. */
  function Unsigned(val: Float): Float { if val.NegativeZero? then Finite(0.0) else val }

  /**
   * Every number, the infinities and "not a number" come back from what is written for them, in any
   * surroundings, but for zero with a sign, which comes back without it.
   */
  lemma FloatRoundTrip(val: Float, mantissa: int, exponent: int, before: Bytes, after: Bytes)
    requires Splits(val, mantissa, exponent)
    ensures var (m, e) := ConvertFrom(val, mantissa, exponent);
      var v := FloatValue(m, e);
      && Has(FloatType, v) && (e < IS_INF <==> IsFinite(val))
      && ReadValue(FloatType, before + Written(v) + after, |before|) == Have(v, |before| + |Written(v)|)
      && ConvertTo(m, e) == Unsigned(val)
  {
    hide Number, Compacted, Written, ReadValue, Fits;
    var (m, e) := ConvertFrom(val, mantissa, exponent);
    ConvertedBack(val, mantissa, exponent);
    WidthsHold(m, e);
    ValueReadBack(FloatType, FloatValue(m, e), before, after);
  }

  lemma ConvertedBack(val: Float, mantissa: int, exponent: int)
    requires Splits(val, mantissa, exponent)
    ensures var (m, e) := ConvertFrom(val, mantissa, exponent);
      && -0x8000_0000_0000_0000 <= m < 0x8000_0000_0000_0000 && -32768 <= e < 32768
      && (e < IS_INF <==> IsFinite(val)) && ConvertTo(m, e) == Unsigned(val)
  {
    CompactedKeeps(mantissa, exponent, 8);
    ZeroNumber(ConvertFrom(val, mantissa, exponent).1);
    hide Number, Compacted;
  }

  lemma ZeroNumber(e: int)
    ensures Number(0, e) == 0.0
  {}

  /** A double, or any type of up to 63 bits with the exponents of a long double, comes back as the number it was. */
  lemma DoubleRoundTrip(x: real, mantissa: int, exp: int, digits: nat, before: Bytes, after: Bytes)
    requires digits <= 63 && -16445 <= exp <= 16384
    requires -0x8000_0000_0000_0000 <= mantissa < 0x8000_0000_0000_0000
    requires x == Number(mantissa, exp - digits)
    ensures var (m, e) := ConvertFrom(Finite(x), mantissa, exp - digits);
      var v := FloatValue(m, e);
      && ReadValue(FloatType, before + Written(v) + after, |before|) == Have(v, |before| + |Written(v)|)
      && ConvertTo(m, e) == Finite(x)
  {
    hide Number, Compacted, Written, ReadValue, Fits, ConvertFrom, ConvertTo, Splits, Has;
    DoubleSplits(x, mantissa, exp, digits);
    FloatRoundTrip(Finite(x), mantissa, exp - digits, before, after);
  }

  /** Half of m, towards zero. */
  function HalfTowardsZero(m: int): int { if m < 0 then -((-m) / 2) else m / 2 }

  /** A long double has 64 bits, of which 63 are kept: its number is kept if and only if the last bit is zero. */
  lemma LongDoubleKept(m: int, e: int)
    ensures Number(HalfTowardsZero(m), e + 1) == Number(m, e) <==> m % 2 == 0
  {
    TwoToNext(e);
    TwoToPositive(e);
    var h, t := HalfTowardsZero(m), TwoTo(e);
    hide TwoTo;
    Halves(h as real, m as real, t);
    assert 2.0 * h as real == (2 * h) as real;
  }

  lemma Halves(h: real, m: real, t: real)
    requires t > 0.0
    ensures h * (2.0 * t) == m * t <==> 2.0 * h == m
  {
    assert h * (2.0 * t) == (2.0 * h) * t;
    assert (2.0 * h) * t - m * t == (2.0 * h - m) * t;
    Cancels(2.0 * h - m, t);
  }

  lemma Cancels(d: real, t: real)
    requires t > 0.0
    ensures d * t == 0.0 <==> d == 0.0
  {}

  lemma {:induction false} TwoToPositive(e: int)
    ensures TwoTo(e) > 0.0
    decreases if e < 0 then -e else e
  {
    if e > 0 { TwoToPositive(e - 1); } else if e < 0 { TwoToPositive(e + 1); }
  }

  lemma WidthsHold(m: int, e: int)
    ensures -0x8000_0000_0000_0000 <= m < 0x8000_0000_0000_0000 <==> Fits(m, 8, true)
    ensures -32768 <= e < 32768 <==> Fits(e, 2, true)
  {
    assert Half(2) == 32768;
    PowSeven();
  }

  lemma PowSeven()
    ensures Half(8) == 0x8000_0000_0000_0000
  {
    assert Pow256(3) == 0x100_0000;
    assert Pow256(5) == 256 * 256 * Pow256(3);
    assert Pow256(7) == 256 * 256 * Pow256(5);
  }
}
