/** Division and multiplication of two records. */
module LongArithmetic {
  import opened Digits
  import opened Records
  import opened LongHelpers

  /** The extra words every new record is given. */
  const SLACK := 25

  // ---- long division --------------------------------------------------------------------------

  /** remainder := lhs, the copy loop at the start of long_div. */
  method CopyWords(lhs: DataRecord, remainder: DataRecord)
    requires lhs.Valid() && remainder.Shape() && lhs.number != remainder.number
    requires remainder.size >= lhs.digitsUsed
    modifies remainder`digitsUsed, remainder.number
    ensures remainder.Valid() && remainder.Digits() == lhs.Digits()
  {
    remainder.digitsUsed := lhs.digitsUsed;
    var i := 0;
    while i != remainder.digitsUsed
      invariant 0 <= i <= lhs.digitsUsed == remainder.digitsUsed
      invariant remainder.number[..i] == lhs.number[..i] && lhs.Digits() == old(lhs.Digits())
    {
      remainder.number[i] := lhs.number[i];
      i := i + 1;
    }
  }

  /** The first normalising loop: shift left while temp is less than lhs. */
  method ShiftUp(lhs: DataRecord, temp: DataRecord, shifts0: nat, ghost r: nat) returns (shifts: nat)
    requires lhs.Valid() && temp.Valid() && temp.size >= lhs.digitsUsed + SLACK
    requires temp.number != lhs.number && temp != lhs
    requires temp.Val() == r * Pow2(shifts0) && temp.Val() > 0
    modifies temp`digitsUsed, temp.number
    ensures temp.Valid() && temp.Val() == r * Pow2(shifts)
    ensures temp.Val() >= lhs.Val() && temp.Val() > 0
  {
    hide Pow2, Value, Power;
    ghost var l := lhs.Val();
    shifts := shifts0;
    var less := IsLessThan(temp, lhs);
    while less
      invariant temp.Valid() && temp.Val() == r * Pow2(shifts) && temp.Val() > 0
      invariant less <==> temp.Val() < l
      decreases l - temp.Val()
    {
      LengthFromOrder(temp.Digits(), lhs.Digits());
      Pow2Step(r, shifts);
      Pow2One();
      ShiftLeft(temp, temp, 1);
      shifts := shifts + 1;
      less := IsLessThan(temp, lhs);
    }
  }

  /** The second normalising loop: shift right while temp is more than lhs. */
  method ShiftDown(lhs: DataRecord, temp: DataRecord, shifts0: nat, ghost r: nat) returns (shifts: nat)
    requires lhs.Valid() && temp.Valid()
    requires temp.number != lhs.number && temp != lhs
    requires temp.Val() == r * Pow2(shifts0) && lhs.Val() < 2 * temp.Val() && 0 < r <= lhs.Val()
    modifies temp`digitsUsed, temp.number
    ensures temp.Valid() && temp.Val() == r * Pow2(shifts)
    ensures temp.Val() <= lhs.Val() < 2 * temp.Val()
  {
    hide Pow2, Value, Power;
    ghost var l := lhs.Val();
    shifts := shifts0;
    var less := IsLessThan(lhs, temp);
    while less
      invariant temp.Valid() && temp.Val() == r * Pow2(shifts) && l < 2 * temp.Val()
      invariant less <==> l < temp.Val()
      decreases shifts
    {
      ShiftsLeft(r, shifts, l);
      ShiftRight(temp, temp);
      shifts := shifts - 1;
      less := IsLessThan(lhs, temp);
    }
  }

  /** A divisor that is still more than lhs has been shifted, so there is a shift to undo. */
  lemma ShiftsLeft(r: nat, shifts: nat, l: nat)
    requires r <= l < r * Pow2(shifts)
    ensures shifts > 0 && r * Pow2(shifts) == 2 * (r * Pow2(shifts - 1))
  {
    if shifts == 0 { Pow2Zero(r); } else { Pow2Step(r, shifts - 1); }
  }

  /**
   * The normalising loops together: the divisor is shifted until it is at most lhs and its
   * double is more, and shifts counts by how many bits; it never counts below zero.
   */
  method Normalise(lhs: DataRecord, rhs: DataRecord, temp: DataRecord) returns (shifts: nat)
    requires lhs.Valid() && rhs.Valid() && temp.Shape() && temp.size >= lhs.digitsUsed + SLACK
    requires temp.number != lhs.number && temp.number != rhs.number && temp != lhs && temp != rhs
    requires 0 < rhs.Val() <= lhs.Val()
    modifies temp`digitsUsed, temp.number
    ensures temp.Valid() && temp.Val() == rhs.Val() * Pow2(shifts)
    ensures temp.Val() <= lhs.Val() < 2 * temp.Val()
  {
    hide Pow2, Value, Power;
    ghost var r := rhs.Val();
    LengthFromOrder(rhs.Digits(), lhs.Digits());
    shifts := (lhs.digitsUsed - rhs.digitsUsed) * 16;
    Pow2Positive(r, shifts);
    ShiftLeft(rhs, temp, shifts);
    shifts := ShiftUp(lhs, temp, shifts, r);
    shifts := ShiftDown(lhs, temp, shifts, r);
  }

  lemma Pow2Positive(r: nat, k: nat)
    requires r > 0
    ensures r * Pow2(k) > 0
  {
    AtLeastOnce(r, Pow2(k));
  }

  lemma Pow2Step(r: nat, k: nat)
    ensures r * Pow2(k + 1) == 2 * (r * Pow2(k))
  {
    assert Pow2(k + 1) == 2 * Pow2(k);
    assert r * (2 * Pow2(k)) == 2 * (r * Pow2(k));
  }

  lemma Pow2One()
    ensures Pow2(1) == 2
  {}

  lemma Pow2Zero(r: nat)
    ensures r * Pow2(0) == r
  {
    MulZero(r);
  }

  /** One bit of the quotient: what is divided stays quotient * divisor + remainder. */
  lemma QuotientBit(l: nat, q: nat, t: nat, rem: nat)
    requires l == q * (2 * t) + rem && rem < 2 * t
    ensures rem < t ==> l == (2 * q) * t + rem
    ensures rem >= t ==> l == (2 * q + 1) * t + (rem - t) && rem - t < t
    ensures t > 0 ==> 2 * q <= l && (rem >= t ==> 2 * q + 1 <= l)
  {
    assert q * (2 * t) == (2 * q) * t;
    assert (2 * q + 1) * t == (2 * q) * t + t;
    if t > 0 {
      AtLeast(2 * q, t);
    }
  }

  lemma AtLeast(a: nat, t: nat)
    requires t > 0
    ensures a * t >= a
  {
    MulLess(a, 1, t);
  }

  /** long_div: result = lhs / rhs and remainder = lhs % rhs, by shifting and subtracting. */
  method LongDiv(lhs: DataRecord, rhs: DataRecord, result: DataRecord, remainder: DataRecord)
    requires lhs.Valid() && rhs.Valid() && result.Shape() && remainder.Shape()
    requires result.number != remainder.number && result != remainder
    requires result != lhs && result != rhs && result.number != lhs.number && result.number != rhs.number
    requires remainder != lhs && remainder != rhs && remainder.number != lhs.number && remainder.number != rhs.number
    requires result.size >= lhs.digitsUsed + 1 && remainder.size >= lhs.digitsUsed
    requires rhs.Val() > 0
    modifies result`digitsUsed, result.number, remainder`digitsUsed, remainder.number
    ensures result.Valid() && result.Val() == lhs.Val() / rhs.Val()
    ensures remainder.Valid() && remainder.Val() == lhs.Val() % rhs.Val()
  {
    hide Pow2, Value, Power;
    ghost var l, r := lhs.Val(), rhs.Val();
    result.digitsUsed := 1;
    result.number[0] := 0;
    assert result.Digits() == [0];
    ValueSingle(0);
    CopyWords(lhs, remainder);
    var less := IsLessThan(lhs, rhs);
    if less {
      DivisionUnique(l, r, 0, l);
      return;
    }
    var temp := new DataRecord(lhs.digitsUsed + SLACK);
    var shifts := Normalise(lhs, rhs, temp);
    Pow2Step(r, shifts);
    shifts := shifts + 1;
    QuotientLoop(lhs, rhs, result, remainder, temp, shifts);
  }

  /** The main loop of long_div: one bit of the quotient for each shift, from the top. */
  method QuotientLoop(lhs: DataRecord, rhs: DataRecord, result: DataRecord, remainder: DataRecord,
                      temp: DataRecord, shifts0: nat)
    requires lhs.Valid() && rhs.Valid() && result.Valid() && remainder.Valid() && temp.Valid()
    requires result.number != remainder.number && result != remainder
    requires temp.number != remainder.number && temp != remainder && temp.number != result.number && temp != result
    requires {lhs, rhs} !! {result, remainder, temp}
    requires {lhs.number, rhs.number} !! {result.number, remainder.number, temp.number}
    requires result.size >= lhs.digitsUsed + 1
    requires result.Val() == 0 && remainder.Val() == lhs.Val() && rhs.Val() > 0 && shifts0 > 0
    requires temp.Val() == rhs.Val() * Pow2(shifts0 - 1) && lhs.Val() < 2 * temp.Val()
    modifies result`digitsUsed, result.number, remainder`digitsUsed, remainder.number, temp`digitsUsed, temp.number
    ensures result.Valid() && result.Val() == lhs.Val() / rhs.Val()
    ensures remainder.Valid() && remainder.Val() == lhs.Val() % rhs.Val()
  {
    hide Pow2, Value, Power;
    ghost var l, r := lhs.Val(), rhs.Val();
    var shifts := shifts0;
    // the divisor moved by shifts bits, which is twice what temp holds
    ghost var t := r * Pow2(shifts);
    Pow2Step(r, shifts - 1);
    while shifts != 0
      invariant lhs.Valid() && lhs.Val() == l && t == r * Pow2(shifts)
      invariant result.Valid() && remainder.Valid() && temp.Valid()
      invariant l == result.Val() * t + remainder.Val() && remainder.Val() < t
      invariant temp.Val() == t / 2
      decreases shifts
    {
      Pow2Step(r, shifts - 1);
      t := r * Pow2(shifts - 1);
      Pow2Positive(r, shifts - 1);
      QuotientRound(lhs, result, remainder, temp, t);
      ShiftRight(temp, temp);
      shifts := shifts - 1;
    }
    Pow2Zero(r);
    DivisionUnique(l, r, result.Val(), remainder.Val());
  }

  /** One round: the quotient gains a bit, and if it is 1 the shifted divisor is taken off. */
  method QuotientRound(lhs: DataRecord, result: DataRecord, remainder: DataRecord, temp: DataRecord, ghost t: nat)
    requires lhs.Valid() && result.Valid() && remainder.Valid() && temp.Valid()
    requires result.number != remainder.number && result != remainder
    requires temp.number != remainder.number && temp != remainder && temp.number != result.number && temp != result
    requires lhs !in {result, remainder, temp} && lhs.number !in {result.number, remainder.number, temp.number}
    requires result.size >= lhs.digitsUsed + 1 && t > 0 && temp.Val() == t
    requires lhs.Val() == result.Val() * (2 * t) + remainder.Val() && remainder.Val() < 2 * t
    modifies result`digitsUsed, result.number, remainder`digitsUsed, remainder.number
    ensures result.Valid() && remainder.Valid()
    ensures lhs.Val() == result.Val() * t + remainder.Val() && remainder.Val() < t
  {
    hide Pow2, Value, Power;
    ghost var l, q, rem := lhs.Val(), result.Val(), remainder.Val();
    QuotientBit(l, q, t, rem);
    LengthFromOrder(result.Digits(), lhs.Digits());
    ShiftLeft(result, result, 1);
    Pow2One();
    var less := IsLessThan(remainder, temp);
    if !less {
      LongSub(remainder, temp, remainder);
      LengthFromOrder(result.Digits(), lhs.Digits());
      // the source writes the loop of increment out here
      Increment(result, result);
    }
  }

  // ---- long multiplication ----------------------------------------------------------------------

  /**
   * After pos bits of the smaller operand, whose value is low: the result is low * big, and b is
   * big shifted by pos bits but for the last shift bits, which are still owed.
   */
  ghost predicate MulState(big: nat, low: nat, pos: nat, bVal: nat, shift: nat, sum: nat) {
    shift <= pos && bVal * Pow2(shift) == big * Pow2(pos) && sum == low * big
  }

  lemma OneMoreBit(big: nat, low: nat, pos: nat, bVal: nat, shift: nat, sum: nat)
    requires MulState(big, low, pos, bVal, shift, sum)
    ensures MulState(big, low, pos + 1, bVal, shift + 1, sum)
  {
    Pow2Step(bVal, shift);
    Pow2Step(big, pos);
  }

  /** b never outgrows its record, and is only zero when it is shifted by less than a word. */
  lemma RoomToShift(b: seq<Word>, big: nat, pos: nat, shift: nat, m: nat, n: nat)
    requires Normal(b) && shift <= pos < 16 * m && big < Power(n)
    requires Value(b) * Pow2(shift) == big * Pow2(pos)
    requires big == 0 ==> m == 1
    ensures |b| + shift / 16 + 1 <= n + m + SLACK
    ensures Value(b) > 0 || shift < 16
  {
    hide Power, Pow2, Value;
    if big > 0 {
      Pow2Positive(big, pos);
      if Value(b) == 0 { MulZeroLeft(Pow2(shift)); }
    }
    if |b| > 1 {
      NormalLower(b);
      var w := shift / 16;
      Pow2Words(w);
      Pow2Monotone(16 * w, shift);
      Pow2Words(m);
      Pow2Monotone(pos, 16 * m);
      PowerAdd(|b| - 1, w);
      PowerAdd(n, m);
      ProductMonotone(Power(|b| - 1), Power(w), Value(b), Pow2(shift));
      ProductMonotoneStrict(big, Pow2(pos), Power(n), Power(m));
      if |b| - 1 + w >= n + m { PowerMonotone(n + m, |b| - 1 + w); }
    }
  }

  lemma MulZeroLeft(p: int)
    ensures 0 * p == 0
  {}

  lemma {:induction false} Pow2Monotone(a: nat, b: nat)
    requires a <= b
    ensures Pow2(a) <= Pow2(b)
  {
    if a < b { Pow2Monotone(a, b - 1); }
  }

  lemma ProductMonotone(a: nat, b: nat, c: nat, d: nat)
    requires a <= c && b <= d
    ensures a * b <= c * d
  {
    MulLess(a, b, d);
    MulLess(d, a, c);
  }

  lemma ProductMonotoneStrict(a: nat, b: nat, c: nat, d: nat)
    requires a < c && b <= d && d > 0
    ensures a * b < c * d
  {
    MulLess(a, b, d);
    MulLess(d, a + 1, c);
    Distribute(d, a, 1);
  }

  /** A bit that is set: b catches up with the shifts it owes and is added to the result. */
  method AddBit(b: DataRecord, result: DataRecord, shift: nat,
                ghost big: nat, ghost low: nat, ghost pos: nat, ghost m: nat, ghost n: nat)
    requires b.Valid() && result.Valid() && b != result && b.number != result.number
    requires MulState(big, low, pos, b.Val(), shift, result.Val())
    requires pos < 16 * m && big < Power(n) && b.size == n + m + SLACK && (big == 0 ==> m == 1)
    requires (low + Pow2(pos)) * big < Power(result.size)
    modifies b`digitsUsed, b.number, result`digitsUsed, result.number
    ensures b.Valid() && result.Valid()
    ensures MulState(big, low + Pow2(pos), pos, b.Val(), 0, result.Val())
  {
    hide Power, Pow2, Value, MulState;
    MulStateMeans(big, low, pos, b.Val(), shift, result.Val());
    RoomToShift(b.Digits(), big, pos, shift, m, n);
    ShiftLeft(b, b, shift);
    MulStateAdd(big, low, pos, b.Val(), result.Val());
    FitsFromValue(b.Digits(), result.size);
    FitsFromValue(result.Digits(), result.size);
    LongAdd(b, result, result);
  }

  lemma MulStateMeans(big: nat, low: nat, pos: nat, bVal: nat, shift: nat, sum: nat)
    requires MulState(big, low, pos, bVal, shift, sum)
    ensures shift <= pos && bVal * Pow2(shift) == big * Pow2(pos) && sum == low * big
  {}

  lemma MulStateAdd(big: nat, low: nat, pos: nat, bVal: nat, sum: nat)
    requires bVal == big * Pow2(pos) && sum == low * big
    ensures bVal + sum == (low + Pow2(pos)) * big
    ensures MulState(big, low + Pow2(pos), pos, bVal, 0, bVal + sum)
  {
    Distribute(big, low, Pow2(pos));
    Pow2Zero(bVal);
  }

  lemma FitsFromValue(s: seq<Word>, n: nat)
    requires Normal(s) && n >= 1 && Value(s) < Power(n)
    ensures |s| <= n
  {
    LengthFromValue(s, n);
  }

  /** The part of the smaller operand that i words and j bits of the next word make up. */
  ghost function LowPart(a: seq<Word>, i: nat, j: nat): nat
    requires i < |a|
  {
    Value(a[..i]) + Power(i) * (a[i] % Pow2(j))
  }

  lemma LowPartBit(a: seq<Word>, i: nat, j: nat)
    requires i < |a| && j < 16
    ensures (a[i] / Pow2(j)) % 2 == 0 ==> LowPart(a, i, j + 1) == LowPart(a, i, j)
    ensures (a[i] / Pow2(j)) % 2 == 1 ==> LowPart(a, i, j + 1) == LowPart(a, i, j) + Pow2(16 * i + j)
  {
    hide Power, Pow2, Value;
    BitOfRemainder(a[i], j);
    Pow2Words(i);
    Pow2Add(16 * i, j);
    if (a[i] / Pow2(j)) % 2 == 1 {
      Distribute(Power(i), a[i] % Pow2(j), Pow2(j));
    }
  }

  lemma BitOfRemainder(x: nat, j: nat)
    ensures x % Pow2(j + 1) == x % Pow2(j) + (if (x / Pow2(j)) % 2 == 1 then Pow2(j) else 0)
  {
    var p := Pow2(j);
    var q, r := x / p, x % p;
    FundamentalDivMod(x, p);
    var h, bit := q / 2, q % 2;
    assert Pow2(j + 1) == 2 * p;
    HalfProduct(x, h, bit, p, r);
    TimesBit(p, bit);
    DivisionUnique(x, 2 * p, h, bit * p + r);
  }

  lemma HalfProduct(x: int, h: int, bit: int, p: int, r: int)
    requires x == (2 * h + bit) * p + r
    ensures x == h * (2 * p) + (bit * p + r) && bit * p == p * bit
  {
    assert (2 * h + bit) * p == (2 * h) * p + bit * p;
    assert (2 * h) * p == h * (2 * p);
  }

  lemma LowPartBounds(a: seq<Word>, i: nat, j: nat)
    requires i < |a| && j <= 16
    ensures LowPart(a, i, j) <= Value(a)
    ensures j == 0 ==> LowPart(a, i, j) == Value(a[..i])
    ensures j == 16 ==> LowPart(a, i, j) == Value(a[..i + 1])
  {
    hide Power, Pow2, Value;
    ValueExtend(a, i);
    ValueSplit(a, i + 1);
    NotNegative(Power(i + 1), Value(a[i + 1..]));
    FundamentalDivMod(a[i], Pow2(j));
    NotNegative(a[i] / Pow2(j), Pow2(j));
    MulLess(Power(i), a[i] % Pow2(j), a[i]);
    if j == 16 { Pow2Sixteen(); }
    if j == 0 { Pow2Nothing(); MulZero(Power(i)); }
  }

  lemma NotNegative(a: nat, b: nat)
    ensures a * b >= 0
  {}

  lemma Pow2Nothing()
    ensures Pow2(0) == 1
  {}

  /** The sixteen bits of word i of the smaller operand. */
  method MulWord(word: Word, b: DataRecord, result: DataRecord, shift0: nat,
                 ghost a: seq<Word>, ghost i: nat, ghost big: nat, ghost n: nat) returns (shift: nat)
    requires b.Valid() && result.Valid() && b != result && b.number != result.number
    requires i < |a| && word == a[i]
    requires MulState(big, Value(a[..i]), 16 * i, b.Val(), shift0, result.Val())
    requires big < Power(n) && b.size == n + |a| + SLACK && (big == 0 ==> |a| == 1)
    requires Value(a) * big < Power(result.size)
    modifies b`digitsUsed, b.number, result`digitsUsed, result.number
    ensures b.Valid() && result.Valid()
    ensures MulState(big, Value(a[..i + 1]), 16 * (i + 1), b.Val(), shift, result.Val())
  {
    hide Power, Pow2, Value, MulState, LowPart;
    shift := shift0;
    var bit := 1;
    var j := 0;
    LowPartBounds(a, i, 0);
    Pow2Nothing();
    while j < 16
      invariant 0 <= j <= 16 && bit == Pow2(j)
      invariant b.Valid() && result.Valid()
      invariant MulState(big, LowPart(a, i, j), 16 * i + j, b.Val(), shift, result.Val())
    {
      LowPartBit(a, i, j);
      // the bit of word that `word & bit` tests
      if (word / bit) % 2 == 1 {
        LowPartBounds(a, i, j + 1);
        MulLess(big, LowPart(a, i, j + 1), Value(a));
        AddBit(b, result, shift, big, LowPart(a, i, j), 16 * i + j, |a|, n);
        shift := 0;
      }
      OneMoreBit(big, LowPart(a, i, j + 1), 16 * i + j, b.Val(), shift, result.Val());
      shift := shift + 1;
      Pow2Next(j);
      bit := bit * 2;
      j := j + 1;
    }
    LowPartBounds(a, i, 16);
  }

  lemma Pow2Next(j: nat)
    ensures Pow2(j + 1) == Pow2(j) * 2
  {}

  /** long_mul of bigint_kernel_1: result = lhs * rhs, by shifting a copy and adding. */
  method LongMul(lhs: DataRecord, rhs: DataRecord, result: DataRecord)
    requires lhs.Valid() && rhs.Valid() && result.Shape()
    requires result != lhs && result != rhs && result.number != lhs.number && result.number != rhs.number
    requires result.size >= lhs.digitsUsed + rhs.digitsUsed
    modifies result`digitsUsed, result.number
    ensures result.Valid() && result.Val() == lhs.Val() * rhs.Val()
  {
    hide Power, Pow2, Value, MulState;
    result.digitsUsed := 1;
    result.number[0] := 0;
    assert result.Digits() == [0];
    ValueSingle(0);
    var aa, bb := rhs, lhs;
    if lhs.digitsUsed < rhs.digitsUsed {
      aa, bb := lhs, rhs;
    }
    ShiftAndAdd(aa, bb, result);
    Commute(lhs.Val(), rhs.Val());
  }

  lemma Commute(a: int, b: int)
    ensures a * b == b * a
  {}

  /** The loop of long_mul over the words of the operand with fewer words. */
  method ShiftAndAdd(aa: DataRecord, bb: DataRecord, result: DataRecord)
    requires aa.Valid() && bb.Valid() && result.Valid() && result.Val() == 0
    requires result != aa && result != bb && result.number != aa.number && result.number != bb.number
    requires aa.digitsUsed <= bb.digitsUsed && result.size >= aa.digitsUsed + bb.digitsUsed
    modifies result`digitsUsed, result.number
    ensures result.Valid() && result.Val() == aa.Val() * bb.Val()
  {
    hide Power, Pow2, Value, MulState;
    // the larger operand, with room for every shift
    var b := new DataRecord.Copy(bb, aa.digitsUsed + SLACK);
    ghost var a, big, n := aa.Digits(), bb.Val(), bb.digitsUsed;
    MulStart(a, bb.Digits(), result.size);
    var shift := 0;
    var i := 0;
    while i != aa.digitsUsed
      invariant 0 <= i <= aa.digitsUsed && aa.Digits() == a && b.Valid() && result.Valid()
      invariant MulState(big, Value(a[..i]), 16 * i, b.Val(), shift, result.Val())
    {
      shift := MulWord(aa.number[i], b, result, shift, a, i, big, n);
      i := i + 1;
    }
    assert a[..i] == a;
    MulStateMeans(big, Value(a), 16 * i, b.Val(), shift, result.Val());
  }

  lemma MulStart(a: seq<Word>, b: seq<Word>, size: nat)
    requires Normal(a) && Normal(b) && |a| <= |b| && size >= |a| + |b|
    ensures MulState(Value(b), Value(a[..0]), 0, Value(b), 0, 0)
    ensures Value(b) < Power(|b|) && (Value(b) == 0 ==> |a| == 1)
    ensures Value(a) * Value(b) < Power(size)
  {
    ValueBound(a);
    ValueBound(b);
    PowerAdd(|a|, |b|);
    ProductMonotoneStrict(Value(a), Value(b), Power(|a|), Power(|b|));
    PowerMonotone(|a| + |b|, size);
    if |b| > 1 { NormalLower(b); }
  }
}
