/** The helpers of bigint_kernel_1 that take two records, and the shift by many bits. */
module LongHelpers {
  import opened Basics
  import opened Digits
  import opened Records

  // ---- comparison ---------------------------------------------------------------------------

  /** The first difference from the top decides between two numbers of one length. */
  predicate LessFromTop(a: seq<Word>, b: seq<Word>)
    requires |a| == |b|
  {
    var n := |a|;
    n > 0 && (a[n - 1] < b[n - 1] || (a[n - 1] == b[n - 1] && LessFromTop(a[..n - 1], b[..n - 1])))
  }

  /** What is_less_than answers: fewer words is less, then the first difference from the top. */
  predicate LessWords(a: seq<Word>, b: seq<Word>) {
    |a| < |b| || (|a| == |b| && LessFromTop(a, b))
  }

  lemma {:induction false} LessFromTopIsLess(a: seq<Word>, b: seq<Word>)
    requires |a| == |b|
    ensures LessFromTop(a, b) <==> Value(a) < Value(b)
  {
    var n := |a|;
    if n > 0 {
      LessFromTopIsLess(a[..n - 1], b[..n - 1]);
      ValueExtend(a, n - 1); ValueExtend(b, n - 1);
      assert a[..n] == a && b[..n] == b;
      if a[n - 1] < b[n - 1] {
        TopWordDecides(a, b);
      } else if b[n - 1] < a[n - 1] {
        TopWordDecides(b, a);
      }
    }
  }

  /** On normal forms the comparison of words is the comparison of numbers. */
  lemma LessWordsIsLess(a: seq<Word>, b: seq<Word>)
    requires Normal(a) && Normal(b)
    ensures LessWords(a, b) <==> Value(a) < Value(b)
    ensures a == b <==> Value(a) == Value(b)
  {
    if |a| < |b| {
      ShorterIsSmaller(a, b);
    } else if |b| < |a| {
      ShorterIsSmaller(b, a);
    } else {
      LessFromTopIsLess(a, b);
    }
    if Value(a) == Value(b) { NormalUnique(a, b); }
  }

  /** Words that stand for zero compare as more than zero, and as unequal to it, exactly if they are not in normal form. */
  lemma ZeroMiscompares(d: seq<Word>)
    requires d != [] && Value(d) == 0
    ensures LessWords([0], d) <==> !Normal(d)
    ensures d == [0] <==> Normal(d)
  {
    ValueZeros([0]);
    assert LessFromTop([0], [0]) == false;
    if Normal(d) { NormalUnique(d, [0]); }
    hide Value;
  }

  method IsLessThan(lhs: DataRecord, rhs: DataRecord) returns (less: bool)
    requires lhs.Shape() && rhs.Shape()
    ensures less == LessWords(lhs.Digits(), rhs.Digits())
    ensures lhs.Valid() && rhs.Valid() ==> (less <==> lhs.Val() < rhs.Val())
  {
    ghost var a, b := lhs.Digits(), rhs.Digits();
    if lhs.Valid() && rhs.Valid() { LessWordsIsLess(a, b); }
    var n, m := lhs.digitsUsed, rhs.digitsUsed;
    if n < m {
      return true;
    } else if n > m {
      return false;
    }
    var i := n;
    assert a[..n] == a && b[..n] == b;
    while i != 0
      invariant 0 <= i <= n && LessFromTop(a, b) == LessFromTop(a[..i], b[..i])
    {
      i := i - 1;
      assert a[..i + 1][..i] == a[..i] && b[..i + 1][..i] == b[..i];
      if lhs.number[i] < rhs.number[i] {
        return true;
      } else if lhs.number[i] > rhs.number[i] {
        return false;
      }
    }
    return false;
  }

  method IsEqualTo(lhs: DataRecord, rhs: DataRecord) returns (equal: bool)
    requires lhs.Shape() && rhs.Shape()
    ensures equal == (lhs.Digits() == rhs.Digits())
    ensures lhs.Valid() && rhs.Valid() ==> (equal <==> lhs.Val() == rhs.Val())
  {
    if lhs.Valid() && rhs.Valid() { LessWordsIsLess(lhs.Digits(), rhs.Digits()); }
    if lhs.digitsUsed != rhs.digitsUsed {
      return false;
    }
    var i := 0;
    while i != lhs.digitsUsed
      invariant 0 <= i <= lhs.digitsUsed && lhs.Digits()[..i] == rhs.Digits()[..i]
    {
      if lhs.number[i] != rhs.number[i] {
        assert lhs.Digits()[i] != rhs.Digits()[i];
        return false;
      }
      i := i + 1;
    }
    return true;
  }

  /** A number times zero, compared with zero: more, and not equal, if and only if the number has more than one word. */
  method ZeroProductMiscompares(data: DataRecord, result: DataRecord, zero: DataRecord) returns (more: bool, equal: bool)
    requires data.Valid() && result.Shape() && Apart(data, result) && result.size >= data.digitsUsed + 1
    requires zero.Valid() && zero.Val() == 0 && zero != result && zero.number != result.number
    modifies result`digitsUsed, result.number
    ensures result.Shape() && result.Val() == 0
    ensures more <==> old(data.digitsUsed) > 1
    ensures equal <==> old(data.digitsUsed) == 1
  {
    ZeroMiscompares(zero.Digits());
    ShortMul(data, 0, result);
    ZeroMiscompares(result.Digits());
    more := IsLessThan(zero, result);
    equal := IsEqualTo(zero, result);
  }

  // ---- addition -------------------------------------------------------------------------------

  ghost predicate AddSoFar(a: seq<Word>, b: seq<Word>, now: seq<Word>, i: nat, carry: nat) {
    && i <= |a| && i <= |now| && carry <= 1
    && Value(now[..i]) + Power(i) * carry == Value(a[..i]) + Value(Upto(b, i))
  }

  lemma AddSoFarStart(a: seq<Word>, b: seq<Word>, now: seq<Word>)
    ensures AddSoFar(a, b, now, 0, 0)
  {}

  lemma AddStep(a: seq<Word>, b: seq<Word>, now: seq<Word>, i: nat, carry: nat, t: nat, low: Word)
    requires AddSoFar(a, b, now, i, carry) && i < |a| && i < |now|
    requires t == a[i] + (if i < |b| then b[i] else 0) + carry && low == t % BASE
    ensures AddSoFar(a, b, now[i := low], i + 1, t / BASE)
  {
    hide Power, Value, Upto;
    var now' := now[i := low];
    var p, y := Power(i), if i < |b| then b[i] else 0;
    ValueExtend(a, i);
    ValueExtend(now', i);
    assert now'[..i] == now[..i];
    UptoExtend(b, i);
    PowerNext(i);
    CarryStep(p, t, low, t / BASE);
    var x: int, y': int := a[i], y;
    Distribute(p, x + y', carry);
    Distribute(p, x, y');
  }

  lemma AddTotal(a: seq<Word>, b: seq<Word>, now: seq<Word>, carry: Word)
    requires AddSoFar(a, b, now, |a|, carry) && |b| <= |a| <= |now|
    ensures Value(now[..|a|]) + (if carry == 0 then 0 else Power(|a|)) == Value(a) + Value(b)
    ensures carry <= 1
  {
    hide Power, Value;
    var n := |a|;
    assert a[..n] == a;
    assert Upto(b, n) == b by { if |b| == n { assert b[..n] == b; } }
    TimesBit(Power(n), carry);
  }

  lemma AppendOne(s: seq<Word>, n: nat)
    requires n < |s|
    ensures Value(s[n := 1][..n + 1]) == Value(s[..n]) + Power(n)
  {
    hide Power, Value;
    ValueSnoc(s[..n], 1);
    MulZero(Power(n));
    assert s[n := 1][..n + 1] == s[..n] + [1];
  }

  lemma AddDone(a: seq<Word>, b: seq<Word>, now: seq<Word>, carry: Word)
    requires Normal(a) && AddSoFar(a, b, now, |a|, carry) && |b| <= |a| <= |now|
    requires |a| < |now| || Value(a) + Value(b) < Power(|now|)
    ensures carry != 0 ==> |a| < |now| && Value(now[|a| := carry][..|a| + 1]) == Value(a) + Value(b)
    ensures carry == 0 ==> Value(now[..|a|]) == Value(a) + Value(b) && Normal(now[..|a|])
  {
    hide Power, Value, AddSoFar;
    var n := |a|;
    AddTotal(a, b, now, carry);
    if carry == 0 {
      if n > 1 {
        NormalLower(a);
        NormalIfLarge(now[..n]);
      }
    } else {
      assert n < |now|;
      AppendOne(now, n);
    }
  }

  /** The two loops of long_add, once the longer operand is known. */
  method AddColumns(min: DataRecord, max: DataRecord, result: DataRecord, m: nat, n: nat,
                    ghost b: seq<Word>, ghost a: seq<Word>) returns (carry: Word)
    requires Apart(min, result) && Apart(max, result) && m == |b| <= n == |a|
    requires m <= min.number.Length && n <= max.number.Length && n <= result.number.Length
    requires min.number[..m] == b && max.number[..n] == a
    modifies result.number
    ensures AddSoFar(a, b, result.number[..], n, carry)
  {
    hide Power, Value, AddSoFar, Unread;
    ghost var inA, inB := max == result, min == result;
    AddSoFarStart(a, b, result.number[..]);
    UnreadStart(a, max.number[..]);
    UnreadStart(b, min.number[..]);
    var temp: nat := 0;
    var i := 0;
    while i != m
      invariant 0 <= i <= m && temp / BASE <= 1
      invariant Unread(a, max.number[..], i) && Unread(b, min.number[..], i)
      invariant AddSoFar(a, b, result.number[..], i, temp / BASE)
    {
      ghost var before, fromA, fromB, c := result.number[..], max.number[..], min.number[..], temp / BASE;
      temp := min.number[i] + max.number[i] + temp / BASE;
      var low: Word := temp % BASE;
      UnreadNext(a, fromA, i, low, inA);
      UnreadNext(b, fromB, i, low, inB);
      AddStep(a, b, before, i, c, temp, low);
      result.number[i] := low;
      assert result.number[..] == before[i := low];
      assert !inA ==> max.number[..] == fromA;
      assert !inB ==> min.number[..] == fromB;
      i := i + 1;
    }
    while i != n
      invariant m <= i <= n && temp / BASE <= 1 && Unread(a, max.number[..], i)
      invariant AddSoFar(a, b, result.number[..], i, temp / BASE)
    {
      ghost var before, fromA, c := result.number[..], max.number[..], temp / BASE;
      temp := max.number[i] + temp / BASE;
      var low: Word := temp % BASE;
      UnreadNext(a, fromA, i, low, inA);
      AddStep(a, b, before, i, c, temp, low);
      result.number[i] := low;
      assert result.number[..] == before[i := low];
      assert !inA ==> max.number[..] == fromA;
      i := i + 1;
    }
    carry := temp / BASE;
  }

  /** Room for one word more than the longer operand, or for the sum itself. */
  ghost predicate RoomForSum(a: seq<Word>, b: seq<Word>, size: nat) {
    && size >= |a| && size >= |b|
    && ((size > |a| && size > |b|) || Value(a) + Value(b) < Power(size))
  }

  /**
   * long_add: result = lhs + rhs. The result may be either operand or both.
   */
  method LongAdd(lhs: DataRecord, rhs: DataRecord, result: DataRecord)
    requires lhs.Valid() && rhs.Valid() && result.Shape()
    requires Apart(lhs, result) && Apart(rhs, result)
    requires RoomForSum(lhs.Digits(), rhs.Digits(), result.size)
    modifies result`digitsUsed, result.number
    ensures result.Valid() && result.Val() == old(lhs.Val()) + old(rhs.Val())
  {
    hide Power, Value, AddSoFar;
    var min, max := rhs, lhs;
    if lhs.digitsUsed < rhs.digitsUsed {
      min, max := lhs, rhs;
    }
    var m, n := min.digitsUsed, max.digitsUsed;
    ghost var b, a := min.Digits(), max.Digits();
    var carry := AddColumns(min, max, result, m, n, b, a);
    AddDone(a, b, result.number[..], carry);
    if carry != 0 {
      ghost var next := result.number[..][n := carry];
      result.digitsUsed := n + 1;
      result.number[n] := carry;
      assert result.Digits() == next[..n + 1];
    } else {
      result.digitsUsed := n;
      assert result.Digits() == result.number[..][..n];
    }
  }

  // ---- shift to the left ------------------------------------------------------------------------

  function Pow2(k: nat): (r: nat)
    ensures r >= 1
  {
    if k == 0 then 1 else 2 * Pow2(k - 1)
  }

  lemma {:induction false} Pow2Add(a: nat, b: nat)
    ensures Pow2(a + b) == Pow2(a) * Pow2(b)
  {
    if a > 0 {
      Pow2Add(a - 1, b);
      MulAssoc(2, Pow2(a - 1), Pow2(b));
    }
  }

  lemma Pow2Sixteen()
    ensures Pow2(16) == BASE
  {
    assert Pow2(4) == 16;
    Pow2Add(4, 4); Pow2Add(8, 8);
  }

  lemma {:induction false} Pow2Words(n: nat)
    ensures Pow2(16 * n) == Power(n)
  {
    if n > 0 {
      Pow2Words(n - 1);
      Pow2Add(16, 16 * (n - 1));
      Pow2Sixteen();
    }
  }

  /** The bits of x << k that stay in its word, and those that leave it. */
  function Low(x: Word, k: nat): Word { (x * Pow2(k)) % BASE }

  function High(x: Word, k: nat): (r: Word)
    requires k < 16
  {
    var p := Pow2(16 - k);
    DivAtMost(x, p);
    x / p
  }

  lemma DivAtMost(x: nat, d: nat)
    requires d > 0
    ensures 0 <= x / d <= x
  {
    FundamentalDivMod(x, d);
    if x / d > x { MulLess(x / d, 1, d); }
  }

  lemma ShiftSplits(x: Word, k: nat)
    requires k < 16
    ensures x * Pow2(k) == Low(x, k) + BASE * High(x, k)
    ensures High(x, k) < Pow2(k) && Low(x, k) + Pow2(k) <= BASE
  {
    hide Pow2;
    Pow2Add(k, 16 - k);
    Pow2Sixteen();
    ShiftArithmetic(x, Pow2(k), Pow2(16 - k));
  }

  lemma ShiftArithmetic(x: Word, p: nat, l: nat)
    requires p * l == BASE && p >= 1 && l >= 1
    ensures x * p == (x * p) % BASE + BASE * (x / l)
    ensures x / l < p && (x * p) % BASE + p <= BASE
  {
    var q, r := x / l, x % l;
    FundamentalDivMod(x, l);
    SplitProduct(x, q, l, r, p);
    MulLess(p, r, l - 1);
    Distribute(p, l, -1);
    DivisionUnique(x * p, BASE, q, r * p);
    DivBelow(x, l, p);
  }

  lemma SplitProduct(x: int, q: int, l: int, r: int, p: int)
    requires x == q * l + r && p * l == BASE
    ensures x * p == q * BASE + r * p && r * p == p * r && l * p == BASE
  {
    assert (q * l) * p == q * (p * l);
  }

  /** Word i of d << k, counted from the word offset. */
  function ShiftedWord(d: seq<Word>, k: nat, i: nat): Word
    requires |d| > 0 && i <= |d| && k < 16
  {
    if i == |d| then High(d[i - 1], k)
    else if i == 0 then Low(d[0], k)
    else Joined(d[i], d[i - 1], k)
  }

  /** The two parts share no bit, so the `|` that joins them is their sum. */
  function Joined(x: Word, below: Word, k: nat): Word
    requires k < 16
  {
    ShiftSplits(x, k);
    ShiftSplits(below, k);
    Low(x, k) + High(below, k)
  }

  /** Value of the shifted words, with c coming in from below. */
  lemma {:induction false} ShiftedValue(d: seq<Word>, k: nat, c: nat, r: seq<Word>)
    requires |d| > 0 && k < 16 && |r| == |d| + 1
    requires r[0] == Low(d[0], k) + c
    requires forall i :: 0 < i <= |d| ==> r[i] == ShiftedWord(d, k, i)
    ensures Value(r) == Value(d) * Pow2(k) + c
  {
    hide Pow2, Low, High;
    ShiftSplits(d[0], k);
    var v := Value(d[1..]);
    assert (d[0] + BASE * v) * Pow2(k) == d[0] * Pow2(k) + BASE * (v * Pow2(k)) by {
      ShiftDistribute(d[0], v, Pow2(k));
    }
    if |d| == 1 {
      assert r[1..] == [High(d[0], k)];
      ValueSingle(High(d[0], k));
    } else {
      forall i | 0 < i <= |d| - 1 ensures r[1..][i] == ShiftedWord(d[1..], k, i) {
        assert r[i + 1] == ShiftedWord(d, k, i + 1);
      }
      assert r[1] == ShiftedWord(d, k, 1) == Low(d[1], k) + High(d[0], k);
      ShiftedValue(d[1..], k, High(d[0], k), r[1..]);
    }
  }

  lemma ShiftDistribute(a: int, v: int, p: int)
    ensures (a + BASE * v) * p == a * p + BASE * (v * p)
  {}

  /** Words above s are shifted into place; words up to s can still be read. */
  ghost predicate ShiftLeftSoFar(d: seq<Word>, k: nat, offset: nat, source: seq<Word>, now: seq<Word>, s: nat)
    requires |d| > 0 && k < 16
  {
    && s <= |d| && |d| + offset < |now| && s <= |source| && source[..s] == d[..s]
    && forall i :: s <= i <= |d| ==> now[i + offset] == ShiftedWord(d, k, i)
  }

  lemma ShiftLeftStep(d: seq<Word>, k: nat, offset: nat, source: seq<Word>, now: seq<Word>, s: nat, inPlace: bool)
    requires |d| > 0 && k < 16 && 0 < s && (inPlace ==> source == now)
    requires ShiftLeftSoFar(d, k, offset, source, now, s)
    ensures s - 1 + offset < |now| && source[s - 1] == d[s - 1] && (s > 1 ==> source[s - 2] == d[s - 2])
    ensures
      var next := now[s - 1 + offset := ShiftedWord(d, k, s - 1)];
      ShiftLeftSoFar(d, k, offset, if inPlace then next else source, next, s - 1)
  {
    hide ShiftedWord;
    var next := now[s - 1 + offset := ShiftedWord(d, k, s - 1)];
    var source' := if inPlace then next else source;
    assert source[..s][s - 1] == d[..s][s - 1];
    if s > 1 { assert source[..s][s - 2] == d[..s][s - 2]; }
    assert source'[..s - 1] == source[..s][..s - 1] == d[..s - 1];
  }

  lemma ShiftLeftDone(d: seq<Word>, k: nat, offset: nat, now: seq<Word>)
    requires Normal(d) && k < 16 && |d| + offset < |now|
    requires forall i :: 0 <= i <= |d| ==> now[i + offset] == ShiftedWord(d, k, i)
    requires forall i :: 0 <= i < offset ==> now[i] == 0
    ensures
      var used := if now[|d| + offset] == 0 then |d| + offset else |d| + offset + 1;
      && Value(now[..used]) == Value(d) * Pow2(16 * offset + k)
      && (Normal(now[..used]) <==> Value(d) > 0 || offset == 0)
  {
    hide Pow2, Low, High, Value, Power;
    var n := |d|;
    var all := now[..n + offset + 1];
    var r := all[offset..];
    assert r[0] == now[0 + offset] == ShiftedWord(d, k, 0) == Low(d[0], k) + 0;
    forall i | 0 < i <= n ensures r[i] == ShiftedWord(d, k, i) {
      assert r[i] == now[i + offset];
    }
    ShiftedValue(d, k, 0, r);
    ValueSplit(all, offset);
    ValueZeros(all[..offset]);
    Pow2Words(offset);
    Pow2Add(16 * offset, k);
    ShiftReorder(Power(offset), Value(d), Pow2(k));
    assert Value(all) == Value(d) * Pow2(16 * offset + k);
    if now[n + offset] == 0 {
      DropZero(all, n + offset + 1);
      assert all[..n + offset + 1] == all && all[..n + offset] == now[..n + offset];
      ShiftLeftNormal(d, k, offset, now);
    }
    ValueZeroIff(d);
    assert now[n + offset] == ShiftedWord(d, k, n) == High(d[n - 1], k);
    HighOfZero(k);
  }

  lemma HighOfZero(k: nat)
    requires k < 16
    ensures High(0, k) == 0 && Low(0, k) == 0
  {
    ShiftSplits(0, k);
  }

  lemma ShiftReorder(a: int, b: int, c: int)
    ensures a * (b * c) == b * (a * c)
  {}

  lemma ValueZeroIff(d: seq<Word>)
    requires Normal(d)
    ensures Value(d) > 0 <==> d[|d| - 1] != 0
  {
    if |d| > 1 { NormalLower(d); } else { ValueSingle(d[0]); assert d == [d[0]]; }
  }

  /** When no bit leaves the top word, a nonzero top word stays nonzero. */
  lemma ShiftLeftNormal(d: seq<Word>, k: nat, offset: nat, now: seq<Word>)
    requires Normal(d) && k < 16 && |d| + offset < |now|
    requires forall i :: 0 <= i <= |d| ==> now[i + offset] == ShiftedWord(d, k, i)
    requires forall i :: 0 <= i < offset ==> now[i] == 0
    requires now[|d| + offset] == 0
    ensures Normal(now[..|d| + offset]) <==> Value(d) > 0 || offset == 0
  {
    hide Pow2, Low, High, Value, Power;
    var n := |d|;
    ValueZeroIff(d);
    assert now[n + offset] == ShiftedWord(d, k, n) == High(d[n - 1], k);
    assert now[n - 1 + offset] == ShiftedWord(d, k, n - 1);
    ShiftSplits(d[n - 1], k);
    HighOfZero(k);
    if d[n - 1] != 0 {
      AtLeastOnce(d[n - 1], Pow2(k));
      assert Low(d[n - 1], k) > 0;
    }
  }

  /**
   * shift_left: result = data * 2^shiftAmount. The result may be data itself. The words are in
   * normal form exactly when data is not zero or is not moved by a whole word.
   */
  method ShiftLeft(data: DataRecord, result: DataRecord, shiftAmount: nat)
    requires data.Valid() && result.Shape() && Apart(data, result)
    requires result.size >= data.digitsUsed + shiftAmount / 16 + 1
    modifies result`digitsUsed, result.number
    ensures result.Shape() && result.Val() == old(data.Val()) * Pow2(shiftAmount)
    ensures result.Valid() <==> old(data.Val()) > 0 || shiftAmount < 16
    ensures result.digitsUsed <= old(data.digitsUsed) + shiftAmount / 16 + 1
  {
    hide Pow2, Value, Power, ShiftLeftSoFar;
    ghost var d := data.Digits();
    ghost var inPlace := data == result;
    var offset, k := shiftAmount / 16, shiftAmount % 16;
    assert 16 * offset + k == shiftAmount;
    var n := data.digitsUsed;
    ghost var before, source := result.number[..], data.number[..];
    ShiftLeftStart(d, k, offset, source, before, inPlace);
    result.number[n + offset] := High(data.number[n - 1], k);
    assert result.number[..] == before[n + offset := ShiftedWord(d, k, n)];
    assert !inPlace ==> data.number[..] == source;
    if result.number[n + offset] == 0 {
      result.digitsUsed := n + offset;
    } else {
      result.digitsUsed := n + offset + 1;
    }
    ShiftLeftColumns(data, result, n, k, offset, d);
    assert result.Digits() == result.number[..][..result.digitsUsed];
    ShiftLeftDone(d, k, offset, result.number[..]);
  }

  lemma ShiftLeftStart(d: seq<Word>, k: nat, offset: nat, source: seq<Word>, now: seq<Word>, inPlace: bool)
    requires |d| > 0 && k < 16 && |d| + offset < |now| && |d| <= |source| && source[..|d|] == d
    requires inPlace ==> source == now
    ensures source[|d| - 1] == d[|d| - 1]
    ensures
      var next := now[|d| + offset := ShiftedWord(d, k, |d|)];
      ShiftLeftSoFar(d, k, offset, if inPlace then next else source, next, |d|)
  {
    hide ShiftedWord;
    var next := now[|d| + offset := ShiftedWord(d, k, |d|)];
    var source' := if inPlace then next else source;
    assert source[..|d|][|d| - 1] == d[|d| - 1];
    assert source'[..|d|] == source[..|d|] == d[..|d|];
  }

  /** The loops of shift_left below the top word. */
  method ShiftLeftColumns(data: DataRecord, result: DataRecord, n: nat, k: nat, offset: nat, ghost d: seq<Word>)
    requires Apart(data, result) && n == |d| > 0 && k < 16
    requires n <= data.number.Length && n + offset < result.number.Length
    requires ShiftLeftSoFar(d, k, offset, data.number[..], result.number[..], n)
    modifies result.number
    ensures forall i :: 0 <= i <= n ==> result.number[..][i + offset] == ShiftedWord(d, k, i)
    ensures forall i :: 0 <= i < offset ==> result.number[..][i] == 0
    ensures result.number[n + offset] == old(result.number[n + offset])
  {
    hide Pow2, ShiftLeftSoFar, Low, High;
    ghost var inPlace := data == result;
    var s := n - 1;
    while s != 0
      invariant 0 <= s < n
      invariant ShiftLeftSoFar(d, k, offset, data.number[..], result.number[..], s + 1)
      invariant result.number[n + offset] == old(result.number[n + offset])
    {
      ghost var before, source := result.number[..], data.number[..];
      ShiftLeftStep(d, k, offset, source, before, s + 1, inPlace);
      result.number[s + offset] := Joined(data.number[s], data.number[s - 1], k);
      assert result.number[..] == before[s + offset := ShiftedWord(d, k, s)];
      assert !inPlace ==> data.number[..] == source;
      s := s - 1;
    }
    ghost var before, source := result.number[..], data.number[..];
    ShiftLeftStep(d, k, offset, source, before, 1, inPlace);
    result.number[offset] := Low(data.number[0], k);
    assert result.number[..] == before[0 + offset := ShiftedWord(d, k, 0)];
    ShiftLeftRead(d, k, offset, if inPlace then result.number[..] else source, result.number[..]);
    ghost var shifted := result.number[..];
    var r := offset;
    while r != 0
      invariant 0 <= r <= offset
      invariant result.number[offset..] == shifted[offset..]
      invariant forall i :: r <= i < offset ==> result.number[..][i] == 0
    {
      r := r - 1;
      result.number[r] := 0;
    }
    forall i | 0 <= i <= n ensures result.number[..][i + offset] == ShiftedWord(d, k, i) {
      assert result.number[offset..][i] == shifted[offset..][i];
    }
    assert result.number[offset..][n] == shifted[offset..][n];
  }

  lemma ShiftLeftRead(d: seq<Word>, k: nat, offset: nat, source: seq<Word>, now: seq<Word>)
    requires |d| > 0 && k < 16 && ShiftLeftSoFar(d, k, offset, source, now, 0)
    ensures |d| + offset < |now|
    ensures forall i :: 0 <= i <= |d| ==> now[i + offset] == ShiftedWord(d, k, i)
  {}
}
