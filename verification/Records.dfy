/**
 * The digit record of bigint_kernel_1 and the helpers that work on its words in place.
 * A result record may be one of the operands; `Apart` says two records are one or disjoint.
 */
module Records {
  import opened Basics
  import opened Digits

  class DataRecord {
    const size: nat
    const number: array<Word>
    var references: nat
    var digitsUsed: nat

    /** A record that stands for zero, with room for size_ words. */
    constructor (size_: nat)
      requires size_ >= 1
      ensures Valid() && Val() == 0 && Digits() == [0] && size == size_ && references == 1
      ensures fresh(number)
    {
      size := size_;
      number := new Word[size_];
      references := 1;
      digitsUsed := 1;
      new;
      number[0] := 0;
      assert number[..1] == [0];
      ValueSingle(0);
    }

    /** A copy of item with room for more words. */
    constructor Copy(item: DataRecord, additionalSize: nat)
      requires item.Valid()
      ensures Valid() && Digits() == item.Digits() && size == item.digitsUsed + additionalSize
      ensures references == 1 && fresh(number)
    {
      size := item.digitsUsed + additionalSize;
      number := new Word[item.digitsUsed + additionalSize];
      references := 1;
      digitsUsed := item.digitsUsed;
      new;
      var i := 0;
      while i < digitsUsed
        invariant 0 <= i <= digitsUsed && digitsUsed == item.digitsUsed && references == 1
        invariant number[..i] == item.number[..i] && item.Digits() == old(item.Digits())
      {
        number[i] := item.number[i];
        i := i + 1;
      }
    }

    ghost predicate Shape()
      reads `digitsUsed
    {
      size == number.Length && 1 <= digitsUsed <= size
    }

    function Digits(): seq<Word>
      requires digitsUsed <= number.Length
      reads `digitsUsed, number
    {
      number[..digitsUsed]
    }

    ghost predicate Valid()
      reads `digitsUsed, number
      ensures Valid() ==> Shape()
    {
      Shape() && Normal(Digits())
    }

    ghost function Val(): nat
      requires Shape()
      reads `digitsUsed, number
    {
      Value(Digits())
    }
  }

  ghost predicate Apart(a: DataRecord, b: DataRecord) {
    a == b || a.number != b.number
  }

  /** The low 32 bits of x, as a C++ uint32 keeps them. */
  function Wrap32(x: int): (r: nat)
    ensures r < 0x1_0000_0000
  {
    x % 0x1_0000_0000
  }

  /** The words of d from i on, which a loop still has to read, stand unchanged in their array. */
  ghost predicate Unread(d: seq<Word>, source: seq<Word>, i: nat) {
    i <= |d| <= |source| && source[i..|d|] == d[i..]
  }

  lemma UnreadStart(d: seq<Word>, source: seq<Word>)
    requires |d| <= |source| && source[..|d|] == d
    ensures Unread(d, source, 0)
  {
    assert source[0..|d|] == d && d[0..] == d;
  }

  /** Writing word i, in the same array or in another one, leaves the words after it unread. */
  lemma UnreadNext(d: seq<Word>, source: seq<Word>, i: nat, x: Word, inPlace: bool)
    requires Unread(d, source, i) && i < |d|
    ensures i < |source| && source[i] == d[i]
    ensures Unread(d, if inPlace then source[i := x] else source, i + 1)
  {
    var next := if inPlace then source[i := x] else source;
    assert source[i..|d|][0] == d[i..][0];
    assert next[i + 1..|d|] == source[i..|d|][1..] == d[i..][1..] == d[i + 1..];
  }

  // ---- one word against many ------------------------------------------------------------

  /** A column sum written as a word and a carry. */
  lemma CarryStep(p: nat, t: int, low: int, high: int)
    requires t == low + BASE * high
    ensures p * t == p * low + (BASE * p) * high
  {
    assert p * (BASE * high) == (BASE * p) * high;
  }

  lemma Distribute(p: int, a: int, b: int)
    ensures p * (a + b) == p * a + p * b
  {}

  /** The loop of short_add after i words: what is written plus the carry is what was read plus value. */
  ghost predicate AddShortSoFar(d: seq<Word>, value: Word, now: seq<Word>, i: nat, carry: nat) {
    && i <= |d| && i <= |now| && carry < BASE && (i > 0 ==> carry <= 1) && (i == 0 ==> carry == value)
    && Value(now[..i]) + Power(i) * carry == Value(d[..i]) + value
  }

  lemma AddShortStep(d: seq<Word>, value: Word, now: seq<Word>, i: nat, carry: nat, t: nat, low: Word)
    requires AddShortSoFar(d, value, now, i, carry) && i < |d| && i < |now|
    requires t == d[i] + carry && low == t % BASE
    ensures AddShortSoFar(d, value, now[i := low], i + 1, t / BASE)
  {
    var now' := now[i := low];
    ValueExtend(d, i);
    ValueExtend(now', i);
    assert now'[..i] == now[..i];
    CarryStep(Power(i), t, low, t / BASE);
    Distribute(Power(i), d[i], carry);
  }

  /** short_add: result = data + value. The result may be data itself. */
  method ShortAdd(data: DataRecord, value: Word, result: DataRecord)
    requires data.Valid() && result.Shape() && Apart(data, result)
    requires result.size >= data.digitsUsed + 1
    modifies result`digitsUsed, result.number
    ensures result.Valid() && result.Val() == old(data.Val()) + value
  {
    hide Power, Value, Unread, AddShortSoFar;
    ghost var d, inPlace := data.Digits(), data == result;
    var n := data.digitsUsed;
    // the value enters as the carry into the first word
    var temp: nat := value * BASE;
    var i := 0;
    AddShortStart(d, value, result.number[..]);
    UnreadStart(d, data.number[..]);
    while i < n
      invariant 0 <= i <= n && Unread(d, data.number[..], i)
      invariant AddShortSoFar(d, value, result.number[..], i, temp / BASE)
    {
      ghost var before, from, carry := result.number[..], data.number[..], temp / BASE;
      UnreadNext(d, from, i, (from[i] + carry) % BASE, inPlace);
      temp := data.number[i] + temp / BASE;
      var low: Word := temp % BASE;
      AddShortStep(d, value, before, i, carry, temp, low);
      result.number[i] := low;
      assert result.number[..] == before[i := low];
      assert !inPlace ==> data.number[..] == from;
      i := i + 1;
    }
    AddShortDone(d, value, result.number[..], temp / BASE);
    if temp / BASE != 0 {
      ghost var next := result.number[..][n := temp / BASE];
      result.digitsUsed := n + 1;
      result.number[n] := temp / BASE;
      assert result.Digits() == next[..n + 1];
      assert next[n] != 0;
    } else {
      result.digitsUsed := n;
      assert result.Digits() == result.number[..][..n];
    }
  }

  lemma AddShortStart(d: seq<Word>, value: Word, now: seq<Word>)
    ensures AddShortSoFar(d, value, now, 0, value)
  {}

  lemma AddShortDone(d: seq<Word>, value: Word, now: seq<Word>, carry: nat)
    requires Normal(d) && AddShortSoFar(d, value, now, |d|, carry) && |d| < |now|
    ensures carry < BASE
    ensures carry != 0 ==> Value(now[|d| := carry][..|d| + 1]) == Value(d) + value
    ensures carry == 0 ==> Value(now[..|d|]) == Value(d) + value && Normal(now[..|d|])
  {
    var n := |d|;
    assert d[..n] == d;
    if carry == 0 {
      MulZero(Power(n));
      if n > 1 {
        NormalLower(d);
        NormalIfLarge(now[..n]);
      }
    } else {
      var next := now[n := carry];
      ValueExtend(next, n);
      assert next[..n] == now[..n];
    }
  }

  // ---- subtraction ------------------------------------------------------------------------

  function Upto(s: seq<Word>, i: nat): (r: seq<Word>) {
    if i <= |s| then s[..i] else s
  }

  lemma UptoExtend(s: seq<Word>, i: nat)
    ensures Value(Upto(s, i + 1)) == Value(Upto(s, i)) + Power(i) * (if i < |s| then s[i] else 0)
  {
    hide Power;
    if i < |s| {
      ValueExtend(s, i);
    } else {
      MulZero(Power(i));
      assert s[..|s|] == s;
    }
  }

  /** A uint32 difference keeps the low word and tells a borrow by its sign bit. */
  lemma BorrowBit(x: int)
    requires -BASE <= x < BASE
    ensures Wrap32(x) / 0x8000_0000 <= 1
    ensures x == Wrap32(x) % BASE - BASE * (Wrap32(x) / 0x8000_0000)
  {
    if x < 0 {
      assert Wrap32(x) == x + 0x1_0000_0000;
    }
  }

  /** After i words of d - e: what is written plus what was subtracted is what was read plus the borrow. */
  ghost predicate SubSoFar(d: seq<Word>, e: seq<Word>, now: seq<Word>, i: nat, borrow: nat) {
    && i <= |d| && i <= |now| && borrow <= 1
    && Value(now[..i]) + Value(Upto(e, i)) == Value(d[..i]) + Power(i) * borrow
  }

  lemma SubSoFarStart(d: seq<Word>, e: seq<Word>, now: seq<Word>)
    ensures SubSoFar(d, e, now, 0, 0)
  {}

  lemma SubStep(d: seq<Word>, e: seq<Word>, now: seq<Word>, i: nat, borrow: nat, x: int, low: Word)
    requires SubSoFar(d, e, now, i, borrow) && i < |d| && i < |now|
    requires x == d[i] - (if i < |e| then e[i] else 0) - borrow && low == Wrap32(x) % BASE
    ensures SubSoFar(d, e, now[i := low], i + 1, Wrap32(x) / 0x8000_0000)
  {
    hide Power, Value, Upto, Wrap32;
    var now' := now[i := low];
    var p, y := Power(i), if i < |e| then e[i] else 0;
    ValueExtend(d, i);
    ValueExtend(now', i);
    assert now'[..i] == now[..i];
    UptoExtend(e, i);
    BorrowBit(x);
    SubColumn(p, d[i], y, borrow, low, Wrap32(x) / 0x8000_0000);
    PowerNext(i);
  }

  lemma PowerNext(i: nat)
    ensures Power(i + 1) == BASE * Power(i)
  {}

  lemma SubColumn(p: int, a: int, b: int, borrow: int, low: int, out: int)
    requires a - b - borrow == low - BASE * out
    ensures p * low + p * b + p * borrow == p * a + (BASE * p) * out
  {
    assert a + BASE * out == low + b + borrow;
    assert p * (a + BASE * out) == p * a + p * (BASE * out);
    assert p * (BASE * out) == (BASE * p) * out;
    assert p * (low + b + borrow) == p * low + p * b + p * borrow;
  }

  lemma SubSoFarDone(d: seq<Word>, e: seq<Word>, now: seq<Word>, borrow: nat)
    requires SubSoFar(d, e, now, |d|, borrow) && |e| <= |d| && Value(e) <= Value(d)
    ensures borrow == 0 && Value(now[..|d|]) == Value(d) - Value(e)
  {
    hide Power, Value;
    var n := |d|;
    assert d[..n] == d;
    assert Upto(e, n) == e by { if |e| == n { assert e[..n] == e; } }
    ValueBound(now[..n]);
    TimesBit(Power(n), borrow);
  }

  lemma TimesBit(p: nat, bit: nat)
    requires bit <= 1
    ensures p * bit == if bit == 0 then 0 else p
  {}

  /** Taking one word off leaves at most one zero word at the top. */
  lemma LosesOneWord(d: seq<Word>, r: seq<Word>, value: Word)
    requires Normal(d) && |r| == |d| > 1 && Value(r) == Value(d) - value && r[|r| - 1] == 0
    ensures Normal(r[..|r| - 1]) && Value(r[..|r| - 1]) == Value(r)
  {
    var n := |d|;
    ValueExtend(r, n - 1);
    assert r[..n] == r;
    MulZero(Power(n - 1));
    NormalLower(d);
    if n > 2 { NormalIfLarge(r[..n - 1]); }
  }

  /** The loop of short_sub: the first word gives value, the others at most a borrow. */
  method ShortSubColumns(data: DataRecord, value: Word, result: DataRecord, n: nat, ghost d: seq<Word>)
    returns (borrow: nat)
    requires Apart(data, result) && n == |d| > 0
    requires n <= data.number.Length && n <= result.number.Length && data.number[..n] == d
    modifies result.number
    ensures SubSoFar(d, [value], result.number[..], n, borrow)
  {
    hide Power, Value, SubSoFar, Wrap32, Upto, Unread;
    ghost var e: seq<Word> := [value];
    ghost var inPlace := data == result;
    SubSoFarStart(d, e, result.number[..]);
    UnreadStart(d, data.number[..]);
    ghost var before, from := result.number[..], data.number[..];
    var x := data.number[0] - value;
    var temp: nat := Wrap32(x);
    var low: Word := temp % BASE;
    UnreadNext(d, from, 0, low, inPlace);
    SubStep(d, e, before, 0, 0, x, low);
    result.number[0] := low;
    assert result.number[..] == before[0 := low];
    assert !inPlace ==> data.number[..] == from;
    var i := 1;
    while i < n
      invariant 1 <= i <= n && Unread(d, data.number[..], i)
      invariant SubSoFar(d, e, result.number[..], i, temp / 0x8000_0000)
    {
      before, from := result.number[..], data.number[..];
      x := data.number[i] - temp / 0x8000_0000;
      low := Wrap32(x) % BASE;
      UnreadNext(d, from, i, low, inPlace);
      SubStep(d, e, before, i, temp / 0x8000_0000, x, low);
      temp := Wrap32(x);
      result.number[i] := low;
      assert result.number[..] == before[i := low];
      assert !inPlace ==> data.number[..] == from;
      i := i + 1;
    }
    borrow := temp / 0x8000_0000;
  }

  /** short_sub: result = data - value, when it is not negative. The result may be data itself. */
  method ShortSub(data: DataRecord, value: Word, result: DataRecord)
    requires data.Valid() && result.Shape() && Apart(data, result)
    requires result.size >= data.digitsUsed && data.Val() >= value
    modifies result`digitsUsed, result.number
    ensures result.Valid() && result.Val() == old(data.Val()) - value
  {
    hide Power, Value, SubSoFar;
    ghost var d := data.Digits();
    ValueSingle(value);
    var n := data.digitsUsed;
    var borrow := ShortSubColumns(data, value, result, n, d);
    SubSoFarDone(d, [value], result.number[..], borrow);
    ghost var r := result.number[..][..n];
    if result.number[n - 1] == 0 {
      if n == 1 {
        result.digitsUsed := 1;
      } else {
        LosesOneWord(d, r, value);
        result.digitsUsed := n - 1;
      }
    } else {
      result.digitsUsed := n;
    }
    assert result.Digits() == r[..result.digitsUsed];
    assert r[..n] == r;
  }

  /** The two subtracting loops of long_sub. */
  method SubColumns(lhs: DataRecord, rhs: DataRecord, result: DataRecord, n: nat, m: nat,
                    ghost d: seq<Word>, ghost e: seq<Word>) returns (borrow: nat)
    requires Apart(lhs, result) && Apart(rhs, result) && m == |e| <= n == |d|
    requires n <= lhs.number.Length && m <= rhs.number.Length && n <= result.number.Length
    requires lhs.number[..n] == d && rhs.number[..m] == e
    modifies result.number
    ensures SubSoFar(d, e, result.number[..], n, borrow)
  {
    hide Power, Value, SubSoFar, Wrap32, Upto, Unread;
    ghost var inD, inE := lhs == result, rhs == result;
    SubSoFarStart(d, e, result.number[..]);
    UnreadStart(d, lhs.number[..]);
    UnreadStart(e, rhs.number[..]);
    var temp: nat := 0;
    var i := 0;
    while i != m
      invariant 0 <= i <= m && Unread(d, lhs.number[..], i) && Unread(e, rhs.number[..], i)
      invariant SubSoFar(d, e, result.number[..], i, temp / 0x8000_0000)
    {
      ghost var before, from, take := result.number[..], lhs.number[..], rhs.number[..];
      var x := lhs.number[i] - rhs.number[i] - temp / 0x8000_0000;
      var low: Word := Wrap32(x) % BASE;
      UnreadNext(d, from, i, low, inD);
      UnreadNext(e, take, i, low, inE);
      SubStep(d, e, before, i, temp / 0x8000_0000, x, low);
      temp := Wrap32(x);
      result.number[i] := low;
      assert result.number[..] == before[i := low];
      assert !inD ==> lhs.number[..] == from;
      assert !inE ==> rhs.number[..] == take;
      i := i + 1;
    }
    while i != n
      invariant m <= i <= n && Unread(d, lhs.number[..], i)
      invariant SubSoFar(d, e, result.number[..], i, temp / 0x8000_0000)
    {
      ghost var before, from := result.number[..], lhs.number[..];
      var x := lhs.number[i] - temp / 0x8000_0000;
      var low: Word := Wrap32(x) % BASE;
      UnreadNext(d, from, i, low, inD);
      SubStep(d, e, before, i, temp / 0x8000_0000, x, low);
      temp := Wrap32(x);
      result.number[i] := low;
      assert result.number[..] == before[i := low];
      assert !inD ==> lhs.number[..] == from;
      i := i + 1;
    }
    borrow := temp / 0x8000_0000;
  }

  /** long_sub: result = lhs - rhs, when it is not negative. The result may be either operand. */
  method LongSub(lhs: DataRecord, rhs: DataRecord, result: DataRecord)
    requires lhs.Valid() && rhs.Valid() && result.Shape()
    requires Apart(lhs, result) && Apart(rhs, result)
    requires result.size >= lhs.digitsUsed && lhs.Val() >= rhs.Val()
    modifies result`digitsUsed, result.number
    ensures result.Valid() && result.Val() == old(lhs.Val()) - old(rhs.Val())
  {
    hide Power, Value, SubSoFar;
    ghost var d, e := lhs.Digits(), rhs.Digits();
    var n, m := lhs.digitsUsed, rhs.digitsUsed;
    LengthFromOrder(e, d);
    var borrow := SubColumns(lhs, rhs, result, n, m, d, e);
    SubSoFarDone(d, e, result.number[..], borrow);
    result.digitsUsed := n;
    while result.number[result.digitsUsed - 1] == 0 && result.digitsUsed > 1
      invariant 1 <= result.digitsUsed <= n && result.Shape()
      invariant Value(result.number[..result.digitsUsed]) == Value(d) - Value(e)
      decreases result.digitsUsed
    {
      DropZero(result.number[..], result.digitsUsed);
      result.digitsUsed := result.digitsUsed - 1;
    }
  }

  lemma DropZero(s: seq<Word>, n: nat)
    requires 1 <= n <= |s| && s[n - 1] == 0
    ensures Value(s[..n - 1]) == Value(s[..n])
  {
    ValueExtend(s, n - 1);
    MulZero(Power(n - 1));
  }

  // ---- multiplication and division by one word --------------------------------------------

  ghost predicate MulShortSoFar(d: seq<Word>, value: Word, now: seq<Word>, i: nat, carry: nat) {
    && i <= |d| && i <= |now| && carry < BASE
    && Value(now[..i]) + Power(i) * carry == Value(d[..i]) * value
  }

  lemma MulShortStart(d: seq<Word>, value: Word, now: seq<Word>)
    ensures MulShortSoFar(d, value, now, 0, 0)
  {}

  lemma MulShortStep(d: seq<Word>, value: Word, now: seq<Word>, i: nat, carry: nat, t: nat, low: Word)
    requires MulShortSoFar(d, value, now, i, carry) && i < |d| && i < |now|
    requires t == d[i] * value + carry && low == t % BASE
    ensures MulShortSoFar(d, value, now[i := low], i + 1, t / BASE)
  {
    hide Power, Value;
    var now' := now[i := low];
    var p := Power(i);
    ValueExtend(d, i);
    ValueExtend(now', i);
    assert now'[..i] == now[..i];
    PowerNext(i);
    ProductColumn(d[i], value, carry, t);
    CarryStep(p, t, low, t / BASE);
    Distribute(p, d[i] * value, carry);
    MulAssoc(p, d[i], value);
    Distribute(value, Value(d[..i]), p * d[i]);
  }

  lemma ProductColumn(a: Word, b: Word, carry: nat, t: nat)
    requires carry < BASE && t == a * b + carry
    ensures t / BASE < BASE && t == t % BASE + BASE * (t / BASE)
  {
    MulLess(a, b, 0xFFFF);
    MulLess(0xFFFF, a, 0xFFFF);
    DivBelow(t, BASE, BASE);
  }

  lemma MulShortDone(d: seq<Word>, value: Word, now: seq<Word>, carry: Word)
    requires Normal(d) && MulShortSoFar(d, value, now, |d|, carry) && |d| < |now|
    ensures carry != 0 ==> Value(now[|d| := carry][..|d| + 1]) == Value(d) * value
    ensures carry == 0 ==> Value(now[..|d|]) == Value(d) * value
    ensures carry == 0 ==> (Normal(now[..|d|]) <==> value != 0 || |d| == 1)
  {
    hide Power, Value;
    var n := |d|;
    assert d[..n] == d;
    if carry == 0 {
      MulZero(Power(n));
      MulZero(Value(d));
      if n > 1 {
        NormalLower(d);
        if value != 0 {
          AtLeastOnce(Value(d), value);
          NormalIfLarge(now[..n]);
        } else if Normal(now[..n]) {
          NormalLower(now[..n]);
        }
      }
    } else {
      var next := now[n := carry];
      ValueExtend(next, n);
      assert next[..n] == now[..n];
    }
  }

  /**
   * short_mul: result = data * value. The words are in normal form exactly when value is not
   * zero or data has one word; a longer number times zero keeps all its words.
   */
  method ShortMul(data: DataRecord, value: Word, result: DataRecord)
    requires data.Valid() && result.Shape() && Apart(data, result)
    requires result.size >= data.digitsUsed + 1
    modifies result`digitsUsed, result.number
    ensures result.Shape() && result.Val() == old(data.Val()) * value
    ensures result.Valid() <==> value != 0 || old(data.digitsUsed) == 1
    ensures old(data.digitsUsed) <= result.digitsUsed <= old(data.digitsUsed) + 1
    ensures value == 0 ==> result.digitsUsed == old(data.digitsUsed)
  {
    hide Power, Value, MulShortSoFar, Unread;
    ghost var d, inPlace := data.Digits(), data == result;
    var n := data.digitsUsed;
    var temp: nat := 0;
    var i := 0;
    MulShortStart(d, value, result.number[..]);
    UnreadStart(d, data.number[..]);
    while i != n
      invariant 0 <= i <= n && Unread(d, data.number[..], i)
      invariant MulShortSoFar(d, value, result.number[..], i, temp / BASE)
      invariant value == 0 ==> temp / BASE == 0
    {
      ghost var before, from, carry := result.number[..], data.number[..], temp / BASE;
      MulZero(data.number[i]);
      UnreadNext(d, from, i, (from[i] * value + carry) % BASE, inPlace);
      temp := data.number[i] * value + temp / BASE;
      var low: Word := temp % BASE;
      MulShortStep(d, value, before, i, carry, temp, low);
      result.number[i] := low;
      assert result.number[..] == before[i := low];
      assert !inPlace ==> data.number[..] == from;
      i := i + 1;
    }
    MulShortCarry(d, value, result.number[..], temp / BASE);
    MulShortDone(d, value, result.number[..], temp / BASE);
    if temp / BASE != 0 {
      ghost var next := result.number[..][n := temp / BASE];
      result.digitsUsed := n + 1;
      result.number[n] := temp / BASE;
      assert result.Digits() == next[..n + 1];
    } else {
      result.digitsUsed := n;
      assert result.Digits() == result.number[..][..n];
    }
  }

  lemma MulShortCarry(d: seq<Word>, value: Word, now: seq<Word>, carry: nat)
    requires MulShortSoFar(d, value, now, |d|, carry)
    ensures carry < BASE
  {}

  /** The top words of d, divided: quotient words now[i..|d|], remainder rem. */
  ghost predicate DivShortSoFar(d: seq<Word>, value: Word, now: seq<Word>, i: nat, rem: nat) {
    && i <= |d| <= |now| && rem < value
    && Value(d[i..]) == Value(now[i..|d|]) * value + rem
  }

  lemma DivShortStart(d: seq<Word>, value: Word, now: seq<Word>)
    requires |d| <= |now| && value > 0
    ensures DivShortSoFar(d, value, now, |d|, 0)
  {}

  lemma DivShortStep(d: seq<Word>, value: Word, now: seq<Word>, i: nat, rem: nat, t: nat, q: Word)
    requires 0 < i && DivShortSoFar(d, value, now, i, rem)
    requires t == d[i - 1] + rem * BASE && q == t / value
    ensures DivShortSoFar(d, value, now[i - 1 := q], i - 1, t % value)
  {
    hide Power;
    var now' := now[i - 1 := q];
    var n, k := |d|, i - 1;
    assert d[k..][1..] == d[i..] && d[k..][0] == d[k];
    assert now'[k..n][1..] == now[i..n] && now'[k..n][0] == q;
    var w := Value(now[i..n]);
    FundamentalDivMod(t, value);
    DivColumn(q, w, value, rem);
  }

  lemma DivColumn(q: int, w: int, value: int, rem: int)
    ensures (q + BASE * w) * value + (rem - q * value) == BASE * (w * value) + rem
  {}


  lemma QuotientWord(d: Word, rem: nat, value: Word)
    requires rem < value
    ensures 0 <= (d + rem * BASE) / value < BASE
  {
    var t := d + rem * BASE;
    assert t <= BASE * value - 1;
    DivBelow(t, value, BASE);
  }

  lemma DivBelow(t: nat, a: nat, b: nat)
    requires a > 0 && t < a * b
    ensures t / a < b
  {
    if t / a >= b {
      MulLess(a, b, t / a);
    }
  }

  /** Dividing by one word loses a word exactly when the top word is smaller than the divisor. */
  lemma DivShortDone(d: seq<Word>, value: Word, now: seq<Word>, rem: nat)
    requires Normal(d) && DivShortSoFar(d, value, now, 0, rem)
    ensures Value(now[..|d|]) == Value(d) / value && rem == Value(d) % value
    ensures d[|d| - 1] >= value || |d| == 1 ==> Normal(now[..|d|])
    ensures d[|d| - 1] < value && |d| > 1 ==>
      Normal(now[..|d| - 1]) && Value(now[..|d| - 1]) == Value(now[..|d|])
  {
    hide Power, Value;
    var n := |d|;
    assert d[0..] == d && now[0..n] == now[..n];
    var q, v, top := Value(now[..n]), Value(d), d[n - 1];
    DivisionUnique(v, value, q, rem);
    if n > 1 {
      if top >= value {
        QuotientKeepsWord(d, value, now, q, rem);
      } else {
        QuotientLosesWord(d, value, now, q, rem);
      }
    }
  }

  lemma QuotientKeepsWord(d: seq<Word>, value: Word, now: seq<Word>, q: nat, rem: nat)
    requires Normal(d) && 1 < |d| <= |now| && d[|d| - 1] >= value
    requires q == Value(now[..|d|]) && Value(d) == q * value + rem && rem < value
    ensures Normal(now[..|d|])
  {
    hide Power, Value;
    var n := |d|;
    var p := Power(n - 1);
    ValueExtend(d, n - 1);
    assert d[..n] == d;
    MulLess(p, value, d[n - 1]);
    QuotientAtLeast(Value(d), value, q, rem, p);
    NormalIfLarge(now[..n]);
  }

  lemma QuotientLosesWord(d: seq<Word>, value: Word, now: seq<Word>, q: nat, rem: nat)
    requires Normal(d) && 1 < |d| <= |now| && d[|d| - 1] < value
    requires q == Value(now[..|d|]) && Value(d) == q * value + rem && rem < value
    ensures Normal(now[..|d| - 1]) && Value(now[..|d| - 1]) == q
  {
    hide Power, Value;
    var n := |d|;
    var p, v := Power(n - 1), Value(d);
    ValueExtend(d, n - 1);
    assert d[..n] == d;
    ValueBound(d[..n - 1]);
    assert v < p * d[n - 1] + p;
    MulLess(p, d[n - 1] + 1, value);
    Distribute(p, d[n - 1], 1);
    QuotientBelow(v, value, q, rem, p);
    assert q < p;
    ValueExtend(now, n - 1);
    if now[n - 1] != 0 { AtLeastOnce(p, now[n - 1]); }
    MulZero(p);
    if n > 2 {
      PowerNext(n - 2);
      NormalLower(d);
      MulLess(Power(n - 2), value, BASE);
      QuotientAtLeast(v, value, q, rem, Power(n - 2));
      NormalIfLarge(now[..n - 1]);
    }
  }

  lemma MulLess(p: nat, a: nat, b: nat)
    requires a <= b
    ensures p * a <= p * b && a * p == p * a && b * p == p * b
  {}

  lemma DivisionUnique(v: nat, value: nat, q: nat, rem: nat)
    requires v == q * value + rem && rem < value
    ensures q == v / value && rem == v % value
  {
    var q', r' := v / value, v % value;
    FundamentalDivMod(v, value);
    if q < q' { MulLess(value, q + 1, q'); }
    if q > q' { MulLess(value, q' + 1, q); }
  }

  lemma FundamentalDivMod(v: nat, value: nat)
    requires value > 0
    ensures v == (v / value) * value + v % value && v % value < value
  {
  }

  lemma QuotientAtLeast(v: nat, value: nat, q: nat, rem: nat, p: nat)
    requires v == q * value + rem && rem < value && v >= p * value
    ensures q >= p
  {
    if q < p { MulLess(value, q + 1, p); }
  }

  lemma QuotientBelow(v: nat, value: nat, q: nat, rem: nat, p: nat)
    requires v == q * value + rem && v < p * value
    ensures q < p
  {
    if q >= p { MulLess(value, p, q); }
  }

  /** short_div: result = data / value and the remainder. The result may be data itself. */
  method ShortDiv(data: DataRecord, value: Word, result: DataRecord) returns (rem: Word)
    requires data.Valid() && result.Shape() && Apart(data, result)
    requires value != 0 && result.size >= data.digitsUsed
    modifies result`digitsUsed, result.number
    ensures result.Valid() && result.Val() == old(data.Val()) / value
    ensures rem == old(data.Val()) % value
  {
    hide Power, Value, DivShortSoFar;
    ghost var d := data.Digits();
    var n := data.digitsUsed;
    var remainder: Word := 0;
    if data.number[n - 1] < value {
      if n == 1 {
        result.digitsUsed := 1;
      } else {
        result.digitsUsed := n - 1;
      }
    } else {
      result.digitsUsed := n;
    }
    DivShortStart(d, value, result.number[..]);
    ghost var used := result.digitsUsed;
    var i := n;
    while i != 0
      invariant result.digitsUsed == used
      invariant 0 <= i <= n && data.number[..i] == d[..i] && remainder < value
      invariant DivShortSoFar(d, value, result.number[..], i, remainder)
    {
      assert data.number[i - 1] == data.number[..i][i - 1] == d[i - 1];
      ghost var before := result.number[..];
      var temp: nat := data.number[i - 1] + remainder * BASE;
      QuotientWord(d[i - 1], remainder, value);
      var q: Word := temp / value;
      DivShortStep(d, value, before, i, remainder, temp, q);
      result.number[i - 1] := q;
      assert result.number[..] == before[i - 1 := q];
      assert data.number[..i - 1] == d[..i - 1];
      remainder := temp % value;
      i := i - 1;
    }
    DivShortDone(d, value, result.number[..], remainder);
    assert result.Digits() == result.number[..][..result.digitsUsed];
    rem := remainder;
  }

  // ---- halving, counting up and down --------------------------------------------------------

  /** Word i of a right shift: the word halved, with the low bit of the word above on top. */
  function HalvedWord(d: seq<Word>, i: nat): Word
    requires i < |d|
  {
    d[i] / 2 + (if i + 1 < |d| then d[i + 1] % 2 else 0) * 0x8000
  }

  lemma HalvedColumn(x: Word, v: nat, y: Word, u: nat)
    requires v == y + BASE * u
    ensures (x + BASE * v) / 2 == x / 2 + (y % 2) * 0x8000 + BASE * (v / 2)
  {
    var h, m := v / 2, v % 2;
    assert v == 2 * h + m && y % 2 == m;
    assert x + BASE * v == (x + BASE * m) + 2 * (BASE * h);
    assert m == 0 || m == 1;
  }

  lemma {:induction false} HalvedValue(d: seq<Word>, r: seq<Word>)
    requires |r| == |d| && forall i :: 0 <= i < |d| ==> r[i] == HalvedWord(d, i)
    ensures Value(r) == Value(d) / 2
  {
    if |d| > 0 {
      forall i | 0 <= i < |d| - 1 ensures r[1..][i] == HalvedWord(d[1..], i) {
        assert r[i + 1] == HalvedWord(d, i + 1);
      }
      HalvedValue(d[1..], r[1..]);
      assert r[0] == HalvedWord(d, 0);
      HalvedColumn(d[0], Value(d[1..]), if |d| > 1 then d[1] else 0, if |d| > 1 then Value(d[1..][1..]) else 0);
    }
  }

  lemma HalvedLosesOneWord(d: seq<Word>, r: seq<Word>)
    requires Normal(d) && |r| == |d| && forall i :: 0 <= i < |d| ==> r[i] == HalvedWord(d, i)
    ensures Value(r) == Value(d) / 2
    ensures r[|d| - 1] != 0 || |d| == 1 ==> Normal(r)
    ensures r[|d| - 1] == 0 && |d| > 1 ==> Normal(r[..|d| - 1]) && Value(r[..|d| - 1]) == Value(r)
  {
    hide Value;
    HalvedValue(d, r);
    var n := |d|;
    if n > 1 && r[n - 1] == 0 {
      DropZero(r, n);
      assert r[..n] == r;
      assert r[n - 1] == HalvedWord(d, n - 1) && d[n - 1] == 1;
      assert r[n - 2] == HalvedWord(d, n - 2) >= 0x8000;
    }
  }

  /** The words already written are those of the shift; the words still to be read are unchanged. */
  ghost predicate ShiftRightSoFar(d: seq<Word>, source: seq<Word>, now: seq<Word>, i: nat) {
    && i <= |d| <= |now| && |d| <= |source| && source[i..|d|] == d[i..]
    && forall j :: 0 <= j < i ==> now[j] == HalvedWord(d, j)
  }

  /** One column, whether or not the source is the array that is written. */
  lemma ShiftRightStep(d: seq<Word>, source: seq<Word>, now: seq<Word>, i: nat, inPlace: bool)
    requires ShiftRightSoFar(d, source, now, i) && i < |d| && (inPlace ==> source == now)
    ensures source[i] == d[i] && (i + 1 < |d| ==> source[i + 1] == d[i + 1])
    ensures
      var next := now[i := HalvedWord(d, i)];
      ShiftRightSoFar(d, if inPlace then next else source, next, i + 1)
  {
    var next := now[i := HalvedWord(d, i)];
    var source' := if inPlace then next else source;
    assert source[i..|d|][0] == d[i..][0];
    if i + 1 < |d| { assert source[i..|d|][1] == d[i..][1]; }
    assert source'[i + 1..|d|] == source[i..|d|][1..] == d[i + 1..];
  }

  /** shift_right: result = data / 2. The result may be data itself. */
  method ShiftRight(data: DataRecord, result: DataRecord)
    requires data.Valid() && result.Shape() && Apart(data, result)
    requires result.size >= data.digitsUsed
    modifies result`digitsUsed, result.number
    ensures result.Valid() && result.Val() == old(data.Val()) / 2
  {
    hide Value, ShiftRightSoFar;
    ghost var d := data.Digits();
    ghost var inPlace := data == result;
    var n := data.digitsUsed;
    var i := 0;
    ShiftRightStart(d, data.number[..], result.number[..]);
    while i < n - 1
      invariant 0 <= i < n
      invariant ShiftRightSoFar(d, data.number[..], result.number[..], i)
    {
      ghost var before, source := result.number[..], data.number[..];
      ShiftRightStep(d, source, before, i, inPlace);
      // the low bit of the next word goes to bit 15, which the halved word leaves free
      result.number[i] := data.number[i] / 2 + (data.number[i + 1] % 2) * 0x8000;
      assert result.number[..] == before[i := HalvedWord(d, i)];
      assert !inPlace ==> data.number[..] == source;
      i := i + 1;
    }
    ghost var before, source := result.number[..], data.number[..];
    ShiftRightStep(d, source, before, i, inPlace);
    result.number[i] := data.number[i] / 2;
    assert result.number[..] == before[i := HalvedWord(d, i)];
    ShiftRightDone(d, if inPlace then result.number[..] else source, result.number[..]);
    if result.number[i] == 0 {
      if n != 1 {
        result.digitsUsed := n - 1;
      } else {
        result.digitsUsed := 1;
      }
    } else {
      result.digitsUsed := n;
    }
  }

  lemma ShiftRightStart(d: seq<Word>, source: seq<Word>, now: seq<Word>)
    requires |d| <= |now| && |d| <= |source| && source[..|d|] == d
    ensures ShiftRightSoFar(d, source, now, 0)
  {
    assert source[0..|d|] == d && d[0..] == d;
  }

  lemma ShiftRightDone(d: seq<Word>, source: seq<Word>, now: seq<Word>)
    requires Normal(d) && ShiftRightSoFar(d, source, now, |d|)
    ensures Value(now[..|d|]) == Value(d) / 2
    ensures now[|d| - 1] != 0 || |d| == 1 ==> Normal(now[..|d|])
    ensures now[|d| - 1] == 0 && |d| > 1 ==>
      Normal(now[..|d| - 1]) && Value(now[..|d| - 1]) == Value(now[..|d|])
  {
    HalvedLosesOneWord(d, now[..|d|]);
    if |d| > 1 { assert now[..|d|][..|d| - 1] == now[..|d| - 1]; }
  }

  function Incremented(d: seq<Word>): seq<Word> {
    if d == [] then [1]
    else if d[0] == 0xFFFF then [0] + Incremented(d[1..])
    else [d[0] + 1] + d[1..]
  }

  lemma {:induction false} IncrementedValue(d: seq<Word>)
    ensures Value(Incremented(d)) == Value(d) + 1
    ensures |d| <= |Incremented(d)| <= |d| + 1
    ensures Normal(d) ==> Normal(Incremented(d))
  {
    if d == [] {
      ValueSingle(1);
    } else if d[0] == 0xFFFF {
      IncrementedValue(d[1..]);
      assert Incremented(d)[1..] == Incremented(d[1..]);
      if |d| == 1 { assert Incremented(d[1..]) == [1]; }
    } else {
      assert Incremented(d)[1..] == d[1..];
    }
  }

  function Decremented(d: seq<Word>): seq<Word> {
    if d == [] then []
    else if d[0] == 0 then [0xFFFF] + Decremented(d[1..])
    else [d[0] - 1] + d[1..]
  }

  lemma {:induction false} DecrementedValue(d: seq<Word>)
    requires Value(d) > 0
    ensures |Decremented(d)| == |d| && Value(Decremented(d)) == Value(d) - 1
  {
    if d[0] == 0 {
      DecrementedValue(d[1..]);
      assert Decremented(d)[1..] == Decremented(d[1..]);
    } else {
      assert Decremented(d)[1..] == d[1..];
    }
  }

  /**
   * target is what is written so far followed by tail, and the words of d from i on, which are
   * still to be read, are unchanged in the source.
   */
  ghost predicate CopySoFar(target: seq<Word>, d: seq<Word>, source: seq<Word>, now: seq<Word>,
                            i: nat, tail: seq<Word>) {
    && i <= |d| <= |now| && |d| <= |source| && source[i..|d|] == d[i..]
    && target == now[..i] + tail
  }

  lemma CopyStart(target: seq<Word>, d: seq<Word>, source: seq<Word>, now: seq<Word>)
    requires |d| <= |now| && |d| <= |source| && source[..|d|] == d
    ensures CopySoFar(target, d, source, now, 0, target)
  {
    assert source[0..|d|] == d && d[0..] == d && now[..0] == [];
  }

  lemma CopyStep(target: seq<Word>, d: seq<Word>, source: seq<Word>, now: seq<Word>,
                 i: nat, tail: seq<Word>, rest: seq<Word>, x: Word, inPlace: bool)
    requires CopySoFar(target, d, source, now, i, tail) && i < |d| && (inPlace ==> source == now)
    requires tail == [x] + rest
    ensures
      var next := now[i := x];
      CopySoFar(target, d, if inPlace then next else source, next, i + 1, rest)
  {
    var next := now[i := x];
    var source' := if inPlace then next else source;
    assert source'[i + 1..|d|] == source[i..|d|][1..] == d[i + 1..];
    assert next[..i + 1] == now[..i] + [x];
  }

  lemma CopyRead(target: seq<Word>, d: seq<Word>, source: seq<Word>, now: seq<Word>, i: nat, tail: seq<Word>)
    requires CopySoFar(target, d, source, now, i, tail) && i < |d|
    ensures source[i] == d[i] && d[i..] == [d[i]] + d[i + 1..] && i < |now|
  {
    assert source[i..|d|][0] == d[i..][0];
  }

  lemma IncrementedHead(d: seq<Word>, i: nat)
    requires i < |d|
    ensures d[i] == 0xFFFF ==> Incremented(d[i..]) == [0] + Incremented(d[i + 1..])
    ensures d[i] != 0xFFFF ==> Incremented(d[i..]) == [d[i] + 1] + d[i + 1..]
  {
    assert d[i..][1..] == d[i + 1..];
  }

  lemma DecrementedHead(d: seq<Word>, i: nat)
    requires i < |d|
    ensures d[i] == 0 ==> Decremented(d[i..]) == [0xFFFF] + Decremented(d[i + 1..])
    ensures d[i] != 0 ==> Decremented(d[i..]) == [d[i] - 1] + d[i + 1..]
    ensures d[i] == 0 && Value(d[i..]) > 0 ==> i + 1 < |d| && Value(d[i + 1..]) > 0
  {
    assert d[i..][1..] == d[i + 1..] && d[i..][0] == d[i];
    assert Value(d[i..]) == d[i] + BASE * Value(d[i + 1..]);
    if i + 1 == |d| { assert d[i + 1..] == []; }
  }

  /** The loop that copies the words the carry did not reach. */
  method CopyRest(source: DataRecord, dest: DataRecord, i0: nat, n: nat, ghost target: seq<Word>, ghost d: seq<Word>)
    requires Apart(source, dest) && i0 <= n == |d|
    requires CopySoFar(target, d, source.number[..], dest.number[..], i0, d[i0..])
    modifies dest.number
    ensures n <= dest.number.Length && dest.number[..n] == target
  {
    hide CopySoFar;
    ghost var inPlace := source == dest;
    var i := i0;
    while i != n
      invariant i0 <= i <= n
      invariant CopySoFar(target, d, source.number[..], dest.number[..], i, d[i..])
    {
      ghost var before, from := dest.number[..], source.number[..];
      CopyRead(target, d, from, before, i, d[i..]);
      CopyStep(target, d, from, before, i, d[i..], d[i + 1..], d[i], inPlace);
      CopyBound(target, d, from, before, i, d[i..]);
      dest.number[i] := source.number[i];
      assert dest.number[..] == before[i := d[i]];
      assert !inPlace ==> source.number[..] == from;
      i := i + 1;
    }
    CopyBound(target, d, source.number[..], dest.number[..], n, d[n..]);
  }

  lemma CopyBound(target: seq<Word>, d: seq<Word>, source: seq<Word>, now: seq<Word>, i: nat, tail: seq<Word>)
    requires CopySoFar(target, d, source, now, i, tail)
    ensures i <= |d| <= |now| && |d| <= |source| && target == now[..i] + tail
  {}

  /** The carry of an increment: runs of 0xFFFF become 0 until a word takes the 1, or none is left. */
  method IncrementCarry(source: DataRecord, dest: DataRecord, n: nat, ghost d: seq<Word>) returns (i: nat)
    requires Apart(source, dest) && n == |d| > 0 && n <= source.number.Length && n <= dest.number.Length
    requires source.number[..n] == d
    modifies dest.number
    ensures i <= n
    ensures i < n ==> CopySoFar(Incremented(d), d, source.number[..], dest.number[..], i + 1, d[i + 1..])
    ensures i == n ==> Incremented(d) == dest.number[..n] + [1]
  {
    hide Value, CopySoFar, Incremented;
    ghost var target := Incremented(d);
    ghost var inPlace := source == dest;
    i := 0;
    CopyStart(target, d, source.number[..], dest.number[..]);
    assert d[0..] == d;
    while i < n
      invariant 0 <= i <= n
      invariant CopySoFar(target, d, source.number[..], dest.number[..], i, Incremented(d[i..]))
      decreases n - i
    {
      ghost var before, from := dest.number[..], source.number[..];
      CopyRead(target, d, from, before, i, Incremented(d[i..]));
      IncrementedHead(d, i);
      var x: Word := (source.number[i] + 1) % BASE;
      ghost var rest := if x != 0 then d[i + 1..] else Incremented(d[i + 1..]);
      CopyStep(target, d, from, before, i, Incremented(d[i..]), rest, x, inPlace);
      dest.number[i] := x;
      assert dest.number[..] == before[i := x];
      assert !inPlace ==> source.number[..] == from;
      if dest.number[i] != 0 {
        return;
      }
      i := i + 1;
    }
    CopyBound(target, d, source.number[..], dest.number[..], n, Incremented(d[n..]));
    IncrementedNothing(d[n..]);
  }

  /** increment: dest = source + 1. The two may be one record. */
  method Increment(source: DataRecord, dest: DataRecord)
    requires source.Valid() && dest.Shape() && Apart(source, dest)
    requires dest.size >= source.digitsUsed + 1
    modifies dest`digitsUsed, dest.number
    ensures dest.Valid() && dest.Val() == old(source.Val()) + 1
  {
    hide Value, CopySoFar, Incremented;
    ghost var d := source.Digits();
    IncrementedValue(d);
    var n := source.digitsUsed;
    var i := IncrementCarry(source, dest, n, d);
    if i < n {
      dest.digitsUsed := n;
      CopyRest(source, dest, i + 1, n, Incremented(d), d);
    } else {
      ghost var before := dest.number[..];
      dest.digitsUsed := n + 1;
      dest.number[n] := 1;
      assert dest.number[..] == before[n := 1];
      assert dest.Digits() == before[..n] + [1];
    }
  }

  lemma IncrementedNothing(d: seq<Word>)
    requires d == []
    ensures Incremented(d) == [1]
  {}

  /** The borrow of a decrement: runs of 0 become 0xFFFF until a word can give the 1. */
  method DecrementBorrow(source: DataRecord, dest: DataRecord, n: nat, ghost d: seq<Word>) returns (i: nat)
    requires Apart(source, dest) && n == |d| && n <= source.number.Length && n <= dest.number.Length
    requires source.number[..n] == d && Value(d) > 0
    modifies dest.number
    ensures i < n
    ensures CopySoFar(Decremented(d), d, source.number[..], dest.number[..], i + 1, d[i + 1..])
  {
    hide Value, CopySoFar, Decremented;
    ghost var target := Decremented(d);
    ghost var inPlace := source == dest;
    i := 0;
    CopyStart(target, d, source.number[..], dest.number[..]);
    assert d[0..] == d;
    ValuePositive(d);
    while true
      invariant 0 <= i < n && Value(d[i..]) > 0
      invariant CopySoFar(target, d, source.number[..], dest.number[..], i, Decremented(d[i..]))
      decreases n - i
    {
      ghost var before, from := dest.number[..], source.number[..];
      CopyRead(target, d, from, before, i, Decremented(d[i..]));
      DecrementedHead(d, i);
      var x: Word := (source.number[i] - 1) % BASE;
      ghost var rest := if x != 0xFFFF then d[i + 1..] else Decremented(d[i + 1..]);
      CopyStep(target, d, from, before, i, Decremented(d[i..]), rest, x, inPlace);
      dest.number[i] := x;
      assert dest.number[..] == before[i := x];
      assert !inPlace ==> source.number[..] == from;
      if dest.number[i] != 0xFFFF {
        return;
      }
      i := i + 1;
    }
  }

  lemma ValuePositive(d: seq<Word>)
    requires Value(d) > 0
    ensures |d| > 0
  {}

  /** decrement: dest = source - 1, when source is not zero. The two may be one record. */
  method Decrement(source: DataRecord, dest: DataRecord)
    requires source.Valid() && dest.Shape() && Apart(source, dest)
    requires dest.size >= source.digitsUsed && source.Val() > 0
    modifies dest`digitsUsed, dest.number
    ensures dest.Valid() && dest.Val() == old(source.Val()) - 1
  {
    hide Value, CopySoFar, Decremented;
    ghost var d := source.Digits();
    ghost var target := Decremented(d);
    DecrementedValue(d);
    DecrementNormal(d, target);
    var n := source.digitsUsed;
    var i := DecrementBorrow(source, dest, n, d);
    DecrementTop(target, d, source.number[..], dest.number[..], i);
    if dest.number[i] == 0 && i + 1 == n {
      if n == 1 {
        dest.digitsUsed := 1;
      } else {
        dest.digitsUsed := n - 1;
      }
    } else {
      dest.digitsUsed := n;
    }
    ghost var used := dest.digitsUsed;
    CopyRest(source, dest, i + 1, n, target, d);
    assert target[..n] == target;
    assert dest.number[..used] == dest.number[..n][..used];
  }

  lemma DecrementTop(target: seq<Word>, d: seq<Word>, source: seq<Word>, now: seq<Word>, i: nat)
    requires i < |d| && Normal(d) && CopySoFar(target, d, source, now, i + 1, d[i + 1..])
    ensures |target| == |d| && (|d| > 1 ==> (target[|d| - 1] == 0 <==> now[i] == 0 && i + 1 == |d|))
  {}

  lemma DecrementNormal(d: seq<Word>, r: seq<Word>)
    requires Normal(d) && |r| == |d| && Value(r) == Value(d) - 1
    ensures r[|d| - 1] != 0 || |d| == 1 ==> Normal(r)
    ensures r[|d| - 1] == 0 && |d| > 1 ==> Normal(r[..|d| - 1]) && Value(r[..|d| - 1]) == Value(r)
  {
    if r[|d| - 1] == 0 && |d| > 1 { LosesOneWord(d, r, 1); }
  }
}
