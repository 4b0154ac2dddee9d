/** Writing a bigint in base ten and reading it back. */
module Decimal {
  import opened Digits
  import opened Records
  import opened Handles

  // ---- decimal text ----------------------------------------------------------------------------

  predicate IsDigit(c: char) { '0' <= c <= '9' }

  function DigitOf(c: char): nat
    requires IsDigit(c)
  {
    c as nat - '0' as nat
  }

  function CharOf(d: nat): char
    requires d < 10
  {
    (d + '0' as nat) as char
  }

  /** The digits are the ten characters in their order. */
  lemma DigitsAre(c: char, d: nat)
    requires d < 10
    ensures IsDigit(c) <==> c in "0123456789"
    ensures CharOf(d) == "0123456789"[d] && IsDigit(CharOf(d)) && DigitOf(CharOf(d)) == d
    ensures IsDigit(c) ==> DigitOf(c) < 10 && "0123456789"[DigitOf(c)] == c
  {
    var digits := "0123456789";
    assert forall k :: 0 <= k < 10 ==> digits[k] as int == 48 + k;
    if IsDigit(c) { assert digits[DigitOf(c)] == c; }
  }

  predicate AllDigits(s: string) { forall i :: 0 <= i < |s| ==> IsDigit(s[i]) }

  /** The number a string of digits stands for. */
  function DecimalValue(s: string): nat
    requires AllDigits(s)
  {
    if s == [] then 0 else 10 * DecimalValue(s[..|s| - 1]) + DigitOf(s[|s| - 1])
  }

  /** n in base ten, without leading zeros. */
  function Decimal(n: nat): (s: string)
    ensures |s| > 0 && AllDigits(s)
  {
    if n < 10 then [CharOf(n)] else Decimal(n / 10) + [CharOf(n % 10)]
  }

  predicate Canonical(s: string) {
    |s| > 0 && AllDigits(s) && (|s| > 1 ==> s[0] != '0')
  }

  function Pow10(n: nat): (r: nat)
    ensures r >= 1
  {
    if n == 0 then 1 else 10 * Pow10(n - 1)
  }

  lemma {:induction false} DecimalRoundTrip(n: nat)
    ensures DecimalValue(Decimal(n)) == n && Canonical(Decimal(n))
    ensures n > 0 ==> Decimal(n)[0] != '0'
  {
    var s := Decimal(n);
    if n >= 10 {
      DecimalRoundTrip(n / 10);
      assert s[..|s| - 1] == Decimal(n / 10) && s[0] == Decimal(n / 10)[0];
    } else {
      assert s[..0] == [];
    }
  }

  /** A number has one decimal text without leading zeros. */
  lemma {:induction false} CanonicalUnique(s: string)
    requires Canonical(s)
    ensures s == Decimal(DecimalValue(s))
    decreases |s|
  {
    var init, last := s[..|s| - 1], DigitOf(s[|s| - 1]);
    if |s| == 1 {
      assert init == [];
    } else {
      CanonicalUnique(init);
      PositiveValue(init);
      assert DecimalValue(s) / 10 == DecimalValue(init) && DecimalValue(s) % 10 == last;
      assert s == init + [CharOf(last)];
    }
  }

  lemma {:induction false} PositiveValue(s: string)
    requires |s| > 0 && AllDigits(s) && s[0] != '0'
    ensures DecimalValue(s) > 0
    decreases |s|
  {
    if |s| > 1 { PositiveValue(s[..|s| - 1]); }
  }

  lemma {:induction false} DecimalAppend(s: string, t: string)
    requires AllDigits(s) && AllDigits(t)
    ensures AllDigits(s + t) && DecimalValue(s + t) == DecimalValue(s) * Pow10(|t|) + DecimalValue(t)
    decreases |t|
  {
    hide DecimalValue, Pow10;
    if t == [] {
      assert s + t == s;
      EmptyDecimal();
    } else {
      var init := t[..|t| - 1];
      DecimalAppend(s, init);
      assert (s + t)[..|s + t| - 1] == s + init && (s + t)[|s + t| - 1] == t[|t| - 1];
      TenTimes(DecimalValue(s), Pow10(|init|));
      LastDigit(t);
      LastDigit(s + t);
      NextPow10(|init|);
    }
  }

  lemma EmptyDecimal()
    ensures DecimalValue([]) == 0 && Pow10(0) == 1
  {}

  lemma NextPow10(n: nat)
    ensures Pow10(n + 1) == 10 * Pow10(n)
  {}

  lemma LastDigit(s: string)
    requires |s| > 0 && AllDigits(s)
    ensures DecimalValue(s) == 10 * DecimalValue(s[..|s| - 1]) + DigitOf(s[|s| - 1])
  {}

  lemma TenTimes(a: int, p: int)
    ensures 10 * (a * p) == a * (10 * p)
  {}

  lemma {:induction false} DropLeadingZero(s: string)
    requires |s| > 0 && AllDigits(s) && s[0] == '0'
    ensures DecimalValue(s[1..]) == DecimalValue(s)
    decreases |s|
  {
    if |s| == 1 {
      assert s[..0] == [];
    } else {
      DropLeadingZero(s[..|s| - 1]);
      assert s[1..][..|s| - 2] == s[..|s| - 1][1..];
    }
  }

  // ---- operator<< --------------------------------------------------------------------------------

  /** The four digits of one remainder, most significant first. */
  function FourDigits(r: nat): (s: string)
    requires r < 10000
    ensures |s| == 4 && AllDigits(s)
  {
    [CharOf(r / 1000 % 10), CharOf(r / 100 % 10), CharOf(r / 10 % 10), CharOf(r % 10)]
  }

  lemma DecimalSnoc(s: string, d: nat)
    requires AllDigits(s) && d < 10
    ensures AllDigits(s + [CharOf(d)]) && DecimalValue(s + [CharOf(d)]) == 10 * DecimalValue(s) + d
  {
    assert (s + [CharOf(d)])[..|s|] == s;
  }

  lemma FourDigitsValue(r: nat)
    requires r < 10000
    ensures DecimalValue(FourDigits(r)) == r
  {
    var a, b, c, d := r / 1000 % 10, r / 100 % 10, r / 10 % 10, r % 10;
    assert DecimalValue([]) == 0;
    hide DecimalValue, CharOf, IsDigit, DigitOf;
    DecimalSnoc([], a);
    DecimalSnoc([] + [CharOf(a)], b);
    DecimalSnoc([] + [CharOf(a)] + [CharOf(b)], c);
    DecimalSnoc([] + [CharOf(a)] + [CharOf(b)] + [CharOf(c)], d);
    assert FourDigits(r) == [] + [CharOf(a)] + [CharOf(b)] + [CharOf(c)] + [CharOf(d)];
    ColumnsOf(r);
  }

  lemma ColumnsOf(r: nat)
    requires r < 10000
    ensures r / 10 / 10 == r / 100 && r / 10 / 10 / 10 == r / 1000
    ensures 10 * (10 * (10 * (r / 1000 % 10) + r / 100 % 10) + r / 10 % 10) + r % 10 == r
  {
    assert r / 1000 == r / 10 / 10 / 10 && r / 100 == r / 10 / 10;
  }

  /** text holds the low digits of v, and what is left of v is still to be printed. */
  ghost predicate PrintSoFar(v: nat, left: nat, text: string) {
    AllDigits(text) && v == left * Pow10(|text|) + DecimalValue(text)
  }

  lemma PrintGroup(v: nat, left: nat, text: string, r: nat)
    requires PrintSoFar(v, left, text) && r == left % 10000
    ensures PrintSoFar(v, left / 10000, FourDigits(r) + text)
  {
    DecimalAppend(FourDigits(r), text);
    FourDigitsValue(r);
    var p := Pow10(|text|);
    assert Pow10(|text| + 4) == 10 * Pow10(|text| + 3) == 100 * Pow10(|text| + 2) == 1000 * Pow10(|text| + 1) == 10000 * p;
    SplitGroup(left, left / 10000, r, p);
  }

  lemma SplitGroup(left: int, q: int, r: int, p: int)
    requires left == 10000 * q + r
    ensures left * p == q * (10000 * p) + r * p
  {
    assert (10000 * q + r) * p == (10000 * q) * p + r * p;
    assert (10000 * q) * p == q * (10000 * p);
  }

  /** Five characters are enough for a word: 65536 < 10^5. */
  lemma {:induction false} WordsBelowPow10(n: nat)
    ensures Power(n) <= Pow10(5 * n)
  {
    if n > 0 {
      WordsBelowPow10(n - 1);
      var p := Pow10(5 * n - 5);
      assert Pow10(5 * n) == 10 * Pow10(5 * n - 1) == 100 * Pow10(5 * n - 2)
          == 1000 * Pow10(5 * n - 3) == 10000 * Pow10(5 * n - 4) == 100000 * p;
    }
  }

  lemma {:induction false} Pow10Monotone(m: nat, n: nat)
    requires m <= n
    ensures Pow10(m) <= Pow10(n)
  {
    if m < n { Pow10Monotone(m, n - 1); }
  }

  /** While something is left to print, the buffer has room for four more characters. */
  lemma BufferHasRoom(v: nat, left: nat, text: string, words: nat)
    requires PrintSoFar(v, left, text) && left > 0 && v < Power(words)
    ensures |text| < 5 * words
  {
    hide Power, Pow10, DecimalValue;
    var p := Pow10(|text|);
    AtLeastOnce(p, left);
    assert left * p == p * left;
    WordsBelowPow10(words);
    if |text| >= 5 * words {
      Pow10Monotone(5 * words, |text|);
    }
  }

  /** The characters of one remainder go in front of the text, from the right. */
  method WriteGroup(buffer: array<char>, str0: nat, r: nat) returns (str: int)
    requires 3 <= str0 < buffer.Length && r < 10000
    modifies buffer
    ensures str == str0 - 4
    ensures buffer[..] == old(buffer[..])[..str0 - 3] + FourDigits(r) + old(buffer[..])[str0 + 1..]
  {
    hide CharOf;
    ghost var before := buffer[..];
    ColumnsOf(r);
    var remainder := r;
    str := str0;
    var a := CharOf(remainder % 10);
    remainder := remainder / 10;
    var b := CharOf(remainder % 10);
    remainder := remainder / 10;
    var c := CharOf(remainder % 10);
    remainder := remainder / 10;
    var d := CharOf(remainder % 10);
    buffer[str] := a; str := str - 1;
    buffer[str] := b; str := str - 1;
    buffer[str] := c; str := str - 1;
    buffer[str] := d; str := str - 1;
    assert buffer[..] == before[str0 := a][str0 - 1 := b][str0 - 2 := c][str0 - 3 := d];
    FourWritten(before, str0, a, b, c, d);
  }

  lemma FourWritten(before: seq<char>, str0: nat, a: char, b: char, c: char, d: char)
    requires 3 <= str0 < |before|
    ensures before[str0 := a][str0 - 1 := b][str0 - 2 := c][str0 - 3 := d]
         == before[..str0 - 3] + [d, c, b, a] + before[str0 + 1..]
  {}

  lemma PrintStart(v: nat)
    ensures PrintSoFar(v, v, "")
  {}

  lemma NotZero(d: seq<Word>)
    requires Normal(d) && (|d| != 1 || d[0] != 0)
    ensures Value(d) > 0
  {
    if |d| > 1 {
      NormalLower(d);
    }
  }

  lemma ZeroRecord(d: seq<Word>)
    requires |d| == 1 && d[0] == 0
    ensures Value(d) == 0
  {
    ValueSingle(0);
    assert d == [0];
  }

  lemma PrintPositive(v: nat, left: nat, text: string)
    requires PrintSoFar(v, left, text) && left > 0
    ensures v > 0
  {
    AtLeastOnce(Pow10(|text|), left);
  }

  function WithoutZero(s: string): string {
    if s != [] && s[0] == '0' then s[1..] else s
  }

  lemma WithoutZeroValue(s: string)
    requires AllDigits(s)
    ensures AllDigits(WithoutZero(s)) && DecimalValue(WithoutZero(s)) == DecimalValue(s)
  {
    if s != [] && s[0] == '0' { DropLeadingZero(s); }
  }

  lemma ZeroChar(d: nat)
    requires d < 10 && CharOf(d) == '0'
    ensures d == 0
  {}

  lemma ZeroGroup(r: nat)
    requires r < 10000 && r / 1000 % 10 == 0 && r / 100 % 10 == 0 && r / 10 % 10 == 0 && r % 10 == 0
    ensures r == 0
  {}

  /** The first group of a number that is not zero has a digit other than '0'. */
  lemma GroupNotZero(r: nat)
    requires 0 < r < 10000
    ensures var s := FourDigits(r); s[0] != '0' || s[1] != '0' || s[2] != '0' || s[3] != '0'
  {
    hide CharOf;
    var s := FourDigits(r);
    if s[0] == '0' && s[1] == '0' && s[2] == '0' && s[3] == '0' {
      ZeroChar(r / 1000 % 10);
      ZeroChar(r / 100 % 10);
      ZeroChar(r / 10 % 10);
      ZeroChar(r % 10);
      ZeroGroup(r);
    }
  }

  function Stripped(s: string): string {
    WithoutZero(WithoutZero(WithoutZero(s)))
  }

  /** Dropping up to three zeros from the first group leaves the number without leading zeros. */
  lemma PrintDone(v: nat, all: string, top: nat)
    requires PrintSoFar(v, 0, all) && top < 10000 && FourDigits(top) <= all
    requires top > 0 || (v == 0 && |all| == 4)
    ensures Stripped(all) == Decimal(v) && Stripped(all) != []
  {
    hide DecimalValue, FourDigits, Decimal;
    assert DecimalValue(all) == v by { Digits.MulZero(Pow10(|all|)); }
    WithoutZeroValue(all);
    WithoutZeroValue(WithoutZero(all));
    WithoutZeroValue(WithoutZero(WithoutZero(all)));
    var s := Stripped(all);
    if top > 0 {
      GroupNotZero(top);
      assert FourDigits(top) == all[..4];
      assert all[0] != '0' || all[1] != '0' || all[2] != '0' || all[3] != '0';
    }
    assert Canonical(s);
    CanonicalUnique(s);
  }

  lemma GroupInFront(before: seq<char>, now: seq<char>, str0: nat, end: nat, group: string)
    requires 3 <= str0 < end < |before| && |group| == 4
    requires now == before[..str0 - 3] + group + before[str0 + 1..]
    ensures |now| == |before| && now[str0 - 3..end] == group + before[str0 + 1..end]
  {}

  lemma ZeroDropped(buffer: seq<char>, str: nat, end: nat)
    requires str <= end < |buffer| && buffer[end] != '0'
    ensures buffer[str] == '0' ==> str < end
    ensures WithoutZero(buffer[str..end]) == buffer[if buffer[str] == '0' then str + 1 else str..end]
  {}

  /** One more group: divide by 10000 and put the remainder in front of the text. */
  method WriteRemainder(temp: DataRecord, buffer: array<char>, str0: nat, ghost end: nat, ghost v: nat)
    returns (str: int, remainder: Word)
    requires temp.Valid() && 3 <= str0 < end < buffer.Length
    requires PrintSoFar(v, temp.Val(), buffer[str0 + 1..end])
    modifies temp`digitsUsed, temp.number, buffer
    ensures temp.Valid() && str == str0 - 4 && temp.Val() == old(temp.Val()) / 10000
    ensures remainder < 10000 && remainder == old(temp.Val()) % 10000
    ensures buffer[str + 1..end] == FourDigits(remainder) + old(buffer[str0 + 1..end])
    ensures PrintSoFar(v, temp.Val(), buffer[str + 1..end])
    ensures buffer[end] == old(buffer[end])
  {
    hide DataRecord.Val, PrintSoFar, FourDigits, DataRecord.Valid;
    ghost var left, before, written := temp.Val(), buffer[..], buffer[str0 + 1..end];
    remainder := ShortDiv(temp, 10000, temp);
    PrintGroup(v, left, written, remainder);
    str := WriteGroup(buffer, str0, remainder);
    GroupInFront(before, buffer[..], str0, end, FourDigits(remainder));
    assert buffer[str + 1..end] == buffer[..][str + 1..end] && before[str0 + 1..end] == written;
    assert buffer[..][end] == before[end];
  }

  /** The three steps over leading zeros. */
  method SkipZeros(buffer: array<char>, str0: nat, end: nat) returns (str: nat)
    requires str0 < end < buffer.Length && buffer[end] != '0'
    ensures str <= end && buffer[str..end] == Stripped(buffer[str0..end])
  {
    hide WithoutZero;
    ghost var chars := buffer[..];
    str := str0;
    ZeroDropped(chars, str, end);
    if buffer[str] == '0' { str := str + 1; }
    ZeroDropped(chars, str, end);
    if buffer[str] == '0' { str := str + 1; }
    ZeroDropped(chars, str, end);
    if buffer[str] == '0' { str := str + 1; }
    assert buffer[str..end] == chars[str..end] && buffer[str0..end] == chars[str0..end];
  }

  /** operator<<: the text of rhs, built backwards in a buffer of five characters for each word. */
  method Print(rhs: DataRecord) returns (text: string)
    requires rhs.Valid()
    ensures text == Decimal(rhs.Val())
  {
    hide Power, Value, Decimal, DecimalValue, PrintSoFar, Canonical, FourDigits, WithoutZero, Stripped;
    ghost var v, words := rhs.Val(), rhs.digitsUsed;
    ValueBound(rhs.Digits());
    var temp := new DataRecord.Copy(rhs, 0);
    var size := rhs.digitsUsed * 5 + 10;
    var buffer := new char[size];
    var end := rhs.digitsUsed * 5 + 9;
    buffer[end] := '\0';
    PrintStart(v);
    assert buffer[end..end] == "";
    var str, remainder := WriteRemainder(temp, buffer, end - 1, end, v);
    ghost var top: nat := remainder;
    while temp.digitsUsed != 1 || temp.number[0] != 0
      invariant temp.Valid() && words * 5 + 9 == end && v < Power(words)
      invariant 0 <= str + 1 < end && end < buffer.Length && buffer[end] == '\0'
      invariant PrintSoFar(v, temp.Val(), buffer[str + 1..end])
      invariant top < 10000 && FourDigits(top) <= buffer[str + 1..end]
      invariant temp.Val() == 0 ==> top > 0 || v == 0
      invariant v == 0 ==> str + 5 == end
      decreases temp.Val()
    {
      NotZero(temp.Digits());
      BufferHasRoom(v, temp.Val(), buffer[str + 1..end], words);
      PrintPositive(v, temp.Val(), buffer[str + 1..end]);
      str, remainder := WriteRemainder(temp, buffer, str, end, v);
      top := remainder;
    }
    ZeroRecord(temp.Digits());
    PrintDone(v, buffer[str + 1..end], top);
    str := SkipZeros(buffer, str + 1, end);
    text := buffer[str..end];
  }

  // ---- operator>> --------------------------------------------------------------------------------

  predicate IsBlank(c: char) { c == ' ' || c == '\t' || c == '\n' }

  function SkipBlanks(s: string, i: nat): (j: nat)
    requires i <= |s|
    ensures i <= j <= |s| && (forall k :: i <= k < j ==> IsBlank(s[k])) && (j < |s| ==> !IsBlank(s[j]))
    decreases |s| - i
  {
    if i < |s| && IsBlank(s[i]) then SkipBlanks(s, i + 1) else i
  }

  function DigitsEnd(s: string, i: nat): (j: nat)
    requires i <= |s|
    ensures i <= j <= |s| && (forall k :: i <= k < j ==> IsDigit(s[k])) && (j < |s| ==> !IsDigit(s[j]))
    decreases |s| - i
  {
    if i < |s| && IsDigit(s[i]) then DigitsEnd(s, i + 1) else i
  }

  /** There is one place where a run of digits ends. */
  lemma {:induction false} DigitsEndUnique(s: string, i: nat, j: nat)
    requires i <= j <= |s| && (forall k :: i <= k < j ==> IsDigit(s[k])) && (j < |s| ==> !IsDigit(s[j]))
    ensures DigitsEnd(s, i) == j
    decreases j - i
  {
    if i < j { DigitsEndUnique(s, i + 1, j); }
  }

  /** `peek` sees a digit; at the end of the input it sees none. */
  predicate DigitAt(s: string, i: nat) { i < |s| && IsDigit(s[i]) }

  lemma DigitsAppend(s: string, i: nat, j: nat)
    requires i <= j < |s| && AllDigits(s[i..j]) && IsDigit(s[j])
    ensures AllDigits(s[i..j + 1]) && DecimalValue(s[i..j + 1]) == 10 * DecimalValue(s[i..j]) + DigitOf(s[j])
  {
    assert s[i..j + 1] == s[i..j] + [s[j]];
    assert s[i..j + 1][..j - i] == s[i..j];
  }

  /** Up to four digits of the input from i, their number, and ten to the power of how many. */
  ghost predicate GroupRead(s: string, i: nat, j: nat, numRead: nat, num: nat) {
    i <= j <= |s| && j <= i + 4 && AllDigits(s[i..j]) && num == DecimalValue(s[i..j]) && numRead == Pow10(j - i)
  }

  lemma GroupReadNext(s: string, i: nat, j: nat, numRead: nat, num: nat)
    requires GroupRead(s, i, j, numRead, num) && j < i + 4 && DigitAt(s, j)
    ensures GroupRead(s, i, j + 1, numRead * 10, num * 10 + DigitOf(s[j]))
  {
    DigitsAppend(s, i, j);
  }

  lemma GroupReadStart(s: string, i: nat)
    requires i <= |s|
    ensures GroupRead(s, i, i, 1, 0)
  {}

  lemma GroupReadBounds(s: string, i: nat, j: nat, numRead: nat, num: nat)
    requires GroupRead(s, i, j, numRead, num)
    ensures 1 <= numRead <= 10000 && num < numRead && (numRead == 1 <==> j == i) && (numRead == 10000 <==> j == i + 4)
  {
    assert Pow10(0) == 1 && Pow10(1) == 10 && Pow10(2) == 100 && Pow10(3) == 1000 && Pow10(4) == 10000;
    DecimalBound(s[i..j]);
    assert j - i == 0 || j - i == 1 || j - i == 2 || j - i == 3 || j - i == 4;
  }

  lemma {:induction false} DecimalBound(s: string)
    requires AllDigits(s)
    ensures DecimalValue(s) < Pow10(|s|)
    decreases |s|
  {
    if s != [] { DecimalBound(s[..|s| - 1]); }
  }

  /** Four attempts to get a digit; a failed one is followed by failed ones. */
  method ReadGroup(s: string, i: nat) returns (j: nat, numRead: Word, num: Word)
    requires i <= |s|
    ensures GroupRead(s, i, j, numRead, num) && i <= j <= |s| && j <= i + 4
    ensures j < i + 4 ==> !DigitAt(s, j)
  {
    hide GroupRead;
    j := i;
    numRead, num := 1, 0;
    var a, b, c, d := '\0', '\0', '\0', '\0';
    if DigitAt(s, j) { numRead := numRead * 10; a := s[j]; j := j + 1; }
    if DigitAt(s, j) { numRead := numRead * 10; b := s[j]; j := j + 1; }
    if DigitAt(s, j) { numRead := numRead * 10; c := s[j]; j := j + 1; }
    if DigitAt(s, j) { numRead := numRead * 10; d := s[j]; j := j + 1; }
    GroupReadStart(s, i);
    if a != '\0' { num := DigitOf(a); GroupReadNext(s, i, i, 1, 0); }
    if b != '\0' { GroupReadNext(s, i, i + 1, 10, num); num := num * 10; num := num + DigitOf(b); }
    if c != '\0' { GroupReadNext(s, i, i + 2, 100, num); num := num * 10; num := num + DigitOf(c); }
    if d != '\0' { GroupReadNext(s, i, i + 3, 1000, num); num := num * 10; num := num + DigitOf(d); }
  }

  /** temp holds the number of the digits read so far. */
  lemma GroupAppended(s: string, start: nat, i: nat, j: nat, numRead: nat, num: nat)
    requires start <= i <= |s| && AllDigits(s[start..i]) && GroupRead(s, i, j, numRead, num)
    ensures AllDigits(s[start..j]) && DecimalValue(s[start..j]) == TimesNat(DecimalValue(s[start..i]), numRead) + num
  {
    DecimalAppend(s[start..i], s[i..j]);
    assert s[start..i] + s[i..j] == s[start..j];
  }

  method IgnoreBlanks(s: string, i: nat) returns (j: nat)
    requires i <= |s|
    ensures j == SkipBlanks(s, i)
  {
    j := i;
    while j < |s| && IsBlank(s[j])
      invariant i <= j <= |s| && SkipBlanks(s, i) == SkipBlanks(s, j)
    {
      j := j + 1;
    }
  }

  /** One group of digits more. */
  method TakeGroup(pool: Pool, temp: Name, numRead: Word, num: Word)
    requires pool.Valid() && temp in pool.handles && temp in pool.numbers && numRead != 0
    modifies pool, pool.Repr
    ensures pool.Valid() && fresh(pool.Repr - old(pool.Repr))
    ensures pool.numbers == old(pool.numbers)[temp := TimesNat(old(pool.numbers)[temp], numRead) + num]
  {
    hide TimesNat, Pool.Valid, Pool.ValidBut, DataRecord.Val;
    pool.TimesShort(temp, numRead);
    pool.Names();
    pool.AddShort(temp, num);
  }

  /** The loop over groups of four: temp takes the number of the digits that begin at start. */
  method ReadDigits(pool: Pool, temp: Name, s: string, start: nat) returns (j: nat)
    requires pool.Valid() && temp in pool.handles && temp in pool.numbers && pool.numbers[temp] == 0
    requires DigitAt(s, start)
    modifies pool, pool.Repr
    ensures pool.Valid() && fresh(pool.Repr - old(pool.Repr))
    ensures j == DigitsEnd(s, start) && j > start
    ensures pool.numbers == old(pool.numbers)[temp := DecimalValue(s[start..j])]
  {
    hide GroupRead, DecimalValue, DigitsEnd, TimesNat, Pool.Valid;
    ghost var was := pool.numbers;
    NoDigits(s, start);
    j := start;
    var more := true;
    while more
      invariant start <= j <= |s| && AllDigits(s[start..j])
      invariant pool.Valid() && fresh(pool.Repr - old(pool.Repr))
      invariant pool.numbers == was[temp := DecimalValue(s[start..j])] && temp in pool.handles
      invariant !more ==> j > start && !DigitAt(s, j)
      invariant j == start ==> DigitAt(s, j)
      decreases more, |s| - j
    {
      var next, numRead, num := ReadGroup(s, j);
      GroupReadBounds(s, j, next, numRead, num);
      GroupAppended(s, start, j, next, numRead, num);
      if numRead != 1 {
        pool.Names();
        TakeGroup(pool, temp, numRead, num);
        pool.Names();
      }
      j := next;
      more := numRead == 10000;
    }
    RunEnds(s, start, j);
  }

  lemma RunEnds(s: string, start: nat, j: nat)
    requires start <= j <= |s| && AllDigits(s[start..j]) && !DigitAt(s, j)
    ensures DigitsEnd(s, start) == j
  {
    forall k | start <= k < j ensures IsDigit(s[k]) { assert s[start..j][k - start] == s[k]; }
    DigitsEndUnique(s, start, j);
  }

  datatype Read = Got(value: nat, next: nat) | Malformed

  datatype ReadMany = GotAll(values: seq<nat>, next: nat) | Failed

  /** The run of digits behind the blanks at i, if there is one. */
  function Extracted(s: string, i: nat): (r: Read)
    requires i <= |s|
    ensures r.Got? ==> i < r.next <= |s|
  {
    var start := SkipBlanks(s, i);
    if DigitAt(s, start) then Got(DecimalValue(s[start..DigitsEnd(s, start)]), DigitsEnd(s, start)) else Malformed
  }

  /**
   * operator>>: the number of the run of digits that follows the blanks at i goes to rhs; where
   * there is no digit rhs keeps its number. `temp` is the handle of the local bigint.
   */
  method Parse(pool: Pool, rhs: Name, temp: Name, s: string, i: nat) returns (ok: bool, j: nat)
    requires pool.Valid() && rhs in pool.handles && temp !in pool.handles && i <= |s|
    modifies pool, pool.Repr
    ensures pool.Valid() && fresh(pool.Repr - old(pool.Repr))
    ensures match Extracted(s, i) {
      case Got(v, end) => ok && j == end && pool.numbers == old(pool.numbers)[rhs := v]
      case Malformed => !ok && j == SkipBlanks(s, i) && pool.numbers == old(pool.numbers)
    }
  {
    hide GroupRead, DecimalValue, DigitsEnd, SkipBlanks, TimesNat, Pool.Valid;
    j := IgnoreBlanks(s, i);
    if !DigitAt(s, j) {
      return false, j;
    }
    ok := true;
    ghost var was := pool.numbers;
    ghost var v := DecimalValue(s[j..DigitsEnd(s, j)]);
    pool.Names();
    Passed(was, temp, rhs, v);
    pool.Make(temp, 0);
    pool.Names();
    j := ReadDigits(pool, temp, s, j);
    pool.Names();
    pool.Assign(rhs, temp);
    pool.Names();
    pool.Destroy(temp);
  }

  /** A number that passes through a handle of its own. */
  lemma Passed(m: map<Name, nat>, temp: Name, rhs: Name, v: nat)
    requires temp !in m && rhs in m
    ensures m[temp := 0][temp := v][rhs := v] - {temp} == m[rhs := v]
  {}

  lemma NoDigits(s: string, j: nat)
    requires j <= |s|
    ensures s[j..j] == [] && AllDigits(s[j..j]) && DecimalValue(s[j..j]) == 0
  {}

  // ---- what is skipped and what is read ----------------------------------------------------------

  /** Blanks, tabs and line feeds, and nothing else, are skipped, up to the first character that is none of them. */
  lemma {:induction false} SkipsExactly(s: string, i: nat, j: nat)
    requires i <= j <= |s|
    ensures SkipBlanks(s, i) == j <==>
      && (forall k :: i <= k < j ==> s[k] == ' ' || s[k] == '\t' || s[k] == '\n')
      && (j < |s| ==> s[j] != ' ' && s[j] != '\t' && s[j] != '\n')
    decreases j - i
  {
    if i < j && (s[i] == ' ' || s[i] == '\t' || s[i] == '\n') { SkipsExactly(s, i + 1, j); }
  }

  predicate AllBlanks(b: string) {
    forall k :: 0 <= k < |b| ==> b[k] == ' ' || b[k] == '\t' || b[k] == '\n'
  }

  lemma ExtractedAt(s: string, i: nat, start: nat, end: nat)
    requires i <= start < end <= |s| && AllBlanks(s[i..start]) && AllDigits(s[start..end])
    requires end < |s| ==> !('0' <= s[end] <= '9')
    ensures Extracted(s, i) == Got(DecimalValue(s[start..end]), end)
  {
    hide DecimalValue;
    forall k | i <= k < start ensures s[k] == ' ' || s[k] == '\t' || s[k] == '\n' { assert s[i..start][k - i] == s[k]; }
    forall k | start <= k < end ensures '0' <= s[k] <= '9' { assert s[start..end][k - start] == s[k]; }
    SkipsExactly(s, i, start);
    DigitsEndUnique(s, start, end);
    hide SkipBlanks, DigitsEnd;
  }

  /** Digits behind any blanks are read to their end, with leading zeros or without, whatever stands around them. */
  lemma DigitsExtracted(before: string, b: string, d: string, rest: string)
    requires AllBlanks(b) && |d| > 0 && AllDigits(d) && (rest != "" ==> !('0' <= rest[0] <= '9'))
    ensures Extracted(before + b + d + rest, |before|) == Got(DecimalValue(d), |before| + |b| + |d|)
  {
    hide *;
    Pieces(before, b, d, rest);
    PiecesExtracted(before + b + d + rest, |before|, b, d);
  }

  lemma PiecesExtracted(s: string, i: nat, b: string, d: string)
    requires i + |b| + |d| <= |s| && s[i..i + |b|] == b && s[i + |b|..i + |b| + |d|] == d
    requires AllBlanks(b) && |d| > 0 && AllDigits(d) && (i + |b| + |d| < |s| ==> !('0' <= s[i + |b| + |d|] <= '9'))
    ensures Extracted(s, i) == Got(DecimalValue(d), i + |b| + |d|)
  {
    hide *;
    ExtractedAt(s, i, i + |b|, i + |b| + |d|);
  }

  lemma Pieces(a: string, b: string, c: string, d: string)
    ensures var s, i, j := a + b + c + d, |a| + |b|, |a| + |b| + |c|;
      |s| == j + |d| && s[|a|..i] == b && s[i..j] == c && (d != "" ==> s[j] == d[0])
  {
    var s, i, j := a + b + c + d, |a| + |b|, |a| + |b| + |c|;
    assert a + b + c + d == (a + b + c) + d && s[..j] == a + b + c && s[..i] == a + b;
  }

  /** A number behind any blanks is read, and reading stops behind its last digit. */
  lemma NumberExtracted(before: string, b: string, n: nat, rest: string)
    requires AllBlanks(b) && (rest != "" ==> !('0' <= rest[0] <= '9'))
    ensures Extracted(before + b + Decimal(n) + rest, |before|) == Got(n, |before| + |b| + |Decimal(n)|)
  {
    DecimalRoundTrip(n);
    hide Decimal, DecimalValue;
    DigitsExtracted(before, b, Decimal(n), rest);
  }

  /** Nothing is read if the first character that is not blank is no digit, or there is none. */
  lemma NothingExtracted(before: string, b: string, rest: string)
    requires AllBlanks(b) && (rest != "" ==> !('0' <= rest[0] <= '9') && rest[0] != ' ' && rest[0] != '\t' && rest[0] != '\n')
    ensures Extracted(before + b + rest, |before|) == Malformed && SkipBlanks(before + b + rest, |before|) == |before| + |b|
  {
    var s, i := before + b + rest, |before| + |b|;
    assert forall k :: |before| <= k < i ==> s[k] == b[k - |before|];
    assert i < |s| ==> s[i] == rest[0];
    SkipsExactly(s, |before|, i);
  }

  /** Numbers with blanks in front of each, as they stand one to a line or in columns. */
  function Column(blanks: seq<string>, ns: seq<nat>): string
    requires |blanks| == |ns|
  {
    if ns == [] then "" else blanks[0] + Decimal(ns[0]) + Column(blanks[1..], ns[1..])
  }

  /** count uses of operator>> in a row. */
  function ExtractAll(s: string, i: nat, count: nat): ReadMany
    requires i <= |s|
    decreases count
  {
    if count == 0 then GotAll([], i) else
    match Extracted(s, i)
    case Malformed => Failed
    case Got(v, next) =>
      match ExtractAll(s, next, count - 1)
      case Failed => Failed
      case GotAll(vs, end) => GotAll([v] + vs, end)
  }

  /** Numbers with blanks, tabs or line feeds between them are read one after another. */
  lemma {:induction false} ColumnExtracted(before: string, blanks: seq<string>, ns: seq<nat>, rest: string)
    requires |blanks| == |ns| && (rest != "" ==> !('0' <= rest[0] <= '9'))
    requires forall k :: 0 <= k < |blanks| ==> AllBlanks(blanks[k]) && (k > 0 ==> blanks[k] != "")
    ensures ExtractAll(before + Column(blanks, ns) + rest, |before|, |ns|) == GotAll(ns, |before| + |Column(blanks, ns)|)
    decreases |ns|
  {
    NoColumn(before, blanks, ns, rest);
    hide *;
    if |ns| > 0 {
      var b, d, others := blanks[0], Decimal(ns[0]), Column(blanks[1..], ns[1..]);
      ColumnFirst(blanks, ns);
      ColumnPieces(before, b, d, others, Column(blanks, ns), rest);
      BeginsBlank(blanks, ns, rest);
      NumberExtracted(before, b, ns[0], others + rest);
      ColumnExtracted(before + b + d, blanks[1..], ns[1..], rest);
      ExtractedMore(before + Column(blanks, ns) + rest, |before|, ns, |before + b + d|, |before + b + d| + |others|);
    }
  }

  lemma NoColumn(before: string, blanks: seq<string>, ns: seq<nat>, rest: string)
    requires |blanks| == |ns|
    ensures |ns| == 0 ==> ExtractAll(before + Column(blanks, ns) + rest, |before|, |ns|) == GotAll(ns, |before| + |Column(blanks, ns)|)
  {}

  lemma ColumnFirst(blanks: seq<string>, ns: seq<nat>)
    requires |blanks| == |ns| > 0
    ensures Column(blanks, ns) == blanks[0] + Decimal(ns[0]) + Column(blanks[1..], ns[1..])
  {
    hide Decimal;
  }

  lemma ColumnPieces(before: string, b: string, d: string, others: string, all: string, rest: string)
    requires all == b + d + others
    ensures before + all + rest == before + b + d + (others + rest)
    ensures before + all + rest == (before + b + d) + others + rest
    ensures |before + b + d| == |before| + |b| + |d| && |all| == |b| + |d| + |others|
  {}

  /** One number more in front of those read. */
  lemma ExtractedMore(s: string, i: nat, ns: seq<nat>, next: nat, end: nat)
    requires i <= |s| && next <= |s| && ns != [] && Extracted(s, i) == Got(ns[0], next)
    requires ExtractAll(s, next, |ns| - 1) == GotAll(ns[1..], end)
    ensures ExtractAll(s, i, |ns|) == GotAll(ns, end)
  {
    hide Extracted;
    assert [ns[0]] + ns[1..] == ns;
  }

  /** What follows a number of a column is no digit. */
  lemma BeginsBlank(blanks: seq<string>, ns: seq<nat>, rest: string)
    requires |blanks| == |ns| > 0 && (rest != "" ==> !('0' <= rest[0] <= '9'))
    requires forall k :: 0 <= k < |blanks| ==> AllBlanks(blanks[k]) && (k > 0 ==> blanks[k] != "")
    ensures var text := Column(blanks[1..], ns[1..]) + rest; text != "" ==> !('0' <= text[0] <= '9')
  {
    hide Decimal;
    if |ns| > 1 { assert blanks[1..][0] == blanks[1]; }
  }

  // ---- serialize and deserialize -----------------------------------------------------------------

  /** What `deserialize` gets from s at i: a number and the one space after it. */
  function ReadOne(s: string, i: nat): Read
    requires i <= |s|
  {
    match Extracted(s, i)
    case Got(v, end) => if end < |s| && s[end] == ' ' then Got(v, end + 1) else Malformed
    case Malformed => Malformed
  }

  method Serialize(item: DataRecord) returns (text: string)
    requires item.Valid()
    ensures text == Decimal(item.Val()) + " "
  {
    text := Print(item);
    text := text + " ";
  }

  /** deserialize: an item that cannot be read becomes zero. */
  method Deserialize(pool: Pool, item: Name, temp: Name, s: string, i: nat) returns (ok: bool, next: nat)
    requires pool.Valid() && item in pool.handles && temp !in pool.handles && i <= |s|
    modifies pool, pool.Repr
    ensures pool.Valid() && fresh(pool.Repr - old(pool.Repr))
    ensures match ReadOne(s, i) {
      case Got(v, end) => ok && next == end && pool.numbers == old(pool.numbers)[item := v]
      case Malformed => !ok && pool.numbers == old(pool.numbers)[item := 0]
    }
  {
    hide DecimalValue, Pool.Valid;
    ghost var was := pool.numbers;
    pool.Names();
    ok, next := Parse(pool, item, temp, s, i);
    pool.Names();
    if !ok || next == |s| || s[next] != ' ' {
      ok := false;
      pool.AssignShort(item, 0);
    } else {
      next := next + 1;
    }
  }

  /** What `serialize` writes is read back, and reading stops right behind it. */
  lemma ReadsBack(before: string, n: nat, rest: string)
    ensures ReadOne(before + Decimal(n) + " " + rest, |before|) == Got(n, |before| + |Decimal(n)| + 1)
  {
    hide Decimal, Extracted;
    NumberExtracted(before, "", n, " " + rest);
    assert before + "" + Decimal(n) + (" " + rest) == before + Decimal(n) + " " + rest;
  }

  function Serialized(ns: seq<nat>): string {
    if ns == [] then "" else Decimal(ns[0]) + " " + Serialized(ns[1..])
  }

  /** count calls of `deserialize` in a row. */
  function ReadAll(s: string, i: nat, count: nat): ReadMany
    requires i <= |s|
    decreases count
  {
    if count == 0 then GotAll([], i) else
    match ReadOne(s, i)
    case Malformed => Failed
    case Got(v, next) =>
      match ReadAll(s, next, count - 1)
      case Failed => Failed
      case GotAll(vs, end) => GotAll([v] + vs, end)
  }

  /** Numbers written one after another are read back one after another. */
  lemma {:induction false} AllReadBack(before: string, ns: seq<nat>, rest: string)
    ensures ReadAll(before + Serialized(ns) + rest, |before|, |ns|)
         == GotAll(ns, |before| + |Serialized(ns)|)
    decreases |ns|
  {
    NoneSerialized(before, ns, rest);
    hide *;
    if |ns| > 0 {
      var first, others := Decimal(ns[0]), Serialized(ns[1..]);
      FirstSerialized(ns);
      ColumnPieces(before, first, " ", others, Serialized(ns), rest);
      ReadsBack(before, ns[0], others + rest);
      AllReadBack(before + first + " ", ns[1..], rest);
      ReadMore(before + Serialized(ns) + rest, |before|, ns, |before + first + " "|, |before + first + " "| + |others|);
    }
  }

  lemma NoneSerialized(before: string, ns: seq<nat>, rest: string)
    ensures |ns| == 0 ==> ReadAll(before + Serialized(ns) + rest, |before|, |ns|) == GotAll(ns, |before| + |Serialized(ns)|)
  {}

  lemma FirstSerialized(ns: seq<nat>)
    requires |ns| > 0
    ensures Serialized(ns) == Decimal(ns[0]) + " " + Serialized(ns[1..]) && |" "| == 1
  {
    hide Decimal;
  }

  lemma ReadMore(s: string, i: nat, ns: seq<nat>, next: nat, end: nat)
    requires i <= |s| && next <= |s| && ns != [] && ReadOne(s, i) == Got(ns[0], next)
    requires ReadAll(s, next, |ns| - 1) == GotAll(ns[1..], end)
    ensures ReadAll(s, i, |ns|) == GotAll(ns, end)
  {
    hide ReadOne;
    assert [ns[0]] + ns[1..] == ns;
  }
}
