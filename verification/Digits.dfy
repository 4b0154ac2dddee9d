/**
 * Numbers as sequences of 16-bit words, least significant first. `Value` is what a sequence
 * of words stands for; `Normal` is the form every record is meant to keep its words in.
 */
module Digits {
  import opened Basics

  const BASE := 0x1_0000

  type Word = x: int | 0 <= x < 0x1_0000

  function Power(n: nat): (r: nat)
    ensures r >= 1
  {
    if n == 0 then 1 else BASE * Power(n - 1)
  }

  function Value(s: seq<Word>): nat {
    if s == [] then 0 else s[0] + BASE * Value(s[1..])
  }

  /** One word, or no zero word at the top. */
  predicate Normal(s: seq<Word>) {
    |s| >= 1 && (|s| == 1 || s[|s| - 1] != 0)
  }

  // ---- value ---------------------------------------------------------------------------

  lemma {:induction false} ValueAppend(s: seq<Word>, t: seq<Word>)
    ensures Value(s + t) == Value(s) + Power(|s|) * Value(t)
  {
    if s == [] {
      assert s + t == t;
    } else {
      ValueAppend(s[1..], t);
      assert (s + t)[1..] == s[1..] + t;
      MulAssoc(BASE, Power(|s| - 1), Value(t));
    }
  }

  lemma ValueSnoc(s: seq<Word>, x: Word)
    ensures Value(s + [x]) == Value(s) + Power(|s|) * x
  {
    ValueAppend(s, [x]);
    assert Value([x]) == x + BASE * Value([]);
  }

  /** Word i is the digit of the value in base 65536, least significant first. */
  lemma {:induction false} WordOf(s: seq<Word>, i: nat)
    requires i < |s|
    ensures Power(0) == 1 && Power(i + 1) == 65536 * Power(i) && s[i] == Value(s) / Power(i) % 65536
    decreases i
  {
    if i > 0 {
      WordOf(s[1..], i - 1);
      assert Value(s) / 65536 == Value(s[1..]);
      DivideTwice(Value(s), 65536, Power(i - 1));
    }
  }

  /** The value of one more word of a longer sequence. */
  lemma ValueExtend(s: seq<Word>, i: nat)
    requires i < |s|
    ensures Value(s[..i + 1]) == Value(s[..i]) + Power(i) * s[i]
  {
    ValueSnoc(s[..i], s[i]);
    assert s[..i + 1] == s[..i] + [s[i]];
  }

  lemma ValueSplit(s: seq<Word>, i: nat)
    requires i <= |s|
    ensures Value(s) == Value(s[..i]) + Power(i) * Value(s[i..])
  {
    hide Value, Power;
    ValueAppend(s[..i], s[i..]);
    assert s == s[..i] + s[i..];
  }

  lemma ValueSingle(x: Word)
    ensures Value([x]) == x
  {
    assert [x][1..] == [];
  }

  lemma {:induction false} ValueZeros(s: seq<Word>)
    requires forall i :: 0 <= i < |s| ==> s[i] == 0
    ensures Value(s) == 0
  {
    if s != [] { ValueZeros(s[1..]); }
  }

  lemma {:induction false} ValueBound(s: seq<Word>)
    ensures Value(s) < Power(|s|)
  {
    if s != [] { ValueBound(s[1..]); }
  }

  lemma {:induction false} PowerMonotone(m: nat, n: nat)
    requires m <= n
    ensures Power(m) <= Power(n)
  {
    if m < n { PowerMonotone(m, n - 1); }
  }

  lemma {:induction false} PowerAdd(m: nat, n: nat)
    ensures Power(m + n) == Power(m) * Power(n)
  {
    if m > 0 {
      PowerAdd(m - 1, n);
      MulAssoc(BASE, Power(m - 1), Power(n));
    }
  }

  // ---- normal form ---------------------------------------------------------------------

  /** The number of words of a normal form and its value bound each other. */
  lemma NormalLower(s: seq<Word>)
    requires Normal(s) && |s| > 1
    ensures Value(s) >= Power(|s| - 1)
  {
    var n := |s| - 1;
    ValueExtend(s, n);
    assert s[..n + 1] == s;
    AtLeastOnce(Power(n), s[n]);
  }

  lemma AtLeastOnce(p: nat, x: int)
    requires x >= 1
    ensures p * x >= p
  {}

  lemma MulZero(p: int)
    ensures p * 0 == 0 && p * 1 == p
  {}

  lemma NormalIfLarge(s: seq<Word>)
    requires |s| > 1 && Value(s) >= Power(|s| - 1)
    ensures Normal(s)
  {
    var n := |s| - 1;
    ValueExtend(s, n);
    assert s[..n + 1] == s;
    ValueBound(s[..n]);
    if s[n] == 0 { MulZero(Power(n)); }
  }

  /** Fewer words, smaller value. */
  lemma ShorterIsSmaller(a: seq<Word>, b: seq<Word>)
    requires Normal(b) && 1 <= |a| < |b|
    ensures Value(a) < Value(b)
  {
    ValueBound(a);
    PowerMonotone(|a|, |b| - 1);
    NormalLower(b);
  }

  /** A bound on the value bounds the number of words. */
  lemma LengthFromValue(s: seq<Word>, n: nat)
    requires Normal(s) && n >= 1 && Value(s) < Power(n)
    ensures |s| <= n
  {
    if |s| > n {
      NormalLower(s);
      PowerMonotone(n, |s| - 1);
    }
  }

  /** Smaller value, no more words. */
  lemma LengthFromOrder(a: seq<Word>, b: seq<Word>)
    requires Normal(a) && Normal(b) && Value(a) <= Value(b)
    ensures |a| <= |b|
  {
    ValueBound(b);
    LengthFromValue(a, |b|);
  }

  /** Among sequences of one length the top word decides, then the rest. */
  lemma TopWordDecides(a: seq<Word>, b: seq<Word>)
    requires |a| == |b| > 0 && a[|a| - 1] < b[|b| - 1]
    ensures Value(a) < Value(b)
  {
    var n := |a| - 1;
    ValueExtend(a, n); ValueExtend(b, n);
    assert a[..n + 1] == a && b[..n + 1] == b;
    ValueBound(a[..n]);
    MulDistribute(Power(n), a[n], b[n]);
    AtLeastOnce(Power(n), b[n] - a[n]);
  }

  lemma MulDistribute(p: int, x: int, y: int)
    ensures p * y == p * x + p * (y - x)
  {}

  lemma {:induction false} SameLengthUnique(a: seq<Word>, b: seq<Word>)
    requires |a| == |b| && Value(a) == Value(b)
    ensures a == b
  {
    if |a| > 0 {
      SameLengthUnique(a[1..], b[1..]);
      assert a == [a[0]] + a[1..] && b == [b[0]] + b[1..];
    }
  }

  /** A number has one normal form. */
  lemma NormalUnique(a: seq<Word>, b: seq<Word>)
    requires Normal(a) && Normal(b) && Value(a) == Value(b)
    ensures a == b
  {
    LengthFromOrder(a, b);
    LengthFromOrder(b, a);
    SameLengthUnique(a, b);
  }
}
