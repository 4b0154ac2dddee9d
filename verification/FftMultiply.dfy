/** long_mul of bigint_kernel_2: large operands are multiplied through the fast Fourier transform. */
module FftMultiply {
  import Basics
  import opened Complex
  import opened FftSpec
  import opened FftLoops
  import opened Digits
  import opened Records
  import opened LongHelpers
  import opened LongArithmetic

  // ---- 8-bit chunks ------------------------------------------------------------------------------

  /** A number in base 256, least significant chunk first; chunks may be larger than 255. */
  function Value256(c: seq<nat>): nat {
    if c == [] then 0 else c[0] + 256 * Value256(c[1..])
  }

  /** The words of s cut into low and high bytes. */
  function Chunks(s: seq<Word>): (c: seq<nat>)
    ensures |c| == 2 * |s|
    ensures forall i :: 0 <= i < |c| ==> c[i] <= 255
    ensures forall i :: 0 <= i < |s| ==> c[2 * i] == s[i] % 256 && c[2 * i + 1] == s[i] / 256
  {
    if s == [] then [] else Chunks(s[..|s| - 1]) + [s[|s| - 1] % 256, s[|s| - 1] / 256]
  }

  lemma {:induction false} Value256Append(c: seq<nat>, d: seq<nat>)
    ensures Value256(c + d) == Value256(c) + Power256(|c|) * Value256(d)
  {
    if c == [] {
      assert c + d == d;
    } else {
      Value256Append(c[1..], d);
      assert (c + d)[1..] == c[1..] + d;
      Basics.MulAssoc(256, Power256(|c| - 1), Value256(d));
    }
  }

  function Power256(n: nat): (r: nat)
    ensures r >= 1
  {
    if n == 0 then 1 else 256 * Power256(n - 1)
  }

  lemma {:induction false} Power256Words(n: nat)
    ensures Power256(2 * n) == Power(n)
  {
    if n > 0 {
      Power256Words(n - 1);
      assert Power256(2 * n) == 256 * Power256(2 * n - 1) == 256 * (256 * Power256(2 * n - 2));
    }
  }

  lemma Value256Two(x: nat, y: nat)
    ensures Value256([x, y]) == x + 256 * y
  {
    assert [x, y][1..] == [y] && [y][1..] == [];
    assert Value256([y]) == y + 256 * Value256([]);
  }

  lemma {:induction false} ChunksValue(s: seq<Word>)
    ensures Value256(Chunks(s)) == Value(s)
  {
    if s != [] {
      var n := |s| - 1;
      ChunksValue(s[..n]);
      Value256Append(Chunks(s[..n]), [s[n] % 256, s[n] / 256]);
      Value256Two(s[n] % 256, s[n] / 256);
      Power256Words(n);
      ValueExtend(s, n);
      assert s[..n + 1] == s;
    }
  }

  // ---- integers among the complex numbers -----------------------------------------------------------

  function Embed(x: int): Ct { Ct(x as real, 0.0) }

  function EmbedAll(c: seq<nat>): (r: seq<Ct>)
    ensures |r| == |c| && forall i :: 0 <= i < |c| ==> r[i] == Embed(c[i])
  {
    seq(|c|, i requires 0 <= i < |c| => Embed(c[i]))
  }

  lemma EmbedArithmetic(x: int, y: int)
    ensures Add(Embed(x), Embed(y)) == Embed(x + y)
    ensures Mul(Embed(x), Embed(y)) == Embed(x * y)
  {
    ProductAsReal(x, y);
  }

  lemma {:induction false} ProductAsReal(x: int, y: int)
    ensures (x * y) as real == x as real * y as real
    decreases if x < 0 then -x else x
  {
    if x > 0 {
      ProductAsReal(x - 1, y);
      assert x * y == (x - 1) * y + y;
    } else if x < 0 {
      ProductAsReal(x + 1, y);
      assert x * y == (x + 1) * y - y;
    }
  }

  lemma {:induction false} EvalEmbedded(c: seq<nat>)
    ensures Eval(EmbedAll(c), Embed(256)) == Embed(Value256(c))
  {
    hide Mul, Add, Embed;
    if c == [] {
      EmbedZero();
    } else {
      EvalEmbedded(c[1..]);
      assert EmbedAll(c)[1..] == EmbedAll(c[1..]);
      EmbedArithmetic(256, Value256(c[1..]));
      EmbedArithmetic(c[0], 256 * Value256(c[1..]));
    }
  }

  lemma EmbedZero()
    ensures Embed(0) == ZERO
  {}

  lemma EmbedInjective(x: int, y: int)
    requires Embed(x) == Embed(y)
    ensures x == y
  {
    assert x as real == y as real;
  }

  // ---- integer convolution ------------------------------------------------------------------------

  /** The sum over i < m of a[i] * b[(k - i) mod n], on natural numbers. */
  function Coefficient(a: seq<nat>, b: seq<nat>, k: nat, m: nat): nat
    requires m <= |a| == |b| && k < |b|
  {
    if m == 0 then 0 else Coefficient(a, b, k, m - 1) + a[m - 1] * b[Wrap(k - (m - 1), |b|)]
  }

  function Coefficients(a: seq<nat>, b: seq<nat>): (c: seq<nat>)
    requires |a| == |b|
    ensures |c| == |a|
  {
    seq(|a|, k requires 0 <= k < |a| => Coefficient(a, b, k, |a|))
  }

  lemma {:induction false} CoefficientEmbedded(a: seq<nat>, b: seq<nat>, k: nat, m: nat)
    requires m <= |a| == |b| && k < |b|
    ensures ConvolutionSum(EmbedAll(a), EmbedAll(b), k, m) == Embed(Coefficient(a, b, k, m))
  {
    hide Mul, Add, Embed;
    if m == 0 {
      EmbedZero();
    } else {
      CoefficientEmbedded(a, b, k, m - 1);
      var x, y := a[m - 1], b[Wrap(k - (m - 1), |b|)];
      EmbedArithmetic(x, y);
      EmbedArithmetic(Coefficient(a, b, k, m - 1), x * y);
    }
  }

  lemma CoefficientsEmbedded(a: seq<nat>, b: seq<nat>)
    requires |a| == |b| > 0
    ensures CyclicConvolution(EmbedAll(a), EmbedAll(b)) == EmbedAll(Coefficients(a, b))
  {
    forall k | 0 <= k < |a|
      ensures CyclicConvolution(EmbedAll(a), EmbedAll(b))[k] == EmbedAll(Coefficients(a, b))[k]
    {
      CoefficientEmbedded(a, b, k, |a|);
    }
  }

  /** c followed by zeros up to n places. */
  function Padded(c: seq<nat>, n: nat): (r: seq<nat>)
    requires |c| <= n
    ensures |r| == n && r[..|c|] == c && forall i :: |c| <= i < n ==> r[i] == 0
    ensures forall i :: 0 <= i < |c| ==> r[i] == c[i]
  {
    c + seq(n - |c|, _ => 0)
  }

  /** A place past both lengths gets nothing: nothing wraps round. */
  lemma {:induction false} CoefficientZero(a: seq<nat>, b: seq<nat>, k: nat, m: nat, p: nat, q: nat)
    requires m <= |a| == |b| && p + q <= k < |b|
    requires forall i :: p <= i < |a| ==> a[i] == 0
    requires forall i :: q <= i < |b| ==> b[i] == 0
    ensures Coefficient(a, b, k, m) == 0
  {
    if m > 0 {
      CoefficientZero(a, b, k, m - 1, p, q);
      var i := m - 1;
      if i < p { assert Wrap(k - i, |b|) == k - i >= q; }
    }
  }

  lemma {:induction false} CoefficientSettled(a: seq<Ct>, b: seq<Ct>, k: nat, p: nat, m: nat)
    requires p <= m <= |a| == |b| && k < |b|
    requires forall i :: p <= i < |a| ==> a[i] == ZERO
    ensures ConvolutionSum(a, b, k, m) == ConvolutionSum(a, b, k, p)
  {
    hide Mul, Add;
    if m > p {
      CoefficientSettled(a, b, k, p, m - 1);
      MulOne(b[Wrap(k - (m - 1), |b|)]);
      AddZero(ConvolutionSum(a, b, k, p));
    }
  }

  /** With room for every product, the cyclic convolution carries the value of the product. */
  lemma PaddedProduct(c: seq<nat>, d: seq<nat>, n: nat)
    requires |c| + |d| <= n && n > 0
    ensures Value256(Coefficients(Padded(c, n), Padded(d, n))) == Value256(c) * Value256(d)
  {
    hide Mul, Add, Embed, ConvolutionSum, Coefficients;
    var a, b := Padded(c, n), Padded(d, n);
    var ea, eb, x := EmbedAll(a), EmbedAll(b), Embed(256);
    EmbedZero();
    var p := |c|;
    forall k | 0 <= k < n ensures CyclicConvolution(ea, eb)[k] == Partial(ea, eb, p)[k] {
      CoefficientSettled(ea, eb, k, p, n);
    }
    assert CyclicConvolution(ea, eb) == Partial(ea, eb, p);
    EvalPartial(ea, eb, p, x);
    assert ea[..p] == EmbedAll(c);
    EvalEmbedded(c);
    EvalEmbedded(b);
    Value256Padded(d, n);
    CoefficientsEmbedded(a, b);
    EvalEmbedded(Coefficients(a, b));
    EmbedArithmetic(Value256(c), Value256(d));
    EmbedInjective(Value256(Coefficients(a, b)), Value256(c) * Value256(d));
  }

  lemma Value256Padded(c: seq<nat>, n: nat)
    requires |c| <= n
    ensures Value256(Padded(c, n)) == Value256(c)
  {
    var z := seq(n - |c|, _ => 0);
    Value256Append(c, z);
    Value256Zeros(z);
    MulZero(Power256(|c|));
  }

  lemma {:induction false} Value256Zeros(z: seq<nat>)
    requires forall i :: 0 <= i < |z| ==> z[i] == 0
    ensures Value256(z) == 0
  {
    if z != [] { Value256Zeros(z[1..]); }
  }

  // ---- the carry loop -------------------------------------------------------------------------------

  /** After i words: the words written plus the carry are the coefficients read so far. */
  ghost predicate CarrySoFar(c: seq<nat>, now: seq<Word>, i: nat, carry: nat) {
    && 2 * i <= |c| && i <= |now|
    && Value(now[..i]) + Power(i) * carry == Value256(c[..2 * i])
  }

  lemma CarryStart(c: seq<nat>, now: seq<Word>)
    ensures CarrySoFar(c, now, 0, 0)
  {}

  lemma CarryWord(c: seq<nat>, now: seq<Word>, i: nat, carry: nat, word: Word, out: nat)
    requires CarrySoFar(c, now, i, carry) && 2 * i + 1 < |c| && i < |now|
    requires c[2 * i] + 256 * c[2 * i + 1] + carry == word + BASE * out
    ensures CarrySoFar(c, now[i := word], i + 1, out)
  {
    hide Power, Value, Value256, Power256;
    var two := [c[2 * i], c[2 * i + 1]];
    assert c[..2 * (i + 1)] == c[..2 * i] + two;
    Value256Append(c[..2 * i], two);
    Value256Two(c[2 * i], c[2 * i + 1]);
    Power256Words(i);
    var now' := now[i := word];
    ValueExtend(now', i);
    assert now'[..i] == now[..i];
    PowerNext(i);
    CarryStep(Power(i), c[2 * i] + 256 * c[2 * i + 1] + carry, word, out);
    Distribute(Power(i), c[2 * i] + 256 * c[2 * i + 1], carry);
  }

  /** When the product fits in n words, nothing is left to carry after n words. */
  lemma CarryGone(c: seq<nat>, now: seq<Word>, n: nat, carry: nat)
    requires CarrySoFar(c, now, n, carry) && Value256(c[..2 * n]) < Power(n)
    ensures carry == 0 && Value(now[..n]) == Value256(c[..2 * n])
  {
    hide Power, Value, Value256;
    if carry > 0 { AtLeastOnce(Power(n), carry); }
    MulZero(Power(n));
  }

  /** No coefficient is larger than the number of its terms times 255 * 255. */
  lemma {:induction false} CoefficientBound(a: seq<nat>, b: seq<nat>, k: nat, m: nat, p: nat)
    requires m <= |a| == |b| && k < |b|
    requires forall i :: 0 <= i < |a| ==> a[i] <= 255
    requires forall i :: p <= i < |a| ==> a[i] == 0
    requires forall i :: 0 <= i < |b| ==> b[i] <= 255
    ensures Coefficient(a, b, k, m) <= 65025 * (if m < p then m else p)
  {
    if m > 0 {
      CoefficientBound(a, b, k, m - 1, p);
      ByteProduct(a[m - 1], b[Wrap(k - (m - 1), |b|)]);
    }
  }

  lemma ByteProduct(x: nat, y: nat)
    requires x <= 255 && y <= 255
    ensures 0 <= x * y <= 65025 && (x == 0 ==> x * y == 0)
  {
    MulLess(x, y, 255);
    MulLess(255, x, 255);
  }

  /** The nearest integer, as floor(x + 0.5) gives it. */
  lemma NearestInteger(x: int)
    ensures (x as real + 0.5).Floor == x
  {}

  /**
   * The loop that turns coefficients into words. limit bounds every coefficient, so that the
   * 64-bit sums of a coefficient and the carry do not wrap.
   */
  method PropagateCarries(a: array<Ct>, result: DataRecord, len: nat, ghost c: seq<nat>, ghost limit: nat)
    requires result.Shape() && result.size >= len > 0 && 2 * len <= a.Length && a[..] == EmbedAll(c)
    requires Value256(c[..2 * len]) < Power(len)
    requires (forall i :: 0 <= i < |c| ==> c[i] <= limit) && limit < 0x8000_0000_0000_0000
    modifies result`digitsUsed, result.number
    ensures result.Valid() && result.Val() == Value256(c[..2 * len])
  {
    hide Power, Value, Value256, CarrySoFar;
    var carry: nat := 0;
    result.digitsUsed := 0;
    var zeros := 0;
    CarryStart(c, result.number[..]);
    var i := 0;
    while i < len
      invariant 0 <= i <= len && carry <= limit && a[..] == EmbedAll(c)
      invariant CarrySoFar(c, result.number[..], i, carry)
      invariant result.digitsUsed == i && 0 <= zeros <= i
      invariant forall j :: i - zeros <= j < i ==> result.number[j] == 0
      invariant zeros < i ==> result.number[i - zeros - 1] != 0
    {
      ghost var before := result.number[..];
      var num, out := JoinChunks(a, i, carry, c, limit);
      CarryWord(c, before, i, carry, num, out);
      carry := out;
      result.number[i] := num;
      assert result.number[..] == before[i := num];
      if num == 0 {
        zeros := zeros + 1;
      } else {
        zeros := 0;
      }
      result.digitsUsed := result.digitsUsed + 1;
      i := i + 1;
    }
    CarryGone(c, result.number[..], len, carry);
    result.digitsUsed := result.digitsUsed - zeros;
    LeadingZeros(result.number[..], len, result.digitsUsed);
    if result.digitsUsed == 0 {
      result.digitsUsed := 1;
      result.number[0] := 0;
      assert result.Digits() == [0];
      ValueSingle(0);
    }
  }

  lemma {:induction false} LeadingZeros(s: seq<Word>, n: nat, used: nat)
    requires used <= n <= |s| && forall j :: used <= j < n ==> s[j] == 0
    ensures Value(s[..used]) == Value(s[..n]) && (used == 0 ==> Value(s[..n]) == 0)
  {
    if used < n {
      LeadingZeros(s, n - 1, used);
      DropZero(s, n);
    }
  }

  /** One round of the carry loop: two coefficients and the carry become a word and a carry. */
  method JoinChunks(a: array<Ct>, i: nat, carry: nat, ghost c: seq<nat>, ghost limit: nat)
    returns (word: Word, out: nat)
    requires 2 * i + 1 < a.Length && a[..] == EmbedAll(c) && carry <= limit
    requires (forall j :: 0 <= j < |c| ==> c[j] <= limit) && limit < 0x8000_0000_0000_0000
    ensures c[2 * i] + 256 * c[2 * i + 1] + carry == word + BASE * out
    ensures out <= limit
  {
    assert a[..][2 * i] == Embed(c[2 * i]) && a[..][2 * i + 1] == Embed(c[2 * i + 1]);
    NearestInteger(c[2 * i]);
    NearestInteger(c[2 * i + 1]);
    var num1: nat := (a[i * 2].re + 0.5).Floor;
    num1 := num1 + carry;
    assert num1 < 0x1_0000_0000_0000_0000;
    out := 0;
    if num1 > 255 {
      out := num1 / 256;
      num1 := num1 % 256;
    }
    var num2: nat := (a[i * 2 + 1].re + 0.5).Floor;
    num2 := num2 + out;
    assert num2 < 0x1_0000_0000_0000_0000;
    out := 0;
    if num2 > 255 {
      out := num2 / 256;
      num2 := num2 % 256;
    }
    word := num2 * 256 + num1;
  }

  // ---- the multiplication ---------------------------------------------------------------------------

  /** cos and sin of 2*pi/len for every len a transform may have; conjugate is the inverse. */
  ghost predicate UnitRoots(root: nat -> Ct) {
    forall n: nat :: PowerOfTwo(n) ==> PrincipalRoot(root(n), n) && Mul(Conjugate(root(n)), root(n)) == ONE
  }

  function Conjugate(x: Ct): Ct { Ct(x.re, -x.im) }

  /** The conjugate is the inverse on the unit circle, where cos and sin lie, and nowhere else. */
  lemma ConjugateInverts(x: Ct)
    ensures Mul(Conjugate(x), x) == ONE <==> x.re * x.re + x.im * x.im == 1.0
  {}

  /** Bytes of the words of a record, followed by zeros. */
  method LoadChunks(r: DataRecord, size: nat) returns (a: array<Ct>)
    requires r.Shape() && 2 * r.digitsUsed <= size
    ensures fresh(a) && a.Length == size && a[..] == EmbedAll(Padded(Chunks(r.Digits()), size))
  {
    hide Embed, Chunks;
    ghost var c := Chunks(r.Digits());
    ghost var p := Padded(c, size);
    a := new Ct[size];
    LoadBytes(r, a, c);
    forall j | 0 <= j < |c| ensures a[j] == Embed(p[j]) { assert p[j] == c[j]; }
    EmbedZero();
    var i := r.digitsUsed * 2;
    while i < size
      invariant |c| <= i <= size
      invariant forall j :: 0 <= j < i ==> a[j] == Embed(p[j])
    {
      a[i] := ZERO;
      i := i + 1;
    }
  }

  method LoadBytes(r: DataRecord, a: array<Ct>, ghost c: seq<nat>)
    requires r.Shape() && 2 * r.digitsUsed <= a.Length && c == Chunks(r.Digits())
    modifies a
    ensures forall j :: 0 <= j < |c| ==> a[j] == Embed(c[j])
  {
    hide Chunks;
    var i := 0;
    while i < r.digitsUsed
      invariant 0 <= i <= r.digitsUsed
      invariant forall j :: 0 <= j < 2 * i ==> a[j] == Embed(c[j])
    {
      assert c[2 * i] == r.Digits()[i] % 256 && c[2 * i + 1] == r.Digits()[i] / 256;
      a[i * 2] := Ct((r.number[i] % 256) as real, 0.0);
      a[i * 2 + 1] := Ct((r.number[i] / 256) as real, 0.0);
      i := i + 1;
    }
  }

  /** `size` after k doublings of one, in 32 bits. */
  function SizeAfter(k: nat): nat {
    if k == 0 then 1 else Wrap32(SizeAfter(k - 1) * 2)
  }

  lemma {:induction false} Pow2Small(k: nat)
    requires k <= 31
    ensures Pow2(k) <= 0x8000_0000 && (k == 31 ==> Pow2(k) == 0x8000_0000)
    decreases 31 - k
  {
    if k == 31 {
      Pow2Sixteen();
      assert Pow2(18) == 8 * Pow2(15) && Pow2(16) == 2 * Pow2(15);
      Pow2Add(16, 15);
    } else {
      Pow2Small(k + 1);
    }
  }

  /** It doubles 31 times and is zero from then on. */
  lemma {:induction false} SizeIs(k: nat)
    ensures SizeAfter(k) == if k <= 31 then Pow2(k) else 0
    ensures SizeAfter(k) <= 0x8000_0000
  {
    if k <= 31 { Pow2Small(k); }
    if k > 0 {
      if k <= 32 { Pow2Small(k - 1); }
      SizeIs(k - 1);
    }
  }

  /** The loop condition of long_mul after k rounds, in 32 bits. */
  predicate GoesOn(digits: nat, k: nat) { SizeAfter(k) < Wrap32(digits * 2) }

  /**
   * The loop ends with room for the product if and only if there are at most 2^30 words. With
   * more it never ends, or, from 2^31 on, ends with too little room.
   */
  lemma SizeFitsExactly(digits: nat)
    requires 0 < digits < 0x1_0000_0000
    ensures digits <= 0x4000_0000 <==> exists k :: !GoesOn(digits, k) && SizeAfter(k) >= 2 * digits
    ensures 0x4000_0000 < digits < 0x8000_0000 ==> forall k :: GoesOn(digits, k)
    ensures digits >= 0x8000_0000 ==> forall k :: SizeAfter(k) < 2 * digits
  {
    forall k ensures SizeAfter(k) <= 0x8000_0000 { SizeIs(k); }
    SizeIs(31);
    Pow2Small(31);
    hide SizeAfter, Pow2;
    DoubledIs(digits);
    hide Wrap32;
    assert digits <= 0x4000_0000 ==> !GoesOn(digits, 31);
    assert digits > 0x4000_0000 ==> forall k: nat :: SizeAfter(k) < 2 * digits;
  }

  lemma DoubledIs(digits: nat)
    requires digits < 0x1_0000_0000
    ensures Wrap32(digits * 2) == if digits < 0x8000_0000 then 2 * digits else 2 * digits - 0x1_0000_0000
  {}

  /** The least power of two that is at least 2 * (l + r), by doubling. */
  method TransformSize(digits: nat) returns (size: nat)
    requires 0 < digits <= 0x4000_0000
    ensures PowerOfTwo(size) && 2 * digits <= size < 4 * digits
  {
    size := 1;
    assert PowerOfTwo(1);
    hide PowerOfTwo, Wrap32;
    DoubledIs(digits);
    while size < Wrap32(digits * 2)
      invariant PowerOfTwo(size) && size < 4 * digits && size <= 0x8000_0000
      decreases 2 * digits - size
    {
      NextSize(size);
      size := Wrap32(size * 2);
    }
  }

  lemma NextSize(size: nat)
    requires PowerOfTwo(size) && size < 0x8000_0000
    ensures Wrap32(size * 2) == 2 * size <= 0x8000_0000 && PowerOfTwo(2 * size)
  {
    hide PowerOfTwo, Pow2;
    Doubling(size);
    Pow2Small(31);
    PowerBelow(size, 31);
  }

  /** Powers of two halve down to one: one below 2^31 is at most half of it. */
  lemma {:induction false} PowerBelow(size: nat, k: nat)
    requires PowerOfTwo(size) && size < Pow2(k)
    ensures 2 * size <= Pow2(k)
  {
    if size > 1 { PowerBelow(size / 2, k - 1); }
  }

  /** Pointwise product of the spectra with the scale factor 1/size, in place in a. */
  method ScaleAndMultiply(a: array<Ct>, b: array<Ct>)
    requires a.Length == b.Length > 0 && a != b
    modifies a
    ensures a[..] == Products(Ct(1.0 / a.Length as real, 0.0), old(a[..]), b[..])
  {
    hide Mul;
    var l := Ct(1.0 / a.Length as real, 0.0);
    ghost var was := a[..];
    var i := 0;
    while i < a.Length
      invariant 0 <= i <= a.Length && b[..] == old(b[..])
      invariant forall j :: 0 <= j < i ==> a[j] == Mul(Mul(l, was[j]), b[..][j])
      invariant forall j :: i <= j < a.Length ==> a[j] == was[j]
    {
      a[i] := Mul(Mul(l, a[i]), b[i]);
      i := i + 1;
    }
    assert a[..] == Products(l, was, b[..]);
  }

  /** The FFT branch of long_mul. */
  method FftMul(lhs: DataRecord, rhs: DataRecord, result: DataRecord, root: nat -> Ct)
    requires lhs.Valid() && rhs.Valid() && result.Shape()
    requires result != lhs && result != rhs && result.number != lhs.number && result.number != rhs.number
    requires result.size >= lhs.digitsUsed + rhs.digitsUsed
    requires lhs.digitsUsed + rhs.digitsUsed <= 0x4000_0000
    requires UnitRoots(root)
    modifies result`digitsUsed, result.number
    ensures result.Valid() && result.Val() == lhs.Val() * rhs.Val()
  {
    hide Power, Value, Mul, Value256, Chunks, Forward, Inverse, Coefficients;
    var len := lhs.digitsUsed + rhs.digitsUsed;
    var size := TransformSize(len);
    var a := LoadChunks(lhs, size);
    var b := LoadChunks(rhs, size);
    ghost var c, d := Chunks(lhs.Digits()), Chunks(rhs.Digits());
    ghost var product := Coefficients(Padded(c, size), Padded(d, size));
    Transforms(a, b, root(size), product, c, d);
    ProductFacts(lhs.Digits(), rhs.Digits(), size, len);
    PropagateCarries(a, result, len, product, 65025 * 0x8000_0000);
  }

  /** Both transforms, the pointwise product and the transform back. */
  method Transforms(a: array<Ct>, b: array<Ct>, w: Ct, ghost product: seq<nat>, ghost c: seq<nat>, ghost d: seq<nat>)
    requires a != b && a.Length == b.Length && PowerOfTwo(a.Length)
    requires PrincipalRoot(w, a.Length) && Mul(Conjugate(w), w) == ONE
    requires |c| <= a.Length && |d| <= a.Length
    requires a[..] == EmbedAll(Padded(c, a.Length)) && b[..] == EmbedAll(Padded(d, a.Length))
    requires product == Coefficients(Padded(c, a.Length), Padded(d, a.Length))
    modifies a, b
    ensures a[..] == EmbedAll(product)
  {
    hide Mul, Forward, Inverse, Coefficients, CyclicConvolution, Products, PrincipalRoot;
    ghost var ea, eb := a[..], b[..];
    Fft(a, w);
    Fft(b, w);
    ScaleAndMultiply(a, b);
    FftMultiplies(ea, eb, w, Conjugate(w));
    Ifft(a, Conjugate(w));
    CoefficientsEmbedded(Padded(c, a.Length), Padded(d, a.Length));
  }

  /** What the carry loop needs to know of the coefficients. */
  lemma ProductFacts(s: seq<Word>, t: seq<Word>, size: nat, len: nat)
    requires |s| + |t| == len && 0 < 2 * len <= size && len <= 0x4000_0000
    ensures
      var product := Coefficients(Padded(Chunks(s), size), Padded(Chunks(t), size));
      && Value256(product[..2 * len]) == Value(s) * Value(t)
      && Value(s) * Value(t) < Power(len)
      && forall i :: 0 <= i < |product| ==> product[i] <= 65025 * 0x8000_0000
  {
    hide Power, Value, Value256, Chunks, Coefficient;
    var a, b := Padded(Chunks(s), size), Padded(Chunks(t), size);
    var product := Coefficients(a, b);
    PaddedProduct(Chunks(s), Chunks(t), size);
    ChunksValue(s);
    ChunksValue(t);
    forall k | 2 * len <= k < size ensures product[k] == 0 {
      CoefficientZero(a, b, k, size, 2 * |s|, 2 * |t|);
    }
    Value256Prefix(product, 2 * len);
    forall k | 0 <= k < size ensures product[k] <= 65025 * 0x8000_0000 {
      CoefficientBound(a, b, k, size, 2 * |s|);
    }
    ValueBound(s);
    ValueBound(t);
    PowerAdd(|s|, |t|);
    ProductMonotoneStrict(Value(s), Value(t), Power(|s|), Power(|t|));
  }

  lemma Value256Prefix(c: seq<nat>, n: nat)
    requires n <= |c| && forall k :: n <= k < |c| ==> c[k] == 0
    ensures Value256(c[..n]) == Value256(c)
  {
    Value256Append(c[..n], c[n..]);
    assert c == c[..n] + c[n..];
    Value256Zeros(c[n..]);
    MulZero(Power256(n));
  }

  /** long_mul of bigint_kernel_2: shift and add when an operand is short, else transform. */
  method LongMul2(lhs: DataRecord, rhs: DataRecord, result: DataRecord, root: nat -> Ct)
    requires lhs.Valid() && rhs.Valid() && result.Shape()
    requires result != lhs && result != rhs && result.number != lhs.number && result.number != rhs.number
    requires result.size >= lhs.digitsUsed + rhs.digitsUsed
    requires lhs.digitsUsed >= 10 && rhs.digitsUsed >= 10 ==> lhs.digitsUsed + rhs.digitsUsed <= 0x4000_0000
    requires UnitRoots(root)
    modifies result`digitsUsed, result.number
    ensures result.Valid() && result.Val() == lhs.Val() * rhs.Val()
  {
    if lhs.digitsUsed < 10 || rhs.digitsUsed < 10 {
      LongMul(lhs, rhs, result);
    } else {
      FftMul(lhs, rhs, result, root);
    }
  }
}
