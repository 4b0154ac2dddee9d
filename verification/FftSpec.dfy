/**
 * The fast Fourier transform of bigint_kernel_2, on exact complex numbers.
 * `Forward` and `Inverse` say what the in-place butterfly loops compute; `Eval` and
 * `CyclicConvolution` are the independent definitions they are measured against.
 */
module FftSpec {
  import opened Complex

  predicate PowerOfTwo(n: nat) {
    n == 1 || (n > 1 && n % 2 == 0 && PowerOfTwo(n / 2))
  }

  /** w is a principal len-th root of unity: what cos and sin of 2*pi/len give. */
  predicate PrincipalRoot(w: Ct, len: nat) {
    len >= 2 ==> Pow(w, len / 2) == MINUS_ONE
  }

  lemma FirstPowers(x: Ct)
    ensures Pow(x, 1) == x && Pow(x, 2) == Mul(x, x)
  {
    hide Mul;
    MulOne(x);
    assert Pow(x, 2) == Mul(x, Pow(x, 1)) && Pow(x, 1) == Mul(x, Pow(x, 0));
  }

  /** For lengths 2 and 4 these are -1 and the imaginary unit or its opposite. */
  lemma FirstRoots(x: Ct)
    ensures PrincipalRoot(x, 2) <==> x == Ct(-1.0, 0.0)
    ensures PrincipalRoot(x, 4) <==> x == Ct(0.0, 1.0) || x == Ct(0.0, -1.0)
  {
    FirstPowers(x);
    SquareIsMinusOne(x);
    hide Pow, Mul;
  }

  lemma SquareIsMinusOne(x: Ct)
    ensures Mul(x, x) == MINUS_ONE <==> x == Ct(0.0, 1.0) || x == Ct(0.0, -1.0)
  {
    MulComm(x, x);
    if Mul(x, x) == MINUS_ONE { OnlyImaginary(x.re, x.im, x.re * x.re, x.im * x.im); }
  }

  lemma OnlyImaginary(a: real, b: real, aa: real, bb: real)
    requires aa == a * a && bb == b * b && aa - bb == -1.0 && a * b == 0.0
    ensures a == 0.0 && (b == 1.0 || b == -1.0)
  {
    ZeroProduct(a, b);
    SquareNotNegative(a);
    Factors(b);
    if a == 0.0 {
      ZeroProduct(b - 1.0, b + 1.0);
    }
  }

  lemma ZeroProduct(a: real, b: real)
    requires a * b == 0.0
    ensures a == 0.0 || b == 0.0
  {}

  lemma SquareNotNegative(a: real)
    ensures a * a >= 0.0
  {}

  lemma Factors(b: real)
    ensures (b - 1.0) * (b + 1.0) == b * b - 1.0
  {}

  // ---- what the two transforms compute -----------------------------------------------

  function Sums(d: seq<Ct>): (r: seq<Ct>)
    ensures |r| == |d| / 2
  {
    var h := |d| / 2;
    seq(h, k requires 0 <= k < h => Add(d[k], d[k + h]))
  }

  function TwistedDifferences(d: seq<Ct>, w: Ct): (r: seq<Ct>)
    ensures |r| == |d| / 2
  {
    var h := |d| / 2;
    seq(h, k requires 0 <= k < h => Mul(Sub(d[k], d[k + h]), Pow(w, k)))
  }

  function Forward(d: seq<Ct>, w: Ct): (r: seq<Ct>)
    requires PowerOfTwo(|d|)
    ensures |r| == |d|
    decreases |d|
  {
    if |d| == 1 then d
    else Forward(Sums(d), Mul(w, w)) + Forward(TwistedDifferences(d, w), Mul(w, w))
  }

  function Merge(lo: seq<Ct>, hi: seq<Ct>, v: Ct): (r: seq<Ct>)
    requires |lo| == |hi|
  {
    seq(|lo|, k requires 0 <= k < |lo| => Add(lo[k], Mul(hi[k], Pow(v, k)))) +
    seq(|lo|, k requires 0 <= k < |lo| => Sub(lo[k], Mul(hi[k], Pow(v, k))))
  }

  function Inverse(d: seq<Ct>, v: Ct): (r: seq<Ct>)
    requires PowerOfTwo(|d|)
    ensures |r| == |d|
  {
    if |d| == 1 then d
    else
      var h := |d| / 2;
      Merge(Inverse(d[..h], Mul(v, v)), Inverse(d[h..], Mul(v, v)), v)
  }

  // ---- independent definitions -------------------------------------------------------

  /** The polynomial with coefficients a at the point x. */
  function Eval(a: seq<Ct>, x: Ct): Ct {
    if a == [] then ZERO else Add(a[0], Mul(x, Eval(a[1..], x)))
  }

  /** k modulo n, for the -n <= k < n that a difference of two places can be. */
  function Wrap(k: int, n: int): (r: nat)
    requires -n <= k < n
    ensures r < n
  {
    if k < 0 then k + n else k
  }

  /** The sum over i < m of a[i] * b[(k - i) mod |b|]. */
  function ConvolutionSum(a: seq<Ct>, b: seq<Ct>, k: nat, m: nat): Ct
    requires m <= |a| == |b| && k < |b|
  {
    if m == 0 then ZERO
    else Add(ConvolutionSum(a, b, k, m - 1), Mul(a[m - 1], b[Wrap(k - (m - 1), |b|)]))
  }

  function CyclicConvolution(a: seq<Ct>, b: seq<Ct>): (r: seq<Ct>)
    requires |a| == |b| > 0
    ensures |r| == |a|
  {
    seq(|a|, k requires 0 <= k < |a| => ConvolutionSum(a, b, k, |a|))
  }

  /** The place to which reading the bits of p backwards moves it. */
  function BitReversal(n: nat, p: nat): (r: nat)
    requires PowerOfTwo(n) && p < n
    ensures r < n
  {
    if n == 1 then 0
    else if p < n / 2 then 2 * BitReversal(n / 2, p)
    else 1 + 2 * BitReversal(n / 2, p - n / 2)
  }

  lemma {:induction false} BitReversalInjective(n: nat, p: nat, q: nat)
    requires PowerOfTwo(n) && p < n && q < n && BitReversal(n, p) == BitReversal(n, q)
    ensures p == q
  {
    if n > 1 {
      var h := n / 2;
      assert (p < h) == (BitReversal(n, p) % 2 == 0);
      assert (q < h) == (BitReversal(n, q) % 2 == 0);
      BitReversalInjective(h, if p < h then p else p - h, if q < h then q else q - h);
    }
  }

  // ---- polynomials -------------------------------------------------------------------

  lemma {:induction false} EvalSplit(a: seq<Ct>, h: nat, x: Ct)
    requires h <= |a|
    ensures Eval(a, x) == Add(Eval(a[..h], x), Mul(Pow(x, h), Eval(a[h..], x)))
  {
    hide Mul;
    if h == 0 {
      assert a[0..] == a;
      MulOne(Eval(a, x));
      AddZero(Eval(a, x));
    } else {
      var t := a[1..];
      EvalSplit(t, h - 1, x);
      assert t[..h - 1] == a[..h][1..];
      assert t[h - 1..] == a[h..];
      var lo, hi := Eval(t[..h - 1], x), Eval(t[h - 1..], x);
      MulAdd(x, lo, Mul(Pow(x, h - 1), hi));
      MulAssoc(x, Pow(x, h - 1), hi);
      AddAssoc(a[0], Mul(x, lo), Mul(Pow(x, h), hi));
    }
  }

  lemma {:induction false} EvalAdd(a: seq<Ct>, b: seq<Ct>, c: seq<Ct>, x: Ct)
    requires |a| == |b| == |c|
    requires forall k :: 0 <= k < |a| ==> c[k] == Add(a[k], b[k])
    ensures Eval(c, x) == Add(Eval(a, x), Eval(b, x))
  {
    hide Mul;
    if |a| > 0 {
      EvalAdd(a[1..], b[1..], c[1..], x);
      MulAdd(x, Eval(a[1..], x), Eval(b[1..], x));
    }
  }

  lemma {:induction false} EvalSub(a: seq<Ct>, b: seq<Ct>, c: seq<Ct>, x: Ct)
    requires |a| == |b| == |c|
    requires forall k :: 0 <= k < |a| ==> c[k] == Sub(a[k], b[k])
    ensures Eval(c, x) == Sub(Eval(a, x), Eval(b, x))
  {
    hide Mul;
    if |a| > 0 {
      EvalSub(a[1..], b[1..], c[1..], x);
      MulSub(x, Eval(a[1..], x), Eval(b[1..], x));
    }
  }

  lemma {:induction false} EvalScale(a: seq<Ct>, s: Ct, c: seq<Ct>, x: Ct)
    requires |a| == |c|
    requires forall k :: 0 <= k < |a| ==> c[k] == Mul(s, a[k])
    ensures Eval(c, x) == Mul(s, Eval(a, x))
  {
    hide Mul;
    if |a| == 0 {
      MulOne(s);
    } else {
      EvalScale(a[1..], s, c[1..], x);
      var e := Eval(a[1..], x);
      MulAdd(s, a[0], Mul(x, e));
      MulAssoc(x, s, e); MulComm(x, s); MulAssoc(s, x, e);
    }
  }

  /** Multiplying coefficient k by f * w^k moves the point from y to w * y. */
  lemma {:induction false} EvalTwist(a: seq<Ct>, f: Ct, w: Ct, c: seq<Ct>, y: Ct)
    requires |a| == |c|
    requires forall k :: 0 <= k < |a| ==> c[k] == Mul(a[k], Mul(f, Pow(w, k)))
    ensures Eval(c, y) == Mul(f, Eval(a, Mul(w, y)))
  {
    hide Mul;
    if |a| == 0 {
      MulOne(f);
    } else {
      var a', c', f' := a[1..], c[1..], Mul(f, w);
      forall k | 0 <= k < |a'| ensures c'[k] == Mul(a'[k], Mul(f', Pow(w, k))) {
        assert c'[k] == c[k + 1] == Mul(a[k + 1], Mul(f, Pow(w, k + 1)));
        MulAssoc(f, w, Pow(w, k));
      }
      EvalTwist(a', f', w, c', y);
      var e := Eval(a', Mul(w, y));
      MulOne(f); MulComm(a[0], f);
      MulAdd(f, a[0], Mul(Mul(w, y), e));
      // y * ((f * w) * e) == f * ((w * y) * e)
      MulAssoc(y, f', e); MulComm(y, f'); MulAssoc(f, w, y); MulAssoc(f, Mul(w, y), e);
    }
  }

  // ---- the forward transform evaluates ------------------------------------------------

  /** The point at which output p of the forward transform evaluates its input. */
  function Point(n: nat, w: Ct, p: nat): Ct
    requires PowerOfTwo(n) && p < n
  {
    if n == 1 then ONE
    else if p < n / 2 then Point(n / 2, Mul(w, w), p)
    else Mul(w, Point(n / 2, Mul(w, w), p - n / 2))
  }

  lemma PowTwo(w: Ct, h: nat)
    ensures Pow(Mul(w, w), h) == Pow(w, 2 * h)
  {
    hide Mul;
    PowMul(w, w, h);
    PowAdd(w, h, h);
  }

  lemma RootSquared(w: Ct, n: nat)
    requires PowerOfTwo(n) && n >= 2 && PrincipalRoot(w, n)
    ensures PrincipalRoot(Mul(w, w), n / 2)
  {
    hide Mul;
    if n / 2 >= 2 {
      PowTwo(w, n / 4);
      assert 2 * (n / 4) == n / 2;
    }
  }

  lemma {:induction false} PointIsPower(n: nat, w: Ct, p: nat)
    requires PowerOfTwo(n) && p < n
    ensures Point(n, w, p) == Pow(w, BitReversal(n, p))
  {
    hide Mul;
    if n > 1 {
      var q := if p < n / 2 then p else p - n / 2;
      PointIsPower(n / 2, Mul(w, w), q);
      PowTwo(w, BitReversal(n / 2, q));
    }
  }

  lemma {:induction false} PointIsRoot(n: nat, w: Ct, p: nat)
    requires PowerOfTwo(n) && p < n && PrincipalRoot(w, n)
    ensures Pow(Point(n, w, p), n) == ONE
  {
    hide Mul;
    if n == 1 {
      MulOne(ONE);
    } else {
      var h := n / 2;
      var q := if p < h then p else p - h;
      var y := Point(h, Mul(w, w), q);
      RootSquared(w, n);
      PointIsRoot(h, Mul(w, w), q);
      PowAdd(y, h, h);
      MulOne(ONE);
      if p >= h {
        PowMul(w, y, n);
        PowAdd(w, h, h);
        MinusOneSquared();
      }
    }
  }

  lemma {:induction false} ForwardEvaluates(d: seq<Ct>, w: Ct, p: nat)
    requires PowerOfTwo(|d|) && p < |d| && PrincipalRoot(w, |d|)
    ensures Forward(d, w)[p] == Eval(d, Point(|d|, w, p))
    decreases |d|, 1
  {
    hide Mul;
    if |d| == 1 {
      assert d[1..] == [];
      MulOne(ONE); AddZero(d[0]);
    } else {
      var h := |d| / 2;
      RootSquared(w, |d|);
      if p < h {
        ForwardLow(d, w, p);
      } else {
        ForwardHigh(d, w, p);
      }
    }
  }

  lemma {:induction false} ForwardLow(d: seq<Ct>, w: Ct, p: nat)
    requires PowerOfTwo(|d|) && |d| > 1 && p < |d| / 2 && PrincipalRoot(Mul(w, w), |d| / 2)
    ensures Forward(d, w)[p] == Eval(d, Point(|d|, w, p))
    decreases |d|, 0
  {
    hide Mul;
    var h := |d| / 2;
    var y := Point(h, Mul(w, w), p);
    ForwardEvaluates(Sums(d), Mul(w, w), p);
    PointIsRoot(h, Mul(w, w), p);
    EvalAdd(d[..h], d[h..], Sums(d), y);
    EvalSplit(d, h, y);
    MulOne(Eval(d[h..], y));
  }

  lemma EvalDifferences(d: seq<Ct>, w: Ct, y: Ct)
    requires |d| % 2 == 0
    ensures Eval(TwistedDifferences(d, w), y)
         == Sub(Eval(d[..|d| / 2], Mul(w, y)), Eval(d[|d| / 2..], Mul(w, y)))
  {
    hide Mul, Add, Sub, Pow;
    var h, high := |d| / 2, TwistedDifferences(d, w);
    var diff := seq(h, k requires 0 <= k < h => Sub(d[k], d[k + h]));
    forall k | 0 <= k < h ensures high[k] == Mul(diff[k], Mul(ONE, Pow(w, k))) {
      MulOne(Pow(w, k));
    }
    EvalTwist(diff, ONE, w, high, y);
    MulOne(Eval(diff, Mul(w, y)));
    EvalSub(d[..h], d[h..], diff, Mul(w, y));
  }

  lemma {:induction false} ForwardHigh(d: seq<Ct>, w: Ct, p: nat)
    requires PowerOfTwo(|d|) && |d| > 1 && |d| / 2 <= p < |d|
    requires PrincipalRoot(w, |d|) && PrincipalRoot(Mul(w, w), |d| / 2)
    ensures Forward(d, w)[p] == Eval(d, Point(|d|, w, p))
    decreases |d|, 0
  {
    hide Mul, Add, Sub, Pow, Eval, TwistedDifferences;
    var h := |d| / 2;
    var y := Point(h, Mul(w, w), p - h);
    var x := Mul(w, y);
    ForwardEvaluates(TwistedDifferences(d, w), Mul(w, w), p - h);
    EvalDifferences(d, w, y);
    PointIsRoot(h, Mul(w, w), p - h);
    PowMul(w, y, h);
    MulOne(MINUS_ONE);
    EvalSplit(d, h, x);
    MinusOneTimes(Eval(d[h..], x), Eval(d[..h], x));
  }

  // ---- cyclic convolution becomes pointwise multiplication ----------------------------

  /** b moved i places to the right, the end wrapping round. */
  function Rotated(b: seq<Ct>, i: nat): (r: seq<Ct>)
    requires i <= |b|
    ensures |r| == |b| && forall k :: 0 <= k < |b| ==> r[k] == b[Wrap(k - i, |b|)]
  {
    seq(|b|, k requires 0 <= k < |b| => b[Wrap(k - i, |b|)])
  }

  /** Moving the polynomial c one place up, when x^n == 1 or nothing wraps round. */
  lemma EvalShift(c: seq<Ct>, x: Ct)
    requires |c| > 0
    requires Pow(x, |c|) == ONE || c[|c| - 1] == ZERO
    ensures Eval([c[|c| - 1]] + c[..|c| - 1], x) == Mul(x, Eval(c, x))
  {
    hide Mul, Add;
    var n := |c|;
    var last, init := c[n - 1], c[..n - 1];
    var s := [last] + init;
    assert s[0] == last && s[1..] == init;
    EvalSplit(c, n - 1, x);
    assert c[n - 1..] == [last] && [last][1..] == [];
    MulOne(x); AddZero(last);
    assert Eval([], x) == ZERO;
    assert Eval([last], x) == last;
    var e, p := Eval(init, x), Pow(x, n - 1);
    MulAdd(x, e, Mul(p, last));
    MulAssoc(x, p, last);
    assert Mul(x, p) == Pow(x, n);
    MulOne(last); MulOne(Pow(x, n));
    AddComm(last, Mul(x, e));
  }

  lemma {:induction false} EvalRotated(b: seq<Ct>, i: nat, x: Ct)
    requires i <= |b|
    requires Pow(x, |b|) == ONE || forall j :: |b| - i <= j < |b| ==> b[j] == ZERO
    ensures Eval(Rotated(b, i), x) == Mul(Pow(x, i), Eval(b, x))
  {
    hide Mul;
    var n := |b|;
    if i == 0 {
      assert Rotated(b, 0) == b;
      MulOne(Eval(b, x));
    } else {
      EvalRotated(b, i - 1, x);
      var c := Rotated(b, i - 1);
      assert c[n - 1] == b[n - i];
      assert Rotated(b, i) == [c[n - 1]] + c[..n - 1];
      EvalShift(c, x);
      MulAssoc(x, Pow(x, i - 1), Eval(b, x));
    }
  }

  /** The first m terms of the convolution sum, at every place at once. */
  function Partial(a: seq<Ct>, b: seq<Ct>, m: nat): (r: seq<Ct>)
    requires m <= |a| == |b|
  {
    seq(|b|, k requires 0 <= k < |b| => ConvolutionSum(a, b, k, m))
  }

  lemma {:induction false} EvalPartial(a: seq<Ct>, b: seq<Ct>, m: nat, x: Ct)
    requires m <= |a| == |b|
    requires Pow(x, |b|) == ONE || forall j :: |b| - m < j < |b| ==> b[j] == ZERO
    ensures Eval(Partial(a, b, m), x) == Mul(Eval(a[..m], x), Eval(b, x))
  {
    hide Mul;
    if m == 0 {
      EvalZeros(Partial(a, b, 0), x);
      MulOne(Eval(b, x));
    } else {
      var f, rot := a[m - 1], Rotated(b, m - 1);
      var term := seq(|b|, k requires 0 <= k < |b| => Mul(f, rot[k]));
      EvalPartial(a, b, m - 1, x);
      EvalRotated(b, m - 1, x);
      EvalScale(rot, f, term, x);
      EvalAdd(Partial(a, b, m - 1), term, Partial(a, b, m), x);
      EvalLast(a[..m], x);
      assert a[..m][..m - 1] == a[..m - 1];
      var e, p, eb := Eval(a[..m - 1], x), Pow(x, m - 1), Eval(b, x);
      MulComm(p, f); MulAssoc(f, p, eb);
      MulAdd(eb, e, Mul(p, f));
    }
  }

  lemma EvalLast(a: seq<Ct>, x: Ct)
    requires |a| > 0
    ensures Eval(a, x) == Add(Eval(a[..|a| - 1], x), Mul(Pow(x, |a| - 1), a[|a| - 1]))
  {
    hide Mul;
    var last := a[|a| - 1];
    EvalSplit(a, |a| - 1, x);
    assert a[|a| - 1..] == [last] && [last][1..] == [];
    MulOne(x); AddZero(last);
    assert Eval([last], x) == last;
  }

  lemma {:induction false} EvalZeros(a: seq<Ct>, x: Ct)
    requires forall k :: 0 <= k < |a| ==> a[k] == ZERO
    ensures Eval(a, x) == ZERO
  {
    hide Mul;
    if |a| > 0 {
      EvalZeros(a[1..], x);
      MulOne(x); AddZero(ZERO);
    }
  }

  /** Evaluation at an n-th root of unity turns cyclic convolution into a product. */
  lemma EvalConvolution(a: seq<Ct>, b: seq<Ct>, x: Ct)
    requires |a| == |b| > 0 && Pow(x, |a|) == ONE
    ensures Eval(CyclicConvolution(a, b), x) == Mul(Eval(a, x), Eval(b, x))
  {
    hide Mul, Add;
    EvalPartial(a, b, |a|, x);
    assert a[..|a|] == a;
    assert CyclicConvolution(a, b) == Partial(a, b, |a|);
  }

  /** The convolution theorem, in the transform's own output order. */
  lemma ConvolutionTheorem(a: seq<Ct>, b: seq<Ct>, w: Ct, p: nat)
    requires |a| == |b| && PowerOfTwo(|a|) && p < |a| && PrincipalRoot(w, |a|)
    ensures Forward(CyclicConvolution(a, b), w)[p] == Mul(Forward(a, w)[p], Forward(b, w)[p])
  {
    hide Mul;
    var x := Point(|a|, w, p);
    ForwardEvaluates(a, w, p);
    ForwardEvaluates(b, w, p);
    ForwardEvaluates(CyclicConvolution(a, b), w, p);
    PointIsRoot(|a|, w, p);
    EvalConvolution(a, b, x);
  }

  // ---- the inverse transform ----------------------------------------------------------

  function Scaled(s: Ct, a: seq<Ct>): (r: seq<Ct>)
    ensures |r| == |a|
  {
    seq(|a|, k requires 0 <= k < |a| => Mul(s, a[k]))
  }

  /** One inverse stage applied to one forward stage gives back the input, doubled. */
  lemma StageUndone(d: seq<Ct>, w: Ct, v: Ct)
    requires |d| % 2 == 0 && Mul(v, w) == ONE
    ensures Merge(Sums(d), TwistedDifferences(d, w), v) == Scaled(TWO, d)
  {
    hide Mul, Add, Sub, Pow;
    var h := |d| / 2;
    var m := Merge(Sums(d), TwistedDifferences(d, w), v);
    forall k: nat | k < |d| ensures m[k] == Mul(TWO, d[k]) {
      var i := if k < h then k else k - h;
      ButterflyUndone(Sub(d[i], d[i + h]), w, v, i);
      Doubled(d[i], d[i + h]);
    }
  }

  lemma ButterflyUndone(x: Ct, w: Ct, v: Ct, k: nat)
    requires Mul(v, w) == ONE
    ensures Mul(Mul(x, Pow(w, k)), Pow(v, k)) == x
  {
    hide Mul;
    MulAssoc(x, Pow(w, k), Pow(v, k));
    MulComm(Pow(w, k), Pow(v, k));
    PowMul(v, w, k); PowOne(k); MulOne(x);
  }

  lemma {:induction false} PowOne(n: nat)
    ensures Pow(ONE, n) == ONE
  {
    hide Mul;
    if n > 0 {
      PowOne(n - 1);
      MulOne(ONE);
    }
  }

  lemma MergeScaled(s: Ct, lo: seq<Ct>, hi: seq<Ct>, v: Ct)
    requires |lo| == |hi|
    ensures Merge(Scaled(s, lo), Scaled(s, hi), v) == Scaled(s, Merge(lo, hi, v))
  {
    hide Mul;
    forall k | 0 <= k < |lo|
      ensures Add(Mul(s, lo[k]), Mul(Mul(s, hi[k]), Pow(v, k))) == Mul(s, Add(lo[k], Mul(hi[k], Pow(v, k))))
      ensures Sub(Mul(s, lo[k]), Mul(Mul(s, hi[k]), Pow(v, k))) == Mul(s, Sub(lo[k], Mul(hi[k], Pow(v, k))))
    {
      MulAssoc(s, hi[k], Pow(v, k));
      MulAdd(s, lo[k], Mul(hi[k], Pow(v, k)));
      MulSub(s, lo[k], Mul(hi[k], Pow(v, k)));
    }
  }

  lemma ScaledSlices(s: Ct, d: seq<Ct>, h: nat)
    requires h <= |d|
    ensures Scaled(s, d)[..h] == Scaled(s, d[..h]) && Scaled(s, d)[h..] == Scaled(s, d[h..])
  {
    hide Mul;
  }

  lemma ForwardUnfold(d: seq<Ct>, w: Ct)
    requires PowerOfTwo(|d|) && |d| > 1
    ensures Forward(d, w) == Forward(Sums(d), Mul(w, w)) + Forward(TwistedDifferences(d, w), Mul(w, w))
  {}

  lemma InverseUnfold(d: seq<Ct>, v: Ct)
    requires PowerOfTwo(|d|) && |d| > 1
    ensures Inverse(d, v)
         == Merge(Inverse(d[..|d| / 2], Mul(v, v)), Inverse(d[|d| / 2..], Mul(v, v)), v)
  {}

  lemma {:induction false} InverseScaled(s: Ct, d: seq<Ct>, v: Ct)
    requires PowerOfTwo(|d|)
    ensures Inverse(Scaled(s, d), v) == Scaled(s, Inverse(d, v))
    decreases |d|
  {
    if |d| == 1 {
    } else {
      hide Mul, Merge, Inverse;
      var h := |d| / 2;
      var v2 := Mul(v, v);
      InverseScaled(s, d[..h], v2);
      InverseScaled(s, d[h..], v2);
      ScaledSlices(s, d, h);
      InverseUnfold(Scaled(s, d), v);
      InverseUnfold(d, v);
      MergeScaled(s, Inverse(d[..h], v2), Inverse(d[h..], v2), v);
    }
  }

  lemma {:induction false} InverseOfForward(d: seq<Ct>, w: Ct, v: Ct)
    requires PowerOfTwo(|d|) && Mul(v, w) == ONE
    ensures Inverse(Forward(d, w), v) == Scaled(Ct(|d| as real, 0.0), d)
    decreases |d|
  {
    hide Mul;
    var n := |d|;
    if n == 1 {
      MulOne(d[0]);
      assert Scaled(ONE, d) == d;
    } else {
      var h := n / 2;
      var lo, hi := Sums(d), TwistedDifferences(d, w);
      var w2, v2 := Mul(w, w), Mul(v, v);
      InverseSquared(w, v);
      InverseOfForward(lo, w2, v2);
      InverseOfForward(hi, w2, v2);
      var f := Forward(d, w);
      assert f[..h] == Forward(lo, w2);
      assert f[h..] == Forward(hi, w2);
      var s := Ct(h as real, 0.0);
      MergeScaled(s, lo, hi, v);
      StageUndone(d, w, v);
      assert n as real == 2.0 * h as real;
      forall k | 0 <= k < n ensures Mul(s, Mul(TWO, d[k])) == Mul(Ct(n as real, 0.0), d[k]) {
        MulAssoc(s, TWO, d[k]);
        DoubleScale(h as real);
      }
      assert Scaled(s, Scaled(TWO, d)) == Scaled(Ct(n as real, 0.0), d);
    }
  }

  lemma InverseSquared(w: Ct, v: Ct)
    requires Mul(v, w) == ONE
    ensures Mul(Mul(v, v), Mul(w, w)) == ONE
  {
    hide Mul;
    MulAssoc(v, v, Mul(w, w));
    MulAssoc(v, w, w);
    MulOne(w);
  }

  /** What long_mul computes between the two transforms: both spectra and the scale 1/len. */
  function Products(s: Ct, a: seq<Ct>, b: seq<Ct>): (r: seq<Ct>)
    requires |a| == |b|
  {
    seq(|a|, k requires 0 <= k < |a| => Mul(Mul(s, a[k]), b[k]))
  }

  /** Transform, multiply pointwise with scale 1/len, transform back: cyclic convolution. */
  lemma FftMultiplies(a: seq<Ct>, b: seq<Ct>, w: Ct, v: Ct)
    requires |a| == |b| && PowerOfTwo(|a|) && PrincipalRoot(w, |a|) && Mul(v, w) == ONE
    ensures Inverse(Products(Ct(1.0 / |a| as real, 0.0), Forward(a, w), Forward(b, w)), v)
         == CyclicConvolution(a, b)
  {
    hide Mul;
    var n := |a|;
    var l, c := Ct(1.0 / n as real, 0.0), CyclicConvolution(a, b);
    var fa, fb := Forward(a, w), Forward(b, w);
    forall p | 0 <= p < n ensures Products(l, fa, fb)[p] == Scaled(l, Forward(c, w))[p] {
      ConvolutionTheorem(a, b, w, p);
      MulAssoc(l, fa[p], fb[p]);
    }
    assert Products(l, fa, fb) == Scaled(l, Forward(c, w));
    InverseScaled(l, Forward(c, w), v);
    InverseOfForward(c, w, v);
    forall k | 0 <= k < n ensures Mul(l, Mul(Ct(n as real, 0.0), c[k])) == c[k] {
      MulAssoc(l, Ct(n as real, 0.0), c[k]);
      UnitScale(n as real);
      MulOne(c[k]);
    }
    assert Scaled(l, Scaled(Ct(n as real, 0.0), c)) == c;
  }
}
