/** Exact complex numbers: pairs of reals with the field operations that `ct` provides. */
module Complex {
  datatype Ct = Ct(re: real, im: real)

  const ZERO := Ct(0.0, 0.0)
  const ONE := Ct(1.0, 0.0)
  const MINUS_ONE := Ct(-1.0, 0.0)
  const TWO := Ct(2.0, 0.0)

  function Add(x: Ct, y: Ct): Ct { Ct(x.re + y.re, x.im + y.im) }
  function Sub(x: Ct, y: Ct): Ct { Ct(x.re - y.re, x.im - y.im) }
  function Mul(x: Ct, y: Ct): Ct { Ct(x.re * y.re - x.im * y.im, x.re * y.im + x.im * y.re) }

  function Pow(x: Ct, n: nat): Ct {
    if n == 0 then ONE else Mul(x, Pow(x, n - 1))
  }

  /** The square of the imaginary unit is -1, and lengths multiply. */
  lemma MulIs(x: Ct, y: Ct)
    ensures Mul(Ct(0.0, 1.0), Ct(0.0, 1.0)) == MINUS_ONE
    ensures var z := Mul(x, y); z.re * z.re + z.im * z.im == (x.re * x.re + x.im * x.im) * (y.re * y.re + y.im * y.im)
  {}

  lemma MulComm(x: Ct, y: Ct)
    ensures Mul(x, y) == Mul(y, x)
  {}

  lemma MulAssoc(x: Ct, y: Ct, z: Ct)
    ensures Mul(Mul(x, y), z) == Mul(x, Mul(y, z))
  {}

  lemma MulAdd(x: Ct, y: Ct, z: Ct)
    ensures Mul(x, Add(y, z)) == Add(Mul(x, y), Mul(x, z))
    ensures Mul(Add(y, z), x) == Add(Mul(y, x), Mul(z, x))
  {}

  lemma MulSub(x: Ct, y: Ct, z: Ct)
    ensures Mul(x, Sub(y, z)) == Sub(Mul(x, y), Mul(x, z))
    ensures Mul(Sub(y, z), x) == Sub(Mul(y, x), Mul(z, x))
  {}

  lemma MulOne(x: Ct)
    ensures Mul(ONE, x) == x == Mul(x, ONE)
    ensures Mul(ZERO, x) == ZERO == Mul(x, ZERO)
  {}

  lemma AddZero(x: Ct)
    ensures Add(x, ZERO) == x == Add(ZERO, x)
  {}

  lemma AddAssoc(x: Ct, y: Ct, z: Ct)
    ensures Add(Add(x, y), z) == Add(x, Add(y, z))
  {}

  lemma AddComm(x: Ct, y: Ct)
    ensures Add(x, y) == Add(y, x)
  {}

  lemma Doubled(x: Ct, y: Ct)
    ensures Add(Add(x, y), Sub(x, y)) == Mul(TWO, x)
    ensures Sub(Add(x, y), Sub(x, y)) == Mul(TWO, y)
  {}

  lemma DoubleScale(h: real)
    ensures Mul(Ct(h, 0.0), TWO) == Ct(2.0 * h, 0.0)
  {}

  lemma UnitScale(n: real)
    requires n != 0.0
    ensures Mul(Ct(1.0 / n, 0.0), Ct(n, 0.0)) == ONE
  {}

  lemma MinusOneSquared()
    ensures Mul(MINUS_ONE, MINUS_ONE) == ONE
  {}

  lemma MinusOneTimes(x: Ct, y: Ct)
    ensures Add(y, Mul(MINUS_ONE, x)) == Sub(y, x)
  {}

  lemma {:induction false} PowAdd(x: Ct, a: nat, b: nat)
    ensures Pow(x, a + b) == Mul(Pow(x, a), Pow(x, b))
  {
    hide Mul;
    if a == 0 { MulOne(Pow(x, b)); } else {
      PowAdd(x, a - 1, b);
      MulAssoc(x, Pow(x, a - 1), Pow(x, b));
    }
  }

  lemma {:induction false} PowMul(x: Ct, y: Ct, n: nat)
    ensures Pow(Mul(x, y), n) == Mul(Pow(x, n), Pow(y, n))
  {
    hide Mul;
    if n == 0 { MulOne(ONE); } else {
      PowMul(x, y, n - 1);
      var a, b := Pow(x, n - 1), Pow(y, n - 1);
      MulAssoc(x, y, Mul(a, b));
      MulAssoc(y, a, b); MulComm(y, a); MulAssoc(a, y, b);
      MulAssoc(x, a, Mul(y, b));
    }
  }

  lemma {:induction false} PowPow(x: Ct, a: nat, b: nat)
    ensures Pow(Pow(x, a), b) == Pow(x, a * b)
  {
    hide Mul;
    if b == 0 {  } else {
      PowPow(x, a, b - 1);
      PowAdd(x, a, a * (b - 1));
      assert a + a * (b - 1) == a * b;
    }
  }
}
