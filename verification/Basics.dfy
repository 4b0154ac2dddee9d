/** Facts about numbers and sets that more than one part needs. */
module Basics {
  lemma MulAssoc(a: int, b: int, c: int)
    ensures (a * b) * c == a * (b * c)
  {}

  lemma {:induction false} SubsetSize<T>(a: set<T>, b: set<T>)
    requires a <= b
    ensures |a| <= |b|
  {
    if x :| x in a { SubsetSize(a - {x}, b - {x}); }
  }

  /** Dividing by a and then by b is dividing by their product. */
  lemma DivideTwice(n: nat, a: nat, b: nat)
    requires a > 0 && b > 0
    ensures a * b > 0 && n / a / b == n / (a * b)
  {
    var q, r := n / a / b, n / a % b;
    assert n / a == q * b + r;
    var s := n % a;
    assert n == (q * b + r) * a + s;
    QuotientRearranged(q, a, b, r, s);
    RemainderBelow(r, s, a, b);
    QuotientIs(n, a * b, q, r * a + s);
  }

  lemma QuotientRearranged(q: int, a: int, b: int, r: int, s: int)
    ensures (q * b + r) * a + s == q * (a * b) + (r * a + s)
  {
    assert (q * b + r) * a == q * b * a + r * a;
    assert q * b * a == q * (a * b);
  }

  lemma RemainderBelow(r: int, s: int, a: int, b: int)
    requires 0 <= r < b && 0 <= s < a
    ensures 0 <= r * a + s < a * b
  {
    assert r * a <= (b - 1) * a;
    assert (b - 1) * a == a * b - a;
    assert r * a >= 0;
  }

  lemma QuotientIs(n: int, d: int, q: int, rest: int)
    requires d > 0 && n == q * d + rest && 0 <= rest < d
    ensures n / d == q
  {
    var e := n / d - q;
    assert d * (n / d) == d * q + d * e;
    assert e >= 1 ==> d * e >= d;
    assert e <= -1 ==> d * e <= -d;
  }
}
