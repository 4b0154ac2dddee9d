/** Assignments of values to variables, tables of probabilities, and sums over them. */
module Tables {
  type Assignment = map<nat, nat>
  type Table = map<Assignment, real>

  function Restrict(a: Assignment, vars: set<nat>): Assignment {
    map v | v in a && v in vars :: a[v]
  }

  /** a gives every variable of vars, and no other, one of its values; radix[v] values for v. */
  ghost predicate Over(a: Assignment, vars: set<nat>, radix: seq<nat>) {
    a.Keys == vars && forall v :: v in vars ==> v < |radix| && a[v] < radix[v]
  }

  /** t has an entry for every assignment of vars. */
  ghost predicate Complete(t: Table, vars: set<nat>, radix: seq<nat>) {
    forall a :: a in t <==> Over(a, vars, radix)
  }

  ghost predicate HasValues(vars: set<nat>, radix: seq<nat>) {
    forall v :: v in vars ==> v < |radix| && radix[v] >= 1
  }

  lemma RestrictOver(a: Assignment, all: set<nat>, vars: set<nat>, radix: seq<nat>)
    requires Over(a, all, radix) && vars <= all
    ensures Over(Restrict(a, vars), vars, radix)
  {
    assert Restrict(a, vars).Keys == vars;
  }

  lemma RestrictTwice(a: Assignment, more: set<nat>, vars: set<nat>)
    requires vars <= more
    ensures Restrict(Restrict(a, more), vars) == Restrict(a, vars)
  {}

  /** Where one of the assignments of vars comes from. */
  lemma Extension(y: Assignment, vars: set<nat>, all: set<nat>, radix: seq<nat>) returns (a: Assignment)
    requires Over(y, vars, radix) && vars <= all && HasValues(all, radix)
    ensures Over(a, all, radix) && Restrict(a, vars) == y
  {
    a := map v | v in all :: if v in vars then y[v] else 0;
    assert a.Keys == all;
    assert Restrict(a, vars).Keys == vars;
  }

  /** The entry of a, or zero. */
  function At(t: Table, a: Assignment): real {
    if a in t then t[a] else 0.0
  }

  // ---- sums over entries ---------------------------------------------------------------------

  ghost function Sum(t: Table, s: set<Assignment>): real
    requires s <= t.Keys
  {
    if s == {} then 0.0 else
      var a :| a in s;
      t[a] + Sum(t, s - {a})
  }

  /** The sum does not depend on the order. */
  lemma {:induction false} SumRemove(t: Table, s: set<Assignment>, a: Assignment)
    requires s <= t.Keys && a in s
    ensures Sum(t, s) == t[a] + Sum(t, s - {a})
    decreases s
  {
    var b :| b in s && Sum(t, s) == t[b] + Sum(t, s - {b});
    if b != a {
      SumRemove(t, s - {b}, a);
      SumRemove(t, s - {a}, b);
      assert s - {b} - {a} == s - {a} - {b};
    }
  }

  lemma SumAdd(t: Table, s: set<Assignment>, a: Assignment)
    requires s <= t.Keys && a in t && a !in s
    ensures Sum(t, s + {a}) == Sum(t, s) + t[a]
  {
    SumRemove(t, s + {a}, a);
    assert s + {a} - {a} == s;
  }

  /** Products and quotients under names of their own, so that they can be hidden. */
  function Times(a: real, b: real): real { a * b }

  function Quotient(a: real, b: real): real
    requires b != 0.0
  {
    a / b
  }

  lemma TimesZero(a: real)
    ensures Times(a, 0.0) == 0.0 == Times(0.0, a)
  {}

  lemma TimesOne(a: real)
    ensures Times(a, 1.0) == a == Times(1.0, a)
  {}

  lemma TimesDistributes(a: real, b: real, f: real)
    ensures Times(a + b, f) == Times(a, f) + Times(b, f)
  {}

  lemma TimesSwaps(a: real, b: real)
    ensures Times(a, b) == Times(b, a)
  {}

  lemma TimesAssociates(a: real, b: real, c: real)
    ensures Times(Times(a, b), c) == Times(a, Times(b, c))
  {}

  lemma ProductNonNegative(a: real, b: real)
    requires 0.0 <= a && 0.0 <= b
    ensures 0.0 <= a * b
  {}

  lemma TimesProbability(a: real, b: real)
    requires 0.0 <= a <= 1.0 && 0.0 <= b <= 1.0
    ensures 0.0 <= Times(a, b) <= 1.0
  {
    ProductNonNegative(a, b);
    ProductNonNegative(1.0 - a, b);
    assert (1.0 - a) * b == b - a * b;
  }

  lemma TimesQuotient(s: real, n: real)
    requires s != 0.0
    ensures Times(s, Quotient(n, s)) == n
  {}

  /** a is at most s of something that becomes n: its share is at most n. */
  lemma ShareOfQuotient(a: real, s: real, n: real)
    requires 0.0 <= a <= s && s != 0.0 && n >= 0.0
    ensures 0.0 <= Times(a, Quotient(n, s)) <= n
  {
    var q := n / s;
    assert q * s == n && q >= 0.0;
    assert (s - a) * q >= 0.0;
    assert (s - a) * q == s * q - a * q;
  }

  /** Entries f times as large make a sum f times as large. */
  lemma {:induction false} SumScale(t: Table, u: Table, s: set<Assignment>, f: real)
    requires s <= t.Keys && s <= u.Keys
    requires forall a :: a in s ==> u[a] == Times(t[a], f)
    ensures Sum(u, s) == Times(Sum(t, s), f)
    decreases s
  {
    SumEmpty(t);
    SumEmpty(u);
    hide Sum, Times;
    if s == {} {
      TimesZero(f);
    } else {
      var a :| a in s;
      SumRemove(t, s, a);
      SumRemove(u, s, a);
      SumScale(t, u, s - {a}, f);
      TimesDistributes(t[a], Sum(t, s - {a}), f);
    }
  }

  lemma SumEmpty(t: Table)
    ensures Sum(t, {}) == 0.0
  {}

  ghost predicate NonNegative(t: Table) {
    forall a :: a in t ==> t[a] >= 0.0
  }

  lemma {:induction false} SumNonNegative(t: Table, s: set<Assignment>)
    requires s <= t.Keys && NonNegative(t)
    ensures Sum(t, s) >= 0.0
    decreases s
  {
    if s != {} {
      var a :| a in s;
      SumRemove(t, s, a);
      SumNonNegative(t, s - {a});
    }
  }

  lemma SumAtLeast(t: Table, s: set<Assignment>, a: Assignment)
    requires s <= t.Keys && NonNegative(t) && a in s
    ensures t[a] <= Sum(t, s)
  {
    SumRemove(t, s, a);
    SumNonNegative(t, s - {a});
  }

  // ---- marginals -----------------------------------------------------------------------------

  /** The keys that agree with y on vars. */
  ghost function Fibre(keys: set<Assignment>, vars: set<nat>, y: Assignment): set<Assignment> {
    set a | a in keys && Restrict(a, vars) == y
  }

  ghost function MarginalAt(t: Table, vars: set<nat>, y: Assignment): real {
    Sum(t, Fibre(t.Keys, vars, y))
  }

  ghost function Projections(keys: set<Assignment>, vars: set<nat>): set<Assignment> {
    set a | a in keys :: Restrict(a, vars)
  }

  /** The marginal of t on vars. */
  ghost function Marginal(t: Table, vars: set<nat>): Table {
    map y | y in Projections(t.Keys, vars) :: MarginalAt(t, vars, y)
  }

  function Cap(p: real): real { if p > 1.0 then 1.0 else p }

  /** The marginal of t on vars with sums above one replaced by one. */
  ghost function CappedMarginal(t: Table, vars: set<nat>): Table {
    map y | y in Projections(t.Keys, vars) :: Cap(MarginalAt(t, vars, y))
  }

  ghost predicate Probabilities(t: Table) {
    forall a :: a in t ==> 0.0 <= t[a] <= 1.0
  }

  /** No sum of the marginal of t on vars is above one. */
  ghost predicate SumsAtMostOne(t: Table, vars: set<nat>) {
    forall y :: y in Projections(t.Keys, vars) ==> MarginalAt(t, vars, y) <= 1.0
  }

  lemma CappedIsMarginal(t: Table, vars: set<nat>)
    requires SumsAtMostOne(t, vars)
    ensures CappedMarginal(t, vars) == Marginal(t, vars)
  {}

  lemma ProjectionsComplete(t: Table, all: set<nat>, vars: set<nat>, radix: seq<nat>)
    requires Complete(t, all, radix) && vars <= all && HasValues(all, radix)
    ensures Complete(CappedMarginal(t, vars), vars, radix)
    ensures Complete(Marginal(t, vars), vars, radix)
  {
    forall y ensures y in Projections(t.Keys, vars) <==> Over(y, vars, radix) {
      if Over(y, vars, radix) {
        var a := Extension(y, vars, all, radix);
        assert a in t;
      }
      if y in Projections(t.Keys, vars) {
        var a :| a in t && Restrict(a, vars) == y;
        RestrictOver(a, all, vars, radix);
      }
    }
  }

  /** Each capped sum is a probability and bounds the entries it is made of. */
  lemma CappedBounds(t: Table, vars: set<nat>)
    requires Probabilities(t)
    ensures Probabilities(CappedMarginal(t, vars))
    ensures forall a :: a in t ==>
      Restrict(a, vars) in CappedMarginal(t, vars) && t[a] <= CappedMarginal(t, vars)[Restrict(a, vars)]
  {
    var c := CappedMarginal(t, vars);
    forall y | y in c ensures 0.0 <= c[y] <= 1.0 {
      SumNonNegative(t, Fibre(t.Keys, vars, y));
    }
    forall a | a in t ensures Restrict(a, vars) in c && t[a] <= c[Restrict(a, vars)] {
      SumAtLeast(t, Fibre(t.Keys, vars, Restrict(a, vars)), a);
    }
  }

  // ---- marginalize ---------------------------------------------------------------------------

  /** add_probability on a table, with sums above one replaced by one. */
  method AddProbability(table: Table, a: Assignment, p: real) returns (out: Table)
    ensures out == table[a := if a in table then Cap(table[a] + p) else p]
  {
    if a in table {
      out := table[a := table[a] + p];
      if out[a] > 1.0 {
        out := out[a := 1.0];
      }
    } else {
      out := table[a := p];
    }
  }

  /** The entries of source for the variables of vars, collected one by one. */
  method Project(source: Assignment, vars: set<nat>) returns (a: Assignment)
    ensures a == Restrict(source, vars)
  {
    a := map[];
    var todo := source.Keys;
    while todo != {}
      invariant todo <= source.Keys
      invariant a == Restrict(source, vars) - todo
    {
      var v :| v in todo;
      if v in vars {
        a := a[v := source[v]];
      }
      todo := todo - {v};
    }
  }

  /** out holds the capped sums over the entries seen so far. */
  ghost predicate SummedSoFar(t: Table, vars: set<nat>, seen: set<Assignment>, out: Table) {
    && seen <= t.Keys && out.Keys == Projections(seen, vars)
    && forall y :: y in out ==> out[y] == Cap(Sum(t, Fibre(seen, vars, y)))
  }

  lemma FibreAdd(seen: set<Assignment>, vars: set<nat>, a: Assignment)
    requires a !in seen
    ensures Fibre(seen + {a}, vars, Restrict(a, vars)) == Fibre(seen, vars, Restrict(a, vars)) + {a}
    ensures forall z :: z != Restrict(a, vars) ==> Fibre(seen + {a}, vars, z) == Fibre(seen, vars, z)
    ensures Projections(seen + {a}, vars) == Projections(seen, vars) + {Restrict(a, vars)}
    ensures a !in Fibre(seen, vars, Restrict(a, vars))
    ensures Restrict(a, vars) !in Projections(seen, vars) ==> Fibre(seen, vars, Restrict(a, vars)) == {}
  {
    hide Restrict;
  }

  lemma FibreSubset(seen: set<Assignment>, vars: set<nat>, y: Assignment)
    ensures Fibre(seen, vars, y) <= seen
  {}

  lemma SummedNext(t: Table, vars: set<nat>, seen: set<Assignment>, out: Table, a: Assignment, next: Table)
    requires Probabilities(t) && SummedSoFar(t, vars, seen, out) && a in t && a !in seen
    requires var y := Restrict(a, vars);
      next == out[y := if y in out then Cap(out[y] + t[a]) else t[a]]
    ensures SummedSoFar(t, vars, seen + {a}, next)
  {
    hide Sum, Restrict, Fibre, Projections;
    var y := Restrict(a, vars);
    var f := Fibre(seen, vars, y);
    FibreSubset(seen, vars, y);
    FibreAdd(seen, vars, a);
    SumAdd(t, f, a);
    SumNonNegative(t, f);
    SumEmpty(t);
    forall z ensures Fibre(seen, vars, z) <= seen { FibreSubset(seen, vars, z); }
  }

  /** marginalize: the sums of the entries that agree on vars, each capped at one. */
  method Marginalize(t: Table, vars: set<nat>) returns (out: Table)
    requires Probabilities(t)
    ensures out == CappedMarginal(t, vars)
  {
    hide SummedSoFar;
    out := map[];
    var todo := t.Keys;
    SummedStart(t, vars);
    while todo != {}
      invariant todo <= t.Keys
      invariant SummedSoFar(t, vars, t.Keys - todo, out)
    {
      var a :| a in todo;
      var y := Project(a, vars);
      ghost var before := out;
      out := AddProbability(out, y, t[a]);
      SummedNext(t, vars, t.Keys - todo, before, a, out);
      assert t.Keys - (todo - {a}) == t.Keys - todo + {a};
      todo := todo - {a};
    }
    SummedDone(t, vars, out, t.Keys - todo);
  }

  lemma SummedStart(t: Table, vars: set<nat>)
    ensures SummedSoFar(t, vars, t.Keys - t.Keys, map[])
  {}

  lemma SummedDone(t: Table, vars: set<nat>, out: Table, seen: set<Assignment>)
    requires SummedSoFar(t, vars, seen, out) && seen == t.Keys
    ensures out == CappedMarginal(t, vars)
  {}
}
