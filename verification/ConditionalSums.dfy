/**
 * Sums of products of conditional probabilities: over any set of nodes whose parents are either
 * in the set or fixed, they are at most one.
 */
module ConditionalSums {
  import opened Tables
  import opened Counters
  import opened Messages
  import opened Joint
  import opened CliqueTables
  import opened InitialJoint
  import opened CliqueMarginals
  import opened LeafRemoval

  /** The parents of a node come before it. */
  ghost predicate Ordered(bn: Network, rank: seq<nat>) {
    && |rank| == |bn.radix|
    && forall n, k :: 0 <= n < |rank| && 0 <= k < |ParentsOf(bn, n)| ==>
         ParentsOf(bn, n)[k] < |rank| && rank[ParentsOf(bn, n)[k]] < rank[n]
  }

  /** The rows of the conditional tables are probability distributions, or less. */
  ghost predicate RowsAtMostOne(bn: Network) {
    forall n, ps :: 0 <= n < |bn.cpt| && n < |bn.radix| && Over(ps, Elements(ParentsOf(bn, n)), bn.radix) ==>
      ps in bn.cpt[n] && bn.radix[n] <= |bn.cpt[n][ps]| && RowSum(bn.cpt[n][ps], bn.radix[n]) <= 1.0
  }

  /** The factors of the nodes in some. */
  ghost function FactorsOf(bn: Network, some: set<nat>, x: Assignment): (fs: seq<real>)
    ensures |fs| == |bn.radix| && forall n :: 0 <= n < |fs| ==> fs[n] == if n in some then Conditional(bn, n, x) else 1.0
  {
    seq(|bn.radix|, n requires 0 <= n < |bn.radix| => if n in some then Conditional(bn, n, x) else 1.0)
  }

  /** The product of the conditionals of some, for all assignments of vars. */
  ghost function ProductTable(bn: Network, net: Net, vars: set<nat>, some: set<nat>): Table {
    map y | y in Projections(FullAssignments(net), vars) :: Prod(FactorsOf(bn, some, y))
  }

  ghost predicate FamiliesWithin(bn: Network, some: set<nat>, vars: set<nat>) {
    forall n :: n in some ==> n in vars && n < |bn.radix| && FamilyIn(bn, vars, n)
  }

  lemma ProductComplete(bn: Network, net: Net, vars: set<nat>, some: set<nat>)
    requires HasValues(AllVariables(net), net.radix) && vars <= AllVariables(net)
    ensures Complete(ProductTable(bn, net, vars, some), vars, net.radix)
  {
    ProjectionsOfFull(net, vars);
    hide Over, FullAssignments, Projections, Prod;
  }

  // ---- products of probabilities ------------------------------------------------------------------

  lemma {:induction false} ProdProbability(fs: seq<real>)
    requires forall k :: 0 <= k < |fs| ==> 0.0 <= fs[k] <= 1.0
    ensures 0.0 <= Prod(fs) <= 1.0
  {
    if fs != [] {
      ProdProbability(fs[1..]);
      TimesProbability(fs[0], Prod(fs[1..]));
    }
  }

  lemma ConditionalProbability(bn: Network, clique: set<nat>, n: nat, a: Assignment)
    requires WellFormed(bn) && Probable(bn) && n < |bn.radix|
    requires HoldsFamily(bn, clique, n) && Over(a, clique, bn.radix)
    ensures 0.0 <= Conditional(bn, n, a) <= 1.0
  {
    var parents := Elements(ParentsOf(bn, n));
    assert parents <= clique;
    RestrictOver(a, clique, parents, bn.radix);
  }

  lemma {:induction false} NodeFactorsProbable(bn: Network, clique: set<nat>, assignedTo: seq<nat>, i: nat, order: seq<nat>, a: Assignment)
    requires WellFormed(bn) && Probable(bn) && |assignedTo| == |bn.radix| && Over(a, clique, bn.radix)
    requires forall n :: 0 <= n < |assignedTo| && assignedTo[n] == i ==> HoldsFamily(bn, clique, n)
    ensures forall k :: 0 <= k < |order| ==> 0.0 <= NodeFactors(bn, assignedTo, i, order, a)[k] <= 1.0
  {
    hide WellFormed, Probable, HoldsFamily, Conditional, Over;
    if order != [] {
      NodeFactorsProbable(bn, clique, assignedTo, i, order[1..], a);
      if order[0] < |assignedTo| && assignedTo[order[0]] == i { ConditionalProbability(bn, clique, order[0], a); }
    }
  }

  // ---- comparing sums ----------------------------------------------------------------------------

  lemma {:induction false} SumMonotone(t: Table, u: Table, s: set<Assignment>)
    requires s <= t.Keys && s <= u.Keys && forall a :: a in s ==> t[a] <= u[a]
    ensures Sum(t, s) <= Sum(u, s)
    decreases s
  {
    SumEmpty(t);
    SumEmpty(u);
    hide Sum;
    if s != {} {
      var a :| a in s;
      SumRemove(t, s, a);
      SumRemove(u, s, a);
      SumMonotone(t, u, s - {a});
    }
  }

  /** A table below one with bounded sums has bounded sums. */
  lemma BoundFromAbove(t: Table, u: Table, e: set<nat>)
    requires t.Keys == u.Keys && (forall a :: a in t ==> t[a] <= u[a]) && SumsAtMostOne(u, e)
    ensures SumsAtMostOne(t, e)
  {
    hide Restrict, Sum;
    forall y | y in Projections(t.Keys, e) ensures MarginalAt(t, e, y) <= 1.0 {
      FibreSubset(t.Keys, e, y);
      SumMonotone(t, u, Fibre(t.Keys, e, y));
      assert MarginalAt(u, e, y) <= 1.0;
    }
  }

  lemma TimesMonotone(a: real, b: real, f: real)
    requires a <= b && f >= 0.0
    ensures Times(a, f) <= Times(b, f) && Times(f, a) <= Times(f, b)
  {
    assert (b - a) * f >= 0.0;
    assert (b - a) * f == b * f - a * f;
  }

  /** Larger factors, none of them negative, make a larger product. */
  lemma {:induction false} ProdMonotone(fs: seq<real>, gs: seq<real>)
    requires |fs| == |gs| && forall k :: 0 <= k < |fs| ==> 0.0 <= fs[k] <= gs[k]
    ensures 0.0 <= Prod(fs) <= Prod(gs)
  {
    if fs != [] {
      ProdMonotone(fs[1..], gs[1..]);
      TimesMonotone(fs[0], gs[0], Prod(fs[1..]));
      TimesMonotone(Prod(fs[1..]), Prod(gs[1..]), gs[0]);
      TimesMonotone(0.0, fs[0], Prod(fs[1..]));
      TimesZero(Prod(fs[1..]));
    }
  }

  // ---- summing over one node ---------------------------------------------------------------------

  function Give(y: Assignment, n: nat, value: nat): Assignment { y[n := value] }

  /** y with n at its first k values. */
  ghost function Extensions(y: Assignment, n: nat, k: nat): set<Assignment> {
    set j | 0 <= j < k :: Give(y, n, j)
  }

  /** Entries that are the probabilities of a row times q sum to the sum of the row times q. */
  lemma {:induction false} SumOverValues(t: Table, y: Assignment, n: nat, row: seq<real>, k: nat, q: real)
    requires k <= |row| && n !in y && Extensions(y, n, k) <= t.Keys
    requires forall j :: 0 <= j < k ==> t[Give(y, n, j)] == Times(row[j], q)
    ensures Sum(t, Extensions(y, n, k)) == Times(RowSum(row, k), q)
  {
    if k == 0 {
      assert Extensions(y, n, 0) == {};
      SumEmpty(t);
      TimesZero(q);
    } else {
      assert Extensions(y, n, k) == Extensions(y, n, k - 1) + {Give(y, n, k - 1)};
      SumOverValues(t, y, n, row, k - 1, q);
      assert Give(y, n, k - 1) !in Extensions(y, n, k - 1) by {
        forall j | 0 <= j < k - 1 ensures Give(y, n, j) != Give(y, n, k - 1) {
          assert Give(y, n, j)[n] != Give(y, n, k - 1)[n];
        }
      }
      SumAdd(t, Extensions(y, n, k - 1), Give(y, n, k - 1));
      TimesDistributes(RowSum(row, k - 1), row[k - 1], q);
    }
  }

  /** The assignments of vars that agree with y but for n are y with any value of n. */
  lemma FibreIsExtensions(keys: set<Assignment>, vars: set<nat>, radix: seq<nat>, n: nat, y: Assignment)
    requires forall x :: x in keys <==> Over(x, vars, radix)
    requires n in vars && n < |radix| && Over(y, vars - {n}, radix)
    ensures Fibre(keys, vars - {n}, y) == Extensions(y, n, radix[n])
  {
    forall x | x in Fibre(keys, vars - {n}, y) ensures x in Extensions(y, n, radix[n]) {
      assert x == Give(y, n, x[n]) by {
        assert x.Keys == Give(y, n, x[n]).Keys;
        forall v | v in x ensures x[v] == Give(y, n, x[n])[v] {
          if v != n { assert Restrict(x, vars - {n})[v] == y[v]; }
        }
      }
    }
    forall j | 0 <= j < radix[n] ensures Give(y, n, j) in Fibre(keys, vars - {n}, y) {
      assert Give(y, n, j).Keys == vars;
      assert Restrict(Give(y, n, j), vars - {n}).Keys == y.Keys;
    }
  }

  /** Giving n another value changes nothing for a node of which n is no parent. */
  lemma OtherConditional(bn: Network, n: nat, m: nat, y: Assignment, j: nat)
    requires m != n && forall k :: 0 <= k < |ParentsOf(bn, m)| ==> ParentsOf(bn, m)[k] != n
    ensures Conditional(bn, m, Give(y, n, j)) == Conditional(bn, m, y)
  {
    var parents := Elements(ParentsOf(bn, m));
    assert n !in parents;
    assert Restrict(Give(y, n, j), parents) == Restrict(y, parents);
  }

  /** With n at value j its own factor comes in, and nothing else changes. */
  lemma FactorsExtended(bn: Network, some: set<nat>, n: nat, y: Assignment, j: nat)
    requires n in some && n < |bn.radix|
    requires forall m, k :: m in some && 0 <= k < |ParentsOf(bn, m)| ==> ParentsOf(bn, m)[k] != n
    ensures Prod(FactorsOf(bn, some, Give(y, n, j))) == Times(Conditional(bn, n, Give(y, n, j)), Prod(FactorsOf(bn, some - {n}, y)))
  {
    var fs := FactorsOf(bn, some, Give(y, n, j));
    var gs := FactorsOf(bn, some - {n}, y);
    forall m | 0 <= m < |fs| && m != n && m in some ensures fs[m] == gs[m] {
      OtherConditional(bn, n, m, y, j);
    }
    hide Conditional, Times, Prod;
    assert gs == fs[n := 1.0];
    var rest := ProdUpdate(fs, n, 1.0);
    TimesOne(rest);
  }

  /** The row of n that y selects. */
  lemma RowOf(bn: Network, n: nat, y: Assignment, j: nat)
    requires n < |bn.cpt| && n !in Elements(ParentsOf(bn, n))
    requires var ps := Restrict(y, Elements(ParentsOf(bn, n))); ps in bn.cpt[n] && j < |bn.cpt[n][ps]|
    ensures Conditional(bn, n, Give(y, n, j)) == bn.cpt[n][Restrict(y, Elements(ParentsOf(bn, n)))][j]
  {
    assert Restrict(Give(y, n, j), Elements(ParentsOf(bn, n))) == Restrict(y, Elements(ParentsOf(bn, n)));
  }

  /** A node of some that comes last, of which none of some is a child. */
  lemma {:induction false} LastOf(bn: Network, rank: seq<nat>, some: set<nat>) returns (n: nat)
    requires Ordered(bn, rank) && some != {} && forall m :: m in some ==> m < |rank|
    ensures n in some && forall m :: m in some ==> rank[m] <= rank[n]
  {
    var p :| p in some;
    n := p;
    if some - {p} != {} {
      var m := LastOf(bn, rank, some - {p});
      if rank[m] > rank[p] { n := m; }
    }
    forall k | k in some ensures rank[k] <= rank[n] {
      assert k == p || k in some - {p};
    }
  }

  // ---- summing over all nodes of a set -----------------------------------------------------------

  /** The network is given with probabilities, rows that sum to no more than one, and an order. */
  ghost predicate OrderedNetwork(bn: Network, rank: seq<nat>) {
    WellFormed(bn) && Probable(bn) && RowsAtMostOne(bn) && Ordered(bn, rank)
  }

  lemma FactorsOfProbable(bn: Network, some: set<nat>, vars: set<nat>, y: Assignment)
    requires WellFormed(bn) && Probable(bn) && FamiliesWithin(bn, some, vars) && Over(y, vars, bn.radix)
    ensures 0.0 <= Prod(FactorsOf(bn, some, y)) <= 1.0
  {
    forall n | 0 <= n < |bn.radix| && n in some ensures 0.0 <= Conditional(bn, n, y) <= 1.0 {
      ConditionalProbability(bn, vars, n, y);
    }
    hide Conditional, Prod;
    ProdProbability(FactorsOf(bn, some, y));
  }

  /** The last node of a set is no parent in it. */
  lemma LastIsNoParent(bn: Network, rank: seq<nat>, some: set<nat>, vars: set<nat>, n: nat)
    requires Ordered(bn, rank) && FamiliesWithin(bn, some, vars) && n in some
    requires forall m :: m in some ==> m < |rank| && rank[m] <= rank[n]
    ensures forall m, k :: m in some && 0 <= k < |ParentsOf(bn, m)| ==> ParentsOf(bn, m)[k] != n
    ensures FamiliesWithin(bn, some - {n}, vars - {n}) && n !in Elements(ParentsOf(bn, n))
  {}

  /** Summing over the last node leaves at most the product of the others. */
  lemma EliminateAt(bn: Network, net: Net, rank: seq<nat>, vars: set<nat>, some: set<nat>, n: nat, y: Assignment)
    requires OrderedNetwork(bn, rank) && net.radix == bn.radix && vars <= AllVariables(net) && HasValues(AllVariables(net), net.radix)
    requires FamiliesWithin(bn, some, vars) && n in some
    requires forall m :: m in some ==> m < |rank| && rank[m] <= rank[n]
    requires Over(y, vars - {n}, net.radix)
    ensures MarginalAt(ProductTable(bn, net, vars, some), vars - {n}, y) <= Prod(FactorsOf(bn, some - {n}, y))
  {
    var t, q := ProductTable(bn, net, vars, some), Prod(FactorsOf(bn, some - {n}, y));
    var parents := Elements(ParentsOf(bn, n));
    LastIsNoParent(bn, rank, some, vars, n);
    ProductComplete(bn, net, vars, some);
    assert parents <= vars - {n} && n in vars;
    RestrictOver(y, vars - {n}, parents, net.radix);
    var ps := Restrict(y, parents);
    assert ps in bn.cpt[n];
    var row := bn.cpt[n][ps];
    assert |row| == bn.radix[n] && RowSum(row, bn.radix[n]) <= 1.0;
    FibreIsExtensions(t.Keys, vars, net.radix, n, y);
    FactorsOfProbable(bn, some - {n}, vars - {n}, y);
    hide Conditional, Prod, Times, Restrict, Over, Sum, RowSum, Projections, FullAssignments, Ordered, Probable, RowsAtMostOne,
      WellFormed, HasValues, FamiliesWithin, Complete, AllVariables;
    forall j | 0 <= j < bn.radix[n] ensures Give(y, n, j) in t && t[Give(y, n, j)] == Times(row[j], q) {
      assert Give(y, n, j) in Extensions(y, n, bn.radix[n]);
      FactorsExtended(bn, some, n, y, j);
      RowOf(bn, n, y, j);
    }
    assert n !in y by { OverKeys(y, vars - {n}, net.radix); }
    SumOverValues(t, y, n, row, bn.radix[n], q);
    TimesMonotone(RowSum(row, bn.radix[n]), 1.0, q);
    TimesOne(q);
  }

  lemma OverKeys(y: Assignment, vars: set<nat>, radix: seq<nat>)
    requires Over(y, vars, radix)
    ensures y.Keys == vars
  {}

  lemma EliminateOne(bn: Network, net: Net, rank: seq<nat>, vars: set<nat>, some: set<nat>, n: nat)
    requires OrderedNetwork(bn, rank) && net.radix == bn.radix && vars <= AllVariables(net) && HasValues(AllVariables(net), net.radix)
    requires FamiliesWithin(bn, some, vars) && n in some
    requires forall m :: m in some ==> m < |rank| && rank[m] <= rank[n]
    ensures var t, u := Marginal(ProductTable(bn, net, vars, some), vars - {n}), ProductTable(bn, net, vars - {n}, some - {n});
      t.Keys == u.Keys && forall y :: y in t ==> t[y] <= u[y]
  {
    var whole := ProductTable(bn, net, vars, some);
    var t, u := Marginal(whole, vars - {n}), ProductTable(bn, net, vars - {n}, some - {n});
    ProductComplete(bn, net, vars, some);
    ProductComplete(bn, net, vars - {n}, some - {n});
    FewerHaveValues(vars, AllVariables(net), net.radix);
    ProjectionsComplete(whole, vars, vars - {n}, net.radix);
    SameKeys(t, u, vars - {n}, net.radix);
    forall y | y in t ensures t[y] <= u[y] {
      assert Over(y, vars - {n}, net.radix);
      assert t[y] == MarginalAt(whole, vars - {n}, y);
      hide MarginalAt, Prod, Over, FullAssignments, Projections;
      EliminateAt(bn, net, rank, vars, some, n, y);
    }
  }

  /** Summing over all nodes of the set leaves at most one. */
  lemma {:induction false} EliminateAll(bn: Network, net: Net, rank: seq<nat>, vars: set<nat>, some: set<nat>)
    requires OrderedNetwork(bn, rank) && net.radix == bn.radix && vars <= AllVariables(net) && HasValues(AllVariables(net), net.radix)
    requires FamiliesWithin(bn, some, vars)
    ensures SumsAtMostOne(ProductTable(bn, net, vars, some), vars - some)
    decreases some
  {
    hide OrderedNetwork, ProductTable, HasValues, Marginal, SumsAtMostOne, FamiliesWithin, AllVariables;
    if some == {} {
      NothingToSum(bn, net, vars);
    } else {
      RanksExist(bn, net, rank, some, vars);
      var n := LastNode(bn, rank, some);
      var rest, others := vars - {n}, some - {n};
      EliminateOne(bn, net, rank, vars, some, n);
      FewerFamilies(bn, rank, some, vars, n);
      InVars(bn, some, vars, n);
      EliminateAll(bn, net, rank, rest, others);
      assert rest - others == vars - some;
      BoundFromAbove(Marginal(ProductTable(bn, net, vars, some), rest), ProductTable(bn, net, rest, others), vars - some);
      BoundOfMarginal(ProductTable(bn, net, vars, some), rest, vars - some);
    }
  }

  lemma InVars(bn: Network, some: set<nat>, vars: set<nat>, n: nat)
    requires FamiliesWithin(bn, some, vars) && n in some
    ensures n in vars
  {}

  lemma NothingToSum(bn: Network, net: Net, vars: set<nat>)
    requires vars <= AllVariables(net) && HasValues(AllVariables(net), net.radix)
    ensures SumsAtMostOne(ProductTable(bn, net, vars, {}), vars - {})
  {
    var t := ProductTable(bn, net, vars, {});
    assert vars - {} == vars;
    ProductComplete(bn, net, vars, {});
    MarginalOnAll(t, vars, net.radix);
    hide Restrict, Over, FullAssignments;
    forall y | y in Projections(t.Keys, vars) ensures MarginalAt(t, vars, y) <= 1.0 {
      assert Marginal(t, vars)[y] == MarginalAt(t, vars, y);
      ProdOfOnes(FactorsOf(bn, {}, y));
    }
  }

  lemma RanksExist(bn: Network, net: Net, rank: seq<nat>, some: set<nat>, vars: set<nat>)
    requires OrderedNetwork(bn, rank) && FamiliesWithin(bn, some, vars)
    ensures forall m :: m in some ==> m < |rank|
  {}

  lemma LastNode(bn: Network, rank: seq<nat>, some: set<nat>) returns (n: nat)
    requires OrderedNetwork(bn, rank) && some != {} && forall m :: m in some ==> m < |rank|
    ensures n in some && forall m :: m in some ==> m < |rank| && rank[m] <= rank[n]
  {
    n := LastOf(bn, rank, some);
  }

  lemma FewerFamilies(bn: Network, rank: seq<nat>, some: set<nat>, vars: set<nat>, n: nat)
    requires OrderedNetwork(bn, rank) && FamiliesWithin(bn, some, vars) && n in some
    requires forall m :: m in some ==> m < |rank| && rank[m] <= rank[n]
    ensures FamiliesWithin(bn, some - {n}, vars - {n})
  {
    LastIsNoParent(bn, rank, some, vars, n);
  }

  /** The bound of a marginal is one of the table. */
  lemma BoundOfMarginal(t: Table, more: set<nat>, e: set<nat>)
    requires e <= more && SumsAtMostOne(Marginal(t, more), e)
    ensures SumsAtMostOne(t, e)
  {
    var m := Marginal(t, more);
    MarginalOfMarginal(t, more, e);
    hide Restrict, MarginalAt;
    forall y | y in Projections(t.Keys, e) ensures MarginalAt(t, e, y) <= 1.0 {
      assert y in Marginal(t, e);
      assert Marginal(m, e)[y] == MarginalAt(m, e, y);
      assert Marginal(t, e)[y] == MarginalAt(t, e, y);
    }
  }
}
