/**
 * What a calibrated join tree holds: every clique table is the marginal of the joint function on
 * its clique. Cliques are removed one leaf at a time until only the one of interest is left.
 */
module CliqueMarginals {
  import opened Tables
  import opened Counters
  import opened Schedule
  import opened Messages
  import opened Joint

  // ---- marginals of marginals --------------------------------------------------------------------

  lemma {:induction false} SumUnion(t: Table, a: set<Assignment>, b: set<Assignment>)
    requires a + b <= t.Keys && a !! b
    ensures Sum(t, a + b) == Sum(t, a) + Sum(t, b)
    decreases b
  {
    SumEmpty(t);
    hide Sum;
    if b == {} {
      assert a + b == a;
    } else {
      var x :| x in b;
      SumRemove(t, b, x);
      SumRemove(t, a + b, x);
      assert a + b - {x} == a + (b - {x});
      SumUnion(t, a, b - {x});
    }
  }

  /** A sum can be taken fibre by fibre; m holds the sums over the fibres. */
  lemma {:induction false} SumByFibres(t: Table, s: set<Assignment>, vars: set<nat>, m: Table)
    requires s <= t.Keys && Projections(s, vars) <= m.Keys
    requires forall z :: z in Projections(s, vars) ==> m[z] == Sum(t, Fibre(s, vars, z))
    ensures Sum(m, Projections(s, vars)) == Sum(t, s)
    decreases s
  {
    SumEmpty(t);
    SumEmpty(m);
    if s == {} {
      assert Projections(s, vars) == {};
    } else {
      var a :| a in s;
      var z := Restrict(a, vars);
      var f := Fibre(s, vars, z);
      var rest := s - f;
      FibreSubset(s, vars, z);
      assert a in f;
      FibresOfRest(s, vars, z);
      hide Sum, Fibre, Projections, Restrict;
      SumByFibres(t, rest, vars, m);
      SumRemove(m, Projections(s, vars), z);
      SumUnion(t, rest, f);
      assert rest + f == s;
    }
  }

  lemma FibresOfRest(s: set<Assignment>, vars: set<nat>, z: Assignment)
    requires z in Projections(s, vars)
    ensures Projections(s - Fibre(s, vars, z), vars) == Projections(s, vars) - {z}
    ensures forall y :: y in Projections(s, vars) && y != z ==> Fibre(s - Fibre(s, vars, z), vars, y) == Fibre(s, vars, y)
  {
    hide Restrict;
  }

  /** The marginal on fewer variables can be taken in two steps. */
  lemma MarginalOfMarginal(t: Table, more: set<nat>, vars: set<nat>)
    requires vars <= more
    ensures Marginal(Marginal(t, more), vars) == Marginal(t, vars)
  {
    var m := Marginal(t, more);
    forall a | a in t ensures Restrict(Restrict(a, more), vars) == Restrict(a, vars) { RestrictTwice(a, more, vars); }
    hide Restrict;
    assert Projections(m.Keys, vars) == Projections(t.Keys, vars) by {
      forall a | a in t ensures Restrict(a, vars) in Projections(m.Keys, vars) { assert Restrict(a, more) in m; }
    }
    forall y | y in Projections(t.Keys, vars) ensures MarginalAt(m, vars, y) == MarginalAt(t, vars, y) {
      var s := Fibre(t.Keys, vars, y);
      assert Projections(s, more) == Fibre(m.Keys, vars, y);
      forall z | z in Projections(s, more) ensures m[z] == Sum(t, Fibre(s, more, z)) {
        assert Fibre(s, more, z) == Fibre(t.Keys, more, z);
      }
      SumByFibres(t, s, more, m);
    }
  }

  /** The marginal on all variables is the table itself. */
  lemma MarginalOnAll(t: Table, vars: set<nat>, radix: seq<nat>)
    requires Complete(t, vars, radix)
    ensures Marginal(t, vars) == t
  {
    forall a | a in t ensures Restrict(a, vars) == a { assert a.Keys == vars; }
    hide Restrict, Over;
    assert Projections(t.Keys, vars) == t.Keys;
    forall a | a in t ensures MarginalAt(t, vars, a) == t[a] {
      assert Fibre(t.Keys, vars, a) == {a};
      SumRemove(t, {a}, a);
      assert {a} - {a} == {};
      SumEmpty(t);
    }
  }

  // ---- another root ------------------------------------------------------------------------------

  datatype Rooting = Rooting(root: nat, parent: seq<nat>, depth: seq<nat>)

  /** The same tree, hung up at another node. */
  ghost predicate RootedAt(net: Net, r: Rooting) {
    && |net.cliques| == |net.neighbors| == |r.parent| == |r.depth| && r.root < |r.parent|
    && (forall v {:trigger r.parent[v]} :: 0 <= v < |r.parent| && v != r.root ==>
         r.parent[v] < |r.parent| && r.depth[r.parent[v]] < r.depth[v] && Directed(net.neighbors, v, r.parent[v]))
    && (forall u: nat, v: nat :: Directed(net.neighbors, u, v) ==>
         v < |r.parent| && u != v && u in net.neighbors[v] && (ChildOf(r, u, v) || ChildOf(r, v, u)))
  }

  predicate ChildOf(r: Rooting, v: nat, p: nat) {
    v < |r.parent| && v != r.root && r.parent[v] == p
  }

  /** The factors of the separators, each at the place of its lower end under this root. */
  ghost function RootedSeparators(net: Net, separators: map<Edge, Table>, r: Rooting, x: Assignment): (fs: seq<real>)
    ensures |fs| == |r.parent|
    ensures forall v :: 0 <= v < |fs| ==>
      fs[v] == if v == r.root then 1.0 else SeparatorFactor(net, separators, x, v, r.parent[v])
  {
    seq(|r.parent|, v requires 0 <= v < |r.parent| =>
      if v == r.root then 1.0 else SeparatorFactor(net, separators, x, v, r.parent[v]))
  }

  /** Hanging the tree up at a neighbour of the root turns one edge round. */
  function StepDown(r: Rooting, i: nat): Rooting
    requires i < |r.parent| == |r.depth| && r.root < |r.parent|
  {
    Rooting(i, r.parent[r.root := i], seq(|r.depth|, v requires 0 <= v < |r.depth| => if v == i then 0 else r.depth[v] + 1))
  }

  lemma StepDownRooted(net: Net, r: Rooting, i: nat)
    requires RootedAt(net, r) && ChildOf(r, i, r.root)
    ensures RootedAt(net, StepDown(r, i))
  {
    var s := StepDown(r, i);
    assert Directed(net.neighbors, i, r.parent[i]);
    forall u: nat, v: nat | Directed(net.neighbors, u, v)
      ensures v < |s.parent| && u != v && u in net.neighbors[v] && (ChildOf(s, u, v) || ChildOf(s, v, u))
    {
      assert ChildOf(r, u, v) || ChildOf(r, v, u);
    }
    forall v | 0 <= v < |s.parent| && v != s.root
      ensures s.parent[v] < |s.parent| && s.depth[s.parent[v]] < s.depth[v] && Directed(net.neighbors, v, s.parent[v])
    {
      if v != r.root { assert s.parent[v] == r.parent[v]; }
    }
  }

  lemma StepDownProduct(net: Net, separators: map<Edge, Table>, r: Rooting, i: nat, x: Assignment)
    requires RootedAt(net, r) && ChildOf(r, i, r.root)
    ensures Prod(RootedSeparators(net, separators, StepDown(r, i), x)) == Prod(RootedSeparators(net, separators, r, x))
  {
    var fs, gs := RootedSeparators(net, separators, r, x), RootedSeparators(net, separators, StepDown(r, i), x);
    SeparatorSymmetric(net, i, r.root);
    var s := fs[i];
    var middle := fs[i := 1.0];
    hide SeparatorFactor, Times, Prod, RootedAt;
    assert gs == middle[r.root := s] by { TurnedRound(net, separators, r, i, x); }
    var rest := ProdUpdate(fs, i, 1.0);
    var rest' := ProdUpdate(middle, r.root, s);
    TimesOne(rest);
    TimesOne(rest');
  }

  lemma TurnedRound(net: Net, separators: map<Edge, Table>, r: Rooting, i: nat, x: Assignment)
    requires RootedAt(net, r) && ChildOf(r, i, r.root)
    ensures RootedSeparators(net, separators, StepDown(r, i), x)
         == RootedSeparators(net, separators, r, x)[i := 1.0][r.root := RootedSeparators(net, separators, r, x)[i]]
  {
    SeparatorSymmetric(net, i, r.root);
    hide Separator;
  }

  /** The tree hung up at any node i; the product of the separators stays what it is. */
  lemma {:induction false} HangUpAt(net: Net, separators: map<Edge, Table>, i: nat) returns (r: Rooting)
    requires Proper(net) && i < |net.cliques|
    ensures RootedAt(net, r) && r.root == i
    ensures forall x :: Prod(RootedSeparators(net, separators, r, x)) == Prod(SeparatorFactors(net, separators, x))
    decreases net.depth[i]
  {
    if i == 0 {
      r := Rooting(0, net.parent, net.depth);
      FirstRooting(net);
      forall x ensures RootedSeparators(net, separators, r, x) == SeparatorFactors(net, separators, x) {}
    } else {
      assert Directed(net.neighbors, i, net.parent[i]);
      var s := HangUpAt(net, separators, net.parent[i]);
      assert ChildOf(s, i, s.root);
      r := StepDown(s, i);
      StepDownRooted(net, s, i);
      forall x ensures Prod(RootedSeparators(net, separators, r, x)) == Prod(SeparatorFactors(net, separators, x)) {
        StepDownProduct(net, separators, s, i, x);
      }
    }
  }

  lemma FirstRooting(net: Net)
    requires Proper(net)
    ensures RootedAt(net, Rooting(0, net.parent, net.depth))
  {
    var r := Rooting(0, net.parent, net.depth);
    forall u: nat, v: nat | Directed(net.neighbors, u, v)
      ensures v < |r.parent| && u != v && u in net.neighbors[v] && (ChildOf(r, u, v) || ChildOf(r, v, u))
    {
      Edges(net.neighbors, net.parent, net.depth, u, v);
      assert Up(net.parent, u, v) || Up(net.parent, v, u);
    }
  }
}
