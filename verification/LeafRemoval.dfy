/** Removing the leaves of a calibrated join tree until one clique is left. */
module LeafRemoval {
  import opened Tables
  import opened Counters
  import opened Schedule
  import opened Messages
  import opened Joint
  import opened CliqueMarginals

  // ---- the path condition ------------------------------------------------------------------------

  /** A walk over edges through cliques that all hold v. */
  ghost predicate WalkWithin(net: Net, walk: seq<nat>, v: nat) {
    && |walk| > 0
    && (forall k :: 0 <= k < |walk| ==> v in Clique(net, walk[k]))
    && (forall k :: 0 <= k < |walk| - 1 ==> Directed(net.neighbors, walk[k], walk[k + 1]))
  }

  ghost predicate Linked(net: Net, i: nat, j: nat, v: nat) {
    exists walk :: WalkWithin(net, walk, v) && walk[0] == i && walk[|walk| - 1] == j
  }

  /** The condition of a join tree: cliques that hold v are linked through cliques that hold v. */
  ghost predicate PathCondition(net: Net) {
    forall i: nat, j: nat, v: nat :: v in Clique(net, i) && v in Clique(net, j) ==> Linked(net, i, j, v)
  }

  /** v is at or below l. */
  ghost predicate Under(r: Rooting, l: nat, v: nat)
    requires forall v {:trigger r.parent[v]} :: 0 <= v < |r.parent| && v != r.root ==>
      r.parent[v] < |r.parent| == |r.depth| && r.depth[r.parent[v]] < r.depth[v]
    decreases if v < |r.depth| then r.depth[v] else 0
  {
    v == l || (v < |r.parent| == |r.depth| && v != r.root && Under(r, l, r.parent[v]))
  }

  /** A walk out of what is below l passes the parent of l. */
  lemma {:induction false} WalkOut(net: Net, r: Rooting, l: nat, walk: seq<nat>, v: nat)
    requires RootedAt(net, r) && l < |r.parent| && l != r.root
    requires WalkWithin(net, walk, v) && Under(r, l, walk[0]) && !Under(r, l, walk[|walk| - 1])
    ensures v in Clique(net, r.parent[l])
    decreases |walk|
  {
    assert Directed(net.neighbors, walk[0], walk[1]);
    if Under(r, l, walk[1]) {
      var rest := walk[1..];
      forall k | 0 <= k < |rest| - 1 ensures Directed(net.neighbors, rest[k], rest[k + 1]) {
        assert Directed(net.neighbors, walk[k + 1], walk[k + 2]);
      }
      WalkOut(net, r, l, rest, v);
    } else {
      assert ChildOf(r, walk[0], walk[1]) || ChildOf(r, walk[1], walk[0]);
    }
  }

  // ---- what is left of the tree ------------------------------------------------------------------

  /** alive holds the root and with each node its parent. */
  ghost predicate UpClosed(r: Rooting, alive: set<nat>) {
    && r.root in alive && (forall v :: v in alive ==> v < |r.parent|)
    && (forall v :: v in alive && v != r.root && v < |r.parent| ==> r.parent[v] in alive)
  }

  /** l is alive, is not the root, and has no child that is alive. */
  ghost predicate Leaf(r: Rooting, alive: set<nat>, l: nat) {
    l in alive && l != r.root && forall c :: c in alive && c != r.root && c < |r.parent| ==> r.parent[c] != l
  }

  /** While more than the root is alive there is a leaf: the deepest. */
  lemma {:induction false} LeafExists(net: Net, r: Rooting, alive: set<nat>, l0: nat) returns (l: nat)
    requires RootedAt(net, r) && UpClosed(r, alive) && l0 in alive && l0 != r.root
    ensures Leaf(r, alive, l)
    decreases Largest(r.depth) - r.depth[l0]
  {
    LargestBounds(r.depth, l0);
    if c :| c in alive && c != r.root && r.parent[c] == l0 {
      LargestBounds(r.depth, c);
      l := LeafExists(net, r, alive, c);
    } else {
      l := l0;
    }
  }

  /** No other node that is alive is below a leaf. */
  lemma {:induction false} NothingUnderLeaf(net: Net, r: Rooting, alive: set<nat>, l: nat, k: nat)
    requires RootedAt(net, r) && UpClosed(r, alive) && Leaf(r, alive, l) && k in alive && k != l
    ensures !Under(r, l, k)
    decreases r.depth[k]
  {
    if k != r.root {
      assert r.parent[k] != l;
      NothingUnderLeaf(net, r, alive, l, r.parent[k]);
    }
  }

  ghost function Variables(net: Net, alive: set<nat>): set<nat> {
    set k, v | k in alive && v in Clique(net, k) :: v
  }

  /** What a leaf shares with the rest of the living, it shares with its parent. */
  lemma LeafShares(net: Net, r: Rooting, alive: set<nat>, l: nat)
    requires PathCondition(net) && RootedAt(net, r) && UpClosed(r, alive) && Leaf(r, alive, l)
    ensures Clique(net, l) * Variables(net, alive - {l}) == Separator(net, l, r.parent[l])
    ensures Variables(net, alive) == Variables(net, alive - {l}) + Clique(net, l)
  {
    assert r.parent[l] < |r.parent| && r.parent[l] in alive - {l} by { assert r.depth[r.parent[l]] < r.depth[l]; }
    forall v | v in Clique(net, l) && v in Variables(net, alive - {l}) ensures v in Clique(net, r.parent[l]) {
      var k :| k in alive - {l} && v in Clique(net, k);
      NothingUnderLeaf(net, r, alive, l, k);
      assert Linked(net, l, k, v);
      var walk :| WalkWithin(net, walk, v) && walk[0] == l && walk[|walk| - 1] == k;
      WalkOut(net, r, l, walk, v);
    }
  }

  // ---- the joint function of what is left --------------------------------------------------------

  ghost function LiveFactors(net: Net, tables: seq<Table>, alive: set<nat>, x: Assignment): (fs: seq<real>)
    ensures |fs| == |tables|
    ensures forall v :: 0 <= v < |fs| ==> fs[v] == if v in alive then Factor(net, tables, x, v) else 1.0
  {
    seq(|tables|, v requires 0 <= v < |tables| => if v in alive then Factor(net, tables, x, v) else 1.0)
  }

  ghost function LiveSeparators(net: Net, separators: map<Edge, Table>, r: Rooting, alive: set<nat>, x: Assignment): (fs: seq<real>)
    ensures |fs| == |r.parent|
    ensures forall v :: 0 <= v < |fs| ==>
      fs[v] == if v in alive && v != r.root then SeparatorFactor(net, separators, x, v, r.parent[v]) else 1.0
  {
    seq(|r.parent|, v requires 0 <= v < |r.parent| =>
      if v in alive && v != r.root then SeparatorFactor(net, separators, x, v, r.parent[v]) else 1.0)
  }

  /** At x the living tables multiply to m times the living separators, and m is zero where one of those is. */
  ghost predicate PartAt(net: Net, tables: seq<Table>, separators: map<Edge, Table>, r: Rooting, alive: set<nat>, m: Table, x: Assignment) {
    var gs := LiveSeparators(net, separators, r, alive, x);
    && Prod(LiveFactors(net, tables, alive, x)) == Times(At(m, x), Prod(gs))
    && forall v :: 0 <= v < |gs| && gs[v] == 0.0 ==> At(m, x) == 0.0
  }

  /** m is the joint function of the living. */
  ghost predicate PartOk(net: Net, tables: seq<Table>, separators: map<Edge, Table>, r: Rooting, alive: set<nat>, m: Table) {
    && Complete(m, Variables(net, alive), net.radix)
    && forall x :: x in m ==> PartAt(net, tables, separators, r, alive, m, x)
  }

  /** A factor looks only at the variables of its clique. */
  lemma FactorRestricted(net: Net, tables: seq<Table>, x: Assignment, vars: set<nat>, i: nat)
    requires i < |tables| && Clique(net, i) <= vars
    ensures Factor(net, tables, Restrict(x, vars), i) == Factor(net, tables, x, i)
  {
    RestrictTwice(x, vars, Clique(net, i));
  }

  lemma SeparatorRestricted(net: Net, separators: map<Edge, Table>, x: Assignment, vars: set<nat>, i: nat, j: nat)
    requires Separator(net, i, j) <= vars
    ensures SeparatorFactor(net, separators, Restrict(x, vars), i, j) == SeparatorFactor(net, separators, x, i, j)
  {
    RestrictTwice(x, vars, Separator(net, i, j));
  }

  lemma CliqueAlive(net: Net, alive: set<nat>, k: nat)
    requires k in alive
    ensures Clique(net, k) <= Variables(net, alive)
  {}

  /** Removing l takes one factor out of the product; the others do not depend on its own variables. */
  lemma FactorsWithoutLeaf(net: Net, tables: seq<Table>, alive: set<nat>, l: nat, x: Assignment)
    requires l < |tables|
    ensures LiveFactors(net, tables, alive - {l}, Restrict(x, Variables(net, alive - {l})))
         == LiveFactors(net, tables, alive, x)[l := 1.0]
  {
    var vars := Variables(net, alive - {l});
    var y := Restrict(x, vars);
    forall v | 0 <= v < |tables| && v in alive - {l} ensures Factor(net, tables, y, v) == Factor(net, tables, x, v) {
      CliqueAlive(net, alive - {l}, v);
      FactorRestricted(net, tables, x, vars, v);
    }
    hide Restrict, Factor, Variables;
  }

  /** And so for the separators: none of the others is the one of l. */
  lemma SeparatorsWithoutLeaf(net: Net, separators: map<Edge, Table>, r: Rooting, alive: set<nat>, l: nat, x: Assignment)
    requires RootedAt(net, r) && UpClosed(r, alive) && Leaf(r, alive, l)
    ensures var y := Restrict(x, Variables(net, alive - {l}));
      && LiveSeparators(net, separators, r, alive - {l}, y) == LiveSeparators(net, separators, r, alive, x)[l := 1.0]
      && SeparatorFactor(net, separators, y, l, r.parent[l]) == SeparatorFactor(net, separators, x, l, r.parent[l])
  {
    var vars := Variables(net, alive - {l});
    var y := Restrict(x, vars);
    forall v | v in alive && v != r.root
      ensures SeparatorFactor(net, separators, y, v, r.parent[v]) == SeparatorFactor(net, separators, x, v, r.parent[v])
    {
      ParentStays(net, r, alive, l, v);
      CliqueAlive(net, alive - {l}, r.parent[v]);
      SeparatorSymmetric(net, v, r.parent[v]);
      hide Variables, Restrict, SeparatorFactor, Separator, Clique;
      SeparatorRestricted(net, separators, x, vars, v, r.parent[v]);
    }
    hide Restrict, SeparatorFactor, Variables, RootedAt;
  }

  lemma ParentStays(net: Net, r: Rooting, alive: set<nat>, l: nat, v: nat)
    requires RootedAt(net, r) && UpClosed(r, alive) && Leaf(r, alive, l) && v in alive && v != r.root
    ensures v < |r.parent| && r.parent[v] in alive - {l} && r.parent[v] < |r.parent|
  {}

  lemma LeafParent(net: Net, r: Rooting, alive: set<nat>, l: nat)
    requires RootedAt(net, r) && UpClosed(r, alive) && Leaf(r, alive, l)
    ensures l < |r.parent| && r.parent[l] in alive - {l}
  {
    ParentStays(net, r, alive, l, l);
  }

  // ---- removing one leaf -------------------------------------------------------------------------

  /**
   * The entries of the leaf's table over the assignments that agree with y on the rest: all the
   * entries that agree with y on the separator, each once, so that they sum to the separator's.
   */
  lemma LeafSum(net: Net, keys: set<Assignment>, t: Table, over: Table, clique: set<nat>, rest: set<nat>, e: set<nat>, y: Assignment)
    requires Complete(t, clique, net.radix) && e == clique * rest
    requires forall x :: x in keys <==> Over(x, rest + clique, net.radix)
    requires Over(y, rest, net.radix)
    requires var f := Fibre(keys, rest, y);
      over.Keys == f && forall x :: x in f ==> over[x] == At(t, Restrict(x, clique))
    ensures Sum(over, over.Keys) == MarginalAt(t, e, Restrict(y, e))
  {
    var f := Fibre(keys, rest, y);
    var z := Restrict(y, e);
    assert Projections(f, clique) == Fibre(t.Keys, e, z) by { LeafKeys(net, keys, t, clique, rest, e, y); }
    forall a | a in Projections(f, clique) ensures t[a] == Sum(over, Fibre(f, clique, a)) {
      var x :| x in f && Restrict(x, clique) == a;
      assert Fibre(f, clique, a) == {x} by { OneExtension(net, keys, clique, rest, y, x); }
      SumRemove(over, {x}, x);
      assert {x} - {x} == {};
      SumEmpty(over);
      RestrictOver(x, rest + clique, clique, net.radix);
    }
    SumByFibres(over, f, clique, t);
  }

  /** An assignment is given by what it is on rest and on the clique. */
  lemma OneExtension(net: Net, keys: set<Assignment>, clique: set<nat>, rest: set<nat>, y: Assignment, x: Assignment)
    requires forall x :: x in keys <==> Over(x, rest + clique, net.radix)
    requires x in Fibre(keys, rest, y)
    ensures Fibre(Fibre(keys, rest, y), clique, Restrict(x, clique)) == {x}
  {
    forall w | w in keys && Restrict(w, rest) == Restrict(x, rest) && Restrict(w, clique) == Restrict(x, clique)
      ensures w == x
    {
      forall v | v in rest + clique ensures w[v] == x[v] {
        if v in rest {
          assert Restrict(w, rest)[v] == Restrict(x, rest)[v];
        } else {
          assert Restrict(w, clique)[v] == Restrict(x, clique)[v];
        }
      }
    }
  }

  lemma LeafKeys(net: Net, keys: set<Assignment>, t: Table, clique: set<nat>, rest: set<nat>, e: set<nat>, y: Assignment)
    requires Complete(t, clique, net.radix) && e == clique * rest
    requires forall x :: x in keys <==> Over(x, rest + clique, net.radix)
    requires Over(y, rest, net.radix)
    ensures Projections(Fibre(keys, rest, y), clique) == Fibre(t.Keys, e, Restrict(y, e))
  {
    forall x | x in Fibre(keys, rest, y) ensures Restrict(x, clique) in Fibre(t.Keys, e, Restrict(y, e)) {
      RestrictOver(x, rest + clique, clique, net.radix);
      RestrictTwice(x, clique, e);
      RestrictTwice(x, rest, e);
    }
    forall a | a in Fibre(t.Keys, e, Restrict(y, e)) ensures a in Projections(Fibre(keys, rest, y), clique) {
      var x := Joined(y, rest, a, clique);
      JoinedRestricts(y, rest, a, clique, e, net.radix);
      assert x in Fibre(keys, rest, y);
    }
  }

  function Joined(y: Assignment, rest: set<nat>, a: Assignment, clique: set<nat>): Assignment
    requires y.Keys == rest && a.Keys == clique
  {
    map v | v in rest + clique :: if v in rest then y[v] else a[v]
  }

  lemma JoinedRestricts(y: Assignment, rest: set<nat>, a: Assignment, clique: set<nat>, e: set<nat>, radix: seq<nat>)
    requires Over(y, rest, radix) && Over(a, clique, radix) && e == clique * rest && Restrict(a, e) == Restrict(y, e)
    ensures Over(Joined(y, rest, a, clique), rest + clique, radix)
    ensures Restrict(Joined(y, rest, a, clique), rest) == y && Restrict(Joined(y, rest, a, clique), clique) == a
  {
    var x := Joined(y, rest, a, clique);
    assert Restrict(x, rest).Keys == rest && Restrict(x, clique).Keys == clique;
    forall v | v in clique ensures x[v] == a[v] {
      if v in rest { assert Restrict(a, e)[v] == Restrict(y, e)[v]; }
    }
  }

  /** Times(t, p) over the fibre sums to Times(s, p), and so does what it equals. */
  lemma SumBalance(over: Table, m: Table, f: set<Assignment>, p: real, c: real)
    requires f == over.Keys && f <= m.Keys
    requires forall x :: x in f ==> Times(over[x], p) == Times(m[x], c)
    ensures Times(Sum(over, f), p) == Times(Sum(m, f), c)
  {
    hide Sum, Times;
    var u: Table := map x | x in f :: Times(over[x], p);
    SumScale(over, u, f, p);
    SumScale(m, u, f, c);
  }

  lemma Cancel(s: real, p: real, m: real, q: real)
    requires s != 0.0 && Times(s, p) == Times(m, Times(s, q))
    ensures p == Times(m, q)
  {
    TimesPermutes(m, s, q);
    SameFactor(s, p, Times(m, q));
  }

  lemma SameFactor(s: real, p: real, q: real)
    requires s != 0.0 && Times(s, p) == Times(s, q)
    ensures p == q
  {
    assert s * (p - q) == s * p - s * q;
  }

  /** At one assignment of all that is alive, with the leaf's factors taken apart. */
  lemma LeafApart(net: Net, tables: seq<Table>, separators: map<Edge, Table>, r: Rooting, alive: set<nat>, m: Table, l: nat, x: Assignment)
    requires RootedAt(net, r) && UpClosed(r, alive) && Leaf(r, alive, l) && |tables| == |r.parent|
    requires PartAt(net, tables, separators, r, alive, m, x)
    ensures var y := Restrict(x, Variables(net, alive - {l}));
      var p, q := Prod(LiveFactors(net, tables, alive - {l}, y)), Prod(LiveSeparators(net, separators, r, alive - {l}, y));
      var s := SeparatorFactor(net, separators, y, l, r.parent[l]);
      && Times(Factor(net, tables, x, l), p) == Times(At(m, x), Times(s, q))
      && (s == 0.0 ==> At(m, x) == 0.0)
      && (forall v :: 0 <= v < |r.parent| && LiveSeparators(net, separators, r, alive - {l}, y)[v] == 0.0 ==> At(m, x) == 0.0)
  {
    FactorsWithoutLeaf(net, tables, alive, l, x);
    SeparatorsWithoutLeaf(net, separators, r, alive, l, x);
    assert l < |r.parent|;
    hide Prod, Times, Restrict, Variables, RootedAt, Factor, SeparatorFactor, UpClosed;
    var fs, gs := LiveFactors(net, tables, alive, x), LiveSeparators(net, separators, r, alive, x);
    var p := ProdUpdate(fs, l, 1.0);
    var q := ProdUpdate(gs, l, 1.0);
    TimesOne(p);
    TimesOne(q);
    var hs := gs[l := 1.0];
    forall v | 0 <= v < |hs| && hs[v] == 0.0 ensures At(m, x) == 0.0 { assert gs[v] == 0.0; }
  }

  /** Everything the removal of one leaf needs to know of it. */
  ghost predicate LeafOk(net: Net, tables: seq<Table>, separators: map<Edge, Table>, r: Rooting, l: nat)
    requires l < |r.parent| == |tables|
  {
    var p := r.parent[l];
    var e := Separator(net, l, p);
    && p < |tables| && Key(l, p) in separators
    && TableOk(net, tables[l], l) && TableOk(net, tables[p], p)
    && separators[Key(l, p)] == Marginal(tables[l], e) && Supported(tables[p], separators[Key(l, p)], e)
    && separators[Key(l, p)] != map[]
    && HasValues(Clique(net, l), net.radix)
  }

  lemma MarginalEntry(t: Table, e: set<nat>, vars: set<nat>, radix: seq<nat>, z: Assignment)
    requires Complete(t, vars, radix) && e <= vars && HasValues(vars, radix) && Over(z, e, radix)
    ensures z in Marginal(t, e) && At(Marginal(t, e), z) == MarginalAt(t, e, z)
  {
    ProjectionsComplete(t, vars, e, radix);
  }

  /** A marginal of probabilities is zero only where all it sums is zero. */
  lemma MarginalZero(t: Table, e: set<nat>, a: Assignment)
    requires Probabilities(t) && a in t && At(Marginal(t, e), Restrict(a, e)) == 0.0
    ensures t[a] == 0.0
  {
    assert Restrict(a, e) in Projections(t.Keys, e);
    SumAtLeast(t, Fibre(t.Keys, e, Restrict(a, e)), a);
  }

  /** Where the separator of the leaf is zero, so is the factor of its parent. */
  lemma ParentZero(net: Net, tables: seq<Table>, separators: map<Edge, Table>, r: Rooting, alive: set<nat>, l: nat, y: Assignment)
    requires l < |r.parent| == |tables| && LeafOk(net, tables, separators, r, l) && r.parent[l] in alive
    requires Over(y, Variables(net, alive), net.radix)
    requires SeparatorFactor(net, separators, y, l, r.parent[l]) == 0.0
    ensures Prod(LiveFactors(net, tables, alive, y)) == 0.0
  {
    var p := r.parent[l];
    var e, a := Separator(net, l, p), Restrict(y, Clique(net, p));
    CliqueAlive(net, alive, p);
    RestrictOver(y, Variables(net, alive), Clique(net, p), net.radix);
    RestrictTwice(y, Clique(net, p), e);
    hide Restrict, Prod, Marginal, Over, Variables, Separator;
    assert a in tables[p] && tables[p][a] == 0.0;
    ProdIsZero(LiveFactors(net, tables, alive, y));
    assert LiveFactors(net, tables, alive, y)[p] == 0.0;
  }

  /** The separator of the leaf at y is the sum of the leaf's entries that agree with y. */
  lemma SeparatorIsSum(net: Net, tables: seq<Table>, separators: map<Edge, Table>, r: Rooting, alive: set<nat>, m: Table,
                       l: nat, y: Assignment, over: Table)
    requires PathCondition(net) && RootedAt(net, r) && UpClosed(r, alive) && Leaf(r, alive, l) && |tables| == |r.parent|
    requires l < |r.parent| && LeafOk(net, tables, separators, r, l) && Complete(m, Variables(net, alive), net.radix)
    requires Over(y, Variables(net, alive - {l}), net.radix)
    requires var f := Fibre(m.Keys, Variables(net, alive - {l}), y);
      over.Keys == f && forall x :: x in f ==> over[x] == Factor(net, tables, x, l)
    ensures Sum(over, over.Keys) == SeparatorFactor(net, separators, y, l, r.parent[l])
  {
    var e, rest := Separator(net, l, r.parent[l]), Variables(net, alive - {l});
    LeafShares(net, r, alive, l);
    RestrictOver(y, rest, e, net.radix);
    hide Restrict, Variables, RootedAt, UpClosed, Leaf, PathCondition, Fibre, Over, Separator;
    assert e <= Clique(net, l) by { SeparatorSymmetric(net, l, r.parent[l]); }
    MarginalEntry(tables[l], e, Clique(net, l), net.radix, Restrict(y, e));
    assert forall x :: x in m.Keys <==> Over(x, rest + Clique(net, l), net.radix);
    LeafSum(net, m.Keys, tables[l], over, Clique(net, l), rest, e, y);
  }

  /** The sum over f of what m says, from what is known at each x of f. */
  lemma SumApart(m: Table, over: Table, f: set<Assignment>, p: real, q: real, s: real, gs: seq<real>)
    requires over.Keys == f && f <= m.Keys && Sum(over, f) == s
    requires forall x :: x in f ==> Times(over[x], p) == Times(m[x], Times(s, q)) && (s == 0.0 ==> m[x] == 0.0)
    requires forall x, v :: x in f && 0 <= v < |gs| && gs[v] == 0.0 ==> m[x] == 0.0
    requires s == 0.0 ==> p == 0.0
    ensures p == Times(Sum(m, f), q)
    ensures forall v :: 0 <= v < |gs| && gs[v] == 0.0 ==> Sum(m, f) == 0.0
  {
    hide Sum, Times;
    SumBalance(over, m, f, p, Times(s, q));
    if s != 0.0 {
      Cancel(s, p, Sum(m, f), q);
    } else {
      SumOfZeros(m, f);
      TimesZero(q);
    }
    if v :| 0 <= v < |gs| && gs[v] == 0.0 { SumOfZeros(m, f); }
  }

  /** Removing a leaf leaves the marginal as the joint function of the rest, at every y. */
  lemma LeafRemovedAt(net: Net, tables: seq<Table>, separators: map<Edge, Table>, r: Rooting, alive: set<nat>, m: Table,
                      l: nat, y: Assignment)
    requires PathCondition(net) && RootedAt(net, r) && UpClosed(r, alive) && Leaf(r, alive, l) && |tables| == |r.parent|
    requires l < |r.parent| && LeafOk(net, tables, separators, r, l) && PartOk(net, tables, separators, r, alive, m)
    requires y in Marginal(m, Variables(net, alive - {l}))
    requires Over(y, Variables(net, alive - {l}), net.radix)
    ensures PartAt(net, tables, separators, r, alive - {l}, Marginal(m, Variables(net, alive - {l})), y)
  {
    hide Prod, Times, Restrict, Variables, RootedAt, Factor, SeparatorFactor, UpClosed, LeafOk, Sum, Leaf, PathCondition, Over,
      Marginal, Complete, PartOk, Fibre, LiveFactors, LiveSeparators;
    var rest := Variables(net, alive - {l});
    var f := Fibre(m.Keys, rest, y);
    FibreSubset(m.Keys, rest, y);
    MarginalIsSum(m, rest, y);
    LeafParent(net, r, alive, l);
    PartComplete(net, tables, separators, r, alive, m);
    var p, gs := Prod(LiveFactors(net, tables, alive - {l}, y)), LiveSeparators(net, separators, r, alive - {l}, y);
    var q, s := Prod(gs), SeparatorFactor(net, separators, y, l, r.parent[l]);
    var over: Table := map x | x in f :: Factor(net, tables, x, l);
    SeparatorIsSum(net, tables, separators, r, alive, m, l, y, over);
    forall x | x in f
      ensures Times(over[x], p) == Times(m[x], Times(s, q)) && (s == 0.0 ==> m[x] == 0.0)
      ensures forall v :: 0 <= v < |gs| && gs[v] == 0.0 ==> m[x] == 0.0
    {
      InFibre(m.Keys, rest, y, x);
      LeafApart(net, tables, separators, r, alive, m, l, x);
    }
    if s == 0.0 { ParentZero(net, tables, separators, r, alive - {l}, l, y); }
    SumApart(m, over, f, p, q, s, gs);
  }

  lemma InFibre(keys: set<Assignment>, vars: set<nat>, y: Assignment, x: Assignment)
    requires x in Fibre(keys, vars, y)
    ensures x in keys && Restrict(x, vars) == y
  {}

  lemma PartComplete(net: Net, tables: seq<Table>, separators: map<Edge, Table>, r: Rooting, alive: set<nat>, m: Table)
    requires PartOk(net, tables, separators, r, alive, m)
    ensures Complete(m, Variables(net, alive), net.radix)
    ensures forall x :: x in m.Keys ==> PartAt(net, tables, separators, r, alive, m, x)
  {}

  lemma MarginalIsSum(m: Table, vars: set<nat>, y: Assignment)
    requires y in Marginal(m, vars)
    ensures At(Marginal(m, vars), y) == Sum(m, Fibre(m.Keys, vars, y))
  {}

  lemma SumOfZeros(m: Table, f: set<Assignment>)
    requires f <= m.Keys && forall x :: x in f ==> m[x] == 0.0
    ensures Sum(m, f) == 0.0
  {
    hide Sum, Times;
    forall x: real ensures Times(x, 0.0) == 0.0 { TimesZero(x); }
    SumScale(m, m, f, 0.0);
  }

  // ---- removing all leaves -----------------------------------------------------------------------

  ghost predicate LeavesOk(net: Net, tables: seq<Table>, separators: map<Edge, Table>, r: Rooting, alive: set<nat>) {
    |tables| == |r.parent| && forall l :: l in alive && l < |r.parent| && l != r.root ==> LeafOk(net, tables, separators, r, l)
  }

  lemma LeafRemoved(net: Net, tables: seq<Table>, separators: map<Edge, Table>, r: Rooting, alive: set<nat>, m: Table, l: nat)
    requires PathCondition(net) && RootedAt(net, r) && UpClosed(r, alive) && Leaf(r, alive, l)
    requires LeavesOk(net, tables, separators, r, alive) && PartOk(net, tables, separators, r, alive, m)
    requires HasValues(Variables(net, alive), net.radix)
    ensures PartOk(net, tables, separators, r, alive - {l}, Marginal(m, Variables(net, alive - {l})))
    ensures UpClosed(r, alive - {l})
  {
    hide Variables, RootedAt, LeafOk, PathCondition, Marginal, PartAt, Over, HasValues, Leaf, Clique;
    var rest := Variables(net, alive - {l});
    LeafParent(net, r, alive, l);
    LeafIsNotRoot(r, alive, l);
    assert LeafOk(net, tables, separators, r, l);
    VariablesMonotone(net, alive - {l}, alive);
    ProjectionsComplete(m, Variables(net, alive), rest, net.radix);
    forall y | y in Marginal(m, rest) ensures PartAt(net, tables, separators, r, alive - {l}, Marginal(m, rest), y) {
      LeafRemovedAt(net, tables, separators, r, alive, m, l, y);
    }
    StillUpClosed(r, alive, l);
  }

  lemma LeafIsNotRoot(r: Rooting, alive: set<nat>, l: nat)
    requires Leaf(r, alive, l)
    ensures l in alive && l != r.root
  {}

  lemma StillUpClosed(r: Rooting, alive: set<nat>, l: nat)
    requires UpClosed(r, alive) && Leaf(r, alive, l)
    ensures UpClosed(r, alive - {l})
  {}

  lemma VariablesMonotone(net: Net, some: set<nat>, more: set<nat>)
    requires some <= more
    ensures Variables(net, some) <= Variables(net, more)
  {}

  /** With every leaf removed, what is left is the table of the root: the marginal of m on its clique. */
  lemma {:induction false} AllLeavesRemoved(net: Net, tables: seq<Table>, separators: map<Edge, Table>, r: Rooting,
                                            alive: set<nat>, m: Table)
    requires PathCondition(net) && RootedAt(net, r) && UpClosed(r, alive)
    requires LeavesOk(net, tables, separators, r, alive) && PartOk(net, tables, separators, r, alive, m)
    requires HasValues(Variables(net, alive), net.radix)
    requires r.root < |tables| && TableOk(net, tables[r.root], r.root)
    ensures Marginal(m, Clique(net, r.root)) == tables[r.root]
    decreases |alive|
  {
    hide Variables, RootedAt, LeavesOk, PathCondition, Marginal, PartOk, Over, TableOk, HasValues, Clique, Leaf;
    var root := Clique(net, r.root);
    if alive == {r.root} {
      OnlyRoot(net, tables, separators, r, alive, m);
      MarginalOnAll(m, root, net.radix);
    } else {
      var l0 :| l0 in alive && l0 != r.root;
      var l := LeafExists(net, r, alive, l0);
      var rest := Variables(net, alive - {l});
      LeafRemoved(net, tables, separators, r, alive, m, l);
      VariablesMonotone(net, alive - {l}, alive);
      LeafIsNotRoot(r, alive, l);
      CliqueAlive(net, alive - {l}, r.root);
      LeavesMonotone(net, tables, separators, r, alive - {l}, alive);
      FewerHaveValues(rest, Variables(net, alive), net.radix);
      AllLeavesRemoved(net, tables, separators, r, alive - {l}, Marginal(m, rest));
      MarginalOfMarginal(m, rest, root);
    }
  }

  lemma FewerHaveValues(some: set<nat>, more: set<nat>, radix: seq<nat>)
    requires some <= more && HasValues(more, radix)
    ensures HasValues(some, radix)
  {}

  lemma LeavesMonotone(net: Net, tables: seq<Table>, separators: map<Edge, Table>, r: Rooting, some: set<nat>, alive: set<nat>)
    requires LeavesOk(net, tables, separators, r, alive) && some <= alive
    ensures LeavesOk(net, tables, separators, r, some)
  {
    hide LeafOk;
  }

  lemma OnlyRoot(net: Net, tables: seq<Table>, separators: map<Edge, Table>, r: Rooting, alive: set<nat>, m: Table)
    requires RootedAt(net, r) && alive == {r.root} && r.root < |tables|
    requires PartOk(net, tables, separators, r, alive, m) && TableOk(net, tables[r.root], r.root)
    ensures m == tables[r.root] && Complete(m, Clique(net, r.root), net.radix)
  {
    var root := Clique(net, r.root);
    assert Variables(net, alive) == root;
    SameKeys(m, tables[r.root], root, net.radix);
    assert forall x :: x in m ==> x.Keys == root;
    hide Over, Variables, Clique;
    forall x | x in m ensures m[x] == tables[r.root][x] {
      assert PartAt(net, tables, separators, r, alive, m, x);
      OnlyRootAt(net, tables, separators, r, alive, m, x);
    }
  }

  lemma OnlyRootAt(net: Net, tables: seq<Table>, separators: map<Edge, Table>, r: Rooting, alive: set<nat>, m: Table, x: Assignment)
    requires alive == {r.root} && r.root < |tables|
    requires PartAt(net, tables, separators, r, alive, m, x) && x in m && x in tables[r.root]
    requires x.Keys == Clique(net, r.root)
    ensures m[x] == tables[r.root][x]
  {
    hide Times, SeparatorFactor, Prod;
    var fs, gs := LiveFactors(net, tables, alive, x), LiveSeparators(net, separators, r, alive, x);
    assert Restrict(x, x.Keys) == x;
    assert fs[r.root] == tables[r.root][x];
    var rest := ProdUpdate(fs, r.root, 1.0);
    ProdOfOnes(fs[r.root := 1.0]);
    ProdOfOnes(gs);
    TimesOne(rest);
    TimesOne(fs[r.root]);
    TimesOne(m[x]);
  }

  // ---- the tables of a calibrated tree -----------------------------------------------------------

  /** All full assignments. */
  ghost function FullAssignments(net: Net): set<Assignment> {
    set k | 0 <= k < Size(Upto(|net.radix|), net.radix) :: AtRank(Upto(|net.radix|), net.radix, k)
  }

  function Upto(n: nat): (order: seq<nat>)
    ensures |order| == n && forall k :: 0 <= k < n ==> order[k] == k
  {
    seq(n, k => k)
  }

  lemma FullAssignmentsAre(net: Net)
    requires HasValues(AllVariables(net), net.radix)
    ensures forall x :: x in FullAssignments(net) <==> Full(net, x)
  {
    var order := Upto(|net.radix|);
    assert Elements(order) == AllVariables(net) by {
      forall v: nat ensures v in Elements(order) <==> v in AllVariables(net) {
        if v < |net.radix| { assert order[v] == v; }
      }
    }
    forall x ensures x in FullAssignments(net) <==> Full(net, x) {
      if Full(net, x) {
        assert Counts(order, net.radix, x);
        var k := Rank(order, net.radix, x);
        CountedVariables(order, net.radix, x);
        AtRankCounts(order, net.radix, k);
        Agree(order, net.radix, x, AtRank(order, net.radix, k));
      }
      if x in FullAssignments(net) {
        var k :| 0 <= k < Size(order, net.radix) && x == AtRank(order, net.radix, k);
        AtRankCounts(order, net.radix, k);
      }
    }
  }

  /** The assignments of vars are what full assignments leave on vars. */
  lemma ProjectionsOfFull(net: Net, vars: set<nat>)
    requires HasValues(AllVariables(net), net.radix) && vars <= AllVariables(net)
    ensures forall y :: y in Projections(FullAssignments(net), vars) <==> Over(y, vars, net.radix)
  {
    FullAssignmentsAre(net);
    forall y ensures y in Projections(FullAssignments(net), vars) <==> Over(y, vars, net.radix) {
      if Over(y, vars, net.radix) {
        var x := Extension(y, vars, AllVariables(net), net.radix);
        assert Full(net, x);
      }
      if y in Projections(FullAssignments(net), vars) {
        var x :| x in FullAssignments(net) && Restrict(x, vars) == y;
        RestrictOver(x, AllVariables(net), vars, net.radix);
      }
    }
  }

  /** The joint function as a table. */
  ghost function JointTable(net: Net, start: seq<Table>): Table {
    map x | x in FullAssignments(net) :: Phi(net, start, x)
  }

  ghost function AllNodes(net: Net): set<nat> {
    VariablesBelow(|net.cliques|)
  }

  /** Every variable lies in some clique. */
  ghost predicate CoversVariables(net: Net) {
    Variables(net, AllNodes(net)) == AllVariables(net)
  }

  /** The joint function is what all tables say together. */
  lemma WholeTree(net: Net, start: seq<Table>, tables: seq<Table>, separators: map<Edge, Table>, r: Rooting)
    requires Proper(net) && RootedAt(net, r) && |tables| == |net.cliques| && CoversVariables(net)
    requires HasValues(AllVariables(net), net.radix)
    requires forall x :: Full(net, x) ==> JointAt(net, start, tables, separators, x)
    requires forall x :: Prod(RootedSeparators(net, separators, r, x)) == Prod(SeparatorFactors(net, separators, x))
    ensures PartOk(net, tables, separators, r, AllNodes(net), JointTable(net, start))
  {
    var m, alive := JointTable(net, start), AllNodes(net);
    hide FullAssignments, Prod, Times, Phi, RootedAt, SeparatorFactors, RootedSeparators, PartAt, JointAt, Proper;
    FullAssignmentsAre(net);
    assert m.Keys == FullAssignments(net);
    assert Complete(m, Variables(net, alive), net.radix) by { hide Over, Variables; }
    hide Over, JointTable, Variables;
    forall x | x in m ensures PartAt(net, tables, separators, r, alive, m, x) {
      WholeTreeAt(net, start, tables, separators, r, x);
    }
  }

  lemma WholeTreeAt(net: Net, start: seq<Table>, tables: seq<Table>, separators: map<Edge, Table>, r: Rooting, x: Assignment)
    requires RootedAt(net, r) && |tables| == |net.cliques|
    requires x in FullAssignments(net) && JointAt(net, start, tables, separators, x)
    requires Prod(RootedSeparators(net, separators, r, x)) == Prod(SeparatorFactors(net, separators, x))
    ensures PartAt(net, tables, separators, r, AllNodes(net), JointTable(net, start), x)
  {
    hide FullAssignments, Times, Factor, SeparatorFactor, RootedAt, Prod, AllNodes, JointTable, Factors, SeparatorFactors,
      LiveFactors, LiveSeparators, RootedSeparators, Phi;
    AllLive(net, tables, separators, r, x);
    JointEntry(net, start, x);
    var gs := RootedSeparators(net, separators, r, x);
    PhiIs(net, tables, x);
    if v :| 0 <= v < |gs| && gs[v] == 0.0 {
      ProdIsZero(gs);
      ProdIsZero(SeparatorFactors(net, separators, x));
    }
  }

  lemma PhiIs(net: Net, tables: seq<Table>, x: Assignment)
    ensures Phi(net, tables, x) == Prod(Factors(net, tables, x))
  {}

  lemma JointEntry(net: Net, start: seq<Table>, x: Assignment)
    requires x in FullAssignments(net)
    ensures At(JointTable(net, start), x) == Phi(net, start, x)
  {}

  /** With all nodes alive nothing is left out. */
  lemma AllLive(net: Net, tables: seq<Table>, separators: map<Edge, Table>, r: Rooting, x: Assignment)
    requires RootedAt(net, r) && |tables| == |net.cliques|
    ensures LiveFactors(net, tables, AllNodes(net), x) == Factors(net, tables, x)
    ensures LiveSeparators(net, separators, r, AllNodes(net), x) == RootedSeparators(net, separators, r, x)
  {
    hide Factor, SeparatorFactor, RootedAt, AllNodes, LiveFactors, Factors, LiveSeparators, RootedSeparators;
    RootedLengths(net, r);
    NodesAre(net);
    assert LiveFactors(net, tables, AllNodes(net), x) == Factors(net, tables, x);
  }

  lemma NodesAre(net: Net)
    ensures forall v: nat :: v in AllNodes(net) <==> v < |net.cliques|
  {}

  lemma RootedLengths(net: Net, r: Rooting)
    requires RootedAt(net, r)
    ensures |net.cliques| == |r.parent|
  {}

  /** A table of probabilities is zero where its marginal is. */
  lemma MarginalSupports(t: Table, e: set<nat>)
    requires Probabilities(t)
    ensures Supported(t, Marginal(t, e), e)
  {
    forall a | a in t
      ensures Restrict(a, e) in Marginal(t, e)
      ensures Marginal(t, e)[Restrict(a, e)] == 0.0 ==> t[a] == 0.0
    {
      assert Restrict(a, e) in Projections(t.Keys, e);
      if Marginal(t, e)[Restrict(a, e)] == 0.0 { MarginalZero(t, e, a); }
    }
  }

  lemma CalibratedLeaves(net: Net, tables: seq<Table>, separators: map<Edge, Table>, r: Rooting)
    requires Proper(net) && RootedAt(net, r) && TablesOk(net, tables) && Calibrated(net, tables, separators)
    ensures LeavesOk(net, tables, separators, r, AllNodes(net))
  {
    forall l | l in AllNodes(net) && l < |r.parent| && l != r.root ensures LeafOk(net, tables, separators, r, l) {
      var p := r.parent[l];
      assert Directed(net.neighbors, l, p) && TableOk(net, tables[l], l) && TableOk(net, tables[p], p);
      assert HasValues(Clique(net, l), net.radix);
      SeparatorSymmetric(net, l, p);
      ProjectionsComplete(tables[l], Clique(net, l), Separator(net, l, p), net.radix);
      NotEmpty(Marginal(tables[l], Separator(net, l, p)), Separator(net, l, p), net.radix);
      MarginalSupports(tables[p], Separator(net, l, p));
    }
  }

  /**
   * In a calibrated join tree every clique's table is the marginal, on its clique, of the joint
   * function the tables started from.
   */
  lemma CliqueTablesAreMarginals(net: Net, start: seq<Table>, tables: seq<Table>, separators: map<Edge, Table>, i: nat)
    requires Proper(net) && PathCondition(net) && CoversVariables(net) && HasValues(AllVariables(net), net.radix)
    requires TablesOk(net, tables) && Calibrated(net, tables, separators)
    requires forall x :: Full(net, x) ==> JointAt(net, start, tables, separators, x)
    requires i < |net.cliques|
    ensures tables[i] == Marginal(JointTable(net, start), Clique(net, i))
  {
    var r := HangUpAt(net, separators, i);
    var alive := AllNodes(net);
    assert TableOk(net, tables[i], i);
    hide JointAt, Calibrated, PathCondition, Prod, TableOk, JointTable, PartOk, LeavesOk, Marginal;
    WholeTree(net, start, tables, separators, r);
    CalibratedLeaves(net, tables, separators, r);
    assert UpClosed(r, alive);
    AllLeavesRemoved(net, tables, separators, r, alive, JointTable(net, start));
  }
}
