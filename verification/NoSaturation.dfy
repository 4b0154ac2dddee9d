/** The initial tables of a Bayesian network never lead to a sum above one. */
module NoSaturation {
  import opened Tables
  import opened Counters
  import opened Schedule
  import opened Messages
  import opened Joint
  import opened CliqueTables
  import opened InitialJoint
  import opened CliqueMarginals
  import opened LeafRemoval
  import opened Subtrees
  import opened ConditionalSums

  // ---- the tables of a part of the tree ----------------------------------------------------------

  /** assignedTo, with the nodes of other cliques taken for unassigned. */
  ghost function Within(net: Net, assignedTo: seq<nat>, alive: set<nat>): (within: seq<nat>)
    ensures |within| == |assignedTo|
    ensures forall n :: 0 <= n < |within| ==> within[n] == if assignedTo[n] in alive then assignedTo[n] else |net.cliques|
  {
    seq(|assignedTo|, n requires 0 <= n < |assignedTo| => if assignedTo[n] in alive then assignedTo[n] else |net.cliques|)
  }

  /** Everything known of the initial tables. */
  ghost predicate Initial(bn: Network, net: Net, start: seq<Table>, assignedTo: seq<nat>, rank: seq<nat>) {
    && OrderedNetwork(bn, rank) && Proper(net) && net.radix == bn.radix
    && PathCondition(net) && CoversVariables(net) && FamiliesCovered(bn, net)
    && FirstFilled(bn, net, start, assignedTo, |net.cliques|)
    && (forall v :: v in bn.evidence ==> v < |bn.radix|)
  }

  lemma CollectedProbable(bn: Network, net: Net, start: seq<Table>, assignedTo: seq<nat>, rank: seq<nat>, alive: set<nat>, k: nat, x: Assignment)
    requires Initial(bn, net, start, assignedTo, rank) && Full(net, x) && k <= |net.cliques|
    ensures forall n :: 0 <= n < |assignedTo| ==> 0.0 <= Collected(bn, Within(net, assignedTo, alive), k, [], x)[n] <= 1.0
    ensures forall n :: 0 <= n < |assignedTo| ==> 0.0 <= Conditional(bn, n, x) <= 1.0
  {
    forall n | 0 <= n < |assignedTo| ensures 0.0 <= Conditional(bn, n, x) <= 1.0 {
      assert Covered(bn, net, n);
      var i :| 0 <= i < |net.cliques| && HoldsFamily(bn, net.cliques[i], n);
      AllFamilies(bn, net, n);
      ConditionalProbability(bn, AllVariables(net), n, x);
    }
    hide Conditional;
  }

  lemma AllFamilies(bn: Network, net: Net, n: nat)
    requires WellFormed(bn) && net.radix == bn.radix && n < |bn.radix|
    ensures HoldsFamily(bn, AllVariables(net), n)
  {}

  /** The tables of the living among the first k multiply to no more than the conditionals assigned to them. */
  lemma {:induction false} LiveTables(bn: Network, net: Net, start: seq<Table>, assignedTo: seq<nat>, rank: seq<nat>,
                                      alive: set<nat>, x: Assignment, k: nat)
    requires Initial(bn, net, start, assignedTo, rank) && Full(net, x) && k <= |start|
    ensures Prod(LiveFactors(net, start, alive, x)[..k]) <= Prod(Collected(bn, Within(net, assignedTo, alive), k, [], x))
    ensures 0.0 <= Prod(LiveFactors(net, start, alive, x)[..k])
  {
    var fs, within := LiveFactors(net, start, alive, x), Within(net, assignedTo, alive);
    hide Initial, Prod, Full, Conditional, Times, Collected, LiveFactors, Within;
    if k == 0 {
      NoneCollected(bn, net, start, assignedTo, alive, x);
    } else {
      var i := k - 1;
      LiveTables(bn, net, start, assignedTo, rank, alive, x, i);
      assert |fs| >= k by { LiveLength(net, start, alive, x); }
      assert fs[..k] == fs[..i] + [fs[i]];
      ProdSnoc(fs[..i], fs[i]);
      OneMoreLive(bn, net, start, assignedTo, rank, alive, x, i, Prod(fs[..i]));
    }
  }

  lemma LiveLength(net: Net, start: seq<Table>, alive: set<nat>, x: Assignment)
    ensures |LiveFactors(net, start, alive, x)| == |start|
  {}

  lemma NoneCollected(bn: Network, net: Net, start: seq<Table>, assignedTo: seq<nat>, alive: set<nat>, x: Assignment)
    ensures Prod(LiveFactors(net, start, alive, x)[..0]) == 1.0
    ensures Prod(Collected(bn, Within(net, assignedTo, alive), 0, [], x)) == 1.0
  {
    ProdOfOnes(Collected(bn, Within(net, assignedTo, alive), 0, [], x));
  }

  /** One clique more. */
  lemma OneMoreLive(bn: Network, net: Net, start: seq<Table>, assignedTo: seq<nat>, rank: seq<nat>, alive: set<nat>, x: Assignment,
                    i: nat, before: real)
    requires Initial(bn, net, start, assignedTo, rank) && Full(net, x) && i < |start|
    requires 0.0 <= before <= Prod(Collected(bn, Within(net, assignedTo, alive), i, [], x))
    ensures var f := LiveFactors(net, start, alive, x)[i];
      0.0 <= Times(before, f) <= Prod(Collected(bn, Within(net, assignedTo, alive), i + 1, [], x))
  {
    var within := Within(net, assignedTo, alive);
    var f := LiveFactors(net, start, alive, x)[i];
    SameCounts(bn, net, start, assignedTo, rank);
    if i in alive {
      var order := Ascending(net.cliques[i]);
      DistinctAscending(net.cliques[i]);
      CollectOrder(bn, within, i, order, x);
      WithinNext(bn, net, start, assignedTo, rank, alive, x, i);
      LiveFactor(bn, net, start, assignedTo, rank, alive, x, i);
      hide Initial, Prod, Full, Conditional, Collected, Within, Ascending;
      var c, q := Prod(Collected(bn, within, i, [], x)), Prod(NodeFactors(bn, within, i, order, x));
      TimesMonotone(before, c, f);
      TimesMonotone(f, q, c);
      TimesMonotone(0.0, before, f);
      TimesZero(f);
      TimesSwaps(f, c);
      TimesSwaps(q, c);
    } else {
      assert f == 1.0;
      NotAlive(bn, net, assignedTo, alive, x, i);
      TimesOne(before);
    }
  }

  lemma SameCounts(bn: Network, net: Net, start: seq<Table>, assignedTo: seq<nat>, rank: seq<nat>)
    requires Initial(bn, net, start, assignedTo, rank)
    ensures |start| == |net.cliques| && |assignedTo| == |bn.radix|
  {}

  /** A clique outside brings nothing. */
  lemma NotAlive(bn: Network, net: Net, assignedTo: seq<nat>, alive: set<nat>, x: Assignment, i: nat)
    requires i !in alive && i < |net.cliques|
    ensures Collected(bn, Within(net, assignedTo, alive), i + 1, [], x) == Collected(bn, Within(net, assignedTo, alive), i, [], x)
  {
    hide Conditional;
  }

  lemma WithinNext(bn: Network, net: Net, start: seq<Table>, assignedTo: seq<nat>, rank: seq<nat>, alive: set<nat>, x: Assignment, i: nat)
    requires Initial(bn, net, start, assignedTo, rank) && i < |net.cliques| && i in alive
    ensures Collected(bn, Within(net, assignedTo, alive), i, Ascending(net.cliques[i]), x)
         == Collected(bn, Within(net, assignedTo, alive), i + 1, [], x)
  {
    var order, within := Ascending(net.cliques[i]), Within(net, assignedTo, alive);
    AscendingElements(net.cliques[i]);
    hide Conditional, TableFilled, Ascending;
    forall n | 0 <= n < |within| && within[n] == i ensures n in order {
      assert AssignedFirst(bn, net, n, assignedTo[n], |net.cliques|);
      assert n in Elements(order);
    }
  }

  /** The factor of a living clique is at most the product of the conditionals of its nodes. */
  lemma LiveFactor(bn: Network, net: Net, start: seq<Table>, assignedTo: seq<nat>, rank: seq<nat>, alive: set<nat>, x: Assignment, i: nat)
    requires Initial(bn, net, start, assignedTo, rank) && Full(net, x) && i < |start| == |net.cliques| && i in alive
    ensures var f, q := LiveFactors(net, start, alive, x)[i],
                        Prod(NodeFactors(bn, Within(net, assignedTo, alive), i, Ascending(net.cliques[i]), x));
      0.0 <= f <= q
  {
    var order, within := Ascending(net.cliques[i]), Within(net, assignedTo, alive);
    TableAt(bn, net, start, assignedTo, x, i);
    NodeFactorsSame(bn, assignedTo, within, i, order, x);
    FactorsInRange(bn, net, start, assignedTo, rank, x, i, order);
    var e, q := EvidenceFactor(bn.evidence, order, Restrict(x, net.cliques[i])), Prod(NodeFactors(bn, within, i, order, x));
    assert LiveFactors(net, start, alive, x)[i] == Times(e, q);
    hide Initial, Prod, Full, Conditional, NodeFactors, Within, Times;
    TimesMonotone(0.0, e, q);
    TimesMonotone(e, 1.0, q);
    TimesOne(q);
    TimesZero(q);
  }

  lemma FactorsInRange(bn: Network, net: Net, start: seq<Table>, assignedTo: seq<nat>, rank: seq<nat>, x: Assignment, i: nat, order: seq<nat>)
    requires Initial(bn, net, start, assignedTo, rank) && Full(net, x) && i < |net.cliques|
    ensures 0.0 <= Prod(NodeFactors(bn, assignedTo, i, order, x)) <= 1.0
  {
    forall n | 0 <= n < |assignedTo| && assignedTo[n] == i ensures HoldsFamily(bn, AllVariables(net), n) { AllFamilies(bn, net, n); }
    hide HoldsFamily, PathCondition, Conditional, NodeFactors, Prod;
    NodeFactorsProbable(bn, AllVariables(net), assignedTo, i, order, x);
    ProdProbability(NodeFactors(bn, assignedTo, i, order, x));
  }

  /** Dropping factors makes a product of probabilities no smaller. */
  lemma FewerFactors(bn: Network, net: Net, start: seq<Table>, assignedTo: seq<nat>, rank: seq<nat>, alive: set<nat>, some: set<nat>, x: Assignment)
    requires Initial(bn, net, start, assignedTo, rank) && Full(net, x)
    requires forall n :: n in some ==> n < |assignedTo| && assignedTo[n] in alive && assignedTo[n] < |net.cliques|
    ensures Prod(Collected(bn, Within(net, assignedTo, alive), |net.cliques|, [], x)) <= Prod(FactorsOf(bn, some, x))
  {
    CollectedProbable(bn, net, start, assignedTo, rank, alive, |net.cliques|, x);
    SameCounts(bn, net, start, assignedTo, rank);
    hide Initial, Conditional, Prod, Full;
    ProdMonotone(Collected(bn, Within(net, assignedTo, alive), |net.cliques|, [], x), FactorsOf(bn, some, x));
  }

  /** Together: what a part of the tree says is at most the product of any of the conditionals assigned to it. */
  lemma PartAtMost(bn: Network, net: Net, start: seq<Table>, assignedTo: seq<nat>, rank: seq<nat>, alive: set<nat>, some: set<nat>, x: Assignment)
    requires Initial(bn, net, start, assignedTo, rank) && Full(net, x)
    requires forall n :: n in some ==> n < |assignedTo| && assignedTo[n] in alive && assignedTo[n] < |net.cliques|
    ensures 0.0 <= Prod(LiveFactors(net, start, alive, x)) <= Prod(FactorsOf(bn, some, x))
  {
    LiveTables(bn, net, start, assignedTo, rank, alive, x, |start|);
    FewerFactors(bn, net, start, assignedTo, rank, alive, some, x);
    SameCounts(bn, net, start, assignedTo, rank);
    LiveLength(net, start, alive, x);
    assert LiveFactors(net, start, alive, x)[..|start|] == LiveFactors(net, start, alive, x);
  }

  // ---- which nodes a part of the tree has to itself ----------------------------------------------

  lemma FactorsRestricted(bn: Network, some: set<nat>, vars: set<nat>, x: Assignment)
    requires FamiliesWithin(bn, some, vars)
    ensures FactorsOf(bn, some, Restrict(x, vars)) == FactorsOf(bn, some, x)
  {
    forall n | 0 <= n < |bn.radix| && n in some ensures Conditional(bn, n, Restrict(x, vars)) == Conditional(bn, n, x) {
      ConditionalInClique(bn, vars, n, x);
    }
    hide Conditional, Restrict;
  }

  /** A part of the tree sums to at most one over the nodes that belong to it alone. */
  lemma PartBounded(bn: Network, net: Net, start: seq<Table>, assignedTo: seq<nat>, rank: seq<nat>, alive: set<nat>, some: set<nat>)
    requires Initial(bn, net, start, assignedTo, rank) && alive <= AllNodes(net)
    requires FamiliesWithin(bn, some, Variables(net, alive))
    requires forall n :: n in some ==> n < |assignedTo| && assignedTo[n] in alive && assignedTo[n] < |net.cliques|
    ensures SumsAtMostOne(PartTable(net, start, alive), Variables(net, alive) - some)
  {
    var vars := Variables(net, alive);
    var t, u := PartTable(net, start, alive), ProductTable(bn, net, vars, some);
    assert HasValues(AllVariables(net), net.radix);
    VariablesAreAll(net, alive);
    FullAssignmentsAre(net);
    forall y | y in t ensures t[y] <= u[y] {
      var x :| x in FullAssignments(net) && Restrict(x, vars) == y;
      assert Full(net, x);
      hide Initial, FullAssignments, Full, Restrict, Prod, Variables;
      LiveRestricted(net, start, alive, x);
      FactorsRestricted(bn, some, vars, x);
      PartAtMost(bn, net, start, assignedTo, rank, alive, some, x);
    }
    hide FullAssignments, Prod, Variables, Projections, SumsAtMostOne, HasValues, Full;
    EliminateAll(bn, net, rank, vars, some);
    BoundFromAbove(t, u, vars - some);
  }

  /** A walk out of the subtree of u goes over the edge above u. */
  lemma {:induction false} WalkOverEdge(net: Net, u: nat, walk: seq<nat>, n: nat)
    requires Proper(net) && 0 < u < |net.parent| && WalkWithin(net, walk, n)
    requires walk[0] in Subtree(net, u) && walk[|walk| - 1] !in Subtree(net, u)
    ensures n in Separator(net, u, net.parent[u])
    decreases |walk|
  {
    var w, v := walk[0], walk[1];
    assert Directed(net.neighbors, w, v);
    if v in Subtree(net, u) {
      var rest := walk[1..];
      forall k | 0 <= k < |rest| - 1 ensures Directed(net.neighbors, rest[k], rest[k + 1]) {
        assert Directed(net.neighbors, walk[k + 1], walk[k + 2]);
      }
      WalkOverEdge(net, u, rest, n);
    } else {
      Edges(net.neighbors, net.parent, net.depth, w, v);
      if !(v == net.parent[u] && w == u) { EdgeInside(net, u, v, w); }
    }
  }

  /** A node that the subtree of u has to itself is assigned to one of its cliques. */
  lemma OwnNode(bn: Network, net: Net, start: seq<Table>, assignedTo: seq<nat>, rank: seq<nat>, u: nat, n: nat)
    requires Initial(bn, net, start, assignedTo, rank) && 0 < u < |net.parent|
    requires n in Variables(net, Subtree(net, u)) && n !in Separator(net, u, net.parent[u])
    ensures n < |assignedTo| && assignedTo[n] in Subtree(net, u) && assignedTo[n] < |net.cliques|
    ensures FamilyIn(bn, Variables(net, Subtree(net, u)), n)
  {
    var k :| k in Subtree(net, u) && n in Clique(net, k);
    assert HasValues(Clique(net, k), net.radix);
    AllCovered(bn, net, start, assignedTo);
    var at := assignedTo[n];
    if at !in Subtree(net, u) {
      assert Linked(net, k, at, n);
      var walk :| WalkWithin(net, walk, n) && walk[0] == k && walk[|walk| - 1] == at;
      WalkOverEdge(net, u, walk, n);
    }
    CliqueAlive(net, Subtree(net, u), at);
  }

  lemma SubtreeBounded(bn: Network, net: Net, start: seq<Table>, assignedTo: seq<nat>, rank: seq<nat>, u: nat)
    requires Initial(bn, net, start, assignedTo, rank) && 0 < u < |net.parent|
    ensures SumsAtMostOne(PartTable(net, start, Subtree(net, u)), Separator(net, u, net.parent[u]))
  {
    var alive := Subtree(net, u);
    var vars, e := Variables(net, alive), Separator(net, u, net.parent[u]);
    var some := vars - e;
    SubtreeHasRoot(bn, net, start, assignedTo, rank, u);
    CliqueAlive(net, alive, u);
    SeparatorSymmetric(net, u, net.parent[u]);
    hide Initial, Subtree, Variables, Separator, PartTable, SumsAtMostOne;
    forall n | n in some
      ensures n < |assignedTo| && assignedTo[n] in alive && assignedTo[n] < |net.cliques| && FamilyIn(bn, vars, n)
    {
      OwnNode(bn, net, start, assignedTo, rank, u, n);
    }
    SameCounts(bn, net, start, assignedTo, rank);
    assert vars - some == e;
    PartBounded(bn, net, start, assignedTo, rank, alive, some);
  }

  lemma SubtreeHasRoot(bn: Network, net: Net, start: seq<Table>, assignedTo: seq<nat>, rank: seq<nat>, u: nat)
    requires Initial(bn, net, start, assignedTo, rank) && 0 < u < |net.parent|
    ensures u in Subtree(net, u) && Subtree(net, u) <= AllNodes(net)
  {}

  // ---- all of the tree ---------------------------------------------------------------------------

  lemma TotalBounded(bn: Network, net: Net, start: seq<Table>, assignedTo: seq<nat>, rank: seq<nat>)
    requires Initial(bn, net, start, assignedTo, rank)
    ensures Sum(JointTable(net, start), JointTable(net, start).Keys) <= 1.0 && NonNegative(JointTable(net, start))
  {
    var all := AllVariables(net);
    var t, u := JointTable(net, start), ProductTable(bn, net, all, all);
    var keys := FullAssignments(net);
    WholeNetwork(bn, net, start, assignedTo, rank);
    hide Initial, FullAssignments, Full, Prod, Phi, Sum, SumsAtMostOne, OrderedNetwork, HasValues, FamiliesWithin, Projections,
      JointTable, ProductTable, FactorsOf, AllVariables;
    FullAssignmentsAre(net);
    WholeTables(bn, net, start, keys);
    forall x | x in keys ensures 0.0 <= Phi(net, start, x) <= Prod(FactorsOf(bn, all, x)) {
      PhiAtMost(bn, net, start, assignedTo, rank, x);
    }
    EliminateAll(bn, net, rank, all, all);
    SumMonotone(t, u, keys);
    assert all - all == {};
    TotalAtMostOne(net, u);
  }

  lemma WholeNetwork(bn: Network, net: Net, start: seq<Table>, assignedTo: seq<nat>, rank: seq<nat>)
    requires Initial(bn, net, start, assignedTo, rank)
    ensures OrderedNetwork(bn, rank) && net.radix == bn.radix && HasValues(AllVariables(net), net.radix)
    ensures FamiliesWithin(bn, AllVariables(net), AllVariables(net))
  {
    hide PathCondition, CoversVariables, FamiliesCovered, FirstFilled, Proper, Probable, RowsAtMostOne, Ordered;
    forall n | n in AllVariables(net) ensures FamilyIn(bn, AllVariables(net), n) { AllFamilies(bn, net, n); }
  }

  lemma WholeTables(bn: Network, net: Net, start: seq<Table>, keys: set<Assignment>)
    requires keys == FullAssignments(net) && forall x :: x in keys ==> Full(net, x)
    ensures var t, u := JointTable(net, start), ProductTable(bn, net, AllVariables(net), AllVariables(net));
      && t.Keys == u.Keys == keys
      && forall x :: x in keys ==> t[x] == Phi(net, start, x) && u[x] == Prod(FactorsOf(bn, AllVariables(net), x))
  {
    WholeProjections(net, keys);
    hide FullAssignments, Full, Prod, Phi, Projections, FactorsOf, AllVariables;
  }

  lemma WholeProjections(net: Net, keys: set<Assignment>)
    requires forall x :: x in keys ==> Full(net, x)
    ensures Projections(keys, AllVariables(net)) == keys
  {
    forall x | x in keys ensures Restrict(x, AllVariables(net)) == x { assert x.Keys == AllVariables(net); }
  }

  lemma PhiAtMost(bn: Network, net: Net, start: seq<Table>, assignedTo: seq<nat>, rank: seq<nat>, x: Assignment)
    requires Initial(bn, net, start, assignedTo, rank) && Full(net, x)
    ensures 0.0 <= Phi(net, start, x) <= Prod(FactorsOf(bn, AllVariables(net), x))
  {
    hide Initial, Prod, Full, Conditional, AllNodes, AllVariables, LiveFactors, Factors, FactorsOf, Phi;
    EveryNodeAssigned(bn, net, start, assignedTo, rank);
    LiveIsAll(bn, net, start, assignedTo, rank, x);
    PartAtMost(bn, net, start, assignedTo, rank, AllNodes(net), AllVariables(net), x);
  }

  lemma LiveIsAll(bn: Network, net: Net, start: seq<Table>, assignedTo: seq<nat>, rank: seq<nat>, x: Assignment)
    requires Initial(bn, net, start, assignedTo, rank)
    ensures Phi(net, start, x) == Prod(LiveFactors(net, start, AllNodes(net), x))
  {
    SameCounts(bn, net, start, assignedTo, rank);
    hide Initial, Factor, Prod;
    assert LiveFactors(net, start, AllNodes(net), x) == Factors(net, start, x);
  }

  lemma EveryNodeAssigned(bn: Network, net: Net, start: seq<Table>, assignedTo: seq<nat>, rank: seq<nat>)
    requires Initial(bn, net, start, assignedTo, rank)
    ensures forall n :: n in AllVariables(net) ==> n < |assignedTo| && assignedTo[n] in AllNodes(net) && assignedTo[n] < |net.cliques|
  {
    SameCounts(bn, net, start, assignedTo, rank);
    AllCovered(bn, net, start, assignedTo);
    hide PathCondition, CoversVariables, FamiliesCovered, FirstFilled, Proper, OrderedNetwork, HoldsFamily;
  }

  /** The marginal on no variables is the total. */
  lemma TotalAtMostOne(net: Net, u: Table)
    requires SumsAtMostOne(u, {})
    ensures Sum(u, u.Keys) <= 1.0
  {
    if u.Keys == {} {
      SumEmpty(u);
    } else {
      var x :| x in u;
      assert Restrict(x, {}) == map[];
      assert forall a :: a in u ==> Restrict(a, {}) == map[];
      assert Fibre(u.Keys, {}, map[]) == u.Keys;
      assert map[] in Projections(u.Keys, {});
      assert MarginalAt(u, {}, map[]) <= 1.0;
    }
  }

  /** A Bayesian network and its join tree: no sum for a message will be above one. */
  lemma NetworkIsBounded(bn: Network, net: Net, start: seq<Table>, assignedTo: seq<nat>, rank: seq<nat>)
    requires Initial(bn, net, start, assignedTo, rank)
    ensures Bounded(net, start)
  {
    SameCounts(bn, net, start, assignedTo, rank);
    TotalBounded(bn, net, start, assignedTo, rank);
    assert PathCondition(net) && CoversVariables(net) && HasValues(AllVariables(net), net.radix);
    hide Initial, SumsAtMostOne, PartTable, Subtree, Separator, PathCondition, CoversVariables, Sum, JointTable;
    forall u | 0 < u < |net.parent| ensures SumsAtMostOne(PartTable(net, start, Subtree(net, u)), Separator(net, u, net.parent[u])) {
      SubtreeBounded(bn, net, start, assignedTo, rank, u);
    }
  }
}
