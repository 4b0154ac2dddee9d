/** The whole inference: initial tables, message passing, and the distribution of one node. */
module Inference {
  import opened Tables
  import opened Counters
  import opened Schedule
  import opened Messages
  import opened Joint
  import opened JoinTrees
  import opened CliqueTables
  import opened InitialJoint
  import opened CliqueMarginals
  import opened LeafRemoval
  import opened Subtrees
  import opened ConditionalSums
  import opened NoSaturation
  import opened Trees

  // ---- the initial tables hold probabilities -----------------------------------------------------

  /** The initial tables are complete and hold probabilities. */
  lemma InitialTablesOk(bn: Network, net: Net, tables: seq<Table>, assignedTo: seq<nat>)
    requires WellFormed(bn) && Probable(bn) && net.radix == bn.radix
    requires FirstFilled(bn, net, tables, assignedTo, |net.cliques|)
    ensures TablesOk(net, tables)
  {
    hide WellFormed, Probable, NodeFactors, Times, Prod, Over;
    forall i | 0 <= i < |tables| ensures TableOk(net, tables[i], i) {
      var t, order := tables[i], Ascending(Clique(net, i));
      assert TableFilled(bn, net, t, assignedTo, i);
      forall a | a in t ensures 0.0 <= t[a] <= 1.0 {
        forall n | 0 <= n < |assignedTo| && assignedTo[n] == i ensures HoldsFamily(bn, Clique(net, i), n) {
          assert AssignedFirst(bn, net, n, assignedTo[n], |net.cliques|);
        }
        NodeFactorsProbable(bn, Clique(net, i), assignedTo, i, order, a);
        ProdProbability(NodeFactors(bn, assignedTo, i, order, a));
        TimesProbability(EvidenceFactor(bn.evidence, order, a), Prod(NodeFactors(bn, assignedTo, i, order, a)));
      }
    }
  }

  // ---- the distribution of one node --------------------------------------------------------------

  /** The smallest clique with v in it, the first of them; 0 when there is none. */
  method SmallestClique(net: Net, v: nat) returns (smallest: nat)
    ensures (exists n :: 0 <= n < |net.cliques| && v in net.cliques[n]) ==>
      && smallest < |net.cliques| && v in net.cliques[smallest]
      && forall n :: 0 <= n < |net.cliques| && v in net.cliques[n] ==>
        |net.cliques[smallest]| <= |net.cliques[n]| && (|net.cliques[smallest]| == |net.cliques[n]| ==> smallest <= n)
  {
    smallest := 0;
    var size: int := -1; // no clique yet
    var n := 0;
    while n < |net.cliques|
      invariant 0 <= n <= |net.cliques|
      invariant size == -1 ==> forall k :: 0 <= k < n ==> v !in net.cliques[k]
      invariant size != -1 ==>
        && smallest < n && v in net.cliques[smallest] && size == |net.cliques[smallest]|
        && forall k :: 0 <= k < n && v in net.cliques[k] ==>
          size <= |net.cliques[k]| && (size == |net.cliques[k]| ==> smallest <= k)
    {
      if v in net.cliques[n] && (size == -1 || |net.cliques[n]| < size) {
        size := |net.cliques[n]|;
        smallest := n;
      }
      n := n + 1;
    }
  }

  function Single(v: nat, value: nat): Assignment { map[v := value] }

  /** normalize: every entry over the sum of all; not defined when that is zero. */
  method Normalize(t: Table) returns (out: Table, defined: bool)
    ensures defined <==> Sum(t, t.Keys) != 0.0
    ensures defined ==> out == map a | a in t :: Quotient(t[a], Sum(t, t.Keys))
  {
    hide Quotient;
    SumEmpty(t);
    hide Sum;
    var sum := 0.0;
    var todo := t.Keys;
    assert t.Keys - todo == {};
    while todo != {}
      invariant todo <= t.Keys && sum == Sum(t, t.Keys - todo)
    {
      var a :| a in todo;
      SumAdd(t, t.Keys - todo, a);
      assert t.Keys - todo + {a} == t.Keys - (todo - {a});
      sum := sum + t[a];
      todo := todo - {a};
    }
    assert t.Keys - todo == t.Keys;
    out := t;
    defined := sum != 0.0;
    if !defined {
      return; // every entry becomes 0 / 0
    }
    todo := t.Keys;
    while todo != {}
      invariant todo <= t.Keys && out.Keys == t.Keys
      invariant forall a :: a in t ==> out[a] == if a in todo then t[a] else Quotient(t[a], Sum(t, t.Keys))
    {
      var a :| a in todo;
      out := out[a := Quotient(out[a], sum)];
      todo := todo - {a};
    }
  }

  /** The total of a table is that of its marginal. */
  lemma MarginalTotal(t: Table, vars: set<nat>)
    ensures Sum(Marginal(t, vars), Marginal(t, vars).Keys) == Sum(t, t.Keys)
  {
    hide Sum, Restrict;
    var m := Marginal(t, vars);
    assert m.Keys == Projections(t.Keys, vars);
    forall z | z in Projections(t.Keys, vars) ensures m[z] == Sum(t, Fibre(t.Keys, vars, z)) {
      assert m[z] == MarginalAt(t, vars, z);
    }
    SumByFibres(t, t.Keys, vars, m);
  }

  /** The assignments of one variable are its values. */
  lemma SingleOver(v: nat, radix: seq<nat>, a: Assignment)
    ensures Over(a, {v}, radix) <==> v < |radix| && v in a && a == Single(v, a[v]) && a[v] < radix[v]
  {
    if v in a && a.Keys == {v} { assert a == Single(v, a[v]); }
  }

  lemma SinglesAre(m: Table, v: nat, radix: seq<nat>)
    requires Complete(m, {v}, radix) && v < |radix|
    ensures forall i: nat :: Single(v, i) in m <==> i < radix[v]
  {
    forall i: nat ensures Single(v, i) in m <==> i < radix[v] {
      SingleOver(v, radix, Single(v, i));
    }
  }

  /** Some entry is not zero. */
  ghost predicate SaysSomething(t: Table) {
    exists a :: a in t && t[a] > 0.0
  }

  /** A table of probabilities with an entry that is not zero has capped marginals that do not sum to zero. */
  lemma CappedSaysSomething(t: Table, vars: set<nat>)
    requires Probabilities(t) && SaysSomething(t)
    ensures var m := CappedMarginal(t, vars); Sum(m, m.Keys) > 0.0
  {
    var m := CappedMarginal(t, vars);
    var a :| a in t && t[a] > 0.0;
    CappedBounds(t, vars);
    hide Sum, CappedMarginal;
    SumAtLeast(m, m.Keys, Restrict(a, vars));
  }

  /** The assignments that give v a value. */
  ghost function WithValue(joint: Table, v: nat, value: nat): (s: set<Assignment>)
    ensures s <= joint.Keys
  {
    set x | x in joint && v in x && x[v] == value
  }

  lemma FibreOfValue(joint: Table, v: nat, value: nat)
    ensures Fibre(joint.Keys, {v}, Single(v, value)) == WithValue(joint, v, value)
  {
    forall x | x in joint ensures Restrict(x, {v}) == Single(v, value) <==> v in x && x[v] == value {
      if v in x { assert Restrict(x, {v}).Keys == {v}; }
      if Restrict(x, {v}) == Single(v, value) { assert v in Restrict(x, {v}); }
    }
  }

  /**
   * dist is the distribution of idx under joint, or there is none because joint is zero: the sum of
   * all entries with value i, over the sum of all entries.
   */
  ghost predicate IsDistribution(dist: seq<real>, defined: bool, joint: Table, idx: nat) {
    var total := Sum(joint, joint.Keys);
    && (defined <==> total != 0.0)
    && (defined ==> forall i :: 0 <= i < |dist| ==> dist[i] * total == Sum(joint, WithValue(joint, idx, i)))
  }

  /** dist is a probability distribution: no entry is negative, and they sum to one. */
  ghost predicate Normalised(dist: seq<real>) {
    RowSum(dist, |dist|) == 1.0 && forall i :: 0 <= i < |dist| ==> 0.0 <= dist[i] <= 1.0
  }

  ghost function FirstSingles(v: nat, k: nat): set<Assignment> {
    if k == 0 then {} else FirstSingles(v, k - 1) + {Single(v, k - 1)}
  }

  lemma {:induction false} FirstSinglesAre(v: nat, k: nat)
    ensures forall i: nat :: Single(v, i) in FirstSingles(v, k) <==> i < k
    ensures forall a :: a in FirstSingles(v, k) ==> v in a && a[v] < k && a == Single(v, a[v])
  {
    if k > 0 {
      FirstSinglesAre(v, k - 1);
      forall i: nat ensures Single(v, i) == Single(v, k - 1) <==> i == k - 1 { assert Single(v, i)[v] == i; }
    }
  }

  /** The sum of a table of one variable is that of its values in order. */
  lemma {:induction false} SinglesSum(t: Table, v: nat, row: seq<real>, k: nat)
    requires k <= |row| && forall i :: 0 <= i < k ==> Single(v, i) in t && t[Single(v, i)] == row[i]
    ensures FirstSingles(v, k) <= t.Keys && Sum(t, FirstSingles(v, k)) == RowSum(row, k)
  {
    SumEmpty(t);
    hide Sum, Single;
    if k > 0 {
      SinglesSum(t, v, row, k - 1);
      FirstSinglesAre(v, k - 1);
      SumAdd(t, FirstSingles(v, k - 1), Single(v, k - 1));
    }
  }

  /** Every entry over the sum of all: together they make one. */
  lemma NormalisedSum(m: Table, v: nat, dist: seq<real>, radix: seq<nat>)
    requires Complete(m, {v}, radix) && v < |radix| && |dist| == radix[v] && Sum(m, m.Keys) != 0.0
    requires forall i :: 0 <= i < |dist| ==> Single(v, i) in m && dist[i] == Quotient(m[Single(v, i)], Sum(m, m.Keys))
    requires NonNegative(m)
    ensures Normalised(dist)
  {
    hide Sum, Quotient, Single, RowSum, Normalised;
    var total := Sum(m, m.Keys);
    var row := seq(|dist|, i requires 0 <= i < |dist| => m[Single(v, i)]);
    AllSingles(m, v, radix);
    SinglesSum(m, v, row, |dist|);
    SumNonNegative(m, m.Keys);
    forall i | 0 <= i < |dist| ensures dist[i] == Quotient(row[i], total) && 0.0 <= row[i] <= total {
      SumAtLeast(m, m.Keys, Single(v, i));
    }
    AllShares(row, dist, total);
  }

  lemma AllShares(row: seq<real>, dist: seq<real>, total: real)
    requires |row| == |dist| && total > 0.0 && RowSum(row, |row|) == total
    requires forall i :: 0 <= i < |dist| ==> dist[i] == Quotient(row[i], total) && 0.0 <= row[i] <= total
    ensures Normalised(dist)
  {
    hide Quotient, RowSum;
    forall i | 0 <= i < |dist| ensures 0.0 <= dist[i] <= 1.0 { Share(row[i], total); }
    Shares(row, dist, total, |row|);
    var all := RowSum(dist, |row|);
    assert all * total == RowSum(row, |row|);
    TotalOnce(all, total);
  }

  lemma AllSingles(m: Table, v: nat, radix: seq<nat>)
    requires Complete(m, {v}, radix) && v < |radix|
    ensures m.Keys == FirstSingles(v, radix[v])
  {
    FirstSinglesAre(v, radix[v]);
    hide FirstSingles, Over;
    forall a ensures a in m <==> a in FirstSingles(v, radix[v]) { SingleOver(v, radix, a); }
  }

  lemma {:induction false} Shares(row: seq<real>, dist: seq<real>, total: real, k: nat)
    requires k <= |row| == |dist| && total > 0.0
    requires forall i :: 0 <= i < |dist| ==> dist[i] == Quotient(row[i], total) && 0.0 <= row[i] <= total
    ensures RowSum(dist, k) * total == RowSum(row, k)
    decreases k
  {
    hide Quotient;
    if k > 0 {
      Shares(row, dist, total, k - 1);
      Share(row[k - 1], total);
      Distributes(RowSum(dist, k - 1), dist[k - 1], total);
    }
  }

  lemma Distributes(a: real, b: real, t: real)
    ensures (a + b) * t == a * t + b * t
  {}

  lemma Share(a: real, total: real)
    requires total > 0.0 && 0.0 <= a <= total
    ensures 0.0 <= Quotient(a, total) <= 1.0 && Quotient(a, total) * total == a
  {
    var q := a / total;
    assert q * total == a;
    assert q < 0.0 ==> q * total < 0.0;
    assert q > 1.0 ==> (q - 1.0) * total > 0.0;
  }

  lemma TotalOnce(s: real, total: real)
    requires total > 0.0 && s * total == total
    ensures s == 1.0
  {
    assert (s - 1.0) * total == 0.0;
  }

  // ---- a node that is evidence -------------------------------------------------------------------

  /** The network's distribution, cut down to the evidence, as a table. */
  ghost function DistributionTable(bn: Network, net: Net): Table {
    map x | x in FullAssignments(net) :: Distribution(bn, x)
  }

  /** Entries that are zero add nothing. */
  lemma {:induction false} SumWithoutZeros(t: Table, s: set<Assignment>, part: set<Assignment>)
    requires part <= s <= t.Keys && forall a :: a in s && a !in part ==> t[a] == 0.0
    ensures Sum(t, s) == Sum(t, part)
    decreases s
  {
    hide Sum;
    if a :| a in s && a !in part {
      SumRemove(t, s, a);
      SumWithoutZeros(t, s - {a}, part);
    } else {
      assert s == part;
    }
  }

  /** The distribution of an evidence node is all on its value. */
  lemma EvidenceIsCertain(bn: Network, net: Net, idx: nat, dist: seq<real>)
    requires WellFormed(bn) && Probable(bn) && net.radix == bn.radix && HasValues(AllVariables(net), net.radix)
    requires idx in bn.evidence && forall v :: v in bn.evidence ==> v < |bn.radix|
    requires IsDistribution(dist, true, DistributionTable(bn, net), idx)
    ensures forall i :: 0 <= i < |dist| ==> dist[i] == if i == bn.evidence[idx] then 1.0 else 0.0
  {
    hide WellFormed, Probable, Sum, FullAssignments, Distribution, HasValues;
    var joint := DistributionTable(bn, net);
    var total := Sum(joint, joint.Keys);
    forall x | x in joint ensures idx in x && (x[idx] != bn.evidence[idx] ==> joint[x] == 0.0) {
      EntryOfTable(bn, net, x);
      DistributionIs(bn, x);
    }
    forall i | 0 <= i < |dist| ensures dist[i] == if i == bn.evidence[idx] then 1.0 else 0.0 {
      var part := WithValue(joint, idx, i);
      if i == bn.evidence[idx] {
        SumWithoutZeros(joint, joint.Keys, part);
        OnlyShare(dist[i], total, 1.0);
      } else {
        SumWithoutZeros(joint, part, {});
        SumEmpty(joint);
        OnlyShare(dist[i], total, 0.0);
      }
    }
  }

  lemma OnlyShare(d: real, total: real, part: real)
    requires total != 0.0 && d * total == part * total
    ensures d == part
  {
    assert (d - part) * total == 0.0;
  }

  /** The table of the joint distribution has one entry for each choice of a value for every node. */
  lemma EntryOfTable(bn: Network, net: Net, x: Assignment)
    requires net.radix == bn.radix && HasValues(AllVariables(net), net.radix)
    ensures x in DistributionTable(bn, net) <==> ValuesForAll(bn, x) && forall v :: v in x ==> v < |bn.radix|
    ensures x in DistributionTable(bn, net) ==> DistributionTable(bn, net)[x] == Distribution(bn, x)
  {
    hide FullAssignments, Distribution;
    FullAssignmentsAre(net);
    if ValuesForAll(bn, x) && forall v :: v in x ==> v < |bn.radix| {
      assert x.Keys == AllVariables(net);
    }
  }

  /**
   * probability: the normalised marginal of one clique on one node. With tables that are marginals
   * of joint, and no sum above one, this is the distribution of the node under joint.
   */
  method Probability(net: Net, tables: seq<Table>, idx: nat, ghost joint: Table) returns (dist: seq<real>, defined: bool)
    requires Proper(net) && TablesOk(net, tables) && CoversVariables(net) && idx < |net.radix|
    ensures defined ==> |dist| == net.radix[idx] && Normalised(dist)
    ensures (forall i :: 0 <= i < |tables| ==> SaysSomething(tables[i])) ==> defined
    ensures AreMarginals(net, tables, joint) && SumsAtMostOne(joint, {idx}) ==> IsDistribution(dist, defined, joint, idx)
  {
    hide Sum, Quotient, Restrict, MarginalAt, Marginal, CappedMarginal, CoversVariables, Proper, SumsAtMostOne, SaysSomething, Probabilities;
    var c := SmallestClique(net, idx);
    InSomeClique(net, idx);
    SameLength(net, tables);
    assert TableOk(net, tables[c], c);
    var m := OneNode(net, tables, c, idx, joint);
    NoneNegative(tables[c], {idx});
    hide CliqueTables.RowSum, Normalised, IsDistribution, NonNegative;
    hide TablesOk, TableOk, AreMarginals;
    if SaysSomething(tables[c]) { CappedSaysSomething(tables[c], {idx}); }
    SinglesAre(m, idx, net.radix);
    MarginalTotal(joint, {idx});
    var table: Table;
    table, defined := Normalize(m);
    if !defined {
      return [], false;
    }
    if m == Marginal(joint, {idx}) { SinglesMarginal(joint, m, idx, net.radix); }
    dist := ReadOff(table, idx, net.radix[idx]);
    NormalisedSum(m, idx, dist, net.radix);
    if m == Marginal(joint, {idx}) { QuotientsAre(dist, joint, idx); }
  }

  lemma NoneNegative(t: Table, vars: set<nat>)
    requires Probabilities(t)
    ensures NonNegative(CappedMarginal(t, vars))
  {
    CappedBounds(t, vars);
    hide CappedMarginal;
  }

  lemma QuotientsAre(dist: seq<real>, joint: Table, idx: nat)
    requires Sum(joint, joint.Keys) != 0.0
    requires forall i :: 0 <= i < |dist| ==> dist[i] == Quotient(MarginalAt(joint, {idx}, Single(idx, i)), Sum(joint, joint.Keys))
    ensures IsDistribution(dist, true, joint, idx)
  {
    hide Sum, Fibre, Single, Quotient;
    var total := Sum(joint, joint.Keys);
    forall i | 0 <= i < |dist| ensures dist[i] * total == Sum(joint, WithValue(joint, idx, i)) {
      FibreOfValue(joint, idx, i);
      QuotientTimes(MarginalAt(joint, {idx}, Single(idx, i)), total);
    }
  }

  lemma QuotientTimes(a: real, total: real)
    requires total != 0.0
    ensures Quotient(a, total) * total == a
  {}

  ghost predicate AreMarginals(net: Net, tables: seq<Table>, joint: Table) {
    forall i :: 0 <= i < |tables| ==> tables[i] == Marginal(joint, Clique(net, i))
  }

  lemma SinglesMarginal(joint: Table, m: Table, idx: nat, radix: seq<nat>)
    requires m == Marginal(joint, {idx}) && idx < |radix| && forall i: nat :: Single(idx, i) in m <==> i < radix[idx]
    ensures forall i :: 0 <= i < radix[idx] ==> m[Single(idx, i)] == MarginalAt(joint, {idx}, Single(idx, i))
  {
    hide MarginalAt, Single;
  }

  /** The probabilities of the values of one node, in order. */
  method ReadOff(table: Table, idx: nat, n: nat) returns (dist: seq<real>)
    requires forall i :: 0 <= i < n ==> Single(idx, i) in table
    ensures |dist| == n && forall i :: 0 <= i < n ==> dist[i] == table[Single(idx, i)]
  {
    dist := [];
    var i := 0;
    while i < n
      invariant 0 <= i <= n && |dist| == i
      invariant forall k :: 0 <= k < i ==> dist[k] == table[Single(idx, k)]
    {
      dist := dist + [table[Single(idx, i)]];
      i := i + 1;
    }
  }

  /** The marginal of clique c on one node is that of the joint function. */
  method OneNode(net: Net, tables: seq<Table>, c: nat, idx: nat, ghost joint: Table) returns (m: Table)
    requires Proper(net) && TablesOk(net, tables) && c < |tables| && idx in Clique(net, c)
    ensures m == CappedMarginal(tables[c], {idx}) && Complete(m, {idx}, net.radix)
    ensures AreMarginals(net, tables, joint) && SumsAtMostOne(joint, {idx}) ==> m == Marginal(joint, {idx})
  {
    hide Sum, Restrict, MarginalAt, CappedMarginal, Marginal, SumsAtMostOne, Tree;
    assert TableOk(net, tables[c], c) && HasValues(Clique(net, c), net.radix);
    m := Marginalize(tables[c], {idx});
    ProjectionsComplete(tables[c], Clique(net, c), {idx}, net.radix);
    if AreMarginals(net, tables, joint) && SumsAtMostOne(joint, {idx}) {
      MarginalOfMarginal(joint, Clique(net, c), {idx});
      BoundPassesOn(joint, tables[c], Clique(net, c), {idx});
      CappedIsMarginal(tables[c], {idx});
    }
  }

  lemma InSomeClique(net: Net, idx: nat)
    requires CoversVariables(net) && idx < |net.radix|
    ensures exists n :: 0 <= n < |net.cliques| && idx in net.cliques[n]
  {
    assert idx in Variables(net, AllNodes(net));
    var k :| k in AllNodes(net) && idx in Clique(net, k);
  }

  // ---- all of it ---------------------------------------------------------------------------------

  /** copy_graph_structure: an empty table for every edge. */
  method EmptySeparators(net: Net) returns (separators: map<Edge, Table>)
    ensures Unused(net, separators)
  {
    separators := map[];
    var i := 0;
    while i < |net.neighbors|
      invariant 0 <= i <= |net.neighbors|
      invariant forall u: nat, v: nat :: Directed(net.neighbors, u, v) && u < i ==> Key(u, v) in separators
      invariant forall k :: k in separators ==> separators[k] == map[]
    {
      var todo := net.neighbors[i];
      while todo != {}
        invariant todo <= net.neighbors[i]
        invariant forall u: nat, v: nat :: Directed(net.neighbors, u, v) && u < i ==> Key(u, v) in separators
        invariant forall v :: v in net.neighbors[i] - todo ==> Key(i, v) in separators
        invariant forall k :: k in separators ==> separators[k] == map[]
      {
        var j :| j in todo;
        separators := separators[Key(i, j) := map[]];
        todo := todo - {j};
      }
      i := i + 1;
    }
  }

  /** A join tree of the network in which every node shares a clique with its parents. */
  ghost predicate JoinTreeOf(bn: Network, net: Net) {
    && Proper(net) && net.radix == bn.radix && PathCondition(net) && CoversVariables(net) && FamiliesCovered(bn, net)
  }

  /**
   * Any join tree will do: a connected graph without cycles, with the path condition and every
   * family in a clique, has the parents and depths that the proofs work with.
   */
  lemma EveryJoinTreeHasParents(bn: Network, graph: Net) returns (net: Net)
    requires |graph.neighbors| == |graph.cliques| >= 1 && graph.radix == bn.radix
    requires Undirected(graph.neighbors) && Connected(graph.neighbors) && NoCycle(graph.neighbors)
    requires forall i :: 0 <= i < |graph.cliques| ==> HasValues(graph.cliques[i], graph.radix)
    requires PathCondition(graph) && CoversVariables(graph) && FamiliesCovered(bn, graph)
    ensures net == graph.(parent := net.parent, depth := net.depth) && JoinTreeOf(bn, net)
  {
    var parent, depth := EveryTreeHasParents(graph.neighbors);
    net := graph.(parent := parent, depth := depth);
    hide Tree, Undirected, Connected, NoCycle, HoldsFamily;
    assert FamiliesCovered(bn, net) by {
      forall n | 0 <= n < |bn.radix| ensures Covered(bn, net, n) { assert Covered(bn, graph, n); }
    }
    SameVariables(graph, net);
    SamePaths(graph, net);
  }

  lemma SameVariables(graph: Net, net: Net)
    requires CoversVariables(graph) && net == graph.(parent := net.parent, depth := net.depth)
    ensures CoversVariables(net)
  {
    forall k: nat ensures Clique(net, k) == Clique(graph, k) {}
    assert AllNodes(net) == AllNodes(graph) && AllVariables(net) == AllVariables(graph);
    assert forall v :: v in Variables(net, AllNodes(net)) <==> v in Variables(graph, AllNodes(graph));
  }

  /** Paths do not depend on the parents. */
  lemma SamePaths(graph: Net, net: Net)
    requires PathCondition(graph) && net == graph.(parent := net.parent, depth := net.depth)
    ensures PathCondition(net)
  {
    forall i: nat, j: nat, v: nat | v in Clique(net, i) && v in Clique(net, j) ensures Linked(net, i, j, v) {
      assert Linked(graph, i, j, v);
      var walk :| WalkWithin(graph, walk, v) && walk[0] == i && walk[|walk| - 1] == j;
      assert WalkWithin(net, walk, v);
    }
  }

  /** Filled-out conditional tables, no node its own ancestor (rank orders them), evidence on nodes. */
  ghost predicate ProperNetwork(bn: Network, rank: seq<nat>) {
    WellFormed(bn) && Probable(bn) && Ordered(bn, rank) && forall v :: v in bn.evidence ==> v < |bn.radix|
  }

  /**
   * create_bayesian_network_join_tree: if no sum is above one, every clique ends with the marginal
   * of the network's distribution, cut down to the evidence; and that is so if and only if the
   * initial tables say so (AllFit), as they do when the rows of the conditional tables do not sum
   * to more than one.
   */
  method CreateJoinTree(bn: Network, net: Net, ghost rank: seq<nat>) returns (tree: JoinTree)
    requires ProperNetwork(bn, rank) && JoinTreeOf(bn, net)
    ensures tree.net == net && TablesOk(net, tree.tables[..]) && |tree.log| == 2 * (|net.neighbors| - 1)
    ensures InitialTables(bn, net, tree.start)
    ensures tree.exact <==> AllFit(net, tree.start)
    ensures tree.exact ==> AreMarginals(net, tree.tables[..], DistributionTable(bn, net))
    ensures RowsAtMostOne(bn) ==> tree.exact && forall vars :: SumsAtMostOne(DistributionTable(bn, net), vars)
    ensures var joint := DistributionTable(bn, net);
      Sum(joint, joint.Keys) != 0.0 ==> forall i :: 0 <= i < tree.tables.Length ==> SaysSomething(tree.tables[i])
  {
    hide PathCondition, CoversVariables, FamiliesCovered, TablesOk, Marginal, Calibrated, JointAt, Full, Unused, Directed,
      FirstFilled, Tree, Bounded, WellFormed, Probable, RowsAtMostOne, Ordered, Sum, DistributionTable, SumsAtMostOne,
      AreMarginals, SaysSomething, WholeNet, AllFit, InitialTables, ProperNetwork;
    ghost var assignedTo;
    tree, assignedTo := StartTree(bn, net, rank);
    ghost var start := tree.start;
    RowsBound(bn, net, rank, start, assignedTo);
    StartIsWhole(bn, net, rank, start, assignedTo);
    tree.Propagate();
    ghost var after := tree.tables[..];
    HoldsMarginals(bn, net, rank, start, assignedTo, after, tree.separators, tree.exact);
    AllSaySomething(bn, net, rank, start, assignedTo, after, tree.separators);
    assert |after| == tree.tables.Length && forall i :: 0 <= i < tree.tables.Length ==> tree.tables[i] == after[i];
  }

  /** The join tree before the first message: filled cliques and empty separators. */
  method StartTree(bn: Network, net: Net, ghost rank: seq<nat>) returns (tree: JoinTree, ghost assignedTo: seq<nat>)
    requires ProperNetwork(bn, rank) && JoinTreeOf(bn, net)
    ensures tree.net == net && tree.start == tree.tables[..] && tree.log == [] && tree.exact && fresh(tree) && fresh(tree.tables)
    ensures Unused(net, tree.separators) && TablesOk(net, tree.start)
    ensures FirstFilled(bn, net, tree.start, assignedTo, |net.cliques|)
  {
    var tables, first := FillCliques(bn, net);
    InitialTablesOk(bn, net, tables[..], first[..]);
    assignedTo := first[..];
    hide TablesOk, Unused, FirstFilled, Proper;
    var separators := EmptySeparators(net);
    tree := new JoinTree(net, tables, separators);
  }

  /** The tables that the initialisation leaves. */
  ghost predicate InitialTables(bn: Network, net: Net, start: seq<Table>) {
    exists assignedTo :: FirstFilled(bn, net, start, assignedTo, |net.cliques|)
  }

  /** There is only one such list of tables, so a condition on it is one on the network and its join tree. */
  lemma InitialTablesUnique(bn: Network, net: Net, s: seq<Table>, t: seq<Table>)
    requires InitialTables(bn, net, s) && InitialTables(bn, net, t)
    ensures s == t
  {
    var one :| FirstFilled(bn, net, s, one, |net.cliques|);
    var two :| FirstFilled(bn, net, t, two, |net.cliques|);
    hide HoldsFamily, CliqueEntry, Ascending, Over;
    forall n | 0 <= n < |one| ensures one[n] == two[n] {
      assert AssignedFirst(bn, net, n, one[n], |net.cliques|) && AssignedFirst(bn, net, n, two[n], |net.cliques|);
    }
    assert one == two;
    forall i | 0 <= i < |s| ensures s[i] == t[i] {
      assert TableFilled(bn, net, s[i], one, i) && TableFilled(bn, net, t[i], one, i);
      assert forall a :: a in s[i] <==> a in t[i];
    }
  }

  lemma StartIsWhole(bn: Network, net: Net, rank: seq<nat>, start: seq<Table>, assignedTo: seq<nat>)
    requires ProperNetwork(bn, rank) && JoinTreeOf(bn, net) && FirstFilled(bn, net, start, assignedTo, |net.cliques|)
    ensures WholeNet(net, start) && InitialTables(bn, net, start)
  {
    AllHaveValues(bn, net, rank);
    hide PathCondition, CoversVariables, FamiliesCovered, Proper, HasValues, TableFilled, AssignedFirst, ProperNetwork;
  }

  lemma RowsBound(bn: Network, net: Net, rank: seq<nat>, start: seq<Table>, assignedTo: seq<nat>)
    requires ProperNetwork(bn, rank) && JoinTreeOf(bn, net) && FirstFilled(bn, net, start, assignedTo, |net.cliques|)
    ensures RowsAtMostOne(bn) ==> AllFit(net, start) && forall vars :: SumsAtMostOne(DistributionTable(bn, net), vars)
  {
    hide FullAssignments, FirstFilled, PathCondition, CoversVariables, FamiliesCovered, Proper, DistributionTable, JointTable,
      SumsAtMostOne, Sum, NonNegative, WellFormed, Probable, RowsAtMostOne, Ordered;
    if RowsAtMostOne(bn) {
      NetworkIsBounded(bn, net, start, assignedTo, rank);
      BoundedFits(net, start);
      JointIsDistribution(bn, net, rank, start, assignedTo);
      forall vars ensures SumsAtMostOne(DistributionTable(bn, net), vars) { TotalBounds(DistributionTable(bn, net), vars); }
    }
  }

  lemma HoldsMarginals(bn: Network, net: Net, rank: seq<nat>, start: seq<Table>, assignedTo: seq<nat>, tables: seq<Table>,
                       separators: map<Edge, Table>, exact: bool)
    requires ProperNetwork(bn, rank) && JoinTreeOf(bn, net) && FirstFilled(bn, net, start, assignedTo, |net.cliques|)
    requires TablesOk(net, tables) && (exact ==> Calibrated(net, tables, separators))
    requires forall x :: Full(net, x) ==> JointAt(net, start, tables, separators, x)
    ensures exact ==> AreMarginals(net, tables, DistributionTable(bn, net))
  {
    hide FullAssignments, Full, JointAt, TablesOk, Calibrated, PathCondition, CoversVariables, FamiliesCovered, FirstFilled,
      Proper, Marginal, ProperNetwork, HasValues, DistributionTable, JointTable;
    AllHaveValues(bn, net, rank);
    JointIsDistribution(bn, net, rank, start, assignedTo);
    SameLength(net, tables);
    if exact {
      forall i | 0 <= i < |tables| ensures tables[i] == Marginal(DistributionTable(bn, net), Clique(net, i)) {
        CliqueTablesAreMarginals(net, start, tables, separators, i);
      }
    }
  }

  /** As long as the joint function is not zero everywhere, no table is, whatever was capped. */
  lemma AllSaySomething(bn: Network, net: Net, rank: seq<nat>, start: seq<Table>, assignedTo: seq<nat>, tables: seq<Table>,
                        separators: map<Edge, Table>)
    requires ProperNetwork(bn, rank) && JoinTreeOf(bn, net) && FirstFilled(bn, net, start, assignedTo, |net.cliques|)
    requires TablesOk(net, tables) && forall x :: Full(net, x) ==> JointAt(net, start, tables, separators, x)
    ensures Sum(DistributionTable(bn, net), DistributionTable(bn, net).Keys) != 0.0 ==>
      forall i :: 0 <= i < |tables| ==> SaysSomething(tables[i])
  {
    hide FullAssignments, Full, TablesOk, PathCondition, CoversVariables, FamiliesCovered, FirstFilled,
      Proper, ProperNetwork, HasValues, Phi, Sum, JointAt;
    AllHaveValues(bn, net, rank);
    JointIsDistribution(bn, net, rank, start, assignedTo);
    var joint := JointTable(net, start);
    FullAssignmentsAre(net);
    if Sum(joint, joint.Keys) != 0.0 {
      var x := NotAllZero(joint);
      assert Full(net, x) && Phi(net, start, x) != 0.0;
      forall i | 0 <= i < |tables| ensures SaysSomething(tables[i]) {
        FactorNotZero(net, start, tables, separators, x, i);
      }
    }
  }

  lemma {:induction false} ZeroSum(t: Table, s: set<Assignment>)
    requires s <= t.Keys && forall a :: a in s ==> t[a] == 0.0
    ensures Sum(t, s) == 0.0
    decreases s
  {
    if a :| a in s {
      SumRemove(t, s, a);
      ZeroSum(t, s - {a});
    } else {
      assert s == {};
      SumEmpty(t);
    }
  }

  lemma NotAllZero(t: Table) returns (x: Assignment)
    requires Sum(t, t.Keys) != 0.0
    ensures x in t && t[x] != 0.0
  {
    if forall a :: a in t ==> t[a] == 0.0 { ZeroSum(t, t.Keys); }
    x :| x in t && t[x] != 0.0;
  }

  lemma {:induction false} ProdNotZero(fs: seq<real>)
    ensures Prod(fs) != 0.0 <==> forall k :: 0 <= k < |fs| ==> fs[k] != 0.0
  {
    if fs != [] {
      ProdNotZero(fs[1..]);
      assert forall k :: 1 <= k < |fs| ==> fs[k] == fs[1..][k - 1];
    }
  }

  lemma FactorNotZero(net: Net, start: seq<Table>, tables: seq<Table>, separators: map<Edge, Table>, x: Assignment, i: nat)
    requires JointAt(net, start, tables, separators, x) && Phi(net, start, x) != 0.0
    requires TablesOk(net, tables) && i < |tables|
    ensures SaysSomething(tables[i])
  {
    hide Phi, Prod, SeparatorFactor;
    var fs := Factors(net, tables, x);
    ProdNotZero(fs);
    ProdNotZero(SeparatorFactors(net, separators, x));
    assert fs[i] == Factor(net, tables, x, i) && TableOk(net, tables[i], i);
  }

  lemma SameLength(net: Net, tables: seq<Table>)
    requires TablesOk(net, tables)
    ensures |tables| == |net.cliques|
  {}

  lemma JointIsDistribution(bn: Network, net: Net, rank: seq<nat>, start: seq<Table>, assignedTo: seq<nat>)
    requires ProperNetwork(bn, rank) && JoinTreeOf(bn, net) && FirstFilled(bn, net, start, assignedTo, |net.cliques|)
    ensures JointTable(net, start) == DistributionTable(bn, net)
  {
    hide FullAssignments, Full, PathCondition, CoversVariables, FamiliesCovered, FirstFilled, Proper, Distribution, Phi,
      HasValues, Probable, Ordered;
    AllHaveValues(bn, net, rank);
    FullAssignmentsAre(net);
    forall x | x in FullAssignments(net) ensures Phi(net, start, x) == Distribution(bn, x) {
      CliquesMultiplyToDistribution(bn, net, start, assignedTo, x);
    }
  }

  lemma AllHaveValues(bn: Network, net: Net, rank: seq<nat>)
    requires ProperNetwork(bn, rank) && net.radix == bn.radix
    ensures HasValues(AllVariables(net), net.radix)
  {}

  /** No sum of the whole program is above one: none of a message, and none for the node itself. */
  ghost predicate NothingCapped(bn: Network, net: Net, start: seq<Table>, idx: nat) {
    AllFit(net, start) && SumsAtMostOne(DistributionTable(bn, net), {idx})
  }

  /**
   * The whole program: the distribution of one node, given the evidence. It is exact if no sum is
   * above one, in terms of the initial tables and the joint distribution: so for all networks with
   * rows of at most one. The final division is by zero only for evidence that is impossible.
   */
  method Posterior(bn: Network, net: Net, idx: nat, ghost rank: seq<nat>) returns (dist: seq<real>, defined: bool, ghost start: seq<Table>)
    requires ProperNetwork(bn, rank) && JoinTreeOf(bn, net) && idx < |net.radix|
    ensures defined ==> |dist| == net.radix[idx]
    ensures defined ==> RowSum(dist, |dist|) == 1.0 && forall i :: 0 <= i < |dist| ==> 0.0 <= dist[i] <= 1.0
    ensures InitialTables(bn, net, start)
    ensures RowsAtMostOne(bn) ==> NothingCapped(bn, net, start, idx)
    ensures NothingCapped(bn, net, start, idx) ==> IsDistribution(dist, defined, DistributionTable(bn, net), idx)
    ensures NothingCapped(bn, net, start, idx) && defined && idx in bn.evidence ==>
      forall i :: 0 <= i < |dist| ==> dist[i] == if i == bn.evidence[idx] then 1.0 else 0.0
    ensures var joint := DistributionTable(bn, net); Sum(joint, joint.Keys) != 0.0 ==> defined
  {
    hide PathCondition, Marginal, Sum, MarginalAt, SumsAtMostOne, TablesOk, DistributionTable, Quotient, FamiliesCovered, NonNegative,
      WellFormed, Probable, RowsAtMostOne, Ordered, AreMarginals, SaysSomething, IsDistribution, AllFit, InitialTables;
    var tree := CreateJoinTree(bn, net, rank);
    ghost var joint := DistributionTable(bn, net);
    start := tree.start;
    dist, defined := Probability(net, tree.tables[..], idx, joint);
    if NothingCapped(bn, net, start, idx) && defined && idx in bn.evidence {
      AllHaveValues(bn, net, rank);
      EvidenceIsCertain(bn, net, idx, dist);
    }
  }
}
