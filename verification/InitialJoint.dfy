/** What the initial clique tables multiply to: the joint distribution, cut down to the evidence. */
module InitialJoint {
  import opened Tables
  import opened Counters
  import opened Schedule
  import opened Messages
  import opened Joint
  import opened CliqueTables

  /** x has the values of the evidence. */
  ghost predicate Agrees(evidence: map<nat, nat>, x: Assignment) {
    forall v :: v in evidence ==> ValueOf(x, v) == evidence[v]
  }

  function Indicator(b: bool): real { if b then 1.0 else 0.0 }

  /** What each node's conditional table says of x. */
  ghost function Conditionals(bn: Network, x: Assignment): (fs: seq<real>)
    ensures |fs| == |bn.radix| && forall n :: 0 <= n < |fs| ==> fs[n] == Conditional(bn, n, x)
  {
    seq(|bn.radix|, n requires 0 <= n < |bn.radix| => Conditional(bn, n, x))
  }

  /** The probability the network gives x, with x ruled out unless it agrees with the evidence. */
  ghost function Distribution(bn: Network, x: Assignment): real {
    Times(Indicator(Agrees(bn.evidence, x)), Prod(Conditionals(bn, x)))
  }

  // ---- what the distribution says, in terms of the conditional tables alone -----------------------

  /** x gives every node one of its values. */
  ghost predicate ValuesForAll(bn: Network, x: Assignment) {
    forall n: nat :: n < |bn.radix| ==> n in x && x[n] < bn.radix[n]
  }

  /** The values that x gives to the parents of n. */
  function FamilyValues(bn: Network, x: Assignment, n: nat): Assignment
    requires n < |bn.parents| && forall k :: 0 <= k < |bn.parents[n]| ==> bn.parents[n][k] in x
  {
    map p | p in bn.parents[n] :: x[p]
  }

  lemma ParentsHaveOne(bn: Network, x: Assignment, n: nat)
    requires WellFormed(bn) && ValuesForAll(bn, x) && n < |bn.radix|
    ensures forall k :: 0 <= k < |bn.parents[n]| ==> bn.parents[n][k] in x
    ensures FamilyValues(bn, x, n) == Restrict(x, Elements(ParentsOf(bn, n)))
    ensures Over(FamilyValues(bn, x, n), Elements(ParentsOf(bn, n)), bn.radix)
  {
    assert ParentsOf(bn, n) == bn.parents[n];
  }

  /** The entry of n's conditional table for its value and those of its parents. */
  ghost function EntryFor(bn: Network, x: Assignment, n: nat): real
    requires WellFormed(bn) && Probable(bn) && ValuesForAll(bn, x) && n < |bn.radix|
  {
    ParentsHaveOne(bn, x, n);
    bn.cpt[n][FamilyValues(bn, x, n)][x[n]]
  }

  /** The product of the entries of the first k nodes. */
  ghost function Chain(bn: Network, x: Assignment, k: nat): real
    requires WellFormed(bn) && Probable(bn) && ValuesForAll(bn, x) && k <= |bn.radix|
  {
    if k == 0 then 1.0 else Chain(bn, x, k - 1) * EntryFor(bn, x, k - 1)
  }

  lemma ConditionalIsEntry(bn: Network, x: Assignment, n: nat)
    requires WellFormed(bn) && Probable(bn) && ValuesForAll(bn, x) && n < |bn.radix|
    ensures Conditional(bn, n, x) == EntryFor(bn, x, n)
  {
    ParentsHaveOne(bn, x, n);
    hide Restrict, Over, FamilyValues;
  }

  lemma {:induction false} ProductIsChain(bn: Network, x: Assignment, k: nat)
    requires WellFormed(bn) && Probable(bn) && ValuesForAll(bn, x) && k <= |bn.radix|
    ensures Prod(Conditionals(bn, x)[..k]) == Chain(bn, x, k)
    decreases k
  {
    hide WellFormed, Probable, ValuesForAll, Conditional, EntryFor;
    var fs := Conditionals(bn, x);
    if k == 0 {
      assert fs[..0] == [];
    } else {
      ProductIsChain(bn, x, k - 1);
      ConditionalIsEntry(bn, x, k - 1);
      assert fs[..k] == fs[..k - 1] + [fs[k - 1]];
      ProdSnoc(fs[..k - 1], fs[k - 1]);
    }
  }

  /**
   * The distribution of an assignment that contradicts the evidence is zero; that of every other is
   * the product of one entry of each conditional table.
   */
  lemma DistributionIs(bn: Network, x: Assignment)
    requires WellFormed(bn) && Probable(bn) && ValuesForAll(bn, x) && forall v :: v in bn.evidence ==> v < |bn.radix|
    ensures (exists v :: v in bn.evidence && x[v] != bn.evidence[v]) ==> Distribution(bn, x) == 0.0
    ensures (forall v :: v in bn.evidence ==> x[v] == bn.evidence[v]) ==> Distribution(bn, x) == Chain(bn, x, |bn.radix|)
  {
    hide WellFormed, Probable, Conditional, EntryFor, Chain;
    var fs := Conditionals(bn, x);
    ProductIsChain(bn, x, |bn.radix|);
    assert fs[..|bn.radix|] == fs;
    hide Prod;
    TimesOne(Prod(fs));
    TimesZero(Prod(fs));
  }

  /** Every node lies in some clique together with its parents. */
  ghost predicate FamiliesCovered(bn: Network, net: Net) {
    forall n :: 0 <= n < |bn.radix| ==> Covered(bn, net, n)
  }

  ghost predicate Covered(bn: Network, net: Net, n: nat) {
    exists i :: 0 <= i < |net.cliques| && HoldsFamily(bn, net.cliques[i], n)
  }

  // ---- the nodes of one clique -------------------------------------------------------------------

  /** The conditionals of the nodes assigned to the first k cliques, and to clique k if in order. */
  ghost function Collected(bn: Network, assignedTo: seq<nat>, k: nat, order: seq<nat>, x: Assignment): (fs: seq<real>)
    ensures |fs| == |assignedTo|
    ensures forall n :: 0 <= n < |fs| ==>
      fs[n] == if assignedTo[n] < k || (assignedTo[n] == k && n in order) then Conditional(bn, n, x) else 1.0
  {
    seq(|assignedTo|, n requires 0 <= n < |assignedTo| =>
      if assignedTo[n] < k || (assignedTo[n] == k && n in order) then Conditional(bn, n, x) else 1.0)
  }

  lemma {:induction false} CollectOrder(bn: Network, assignedTo: seq<nat>, k: nat, order: seq<nat>, x: Assignment)
    requires Distinct(order)
    ensures Prod(Collected(bn, assignedTo, k, order, x))
         == Times(Prod(Collected(bn, assignedTo, k, [], x)), Prod(NodeFactors(bn, assignedTo, k, order, x)))
    decreases |order|
  {
    hide Times, Conditional, NodeFactors;
    var none := Prod(Collected(bn, assignedTo, k, [], x));
    if order == [] {
      NoNodeFactors(bn, assignedTo, k, x);
      TimesOne(none);
    } else {
      var init, n := order[..|order| - 1], order[|order| - 1];
      assert order == init + [n];
      CollectOrder(bn, assignedTo, k, init, x);
      NodeFactorsSnoc(bn, assignedTo, k, init, n, x);
      var c := if n < |assignedTo| && assignedTo[n] == k then Conditional(bn, n, x) else 1.0;
      ProdSnoc(NodeFactors(bn, assignedTo, k, init, x), c);
      TimesAssociates(none, Prod(NodeFactors(bn, assignedTo, k, init, x)), c);
      CollectOne(bn, assignedTo, k, init, n, x);
      TimesOne(Prod(Collected(bn, assignedTo, k, init, x)));
    }
  }

  lemma NoNodeFactors(bn: Network, assignedTo: seq<nat>, k: nat, x: Assignment)
    ensures NodeFactors(bn, assignedTo, k, [], x) == [] && Prod([]) == 1.0
  {}

  lemma CollectOne(bn: Network, assignedTo: seq<nat>, k: nat, init: seq<nat>, n: nat, x: Assignment)
    requires n !in init
    ensures var c := if n < |assignedTo| && assignedTo[n] == k then Conditional(bn, n, x) else 1.0;
      Prod(Collected(bn, assignedTo, k, init + [n], x)) == Times(Prod(Collected(bn, assignedTo, k, init, x)), c)
  {
    hide Times, Conditional, Prod;
    var fs, gs := Collected(bn, assignedTo, k, init, x), Collected(bn, assignedTo, k, init + [n], x);
    if n < |assignedTo| && assignedTo[n] == k {
      var rest := ProdUpdate(fs, n, Conditional(bn, n, x));
      assert gs == fs[n := Conditional(bn, n, x)];
      TimesOne(rest);
      TimesSwaps(rest, Conditional(bn, n, x));
    } else {
      assert gs == fs;
      TimesOne(Prod(fs));
    }
  }

  /** Restricting x to a clique changes nothing for the nodes assigned to it. */
  lemma ConditionalInClique(bn: Network, clique: set<nat>, n: nat, x: Assignment)
    requires HoldsFamily(bn, clique, n)
    ensures Conditional(bn, n, Restrict(x, clique)) == Conditional(bn, n, x)
  {
    RestrictTwice(x, clique, Elements(ParentsOf(bn, n)));
  }

  lemma {:induction false} NodeFactorsInClique(bn: Network, net: Net, assignedTo: seq<nat>, k: nat, order: seq<nat>, x: Assignment)
    requires k < |net.cliques|
    requires forall n :: 0 <= n < |assignedTo| && assignedTo[n] == k ==> HoldsFamily(bn, net.cliques[k], n)
    ensures NodeFactors(bn, assignedTo, k, order, Restrict(x, net.cliques[k])) == NodeFactors(bn, assignedTo, k, order, x)
  {
    hide HoldsFamily, Conditional, Restrict;
    if order != [] {
      NodeFactorsInClique(bn, net, assignedTo, k, order[1..], x);
      if order[0] < |assignedTo| && assignedTo[order[0]] == k {
        ConditionalInClique(bn, net.cliques[k], order[0], x);
      }
    }
  }

  // ---- all cliques -------------------------------------------------------------------------------

  /** x has the values of the evidence on the nodes of the first k cliques. */
  ghost predicate AgreesBefore(bn: Network, net: Net, x: Assignment, k: nat)
    requires k <= |net.cliques|
  {
    forall i, v :: 0 <= i < k && v in net.cliques[i] && v in bn.evidence ==> ValueOf(x, v) == bn.evidence[v]
  }

  lemma EvidenceNext(bn: Network, net: Net, x: Assignment, k: nat)
    requires k < |net.cliques| && Full(net, x) && HasValues(net.cliques[k], net.radix)
    ensures Indicator(AgreesBefore(bn, net, x, k + 1))
      == Times(Indicator(AgreesBefore(bn, net, x, k)),
               EvidenceFactor(bn.evidence, Ascending(net.cliques[k]), Restrict(x, net.cliques[k])))
  {
    var order, a := Ascending(net.cliques[k]), Restrict(x, net.cliques[k]);
    EvidenceInClique(bn.evidence, net.cliques[k], x, order, a);
    TimesOne(Indicator(AgreesBefore(bn, net, x, k)));
    TimesZero(Indicator(AgreesBefore(bn, net, x, k)));
  }

  lemma EvidenceInClique(evidence: map<nat, nat>, clique: set<nat>, x: Assignment, order: seq<nat>, a: Assignment)
    requires order == Ascending(clique) && clique <= x.Keys && a == Restrict(x, clique)
    ensures EvidenceFactor(evidence, order, a)
      == Indicator(forall v :: v in clique && v in evidence ==> ValueOf(x, v) == evidence[v])
  {
    AscendingElements(clique);
    hide Ascending;
    forall v | v in clique ensures exists j :: 0 <= j < |order| && order[j] == v { assert v in Elements(order); }
    forall j | 0 <= j < |order| ensures ValueOf(a, order[j]) == ValueOf(x, order[j]) {}
  }

  lemma Interchange(a: real, b: real, c: real, d: real)
    ensures Times(Times(a, b), Times(c, d)) == Times(Times(a, c), Times(b, d))
  {
    hide Times;
    TimesAssociates(a, b, Times(c, d));
    TimesPermutes(b, c, d);
    TimesAssociates(a, c, Times(b, d));
  }

  /** The first k tables at x: the evidence so far and the conditionals of the nodes assigned so far. */
  lemma {:induction false} FirstTables(bn: Network, net: Net, tables: seq<Table>, assignedTo: seq<nat>, x: Assignment, k: nat)
    requires Proper(net) && net.radix == bn.radix && FirstFilled(bn, net, tables, assignedTo, |net.cliques|)
    requires Full(net, x) && k <= |net.cliques|
    ensures Prod(Factors(net, tables, x)[..k])
         == Times(Indicator(AgreesBefore(bn, net, x, k)), Prod(Collected(bn, assignedTo, k, [], x)))
  {
    hide Times, Prod, NodeFactors, EvidenceFactor, Full, FirstFilled, TableFilled, Proper, Ascending, Indicator, AgreesBefore,
      HasValues, Factors, Collected, Restrict;
    if k == 0 {
      NoTables(bn, net, tables, assignedTo, x);
    } else {
      FirstTables(bn, net, tables, assignedTo, x, k - 1);
      NextTable(bn, net, tables, assignedTo, x, k - 1);
    }
  }

  lemma NextTable(bn: Network, net: Net, tables: seq<Table>, assignedTo: seq<nat>, x: Assignment, i: nat)
    requires Proper(net) && net.radix == bn.radix && FirstFilled(bn, net, tables, assignedTo, |net.cliques|)
    requires Full(net, x) && i < |net.cliques|
    requires Prod(Factors(net, tables, x)[..i])
          == Times(Indicator(AgreesBefore(bn, net, x, i)), Prod(Collected(bn, assignedTo, i, [], x)))
    ensures Prod(Factors(net, tables, x)[..i + 1])
         == Times(Indicator(AgreesBefore(bn, net, x, i + 1)), Prod(Collected(bn, assignedTo, i + 1, [], x)))
  {
    hide Times, Prod, NodeFactors, EvidenceFactor, Full, FirstFilled, TableFilled, Proper, Ascending, Indicator, AgreesBefore,
      HasValues, Factors, Factor, Collected, Restrict;
    TableThere(bn, net, tables, assignedTo, i);
    var fs, order := Factors(net, tables, x), Ascending(net.cliques[i]);
    var e, q := EvidenceFactor(bn.evidence, order, Restrict(x, net.cliques[i])), Prod(NodeFactors(bn, assignedTo, i, order, x));
    assert fs[..i + 1] == fs[..i] + [fs[i]];
    ProdSnoc(fs[..i], fs[i]);
    TableAt(bn, net, tables, assignedTo, x, i);
    EvidenceNext(bn, net, x, i);
    ConditionalsNext(bn, net, tables, assignedTo, x, i);
    OneMoreTable(Prod(fs[..i + 1]), Prod(fs[..i]), fs[i], Indicator(AgreesBefore(bn, net, x, i + 1)),
                 Indicator(AgreesBefore(bn, net, x, i)), e, Prod(Collected(bn, assignedTo, i + 1, [], x)),
                 Prod(Collected(bn, assignedTo, i, [], x)), q);
  }

  lemma TableThere(bn: Network, net: Net, tables: seq<Table>, assignedTo: seq<nat>, i: nat)
    requires Proper(net) && FirstFilled(bn, net, tables, assignedTo, |net.cliques|) && i < |net.cliques|
    ensures i < |tables| && HasValues(net.cliques[i], net.radix)
  {
    hide HasValues, TableFilled, AssignedFirst, Tree;
  }

  lemma ConditionalsNext(bn: Network, net: Net, tables: seq<Table>, assignedTo: seq<nat>, x: Assignment, i: nat)
    requires FirstFilled(bn, net, tables, assignedTo, |net.cliques|) && i < |net.cliques|
    requires net.radix == bn.radix && Proper(net)
    ensures Prod(Collected(bn, assignedTo, i + 1, [], x))
         == Times(Prod(Collected(bn, assignedTo, i, [], x)), Prod(NodeFactors(bn, assignedTo, i, Ascending(net.cliques[i]), x)))
  {
    assert HasValues(net.cliques[i], net.radix);
    hide Times, Prod, NodeFactors, FirstFilled, Proper, Ascending, HasValues, Collected;
    var order := Ascending(net.cliques[i]);
    DistinctAscending(net.cliques[i]);
    CollectOrder(bn, assignedTo, i, order, x);
    CollectedNext(bn, net, tables, assignedTo, x, i);
  }

  lemma DistinctAscending(clique: set<nat>)
    ensures Distinct(Ascending(clique))
  {
    AscendingElements(clique);
  }

  lemma OneMoreTable(after: real, before: real, f: real, v': real, v: real, e: real, c': real, c: real, q: real)
    requires after == Times(before, f) && f == Times(e, q) && v' == Times(v, e) && c' == Times(c, q)
    requires before == Times(v, c)
    ensures after == Times(v', c')
  {
    Interchange(v, c, e, q);
  }

  lemma NoTables(bn: Network, net: Net, tables: seq<Table>, assignedTo: seq<nat>, x: Assignment)
    ensures Prod(Factors(net, tables, x)[..0])
         == Times(Indicator(AgreesBefore(bn, net, x, 0)), Prod(Collected(bn, assignedTo, 0, [], x)))
  {
    ProdOfOnes(Collected(bn, assignedTo, 0, [], x));
    TimesOne(1.0);
  }

  lemma TableAt(bn: Network, net: Net, tables: seq<Table>, assignedTo: seq<nat>, x: Assignment, i: nat)
    requires Proper(net) && net.radix == bn.radix && FirstFilled(bn, net, tables, assignedTo, |net.cliques|)
    requires Full(net, x) && i < |net.cliques|
    ensures Factors(net, tables, x)[i]
         == Times(EvidenceFactor(bn.evidence, Ascending(net.cliques[i]), Restrict(x, net.cliques[i])),
                  Prod(NodeFactors(bn, assignedTo, i, Ascending(net.cliques[i]), x)))
  {
    assert HasValues(net.cliques[i], net.radix) && TableFilled(bn, net, tables[i], assignedTo, i);
    RestrictOver(x, AllVariables(net), net.cliques[i], net.radix);
    assert Restrict(x, net.cliques[i]) in tables[i];
    forall n | 0 <= n < |assignedTo| && assignedTo[n] == i ensures HoldsFamily(bn, net.cliques[i], n) {
      assert AssignedFirst(bn, net, n, assignedTo[n], |net.cliques|);
    }
    hide Times, Prod, NodeFactors, EvidenceFactor, HoldsFamily, Ascending, Restrict;
    NodeFactorsInClique(bn, net, assignedTo, i, Ascending(net.cliques[i]), x);
  }

  lemma CollectedNext(bn: Network, net: Net, tables: seq<Table>, assignedTo: seq<nat>, x: Assignment, i: nat)
    requires FirstFilled(bn, net, tables, assignedTo, |net.cliques|) && i < |net.cliques|
    ensures Collected(bn, assignedTo, i, Ascending(net.cliques[i]), x) == Collected(bn, assignedTo, i + 1, [], x)
  {
    var order := Ascending(net.cliques[i]);
    AscendingElements(net.cliques[i]);
    hide Conditional, TableFilled, Ascending;
    forall n | 0 <= n < |assignedTo| && assignedTo[n] == i ensures n in order {
      assert AssignedFirst(bn, net, n, assignedTo[n], |net.cliques|);
      assert n in Elements(order);
    }
  }

  /** The tables after initialisation multiply to the network's distribution at every full assignment. */
  lemma CliquesMultiplyToDistribution(bn: Network, net: Net, tables: seq<Table>, assignedTo: seq<nat>, x: Assignment)
    requires Proper(net) && net.radix == bn.radix && FirstFilled(bn, net, tables, assignedTo, |net.cliques|)
    requires FamiliesCovered(bn, net) && Full(net, x)
    requires forall v :: v in bn.evidence ==> v < |bn.radix|
    ensures Phi(net, tables, x) == Distribution(bn, x)
  {
    var n := |net.cliques|;
    FirstTables(bn, net, tables, assignedTo, x, n);
    assert Factors(net, tables, x)[..n] == Factors(net, tables, x);
    hide Times, Prod, Conditional, TableFilled, HoldsFamily;
    AllCovered(bn, net, tables, assignedTo);
    assert Collected(bn, assignedTo, n, [], x) == Conditionals(bn, x);
    assert AgreesBefore(bn, net, x, n) == Agrees(bn.evidence, x) by { EvidenceCovered(bn, net, x); }
  }

  /** With every family in some clique, every node is assigned, to the first such clique. */
  lemma AllCovered(bn: Network, net: Net, tables: seq<Table>, assignedTo: seq<nat>)
    requires FirstFilled(bn, net, tables, assignedTo, |net.cliques|) && FamiliesCovered(bn, net)
    ensures forall n :: 0 <= n < |assignedTo| ==>
      && assignedTo[n] < |net.cliques| && HoldsFamily(bn, net.cliques[assignedTo[n]], n)
      && forall i :: 0 <= i < assignedTo[n] ==> !HoldsFamily(bn, net.cliques[i], n)
  {
    hide HoldsFamily, TableFilled;
    forall n | 0 <= n < |assignedTo|
      ensures assignedTo[n] < |net.cliques| && HoldsFamily(bn, net.cliques[assignedTo[n]], n)
        && forall i :: 0 <= i < assignedTo[n] ==> !HoldsFamily(bn, net.cliques[i], n)
    {
      assert AssignedFirst(bn, net, n, assignedTo[n], |net.cliques|) && Covered(bn, net, n);
      var i :| 0 <= i < |net.cliques| && HoldsFamily(bn, net.cliques[i], n);
    }
  }

  lemma EvidenceCovered(bn: Network, net: Net, x: Assignment)
    requires FamiliesCovered(bn, net) && forall v :: v in bn.evidence ==> v < |bn.radix|
    ensures AgreesBefore(bn, net, x, |net.cliques|) == Agrees(bn.evidence, x)
  {
    hide FamilyIn;
    if AgreesBefore(bn, net, x, |net.cliques|) {
      forall v | v in bn.evidence ensures ValueOf(x, v) == bn.evidence[v] {
        assert Covered(bn, net, v);
        var i :| 0 <= i < |net.cliques| && HoldsFamily(bn, net.cliques[i], v);
        assert v in net.cliques[i];
      }
    }
  }
}
