/** One node with two values: what the theorems say of the smallest network. */
module InferenceExample {
  import opened Tables
  import opened Counters
  import opened Schedule
  import opened Messages
  import opened Joint
  import opened CliqueTables
  import opened InitialJoint
  import opened LeafRemoval
  import opened ConditionalSums
  import opened Inference

  function Coin(heads: real, evidence: map<nat, nat>): Network {
    Network([[]], [2], [map[map[] := [1.0 - heads, heads]]], evidence)
  }

  const ONE_CLIQUE := Net([{}], [{0}], [2], [0], [0])

  lemma CoinIsProper(heads: real, evidence: map<nat, nat>)
    requires 0.0 <= heads <= 1.0 && evidence.Keys <= {0}
    ensures ProperNetwork(Coin(heads, evidence), [0]) && RowsAtMostOne(Coin(heads, evidence))
  {
    var bn := Coin(heads, evidence);
    var row := bn.cpt[0][map[]];
    assert RowSum(row, 2) == RowSum(row, 1) + row[1] && RowSum(row, 1) == RowSum(row, 0) + row[0];
    assert ParentsOf(bn, 0) == [] && Elements([]) == {};
    forall ps | Over(ps, {}, bn.radix) ensures ps == map[] { assert ps.Keys == {}; }
  }

  /** A node with one value is a network, too. */
  lemma SureThing()
    ensures WellFormed(Network([[]], [1], [map[map[] := [1.0]]], map[]))
  {}

  lemma OneCliqueIsJoinTree(heads: real, evidence: map<nat, nat>)
    ensures JoinTreeOf(Coin(heads, evidence), ONE_CLIQUE)
  {
    OneCliqueIsLinked();
    OneCliqueCovers();
    assert Covered(Coin(heads, evidence), ONE_CLIQUE, 0) by {
      assert HoldsFamily(Coin(heads, evidence), ONE_CLIQUE.cliques[0], 0);
    }
    hide PathCondition, CoversVariables, HoldsFamily;
  }

  lemma OneCliqueIsLinked()
    ensures PathCondition(ONE_CLIQUE)
  {
    var net := ONE_CLIQUE;
    forall i: nat, j: nat, v: nat | v in Clique(net, i) && v in Clique(net, j) ensures Linked(net, i, j, v) {
      assert WalkWithin(net, [0], v);
    }
  }

  lemma OneCliqueCovers()
    ensures CoversVariables(ONE_CLIQUE)
  {
    var net := ONE_CLIQUE;
    assert AllNodes(net) == {0} && AllVariables(net) == {0};
    assert Clique(net, 0) == {0};
    assert Variables(net, AllNodes(net)) == {0};
  }

  lemma CoinChain(heads: real, evidence: map<nat, nat>, i: nat)
    requires WellFormed(Coin(heads, evidence)) && Probable(Coin(heads, evidence)) && i < 2
    ensures var bn, x := Coin(heads, evidence), Single(0, i);
      ValuesForAll(bn, x) && Chain(bn, x, |bn.radix|) == if i == 0 then 1.0 - heads else heads
  {
    hide Probable, WellFormed;
    var bn, x := Coin(heads, evidence), Single(0, i);
    assert ValuesForAll(bn, x);
    assert FamilyValues(bn, x, 0) == map[];
    assert Chain(bn, x, 0) == 1.0;
    assert Chain(bn, x, 1) == Chain(bn, x, 0) * EntryFor(bn, x, 0);
  }

  lemma CoinEntry(heads: real, evidence: map<nat, nat>, i: nat)
    requires 0.0 <= heads <= 1.0 && evidence.Keys <= {0} && i < 2
    ensures var joint := DistributionTable(Coin(heads, evidence), ONE_CLIQUE);
      && Single(0, i) in joint
      && joint[Single(0, i)] == if 0 in evidence && evidence[0] != i then 0.0 else if i == 0 then 1.0 - heads else heads
  {
    var bn, x := Coin(heads, evidence), Single(0, i);
    CoinIsProper(heads, evidence);
    CoinValues();
    hide Probable, WellFormed, Ordered, RowsAtMostOne, Chain, Distribution, DistributionTable, ValuesForAll, HasValues;
    CoinChain(heads, evidence, i);
    EntryOfTable(bn, ONE_CLIQUE, x);
    DistributionIs(bn, x);
    assert forall v :: v in evidence ==> v == 0;
    assert x[0] == i;
  }

  lemma CoinValues()
    ensures HasValues(AllVariables(ONE_CLIQUE), ONE_CLIQUE.radix)
  {}

  /** The table of the coin has two entries. */
  lemma CoinTotal(heads: real, evidence: map<nat, nat>)
    requires 0.0 <= heads <= 1.0 && evidence.Keys <= {0}
    ensures var joint := DistributionTable(Coin(heads, evidence), ONE_CLIQUE);
      && Single(0, 0) in joint && Single(0, 1) in joint
      && Sum(joint, joint.Keys) == joint[Single(0, 0)] + joint[Single(0, 1)]
      && Sum(joint, WithValue(joint, 0, 0)) == joint[Single(0, 0)] && Sum(joint, WithValue(joint, 0, 1)) == joint[Single(0, 1)]
  {
    var bn := Coin(heads, evidence);
    var joint := DistributionTable(bn, ONE_CLIQUE);
    CoinEntry(heads, evidence, 0);
    CoinEntry(heads, evidence, 1);
    var a, b := Single(0, 0), Single(0, 1);
    assert a[0] != b[0];
    forall x ensures x in joint <==> x == a || x == b {
      CoinValues();
      EntryOfTable(bn, ONE_CLIQUE, x);
      CoinKeys(bn, x);
    }
    hide DistributionTable;
    assert joint.Keys == {a} + {b} && WithValue(joint, 0, 0) == {} + {a} && WithValue(joint, 0, 1) == {} + {b};
    SumEmpty(joint);
    hide Sum;
    SumAdd(joint, {}, a);
    SumAdd(joint, {}, b);
    SumAdd(joint, {a}, b);
    assert {} + {a} == {a};
  }

  lemma CoinKeys(bn: Network, x: Assignment)
    requires |bn.radix| == 1 && bn.radix[0] == 2
    ensures (ValuesForAll(bn, x) && forall v :: v in x ==> v < |bn.radix|) <==> x == Single(0, 0) || x == Single(0, 1)
  {
    if ValuesForAll(bn, x) && forall v :: v in x ==> v < |bn.radix| {
      assert 0 in x && x.Keys == {0};
      assert x == Single(0, x[0]);
    }
  }

  /** What is said for tails and for heads once the evidence is known. */
  lemma CoinSums(heads: real, evidence: map<nat, nat>, tails': real, heads': real)
    requires 0.0 <= heads <= 1.0 && evidence.Keys <= {0}
    requires tails' == if 0 in evidence && evidence[0] != 0 then 0.0 else 1.0 - heads
    requires heads' == if 0 in evidence && evidence[0] != 1 then 0.0 else heads
    ensures var joint := DistributionTable(Coin(heads, evidence), ONE_CLIQUE);
      && Sum(joint, joint.Keys) == tails' + heads'
      && Sum(joint, WithValue(joint, 0, 0)) == tails' && Sum(joint, WithValue(joint, 0, 1)) == heads'
  {
    hide Sum, DistributionTable, Coin, WithValue;
    CoinTotal(heads, evidence);
    CoinEntry(heads, evidence, 0);
    CoinEntry(heads, evidence, 1);
  }

  lemma TwoShares(dist: seq<real>, defined: bool, joint: Table, tails: real, heads: real)
    requires |dist| == 2 && IsDistribution(dist, defined, joint, 0) && Sum(joint, joint.Keys) == tails + heads
    requires Sum(joint, WithValue(joint, 0, 0)) == tails && Sum(joint, WithValue(joint, 0, 1)) == heads
    ensures defined <==> tails + heads != 0.0
    ensures defined ==> dist[0] * (tails + heads) == tails && dist[1] * (tails + heads) == heads
  {
    hide Sum, WithValue;
    Shared(dist, Sum(joint, joint.Keys), tails + heads);
  }

  lemma Shared(dist: seq<real>, all: real, total: real)
    requires |dist| == 2 && all == total
    ensures dist[0] * all == dist[0] * total && dist[1] * all == dist[1] * total
  {}

  /** Without evidence the answer for the coin is its own probabilities. */
  lemma CoinWithoutEvidence(heads: real, dist: seq<real>, defined: bool)
    requires 0.0 <= heads <= 1.0 && |dist| == 2
    requires IsDistribution(dist, defined, DistributionTable(Coin(heads, map[]), ONE_CLIQUE), 0)
    ensures defined && dist == [1.0 - heads, heads]
  {
    hide IsDistribution, Sum, DistributionTable, Coin, WithValue;
    CoinSums(heads, map[], 1.0 - heads, heads);
    TwoShares(dist, defined, DistributionTable(Coin(heads, map[]), ONE_CLIQUE), 1.0 - heads, heads);
    var one := (1.0 - heads) + heads;
    assert one == 1.0 && defined;
    OnlyShare(dist[0], one, 1.0 - heads);
    OnlyShare(dist[1], one, heads);
    assert dist == [dist[0], dist[1]];
  }

  /** A coin that is known to show heads is certain to do so, and is no evidence if it cannot. */
  lemma CoinThatShowsHeads(heads: real, dist: seq<real>, defined: bool)
    requires 0.0 <= heads <= 1.0 && |dist| == 2
    requires IsDistribution(dist, defined, DistributionTable(Coin(heads, map[0 := 1]), ONE_CLIQUE), 0)
    ensures defined <==> heads > 0.0
    ensures defined ==> dist == [0.0, 1.0]
  {
    hide IsDistribution, Sum, DistributionTable, Coin, WithValue;
    CoinSums(heads, map[0 := 1], 0.0, heads);
    TwoShares(dist, defined, DistributionTable(Coin(heads, map[0 := 1]), ONE_CLIQUE), 0.0, heads);
    if defined {
      OnlyShare(dist[0], heads, 0.0);
      OnlyShare(dist[1], heads, 1.0);
    }
  }
}
