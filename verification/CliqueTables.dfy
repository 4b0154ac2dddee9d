/** The tables the join tree starts from: every node's conditional table goes into one clique. */
module CliqueTables {
  import opened Tables
  import opened Counters
  import opened Schedule
  import opened Messages
  import opened Joint

  /**
   * A Bayesian network: the parents of each node, the number of its values, the row of its
   * conditional table for each assignment of the parents, and the values of the evidence nodes.
   */
  datatype Network = Network(parents: seq<seq<nat>>, radix: seq<nat>, cpt: seq<map<Assignment, seq<real>>>,
                             evidence: map<nat, nat>)

  /** The network is well formed: parents are distinct nodes, every node has a value. */
  ghost predicate WellFormed(bn: Network) {
    && |bn.parents| == |bn.radix| == |bn.cpt|
    && (forall n :: 0 <= n < |bn.radix| ==> bn.radix[n] >= 1 && Distinct(bn.parents[n]))
    && (forall n, k :: 0 <= n < |bn.parents| && 0 <= k < |bn.parents[n]| ==> bn.parents[n][k] < |bn.radix|)
  }

  // ---- node_cpt_filled_out -----------------------------------------------------------------------

  function RowSum(row: seq<real>, k: nat): real
    requires k <= |row|
  {
    if k == 0 then 0.0 else RowSum(row, k - 1) + row[k - 1]
  }

  function Abs(x: real): real { if x < 0.0 then -x else x }

  predicate HasEntry(bn: Network, n: nat, value: nat, ps: Assignment)
    requires n < |bn.cpt|
  {
    ps in bn.cpt[n] && value < |bn.cpt[n][ps]| && bn.cpt[n][ps][value] >= 0.0
  }

  /** The row of ps has an entry for every value, and they sum to one but for a rounding error. */
  ghost predicate RowFilledOut(bn: Network, n: nat, ps: Assignment)
    requires n < |bn.cpt| == |bn.radix|
  {
    && ps in bn.cpt[n] && bn.radix[n] <= |bn.cpt[n][ps]|
    && (forall value :: 0 <= value < bn.radix[n] ==> bn.cpt[n][ps][value] >= 0.0)
    && Abs(RowSum(bn.cpt[n][ps], bn.radix[n]) - 1.0) <= 0.00001
  }

  /** node_cpt_filled_out: every row is filled out, whatever the values of the parents. */
  method CptFilledOut(bn: Network, n: nat) returns (filled: bool)
    requires WellFormed(bn) && n < |bn.radix|
    ensures filled <==>
      forall ps :: Over(ps, Elements(bn.parents[n]), bn.radix) ==>
        && ps in bn.cpt[n] && bn.radix[n] <= |bn.cpt[n][ps]|
        && (forall value :: 0 <= value < bn.radix[n] ==> 0.0 <= bn.cpt[n][ps][value])
        && 0.99999 <= RowSum(bn.cpt[n][ps], bn.radix[n]) <= 1.00001
  {
    hide Counts, Rank, Size, RowFilledOut;
    var order := bn.parents[n];
    ParentsHaveValues(bn, n);
    var a := First(order, bn.radix);
    var more := true;
    while more
      invariant Counts(order, bn.radix, a)
      invariant more ==> forall b :: Counts(order, bn.radix, b) && Rank(order, bn.radix, b) < Rank(order, bn.radix, a) ==>
        RowFilledOut(bn, n, b)
      invariant !more ==> forall b :: Counts(order, bn.radix, b) ==> RowFilledOut(bn, n, b)
      decreases more, Size(order, bn.radix) - Rank(order, bn.radix, a)
    {
      var ok := CheckRow(bn, n, a);
      if !ok {
        CountsIsOver(order, bn.radix, a);
        RowsFilledOut(bn, n);
        return false;
      }
      RowsUpTo(bn, n, order, a);
      more, a := Next(order, bn.radix, a);
    }
    forall ps | Over(ps, Elements(order), bn.radix) ensures RowFilledOut(bn, n, ps) {
      CountsIsOver(order, bn.radix, ps);
    }
    RowsFilledOut(bn, n);
    filled := true;
  }

  lemma RowsFilledOut(bn: Network, n: nat)
    requires WellFormed(bn) && n < |bn.radix|
    ensures forall ps :: RowFilledOut(bn, n, ps) <==>
      && ps in bn.cpt[n] && bn.radix[n] <= |bn.cpt[n][ps]|
      && (forall value :: 0 <= value < bn.radix[n] ==> 0.0 <= bn.cpt[n][ps][value])
      && 0.99999 <= RowSum(bn.cpt[n][ps], bn.radix[n]) <= 1.00001
  {}

  lemma CountsIsOver(order: seq<nat>, radix: seq<nat>, a: Assignment)
    requires Distinct(order)
    ensures Counts(order, radix, a) <==> Over(a, Elements(order), radix)
  {}

  lemma ParentsHaveValues(bn: Network, n: nat)
    requires WellFormed(bn) && n < |bn.radix|
    ensures HasValues(Elements(bn.parents[n]), bn.radix) && Distinct(bn.parents[n])
  {}

  /** The assignments up to a are a and those before it. */
  lemma RowsUpTo(bn: Network, n: nat, order: seq<nat>, a: Assignment)
    requires n < |bn.cpt| == |bn.radix| && Counts(order, bn.radix, a) && RowFilledOut(bn, n, a)
    requires forall b :: Counts(order, bn.radix, b) && Rank(order, bn.radix, b) < Rank(order, bn.radix, a) ==>
        RowFilledOut(bn, n, b)
    ensures forall b :: Counts(order, bn.radix, b) && Rank(order, bn.radix, b) < Rank(order, bn.radix, a) + 1 ==>
        RowFilledOut(bn, n, b)
    ensures forall b :: Counts(order, bn.radix, b) ==> Rank(order, bn.radix, b) < Size(order, bn.radix)
  {
    hide Counts, Rank, Size, RowFilledOut;
    forall b | Counts(order, bn.radix, b)
      ensures Rank(order, bn.radix, b) < Size(order, bn.radix)
      ensures Rank(order, bn.radix, b) == Rank(order, bn.radix, a) ==> b == a
    {
      CountedVariables(order, bn.radix, b);
      if Rank(order, bn.radix, b) == Rank(order, bn.radix, a) { Agree(order, bn.radix, b, a); }
    }
  }

  method CheckRow(bn: Network, n: nat, a: Assignment) returns (ok: bool)
    requires n < |bn.cpt| == |bn.radix| && bn.radix[n] >= 1
    ensures ok == RowFilledOut(bn, n, a)
  {
    var sum := 0.0;
    var value := 0;
    while value < bn.radix[n]
      invariant 0 <= value <= bn.radix[n]
      invariant value > 0 ==> a in bn.cpt[n] && value <= |bn.cpt[n][a]| && sum == RowSum(bn.cpt[n][a], value)
      invariant value == 0 ==> sum == 0.0
      invariant forall v :: 0 <= v < value ==> bn.cpt[n][a][v] >= 0.0
    {
      if !HasEntry(bn, n, value, a) {
        return false;
      }
      sum := sum + bn.cpt[n][a][value];
      value := value + 1;
    }
    ok := !(Abs(sum - 1.0) > 0.00001);
  }

  // ---- the table of one clique -------------------------------------------------------------------

  /** node_probability: what the conditional table of n says of a value, given those of the parents. */
  function NodeProbability(bn: Network, n: nat, value: nat, ps: Assignment): real {
    if n < |bn.cpt| && ps in bn.cpt[n] && value < |bn.cpt[n][ps]| then bn.cpt[n][ps][value] else 0.0
  }

  function Conditional(bn: Network, n: nat, a: Assignment): real {
    NodeProbability(bn, n, ValueOf(a, n), Restrict(a, Elements(ParentsOf(bn, n))))
  }

  function ParentsOf(bn: Network, n: nat): seq<nat> {
    if n < |bn.parents| then bn.parents[n] else []
  }

  /** All conditional tables are filled out with probabilities. */
  ghost predicate Probable(bn: Network) {
    forall n, ps :: 0 <= n < |bn.cpt| && n < |bn.radix| && Over(ps, Elements(ParentsOf(bn, n)), bn.radix) ==>
      && ps in bn.cpt[n] && |bn.cpt[n][ps]| == bn.radix[n]
      && forall v :: 0 <= v < bn.radix[n] ==> 0.0 <= bn.cpt[n][ps][v] <= 1.0
  }

  /** The clique holds all parents of n. */
  predicate FamilyIn(bn: Network, clique: set<nat>, n: nat) {
    forall k :: 0 <= k < |ParentsOf(bn, n)| ==> ParentsOf(bn, n)[k] in clique
  }

  /** What the evidence says of the nodes of order: 1 if a agrees with it, 0 if not. */
  function EvidenceFactor(evidence: map<nat, nat>, order: seq<nat>, a: Assignment): real {
    if exists k :: 0 <= k < |order| && order[k] in evidence && ValueOf(a, order[k]) != evidence[order[k]] then 0.0 else 1.0
  }

  /** The factors of the nodes of order that are assigned to clique i. */
  ghost function NodeFactors(bn: Network, assignedTo: seq<nat>, i: nat, order: seq<nat>, a: Assignment): (fs: seq<real>)
    ensures |fs| == |order|
  {
    if order == [] then [] else
    [if order[0] < |assignedTo| && assignedTo[order[0]] == i then Conditional(bn, order[0], a) else 1.0]
      + NodeFactors(bn, assignedTo, i, order[1..], a)
  }

  /** The entry of clique i for a. */
  ghost function CliqueEntry(bn: Network, assignedTo: seq<nat>, i: nat, order: seq<nat>, a: Assignment): real {
    Times(EvidenceFactor(bn.evidence, order, a), Prod(NodeFactors(bn, assignedTo, i, order, a)))
  }

  /** Who is assigned to what once clique i has been filled: a node goes to the first clique with its family. */
  ghost function AssignedAfter(bn: Network, was: seq<nat>, clique: set<nat>, i: nat, unassigned: nat): (now: seq<nat>)
    ensures |now| == |was|
  {
    seq(|was|, n requires 0 <= n < |was| =>
      if n in clique && FamilyIn(bn, clique, n) && was[n] == unassigned then i else was[n])
  }

  /** set_contains_all_parents_of_node. */
  method ContainsAllParents(bn: Network, clique: set<nat>, n: nat) returns (all: bool)
    requires n < |bn.parents|
    ensures all == FamilyIn(bn, clique, n)
  {
    var i := 0;
    while i < |bn.parents[n]|
      invariant 0 <= i <= |bn.parents[n]| && forall k :: 0 <= k < i ==> bn.parents[n][k] in clique
    {
      if bn.parents[n][i] !in clique {
        assert ParentsOf(bn, n)[i] !in clique;
        return false;
      }
      i := i + 1;
    }
    return true;
  }

  /** The values a gives to the parents of n. */
  method ParentValues(bn: Network, n: nat, a: Assignment) returns (ps: Assignment)
    requires n < |bn.parents| && forall k :: 0 <= k < |bn.parents[n]| ==> bn.parents[n][k] in a
    ensures ps == Restrict(a, Elements(bn.parents[n]))
  {
    ps := map[];
    var j := 0;
    while j < |bn.parents[n]|
      invariant 0 <= j <= |bn.parents[n]| && ps == Restrict(a, Elements(bn.parents[n][..j]))
    {
      var p := bn.parents[n][j];
      assert Elements(bn.parents[n][..j + 1]) == Elements(bn.parents[n][..j]) + {p};
      ps := ps[p := a[p]];
      j := j + 1;
    }
    assert bn.parents[n][..j] == bn.parents[n];
  }

  /** The evidence loop for one assignment: any disagreement sets the entry to zero. */
  method CheckEvidence(bn: Network, indices: seq<nat>, a: Assignment) returns (p: real)
    requires forall k :: 0 <= k < |indices| ==> indices[k] in a
    ensures (exists k :: 0 <= k < |indices| && indices[k] in bn.evidence && a[indices[k]] != bn.evidence[indices[k]]) ==> p == 0.0
    ensures (forall k :: 0 <= k < |indices| && indices[k] in bn.evidence ==> a[indices[k]] == bn.evidence[indices[k]]) ==> p == 1.0
    ensures p == EvidenceFactor(bn.evidence, indices, a)
  {
    p := 1.0;
    var j := 0;
    while j < |indices|
      invariant 0 <= j <= |indices|
      invariant p == if exists k :: 0 <= k < j && indices[k] in bn.evidence && a[indices[k]] != bn.evidence[indices[k]] then 0.0 else 1.0
    {
      if indices[j] in bn.evidence {
        if a[indices[j]] != bn.evidence[indices[j]] {
          p := 0.0;
        }
      }
      j := j + 1;
    }
  }

  /** The assignment vector while clique i is being filled: each place is as before or as after. */
  ghost predicate Between(was: seq<nat>, now: seq<nat>, after: seq<nat>) {
    |was| == |now| == |after| && forall n :: 0 <= n < |now| ==> now[n] == was[n] || now[n] == after[n]
  }

  lemma NodeFactorsSnoc(bn: Network, assignedTo: seq<nat>, i: nat, order: seq<nat>, n: nat, a: Assignment)
    ensures NodeFactors(bn, assignedTo, i, order + [n], a)
         == NodeFactors(bn, assignedTo, i, order, a)
          + [if n < |assignedTo| && assignedTo[n] == i then Conditional(bn, n, a) else 1.0]
  {
    if order != [] {
      NodeFactorsSnoc(bn, assignedTo, i, order[1..], n, a);
      assert (order + [n])[1..] == order[1..] + [n];
    } else {
      assert [n][1..] == [];
    }
  }

  lemma {:induction false} ProdSnoc(fs: seq<real>, x: real)
    ensures Prod(fs + [x]) == Times(Prod(fs), x)
  {
    if fs == [] {
      assert [x][1..] == [];
      TimesOne(x);
      TimesOne(1.0);
    } else {
      assert (fs + [x])[1..] == fs[1..] + [x];
      ProdSnoc(fs[1..], x);
      TimesAssociates(fs[0], Prod(fs[1..]), x);
    }
  }

  /** One more node of the clique. */
  lemma EntryNext(bn: Network, after: seq<nat>, i: nat, order: seq<nat>, j: nat, e: real, p: real, a: Assignment)
    requires j < |order| && p == Times(e, Prod(NodeFactors(bn, after, i, order[..j], a)))
    ensures Times(e, Prod(NodeFactors(bn, after, i, order[..j + 1], a)))
         == if order[j] < |after| && after[order[j]] == i then Times(p, Conditional(bn, order[j], a)) else p
  {
    var n := order[j];
    var fs := NodeFactors(bn, after, i, order[..j], a);
    var x := if n < |after| && after[n] == i then Conditional(bn, n, a) else 1.0;
    assert order[..j + 1] == order[..j] + [n];
    hide Times, Prod, NodeFactors, Conditional;
    NodeFactorsSnoc(bn, after, i, order[..j], n, a);
    ProdSnoc(fs, x);
    TimesAssociates(e, Prod(fs), x);
    TimesOne(p);
  }

  /** The node loop for one assignment: which nodes are assigned here, and their factors. */
  method NodeLoop(bn: Network, clique: set<nat>, i: nat, indices: seq<nat>, a: Assignment, p0: real,
                  assignedTo: array<nat>, unassigned: nat, ghost was: seq<nat>, ghost after: seq<nat>)
    returns (p: real)
    requires |bn.parents| == |bn.radix| == |bn.cpt| == assignedTo.Length && Elements(indices) == clique == a.Keys
    requires forall k :: 0 <= k < |indices| ==> indices[k] < assignedTo.Length
    requires forall n :: 0 <= n < |was| ==> was[n] != i
    requires i != unassigned
    requires after == AssignedAfter(bn, was, clique, i, unassigned) && Between(was, assignedTo[..], after)
    requires p0 == EvidenceFactor(bn.evidence, indices, a)
    modifies assignedTo
    ensures p == CliqueEntry(bn, after, i, indices, a)
    ensures assignedTo[..] == after
  {
    hide Times, NodeFactors, EvidenceFactor, FamilyIn, Conditional, Prod, Restrict;
    p := p0;
    var j := 0;
    assert indices[..0] == [];
    EntryStart(bn, after, i, a, p0);
    while j < |indices|
      invariant 0 <= j <= |indices|
      invariant Between(was, assignedTo[..], after)
      invariant forall k :: 0 <= k < j ==> assignedTo[indices[k]] == after[indices[k]]
      invariant p == Times(p0, Prod(NodeFactors(bn, after, i, indices[..j], a)))
    {
      var n := indices[j];
      assert n in Elements(indices);
      var family := ContainsAllParents(bn, clique, n);
      EntryNext(bn, after, i, indices, j, p0, p, a);
      if family && (i == assignedTo[n] || assignedTo[n] == unassigned) {
        assignedTo[n] := i;
        ParentsInClique(bn, clique, n);
        var ps := ParentValues(bn, n, a);
        var x := NodeProbability(bn, n, a[n], ps);
        ConditionalIs(bn, n, a, ps);
        p := Times(p, x);
      }
      j := j + 1;
    }
    assert indices[..j] == indices;
    forall n | 0 <= n < |after| ensures assignedTo[n] == after[n] {
      if n in clique {
        var k :| 0 <= k < |indices| && indices[k] == n;
      }
    }
  }

  lemma ParentsInClique(bn: Network, clique: set<nat>, n: nat)
    requires FamilyIn(bn, clique, n) && n < |bn.parents|
    ensures forall k :: 0 <= k < |bn.parents[n]| ==> bn.parents[n][k] in clique
  {
    assert ParentsOf(bn, n) == bn.parents[n];
  }

  lemma ConditionalIs(bn: Network, n: nat, a: Assignment, ps: Assignment)
    requires n < |bn.parents| && n in a && ps == Restrict(a, Elements(bn.parents[n]))
    ensures Conditional(bn, n, a) == NodeProbability(bn, n, a[n], ps)
  {}

  lemma EntryStart(bn: Network, after: seq<nat>, i: nat, a: Assignment, e: real)
    ensures Times(e, Prod(NodeFactors(bn, after, i, [], a))) == e
  {
    TimesOne(e);
  }

  // ---- all values of one clique ------------------------------------------------------------------

  ghost predicate IsLeast(s: set<nat>, m: nat) {
    m in s && forall x :: x in s ==> m <= x
  }

  lemma {:induction false} LeastExists(s: set<nat>) returns (m: nat)
    requires s != {}
    ensures IsLeast(s, m)
  {
    var p :| p in s;
    m := p;
    if s - {p} != {} {
      var n := LeastExists(s - {p});
      if n < p { m := n; }
    }
    forall x | x in s ensures m <= x {
      assert x == p || x in s - {p};
    }
  }

  function Least(s: set<nat>): (m: nat)
    requires s != {}
    ensures IsLeast(s, m)
  {
    assert exists m :: IsLeast(s, m) by { var m := LeastExists(s); }
    var m :| m in s && forall x :: x in s ==> m <= x;
    m
  }

  /** The members of a set in the order a set enumerates them. */
  function Ascending(s: set<nat>): seq<nat> {
    if s == {} then [] else [Least(s)] + Ascending(s - {Least(s)})
  }

  lemma {:induction false} AscendingElements(s: set<nat>)
    ensures Elements(Ascending(s)) == s && Distinct(Ascending(s))
    ensures forall k :: 0 <= k < |Ascending(s)| ==> Ascending(s)[k] in s
  {
    if s != {} {
      var m := Least(s);
      AscendingElements(s - {m});
      var rest := Ascending(s - {m});
      hide Ascending, IsLeast;
      assert Elements([m] + rest) == {m} + Elements(rest);
    }
  }

  /** t has the entries of the assignments before a. */
  ghost predicate FilledBefore(bn: Network, after: seq<nat>, i: nat, order: seq<nat>, t: Table, rank: nat) {
    && (forall b :: b in t <==> Counts(order, bn.radix, b) && Rank(order, bn.radix, b) < rank)
    && (forall b :: b in t ==> t[b] == CliqueEntry(bn, after, i, order, b))
  }

  lemma FilledNext(bn: Network, after: seq<nat>, i: nat, order: seq<nat>, t: Table, a: Assignment, p: real)
    requires Counts(order, bn.radix, a) && FilledBefore(bn, after, i, order, t, Rank(order, bn.radix, a))
    requires p == CliqueEntry(bn, after, i, order, a)
    ensures FilledBefore(bn, after, i, order, t[a := p], Rank(order, bn.radix, a) + 1)
  {
    hide Counts, Rank, CliqueEntry;
    forall b | Counts(order, bn.radix, b) && Rank(order, bn.radix, b) == Rank(order, bn.radix, a) ensures b == a {
      Agree(order, bn.radix, b, a);
    }
  }

  lemma FilledAll(bn: Network, after: seq<nat>, i: nat, clique: set<nat>, t: Table)
    requires FilledBefore(bn, after, i, Ascending(clique), t, Size(Ascending(clique), bn.radix))
    ensures Complete(t, clique, bn.radix)
    ensures forall b :: b in t ==> t[b] == CliqueEntry(bn, after, i, Ascending(clique), b)
  {
    hide Over, Rank, Size, CliqueEntry, Ascending;
    var order := Ascending(clique);
    AscendingElements(clique);
    forall b ensures b in t <==> Over(b, clique, bn.radix) {
      CountsIsOver(order, bn.radix, b);
      if Counts(order, bn.radix, b) { CountedVariables(order, bn.radix, b); }
    }
  }

  /** One clique's turn: all values of its nodes. */
  method FillClique(bn: Network, clique: set<nat>, i: nat, assignedTo: array<nat>, unassigned: nat) returns (t: Table)
    requires WellFormed(bn) && |bn.radix| == assignedTo.Length && HasValues(clique, bn.radix)
    requires i != unassigned && forall n :: 0 <= n < assignedTo.Length ==> assignedTo[n] != i
    modifies assignedTo
    ensures assignedTo[..] == AssignedAfter(bn, old(assignedTo[..]), clique, i, unassigned)
    ensures Complete(t, clique, bn.radix)
    ensures forall a :: a in t ==> t[a] == CliqueEntry(bn, assignedTo[..], i, Ascending(clique), a)
  {
    hide CliqueEntry, EvidenceFactor, Rank, Size, FilledBefore, Counts, WellFormed, Ascending;
    var indices := Ascending(clique);
    AscendingElements(clique);
    ghost var was := assignedTo[..];
    ghost var after := AssignedAfter(bn, was, clique, i, unassigned);
    WellFormedLengths(bn);
    t := map[];
    var value := First(indices, bn.radix);
    FilledStart(bn, after, i, indices);
    var more := true;
    while more
      invariant Counts(indices, bn.radix, value) && Between(was, assignedTo[..], after)
      invariant FilledBefore(bn, after, i, indices, t, if more then Rank(indices, bn.radix, value) else Size(indices, bn.radix))
      invariant !more ==> assignedTo[..] == after
      decreases more, Size(indices, bn.radix) - Rank(indices, bn.radix, value)
    {
      CountedKeys(indices, bn.radix, value);
      var p := CheckEvidence(bn, indices, value);
      p := NodeLoop(bn, clique, i, indices, value, p, assignedTo, unassigned, was, after);
      FilledNext(bn, after, i, indices, t, value, p);
      t := t[value := p];
      CountedVariables(indices, bn.radix, value);
      more, value := Next(indices, bn.radix, value);
    }
    FilledAll(bn, after, i, clique, t);
  }

  lemma WellFormedLengths(bn: Network)
    requires WellFormed(bn)
    ensures |bn.parents| == |bn.radix| == |bn.cpt|
  {}

  lemma CountedKeys(order: seq<nat>, radix: seq<nat>, a: Assignment)
    requires Counts(order, radix, a)
    ensures a.Keys == Elements(order)
    ensures forall k :: 0 <= k < |order| ==> order[k] in a
  {}

  lemma FilledStart(bn: Network, after: seq<nat>, i: nat, order: seq<nat>)
    ensures FilledBefore(bn, after, i, order, map[], 0)
  {}

  // ---- all cliques -------------------------------------------------------------------------------

  /** The first k cliques are filled; assignedTo names the clique of each node assigned so far. */
  ghost predicate FirstFilled(bn: Network, net: Net, tables: seq<Table>, assignedTo: seq<nat>, k: nat) {
    && k <= |tables| == |net.cliques| && |assignedTo| == |bn.radix|
    && (forall n :: 0 <= n < |assignedTo| ==> AssignedFirst(bn, net, n, assignedTo[n], k))
    && (forall i :: 0 <= i < k ==> TableFilled(bn, net, tables[i], assignedTo, i))
  }

  /** The first of the first k cliques that holds n and its parents, or the number of cliques. */
  ghost predicate AssignedFirst(bn: Network, net: Net, n: nat, at: nat, k: nat)
    requires k <= |net.cliques|
  {
    && (at < k || at == |net.cliques|)
    && (at < k ==> HoldsFamily(bn, net.cliques[at], n))
    && (forall i :: 0 <= i < k && i < at ==> !HoldsFamily(bn, net.cliques[i], n))
  }

  predicate HoldsFamily(bn: Network, clique: set<nat>, n: nat) { n in clique && FamilyIn(bn, clique, n) }

  ghost predicate TableFilled(bn: Network, net: Net, t: Table, assignedTo: seq<nat>, i: nat) {
    && Complete(t, Clique(net, i), bn.radix)
    && forall a :: a in t ==> t[a] == CliqueEntry(bn, assignedTo, i, Ascending(Clique(net, i)), a)
  }

  lemma {:induction false} NodeFactorsSame(bn: Network, was: seq<nat>, now: seq<nat>, i: nat, order: seq<nat>, a: Assignment)
    requires |was| == |now| && forall n :: 0 <= n < |was| ==> (was[n] == i <==> now[n] == i)
    ensures NodeFactors(bn, was, i, order, a) == NodeFactors(bn, now, i, order, a)
  {
    if order != [] { NodeFactorsSame(bn, was, now, i, order[1..], a); }
  }

  lemma FilledStays(bn: Network, net: Net, t: Table, was: seq<nat>, now: seq<nat>, i: nat)
    requires TableFilled(bn, net, t, was, i)
    requires |was| == |now| && forall n :: 0 <= n < |was| ==> (was[n] == i <==> now[n] == i)
    ensures TableFilled(bn, net, t, now, i)
  {
    hide Complete, NodeFactors, EvidenceFactor, Prod, Times;
    forall a | a in t ensures t[a] == CliqueEntry(bn, now, i, Ascending(Clique(net, i)), a) {
      NodeFactorsSame(bn, was, now, i, Ascending(Clique(net, i)), a);
    }
  }

  lemma NextFilled(bn: Network, net: Net, tables: seq<Table>, was: seq<nat>, now: seq<nat>, k: nat, t: Table)
    requires FirstFilled(bn, net, tables, was, k) && k < |net.cliques|
    requires now == AssignedAfter(bn, was, net.cliques[k], k, |net.cliques|)
    requires TableFilled(bn, net, t, now, k)
    ensures FirstFilled(bn, net, tables[k := t], now, k + 1)
  {
    hide TableFilled, FamilyIn;
    forall i | 0 <= i < k ensures TableFilled(bn, net, tables[i], now, i) {
      forall n | 0 <= n < |was| ensures was[n] == i <==> now[n] == i {
        assert AssignedFirst(bn, net, n, was[n], k);
      }
      FilledStays(bn, net, tables[i], was, now, i);
    }
    forall n | 0 <= n < |now| ensures AssignedFirst(bn, net, n, now[n], k + 1) {
      assert AssignedFirst(bn, net, n, was[n], k);
    }
  }

  /** The initialisation of all cliques, and the clique each node ends in. */
  method FillCliques(bn: Network, net: Net) returns (tables: array<Table>, assignedTo: array<nat>)
    requires WellFormed(bn) && Proper(net) && net.radix == bn.radix
    ensures FirstFilled(bn, net, tables[..], assignedTo[..], |net.cliques|)
    ensures fresh(tables) && fresh(assignedTo)
  {
    hide WellFormed, AssignedAfter, TableFilled;
    assert forall k :: 0 <= k < |net.cliques| ==> HasValues(net.cliques[k], net.radix);
    hide Proper;
    tables := new Table[|net.cliques|](_ => map[]);
    assignedTo := new nat[|bn.radix|](_ => |net.cliques|);
    var i := 0;
    while i < |net.cliques|
      invariant 0 <= i <= |net.cliques|
      invariant FirstFilled(bn, net, tables[..], assignedTo[..], i)
    {
      ghost var was, before := assignedTo[..], tables[..];
      NotYet(bn, net, before, was, i);
      var t := FillClique(bn, net.cliques[i], i, assignedTo, |net.cliques|);
      FilledNow(bn, net, t, assignedTo[..], i);
      NextFilled(bn, net, before, was, assignedTo[..], i, t);
      tables[i] := t;
      assert tables[..] == before[i := t];
      i := i + 1;
    }
  }

  lemma NotYet(bn: Network, net: Net, tables: seq<Table>, assignedTo: seq<nat>, k: nat)
    requires FirstFilled(bn, net, tables, assignedTo, k) && k < |net.cliques|
    ensures forall n :: 0 <= n < |assignedTo| ==> assignedTo[n] != k
  {
    forall n | 0 <= n < |assignedTo| ensures assignedTo[n] != k {
      assert AssignedFirst(bn, net, n, assignedTo[n], k);
    }
  }

  lemma FilledNow(bn: Network, net: Net, t: Table, assignedTo: seq<nat>, i: nat)
    requires i < |net.cliques| && Complete(t, net.cliques[i], bn.radix)
    requires forall a :: a in t ==> t[a] == CliqueEntry(bn, assignedTo, i, Ascending(net.cliques[i]), a)
    ensures TableFilled(bn, net, t, assignedTo, i)
  {}
}
