/** What the tables say together: the product of the clique tables over that of the separator tables. */
module Joint {
  import opened Tables
  import opened Schedule
  import opened Messages

  // ---- products of sequences ---------------------------------------------------------------------

  ghost function Prod(fs: seq<real>): real {
    if fs == [] then 1.0 else Times(fs[0], Prod(fs[1..]))
  }

  /** A product is one of its factors times the rest. */
  lemma {:induction false} ProdUpdate(fs: seq<real>, k: nat, q: real) returns (rest: real)
    requires k < |fs|
    ensures Prod(fs) == Times(fs[k], rest) && Prod(fs[k := q]) == Times(q, rest)
    decreases k
  {
    hide Times;
    if k == 0 {
      rest := Prod(fs[1..]);
      assert fs[k := q][1..] == fs[1..];
    } else {
      var inner := ProdUpdate(fs[1..], k - 1, q);
      rest := Times(fs[0], inner);
      assert fs[k := q][1..] == fs[1..][k - 1 := q];
      TimesPermutes(fs[0], fs[k], inner);
      TimesPermutes(fs[0], q, inner);
    }
  }

  lemma TimesPermutes(a: real, b: real, c: real)
    ensures Times(a, Times(b, c)) == Times(b, Times(a, c))
  {
    TimesAssociates(a, b, c);
    TimesAssociates(b, a, c);
    TimesSwaps(a, b);
  }

  lemma TimesIsZero(a: real, b: real)
    ensures Times(a, b) == 0.0 <==> a == 0.0 || b == 0.0
  {}

  lemma {:induction false} ProdIsZero(fs: seq<real>)
    ensures Prod(fs) == 0.0 <==> exists k :: 0 <= k < |fs| && fs[k] == 0.0
  {
    hide Times;
    if fs != [] {
      var rest := fs[1..];
      ProdIsZero(rest);
      TimesIsZero(fs[0], Prod(rest));
      if k :| 0 <= k < |rest| && rest[k] == 0.0 { assert fs[k + 1] == 0.0; }
      if k :| 0 <= k < |fs| && fs[k] == 0.0 { assert k == 0 || rest[k - 1] == 0.0; }
    }
  }

  lemma ProdOfOnes(fs: seq<real>)
    requires forall k :: 0 <= k < |fs| ==> fs[k] == 1.0
    ensures Prod(fs) == 1.0
  {
    if fs != [] {
      ProdOfOnes(fs[1..]);
      TimesOne(1.0);
    }
  }

  // ---- the joint function ------------------------------------------------------------------------

  function VariablesBelow(n: nat): (vars: set<nat>)
    ensures forall v: nat :: v in vars <==> v < n
  {
    if n == 0 then {} else VariablesBelow(n - 1) + {n - 1}
  }

  function AllVariables(net: Net): set<nat> {
    VariablesBelow(|net.radix|)
  }

  /** x gives every variable a value. */
  ghost predicate Full(net: Net, x: Assignment) {
    Over(x, AllVariables(net), net.radix)
  }

  /** What table i says of x. */
  ghost function Factor(net: Net, tables: seq<Table>, x: Assignment, i: nat): real
    requires i < |tables|
  {
    At(tables[i], Restrict(x, Clique(net, i)))
  }

  ghost function Factors(net: Net, tables: seq<Table>, x: Assignment): (fs: seq<real>)
    ensures |fs| == |tables| && forall i :: 0 <= i < |fs| ==> fs[i] == Factor(net, tables, x, i)
  {
    seq(|tables|, i requires 0 <= i < |tables| => Factor(net, tables, x, i))
  }

  /** What the table of the edge between i and j says of x; nothing before the first message. */
  ghost function SeparatorFactor(net: Net, separators: map<Edge, Table>, x: Assignment, i: nat, j: nat): real {
    if Key(i, j) !in separators || separators[Key(i, j)] == map[] then 1.0
    else At(separators[Key(i, j)], Restrict(x, Separator(net, i, j)))
  }

  /** One factor for each edge, at the place of its lower end; the root has none. */
  ghost function SeparatorFactors(net: Net, separators: map<Edge, Table>, x: Assignment): (fs: seq<real>)
    ensures |fs| == |net.parent| && forall c :: 0 < c < |fs| ==> fs[c] == SeparatorFactor(net, separators, x, c, net.parent[c])
    ensures |fs| > 0 ==> fs[0] == 1.0
  {
    seq(|net.parent|, c requires 0 <= c < |net.parent| =>
      if c == 0 then 1.0 else SeparatorFactor(net, separators, x, c, net.parent[c]))
  }

  /** The joint function of x: the product of what the tables say of it. */
  ghost function Phi(net: Net, tables: seq<Table>, x: Assignment): real {
    Prod(Factors(net, tables, x))
  }

  /** fs multiplies to phi times gs, and gs is zero only where phi is. */
  ghost predicate Balanced(phi: real, fs: seq<real>, gs: seq<real>) {
    Prod(fs) == Times(phi, Prod(gs)) && forall c :: 0 <= c < |gs| && gs[c] == 0.0 ==> phi == 0.0
  }

  /**
   * At x the tables still say what they said at the start: the clique tables multiply to the
   * joint function times the separator tables, and a separator table is zero only where the
   * joint function is.
   */
  ghost predicate JointAt(net: Net, start: seq<Table>, tables: seq<Table>, separators: map<Edge, Table>, x: Assignment) {
    Balanced(Phi(net, start, x), Factors(net, tables, x), SeparatorFactors(net, separators, x))
  }

  /** Both ends of every edge have the table of the edge as their marginal. */
  ghost predicate Calibrated(net: Net, tables: seq<Table>, separators: map<Edge, Table>) {
    forall u: nat, v: nat :: Directed(net.neighbors, u, v) ==>
      && Key(u, v) in separators && u < |tables| && v < |tables|
      && separators[Key(u, v)] == Marginal(tables[u], Separator(net, u, v))
      && separators[Key(u, v)] == Marginal(tables[v], Separator(net, u, v))
  }

  lemma JointStart(net: Net, tables: seq<Table>, separators: map<Edge, Table>, x: Assignment)
    requires forall k :: k in separators ==> separators[k] == map[]
    ensures JointAt(net, tables, tables, separators, x)
  {
    ProdOfOnes(SeparatorFactors(net, separators, x));
    TimesOne(Phi(net, tables, x));
  }

  // ---- a message ---------------------------------------------------------------------------------

  /** The end of the edge between i and j that is not the root's side. */
  function LowerEnd(net: Net, i: nat, j: nat): nat {
    if Up(net.parent, i, j) then i else j
  }

  /** A new separator table changes one factor, at the lower end of its edge. */
  lemma SeparatorFactorsUpdate(net: Net, separators: map<Edge, Table>, s: Table, x: Assignment, i: nat, to: nat)
    requires Tree(net.neighbors, net.parent, net.depth) && Key(i, to) in separators
    requires Up(net.parent, i, to) || Up(net.parent, to, i)
    ensures var c, separators' := LowerEnd(net, i, to), separators[Key(i, to) := s];
      && 0 < c < |net.parent|
      && SeparatorFactors(net, separators, x)[c] == SeparatorFactor(net, separators, x, i, to)
      && SeparatorFactors(net, separators', x)
        == SeparatorFactors(net, separators, x)[c := SeparatorFactor(net, separators', x, i, to)]
  {
    hide Tree;
    SeparatorSymmetric(net, i, to);
    var c := LowerEnd(net, i, to);
    var fs, after := SeparatorFactors(net, separators, x), SeparatorFactors(net, separators[Key(i, to) := s], x);
    forall k | 0 < k < |fs| && k != c ensures after[k] == fs[k] {
      OneEdgePerChild(net, i, to, k);
    }
  }

  lemma OneEdgePerChild(net: Net, i: nat, to: nat, k: nat)
    requires Tree(net.neighbors, net.parent, net.depth)
    requires Up(net.parent, i, to) || Up(net.parent, to, i)
    requires 0 < k < |net.parent| && k != LowerEnd(net, i, to)
    ensures Key(k, net.parent[k]) != Key(i, to)
  {
    if Key(k, net.parent[k]) == Key(i, to) {
      KeyInjective(k, net.parent[k], i, to);
      if Up(net.parent, i, to) {
        NotBoth(net.neighbors, net.parent, net.depth, i);
      }
    }
  }

  lemma RestrictedEntry(net: Net, t: Table, x: Assignment, i: nat)
    requires TableOk(net, t, i) && Full(net, x) && HasValues(Clique(net, i), net.radix)
    ensures Restrict(x, Clique(net, i)) in t
  {
    RestrictOver(x, AllVariables(net), Clique(net, i), net.radix);
  }

  /** p * rest = phi * (s0 * others) stays true when s0 becomes s1 and p becomes p * r. */
  lemma Rebalance(phi: real, p: real, rest: real, s0: real, s1: real, others: real, r: real)
    requires Times(p, rest) == Times(phi, Times(s0, others))
    requires Times(s0, r) == s1
    ensures Times(Times(p, r), rest) == Times(phi, Times(s1, others))
  {
    hide Times;
    TimesSwaps(p, r);
    TimesAssociates(r, p, rest);
    TimesPermutes(r, phi, Times(s0, others));
    TimesAssociates(r, s0, others);
    TimesSwaps(r, s0);
  }

  /** What the ratio is, by what the old separator says: nothing, something, or zero. */
  lemma RatioAt(ti: Table, t: Table, newS: Table, oldS: Table, e: set<nat>, radix: seq<nat>, answer: bool, exact: bool, y: Assignment)
    requires Sending(ti, t, newS, oldS, e, radix, answer, exact) && y in newS
    ensures var s0 := if oldS == map[] then 1.0 else At(oldS, y);
      && (s0 != 0.0 ==> Times(s0, At(Ratio(newS, oldS), y)) == newS[y])
      && (s0 == 0.0 ==> At(Ratio(newS, oldS), y) == 0.0 && newS[y] == 0.0)
  {
    KeysMatch(ti, t, newS, oldS, e, radix, answer, exact);
    if answer { CappedAtZero(ti, oldS, newS, e); }
    hide Times, Quotient, CappedMarginal, Supported, Marginal, SeparatorOk;
    TimesOne(newS[y]);
    if At(oldS, y) != 0.0 { TimesQuotient(At(oldS, y), newS[y]); }
  }

  /** What a message does at x: the factor of the receiver and that of the separator, in terms of one ratio. */
  lemma MessageAt(net: Net, tables: seq<Table>, separators: map<Edge, Table>, after: seq<Table>, separators': map<Edge, Table>,
                  answer: bool, exact: bool, i: nat, to: nat, x: Assignment)
    returns (r: real, s1: real)
    requires Proper(net) && TablesOk(net, tables) && Message(net, tables, separators, after, separators', i, to)
    requires Sending(tables[i], tables[to], CappedMarginal(tables[i], Separator(net, i, to)), separators[Key(i, to)],
                     Separator(net, i, to), net.radix, answer, exact)
    requires Full(net, x)
    ensures |after| == |tables| && Factor(net, after, x, to) == Times(Factor(net, tables, x, to), r)
    ensures SeparatorFactor(net, separators', x, i, to) == s1
    ensures var s0 := SeparatorFactor(net, separators, x, i, to);
      (s0 != 0.0 ==> Times(s0, r) == s1) && (s0 == 0.0 ==> r == 0.0 && s1 == 0.0)
    ensures s1 == 0.0 ==> Factor(net, tables, x, i) == 0.0
  {
    hide Restrict, Separator, CappedMarginal, Ratio, Times, TableOk, Proper, TablesOk, Sending, Full, Clique, Absorb, Key;
    var e, oldS := Separator(net, i, to), separators[Key(i, to)];
    var newS := CappedMarginal(tables[i], e);
    var y, ratio := Restrict(x, e), Ratio(newS, oldS);
    NewEntry(net, tables, x, i, to);
    EntryOf(net, tables, x, to);
    RatioAt(tables[i], tables[to], newS, oldS, e, net.radix, answer, exact, y);
    r, s1 := At(ratio, y), newS[y];
    ReceiverAt(net, tables, x, to, ratio, e, i);
    hide Absorb;
  }

  lemma EntryOf(net: Net, tables: seq<Table>, x: Assignment, i: nat)
    requires Proper(net) && TablesOk(net, tables) && i < |tables| && Full(net, x)
    ensures Restrict(x, Clique(net, i)) in tables[i]
  {
    assert TableOk(net, tables[i], i);
    RestrictedEntry(net, tables[i], x, i);
  }

  /** The entry of the new separator at x, and what it says of the sender. */
  lemma NewEntry(net: Net, tables: seq<Table>, x: Assignment, i: nat, to: nat)
    requires Proper(net) && TablesOk(net, tables) && i < |tables| && Full(net, x)
    ensures var newS, y := CappedMarginal(tables[i], Separator(net, i, to)), Restrict(x, Separator(net, i, to));
      y in newS && (newS[y] == 0.0 ==> Factor(net, tables, x, i) == 0.0)
  {
    var e := Separator(net, i, to);
    assert TableOk(net, tables[i], i);
    RestrictedEntry(net, tables[i], x, i);
    RestrictTwice(x, Clique(net, i), e);
    hide Restrict, CappedMarginal;
    SenderZero(tables[i], e, Restrict(x, Clique(net, i)));
  }

  /** The receiver's factor is multiplied by the ratio at x. */
  lemma ReceiverAt(net: Net, tables: seq<Table>, x: Assignment, to: nat, ratio: Table, e: set<nat>, i: nat)
    requires to < |tables| && e == Separator(net, i, to) && Restrict(x, Clique(net, to)) in tables[to]
    ensures At(Absorb(tables[to], ratio, e), Restrict(x, Clique(net, to)))
         == Times(Factor(net, tables, x, to), At(ratio, Restrict(x, e)))
  {
    SeparatorSymmetric(net, i, to);
    RestrictTwice(x, Clique(net, to), e);
    hide Restrict, Times, Clique, Separator;
  }

  /** Where the sender's marginal is zero, so is its factor. */
  lemma SenderZero(t: Table, e: set<nat>, a: Assignment)
    requires Probabilities(t) && a in t
    ensures Restrict(a, e) in CappedMarginal(t, e)
    ensures CappedMarginal(t, e)[Restrict(a, e)] == 0.0 ==> t[a] == 0.0
  {
    CappedBounds(t, e);
  }

  /** One factor on each side changes by the same ratio. */
  lemma ProductRebalanced(phi: real, fs: seq<real>, gs: seq<real>, i: nat, to: nat, c: nat, r: real, s1: real)
    requires Balanced(phi, fs, gs) && i < |fs| && to < |fs| && c < |gs|
    requires (gs[c] != 0.0 ==> Times(gs[c], r) == s1) && (gs[c] == 0.0 ==> r == 0.0 && s1 == 0.0)
    requires s1 == 0.0 ==> fs[i] == 0.0
    ensures Balanced(phi, fs[to := Times(fs[to], r)], gs[c := s1])
  {
    var rest := ProdUpdate(fs, to, Times(fs[to], r));
    var others := ProdUpdate(gs, c, s1);
    if gs[c] == 0.0 { TimesZero(0.0); }
    hide Times, Prod;
    Rebalance(phi, fs[to], rest, gs[c], s1, others, r);
    if s1 == 0.0 {
      ProdIsZero(fs);
      assert fs[i] == 0.0;
      TimesIsZero(phi, Prod(gs));
      ProdIsZero(gs);
    }
  }

  /** A message keeps the joint function, at every x. */
  lemma MessageKeepsJoint(net: Net, start: seq<Table>, tables: seq<Table>, separators: map<Edge, Table>,
                          after: seq<Table>, separators': map<Edge, Table>, answer: bool, exact: bool, i: nat, to: nat,
                          x: Assignment)
    requires Proper(net) && TablesOk(net, tables) && Message(net, tables, separators, after, separators', i, to)
    requires Up(net.parent, i, to) || Up(net.parent, to, i)
    requires Sending(tables[i], tables[to], CappedMarginal(tables[i], Separator(net, i, to)), separators[Key(i, to)],
                     Separator(net, i, to), net.radix, answer, exact)
    requires Full(net, x) && JointAt(net, start, tables, separators, x)
    ensures JointAt(net, start, after, separators', x)
  {
    var r, s1 := MessageAt(net, tables, separators, after, separators', answer, exact, i, to, x);
    MessageFactors(net, tables, separators, after, separators', i, to, x);
    var c := LowerEnd(net, i, to);
    hide Proper, TablesOk, Message, Sending, Times, Prod, Factor, SeparatorFactor, Full, Up, Separator, Key, CappedMarginal;
    ProductRebalanced(Phi(net, start, x), Factors(net, tables, x), SeparatorFactors(net, separators, x), i, to, c, r, s1);
  }

  /** Where the factors differ after a message: at the receiver, and at the lower end of the edge. */
  lemma MessageFactors(net: Net, tables: seq<Table>, separators: map<Edge, Table>, after: seq<Table>,
                       separators': map<Edge, Table>, i: nat, to: nat, x: Assignment)
    requires Proper(net) && Message(net, tables, separators, after, separators', i, to)
    requires Up(net.parent, i, to) || Up(net.parent, to, i)
    ensures |after| == |tables| && Factors(net, after, x) == Factors(net, tables, x)[to := Factor(net, after, x, to)]
    ensures var c := LowerEnd(net, i, to);
      && 0 < c < |net.parent|
      && SeparatorFactors(net, separators, x)[c] == SeparatorFactor(net, separators, x, i, to)
      && SeparatorFactors(net, separators', x)
        == SeparatorFactors(net, separators, x)[c := SeparatorFactor(net, separators', x, i, to)]
  {
    hide CappedMarginal, Absorb, Ratio, Separator;
    SeparatorFactorsUpdate(net, separators, separators'[Key(i, to)], x, i, to);
  }
}
