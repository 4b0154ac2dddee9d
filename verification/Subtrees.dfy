/**
 * What the tables of a part of the tree say together, while no message has come in from outside
 * of it; and from that, what a message sums up to.
 */
module Subtrees {
  import opened Tables
  import opened Schedule
  import opened Messages
  import opened Joint
  import opened CliqueMarginals
  import opened LeafRemoval

  // ---- the part below a node ---------------------------------------------------------------------

  /** w is at or below u. */
  ghost predicate Beneath(net: Net, u: nat, w: nat)
    decreases if w < |net.depth| then net.depth[w] else 0
  {
    w == u || (0 < w < |net.parent| && w < |net.depth| && net.parent[w] < |net.depth|
      && net.depth[net.parent[w]] < net.depth[w] && Beneath(net, u, net.parent[w]))
  }

  ghost function Subtree(net: Net, u: nat): set<nat> {
    set w | w in AllNodes(net) && Beneath(net, u, w)
  }

  lemma InSubtree(net: Net, u: nat, w: nat)
    requires Proper(net)
    ensures w in Subtree(net, u) <==> w < |net.cliques| && Beneath(net, u, w)
  {}

  lemma {:induction false} BeneathIsDeeper(net: Net, u: nat, w: nat)
    requires Beneath(net, u, w) && u < |net.depth| && w < |net.depth|
    ensures net.depth[u] <= net.depth[w]
    decreases net.depth[w]
  {
    if w != u { BeneathIsDeeper(net, u, net.parent[w]); }
  }

  /** A node is not below its child. */
  lemma ParentNotBeneath(net: Net, u: nat)
    requires Proper(net) && 0 < u < |net.parent|
    ensures !Beneath(net, u, net.parent[u])
  {
    if Beneath(net, u, net.parent[u]) { BeneathIsDeeper(net, u, net.parent[u]); }
  }

  lemma RootOutside(net: Net, u: nat)
    requires u > 0
    ensures 0 !in Subtree(net, u)
  {}

  /** An edge that ends in the subtree of u runs inside of it, unless it comes from the parent of u. */
  lemma EdgeInside(net: Net, u: nat, i: nat, to: nat)
    requires Proper(net) && 0 < u < |net.parent| && to in Subtree(net, u)
    requires Up(net.parent, i, to) || Up(net.parent, to, i)
    requires !(i == net.parent[u] && to == u)
    ensures i in Subtree(net, u) && LowerEnd(net, i, to) in Subtree(net, u) && LowerEnd(net, i, to) != u
  {
    InSubtree(net, u, to);
    InSubtree(net, u, i);
    ParentNotBeneath(net, u);
    if Up(net.parent, i, to) {
      assert net.depth[net.parent[i]] < net.depth[i];
      NotBoth(net.neighbors, net.parent, net.depth, i);
    }
  }

  // ---- the invariant -----------------------------------------------------------------------------

  ghost function Below(net: Net, u: nat): Rooting {
    Rooting(u, net.parent, net.depth)
  }

  /** The factors and separators inside the subtree of u balance what its tables said at the start. */
  ghost predicate SubJointAt(net: Net, start: seq<Table>, tables: seq<Table>, separators: map<Edge, Table>, u: nat, x: Assignment) {
    Balanced(Prod(LiveFactors(net, start, Subtree(net, u), x)), LiveFactors(net, tables, Subtree(net, u), x),
             LiveSeparators(net, separators, Below(net, u), Subtree(net, u), x))
  }

  /** So it is for every node to which its parent has not sent. */
  ghost predicate SubtreesOk(net: Net, start: seq<Table>, tables: seq<Table>, separators: map<Edge, Table>, send: seq<set<nat>>) {
    && |send| == |net.parent|
    && forall u, x {:trigger SubJointAt(net, start, tables, separators, u, x)} ::
         0 < u < |send| && net.parent[u] < |send| && u in send[net.parent[u]] && Full(net, x) ==>
           SubJointAt(net, start, tables, separators, u, x)
  }

  lemma SubJointStart(net: Net, tables: seq<Table>, separators: map<Edge, Table>, u: nat, x: Assignment)
    requires forall k :: k in separators ==> separators[k] == map[]
    ensures SubJointAt(net, tables, tables, separators, u, x)
  {
    var gs := LiveSeparators(net, separators, Below(net, u), Subtree(net, u), x);
    hide Subtree, LiveFactors;
    ProdOfOnes(gs);
    TimesOne(Prod(LiveFactors(net, tables, Subtree(net, u), x)));
  }

  /** A message inside the subtree of u. */
  lemma InsideFactors(net: Net, tables: seq<Table>, separators: map<Edge, Table>, after: seq<Table>, separators': map<Edge, Table>,
                      u: nat, i: nat, to: nat, x: Assignment)
    requires Proper(net) && |tables| == |net.cliques| && Message(net, tables, separators, after, separators', i, to)
    requires Up(net.parent, i, to) || Up(net.parent, to, i)
    requires 0 < u < |net.parent| && to in Subtree(net, u)
    requires LowerEnd(net, i, to) in Subtree(net, u) && LowerEnd(net, i, to) != u
    ensures var alive, c := Subtree(net, u), LowerEnd(net, i, to);
      && c < |net.parent| && |after| == |tables|
      && LiveFactors(net, after, alive, x) == LiveFactors(net, tables, alive, x)[to := Factor(net, after, x, to)]
      && LiveSeparators(net, separators, Below(net, u), alive, x)[c] == SeparatorFactor(net, separators, x, i, to)
      && LiveSeparators(net, separators', Below(net, u), alive, x)
        == LiveSeparators(net, separators, Below(net, u), alive, x)[c := SeparatorFactor(net, separators', x, i, to)]
  {
    hide CappedMarginal, Absorb, Ratio, Separator, Subtree;
    MessageFactors(net, tables, separators, after, separators', i, to, x);
    RootOutside(net, u);
    LiveAfter(net, tables, after, Subtree(net, u), to, x);
    LiveSeparatorsAfter(net, separators, separators', Below(net, u), Subtree(net, u), LowerEnd(net, i, to), x);
    SeparatorSymmetric(net, i, to);
  }

  lemma LiveAfter(net: Net, tables: seq<Table>, after: seq<Table>, alive: set<nat>, to: nat, x: Assignment)
    requires |after| == |tables| && to < |tables|
    requires Factors(net, after, x) == Factors(net, tables, x)[to := Factor(net, after, x, to)]
    ensures to in alive ==> LiveFactors(net, after, alive, x) == LiveFactors(net, tables, alive, x)[to := Factor(net, after, x, to)]
    ensures to !in alive ==> LiveFactors(net, after, alive, x) == LiveFactors(net, tables, alive, x)
  {
    var fs, gs := Factors(net, tables, x), Factors(net, after, x);
    forall v | 0 <= v < |tables| && v != to ensures Factor(net, after, x, v) == Factor(net, tables, x, v) {
      assert gs[v] == fs[v];
    }
    hide Factor, Factors;
  }

  lemma LiveSeparatorsAfter(net: Net, separators: map<Edge, Table>, separators': map<Edge, Table>, r: Rooting, alive: set<nat>,
                            c: nat, x: Assignment)
    requires r.parent == net.parent && 0 < c < |net.parent| && r.root < |net.parent|
    requires SeparatorFactors(net, separators', x)
      == SeparatorFactors(net, separators, x)[c := SeparatorFactor(net, separators', x, c, net.parent[c])]
    requires 0 !in alive || r.root == 0
    ensures c in alive && c != r.root ==>
      LiveSeparators(net, separators', r, alive, x)
        == LiveSeparators(net, separators, r, alive, x)[c := SeparatorFactor(net, separators', x, c, net.parent[c])]
    ensures c !in alive || c == r.root ==> LiveSeparators(net, separators', r, alive, x) == LiveSeparators(net, separators, r, alive, x)
  {
    var fs, gs := SeparatorFactors(net, separators, x), SeparatorFactors(net, separators', x);
    forall v | 0 < v < |net.parent| && v != c
      ensures SeparatorFactor(net, separators', x, v, net.parent[v]) == SeparatorFactor(net, separators, x, v, net.parent[v])
    {
      assert gs[v] == fs[v];
    }
    hide SeparatorFactor, SeparatorFactors;
  }

  /** A message outside of the subtree of u, or out of it. */
  lemma OutsideFactors(net: Net, tables: seq<Table>, separators: map<Edge, Table>, after: seq<Table>, separators': map<Edge, Table>,
                       u: nat, i: nat, to: nat, x: Assignment)
    requires Proper(net) && |tables| == |net.cliques| && Message(net, tables, separators, after, separators', i, to)
    requires Up(net.parent, i, to) || Up(net.parent, to, i)
    requires 0 < u < |net.parent| && to !in Subtree(net, u)
    ensures LiveFactors(net, after, Subtree(net, u), x) == LiveFactors(net, tables, Subtree(net, u), x)
    ensures LiveSeparators(net, separators', Below(net, u), Subtree(net, u), x)
         == LiveSeparators(net, separators, Below(net, u), Subtree(net, u), x)
  {
    OutsideEdge(net, u, i, to);
    RootOutside(net, u);
    hide CappedMarginal, Absorb, Ratio, Separator, Subtree, Proper;
    MessageFactors(net, tables, separators, after, separators', i, to, x);
    LiveAfter(net, tables, after, Subtree(net, u), to, x);
    SeparatorSymmetric(net, i, to);
    LiveSeparatorsAfter(net, separators, separators', Below(net, u), Subtree(net, u), LowerEnd(net, i, to), x);
  }

  lemma OutsideEdge(net: Net, u: nat, i: nat, to: nat)
    requires Proper(net) && 0 < u < |net.parent| && to !in Subtree(net, u) && to < |net.cliques|
    requires Up(net.parent, i, to) || Up(net.parent, to, i)
    ensures LowerEnd(net, i, to) !in Subtree(net, u) || LowerEnd(net, i, to) == u
  {
    InSubtree(net, u, to);
    InSubtree(net, u, LowerEnd(net, i, to));
  }

  /** A message keeps the invariant of the subtree of u, unless it is the one that comes from its parent. */
  lemma MessageKeepsSubJoint(net: Net, start: seq<Table>, tables: seq<Table>, separators: map<Edge, Table>,
                             after: seq<Table>, separators': map<Edge, Table>, answer: bool, exact: bool, u: nat, i: nat, to: nat,
                             x: Assignment)
    requires Proper(net) && TablesOk(net, tables) && Message(net, tables, separators, after, separators', i, to)
    requires Up(net.parent, i, to) || Up(net.parent, to, i)
    requires Sending(tables[i], tables[to], CappedMarginal(tables[i], Separator(net, i, to)), separators[Key(i, to)],
                     Separator(net, i, to), net.radix, answer, exact)
    requires Full(net, x) && 0 < u < |net.parent| && !(i == net.parent[u] && to == u)
    requires SubJointAt(net, start, tables, separators, u, x)
    ensures SubJointAt(net, start, after, separators', u, x)
  {
    assert |tables| == |net.cliques|;
    if to in Subtree(net, u) {
      EdgeInside(net, u, i, to);
      var r, s1 := MessageAt(net, tables, separators, after, separators', answer, exact, i, to, x);
      InsideFactors(net, tables, separators, after, separators', u, i, to, x);
      assert i < |tables| && to < |tables|;
      hide Proper, TablesOk, Message, Sending, Times, Prod, Factor, SeparatorFactor, Full, Up, Separator, Key, CappedMarginal,
        Subtree, Balanced;
      ProductRebalanced(Prod(LiveFactors(net, start, Subtree(net, u), x)), LiveFactors(net, tables, Subtree(net, u), x),
                        LiveSeparators(net, separators, Below(net, u), Subtree(net, u), x), i, to, LowerEnd(net, i, to), r, s1);
    } else {
      OutsideFactors(net, tables, separators, after, separators', u, i, to, x);
    }
  }

  lemma MessageKeepsSubtrees(net: Net, start: seq<Table>, tables: seq<Table>, separators: map<Edge, Table>,
                             after: seq<Table>, separators': map<Edge, Table>, send: seq<set<nat>>, exact: bool, i: nat, to: nat)
    requires Proper(net) && TablesOk(net, tables) && Message(net, tables, separators, after, separators', i, to)
    requires Up(net.parent, i, to) || Up(net.parent, to, i)
    requires i < |send| && to < |send|
    requires Sending(tables[i], tables[to], CappedMarginal(tables[i], Separator(net, i, to)), separators[Key(i, to)],
                     Separator(net, i, to), net.radix, i !in send[to], exact)
    requires SubtreesOk(net, start, tables, separators, send)
    ensures SubtreesOk(net, start, after, separators', Less(send, i, to))
  {
    hide Proper, TablesOk, Message, Sending, Full, Up, Separator, Key, CappedMarginal, SubJointAt;
    forall u, x | 0 < u < |send| && net.parent[u] < |send| && u in Less(send, i, to)[net.parent[u]] && Full(net, x)
      ensures SubJointAt(net, start, after, separators', u, x)
    {
      assert u in send[net.parent[u]];
      MessageKeepsSubJoint(net, start, tables, separators, after, separators', i !in send[to], exact, u, i, to, x);
    }
  }

  // ---- what the sender has become ----------------------------------------------------------------

  /** The part of the tree that a message sums up: everything below a first sender, or everything. */
  ghost predicate HeardFrom(net: Net, send: seq<set<nat>>, r: Rooting, alive: set<nat>) {
    forall v :: v in alive && v != r.root && v < |r.parent| && r.parent[v] < |send| && r.parent[v] == r.root ==>
      v < |send| && r.root !in send[v]
  }

  /** When the root has heard from its living children, every living node has sent towards the root. */
  lemma {:induction false} SentTowards(net: Net, send: seq<set<nat>>, recv: seq<set<nat>>, r: Rooting, alive: set<nat>, v: nat)
    requires Proper(net) && Progress(net.neighbors, net.parent, send, recv) && RootedAt(net, r) && UpClosed(r, alive)
    requires HeardFrom(net, send, r, alive) && v in alive && v != r.root
    ensures v < |send| == |r.parent| && r.parent[v] !in send[v]
    decreases if v < |r.depth| then r.depth[v] else 0
  {
    var p := r.parent[v];
    if p != r.root {
      SentTowards(net, send, recv, r, alive, p);
      var q := r.parent[p];
      assert Directed(net.neighbors, p, q) && Directed(net.neighbors, v, p);
      assert HeardOthers(send, recv, p, q);
      assert v != q by { assert r.depth[q] < r.depth[p] < r.depth[v]; }
      assert v in net.neighbors[p];
      assert v !in recv[p];
      assert v in recv[p] <==> p in send[v];
    }
  }

  /** The end of an edge that has sent, and the other, as the removal of leaves needs them. */
  lemma SentLeafOk(net: Net, tables: seq<Table>, separators: map<Edge, Table>, send: seq<set<nat>>, r: Rooting, l: nat)
    requires Proper(net) && TablesOk(net, tables) && RootedAt(net, r) && EdgesOk(net, tables, separators, send, true)
    requires l < |r.parent| && l != r.root && |send| == |tables| && r.parent[l] !in send[l]
    ensures |tables| == |r.parent| && LeafOk(net, tables, separators, r, l)
  {
    var p := r.parent[l];
    assert Directed(net.neighbors, l, p) && Directed(net.neighbors, p, l);
    assert TableOk(net, tables[l], l) && TableOk(net, tables[p], p) && HasValues(Clique(net, l), net.radix);
    assert EdgeState(net, tables, separators, send, true, l, p);
    assert EdgeState(net, tables, separators, send, true, p, l);
    SeparatorSymmetric(net, l, p);
    hide Complete, Probabilities, Marginal, CappedMarginal, Supported, Separator, Clique;
    if l !in send[p] { MarginalSupports(tables[p], Separator(net, l, p)); }
  }

  // ---- sums of the tables at the start -----------------------------------------------------------

  /** What the tables of alive said together at the start, as a table over their variables. */
  ghost function PartTable(net: Net, start: seq<Table>, alive: set<nat>): Table {
    map y | y in Projections(FullAssignments(net), Variables(net, alive)) :: Prod(LiveFactors(net, start, alive, y))
  }

  lemma LiveRestricted(net: Net, tables: seq<Table>, alive: set<nat>, x: Assignment)
    ensures LiveFactors(net, tables, alive, Restrict(x, Variables(net, alive))) == LiveFactors(net, tables, alive, x)
  {
    var vars := Variables(net, alive);
    forall v | 0 <= v < |tables| && v in alive ensures Factor(net, tables, Restrict(x, vars), v) == Factor(net, tables, x, v) {
      CliqueAlive(net, alive, v);
      FactorRestricted(net, tables, x, vars, v);
    }
    hide Restrict, Factor, Variables;
  }

  lemma LiveSeparatorsRestricted(net: Net, separators: map<Edge, Table>, r: Rooting, alive: set<nat>, x: Assignment)
    requires UpClosed(r, alive)
    ensures LiveSeparators(net, separators, r, alive, Restrict(x, Variables(net, alive))) == LiveSeparators(net, separators, r, alive, x)
  {
    var vars := Variables(net, alive);
    forall v | 0 <= v < |r.parent| && v in alive && v != r.root
      ensures SeparatorFactor(net, separators, Restrict(x, vars), v, r.parent[v]) == SeparatorFactor(net, separators, x, v, r.parent[v])
    {
      CliqueAlive(net, alive, v);
      SeparatorSymmetric(net, v, r.parent[v]);
      hide Variables, Restrict, SeparatorFactor, Separator, Clique;
      SeparatorRestricted(net, separators, x, vars, v, r.parent[v]);
    }
    hide Restrict, SeparatorFactor, Variables;
  }

  lemma VariablesAreAll(net: Net, alive: set<nat>)
    requires CoversVariables(net) && alive <= AllNodes(net)
    ensures Variables(net, alive) <= AllVariables(net)
  {
    VariablesMonotone(net, alive, AllNodes(net));
  }

  lemma PartTableComplete(net: Net, start: seq<Table>, alive: set<nat>)
    requires CoversVariables(net) && alive <= AllNodes(net) && HasValues(AllVariables(net), net.radix)
    ensures Complete(PartTable(net, start, alive), Variables(net, alive), net.radix)
  {
    VariablesAreAll(net, alive);
    ProjectionsOfFull(net, Variables(net, alive));
    hide Over, FullAssignments, Projections, Variables;
  }

  // ---- a message sums up what lies behind it -----------------------------------------------------

  /** Seen from any root, the nodes below it in the tree hang from it as they do in the tree. */
  lemma {:induction false} SameParent(net: Net, r: Rooting, w: nat)
    requires Proper(net) && RootedAt(net, r) && w < |r.parent| && Beneath(net, r.root, w) && w != r.root
    ensures 0 < w < |net.parent| && r.parent[w] == net.parent[w]
    decreases Largest(net.depth) - net.depth[w]
  {
    LargestBounds(net.depth, w);
    var c := r.parent[w];
    assert Directed(net.neighbors, w, c);
    if c != net.parent[w] {
      assert Up(net.parent, c, w);
      assert net.depth[net.parent[c]] < net.depth[c];
      BeneathIsDeeper(net, r.root, w);
      LargestBounds(net.depth, c);
      RootedDeeper(net, r, w);
      RootedDeeper(net, r, c);
      SameParent(net, r, c);
    }
  }

  lemma RootedDeeper(net: Net, r: Rooting, v: nat)
    requires RootedAt(net, r) && v < |r.parent| && v != r.root
    ensures r.parent[v] < |r.parent| && r.depth[r.parent[v]] < r.depth[v]
  {}

  lemma SubtreeUpClosed(net: Net, r: Rooting)
    requires Proper(net) && RootedAt(net, r)
    ensures UpClosed(r, Subtree(net, r.root))
    ensures forall v :: v in Subtree(net, r.root) && v != r.root && v < |r.parent| ==> v < |net.parent| && r.parent[v] == net.parent[v]
  {
    InSubtree(net, r.root, r.root);
    forall v | v in Subtree(net, r.root) && v != r.root
      ensures v < |r.parent| && v < |net.parent| && r.parent[v] == net.parent[v] && r.parent[v] in Subtree(net, r.root)
    {
      InSubtree(net, r.root, v);
      SameParent(net, r, v);
      InSubtree(net, r.root, net.parent[v]);
    }
  }

  lemma SameLiveSeparators(net: Net, separators: map<Edge, Table>, r: Rooting, u: nat, alive: set<nat>, x: Assignment)
    requires r.root == u && |r.parent| == |net.parent|
    requires forall v :: v in alive && v != u && v < |r.parent| ==> r.parent[v] == net.parent[v]
    ensures LiveSeparators(net, separators, r, alive, x) == LiveSeparators(net, separators, Below(net, u), alive, x)
  {
    hide SeparatorFactor;
  }

  /** The subtree of u, with the invariant at every full assignment, as the removal of leaves needs it. */
  lemma SubtreePart(net: Net, start: seq<Table>, tables: seq<Table>, separators: map<Edge, Table>, r: Rooting)
    requires Proper(net) && RootedAt(net, r) && |tables| == |start| == |net.cliques|
    requires CoversVariables(net) && HasValues(AllVariables(net), net.radix)
    requires forall x :: Full(net, x) ==> SubJointAt(net, start, tables, separators, r.root, x)
    ensures PartOk(net, tables, separators, r, Subtree(net, r.root), PartTable(net, start, Subtree(net, r.root)))
  {
    var alive := Subtree(net, r.root);
    var m, vars := PartTable(net, start, alive), Variables(net, alive);
    PartTableComplete(net, start, alive);
    SubtreeUpClosed(net, r);
    FullAssignmentsAre(net);
    forall y | y in m ensures PartAt(net, tables, separators, r, alive, m, y) {
      var x :| x in FullAssignments(net) && Restrict(x, vars) == y;
      assert Full(net, x) && SubJointAt(net, start, tables, separators, r.root, x);
      hide FullAssignments, Full, Over, Restrict, Proper, RootedAt, Subtree, Prod, Times, Variables, UpClosed;
      SubtreePartAt(net, start, tables, separators, r, alive, x, y, m);
    }
  }

  lemma SubtreePartAt(net: Net, start: seq<Table>, tables: seq<Table>, separators: map<Edge, Table>, r: Rooting, alive: set<nat>,
                      x: Assignment, y: Assignment, m: Table)
    requires alive == Subtree(net, r.root) && UpClosed(r, alive) && |r.parent| == |net.parent|
    requires forall v :: v in alive && v != r.root && v < |r.parent| ==> v < |net.parent| && r.parent[v] == net.parent[v]
    requires SubJointAt(net, start, tables, separators, r.root, x)
    requires y == Restrict(x, Variables(net, alive)) && y in m && m[y] == Prod(LiveFactors(net, start, alive, y))
    ensures PartAt(net, tables, separators, r, alive, m, y)
  {
    hide Restrict, Variables, Prod, Times, LiveFactors, LiveSeparators, Subtree;
    LiveRestricted(net, tables, alive, x);
    LiveRestricted(net, start, alive, x);
    LiveSeparatorsRestricted(net, separators, r, alive, x);
    SameLiveSeparators(net, separators, r, r.root, alive, x);
  }

  /**
   * With what is alive heard, and what its tables say together balanced, the table of the root is
   * the marginal of what they said at the start.
   */
  lemma RootSumsUp(net: Net, tables: seq<Table>, separators: map<Edge, Table>, send: seq<set<nat>>, recv: seq<set<nat>>,
                   r: Rooting, alive: set<nat>, m: Table)
    requires Proper(net) && PathCondition(net) && TablesOk(net, tables) && RootedAt(net, r) && UpClosed(r, alive)
    requires Progress(net.neighbors, net.parent, send, recv) && EdgesOk(net, tables, separators, send, true)
    requires HeardFrom(net, send, r, alive) && PartOk(net, tables, separators, r, alive, m)
    requires HasValues(Variables(net, alive), net.radix) && r.root < |tables|
    ensures Marginal(m, Clique(net, r.root)) == tables[r.root]
  {
    assert |send| == |net.parent| == |tables| == |r.parent|;
    assert TableOk(net, tables[r.root], r.root);
    hide Proper, PathCondition, TablesOk, RootedAt, Progress, EdgesOk, HeardFrom, PartOk, HasValues, Variables, Marginal, LeafOk,
      TableOk;
    forall l | l in alive && l < |r.parent| && l != r.root ensures LeafOk(net, tables, separators, r, l) {
      SentTowards(net, send, recv, r, alive, l);
      SentLeafOk(net, tables, separators, send, r, l);
    }
    AllLeavesRemoved(net, tables, separators, r, alive, m);
  }

  // ---- no sum above one --------------------------------------------------------------------------

  /** At the start, what a subtree says of its separator sums to at most one, and so does everything. */
  ghost predicate StartBounded(net: Net, start: seq<Table>) {
    && (forall u :: 0 < u < |net.parent| ==> SumsAtMostOne(PartTable(net, start, Subtree(net, u)), Separator(net, u, net.parent[u])))
    && Sum(JointTable(net, start), JointTable(net, start).Keys) <= 1.0
    && NonNegative(JointTable(net, start))
  }

  /** A join tree over all variables, with a table for every clique. */
  ghost predicate WholeNet(net: Net, start: seq<Table>) {
    && PathCondition(net) && CoversVariables(net) && HasValues(AllVariables(net), net.radix)
    && |start| == |net.cliques|
  }

  /** The join tree and its tables are such that no sum for a message will be above one. */
  ghost predicate Bounded(net: Net, start: seq<Table>) {
    WholeNet(net, start) && StartBounded(net, start)
  }

  /** What a message from i sums up: the start tables below i on the way up, and all of them on the way down. */
  ghost function SaysAt(net: Net, start: seq<Table>, i: nat, to: nat): Table {
    if Up(net.parent, i, to) then PartTable(net, start, Subtree(net, i)) else JointTable(net, start)
  }

  /** That sum is at most one, for every assignment of the edge. */
  ghost predicate Fits(net: Net, start: seq<Table>, i: nat, to: nat) {
    SumsAtMostOne(SaysAt(net, start, i, to), Separator(net, i, to))
  }

  /** So it is for every message: a condition on the start tables alone. */
  ghost predicate AllFit(net: Net, start: seq<Table>) {
    forall i: nat, to: nat :: Directed(net.neighbors, i, to) ==> Fits(net, start, i, to)
  }

  lemma BoundedFits(net: Net, start: seq<Table>)
    requires Proper(net) && Bounded(net, start)
    ensures AllFit(net, start)
  {
    hide SumsAtMostOne, WholeNet, PartTable, JointTable, Sum, Subtree, Separator;
    forall i: nat, to: nat | Directed(net.neighbors, i, to) ensures Fits(net, start, i, to) {
      if !Up(net.parent, i, to) { TotalBounds(JointTable(net, start), Separator(net, i, to)); }
    }
  }

  lemma {:induction false} PartOfSum(t: Table, s: set<Assignment>)
    requires NonNegative(t) && s <= t.Keys
    ensures Sum(t, s) <= Sum(t, t.Keys)
  {
    SumUnion(t, s, t.Keys - s);
    assert s + (t.Keys - s) == t.Keys;
    SumNonNegative(t, t.Keys - s);
  }

  lemma TotalBounds(t: Table, vars: set<nat>)
    requires NonNegative(t) && Sum(t, t.Keys) <= 1.0
    ensures SumsAtMostOne(t, vars)
  {
    forall y | y in Projections(t.Keys, vars) ensures MarginalAt(t, vars, y) <= 1.0 {
      PartOfSum(t, Fibre(t.Keys, vars, y));
    }
  }

  /** Marginals of marginals are bounded exactly as the marginals are. */
  lemma BoundPassesOn(m: Table, t: Table, clique: set<nat>, e: set<nat>)
    requires Marginal(m, clique) == t && e <= clique
    ensures SumsAtMostOne(t, e) <==> SumsAtMostOne(m, e)
  {
    MarginalOfMarginal(m, clique, e);
    BoundOnMarginal(m, e);
    BoundOnMarginal(t, e);
    hide SumsAtMostOne, Marginal;
  }

  lemma BoundOnMarginal(t: Table, e: set<nat>)
    ensures SumsAtMostOne(t, e) <==> forall y :: y in Marginal(t, e) ==> Marginal(t, e)[y] <= 1.0
  {
    hide Restrict, MarginalAt;
    forall y ensures y in Marginal(t, e) <==> y in Projections(t.Keys, e) {}
  }

  /** The first message of i sums up what is below it. */
  lemma FirstMessageBounded(net: Net, start: seq<Table>, tables: seq<Table>, separators: map<Edge, Table>, send: seq<set<nat>>,
                            recv: seq<set<nat>>, i: nat, to: nat)
    requires Proper(net) && WholeNet(net, start) && TablesOk(net, tables)
    requires Progress(net.neighbors, net.parent, send, recv) && EdgesOk(net, tables, separators, send, true)
    requires SubtreesOk(net, start, tables, separators, send)
    requires CanSendFirst(net.neighbors, send, recv, i, to)
    ensures Up(net.parent, i, to) && i < |tables|
    ensures SumsAtMostOne(tables[i], Separator(net, i, to)) <==>
      SumsAtMostOne(PartTable(net, start, Subtree(net, i)), Separator(net, i, to))
  {
    FirstGoesUp(net.neighbors, net.parent, net.depth, send, recv, i, to);
    var r := HangUpAt(net, separators, i);
    var alive := Subtree(net, i);
    SubtreeUpClosed(net, r);
    ChildrenHeard(net, send, recv, r, i, to);
    VariablesAreAll(net, alive);
    SeparatorSymmetric(net, i, to);
    assert i in send[to] by { assert to in recv[i]; }
    hide Progress, CanSendFirst, EdgesOk, RootedAt, PathCondition, CoversVariables, TablesOk, Proper, SumsAtMostOne, Marginal,
      Subtree, PartTable, Full, SubJointAt, Variables, Separator;
    forall x | Full(net, x) ensures SubJointAt(net, start, tables, separators, i, x) {}
    SameCount(net, tables);
    SubtreePart(net, start, tables, separators, r);
    FewerHaveValues(Variables(net, alive), AllVariables(net), net.radix);
    RootSumsUp(net, tables, separators, send, recv, r, alive, PartTable(net, start, alive));
    BoundPassesOn(PartTable(net, start, alive), tables[i], Clique(net, i), Separator(net, i, to));
  }

  lemma SameCount(net: Net, tables: seq<Table>)
    requires TablesOk(net, tables)
    ensures |tables| == |net.cliques|
  {}

  lemma ChildrenHeard(net: Net, send: seq<set<nat>>, recv: seq<set<nat>>, r: Rooting, i: nat, to: nat)
    requires Proper(net) && Progress(net.neighbors, net.parent, send, recv) && RootedAt(net, r) && r.root == i
    requires CanSendFirst(net.neighbors, send, recv, i, to) && to == net.parent[i]
    ensures HeardFrom(net, send, r, Subtree(net, i))
  {
    forall v | v in Subtree(net, i) && v != i && v < |r.parent| && r.parent[v] == i ensures v < |send| && i !in send[v] {
      InSubtree(net, i, v);
      ParentNotBeneath(net, i);
      assert Directed(net.neighbors, v, i) && Directed(net.neighbors, i, v);
      assert v !in recv[i];
    }
  }

  /** A later message of i is part of all there is. */
  lemma AnswerBounded(net: Net, start: seq<Table>, tables: seq<Table>, separators: map<Edge, Table>, send: seq<set<nat>>,
                      recv: seq<set<nat>>, i: nat, to: nat)
    requires Proper(net) && WholeNet(net, start) && TablesOk(net, tables)
    requires Progress(net.neighbors, net.parent, send, recv) && EdgesOk(net, tables, separators, send, true)
    requires forall x :: Full(net, x) ==> JointAt(net, start, tables, separators, x)
    requires CanAnswer(send, recv, i, to)
    ensures !Up(net.parent, i, to) && i < |tables|
    ensures SumsAtMostOne(tables[i], Separator(net, i, to)) <==> SumsAtMostOne(JointTable(net, start), Separator(net, i, to))
  {
    AnswerGoesDown(net.neighbors, net.parent, send, recv, i, to);
    var r := HangUpAt(net, separators, i);
    var alive := AllNodes(net);
    AllUpClosed(net, send, recv, r, i, to);
    SeparatorSymmetric(net, i, to);
    SameCount(net, tables);
    VariablesAreAll(net, alive);
    hide Progress, CanAnswer, EdgesOk, RootedAt, PathCondition, TablesOk, Proper, SumsAtMostOne, Marginal, Full, JointAt,
      Variables, Separator, JointTable, AllNodes, Sum, Prod, UpClosed;
    WholeTree(net, start, tables, separators, r);
    FewerHaveValues(Variables(net, alive), AllVariables(net), net.radix);
    RootSumsUp(net, tables, separators, send, recv, r, alive, JointTable(net, start));
    BoundPassesOn(JointTable(net, start), tables[i], Clique(net, i), Separator(net, i, to));
  }

  lemma AllUpClosed(net: Net, send: seq<set<nat>>, recv: seq<set<nat>>, r: Rooting, i: nat, to: nat)
    requires Proper(net) && Progress(net.neighbors, net.parent, send, recv) && RootedAt(net, r) && r.root == i
    requires CanAnswer(send, recv, i, to)
    ensures UpClosed(r, AllNodes(net)) && HeardFrom(net, send, r, AllNodes(net))
  {
    forall v | v in AllNodes(net) && v != i && v < |r.parent| && r.parent[v] == i ensures v < |send| && i !in send[v] {
      assert Directed(net.neighbors, v, i) && Directed(net.neighbors, i, v);
      assert v !in recv[i];
    }
  }
}
