/**
 * Message passing in a join tree: each message replaces the separator table of its edge by a
 * marginal of the sender and multiplies the receiver by new over old.
 */
module Messages {
  import opened Tables
  import opened Schedule

  /** The cliques of a join tree; radix[v] is the number of values of variable v. */
  datatype Net = Net(neighbors: seq<set<nat>>, cliques: seq<set<nat>>, radix: seq<nat>, parent: seq<nat>, depth: seq<nat>)

  ghost predicate Proper(net: Net) {
    && Tree(net.neighbors, net.parent, net.depth)
    && |net.cliques| == |net.neighbors|
    && forall i :: 0 <= i < |net.cliques| ==> HasValues(net.cliques[i], net.radix)
  }

  /** The variables two cliques have in common. */
  function Separator(net: Net, i: nat, j: nat): set<nat> {
    Clique(net, i) * Clique(net, j)
  }

  function Clique(net: Net, i: nat): set<nat> {
    if i < |net.cliques| then net.cliques[i] else {}
  }

  type Edge = (nat, nat)

  /** An edge has one table, whichever end it is looked up from. */
  function Key(i: nat, j: nat): Edge {
    if i < j then (i, j) else (j, i)
  }

  // ---- one message -----------------------------------------------------------------------------

  /** new over old; an old table without entries counts as all ones, and entries of zero divide nothing. */
  ghost function Ratio(newS: Table, oldS: Table): Table {
    map y | y in newS :: if At(oldS, y) != 0.0 then Quotient(newS[y], At(oldS, y)) else newS[y]
  }

  /** Each entry of t times the entry of ratio for its separator variables. */
  ghost function Absorb(t: Table, ratio: Table, e: set<nat>): Table {
    map a | a in t :: Times(t[a], At(ratio, Restrict(a, e)))
  }

  /** Wherever s is zero, so is t. */
  ghost predicate Supported(t: Table, s: Table, e: set<nat>) {
    forall a :: a in t ==> Restrict(a, e) in s && (s[Restrict(a, e)] == 0.0 ==> t[a] == 0.0)
  }

  lemma Keyed(t: Table, vars: set<nat>, e: set<nat>, s: Table, radix: seq<nat>)
    requires Complete(t, vars, radix) && e <= vars && Complete(s, e, radix)
    ensures forall a :: a in t ==> Restrict(a, e) in s
  {
    forall a | a in t ensures Restrict(a, e) in s {
      RestrictOver(a, vars, e, radix);
    }
  }

  lemma SameKeys(s: Table, t: Table, e: set<nat>, radix: seq<nat>)
    requires Complete(s, e, radix) && Complete(t, e, radix)
    ensures s.Keys == t.Keys
  {
    hide Over;
    forall a ensures a in s <==> a in t {}
  }

  /** Absorbing only makes zeros. */
  lemma AbsorbKeepsSupport(t: Table, ratio: Table, e: set<nat>, s: Table, f: set<nat>)
    requires Supported(t, s, f)
    ensures Supported(Absorb(t, ratio, e), s, f)
  {
    hide Restrict, Times, Quotient;
    forall a | a in t && Restrict(a, f) in s && s[Restrict(a, f)] == 0.0
      ensures Absorb(t, ratio, e)[a] == 0.0
    {
      TimesZero(At(ratio, Restrict(a, e)));
    }
  }

  /** The first message over an edge: the receiver's entries stay probabilities and get the sender's zeros. */
  lemma FirstMessage(t: Table, s: Table, e: set<nat>)
    requires Probabilities(t) && Probabilities(s)
    requires forall a :: a in t ==> Restrict(a, e) in s
    ensures Probabilities(Absorb(t, s, e)) && Supported(Absorb(t, s, e), s, e)
  {
    hide Restrict, Times, Quotient;
    forall a | a in t
      ensures 0.0 <= Absorb(t, s, e)[a] <= 1.0
      ensures s[Restrict(a, e)] == 0.0 ==> Absorb(t, s, e)[a] == 0.0
    {
      TimesProbability(t[a], s[Restrict(a, e)]);
      TimesZero(t[a]);
    }
  }

  /** The answer over an edge: t is the first sender's table, oldS its marginal, newS the other end's. */
  lemma Answer(t: Table, oldS: Table, newS: Table, e: set<nat>)
    requires Probabilities(t) && Probabilities(newS) && newS.Keys == oldS.Keys
    requires oldS == CappedMarginal(t, e)
    ensures forall a :: a in t ==> Restrict(a, e) in oldS
    ensures oldS != map[] ==> Probabilities(Absorb(t, Ratio(newS, oldS), e))
  {
    hide Restrict, CappedMarginal, Absorb, Ratio, Times, Quotient;
    CappedBounds(t, e);
    if oldS != map[] {
      var r := Ratio(newS, oldS);
      AbsorbKeys(t, r, e);
      forall a | a in t ensures 0.0 <= Absorb(t, r, e)[a] <= 1.0 {
        AnswerEntry(t, oldS, newS, e, a);
      }
    }
  }

  lemma AbsorbKeys(t: Table, ratio: Table, e: set<nat>)
    ensures Absorb(t, ratio, e).Keys == t.Keys
  {}

  lemma AnswerEntry(t: Table, oldS: Table, newS: Table, e: set<nat>, a: Assignment)
    requires newS.Keys == oldS.Keys && a in t && Restrict(a, e) in oldS
    requires 0.0 <= newS[Restrict(a, e)] <= 1.0 && 0.0 <= t[a] <= oldS[Restrict(a, e)]
    ensures 0.0 <= Absorb(t, Ratio(newS, oldS), e)[a] <= 1.0
  {
    hide Restrict, Times, Quotient;
    var y := Restrict(a, e);
    if oldS[y] != 0.0 {
      ShareOfQuotient(t[a], oldS[y], newS[y]);
    } else {
      TimesZero(Ratio(newS, oldS)[y]);
    }
  }

  /** After the answer both ends have the same marginal. */
  lemma Calibrates(t: Table, oldS: Table, newS: Table, e: set<nat>)
    requires Probabilities(t) && newS.Keys == oldS.Keys && oldS != map[]
    requires oldS == Marginal(t, e)
    requires forall y :: y in oldS && oldS[y] == 0.0 ==> newS[y] == 0.0
    requires forall a :: a in t ==> Restrict(a, e) in oldS
    ensures Marginal(Absorb(t, Ratio(newS, oldS), e), e) == newS
  {
    hide Restrict, Times, Quotient, Sum;
    var r := Ratio(newS, oldS);
    var u := Absorb(t, r, e);
    assert u.Keys == t.Keys;
    forall y | y in oldS ensures MarginalAt(u, e, y) == newS[y] {
      var f := Fibre(t.Keys, e, y);
      SumScale(t, u, f, r[y]);
      assert MarginalAt(t, e, y) == oldS[y];
      if oldS[y] != 0.0 {
        TimesQuotient(oldS[y], newS[y]);
      } else {
        TimesZero(r[y]);
      }
    }
  }

  /** A table that is zero wherever s is has a marginal that is zero there. */
  lemma ZeroMarginal(t: Table, s: Table, e: set<nat>, y: Assignment)
    requires Supported(t, s, e) && y in s && s[y] == 0.0
    ensures MarginalAt(t, e, y) == 0.0
  {
    hide Times, Restrict, Sum;
    var f := Fibre(t.Keys, e, y);
    forall x: real ensures Times(x, 0.0) == 0.0 { TimesZero(x); }
    SumScale(t, t, f, 0.0);
    TimesZero(Sum(t, f));
  }

  // ---- the state of all edges ------------------------------------------------------------------

  ghost predicate TablesOk(net: Net, tables: seq<Table>) {
    && |tables| == |net.cliques|
    && forall i :: 0 <= i < |tables| ==> TableOk(net, tables[i], i)
  }

  ghost predicate TableOk(net: Net, t: Table, i: nat) {
    Complete(t, Clique(net, i), net.radix) && Probabilities(t)
  }

  /**
   * What the table s of the edge between u and v is, seen from u: empty before any message, the
   * (capped) marginal of the only sender, and at the end a marginal of both. `exact` says that
   * no sum was above one so far.
   */
  ghost predicate EdgeOk(tu: Table, tv: Table, s: Table, uSent: bool, vSent: bool, e: set<nat>, radix: seq<nat>, exact: bool) {
    && (!uSent && !vSent ==> s == map[])
    && (uSent || vSent ==> SeparatorOk(s, e, radix))
    && (uSent && !vSent ==> s == CappedMarginal(tu, e) && Supported(tv, s, e))
    && (uSent && exact ==> s == Marginal(tu, e))
  }

  ghost predicate SeparatorOk(s: Table, e: set<nat>, radix: seq<nat>) {
    Complete(s, e, radix) && Probabilities(s) && s != map[]
  }

  /** The edge between u and v, seen from u. */
  ghost predicate EdgeState(net: Net, tables: seq<Table>, separators: map<Edge, Table>, send: seq<set<nat>>, exact: bool,
                            u: nat, v: nat)
  {
    && u < |tables| == |send| && v < |tables| && Key(u, v) in separators
    && EdgeOk(tables[u], tables[v], separators[Key(u, v)], v !in send[u], u !in send[v], Separator(net, u, v), net.radix, exact)
  }

  ghost predicate EdgesOk(net: Net, tables: seq<Table>, separators: map<Edge, Table>, send: seq<set<nat>>, exact: bool) {
    forall u: nat, v: nat :: Directed(net.neighbors, u, v) ==> EdgeState(net, tables, separators, send, exact, u, v)
  }

  // ---- the edge of a message -------------------------------------------------------------------

  /** What is known of the tables when ti's side sends over e; answer: t's side has sent before. */
  ghost predicate Sending(ti: Table, t: Table, newS: Table, oldS: Table, e: set<nat>, radix: seq<nat>, answer: bool, exact: bool) {
    && EdgeOk(t, ti, oldS, answer, false, e, radix, exact) && Probabilities(t)
    && newS == CappedMarginal(ti, e) && SeparatorOk(newS, e, radix)
    && (forall a :: a in t ==> Restrict(a, e) in newS)
  }

  lemma FirstRatio(newS: Table)
    ensures Ratio(newS, map[]) == newS
  {}

  /** The receiver's entries stay probabilities. */
  lemma ReceiverProbabilities(ti: Table, t: Table, newS: Table, oldS: Table, e: set<nat>, radix: seq<nat>, answer: bool, exact: bool)
    requires Sending(ti, t, newS, oldS, e, radix, answer, exact)
    ensures Probabilities(Absorb(t, Ratio(newS, oldS), e))
  {
    hide Restrict, Absorb, Ratio, CappedMarginal, Supported, Complete, Marginal, Probabilities;
    if answer {
      SameKeys(oldS, newS, e, radix);
      Answer(t, oldS, newS, e);
    } else {
      FirstRatio(newS);
      FirstMessage(t, newS, e);
    }
  }

  /** The edge of the message, seen from its sender. */
  lemma SenderEdge(ti: Table, t: Table, newS: Table, oldS: Table, e: set<nat>, radix: seq<nat>, answer: bool, exact: bool)
    requires Sending(ti, t, newS, oldS, e, radix, answer, exact)
    ensures EdgeOk(ti, Absorb(t, Ratio(newS, oldS), e), newS, true, answer, e, radix, exact && SumsAtMostOne(ti, e))
  {
    hide Restrict, Absorb, Ratio, CappedMarginal, Supported, Complete, Marginal, Probabilities, SumsAtMostOne;
    if SumsAtMostOne(ti, e) { CappedIsMarginal(ti, e); }
    if !answer {
      FirstRatio(newS);
      FirstMessage(t, newS, e);
    }
  }

  /** The edge of the message, seen from its receiver: an answer leaves both ends with the same marginal. */
  lemma ReceiverEdge(ti: Table, t: Table, newS: Table, oldS: Table, e: set<nat>, radix: seq<nat>, answer: bool, exact: bool)
    requires Sending(ti, t, newS, oldS, e, radix, answer, exact)
    ensures EdgeOk(Absorb(t, Ratio(newS, oldS), e), ti, newS, answer, true, e, radix, exact && SumsAtMostOne(ti, e))
  {
    if answer && exact {
      SameKeys(oldS, newS, e, radix);
      CappedAtZero(ti, oldS, newS, e);
      hide Restrict, Absorb, Ratio, CappedMarginal, Supported, Complete, Marginal, Probabilities, SumsAtMostOne;
      Calibrates(t, oldS, newS, e);
    }
  }

  lemma CappedAtZero(ti: Table, oldS: Table, newS: Table, e: set<nat>)
    requires Supported(ti, oldS, e) && newS == CappedMarginal(ti, e) && oldS.Keys == newS.Keys
    ensures forall y :: y in oldS && oldS[y] == 0.0 ==> newS[y] == 0.0
  {
    hide Supported, MarginalAt, Projections;
    forall y | y in oldS && oldS[y] == 0.0 ensures newS[y] == 0.0 {
      ZeroMarginal(ti, oldS, e, y);
    }
  }

  /** An edge from the receiver to another neighbour, to which it has not sent, keeps its state. */
  lemma OtherEdge(tu: Table, t: Table, s: Table, f: set<nat>, radix: seq<nat>, uSent: bool, exact: bool, more: bool,
                  ratio: Table, e: set<nat>)
    requires EdgeOk(tu, t, s, uSent, false, f, radix, exact) && EdgeOk(t, tu, s, false, uSent, f, radix, exact)
    ensures EdgeOk(tu, Absorb(t, ratio, e), s, uSent, false, f, radix, exact && more)
    ensures EdgeOk(Absorb(t, ratio, e), tu, s, false, uSent, f, radix, exact && more)
  {
    hide Restrict, Absorb, CappedMarginal, Supported, Complete, Marginal, Probabilities;
    if uSent { AbsorbKeepsSupport(t, ratio, e, s, f); }
  }

  lemma KeyInjective(i: nat, j: nat, u: nat, v: nat)
    requires Key(i, j) == Key(u, v)
    ensures (i == u && j == v) || (i == v && j == u)
  {}

  lemma SeparatorSymmetric(net: Net, i: nat, j: nat)
    ensures Separator(net, i, j) == Separator(net, j, i) && Key(i, j) == Key(j, i)
    ensures Separator(net, i, j) <= Clique(net, i) && Separator(net, i, j) <= Clique(net, j)
  {}

  lemma NotEmpty(t: Table, vars: set<nat>, radix: seq<nat>)
    requires Complete(t, vars, radix) && HasValues(vars, radix)
    ensures t != map[]
  {
    var a := Extension(map[], {}, vars, radix);
    assert a in t;
  }

  // ---- a message -------------------------------------------------------------------------------

  /** The message from i to `to` takes tables and separators to after and separators'. */
  ghost predicate Message(net: Net, tables: seq<Table>, separators: map<Edge, Table>,
                          after: seq<Table>, separators': map<Edge, Table>, i: nat, to: nat)
  {
    && i < |tables| && to < |tables| && Key(i, to) in separators
    && var e := Separator(net, i, to);
      && var newS := CappedMarginal(tables[i], e);
      && separators' == separators[Key(i, to) := newS]
      && after == tables[to := Absorb(tables[to], Ratio(newS, separators[Key(i, to)]), e)]
  }

  /** What a new separator table looks like, and that the message can be formed. */
  lemma MessageCanBeFormed(net: Net, tables: seq<Table>, separators: map<Edge, Table>, send: seq<set<nat>>, exact: bool,
                           i: nat, to: nat)
    requires Proper(net) && TablesOk(net, tables) && EdgeState(net, tables, separators, send, exact, to, i)
    requires to in send[i] && to < |net.cliques| && i < |net.cliques|
    ensures Key(i, to) in separators
    ensures Sending(tables[i], tables[to], CappedMarginal(tables[i], Separator(net, i, to)), separators[Key(i, to)],
                    Separator(net, i, to), net.radix, i !in send[to], exact)
  {
    SeparatorSymmetric(net, i, to);
    assert TableOk(net, tables[i], i) && TableOk(net, tables[to], to) && HasValues(Clique(net, i), net.radix);
    var e := Separator(net, i, to);
    var newS := CappedMarginal(tables[i], e);
    ProjectionsComplete(tables[i], Clique(net, i), e, net.radix);
    CappedBounds(tables[i], e);
    NotEmpty(newS, e, net.radix);
    Keyed(tables[to], Clique(net, to), e, newS, net.radix);
  }

  /** What marginalize, divide and multiply need: keys that match. */
  lemma KeysMatch(ti: Table, t: Table, newS: Table, oldS: Table, e: set<nat>, radix: seq<nat>, answer: bool, exact: bool)
    requires Sending(ti, t, newS, oldS, e, radix, answer, exact)
    ensures oldS == map[] || oldS.Keys == newS.Keys
  {
    if answer { SameKeys(oldS, newS, e, radix); }
  }

  lemma AbsorbComplete(t: Table, ratio: Table, e: set<nat>, vars: set<nat>, radix: seq<nat>)
    requires Complete(t, vars, radix)
    ensures Complete(Absorb(t, ratio, e), vars, radix)
  {
    assert Absorb(t, ratio, e).Keys == t.Keys;
    hide Over, Restrict, Absorb;
    forall a ensures a in Absorb(t, ratio, e) <==> Over(a, vars, radix) {}
  }

  /** A message keeps the tables complete and their entries probabilities. */
  lemma MessageKeepsTables(net: Net, tables: seq<Table>, separators: map<Edge, Table>, after: seq<Table>,
                           separators': map<Edge, Table>, send: seq<set<nat>>, exact: bool, i: nat, to: nat)
    requires TablesOk(net, tables) && Message(net, tables, separators, after, separators', i, to)
    requires |send| == |tables|
    requires Sending(tables[i], tables[to], CappedMarginal(tables[i], Separator(net, i, to)), separators[Key(i, to)],
                     Separator(net, i, to), net.radix, i !in send[to], exact)
    ensures TablesOk(net, after)
  {
    var e, oldS := Separator(net, i, to), separators[Key(i, to)];
    var newS := CappedMarginal(tables[i], e);
    hide Complete, Probabilities, Absorb, Ratio, CappedMarginal, Restrict, Sending, Separator, Key, Clique;
    assert TableOk(net, tables[to], to);
    ReceiverProbabilities(tables[i], tables[to], newS, oldS, e, net.radix, i !in send[to], exact);
    AbsorbComplete(tables[to], Ratio(newS, oldS), e, Clique(net, to), net.radix);
  }

  /** The edge of the message after it, seen from its sender. */
  lemma MessageSenderEdge(net: Net, tables: seq<Table>, separators: map<Edge, Table>, after: seq<Table>,
                          separators': map<Edge, Table>, send: seq<set<nat>>, exact: bool, i: nat, to: nat)
    requires Message(net, tables, separators, after, separators', i, to) && |send| == |tables| && i != to
    requires Sending(tables[i], tables[to], CappedMarginal(tables[i], Separator(net, i, to)), separators[Key(i, to)],
                     Separator(net, i, to), net.radix, i !in send[to], exact)
    ensures EdgeState(net, after, separators', Less(send, i, to), exact && SumsAtMostOne(tables[i], Separator(net, i, to)), i, to)
  {
    hide Separator, Key, Absorb, Ratio, EdgeOk, SumsAtMostOne, CappedMarginal, Sending;
    var e, oldS := Separator(net, i, to), separators[Key(i, to)];
    var send' := Less(send, i, to);
    assert to !in send'[i] && send'[to] == send[to];
    SenderEdge(tables[i], tables[to], CappedMarginal(tables[i], e), oldS, e, net.radix, i !in send[to], exact);
  }

  /** And from its receiver. */
  lemma MessageReceiverEdge(net: Net, tables: seq<Table>, separators: map<Edge, Table>, after: seq<Table>,
                            separators': map<Edge, Table>, send: seq<set<nat>>, exact: bool, i: nat, to: nat)
    requires Message(net, tables, separators, after, separators', i, to) && |send| == |tables| && i != to
    requires Sending(tables[i], tables[to], CappedMarginal(tables[i], Separator(net, i, to)), separators[Key(i, to)],
                     Separator(net, i, to), net.radix, i !in send[to], exact)
    ensures EdgeState(net, after, separators', Less(send, i, to), exact && SumsAtMostOne(tables[i], Separator(net, i, to)), to, i)
  {
    SeparatorSymmetric(net, i, to);
    hide Separator, Key, Absorb, Ratio, EdgeOk, SumsAtMostOne, CappedMarginal, Sending;
    var e, oldS := Separator(net, i, to), separators[Key(i, to)];
    var send' := Less(send, i, to);
    assert to !in send'[i] && send'[to] == send[to];
    ReceiverEdge(tables[i], tables[to], CappedMarginal(tables[i], e), oldS, e, net.radix, i !in send[to], exact);
  }

  /** Any other edge, after the message. */
  lemma MessageOtherEdge(net: Net, tables: seq<Table>, separators: map<Edge, Table>, after: seq<Table>,
                         separators': map<Edge, Table>, send: seq<set<nat>>, exact: bool, more: bool,
                         i: nat, to: nat, u: nat, v: nat)
    requires Message(net, tables, separators, after, separators', i, to) && i < |send|
    requires EdgeState(net, tables, separators, send, exact, u, v) && EdgeState(net, tables, separators, send, exact, v, u)
    requires !(u == i && v == to) && !(u == to && v == i) && u != v
    requires u == to ==> v in send[to]
    requires v == to ==> u in send[to]
    ensures EdgeState(net, after, separators', Less(send, i, to), exact && more, u, v)
  {
    SeparatorSymmetric(net, u, v);
    var e, s, f := Separator(net, i, to), separators[Key(u, v)], Separator(net, u, v);
    var ratio := Ratio(CappedMarginal(tables[i], e), separators[Key(i, to)]);
    if Key(u, v) == Key(i, to) { KeyInjective(u, v, i, to); }
    hide Separator, Key, Absorb, Ratio, EdgeOk, CappedMarginal;
    if u == to {
      OtherEdge(tables[v], tables[to], s, f, net.radix, u !in send[v], exact, more, ratio, e);
    } else if v == to {
      OtherEdge(tables[u], tables[to], s, f, net.radix, v !in send[u], exact, more, ratio, e);
    } else {
      LessExact(tables[u], tables[v], s, v !in send[u], u !in send[v], f, net.radix, exact, more);
    }
  }

  lemma LessExact(tu: Table, tv: Table, s: Table, uSent: bool, vSent: bool, e: set<nat>, radix: seq<nat>, exact: bool, more: bool)
    requires EdgeOk(tu, tv, s, uSent, vSent, e, radix, exact)
    ensures EdgeOk(tu, tv, s, uSent, vSent, e, radix, exact && more)
  {}

  /** A message keeps the state of every edge. */
  lemma MessageKeepsEdges(net: Net, tables: seq<Table>, separators: map<Edge, Table>, after: seq<Table>,
                          separators': map<Edge, Table>, send: seq<set<nat>>, recv: seq<set<nat>>, exact: bool, i: nat, to: nat)
    requires Proper(net) && TablesOk(net, tables) && EdgesOk(net, tables, separators, send, exact)
    requires Progress(net.neighbors, net.parent, send, recv) && CanSend(net.neighbors, send, recv, i, to)
    requires Message(net, tables, separators, after, separators', i, to)
    ensures TablesOk(net, after)
    ensures EdgesOk(net, after, separators', Less(send, i, to), exact && SumsAtMostOne(tables[i], Separator(net, i, to)))
  {
    MessageAllowed(net.neighbors, net.parent, net.depth, send, recv, i, to);
    assert Directed(net.neighbors, to, i);
    MessageCanBeFormed(net, tables, separators, send, exact, i, to);
    MessageKeepsTables(net, tables, separators, after, separators', send, exact, i, to);
    assert Tree(net.neighbors, net.parent, net.depth);
    hide EdgeState, TablesOk, Separator, CanSend, Progress, Tree, Up, Proper, Key, Message, Sending, CappedMarginal;
    MessageSenderEdge(net, tables, separators, after, separators', send, exact, i, to);
    MessageReceiverEdge(net, tables, separators, after, separators', send, exact, i, to);
    var more := SumsAtMostOne(tables[i], Separator(net, i, to));
    hide SumsAtMostOne;
    forall u: nat, v: nat | Directed(net.neighbors, u, v)
      ensures EdgeState(net, after, separators', Less(send, i, to), exact && more, u, v)
    {
      Edges(net.neighbors, net.parent, net.depth, u, v);
      assert Directed(net.neighbors, v, u);
      if !(u == i && v == to) && !(u == to && v == i) {
        MessageOtherEdge(net, tables, separators, after, separators', send, exact, more, i, to, u, v);
      }
    }
  }
}
