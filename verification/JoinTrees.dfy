/** The join tree as the program keeps it: tables changed in place by messages over the edges. */
module JoinTrees {
  import opened Tables
  import opened Schedule
  import opened Messages
  import opened Joint
  import opened LeafRemoval
  import opened Subtrees

  /** What holds between messages; send and recv are the messages still to come, log those sent. */
  ghost predicate SoundAt(net: Net, start: seq<Table>, tables: seq<Table>, separators: map<Edge, Table>, log: seq<Edge>,
                          exact: bool, send: seq<set<nat>>, recv: seq<set<nat>>)
  {
    && Proper(net)
    && Progress(net.neighbors, net.parent, send, recv)
    && Logged(net.neighbors, send, log)
    && TablesOk(net, tables)
    && EdgesOk(net, tables, separators, send, exact)
    && (forall x :: Full(net, x) ==> JointAt(net, start, tables, separators, x))
    && SubtreesOk(net, start, tables, separators, send)
    && (WholeNet(net, start) ==> (exact <==> SentFit(net, start, send)))
  }

  /** Every message sent so far sums to at most one in terms of the start tables. */
  ghost predicate SentFit(net: Net, start: seq<Table>, send: seq<set<nat>>) {
    forall i: nat, to: nat :: Directed(net.neighbors, i, to) && i < |send| && to !in send[i] ==> Fits(net, start, i, to)
  }

  lemma SentFitNext(net: Net, start: seq<Table>, send: seq<set<nat>>, i: nat, to: nat)
    requires i < |send| && to in send[i] && Directed(net.neighbors, i, to)
    ensures SentFit(net, start, Less(send, i, to)) <==> SentFit(net, start, send) && Fits(net, start, i, to)
  {
    hide Fits;
    var next := Less(send, i, to);
    if SentFit(net, start, next) {
      assert to !in next[i];
      forall k: nat, u: nat | Directed(net.neighbors, k, u) && k < |send| && u !in send[k] ensures Fits(net, start, k, u) {
        assert u !in next[k];
      }
    }
  }

  /** Before the first message: a separator without entries on every edge. */
  ghost predicate Unused(net: Net, separators: map<Edge, Table>) {
    && (forall u: nat, v: nat :: Directed(net.neighbors, u, v) ==> Key(u, v) in separators)
    && (forall k :: k in separators ==> separators[k] == map[])
  }

  lemma SoundStart(net: Net, tables: seq<Table>, separators: map<Edge, Table>)
    requires Proper(net) && TablesOk(net, tables) && Unused(net, separators)
    ensures SoundAt(net, tables, tables, separators, [], true, net.neighbors, net.neighbors)
  {
    ProgressStart(net.neighbors, net.parent, net.depth);
    forall x | Full(net, x) ensures JointAt(net, tables, tables, separators, x) {
      JointStart(net, tables, separators, x);
    }
    forall u, x | 0 < u < |net.parent| && Full(net, x) ensures SubJointAt(net, tables, tables, separators, u, x) {
      SubJointStart(net, tables, separators, u, x);
    }
    hide WholeNet, SubJointAt, JointAt, Fits;
    forall u: nat, v: nat | Directed(net.neighbors, u, v)
      ensures EdgeState(net, tables, separators, net.neighbors, true, u, v)
    {
      Edges(net.neighbors, net.parent, net.depth, u, v);
    }
  }

  /** The message can be formed. */
  lemma StepReady(net: Net, start: seq<Table>, tables: seq<Table>, separators: map<Edge, Table>, log: seq<Edge>,
                  exact: bool, send: seq<set<nat>>, recv: seq<set<nat>>, i: nat, to: nat)
    requires SoundAt(net, start, tables, separators, log, exact, send, recv)
    requires CanSend(net.neighbors, send, recv, i, to)
    ensures i < |tables| && to < |tables| == |send| == |recv| && i != to && to in send[i] && i in recv[to]
    ensures Key(i, to) in separators && Probabilities(tables[i])
    ensures var newS := CappedMarginal(tables[i], Separator(net, i, to));
      && (separators[Key(i, to)] == map[] || separators[Key(i, to)].Keys == newS.Keys)
      && forall a :: a in tables[to] ==> Restrict(a, Separator(net, i, to)) in newS
    ensures Sending(tables[i], tables[to], CappedMarginal(tables[i], Separator(net, i, to)), separators[Key(i, to)],
                    Separator(net, i, to), net.radix, i !in send[to], exact)
    ensures Up(net.parent, i, to) || Up(net.parent, to, i)
    ensures Directed(net.neighbors, i, to)
  {
    MessageAllowed(net.neighbors, net.parent, net.depth, send, recv, i, to);
    assert Directed(net.neighbors, to, i);
    assert EdgeState(net, tables, separators, send, exact, to, i);
    assert TableOk(net, tables[i], i);
    hide CanSend, Progress, JointAt, EdgesOk, TablesOk, Proper, EdgeState, CappedMarginal, Separator, EdgeOk, Restrict,
      SubtreesOk, WholeNet, SentFit;
    MessageCanBeFormed(net, tables, separators, send, exact, i, to);
    KeysMatch(tables[i], tables[to], CappedMarginal(tables[i], Separator(net, i, to)), separators[Key(i, to)],
              Separator(net, i, to), net.radix, i !in send[to], exact);
  }

  /** A message keeps what holds between messages. */
  lemma StepSound(net: Net, start: seq<Table>, tables: seq<Table>, separators: map<Edge, Table>, log: seq<Edge>,
                  exact: bool, send: seq<set<nat>>, recv: seq<set<nat>>,
                  after: seq<Table>, separators': map<Edge, Table>, i: nat, to: nat)
    requires SoundAt(net, start, tables, separators, log, exact, send, recv)
    requires CanSend(net.neighbors, send, recv, i, to) && i < |send| && to < |recv|
    requires Message(net, tables, separators, after, separators', i, to)
    ensures SoundAt(net, start, after, separators', log + [(i, to)],
                    exact && SumsAtMostOne(tables[i], Separator(net, i, to)), Less(send, i, to), Less(recv, to, i))
  {
    StepReady(net, start, tables, separators, log, exact, send, recv, i, to);
    MessageKeeps(net.neighbors, net.parent, net.depth, send, recv, i, to);
    LogMessage(net.neighbors, send, log, i, to);
    MessageKeepsEdges(net, tables, separators, after, separators', send, recv, exact, i, to);
    if WholeNet(net, start) && exact { MessageSum(net, start, tables, separators, send, recv, i, to); }
    hide Sending, Message, CanSend, Progress, Logged, EdgesOk, JointAt, TablesOk, Proper, SumsAtMostOne, Separator,
      CappedMarginal, Up, Full, Key, Less, SubtreesOk, WholeNet, Fits, SentFit;
    SentFitNext(net, start, send, i, to);
    MessageKeepsSubtrees(net, start, tables, separators, after, separators', send, exact, i, to);
    forall x | Full(net, x) ensures JointAt(net, start, after, separators', x) {
      MessageKeepsJoint(net, start, tables, separators, after, separators', i !in send[to], exact, i, to, x);
    }
  }

  /** As long as no sum was above one, the sum of a message is what the start tables say. */
  lemma MessageSum(net: Net, start: seq<Table>, tables: seq<Table>, separators: map<Edge, Table>, send: seq<set<nat>>,
                   recv: seq<set<nat>>, i: nat, to: nat)
    requires Proper(net) && WholeNet(net, start) && TablesOk(net, tables)
    requires Progress(net.neighbors, net.parent, send, recv) && EdgesOk(net, tables, separators, send, true)
    requires SubtreesOk(net, start, tables, separators, send)
    requires forall x :: Full(net, x) ==> JointAt(net, start, tables, separators, x)
    requires CanSend(net.neighbors, send, recv, i, to)
    ensures i < |tables| && (SumsAtMostOne(tables[i], Separator(net, i, to)) <==> Fits(net, start, i, to))
  {
    hide Proper, WholeNet, TablesOk, Progress, EdgesOk, SubtreesOk, Full, JointAt, SumsAtMostOne, Separator, PartTable, JointTable,
      Subtree, Up;
    if CanSendFirst(net.neighbors, send, recv, i, to) {
      FirstMessageBounded(net, start, tables, separators, send, recv, i, to);
    } else {
      AnswerBounded(net, start, tables, separators, send, recv, i, to);
    }
  }

  /** When everything has been sent, every edge is calibrated unless a sum was above one. */
  lemma Finished(net: Net, start: seq<Table>, tables: seq<Table>, separators: map<Edge, Table>, log: seq<Edge>,
                 exact: bool, send: seq<set<nat>>, recv: seq<set<nat>>)
    requires SoundAt(net, start, tables, separators, log, exact, send, recv)
    requires forall i :: 0 <= i < |send| ==> send[i] == {}
    ensures exact ==> Calibrated(net, tables, separators)
    ensures WholeNet(net, start) ==> (exact <==> AllFit(net, start))
    ensures |log| == 2 * (|net.neighbors| - 1)
    ensures forall u: nat, v: nat :: Directed(net.neighbors, u, v) ==> (u, v) in log
  {
    hide WholeNet, SentFit, AllFit, EdgesOk, TablesOk, JointAt, Full, SubtreesOk, Calibrated, Tree;
    AllSentFit(net, start, send);
    if exact { AllCalibrated(net, tables, separators, send); }
    hide Proper, Progress, Logged;
    LogOfAll(net, send, recv, log);
  }

  lemma LogOfAll(net: Net, send: seq<set<nat>>, recv: seq<set<nat>>, log: seq<Edge>)
    requires Proper(net) && Progress(net.neighbors, net.parent, send, recv) && Logged(net.neighbors, send, log)
    requires forall i :: 0 <= i < |send| ==> send[i] == {}
    ensures |log| == 2 * (|net.neighbors| - 1)
    ensures forall u: nat, v: nat :: Directed(net.neighbors, u, v) ==> (u, v) in log
  {
    LogInTree(net.neighbors, net.parent, net.depth, send, log);
  }

  /** With nothing left to send, every edge holds the marginal of both its ends. */
  lemma AllCalibrated(net: Net, tables: seq<Table>, separators: map<Edge, Table>, send: seq<set<nat>>)
    requires Proper(net) && EdgesOk(net, tables, separators, send, true)
    requires forall i :: 0 <= i < |send| ==> send[i] == {}
    ensures Calibrated(net, tables, separators)
  {
    hide Marginal, CappedMarginal, Supported, SeparatorOk, Separator;
    forall u: nat, v: nat | Directed(net.neighbors, u, v)
      ensures Key(u, v) in separators && u < |tables| && v < |tables|
        && separators[Key(u, v)] == Marginal(tables[u], Separator(net, u, v))
        && separators[Key(u, v)] == Marginal(tables[v], Separator(net, u, v))
    {
      Edges(net.neighbors, net.parent, net.depth, u, v);
      SeparatorSymmetric(net, u, v);
      assert Directed(net.neighbors, v, u);
      assert EdgeState(net, tables, separators, send, true, u, v);
      assert EdgeState(net, tables, separators, send, true, v, u);
    }
  }

  lemma AllSentFit(net: Net, start: seq<Table>, send: seq<set<nat>>)
    requires |send| == |net.neighbors| && forall i :: 0 <= i < |send| ==> send[i] == {}
    ensures SentFit(net, start, send) <==> AllFit(net, start)
  {
    hide Fits;
  }

  /** Entries of newS over those of oldS, one entry after another. */
  method DivideBy(newS: Table, oldS: Table) returns (temp: Table)
    requires newS.Keys == oldS.Keys
    ensures temp == Ratio(newS, oldS)
  {
    hide Quotient;
    temp := newS;
    var todo := temp.Keys;
    while todo != {}
      invariant todo <= newS.Keys && temp.Keys == newS.Keys
      invariant forall y :: y in newS ==> temp[y] == if y in todo then newS[y] else Ratio(newS, oldS)[y]
    {
      var y :| y in todo;
      if oldS[y] != 0.0 {
        temp := temp[y := Quotient(temp[y], oldS[y])];
      }
      todo := todo - {y};
    }
  }

  class JoinTree {
    const net: Net
    const tables: array<Table>
    var separators: map<Edge, Table>

    /** The tables before the first message. */
    ghost const start: seq<Table>

    /** The messages sent so far, in order. */
    ghost var log: seq<Edge>

    /** No sum taken for a message so far was above one. */
    ghost var exact: bool

    constructor (net: Net, tables: array<Table>, separators: map<Edge, Table>)
      ensures this.net == net && this.tables == tables && start == tables[..]
      ensures this.separators == separators && log == [] && exact
    {
      this.net := net;
      this.tables := tables;
      this.separators := separators;
      start := tables[..];
      log := [];
      exact := true;
    }

    ghost predicate Sound(send: seq<set<nat>>, recv: seq<set<nat>>)
      reads this, tables
    {
      SoundAt(net, start, tables[..], separators, log, exact, send, recv)
    }

    /** The entries of the receiver's table are multiplied in place. */
    method MultiplyBy(to: nat, temp: Table, e: set<nat>)
      requires to < tables.Length && forall a :: a in tables[to] ==> Restrict(a, e) in temp
      modifies tables
      ensures tables[..] == old(tables[..])[to := Absorb(old(tables[to]), temp, e)]
    {
      hide Times, Restrict;
      ghost var t := tables[to];
      var todo := tables[to].Keys;
      while todo != {}
        invariant todo <= t.Keys && tables[to].Keys == t.Keys
        invariant forall a :: a in t ==> tables[to][a] == if a in todo then t[a] else Absorb(t, temp, e)[a]
        invariant tables[..] == old(tables[..])[to := tables[to]]
      {
        var a :| a in todo;
        var y := Project(a, e);
        tables[to] := tables[to][a := Times(tables[to][a], temp[y])];
        todo := todo - {a};
      }
      assert tables[to] == Absorb(t, temp, e);
    }

    /** pass_join_tree_message. */
    method PassMessage(from: nat, to: nat)
      requires from < tables.Length && to < tables.Length && from != to && Key(from, to) in separators
      requires Probabilities(tables[from])
      requires var newS := CappedMarginal(tables[from], Separator(net, from, to));
        && (separators[Key(from, to)] == map[] || separators[Key(from, to)].Keys == newS.Keys)
        && forall a :: a in tables[to] ==> Restrict(a, Separator(net, from, to)) in newS
      modifies tables, this`separators, this`log, this`exact
      ensures Message(net, old(tables[..]), old(separators), tables[..], separators, from, to)
      ensures log == old(log) + [(from, to)]
      ensures exact == (old(exact) && SumsAtMostOne(old(tables[from]), Separator(net, from, to)))
    {
      hide CappedMarginal, Quotient, Times, Restrict, Absorb, SumsAtMostOne, Probabilities;
      var e := Separator(net, from, to);
      hide Separator;
      var oldS := separators[Key(from, to)];
      var newS := Marginalize(tables[from], e);
      exact := exact && SumsAtMostOne(tables[from], e);
      var temp := newS;
      if |oldS| > 0 {
        temp := DivideBy(newS, oldS);
      } else {
        FirstRatio(newS);
      }
      MultiplyBy(to, temp, e);
      separators := separators[Key(from, to) := newS];
      log := log + [(from, to)];
    }

    /** i has heard from all neighbours but one and sends that one its first message. */
    method SendFirst(i: nat, send: array<set<nat>>, recv: array<set<nat>>)
      requires Sound(send[..], recv[..]) && send != recv && send.Length == recv.Length == |net.neighbors|
      requires 0 < i < send.Length && |send[i]| == |net.neighbors[i]| && |recv[i]| == 1
      modifies tables, this`separators, this`log, this`exact, send, recv
      ensures Sound(send[..], recv[..]) && |log| == |old(log)| + 1
    {
      hide SoundAt, CanSend, Message, CappedMarginal, Separator, Key, Restrict, Probabilities, Sending, Up, Directed, Less;
      ghost var sendWas, recvWas, tablesWas, separatorsWas := send[..], recv[..], tables[..], separators;
      FirstChoice(net, start, tablesWas, separators, log, exact, sendWas, recvWas, i);
      var to :| to in recv[i];
      StepReady(net, start, tablesWas, separators, log, exact, sendWas, recvWas, i, to);
      recv[i] := recv[i] - {to};
      PassMessage(i, to);
      assert to in send[i] && i in recv[to];
      send[i] := send[i] - {to};
      recv[to] := recv[to] - {i};
      recv[i] := recv[i] + {to};
      StepSound(net, start, tablesWas, separatorsWas, old(log), old(exact), sendWas, recvWas, tables[..], separators, i, to);
      LessIs(sendWas, i, to);
      LessIs(recvWas, to, i);
      assert send[..] == sendWas[i := sendWas[i] - {to}];
      assert recv[..] == recvWas[to := recvWas[to] - {i}];
    }

    /** i has heard from all neighbours and sends to one it has not sent to. */
    method SendOn(i: nat, send: array<set<nat>>, recv: array<set<nat>>)
      requires Sound(send[..], recv[..]) && send != recv && send.Length == recv.Length == |net.neighbors|
      requires i < send.Length && |recv[i]| == 0 && |send[i]| > 0
      modifies tables, this`separators, this`log, this`exact, send, recv
      ensures Sound(send[..], recv[..]) && |log| == |old(log)| + 1
      ensures recv[i] == old(recv[i])
    {
      hide SoundAt, CanSend, Message, CappedMarginal, Separator, Key, Restrict, Probabilities, Sending, Up, Directed, Less;
      ghost var sendWas, recvWas, tablesWas, separatorsWas := send[..], recv[..], tables[..], separators;
      var to :| to in send[i];
      NextChoice(net.neighbors, sendWas, recvWas, i, to);
      StepReady(net, start, tablesWas, separators, log, exact, sendWas, recvWas, i, to);
      send[i] := send[i] - {to};
      assert i in recv[to];
      recv[to] := recv[to] - {i};
      PassMessage(i, to);
      StepSound(net, start, tablesWas, separatorsWas, old(log), old(exact), sendWas, recvWas, tables[..], separators, i, to);
      LessIs(sendWas, i, to);
      LessIs(recvWas, to, i);
      assert send[..] == sendWas[i := sendWas[i] - {to}];
      assert recv[..] == recvWas[to := recvWas[to] - {i}];
    }

    /** Nodes 1 to i - 1 cannot send. */
    ghost predicate QuietBelow(send: seq<set<nat>>, recv: seq<set<nat>>, i: nat) {
      forall k: nat, to: nat :: 0 < k < i ==> !CanSend(net.neighbors, send, recv, k, to)
    }

    /** One node's turn: it sends a message if it may. */
    method Turn(i: nat, send: array<set<nat>>, recv: array<set<nat>>) returns (messageSent: bool)
      requires Sound(send[..], recv[..]) && send != recv && send.Length == recv.Length == |net.neighbors|
      requires 0 < i < send.Length
      modifies tables, this`separators, this`log, this`exact, send, recv
      ensures Sound(send[..], recv[..])
      ensures messageSent ==> |log| == |old(log)| + 1
      ensures !messageSent ==> send[..] == old(send[..]) && recv[..] == old(recv[..]) && log == old(log)
      ensures !messageSent ==> forall to: nat :: !CanSend(net.neighbors, send[..], recv[..], i, to)
    {
      hide SoundAt;
      messageSent := true;
      if |send[i]| == |net.neighbors[i]| && |recv[i]| == 1 {
        SendFirst(i, send, recv);
      } else if |recv[i]| == 0 && |send[i]| > 0 {
        SendOn(i, send, recv);
      } else {
        messageSent := false;
      }
    }

    /** The turn of the root: once it has heard from all it sends to all it has not sent to. */
    method RootTurn(send: array<set<nat>>, recv: array<set<nat>>) returns (messageSent: bool)
      requires Sound(send[..], recv[..]) && send != recv && send.Length == recv.Length == |net.neighbors| > 0
      modifies tables, this`separators, this`log, this`exact, send, recv
      ensures Sound(send[..], recv[..])
      ensures messageSent ==> |log| > |old(log)|
      ensures !messageSent ==> send[..] == old(send[..]) && recv[..] == old(recv[..]) && log == old(log)
      ensures !messageSent ==> forall to: nat :: !CanSend(net.neighbors, send[..], recv[..], 0, to)
    {
      hide SoundAt;
      messageSent := false;
      if |recv[0]| == 0 {
        while |send[0]| > 0
          invariant Sound(send[..], recv[..]) && |recv[0]| == 0
          invariant messageSent ==> |log| > |old(log)|
          invariant |log| >= |old(log)|
          invariant !messageSent ==> send[..] == old(send[..]) && recv[..] == old(recv[..]) && log == old(log)
          decreases 2 * |net.neighbors| - |log|
        {
          SendOn(0, send, recv);
          messageSent := true;
          LogBound(send[..], recv[..]);
        }
      }
    }

    lemma LogBound(send: seq<set<nat>>, recv: seq<set<nat>>)
      requires Sound(send, recv)
      ensures |log| <= 2 * (|net.neighbors| - 1)
    {
      LogInTree(net.neighbors, net.parent, net.depth, send, log);
    }

    /** One pass over all nodes, the root last. */
    method Pass(send: array<set<nat>>, recv: array<set<nat>>) returns (messageSent: bool)
      requires Sound(send[..], recv[..]) && send != recv && send.Length == recv.Length == |net.neighbors| > 0
      modifies tables, this`separators, this`log, this`exact, send, recv
      ensures Sound(send[..], recv[..])
      ensures |log| >= |old(log)| && (messageSent ==> |log| > |old(log)|)
      ensures !messageSent ==> forall k: nat, to: nat :: k < send.Length ==> !CanSend(net.neighbors, send[..], recv[..], k, to)
    {
      hide SoundAt, CanSend;
      messageSent := false;
      var i := 1;
      while i < send.Length
        invariant 1 <= i <= send.Length
        invariant Sound(send[..], recv[..]) && |log| >= |old(log)| && (messageSent ==> |log| > |old(log)|)
        invariant !messageSent ==> QuietBelow(send[..], recv[..], i)
      {
        var sent := Turn(i, send, recv);
        messageSent := messageSent || sent;
        i := i + 1;
      }
      var sent := RootTurn(send, recv);
      messageSent := messageSent || sent;
    }

    /** Nobody has sent or received anything yet. */
    method AllRemaining() returns (remaining: array<set<nat>>)
      ensures remaining[..] == net.neighbors && fresh(remaining)
    {
      remaining := new set<nat>[|net.neighbors|];
      var k := 0;
      while k < |net.neighbors|
        invariant 0 <= k <= |net.neighbors| && remaining[..k] == net.neighbors[..k]
      {
        remaining[k] := net.neighbors[k];
        k := k + 1;
      }
    }

    /**
     * The message loop: every directed edge carries one message, the joint function is what it
     * was, and every edge ends calibrated unless a sum was above one, which the start tables tell.
     */
    method Propagate()
      requires Proper(net) && TablesOk(net, tables[..]) && start == tables[..]
      requires Unused(net, separators) && log == [] && exact
      modifies tables, this`separators, this`log, this`exact
      ensures TablesOk(net, tables[..])
      ensures exact ==> Calibrated(net, tables[..], separators)
      ensures WholeNet(net, start) ==> (exact <==> AllFit(net, start))
      ensures forall x :: Full(net, x) ==> JointAt(net, start, tables[..], separators, x)
      ensures |log| == 2 * (|net.neighbors| - 1)
      ensures forall u: nat, v: nat :: Directed(net.neighbors, u, v) ==> (u, v) in log
    {
      SoundStart(net, tables[..], separators);
      hide SoundAt, CanSend;
      var recv := AllRemaining();
      var send := AllRemaining();
      var messageSent := true;
      while messageSent
        invariant Sound(send[..], recv[..]) && fresh(send) && fresh(recv) && |log| <= 2 * |net.neighbors|
        invariant !messageSent ==>
          forall k: nat, to: nat :: k < send.Length ==> !CanSend(net.neighbors, send[..], recv[..], k, to)
        decreases 2 * |net.neighbors| - |log|, messageSent
      {
        messageSent := Pass(send, recv);
        LogBound(send[..], recv[..]);
      }
      NobodyCanSend(net, start, tables[..], separators, log, exact, send[..], recv[..]);
      Finished(net, start, tables[..], separators, log, exact, send[..], recv[..]);
    }
  }

  /** A node with one message to come and nothing sent can send to the one it has not heard from. */
  lemma FirstChoice(net: Net, start: seq<Table>, tables: seq<Table>, separators: map<Edge, Table>, log: seq<Edge>,
                    exact: bool, send: seq<set<nat>>, recv: seq<set<nat>>, i: nat)
    requires SoundAt(net, start, tables, separators, log, exact, send, recv)
    requires 0 < i < |send| && i < |net.neighbors| && |send[i]| == |net.neighbors[i]| && i < |recv| && |recv[i]| == 1
    ensures exists to :: to in recv[i]
    ensures forall to :: to in recv[i] ==> CanSend(net.neighbors, send, recv, i, to) && recv[i] == {to}
  {
    SameSize(send[i], net.neighbors[i]);
    var x :| x in recv[i];
    assert |recv[i] - {x}| == 0;
    assert recv[i] == {x};
  }

  lemma NextChoice(neighbors: seq<set<nat>>, send: seq<set<nat>>, recv: seq<set<nat>>, i: nat, to: nat)
    requires i < |send| == |recv| && to in send[i] && |recv[i]| == 0
    ensures CanSend(neighbors, send, recv, i, to)
  {}

  lemma LessIs(sets: seq<set<nat>>, i: nat, x: nat)
    requires i < |sets|
    ensures Less(sets, i, x) == sets[i := sets[i] - {x}]
  {}

  lemma {:induction false} SameSize<T>(a: set<T>, b: set<T>)
    requires a <= b && |a| == |b|
    ensures a == b
  {
    if x :| x in a { SameSize(a - {x}, b - {x}); }
  }

  /** No deadlock: when nobody can send, nothing is left to send. */
  lemma NobodyCanSend(net: Net, start: seq<Table>, tables: seq<Table>, separators: map<Edge, Table>, log: seq<Edge>,
                      exact: bool, send: seq<set<nat>>, recv: seq<set<nat>>)
    requires SoundAt(net, start, tables, separators, log, exact, send, recv)
    requires forall k: nat, to: nat :: k < |send| ==> !CanSend(net.neighbors, send, recv, k, to)
    ensures forall i :: 0 <= i < |send| ==> send[i] == {}
    ensures TablesOk(net, tables)
    ensures forall x :: Full(net, x) ==> JointAt(net, start, tables, separators, x)
  {
    forall i | 0 <= i < |send| ensures send[i] == {} {
      if send[i] != {} {
        var k, to := SomeoneCanSend(net.neighbors, net.parent, net.depth, send, recv, i);
        assert false;
      }
    }
  }
}
