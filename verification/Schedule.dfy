/** Who may send a message to whom, on a tree, while messages travel in both directions of every edge. */
module Schedule {
  import opened Basics

  /**
   * neighbors describes an undirected tree with root 0: every other node has one parent, one
   * step nearer to the root, and edges run between nodes and their parents only.
   */
  ghost predicate Tree(neighbors: seq<set<nat>>, parent: seq<nat>, depth: seq<nat>) {
    && |neighbors| == |parent| == |depth| >= 1
    && (forall i {:trigger parent[i]} :: 0 < i < |parent| ==>
         && parent[i] < |parent| && depth[parent[i]] < depth[i]
         && parent[i] in neighbors[i] && i in neighbors[parent[i]])
    && (forall i, j :: 0 <= i < |neighbors| && j in neighbors[i] ==> j < |neighbors| && (Up(parent, i, j) || Up(parent, j, i)))
  }

  /** j is the parent of i. */
  predicate Up(parent: seq<nat>, i: nat, j: nat) {
    0 < i < |parent| && parent[i] == j
  }

  lemma Edges(neighbors: seq<set<nat>>, parent: seq<nat>, depth: seq<nat>, i: nat, j: nat)
    requires Tree(neighbors, parent, depth) && i < |neighbors| && j in neighbors[i]
    ensures j < |neighbors| && i in neighbors[j] && i != j
  {}

  /**
   * What holds between messages. recv[i] is kept in step with the send sets of the neighbours;
   * a node sends to j only after hearing from all its other neighbours; nobody sends to a child
   * that has not yet sent to it; the root sends only after hearing from all.
   */
  ghost predicate Progress(neighbors: seq<set<nat>>, parent: seq<nat>, send: seq<set<nat>>, recv: seq<set<nat>>) {
    && |neighbors| == |parent| == |send| == |recv|
    && (forall i :: 0 <= i < |send| ==> send[i] <= neighbors[i] && recv[i] <= neighbors[i])
    && (forall i, j :: 0 <= i < |send| && j in neighbors[i] && 0 <= j < |send| ==> (j in recv[i] <==> i in send[j]))
    && (forall i, j :: 0 <= i < |send| && j in neighbors[i] ==> HeardOthers(send, recv, i, j))
    && (forall i :: 0 < i < |parent| ==> parent[i] < |send| && (i !in send[parent[i]] ==> parent[i] !in send[i]))
    && (|send| > 0 && send[0] != neighbors[0] ==> recv[0] == {})
  }

  /** If i has sent to j, it has heard from all others. */
  ghost predicate HeardOthers(send: seq<set<nat>>, recv: seq<set<nat>>, i: nat, j: nat)
    requires i < |send| == |recv|
  {
    j !in send[i] ==> recv[i] <= {j}
  }

  /** i sends its first message, to the one neighbour it has not heard from. */
  ghost predicate CanSendFirst(neighbors: seq<set<nat>>, send: seq<set<nat>>, recv: seq<set<nat>>, i: nat, to: nat) {
    0 < i < |neighbors| == |send| == |recv| && send[i] == neighbors[i] && recv[i] == {to}
  }

  /** i has heard from all and still has to send to `to`. */
  ghost predicate CanAnswer(send: seq<set<nat>>, recv: seq<set<nat>>, i: nat, to: nat) {
    i < |send| == |recv| && recv[i] == {} && to in send[i]
  }

  function Less(sets: seq<set<nat>>, i: nat, x: nat): seq<set<nat>>
    requires i < |sets|
  {
    sets[i := sets[i] - {x}]
  }

  lemma ProgressStart(neighbors: seq<set<nat>>, parent: seq<nat>, depth: seq<nat>)
    requires Tree(neighbors, parent, depth)
    ensures Progress(neighbors, parent, neighbors, neighbors)
  {}

  /** A node is not the parent of its parent. */
  lemma NotBoth(neighbors: seq<set<nat>>, parent: seq<nat>, depth: seq<nat>, i: nat)
    requires Tree(neighbors, parent, depth) && 0 < i < |parent|
    ensures !Up(parent, parent[i], i)
  {}

  /** As long as i has not heard from k, it has not sent to another neighbour. */
  lemma StillToSend(neighbors: seq<set<nat>>, parent: seq<nat>, send: seq<set<nat>>, recv: seq<set<nat>>,
                    i: nat, j: nat, k: nat)
    requires Progress(neighbors, parent, send, recv)
    requires i < |send| && j in neighbors[i] && k in recv[i] && j != k
    ensures j in send[i]
  {
    assert HeardOthers(send, recv, i, j);
  }

  /** A first message goes to the parent. */
  lemma FirstGoesUp(neighbors: seq<set<nat>>, parent: seq<nat>, depth: seq<nat>, send: seq<set<nat>>, recv: seq<set<nat>>,
                    i: nat, to: nat)
    requires Tree(neighbors, parent, depth) && Progress(neighbors, parent, send, recv)
    requires CanSendFirst(neighbors, send, recv, i, to)
    ensures to == parent[i]
  {
    assert to in recv[i];
    assert parent[i] in neighbors[i];
  }

  /** A later message goes to a child: the parent was sent to before it could be heard from. */
  lemma AnswerGoesDown(neighbors: seq<set<nat>>, parent: seq<nat>, send: seq<set<nat>>, recv: seq<set<nat>>, i: nat, to: nat)
    requires Progress(neighbors, parent, send, recv) && CanAnswer(send, recv, i, to)
    ensures !Up(parent, i, to)
  {
    assert i < |neighbors|;
    assert to in neighbors[i];
  }

  ghost predicate CanSend(neighbors: seq<set<nat>>, send: seq<set<nat>>, recv: seq<set<nat>>, i: nat, to: nat) {
    CanSendFirst(neighbors, send, recv, i, to) || CanAnswer(send, recv, i, to)
  }

  /**
   * Both records of a message are there to be struck out; its sender has heard from all others,
   * and its receiver has sent to nobody else.
   */
  lemma MessageAllowed(neighbors: seq<set<nat>>, parent: seq<nat>, depth: seq<nat>, send: seq<set<nat>>, recv: seq<set<nat>>,
                       i: nat, to: nat)
    requires Tree(neighbors, parent, depth) && Progress(neighbors, parent, send, recv)
    requires CanSend(neighbors, send, recv, i, to)
    ensures to < |send| && to != i && to in neighbors[i] && i in neighbors[to]
    ensures to in send[i] && i in recv[to]
    ensures recv[i] <= {to} && (forall k :: k in neighbors[to] && k != i ==> k in send[to])
    ensures Up(parent, i, to) || (Up(parent, to, i) && i !in send[to])
  {
    if CanSendFirst(neighbors, send, recv, i, to) {
      FirstGoesUp(neighbors, parent, depth, send, recv, i, to);
    }
    Edges(neighbors, parent, depth, i, to);
    assert i in recv[to];
    forall k | k in neighbors[to] && k != i ensures k in send[to] {
      StillToSend(neighbors, parent, send, recv, to, k, i);
    }
  }

  /** A message keeps Progress. */
  lemma MessageKeeps(neighbors: seq<set<nat>>, parent: seq<nat>, depth: seq<nat>, send: seq<set<nat>>, recv: seq<set<nat>>,
                     i: nat, to: nat)
    requires Tree(neighbors, parent, depth) && Progress(neighbors, parent, send, recv)
    requires CanSend(neighbors, send, recv, i, to)
    ensures to < |send| && Progress(neighbors, parent, Less(send, i, to), Less(recv, to, i))
  {
    MessageAllowed(neighbors, parent, depth, send, recv, i, to);
    var send', recv' := Less(send, i, to), Less(recv, to, i);
    forall c {:trigger parent[c]} | 0 < c < |parent| && c !in send'[parent[c]] ensures parent[c] !in send'[c] {
      NotBoth(neighbors, parent, depth, c);
    }
  }

  // ---- no deadlock -----------------------------------------------------------------------------

  function Largest(s: seq<nat>): nat {
    if s == [] then 0 else if s[0] > Largest(s[1..]) then s[0] else Largest(s[1..])
  }

  lemma {:induction false} LargestBounds(s: seq<nat>, k: nat)
    requires k < |s|
    ensures s[k] <= Largest(s)
  {
    if k > 0 { LargestBounds(s[1..], k - 1); }
  }

  /** When i has not sent to its parent, a node at or below i can send. */
  lemma {:induction false} SenderBelow(neighbors: seq<set<nat>>, parent: seq<nat>, depth: seq<nat>, send: seq<set<nat>>,
                                       recv: seq<set<nat>>, i: nat)
    returns (k: nat, to: nat)
    requires Tree(neighbors, parent, depth) && Progress(neighbors, parent, send, recv)
    requires 0 < i < |send| && parent[i] in send[i]
    ensures CanSend(neighbors, send, recv, k, to)
    decreases Largest(depth) - depth[i]
  {
    LargestBounds(depth, i);
    if c :| c in recv[i] && c != parent[i] {
      assert Up(parent, c, i);
      LargestBounds(depth, c);
      k, to := SenderBelow(neighbors, parent, depth, send, recv, c);
    } else {
      if recv[i] != {} {
        assert recv[i] == {parent[i]};
        forall c | c in neighbors[i] ensures c in send[i] {
          if c != parent[i] { StillToSend(neighbors, parent, send, recv, i, c, parent[i]); }
        }
        assert send[i] == neighbors[i];
      }
      k, to := i, parent[i];
    }
  }

  /** No deadlock: as long as a message has not been sent, some node can send. */
  lemma {:induction false} SomeoneCanSend(neighbors: seq<set<nat>>, parent: seq<nat>, depth: seq<nat>, send: seq<set<nat>>,
                                          recv: seq<set<nat>>, i: nat)
    returns (k: nat, to: nat)
    requires Tree(neighbors, parent, depth) && Progress(neighbors, parent, send, recv)
    requires i < |send| && send[i] != {}
    ensures CanSend(neighbors, send, recv, k, to)
    decreases depth[i]
  {
    if j :| j in recv[i] {
      Edges(neighbors, parent, depth, i, j);
      assert i in send[j];
      if Up(parent, j, i) {
        k, to := SenderBelow(neighbors, parent, depth, send, recv, j);
      } else {
        assert Up(parent, i, j);
        k, to := SomeoneCanSend(neighbors, parent, depth, send, recv, j);
      }
    } else {
      k := i;
      to :| to in send[i];
    }
  }

  // ---- counting messages -----------------------------------------------------------------------

  /** The messages of log are the directed edges already used, each of them once. */
  ghost predicate Logged(neighbors: seq<set<nat>>, send: seq<set<nat>>, log: seq<(nat, nat)>) {
    && |send| == |neighbors|
    && (forall k :: 0 <= k < |log| ==> Directed(neighbors, log[k].0, log[k].1))
    && (forall i: nat, j: nat :: Directed(neighbors, i, j) ==> (j !in send[i] <==> (i, j) in log))
    && (forall k, l :: 0 <= k < l < |log| ==> log[k] != log[l])
  }

  ghost predicate Directed(neighbors: seq<set<nat>>, i: nat, j: nat) {
    i < |neighbors| && j in neighbors[i]
  }

  /** Every directed edge: up from each node that is not the root, and down to it. */
  ghost function AllDirected(parent: seq<nat>, n: nat): set<(nat, nat)>
    requires n <= |parent|
  {
    if n <= 1 then {} else AllDirected(parent, n - 1) + {(n - 1, parent[n - 1])} + {(parent[n - 1], n - 1)}
  }

  lemma {:induction false} AllDirectedMember(parent: seq<nat>, n: nat, e: (nat, nat))
    requires n <= |parent|
    ensures e in AllDirected(parent, n) <==>
      (0 < e.0 < n && parent[e.0] == e.1) || (0 < e.1 < n && parent[e.1] == e.0)
  {
    if n > 1 { AllDirectedMember(parent, n - 1, e); }
  }

  lemma {:induction false} AllDirectedSize(neighbors: seq<set<nat>>, parent: seq<nat>, depth: seq<nat>, n: nat)
    requires Tree(neighbors, parent, depth) && 1 <= n <= |parent|
    ensures |AllDirected(parent, n)| == 2 * (n - 1)
  {
    if n > 1 {
      AllDirectedSize(neighbors, parent, depth, n - 1);
      var i := n - 1;
      AllDirectedMember(parent, i, (i, parent[i]));
      AllDirectedMember(parent, i, (parent[i], i));
      assert (i, parent[i]) != (parent[i], i);
    }
  }

  ghost function Entries(log: seq<(nat, nat)>): set<(nat, nat)> { set k | 0 <= k < |log| :: log[k] }

  lemma {:induction false} EntriesSize(log: seq<(nat, nat)>)
    requires forall k, l :: 0 <= k < l < |log| ==> log[k] != log[l]
    ensures |Entries(log)| == |log|
  {
    if log != [] {
      var init, last := log[..|log| - 1], log[|log| - 1];
      EntriesSize(init);
      assert Entries(log) == Entries(init) + {last};
      assert last !in Entries(init);
    }
  }

  lemma LogInTree(neighbors: seq<set<nat>>, parent: seq<nat>, depth: seq<nat>, send: seq<set<nat>>, log: seq<(nat, nat)>)
    requires Tree(neighbors, parent, depth) && Logged(neighbors, send, log)
    ensures |log| <= 2 * (|neighbors| - 1)
    ensures (forall i :: 0 <= i < |send| ==> send[i] == {}) ==> |log| == 2 * (|neighbors| - 1)
  {
    var n := |neighbors|;
    var all := AllDirected(parent, n);
    AllDirectedSize(neighbors, parent, depth, n);
    EntriesSize(log);
    forall e | e in Entries(log) ensures e in all {
      AllDirectedMember(parent, n, e);
    }
    SubsetSize(Entries(log), all);
    if forall i :: 0 <= i < |send| ==> send[i] == {} {
      forall e | e in all ensures e in Entries(log) {
        AllDirectedMember(parent, n, e);
        assert Directed(neighbors, e.0, e.1);
        assert (e.0, e.1) in log;
      }
      SubsetSize(all, Entries(log));
    }
  }

  lemma LogMessage(neighbors: seq<set<nat>>, send: seq<set<nat>>, log: seq<(nat, nat)>, i: nat, to: nat)
    requires Logged(neighbors, send, log) && Directed(neighbors, i, to) && to in send[i]
    ensures Logged(neighbors, Less(send, i, to), log + [(i, to)])
  {
    var log', send' := log + [(i, to)], Less(send, i, to);
    forall a: nat, b: nat | Directed(neighbors, a, b) ensures b !in send'[a] <==> (a, b) in log' {
      assert (a, b) in log' <==> (a, b) in log || (a, b) == (i, to);
    }
  }
}
