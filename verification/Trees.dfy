/** Connected graphs without cycles are trees with a root, parents and depths. */
module Trees {
  import opened Schedule

  /** An undirected graph without loops at a node. */
  ghost predicate Undirected(neighbors: seq<set<nat>>) {
    forall i: nat, j: nat :: Directed(neighbors, i, j) ==> i != j && Directed(neighbors, j, i)
  }

  ghost predicate Walk(neighbors: seq<set<nat>>, walk: seq<nat>) {
    |walk| > 0 && forall k :: 0 <= k < |walk| - 1 ==> Directed(neighbors, walk[k], walk[k + 1])
  }

  /** There is a walk of k steps from v to node 0. */
  ghost predicate Reaches(neighbors: seq<set<nat>>, v: nat, k: nat) {
    exists walk :: Walk(neighbors, walk) && |walk| == k + 1 && walk[0] == v && walk[k] == 0
  }

  ghost predicate Connected(neighbors: seq<set<nat>>) {
    forall v :: 0 <= v < |neighbors| ==> ReachesRoot(neighbors, v)
  }

  ghost predicate ReachesRoot(neighbors: seq<set<nat>>, v: nat) {
    exists k: nat :: Reaches(neighbors, v, k)
  }

  /** The walk goes over the edge between u and v, in one direction or the other. */
  ghost predicate GoesOver(walk: seq<nat>, u: nat, v: nat) {
    exists k :: 0 <= k < |walk| - 1 && ((walk[k] == u && walk[k + 1] == v) || (walk[k] == v && walk[k + 1] == u))
  }

  /** No edge closes a cycle: the only way between its ends is over the edge itself. */
  ghost predicate NoCycle(neighbors: seq<set<nat>>) {
    forall u: nat, v: nat, walk :: Directed(neighbors, u, v) && Walk(neighbors, walk) && walk[0] == u && walk[|walk| - 1] == v ==>
      GoesOver(walk, u, v)
  }

  // ---- distances to node 0 -----------------------------------------------------------------------

  ghost predicate IsDistance(neighbors: seq<set<nat>>, v: nat, k: nat) {
    Reaches(neighbors, v, k) && forall j: nat :: j < k ==> !Reaches(neighbors, v, j)
  }

  lemma {:induction false} DistanceExists(neighbors: seq<set<nat>>, v: nat, k: nat) returns (d: nat)
    requires Reaches(neighbors, v, k)
    ensures IsDistance(neighbors, v, d)
    decreases k
  {
    if j: nat :| j < k && Reaches(neighbors, v, j) {
      d := DistanceExists(neighbors, v, j);
    } else {
      d := k;
    }
  }

  ghost function Distance(neighbors: seq<set<nat>>, v: nat): (d: nat)
    requires Connected(neighbors) && v < |neighbors|
    ensures IsDistance(neighbors, v, d)
  {
    assert exists d: nat :: IsDistance(neighbors, v, d) by {
      assert ReachesRoot(neighbors, v);
      var k: nat :| Reaches(neighbors, v, k);
      var d := DistanceExists(neighbors, v, k);
    }
    var d: nat :| IsDistance(neighbors, v, d);
    d
  }

  ghost predicate IsCloser(neighbors: seq<set<nat>>, v: nat, p: nat)
    requires Connected(neighbors) && v < |neighbors|
  {
    Directed(neighbors, v, p) && p < |neighbors| && Distance(neighbors, p) < Distance(neighbors, v)
  }

  /** The next node of a shortest walk is closer. */
  lemma CloserExists(neighbors: seq<set<nat>>, v: nat)
    requires Connected(neighbors) && Undirected(neighbors) && 0 < v < |neighbors|
    ensures exists p: nat :: IsCloser(neighbors, v, p)
  {
    var d := Distance(neighbors, v);
    var walk :| Walk(neighbors, walk) && |walk| == d + 1 && walk[0] == v && walk[d] == 0;
    assert d > 0;
    var p, rest := walk[1], walk[1..];
    assert Directed(neighbors, v, p) && Directed(neighbors, p, v);
    forall k | 0 <= k < |rest| - 1 ensures Directed(neighbors, rest[k], rest[k + 1]) {
      assert Directed(neighbors, walk[k + 1], walk[k + 2]);
    }
    assert Walk(neighbors, rest) && |rest| == (d - 1) + 1 && rest[0] == p && rest[d - 1] == 0;
    assert Reaches(neighbors, p, d - 1);
    assert IsCloser(neighbors, v, p);
  }

  ghost function Closer(neighbors: seq<set<nat>>, v: nat): (p: nat)
    requires Connected(neighbors) && Undirected(neighbors) && 0 < v < |neighbors|
    ensures IsCloser(neighbors, v, p)
  {
    CloserExists(neighbors, v);
    var p: nat :| IsCloser(neighbors, v, p);
    p
  }

  // ---- walks along parents -----------------------------------------------------------------------

  /** Parents one step closer, with depths that grow away from node 0. */
  ghost predicate Parents(neighbors: seq<set<nat>>, parent: seq<nat>, depth: seq<nat>) {
    && |neighbors| == |parent| == |depth| >= 1
    && forall i {:trigger parent[i]} :: 0 < i < |parent| ==>
         parent[i] < |parent| && depth[parent[i]] < depth[i] && Directed(neighbors, i, parent[i]) && Directed(neighbors, parent[i], i)
  }

  ghost function UpPath(neighbors: seq<set<nat>>, parent: seq<nat>, depth: seq<nat>, v: nat): (walk: seq<nat>)
    requires Parents(neighbors, parent, depth) && v < |parent|
    ensures Walk(neighbors, walk) && walk[0] == v && walk[|walk| - 1] == 0
    ensures forall k :: 0 <= k < |walk| - 1 ==> Up(parent, walk[k], walk[k + 1])
    decreases depth[v]
  {
    if v == 0 then [0] else
      var rest := UpPath(neighbors, parent, depth, parent[v]);
      [v] + rest
  }

  ghost function DownPath(neighbors: seq<set<nat>>, parent: seq<nat>, depth: seq<nat>, v: nat): (walk: seq<nat>)
    requires Parents(neighbors, parent, depth) && v < |parent|
    ensures Walk(neighbors, walk) && walk[0] == 0 && walk[|walk| - 1] == v
    ensures forall k :: 0 <= k < |walk| - 1 ==> Up(parent, walk[k + 1], walk[k])
    decreases depth[v]
  {
    if v == 0 then [0] else
      var rest := DownPath(neighbors, parent, depth, parent[v]);
      rest + [v]
  }

  /** Up to node 0 and down again goes over edges between nodes and their parents only. */
  lemma ThroughRoot(neighbors: seq<set<nat>>, parent: seq<nat>, depth: seq<nat>, i: nat, j: nat) returns (walk: seq<nat>)
    requires Parents(neighbors, parent, depth) && i < |parent| && j < |parent|
    ensures Walk(neighbors, walk) && walk[0] == i && walk[|walk| - 1] == j
    ensures forall k :: 0 <= k < |walk| - 1 ==> Up(parent, walk[k], walk[k + 1]) || Up(parent, walk[k + 1], walk[k])
  {
    var up, down := UpPath(neighbors, parent, depth, i), DownPath(neighbors, parent, depth, j);
    walk := up + down[1..];
    forall k | 0 <= k < |walk| - 1
      ensures Directed(neighbors, walk[k], walk[k + 1])
      ensures Up(parent, walk[k], walk[k + 1]) || Up(parent, walk[k + 1], walk[k])
    {
      if k < |up| - 1 {
        assert walk[k] == up[k] && walk[k + 1] == up[k + 1];
      } else {
        var m := k - (|up| - 1);
        assert walk[k] == down[m] && walk[k + 1] == down[m + 1];
      }
    }
  }

  /** Every connected graph without cycles is a tree in the sense of the schedule. */
  lemma EveryTreeHasParents(neighbors: seq<set<nat>>) returns (parent: seq<nat>, depth: seq<nat>)
    requires |neighbors| >= 1 && Undirected(neighbors) && Connected(neighbors) && NoCycle(neighbors)
    ensures Tree(neighbors, parent, depth)
  {
    parent := seq(|neighbors|, v requires 0 <= v < |neighbors| => if v == 0 then 0 else Closer(neighbors, v));
    depth := seq(|neighbors|, v requires 0 <= v < |neighbors| => Distance(neighbors, v));
    forall i | 0 < i < |parent|
      ensures parent[i] < |parent| && depth[parent[i]] < depth[i]
      ensures Directed(neighbors, i, parent[i]) && Directed(neighbors, parent[i], i)
    {
      assert parent[i] == Closer(neighbors, i);
    }
    assert Parents(neighbors, parent, depth);
    hide Connected, Distance, Closer;
    forall i: nat, j: nat | Directed(neighbors, i, j) ensures j < |neighbors| && (Up(parent, i, j) || Up(parent, j, i)) {
      assert Directed(neighbors, j, i);
      var walk := ThroughRoot(neighbors, parent, depth, i, j);
      assert GoesOver(walk, i, j);
    }
    assert forall i, j :: 0 <= i < |neighbors| && j in neighbors[i] ==> Directed(neighbors, i, j);
  }

  // ---- and the other way round -------------------------------------------------------------------

  /** v is c or has it above it. */
  ghost predicate Below(neighbors: seq<set<nat>>, parent: seq<nat>, depth: seq<nat>, c: nat, v: nat)
    requires Parents(neighbors, parent, depth)
    decreases if v < |depth| then depth[v] else 0
  {
    v == c || (0 < v < |parent| && Below(neighbors, parent, depth, c, parent[v]))
  }

  lemma {:induction false} BelowIsDeeper(neighbors: seq<set<nat>>, parent: seq<nat>, depth: seq<nat>, c: nat, v: nat)
    requires Parents(neighbors, parent, depth) && c < |parent| && v < |parent| && Below(neighbors, parent, depth, c, v)
    ensures depth[c] <= depth[v]
    decreases depth[v]
  {
    if v != c { BelowIsDeeper(neighbors, parent, depth, c, parent[v]); }
  }

  /** The only edge between what is below c and the rest is the one above c. */
  lemma OneWayOut(neighbors: seq<set<nat>>, parent: seq<nat>, depth: seq<nat>, c: nat, u: nat, v: nat)
    requires Tree(neighbors, parent, depth) && Parents(neighbors, parent, depth) && Directed(neighbors, u, v)
    requires Below(neighbors, parent, depth, c, u) != Below(neighbors, parent, depth, c, v)
    ensures (u == c && Up(parent, c, v)) || (v == c && Up(parent, c, u))
  {
    assert Up(parent, u, v) || Up(parent, v, u);
  }

  lemma {:induction false} WalkOut(neighbors: seq<set<nat>>, parent: seq<nat>, depth: seq<nat>, c: nat, walk: seq<nat>)
    requires Tree(neighbors, parent, depth) && Parents(neighbors, parent, depth) && 0 < c < |parent| && Walk(neighbors, walk)
    requires Below(neighbors, parent, depth, c, walk[0]) != Below(neighbors, parent, depth, c, walk[|walk| - 1])
    ensures GoesOver(walk, c, parent[c])
    decreases |walk|
  {
    var rest := walk[1..];
    hide Parents, Tree, Below;
    if Below(neighbors, parent, depth, c, walk[0]) != Below(neighbors, parent, depth, c, walk[1]) {
      assert Directed(neighbors, walk[0], walk[1]);
      OneWayOut(neighbors, parent, depth, c, walk[0], walk[1]);
    } else {
      forall k | 0 <= k < |rest| - 1 ensures Directed(neighbors, rest[k], rest[k + 1]) {
        assert Directed(neighbors, walk[k + 1], walk[k + 2]);
      }
      assert Walk(neighbors, rest);
      WalkOut(neighbors, parent, depth, c, rest);
      var k :| 0 <= k < |rest| - 1 &&
        ((rest[k] == c && rest[k + 1] == parent[c]) || (rest[k] == parent[c] && rest[k + 1] == c));
      assert walk[k + 1] == rest[k] && walk[k + 2] == rest[k + 1];
    }
  }

  lemma TreeHasParents(neighbors: seq<set<nat>>, parent: seq<nat>, depth: seq<nat>)
    requires Tree(neighbors, parent, depth)
    ensures Parents(neighbors, parent, depth) && Undirected(neighbors)
  {
    forall i: nat, j: nat | Directed(neighbors, i, j) ensures i != j && Directed(neighbors, j, i) {
      Edges(neighbors, parent, depth, i, j);
    }
  }

  /** An edge of a tree cannot be gone round. */
  lemma EdgeIsNeeded(neighbors: seq<set<nat>>, parent: seq<nat>, depth: seq<nat>, c: nat, walk: seq<nat>)
    requires Tree(neighbors, parent, depth) && 0 < c < |parent| && Walk(neighbors, walk)
    requires (walk[0] == c && walk[|walk| - 1] == parent[c]) || (walk[0] == parent[c] && walk[|walk| - 1] == c)
    ensures GoesOver(walk, c, parent[c])
  {
    TreeHasParents(neighbors, parent, depth);
    if Below(neighbors, parent, depth, c, parent[c]) { BelowIsDeeper(neighbors, parent, depth, c, parent[c]); }
    WalkOut(neighbors, parent, depth, c, walk);
  }

  /** Every tree in the sense of the schedule is a connected graph without cycles. */
  lemma TreesAreGraphs(neighbors: seq<set<nat>>, parent: seq<nat>, depth: seq<nat>)
    requires Tree(neighbors, parent, depth)
    ensures Undirected(neighbors) && Connected(neighbors) && NoCycle(neighbors)
  {
    TreeHasParents(neighbors, parent, depth);
    forall v | 0 <= v < |neighbors| ensures ReachesRoot(neighbors, v) {
      var up := UpPath(neighbors, parent, depth, v);
      assert Reaches(neighbors, v, |up| - 1);
    }
    forall u: nat, v: nat, walk | Directed(neighbors, u, v) && Walk(neighbors, walk) && walk[0] == u && walk[|walk| - 1] == v
      ensures GoesOver(walk, u, v)
    {
      assert Up(parent, u, v) || Up(parent, v, u);
      if Up(parent, u, v) {
        EdgeIsNeeded(neighbors, parent, depth, u, walk);
      } else {
        EdgeIsNeeded(neighbors, parent, depth, v, walk);
      }
    }
  }
}
