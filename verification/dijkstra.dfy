/**
 * `dijkstra` and its guard `findShortestPath` (main.js:119-188): rounds that
 * pop the first least-distance entry, skip it when stale, relax the popped
 * node's list, and stop at the end node; then the path is read back through
 * `previous` from the end node.
 */
module Dijkstra {
  import opened Graphs
  import opened DijkstraState
  import Adjacency

  /** Distances only go down (∞ counts as above every finite value). */
  ghost predicate Monotone(nodes: seq<NodeId>, s: State, r: State)
    requires Covers(nodes, s.dist) && Covers(nodes, r.dist)
  {
    forall x :: x in nodes ==> AtMost(r.dist[x], s.dist[x])
  }

  /**
   * Each lowered node now has `u` as predecessor and the distance
   * `distances[u] + w` of one of u's entries; the rest keep their predecessor;
   * `u`'s own distance does not move.
   */
  ghost predicate Attributed(nodes: seq<NodeId>, adj: AdjacencyList, u: NodeId, s: State, r: State)
    requires Keyed(nodes, s) && Keyed(nodes, r) && u in adj && u in nodes && s.dist[u].Some?
  {
    && r.dist[u] == s.dist[u]
    && (forall x :: x in nodes && r.dist[x] != s.dist[x] ==>
          && r.prev[x] == Some(u)
          && exists k :: 0 <= k < |adj[u]| && adj[u][k].node == x && r.dist[x].Some? && r.dist[x].value == s.dist[u].value + adj[u][k].weight)
    && (forall x :: x in nodes && r.dist[x] == s.dist[x] ==> r.prev[x] == s.prev[x])
  }

  /** No queued node leaves the queue. */
  ghost predicate KeepsQueued(s: State, r: State) {
    forall x :: Queued(s.queue, x) ==> Queued(r.queue, x)
  }

  /** A pass that changes no distance changes nothing; any other pass is progress. */
  ghost predicate Measured(nodes: seq<NodeId>, s: State, r: State)
    requires Covers(nodes, s.dist) && Covers(nodes, r.dist)
  {
    && (r.dist == s.dist ==> r == s)
    && (r.dist != s.dist ==> Progress(nodes, s.dist, r.dist))
  }

  /** What one relaxation pass over u's list may do to the state. */
  ghost predicate Steps(nodes: seq<NodeId>, adj: AdjacencyList, u: NodeId, s: State, r: State) {
    && Keyed(nodes, s) && Keyed(nodes, r)
    && u in adj && u in nodes && s.dist[u].Some?
    && Monotone(nodes, s, r)
    && Attributed(nodes, adj, u, s, r)
    && KeepsQueued(s, r)
    && Measured(nodes, s, r)
  }

  lemma StepsRefl(nodes: seq<NodeId>, adj: AdjacencyList, u: NodeId, s: State)
    requires Keyed(nodes, s) && u in adj && u in nodes && s.dist[u].Some?
    ensures Steps(nodes, adj, u, s, s)
  {
  }

  lemma AttributedCompose(nodes: seq<NodeId>, adj: AdjacencyList, u: NodeId, s: State, s1: State, r: State)
    requires Keyed(nodes, s) && Keyed(nodes, s1) && Keyed(nodes, r)
    requires u in adj && u in nodes && s.dist[u].Some? && s1.dist[u] == s.dist[u]
    requires Monotone(nodes, s, s1) && Monotone(nodes, s1, r)
    requires Attributed(nodes, adj, u, s, s1) && Attributed(nodes, adj, u, s1, r)
    ensures Attributed(nodes, adj, u, s, r)
  {
    forall x | x in nodes && r.dist[x] == s.dist[x]
      ensures r.prev[x] == s.prev[x]
    {
      assert AtMost(r.dist[x], s1.dist[x]) && AtMost(s1.dist[x], s.dist[x]);
      assert s1.dist[x] == s.dist[x];
    }
    forall x | x in nodes && r.dist[x] != s.dist[x]
      ensures r.prev[x] == Some(u)
      ensures exists k :: 0 <= k < |adj[u]| && adj[u][k].node == x && r.dist[x].Some? && r.dist[x].value == s.dist[u].value + adj[u][k].weight
    {
      var k := AttributedOne(nodes, adj, u, s, s1, r, x);
    }
  }

  lemma AttributedOne(nodes: seq<NodeId>, adj: AdjacencyList, u: NodeId, s: State, s1: State, r: State, x: NodeId)
    returns (k: nat)
    requires Keyed(nodes, s) && Keyed(nodes, s1) && Keyed(nodes, r)
    requires u in adj && u in nodes && s.dist[u].Some? && s1.dist[u] == s.dist[u]
    requires Attributed(nodes, adj, u, s, s1) && Attributed(nodes, adj, u, s1, r)
    requires x in nodes && r.dist[x] != s.dist[x]
    ensures r.prev[x] == Some(u)
    ensures k < |adj[u]| && adj[u][k].node == x && r.dist[x].Some? && r.dist[x].value == s.dist[u].value + adj[u][k].weight
  {
    if r.dist[x] == s1.dist[x] {
      k :| 0 <= k < |adj[u]| && adj[u][k].node == x && s1.dist[x].Some? && s1.dist[x].value == s.dist[u].value + adj[u][k].weight;
    } else {
      k :| 0 <= k < |adj[u]| && adj[u][k].node == x && r.dist[x].Some? && r.dist[x].value == s1.dist[u].value + adj[u][k].weight;
    }
  }

  lemma MeasuredCompose(nodes: seq<NodeId>, s: State, s1: State, r: State)
    requires Covers(nodes, s.dist) && Covers(nodes, s1.dist) && Covers(nodes, r.dist)
    requires Measured(nodes, s, s1) && Measured(nodes, s1, r)
    ensures Measured(nodes, s, r)
  {
    if s1.dist != s.dist && r.dist != s1.dist {
      ProgressTransitive(nodes, s.dist, s1.dist, r.dist);
    }
  }

  lemma StepsCompose(nodes: seq<NodeId>, adj: AdjacencyList, u: NodeId, s: State, s1: State, r: State)
    requires Steps(nodes, adj, u, s, s1) && Steps(nodes, adj, u, s1, r)
    ensures Steps(nodes, adj, u, s, r)
  {
    AttributedCompose(nodes, adj, u, s, s1, r);
    MeasuredCompose(nodes, s, s1, r);
  }

  /**
   * What holds before the `j`-th entry of u's list is examined: the
   * invariants, u finite, every earlier neighbour finite, and (under
   * decrease-key) every other expanded node's neighbours finite.
   */
  ghost predicate Relaxing(policy: QueuePolicy, adj: AdjacencyList, nodes: seq<NodeId>, start: NodeId,
                           u: NodeId, j: nat, s: State) {
    && Core(policy, adj, nodes, start, s)
    && u in adj && j <= |adj[u]| && s.dist[u].Some?
    && FinitePrefix(adj, u, j, s.dist)
    && (policy.UpdateIfQueued? ==> SettledExcept(adj, nodes, s, Some(u)))
  }

  /** The first `j` neighbours of `u` have finite distances. */
  ghost predicate FinitePrefix(adj: AdjacencyList, u: NodeId, j: nat, d: map<NodeId, Dist>)
    requires u in adj && j <= |adj[u]|
  {
    forall k :: 0 <= k < j ==> adj[u][k].node in d && d[adj[u][k].node].Some?
  }

  lemma FinitePrefixGrows(adj: AdjacencyList, u: NodeId, j: nat, d: map<NodeId, Dist>, d': map<NodeId, Dist>)
    requires u in adj && j < |adj[u]| && FinitePrefix(adj, u, j, d)
    requires forall x :: x in d && d[x].Some? ==> x in d' && d'[x].Some?
    requires adj[u][j].node in d' && d'[adj[u][j].node].Some?
    ensures FinitePrefix(adj, u, j + 1, d')
  {
    forall k | 0 <= k < j + 1
      ensures adj[u][k].node in d' && d'[adj[u][k].node].Some?
    {
      if k < j {
        assert adj[u][k].node in d && d[adj[u][k].node].Some?;
      }
    }
  }

  /**
   * The pass over u's neighbour list from the `j`-th entry on: for each
   * entry, u's current distance plus the entry's weight replaces the
   * neighbour's distance when it is smaller.
   */
  function Relax(policy: QueuePolicy, adj: AdjacencyList, u: NodeId, j: nat, s: State): State
    requires u in adj && j <= |adj[u]| && u in s.dist
    requires forall k :: 0 <= k < |adj[u]| ==> adj[u][k].node in s.dist
    decreases |adj[u]| - j
  {
    if j == |adj[u]| then s
    else if Less(Plus(s.dist[u], adj[u][j].weight), s.dist[adj[u][j].node]) then
      Relax(policy, adj, u, j + 1, LowerAt(policy, adj, s, u, j, s.dist[u].value))
    else
      Relax(policy, adj, u, j + 1, s)
  }

  /**
   * The pass over u's list keeps every invariant, only lowers distances
   * (each through one of u's entries, recording `u` as predecessor), and
   * leaves every neighbour of `u` finite.
   */
  lemma {:induction false} RelaxSteps(policy: QueuePolicy, adj: AdjacencyList, nodes: seq<NodeId>, start: NodeId,
                                      u: NodeId, j: nat, s: State)
    requires Relaxing(policy, adj, nodes, start, u, j, s)
    ensures u in s.dist && forall k :: 0 <= k < |adj[u]| ==> adj[u][k].node in s.dist
    ensures Core(policy, adj, nodes, start, Relax(policy, adj, u, j, s))
    ensures Steps(nodes, adj, u, s, Relax(policy, adj, u, j, s))
    ensures FinitePrefix(adj, u, |adj[u]|, Relax(policy, adj, u, j, s).dist)
    ensures policy.UpdateIfQueued? ==> SettledExcept(adj, nodes, Relax(policy, adj, u, j, s), Some(u))
    decreases |adj[u]| - j
  {
    assert u in nodes;
    if j == |adj[u]| {
      StepsRefl(nodes, adj, u, s);
    } else if Less(Plus(s.dist[u], adj[u][j].weight), s.dist[adj[u][j].node]) {
      var s1 := LowerAt(policy, adj, s, u, j, s.dist[u].value);
      RelaxLowers(policy, adj, nodes, start, u, j, s);
      RelaxSteps(policy, adj, nodes, start, u, j + 1, s1);
      StepsCompose(nodes, adj, u, s, s1, Relax(policy, adj, u, j + 1, s1));
    } else {
      RelaxSkips(policy, adj, nodes, start, u, j, s);
      RelaxSteps(policy, adj, nodes, start, u, j + 1, s);
    }
  }

  /** The branch of the loop body taken when going through u is shorter than v's current distance. */
  lemma RelaxLowers(policy: QueuePolicy, adj: AdjacencyList, nodes: seq<NodeId>, start: NodeId,
                    u: NodeId, j: nat, s: State)
    requires Relaxing(policy, adj, nodes, start, u, j, s) && j < |adj[u]|
    requires Less(Plus(s.dist[u], adj[u][j].weight), s.dist[adj[u][j].node])
    ensures Relaxing(policy, adj, nodes, start, u, j + 1, LowerAt(policy, adj, s, u, j, s.dist[u].value))
    ensures Steps(nodes, adj, u, s, LowerAt(policy, adj, s, u, j, s.dist[u].value))
  {
    var v := adj[u][j].node;
    var du := s.dist[u].value;
    var s1 := LowerAt(policy, adj, s, u, j, du);
    assert u in nodes && v in nodes;
    assert Core(policy, adj, nodes, start, s1) && v != u by {
      LowerPreserves(policy, adj, nodes, start, s, u, j, du);
    }
    LowerSteps(policy, adj, nodes, s, u, j);
    assert Steps(nodes, adj, u, s, s1);
    FinitePrefixGrows(adj, u, j, s.dist, s1.dist);
    assert policy.UpdateIfQueued? ==> SettledExcept(adj, nodes, s1, Some(u)) by {
      LowerKeepsSettled(policy, adj, nodes, s, u, j, du);
    }
  }

  /** The other branch: nothing changes, and `v` was finite already. */
  lemma RelaxSkips(policy: QueuePolicy, adj: AdjacencyList, nodes: seq<NodeId>, start: NodeId,
                   u: NodeId, j: nat, s: State)
    requires Relaxing(policy, adj, nodes, start, u, j, s) && j < |adj[u]|
    requires !Less(Plus(s.dist[u], adj[u][j].weight), s.dist[adj[u][j].node])
    ensures Relaxing(policy, adj, nodes, start, u, j + 1, s)
  {
    FinitePrefixGrows(adj, u, j, s.dist, s.dist);
  }

  lemma LowerSteps(policy: QueuePolicy, adj: AdjacencyList, nodes: seq<NodeId>, s: State, u: NodeId, j: nat)
    requires Distinct(nodes) && Closed(adj, nodes) && Keyed(nodes, s)
    requires u in adj && u in nodes && j < |adj[u]| && adj[u][j].node in nodes && s.dist[u].Some?
    requires Less(Plus(s.dist[u], adj[u][j].weight), s.dist[adj[u][j].node])
    ensures Steps(nodes, adj, u, s, LowerAt(policy, adj, s, u, j, s.dist[u].value))
    ensures forall x :: x in s.dist && s.dist[x].Some? ==>
              x in LowerAt(policy, adj, s, u, j, s.dist[u].value).dist && LowerAt(policy, adj, s, u, j, s.dist[u].value).dist[x].Some?
  {
    var r := LowerAt(policy, adj, s, u, j, s.dist[u].value);
    var v := adj[u][j].node;
    LowerOneProgress(nodes, s.dist, v, Some(s.dist[u].value + adj[u][j].weight));
    forall x | Queued(s.queue, x)
      ensures Queued(r.queue, x)
    {
      var i :| 0 <= i < |s.queue| && s.queue[i].id == x;
      assert r.queue[i].id == x;
    }
    assert r.dist != s.dist by {
      assert r.dist[v] != s.dist[v];
    }
  }

  /** Removing one entry keeps every other queued id queued, and with distinct ids unqueues the removed one. */
  lemma RemoveQueued(q: seq<Entry>, i: nat)
    requires i < |q|
    ensures forall x :: Queued(q, x) && x != q[i].id ==> Queued(Remove(q, i), x)
    ensures DistinctIds(q) ==> !Queued(Remove(q, i), q[i].id)
  {
    var q' := Remove(q, i);
    forall x | Queued(q, x) && x != q[i].id
      ensures Queued(q', x)
    {
      var k :| 0 <= k < |q| && q[k].id == x;
      if k < i {
        assert q'[k].id == x;
      } else {
        assert q'[k - 1].id == x;
      }
    }
  }

  /** Removing an entry keeps the queue well-formed: ids distinct, entries finite and not below their distances. */
  lemma RemoveQueueOk(policy: QueuePolicy, nodes: seq<NodeId>, s: State, i: nat)
    requires QueueOk(policy, nodes, s) && i < |s.queue|
    ensures QueueOk(policy, nodes, s.(queue := Remove(s.queue, i)))
  {
    var q := s.queue;
    var q' := Remove(q, i);
    forall k | 0 <= k < |q'| ensures q'[k] == q[if k < i then k else k + 1] {
    }
  }

  /** Removing the popped entry keeps every invariant. */
  lemma PopCore(policy: QueuePolicy, adj: AdjacencyList, nodes: seq<NodeId>, start: NodeId, s: State, i: nat)
    requires Core(policy, adj, nodes, start, s) && i < |s.queue|
    ensures Core(policy, adj, nodes, start, s.(queue := Remove(s.queue, i)))
    ensures forall x :: Queued(s.queue, x) && x != s.queue[i].id ==> Queued(Remove(s.queue, i), x)
    ensures !Queued(Remove(s.queue, i), s.queue[i].id)
  {
    var s' := s.(queue := Remove(s.queue, i));
    RemoveQueued(s.queue, i);
    RemoveQueueOk(policy, nodes, s, i);
    var tie :| Ordered(nodes, s, tie);
    assert s'.dist == s.dist && s'.prev == s.prev;
    assert Ordered(nodes, s', tie);
  }

  datatype RoundResult = Stop(state: State) | Continue(state: State)

  /** The id `shift()` returns after the stable sort: the first entry of least distance. */
  function Popped(q: seq<Entry>): (id: NodeId)
    requires |q| > 0
    ensures Queued(q, id)
  {
    q[FirstMin(q)].id
  }

  /** Every queued id and every listed neighbour has a `distances` entry. */
  ghost predicate Shaped(adj: AdjacencyList, s: State) {
    && (forall k :: 0 <= k < |s.queue| ==> s.queue[k].id in s.dist)
    && (forall x, k :: x in adj && 0 <= k < |adj[x]| ==> adj[x][k].node in s.dist)
  }

  lemma CoveredShaped(adj: AdjacencyList, nodes: seq<NodeId>, s: State)
    requires Closed(adj, nodes) && Keyed(nodes, s)
    requires forall k :: 0 <= k < |s.queue| ==> s.queue[k].id in nodes
    ensures Shaped(adj, s)
  {
  }

  /**
   * One iteration of the loop over the non-empty queue: the stable sort then
   * `shift()` takes the first entry of least distance; the round stops when it
   * is the end node, is skipped when its distance is stale, and otherwise
   * relaxes the node's list (when `adj.has(u)`).
   */
  function Round(policy: QueuePolicy, adj: AdjacencyList, end: NodeId, s: State): RoundResult
    requires |s.queue| > 0 && Shaped(adj, s)
  {
    var i := FirstMin(s.queue);
    var cur := s.queue[i];
    var s0 := s.(queue := Remove(s.queue, i));
    if cur.id == end then Stop(s0)
    else if Less(s.dist[cur.id], Some(cur.distance)) then Continue(s0)
    else if cur.id !in adj then Continue(s0)
    else Continue(Relax(policy, adj, cur.id, 0, s0))
  }

  /**
   * A round keeps every invariant; it stops exactly when the popped id is
   * the end node (whose distance is then finite); otherwise it makes
   * progress or shortens the queue; distances only go down, each lowered one
   * through an entry of the popped node.
   */
  lemma RoundSteps(policy: QueuePolicy, adj: AdjacencyList, nodes: seq<NodeId>, start: NodeId, end: NodeId, s: State)
    requires Core(policy, adj, nodes, start, s) && |s.queue| > 0
    requires policy.UpdateIfQueued? ==> SettledExcept(adj, nodes, s, None)
    ensures Shaped(adj, s)
    ensures var o := Round(policy, adj, end, s);
      && Core(policy, adj, nodes, start, o.state)
      && (o.Stop? <==> Popped(s.queue) == end)
      && (o.Stop? ==> o.state.dist == s.dist && end in nodes && o.state.dist[end].Some?)
      && (o.Continue? ==> || Progress(nodes, s.dist, o.state.dist)
                          || (o.state.dist == s.dist && |o.state.queue| < |s.queue|))
      && (o.Continue? && policy.UpdateIfQueued? ==> SettledExcept(adj, nodes, o.state, None))
      && Popped(s.queue) in adj && Popped(s.queue) in nodes && s.dist[Popped(s.queue)].Some?
      && Monotone(nodes, s, o.state) && Attributed(nodes, adj, Popped(s.queue), s, o.state)
  {
    var i := FirstMin(s.queue);
    var cur := s.queue[i];
    var s0 := s.(queue := Remove(s.queue, i));
    CoveredShaped(adj, nodes, s);
    PopRelaxing(policy, adj, nodes, start, s, i);
    if cur.id != end && !Less(s.dist[cur.id], Some(cur.distance)) {
      RelaxSteps(policy, adj, nodes, start, cur.id, 0, s0);
      AfterRelax(policy, adj, nodes, s, i, Relax(policy, adj, cur.id, 0, s0));
    }
  }

  /** Taking the `i`-th entry off the queue keeps the invariants, and its node is ready to relax. */
  lemma PopRelaxing(policy: QueuePolicy, adj: AdjacencyList, nodes: seq<NodeId>, start: NodeId, s: State, i: nat)
    requires Core(policy, adj, nodes, start, s) && i < |s.queue|
    requires policy.UpdateIfQueued? ==> SettledExcept(adj, nodes, s, None)
    ensures s.queue[i].id in nodes && s.queue[i].id in adj
    ensures Relaxing(policy, adj, nodes, start, s.queue[i].id, 0, s.(queue := Remove(s.queue, i)))
    ensures Monotone(nodes, s, s.(queue := Remove(s.queue, i)))
    ensures Attributed(nodes, adj, s.queue[i].id, s, s.(queue := Remove(s.queue, i)))
  {
    PopCore(policy, adj, nodes, start, s, i);
    SettleAfterPop(policy, adj, nodes, s, i);
  }

  /** What a round that relaxes the popped node's list did, relative to the state before the pop. */
  lemma AfterRelax(policy: QueuePolicy, adj: AdjacencyList, nodes: seq<NodeId>, s: State, i: nat, r: State)
    requires Keyed(nodes, s) && Closed(adj, nodes) && i < |s.queue|
    requires Steps(nodes, adj, s.queue[i].id, s.(queue := Remove(s.queue, i)), r)
    requires FinitePrefix(adj, s.queue[i].id, |adj[s.queue[i].id]|, r.dist)
    requires policy.UpdateIfQueued? ==> SettledExcept(adj, nodes, r, Some(s.queue[i].id))
    ensures Monotone(nodes, s, r) && Attributed(nodes, adj, s.queue[i].id, s, r)
    ensures Progress(nodes, s.dist, r.dist) || (r.dist == s.dist && |r.queue| < |s.queue|)
    ensures policy.UpdateIfQueued? ==> SettledExcept(adj, nodes, r, None)
  {
    SettleAfterRelax(policy, adj, nodes, r, s.queue[i].id);
  }

  lemma SettleAfterPop(policy: QueuePolicy, adj: AdjacencyList, nodes: seq<NodeId>, s: State, i: nat)
    requires i < |s.queue|
    requires policy.UpdateIfQueued? ==> SettledExcept(adj, nodes, s, None)
    requires forall x :: Queued(s.queue, x) && x != s.queue[i].id ==> Queued(Remove(s.queue, i), x)
    ensures policy.UpdateIfQueued? ==> SettledExcept(adj, nodes, s.(queue := Remove(s.queue, i)), Some(s.queue[i].id))
  {
  }

  lemma SettleAfterRelax(policy: QueuePolicy, adj: AdjacencyList, nodes: seq<NodeId>, r: State, u: NodeId)
    requires policy.UpdateIfQueued? ==> SettledExcept(adj, nodes, r, Some(u))
    requires Keyed(nodes, r) && Closed(adj, nodes) && u in adj
    requires FinitePrefix(adj, u, |adj[u]|, r.dist)
    ensures policy.UpdateIfQueued? ==> SettledExcept(adj, nodes, r, None)
  {
  }

  /** `distances` only go down: `AtMost` is transitive. */
  lemma MonotoneTransitive(nodes: seq<NodeId>, s: State, s1: State, r: State)
    requires Covers(nodes, s.dist) && Covers(nodes, s1.dist) && Covers(nodes, r.dist)
    requires Monotone(nodes, s, s1) && Monotone(nodes, s1, r)
    ensures Monotone(nodes, s, r)
  {
    forall x | x in nodes
      ensures AtMost(r.dist[x], s.dist[x])
    {
      assert AtMost(r.dist[x], s1.dist[x]) && AtMost(s1.dist[x], s.dist[x]);
    }
  }

  /** How the `while` loop ended: at `break` on the end node, or with the queue drained. */
  datatype Halt = Halt(state: State, reached: bool)

  /**
   * The loop that runs while the queue is non-empty. It terminates: every round
   * either lowers some distance (fewer ∞, or a smaller finite sum) or leaves
   * the distances alone and shortens the queue.
   */
  function Run(policy: QueuePolicy, adj: AdjacencyList, ghost nodes: seq<NodeId>, ghost start: NodeId, end: NodeId,
               s: State): (h: Halt)
    requires Core(policy, adj, nodes, start, s)
    requires policy.UpdateIfQueued? ==> SettledExcept(adj, nodes, s, None)
    ensures Core(policy, adj, nodes, start, h.state)
    ensures Monotone(nodes, s, h.state)
    ensures h.reached ==> end in nodes && h.state.dist[end].Some?
    ensures !h.reached ==> |h.state.queue| == 0
    ensures !h.reached && policy.UpdateIfQueued? ==> SettledExcept(adj, nodes, h.state, None)
    decreases InfCount(nodes, s.dist), FinSum(nodes, s.dist), |s.queue|
  {
    if |s.queue| == 0 then
      Halt(s, false)
    else
      RoundSteps(policy, adj, nodes, start, end, s);
      var o := Round(policy, adj, end, s);
      if o.Stop? then
        Halt(o.state, true)
      else
        var h := Run(policy, adj, nodes, start, end, o.state);
        MonotoneTransitive(nodes, s, o.state, h.state);
        h
  }

  /** `dijkstra(startNodeId, endNodeId)` up to the end of its `while` loop. */
  function Explore(policy: QueuePolicy, g: Graph, start: NodeId, end: NodeId): (h: Halt)
    requires WellFormed(g) && start in g.nodes
    ensures Core(policy, Adjacency.Build(g), g.nodes, start, h.state)
    ensures h.reached ==> end in g.nodes && h.state.dist[end].Some?
    ensures !h.reached ==> |h.state.queue| == 0
    ensures !h.reached && policy.UpdateIfQueued? ==>
              SettledExcept(Adjacency.Build(g), g.nodes, h.state, None)
  {
    var adj := Adjacency.Build(g);
    Adjacency.BuildClosed(g);
    InitialCore(policy, adj, g.nodes, start);
    Run(policy, adj, g.nodes, start, end, Initial(g.nodes, start))
  }

  // ---------------------------------------------------------------------------
  // Reading the path back through `previous`.

  /**
   * Following `previous` strictly descends in (distance, tie rank): a
   * predecessor is never further than its successor, and is ranked lower
   * when the two are equally far.
   */
  ghost predicate Descending(nodes: seq<NodeId>, s: State, tie: map<NodeId, nat>) {
    && Keyed(nodes, s)
    && (forall x :: x in nodes ==> x in tie)
    && forall x {:trigger s.prev[x]} :: x in nodes && s.prev[x].Some? ==>
         && s.prev[x].value in nodes
         && s.dist[x].Some? && s.dist[s.prev[x].value].Some?
         && s.dist[s.prev[x].value].value <= s.dist[x].value
         && (s.dist[s.prev[x].value].value < s.dist[x].value || tie[s.prev[x].value] < tie[x])
  }

  lemma CoreDescending(policy: QueuePolicy, adj: AdjacencyList, nodes: seq<NodeId>, start: NodeId, s: State,
                       tie: map<NodeId, nat>)
    requires Core(policy, adj, nodes, start, s) && Ordered(nodes, s, tie)
    ensures Descending(nodes, s, tie)
  {
    forall x | x in nodes && s.prev[x].Some?
      ensures s.dist[s.prev[x].value].value <= s.dist[x].value
    {
      var p := s.prev[x].value;
      var k :| 0 <= k < |adj[p]| && adj[p][k].node == x && s.dist[p].value + adj[p][k].weight <= s.dist[x].value;
    }
  }

  function Rank(s: State, x: NodeId): nat
    requires x in s.dist
  {
    if s.dist[x].Some? then s.dist[x].value else 0
  }

  /**
   * The path read back from `x`: follow `previous` from `x` until a node
   * without predecessor, prepending each node, so the chain ends at `x`
   * and begins at a node that has none.
   */
  function Trace(s: State, x: NodeId, ghost nodes: seq<NodeId>, ghost tie: map<NodeId, nat>): (path: seq<NodeId>)
    requires Descending(nodes, s, tie) && x in nodes
    ensures |path| > 0 && path[|path| - 1] == x
    ensures forall i :: 0 <= i < |path| ==> path[i] in nodes
    ensures s.prev[path[0]] == None
    ensures forall i :: 0 <= i < |path| - 1 ==> s.prev[path[i + 1]] == Some(path[i])
    decreases Rank(s, x), tie[x]
  {
    match s.prev[x]
    case None => [x]
    case Some(p) => Trace(s, p, nodes, tie) + [x]
  }

  /** The walk `previous` records is a walk of the adjacency list (each link is some entry `{x, w}` of p). */
  lemma TraceIsWalk(adj: AdjacencyList, nodes: seq<NodeId>, s: State, path: seq<NodeId>)
    requires Linked(adj, nodes, s)
    requires |path| > 0 && forall i :: 0 <= i < |path| ==> path[i] in nodes
    requires forall i :: 0 <= i < |path| - 1 ==> s.prev[path[i + 1]] == Some(path[i])
    ensures IsWalk(adj, path)
  {
    forall i | 0 <= i < |path| - 1
      ensures Adjacent(adj, path[i], path[i + 1])
    {
      var x := path[i + 1];
      assert s.prev[path[i + 1]] == Some(path[i]);
      assert x in s.prev && s.prev[x].Some?;
      var k :| 0 <= k < |adj[path[i]]| && adj[path[i]][k].node == x
                && s.dist[path[i]].value + adj[path[i]][k].weight <= s.dist[x].value;
    }
  }

  /**
   * The traced path begins at the start node exactly when the end node got a finite
   * distance: every finite node other than the start has a predecessor, and
   * a predecessor is always finite.
   */
  lemma {:induction false} TraceStartsAtStart(policy: QueuePolicy, adj: AdjacencyList, nodes: seq<NodeId>,
                                              start: NodeId, s: State, tie: map<NodeId, nat>, x: NodeId)
    requires Core(policy, adj, nodes, start, s) && Descending(nodes, s, tie) && x in nodes
    ensures Trace(s, x, nodes, tie)[0] == start <==> s.dist[x].Some?
    decreases Rank(s, x), tie[x]
  {
    match s.prev[x]
    case None =>
    case Some(p) =>
      TraceStartsAtStart(policy, adj, nodes, start, s, tie, p);
      assert Trace(s, x, nodes, tie)[0] == Trace(s, p, nodes, tie)[0];
  }

  /** What `dijkstra` reports, or the guard's `alert`. */
  datatype PathOutcome = Rejected | NoPath | Found(path: seq<NodeId>, distance: nat)

  /**
   * `dijkstra`: explore, read the path back from the end node, and report
   * it with the end node's distance when it begins at the start node.
   */
  method ShortestPath(policy: QueuePolicy, g: Graph, start: NodeId, end: NodeId) returns (o: PathOutcome)
    requires WellFormed(g) && start in g.nodes && end in g.nodes
    ensures !o.Rejected?
    ensures o.Found? <==> Explore(policy, g, start, end).state.dist[end].Some?
    ensures o.Found? ==> Some(o.distance) == Explore(policy, g, start, end).state.dist[end]
    ensures o.Found? ==> IsWalk(Adjacency.Build(g), o.path) && o.path[0] == start && o.path[|o.path| - 1] == end
    ensures o.Found? ==> forall i :: 0 <= i < |o.path| ==> o.path[i] in g.nodes
    ensures o.Found? ==> forall i :: 0 <= i < |o.path| - 1 ==>
              Explore(policy, g, start, end).state.prev[o.path[i + 1]] == Some(o.path[i])
    ensures start != end && Explore(policy, g, start, end).state.prev[end] == None ==> o.NoPath?
    ensures o.Found? ==> Reachable(Adjacency.Build(g), start, end)
    ensures policy.UpdateIfQueued? ==> (o.Found? <==> Reachable(Adjacency.Build(g), start, end))
  {
    var adj := Adjacency.Build(g);
    var s := Explore(policy, g, start, end).state;
    ghost var tie :| Ordered(g.nodes, s, tie);
    CoreDescending(policy, adj, g.nodes, start, s, tie);
    var path := Trace(s, end, g.nodes, tie);
    TraceStartsAtStart(policy, adj, g.nodes, start, s, tie, end);
    TraceIsWalk(adj, g.nodes, s, path);
    if path[0] == start {
      o := Found(path, s.dist[end].value);
      assert Reachable(adj, start, end);
    } else {
      o := NoPath;
    }
    if policy.UpdateIfQueued? {
      DecreaseKeyComplete(g, start, end);
    }
  }

  /**
   * With decrease-key, the explored distances are finite exactly on the nodes
   * reachable from the start (for the end node at least): a drained queue
   * leaves the finite nodes closed under adjacency.
   */
  lemma DecreaseKeyComplete(g: Graph, start: NodeId, end: NodeId)
    requires WellFormed(g) && start in g.nodes && end in g.nodes
    ensures Explore(UpdateIfQueued, g, start, end).state.dist[end].Some? <==> Reachable(Adjacency.Build(g), start, end)
  {
    var adj := Adjacency.Build(g);
    var h := Explore(UpdateIfQueued, g, start, end);
    var s := h.state;
    if !h.reached && Reachable(adj, start, end) {
      var S := FiniteNodes(g.nodes, s);
      DrainedClosed(adj, g.nodes, s);
      ClosedSetHoldsReachable(adj, S, start, end);
    }
  }

  ghost function FiniteNodes(nodes: seq<NodeId>, s: State): (S: set<NodeId>)
    requires Keyed(nodes, s)
    ensures forall x :: x in S <==> x in nodes && s.dist[x].Some?
  {
    set x | x in nodes && s.dist[x].Some?
  }

  /** Once the queue is empty and every finite node is expanded, the finite nodes are closed under adjacency. */
  lemma DrainedClosed(adj: AdjacencyList, nodes: seq<NodeId>, s: State)
    requires SettledExcept(adj, nodes, s, None) && |s.queue| == 0
    ensures forall a, b :: a in FiniteNodes(nodes, s) && Adjacent(adj, a, b) ==> b in FiniteNodes(nodes, s)
  {
    forall a, b | a in FiniteNodes(nodes, s) && Adjacent(adj, a, b)
      ensures b in FiniteNodes(nodes, s)
    {
      var k :| 0 <= k < |adj[a]| && adj[a][k].node == b;
      assert !Queued(s.queue, a);
    }
  }

  /**
   * `findShortestPath()`: the two `<select>` values (empty when nothing is
   * chosen) must both be set and differ; otherwise the user is alerted.
   */
  method FindShortestPath(g: Graph, start: NodeId, end: NodeId) returns (o: PathOutcome)
    requires WellFormed(g)
    requires start == "" || start in g.nodes
    requires end == "" || end in g.nodes
    ensures o.Rejected? <==> start == "" || end == "" || start == end
    ensures !o.Rejected? ==> (o.Found? <==> Explore(SkipIfQueued, g, start, end).state.dist[end].Some?)
    ensures o.Found? ==> Some(o.distance) == Explore(SkipIfQueued, g, start, end).state.dist[end]
    ensures o.Found? ==> IsWalk(Adjacency.Build(g), o.path) && o.path[0] == start && o.path[|o.path| - 1] == end
    ensures o.Found? ==> forall i :: 0 <= i < |o.path| ==> o.path[i] in g.nodes
    ensures o.Found? ==> forall i :: 0 <= i < |o.path| - 1 ==>
              Explore(SkipIfQueued, g, start, end).state.prev[o.path[i + 1]] == Some(o.path[i])
    ensures !o.Rejected? && start != end && Explore(SkipIfQueued, g, start, end).state.prev[end] == None ==> o.NoPath?
  {
    if start != "" && end != "" && start != end {
      o := ShortestPath(SkipIfQueued, g, start, end);
    } else {
      o := Rejected;
    }
  }
}
