/**
 * The state of `dijkstra` (main.js): the `distances` and `previous` maps and
 * the priority queue, the single-edge update that lowers one distance, and the
 * invariants every round keeps.
 */
module DijkstraState {
  import opened Graphs

  /** A tentative distance: `Some(d)` is finite, `None` is `Infinity`. */
  type Dist = Option<nat>

  /** Strict order on distances, with ∞ above every finite value. */
  predicate Less(a: Dist, b: Dist) {
    a.Some? && (b.None? || a.value < b.value)
  }

  predicate AtMost(a: Dist, b: Dist) {
    a == b || Less(a, b)
  }

  /** A distance plus an edge weight: ∞ plus anything is ∞. */
  function Plus(d: Dist, w: nat): Dist {
    if d.Some? then Some(d.value + w) else None
  }

  /** A `{ id, distance }` queue entry. */
  datatype Entry = Entry(id: NodeId, distance: nat)

  /** What happens to the queue when a node that already has an entry gets a lower distance. */
  datatype QueuePolicy =
    | SkipIfQueued    // main.js: push only when no entry has that id; the old entry keeps its old distance
    | UpdateIfQueued  // decrease-key: the queued entry takes the new distance

  datatype State = State(dist: map<NodeId, Dist>, prev: map<NodeId, Option<NodeId>>, queue: seq<Entry>)

  /** Some entry of the queue carries `id`, whatever its distance. */
  predicate Queued(q: seq<Entry>, id: NodeId) {
    exists k :: 0 <= k < |q| && q[k].id == id
  }

  /** Every distance ∞ and every predecessor null, then the start at 0 and queued. */
  function Initial(nodes: seq<NodeId>, start: NodeId): (s: State)
    requires start in nodes
    ensures forall x :: x in s.dist <==> x in nodes
    ensures forall x :: x in s.prev <==> x in nodes
    ensures forall x :: x in nodes ==> s.dist[x] == (if x == start then Some(0) else None) && s.prev[x] == None
    ensures s.queue == [Entry(start, 0)]
  {
    var inf: Dist := None;
    var none: Option<NodeId> := None;
    State((map x | x in nodes :: inf)[start := Some(0)], map x | x in nodes :: none, [Entry(start, 0)])
  }

  /** The queued entry for `v` (if any) with its distance replaced by `alt`. */
  function Reprice(q: seq<Entry>, v: NodeId, alt: nat): (r: seq<Entry>)
    ensures |r| == |q|
    ensures forall k :: 0 <= k < |q| ==> r[k].id == q[k].id
    ensures forall k :: 0 <= k < |q| && q[k].id != v ==> r[k] == q[k]
    ensures forall k :: 0 <= k < |q| && q[k].id == v ==> r[k].distance == alt
  {
    seq(|q|, k requires 0 <= k < |q| => if q[k].id == v then Entry(v, alt) else q[k])
  }

  /**
   * A successful relaxation, taken when the candidate distance is below v's:
   * record the lower distance and the predecessor, and queue `v` unless it
   * is queued already.
   */
  function Lower(policy: QueuePolicy, s: State, u: NodeId, v: NodeId, alt: nat): State {
    var q :=
      if !Queued(s.queue, v) then s.queue + [Entry(v, alt)]
      else if policy.UpdateIfQueued? then Reprice(s.queue, v, alt)
      else s.queue;
    State(s.dist[v := Some(alt)], s.prev[v := Some(u)], q)
  }

  /** The index a stable sort by distance brings to the front: the first entry of least distance. */
  function FirstMin(q: seq<Entry>): (i: nat)
    requires |q| > 0
    ensures i < |q|
    ensures forall j :: 0 <= j < |q| ==> q[i].distance <= q[j].distance
    ensures forall j :: 0 <= j < i ==> q[i].distance < q[j].distance
    decreases |q|
  {
    if |q| == 1 then 0
    else
      var i := FirstMin(q[..|q| - 1]);
      if q[|q| - 1].distance < q[i].distance then |q| - 1 else i
  }

  /** `shift()` after the sort: the queue without its `i`-th entry, the rest in order. */
  function Remove(q: seq<Entry>, i: nat): (r: seq<Entry>)
    requires i < |q|
    ensures |r| == |q| - 1
    ensures forall k :: 0 <= k < i ==> r[k] == q[k]
    ensures forall k :: i <= k < |r| ==> r[k] == q[k + 1]
  {
    q[..i] + q[i + 1..]
  }

  // ---------------------------------------------------------------------------
  // The termination measure: how many distances are ∞, then the sum of the
  // finite ones. Every lowering decreases the pair lexicographically.

  function InfCount(nodes: seq<NodeId>, d: map<NodeId, Dist>): nat
    requires forall x :: x in nodes ==> x in d
  {
    if |nodes| == 0 then 0 else (if d[nodes[0]].None? then 1 else 0) + InfCount(nodes[1..], d)
  }

  function FinSum(nodes: seq<NodeId>, d: map<NodeId, Dist>): nat
    requires forall x :: x in nodes ==> x in d
  {
    if |nodes| == 0 then 0 else (if d[nodes[0]].Some? then d[nodes[0]].value else 0) + FinSum(nodes[1..], d)
  }

  ghost predicate Covers(nodes: seq<NodeId>, d: map<NodeId, Dist>) {
    forall x :: x in nodes ==> x in d
  }

  ghost predicate Progress(nodes: seq<NodeId>, d: map<NodeId, Dist>, d': map<NodeId, Dist>)
    requires Covers(nodes, d) && Covers(nodes, d')
  {
    || InfCount(nodes, d') < InfCount(nodes, d)
    || (InfCount(nodes, d') == InfCount(nodes, d) && FinSum(nodes, d') < FinSum(nodes, d))
  }

  lemma {:induction false} MeasureAgrees(nodes: seq<NodeId>, d: map<NodeId, Dist>, d': map<NodeId, Dist>)
    requires Covers(nodes, d) && Covers(nodes, d')
    requires forall x :: x in nodes ==> d[x] == d'[x]
    ensures InfCount(nodes, d) == InfCount(nodes, d') && FinSum(nodes, d) == FinSum(nodes, d')
    decreases |nodes|
  {
    if |nodes| > 0 {
      MeasureAgrees(nodes[1..], d, d');
    }
  }

  /** Lowering one distance is progress. */
  lemma {:induction false} LowerOneProgress(nodes: seq<NodeId>, d: map<NodeId, Dist>, v: NodeId, x: Dist)
    requires Distinct(nodes) && Covers(nodes, d) && v in nodes
    requires Less(x, d[v])
    ensures Covers(nodes, d[v := x]) && Progress(nodes, d, d[v := x])
    decreases |nodes|
  {
    var d' := d[v := x];
    if nodes[0] == v {
      assert v !in nodes[1..];
      MeasureAgrees(nodes[1..], d, d');
    } else {
      assert v in nodes[1..];
      LowerOneProgress(nodes[1..], d, v, x);
    }
  }

  lemma ProgressTransitive(nodes: seq<NodeId>, d1: map<NodeId, Dist>, d2: map<NodeId, Dist>, d3: map<NodeId, Dist>)
    requires Covers(nodes, d1) && Covers(nodes, d2) && Covers(nodes, d3)
    requires Progress(nodes, d1, d2) && Progress(nodes, d2, d3)
    ensures Progress(nodes, d1, d3)
  {
  }

  // ---------------------------------------------------------------------------
  // Invariants.

  /** `distances` and `previous` have exactly the node ids as keys. */
  ghost predicate Keyed(nodes: seq<NodeId>, s: State) {
    && (forall x :: x in s.dist <==> x in nodes)
    && (forall x :: x in s.prev <==> x in nodes)
  }

  predicate DistinctIds(q: seq<Entry>) {
    forall i, j :: 0 <= i < j < |q| ==> q[i].id != q[j].id
  }

  /**
   * No id is queued twice; a queued node has a finite distance, never above
   * its entry's distance (equal to it under decrease-key).
   */
  ghost predicate QueueOk(policy: QueuePolicy, nodes: seq<NodeId>, s: State) {
    && Keyed(nodes, s)
    && DistinctIds(s.queue)
    && forall k :: 0 <= k < |s.queue| ==>
         && s.queue[k].id in nodes
         && s.dist[s.queue[k].id].Some?
         && s.dist[s.queue[k].id].value <= s.queue[k].distance
         && (policy.UpdateIfQueued? ==> s.dist[s.queue[k].id].value == s.queue[k].distance)
  }

  /** The start keeps distance 0 and no predecessor; every other finite node has a predecessor. */
  ghost predicate Rooted(nodes: seq<NodeId>, start: NodeId, s: State) {
    && Keyed(nodes, s)
    && start in nodes
    && s.dist[start] == Some(0)
    && s.prev[start] == None
    && forall x :: x in nodes && x != start && s.dist[x].Some? ==> s.prev[x].Some?
  }

  /**
   * `previous[x] = p` means `p` lists `x` with some weight `w`, both distances
   * are finite, and `distances[p] + w <= distances[x]`.
   */
  ghost predicate Linked(adj: AdjacencyList, nodes: seq<NodeId>, s: State) {
    && Keyed(nodes, s)
    && forall x {:trigger s.prev[x]} :: x in s.prev && s.prev[x].Some? ==>
         && s.prev[x].value in nodes
         && s.prev[x].value in adj
         && s.dist[x].Some?
         && s.dist[s.prev[x].value].Some?
         && exists k :: 0 <= k < |adj[s.prev[x].value]|
              && adj[s.prev[x].value][k].node == x
              && s.dist[s.prev[x].value].value + adj[s.prev[x].value][k].weight <= s.dist[x].value
  }

  /**
   * A tie-break rank that makes the predecessor relation strictly descending
   * where distances are equal (zero-weight edges), so `previous` has no cycle.
   */
  ghost predicate Ordered(nodes: seq<NodeId>, s: State, tie: map<NodeId, nat>) {
    && Keyed(nodes, s)
    && (forall x :: x in nodes ==> x in tie)
    && forall x {:trigger s.prev[x]} :: x in s.prev && s.prev[x].Some? && s.prev[x].value in nodes ==>
         && s.dist[x].Some? && s.dist[s.prev[x].value].Some?
         && (s.dist[s.prev[x].value].value < s.dist[x].value || tie[s.prev[x].value] < tie[x])
  }

  /** Every finite distance belongs to a node reachable from the start. */
  ghost predicate Sound(adj: AdjacencyList, nodes: seq<NodeId>, start: NodeId, s: State) {
    && Keyed(nodes, s)
    && forall x :: x in nodes && s.dist[x].Some? ==> Reachable(adj, start, x)
  }

  /**
   * Every finite node that is neither queued nor `u` has given all its
   * neighbours a finite distance (it has been expanded).
   */
  ghost predicate SettledExcept(adj: AdjacencyList, nodes: seq<NodeId>, s: State, u: Option<NodeId>) {
    && Keyed(nodes, s)
    && Closed(adj, nodes)
    && forall x :: x in nodes && s.dist[x].Some? && !Queued(s.queue, x) && Some(x) != u ==>
         forall k :: 0 <= k < |adj[x]| ==> s.dist[adj[x][k].node].Some?
  }

  /** What every round keeps, whichever queue policy. */
  ghost predicate Core(policy: QueuePolicy, adj: AdjacencyList, nodes: seq<NodeId>, start: NodeId, s: State) {
    && Distinct(nodes)
    && Closed(adj, nodes)
    && Keyed(nodes, s)
    && QueueOk(policy, nodes, s)
    && Rooted(nodes, start, s)
    && Linked(adj, nodes, s)
    && (exists tie :: Ordered(nodes, s, tie))
    && Sound(adj, nodes, start, s)
  }

  /** Initially only the start is finite, and it is the only queued node. */
  lemma InitialCore(policy: QueuePolicy, adj: AdjacencyList, nodes: seq<NodeId>, start: NodeId)
    requires Distinct(nodes) && Closed(adj, nodes) && start in nodes
    ensures Core(policy, adj, nodes, start, Initial(nodes, start))
    ensures SettledExcept(adj, nodes, Initial(nodes, start), None)
  {
    var s := Initial(nodes, start);
    var tie := map x | x in nodes :: 0;
    assert Ordered(nodes, s, tie);
    ReachableRefl(adj, start);
    assert Queued(s.queue, start) by {
      assert s.queue[0].id == start;
    }
  }

  /** The facts a lowering along `adj[u][k]` rests on. */
  ghost predicate Lowers(adj: AdjacencyList, nodes: seq<NodeId>, s: State, u: NodeId, k: nat, du: nat) {
    && Keyed(nodes, s)
    && Closed(adj, nodes)
    && u in adj && k < |adj[u]|
    && s.dist[u] == Some(du)
    && Less(Some(du + adj[u][k].weight), s.dist[adj[u][k].node])
  }

  function LowerAt(policy: QueuePolicy, adj: AdjacencyList, s: State, u: NodeId, k: nat, du: nat): State
    requires u in adj && k < |adj[u]|
  {
    Lower(policy, s, u, adj[u][k].node, du + adj[u][k].weight)
  }

  lemma LowerQueueOk(policy: QueuePolicy, adj: AdjacencyList, nodes: seq<NodeId>, s: State, u: NodeId, k: nat, du: nat)
    requires Lowers(adj, nodes, s, u, k, du) && QueueOk(policy, nodes, s)
    ensures QueueOk(policy, nodes, LowerAt(policy, adj, s, u, k, du))
  {
    var v := adj[u][k].node;
    var alt := du + adj[u][k].weight;
    var r := LowerAt(policy, adj, s, u, k, du);
    if !Queued(s.queue, v) {
      assert r.queue == s.queue + [Entry(v, alt)];
      forall i, j | 0 <= i < j < |r.queue|
        ensures r.queue[i].id != r.queue[j].id
      {
        if j == |s.queue| {
          assert s.queue[i].id != v;
        }
      }
    } else if policy.UpdateIfQueued? {
      assert r.queue == Reprice(s.queue, v, alt);
    } else {
      assert r.queue == s.queue;
      forall j | 0 <= j < |r.queue| && r.queue[j].id == v
        ensures r.dist[v].value <= r.queue[j].distance
      {
        assert s.dist[v].value <= s.queue[j].distance;
      }
    }
  }

  lemma LowerRooted(policy: QueuePolicy, adj: AdjacencyList, nodes: seq<NodeId>, start: NodeId, s: State, u: NodeId, k: nat, du: nat)
    requires Lowers(adj, nodes, s, u, k, du) && Rooted(nodes, start, s)
    ensures adj[u][k].node != start
    ensures Rooted(nodes, start, LowerAt(policy, adj, s, u, k, du))
  {
  }

  lemma LowerLinked(policy: QueuePolicy, adj: AdjacencyList, nodes: seq<NodeId>, s: State, u: NodeId, k: nat, du: nat)
    requires Lowers(adj, nodes, s, u, k, du) && Linked(adj, nodes, s)
    ensures Linked(adj, nodes, LowerAt(policy, adj, s, u, k, du))
  {
    var v := adj[u][k].node;
    var r := LowerAt(policy, adj, s, u, k, du);
    assert u in nodes;
    forall x | x in r.prev && r.prev[x].Some?
      ensures r.prev[x].value in nodes && r.prev[x].value in adj
      ensures r.dist[x].Some? && r.dist[r.prev[x].value].Some?
      ensures exists k' :: (0 <= k' < |adj[r.prev[x].value]|
            && adj[r.prev[x].value][k'].node == x
            && r.dist[r.prev[x].value].value + adj[r.prev[x].value][k'].weight <= r.dist[x].value)
    {
      if x == v {
        assert adj[u][k].node == x && r.dist[u].value + adj[u][k].weight <= r.dist[x].value;
      } else {
        var p := s.prev[x].value;
        var k' :| 0 <= k' < |adj[p]| && adj[p][k'].node == x && s.dist[p].value + adj[p][k'].weight <= s.dist[x].value;
        assert r.dist[p].value + adj[p][k'].weight <= r.dist[x].value;
      }
    }
  }

  lemma LowerOrdered(policy: QueuePolicy, adj: AdjacencyList, nodes: seq<NodeId>, s: State, u: NodeId, k: nat, du: nat,
                     tie: map<NodeId, nat>)
    requires Lowers(adj, nodes, s, u, k, du) && Linked(adj, nodes, s) && Ordered(nodes, s, tie)
    ensures Ordered(nodes, LowerAt(policy, adj, s, u, k, du), tie[adj[u][k].node := tie[u] + 1])
  {
    var v := adj[u][k].node;
    var r := LowerAt(policy, adj, s, u, k, du);
    var tie' := tie[v := tie[u] + 1];
    assert u in nodes;
    forall x | x in r.prev && r.prev[x].Some? && r.prev[x].value in nodes
      ensures r.dist[x].Some? && r.dist[r.prev[x].value].Some?
      ensures r.dist[r.prev[x].value].value < r.dist[x].value || tie'[r.prev[x].value] < tie'[x]
    {
      if x != v && s.prev[x].value == v {
        var k' :| 0 <= k' < |adj[v]| && adj[v][k'].node == x && s.dist[v].value + adj[v][k'].weight <= s.dist[x].value;
      }
    }
  }

  lemma LowerSound(policy: QueuePolicy, adj: AdjacencyList, nodes: seq<NodeId>, start: NodeId, s: State, u: NodeId, k: nat, du: nat)
    requires Lowers(adj, nodes, s, u, k, du) && Sound(adj, nodes, start, s)
    ensures Sound(adj, nodes, start, LowerAt(policy, adj, s, u, k, du))
  {
    var v := adj[u][k].node;
    assert u in nodes;
    assert Adjacent(adj, u, v);
    ReachableStep(adj, start, u, v);
  }

  /**
   * One lowering `distances[v] := distances[u] + w`, `previous[v] := u` keeps
   * every invariant and is progress; it never lowers `u` itself or the start.
   */
  lemma LowerPreserves(policy: QueuePolicy, adj: AdjacencyList, nodes: seq<NodeId>, start: NodeId,
                       s: State, u: NodeId, k: nat, du: nat)
    requires Core(policy, adj, nodes, start, s)
    requires u in adj && k < |adj[u]|
    requires s.dist[u] == Some(du)
    requires Less(Some(du + adj[u][k].weight), s.dist[adj[u][k].node])
    ensures adj[u][k].node != u && adj[u][k].node != start
    ensures Core(policy, adj, nodes, start, LowerAt(policy, adj, s, u, k, du))
    ensures Progress(nodes, s.dist, LowerAt(policy, adj, s, u, k, du).dist)
  {
    var r := LowerAt(policy, adj, s, u, k, du);
    LowerQueueOk(policy, adj, nodes, s, u, k, du);
    LowerRooted(policy, adj, nodes, start, s, u, k, du);
    LowerLinked(policy, adj, nodes, s, u, k, du);
    var tie :| Ordered(nodes, s, tie);
    LowerOrdered(policy, adj, nodes, s, u, k, du, tie);
    LowerSound(policy, adj, nodes, start, s, u, k, du);
    LowerOneProgress(nodes, s.dist, adj[u][k].node, Some(du + adj[u][k].weight));
  }

  /**
   * A lowering never un-queues a node and queues the lowered one, so nodes
   * already expanded stay expanded and their neighbours stay finite.
   */
  lemma LowerKeepsSettled(policy: QueuePolicy, adj: AdjacencyList, nodes: seq<NodeId>,
                          s: State, u: NodeId, k: nat, du: nat)
    requires Keyed(nodes, s) && u in adj && k < |adj[u]| && adj[u][k].node in nodes
    requires policy.UpdateIfQueued? ==> SettledExcept(adj, nodes, s, Some(u))
    requires Less(Some(du + adj[u][k].weight), s.dist[adj[u][k].node])
    ensures policy.UpdateIfQueued? ==> SettledExcept(adj, nodes, LowerAt(policy, adj, s, u, k, du), Some(u))
    ensures Queued(LowerAt(policy, adj, s, u, k, du).queue, adj[u][k].node)
    ensures forall x :: Queued(s.queue, x) ==> Queued(LowerAt(policy, adj, s, u, k, du).queue, x)
  {
    var v := adj[u][k].node;
    var r := LowerAt(policy, adj, s, u, k, du);
    forall x | Queued(s.queue, x)
      ensures Queued(r.queue, x)
    {
      var j :| 0 <= j < |s.queue| && s.queue[j].id == x;
      assert r.queue[j].id == x;
    }
    if !Queued(s.queue, v) {
      assert r.queue[|s.queue|].id == v;
    }
    forall x | policy.UpdateIfQueued? && x in nodes && r.dist[x].Some? && !Queued(r.queue, x) && Some(x) != Some(u)
      ensures forall i :: 0 <= i < |adj[x]| ==> r.dist[adj[x][i].node].Some?
    {
      assert x != v;
      assert !Queued(s.queue, x);
      forall i | 0 <= i < |adj[x]|
        ensures r.dist[adj[x][i].node].Some?
      {
        assert s.dist[adj[x][i].node].Some?;
      }
    }
  }
}
