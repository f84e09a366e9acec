/**
 * The graph model shared by every algorithm: the node map (its keys in
 * insertion order), the undirected edge list of `[u, v, weight]` triples,
 * the adjacency projection's entry type, and reachability along it.
 */
module Graphs {

  type NodeId = string

  datatype Option<T> = None | Some(value: T)

  /** One `[u, v, weight]` triple of the edge list. */
  datatype Edge = Edge(u: NodeId, v: NodeId, weight: nat)

  /** The node map's keys in insertion order, and the edge list in order. */
  datatype Graph = Graph(nodes: seq<NodeId>, edges: seq<Edge>)

  /** One `{ node, weight }` entry of a neighbour list. */
  datatype Neighbor = Neighbor(node: NodeId, weight: nat)

  type AdjacencyList = map<NodeId, seq<Neighbor>>

  predicate Distinct<T(==)>(s: seq<T>) {
    forall i, j :: 0 <= i < j < |s| ==> s[i] != s[j]
  }

  /** Node ids are map keys, hence distinct; every edge endpoint is a node. */
  predicate WellFormed(g: Graph) {
    && Distinct(g.nodes)
    && forall k :: 0 <= k < |g.edges| ==> g.edges[k].u in g.nodes && g.edges[k].v in g.nodes
  }

  /** Some entry of `a`'s neighbour list names `b`. */
  predicate Adjacent(adj: AdjacencyList, a: NodeId, b: NodeId) {
    a in adj && exists k :: 0 <= k < |adj[a]| && adj[a][k].node == b
  }

  /** Every node has a list and every listed neighbour is a node. */
  ghost predicate Closed(adj: AdjacencyList, nodes: seq<NodeId>) {
    && (forall x :: x in adj <==> x in nodes)
    && (forall x, k :: x in adj && 0 <= k < |adj[x]| ==> adj[x][k].node in nodes)
  }

  ghost predicate IsWalk(adj: AdjacencyList, p: seq<NodeId>) {
    |p| > 0 && forall i :: 0 <= i < |p| - 1 ==> Adjacent(adj, p[i], p[i + 1])
  }

  ghost predicate Reachable(adj: AdjacencyList, s: NodeId, t: NodeId) {
    exists p :: IsWalk(adj, p) && p[0] == s && p[|p| - 1] == t
  }

  lemma ReachableRefl(adj: AdjacencyList, s: NodeId)
    ensures Reachable(adj, s, s)
  {
    assert IsWalk(adj, [s]);
  }

  /** A walk to `a` extends along any adjacency entry of `a`. */
  lemma ReachableStep(adj: AdjacencyList, s: NodeId, a: NodeId, b: NodeId)
    requires Reachable(adj, s, a) && Adjacent(adj, a, b)
    ensures Reachable(adj, s, b)
  {
    var p :| IsWalk(adj, p) && p[0] == s && p[|p| - 1] == a;
    var q := p + [b];
    assert forall i :: 0 <= i < |q| - 1 ==> Adjacent(adj, q[i], q[i + 1]) by {
      forall i | 0 <= i < |q| - 1
        ensures Adjacent(adj, q[i], q[i + 1])
      {
        if i < |p| - 1 {
          assert q[i] == p[i] && q[i + 1] == p[i + 1];
        }
      }
    }
    assert IsWalk(adj, q);
  }

  /** A set that holds `s` and is closed under adjacency holds everything reachable from `s`. */
  lemma {:induction false} ClosedSetHoldsReachable(adj: AdjacencyList, S: set<NodeId>, s: NodeId, t: NodeId)
    requires s in S
    requires forall a, b :: a in S && Adjacent(adj, a, b) ==> b in S
    requires Reachable(adj, s, t)
    ensures t in S
  {
    var p :| IsWalk(adj, p) && p[0] == s && p[|p| - 1] == t;
    var i := 0;
    while i < |p| - 1
      invariant 0 <= i <= |p| - 1
      invariant p[i] in S
    {
      assert Adjacent(adj, p[i], p[i + 1]);
      i := i + 1;
    }
  }
}
