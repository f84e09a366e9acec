/**
 * The adjacency projection built before every algorithm run: each node gets
 * a list, and each edge `[u, v, w]` pushes `{v, w}` onto u's list and then
 * `{u, w}` onto v's list, in edge order (the graph is undirected).
 */
module Adjacency {
  import opened Graphs

  /** What one edge contributes to `x`'s list: the push onto u's list comes first. */
  function Contribution(e: Edge, x: NodeId): seq<Neighbor> {
    (if e.u == x then [Neighbor(e.v, e.weight)] else []) + (if e.v == x then [Neighbor(e.u, e.weight)] else [])
  }

  /** Reference definition of `x`'s list: the contributions of all edges, in edge order. */
  function Incident(edges: seq<Edge>, x: NodeId): seq<Neighbor> {
    if |edges| == 0 then [] else Contribution(edges[0], x) + Incident(edges[1..], x)
  }

  /** The start of the projection: every node id mapped to an empty neighbour list. */
  function EmptyLists(nodes: seq<NodeId>): (adj: AdjacencyList)
    ensures forall x :: x in adj <==> x in nodes
    ensures forall x :: x in adj ==> adj[x] == []
  {
    map x | x in nodes :: []
  }

  /** One edge appends its far end to each endpoint's list, u's list first. */
  function AddEdge(adj: AdjacencyList, e: Edge): (r: AdjacencyList)
    requires e.u in adj && e.v in adj
    ensures r.Keys == adj.Keys
    ensures forall x :: x in adj ==> r[x] == adj[x] + Contribution(e, x)
  {
    var a1 := adj[e.u := adj[e.u] + [Neighbor(e.v, e.weight)]];
    a1[e.v := a1[e.v] + [Neighbor(e.u, e.weight)]]
  }

  /** The `edges.forEach` loop, first edge first. */
  function AddEdges(adj: AdjacencyList, edges: seq<Edge>): (r: AdjacencyList)
    requires forall k :: 0 <= k < |edges| ==> edges[k].u in adj && edges[k].v in adj
    ensures r.Keys == adj.Keys
    ensures forall x :: x in adj ==> r[x] == adj[x] + Incident(edges, x)
    decreases |edges|
  {
    if |edges| == 0 then adj
    else
      var a1 := AddEdge(adj, edges[0]);
      assert forall k :: 0 <= k < |edges[1..]| ==> edges[1..][k] == edges[k + 1];
      var r := AddEdges(a1, edges[1..]);
      AddEdgesStep(adj, a1, r, edges);
      r
  }

  lemma {:induction false} AddEdgesStep(adj: AdjacencyList, a1: AdjacencyList, r: AdjacencyList, edges: seq<Edge>)
    requires |edges| > 0 && a1.Keys == adj.Keys
    requires forall x :: x in adj ==> a1[x] == adj[x] + Contribution(edges[0], x)
    requires forall x :: x in a1 ==> x in r && r[x] == a1[x] + Incident(edges[1..], x)
    ensures forall x :: x in adj ==> r[x] == adj[x] + Incident(edges, x)
  {
    forall x | x in adj
      ensures r[x] == adj[x] + Incident(edges, x)
    {
      var c := Contribution(edges[0], x);
      var t := Incident(edges[1..], x);
      assert Incident(edges, x) == c + t;
      assert r[x] == (adj[x] + c) + t;
      assert (adj[x] + c) + t == adj[x] + (c + t);
    }
  }

  /**
   * `buildAdjacencyList`: every node id gets a list (possibly empty), and
   * that list is exactly the node's incident entries in edge order.
   */
  function Build(g: Graph): (adj: AdjacencyList)
    requires WellFormed(g)
    ensures forall x :: x in adj <==> x in g.nodes
    ensures forall x :: x in adj ==> adj[x] == Incident(g.edges, x)
  {
    AddEdges(EmptyLists(g.nodes), g.edges)
  }

  /** An edge joins `a` to `b` with weight `w`, in either orientation. */
  predicate Joins(e: Edge, a: NodeId, b: NodeId, w: nat) {
    e.weight == w && ((e.u == a && e.v == b) || (e.u == b && e.v == a))
  }

  /**
   * Mirroring: `{b, w}` is in `a`'s list exactly when some edge joins `a` and
   * `b` with weight `w`, whichever way round it was written.
   */
  lemma {:induction false} IncidentMembership(edges: seq<Edge>, a: NodeId, b: NodeId, w: nat)
    ensures Neighbor(b, w) in Incident(edges, a) <==> exists k :: 0 <= k < |edges| && Joins(edges[k], a, b, w)
    decreases |edges|
  {
    if |edges| > 0 {
      IncidentMembership(edges[1..], a, b, w);
      assert Incident(edges, a) == Contribution(edges[0], a) + Incident(edges[1..], a);
      if exists k :: 0 <= k < |edges| && Joins(edges[k], a, b, w) {
        var k :| 0 <= k < |edges| && Joins(edges[k], a, b, w);
        if k > 0 {
          assert Joins(edges[1..][k - 1], a, b, w);
        }
      }
      if exists k :: 0 <= k < |edges[1..]| && Joins(edges[1..][k], a, b, w) {
        var k :| 0 <= k < |edges[1..]| && Joins(edges[1..][k], a, b, w);
        assert Joins(edges[k + 1], a, b, w);
      }
    }
  }

  /** The built lists are symmetric: `b` lists `a` with the same weight whenever `a` lists `b`. */
  lemma Symmetric(g: Graph, a: NodeId, b: NodeId, w: nat)
    requires WellFormed(g)
    requires a in g.nodes && b in g.nodes
    ensures Neighbor(b, w) in Build(g)[a] <==> Neighbor(a, w) in Build(g)[b]
  {
    IncidentMembership(g.edges, a, b, w);
    IncidentMembership(g.edges, b, a, w);
    forall k | 0 <= k < |g.edges|
      ensures Joins(g.edges[k], a, b, w) <==> Joins(g.edges[k], b, a, w)
    {
    }
  }

  /** An incident list that names `b` at `a` has a matching entry naming `a` at `b`. */
  lemma IncidentNamesBack(edges: seq<Edge>, a: NodeId, b: NodeId, k: nat)
    requires k < |Incident(edges, a)| && Incident(edges, a)[k].node == b
    ensures exists i :: 0 <= i < |Incident(edges, b)| && Incident(edges, b)[i].node == a
  {
    var w := Incident(edges, a)[k].weight;
    assert Neighbor(b, w) in Incident(edges, a);
    IncidentMembership(edges, a, b, w);
    var j :| 0 <= j < |edges| && Joins(edges[j], a, b, w);
    assert Joins(edges[j], b, a, w);
    IncidentMembership(edges, b, a, w);
    var t := Incident(edges, b);
    var i :| 0 <= i < |t| && t[i] == Neighbor(a, w);
    assert t[i].node == a;
  }

  /** `Adjacent` over the built lists is a symmetric relation. */
  lemma AdjacentSymmetric(g: Graph, a: NodeId, b: NodeId)
    requires WellFormed(g)
    requires Adjacent(Build(g), a, b)
    ensures Adjacent(Build(g), b, a)
  {
    var adj: AdjacencyList := Build(g);
    var k: nat :| k < |adj[a]| && adj[a][k].node == b;
    BuildClosed(g);
    assert b in adj;
    IncidentNamesBack(g.edges, a, b, k);
  }

  /** The built lists only name nodes. */
  lemma BuildClosed(g: Graph)
    requires WellFormed(g)
    ensures Closed(Build(g), g.nodes)
  {
    var adj: AdjacencyList := Build(g);
    forall x, k | x in adj && 0 <= k < |adj[x]|
      ensures adj[x][k].node in g.nodes
    {
      var n := adj[x][k];
      assert n in Incident(g.edges, x);
      IncidentMembership(g.edges, x, n.node, n.weight);
    }
  }

  /** How many times `a` occurs in `nodes`. */
  function Occurrences(nodes: seq<NodeId>, a: NodeId): nat {
    if |nodes| == 0 then 0 else (if nodes[0] == a then 1 else 0) + Occurrences(nodes[1..], a)
  }

  /** The number of entries over the lists of `nodes`, counted with multiplicity. */
  function EntryCount(adj: AdjacencyList, nodes: seq<NodeId>): nat
    requires forall x :: x in nodes ==> x in adj
  {
    if |nodes| == 0 then 0 else |adj[nodes[0]]| + EntryCount(adj, nodes[1..])
  }

  function IncidentCount(edges: seq<Edge>, nodes: seq<NodeId>): nat {
    if |nodes| == 0 then 0 else |Incident(edges, nodes[0])| + IncidentCount(edges, nodes[1..])
  }

  lemma {:induction false} OccurrencesOfDistinct(nodes: seq<NodeId>, a: NodeId)
    requires Distinct(nodes)
    ensures Occurrences(nodes, a) == if a in nodes then 1 else 0
    decreases |nodes|
  {
    if |nodes| > 0 {
      OccurrencesOfDistinct(nodes[1..], a);
      if nodes[0] == a {
        assert a !in nodes[1..];
      } else {
        assert a in nodes <==> a in nodes[1..];
      }
    }
  }

  lemma {:induction false} IncidentCountSplit(edges: seq<Edge>, nodes: seq<NodeId>)
    requires |edges| > 0
    ensures IncidentCount(edges, nodes)
         == Occurrences(nodes, edges[0].u) + Occurrences(nodes, edges[0].v) + IncidentCount(edges[1..], nodes)
    decreases |nodes|
  {
    if |nodes| > 0 {
      IncidentCountSplit(edges, nodes[1..]);
    }
  }

  lemma {:induction false} IncidentCountTotal(edges: seq<Edge>, nodes: seq<NodeId>)
    requires Distinct(nodes)
    requires forall k :: 0 <= k < |edges| ==> edges[k].u in nodes && edges[k].v in nodes
    ensures IncidentCount(edges, nodes) == 2 * |edges|
    decreases |edges|
  {
    if |edges| == 0 {
      assert forall ns: seq<NodeId> :: IncidentCount([], ns) == 0 by {
        forall ns: seq<NodeId> ensures IncidentCount([], ns) == 0 {
          ZeroCount(ns);
        }
      }
    } else {
      IncidentCountSplit(edges, nodes);
      OccurrencesOfDistinct(nodes, edges[0].u);
      OccurrencesOfDistinct(nodes, edges[0].v);
      IncidentCountTotal(edges[1..], nodes);
    }
  }

  lemma {:induction false} ZeroCount(nodes: seq<NodeId>)
    ensures IncidentCount([], nodes) == 0
    decreases |nodes|
  {
    if |nodes| > 0 {
      ZeroCount(nodes[1..]);
    }
  }

  lemma {:induction false} EntryCountIsIncidentCount(g: Graph, nodes: seq<NodeId>)
    requires WellFormed(g)
    requires forall x :: x in nodes ==> x in g.nodes
    ensures EntryCount(Build(g), nodes) == IncidentCount(g.edges, nodes)
    decreases |nodes|
  {
    if |nodes| > 0 {
      EntryCountIsIncidentCount(g, nodes[1..]);
    }
  }

  /**
   * Every edge adds exactly two entries (two to the same list for a
   * self-loop), so the lists hold 2·|edges| entries in all.
   */
  lemma TotalEntries(g: Graph)
    requires WellFormed(g)
    ensures EntryCount(Build(g), g.nodes) == 2 * |g.edges|
  {
    EntryCountIsIncidentCount(g, g.nodes);
    IncidentCountTotal(g.edges, g.nodes);
  }

  /** A self-loop `[u, u, w]` puts `{u, w}` twice, back to back, into u's own list. */
  lemma {:induction false} SelfLoopTwice(edges: seq<Edge>, k: nat)
    requires k < |edges| && edges[k].u == edges[k].v
    ensures exists i :: 0 <= i < |Incident(edges, edges[k].u)| - 1
              && Incident(edges, edges[k].u)[i] == Neighbor(edges[k].u, edges[k].weight)
              && Incident(edges, edges[k].u)[i + 1] == Neighbor(edges[k].u, edges[k].weight)
    decreases k
  {
    var x := edges[k].u;
    if k == 0 {
      assert Contribution(edges[0], x) == [Neighbor(x, edges[0].weight), Neighbor(x, edges[0].weight)];
      assert Incident(edges, x) == Contribution(edges[0], x) + Incident(edges[1..], x);
      assert Incident(edges, x)[0] == Neighbor(x, edges[0].weight);
      assert Incident(edges, x)[1] == Neighbor(x, edges[0].weight);
    } else {
      SelfLoopTwice(edges[1..], k - 1);
      assert edges[1..][k - 1] == edges[k];
      var i :| 0 <= i < |Incident(edges[1..], x)| - 1
              && Incident(edges[1..], x)[i] == Neighbor(x, edges[k].weight)
              && Incident(edges[1..], x)[i + 1] == Neighbor(x, edges[k].weight);
      var c := |Contribution(edges[0], x)|;
      assert Incident(edges, x) == Contribution(edges[0], x) + Incident(edges[1..], x);
      assert Incident(edges, x)[c + i] == Neighbor(x, edges[k].weight);
      assert Incident(edges, x)[c + i + 1] == Neighbor(x, edges[k].weight);
      assert 0 <= c + i < |Incident(edges, x)| - 1;
    }
  }
}
