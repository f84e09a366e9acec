/**
 * `setupDemoGraph`: the campus map the page starts with. Node positions
 * and display names only feed the drawing and are not modelled; the ids,
 * their insertion order and the edge list are.
 */
module Demo {
  import opened Graphs
  import Adjacency
  import Bipartite

  const DemoNodes: seq<NodeId> := ["A", "B", "C", "D", "E", "F"]

  const DemoEdges: seq<Edge> := [
    Edge("A", "B", 5), Edge("A", "C", 3), Edge("B", "D", 2), Edge("C", "D", 7),
    Edge("D", "E", 4), Edge("F", "E", 1), Edge("C", "F", 6), Edge("B", "C", 6)
  ]

  /** The graph after `setupDemoGraph`. */
  function DemoGraph(): (g: Graph)
    ensures WellFormed(g)
    ensures |g.nodes| == 6 && |g.edges| == 8
  {
    Graph(DemoNodes, DemoEdges)
  }

  /** The demo's adjacency lists hold 16 entries, two per edge. */
  lemma DemoEntries()
    ensures Adjacency.EntryCount(Adjacency.Build(DemoGraph()), DemoGraph().nodes) == 16
  {
    Adjacency.TotalEntries(DemoGraph());
  }

  /** Edge `k` of the demo puts its endpoints next to each other in the adjacency lists. */
  lemma EdgeAdjacent(g: Graph, k: nat)
    requires WellFormed(g) && k < |g.edges|
    ensures Adjacent(Adjacency.Build(g), g.edges[k].u, g.edges[k].v)
  {
    var e := g.edges[k];
    var adj := Adjacency.Build(g);
    assert Adjacency.Joins(e, e.u, e.v, e.weight);
    Adjacency.IncidentMembership(g.edges, e.u, e.v, e.weight);
    var p :| 0 <= p < |adj[e.u]| && adj[e.u][p] == Neighbor(e.v, e.weight);
  }

  /** Three pairwise adjacent nodes (an odd cycle) admit no two-colouring. */
  lemma TriangleNotBipartite(adj: AdjacencyList, nodes: seq<NodeId>, a: NodeId, b: NodeId, c: NodeId)
    requires a in nodes && b in nodes && c in nodes
    requires Adjacent(adj, a, b) && Adjacent(adj, a, c) && Adjacent(adj, b, c)
    ensures !Bipartite.TwoColorable(adj, nodes)
  {
    if Bipartite.TwoColorable(adj, nodes) {
      assert false;
    }
  }

  /** The triangle A–B–C (edges A-B, A-C, B-C) rules out any two-colouring of the demo. */
  lemma DemoNotBipartite()
    ensures !Bipartite.TwoColorable(Adjacency.Build(DemoGraph()), DemoGraph().nodes)
  {
    var g := DemoGraph();
    assert g.edges[0] == Edge("A", "B", 5) && g.edges[1] == Edge("A", "C", 3) && g.edges[7] == Edge("B", "C", 6);
    EdgeAdjacent(g, 0);
    EdgeAdjacent(g, 1);
    EdgeAdjacent(g, 7);
    TriangleNotBipartite(Adjacency.Build(g), g.nodes, "A", "B", "C");
  }
}
