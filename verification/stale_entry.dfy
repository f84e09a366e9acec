/**
 * The graph on which `dijkstra` as written reports no path although one
 * exists: A-B (5), A-C (3), C-B (1), B-D (1), from A to D.
 */
module StaleEntry {
  import opened Graphs
  import opened DijkstraState
  import opened Dijkstra
  import Adjacency

  const E0: Edge := Edge("A", "B", 5)
  const E1: Edge := Edge("A", "C", 3)
  const E2: Edge := Edge("C", "B", 1)
  const E3: Edge := Edge("B", "D", 1)

  const Example: Graph := Graph(["A", "B", "C", "D"], [E0, E1, E2, E3])

  lemma IncidentUnfold(x: NodeId)
    ensures Adjacency.Incident([E0, E1, E2, E3], x)
         == Adjacency.Contribution(E0, x) + Adjacency.Contribution(E1, x)
          + Adjacency.Contribution(E2, x) + Adjacency.Contribution(E3, x)
  {
    var es := [E0, E1, E2, E3];
    assert es[1..] == [E1, E2, E3];
    assert [E1, E2, E3][1..] == [E2, E3];
    assert [E2, E3][1..] == [E3];
    assert [E3][1..] == [];
    assert Adjacency.Incident([E3], x) == Adjacency.Contribution(E3, x);
    assert Adjacency.Incident([E2, E3], x) == Adjacency.Contribution(E2, x) + Adjacency.Incident([E3], x);
    assert Adjacency.Incident([E1, E2, E3], x) == Adjacency.Contribution(E1, x) + Adjacency.Incident([E2, E3], x);
    assert Adjacency.Incident(es, x) == Adjacency.Contribution(E0, x) + Adjacency.Incident([E1, E2, E3], x);
  }

  lemma ExampleWellFormed()
    ensures WellFormed(Example)
  {
  }

  lemma ExampleListA()
    ensures Adjacency.Incident(Example.edges, "A") == [Neighbor("B", 5), Neighbor("C", 3)]
  {
    IncidentUnfold("A");
  }

  lemma ExampleListB()
    ensures Adjacency.Incident(Example.edges, "B") == [Neighbor("A", 5), Neighbor("C", 1), Neighbor("D", 1)]
  {
    IncidentUnfold("B");
  }

  lemma ExampleListC()
    ensures Adjacency.Incident(Example.edges, "C") == [Neighbor("A", 3), Neighbor("B", 1)]
  {
    IncidentUnfold("C");
  }

  /** The adjacency list `buildAdjacencyList` produces for the example. */
  function Adj(): (adj: AdjacencyList)
    ensures "A" in adj && "B" in adj && "C" in adj
    ensures adj["A"] == [Neighbor("B", 5), Neighbor("C", 3)]
    ensures adj["B"] == [Neighbor("A", 5), Neighbor("C", 1), Neighbor("D", 1)]
    ensures adj["C"] == [Neighbor("A", 3), Neighbor("B", 1)]
  {
    ExampleWellFormed();
    ExampleListA();
    ExampleListB();
    ExampleListC();
    Adjacency.Build(Example)
  }

  lemma AdjClosed()
    ensures WellFormed(Example) && Adj() == Adjacency.Build(Example)
    ensures Closed(Adj(), Example.nodes)
  {
    ExampleWellFormed();
    Adjacency.BuildClosed(Example);
  }

  /**
   * The four ids, kept abstract in the round-by-round lemmas below so that
   * they only need to know the ids are pairwise different.
   */
  datatype Ids = Ids(a: NodeId, b: NodeId, c: NodeId, d: NodeId)

  predicate Apart(n: Ids) {
    n.a != n.b && n.a != n.c && n.a != n.d && n.b != n.c && n.b != n.d && n.c != n.d
  }

  /** The neighbour lists of the example, in `buildAdjacencyList` order. */
  predicate Lists(adj: AdjacencyList, n: Ids) {
    && n.a in adj && n.b in adj && n.c in adj
    && adj[n.a] == [Neighbor(n.b, 5), Neighbor(n.c, 3)]
    && adj[n.b] == [Neighbor(n.a, 5), Neighbor(n.c, 1), Neighbor(n.d, 1)]
    && adj[n.c] == [Neighbor(n.a, 3), Neighbor(n.b, 1)]
  }

  /** `distances` on the four nodes, read off a state. */
  predicate Distances(s: State, n: Ids, da: Dist, db: Dist, dc: Dist, dd: Dist) {
    && n.a in s.dist && n.b in s.dist && n.c in s.dist && n.d in s.dist
    && s.dist[n.a] == da && s.dist[n.b] == db && s.dist[n.c] == dc && s.dist[n.d] == dd
  }

  /** Round 1 pops A and queues B at 5 and C at 3. */
  lemma Round1(adj: AdjacencyList, n: Ids, s: State)
    requires Apart(n) && Lists(adj, n) && Shaped(adj, s)
    requires s.queue == [Entry(n.a, 0)] && Distances(s, n, Some(0), None, None, None)
    ensures var o := Round(SkipIfQueued, adj, n.d, s);
      && o.Continue? && o.state.queue == [Entry(n.b, 5), Entry(n.c, 3)]
      && Distances(o.state, n, Some(0), Some(5), Some(3), None)
  {
    assert FirstMin(s.queue) == 0;
    var s0 := s.(queue := []);
    assert Remove(s.queue, 0) == [];
    RelaxA(adj, n, s0);
    assert Round(SkipIfQueued, adj, n.d, s) == Continue(Relax(SkipIfQueued, adj, n.a, 0, s0));
  }

  lemma RelaxA(adj: AdjacencyList, n: Ids, s0: State)
    requires Apart(n) && Lists(adj, n)
    requires s0.queue == [] && Distances(s0, n, Some(0), None, None, None)
    ensures var r := Relax(SkipIfQueued, adj, n.a, 0, s0);
      r.queue == [Entry(n.b, 5), Entry(n.c, 3)] && Distances(r, n, Some(0), Some(5), Some(3), None)
  {
    var s1 := LowerAt(SkipIfQueued, adj, s0, n.a, 0, 0);
    assert s1.queue == [Entry(n.b, 5)] && Distances(s1, n, Some(0), Some(5), None, None);
    RelaxA1(adj, n, s1);
  }

  lemma RelaxA1(adj: AdjacencyList, n: Ids, s1: State)
    requires Apart(n) && Lists(adj, n)
    requires s1.queue == [Entry(n.b, 5)] && Distances(s1, n, Some(0), Some(5), None, None)
    ensures var r := Relax(SkipIfQueued, adj, n.a, 1, s1);
      r.queue == [Entry(n.b, 5), Entry(n.c, 3)] && Distances(r, n, Some(0), Some(5), Some(3), None)
  {
    var s2 := LowerAt(SkipIfQueued, adj, s1, n.a, 1, 0);
    assert !Queued(s1.queue, n.c);
    assert s2.queue == [Entry(n.b, 5), Entry(n.c, 3)] && Distances(s2, n, Some(0), Some(5), Some(3), None);
    assert Relax(SkipIfQueued, adj, n.a, 2, s2) == s2;
  }

  /** Round 2 pops C (3) and lowers B to 4 through C; B already has an entry, so it keeps distance 5. */
  lemma Round2(adj: AdjacencyList, n: Ids, s: State)
    requires Apart(n) && Lists(adj, n) && Shaped(adj, s)
    requires s.queue == [Entry(n.b, 5), Entry(n.c, 3)] && Distances(s, n, Some(0), Some(5), Some(3), None)
    ensures var o := Round(SkipIfQueued, adj, n.d, s);
      && o.Continue? && o.state.queue == [Entry(n.b, 5)]
      && Distances(o.state, n, Some(0), Some(4), Some(3), None)
  {
    assert FirstMin(s.queue) == 1 by {
      assert FirstMin(s.queue[..1]) == 0;
    }
    var s0 := s.(queue := [Entry(n.b, 5)]);
    assert Remove(s.queue, 1) == [Entry(n.b, 5)];
    RelaxC(adj, n, s0);
    assert Round(SkipIfQueued, adj, n.d, s) == Continue(Relax(SkipIfQueued, adj, n.c, 0, s0));
  }

  lemma RelaxC(adj: AdjacencyList, n: Ids, s0: State)
    requires Apart(n) && Lists(adj, n)
    requires s0.queue == [Entry(n.b, 5)] && Distances(s0, n, Some(0), Some(5), Some(3), None)
    ensures var r := Relax(SkipIfQueued, adj, n.c, 0, s0);
      r.queue == [Entry(n.b, 5)] && Distances(r, n, Some(0), Some(4), Some(3), None)
  {
    assert Relax(SkipIfQueued, adj, n.c, 0, s0) == Relax(SkipIfQueued, adj, n.c, 1, s0);
    var s1 := LowerAt(SkipIfQueued, adj, s0, n.c, 1, 3);
    assert Queued(s0.queue, n.b) by {
      assert s0.queue[0].id == n.b;
    }
    assert s1.queue == [Entry(n.b, 5)] && Distances(s1, n, Some(0), Some(4), Some(3), None);
    assert Relax(SkipIfQueued, adj, n.c, 2, s1) == s1;
  }

  /** Round 3 pops B's entry (5), finds `distances` of B at 4 and skips it as stale. */
  lemma Round3(adj: AdjacencyList, n: Ids, s: State)
    requires Apart(n) && Shaped(adj, s)
    requires s.queue == [Entry(n.b, 5)] && Distances(s, n, Some(0), Some(4), Some(3), None)
    ensures var o := Round(SkipIfQueued, adj, n.d, s);
      && o.Continue? && o.state.queue == [] && Distances(o.state, n, Some(0), Some(4), Some(3), None)
  {
    assert FirstMin(s.queue) == 0;
    assert Remove(s.queue, 0) == [];
  }

  /** There is a walk A, B, D. */
  lemma ExampleReachable()
    ensures Reachable(Adj(), "A", "D")
  {
    var adj: AdjacencyList := Adj();
    assert Adjacent(adj, "A", "B") by {
      assert adj["A"][0].node == "B";
    }
    assert Adjacent(adj, "B", "D") by {
      assert adj["B"][2].node == "D";
    }
    ReachableRefl(adj, "A");
    ReachableStep(adj, "A", "A", "B");
    ReachableStep(adj, "A", "B", "D");
  }

  /**
   * `dijkstra("A", "D")` as written: round 1 pops A and queues B at 5 and C
   * at 3; round 2 pops C and lowers B to 4 but leaves B's entry at 5; round 3
   * pops that entry, finds it stale and skips it; the queue is empty and D
   * was never reached, though A, B, D is a walk.
   */
  lemma StaleEntryLosesPath()
    ensures WellFormed(Example) && "A" in Example.nodes && "D" in Example.nodes
    ensures Reachable(Adjacency.Build(Example), "A", "D")
    ensures Explore(SkipIfQueued, Example, "A", "D").state.dist["D"] == None
  {
    AdjClosed();
    ExampleReachable();
    var adj: AdjacencyList := Adj();
    var nodes := Example.nodes;
    var n := Ids("A", "B", "C", "D");
    assert Apart(n) && Lists(adj, n);
    InitialCore(SkipIfQueued, adj, nodes, "A");
    var s0 := Initial(nodes, "A");
    RoundSteps(SkipIfQueued, adj, nodes, "A", "D", s0);
    Round1(adj, n, s0);
    var s1 := Round(SkipIfQueued, adj, "D", s0).state;
    assert Run(SkipIfQueued, adj, nodes, "A", "D", s0) == Run(SkipIfQueued, adj, nodes, "A", "D", s1);
    RoundSteps(SkipIfQueued, adj, nodes, "A", "D", s1);
    Round2(adj, n, s1);
    var s2 := Round(SkipIfQueued, adj, "D", s1).state;
    assert Run(SkipIfQueued, adj, nodes, "A", "D", s1) == Run(SkipIfQueued, adj, nodes, "A", "D", s2);
    RoundSteps(SkipIfQueued, adj, nodes, "A", "D", s2);
    Round3(adj, n, s2);
    var s3 := Round(SkipIfQueued, adj, "D", s2).state;
    assert Run(SkipIfQueued, adj, nodes, "A", "D", s2) == Run(SkipIfQueued, adj, nodes, "A", "D", s3);
    assert Run(SkipIfQueued, adj, nodes, "A", "D", s3) == Halt(s3, false);
  }

  /** With decrease-key the same search reaches D. */
  lemma DecreaseKeyFindsPath()
    ensures WellFormed(Example) && "A" in Example.nodes && "D" in Example.nodes
    ensures Explore(UpdateIfQueued, Example, "A", "D").state.dist["D"].Some?
  {
    AdjClosed();
    ExampleReachable();
    DecreaseKeyComplete(Example, "A", "D");
  }
}
