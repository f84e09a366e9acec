/**
 * The breadth-first and depth-first walks of `runTraversal`: one container
 * of pending node ids, taken from the front (BFS, `shift`) or the back
 * (DFS, `pop`); a popped node not yet visited is appended to the visiting
 * order and each of its neighbours is pushed unless it is already visited
 * or already pending. The timer that spaces the steps is only a clock, so
 * the walk is the iteration of `Step` until the container is empty.
 */
module Traversal {
  import opened Graphs
  import Adjacency

  datatype Kind = BFS | DFS

  /** The pending container, the visited set and the visiting order. */
  datatype Walker = Walker(container: seq<NodeId>, visited: set<NodeId>, order: seq<NodeId>)

  /** The node a step takes and the container left behind. */
  datatype Taken = Taken(node: NodeId, rest: seq<NodeId>)

  function Take(kind: Kind, c: seq<NodeId>): (t: Taken)
    requires |c| > 0
    ensures kind == BFS ==> [t.node] + t.rest == c
    ensures kind == DFS ==> t.rest + [t.node] == c
  {
    match kind
    case BFS => Taken(c[0], c[1..])
    case DFS => Taken(c[|c| - 1], c[..|c| - 1])
  }

  /**
   * Pushes, in list order from position `j`, every neighbour that is
   * neither visited nor already in the container (including the ones this
   * same pass pushed).
   */
  function Push(l: seq<Neighbor>, j: nat, visited: set<NodeId>, c: seq<NodeId>): (r: seq<NodeId>)
    requires j <= |l|
    ensures |c| <= |r| && r[..|c|] == c
    ensures forall i :: |c| <= i < |r| ==> r[i] !in visited && r[i] !in r[..i]
    ensures forall k :: j <= k < |l| ==> l[k].node in visited || l[k].node in r
    ensures forall i :: |c| <= i < |r| ==> exists k :: j <= k < |l| && l[k].node == r[i]
    decreases |l| - j
  {
    if j == |l| then c
    else
      var v := l[j].node;
      Push(l, j + 1, visited, if v !in visited && v !in c then c + [v] else c)
  }

  /** One call of the `traverse` callback on a non-empty container. */
  function Step(kind: Kind, adj: AdjacencyList, w: Walker): Walker
    requires |w.container| > 0
  {
    var t := Take(kind, w.container);
    if t.node in w.visited then w.(container := t.rest)
    else
      var visited := w.visited + {t.node};
      Walker(Pending(adj, t.node, visited, t.rest), visited, w.order + [t.node])
  }

  function Unvisited(nodes: seq<NodeId>, visited: set<NodeId>): set<NodeId> {
    (set x | x in nodes) - visited
  }

  /**
   * What holds between steps: the container holds distinct unvisited
   * nodes, the order lists the visited set without repetition and begins
   * at `start`, every visited node has each neighbour visited or pending,
   * and everything seen is reachable from `start`.
   */
  ghost predicate Inv(adj: AdjacencyList, nodes: seq<NodeId>, start: NodeId, w: Walker) {
    && Closed(adj, nodes)
    && start in nodes
    && Distinct(w.container)
    && (forall i :: 0 <= i < |w.container| ==> w.container[i] in nodes && w.container[i] !in w.visited)
    && Distinct(w.order)
    && (forall x :: x in w.visited <==> x in w.order)
    && (forall i :: 0 <= i < |w.order| ==> w.order[i] in nodes)
    && (|w.order| == 0 ==> w.container == [start])
    && (|w.order| > 0 ==> w.order[0] == start)
    && Expanded(adj, w)
    && (forall x :: x in w.visited || x in w.container ==> Reachable(adj, start, x))
  }

  /** Every neighbour of a visited node is visited or pending. */
  ghost predicate Expanded(adj: AdjacencyList, w: Walker) {
    forall u, k :: u in w.visited && u in adj && 0 <= k < |adj[u]| ==>
      adj[u][k].node in w.visited || adj[u][k].node in w.container
  }

  /** Popping a pending node moves it to `visited`: the distinctness facts survive. */
  lemma TakeFacts(kind: Kind, c: seq<NodeId>)
    requires |c| > 0 && Distinct(c)
    ensures Distinct(Take(kind, c).rest)
    ensures Take(kind, c).node !in Take(kind, c).rest
    ensures forall x :: x in c <==> x == Take(kind, c).node || x in Take(kind, c).rest
  {
    var t := Take(kind, c);
    if kind == BFS {
      assert c == [t.node] + t.rest;
    } else {
      assert c == t.rest + [t.node];
    }
  }

  /** The pushed container is distinct, unvisited, and made of nodes reachable from `u`'s list. */
  lemma PushFacts(adj: AdjacencyList, nodes: seq<NodeId>, u: NodeId, visited: set<NodeId>, c: seq<NodeId>)
    requires Closed(adj, nodes) && u in adj && Distinct(c)
    ensures Distinct(Push(adj[u], 0, visited, c))
    ensures forall x :: x in Push(adj[u], 0, visited, c) ==> x in c || (x in nodes && x !in visited && Adjacent(adj, u, x))
  {
    var r := Push(adj[u], 0, visited, c);
    forall i, j | 0 <= i < j < |r| ensures r[i] != r[j] {
      if j >= |c| {
        assert r[i] in r[..j];
      } else {
        assert r[i] == c[i] && r[j] == c[j];
      }
    }
    forall x | x in r ensures x in c || (x in nodes && x !in visited && Adjacent(adj, u, x)) {
      var i :| 0 <= i < |r| && r[i] == x;
      if i < |c| {
        assert r[..|c|][i] == x;
      } else {
        var k :| 0 <= k < |adj[u]| && adj[u][k].node == r[i];
      }
    }
  }

  /** The container after a visit: the rest plus the pushed neighbours of `u`. */
  function Pending(adj: AdjacencyList, u: NodeId, visited: set<NodeId>, rest: seq<NodeId>): seq<NodeId> {
    if u in adj then Push(adj[u], 0, visited, rest) else rest
  }

  /** The new container is distinct, unvisited, inside `nodes`, reachable, and keeps the old rest. */
  lemma PendingFacts(adj: AdjacencyList, nodes: seq<NodeId>, start: NodeId, u: NodeId, visited: set<NodeId>, rest: seq<NodeId>)
    requires Closed(adj, nodes) && u in visited && Reachable(adj, start, u) && Distinct(rest)
    requires forall x :: x in rest ==> x in nodes && x !in visited && Reachable(adj, start, x)
    ensures Distinct(Pending(adj, u, visited, rest))
    ensures forall x :: x in Pending(adj, u, visited, rest) ==> x in nodes && x !in visited && Reachable(adj, start, x)
    ensures forall x :: x in rest ==> x in Pending(adj, u, visited, rest)
    ensures u in adj ==> forall k :: 0 <= k < |adj[u]| ==> adj[u][k].node in visited || adj[u][k].node in Pending(adj, u, visited, rest)
  {
    if u in adj {
      var r := Push(adj[u], 0, visited, rest);
      PushFacts(adj, nodes, u, visited, rest);
      forall x | x in r ensures Reachable(adj, start, x) {
        if x !in rest {
          ReachableStep(adj, start, u, x);
        }
      }
      forall x | x in rest ensures x in r {
        assert r[..|rest|] == rest;
      }
    }
  }

  /** Appending an unvisited node keeps the order distinct and in step with the visited set. */
  lemma AppendFacts(order: seq<NodeId>, visited: set<NodeId>, u: NodeId)
    requires Distinct(order) && (forall x :: x in visited <==> x in order) && u !in visited
    ensures Distinct(order + [u])
    ensures forall x :: x in visited + {u} <==> x in order + [u]
  {
    var o := order + [u];
    forall i, j | 0 <= i < j < |o| ensures o[i] != o[j] {
      assert o[i] == order[i];
      if j < |order| {
        assert o[j] == order[j];
      }
    }
  }

  /** Visiting `u` keeps every visited node's neighbours visited or pending. */
  lemma ExpandedFacts(adj: AdjacencyList, w: Walker, u: NodeId, rest: seq<NodeId>, pending: seq<NodeId>)
    requires Expanded(adj, w)
    requires forall x :: x in w.container ==> x == u || x in rest
    requires forall x :: x in rest ==> x in pending
    requires u in adj ==> forall k :: 0 <= k < |adj[u]| ==> adj[u][k].node in w.visited + {u} || adj[u][k].node in pending
    ensures Expanded(adj, Walker(pending, w.visited + {u}, w.order + [u]))
  {
    var visited := w.visited + {u};
    forall v, k | v in visited && v in adj && 0 <= k < |adj[v]|
      ensures adj[v][k].node in visited || adj[v][k].node in pending
    {
      if v != u {
        assert adj[v][k].node in w.visited || adj[v][k].node in w.container;
      }
    }
  }

  /** The walk visits a node it had not visited, so fewer nodes stay unvisited. */
  lemma UnvisitedShrinks(nodes: seq<NodeId>, visited: set<NodeId>, u: NodeId)
    requires u in nodes && u !in visited
    ensures |Unvisited(nodes, visited + {u})| < |Unvisited(nodes, visited)|
  {
    assert Unvisited(nodes, visited) == Unvisited(nodes, visited + {u}) + {u};
  }

  /** Visiting a pending, unvisited `u` and replacing the container by `pending` keeps `Inv`. */
  lemma VisitKeeps(adj: AdjacencyList, nodes: seq<NodeId>, start: NodeId, w: Walker, u: NodeId, rest: seq<NodeId>, pending: seq<NodeId>)
    requires Inv(adj, nodes, start, w) && u in w.container
    requires forall x :: x in w.container ==> x == u || x in rest
    requires forall x :: x in rest ==> x in pending
    requires Distinct(pending)
    requires forall x :: x in pending ==> x in nodes && x !in w.visited + {u} && Reachable(adj, start, x)
    requires u in adj ==> forall k :: 0 <= k < |adj[u]| ==> adj[u][k].node in w.visited + {u} || adj[u][k].node in pending
    ensures Inv(adj, nodes, start, Walker(pending, w.visited + {u}, w.order + [u]))
  {
    AppendFacts(w.order, w.visited, u);
    ExpandedFacts(adj, w, u, rest, pending);
    var w' := Walker(pending, w.visited + {u}, w.order + [u]);
    assert forall i :: 0 <= i < |w'.order| ==> w'.order[i] in nodes by {
      forall i | 0 <= i < |w'.order| ensures w'.order[i] in nodes {
        if i < |w.order| {
          assert w'.order[i] == w.order[i];
        }
      }
    }
    assert |w'.order| > 0 && w'.order[0] == start by {
      if |w.order| == 0 {
        assert w.container == [start];
      } else {
        assert w'.order[0] == w.order[0];
      }
    }
  }

  /** One step keeps `Inv`, appends the taken node to the order and visits one more node. */
  lemma StepKeeps(kind: Kind, adj: AdjacencyList, nodes: seq<NodeId>, start: NodeId, w: Walker)
    requires Inv(adj, nodes, start, w) && |w.container| > 0
    ensures Inv(adj, nodes, start, Step(kind, adj, w))
    ensures Take(kind, w.container).node !in w.visited
    ensures Step(kind, adj, w).order == w.order + [Take(kind, w.container).node]
    ensures Step(kind, adj, w).visited == w.visited + {Take(kind, w.container).node}
    ensures |Unvisited(nodes, Step(kind, adj, w).visited)| < |Unvisited(nodes, w.visited)|
  {
    var t := Take(kind, w.container);
    TakeFacts(kind, w.container);
    var u := t.node;
    assert u in w.container;
    var visited := w.visited + {u};
    var pending := Pending(adj, u, visited, t.rest);
    assert Step(kind, adj, w) == Walker(pending, visited, w.order + [u]);
    PendingFacts(adj, nodes, start, u, visited, t.rest);
    VisitKeeps(adj, nodes, start, w, u, t.rest, pending);
    UnvisitedShrinks(nodes, w.visited, u);
  }

  /** The `traverse` callback repeated until the container is empty. */
  function Walk(kind: Kind, adj: AdjacencyList, ghost nodes: seq<NodeId>, ghost start: NodeId, w: Walker): (r: Walker)
    requires Inv(adj, nodes, start, w)
    ensures Inv(adj, nodes, start, r) && |r.container| == 0
    decreases |Unvisited(nodes, w.visited)|
  {
    if |w.container| == 0 then w
    else
      StepKeeps(kind, adj, nodes, start, w);
      Walk(kind, adj, nodes, start, Step(kind, adj, w))
  }

  /** With nothing pending, the visited set is closed under adjacency and so holds every reachable node. */
  lemma DrainedVisitsReachable(adj: AdjacencyList, nodes: seq<NodeId>, start: NodeId, w: Walker)
    requires Inv(adj, nodes, start, w) && |w.container| == 0
    ensures forall x :: x in w.order <==> Reachable(adj, start, x)
  {
    forall a, b | a in w.visited && Adjacent(adj, a, b) ensures b in w.visited {
      var k :| 0 <= k < |adj[a]| && adj[a][k].node == b;
    }
    forall x | Reachable(adj, start, x) ensures x in w.order {
      ClosedSetHoldsReachable(adj, w.visited, start, x);
    }
  }

  /** The walker `runTraversal` starts with: the start node pending, nothing visited. */
  lemma StartKeeps(adj: AdjacencyList, nodes: seq<NodeId>, start: NodeId)
    requires Closed(adj, nodes) && start in nodes
    ensures Inv(adj, nodes, start, Walker([start], {}, []))
  {
    ReachableRefl(adj, start);
  }

  /** A complete walk from `start` visits each node reachable from it once, `start` first. */
  lemma WalkVisitsComponent(kind: Kind, adj: AdjacencyList, nodes: seq<NodeId>, start: NodeId)
    requires Closed(adj, nodes) && start in nodes
    ensures Inv(adj, nodes, start, Walker([start], {}, []))
    ensures
      var order := Walk(kind, adj, nodes, start, Walker([start], {}, [])).order;
      && |order| > 0 && order[0] == start
      && Distinct(order)
      && forall x :: x in order <==> x in nodes && Reachable(adj, start, x)
  {
    StartKeeps(adj, nodes, start);
    var r := Walk(kind, adj, nodes, start, Walker([start], {}, []));
    DrainedVisitsReachable(adj, nodes, start, r);
    assert start in r.order;
  }

  /**
   * `runTraversal`: nothing for an empty graph; otherwise the visiting
   * order from the first node in insertion order.
   */
  function RunTraversal(kind: Kind, g: Graph): (o: Option<seq<NodeId>>)
    requires WellFormed(g)
  {
    if |g.nodes| == 0 then None
    else
      var adj: AdjacencyList := Adjacency.Build(g);
      Adjacency.BuildClosed(g);
      StartKeeps(adj, g.nodes, g.nodes[0]);
      Some(Walk(kind, adj, g.nodes, g.nodes[0], Walker([g.nodes[0]], {}, [])).order)
  }

  /**
   * Both walks start at the first node, never repeat a node, and visit
   * exactly the nodes reachable from it.
   */
  lemma TraversalVisitsComponent(kind: Kind, g: Graph)
    requires WellFormed(g)
    ensures RunTraversal(kind, g).None? <==> |g.nodes| == 0
    ensures RunTraversal(kind, g).Some? ==>
      var order := RunTraversal(kind, g).value;
      && |order| > 0 && order[0] == g.nodes[0]
      && Distinct(order)
      && forall x :: x in order <==> x in g.nodes && Reachable(Adjacency.Build(g), g.nodes[0], x)
  {
    if |g.nodes| > 0 {
      var adj: AdjacencyList := Adjacency.Build(g);
      Adjacency.BuildClosed(g);
      WalkVisitsComponent(kind, adj, g.nodes, g.nodes[0]);
    }
  }
}
