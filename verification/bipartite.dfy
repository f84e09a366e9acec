/**
 * `checkBipartite`: a breadth-first two-colouring started from every
 * uncoloured node in insertion order. A root gets colour 1, an uncoloured
 * neighbour of `u` gets `3 - color[u]` and is queued, and a coloured
 * neighbour with `u`'s own colour ends the whole check with "not
 * bipartite" (the three nested `break`s).
 *
 * The proof carries a ghost breadth-first forest: each coloured node's
 * root, parent and depth. Colours alternate along tree edges, so in any
 * proper two-colouring a node agrees with its root exactly when the check
 * gave it its root's colour; a clash between two nodes of one tree is
 * therefore a clash for every two-colouring.
 */
module Bipartite {
  import opened Graphs
  import Adjacency

  type Colors = map<NodeId, int>

  datatype Verdict = EmptyGraph | Verdict(bipartite: bool, color: Colors)

  /** Every node has colour 1 or 2 and adjacent nodes have different colours. */
  ghost predicate ProperColoring(adj: AdjacencyList, nodes: seq<NodeId>, c: Colors) {
    && (forall x :: x in nodes ==> x in c && (c[x] == 1 || c[x] == 2))
    && (forall a, b :: a in nodes && b in nodes && Adjacent(adj, a, b) ==> c[a] != c[b])
  }

  ghost predicate TwoColorable(adj: AdjacencyList, nodes: seq<NodeId>) {
    exists c :: ProperColoring(adj, nodes, c)
  }

  ghost predicate Undirected(adj: AdjacencyList) {
    forall a, b :: Adjacent(adj, a, b) ==> Adjacent(adj, b, a)
  }

  /** The ghost breadth-first forest: root, parent and depth of each coloured node. */
  datatype Tree = Tree(root: map<NodeId, NodeId>, parent: map<NodeId, NodeId>, depth: map<NodeId, nat>)

  /**
   * `x`'s tree has a root coloured 1; `x` is that root (depth 0), or its
   * colour is the opposite of its parent's in the same tree.
   */
  ghost predicate Explained(adj: AdjacencyList, color: Colors, t: Tree, x: NodeId) {
    && x in color && x in t.root && x in t.depth && t.root[x] in color && color[t.root[x]] == 1
    && (t.depth[x] == 0 ==> t.root[x] == x)
    && (t.depth[x] > 0 ==>
          && x in t.parent
          && var p := t.parent[x];
          && p in color && p in t.root && p in t.depth
          && Adjacent(adj, p, x)
          && color[x] == 3 - color[p]
          && t.root[p] == t.root[x]
          && t.depth[p] < t.depth[x])
  }

  /** Colours are 1 or 2, on nodes only, and each is explained by the forest. */
  ghost predicate Shape(adj: AdjacencyList, nodes: seq<NodeId>, color: Colors, t: Tree) {
    && Closed(adj, nodes)
    && (forall x :: x in color ==> x in nodes && (color[x] == 1 || color[x] == 2))
    && (forall x :: x in t.root ==> x in color)
    && (forall x {:trigger Explained(adj, color, t, x)} :: x in color ==> Explained(adj, color, t, x))
  }

  /** Every neighbour of `x` is coloured, with the other colour. */
  ghost predicate Proper(adj: AdjacencyList, color: Colors, x: NodeId) {
    x in color &&
    (x in adj ==> forall k :: 0 <= k < |adj[x]| ==> adj[x][k].node in color && color[adj[x][k].node] != color[x])
  }

  /** Every neighbour of `x` lies in `x`'s tree. */
  ghost predicate SameRoot(adj: AdjacencyList, t: Tree, x: NodeId) {
    x in t.root &&
    (x in adj ==> forall k :: 0 <= k < |adj[x]| ==> adj[x][k].node in t.root && t.root[adj[x][k].node] == t.root[x])
  }

  /** Between components: every coloured node is finished. */
  ghost predicate Settled(adj: AdjacencyList, color: Colors, t: Tree) {
    && (forall x {:trigger Proper(adj, color, x)} :: x in color ==> Proper(adj, color, x))
    && (forall x {:trigger SameRoot(adj, t, x)} :: x in color ==> SameRoot(adj, t, x))
  }

  /**
   * While the tree rooted at `cur` grows: queued nodes belong to it, its
   * nodes neither queued nor `busy` are finished with their colours, and
   * nodes of earlier trees are finished altogether.
   */
  ghost predicate CompInv(adj: AdjacencyList, nodes: seq<NodeId>, color: Colors, t: Tree, cur: NodeId,
                          queue: seq<NodeId>, busy: seq<NodeId>)
  {
    && Shape(adj, nodes, color, t)
    && (forall i :: 0 <= i < |queue| ==> queue[i] in color && queue[i] in t.root && t.root[queue[i]] == cur)
    && (forall x {:trigger Proper(adj, color, x)} ::
          x in color && x !in queue && x !in busy && x in t.root && t.root[x] == cur ==> Proper(adj, color, x))
    && (forall x {:trigger Proper(adj, color, x)} :: x in color && x in t.root && t.root[x] != cur ==> Proper(adj, color, x))
    && (forall x {:trigger SameRoot(adj, t, x)} :: x in color && x in t.root && t.root[x] != cur ==> SameRoot(adj, t, x))
  }

  /** How many entries of `nodes` are still uncoloured: the measure that ends the search. */
  function Remaining(nodes: seq<NodeId>, color: Colors): nat {
    if |nodes| == 0 then 0 else (if nodes[0] in color then 0 else 1) + Remaining(nodes[1..], color)
  }

  /** Colouring more nodes never raises the count, and colouring an uncoloured one lowers it. */
  lemma {:induction false} RemainingShrinks(nodes: seq<NodeId>, color: Colors, v: NodeId, c: int)
    requires v !in color
    ensures Remaining(nodes, color[v := c]) <= Remaining(nodes, color)
    ensures v in nodes ==> Remaining(nodes, color[v := c]) < Remaining(nodes, color)
    decreases |nodes|
  {
    if |nodes| > 0 {
      RemainingShrinks(nodes[1..], color, v, c);
      assert v in nodes ==> nodes[0] == v || v in nodes[1..];
    }
  }

  /**
   * In a proper two-colouring `c`, a coloured node agrees with its root
   * exactly when the check gave it its root's colour.
   */
  lemma {:induction false} Parity(adj: AdjacencyList, nodes: seq<NodeId>, color: Colors, t: Tree, c: Colors, x: NodeId)
    requires Shape(adj, nodes, color, t) && ProperColoring(adj, nodes, c) && Explained(adj, color, t, x)
    ensures t.root[x] in nodes
    ensures (c[x] == c[t.root[x]]) <==> (color[x] == color[t.root[x]])
    decreases t.depth[x]
  {
    if t.depth[x] > 0 {
      var p := t.parent[x];
      Parity(adj, nodes, color, t, c, p);
      assert c[p] != c[x];
    }
  }

  /** Two adjacent nodes of one tree with equal colours rule out every two-colouring. */
  lemma ConflictRefutes(adj: AdjacencyList, nodes: seq<NodeId>, color: Colors, t: Tree, u: NodeId, v: NodeId)
    requires Shape(adj, nodes, color, t) && u in color && v in color
    requires u in t.root && v in t.root && t.root[u] == t.root[v]
    requires Adjacent(adj, u, v) && color[u] == color[v]
    ensures !TwoColorable(adj, nodes)
  {
    if TwoColorable(adj, nodes) {
      var c :| ProperColoring(adj, nodes, c);
      assert Explained(adj, color, t, u) && Explained(adj, color, t, v);
      Parity(adj, nodes, color, t, c, u);
      Parity(adj, nodes, color, t, c, v);
      assert false;
    }
  }

  /** A coloured neighbour of a node of the growing tree belongs to that tree. */
  lemma SameComponent(adj: AdjacencyList, nodes: seq<NodeId>, color: Colors, t: Tree, cur: NodeId,
                      queue: seq<NodeId>, busy: seq<NodeId>, u: NodeId, v: NodeId)
    requires Undirected(adj) && CompInv(adj, nodes, color, t, cur, queue, busy)
    requires u in t.root && t.root[u] == cur && v in color && Adjacent(adj, u, v)
    ensures v in t.root && t.root[v] == cur
  {
    assert Explained(adj, color, t, v);
    assert t.root[v] == cur || SameRoot(adj, t, v);
    assert Adjacent(adj, v, u);
    var j :| 0 <= j < |adj[v]| && adj[v][j].node == u;
  }

  /** Adding an uncoloured node `v` to the forest leaves every coloured node explained as before. */
  lemma ExplainedKept(adj: AdjacencyList, color: Colors, t: Tree, x: NodeId, v: NodeId, c: int, cur: NodeId, p: NodeId, d: nat)
    requires Explained(adj, color, t, x) && v !in color
    ensures Explained(adj, color[v := c], Tree(t.root[v := cur], t.parent[v := p], t.depth[v := d]), x)
  {
    var r := t.root[x];
    assert x != v && r != v;
    if t.depth[x] > 0 {
      assert t.parent[x] != v;
    }
  }

  /** Colouring an uncoloured neighbour `v` of `u` unlike `u`, as `u`'s child, keeps the forest explaining every colour. */
  lemma ColourShape(adj: AdjacencyList, nodes: seq<NodeId>, color: Colors, t: Tree, cur: NodeId, u: NodeId, k: nat)
    requires Shape(adj, nodes, color, t) && Explained(adj, color, t, u) && t.root[u] == cur
    requires u in adj && k < |adj[u]| && adj[u][k].node !in color
    ensures
      var v := adj[u][k].node;
      && v in nodes
      && Shape(adj, nodes, color[v := 3 - color[u]],
               Tree(t.root[v := cur], t.parent[v := u], t.depth[v := t.depth[u] + 1]))
  {
    var v := adj[u][k].node;
    var color' := color[v := 3 - color[u]];
    var t' := Tree(t.root[v := cur], t.parent[v := u], t.depth[v := t.depth[u] + 1]);
    assert Adjacent(adj, u, v);
    assert cur in color && cur != v && color'[cur] == 1;
    forall x | x in color' ensures x in nodes && (color'[x] == 1 || color'[x] == 2) && Explained(adj, color', t', x) {
      if x != v {
        ExplainedKept(adj, color, t, x, v, 3 - color[u], cur, u, t.depth[u] + 1);
      }
    }
  }

  /** Colouring an uncoloured neighbour `v` of `u` and queueing it keeps the invariant. */
  lemma ColourKeeps(adj: AdjacencyList, nodes: seq<NodeId>, color: Colors, t: Tree, cur: NodeId,
                    queue: seq<NodeId>, busy: seq<NodeId>, u: NodeId, k: nat)
    requires CompInv(adj, nodes, color, t, cur, queue, busy)
    requires u in color && u in t.root && u in t.depth && t.root[u] == cur && u in adj && k < |adj[u]| && adj[u][k].node !in color
    ensures
      var v := adj[u][k].node;
      && v in nodes
      && CompInv(adj, nodes, color[v := 3 - color[u]],
                 Tree(t.root[v := cur], t.parent[v := u], t.depth[v := t.depth[u] + 1]), cur, queue + [v], busy)
  {
    var v := adj[u][k].node;
    var color' := color[v := 3 - color[u]];
    var t' := Tree(t.root[v := cur], t.parent[v := u], t.depth[v := t.depth[u] + 1]);
    var queue' := queue + [v];
    assert Explained(adj, color, t, u);
    ColourShape(adj, nodes, color, t, cur, u, k);
    forall x | x in color && Proper(adj, color, x) ensures Proper(adj, color', x) {
    }
    forall x | x in color && SameRoot(adj, t, x) ensures SameRoot(adj, t', x) {
    }
    forall i | 0 <= i < |queue'| ensures queue'[i] in color' && queue'[i] in t'.root && t'.root[queue'[i]] == cur {
      if i < |queue| {
        assert queue'[i] == queue[i];
      }
    }
  }

  /** Taking `u` off the front of the queue makes it the busy node. */
  lemma PopKeeps(adj: AdjacencyList, nodes: seq<NodeId>, color: Colors, t: Tree, cur: NodeId, queue: seq<NodeId>)
    requires |queue| > 0 && CompInv(adj, nodes, color, t, cur, queue, [])
    ensures CompInv(adj, nodes, color, t, cur, queue[1..], [queue[0]])
    ensures queue[0] in color && queue[0] in t.root && t.root[queue[0]] == cur
  {
    forall i | 0 <= i < |queue[1..]| ensures queue[1..][i] == queue[i + 1] {
    }
  }

  /** Once the busy node is finished, it need not be set apart. */
  lemma FinishKeeps(adj: AdjacencyList, nodes: seq<NodeId>, color: Colors, t: Tree, cur: NodeId, queue: seq<NodeId>, u: NodeId)
    requires CompInv(adj, nodes, color, t, cur, queue, [u]) && Proper(adj, color, u)
    ensures CompInv(adj, nodes, color, t, cur, queue, [])
  {
  }

  /** With the queue drained, the tree rooted at `cur` is closed: everything is finished. */
  lemma EndComponent(adj: AdjacencyList, nodes: seq<NodeId>, color: Colors, t: Tree, cur: NodeId)
    requires Undirected(adj) && CompInv(adj, nodes, color, t, cur, [], [])
    ensures Settled(adj, color, t)
  {
    forall x | x in color ensures Proper(adj, color, x) && SameRoot(adj, t, x) {
      assert Explained(adj, color, t, x);
      assert Proper(adj, color, x);
      if t.root[x] == cur && x in adj {
        forall k | 0 <= k < |adj[x]| ensures adj[x][k].node in t.root && t.root[adj[x][k].node] == t.root[x] {
          assert Adjacent(adj, x, adj[x][k].node);
          SameComponent(adj, nodes, color, t, cur, [], [], x, adj[x][k].node);
        }
      }
    }
  }

  /** Colouring a fresh root 1 starts a new tree. */
  lemma StartComponent(adj: AdjacencyList, nodes: seq<NodeId>, color: Colors, t: Tree, s: NodeId)
    requires Shape(adj, nodes, color, t) && Settled(adj, color, t) && s in nodes && s !in color
    ensures CompInv(adj, nodes, color[s := 1], Tree(t.root[s := s], t.parent, t.depth[s := 0]), s, [s], [])
  {
    var color' := color[s := 1];
    var t' := Tree(t.root[s := s], t.parent, t.depth[s := 0]);
    assert Shape(adj, nodes, color', t') by {
      forall x | x in color' ensures x in nodes && (color'[x] == 1 || color'[x] == 2) && Explained(adj, color', t', x) {
        if x != s {
          assert Explained(adj, color, t, x);
        }
      }
    }
    forall x | x in color' && x != s ensures x in t.root && t.root[x] != s && Proper(adj, color', x) && SameRoot(adj, t', x) {
      assert Explained(adj, color, t, x);
      assert Proper(adj, color, x) && SameRoot(adj, t, x);
    }
  }

  /** Settled and total on the nodes: the colouring is proper. */
  lemma SettledProper(adj: AdjacencyList, nodes: seq<NodeId>, color: Colors, t: Tree)
    requires Shape(adj, nodes, color, t) && Settled(adj, color, t)
    requires forall x :: x in nodes ==> x in color
    ensures ProperColoring(adj, nodes, color)
  {
    forall a, b | a in nodes && b in nodes && Adjacent(adj, a, b) ensures color[a] != color[b] {
      var k :| 0 <= k < |adj[a]| && adj[a][k].node == b;
      assert Proper(adj, color, a);
    }
  }

  /**
   * Growing the tree rooted at `cur` from `color0`, `t0` to `color`, `t`:
   * nodes coloured before keep their trees, and every node coloured since
   * joined the tree of `cur`.
   */
  ghost predicate Extends(color0: Colors, t0: Tree, color: Colors, t: Tree, cur: NodeId) {
    && (forall x :: x in color0 && x in t0.root ==> x in t.root && t.root[x] == t0.root[x])
    && (forall x :: x in color && x !in color0 ==> x in t.root && t.root[x] == cur)
  }

  /** Colouring one more node into the tree of `cur` extends the forest. */
  lemma ExtendsStep(color0: Colors, t0: Tree, color: Colors, t: Tree, cur: NodeId, v: NodeId, c: int,
                    parent: map<NodeId, NodeId>, depth: map<NodeId, nat>)
    requires Extends(color0, t0, color, t, cur) && Grows(color0, color) && v !in color
    ensures Extends(color0, t0, color[v := c], Tree(t.root[v := cur], parent, depth), cur)
  {
  }

  /** Two extensions of the same tree in a row are one. */
  lemma ExtendsCompose(c0: Colors, t0: Tree, c1: Colors, t1: Tree, c2: Colors, t2: Tree, cur: NodeId)
    requires Extends(c0, t0, c1, t1, cur) && Extends(c1, t1, c2, t2, cur) && Grows(c0, c1)
    ensures Extends(c0, t0, c2, t2, cur)
  {
  }

  /** Every colour in `c0` is kept in `c`. */
  ghost predicate Grows(c0: Colors, c: Colors) {
    forall x :: x in c0 ==> x in c && c[x] == c0[x]
  }

  /**
   * The `for` loop over `u`'s neighbours after `k` of them, starting from
   * `color0` and `queue0`: one queue entry per newly coloured node, and the
   * first `k` neighbours coloured unlike `u`.
   */
  ghost predicate ScanInv(adj: AdjacencyList, nodes: seq<NodeId>, color0: Colors, queue0: seq<NodeId>, u: NodeId, k: nat,
                          color: Colors, queue: seq<NodeId>, t: Tree, cur: NodeId)
  {
    && u in adj && k <= |adj[u]|
    && CompInv(adj, nodes, color, t, cur, queue, [u])
    && u in t.root && t.root[u] == cur
    && ScanProgress(adj, nodes, color0, queue0, u, k, color, queue)
  }

  /** The part of `ScanInv` about colours and the queue length only. */
  ghost predicate ScanProgress(adj: AdjacencyList, nodes: seq<NodeId>, color0: Colors, queue0: seq<NodeId>, u: NodeId, k: nat,
                               color: Colors, queue: seq<NodeId>)
  {
    && u in adj && k <= |adj[u]| && u in color
    && Grows(color0, color)
    && |queue0| <= |queue| && |queue| - |queue0| <= Remaining(nodes, color0) - Remaining(nodes, color)
    && forall j :: 0 <= j < k ==> adj[u][j].node in color && color[adj[u][j].node] != color[u]
  }

  /** Queueing the node just coloured keeps the queue's growth within the fall in uncoloured nodes. */
  lemma CountStep(nodes: seq<NodeId>, color0: Colors, queue0: seq<NodeId>, color: Colors, queue: seq<NodeId>, v: NodeId, c: int)
    requires v in nodes && v !in color
    requires |queue0| <= |queue| && |queue| - |queue0| <= Remaining(nodes, color0) - Remaining(nodes, color)
    ensures |queue0| <= |queue + [v]|
    ensures |queue + [v]| - |queue0| <= Remaining(nodes, color0) - Remaining(nodes, color[v := c])
  {
    RemainingShrinks(nodes, color, v, c);
  }

  /** Colouring the `k`-th neighbour unlike `u` keeps the earlier colours and extends the scanned prefix. */
  lemma ColoursStep(adj: AdjacencyList, color0: Colors, u: NodeId, k: nat, color: Colors)
    requires u in adj && k < |adj[u]| && u in color && Grows(color0, color)
    requires forall j :: 0 <= j < k ==> adj[u][j].node in color && color[adj[u][j].node] != color[u]
    requires adj[u][k].node !in color
    ensures
      var color' := color[adj[u][k].node := 3 - color[u]];
      && Grows(color0, color')
      && forall j :: 0 <= j < k + 1 ==> adj[u][j].node in color' && color'[adj[u][j].node] != color'[u]
  {
    var v := adj[u][k].node;
    var color' := color[v := 3 - color[u]];
    assert Grows(color0, color') by {
      forall x | x in color0 ensures x in color' && color'[x] == color0[x] {
        assert x in color && x != v;
      }
    }
    assert u != v && color'[u] == color[u] && color'[v] == 3 - color[u];
    forall j | 0 <= j < k + 1 ensures adj[u][j].node in color' && color'[adj[u][j].node] != color'[u] {
      var n := adj[u][j].node;
      if j < k {
        assert n in color && n != v && color[n] != color[u];
        assert color'[n] == color[n];
      } else {
        assert n == v;
      }
    }
  }

  lemma ProgressStep(adj: AdjacencyList, nodes: seq<NodeId>, color0: Colors, queue0: seq<NodeId>, u: NodeId, k: nat,
                     color: Colors, queue: seq<NodeId>)
    requires ScanProgress(adj, nodes, color0, queue0, u, k, color, queue) && k < |adj[u]|
    requires adj[u][k].node !in color && adj[u][k].node in nodes
    ensures
      var v := adj[u][k].node;
      ScanProgress(adj, nodes, color0, queue0, u, k + 1, color[v := 3 - color[u]], queue + [v])
  {
    var v := adj[u][k].node;
    CountStep(nodes, color0, queue0, color, queue, v, 3 - color[u]);
    ColoursStep(adj, color0, u, k, color);
  }

  /** Colouring the `k`-th neighbour, uncoloured so far, advances the scan. */
  lemma ColourStep(adj: AdjacencyList, nodes: seq<NodeId>, color0: Colors, queue0: seq<NodeId>, u: NodeId, k: nat,
                   color: Colors, queue: seq<NodeId>, t: Tree, cur: NodeId)
    requires ScanInv(adj, nodes, color0, queue0, u, k, color, queue, t, cur) && k < |adj[u]|
    requires adj[u][k].node !in color
    ensures u in t.depth
    ensures
      var v := adj[u][k].node;
      ScanInv(adj, nodes, color0, queue0, u, k + 1, color[v := 3 - color[u]], queue + [v],
              Tree(t.root[v := cur], t.parent[v := u], t.depth[v := t.depth[u] + 1]), cur)
  {
    assert Explained(adj, color, t, u);
    ColourKeeps(adj, nodes, color, t, cur, queue, [u], u, k);
    ProgressStep(adj, nodes, color0, queue0, u, k, color, queue);
  }

  /**
   * The scan of `u`'s neighbours so far, from `color0` and `queue0`: the old
   * queue is kept as a prefix, behind it stand exactly the newly coloured
   * nodes, and each of them is a neighbour of `u` coloured unlike `u`.
   */
  ghost predicate Enqueued(adj: AdjacencyList, color0: Colors, queue0: seq<NodeId>, u: NodeId,
                           color: Colors, queue: seq<NodeId>)
  {
    && u in color0
    && |queue0| <= |queue| && queue[..|queue0|] == queue0
    && (forall i :: |queue0| <= i < |queue| ==>
          queue[i] !in color0 && queue[i] in color && Adjacent(adj, u, queue[i]) && color[queue[i]] == 3 - color0[u])
    && (forall x :: x in color && x !in color0 ==> x in queue[|queue0|..])
  }

  /** Colouring the `k`-th neighbour `v` and queueing it keeps `Enqueued`. */
  lemma EnqueuedStep(adj: AdjacencyList, color0: Colors, queue0: seq<NodeId>, u: NodeId, k: nat,
                     color: Colors, queue: seq<NodeId>)
    requires Enqueued(adj, color0, queue0, u, color, queue) && Grows(color0, color)
    requires u in adj && k < |adj[u]| && adj[u][k].node !in color
    ensures
      var v := adj[u][k].node;
      Enqueued(adj, color0, queue0, u, color[v := 3 - color[u]], queue + [v])
  {
    var v := adj[u][k].node;
    var color' := color[v := 3 - color[u]];
    var queue' := queue + [v];
    assert u in color && color[u] == color0[u] && Adjacent(adj, u, v);
    assert queue'[..|queue0|] == queue[..|queue0|];
    forall i | |queue0| <= i < |queue'|
      ensures queue'[i] !in color0 && queue'[i] in color' && Adjacent(adj, u, queue'[i]) && color'[queue'[i]] == 3 - color0[u]
    {
      if i < |queue| {
        assert queue'[i] == queue[i] && queue[i] in color && queue[i] != v;
      }
    }
    forall x | x in color' && x !in color0 ensures x in queue'[|queue0|..] {
      if x != v {
        assert x in queue[|queue0|..];
        var j :| 0 <= j < |queue[|queue0|..]| && queue[|queue0|..][j] == x;
        assert queue'[|queue0|..][j] == x;
      } else {
        assert queue'[|queue0|..][|queue'| - 1 - |queue0|] == v;
      }
    }
  }

  /**
   * The `for` loop over `u`'s neighbours: colour and queue the uncoloured
   * ones, stop at the first neighbour that has `u`'s colour.
   */
  method Scan(adj: AdjacencyList, ghost nodes: seq<NodeId>, u: NodeId, color: Colors, queue: seq<NodeId>,
              ghost cur: NodeId, ghost t: Tree)
    returns (color': Colors, queue': seq<NodeId>, conflict: bool, ghost t': Tree)
    requires Undirected(adj) && CompInv(adj, nodes, color, t, cur, queue, [u])
    requires u in adj && u in color && u in t.root && t.root[u] == cur
    ensures CompInv(adj, nodes, color', t', cur, queue', [u])
    ensures Grows(color, color') && Extends(color, t, color', t', cur)
    ensures |queue| <= |queue'| && |queue'| - |queue| <= Remaining(nodes, color) - Remaining(nodes, color')
    ensures queue'[..|queue|] == queue
    ensures forall i :: |queue| <= i < |queue'| ==>
              queue'[i] !in color && Adjacent(adj, u, queue'[i]) && queue'[i] in color' && color'[queue'[i]] == 3 - color[u]
    ensures forall x :: x in color' && x !in color ==> x in queue'[|queue|..]
    ensures !conflict ==> Proper(adj, color', u)
    ensures conflict ==> !TwoColorable(adj, nodes)
  {
    color', queue', conflict, t' := color, queue, false, t;
    var k := 0;
    while k < |adj[u]|
      invariant ScanInv(adj, nodes, color, queue, u, k, color', queue', t', cur)
      invariant Extends(color, t, color', t', cur)
      invariant Enqueued(adj, color, queue, u, color', queue')
    {
      var v := adj[u][k].node;
      if v !in color' {
        EnqueuedStep(adj, color, queue, u, k, color', queue');
        ColourStep(adj, nodes, color, queue, u, k, color', queue', t', cur);
        ExtendsStep(color, t, color', t', cur, v, 3 - color'[u], t'.parent[v := u], t'.depth[v := t'.depth[u] + 1]);
        t' := Tree(t'.root[v := cur], t'.parent[v := u], t'.depth[v := t'.depth[u] + 1]);
        color' := color'[v := 3 - color'[u]];
        queue' := queue' + [v];
      } else if color'[v] == color'[u] {
        assert Adjacent(adj, u, v);
        SameComponent(adj, nodes, color', t', cur, queue', [u], u, v);
        ConflictRefutes(adj, nodes, color', t', u, v);
        conflict := true;
        return;
      }
      k := k + 1;
    }
  }

  /** The `while` loop over one component's queue. */
  method Drain(adj: AdjacencyList, ghost nodes: seq<NodeId>, color: Colors, queue: seq<NodeId>,
               ghost cur: NodeId, ghost t: Tree)
    returns (color': Colors, conflict: bool, ghost t': Tree)
    requires Undirected(adj) && CompInv(adj, nodes, color, t, cur, queue, [])
    ensures Shape(adj, nodes, color', t')
    ensures Grows(color, color') && Extends(color, t, color', t', cur)
    ensures !conflict ==> Settled(adj, color', t')
    ensures conflict ==> !TwoColorable(adj, nodes)
  {
    color', conflict, t' := color, false, t;
    var q := queue;
    while |q| > 0
      invariant CompInv(adj, nodes, color', t', cur, q, [])
      invariant Grows(color, color') && Extends(color, t, color', t', cur)
      decreases 2 * Remaining(nodes, color') + |q|
    {
      PopKeeps(adj, nodes, color', t', cur, q);
      var u := q[0];
      q := q[1..];
      if u in adj {
        ghost var c1, t1 := color', t';
        color', q, conflict, t' := Scan(adj, nodes, u, color', q, cur, t');
        ExtendsCompose(color, t, c1, t1, color', t', cur);
        if conflict {
          return;
        }
        FinishKeeps(adj, nodes, color', t', cur, q, u);
      }
    }
    EndComponent(adj, nodes, color', t', cur);
  }

  lemma BuildUndirected(g: Graph)
    requires WellFormed(g)
    ensures Undirected(Adjacency.Build(g))
  {
    forall a, b | Adjacent(Adjacency.Build(g), a, b) ensures Adjacent(Adjacency.Build(g), b, a) {
      Adjacency.AdjacentSymmetric(g, a, b);
    }
  }

  /** The tree root `r` of `x` occurs in `nodes` no later than every occurrence of `x`. */
  ghost predicate FirstOf(nodes: seq<NodeId>, r: NodeId, x: NodeId) {
    exists i :: 0 <= i < |nodes| && nodes[i] == r && (x == r || x !in nodes[..i + 1])
  }

  /** Every coloured node is reachable from the root of its tree. */
  lemma {:induction false} RootReaches(adj: AdjacencyList, nodes: seq<NodeId>, color: Colors, t: Tree, x: NodeId)
    requires Shape(adj, nodes, color, t) && x in color
    ensures x in t.root && Reachable(adj, t.root[x], x)
    decreases if x in t.depth then t.depth[x] else 0
  {
    assert Explained(adj, color, t, x);
    if t.depth[x] == 0 {
      ReachableRefl(adj, x);
    } else {
      var p := t.parent[x];
      RootReaches(adj, nodes, color, t, p);
      ReachableStep(adj, t.root[x], p, x);
    }
  }

  /** Nodes first coloured by the tree started at `nodes[i]` lie after every earlier node. */
  lemma FreshRoot(nodes: seq<NodeId>, i: nat, color: Colors, color': Colors, t': Tree)
    requires i < |nodes| && forall j :: 0 <= j < i ==> nodes[j] in color
    requires forall x :: x in color' && x !in color ==> x in t'.root && t'.root[x] == nodes[i]
    ensures forall x :: x in color' && x !in color ==> FirstOf(nodes, t'.root[x], x)
  {
    forall x | x in color' && x !in color ensures FirstOf(nodes, t'.root[x], x) {
      if x != nodes[i] {
        assert forall j :: 0 <= j < i + 1 ==> nodes[j] != x;
      }
    }
  }

  /** Growing the tree of `nodes[i]` keeps the nodes before it coloured, and colours `nodes[i]` too. */
  lemma ComponentCovers(nodes: seq<NodeId>, i: nat, c0: Colors, color: Colors)
    requires i < |nodes| && nodes[i] !in c0 && forall j :: 0 <= j < i ==> nodes[j] in c0
    requires Grows(c0[nodes[i] := 1], color)
    ensures forall j :: 0 <= j <= i ==> nodes[j] in color
    ensures i > 0 ==> color[nodes[0]] == c0[nodes[0]]
  {
    forall j | 0 <= j <= i ensures nodes[j] in color {
      assert nodes[j] in c0[nodes[i] := 1];
    }
    if i > 0 {
      assert nodes[0] != nodes[i] && nodes[0] in c0[nodes[i] := 1];
    }
  }

  /** After the tree of `nodes[i]` is grown, every coloured node's root still comes first. */
  lemma ComponentFirstOf(nodes: seq<NodeId>, i: nat, c0: Colors, t0: Tree, color: Colors, t: Tree)
    requires i < |nodes| && nodes[i] !in c0 && forall j :: 0 <= j < i ==> nodes[j] in c0
    requires forall x :: x in c0 ==> x in t0.root && FirstOf(nodes, t0.root[x], x)
    requires Grows(c0[nodes[i] := 1], color)
    requires Extends(c0[nodes[i] := 1], Tree(t0.root[nodes[i] := nodes[i]], t0.parent, t0.depth[nodes[i] := 0]), color, t, nodes[i])
    ensures forall x :: x in color ==> x in t.root && FirstOf(nodes, t.root[x], x)
  {
    var s := nodes[i];
    assert s in t.root && t.root[s] == s;
    FreshRoot(nodes, i, c0, color, t);
    forall x | x in color ensures x in t.root && FirstOf(nodes, t.root[x], x) {
      if x in c0 {
        assert x != s && x in t0.root && t.root[x] == t0.root[x];
      }
    }
  }

  /**
   * A coloured node that no earlier node of `nodes` reaches is the root of
   * its own tree, and so has colour 1.
   */
  lemma RootsColouredOne(adj: AdjacencyList, nodes: seq<NodeId>, color: Colors, t: Tree)
    requires Shape(adj, nodes, color, t)
    requires forall x :: x in color ==> x in t.root && FirstOf(nodes, t.root[x], x)
    ensures forall j :: 0 <= j < |nodes| && nodes[j] in color && (forall i :: 0 <= i < j ==> !Reachable(adj, nodes[i], nodes[j]))
              ==> color[nodes[j]] == 1
  {
    forall j | 0 <= j < |nodes| && nodes[j] in color && (forall i :: 0 <= i < j ==> !Reachable(adj, nodes[i], nodes[j]))
      ensures color[nodes[j]] == 1
    {
      var x := nodes[j];
      assert Explained(adj, color, t, x);
      RootReaches(adj, nodes, color, t, x);
    }
  }

  /**
   * The `for` loop over the nodes in insertion order: every node not yet
   * coloured starts a new tree with colour 1; a clash stops everything.
   */
  method ColourAll(adj: AdjacencyList, nodes: seq<NodeId>) returns (bipartite: bool, color: Colors)
    requires Closed(adj, nodes) && Undirected(adj) && |nodes| > 0
    ensures nodes[0] in color && color[nodes[0]] == 1
    ensures forall x :: x in color ==> x in nodes && (color[x] == 1 || color[x] == 2)
    ensures forall j :: 0 <= j < |nodes| && nodes[j] in color && (forall i :: 0 <= i < j ==> !Reachable(adj, nodes[i], nodes[j]))
              ==> color[nodes[j]] == 1
    ensures bipartite ==> ProperColoring(adj, nodes, color)
    ensures !bipartite ==> !TwoColorable(adj, nodes)
  {
    color := map[];
    ghost var t := Tree(map[], map[], map[]);
    bipartite := true;
    var i := 0;
    while i < |nodes|
      invariant 0 <= i <= |nodes|
      invariant bipartite
      invariant Shape(adj, nodes, color, t) && Settled(adj, color, t)
      invariant forall x :: x in color ==> x in t.root && FirstOf(nodes, t.root[x], x)
      invariant forall j :: 0 <= j < i ==> nodes[j] in color
      invariant i == 0 ==> color == map[]
      invariant i > 0 ==> color[nodes[0]] == 1
    {
      var s := nodes[i];
      if s !in color {
        StartComponent(adj, nodes, color, t, s);
        ghost var c0, t0 := color, t;
        var conflict;
        color, conflict, t := Drain(adj, nodes, color[s := 1], [s], s, Tree(t.root[s := s], t.parent, t.depth[s := 0]));
        ComponentFirstOf(nodes, i, c0, t0, color, t);
        ComponentCovers(nodes, i, c0, color);
        if conflict {
          bipartite := false;
          RootsColouredOne(adj, nodes, color, t);
          return;
        }
      }
      i := i + 1;
    }
    RootsColouredOne(adj, nodes, color, t);
    SettledProper(adj, nodes, color, t);
  }

  /**
   * `checkBipartite`: nothing for an empty graph; otherwise the verdict and
   * the colouring drawn. The first node is coloured 1, every colour is 1
   * or 2, the verdict is "bipartite" exactly when a proper two-colouring
   * exists, and then the colouring drawn is one.
   */
  method CheckBipartite(g: Graph) returns (o: Verdict)
    requires WellFormed(g)
    ensures o.EmptyGraph? <==> |g.nodes| == 0
    ensures o.Verdict? ==> g.nodes[0] in o.color && o.color[g.nodes[0]] == 1
    ensures o.Verdict? ==> forall x :: x in o.color ==> x in g.nodes && (o.color[x] == 1 || o.color[x] == 2)
    ensures o.Verdict? ==>
              forall j :: (0 <= j < |g.nodes| && g.nodes[j] in o.color &&
                           forall i :: 0 <= i < j ==> !Reachable(Adjacency.Build(g), g.nodes[i], g.nodes[j]))
                          ==> o.color[g.nodes[j]] == 1
    ensures o.Verdict? ==> (o.bipartite <==> TwoColorable(Adjacency.Build(g), g.nodes))
    ensures o.Verdict? && o.bipartite ==> ProperColoring(Adjacency.Build(g), g.nodes, o.color)
  {
    if |g.nodes| == 0 {
      return EmptyGraph;
    }
    Adjacency.BuildClosed(g);
    BuildUndirected(g);
    var bipartite, color := ColourAll(Adjacency.Build(g), g.nodes);
    o := Verdict(bipartite, color);
  }

  /** A self-loop makes a node its own neighbour, so no two-colouring exists. */
  lemma SelfLoopNotBipartite(g: Graph, k: nat)
    requires WellFormed(g) && k < |g.edges| && g.edges[k].u == g.edges[k].v
    ensures !TwoColorable(Adjacency.Build(g), g.nodes)
  {
    var x := g.edges[k].u;
    var adj := Adjacency.Build(g);
    Adjacency.IncidentMembership(g.edges, x, x, g.edges[k].weight);
    assert Adjacency.Joins(g.edges[k], x, x, g.edges[k].weight);
    var j :| 0 <= j < |adj[x]| && adj[x][j] == Neighbor(x, g.edges[k].weight);
    assert Adjacent(adj, x, x);
  }
}
