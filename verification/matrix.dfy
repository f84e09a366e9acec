/**
 * The matrix part of `displayAdjacencyMatrix`: the node ids sorted as
 * JavaScript's default `sort` orders strings, a V×V matrix of zeros, and
 * for every edge in list order both cells `[u][v]` and `[v][u]` set to its
 * weight, so a later edge between the same two nodes overwrites an earlier
 * one.
 */
module Matrix {
  import opened Graphs
  import Adjacency

  /**
   * String `<=` as the default `sort` compares: character code by
   * character code, a proper prefix first.
   */
  predicate LexLe(a: string, b: string)
    decreases |a|
  {
    |a| == 0 || (|b| > 0 && (a[0] < b[0] || (a[0] == b[0] && LexLe(a[1..], b[1..]))))
  }

  lemma {:induction false} LexTotal(a: string, b: string)
    ensures LexLe(a, b) || LexLe(b, a)
    decreases |a|
  {
    if |a| > 0 && |b| > 0 && a[0] == b[0] {
      LexTotal(a[1..], b[1..]);
    }
  }

  lemma {:induction false} LexTrans(a: string, b: string, c: string)
    requires LexLe(a, b) && LexLe(b, c)
    ensures LexLe(a, c)
    decreases |a|
  {
    if |a| > 0 && a[0] == b[0] && b[0] == c[0] {
      LexTrans(a[1..], b[1..], c[1..]);
    }
  }

  lemma {:induction false} LexAntisym(a: string, b: string)
    requires LexLe(a, b) && LexLe(b, a)
    ensures a == b
    decreases |a|
  {
    if |a| > 0 {
      LexAntisym(a[1..], b[1..]);
      assert a == [a[0]] + a[1..] && b == [b[0]] + b[1..];
    }
  }

  predicate Sorted(s: seq<string>) {
    forall i, j :: 0 <= i < j < |s| ==> LexLe(s[i], s[j])
  }

  function Insert(x: string, s: seq<string>): (r: seq<string>)
    ensures multiset(r) == multiset(s) + multiset{x}
  {
    if |s| == 0 then [x]
    else if LexLe(x, s[0]) then [x] + s
    else
      assert s == [s[0]] + s[1..];
      [s[0]] + Insert(x, s[1..])
  }

  lemma {:induction false} InsertSorted(x: string, s: seq<string>)
    requires Sorted(s)
    ensures Sorted(Insert(x, s))
    decreases |s|
  {
    if |s| == 0 {
    } else if LexLe(x, s[0]) {
      forall j | 0 < j < |s| ensures LexLe(x, s[j]) {
        LexTrans(x, s[0], s[j]);
      }
      var r := [x] + s;
      forall i, j | 0 <= i < j < |r| ensures LexLe(r[i], r[j]) {
        if i > 0 {
          assert r[i] == s[i - 1] && r[j] == s[j - 1];
        }
      }
    } else {
      LexTotal(x, s[0]);
      InsertSorted(x, s[1..]);
      var t := Insert(x, s[1..]);
      var r := [s[0]] + t;
      forall y | y in t ensures LexLe(s[0], y) {
        assert y in multiset(t);
        if y != x {
          assert y in multiset(s[1..]);
          var k :| 0 <= k < |s[1..]| && s[1..][k] == y;
          assert s[k + 1] == y;
        }
      }
      forall i, j | 0 <= i < j < |r| ensures LexLe(r[i], r[j]) {
        if i > 0 {
          assert r[i] == t[i - 1] && r[j] == t[j - 1];
        } else {
          assert r[j] == t[j - 1];
        }
      }
    }
  }

  /** `Array.prototype.sort` on the ids: a sorted permutation (insertion sort as the reference). */
  function Sort(s: seq<string>): (r: seq<string>)
    ensures Sorted(r) && multiset(r) == multiset(s)
  {
    if |s| == 0 then []
    else
      assert s == [s[0]] + s[1..];
      InsertSorted(s[0], Sort(s[1..]));
      Insert(s[0], Sort(s[1..]))
  }

  lemma TailSorted(a: seq<string>)
    requires Sorted(a) && |a| > 0
    ensures Sorted(a[1..])
  {
    forall p, q | 0 <= p < q < |a[1..]| ensures LexLe(a[1..][p], a[1..][q]) {
      assert a[1..][p] == a[p + 1] && a[1..][q] == a[q + 1];
    }
  }

  lemma TailMultiset(a: seq<string>, b: seq<string>)
    requires |a| > 0 && |b| > 0 && a[0] == b[0] && multiset(a) == multiset(b)
    ensures multiset(a[1..]) == multiset(b[1..])
  {
    assert a == [a[0]] + a[1..] && b == [b[0]] + b[1..];
    assert multiset(a[1..]) == multiset(a) - multiset{a[0]};
    assert multiset(b[1..]) == multiset(b) - multiset{b[0]};
  }

  /** Sorted permutations of one another start with the same element. */
  lemma SameHead(a: seq<string>, b: seq<string>)
    requires Sorted(a) && Sorted(b) && multiset(a) == multiset(b) && |a| > 0
    ensures |b| > 0 && a[0] == b[0]
  {
    assert a[0] in multiset(b);
    assert b[0] in multiset(a);
    var i :| 0 <= i < |b| && b[i] == a[0];
    var j :| 0 <= j < |a| && a[j] == b[0];
    if a[0] != b[0] {
      assert LexLe(b[0], b[i]) && LexLe(a[0], a[j]);
      LexAntisym(a[0], b[0]);
      assert false;
    }
  }

  /** Two sorted permutations of one sequence are equal: the sorted order is unique. */
  lemma {:induction false} SortedUnique(a: seq<string>, b: seq<string>)
    requires Sorted(a) && Sorted(b) && multiset(a) == multiset(b)
    ensures a == b
    decreases |a|
  {
    if |a| > 0 {
      SameHead(a, b);
      TailSorted(a);
      TailSorted(b);
      TailMultiset(a, b);
      SortedUnique(a[1..], b[1..]);
      assert a == [a[0]] + a[1..] && b == [b[0]] + b[1..];
    } else {
      assert |multiset(b)| == 0;
    }
  }

  /** A sequence is duplicate-free exactly when every element occurs at most once in its multiset. */
  lemma {:induction false} DistinctMultiplicity(s: seq<string>)
    ensures Distinct(s) <==> forall x :: multiset(s)[x] <= 1
    decreases |s|
  {
    if |s| > 0 {
      DistinctMultiplicity(s[1..]);
      assert s == [s[0]] + s[1..];
      assert multiset(s) == multiset{s[0]} + multiset(s[1..]);
      if Distinct(s) {
        assert Distinct(s[1..]) by {
          forall i, j | 0 <= i < j < |s[1..]| ensures s[1..][i] != s[1..][j] {
            assert s[1..][i] == s[i + 1] && s[1..][j] == s[j + 1];
          }
        }
        assert s[0] !in s[1..] by {
          forall k | 0 <= k < |s[1..]| ensures s[1..][k] != s[0] {
            assert s[1..][k] == s[k + 1];
          }
        }
      }
      if forall x :: multiset(s)[x] <= 1 {
        assert multiset(s)[s[0]] <= 1;
        assert s[0] !in multiset(s[1..]);
        assert forall x :: multiset(s[1..])[x] <= multiset(s)[x];
        assert Distinct(s[1..]);
        forall i, j | 0 <= i < j < |s| ensures s[i] != s[j] {
          if i == 0 {
            assert s[j] == s[1..][j - 1];
            assert s[j] in multiset(s[1..]);
          } else {
            assert s[i] == s[1..][i - 1] && s[j] == s[1..][j - 1];
          }
        }
      }
    }
  }

  /** `nodeIds.indexOf(x)`: the first position of `x`, or -1. */
  function IndexOf(s: seq<NodeId>, x: NodeId): (i: int)
    ensures -1 <= i < |s|
    ensures i == -1 <==> x !in s
    ensures 0 <= i ==> i < |s| && s[i] == x && x !in s[..i]
  {
    if |s| == 0 then -1
    else if s[0] == x then 0
    else
      var j := IndexOf(s[1..], x);
      if j == -1 then -1
      else
        assert s[..j + 1] == [s[0]] + s[1..][..j];
        j + 1
  }

  type Cells = seq<seq<nat>>

  predicate Square(m: Cells, n: nat) {
    |m| == n && forall i :: 0 <= i < n ==> |m[i]| == n
  }

  /** The initial matrix: `n` independent rows of `n` zeros. */
  function Zeros(n: nat): (m: Cells)
    ensures Square(m, n)
    ensures forall i, j :: 0 <= i < n && 0 <= j < n ==> m[i][j] == 0
  {
    seq(n, _ => seq(n, _ => 0))
  }

  /** The matrix with the single cell at row `i`, column `j` replaced by `w`. */
  function Put(m: Cells, i: nat, j: nat, w: nat): (r: Cells)
    requires i < |m| && j < |m[i]|
  {
    var row: seq<nat> := m[i][j := w];
    m[i := row]
  }

  /** The edge joins `a` and `b`, in either orientation. */
  predicate Links(e: Edge, a: NodeId, b: NodeId) {
    (e.u == a && e.v == b) || (e.u == b && e.v == a)
  }

  /** One `forEach` step: both `[uIdx][vIdx]` and `[vIdx][uIdx]` take the weight. */
  function Record(ids: seq<NodeId>, m: Cells, e: Edge): (r: Cells)
    requires Square(m, |ids|) && e.u in ids && e.v in ids
    ensures Square(r, |ids|)
  {
    var ui := IndexOf(ids, e.u);
    var vi := IndexOf(ids, e.v);
    Put(Put(m, ui, vi, e.weight), vi, ui, e.weight)
  }

  /** With distinct ids, exactly the cells of the edge's two endpoints change. */
  lemma RecordCell(ids: seq<NodeId>, m: Cells, e: Edge, i: nat, j: nat)
    requires Distinct(ids) && Square(m, |ids|) && e.u in ids && e.v in ids && i < |ids| && j < |ids|
    ensures Record(ids, m, e)[i][j] == if Links(e, ids[i], ids[j]) then e.weight else m[i][j]
  {
    var ui := IndexOf(ids, e.u);
    var vi := IndexOf(ids, e.v);
    assert ids[ui] == e.u && ids[vi] == e.v;
    assert (i == ui <==> ids[i] == e.u) && (j == vi <==> ids[j] == e.v);
    assert (i == vi <==> ids[i] == e.v) && (j == ui <==> ids[j] == e.u);
  }

  /** The `edges.forEach` loop: edges applied in list order. */
  function FillAll(ids: seq<NodeId>, m: Cells, edges: seq<Edge>): (r: Cells)
    requires Square(m, |ids|)
    requires forall k :: 0 <= k < |edges| ==> edges[k].u in ids && edges[k].v in ids
    ensures Square(r, |ids|)
    decreases |edges|
  {
    if |edges| == 0 then m
    else Record(ids, FillAll(ids, m, edges[..|edges| - 1]), edges[|edges| - 1])
  }

  /** Reference: the weight of the last edge joining `a` and `b`, if any. */
  function LastLink(edges: seq<Edge>, a: NodeId, b: NodeId): Option<nat>
    decreases |edges|
  {
    if |edges| == 0 then None
    else if Links(edges[|edges| - 1], a, b) then Some(edges[|edges| - 1].weight)
    else LastLink(edges[..|edges| - 1], a, b)
  }

  /** `LastLink` names an edge joining the two nodes that no later edge does, or finds none. */
  lemma {:induction false} LastLinkIsLast(edges: seq<Edge>, a: NodeId, b: NodeId)
    ensures LastLink(edges, a, b).None? <==> forall k :: 0 <= k < |edges| ==> !Links(edges[k], a, b)
    ensures LastLink(edges, a, b).Some? ==>
      exists k :: 0 <= k < |edges| && Links(edges[k], a, b) && edges[k].weight == LastLink(edges, a, b).value
                  && forall q :: k < q < |edges| ==> !Links(edges[q], a, b)
    decreases |edges|
  {
    if |edges| > 0 {
      var n := |edges| - 1;
      LastLinkIsLast(edges[..n], a, b);
      assert forall k :: 0 <= k < n ==> edges[..n][k] == edges[k];
      if !Links(edges[n], a, b) && LastLink(edges[..n], a, b).Some? {
        var k :| 0 <= k < n && Links(edges[..n][k], a, b) && edges[..n][k].weight == LastLink(edges[..n], a, b).value
                 && forall q :: k < q < n ==> !Links(edges[..n][q], a, b);
        assert Links(edges[k], a, b);
      }
    }
  }

  /** What a cell ends up holding: the last joining edge's weight, or 0. */
  function Weight(edges: seq<Edge>, a: NodeId, b: NodeId): nat {
    match LastLink(edges, a, b)
    case Some(w) => w
    case None => 0
  }

  lemma {:induction false} FillAllCells(ids: seq<NodeId>, m: Cells, edges: seq<Edge>, i: nat, j: nat)
    requires Distinct(ids) && Square(m, |ids|) && i < |ids| && j < |ids|
    requires forall k :: 0 <= k < |edges| ==> edges[k].u in ids && edges[k].v in ids
    ensures FillAll(ids, m, edges)[i][j] == match LastLink(edges, ids[i], ids[j]) { case Some(w) => w case None => m[i][j] }
    decreases |edges|
  {
    if |edges| > 0 {
      var n := |edges| - 1;
      FillAllCells(ids, m, edges[..n], i, j);
      RecordCell(ids, FillAll(ids, m, edges[..n]), edges[n], i, j);
    }
  }

  lemma {:induction false} LastLinkSymmetric(edges: seq<Edge>, a: NodeId, b: NodeId)
    ensures LastLink(edges, a, b) == LastLink(edges, b, a)
    decreases |edges|
  {
    if |edges| > 0 {
      LastLinkSymmetric(edges[..|edges| - 1], a, b);
    }
  }

  /** The sorted ids and the matrix indexed by them. */
  datatype MatrixView = MatrixView(ids: seq<NodeId>, cells: Cells)

  function AdjacencyMatrix(g: Graph): (r: MatrixView)
    requires WellFormed(g)
    ensures Sorted(r.ids) && multiset(r.ids) == multiset(g.nodes)
    ensures Square(r.cells, |g.nodes|)
  {
    var ids := Sort(g.nodes);
    assert forall x :: x in ids <==> x in g.nodes by {
      forall x ensures x in ids <==> x in g.nodes {
        assert x in ids <==> x in multiset(ids);
      }
    }
    MatrixView(ids, FillAll(ids, Zeros(|ids|), g.edges))
  }

  /**
   * The ids are the nodes without repetition, in the unique sorted order;
   * the matrix is V×V, symmetric, and each cell holds the weight of the
   * last edge between its two nodes, or 0 when no edge joins them.
   */
  lemma MatrixCells(g: Graph)
    requires WellFormed(g)
    ensures var r := AdjacencyMatrix(g);
      && Distinct(r.ids)
      && (forall s :: Sorted(s) && multiset(s) == multiset(g.nodes) ==> s == r.ids)
      && (forall i, j :: 0 <= i < |r.ids| && 0 <= j < |r.ids| ==>
            r.cells[i][j] == Weight(g.edges, r.ids[i], r.ids[j]) && r.cells[i][j] == r.cells[j][i])
  {
    var r := AdjacencyMatrix(g);
    DistinctMultiplicity(g.nodes);
    DistinctMultiplicity(r.ids);
    forall s | Sorted(s) && multiset(s) == multiset(g.nodes) ensures s == r.ids {
      SortedUnique(s, r.ids);
    }
    assert forall x :: x in r.ids <==> x in g.nodes by {
      forall x ensures x in r.ids <==> x in g.nodes {
        assert x in r.ids <==> x in multiset(r.ids);
      }
    }
    forall i, j | 0 <= i < |r.ids| && 0 <= j < |r.ids|
      ensures r.cells[i][j] == Weight(g.edges, r.ids[i], r.ids[j]) && r.cells[i][j] == r.cells[j][i]
    {
      FillAllCells(r.ids, Zeros(|r.ids|), g.edges, i, j);
      FillAllCells(r.ids, Zeros(|r.ids|), g.edges, j, i);
      LastLinkSymmetric(g.edges, r.ids[i], r.ids[j]);
    }
  }

  lemma LinkedThenAdjacent(g: Graph, a: NodeId, b: NodeId, k: nat)
    requires WellFormed(g) && a in g.nodes && k < |g.edges| && Links(g.edges[k], a, b)
    ensures Adjacent(Adjacency.Build(g), a, b)
  {
    var adj: AdjacencyList := Adjacency.Build(g);
    assert Adjacency.Joins(g.edges[k], a, b, g.edges[k].weight);
    Adjacency.IncidentMembership(g.edges, a, b, g.edges[k].weight);
    var p :| 0 <= p < |adj[a]| && adj[a][p] == Neighbor(b, g.edges[k].weight);
  }

  lemma AdjacentThenLinked(g: Graph, a: NodeId, b: NodeId) returns (k: nat)
    requires WellFormed(g) && a in g.nodes && Adjacent(Adjacency.Build(g), a, b)
    ensures k < |g.edges| && Links(g.edges[k], a, b)
  {
    var adj: AdjacencyList := Adjacency.Build(g);
    var p :| 0 <= p < |adj[a]| && adj[a][p].node == b;
    var w := adj[a][p].weight;
    assert Neighbor(b, w) == adj[a][p];
    Adjacency.IncidentMembership(g.edges, a, b, w);
    k :| 0 <= k < |g.edges| && Adjacency.Joins(g.edges[k], a, b, w);
  }

  /** A joining edge exists exactly when the adjacency list pairs the two nodes. */
  lemma LinkedIffAdjacent(g: Graph, a: NodeId, b: NodeId)
    requires WellFormed(g) && a in g.nodes
    ensures LastLink(g.edges, a, b).Some? <==> Adjacent(Adjacency.Build(g), a, b)
  {
    LastLinkIsLast(g.edges, a, b);
    if LastLink(g.edges, a, b).Some? {
      var k :| 0 <= k < |g.edges| && Links(g.edges[k], a, b);
      LinkedThenAdjacent(g, a, b, k);
    }
    if Adjacent(Adjacency.Build(g), a, b) {
      var k := AdjacentThenLinked(g, a, b);
    }
  }
}
