/**
 * Adjacency lists as both graph scripts (graphs.rb and floydwarshall.rb)
 * hold them: entry v of the graph lists the vertices that v is connected
 * to.  This module holds what the two scripts share: the edge list that
 * their identical `getEdges` builds, how a neighbour entry indexes a Ruby
 * array, and the bookkeeping of an in-place row-major sweep over a square
 * matrix of nested arrays.
 */
module Adjacency {
  import opened Outcome

  /** GRAPH[v] lists the neighbours of vertex v. */
  type Graph = seq<seq<int>>

  /**
   * The row that Ruby's `paths[x]` reaches in an array of n rows: an index
   * in [0, n) is used as is, one in [-n, 0) counts back from the end, and
   * any other index reads `nil`.
   */
  function Slot(x: int, n: nat): (r: Option<nat>)
    ensures r.Some? <==> 0 <= x + n && x < n
    ensures r.Some? ==> r.value < n && (r.value == x || r.value == x + n)
  {
    if 0 <= x < n then Some(x) else if 0 <= x + n && x < 0 then Some(x + n) else None
  }

  /** Every neighbour entry reaches a row of a |g| x |g| matrix. */
  predicate Indexable(g: Graph)
  {
    forall v, nb :: 0 <= v < |g| && nb in g[v] ==> Slot(nb, |g|).Some?
  }

  /**
   * Vertex i is listed among the neighbours of vertex j, so the scripts
   * set paths[i][j] to 1.
   */
  ghost predicate Edge(g: Graph, i: int, j: int)
  {
    0 <= j < |g| && exists nb :: nb in g[j] && Slot(nb, |g|) == Some(i)
  }

  /** Each consecutive pair of w is an edge. */
  ghost predicate IsWalk(g: Graph, w: seq<int>)
  {
    forall t :: 0 <= t < |w| - 1 ==> Edge(g, w[t], w[t + 1])
  }

  /** Two walks that meet at a vertex join into one. */
  lemma WalkJoin(g: Graph, w1: seq<int>, w2: seq<int>)
    requires w1 != [] && w2 != [] && w1[|w1| - 1] == w2[0]
    requires IsWalk(g, w1) && IsWalk(g, w2)
    ensures IsWalk(g, w1[..|w1| - 1] + w2)
  {
    var w := w1[..|w1| - 1] + w2;
    forall t | 0 <= t < |w| - 1
      ensures Edge(g, w[t], w[t + 1])
    {
      if t < |w1| - 1 {
        assert w[t] == w1[t];
        assert w[t + 1] == w1[t + 1];
      } else {
        assert w[t] == w2[t - (|w1| - 1)];
        assert w[t + 1] == w2[t + 1 - (|w1| - 1)];
      }
    }
  }

  /** The pairs [neighbour, vertex] that vertex v contributes, in list order. */
  function Incident(neighbours: seq<int>, v: nat): (es: seq<(int, nat)>)
    ensures |es| == |neighbours|
  {
    seq(|neighbours|, m requires 0 <= m < |neighbours| => (neighbours[m], v))
  }

  /**
   * What getEdges returns: one [neighbour, vertex] pair per adjacency
   * entry, vertex by vertex and, within a vertex, in list order.
   */
  function EdgeList(g: Graph): seq<(int, nat)>
  {
    if g == [] then [] else EdgeList(g[..|g| - 1]) + Incident(g[|g| - 1], |g| - 1)
  }

  /** The total length of all adjacency lists. */
  function TotalDegree(g: Graph): nat
  {
    if g == [] then 0 else TotalDegree(g[..|g| - 1]) + |g[|g| - 1]|
  }

  /** getEdges yields exactly one pair per adjacency entry. */
  lemma {:induction false} EdgeListSize(g: Graph)
    ensures |EdgeList(g)| == TotalDegree(g)
  {
    if g != [] {
      EdgeListSize(g[..|g| - 1]);
    }
  }

  /** A pair is listed exactly when its first part is a neighbour entry of its second. */
  lemma {:induction false} EdgeListMembers(g: Graph, e: (int, nat))
    ensures e in EdgeList(g) <==> e.1 < |g| && e.0 in g[e.1]
  {
    if g != [] {
      var init := g[..|g| - 1];
      EdgeListMembers(init, e);
      var last := Incident(g[|g| - 1], |g| - 1);
      assert e in EdgeList(g) <==> e in EdgeList(init) || e in last;
      if e in last {
        var m :| 0 <= m < |last| && last[m] == e;
        assert g[e.1][m] == e.0;
      }
      if e.1 == |g| - 1 && e.0 in g[e.1] {
        var m :| 0 <= m < |g[e.1]| && g[e.1][m] == e.0;
        assert last[m] == e;
      }
      if e.1 < |g| - 1 {
        assert init[e.1] == g[e.1];
      }
    }
  }

  /** graphs.rb:83-91 and floydwarshall.rb:22-30 (the two are identical). */
  method GetEdges(graph: Graph) returns (edges: seq<(int, nat)>)
    ensures edges == EdgeList(graph)
  {
    edges := [];
    for vertex := 0 to |graph|
      invariant edges == EdgeList(graph[..vertex])
    {
      var neighbours := graph[vertex];
      for m := 0 to |neighbours|
        invariant edges == EdgeList(graph[..vertex]) + Incident(neighbours[..m], vertex)
      {
        edges := edges + [(neighbours[m], vertex)];
      }
      assert neighbours[..|neighbours|] == neighbours;
      assert graph[..vertex + 1][..vertex] == graph[..vertex];
    }
    assert graph[..|graph|] == graph;
  }

  /** An n x n matrix held as n rows of n entries. */
  predicate Square<T>(m: seq<seq<T>>, n: nat)
  {
    |m| == n && forall x :: 0 <= x < n ==> |m[x]| == n
  }

  /**
   * A square matrix part-way through one row-major in-place sweep: the
   * cells before (i, j) already hold their value in `next`, the others
   * still hold their value in `prev`.
   */
  function Mix<T>(prev: seq<seq<T>>, next: seq<seq<T>>, i: int, j: int): (r: seq<seq<T>>)
    requires Square(prev, |prev|) && Square(next, |prev|)
    ensures Square(r, |prev|)
  {
    seq(|prev|, x requires 0 <= x < |prev| =>
      seq(|prev|, y requires 0 <= y < |prev| =>
        if x < i || (x == i && y < j) then next[x][y] else prev[x][y]))
  }

  lemma MixStart<T>(prev: seq<seq<T>>, next: seq<seq<T>>)
    requires Square(prev, |prev|) && Square(next, |prev|)
    ensures Mix(prev, next, 0, 0) == prev
  {
    var r := Mix(prev, next, 0, 0);
    forall x | 0 <= x < |prev|
      ensures r[x] == prev[x]
    {
    }
  }

  lemma MixDone<T>(prev: seq<seq<T>>, next: seq<seq<T>>)
    requires Square(prev, |prev|) && Square(next, |prev|)
    ensures Mix(prev, next, |prev|, 0) == next
  {
    var r := Mix(prev, next, |prev|, 0);
    forall x | 0 <= x < |prev|
      ensures r[x] == next[x]
    {
    }
  }

  /** Finishing row i is the same as starting row i + 1. */
  lemma MixRowEnd<T>(prev: seq<seq<T>>, next: seq<seq<T>>, i: int)
    requires Square(prev, |prev|) && Square(next, |prev|)
    ensures Mix(prev, next, i, |prev|) == Mix(prev, next, i + 1, 0)
  {
    var r, s := Mix(prev, next, i, |prev|), Mix(prev, next, i + 1, 0);
    forall x | 0 <= x < |prev|
      ensures r[x] == s[x]
    {
    }
  }

  /** Writing the next value into cell (i, j) moves the sweep one cell on. */
  lemma MixStep<T>(prev: seq<seq<T>>, next: seq<seq<T>>, i: nat, j: nat)
    requires Square(prev, |prev|) && Square(next, |prev|) && i < |prev| && j < |prev|
    ensures var m := Mix(prev, next, i, j);
            m[i := m[i][j := next[i][j]]] == Mix(prev, next, i, j + 1)
  {
    var m, s := Mix(prev, next, i, j), Mix(prev, next, i, j + 1);
    var r := m[i := m[i][j := next[i][j]]];
    forall x | 0 <= x < |prev|
      ensures r[x] == s[x]
    {
    }
  }

  /** A cell whose value the pass does not change can be stepped over. */
  lemma MixKeep<T>(prev: seq<seq<T>>, next: seq<seq<T>>, i: nat, j: nat)
    requires Square(prev, |prev|) && Square(next, |prev|) && i < |prev| && j < |prev|
    requires prev[i][j] == next[i][j]
    ensures Mix(prev, next, i, j) == Mix(prev, next, i, j + 1)
  {
    var m, s := Mix(prev, next, i, j), Mix(prev, next, i, j + 1);
    forall x | 0 <= x < |prev|
      ensures m[x] == s[x]
    {
    }
  }

  /** Some pair of es puts a 1 at paths[x][y] of an n-row matrix. */
  ghost predicate Marked(es: seq<(int, nat)>, n: nat, x: int, y: int)
  {
    es != [] && (Marked(es[..|es| - 1], n, x, y) ||
                 (Slot(es[|es| - 1].0, n) == Some(x) && es[|es| - 1].1 == y))
  }

  lemma {:induction false} MarkedWitness(es: seq<(int, nat)>, n: nat, x: int, y: int)
    ensures Marked(es, n, x, y) <==> exists nb :: (nb, y) in es && Slot(nb, n) == Some(x)
  {
    if es != [] {
      var init := es[..|es| - 1];
      MarkedWitness(init, n, x, y);
      assert es == init + [es[|es| - 1]];
    }
  }

  /** The edge list marks exactly the edges of the graph. */
  lemma MarkedIsEdge(g: Graph, x: int, y: int)
    ensures Marked(EdgeList(g), |g|, x, y) <==> Edge(g, x, y)
  {
    MarkedWitness(EdgeList(g), |g|, x, y);
    if Marked(EdgeList(g), |g|, x, y) {
      var nb :| (nb, y) in EdgeList(g) && Slot(nb, |g|) == Some(x);
      EdgeListMembers(g, (nb, y));
    }
    if Edge(g, x, y) {
      var nb :| nb in g[y] && Slot(nb, |g|) == Some(x);
      EdgeListMembers(g, (nb, y));
    }
  }
}
