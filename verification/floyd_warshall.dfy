/**
 * floydwarshall.rb: all-pairs shortest path lengths over an adjacency-list
 * graph, with `Float::INFINITY` for unreachable pairs, the last vertex
 * through which each length was improved, and the recursive read-back of
 * the intermediate vertices of one shortest path.
 *
 * The in-place triple loop is proved to leave in `paths` and
 * `intermediates` exactly the values of the round-by-round recurrence
 * Len / Mid below; the properties of the algorithm are proved about that
 * recurrence.
 */
module FloydWarshall {
  import opened Outcome
  import opened Adjacency

  /** Indexing `nil`: a neighbour entry outside [-n, n). */
  datatype Failure = NoMethodError

  /** A path length, or Ruby's Float::INFINITY. */
  datatype Dist = Fin(len: nat) | Inf

  /** `+` on lengths: infinity absorbs. */
  function Add(a: Dist, b: Dist): Dist
  {
    if a.Fin? && b.Fin? then Fin(a.len + b.len) else Inf
  }

  /** `<` on lengths: infinity is above every finite length and not below itself. */
  predicate Less(a: Dist, b: Dist)
  {
    a.Fin? && (b.Inf? || a.len < b.len)
  }

  predicate AtMost(a: Dist, b: Dist)
  {
    !Less(b, a)
  }

  /**
   * paths[i][j] before the main loop: every entry infinite, then the
   * diagonal 0, then 1 for each listed edge (so a self loop leaves 1 on
   * the diagonal).
   */
  ghost function Initial(g: Graph, i: int, j: int): Dist
  {
    if Edge(g, i, j) then Fin(1) else if i == j then Fin(0) else Inf
  }

  /** paths[i][j] after rounds k' = 0 .. k - 1 of the triple loop. */
  ghost function Len(g: Graph, k: nat, i: int, j: int): (d: Dist)
  {
    if k == 0 then Initial(g, i, j)
    else
      var via := Add(Len(g, k - 1, i, k - 1), Len(g, k - 1, k - 1, j));
      if Less(via, Len(g, k - 1, i, j)) then via else Len(g, k - 1, i, j)
  }

  /** The length through k that round k compares against paths[i][j]. */
  ghost function Detour(g: Graph, k: nat, i: int, j: int): Dist
  {
    Add(Len(g, k, i, k), Len(g, k, k, j))
  }

  /** Round k strictly shortens paths[i][j]. */
  ghost predicate Improves(g: Graph, k: nat, i: int, j: int)
  {
    Less(Detour(g, k, i, j), Len(g, k, i, j))
  }

  /** intermediates[i][j] after the first k rounds. */
  ghost function Mid(g: Graph, k: nat, i: int, j: int): (m: Option<nat>)
    ensures m.Some? ==> m.value < k && Improves(g, m.value, i, j)
  {
    if k == 0 then None
    else if Improves(g, k - 1, i, j) then Some(k - 1)
    else Mid(g, k - 1, i, j)
  }

  ghost function PathsAfter(g: Graph, k: nat): (m: seq<seq<Dist>>)
    ensures Square(m, |g|)
  {
    seq(|g|, i requires 0 <= i < |g| => seq(|g|, j requires 0 <= j < |g| => Len(g, k, i, j)))
  }

  ghost function IntermediatesAfter(g: Graph, k: nat): (m: seq<seq<Option<nat>>>)
    ensures Square(m, |g|)
  {
    seq(|g|, i requires 0 <= i < |g| => seq(|g|, j requires 0 <= j < |g| => Mid(g, k, i, j)))
  }

  /**
   * floydwarshall.rb:34-65.  A neighbour entry outside [-n, n) makes
   * `paths[e[0]]` nil and the edge write raises; otherwise the matrices
   * returned are those of the recurrence after all |graph| rounds.
   */
  method FloydWarshall(graph: Graph) returns (r: Result<(seq<seq<Dist>>, seq<seq<Option<nat>>>), Failure>)
    ensures r.Err? <==> !Indexable(graph)
    ensures r.Err? ==> r.error == NoMethodError
    ensures r.Ok? ==> r.value == (PathsAfter(graph, |graph|), IntermediatesAfter(graph, |graph|))
  {
    var vertices := |graph|;
    var paths: seq<seq<Dist>> := seq(vertices, _ => seq(vertices, _ => Inf));
    var intermediates: seq<seq<Option<nat>>> := seq(vertices, _ => seq(vertices, _ => None));
    for v := 0 to vertices
      invariant Square(paths, vertices)
      invariant forall x, y :: 0 <= x < vertices && 0 <= y < vertices ==>
                  paths[x][y] == if x == y && x < v then Fin(0) else Inf
    {
      paths := paths[v := paths[v][v := Fin(0)]];
    }
    var edges := GetEdges(graph);
    for e := 0 to |edges|
      invariant Square(paths, vertices)
      invariant forall m :: 0 <= m < e ==> Slot(edges[m].0, vertices).Some?
      invariant forall x, y :: 0 <= x < vertices && 0 <= y < vertices ==>
                  paths[x][y] == if Marked(edges[..e], vertices, x, y) then Fin(1)
                                 else if x == y then Fin(0) else Inf
    {
      var (neighbour, vertex) := edges[e];
      EdgeListMembers(graph, edges[e]);
      var row := Slot(neighbour, vertices);
      if row.None? {
        return Err(NoMethodError);
      }
      paths := paths[row.value := paths[row.value][vertex := Fin(1)]];
      assert edges[..e + 1][..e] == edges[..e];
    }
    assert edges[..|edges|] == edges;
    forall v, nb | 0 <= v < |graph| && nb in graph[v]
      ensures Slot(nb, |graph|).Some?
    {
      EdgeListMembers(graph, (nb, v));
      var m :| 0 <= m < |edges| && edges[m] == (nb, v);
    }
    forall x | 0 <= x < vertices
      ensures paths[x] == PathsAfter(graph, 0)[x]
    {
      forall y | 0 <= y < vertices
        ensures paths[x][y] == Len(graph, 0, x, y)
      {
        MarkedIsEdge(graph, x, y);
      }
    }
    forall x | 0 <= x < vertices
      ensures intermediates[x] == IntermediatesAfter(graph, 0)[x]
    {
    }
    paths, intermediates := Relax(graph, paths, intermediates);
    return Ok((paths, intermediates));
  }

  /** The triple loop of floydwarshall.rb:52-61. */
  method Relax(ghost g: Graph, paths0: seq<seq<Dist>>, intermediates0: seq<seq<Option<nat>>>)
    returns (paths: seq<seq<Dist>>, intermediates: seq<seq<Option<nat>>>)
    requires paths0 == PathsAfter(g, 0) && intermediates0 == IntermediatesAfter(g, 0)
    ensures paths == PathsAfter(g, |g|) && intermediates == IntermediatesAfter(g, |g|)
  {
    paths, intermediates := paths0, intermediates0;
    var vertices := |paths|;
    for k := 0 to vertices
      invariant paths == PathsAfter(g, k) && intermediates == IntermediatesAfter(g, k)
    {
      MixStart(PathsAfter(g, k), PathsAfter(g, k + 1));
      MixStart(IntermediatesAfter(g, k), IntermediatesAfter(g, k + 1));
      for i := 0 to vertices
        invariant paths == Mix(PathsAfter(g, k), PathsAfter(g, k + 1), i, 0)
        invariant intermediates == Mix(IntermediatesAfter(g, k), IntermediatesAfter(g, k + 1), i, 0)
      {
        for j := 0 to vertices
          invariant paths == Mix(PathsAfter(g, k), PathsAfter(g, k + 1), i, j)
          invariant intermediates == Mix(IntermediatesAfter(g, k), IntermediatesAfter(g, k + 1), i, j)
        {
          paths, intermediates := RelaxCell(g, k, i, j, paths, intermediates);
        }
        MixRowEnd(PathsAfter(g, k), PathsAfter(g, k + 1), i);
        MixRowEnd(IntermediatesAfter(g, k), IntermediatesAfter(g, k + 1), i);
      }
      MixDone(PathsAfter(g, k), PathsAfter(g, k + 1));
      MixDone(IntermediatesAfter(g, k), IntermediatesAfter(g, k + 1));
    }
  }

  /** One step of the triple loop: floydwarshall.rb:55-58 for (k, i, j). */
  method RelaxCell(ghost g: Graph, k: nat, i: nat, j: nat, paths0: seq<seq<Dist>>, intermediates0: seq<seq<Option<nat>>>)
    returns (paths: seq<seq<Dist>>, intermediates: seq<seq<Option<nat>>>)
    requires k < |g| && i < |g| && j < |g|
    requires paths0 == Mix(PathsAfter(g, k), PathsAfter(g, k + 1), i, j)
    requires intermediates0 == Mix(IntermediatesAfter(g, k), IntermediatesAfter(g, k + 1), i, j)
    ensures paths == Mix(PathsAfter(g, k), PathsAfter(g, k + 1), i, j + 1)
    ensures intermediates == Mix(IntermediatesAfter(g, k), IntermediatesAfter(g, k + 1), i, j + 1)
  {
    paths, intermediates := paths0, intermediates0;
    CrossFixed(g, k, i);
    CrossFixed(g, k, j);
    assert paths[i][k] == Len(g, k, i, k);
    assert paths[k][j] == Len(g, k, k, j);
    assert paths[i][j] == Len(g, k, i, j);
    if Less(Add(paths[i][k], paths[k][j]), paths[i][j]) {
      paths := paths[i := paths[i][j := Add(paths[i][k], paths[k][j])]];
      intermediates := intermediates[i := intermediates[i][j := Some(k)]];
      MixStep(PathsAfter(g, k), PathsAfter(g, k + 1), i, j);
      MixStep(IntermediatesAfter(g, k), IntermediatesAfter(g, k + 1), i, j);
    } else {
      MixKeep(PathsAfter(g, k), PathsAfter(g, k + 1), i, j);
      MixKeep(IntermediatesAfter(g, k), IntermediatesAfter(g, k + 1), i, j);
    }
  }

  /** Round k leaves row k and column k as they were: it reads them unchanged. */
  lemma CrossFixed(g: Graph, k: nat, x: int)
    ensures Len(g, k + 1, x, k) == Len(g, k, x, k) && Mid(g, k + 1, x, k) == Mid(g, k, x, k)
    ensures Len(g, k + 1, k, x) == Len(g, k, k, x) && Mid(g, k + 1, k, x) == Mid(g, k, k, x)
  {
  }

  /** No round lengthens a path: paths[i][j] never increases. */
  lemma {:induction false} LenNonIncreasing(g: Graph, k: nat, k2: nat, i: int, j: int)
    requires k <= k2
    ensures AtMost(Len(g, k2, i, j), Len(g, k, i, j))
  {
    if k < k2 {
      LenNonIncreasing(g, k, k2 - 1, i, j);
    }
  }

  /** Distinct vertices are never at length 0. */
  lemma {:induction false} OffDiagonalPositive(g: Graph, k: nat, i: int, j: int)
    requires i != j
    ensures Len(g, k, i, j) != Fin(0)
  {
    if k > 0 {
      OffDiagonalPositive(g, k - 1, i, j);
      if k - 1 != i {
        OffDiagonalPositive(g, k - 1, i, k - 1);
      } else {
        OffDiagonalPositive(g, k - 1, k - 1, j);
      }
    }
  }

  /** The diagonal keeps its initial value (0, or 1 with a self loop) and never gets an intermediate. */
  lemma {:induction false} DiagonalKept(g: Graph, k: nat, i: int)
    ensures Len(g, k, i, i) == Initial(g, i, i) && Mid(g, k, i, i) == None
  {
    if k > 0 {
      var r := k - 1;
      DiagonalKept(g, r, i);
      if r != i {
        OffDiagonalPositive(g, r, i, r);
        OffDiagonalPositive(g, r, r, i);
      }
      assert !Improves(g, r, i, i);
    }
  }

  /** intermediates[i][j] is the last round that strictly shortened paths[i][j]. */
  lemma {:induction false} MidIsLastImprovement(g: Graph, k: nat, i: int, j: int, m: nat)
    ensures Mid(g, k, i, j) == Some(m) <==>
              m < k && Improves(g, m, i, j) && forall r :: m < r < k ==> !Improves(g, r, i, j)
  {
    if k > 0 {
      MidIsLastImprovement(g, k - 1, i, j, m);
      if Improves(g, k - 1, i, j) {
        assert Mid(g, k, i, j) == Some(k - 1);
      } else {
        assert Mid(g, k, i, j) == Mid(g, k - 1, i, j);
      }
    }
  }

  /** The list stays nil exactly when no round improves the pair. */
  lemma {:induction false} NoMidNoImprovement(g: Graph, k: nat, i: int, j: int)
    ensures Mid(g, k, i, j) == None <==> forall r :: 0 <= r < k ==> !Improves(g, r, i, j)
  {
    if k > 0 {
      NoMidNoImprovement(g, k - 1, i, j);
    }
  }

  /** A pair that no round improved still has its initial length. */
  lemma {:induction false} NoMidInitial(g: Graph, k: nat, i: int, j: int)
    requires Mid(g, k, i, j) == None
    ensures Len(g, k, i, j) == Initial(g, i, j)
  {
    if k > 0 {
      NoMidInitial(g, k - 1, i, j);
    }
  }

  /**
   * The recorded intermediate m splits (i, j) into two pairs whose lengths
   * add up to no more than paths[i][j].
   */
  lemma {:induction false} MidConsistent(g: Graph, k: nat, i: int, j: int, m: nat)
    requires Mid(g, k, i, j) == Some(m)
    ensures m < k && m != i && m != j && Len(g, k, i, j).Fin?
    ensures AtMost(Add(Len(g, k, i, m), Len(g, k, m, j)), Len(g, k, i, j))
  {
    var r := k - 1;
    if Improves(g, r, i, j) {
      CrossFixed(g, r, i);
      CrossFixed(g, r, j);
    } else {
      MidConsistent(g, r, i, j, m);
      LenNonIncreasing(g, r, k, i, m);
      LenNonIncreasing(g, r, k, m, j);
    }
  }

  /** After k rounds the lengths obey the triangle inequality through every w < k. */
  lemma {:induction false} Triangle(g: Graph, k: nat, i: int, j: int, w: nat)
    requires w < k
    ensures AtMost(Len(g, k, i, j), Add(Len(g, k, i, w), Len(g, k, w, j)))
  {
    var r := k - 1;
    if w == r {
      CrossFixed(g, r, i);
      CrossFixed(g, r, j);
    } else {
      Triangle(g, r, i, j, w);
      Triangle(g, r, r, j, w);
      Triangle(g, r, i, r, w);
    }
  }

  /** At the end the recorded intermediate splits paths[i][j] exactly. */
  lemma ExactAtEnd(g: Graph, i: int, j: int, m: nat)
    requires Mid(g, |g|, i, j) == Some(m)
    ensures Len(g, |g|, i, j) == Add(Len(g, |g|, i, m), Len(g, |g|, m, j))
  {
    MidConsistent(g, |g|, i, j, m);
    Triangle(g, |g|, i, j, m);
  }

  /** What shortestPath relies on: split lengths and nonzero off-diagonal lengths. */
  ghost predicate Consistent(paths: seq<seq<Dist>>, intermediates: seq<seq<Option<nat>>>)
  {
    var n := |paths|;
    Square(paths, n) && Square(intermediates, n) &&
    (forall i, j :: 0 <= i < n && 0 <= j < n && i != j ==> paths[i][j] != Fin(0)) &&
    (forall i, j :: 0 <= i < n && 0 <= j < n && intermediates[i][j].Some? ==>
       Splits(paths, i, j, intermediates[i][j].value))
  }

  ghost predicate Splits(paths: seq<seq<Dist>>, i: nat, j: nat, m: nat)
    requires Square(paths, |paths|) && i < |paths| && j < |paths|
  {
    m < |paths| && m != i && m != j && paths[i][j].Fin? &&
    AtMost(Add(paths[i][m], paths[m][j]), paths[i][j])
  }

  /** The matrices floydWarshall returns are consistent. */
  lemma OutcomeConsistent(g: Graph)
    ensures Consistent(PathsAfter(g, |g|), IntermediatesAfter(g, |g|))
  {
    var n := |g|;
    forall i, j | 0 <= i < n && 0 <= j < n && i != j
      ensures Len(g, n, i, j) != Fin(0)
    {
      OffDiagonalPositive(g, n, i, j);
    }
    forall i, j | 0 <= i < n && 0 <= j < n && Mid(g, n, i, j).Some?
      ensures Splits(PathsAfter(g, n), i, j, Mid(g, n, i, j).value)
    {
      MidConsistent(g, n, i, j, Mid(g, n, i, j).value);
    }
  }

  /**
   * floydwarshall.rb:68-77: the intermediate vertices of a shortest u-v
   * path, read back through the recorded intermediates; empty for an
   * infinite length or no intermediate.
   */
  function ShortestPath(u: nat, v: nat, paths: seq<seq<Dist>>, intermediates: seq<seq<Option<nat>>>): (r: seq<nat>)
    requires Consistent(paths, intermediates) && u < |paths| && v < |paths|
    ensures forall x :: x in r ==> x < |paths|
    ensures u != v && paths[u][v].Fin? ==> |r| < paths[u][v].len
    decreases if paths[u][v].Fin? then paths[u][v].len else 0
  {
    var mid := intermediates[u][v];
    if paths[u][v] == Inf || mid == None then []
    else
      ShortestPath(u, mid.value, paths, intermediates) + [mid.value] +
      ShortestPath(mid.value, v, paths, intermediates)
  }

  /**
   * For a reachable pair u != v, u, the read-back vertices and v form a
   * walk along the graph's edges with exactly paths[u][v] steps, so the
   * read-back holds paths[u][v] - 1 intermediate vertices.
   */
  lemma {:induction false} ShortestPathIsWalk(g: Graph, u: nat, v: nat)
    requires u < |g| && v < |g| && u != v && Len(g, |g|, u, v).Fin?
    ensures Consistent(PathsAfter(g, |g|), IntermediatesAfter(g, |g|))
    ensures var r := ShortestPath(u, v, PathsAfter(g, |g|), IntermediatesAfter(g, |g|));
            |r| + 1 == Len(g, |g|, u, v).len && IsWalk(g, [u] + r + [v])
    decreases Len(g, |g|, u, v).len
  {
    var n := |g|;
    var P, M := PathsAfter(g, n), IntermediatesAfter(g, n);
    OutcomeConsistent(g);
    var r := ShortestPath(u, v, P, M);
    if Mid(g, n, u, v) == None {
      NoMidInitial(g, n, u, v);
      assert r == [];
      assert Edge(g, u, v);
    } else {
      var m := Mid(g, n, u, v).value;
      MidConsistent(g, n, u, v, m);
      ExactAtEnd(g, u, v, m);
      OffDiagonalPositive(g, n, u, m);
      OffDiagonalPositive(g, n, m, v);
      ShortestPathIsWalk(g, u, m);
      ShortestPathIsWalk(g, m, v);
      var r1, r2 := ShortestPath(u, m, P, M), ShortestPath(m, v, P, M);
      assert r == r1 + [m] + r2;
      var w1, w2 := [u] + r1 + [m], [m] + r2 + [v];
      WalkJoin(g, w1, w2);
      assert w1[..|w1| - 1] == [u] + r1;
      JoinAround(u, r1, m, r2, v);
    }
  }

  /** Regrouping kept out of ShortestPathIsWalk, whose context makes it costly there. */
  lemma JoinAround(u: int, r1: seq<nat>, m: nat, r2: seq<nat>, v: int)
    ensures [u] + r1 + ([m] + r2 + [v]) == [u] + (r1 + [m] + r2) + [v]
  {
  }
}
