/**
 * The shortest-path part of graphs.rb: a Floyd-Warshall variant that uses
 * the vertex count as its "unreachable" length and keeps, per pair, the
 * list of every intermediate vertex that reached the current length (a
 * strict improvement restarts the list, a tie appends to it); the
 * enumeration of all shortest paths from those lists; and betweenness
 * centrality as an exact fraction.
 *
 * As in floyd_warshall.dfy, the in-place triple loop is proved to compute
 * the round-by-round recurrence Len / Mids below, and the properties of
 * the algorithm are proved about that recurrence.
 */
module Graphs {
  import opened Outcome
  import opened Adjacency

  /**
   * NoMethodError: a neighbour entry outside [-n, n) indexes nil.
   * ZeroDivisionError: `Rational(passV) / Rational(0)`.
   */
  datatype Failure = NoMethodError | ZeroDivisionError

  /**
   * paths[i][j] before the main loop: every entry the vertex count, then
   * the diagonal 0, then 1 for each listed edge.
   */
  ghost function Initial(g: Graph, i: int, j: int): nat
  {
    if Edge(g, i, j) then 1 else if i == j then 0 else |g|
  }

  /** paths[i][j] after rounds k' = 0 .. k - 1 of the triple loop. */
  ghost function Len(g: Graph, k: nat, i: int, j: int): (d: nat)
  {
    if k == 0 then Initial(g, i, j)
    else
      var via := Len(g, k - 1, i, k - 1) + Len(g, k - 1, k - 1, j);
      if via < Len(g, k - 1, i, j) then via else Len(g, k - 1, i, j)
  }

  /** The length through k that round k compares against paths[i][j]. */
  ghost function Detour(g: Graph, k: nat, i: int, j: int): nat
  {
    Len(g, k, i, k) + Len(g, k, k, j)
  }

  /** Round k strictly shortens paths[i][j]. */
  ghost predicate Improves(g: Graph, k: nat, i: int, j: int)
  {
    Detour(g, k, i, j) < Len(g, k, i, j)
  }

  /** Round k matches paths[i][j] through a third vertex k. */
  ghost predicate Ties(g: Graph, k: nat, i: int, j: int)
  {
    Detour(g, k, i, j) == Len(g, k, i, j) && k != j && k != i
  }

  /** intermediates[i][j] after the first k rounds; None is Ruby's nil. */
  ghost function Mids(g: Graph, k: nat, i: int, j: int): (ms: seq<Option<nat>>)
    ensures ms != []
    ensures forall x :: x in ms && x.Some? ==> x.value < k
  {
    if k == 0 then [None]
    else if Improves(g, k - 1, i, j) then [Some(k - 1)]
    else if Ties(g, k - 1, i, j) then Mids(g, k - 1, i, j) + [Some(k - 1)]
    else Mids(g, k - 1, i, j)
  }

  ghost function PathsAfter(g: Graph, k: nat): (m: seq<seq<int>>)
    ensures Square(m, |g|)
  {
    seq(|g|, i requires 0 <= i < |g| => seq(|g|, j requires 0 <= j < |g| => Len(g, k, i, j) as int))
  }

  ghost function IntermediatesAfter(g: Graph, k: nat): (m: seq<seq<seq<Option<nat>>>>)
    ensures Square(m, |g|)
  {
    seq(|g|, i requires 0 <= i < |g| => seq(|g|, j requires 0 <= j < |g| => Mids(g, k, i, j)))
  }

  /**
   * graphs.rb:95-130.  A neighbour entry outside [-n, n) makes the edge
   * write raise; otherwise the matrices returned are those of the
   * recurrence after all |graph| rounds.
   */
  method FloydWarshall(graph: Graph) returns (r: Result<(seq<seq<int>>, seq<seq<seq<Option<nat>>>>), Failure>)
    ensures r.Err? <==> !Indexable(graph)
    ensures r.Err? ==> r.error == NoMethodError
    ensures r.Ok? ==> r.value == (PathsAfter(graph, |graph|), IntermediatesAfter(graph, |graph|))
  {
    var vertices := |graph|;
    var paths: seq<seq<int>> := seq(vertices, _ => seq(vertices, _ => vertices));
    var intermediates: seq<seq<seq<Option<nat>>>> := seq(vertices, _ => seq(vertices, _ => [None]));
    for v := 0 to vertices
      invariant Square(paths, vertices)
      invariant forall x, y :: 0 <= x < vertices && 0 <= y < vertices ==>
                  paths[x][y] == if x == y && x < v then 0 else vertices
    {
      paths := paths[v := paths[v][v := 0]];
    }
    var edges := GetEdges(graph);
    for e := 0 to |edges|
      invariant Square(paths, vertices)
      invariant forall m :: 0 <= m < e ==> Slot(edges[m].0, vertices).Some?
      invariant forall x, y :: 0 <= x < vertices && 0 <= y < vertices ==>
                  paths[x][y] == if Marked(edges[..e], vertices, x, y) then 1
                                 else if x == y then 0 else vertices
    {
      var (neighbour, vertex) := edges[e];
      EdgeListMembers(graph, edges[e]);
      var row := Slot(neighbour, vertices);
      if row.None? {
        return Err(NoMethodError);
      }
      paths := paths[row.value := paths[row.value][vertex := 1]];
      assert edges[..e + 1][..e] == edges[..e];
    }
    assert edges[..|edges|] == edges;
    forall v, nb | 0 <= v < |graph| && nb in graph[v]
      ensures Slot(nb, |graph|).Some?
    {
      EdgeListMembers(graph, (nb, v));
      var m :| 0 <= m < |edges| && edges[m] == (nb, v);
    }
    forall x | 0 <= x < vertices
      ensures paths[x] == PathsAfter(graph, 0)[x]
    {
      forall y | 0 <= y < vertices
        ensures paths[x][y] == Len(graph, 0, x, y)
      {
        MarkedIsEdge(graph, x, y);
      }
    }
    forall x | 0 <= x < vertices
      ensures intermediates[x] == IntermediatesAfter(graph, 0)[x]
    {
    }
    paths, intermediates := Relax(graph, paths, intermediates);
    return Ok((paths, intermediates));
  }

  /**
   * The triple loop of graphs.rb:114-126.  It is the loop of
   * floydwarshall.rb:52-61 over different matrices (integer lengths, lists
   * of tied intermediates), so Relax, RelaxCell and CrossFixed follow their
   * FloydWarshall namesakes step for step.
   */
  method Relax(ghost g: Graph, paths0: seq<seq<int>>, intermediates0: seq<seq<seq<Option<nat>>>>)
    returns (paths: seq<seq<int>>, intermediates: seq<seq<seq<Option<nat>>>>)
    requires paths0 == PathsAfter(g, 0) && intermediates0 == IntermediatesAfter(g, 0)
    ensures paths == PathsAfter(g, |g|) && intermediates == IntermediatesAfter(g, |g|)
  {
    paths, intermediates := paths0, intermediates0;
    var vertices := |paths|;
    for k := 0 to vertices
      invariant paths == PathsAfter(g, k) && intermediates == IntermediatesAfter(g, k)
    {
      MixStart(PathsAfter(g, k), PathsAfter(g, k + 1));
      MixStart(IntermediatesAfter(g, k), IntermediatesAfter(g, k + 1));
      for i := 0 to vertices
        invariant paths == Mix(PathsAfter(g, k), PathsAfter(g, k + 1), i, 0)
        invariant intermediates == Mix(IntermediatesAfter(g, k), IntermediatesAfter(g, k + 1), i, 0)
      {
        for j := 0 to vertices
          invariant paths == Mix(PathsAfter(g, k), PathsAfter(g, k + 1), i, j)
          invariant intermediates == Mix(IntermediatesAfter(g, k), IntermediatesAfter(g, k + 1), i, j)
        {
          paths, intermediates := RelaxCell(g, k, i, j, paths, intermediates);
        }
        MixRowEnd(PathsAfter(g, k), PathsAfter(g, k + 1), i);
        MixRowEnd(IntermediatesAfter(g, k), IntermediatesAfter(g, k + 1), i);
      }
      MixDone(PathsAfter(g, k), PathsAfter(g, k + 1));
      MixDone(IntermediatesAfter(g, k), IntermediatesAfter(g, k + 1));
    }
  }

  /** One step of the triple loop: graphs.rb:117-123 for (k, i, j). */
  method RelaxCell(ghost g: Graph, k: nat, i: nat, j: nat,
                   paths0: seq<seq<int>>, intermediates0: seq<seq<seq<Option<nat>>>>)
    returns (paths: seq<seq<int>>, intermediates: seq<seq<seq<Option<nat>>>>)
    requires k < |g| && i < |g| && j < |g|
    requires paths0 == Mix(PathsAfter(g, k), PathsAfter(g, k + 1), i, j)
    requires intermediates0 == Mix(IntermediatesAfter(g, k), IntermediatesAfter(g, k + 1), i, j)
    ensures paths == Mix(PathsAfter(g, k), PathsAfter(g, k + 1), i, j + 1)
    ensures intermediates == Mix(IntermediatesAfter(g, k), IntermediatesAfter(g, k + 1), i, j + 1)
  {
    paths, intermediates := paths0, intermediates0;
    CrossFixed(g, k, i);
    CrossFixed(g, k, j);
    assert paths[i][k] == Len(g, k, i, k);
    assert paths[k][j] == Len(g, k, k, j);
    assert paths[i][j] == Len(g, k, i, j);
    assert intermediates[i][j] == Mids(g, k, i, j);
    if paths[i][k] + paths[k][j] < paths[i][j] {
      paths := paths[i := paths[i][j := paths[i][k] + paths[k][j]]];
      intermediates := intermediates[i := intermediates[i][j := [Some(k)]]];
      MixStep(PathsAfter(g, k), PathsAfter(g, k + 1), i, j);
      MixStep(IntermediatesAfter(g, k), IntermediatesAfter(g, k + 1), i, j);
    } else if paths[i][k] + paths[k][j] == paths[i][j] && k != j && k != i {
      intermediates := intermediates[i := intermediates[i][j := intermediates[i][j] + [Some(k)]]];
      MixKeep(PathsAfter(g, k), PathsAfter(g, k + 1), i, j);
      MixStep(IntermediatesAfter(g, k), IntermediatesAfter(g, k + 1), i, j);
    } else {
      MixKeep(PathsAfter(g, k), PathsAfter(g, k + 1), i, j);
      MixKeep(IntermediatesAfter(g, k), IntermediatesAfter(g, k + 1), i, j);
    }
  }

  /** Round k leaves row k and column k as they were. */
  lemma CrossFixed(g: Graph, k: nat, x: int)
    ensures Len(g, k + 1, x, k) == Len(g, k, x, k) && Len(g, k + 1, k, x) == Len(g, k, k, x)
  {
  }

  /** Round k leaves the intermediates of row k and column k as they are. */
  lemma RoundKeepsCross(g: Graph, k: nat, x: int)
    ensures Mids(g, k + 1, k, x) == Mids(g, k, k, x) && Mids(g, k + 1, x, k) == Mids(g, k, x, k)
  {
    assert !Improves(g, k, k, x) && !Ties(g, k, k, x);
    assert !Improves(g, k, x, k) && !Ties(g, k, x, k);
  }

  /** No round lengthens a path: paths[i][j] never increases. */
  lemma {:induction false} LenNonIncreasing(g: Graph, k: nat, k2: nat, i: int, j: int)
    requires k <= k2
    ensures Len(g, k2, i, j) <= Len(g, k, i, j)
  {
    if k < k2 {
      LenNonIncreasing(g, k, k2 - 1, i, j);
    }
  }

  /** Distinct vertices are at length at least 1. */
  lemma {:induction false} OffDiagonalPositive(g: Graph, k: nat, i: int, j: int)
    requires 0 <= i < |g| && 0 <= j < |g| && i != j && k <= |g|
    ensures Len(g, k, i, j) >= 1
  {
    if k > 0 {
      OffDiagonalPositive(g, k - 1, i, j);
      if k - 1 != i {
        OffDiagonalPositive(g, k - 1, i, k - 1);
      } else {
        OffDiagonalPositive(g, k - 1, k - 1, j);
      }
    }
  }

  /**
   * The shape of every intermediates list: nil can only stand first, and
   * the vertices after it are recorded rounds, strictly ascending (so no
   * vertex is listed twice).
   */
  ghost predicate Ordered(l: seq<Option<nat>>, k: nat)
  {
    l != [] &&
    (forall t :: 0 < t < |l| ==> l[t].Some?) &&
    (forall t :: 0 <= t < |l| && l[t].Some? ==> l[t].value < k) &&
    (forall s, t :: 0 <= s < t < |l| && l[s].Some? ==> l[s].value < l[t].value)
  }

  lemma {:induction false} MidsOrdered(g: Graph, k: nat, i: int, j: int)
    ensures Ordered(Mids(g, k, i, j), k)
  {
    if k > 0 {
      MidsOrdered(g, k - 1, i, j);
    }
  }

  /**
   * nil stays in the list only while no round has improved the pair, so
   * the pair still has its initial length (1 for an edge).
   */
  lemma {:induction false} NilMeansInitial(g: Graph, k: nat, i: int, j: int)
    requires None in Mids(g, k, i, j)
    ensures Len(g, k, i, j) == Initial(g, i, j)
  {
    if k > 0 {
      NilMeansInitial(g, k - 1, i, j);
    }
  }

  /**
   * Each recorded intermediate m splits (i, j) into two pairs whose
   * lengths add up to no more than paths[i][j].
   */
  lemma {:induction false} MidsConsistent(g: Graph, k: nat, i: int, j: int, m: nat)
    requires Some(m) in Mids(g, k, i, j)
    ensures m < k && m != i && m != j
    ensures Len(g, k, i, m) + Len(g, k, m, j) <= Len(g, k, i, j)
  {
    var r := k - 1;
    if Improves(g, r, i, j) || (Ties(g, r, i, j) && m == r) {
      CrossFixed(g, r, i);
      CrossFixed(g, r, j);
    } else {
      assert Some(m) in Mids(g, r, i, j);
      MidsConsistent(g, r, i, j, m);
      LenNonIncreasing(g, r, k, i, m);
      LenNonIncreasing(g, r, k, m, j);
    }
  }

  /** After k rounds the lengths obey the triangle inequality through every w < k. */
  lemma {:induction false} Triangle(g: Graph, k: nat, i: int, j: int, w: nat)
    requires w < k
    ensures Len(g, k, i, j) <= Len(g, k, i, w) + Len(g, k, w, j)
  {
    var r := k - 1;
    if w == r {
      CrossFixed(g, r, i);
      CrossFixed(g, r, j);
    } else {
      Triangle(g, r, i, j, w);
      Triangle(g, r, r, j, w);
      Triangle(g, r, i, r, w);
    }
  }

  /** At the end every recorded intermediate splits paths[i][j] exactly. */
  lemma ExactAtEnd(g: Graph, i: int, j: int, m: nat)
    requires Some(m) in Mids(g, |g|, i, j)
    ensures Len(g, |g|, i, j) == Len(g, |g|, i, m) + Len(g, |g|, m, j)
  {
    MidsConsistent(g, |g|, i, j, m);
    Triangle(g, |g|, i, j, m);
  }

  /** What shortestPaths relies on to terminate and to find a path per list entry. */
  ghost predicate Consistent(paths: seq<seq<int>>, intermediates: seq<seq<seq<Option<nat>>>>)
  {
    var n := |paths|;
    Square(paths, n) && Square(intermediates, n) &&
    (forall i, j :: 0 <= i < n && 0 <= j < n ==> paths[i][j] >= (if i == j then 0 else 1)) &&
    (forall i, j :: 0 <= i < n && 0 <= j < n ==> intermediates[i][j] != []) &&
    (forall i, j, m :: 0 <= i < n && 0 <= j < n && Some(m) in intermediates[i][j] ==> Splits(paths, i, j, m))
  }

  ghost predicate Splits(paths: seq<seq<int>>, i: nat, j: nat, m: nat)
    requires Square(paths, |paths|) && i < |paths| && j < |paths|
  {
    m < |paths| && m != i && m != j && paths[i][m] + paths[m][j] <= paths[i][j]
  }

  /** The matrices floydWarshall returns are consistent. */
  lemma OutcomeConsistent(g: Graph)
    ensures Consistent(PathsAfter(g, |g|), IntermediatesAfter(g, |g|))
  {
    var n := |g|;
    forall i, j | 0 <= i < n && 0 <= j < n
      ensures Len(g, n, i, j) >= (if i == j then 0 else 1) && Mids(g, n, i, j) != []
    {
      if i != j {
        OffDiagonalPositive(g, n, i, j);
      }
      MidsOrdered(g, n, i, j);
    }
    forall i, j, m | 0 <= i < n && 0 <= j < n && Some(m) in Mids(g, n, i, j)
      ensures Splits(PathsAfter(g, n), i, j, m)
    {
      MidsConsistent(g, n, i, j, m);
    }
  }

  /** uToMid after c calls of `pop` (each drops the last vertex, none once empty). */
  function Pop(a: seq<int>, c: nat): seq<int>
  {
    if c <= |a| then a[..|a| - c] else []
  }

  /**
   * The nested loops of graphs.rb:143-150 over the paths to and from the
   * middle vertex.  With `popEach` the prefix is popped once more before
   * every suffix, as the source does; without it, once per suffix
   * combination, which is what the comment at graphs.rb:145 intends.
   */
  function Combine(uToMids: seq<seq<int>>, midToVs: seq<seq<int>>, popEach: bool): (r: seq<seq<int>>)
    ensures uToMids != [] && midToVs != [] ==> r != []
  {
    if uToMids == [] then []
    else
      seq(|midToVs|, t requires 0 <= t < |midToVs| =>
        Pop(uToMids[0], if popEach then t + 1 else 1) + midToVs[t]) +
      Combine(uToMids[1..], midToVs, popEach)
  }

  /** shortestPaths(u, v) of graphs.rb:133-155, with the pop behaviour chosen. */
  function Enumerate(u: nat, v: nat, paths: seq<seq<int>>, intermediates: seq<seq<seq<Option<nat>>>>, popEach: bool)
    : (r: seq<seq<int>>)
    requires Consistent(paths, intermediates) && u < |paths| && v < |paths|
    ensures r != []
    decreases paths[u][v], 1, 0
  {
    EnumerateVia(u, v, paths, intermediates, popEach, intermediates[u][v])
  }

  /** The `each` over the intermediates of (u, v), from the given entry on. */
  function EnumerateVia(u: nat, v: nat, paths: seq<seq<int>>, intermediates: seq<seq<seq<Option<nat>>>>,
                        popEach: bool, mids: seq<Option<nat>>): (r: seq<seq<int>>)
    requires Consistent(paths, intermediates) && u < |paths| && v < |paths|
    requires forall m :: Some(m) in mids ==> Some(m) in intermediates[u][v]
    ensures mids != [] ==> r != []
    decreases paths[u][v], 0, |mids|
  {
    if mids == [] then []
    else
      var here := match mids[0]
        case None => [[u as int, v as int]]
        case Some(m) =>
          assert Some(m) in intermediates[u][v];
          Combine(Enumerate(u, m, paths, intermediates, popEach),
                  Enumerate(m, v, paths, intermediates, popEach), popEach);
      here + EnumerateVia(u, v, paths, intermediates, popEach, mids[1..])
  }

  /**
   * graphs.rb:133-155 as written: the recursion with its loop over the
   * intermediates of (u, v), `uToMid.pop` running once per suffix.
   */
  method ShortestPaths(u: nat, v: nat, paths: seq<seq<int>>, intermediates: seq<seq<seq<Option<nat>>>>)
    returns (allShortestPaths: seq<seq<int>>)
    requires Consistent(paths, intermediates) && u < |paths| && v < |paths|
    ensures allShortestPaths == Enumerate(u, v, paths, intermediates, true)
    decreases paths[u][v], 1
  {
    allShortestPaths := [];
    var mids := intermediates[u][v];
    for q := 0 to |mids|
      invariant allShortestPaths + EnumerateVia(u, v, paths, intermediates, true, mids[q..])
                == EnumerateVia(u, v, paths, intermediates, true, mids)
    {
      var here := PathsVia(u, v, paths, intermediates, q);
      allShortestPaths := allShortestPaths + here;
    }
    assert mids[|mids|..] == [];
  }

  /** One pass of the `each` at graphs.rb:135-151: the paths through the q-th intermediate. */
  method PathsVia(u: nat, v: nat, paths: seq<seq<int>>, intermediates: seq<seq<seq<Option<nat>>>>, q: nat)
    returns (here: seq<seq<int>>)
    requires Consistent(paths, intermediates) && u < |paths| && v < |paths| && q < |intermediates[u][v]|
    ensures var mids := intermediates[u][v];
            here + EnumerateVia(u, v, paths, intermediates, true, mids[q + 1..])
            == EnumerateVia(u, v, paths, intermediates, true, mids[q..])
    decreases paths[u][v], 0
  {
    var mids := intermediates[u][v];
    assert mids[q..][1..] == mids[q + 1..];
    match mids[q] {
      case None =>
        here := [[u as int, v as int]];
      case Some(mid) =>
        assert Some(mid) in mids;
        var uToMids := ShortestPaths(u, mid, paths, intermediates);
        var midToVs := ShortestPaths(mid, v, paths, intermediates);
        here := CombineLoops(uToMids, midToVs);
    }
  }

  /** The nested loops of graphs.rb:143-150: uToMid is popped before every suffix. */
  method CombineLoops(uToMids: seq<seq<int>>, midToVs: seq<seq<int>>) returns (combined: seq<seq<int>>)
    ensures combined == Combine(uToMids, midToVs, true)
  {
    combined := [];
    for i := 0 to |uToMids|
      invariant combined + Combine(uToMids[i..], midToVs, true) == Combine(uToMids, midToVs, true)
    {
      var row := PopAndJoin(uToMids, i, midToVs);
      combined := combined + row;
    }
    assert uToMids[|uToMids|..] == [];
  }

  /** The inner loop of graphs.rb:144-149 for the i-th prefix. */
  method PopAndJoin(uToMids: seq<seq<int>>, i: nat, midToVs: seq<seq<int>>) returns (row: seq<seq<int>>)
    requires i < |uToMids|
    ensures row + Combine(uToMids[i + 1..], midToVs, true) == Combine(uToMids[i..], midToVs, true)
  {
    var uToMid := uToMids[i];
    row := [];
    for t := 0 to |midToVs|
      invariant uToMid == Pop(uToMids[i], t)
      invariant |row| == t && forall t' :: 0 <= t' < t ==> row[t'] == Pop(uToMids[i], t' + 1) + midToVs[t']
    {
      uToMid := if uToMid == [] then [] else uToMid[..|uToMid| - 1];
      row := row + [uToMid + midToVs[t]];
    }
    assert uToMids[i..][0] == uToMids[i] && uToMids[i..][1..] == uToMids[i + 1..];
  }

  /** graphs.rb:133-155 with the last vertex of each prefix dropped once. */
  function CorrectedShortestPaths(u: nat, v: nat, paths: seq<seq<int>>, intermediates: seq<seq<seq<Option<nat>>>>)
    : (r: seq<seq<int>>)
    requires Consistent(paths, intermediates) && u < |paths| && v < |paths|
    ensures r != []
  {
    Enumerate(u, v, paths, intermediates, false)
  }

  /** A walk from u to v along edges of g with exactly `steps` steps. */
  ghost predicate WalkOf(g: Graph, p: seq<int>, u: int, v: int, steps: nat)
  {
    |p| == steps + 1 && p[0] == u && p[|p| - 1] == v && IsWalk(g, p)
  }

  /** Joining each prefix walk (one pop) with each suffix walk gives walks of the summed length. */
  lemma {:induction false} CombineWalks(g: Graph, A: seq<seq<int>>, B: seq<seq<int>>,
                                        u: int, m: int, v: int, a: nat, b: nat)
    requires forall p :: p in A ==> WalkOf(g, p, u, m, a)
    requires forall p :: p in B ==> WalkOf(g, p, m, v, b)
    ensures forall p :: p in Combine(A, B, false) ==> WalkOf(g, p, u, v, a + b)
  {
    if A != [] {
      CombineWalks(g, A[1..], B, u, m, v, a, b);
      var head := seq(|B|, t requires 0 <= t < |B| => Pop(A[0], 1) + B[t]);
      assert Combine(A, B, false) == head + Combine(A[1..], B, false);
      forall t | 0 <= t < |B|
        ensures WalkOf(g, head[t], u, v, a + b)
      {
        assert A[0] in A && B[t] in B;
        assert WalkOf(g, A[0], u, m, a);
        WalkJoin(g, A[0], B[t]);
        assert Pop(A[0], 1) == A[0][..|A[0]| - 1];
        assert head[t] == A[0][..|A[0]| - 1] + B[t];
      }
    }
  }

  /**
   * With the prefix popped once, every enumerated path from u to a
   * reachable v != u is a walk along the graph's edges whose length is
   * paths[u][v].
   */
  lemma {:induction false} CorrectedPathsAreWalks(g: Graph, u: nat, v: nat)
    requires u < |g| && v < |g| && u != v && Len(g, |g|, u, v) < |g|
    ensures Consistent(PathsAfter(g, |g|), IntermediatesAfter(g, |g|))
    ensures forall p :: p in CorrectedShortestPaths(u, v, PathsAfter(g, |g|), IntermediatesAfter(g, |g|)) ==>
              WalkOf(g, p, u, v, Len(g, |g|, u, v))
    decreases Len(g, |g|, u, v), 1, 0
  {
    OutcomeConsistent(g);
    ViaWalks(g, u, v, Mids(g, |g|, u, v));
  }

  lemma {:induction false} ViaWalks(g: Graph, u: nat, v: nat, mids: seq<Option<nat>>)
    requires u < |g| && v < |g| && u != v && Len(g, |g|, u, v) < |g|
    requires forall m :: Some(m) in mids ==> Some(m) in Mids(g, |g|, u, v)
    requires None in mids ==> None in Mids(g, |g|, u, v)
    ensures Consistent(PathsAfter(g, |g|), IntermediatesAfter(g, |g|))
    ensures forall p :: p in EnumerateVia(u, v, PathsAfter(g, |g|), IntermediatesAfter(g, |g|), false, mids) ==>
              WalkOf(g, p, u, v, Len(g, |g|, u, v))
    decreases Len(g, |g|, u, v), 0, |mids|
  {
    var n := |g|;
    var P, M := PathsAfter(g, n), IntermediatesAfter(g, n);
    OutcomeConsistent(g);
    if mids != [] {
      ViaWalks(g, u, v, mids[1..]);
      var rest := EnumerateVia(u, v, P, M, false, mids[1..]);
      var all := EnumerateVia(u, v, P, M, false, mids);
      match mids[0]
      case None =>
        NilMeansInitial(g, n, u, v);
        assert Edge(g, u, v);
        assert all == [[u as int, v as int]] + rest;
      case Some(m) =>
        assert Some(m) in mids;
        MidsConsistent(g, n, u, v, m);
        ExactAtEnd(g, u, v, m);
        OffDiagonalPositive(g, n, u, m);
        OffDiagonalPositive(g, n, m, v);
        CorrectedPathsAreWalks(g, u, m);
        CorrectedPathsAreWalks(g, m, v);
        var A, B := Enumerate(u, m, P, M, false), Enumerate(m, v, P, M, false);
        CombineWalks(g, A, B, u, m, v, Len(g, n, u, m), Len(g, n, m, v));
        assert all == Combine(A, B, false) + rest;
    }
  }

  /** With every neighbour entry in [0, n), an edge is simply a listed neighbour. */
  lemma EdgeIsListed(g: Graph, i: int, j: int)
    requires forall v, nb :: 0 <= v < |g| && nb in g[v] ==> 0 <= nb < |g|
    ensures Edge(g, i, j) <==> 0 <= j < |g| && i in g[j]
  {
    if 0 <= j < |g| && i in g[j] {
      assert Slot(i, |g|) == Some(i);
    }
  }

  /** A pair joined by an edge keeps length 1 and the intermediates list [nil] in every round. */
  lemma {:induction false} EdgeKeepsNil(g: Graph, k: nat, i: int, j: int)
    requires Edge(g, i, j) && i != j && k <= |g|
    ensures Len(g, k, i, j) == 1 && Mids(g, k, i, j) == [None]
  {
    if k > 0 {
      var r := k - 1;
      EdgeKeepsNil(g, r, i, j);
      if r != i && r != j {
        OffDiagonalPositive(g, r, i, r);
        OffDiagonalPositive(g, r, r, j);
      }
    }
  }

  /** A graph on which graphs.rb:133-155 as written returns a path that does not start at u. */
  const PopWitness: Graph := [[1, 2], [0, 3], [0, 3], [1, 2, 4], [3]]

  /** The witness's edges: each neighbour entry is a vertex number. */
  lemma WitnessEdges(g: Graph, i: int, j: int)
    requires g == PopWitness
    ensures Edge(g, i, j) <==> 0 <= j < 5 && i in g[j]
  {
    EdgeIsListed(g, i, j);
  }

  /** Vertex 4 has no path to 0 avoiding vertex 3. */
  lemma WitnessFarPair(g: Graph)
    requires g == PopWitness
    ensures Len(g, 3, 4, 0) == 5
  {
    WitnessEdges(g, 4, 0);
    WitnessEdges(g, 4, 1);
    WitnessEdges(g, 4, 2);
    WitnessEdges(g, 0, 2);
    WitnessEdges(g, 1, 2);
    WitnessEdges(g, 0, 1);
    assert Len(g, 0, 4, 0) == 5 && Len(g, 0, 4, 1) == 5 && Len(g, 0, 4, 2) == 5;
    assert Len(g, 1, 4, 0) == 5 && Len(g, 1, 4, 1) == 5 && Len(g, 1, 4, 2) == 5;
    assert Len(g, 2, 4, 0) == 5 && Len(g, 2, 4, 2) == 5;
  }

  /** After round 1, vertex 3 reaches 0 in two steps through 1. */
  lemma WitnessFirstRoute(g: Graph)
    requires g == PopWitness
    ensures Len(g, 2, 3, 0) == 2 && Mids(g, 2, 3, 0) == [Some(1)]
  {
    WitnessEdges(g, 3, 0);
    WitnessEdges(g, 3, 1);
    WitnessEdges(g, 1, 0);
    EdgeKeepsNil(g, 1, 3, 1);
    EdgeKeepsNil(g, 1, 1, 0);
    assert Len(g, 0, 3, 0) == 5;
    assert Len(g, 1, 3, 0) == 5;
    assert Detour(g, 1, 3, 0) == 2;
    assert Improves(g, 1, 3, 0);
  }

  /** Vertex 3 reaches 0 in two steps, first through 1 and then equally through 2. */
  lemma WitnessTie(g: Graph)
    requires g == PopWitness
    ensures Len(g, 3, 3, 0) == 2 && Mids(g, 3, 3, 0) == [Some(1), Some(2)]
  {
    WitnessFirstRoute(g);
    WitnessEdges(g, 3, 2);
    WitnessEdges(g, 2, 0);
    EdgeKeepsNil(g, 2, 3, 2);
    EdgeKeepsNil(g, 2, 2, 0);
    assert Detour(g, 2, 3, 0) == 2;
    assert Ties(g, 2, 3, 0) && !Improves(g, 2, 3, 0);
    assert Len(g, 3, 3, 0) == Len(g, 2, 3, 0);
    assert Mids(g, 3, 3, 0) == Mids(g, 2, 3, 0) + [Some(2)];
    AppendToSingle(Mids(g, 2, 3, 0), Some(1), Some(2));
  }

  /** Sequence step kept out of WitnessTie, whose concrete matrices make it costly there. */
  lemma AppendToSingle<T>(a: seq<T>, x: T, y: T)
    requires a == [x]
    ensures a + [y] == [x, y]
  {
  }

  /** Vertex 4 reaches 0 in three steps, all through 3. */
  lemma WitnessFourToZero(g: Graph)
    requires g == PopWitness
    ensures Len(g, 4, 4, 0) == 3 && Mids(g, 5, 4, 0) == [Some(3)]
  {
    WitnessFarPair(g);
    WitnessTie(g);
    WitnessEdges(g, 4, 3);
    EdgeKeepsNil(g, 3, 4, 3);
    assert Detour(g, 3, 4, 0) == 3;
    assert Improves(g, 3, 4, 0);
    assert Mids(g, 4, 4, 0) == [Some(3)] && Len(g, 4, 4, 0) == 3;
    RoundKeepsCross(g, 4, 0);
  }

  /** The intermediates of (4, 0) and (3, 0) in the witness's final matrices. */
  lemma WitnessMids(g: Graph)
    requires g == PopWitness
    ensures Mids(g, 5, 4, 0) == [Some(3)]
    ensures Mids(g, 5, 3, 0) == [Some(1), Some(2)]
  {
    WitnessTie(g);
    WitnessFourToZero(g);
    RoundKeepsCross(g, 3, 0);
    CrossFixed(g, 3, 0);
    assert Mids(g, 4, 3, 0) == [Some(1), Some(2)] && Len(g, 4, 3, 0) == 2;
    assert Detour(g, 4, 3, 0) >= 3;
    assert !Improves(g, 4, 3, 0) && !Ties(g, 4, 3, 0);
  }

  /** A pair of neighbours in the witness has the intermediates list [nil] at the end. */
  lemma WitnessNil(g: Graph, i: int, j: int)
    requires g == PopWitness && 0 <= j < 5 && i in g[j] && i != j
    ensures Mids(g, 5, i, j) == [None]
  {
    WitnessEdges(g, i, j);
    EdgeKeepsNil(g, 5, i, j);
  }

  /** A pair whose list is [nil] yields the single path [u, v]. */
  lemma EnumerateDirect(u: nat, v: nat, P: seq<seq<int>>, M: seq<seq<seq<Option<nat>>>>, popEach: bool)
    requires Consistent(P, M) && u < |P| && v < |P| && M[u][v] == [None]
    ensures Enumerate(u, v, P, M, popEach) == [[u as int, v as int]]
  {
    assert EnumerateVia(u, v, P, M, popEach, []) == [];
  }

  /** A pair whose list is [m1, m2] yields the paths through m1, then those through m2. */
  lemma EnumerateThrough(u: nat, v: nat, m1: nat, m2: nat, P: seq<seq<int>>, M: seq<seq<seq<Option<nat>>>>, popEach: bool)
    requires Consistent(P, M) && u < |P| && v < |P| && M[u][v] == [Some(m1), Some(m2)]
    ensures m1 < |P| && m2 < |P|
    ensures Enumerate(u, v, P, M, popEach) ==
              Combine(Enumerate(u, m1, P, M, popEach), Enumerate(m1, v, P, M, popEach), popEach) +
              Combine(Enumerate(u, m2, P, M, popEach), Enumerate(m2, v, P, M, popEach), popEach)
  {
    var mids := M[u][v];
    assert Some(m1) in mids && Some(m2) in mids;
    var tail := mids[1..];
    assert tail == [Some(m2)] && tail[1..] == [];
    var second := EnumerateVia(u, v, P, M, popEach, tail);
    assert EnumerateVia(u, v, P, M, popEach, []) == [];
    assert second == Combine(Enumerate(u, m2, P, M, popEach), Enumerate(m2, v, P, M, popEach), popEach) +
                     EnumerateVia(u, v, P, M, popEach, []);
    assert Enumerate(u, v, P, M, popEach) == EnumerateVia(u, v, P, M, popEach, mids);
    assert EnumerateVia(u, v, P, M, popEach, mids) ==
             Combine(Enumerate(u, m1, P, M, popEach), Enumerate(m1, v, P, M, popEach), popEach) + second;
  }

  /** A pair whose list is [m] yields the paths through m. */
  lemma EnumerateOnce(u: nat, v: nat, m: nat, P: seq<seq<int>>, M: seq<seq<seq<Option<nat>>>>, popEach: bool)
    requires Consistent(P, M) && u < |P| && v < |P| && M[u][v] == [Some(m)]
    ensures m < |P|
    ensures Enumerate(u, v, P, M, popEach) ==
              Combine(Enumerate(u, m, P, M, popEach), Enumerate(m, v, P, M, popEach), popEach)
  {
    assert Some(m) in M[u][v];
    assert EnumerateVia(u, v, P, M, popEach, M[u][v][1..]) == [];
  }

  /** One prefix and one suffix: the prefix loses its last vertex once. */
  lemma CombineSingle(a: seq<int>, b: seq<int>, popEach: bool)
    ensures Combine([a], [b], popEach) == [Pop(a, 1) + b]
  {
    assert [a][1..] == [];
  }

  /** One prefix and two suffixes: as written, the prefix is popped again before the second. */
  lemma CombineTwo(a: seq<int>, b1: seq<int>, b2: seq<int>, popEach: bool)
    ensures Combine([a], [b1, b2], popEach) == [Pop(a, 1) + b1, Pop(a, if popEach then 2 else 1) + b2]
  {
    assert [a][1..] == [];
  }

  /**
   * shortestPaths(4, 0) on any consistent 5 x 5 matrices whose lists send
   * 4 -> 0 through 3 and 3 -> 0 through 1 and then 2, and mark the other
   * pairs used as edges.
   */
  lemma EnumerateFourToZero(P: seq<seq<int>>, M: seq<seq<seq<Option<nat>>>>, popEach: bool)
    requires Consistent(P, M) && |P| == 5
    requires M[4][0] == [Some(3)] && M[3][0] == [Some(1), Some(2)]
    requires M[4][3] == [None] && M[3][1] == [None] && M[1][0] == [None]
    requires M[3][2] == [None] && M[2][0] == [None]
    ensures Enumerate(4, 0, P, M, popEach) ==
              if popEach then [[4, 3, 1, 0], [3, 2, 0]] else [[4, 3, 1, 0], [4, 3, 2, 0]]
  {
    EnumerateDirect(3, 1, P, M, popEach);
    EnumerateDirect(1, 0, P, M, popEach);
    EnumerateDirect(3, 2, P, M, popEach);
    EnumerateDirect(2, 0, P, M, popEach);
    EnumerateDirect(4, 3, P, M, popEach);
    EnumerateThrough(3, 0, 1, 2, P, M, popEach);
    CombineSingle([3, 1], [1, 0], popEach);
    CombineSingle([3, 2], [2, 0], popEach);
    assert Pop([3, 1], 1) == [3] && Pop([3, 2], 1) == [3];
    assert [3] + [1, 0] == [3, 1, 0] && [3] + [2, 0] == [3, 2, 0];
    assert Enumerate(3, 0, P, M, popEach) == [[3, 1, 0]] + [[3, 2, 0]];
    EnumerateOnce(4, 0, 3, P, M, popEach);
    CombineTwo([4, 3], [3, 1, 0], [3, 2, 0], popEach);
    assert Pop([4, 3], 1) == [4] && Pop([4, 3], 2) == [];
    assert [4] + [3, 1, 0] == [4, 3, 1, 0] && [4] + [3, 2, 0] == [4, 3, 2, 0] && [] + [3, 2, 0] == [3, 2, 0];
  }

  /** The witness's final matrices have the shape EnumerateFourToZero needs. */
  lemma WitnessMatrices(g: Graph)
    requires g == PopWitness
    ensures var M := IntermediatesAfter(g, 5);
            M[4][0] == [Some(3)] && M[3][0] == [Some(1), Some(2)] &&
            M[4][3] == [None] && M[3][1] == [None] && M[1][0] == [None] &&
            M[3][2] == [None] && M[2][0] == [None]
  {
    assert g[0] == [1, 2] && g[1] == [0, 3] && g[2] == [0, 3] && g[3] == [1, 2, 4] && g[4] == [3];
    WitnessNil(g, 4, 3);
    WitnessNil(g, 3, 1);
    WitnessNil(g, 1, 0);
    WitnessNil(g, 3, 2);
    WitnessNil(g, 2, 0);
    WitnessMids(g);
  }

  /**
   * graphs.rb:143-150 as written on the witness: the second shortest path
   * from 4 to 0 comes out as [3, 2, 0], because the prefix [4, 3] has been
   * popped twice by then.
   */
  lemma PopDropsPrefix(g: Graph)
    requires g == PopWitness
    ensures Consistent(PathsAfter(g, 5), IntermediatesAfter(g, 5))
    ensures Enumerate(4, 0, PathsAfter(g, 5), IntermediatesAfter(g, 5), true) == [[4, 3, 1, 0], [3, 2, 0]]
  {
    OutcomeConsistent(g);
    WitnessMatrices(g);
    EnumerateFourToZero(PathsAfter(g, 5), IntermediatesAfter(g, 5), true);
  }

  /** The same call with the prefix popped once per combination: both paths start at 4. */
  lemma PopOnceKeepsPrefix(g: Graph)
    requires g == PopWitness
    ensures Consistent(PathsAfter(g, 5), IntermediatesAfter(g, 5))
    ensures CorrectedShortestPaths(4, 0, PathsAfter(g, 5), IntermediatesAfter(g, 5)) == [[4, 3, 1, 0], [4, 3, 2, 0]]
  {
    OutcomeConsistent(g);
    WitnessMatrices(g);
    EnumerateFourToZero(PathsAfter(g, 5), IntermediatesAfter(g, 5), false);
  }

  /** Paths through v and paths avoiding it. */
  datatype Tally = Tally(pass: nat, miss: nat)

  function Plus(x: Tally, y: Tally): Tally
  {
    Tally(x.pass + y.pass, x.miss + y.miss)
  }

  /** How many of the paths contain v and how many do not. */
  function PathTally(ps: seq<seq<int>>, v: int): (r: Tally)
    ensures r.pass + r.miss == |ps|
  {
    if ps == [] then Tally(0, 0)
    else Plus(PathTally(ps[..|ps| - 1], v), if v in ps[|ps| - 1] then Tally(1, 0) else Tally(0, 1))
  }

  /** s, t and v are pairwise distinct, so betweenness counts the pair (s, t). */
  predicate Counted(v: int, s: int, t: int)
  {
    s != v && v != t && s != t
  }

  /**
   * The counts over the paths listed for (s, t), when betweenness counts
   * that pair; popEach chooses the enumeration as in Enumerate.
   */
  function PairTally(paths: seq<seq<int>>, intermediates: seq<seq<seq<Option<nat>>>>, v: int, s: nat, t: nat,
                     popEach: bool): Tally
    requires Consistent(paths, intermediates) && s < |paths| && t < |paths|
  {
    if Counted(v, s, t) then PathTally(Enumerate(s, t, paths, intermediates, popEach), v) else Tally(0, 0)
  }

  /** The counts over the pairs (s, t') with t' < t. */
  function RowTally(paths: seq<seq<int>>, intermediates: seq<seq<seq<Option<nat>>>>, v: int, s: nat, t: nat,
                    popEach: bool): Tally
    requires Consistent(paths, intermediates) && s < |paths| && t <= |paths|
  {
    if t == 0 then Tally(0, 0)
    else Plus(RowTally(paths, intermediates, v, s, t - 1, popEach), PairTally(paths, intermediates, v, s, t - 1, popEach))
  }

  /** The counts over the pairs (s', t) with s' < s. */
  function GridTally(paths: seq<seq<int>>, intermediates: seq<seq<seq<Option<nat>>>>, v: int, s: nat,
                     popEach: bool): Tally
    requires Consistent(paths, intermediates) && s <= |paths|
  {
    if s == 0 then Tally(0, 0)
    else Plus(GridTally(paths, intermediates, v, s - 1, popEach), RowTally(paths, intermediates, v, s - 1, |paths|, popEach))
  }

  /**
   * The fraction of counted paths through v: NoMethodError on a bad
   * neighbour entry, ZeroDivisionError when no path is counted.
   */
  ghost function Fraction(g: Graph, v: int, popEach: bool): (r: Result<real, Failure>)
    ensures r.Err? ==> r.error == NoMethodError || r.error == ZeroDivisionError
    ensures r.Ok? ==> 0.0 <= r.value <= 1.0
  {
    if !Indexable(g) then Err(NoMethodError)
    else
      OutcomeConsistent(g);
      var total := GridTally(PathsAfter(g, |g|), IntermediatesAfter(g, |g|), v, |g|, popEach);
      if total.pass + total.miss == 0 then Err(ZeroDivisionError)
      else Ok(total.pass as real / (total.pass + total.miss) as real)
  }

  /** betweenness(v, graph) of graphs.rb:158-179, counting over shortestPaths as written. */
  ghost function BetweennessOf(g: Graph, v: int): (r: Result<real, Failure>)
    ensures r.Err? ==> r.error == NoMethodError || r.error == ZeroDivisionError
    ensures r.Ok? ==> 0.0 <= r.value <= 1.0
  {
    Fraction(g, v, true)
  }

  /** The value betweenness would have with the last vertex of each prefix dropped once. */
  ghost function CorrectedBetweennessOf(g: Graph, v: int): (r: Result<real, Failure>)
    ensures r.Err? ==> r.error == NoMethodError || r.error == ZeroDivisionError
    ensures r.Ok? ==> 0.0 <= r.value <= 1.0
  {
    Fraction(g, v, false)
  }

  /** graphs.rb:158-179. */
  method Betweenness(v: int, graph: Graph) returns (r: Result<real, Failure>)
    ensures r == BetweennessOf(graph, v)
  {
    var fw := FloydWarshall(graph);
    if fw.Err? {
      return Err(fw.error);
    }
    var (paths, intermediates) := fw.value;
    OutcomeConsistent(graph);
    var passV, noPassV := 0, 0;
    var vertices := |graph|;
    for s := 0 to vertices
      invariant passV == GridTally(paths, intermediates, v, s, true).pass
      invariant noPassV == GridTally(paths, intermediates, v, s, true).miss
    {
      passV, noPassV := CountRow(paths, intermediates, v, s, passV, noPassV);
    }
    if passV + noPassV == 0 {
      return Err(ZeroDivisionError);
    }
    return Ok(passV as real / (passV + noPassV) as real);
  }

  /** The loop over t of graphs.rb:169-175 for one s, adding to the running counts. */
  method CountRow(paths: seq<seq<int>>, intermediates: seq<seq<seq<Option<nat>>>>, v: int, s: nat,
                  pass0: nat, miss0: nat) returns (passV: nat, noPassV: nat)
    requires Consistent(paths, intermediates) && s < |paths|
    ensures passV == pass0 + RowTally(paths, intermediates, v, s, |paths|, true).pass
    ensures noPassV == miss0 + RowTally(paths, intermediates, v, s, |paths|, true).miss
  {
    passV, noPassV := pass0, miss0;
    for t := 0 to |paths|
      invariant passV == pass0 + RowTally(paths, intermediates, v, s, t, true).pass
      invariant noPassV == miss0 + RowTally(paths, intermediates, v, s, t, true).miss
    {
      if s != v && v != t && s != t {
        var ps := ShortestPaths(s, t, paths, intermediates);
        passV, noPassV := CountPaths(ps, v, passV, noPassV);
      }
    }
  }

  /** The `each` over one pair's paths (graphs.rb:171-173), adding to the running counts. */
  method CountPaths(ps: seq<seq<int>>, v: int, pass0: nat, miss0: nat) returns (passV: nat, noPassV: nat)
    ensures passV == pass0 + PathTally(ps, v).pass && noPassV == miss0 + PathTally(ps, v).miss
  {
    passV, noPassV := pass0, miss0;
    for q := 0 to |ps|
      invariant passV == pass0 + PathTally(ps[..q], v).pass && noPassV == miss0 + PathTally(ps[..q], v).miss
    {
      assert ps[..q + 1][..q] == ps[..q];
      if v in ps[q] {
        passV := passV + 1;
      } else {
        noPassV := noPassV + 1;
      }
    }
    assert ps[..|ps|] == ps;
  }

  /** The count over a row is positive exactly when some pair of the row is counted. */
  lemma {:induction false} RowTallyPositive(paths: seq<seq<int>>, intermediates: seq<seq<seq<Option<nat>>>>,
                                            v: int, s: nat, t: nat, popEach: bool)
    requires Consistent(paths, intermediates) && s < |paths| && t <= |paths|
    ensures var r := RowTally(paths, intermediates, v, s, t, popEach);
            r.pass + r.miss > 0 <==> exists t' :: 0 <= t' < t && Counted(v, s, t')
  {
    if t > 0 {
      RowTallyPositive(paths, intermediates, v, s, t - 1, popEach);
      var prev := RowTally(paths, intermediates, v, s, t - 1, popEach);
      var last := PairTally(paths, intermediates, v, s, t - 1, popEach);
      assert RowTally(paths, intermediates, v, s, t, popEach) == Plus(prev, last);
      if Counted(v, s, t - 1) {
        assert Enumerate(s, t - 1, paths, intermediates, popEach) != [];
        assert last.pass + last.miss > 0;
      } else {
        assert last == Tally(0, 0);
        if exists t' :: 0 <= t' < t && Counted(v, s, t') {
          var t' :| 0 <= t' < t && Counted(v, s, t');
          assert 0 <= t' < t - 1;
        }
      }
    }
  }

  /** The grand count is positive exactly when some pair is counted. */
  lemma {:induction false} GridTallyPositive(paths: seq<seq<int>>, intermediates: seq<seq<seq<Option<nat>>>>,
                                             v: int, s: nat, popEach: bool)
    requires Consistent(paths, intermediates) && s <= |paths|
    ensures var r := GridTally(paths, intermediates, v, s, popEach);
            r.pass + r.miss > 0 <==> exists s', t' :: 0 <= s' < s && 0 <= t' < |paths| && Counted(v, s', t')
  {
    if s > 0 {
      GridTallyPositive(paths, intermediates, v, s - 1, popEach);
      RowTallyPositive(paths, intermediates, v, s - 1, |paths|, popEach);
    }
  }

  /**
   * betweenness raises ZeroDivisionError exactly when no pair (s, t) of
   * vertices other than v remains, and NoMethodError on a bad neighbour;
   * the corrected enumeration fails on exactly the same graphs.
   */
  lemma BetweennessDefined(g: Graph, v: int)
    ensures BetweennessOf(g, v).Ok? <==>
              Indexable(g) && exists s, t :: 0 <= s < |g| && 0 <= t < |g| && Counted(v, s, t)
    ensures CorrectedBetweennessOf(g, v).Ok? <==> BetweennessOf(g, v).Ok?
  {
    if Indexable(g) {
      OutcomeConsistent(g);
      GridTallyPositive(PathsAfter(g, |g|), IntermediatesAfter(g, |g|), v, |g|, true);
      GridTallyPositive(PathsAfter(g, |g|), IntermediatesAfter(g, |g|), v, |g|, false);
    }
  }

  /** graphs.rb:182-186: betweenness of every vertex, in vertex order. */
  method AllBetweenness(graph: Graph) returns (r: Result<seq<real>, Failure>)
    ensures r.Ok? <==> forall v :: 0 <= v < |graph| ==> BetweennessOf(graph, v).Ok?
    ensures r.Ok? ==> (|r.value| == |graph| &&
                       forall v :: 0 <= v < |graph| ==> r.value[v] == BetweennessOf(graph, v).value)
    ensures r.Err? ==> exists v :: 0 <= v < |graph| && BetweennessOf(graph, v) == Err(r.error) &&
                                  forall w :: 0 <= w < v ==> BetweennessOf(graph, w).Ok?
  {
    var betweennesses: seq<real> := [];
    for v := 0 to |graph|
      invariant |betweennesses| == v
      invariant forall w :: 0 <= w < v ==> BetweennessOf(graph, w).Ok? && betweennesses[w] == BetweennessOf(graph, w).value
    {
      var b := Betweenness(v, graph);
      if b.Err? {
        return Err(b.error);
      }
      betweennesses := betweennesses + [b.value];
    }
    return Ok(betweennesses);
  }

  /**
   * allBetweenness succeeds exactly on graphs with no bad neighbour and
   * either no vertex or at least three (a vertex needs two others).
   */
  lemma AllBetweennessDefined(g: Graph)
    ensures (forall v :: 0 <= v < |g| ==> BetweennessOf(g, v).Ok?) <==> Indexable(g) && (|g| == 0 || |g| >= 3)
  {
    if |g| > 0 {
      BetweennessDefined(g, 0);
      if Indexable(g) && |g| >= 3 {
        forall v | 0 <= v < |g|
          ensures BetweennessOf(g, v).Ok?
        {
          BetweennessDefined(g, v);
          var s := if v == 0 then 1 else 0;
          var t := if v == 2 then 1 else 2;
          assert Counted(v, s, t);
        }
      }
      if Indexable(g) && |g| < 3 {
        forall s, t | 0 <= s < |g| && 0 <= t < |g|
          ensures !Counted(0, s, t)
        {
        }
      }
    }
  }
}
