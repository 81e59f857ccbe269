/**
 * smithwaterman/SmithWatermanAligner.java: the three-way Smith-Waterman
 * aligner over a score cube F and a backtrace cube T.
 *
 * The fill runs group by group; within a group the cells do not depend on
 * one another, and the threads of the source all write the value the
 * recurrence gives, so one sequential pass per group computes the same
 * cube. The Blosum lookup is the opaque pair-score function of the input.
 */
module JavaAligner {
  import opened Outcome
  import opened Recurrence
  import opened Wavefront
  import opened Coords
  import opened Cubes
  import opened Sample

  /** Group size per additional thread. */
  const THREAD_THRESHOLD: int := 20000

  /** The exception `align` can raise: a thread array of negative length. */
  datatype Failure = NegativeArraySize

  function Min(x: int, y: int): int
  {
    if x <= y then x else y
  }

  /** `Math.min(group.size() / THREAD_THRESHOLD + 1, MAX_THREADS)`: it has the sign of MAX_THREADS. */
  function NumThreads(size: nat, maxThreads: int): (n: int)
    ensures n < 0 <==> maxThreads < 0
    ensures n == 0 <==> maxThreads == 0
    ensures 1 <= n <= size / THREAD_THRESHOLD + 1 <==> maxThreads >= 1
  {
    Min(size / THREAD_THRESHOLD + 1, maxThreads)
  }

  /**
   * The best-cell scan over the cells s, starting from state st: a cell
   * replaces the running best only when its score is strictly greater, and
   * the state keeps T of that cell, its predecessor.
   */
  function Scan(inp: Input, st: (real, Pos), s: seq<Pos>): (r: (real, Pos))
    requires forall p :: p in s ==> Interior(inp, p)
    ensures InBox(inp, st.1) ==> InBox(inp, r.1)
  {
    if s == [] then st
    else
      var prev := Scan(inp, st, s[..|s| - 1]);
      var p := s[|s| - 1];
      assert p in s && Interior(inp, p);
      if Cell(inp, p) > prev.0 then (Cell(inp, p), Pred(inp, p)) else prev
  }

  /** The scan of the cube in group order, from (0, (0,0,0)). */
  function JavaScan(inp: Input): (real, Pos)
  {
    OrderShape(|inp.a|, |inp.b|, |inp.c|);
    Scan(inp, (0.0, Origin), Order(|inp.a|, |inp.b|, |inp.c|))
  }

  /** Where the Java backtrace starts: T of the best cell, or (0,0,0) when no cell is positive. */
  function JavaEndpoint(inp: Input): (e: Pos)
    ensures InBox(inp, e)
  {
    JavaScan(inp).1
  }

  /**
   * What `align()` returns for MAX_THREADS maxThreads: NegativeArraySize
   * when the first group's thread array has negative size, three empty
   * strings when no thread ever runs, the backtrace from JavaEndpoint
   * otherwise.
   */
  function JavaResult(inp: Input, maxThreads: int): (r: Result<Alignment, Failure>)
    ensures r.Err? <==> maxThreads < 0 && NumGroups(|inp.a|, |inp.b|, |inp.c|) > 0
    ensures r.Err? ==> r.error == NegativeArraySize
    ensures r.Ok? ==> |r.value.a| == |r.value.b| == |r.value.c|
  {
    if maxThreads < 0 && NumGroups(|inp.a|, |inp.b|, |inp.c|) > 0 then Err(NegativeArraySize)
    else if maxThreads < 1 then Ok(Empty)
    else Ok(Trace(inp, JavaEndpoint(inp)))
  }

  /** The best cell of the scan: the first cell in group order with the largest positive score. */
  function BestCell(inp: Input): (r: Option<Pos>)
    ensures r.Some? ==> Interior(inp, r.value)
  {
    var o := Order(|inp.a|, |inp.b|, |inp.c|);
    OrderShape(|inp.a|, |inp.b|, |inp.c|);
    var k := Pick(Scores(inp, o)).1;
    if k < 0 then None else Some(o[k])
  }

  /** The scan over the first n groups. */
  function ScanPrefix(inp: Input, n: nat): (real, Pos)
    requires n <= |Groups(|inp.a|, |inp.b|, |inp.c|)|
  {
    FlattenPrefix(|inp.a|, |inp.b|, |inp.c|, n);
    Scan(inp, (0.0, Origin), Flatten(Groups(|inp.a|, |inp.b|, |inp.c|)[..n]))
  }

  /** Scanning a concatenation scans the second part from where the first left off. */
  lemma {:induction false} ScanConcat(inp: Input, st: (real, Pos), s: seq<Pos>, t: seq<Pos>)
    requires forall p :: p in s ==> Interior(inp, p)
    requires forall p :: p in t ==> Interior(inp, p)
    ensures Scan(inp, st, s + t) == Scan(inp, Scan(inp, st, s), t)
  {
    if t == [] {
      assert s + t == s;
    } else {
      var init := t[..|t| - 1];
      ScanConcat(inp, st, s, init);
      assert (s + t)[..|s + t| - 1] == s + init;
    }
  }

  /** One more group of the outer loop scans that group. */
  lemma ScanPrefixStep(inp: Input, g: nat)
    requires g < |Groups(|inp.a|, |inp.b|, |inp.c|)|
    ensures forall p :: p in Group(|inp.a|, |inp.b|, |inp.c|, g) ==> Interior(inp, p)
    ensures ScanPrefix(inp, g + 1) == Scan(inp, ScanPrefix(inp, g), Group(|inp.a|, |inp.b|, |inp.c|, g))
  {
    var gs := Groups(|inp.a|, |inp.b|, |inp.c|);
    FlattenPrefix(|inp.a|, |inp.b|, |inp.c|, g);
    GroupShape(|inp.a|, |inp.b|, |inp.c|, g);
    assert gs[..g + 1][..g] == gs[..g];
    ScanConcat(inp, (0.0, Origin), Flatten(gs[..g]), gs[g]);
  }

  /** Scanning all the groups is the scan of the whole order. */
  lemma ScanPrefixAll(inp: Input)
    ensures ScanPrefix(inp, |Groups(|inp.a|, |inp.b|, |inp.c|)|) == JavaScan(inp)
  {
    var gs := Groups(|inp.a|, |inp.b|, |inp.c|);
    assert gs[..|gs|] == gs;
  }

  /**
   * The scan is the running maximum of the scores: its score is the largest
   * one floored at 0 and its cell is T of the first cell reaching it, or the
   * origin when no score is positive.
   */
  lemma {:induction false} ScanIsPick(inp: Input, s: seq<Pos>)
    requires forall p :: p in s ==> Interior(inp, p)
    ensures var k := Pick(Scores(inp, s)).1;
      Scan(inp, (0.0, Origin), s) == (Pick(Scores(inp, s)).0, if k < 0 then Origin else Pred(inp, s[k]))
  {
    if s != [] {
      var init := s[..|s| - 1];
      ScanIsPick(inp, init);
      assert Scores(inp, s)[..|s| - 1] == Scores(inp, init);
    }
  }

  /**
   * BestCell is the best cell of the cube: none when every score is 0;
   * otherwise a positive cell no other cell beats, and every cell before it
   * in group order scores strictly less.
   */
  lemma BestCellIsFirstMaximum(inp: Input)
    ensures BestCell(inp).None? <==> forall q :: Interior(inp, q) ==> Cell(inp, q) == 0.0
    ensures BestCell(inp).Some? ==> var p := BestCell(inp).value;
      Cell(inp, p) > 0.0
      && (forall q :: Interior(inp, q) ==> Cell(inp, q) <= Cell(inp, p))
      && (forall q :: Interior(inp, q) && WaveBefore(q, p) ==> Cell(inp, q) < Cell(inp, p))
  {
    var o := Order(|inp.a|, |inp.b|, |inp.c|);
    OrderShape(|inp.a|, |inp.b|, |inp.c|);
    var sc := Scores(inp, o);
    var k := Pick(sc).1;
    forall q | Interior(inp, q)
      ensures Cell(inp, q) <= Pick(sc).0
      ensures k >= 0 && WaveBefore(q, o[k]) ==> Cell(inp, q) < Pick(sc).0
      ensures k < 0 ==> Cell(inp, q) == 0.0
    {
      PickBounds(inp, o, q);
    }
    if k >= 0 {
      ScoresAt(inp, o);
      assert sc[k] == Cell(inp, o[k]);
    }
  }

  /**
   * In a run of cells in group order, the first maximum of their scores
   * bounds the score of every cell of the run, strictly for every earlier
   * cell; when nothing exceeds 0, every cell scores 0.
   */
  lemma PickBounds(inp: Input, s: seq<Pos>, q: Pos)
    requires WaveAscending(s) && q in s && Interior(inp, q) && (forall p :: p in s ==> Interior(inp, p))
    ensures Cell(inp, q) <= Pick(Scores(inp, s)).0
    ensures Pick(Scores(inp, s)).1 >= 0 && WaveBefore(q, s[Pick(Scores(inp, s)).1]) ==> Cell(inp, q) < Pick(Scores(inp, s)).0
    ensures Pick(Scores(inp, s)).1 < 0 ==> Cell(inp, q) == 0.0
  {
    var sc := Scores(inp, s);
    var k := Pick(sc).1;
    var m :| 0 <= m < |s| && s[m] == q;
    ScoresAt(inp, s);
    CellNonNegative(inp, q);
    if k >= 0 && WaveBefore(q, s[k]) {
      WaveBeforeIndex(s, m, k);
    }
  }

  /** The Java backtrace starts at T of the best cell, or at the origin when there is none. */
  lemma JavaEndpointIsPredOfBest(inp: Input)
    ensures JavaEndpoint(inp) == match BestCell(inp) case None => Origin case Some(p) => Pred(inp, p)
    ensures InBox(inp, JavaEndpoint(inp))
  {
    var o := Order(|inp.a|, |inp.b|, |inp.c|);
    OrderShape(|inp.a|, |inp.b|, |inp.c|);
    ScanIsPick(inp, o);
    var k := Pick(Scores(inp, o)).1;
    if k >= 0 {
      var p := o[k];
      assert p in o;
      if Choice(inp, p) >= 0 {
        StepInBox(inp, Choice(inp, p), p);
      }
    }
  }

  // ---------------------------------------------------------------------
  // The backtrace starts one cell too late
  // ---------------------------------------------------------------------

  /**
   * As written, `align` traces back from T of the best cell, not from the
   * best cell: the best cell's own column is missing from the result, and
   * its score is the best score less that column's score.
   */
  lemma JavaDropsBestColumn(inp: Input)
    requires BestCell(inp).Some?
    ensures var p := BestCell(inp).value; var n := Choice(inp, p);
      0 <= n < 7
      && Trace(inp, p) == Snoc(Trace(inp, JavaEndpoint(inp)), ColumnOf(inp, n, p))
      && |Trace(inp, JavaEndpoint(inp)).a| == |Trace(inp, JavaEndpoint(inp)).b| == |Trace(inp, JavaEndpoint(inp)).c|
      && AlignmentScore(inp.pair, Trace(inp, JavaEndpoint(inp)))
         == Cell(inp, p) - ColumnScore(inp.pair, ColumnOf(inp, n, p))
  {
    var p := BestCell(inp).value;
    BestCellIsFirstMaximum(inp);
    JavaEndpointIsPredOfBest(inp);
    TraceStepUnfold(inp, p);
    CellFromPred(inp, p);
    TraceScoresCell(inp, JavaEndpoint(inp));
  }

  /**
   * With an empty sequence there is no interior cell: `bestT` keeps the
   * Coord (0, 0, 0) it starts as, F is 0 there, and `align` returns three
   * empty strings.
   */
  lemma JavaEmptyInput(inp: Input, maxThreads: int)
    requires |inp.a| == 0 || |inp.b| == 0 || |inp.c| == 0
    ensures JavaEndpoint(inp) == Origin
    ensures Trace(inp, JavaEndpoint(inp)) == Empty
    ensures JavaResult(inp, maxThreads).Ok? ==> JavaResult(inp, maxThreads).value == Empty
  {
    EmptyAxisEmptyOrder(|inp.a|, |inp.b|, |inp.c|);
  }

  /**
   * Three copies of "A": the only positive cell is (1, 1, 1), reached from
   * the origin by the all-residue move, so as written the result is three
   * empty strings while the intended one is "A" three times.
   */
  lemma JavaSingleResidueExample()
    ensures BestCell(SingleResidue()) == Some(Pos(1, 1, 1))
    ensures Trace(SingleResidue(), JavaEndpoint(SingleResidue())) == Empty
    ensures IntendedAlignment(SingleResidue()) == Alignment("A", "A", "A")
  {
    JavaSingleResidueBest();
    SingleResidueTrace();
    JavaEndpointIsPredOfBest(SingleResidue());
    assert Trace(SingleResidue(), Origin) == Empty;
  }

  /** In the example, the only interior cell (1, 1, 1) scores 2, so it is the best cell. */
  lemma JavaSingleResidueBest()
    ensures BestCell(SingleResidue()) == Some(Pos(1, 1, 1))
  {
    SingleResidueCell();
    UnitBestCell(SingleResidue());
  }

  /** With one residue per sequence, a positive score at the only interior cell makes it the best cell. */
  lemma UnitBestCell(inp: Input)
    requires |inp.a| == 1 && |inp.b| == 1 && |inp.c| == 1
    requires Cell(inp, Pos(1, 1, 1)) > 0.0
    ensures BestCell(inp) == Some(Pos(1, 1, 1))
  {
    BestCellExists(inp, Pos(1, 1, 1));
    var p := BestCell(inp).value;
    assert Interior(inp, p);
  }

  /** A cell scoring above 0 means there is a best cell. */
  lemma BestCellExists(inp: Input, q: Pos)
    requires Interior(inp, q) && Cell(inp, q) > 0.0
    ensures BestCell(inp).Some?
  {
    BestCellIsFirstMaximum(inp);
  }

  /**
   * The alignment the backtrace was evidently meant to produce: read back
   * from the best cell itself, or empty when no cell scores above 0.
   */
  function IntendedAlignment(inp: Input): Alignment
  {
    match BestCell(inp)
    case None => Empty
    case Some(p) => Trace(inp, p)
  }

  /**
   * The intended alignment is optimal: its columns score exactly the best
   * score, which no cell of the cube exceeds, and each strand with its gaps
   * removed is a contiguous piece of its input sequence.
   */
  lemma IntendedAlignmentIsOptimal(inp: Input)
    ensures var al := IntendedAlignment(inp);
      |al.a| == |al.b| == |al.c|
      && (forall q :: Interior(inp, q) ==> Cell(inp, q) <= AlignmentScore(inp.pair, al))
      && (BestCell(inp).Some? ==> AlignmentScore(inp.pair, al) == Cell(inp, BestCell(inp).value))
    ensures BestCell(inp).Some? && GAP !in inp.a && GAP !in inp.b && GAP !in inp.c ==>
      var al := IntendedAlignment(inp); var p := BestCell(inp).value; var e := TraceStart(inp, p);
      Ungap(al.a) == inp.a[e.x..p.x] && Ungap(al.b) == inp.b[e.y..p.y] && Ungap(al.c) == inp.c[e.z..p.z]
  {
    BestCellIsFirstMaximum(inp);
    match BestCell(inp)
    case None =>
    case Some(p) =>
      TraceScoresCell(inp, p);
      if GAP !in inp.a && GAP !in inp.b && GAP !in inp.c {
        TraceCoversSubstrings(inp, p);
      }
  }

  // ---------------------------------------------------------------------
  // The aligner
  // ---------------------------------------------------------------------

  class SmithWatermanAligner {
    /** MAX_THREADS. */
    const maxThreads: int
    const a: string
    const b: string
    const c: string
    /** The Blosum pair score. */
    const pair: (char, char) -> real
    /** The score cube, (|A|+1) x (|B|+1) x (|C|+1). */
    const F: array3<real>
    /** The backtrace cube; None is Java's null. */
    const T: array3<Option<Coord>>
    /** The static id counter of Coord. */
    const ids: IdCounter

    function Inp(): Input
    {
      Input(a, b, c, pair)
    }

    /** F and T have one plane per prefix length of each sequence. */
    predicate Shaped()
    {
      F.Length0 == |a| + 1 && F.Length1 == |b| + 1 && F.Length2 == |c| + 1
      && T.Length0 == |a| + 1 && T.Length1 == |b| + 1 && T.Length2 == |c| + 1
    }

    /** Cell p has not been computed: F is 0 and T is null. */
    ghost predicate Blank(p: Pos)
      requires Shaped() && InBox(Inp(), p)
      reads F, T
    {
      F[p.x, p.y, p.z] == 0.0 && T[p.x, p.y, p.z] == None
    }

    /** Cell p holds its score and a Coord of its predecessor. */
    ghost predicate Filled(p: Pos)
      requires Shaped() && Interior(Inp(), p)
      reads F, T
    {
      F[p.x, p.y, p.z] == Cell(Inp(), p)
      && T[p.x, p.y, p.z].Some? && T[p.x, p.y, p.z].value.At() == Pred(Inp(), p)
    }

    /**
     * The faces hold 0; every interior cell is either not yet computed or
     * holds what the recurrence gives; with no thread allowed nothing is
     * ever computed.
     */
    ghost predicate Valid()
      reads F, T
    {
      Shaped()
      && (forall p :: InBox(Inp(), p) && OnFace(p) ==> F[p.x, p.y, p.z] == 0.0)
      && (forall p :: Interior(Inp(), p) ==> Blank(p) || Filled(p))
      && (maxThreads < 1 ==> forall p :: Interior(Inp(), p) ==> Blank(p))
    }

    /** `new SmithWatermanAligner(a, b, c, threads)`: allocate both cubes and zero the three faces. */
    constructor (a: string, b: string, c: string, pair: (char, char) -> real, threads: int, ids: IdCounter)
      ensures this.a == a && this.b == b && this.c == c && this.pair == pair
      ensures maxThreads == threads && this.ids == ids
      ensures fresh(F) && fresh(T)
      ensures Valid()
      ensures forall p :: InBox(Inp(), p) ==> Blank(p)
    {
      maxThreads := threads;
      this.a := a;
      this.b := b;
      this.c := c;
      this.pair := pair;
      this.ids := ids;
      var aLength, bLength, cLength := |a| + 1, |b| + 1, |c| + 1;
      // Java zero-initialises a new double array and nulls a new object array.
      F := new real[aLength, bLength, cLength]((i, j, k) => 0.0);
      T := new Option<Coord>[aLength, bLength, cLength]((i, j, k) => None);
      new;
      ZeroPlaneA(F, 0.0);
      ZeroPlaneB(F, 0.0);
      ZeroPlaneC(F, 0.0);
      assert forall x, y, z :: 0 <= x < aLength && 0 <= y < bLength && 0 <= z < cLength ==> F[x, y, z] == 0.0;
      assert forall p :: InBox(Inp(), p) ==> Blank(p);
    }

    /**
     * `diagonalise`: NumGroups empty groups, then every interior cell,
     * enumerated i-outer / j-middle / k-inner, becomes a new Coord appended
     * to group i + j + k - 3.
     */
    method Diagonalise(aLength: nat, bLength: nat, cLength: nat) returns (groups: seq<seq<Coord>>)
      modifies ids
      ensures groups == Buckets(Numbered(Cells(aLength, bLength, cLength), old(ids.currentId)), |Groups(aLength, bLength, cLength)|)
      ensures ids.currentId == old(ids.currentId) + aLength * bLength * cLength
    {
      groups := EmptyGroups(aLength + bLength + cLength - 2);
      ghost var base := ids.currentId;
      ghost var seen: seq<Pos> := [];
      assert Numbered(seen, base) == [];
      for i := 1 to aLength + 1
        invariant seen == Cells(i - 1, bLength, cLength)
        invariant ids.currentId == base + |seen|
        invariant |groups| == |Groups(aLength, bLength, cLength)|
        invariant groups == Buckets(Numbered(seen, base), |groups|)
      {
        groups := DiagonalisePlane(i, bLength, cLength, groups, seen, base);
        seen := seen + Plane(i, bLength, cLength);
      }
      assert seen == Cells(aLength, bLength, cLength);
      CellsCount(aLength, bLength, cLength);
    }

    /** The first loop of `diagonalise`: numGroups empty groups (none when numGroups is negative). */
    static method EmptyGroups(numGroups: int) returns (groups: seq<seq<Coord>>)
      ensures groups == Buckets([], if numGroups > 0 then numGroups else 0)
    {
      groups := [];
      var n := 0;
      while n < numGroups
        invariant 0 <= n && (numGroups >= 0 ==> n <= numGroups) && (numGroups < 0 ==> n == 0) && |groups| == n
        invariant forall g :: 0 <= g < |groups| ==> groups[g] == []
      {
        groups := groups + [[]];
        n := n + 1;
      }
    }

    /** The two inner loops of `diagonalise` for one i: the cells (i, j, k) join their groups in order. */
    method DiagonalisePlane(i: int, bLength: nat, cLength: nat, groups0: seq<seq<Coord>>,
                            ghost seen: seq<Pos>, ghost base: int) returns (groups: seq<seq<Coord>>)
      requires i >= 1 && i + bLength + cLength - 3 < |groups0|
      requires groups0 == Buckets(Numbered(seen, base), |groups0|)
      requires ids.currentId == base + |seen|
      modifies ids
      ensures |groups| == |groups0|
      ensures groups == Buckets(Numbered(seen + Plane(i, bLength, cLength), base), |groups|)
      ensures ids.currentId == base + |seen + Plane(i, bLength, cLength)|
    {
      groups := groups0;
      ghost var cur := seen;
      for j := 1 to bLength + 1
        invariant cur == seen + Plane(i, j - 1, cLength)
        invariant ids.currentId == base + |cur|
        invariant |groups| == |groups0|
        invariant groups == Buckets(Numbered(cur, base), |groups|)
      {
        groups := DiagonaliseLine(i, j, cLength, groups, cur, base);
        cur := cur + Line(i, j, cLength);
      }
    }

    /** The innermost loop of `diagonalise` for one i and j. */
    method DiagonaliseLine(i: int, j: int, cLength: nat, groups0: seq<seq<Coord>>,
                           ghost seen: seq<Pos>, ghost base: int) returns (groups: seq<seq<Coord>>)
      requires i >= 1 && j >= 1 && i + j + cLength - 3 < |groups0|
      requires groups0 == Buckets(Numbered(seen, base), |groups0|)
      requires ids.currentId == base + |seen|
      modifies ids
      ensures |groups| == |groups0|
      ensures groups == Buckets(Numbered(seen + Line(i, j, cLength), base), |groups|)
      ensures ids.currentId == base + |seen + Line(i, j, cLength)|
    {
      groups := groups0;
      ghost var cur := seen;
      for k := 1 to cLength + 1
        invariant cur == seen + Line(i, j, k - 1)
        invariant ids.currentId == base + |cur|
        invariant |groups| == |groups0|
        invariant groups == Buckets(Numbered(cur, base), |groups|)
      {
        var g0 := i + j + k - 3;
        var coord := ids.NewCoord(i, j, k);
        ghost var next := cur + [Pos(i, j, k)];
        AppendCoord(cur, base, groups, coord, Pos(i, j, k), g0);
        groups := groups[g0 := groups[g0] + [coord]];
        assert groups == Buckets(Numbered(next, base), |groups|);
        assert seen + Line(i, j, k) == next;
        cur := next;
      }
    }

    /** F at cell p. */
    function FAt(p: Pos): real
      requires Shaped() && InBox(Inp(), p)
      reads F
    {
      F[p.x, p.y, p.z]
    }

    /** The score of arriving at p by move n, read from F. */
    function MoveScore(n: nat, p: Pos): real
      requires n < 7 && Shaped() && Interior(Inp(), p)
      reads F
    {
      FAt(Step(n, p)) + ColumnScore(pair, ColumnOf(Inp(), n, p))
    }

    /**
     * One move of `bestScore`: the predecessor cell of move n and the score
     * of arriving from it, F there plus the score of the move's column.
     */
    method Move(n: nat, i: int, j: int, k: int) returns (x: int, y: int, z: int, sc: real)
      requires n < 7 && Shaped() && Interior(Inp(), Pos(i, j, k))
      ensures Pos(x, y, z) == Step(n, Pos(i, j, k))
      ensures sc == MoveScore(n, Pos(i, j, k))
    {
      var xr, yr, zr;
      x, xr := if GapA(n) then i else i - 1, if GapA(n) then GAP else a[i - 1];
      y, yr := if GapB(n) then j else j - 1, if GapB(n) then GAP else b[j - 1];
      z, zr := if GapC(n) then k else k - 1, if GapC(n) then GAP else c[k - 1];
      MoveColumn(Inp(), n, Pos(i, j, k), xr, yr, zr);
      sc := F[x, y, z] + Score3(pair, xr, yr, zr);
    }

    /** The seven move scores of cell p, in move order. */
    function MoveScores(p: Pos): (vs: seq<real>)
      requires Shaped() && Interior(Inp(), p)
      reads F
      ensures |vs| == 7 && forall n :: 0 <= n < 7 ==> vs[n] == MoveScore(n, p)
    {
      [MoveScore(0, p), MoveScore(1, p), MoveScore(2, p), MoveScore(3, p),
       MoveScore(4, p), MoveScore(5, p), MoveScore(6, p)]
    }

    /**
     * `bestScore(i, j, k)`: try the seven moves in order and keep the first
     * strictly greater score starting from 0, together with the fresh Coord
     * (0,0,0), whose fields are overwritten with the chosen predecessor.
     */
    method BestScore(i: int, j: int, k: int) returns (r: (real, Coord))
      requires Shaped() && Interior(Inp(), Pos(i, j, k))
      modifies ids
      ensures r.0 == Pick(MoveScores(Pos(i, j, k))).0
      ensures r.1.At() == MoveTarget(Pick(MoveScores(Pos(i, j, k))).1, Pos(i, j, k))
      ensures r.1.id == old(ids.currentId) && ids.currentId == old(ids.currentId) + 1
    {
      var p := Pos(i, j, k);
      var bestF := 0.0;
      var bestT := ids.NewCoord(0, 0, 0);
      ghost var vals: seq<real> := [];
      ghost var chosen := -1;
      for n := 0 to 7
        modifies {}
        invariant vals == MovePrefix(p, n)
        invariant (bestF, chosen) == Pick(vals)
        invariant bestT.id == old(ids.currentId)
        invariant bestT.At() == MoveTarget(chosen, p)
      {
        var x, y, z, sc := Move(n, i, j, k);
        PickSnoc(vals, sc);
        vals := vals + [sc];
        if sc > bestF {
          bestF := sc;
          bestT := bestT.(x := x, y := y, z := z);
          chosen := n;
        }
      }
      MovePrefixAll(p);
      r := (bestF, bestT);
    }

    /** The scores of moves 0 .. n - 1 of p, in move order. */
    ghost function MovePrefix(p: Pos, n: nat): (vs: seq<real>)
      requires n <= 7 && Shaped() && Interior(Inp(), p)
      reads F
      ensures |vs| == n
    {
      if n == 0 then [] else MovePrefix(p, n - 1) + [MoveScore(n - 1, p)]
    }

    /** All seven move scores are the scores `bestScore` runs through. */
    lemma MovePrefixAll(p: Pos)
      requires Shaped() && Interior(Inp(), p)
      ensures MovePrefix(p, 7) == MoveScores(p)
    {
      MovePrefixAt(p, 7);
    }

    /** MovePrefix is read move by move. */
    lemma {:induction false} MovePrefixAt(p: Pos, n: nat)
      requires n <= 7 && Shaped() && Interior(Inp(), p)
      ensures forall m :: 0 <= m < n ==> MovePrefix(p, n)[m] == MoveScore(m, p)
    {
      if n > 0 {
        MovePrefixAt(p, n - 1);
      }
    }

    /**
     * When F holds the recurrence's value at every predecessor of p, the
     * choice of `bestScore` is the recurrence's: F and T of p as specified.
     */
    lemma MoveScoresPick(p: Pos)
      requires Shaped() && Interior(Inp(), p)
      requires forall n :: 0 <= n < 7 ==> FAt(Step(n, p)) == Cell(Inp(), Step(n, p))
      ensures Pick(MoveScores(p)).0 == Cell(Inp(), p)
      ensures MoveTarget(Pick(MoveScores(p)).1, p) == Pred(Inp(), p)
    {
      PickOfCandidates(Inp(), p, MoveScores(p));
    }

    /**
     * `align()`: diagonalise, then group by group fill the cells with as
     * many threads as the group size allows (at most MAX_THREADS) and scan
     * them for a strictly better score, then trace back from the Coord kept
     * with the best score.
     *
     * A negative MAX_THREADS makes the thread array of the first group fail;
     * a MAX_THREADS of 0 computes nothing and gives three empty strings.
     * Otherwise every cell holds the recurrence and the result is the
     * backtrace from JavaEndpoint, T of the best cell.
     */
    method Align() returns (r: Result<Alignment, Failure>)
      requires Valid()
      modifies F, T, ids
      ensures Valid()
      ensures r == JavaResult(Inp(), maxThreads)
      ensures maxThreads >= 1 ==> forall p :: Interior(Inp(), p) ==> Filled(p)
    {
      var bestT := ids.NewCoord(0, 0, 0);
      ghost var base := ids.currentId;
      var groups := Diagonalise(|a|, |b|, |c|);
      var scan := ScanGroups(groups, base, bestT);
      if scan.Err? {
        return Err(scan.error);
      }
      if maxThreads >= 1 {
        ScanPrefixAll(Inp());
        assert forall p :: Interior(Inp(), p) ==> Sum(p) < |groups| + 3;
      }
      var al := Backtrace(scan.value.1.At());
      r := Ok(al);
    }

    /**
     * The group loop of `align`: fills and scans every group in turn,
     * keeping the best score and the Coord holding it.
     */
    method ScanGroups(groups: seq<seq<Coord>>, ghost base: int, origin: Coord)
      returns (r: Result<(real, Coord), Failure>)
      requires Valid() && origin.At() == Origin
      requires groups == Buckets(Numbered(Cells(|a|, |b|, |c|), base), |Groups(|a|, |b|, |c|)|)
      modifies F, T, ids
      ensures Valid()
      ensures r.Err? <==> maxThreads < 0 && NumGroups(|a|, |b|, |c|) > 0
      ensures r.Err? ==> r.error == NegativeArraySize
      ensures r.Ok? && maxThreads >= 1 ==>
                FilledBelow(|groups| + 3) && (r.value.0, r.value.1.At()) == ScanPrefix(Inp(), |groups|)
      ensures r.Ok? && maxThreads < 1 ==> r.value.1.At() == Origin
    {
      var bestF := 0.0;
      var bestT := origin;
      for g := 0 to |groups|
        invariant Valid() && bestF >= 0.0
        invariant maxThreads >= 1 ==> FilledBelow(g + 3) && (bestF, bestT.At()) == ScanPrefix(Inp(), g)
        invariant maxThreads < 1 ==> bestF == 0.0 && bestT.At() == Origin
        invariant maxThreads < 0 ==> g == 0
      {
        var group := groups[g];
        assert group == CoordBucket(Numbered(Cells(|a|, |b|, |c|), base), g);
        var numThreads := NumThreads(|group|, maxThreads);
        if numThreads < 0 {
          return Err(NegativeArraySize);
        }
        bestF, bestT := ProcessGroup(group, numThreads, g, base, bestF, bestT);
      }
      return Ok((bestF, bestT));
    }

    /** One pass of the group loop of `align` once the thread count is known: fill, then scan. */
    method ProcessGroup(group: seq<Coord>, numThreads: int, g: nat, ghost base: int, bestF: real, bestT: Coord)
      returns (f: real, t: Coord)
      requires Valid() && bestF >= 0.0 && g < |Groups(|a|, |b|, |c|)|
      requires group == CoordBucket(Numbered(Cells(|a|, |b|, |c|), base), g)
      requires numThreads == NumThreads(|group|, maxThreads) && numThreads >= 0
      requires maxThreads >= 1 ==> FilledBelow(g + 3) && (bestF, bestT.At()) == ScanPrefix(Inp(), g)
      requires maxThreads < 1 ==> bestF == 0.0 && bestT.At() == Origin
      modifies F, T, ids
      ensures Valid() && f >= 0.0
      ensures maxThreads >= 1 ==> FilledBelow(g + 4) && (f, t.At()) == ScanPrefix(Inp(), g + 1)
      ensures maxThreads < 1 ==> f == 0.0 && t.At() == Origin
    {
      GroupCoords(Inp(), base, g);
      if numThreads >= 1 {
        FillGroup(group, numThreads, g + 3);
        ScanPrefixStep(Inp(), g);
        f, t := ScanGroup(group, bestF, bestT);
      } else {
        f, t := ScanGroup(group, bestF, bestT);
      }
    }

    /** Every interior cell below anti-diagonal level `level` (Sum < level) holds its recurrence value. */
    ghost predicate FilledBelow(level: int)
      requires Shaped()
      reads F, T
    {
      forall p :: Interior(Inp(), p) && Sum(p) < level ==> Filled(p)
    }

    /** Once every cell before p's anti-diagonal is filled, F holds the recurrence at all of p's predecessors. */
    lemma PredecessorsReady(p: Pos)
      requires Valid() && Interior(Inp(), p) && FilledBelow(Sum(p))
      ensures forall n :: 0 <= n < 7 ==> FAt(Step(n, p)) == Cell(Inp(), Step(n, p))
    {
      forall n | 0 <= n < 7
        ensures FAt(Step(n, p)) == Cell(Inp(), Step(n, p))
      {
        var q := Step(n, p);
        StepInBox(Inp(), n, p);
        if !OnFace(q) {
          assert Interior(Inp(), q) && Sum(q) < Sum(p);
        }
      }
    }

    /** `F[c.x][c.y][c.z] = result.l; T[c.x][c.y][c.z] = result.r` for a value the recurrence gives. */
    method Store(p: Pos, v: real, co: Coord)
      requires Valid() && Interior(Inp(), p) && maxThreads >= 1
      requires v == Cell(Inp(), p) && co.At() == Pred(Inp(), p)
      modifies F, T
      ensures Valid() && Filled(p)
      ensures forall q :: Interior(Inp(), q) && q != p ==> (Filled(q) <==> old(Filled(q)))
      ensures forall q :: Interior(Inp(), q) && old(Filled(q)) ==> Filled(q)
    {
      F[p.x, p.y, p.z] := v;
      T[p.x, p.y, p.z] := Some(co);
    }

    /** The work a thread does for one Coord of its share: compute the cell and store F and T. */
    method ComputeCell(co: Coord)
      requires Valid() && maxThreads >= 1 && Interior(Inp(), co.At()) && FilledBelow(Sum(co.At()))
      modifies F, T, ids
      ensures Valid() && Filled(co.At())
      ensures forall q :: Interior(Inp(), q) && old(Filled(q)) ==> Filled(q)
    {
      var p := co.At();
      var result := BestScore(co.x, co.y, co.z);
      PredecessorsReady(p);
      MoveScoresPick(p);
      Store(p, result.0, result.1);
    }

    /**
     * The `run` of thread t over one group: it computes the cells whose
     * Coord id is a multiple of t, leaving every other cell as it was.
     */
    method RunThread(group: seq<Coord>, t: int, ghost level: int)
      requires Valid() && maxThreads >= 1 && t >= 1
      requires forall co :: co in group ==> Interior(Inp(), co.At()) && Sum(co.At()) == level
      requires FilledBelow(level)
      modifies F, T, ids
      ensures Valid() && FilledBelow(level)
      ensures forall co :: co in group && (old(Filled(co.At())) || co.id % t == 0) ==> Filled(co.At())
    {
      for m := 0 to |group|
        invariant Valid() && FilledBelow(level)
        invariant forall co :: co in group && old(Filled(co.At())) ==> Filled(co.At())
        invariant forall co :: co in group[..m] ==> co in group
        invariant ThreadDone(group[..m], t)
      {
        var co := group[m];
        assert co in group;
        if co.id % t == 0 {
          ComputeCell(co);
        }
        assert group[..m + 1] == group[..m] + [co];
      }
      assert group[..|group|] == group;
    }

    /** Every Coord of s that thread t computes is an interior cell holding its recurrence value. */
    ghost predicate ThreadDone(s: seq<Coord>, t: int)
      requires t >= 1
      reads F, T
    {
      Shaped() && forall co :: co in s && co.id % t == 0 ==> Interior(Inp(), co.At()) && Filled(co.At())
    }

    /**
     * The threads of one group, run one after the other: thread t computes
     * the cells whose Coord id is a multiple of t. Thread 1 computes them
     * all; the others compute some of them again, to the same values.
     */
    method FillGroup(group: seq<Coord>, numThreads: int, ghost level: int)
      requires Valid() && maxThreads >= 1 && numThreads >= 1
      requires forall co :: co in group ==> Interior(Inp(), co.At()) && Sum(co.At()) == level
      requires forall p :: Interior(Inp(), p) && Sum(p) == level ==> p in Positions(group)
      requires FilledBelow(level)
      modifies F, T, ids
      ensures Valid() && FilledBelow(level + 1)
      ensures forall co :: co in group ==> Filled(co.At())
    {
      for t := 1 to numThreads + 1
        invariant Valid() && FilledBelow(level)
        invariant t > 1 ==> forall co :: co in group ==> Filled(co.At())
      {
        RunThread(group, t, level);
      }
      PositionsAt(group);
      forall p | Interior(Inp(), p) && Sum(p) < level + 1
        ensures Filled(p)
      {
        if Sum(p) == level {
          var m :| 0 <= m < |group| && Positions(group)[m] == p;
          assert group[m] in group;
        }
      }
    }

    /**
     * "Find our maximum score so far" read off the cubes: a cell replaces
     * the running best when its F is strictly greater, and the best Coord
     * becomes its T.
     */
    ghost function ScanCubes(st: (real, Coord), group: seq<Coord>): (r: (real, Coord))
      requires Valid() && st.0 >= 0.0
      requires forall co :: co in group ==> Interior(Inp(), co.At())
      reads F, T
      ensures r.0 >= st.0
    {
      if group == [] then st
      else
        var prev := ScanCubes(st, group[..|group| - 1]);
        var co := group[|group| - 1];
        assert co in group && Interior(Inp(), co.At());
        assert Blank(co.At()) || Filled(co.At());
        if F[co.x, co.y, co.z] > prev.0 then (F[co.x, co.y, co.z], T[co.x, co.y, co.z].value) else prev
    }

    /** On filled cells the scan of the cubes is the scan of the recurrence. */
    lemma {:induction false} ScanCubesFilled(st: (real, Coord), group: seq<Coord>)
      requires Valid() && st.0 >= 0.0
      requires forall co :: co in group ==> Interior(Inp(), co.At()) && Filled(co.At())
      ensures forall p :: p in Positions(group) ==> Interior(Inp(), p)
      ensures var r := ScanCubes(st, group); (r.0, r.1.At()) == Scan(Inp(), (st.0, st.1.At()), Positions(group))
    {
      PositionsAt(group);
      forall p | p in Positions(group)
        ensures Interior(Inp(), p)
      {
        var m :| 0 <= m < |group| && Positions(group)[m] == p;
        assert group[m] in group;
      }
      if group != [] {
        var init := group[..|group| - 1];
        assert forall co :: co in init ==> co in group;
        ScanCubesFilled(st, init);
        assert Positions(group)[..|group| - 1] == Positions(init);
        assert group[|group| - 1] in group;
      }
    }

    /** On cells still at 0 the scan of the cubes changes nothing. */
    lemma {:induction false} ScanCubesBlank(st: (real, Coord), group: seq<Coord>)
      requires Valid() && st.0 >= 0.0
      requires forall co :: co in group ==> Interior(Inp(), co.At()) && Blank(co.At())
      ensures ScanCubes(st, group) == st
    {
      if group != [] {
        var init := group[..|group| - 1];
        assert forall co :: co in init ==> co in group;
        ScanCubesBlank(st, init);
        assert group[|group| - 1] in group;
      }
    }

    /**
     * The scan over one group. On filled cells it is the scan of the
     * recurrence; on cells still at 0 nothing changes.
     */
    method ScanGroup(group: seq<Coord>, bestF: real, bestT: Coord) returns (f: real, t: Coord)
      requires Valid() && bestF >= 0.0
      requires forall co :: co in group ==> Interior(Inp(), co.At())
      requires forall p :: p in Positions(group) ==> Interior(Inp(), p)
      ensures Valid() && (f, t) == ScanCubes((bestF, bestT), group) && f >= bestF
      ensures (forall co :: co in group ==> Filled(co.At())) ==>
        (f, t.At()) == Scan(Inp(), (bestF, bestT.At()), Positions(group))
      ensures (forall co :: co in group ==> Blank(co.At())) ==> f == bestF && t == bestT
    {
      f, t := bestF, bestT;
      for m := 0 to |group|
        invariant (f, t) == ScanCubes((bestF, bestT), group[..m])
      {
        var co := group[m];
        assert co in group;
        assert group[..m + 1][..m] == group[..m];
        if F[co.x, co.y, co.z] > f {
          f := F[co.x, co.y, co.z];
          t := T[co.x, co.y, co.z].value;
        }
      }
      assert group[..|group|] == group;
      if forall co :: co in group ==> Filled(co.At()) {
        ScanCubesFilled((bestF, bestT), group);
      }
      if forall co :: co in group ==> Blank(co.At()) {
        ScanCubesBlank((bestF, bestT), group);
      }
    }

    /**
     * The inner loop of the backtrace: of the seven moves of (i, j, k), the
     * one whose predecessor is the Coord prev puts its column in front of
     * the alignment.
     */
    method PrependMove(i: int, j: int, k: int, prev: Coord, al: Alignment, ghost choice: nat) returns (res: Alignment)
      requires Interior(Inp(), Pos(i, j, k)) && choice < 7 && prev.At() == Step(choice, Pos(i, j, k))
      ensures res == Cons(ColumnOf(Inp(), choice, Pos(i, j, k)), al)
    {
      var p := Pos(i, j, k);
      res := al;
      for n := 0 to 7
        invariant res == if n > choice then Cons(ColumnOf(Inp(), choice, p), al) else al
      {
        var x, xr := if GapA(n) then i else i - 1, if GapA(n) then GAP else a[i - 1];
        var y, yr := if GapB(n) then j else j - 1, if GapB(n) then GAP else b[j - 1];
        var z, zr := if GapC(n) then k else k - 1, if GapC(n) then GAP else c[k - 1];
        MoveColumn(Inp(), n, p, xr, yr, zr);
        assert Pos(x, y, z) == Step(n, p);
        if prev.x == x && prev.y == y && prev.z == z {
          StepInjective(n, choice, p);
          res := Alignment([xr] + res.a, [yr] + res.b, [zr] + res.c);
        }
      }
    }

    /**
     * The backtrace loop of `align`: from cell start, while F is non-zero,
     * find the move whose predecessor T points to, put its column in front
     * of the result, and continue from T.
     */
    method Backtrace(start: Pos) returns (al: Alignment)
      requires Valid() && InBox(Inp(), start)
      requires OnFace(start) || FilledBelow(|a| + |b| + |c| + 1)
      ensures al == Trace(Inp(), start)
    {
      var i, j, k := start.x, start.y, start.z;
      al := Empty;
      ghost var whole := Trace(Inp(), start);
      while F[i, j, k] != 0.0
        invariant InBox(Inp(), Pos(i, j, k))
        invariant OnFace(Pos(i, j, k)) || FilledBelow(|a| + |b| + |c| + 1)
        invariant Join(Trace(Inp(), Pos(i, j, k)), al) == whole
        decreases i + j + k
      {
        assert Interior(Inp(), Pos(i, j, k));
        i, j, k, al := BackStep(i, j, k, al);
      }
      assert OnFace(Pos(i, j, k)) || Filled(Pos(i, j, k));
      assert Trace(Inp(), Pos(i, j, k)) == Empty;
      JoinEmpty(al);
    }

    /** One round of the backtrace loop: prepend the column of the move T points to and continue from T. */
    method BackStep(i: int, j: int, k: int, al: Alignment) returns (i': int, j': int, k': int, al': Alignment)
      requires Valid() && Interior(Inp(), Pos(i, j, k)) && FilledBelow(|a| + |b| + |c| + 1)
      requires F[i, j, k] != 0.0
      ensures InBox(Inp(), Pos(i', j', k')) && i' + j' + k' < i + j + k
      ensures Join(Trace(Inp(), Pos(i', j', k')), al') == Join(Trace(Inp(), Pos(i, j, k)), al)
    {
      var p := Pos(i, j, k);
      assert Filled(p);
      CellNonNegative(Inp(), p);
      TraceStepUnfold(Inp(), p);
      CellIsFirstBestCandidate(Inp(), p);
      var prev := T[i, j, k].value;
      ghost var choice := Choice(Inp(), p);
      al' := PrependMove(i, j, k, prev, al, choice);
      JoinSnocCons(Trace(Inp(), prev.At()), ColumnOf(Inp(), choice, p), al);
      i', j', k' := prev.x, prev.y, prev.z;
    }
  }

  /** The Coords `diagonalise` puts in group g: exactly the interior cells on anti-diagonal g, each as one Coord. */
  lemma GroupCoords(inp: Input, base: int, g: nat)
    requires g < |Groups(|inp.a|, |inp.b|, |inp.c|)|
    ensures var group := CoordBucket(Numbered(Cells(|inp.a|, |inp.b|, |inp.c|), base), g);
      Positions(group) == Group(|inp.a|, |inp.b|, |inp.c|, g)
      && (forall co :: co in group ==> Interior(inp, co.At()) && Sum(co.At()) == g + 3)
      && (forall p :: p in Positions(group) ==> Interior(inp, p))
      && (forall p :: Interior(inp, p) && Sum(p) == g + 3 ==> p in Positions(group))
  {
    var la, lb, lc := |inp.a|, |inp.b|, |inp.c|;
    var group := CoordBucket(Numbered(Cells(la, lb, lc), base), g);
    BucketPositions(Cells(la, lb, lc), base, g);
    GroupShape(la, lb, lc, g);
    PositionsMembers(group);
  }

  /** The cell of every Coord of cs is among Positions(cs). */
  lemma PositionsMembers(cs: seq<Coord>)
    ensures forall co :: co in cs ==> co.At() in Positions(cs)
  {
    PositionsAt(cs);
    forall co | co in cs
      ensures co.At() in Positions(cs)
    {
      var m :| 0 <= m < |cs| && cs[m] == co;
      assert Positions(cs)[m] == co.At();
    }
  }

  /** Groups 0 .. count - 1 of a list of Coords. */
  function Buckets(cs: seq<Coord>, count: nat): (gs: seq<seq<Coord>>)
    ensures |gs| == count
  {
    seq(count, g => CoordBucket(cs, g))
  }

  /** One step of the innermost loop of `diagonalise`: the new Coord goes to the end of its own group. */
  lemma AppendCoord(seen: seq<Pos>, base: int, gs: seq<seq<Coord>>, co: Coord, p: Pos, g0: int)
    requires gs == Buckets(Numbered(seen, base), |gs|)
    requires co == Coord(p.x, p.y, p.z, base + |seen|) && g0 == Sum(p) - 3 && 0 <= g0 < |gs|
    ensures var next := gs[g0 := gs[g0] + [co]];
      |next| == |gs| && next == Buckets(Numbered(seen + [p], base), |next|)
  {
    var cs := Numbered(seen, base);
    NumberedSnoc(seen, p, base);
    assert Numbered(seen + [p], base) == cs + [co];
    CoordBucketSnoc(cs, co);
    forall g | 0 <= g < |gs|
      ensures Buckets(cs + [co], |gs|)[g] == gs[g0 := gs[g0] + [co]][g]
    {
    }
  }

  /** Appending a cell to the enumeration appends its Coord. */
  lemma NumberedSnoc(s: seq<Pos>, p: Pos, base: int)
    ensures Numbered(s + [p], base) == Numbered(s, base) + [Coord(p.x, p.y, p.z, base + |s|)]
  {
    assert (s + [p])[..|s|] == s;
  }

  /** Appending a Coord to the list appends it to its own bucket only. */
  lemma CoordBucketSnoc(cs: seq<Coord>, co: Coord)
    ensures forall g ::
      CoordBucket(cs + [co], g) == CoordBucket(cs, g) + (if Sum(co.At()) == g + 3 then [co] else [])
  {
    assert (cs + [co])[..|cs|] == cs;
  }
}
