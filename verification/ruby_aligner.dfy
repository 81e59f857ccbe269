/**
 * smithwaterman.rb: the Ruby version of the three-way Smith-Waterman
 * aligner. It fills the same cube as the Java aligner, group by group,
 * but differs after the fill:
 *
 *  - the maximum of a group is taken with `each_with_index.max`, so among
 *    equal scores the LAST cell of the group wins;
 *  - the end point kept for the backtrace is T of T of the best cell, two
 *    moves back, and it is nil (a TypeError later) when the best cell's
 *    predecessor lies on a face;
 *  - the backtrace appends each column, so every strand comes out reversed.
 *
 * Cells the source leaves nil are None; the faces hold Some(0). The threads
 * of one group are run one after the other, which computes the same cube.
 */
module RubyAligner {
  import opened Outcome
  import opened Recurrence
  import opened Wavefront
  import opened Cubes
  import opened Sample

  /** The exceptions `align` can raise. */
  datatype Failure =
    | ArgumentError  // `Array.new` with a negative size in `diagonalise`
    | NoMethodError  // `nil[0]`: the maximum of an empty group
    | TypeError      // `@F[nil]`: the end point is nil

  /**
   * `fs.each_with_index.max`: pairs [value, index] compare by value, then
   * by index, so the result is the largest value at the last index holding it.
   */
  function LastMax(s: seq<real>): (r: (real, nat))
    requires s != []
    ensures r.1 < |s| && s[r.1] == r.0
    ensures forall m :: 0 <= m < |s| ==> s[m] <= r.0
    ensures forall m :: r.1 < m < |s| ==> s[m] < r.0
  {
    if |s| == 1 then (s[0], 0)
    else
      var prev := LastMax(s[..|s| - 1]);
      if s[|s| - 1] >= prev.0 then (s[|s| - 1], |s| - 1) else prev
  }

  /** Groups 0 .. count - 1 of a run of cells. */
  function PosBuckets(s: seq<Pos>, count: nat): (gs: seq<seq<Pos>>)
    ensures |gs| == count
  {
    seq(count, g => Bucket(s, g))
  }

  /**
   * `fs.each_with_index.max` over group g, paired with its cell: none for
   * an empty group (where `maxF[0]` raises NoMethodError).
   */
  function GroupBest(inp: Input, g: nat): (r: Option<(real, Pos)>)
    ensures r.None? <==> Group(|inp.a|, |inp.b|, |inp.c|, g) == []
    ensures r.Some? ==> Interior(inp, r.value.1)
  {
    var grp := Group(|inp.a|, |inp.b|, |inp.c|, g);
    GroupShape(|inp.a|, |inp.b|, |inp.c|, g);
    if grp == [] then None
    else
      var mx := LastMax(Scores(inp, grp));
      assert grp[mx.1] in grp;
      Some((mx.0, grp[mx.1]))
  }

  /**
   * The group loop of `align` over the first n groups, on the recurrence's
   * scores: the best score so far and the cell holding it. A group replaces
   * the running best only when its maximum is strictly greater.
   */
  function RubyScan(inp: Input, n: nat): (r: (real, Option<Pos>))
    ensures r.1.Some? ==> Interior(inp, r.1.value)
  {
    if n == 0 then (0.0, None)
    else
      Absorb(RubyScan(inp, n - 1), GroupBest(inp, n - 1))
  }

  /** `if bestF < maxF[0]`: a group's maximum replaces the running best only when strictly greater. */
  function Absorb(best: (real, Option<Pos>), group: Option<(real, Pos)>): (real, Option<Pos>)
  {
    match group
    case None => best
    case Some(mx) => if best.0 < mx.0 then (mx.0, Some(mx.1)) else best
  }

  /** The best cell of the whole cube as `align` finds it. */
  function RubyBestCell(inp: Input): (r: Option<Pos>)
    ensures r.Some? ==> Interior(inp, r.value)
  {
    RubyScan(inp, |Groups(|inp.a|, |inp.b|, |inp.c|)|).1
  }

  /**
   * The end point `align` keeps for a best cell p: `@T[ts[g]...]`, that is
   * T at T of p. It is nil when T of p is on a face (faces never get a T),
   * and [0, 0, 0] when no cell scores above 0.
   */
  function EndpointOf(inp: Input, best: Option<Pos>): (r: Option<Pos>)
    requires best.Some? ==> Interior(inp, best.value)
    ensures r.Some? ==> InBox(inp, r.value)
  {
    match best
    case None => Some(Origin)
    case Some(p) =>
      var q := Pred(inp, p);
      if OnFace(q) then None else Some(Pred(inp, q))
  }

  /** A strand read backwards. */
  function Reverse(s: string): (r: string)
    ensures |r| == |s|
  {
    if s == [] then [] else [s[|s| - 1]] + Reverse(s[..|s| - 1])
  }

  /** Every strand read backwards: what appending the columns during the backtrace builds. */
  function Reversed(al: Alignment): Alignment
  {
    Alignment(Reverse(al.a), Reverse(al.b), Reverse(al.c))
  }

  /**
   * What `align` returns or raises: ArgumentError when fewer than two
   * groups' worth of residues make the group count negative,
   * NoMethodError when there are groups but one sequence is empty (so the
   * first group is), TypeError when the end point is nil, and otherwise the
   * strands read back from the end point, reversed.
   */
  function RubyResult(inp: Input): (r: Result<Alignment, Failure>)
    ensures r == Err(ArgumentError) <==> |inp.a| + |inp.b| + |inp.c| < 2
    ensures r == Err(NoMethodError) <==>
              |inp.a| + |inp.b| + |inp.c| > 2 && (|inp.a| == 0 || |inp.b| == 0 || |inp.c| == 0)
    ensures r.Ok? ==> |r.value.a| == |r.value.b| == |r.value.c|
  {
    var la, lb, lc := |inp.a|, |inp.b|, |inp.c|;
    if NumGroups(la, lb, lc) < 0 then Err(ArgumentError)
    else if NumGroups(la, lb, lc) > 0 && (la == 0 || lb == 0 || lc == 0) then Err(NoMethodError)
    else
      match EndpointOf(inp, RubyBestCell(inp))
      case None => Err(TypeError)
      case Some(q) => Ok(Reversed(Trace(inp, q)))
  }

  // ---------------------------------------------------------------------
  // Properties
  // ---------------------------------------------------------------------

  /** A group asked for is empty exactly when one of the sequences is. */
  lemma GroupEmptyIff(la: nat, lb: nat, lc: nat, g: nat)
    requires g < NumGroups(la, lb, lc)
    ensures Group(la, lb, lc, g) == [] <==> la == 0 || lb == 0 || lc == 0
  {
    if la >= 1 && lb >= 1 && lc >= 1 {
      GroupShape(la, lb, lc, g);
      var x := if g + 1 < la then g + 1 else la;
      var rest := g + 3 - x;
      var y := if rest - 1 < lb then rest - 1 else lb;
      var p := Pos(x, y, rest - y);
      assert Inside(la, lb, lc, p) && Sum(p) == g + 3;
      assert p in Group(la, lb, lc, g);
    } else {
      EmptyAxisEmptyGroups(la, lb, lc, g);
    }
  }

  /** Every interior cell lies in one of the groups. */
  lemma InteriorInSomeGroup(inp: Input, q: Pos)
    requires Interior(inp, q)
    ensures Sum(q) < |Groups(|inp.a|, |inp.b|, |inp.c|)| + 3
  {
  }

  /** No interior cell below anti-diagonal `level` scores above v. */
  ghost predicate Bounded(inp: Input, v: real, level: int)
  {
    forall q :: Interior(inp, q) && Sum(q) < level ==> Cell(inp, q) <= v
  }

  /** Every interior cell below anti-diagonal `level` scores strictly below v. */
  ghost predicate StrictlyBelow(inp: Input, v: real, level: int)
  {
    forall q :: Interior(inp, q) && Sum(q) < level ==> Cell(inp, q) < v
  }

  /** No cell of anti-diagonal `level` scores above v. */
  ghost predicate LevelBounded(inp: Input, v: real, level: int)
  {
    forall q :: Interior(inp, q) && Sum(q) == level ==> Cell(inp, q) <= v
  }

  /** Every later cell of p's own anti-diagonal scores strictly below p. */
  ghost predicate LastOfLevel(inp: Input, p: Pos)
    requires Interior(inp, p)
  {
    forall q :: Interior(inp, q) && Sum(q) == Sum(p) && Before(p, q) ==> Cell(inp, q) < Cell(inp, p)
  }

  /**
   * The maximum `each_with_index.max` takes of a group: a cell of the
   * group's anti-diagonal that none of it beats and every later cell of it
   * scores strictly below. An empty group leaves no interior cell on its
   * anti-diagonal.
   */
  lemma GroupMaximum(inp: Input, g: nat)
    ensures GroupFound(inp, GroupBest(inp, g), g)
  {
    var grp := Group(|inp.a|, |inp.b|, |inp.c|, g);
    GroupShape(|inp.a|, |inp.b|, |inp.c|, g);
    if grp != [] {
      LevelMaximum(inp, grp, g + 3);
    }
  }

  /**
   * For the cells of one anti-diagonal in enumeration order, the last
   * maximum of their scores is held by a cell no cell of the anti-diagonal
   * exceeds and every later cell of it stays strictly below.
   */
  lemma LevelMaximum(inp: Input, s: seq<Pos>, level: int)
    requires s != [] && Ascending(s)
    requires forall p :: p in s <==> Interior(inp, p) && Sum(p) == level
    ensures Interior(inp, s[LastMax(Scores(inp, s)).1]) && Sum(s[LastMax(Scores(inp, s)).1]) == level
    ensures Cell(inp, s[LastMax(Scores(inp, s)).1]) == LastMax(Scores(inp, s)).0
    ensures LevelBounded(inp, LastMax(Scores(inp, s)).0, level)
    ensures LastOfLevel(inp, s[LastMax(Scores(inp, s)).1])
  {
    var mx := LastMax(Scores(inp, s));
    var p := s[mx.1];
    assert p in s;
    ScoresAt(inp, s);
    forall q | Interior(inp, q) && Sum(q) == level
      ensures Cell(inp, q) <= mx.0
      ensures Before(p, q) ==> Cell(inp, q) < mx.0
    {
      LastMaxBounds(inp, s, q);
    }
  }

  /**
   * In a run of cells in enumeration order, the last maximum of their
   * scores bounds the score of every cell of the run, strictly for every
   * later cell.
   */
  lemma LastMaxBounds(inp: Input, s: seq<Pos>, q: Pos)
    requires Ascending(s) && q in s && Interior(inp, q) && (forall p :: p in s ==> Interior(inp, p))
    ensures Cell(inp, q) <= LastMax(Scores(inp, s)).0
    ensures Before(s[LastMax(Scores(inp, s)).1], q) ==> Cell(inp, q) < LastMax(Scores(inp, s)).0
  {
    var m :| 0 <= m < |s| && s[m] == q;
    ScoresAt(inp, s);
    AscendingNoBackward(s);
  }

  /**
   * What a scan has found once the first n groups (the anti-diagonals below
   * n + 3) are seen: a best score no interior cell there exceeds, held by
   * its cell; every cell on an earlier anti-diagonal, and every later cell
   * of its own anti-diagonal, scores strictly less.
   */
  ghost predicate ScanFound(inp: Input, r: (real, Option<Pos>), n: int)
  {
    r.0 >= 0.0 && (r.1.None? ==> r.0 == 0.0) && Bounded(inp, r.0, n + 3)
    && (r.1.Some? ==> var p := r.1.value;
          Interior(inp, p) && Cell(inp, p) == r.0 && r.0 > 0.0 && Sum(p) < n + 3
          && StrictlyBelow(inp, r.0, Sum(p)) && LastOfLevel(inp, p))
  }

  /**
   * What `each_with_index.max` yields for group g: for an empty group, no
   * interior cell on its anti-diagonal; otherwise a cell of it that none of
   * it beats and every later cell of it scores strictly below.
   */
  ghost predicate GroupFound(inp: Input, group: Option<(real, Pos)>, g: int)
  {
    match group
    case None => forall q :: Interior(inp, q) ==> Sum(q) != g + 3
    case Some(mx) =>
      Interior(inp, mx.1) && Sum(mx.1) == g + 3 && Cell(inp, mx.1) == mx.0
      && LevelBounded(inp, mx.0, g + 3) && LastOfLevel(inp, mx.1)
  }

  /** Absorbing the maximum of group n extends what the scan has found by one group. */
  lemma AbsorbFinds(inp: Input, best: (real, Option<Pos>), group: Option<(real, Pos)>, n: int)
    ensures ScanFound(inp, best, n) && GroupFound(inp, group, n) ==> ScanFound(inp, Absorb(best, group), n + 1)
  {
    if ScanFound(inp, best, n) && GroupFound(inp, group, n) {
      match group
      case None =>
        BoundedStep(inp, best.0, best.0, n + 3);
      case Some(mx) =>
        BoundedStep(inp, best.0, mx.0, n + 3);
    }
  }

  /** The scan over the first n groups has found what ScanFound says. */
  lemma {:induction false} RubyScanFinds(inp: Input, n: nat)
    ensures ScanFound(inp, RubyScan(inp, n), n)
  {
    if n > 0 {
      var prev := RubyScan(inp, n - 1);
      var group := GroupBest(inp, n - 1);
      RubyScanFinds(inp, n - 1);
      GroupMaximum(inp, n - 1);
      AbsorbFinds(inp, prev, group, n - 1);
      assert RubyScan(inp, n) == Absorb(prev, group);
    }
  }

  /**
   * One more anti-diagonal: a bound v below `level` and a bound w on
   * `level` give the larger of the two below level + 1, and when w is the
   * larger, everything below `level` is strictly below it.
   */
  lemma BoundedStep(inp: Input, v: real, w: real, level: int)
    requires Bounded(inp, v, level) && LevelBounded(inp, w, level)
    ensures Bounded(inp, if v < w then w else v, level + 1)
    ensures v < w ==> StrictlyBelow(inp, w, level)
  {
  }

  /**
   * The best cell of `align`: none exactly when every score is 0; otherwise
   * a positive cell no other cell beats, strictly better than every cell of
   * an earlier anti-diagonal and than every later cell of its own (ties go
   * to the last cell of the first group reaching the maximum).
   */
  lemma RubyBestCellIsLastMaximum(inp: Input)
    ensures RubyBestCell(inp).None? <==> forall q :: Interior(inp, q) ==> Cell(inp, q) == 0.0
    ensures RubyBestCell(inp).Some? ==> var p := RubyBestCell(inp).value;
      Cell(inp, p) > 0.0
      && (forall q :: Interior(inp, q) ==> Cell(inp, q) <= Cell(inp, p))
      && (forall q :: Interior(inp, q) && Sum(q) < Sum(p) ==> Cell(inp, q) < Cell(inp, p))
      && (forall q :: Interior(inp, q) && Sum(q) == Sum(p) && Before(p, q) ==> Cell(inp, q) < Cell(inp, p))
  {
    var n := |Groups(|inp.a|, |inp.b|, |inp.c|)|;
    RubyScanFinds(inp, n);
    forall q | Interior(inp, q)
      ensures Sum(q) < n + 3 && Cell(inp, q) >= 0.0
    {
      InteriorInSomeGroup(inp, q);
      CellNonNegative(inp, q);
    }
  }

  /**
   * The end point is two moves back from the best cell p: `align` raises
   * TypeError exactly when T of p lies on a face; otherwise it returns the
   * strands read back from T of T of p, reversed, which leave out the
   * columns of p and of its predecessor.
   */
  lemma RubyDropsTwoColumns(inp: Input)
    requires RubyBestCell(inp).Some?
    ensures var p := RubyBestCell(inp).value; var q := Pred(inp, p);
      InBox(inp, q)
      && (RubyResult(inp) == Err(TypeError) <==> OnFace(q))
      && (!OnFace(q) ==> RubyResult(inp) == Ok(Reversed(Trace(inp, Pred(inp, q)))))
      && (!OnFace(q) && Cell(inp, q) > 0.0 ==>
            Trace(inp, p) == Snoc(Snoc(Trace(inp, Pred(inp, q)), ColumnOf(inp, Choice(inp, q), q)),
                                  ColumnOf(inp, Choice(inp, p), p)))
  {
    var p := RubyBestCell(inp).value;
    RubyBestCellIsLastMaximum(inp);
    TraceStepUnfold(inp, p);
    var q := Pred(inp, p);
    if !OnFace(q) && Cell(inp, q) > 0.0 {
      TraceStepUnfold(inp, q);
    }
  }

  /** Reading a strand backwards twice gives it back. */
  lemma {:induction false} ReverseReverse(s: string)
    ensures Reverse(Reverse(s)) == s
  {
    if s != [] {
      var init := s[..|s| - 1];
      ReverseReverse(init);
      ReverseAppend(Reverse(init), s[|s| - 1]);
      assert s == init + [s[|s| - 1]];
    }
  }

  /** Reversing a strand with one character in front puts the character last. */
  lemma {:induction false} ReverseAppend(s: string, ch: char)
    ensures Reverse([ch] + s) == Reverse(s) + [ch]
  {
    var t := [ch] + s;
    if s != [] {
      ReverseAppend(s[..|s| - 1], ch);
      assert t[..|t| - 1] == [ch] + s[..|s| - 1];
    } else {
      assert t[..|t| - 1] == [];
    }
  }

  /** A column appended to the alignment comes first once the strands are reversed. */
  lemma ReversedSnoc(al: Alignment, c: Column)
    ensures Reversed(Snoc(al, c)) == Cons(c, Reversed(al))
  {
    assert (al.a + [c.a])[..|al.a|] == al.a;
    assert (al.b + [c.b])[..|al.b|] == al.b;
    assert (al.c + [c.c])[..|al.c|] == al.c;
  }

  /**
   * One step of the Ruby backtrace: appending the column of p's move to
   * what is built so far, then reading back from the predecessor, gives
   * what reading back from p gives.
   */
  lemma ReversedTraceStep(inp: Input, p: Pos, al: Alignment)
    requires Interior(inp, p) && Cell(inp, p) > 0.0
    ensures 0 <= Choice(inp, p) < 7
    ensures InBox(inp, Step(Choice(inp, p), p))
    ensures Join(Snoc(al, ColumnOf(inp, Choice(inp, p), p)), Reversed(Trace(inp, Step(Choice(inp, p), p))))
            == Join(al, Reversed(Trace(inp, p)))
  {
    TraceStepUnfold(inp, p);
    var n := Choice(inp, p);
    ReversedSnoc(Trace(inp, Step(n, p)), ColumnOf(inp, n, p));
    JoinSnocCons(al, ColumnOf(inp, n, p), Reversed(Trace(inp, Step(n, p))));
  }

  /** A column put in front adds its score. */
  lemma {:induction false} ConsScore(pair: (char, char) -> real, c: Column, al: Alignment)
    requires |al.a| == |al.b| == |al.c|
    ensures var t := Cons(c, al);
      |t.a| == |t.b| == |t.c|
      && AlignmentScore(pair, t) == ColumnScore(pair, c) + AlignmentScore(pair, al)
    decreases |al.a|
  {
    var t := Cons(c, al);
    if |al.a| > 0 {
      var n := |al.a| - 1;
      var init := Alignment(al.a[..n], al.b[..n], al.c[..n]);
      ConsScore(pair, c, init);
      assert Alignment(t.a[..n + 1], t.b[..n + 1], t.c[..n + 1]) == Cons(c, init);
    } else {
      assert Alignment(t.a[..0], t.b[..0], t.c[..0]) == Empty;
    }
  }

  /** The reversed output of `align` reads back as the alignment. */
  lemma ReversedInvolution(al: Alignment)
    ensures Reversed(Reversed(al)) == al
  {
    ReverseReverse(al.a);
    ReverseReverse(al.b);
    ReverseReverse(al.c);
  }

  /** The reversed output of `align` has the same columns, so the same score. */
  lemma {:induction false} ReversedKeepsScore(pair: (char, char) -> real, al: Alignment)
    requires |al.a| == |al.b| == |al.c|
    ensures AlignmentScore(pair, Reversed(al)) == AlignmentScore(pair, al)
    decreases |al.a|
  {
    if |al.a| > 0 {
      var n := |al.a| - 1;
      var init := Alignment(al.a[..n], al.b[..n], al.c[..n]);
      var c := Column(al.a[n], al.b[n], al.c[n]);
      assert al == Snoc(init, c);
      ReversedKeepsScore(pair, init);
      ReversedSnoc(init, c);
      ConsScore(pair, c, Reversed(init));
    }
  }

  /**
   * Three copies of "A": the best cell (1, 1, 1) is reached from the origin,
   * a face cell with no T, so `align` raises TypeError where the evidently
   * intended result is "A" three times.
   */
  lemma RubySingleResidueExample()
    ensures RubyBestCell(SingleResidue()) == Some(Pos(1, 1, 1))
    ensures RubyResult(SingleResidue()) == Err(TypeError)
    ensures RubyIntendedAlignment(SingleResidue()) == Alignment("A", "A", "A")
  {
    RubySingleResidueBest();
    SingleResidueTrace();
    assert NumGroups(1, 1, 1) == 1;
  }

  /** In the example, the only interior cell (1, 1, 1) scores 2, so it is the best cell. */
  lemma RubySingleResidueBest()
    ensures RubyBestCell(SingleResidue()) == Some(Pos(1, 1, 1))
  {
    SingleResidueCell();
    RubyUnitBestCell(SingleResidue());
  }

  /** With one residue per sequence, a positive score at the only interior cell makes it the best cell. */
  lemma RubyUnitBestCell(inp: Input)
    requires |inp.a| == 1 && |inp.b| == 1 && |inp.c| == 1
    requires Cell(inp, Pos(1, 1, 1)) > 0.0
    ensures RubyBestCell(inp) == Some(Pos(1, 1, 1))
  {
    RubyBestCellExists(inp, Pos(1, 1, 1));
    var p := RubyBestCell(inp).value;
    assert Interior(inp, p);
  }

  /** A cell scoring above 0 means there is a best cell. */
  lemma RubyBestCellExists(inp: Input, q: Pos)
    requires Interior(inp, q) && Cell(inp, q) > 0.0
    ensures RubyBestCell(inp).Some?
  {
    RubyBestCellIsLastMaximum(inp);
  }

  /** The alignment `align` was evidently meant to return: read forwards from its best cell itself. */
  function RubyIntendedAlignment(inp: Input): Alignment
  {
    match RubyBestCell(inp)
    case None => Empty
    case Some(p) => Trace(inp, p)
  }

  /**
   * The intended alignment is optimal: its columns score exactly the best
   * score, which no cell exceeds, and each strand without its gaps is a
   * contiguous piece of its input sequence.
   */
  lemma RubyIntendedAlignmentIsOptimal(inp: Input)
    ensures var al := RubyIntendedAlignment(inp);
      |al.a| == |al.b| == |al.c|
      && (forall q :: Interior(inp, q) ==> Cell(inp, q) <= AlignmentScore(inp.pair, al))
      && (RubyBestCell(inp).Some? ==> AlignmentScore(inp.pair, al) == Cell(inp, RubyBestCell(inp).value))
    ensures RubyBestCell(inp).Some? && GAP !in inp.a && GAP !in inp.b && GAP !in inp.c ==>
      var al := RubyIntendedAlignment(inp); var p := RubyBestCell(inp).value; var e := TraceStart(inp, p);
      Ungap(al.a) == inp.a[e.x..p.x] && Ungap(al.b) == inp.b[e.y..p.y] && Ungap(al.c) == inp.c[e.z..p.z]
  {
    RubyBestCellIsLastMaximum(inp);
    match RubyBestCell(inp)
    case None =>
    case Some(p) =>
      TraceScoresCell(inp, p);
      if GAP !in inp.a && GAP !in inp.b && GAP !in inp.c {
        TraceCoversSubstrings(inp, p);
      }
  }

  /** The T entries of a run of interior cells, in order. */
  function Preds(inp: Input, s: seq<Pos>): (r: seq<Option<Pos>>)
    requires forall p :: p in s ==> Interior(inp, p)
    ensures |r| == |s|
  {
    if s == [] then []
    else
      var p := s[|s| - 1];
      assert p in s;
      assert forall q :: q in s[..|s| - 1] ==> q in s;
      Preds(inp, s[..|s| - 1]) + [Some(Pred(inp, p))]
  }

  /** Preds is read element by element. */
  lemma {:induction false} PredsAt(inp: Input, s: seq<Pos>)
    requires forall p :: p in s ==> Interior(inp, p)
    ensures forall m :: 0 <= m < |s| ==> s[m] in s && Preds(inp, s)[m] == Some(Pred(inp, s[m]))
  {
    if s != [] {
      var init := s[..|s| - 1];
      assert forall q :: q in init ==> q in s;
      PredsAt(inp, init);
      forall m | 0 <= m < |s|
        ensures Preds(inp, s)[m] == Some(Pred(inp, s[m]))
      {
        if m < |init| {
          assert s[m] == init[m];
        }
      }
    }
  }

  /** One push of `diagonalise`: the cell goes to the end of its own group. */
  lemma PushCell(seen: seq<Pos>, gs: seq<seq<Pos>>, p: Pos, g0: int)
    requires gs == PosBuckets(seen, |gs|)
    requires g0 == Sum(p) - 3 && 0 <= g0 < |gs|
    ensures gs[g0 := gs[g0] + [p]] == PosBuckets(seen + [p], |gs|)
  {
    var pushed, next := gs[g0 := gs[g0] + [p]], PosBuckets(seen + [p], |gs|);
    assert (seen + [p])[..|seen|] == seen;
    forall g | 0 <= g < |gs|
      ensures pushed[g] == next[g]
    {
      assert next[g] == Bucket(seen, g) + (if Sum(p) == g + 3 then [p] else []);
    }
  }

  // ---------------------------------------------------------------------
  // The aligner
  // ---------------------------------------------------------------------

  class SmithWaterman {
    const a: string
    const b: string
    const c: string
    /** The Blosum pair score. */
    const pair: (char, char) -> real
    /** The score cube: nil (None) until computed, 0 on the faces. */
    const F: array3<Option<real>>
    /** The backtrace cube: nil (None), or the chosen predecessor [x, y, z]. */
    const T: array3<Option<Pos>>

    function Inp(): Input
    {
      Input(a, b, c, pair)
    }

    /** F and T have one plane per prefix length of each sequence. */
    predicate Shaped()
    {
      F.Length0 == |a| + 1 && F.Length1 == |b| + 1 && F.Length2 == |c| + 1
      && T.Length0 == |a| + 1 && T.Length1 == |b| + 1 && T.Length2 == |c| + 1
    }

    /** Cell p has not been computed: F and T are nil. */
    ghost predicate Blank(p: Pos)
      requires Shaped() && InBox(Inp(), p)
      reads F, T
    {
      F[p.x, p.y, p.z] == None && T[p.x, p.y, p.z] == None
    }

    /** Cell p holds its score and its predecessor. */
    ghost predicate Filled(p: Pos)
      requires Shaped() && Interior(Inp(), p)
      reads F, T
    {
      F[p.x, p.y, p.z] == Some(Cell(Inp(), p)) && T[p.x, p.y, p.z] == Some(Pred(Inp(), p))
    }

    /** The faces hold F = 0 and no T; every interior cell is nil or holds the recurrence. */
    ghost predicate Valid()
      reads F, T
    {
      Shaped()
      && (forall p :: InBox(Inp(), p) && OnFace(p) ==> F[p.x, p.y, p.z] == Some(0.0) && T[p.x, p.y, p.z] == None)
      && (forall p :: Interior(Inp(), p) ==> Blank(p) || Filled(p))
    }

    /** Every interior cell below anti-diagonal level `level` (Sum < level) holds the recurrence. */
    ghost predicate FilledBelow(level: int)
      requires Shaped()
      reads F, T
    {
      forall p :: Interior(Inp(), p) && Sum(p) < level ==> Filled(p)
    }

    /** `SmithWaterman.new(seqA, seqB, seqC)`: two nil cubes, then F set to 0 on the three faces. */
    constructor (a: string, b: string, c: string, pair: (char, char) -> real)
      ensures this.a == a && this.b == b && this.c == c && this.pair == pair
      ensures fresh(F) && fresh(T)
      ensures Valid()
      ensures forall p :: Interior(Inp(), p) ==> Blank(p)
    {
      this.a := a;
      this.b := b;
      this.c := c;
      this.pair := pair;
      var alen, blen, clen := |a| + 1, |b| + 1, |c| + 1;
      F := new Option<real>[alen, blen, clen]((i, j, k) => None);
      T := new Option<Pos>[alen, blen, clen]((i, j, k) => None);
      new;
      ZeroPlaneA(F, Some(0.0));
      ZeroPlaneB(F, Some(0.0));
      ZeroPlaneC(F, Some(0.0));
      assert forall x, y, z :: 0 <= x < alen && 0 <= y < blen && 0 <= z < clen ==>
        F[x, y, z] == if x == 0 || y == 0 || z == 0 then Some(0.0) else None;
      assert forall p :: Interior(Inp(), p) ==> Blank(p);
    }

    /**
     * `diagonalise`: NumGroups empty groups (ArgumentError when that is
     * negative), then every interior cell, i-outer / j-middle / k-inner,
     * pushed onto group i + j + k - 3.
     */
    method Diagonalise(aLength: nat, bLength: nat, cLength: nat) returns (r: Result<seq<seq<Pos>>, Failure>)
      ensures r == if NumGroups(aLength, bLength, cLength) < 0 then Err(ArgumentError)
                   else Ok(Groups(aLength, bLength, cLength))
    {
      var count := aLength + bLength + cLength - 2;
      if count < 0 {
        return Err(ArgumentError);
      }
      var groups: seq<seq<Pos>> := seq(count, _ => []);
      ghost var seen: seq<Pos> := [];
      for i := 1 to aLength + 1
        invariant seen == Cells(i - 1, bLength, cLength)
        invariant groups == PosBuckets(seen, count)
      {
        groups := DiagonalisePlane(i, bLength, cLength, groups, seen);
        seen := seen + Plane(i, bLength, cLength);
      }
      assert groups == Groups(aLength, bLength, cLength);
      r := Ok(groups);
    }

    /** The two inner loops of `diagonalise` for one i. */
    method DiagonalisePlane(i: int, bLength: nat, cLength: nat, groups0: seq<seq<Pos>>, ghost seen: seq<Pos>)
      returns (groups: seq<seq<Pos>>)
      requires i >= 1 && i + bLength + cLength - 3 < |groups0|
      requires groups0 == PosBuckets(seen, |groups0|)
      ensures groups == PosBuckets(seen + Plane(i, bLength, cLength), |groups0|)
    {
      groups := groups0;
      ghost var cur := seen;
      for j := 1 to bLength + 1
        invariant cur == seen + Plane(i, j - 1, cLength)
        invariant groups == PosBuckets(cur, |groups0|)
      {
        groups := DiagonaliseLine(i, j, cLength, groups, cur);
        assert seen + Plane(i, j, cLength) == cur + Line(i, j, cLength);
        cur := cur + Line(i, j, cLength);
      }
    }

    /** The innermost loop of `diagonalise` for one i and j. */
    method DiagonaliseLine(i: int, j: int, cLength: nat, groups0: seq<seq<Pos>>, ghost seen: seq<Pos>)
      returns (groups: seq<seq<Pos>>)
      requires i >= 1 && j >= 1 && i + j + cLength - 3 < |groups0|
      requires groups0 == PosBuckets(seen, |groups0|)
      ensures groups == PosBuckets(seen + Line(i, j, cLength), |groups0|)
    {
      groups := groups0;
      ghost var cur := seen;
      for k := 1 to cLength + 1
        invariant cur == seen + Line(i, j, k - 1)
        invariant groups == PosBuckets(cur, |groups0|)
      {
        PushCell(cur, groups, Pos(i, j, k), i + j + k - 3);
        groups := groups[i + j + k - 3 := groups[i + j + k - 3] + [Pos(i, j, k)]];
        assert seen + Line(i, j, k) == cur + [Pos(i, j, k)];
        cur := cur + [Pos(i, j, k)];
      }
    }

    /** F at q has been computed (or is a face). */
    ghost predicate Known(q: Pos)
      requires Shaped() && InBox(Inp(), q)
      reads F
    {
      F[q.x, q.y, q.z].Some?
    }

    /** Every predecessor of p has its F. */
    ghost predicate Ready(p: Pos)
      requires Shaped() && Interior(Inp(), p)
      reads F
    {
      forall n :: 0 <= n < 7 ==> Known(Step(n, p))
    }

    /** The score of arriving at p by move n, read from F. */
    function MoveScore(n: nat, p: Pos): real
      requires n < 7 && Shaped() && Interior(Inp(), p) && Known(Step(n, p))
      reads F
    {
      F[Step(n, p).x, Step(n, p).y, Step(n, p).z].value + ColumnScore(pair, ColumnOf(Inp(), n, p))
    }

    /** The scores of the first n moves of cell p, in move order. */
    function MoveScores(p: Pos, n: nat): (vs: seq<real>)
      requires n <= 7 && Shaped() && Interior(Inp(), p) && Ready(p)
      reads F
      ensures |vs| == n && forall m :: 0 <= m < n ==> vs[m] == MoveScore(m, p)
    {
      if n == 0 then [] else MoveScores(p, n - 1) + [MoveScore(n - 1, p)]
    }

    /** One move of `maxScore`: its predecessor and F there plus `score` of the move's column. */
    method Move(n: nat, i: int, j: int, k: int) returns (x: int, y: int, z: int, sc: real)
      requires n < 7 && Shaped() && Interior(Inp(), Pos(i, j, k)) && Ready(Pos(i, j, k))
      ensures Pos(x, y, z) == Step(n, Pos(i, j, k))
      ensures sc == MoveScore(n, Pos(i, j, k))
    {
      var ai, bj, ck;
      x, ai := if GapA(n) then i else i - 1, if GapA(n) then GAP else a[i - 1];
      y, bj := if GapB(n) then j else j - 1, if GapB(n) then GAP else b[j - 1];
      z, ck := if GapC(n) then k else k - 1, if GapC(n) then GAP else c[k - 1];
      MoveColumn(Inp(), n, Pos(i, j, k), ai, bj, ck);
      assert Known(Step(n, Pos(i, j, k)));
      sc := F[x, y, z].value + Score3(pair, ai, bj, ck);
    }

    /**
     * `maxScore(i, j, k)`: the seven moves in order, keeping the first
     * strictly greater score starting from 0 and its predecessor, [0, 0, 0]
     * when none exceeds 0.
     */
    method MaxScore(i: int, j: int, k: int) returns (r: (real, Pos))
      requires Shaped() && Interior(Inp(), Pos(i, j, k)) && Ready(Pos(i, j, k))
      ensures r.0 == Pick(MoveScores(Pos(i, j, k), 7)).0
      ensures r.1 == MoveTarget(Pick(MoveScores(Pos(i, j, k), 7)).1, Pos(i, j, k))
    {
      var p := Pos(i, j, k);
      var maxF := 0.0;
      var maxT := Origin;
      ghost var vals: seq<real> := [];
      ghost var chosen := -1;
      for n := 0 to 7
        invariant vals == MoveScores(p, n)
        invariant (maxF, chosen) == Pick(vals)
        invariant maxT == MoveTarget(chosen, p)
      {
        var x, y, z, sc := Move(n, i, j, k);
        PickSnoc(vals, sc);
        vals := vals + [sc];
        if sc > maxF {
          maxF := sc;
          maxT := Pos(x, y, z);
          chosen := n;
        }
      }
      r := (maxF, maxT);
    }

    /** When F holds the recurrence at every predecessor of p, `maxScore` gives F and T of p. */
    lemma MoveScoresPick(p: Pos)
      requires Shaped() && Interior(Inp(), p) && Ready(p)
      requires forall n :: 0 <= n < 7 ==> F[Step(n, p).x, Step(n, p).y, Step(n, p).z] == Some(Cell(Inp(), Step(n, p)))
      ensures Pick(MoveScores(p, 7)).0 == Cell(Inp(), p)
      ensures MoveTarget(Pick(MoveScores(p, 7)).1, p) == Pred(Inp(), p)
    {
      PickOfCandidates(Inp(), p, MoveScores(p, 7));
    }

    /** Once every cell before p's anti-diagonal is filled, p's predecessors hold the recurrence. */
    lemma PredecessorsReady(p: Pos)
      requires Valid() && Interior(Inp(), p) && FilledBelow(Sum(p))
      ensures Ready(p)
      ensures forall n :: 0 <= n < 7 ==> F[Step(n, p).x, Step(n, p).y, Step(n, p).z] == Some(Cell(Inp(), Step(n, p)))
    {
      forall n | 0 <= n < 7
        ensures F[Step(n, p).x, Step(n, p).y, Step(n, p).z] == Some(Cell(Inp(), Step(n, p)))
      {
        var q := Step(n, p);
        StepInBox(Inp(), n, p);
        if !OnFace(q) {
          assert Interior(Inp(), q) && Sum(q) < Sum(p);
        }
      }
    }

    /**
     * The body of one thread: `@F[i][j][k], @T[i][j][k] = maxScore(i,j,k)`,
     * then F and T of the cell read back for `fs` and `ts`.
     */
    method RunCell(p: Pos) returns (f: real, t: Option<Pos>)
      requires Valid() && Interior(Inp(), p) && FilledBelow(Sum(p))
      modifies F, T
      ensures Valid() && Filled(p)
      ensures forall q :: Interior(Inp(), q) && old(Filled(q)) ==> Filled(q)
      ensures f == Cell(Inp(), p) && t == Some(Pred(Inp(), p))
    {
      var res := MaxScore(p.x, p.y, p.z);
      PredecessorsReady(p);
      MoveScoresPick(p);
      Store(p, res.0, res.1);
      f := F[p.x, p.y, p.z].value;
      t := T[p.x, p.y, p.z];
    }

    /** Writing F and T of one interior cell with its recurrence values. */
    method Store(p: Pos, v: real, pred: Pos)
      requires Valid() && Interior(Inp(), p)
      requires v == Cell(Inp(), p) && pred == Pred(Inp(), p)
      modifies F, T
      ensures Valid() && Filled(p)
      ensures F[p.x, p.y, p.z] == Some(v) && T[p.x, p.y, p.z] == Some(pred)
      ensures forall q :: Interior(Inp(), q) && old(Filled(q)) ==> Filled(q)
    {
      F[p.x, p.y, p.z] := Some(v);
      T[p.x, p.y, p.z] := Some(pred);
    }

    /**
     * The threads of one group, one after the other: every cell of the
     * group gets its F and T, and `fs` and `ts` hold them in group order.
     */
    method FillGroup(group: seq<Pos>, ghost level: int) returns (fs: seq<real>, ts: seq<Option<Pos>>)
      requires Valid()
      requires forall p :: p in group ==> Interior(Inp(), p) && Sum(p) == level
      requires forall p :: Interior(Inp(), p) && Sum(p) == level ==> p in group
      requires FilledBelow(level)
      modifies F, T
      ensures Valid() && FilledBelow(level + 1)
      ensures fs == Scores(Inp(), group) && ts == Preds(Inp(), group)
    {
      fs, ts := [], [];
      for m := 0 to |group|
        invariant Valid() && FilledBelow(level)
        invariant forall p :: p in group[..m] ==> p in group
        invariant FilledAt(group[..m])
        invariant fs == Scores(Inp(), group[..m]) && ts == Preds(Inp(), group[..m])
      {
        var p := group[m];
        assert p in group;
        var f, t := RunCell(p);
        assert group[..m + 1] == group[..m] + [p];
        assert group[..m + 1][..m] == group[..m];
        fs, ts := fs + [f], ts + [t];
      }
      assert group[..|group|] == group;
      LevelFilled(group, level);
    }

    /** Once a whole anti-diagonal is filled on top of those below it, everything below the next one is. */
    lemma LevelFilled(group: seq<Pos>, level: int)
      requires Shaped() && FilledBelow(level) && FilledAt(group)
      requires forall p :: Interior(Inp(), p) && Sum(p) == level ==> p in group
      ensures FilledBelow(level + 1)
    {
    }

    /** Every cell of s is interior and holds the recurrence. */
    ghost predicate FilledAt(s: seq<Pos>)
      reads F, T
    {
      Shaped() && forall q :: q in s ==> Interior(Inp(), q) && Filled(q)
    }

    /**
     * One pass of the group loop of `align`: fill the group, take its
     * maximum with `each_with_index.max` (NoMethodError on an empty group)
     * and, when it beats the running best, keep T at T of its cell.
     */
    method ProcessGroup(group: seq<Pos>, g: nat, bestF: real, bestT: Option<Pos>)
      returns (r: Result<(real, Option<Pos>), Failure>)
      requires Valid() && g < |Groups(|a|, |b|, |c|)| && group == Group(|a|, |b|, |c|, g)
      requires FilledBelow(g + 3)
      requires bestF == RubyScan(Inp(), g).0 && bestT == EndpointOf(Inp(), RubyScan(Inp(), g).1)
      modifies F, T
      ensures Valid() && FilledBelow(g + 4)
      ensures r == if group == [] then Err(NoMethodError)
                   else Ok((RubyScan(Inp(), g + 1).0, EndpointOf(Inp(), RubyScan(Inp(), g + 1).1)))
    {
      GroupShape(|a|, |b|, |c|, g);
      var fs, ts := FillGroup(group, g + 3);
      if |fs| == 0 {
        return Err(NoMethodError);
      }
      var f, t := KeepBest(group, g, fs, ts, bestF, bestT);
      r := Ok((f, t));
    }

    /**
     * The tail of one pass of the group loop: `fs.each_with_index.max`, and
     * when it beats the running best, its score and T at its cell's T.
     */
    method KeepBest(group: seq<Pos>, g: nat, fs: seq<real>, ts: seq<Option<Pos>>, bestF: real, bestT: Option<Pos>)
      returns (f: real, t: Option<Pos>)
      requires Valid() && group == Group(|a|, |b|, |c|, g) && group != [] && FilledBelow(g + 4)
      requires forall p :: p in group ==> Interior(Inp(), p) && Sum(p) == g + 3
      requires fs == Scores(Inp(), group) && ts == Preds(Inp(), group)
      requires bestF == RubyScan(Inp(), g).0 && bestT == EndpointOf(Inp(), RubyScan(Inp(), g).1)
      ensures f == RubyScan(Inp(), g + 1).0 && t == EndpointOf(Inp(), RubyScan(Inp(), g + 1).1)
    {
      ghost var before, next := RubyScan(Inp(), g), RubyScan(Inp(), g + 1);
      assert next == Absorb(before, GroupBest(Inp(), g));
      ScoresAt(Inp(), group);
      PredsAt(Inp(), group);
      var maxF := LastMax(fs);
      assert GroupBest(Inp(), g) == Some((maxF.0, group[maxF.1]));
      f, t := bestF, bestT;
      if bestF < maxF.0 {
        f := maxF.0;
        assert group[maxF.1] in group;
        t := EndpointAt(ts[maxF.1].value, group[maxF.1]);
        assert next == (maxF.0, Some(group[maxF.1]));
      } else {
        assert next == before;
      }
    }

    /** `@T[ts[g][0]][ts[g][1]][ts[g][2]]`: T at the predecessor of the best cell. */
    method EndpointAt(prev: Pos, ghost best: Pos) returns (t: Option<Pos>)
      requires Valid() && Interior(Inp(), best) && FilledBelow(Sum(best)) && prev == Pred(Inp(), best)
      ensures t == EndpointOf(Inp(), Some(best))
    {
      if !OnFace(prev) {
        assert Interior(Inp(), prev) && Sum(prev) < Sum(best);
      }
      t := T[prev.x, prev.y, prev.z];
    }

    /**
     * The column loop of the backtrace: the first of the seven moves whose
     * predecessor is T of (i, j, k) appends its column and stops. The
     * chosen move always matches before the seventh, so the loop is written
     * to run until the match.
     */
    method AppendMove(i: int, j: int, k: int, prev: Pos, al: Alignment, ghost choice: nat) returns (res: Alignment)
      requires Interior(Inp(), Pos(i, j, k)) && choice < 7 && prev == Step(choice, Pos(i, j, k))
      ensures res == Snoc(al, ColumnOf(Inp(), choice, Pos(i, j, k)))
    {
      var p := Pos(i, j, k);
      var n := 0;
      var found := false;
      res := al;
      while !found
        invariant n <= choice
        invariant found ==> res == Snoc(al, ColumnOf(Inp(), choice, p))
        decreases choice - n, !found
      {
        var x, ai := if GapA(n) then i else i - 1, if GapA(n) then GAP else a[i - 1];
        var y, bj := if GapB(n) then j else j - 1, if GapB(n) then GAP else b[j - 1];
        var z, ck := if GapC(n) then k else k - 1, if GapC(n) then GAP else c[k - 1];
        MoveColumn(Inp(), n, p, ai, bj, ck);
        assert Pos(x, y, z) == Step(n, p);
        if prev == Pos(x, y, z) {
          StepInjective(n, choice, p);
          res := Snoc(al, Column(ai, bj, ck));
          found := true;
        } else {
          n := n + 1;
        }
      }
    }

    /**
     * The backtrace of `align` from the end point: TypeError when it is nil;
     * otherwise, while F is not 0, append the column of T's move and step
     * to T. The result is the alignment read back from the end point with
     * every strand reversed.
     */
    method Backtrace(start: Option<Pos>) returns (r: Result<Alignment, Failure>)
      requires Valid() && FilledBelow(|a| + |b| + |c| + 1)
      requires start.Some? ==> InBox(Inp(), start.value)
      ensures r == match start
                   case None => Err(TypeError)
                   case Some(q) => Ok(Reversed(Trace(Inp(), q)))
    {
      if start.None? {
        return Err(TypeError);
      }
      var q0 := start.value;
      var i, j, k := q0.x, q0.y, q0.z;
      var alignment := Empty;
      Settled(q0);
      ghost var whole := Reversed(Trace(Inp(), q0));
      JoinEmpty(whole);
      while F[i, j, k].value != 0.0
        invariant InBox(Inp(), Pos(i, j, k)) && F[i, j, k] == Some(Cell(Inp(), Pos(i, j, k)))
        invariant Join(alignment, Reversed(Trace(Inp(), Pos(i, j, k)))) == whole
        decreases i + j + k
      {
        alignment, i, j, k := BackStep(i, j, k, alignment);
      }
      assert Trace(Inp(), Pos(i, j, k)) == Empty;
      JoinEmpty(alignment);
      r := Ok(alignment);
    }

    /**
     * One pass of the backtrace loop at a cell with F not 0: the column of
     * its move is appended, and what is left to read starts at T.
     */
    method BackStep(i: int, j: int, k: int, al: Alignment) returns (res: Alignment, x: int, y: int, z: int)
      requires Valid() && FilledBelow(|a| + |b| + |c| + 1) && InBox(Inp(), Pos(i, j, k))
      requires F[i, j, k] == Some(Cell(Inp(), Pos(i, j, k))) && F[i, j, k] != Some(0.0)
      ensures InBox(Inp(), Pos(x, y, z)) && x + y + z < i + j + k && F[x, y, z] == Some(Cell(Inp(), Pos(x, y, z)))
      ensures Join(res, Reversed(Trace(Inp(), Pos(x, y, z)))) == Join(al, Reversed(Trace(Inp(), Pos(i, j, k))))
    {
      var p := Pos(i, j, k);
      assert Interior(Inp(), p) && Filled(p);
      ReversedTraceStep(Inp(), p, al);
      var prev := T[i, j, k].value;
      Settled(prev);
      res := AppendMove(i, j, k, prev, al, Choice(Inp(), p));
      x, y, z := prev.x, prev.y, prev.z;
    }

    /** Once the cube is filled, F holds the recurrence's score everywhere, faces included. */
    lemma Settled(p: Pos)
      requires Valid() && FilledBelow(|a| + |b| + |c| + 1) && InBox(Inp(), p)
      ensures F[p.x, p.y, p.z] == Some(Cell(Inp(), p))
    {
      if !OnFace(p) {
        assert Filled(p);
      }
    }

    /**
     * `align`: diagonalise, fill and scan the groups in order, then trace
     * back from the kept end point; the result or the exception is exactly
     * RubyResult.
     */
    method Align() returns (r: Result<Alignment, Failure>)
      requires Valid()
      modifies F, T
      ensures Valid()
      ensures r == RubyResult(Inp())
    {
      var dg := Diagonalise(|a|, |b|, |c|);
      if dg.Err? {
        return Err(dg.error);
      }
      var groups := dg.value;
      var scan := ScanGroups(groups);
      if scan.Err? {
        return Err(scan.error);
      }
      forall q | Interior(Inp(), q)
        ensures Sum(q) < |groups| + 3
      {
        InteriorInSomeGroup(Inp(), q);
      }
      r := Backtrace(scan.value.1);
    }

    /**
     * The group loop of `align`: fills every group in turn and keeps the
     * running best score and the cell the backtrace will start from.
     */
    method ScanGroups(groups: seq<seq<Pos>>) returns (r: Result<(real, Option<Pos>), Failure>)
      requires Valid() && groups == Groups(|a|, |b|, |c|)
      modifies F, T
      ensures Valid()
      ensures r.Err? <==> groups != [] && (|a| == 0 || |b| == 0 || |c| == 0)
      ensures r.Err? ==> r.error == NoMethodError
      ensures r.Ok? ==> FilledBelow(|groups| + 3)
      ensures r.Ok? ==> r.value == (RubyScan(Inp(), |groups|).0, EndpointOf(Inp(), RubyScan(Inp(), |groups|).1))
    {
      var bestF := 0.0;
      var bestT: Option<Pos> := Some(Origin);
      for g := 0 to |groups|
        invariant Valid() && FilledBelow(g + 3)
        invariant bestF == RubyScan(Inp(), g).0 && bestT == EndpointOf(Inp(), RubyScan(Inp(), g).1)
        invariant g > 0 ==> |a| >= 1 && |b| >= 1 && |c| >= 1
      {
        var res := ProcessGroup(groups[g], g, bestF, bestT);
        GroupEmptyIff(|a|, |b|, |c|, g);
        if res.Err? {
          return Err(NoMethodError);
        }
        bestF, bestT := res.value.0, res.value.1;
      }
      return Ok((bestF, bestT));
    }
  }
}
