/**
 * A small input on which both aligners can be followed by hand: the
 * sequence "A" three times with a pair score of 2 for identical
 * characters and -1 otherwise.
 */
module Sample {
  import opened Recurrence

  /** Identity scores 2, any other pair -1. */
  function SameOrNot(x: char, y: char): real
  {
    if x == y then 2.0 else -1.0
  }

  /** The input of the example below: "A" three times, identity scoring 2 and any other pair -1. */
  function SingleResidue(): Input
  {
    Input("A", "A", "A", SameOrNot)
  }

  /** In the example, cell (1, 1, 1) scores 2 by the all-residue move from the origin. */
  lemma SingleResidueCell()
    ensures Interior(SingleResidue(), Pos(1, 1, 1))
    ensures Cell(SingleResidue(), Pos(1, 1, 1)) == 2.0
    ensures Choice(SingleResidue(), Pos(1, 1, 1)) == 0
  {
    var inp := SingleResidue();
    var p := Pos(1, 1, 1);
    forall n | 0 <= n < 7
      ensures Candidate(inp, p, n) == if n == 0 then 2.0 else 0.0
    {
      SingleResidueCandidate(n);
    }
    CellIsFirstBestCandidate(inp, p);
  }

  /** In the example, the backtrace from (1, 1, 1) reads one all-"A" column and stops at the origin. */
  lemma SingleResidueTrace()
    ensures Interior(SingleResidue(), Pos(1, 1, 1))
    ensures Pred(SingleResidue(), Pos(1, 1, 1)) == Origin
    ensures Trace(SingleResidue(), Pos(1, 1, 1)) == Alignment("A", "A", "A")
  {
    var inp := SingleResidue();
    var p := Pos(1, 1, 1);
    SingleResidueCell();
    TraceStepUnfold(inp, p);
    assert ColumnOf(inp, 0, p) == Column('A', 'A', 'A');
    assert Trace(inp, Origin) == Empty;
  }

  /** Move n of cell (1, 1, 1) in the example: 2 for three residues, 0 for any column with a gap. */
  lemma SingleResidueCandidate(n: nat)
    requires n < 7
    ensures Interior(SingleResidue(), Pos(1, 1, 1))
    ensures Candidate(SingleResidue(), Pos(1, 1, 1), n) == if n == 0 then 2.0 else 0.0
  {
    var inp := SingleResidue();
    var p := Pos(1, 1, 1);
    CandidateUnfold(inp, p, n);
    SingleResidueColumn(n);
    assert OnFace(Step(n, p));
  }

  /** The column of move n of cell (1, 1, 1) in the example and its score. */
  lemma SingleResidueColumn(n: nat)
    requires n < 7
    ensures Interior(SingleResidue(), Pos(1, 1, 1))
    ensures ColumnScore(SameOrNot, ColumnOf(SingleResidue(), n, Pos(1, 1, 1))) == if n == 0 then 2.0 else 0.0
  {
    var c := ColumnOf(SingleResidue(), n, Pos(1, 1, 1));
    if n == 0 {
      assert c == Column('A', 'A', 'A');
    } else if n == 1 {
      assert c == Column(GAP, 'A', 'A');
    } else if n == 2 {
      assert c == Column('A', GAP, 'A');
    } else if n == 3 {
      assert c == Column(GAP, GAP, 'A');
    } else if n == 4 {
      assert c == Column('A', 'A', GAP);
    } else if n == 5 {
      assert c == Column(GAP, 'A', GAP);
    } else {
      assert c == Column('A', GAP, GAP);
    }
  }
}
