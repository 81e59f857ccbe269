/**
 * The three-way Smith-Waterman recurrence that both aligners implement
 * (smithwaterman/SmithWatermanAligner.java and smithwaterman.rb): the
 * score cube F over (|A|+1) x (|B|+1) x (|C|+1) cells, the seven
 * predecessor moves of a cell, the per-cell choice of the first strict
 * maximum floored at 0, and the backtrace that reads the chosen moves back
 * as alignment columns.
 *
 * Everything here is a specification function; the imperative aligners
 * are proved to fill their arrays with exactly these values.
 */
module Recurrence {

  /** The gap marker written for an axis that does not consume a residue. */
  const GAP: char := '-'

  /** A cell (i, j, k) of the cube; Java's Coord without its id, Ruby's [i, j, k]. */
  datatype Pos = Pos(x: int, y: int, z: int)

  /** The cell every local alignment may restart from. */
  const Origin: Pos := Pos(0, 0, 0)

  function Sum(p: Pos): int
  {
    p.x + p.y + p.z
  }

  /** Component-wise order on cells. */
  predicate Below(p: Pos, q: Pos)
  {
    p.x <= q.x && p.y <= q.y && p.z <= q.z
  }

  /** The three sequences and the pair-score table (the Blosum lookup). */
  datatype Input = Input(a: string, b: string, c: string, pair: (char, char) -> real)

  /** The three aligned output strings. */
  datatype Alignment = Alignment(a: string, b: string, c: string)

  const Empty: Alignment := Alignment("", "", "")

  predicate InBox(inp: Input, p: Pos)
  {
    0 <= p.x <= |inp.a| && 0 <= p.y <= |inp.b| && 0 <= p.z <= |inp.c|
  }

  /** A cell on one of the three zero faces i = 0, j = 0 or k = 0. */
  predicate OnFace(p: Pos)
  {
    p.x == 0 || p.y == 0 || p.z == 0
  }

  predicate Interior(inp: Input, p: Pos)
  {
    InBox(inp, p) && !OnFace(p)
  }

  /** Bit 0 of the move number: `n & 1 > 0`, a gap in A. */
  predicate GapA(n: nat)
  {
    n % 2 == 1
  }

  /** Bit 1 of the move number: `n & 2 > 0`, a gap in B. */
  predicate GapB(n: nat)
  {
    n / 2 % 2 == 1
  }

  /** Bit 2 of the move number: `n & 4 > 0`, a gap in C. */
  predicate GapC(n: nat)
  {
    n / 4 % 2 == 1
  }

  /**
   * The predecessor tried by move n of cell p: an axis whose bit is set keeps
   * its index (a gap), an axis whose bit is clear is decremented (a residue).
   */
  function Step(n: nat, p: Pos): (q: Pos)
    requires n < 7
    ensures Below(q, p) && q != p
    ensures p.x - 1 <= q.x && p.y - 1 <= q.y && p.z - 1 <= q.z
    ensures Sum(p) - 3 <= Sum(q) < Sum(p)
  {
    Pos(if GapA(n) then p.x else p.x - 1,
        if GapB(n) then p.y else p.y - 1,
        if GapC(n) then p.z else p.z - 1)
  }

  /** One column of an alignment. */
  datatype Column = Column(a: char, b: char, c: char)

  /** The characters contributed by move n of cell p: a residue or the gap. */
  function ColumnOf(inp: Input, n: nat, p: Pos): Column
    requires n < 7 && Interior(inp, p)
  {
    Column(if GapA(n) then GAP else inp.a[p.x - 1],
           if GapB(n) then GAP else inp.b[p.y - 1],
           if GapC(n) then GAP else inp.c[p.z - 1])
  }

  /** `score(a, b, c)`: the mean of the pair scores of the three unordered pairs. */
  function Score3(pair: (char, char) -> real, a: char, b: char, c: char): (r: real)
    ensures pair(a, b) <= r || pair(a, c) <= r || pair(b, c) <= r
    ensures r <= pair(a, b) || r <= pair(a, c) || r <= pair(b, c)
  {
    (pair(a, b) + pair(a, c) + pair(b, c)) / 3.0
  }

  function ColumnScore(pair: (char, char) -> real, c: Column): real
  {
    Score3(pair, c.a, c.b, c.c)
  }

  /** The alignment with one more column at its end. */
  function Snoc(al: Alignment, c: Column): Alignment
  {
    Alignment(al.a + [c.a], al.b + [c.b], al.c + [c.c])
  }

  /**
   * The running choice of `bestScore` and of the Java best-cell scan: start
   * from (0, none) and replace on a strictly greater value, so the result is
   * the first index reaching the maximum, or -1 when nothing exceeds 0.
   */
  function Pick(s: seq<real>): (r: (real, int))
    ensures -1 <= r.1 < |s|
    ensures r.0 >= 0.0 && forall m :: 0 <= m < |s| ==> s[m] <= r.0
    ensures r.1 == -1 ==> r.0 == 0.0
    ensures r.1 >= 0 ==> s[r.1] == r.0 && r.0 > 0.0 && forall m :: 0 <= m < r.1 ==> s[m] < r.0
  {
    if s == [] then (0.0, -1)
    else
      var prev := Pick(s[..|s| - 1]);
      if s[|s| - 1] > prev.0 then (s[|s| - 1], |s| - 1) else prev
  }

  /** The score F of cell p (0 on the faces). */
  function Cell(inp: Input, p: Pos): (r: real)
    requires InBox(inp, p)
    ensures r >= 0.0
    decreases Sum(p), 2
  {
    if OnFace(p) then 0.0 else Pick(Candidates(inp, p)).0
  }

  /** The seven candidate scores of an interior cell, in move order. */
  function Candidates(inp: Input, p: Pos): (cs: seq<real>)
    requires Interior(inp, p)
    ensures |cs| == 7
    decreases Sum(p), 1
  {
    [Candidate(inp, p, 0), Candidate(inp, p, 1), Candidate(inp, p, 2), Candidate(inp, p, 3),
     Candidate(inp, p, 4), Candidate(inp, p, 5), Candidate(inp, p, 6)]
  }

  /** The score of arriving at p by move n. */
  function Candidate(inp: Input, p: Pos, n: nat): real
    requires Interior(inp, p) && n < 7
    decreases Sum(p), 0
  {
    Cell(inp, Step(n, p)) + ColumnScore(inp.pair, ColumnOf(inp, n, p))
  }

  /** The move chosen for an interior cell, -1 when none scores above 0. */
  function Choice(inp: Input, p: Pos): (n: int)
    requires Interior(inp, p)
    ensures -1 <= n < 7
  {
    Pick(Candidates(inp, p)).1
  }

  /** The backtrace entry T of an interior cell: the chosen predecessor, or the origin. */
  function Pred(inp: Input, p: Pos): Pos
    requires Interior(inp, p)
  {
    var n := Choice(inp, p);
    if n < 0 then Origin else Step(n, p)
  }

  /** T of an interior cell is an earlier cell inside the cube. */
  lemma PredEarlier(inp: Input, p: Pos)
    requires Interior(inp, p)
    ensures InBox(inp, Pred(inp, p)) && Below(Pred(inp, p), p) && Pred(inp, p) != p
  {
    if Choice(inp, p) >= 0 {
      StepInBox(inp, Choice(inp, p), p);
    }
  }

  /**
   * The alignment read back from cell q: while F is non-zero, the column of
   * the chosen move goes after the columns read from the predecessor.
   */
  function Trace(inp: Input, q: Pos): (al: Alignment)
    requires InBox(inp, q)
    ensures |al.a| == |al.b| == |al.c|
    decreases Sum(q)
  {
    if OnFace(q) || Cell(inp, q) == 0.0 then Empty
    else
      var n := Choice(inp, q);
      Snoc(Trace(inp, Step(n, q)), ColumnOf(inp, n, q))
  }

  /** The cell at which the backtrace from q stops. */
  function TraceStart(inp: Input, q: Pos): (e: Pos)
    requires InBox(inp, q)
    ensures InBox(inp, e) && Below(e, q)
    ensures OnFace(e) || Cell(inp, e) == 0.0
    decreases Sum(q)
  {
    if OnFace(q) || Cell(inp, q) == 0.0 then q
    else TraceStart(inp, Step(Choice(inp, q), q))
  }

  /** The sum of the column scores of an alignment. */
  function AlignmentScore(pair: (char, char) -> real, al: Alignment): real
    requires |al.a| == |al.b| == |al.c|
    decreases |al.a|
  {
    if |al.a| == 0 then 0.0
    else
      var n := |al.a| - 1;
      AlignmentScore(pair, Alignment(al.a[..n], al.b[..n], al.c[..n]))
        + Score3(pair, al.a[n], al.b[n], al.c[n])
  }

  /** A string with its gap markers removed. */
  function Ungap(s: string): (r: string)
    ensures |r| <= |s| && GAP !in r
  {
    if s == [] then []
    else Ungap(s[..|s| - 1]) + (if s[|s| - 1] == GAP then [] else [s[|s| - 1]])
  }

  /** The scores of a run of cells, in order. */
  function Scores(inp: Input, s: seq<Pos>): (r: seq<real>)
    requires forall p :: p in s ==> Interior(inp, p)
    ensures |r| == |s|
  {
    if s == [] then []
    else
      var p := s[|s| - 1];
      assert p in s && Interior(inp, p) && InBox(inp, p);
      assert forall q :: q in s[..|s| - 1] ==> q in s;
      Scores(inp, s[..|s| - 1]) + [Cell(inp, p)]
  }

  /** A column put in front of every strand: the backtrace's `x.r + alignment[0]`. */
  function Cons(c: Column, al: Alignment): Alignment
  {
    Alignment([c.a] + al.a, [c.b] + al.b, [c.c] + al.c)
  }

  /** Strand-wise concatenation. */
  function Join(x: Alignment, y: Alignment): Alignment
  {
    Alignment(x.a + y.a, x.b + y.b, x.c + y.c)
  }

  /** The empty alignment is a unit of Join. */
  lemma JoinEmpty(al: Alignment)
    ensures Join(Empty, al) == al && Join(al, Empty) == al
  {
    assert al.a + [] == al.a && al.b + [] == al.b && al.c + [] == al.c;
  }

  /** The cell that move n (or the origin, for -1) leads back to. */
  function MoveTarget(n: int, p: Pos): Pos
    requires -1 <= n < 7
  {
    if n < 0 then Origin else Step(n, p)
  }

  // ---------------------------------------------------------------------
  // Properties of the recurrence
  // ---------------------------------------------------------------------

  /** Each move of an interior cell stays inside the cube. */
  lemma StepInBox(inp: Input, n: nat, p: Pos)
    requires n < 7 && Interior(inp, p)
    ensures InBox(inp, Step(n, p))
  {
  }

  /** Distinct moves of one cell reach distinct predecessors. */
  lemma {:induction false} StepInjective(n: nat, m: nat, p: Pos)
    requires n < 7 && m < 7 && Step(n, p) == Step(m, p)
    ensures n == m
  {
    assert GapA(n) == GapA(m) && GapB(n) == GapB(m) && GapC(n) == GapC(m);
    assert n == n % 2 + 2 * (n / 2 % 2) + 4 * (n / 4 % 2);
    assert m == m % 2 + 2 * (m / 2 % 2) + 4 * (m / 4 % 2);
  }

  /** The local-alignment floor: no cell scores below 0. */
  lemma CellNonNegative(inp: Input, p: Pos)
    requires InBox(inp, p)
    ensures Cell(inp, p) >= 0.0
  {
  }

  /**
   * The score of an interior cell is the largest of 0 and its seven
   * candidates, and its backtrace entry is the predecessor of the first move
   * reaching that maximum, or the origin when no candidate exceeds 0.
   */
  lemma CellIsFirstBestCandidate(inp: Input, p: Pos)
    requires Interior(inp, p)
    ensures forall n :: 0 <= n < 7 ==> Candidate(inp, p, n) <= Cell(inp, p)
    ensures (forall n :: 0 <= n < 7 ==> Candidate(inp, p, n) <= 0.0) ==> Cell(inp, p) == 0.0
    ensures Cell(inp, p) == 0.0 ==> Pred(inp, p) == Origin
    ensures Cell(inp, p) > 0.0 ==>
      var n := Choice(inp, p);
      0 <= n < 7 && Pred(inp, p) == Step(n, p) && Candidate(inp, p, n) == Cell(inp, p)
      && forall m :: 0 <= m < n ==> Candidate(inp, p, m) < Cell(inp, p)
  {
    var cs := Candidates(inp, p);
    assert Cell(inp, p) == Pick(cs).0;
    CandidatesAt(inp, p);
  }

  /** The candidate list is the seven candidates in move order. */
  lemma CandidatesAt(inp: Input, p: Pos)
    requires Interior(inp, p)
    ensures forall n :: 0 <= n < 7 ==> Candidates(inp, p)[n] == Candidate(inp, p, n)
  {
  }

  /** Pick reads one more value: it replaces the running best only when strictly greater. */
  lemma PickSnoc(s: seq<real>, v: real)
    ensures Pick(s + [v]) == if v > Pick(s).0 then (v, |s|) else Pick(s)
  {
    var t := s + [v];
    assert t[..|t| - 1] == s && t[|t| - 1] == v;
  }

  /** Moving the last column of the left part to the front of the right part keeps the join. */
  lemma JoinSnocCons(r: Alignment, c: Column, acc: Alignment)
    ensures Join(Snoc(r, c), acc) == Join(r, Cons(c, acc))
  {
    assert (r.a + [c.a]) + acc.a == r.a + ([c.a] + acc.a);
    assert (r.b + [c.b]) + acc.b == r.b + ([c.b] + acc.b);
    assert (r.c + [c.c]) + acc.c == r.c + ([c.c] + acc.c);
  }

  /**
   * Seven values computed as the candidates of p, folded by Pick, give the
   * score of p and the move of its backtrace entry.
   */
  lemma PickOfCandidates(inp: Input, p: Pos, vals: seq<real>)
    requires Interior(inp, p) && |vals| == 7
    requires forall n :: 0 <= n < 7 ==>
      vals[n] == Cell(inp, Step(n, p)) + ColumnScore(inp.pair, ColumnOf(inp, n, p))
    ensures Pick(vals).0 == Cell(inp, p)
    ensures Pick(vals).1 == Choice(inp, p)
    ensures Pred(inp, p) == if Pick(vals).1 < 0 then Origin else Step(Pick(vals).1, p)
  {
    forall n | 0 <= n < 7
      ensures vals[n] == Candidate(inp, p, n)
    {
      CandidateUnfold(inp, p, n);
    }
    CandidatesEqual(inp, p, vals);
  }

  lemma CandidateUnfold(inp: Input, p: Pos, n: nat)
    requires Interior(inp, p) && n < 7
    ensures Candidate(inp, p, n) == Cell(inp, Step(n, p)) + ColumnScore(inp.pair, ColumnOf(inp, n, p))
  {
  }

  lemma CandidatesEqual(inp: Input, p: Pos, vals: seq<real>)
    requires Interior(inp, p) && |vals| == 7
    requires forall n :: 0 <= n < 7 ==> vals[n] == Candidate(inp, p, n)
    ensures vals == Candidates(inp, p)
  {
    CandidatesAt(inp, p);
  }

  /** A positive cell's score is its predecessor's score plus the chosen column's score. */
  lemma CellFromPred(inp: Input, p: Pos)
    requires Interior(inp, p) && Cell(inp, p) > 0.0
    ensures 0 <= Choice(inp, p) < 7
    ensures Cell(inp, p) == Cell(inp, Pred(inp, p)) + ColumnScore(inp.pair, ColumnOf(inp, Choice(inp, p), p))
  {
    CellIsFirstBestCandidate(inp, p);
  }

  /** One backtrace step from a positive cell, stated once so that proofs need not unfold the recurrence. */
  lemma TraceStepUnfold(inp: Input, q: Pos)
    requires Interior(inp, q) && Cell(inp, q) > 0.0
    ensures 0 <= Choice(inp, q) < 7
    ensures var n := Choice(inp, q); var s := Step(n, q);
      InBox(inp, s)
      && Trace(inp, q) == Snoc(Trace(inp, s), ColumnOf(inp, n, q))
      && TraceStart(inp, q) == TraceStart(inp, s)
  {
  }

  /** Appending a column adds its score. */
  lemma SnocScore(pair: (char, char) -> real, al: Alignment, c: Column)
    requires |al.a| == |al.b| == |al.c|
    ensures var t := Snoc(al, c);
      |t.a| == |t.b| == |t.c|
      && AlignmentScore(pair, t) == AlignmentScore(pair, al) + ColumnScore(pair, c)
  {
    var t := Snoc(al, c);
    var k := |al.a|;
    assert Alignment(t.a[..k], t.b[..k], t.c[..k]) == al;
  }

  /** The three strings of a backtrace have equal length. */
  lemma {:induction false} TraceEqualLength(inp: Input, q: Pos)
    requires InBox(inp, q)
    ensures |Trace(inp, q).a| == |Trace(inp, q).b| == |Trace(inp, q).c|
    decreases Sum(q)
  {
    if !(OnFace(q) || Cell(inp, q) == 0.0) {
      TraceStepUnfold(inp, q);
      TraceEqualLength(inp, Step(Choice(inp, q), q));
    }
  }

  /** The columns read back from q score exactly F at q: the alignment is optimal for its end cell. */
  lemma {:induction false} TraceScoresCell(inp: Input, q: Pos)
    requires InBox(inp, q)
    ensures |Trace(inp, q).a| == |Trace(inp, q).b| == |Trace(inp, q).c|
    ensures AlignmentScore(inp.pair, Trace(inp, q)) == Cell(inp, q)
    decreases Sum(q)
  {
    if OnFace(q) || Cell(inp, q) == 0.0 {
    } else {
      TraceStepUnfold(inp, q);
      CellFromPred(inp, q);
      var n := Choice(inp, q);
      TraceScoresCell(inp, Step(n, q));
      SnocScore(inp.pair, Trace(inp, Step(n, q)), ColumnOf(inp, n, q));
    }
  }

  /** The input sequence of axis k (0 for A, 1 for B, 2 for C). */
  function Residues(inp: Input, k: nat): string
  {
    if k == 0 then inp.a else if k == 1 then inp.b else inp.c
  }

  /** The aligned string of axis k. */
  function Strand(al: Alignment, k: nat): string
  {
    if k == 0 then al.a else if k == 1 then al.b else al.c
  }

  /** The character of axis k in a column. */
  function ColumnChar(c: Column, k: nat): char
  {
    if k == 0 then c.a else if k == 1 then c.b else c.c
  }

  /** The coordinate of axis k. */
  function Index(p: Pos, k: nat): int
  {
    if k == 0 then p.x else if k == 1 then p.y else p.z
  }

  /** On one axis, a move either keeps the index and writes a gap or consumes the residue before it. */
  lemma StepOnAxis(inp: Input, n: nat, q: Pos, k: nat)
    requires n < 7 && Interior(inp, q) && k < 3
    ensures var s := Step(n, q); var ch := ColumnChar(ColumnOf(inp, n, q), k);
      (ch == GAP && Index(s, k) == Index(q, k))
      || (Index(s, k) == Index(q, k) - 1 && ch == Residues(inp, k)[Index(q, k) - 1])
  {
  }

  /**
   * Removing the gap markers from the backtrace string of axis k gives back
   * the contiguous stretch of that input which the alignment covers, from
   * the cell where the backtrace stops to the cell where it starts.
   */
  lemma {:induction false} TraceCoversAxis(inp: Input, q: Pos, k: nat)
    requires InBox(inp, q) && k < 3
    requires GAP !in Residues(inp, k)
    ensures 0 <= Index(TraceStart(inp, q), k) <= Index(q, k) <= |Residues(inp, k)|
    ensures Ungap(Strand(Trace(inp, q), k))
         == Residues(inp, k)[Index(TraceStart(inp, q), k)..Index(q, k)]
    decreases Sum(q)
  {
    if OnFace(q) || Cell(inp, q) == 0.0 {
    } else {
      TraceStepUnfold(inp, q);
      var n := Choice(inp, q);
      var s := Step(n, q);
      TraceCoversAxis(inp, s, k);
      StepOnAxis(inp, n, q, k);
      CoverStep(inp, k, Trace(inp, s), ColumnOf(inp, n, q), TraceStart(inp, s), s, q);
    }
  }

  /** The inductive step of TraceCoversAxis, free of the recurrence. */
  lemma CoverStep(inp: Input, k: nat, r: Alignment, c: Column, e: Pos, s: Pos, q: Pos)
    requires k < 3 && GAP !in Residues(inp, k)
    requires 0 <= Index(e, k) <= Index(s, k) <= |Residues(inp, k)|
    requires Ungap(Strand(r, k)) == Residues(inp, k)[Index(e, k)..Index(s, k)]
    requires var ch := ColumnChar(c, k);
      (ch == GAP && Index(s, k) == Index(q, k))
      || (Index(s, k) == Index(q, k) - 1 && Index(q, k) <= |Residues(inp, k)|
          && ch == Residues(inp, k)[Index(q, k) - 1])
    ensures Index(q, k) <= |Residues(inp, k)|
    ensures Ungap(Strand(Snoc(r, c), k)) == Residues(inp, k)[Index(e, k)..Index(q, k)]
  {
    var ch := ColumnChar(c, k);
    assert Strand(Snoc(r, c), k) == Strand(r, k) + [ch];
    if ch != GAP {
      assert Residues(inp, k)[Index(q, k) - 1] in Residues(inp, k);
    }
    UngapExtend(Strand(r, k), Residues(inp, k), ch, Index(e, k), Index(s, k), Index(q, k));
  }

  /**
   * Removing the gap markers from each backtrace string gives back the
   * contiguous stretch of each input that the alignment covers.
   */
  lemma TraceCoversSubstrings(inp: Input, q: Pos)
    requires InBox(inp, q)
    requires GAP !in inp.a && GAP !in inp.b && GAP !in inp.c
    ensures var e := TraceStart(inp, q);
      Ungap(Trace(inp, q).a) == inp.a[e.x..q.x]
      && Ungap(Trace(inp, q).b) == inp.b[e.y..q.y]
      && Ungap(Trace(inp, q).c) == inp.c[e.z..q.z]
  {
    TraceCoversAxis(inp, q, 0);
    TraceCoversAxis(inp, q, 1);
    TraceCoversAxis(inp, q, 2);
  }

  /** One backtrace step on one axis: a gap leaves the covered stretch alone, a residue extends it by one. */
  lemma UngapExtend(r: string, s: string, ch: char, lo: int, mid: int, hi: int)
    requires 0 <= lo <= mid <= hi <= |s| && Ungap(r) == s[lo..mid]
    requires (ch == GAP && mid == hi) || (ch != GAP && mid == hi - 1 && ch == s[hi - 1])
    ensures Ungap(r + [ch]) == s[lo..hi]
  {
    UngapSnoc(r, ch);
    if ch == GAP {
      assert Ungap(r) + [] == Ungap(r);
    } else {
      SliceSnoc(s, lo, hi);
    }
  }

  /** A slice that reaches one further ends with one more character. */
  lemma SliceSnoc(s: string, lo: int, hi: int)
    requires 0 <= lo < hi <= |s|
    ensures s[lo..hi] == s[lo..hi - 1] + [s[hi - 1]]
  {
  }

  /** Removing gaps from a strand with one more character keeps that character unless it is a gap. */
  lemma UngapSnoc(r: string, ch: char)
    ensures Ungap(r + [ch]) == Ungap(r) + (if ch == GAP then [] else [ch])
  {
    var t := r + [ch];
    assert t[..|t| - 1] == r;
  }

  /** With a symmetric pair table the column score does not depend on the order of the three characters. */
  lemma Score3Symmetric(pair: (char, char) -> real, a: char, b: char, c: char)
    requires forall x, y :: pair(x, y) == pair(y, x)
    ensures Score3(pair, a, b, c) == Score3(pair, b, a, c) == Score3(pair, a, c, b) == Score3(pair, c, b, a)
  {
  }

  /** The scores of a run of cells are read cell by cell. */
  lemma {:induction false} ScoresAt(inp: Input, s: seq<Pos>)
    requires forall p :: p in s ==> Interior(inp, p)
    ensures forall m :: 0 <= m < |s| ==> s[m] in s && Scores(inp, s)[m] == Cell(inp, s[m])
  {
    if s != [] {
      var init := s[..|s| - 1];
      ScoresAt(inp, init);
      forall m | 0 <= m < |s|
        ensures s[m] in s && Scores(inp, s)[m] == Cell(inp, s[m])
      {
        if m < |init| {
          assert s[m] == init[m];
        }
      }
    }
  }

  /** The characters the aligners pick for move n of p form the move's column. */
  lemma MoveColumn(inp: Input, n: nat, p: Pos, xr: char, yr: char, zr: char)
    requires n < 7 && Interior(inp, p)
    requires xr == if GapA(n) then GAP else inp.a[p.x - 1]
    requires yr == if GapB(n) then GAP else inp.b[p.y - 1]
    requires zr == if GapC(n) then GAP else inp.c[p.z - 1]
    ensures ColumnOf(inp, n, p) == Column(xr, yr, zr)
    ensures ColumnScore(inp.pair, ColumnOf(inp, n, p)) == Score3(inp.pair, xr, yr, zr)
  {
  }
}
