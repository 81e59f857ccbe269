# sequence-align in Dafny

A model of the core of *sequence-align*. The repository holds two groups of
course-work programs:

- **Three-way Smith-Waterman local alignment of protein sequences.** There
  are two versions: a Java aligner (`smithwaterman/SmithWatermanAligner.java`
  and its `Coord`) and a Ruby aligner (`smithwaterman.rb`).
- **Two graph scripts.** `floydwarshall.rb` computes all-pairs shortest
  path lengths and reads back one shortest path. `graphs.rb` runs a
  Floyd-Warshall variant that records every tying intermediate vertex. It
  uses that to enumerate all shortest paths and to compute betweenness
  centrality. It also finds automorphism orbit pairs and orbits.

The aligners fill a score cube F of (|A|+1) x (|B|+1) x (|C|+1) cells and a
backtrace cube T:

- They fill the cells anti-diagonal by anti-diagonal (the groups built by
  `diagonalise`). Cells within one group are independent, so the source
  computes them in threads.
- The score of a cell is the first strictly greater score among its seven
  predecessor moves, floored at 0. Each move adds the mean pair score of a
  column of residues and gaps.
- The aligner then finds the best cell and traces the alignment back
  through T.

Modules:

| module | what it holds |
|---|---|
| `Outcome` | `Option` (Java `null`, Ruby `nil`) and `Result` (a value, or the exception raised) |
| `Recurrence` | the recurrence both aligners compute, as specification functions, and its properties |
| `Wavefront` | the cell enumeration and anti-diagonal grouping of `diagonalise`, and the scan order |
| `Coords` | `Coord` as a value, and the static `currentId` counter as an `IdCounter` object |
| `Cubes` | the zeroing of the three faces of the score cube, loop by loop |
| `Sample` | a one-residue input on which the recurrence is worked out |
| `JavaAligner` | the class `SmithWatermanAligner` over `array3` cubes; the threads of a group are run one after the other |
| `RubyAligner` | the class `SmithWaterman` over `array3` cubes of `Option`; the threads are run one after the other |
| `Adjacency` | adjacency-list graphs, `getEdges` (identical in both scripts), Ruby array indexing, row-major sweep bookkeeping |
| `FloydWarshall` | `floydwarshall.rb`: `floydWarshall` over lengths with infinity, `shortestPath` |
| `Graphs` | `graphs.rb`: `floydWarshall` with intermediate lists, `shortestPaths`, `betweenness`, `allBetweenness` |
| `Automorphisms` | `graphs.rb`: `autoMorphismOrbitPairs`, `autoMorphismOrbits`, Ruby's `sort`, `uniq` and `uniq!` |

Each loop of the source is a method with loop invariants. The method is
proved to compute a specification function:

- a cube cell against `Recurrence.Cell`;
- the group list against `Wavefront.Groups`;
- the distance matrices against the round-by-round recurrences `Len` / `Mid`
  / `Mids`;
- the path lists of `shortestPaths` against `Graphs.Enumerate`;
- the pair list against `Automorphisms.OrbitPairs`.

The properties the programs promise are lemmas about those functions.

## Model

| member | source | states |
|---|---|---|
| Recurrence.Step | smithwaterman/SmithWatermanAligner.java:222-230 | the predecessor of move n is a different cell, no later on any axis and at most one step back on each |
| Recurrence.Pick | smithwaterman/SmithWatermanAligner.java:216-241 | the running choice starting from (0, none) returns a score at least 0 that bounds every value; when some value exceeds 0 it returns the first index holding the maximum, otherwise -1 with score 0 |
| Recurrence.Score3 | smithwaterman/SmithWatermanAligner.java:209-212 | the mean of the three pair scores lies between the smallest and the largest of them |
| Recurrence.Cell | smithwaterman/SmithWatermanAligner.java:215-244 | F of every cell of the cube is at least 0 |
| Recurrence.PredEarlier | smithwaterman/SmithWatermanAligner.java:218-239 | T of an interior cell is a different cell inside the cube, no later on any axis |
| Recurrence.Trace | smithwaterman/SmithWatermanAligner.java:143-174 | the three strands read back have equal length |
| Recurrence.Candidates | smithwaterman/SmithWatermanAligner.java:219-233 | the seven candidate scores of an interior cell, one per move |
| Recurrence.Choice | smithwaterman/SmithWatermanAligner.java:235-241 | the chosen move is a move number, or -1 when none beats 0 |
| Recurrence.StepInBox | smithwaterman/SmithWatermanAligner.java:222-233 | every move of an interior cell reads a cell inside the cube |
| Recurrence.StepInjective | smithwaterman/SmithWatermanAligner.java:158-160 | distinct moves lead to distinct predecessors, so exactly one move matches T during the backtrace |
| Recurrence.CellNonNegative | smithwaterman/SmithWatermanAligner.java:215-244 | no cell of F scores below 0 |
| Recurrence.CellIsFirstBestCandidate | smithwaterman/SmithWatermanAligner.java:215-244 | a cell scores the maximum of 0 and its seven candidates; its T is the predecessor of the first move reaching a positive maximum, otherwise (0, 0, 0) |
| Recurrence.PickSnoc | smithwaterman/SmithWatermanAligner.java:235-240 | one more value replaces the running best only when strictly greater |
| Recurrence.PickOfCandidates | smithwaterman/SmithWatermanAligner.java:219-243 | folding the seven move scores as `bestScore` does yields F of the cell and the move whose predecessor is T |
| Recurrence.CellFromPred | smithwaterman/SmithWatermanAligner.java:233-239 | a positive cell scores its predecessor's score plus the chosen column's score |
| Recurrence.TraceStart | smithwaterman/SmithWatermanAligner.java:143-174 | the backtrace stops at a cell no later than its start, on a face or with score 0 |
| Recurrence.TraceStepUnfold | smithwaterman/SmithWatermanAligner.java:143-174 | one backtrace step from a positive cell adds the chosen move's column and continues from T |
| Recurrence.TraceEqualLength | smithwaterman/SmithWatermanAligner.java:163-165 | the three aligned strings have equal length |
| Recurrence.TraceScoresCell | smithwaterman/SmithWatermanAligner.java:143-174 | the columns read back from a cell score exactly that cell's F |
| Recurrence.StepOnAxis | smithwaterman/SmithWatermanAligner.java:222-230 | on each axis a move either writes a gap and keeps the index, or consumes the residue before the index |
| Recurrence.TraceCoversAxis | smithwaterman/SmithWatermanAligner.java:143-174 | without gaps, the aligned string of one axis is the stretch of that input between the stop cell and the start cell |
| Recurrence.TraceCoversSubstrings | smithwaterman/SmithWatermanAligner.java:143-174 | without gaps, each aligned string is a contiguous substring of its input sequence |
| Recurrence.Ungap | smithwaterman/SmithWatermanAligner.java:163-165 | a strand with its gaps removed is no longer and holds no gap |
| Recurrence.Score3Symmetric | smithwaterman/SmithWatermanAligner.java:209-212 | with a symmetric pair table, `score(a, b, c)` does not depend on the order of its arguments |
| Recurrence.MoveColumn | smithwaterman/SmithWatermanAligner.java:222-233 | the characters chosen for move n form that move's column, and `score` of them is the column score |
| Recurrence.ScoresAt | smithwaterman/SmithWatermanAligner.java:125-130 | the scores of a run of cells are read cell by cell |
| Wavefront.Groups | smithwaterman/SmithWatermanAligner.java:185-193 | `diagonalise` makes aLength + bLength + cLength - 2 groups, or none when that count is not positive |
| Wavefront.LineShape | smithwaterman/SmithWatermanAligner.java:198-202 | the innermost loop visits (i, j, 1) .. (i, j, cLength) once each, in order |
| Wavefront.PlaneMembers | smithwaterman/SmithWatermanAligner.java:197-203 | the two inner loops visit exactly the cells (i, j, k) with 1 <= j <= bLength and 1 <= k <= cLength |
| Wavefront.PlaneLength | smithwaterman/SmithWatermanAligner.java:197-203 | the two inner loops visit bLength * cLength cells |
| Wavefront.PlaneAscending | smithwaterman/SmithWatermanAligner.java:197-203 | the two inner loops visit their cells in strictly increasing order |
| Wavefront.CellsLength | smithwaterman/SmithWatermanAligner.java:196-204 | the three loops visit aLength * bLength * cLength cells |
| Wavefront.CellsMembers | smithwaterman/SmithWatermanAligner.java:196-204 | the three loops visit exactly the interior cells |
| Wavefront.CellsAscending | smithwaterman/SmithWatermanAligner.java:196-204 | the three loops visit the cells in strictly increasing lexicographic order, so none twice |
| Wavefront.CellsShape | smithwaterman/SmithWatermanAligner.java:196-204 | the loops visit every interior cell exactly once, lexicographically, aLength * bLength * cLength cells in all |
| Wavefront.BucketShape | smithwaterman/SmithWatermanAligner.java:201 | a group receives exactly the cells of its anti-diagonal, in visiting order |
| Wavefront.BucketMembers | smithwaterman/SmithWatermanAligner.java:201 | a group receives exactly the visited cells on its anti-diagonal |
| Wavefront.BucketAscending | smithwaterman/SmithWatermanAligner.java:201 | a group keeps the visiting order of its cells |
| Wavefront.GroupShape | smithwaterman/SmithWatermanAligner.java:181-206 | group g holds exactly the interior cells with i + j + k - 3 = g, each once, lexicographically |
| Wavefront.EmptyAxisEmptyGroups | smithwaterman/SmithWatermanAligner.java:196-204 | with one empty sequence every group stays empty |
| Wavefront.FlattenPrefix | smithwaterman/SmithWatermanAligner.java:79-131 | the first n groups hold exactly the interior cells of the first n anti-diagonals, in wave order |
| Wavefront.OrderShape | smithwaterman/SmithWatermanAligner.java:79-131 | the group loop visits every interior cell exactly once, by anti-diagonal and lexicographically within one |
| Wavefront.WaveBeforeIndex | smithwaterman/SmithWatermanAligner.java:79-131 | in group order, a cell on an earlier anti-diagonal is visited earlier |
| Coords.IdCounter.constructor | smithwaterman/Coord.java:8 | the counter starts at 0 |
| Coords.IdCounter.NewCoord | smithwaterman/Coord.java:12-18 | a new Coord keeps its coordinates and takes the current id, and the counter advances by one |
| Coords.NumberedAt | smithwaterman/Coord.java:12-18 | the m-th Coord built from an enumeration sits at its m-th cell with id base + m |
| Coords.PositionsAt | smithwaterman/SmithWatermanAligner.java:98-104 | the cells of a Coord list are read Coord by Coord |
| Coords.BucketPositions | smithwaterman/SmithWatermanAligner.java:196-204 | the cells of a group of Coords are the group of the cells |
| Coords.CoordBucketMembers | smithwaterman/SmithWatermanAligner.java:201 | a group holds exactly the Coords on its anti-diagonal |
| Coords.IdsFollowEnumeration | smithwaterman/Coord.java:5-17 | ids are unique and increase with the enumeration order, within [base, base + count) |
| Cubes.ZeroPlaneA | smithwaterman/SmithWatermanAligner.java:43-48 | the plane i = 0 is set to zero, and nothing else changes |
| Cubes.ZeroPlaneB | smithwaterman/SmithWatermanAligner.java:50-55 | the plane j = 0 is set to zero, and nothing else changes |
| Cubes.ZeroPlaneC | smithwaterman/SmithWatermanAligner.java:57-62 | the plane k = 0 is set to zero, and nothing else changes |
| Sample.SingleResidueCell | smithwaterman/SmithWatermanAligner.java:215-244 | for "A" three times, cell (1, 1, 1) scores 2 by the all-residue move |
| Sample.SingleResidueTrace | smithwaterman/SmithWatermanAligner.java:143-174 | for "A" three times, the backtrace from (1, 1, 1) reads one column "A", "A", "A" and stops at the origin |
| Sample.SingleResidueCandidate | smithwaterman/SmithWatermanAligner.java:219-241 | for "A" three times, move 0 of (1, 1, 1) scores 2 and every other move 0 |
| Sample.SingleResidueColumn | smithwaterman/SmithWatermanAligner.java:209-212 | for "A" three times, the all-residue column scores 2 and every column with a gap 0 |
| JavaAligner.NumThreads | smithwaterman/SmithWatermanAligner.java:85-86 | the thread count is negative, zero, or between 1 and size / 20000 + 1, exactly as MAX_THREADS is |
| JavaAligner.Scan | smithwaterman/SmithWatermanAligner.java:125-130 | the best-cell scan keeps its kept cell inside the cube |
| JavaAligner.JavaEndpoint | smithwaterman/SmithWatermanAligner.java:124-140 | the backtrace starts inside the cube |
| JavaAligner.BestCell | smithwaterman/SmithWatermanAligner.java:124-130 | the best cell, when there is one, is interior |
| JavaAligner.ScanConcat | smithwaterman/SmithWatermanAligner.java:79-131 | scanning two runs of cells is scanning the second from where the first left off |
| JavaAligner.ScanPrefixStep | smithwaterman/SmithWatermanAligner.java:79-131 | one more pass of the group loop scans one more group |
| JavaAligner.ScanPrefixAll | smithwaterman/SmithWatermanAligner.java:79-131 | scanning all groups is scanning the cube in group order |
| JavaAligner.ScanIsPick | smithwaterman/SmithWatermanAligner.java:125-130 | the scan keeps the largest positive score and T of the first cell reaching it, or the origin |
| JavaAligner.BestCellIsFirstMaximum | smithwaterman/SmithWatermanAligner.java:124-131 | there is no best cell exactly when every cell scores 0; otherwise the best cell is positive, no cell beats it, and every cell before it in group order scores strictly less |
| JavaAligner.PickBounds | smithwaterman/SmithWatermanAligner.java:125-130 | in group order, the first maximum bounds every cell of the run, strictly for earlier cells |
| JavaAligner.JavaEndpointIsPredOfBest | smithwaterman/SmithWatermanAligner.java:126-140 | the backtrace starts at T of the best cell, or at the origin when there is none |
| JavaAligner.JavaDropsBestColumn | smithwaterman/SmithWatermanAligner.java:128-140 | as written, the result lacks the best cell's own column and scores the best score minus that column |
| JavaAligner.JavaSingleResidueExample | smithwaterman/SmithWatermanAligner.java:66-177 | for "A" three times, as written `align` returns three empty strings, while the intended result is "A" three times |
| JavaAligner.JavaSingleResidueBest | smithwaterman/SmithWatermanAligner.java:124-130 | for "A" three times, the best cell is (1, 1, 1) |
| JavaAligner.UnitBestCell | smithwaterman/SmithWatermanAligner.java:124-130 | with one residue each, a positive (1, 1, 1) is the best cell |
| JavaAligner.BestCellExists | smithwaterman/SmithWatermanAligner.java:124-130 | any positive cell means there is a best cell |
| JavaAligner.IntendedAlignmentIsOptimal | smithwaterman/SmithWatermanAligner.java:133-176 | traced back from the best cell itself, the alignment scores exactly the best score, which no cell exceeds, and each strand without gaps is a substring of its input |
| JavaAligner.SmithWatermanAligner.constructor | smithwaterman/SmithWatermanAligner.java:28-63 | both cubes have one plane per prefix length; the three faces hold 0, every other cell holds 0 and null |
| JavaAligner.SmithWatermanAligner.Diagonalise | smithwaterman/SmithWatermanAligner.java:181-206 | the groups are the numbered enumeration bucketed by anti-diagonal, and the id counter advances by the number of interior cells |
| JavaAligner.SmithWatermanAligner.EmptyGroups | smithwaterman/SmithWatermanAligner.java:188-193 | the first loop makes numGroups empty groups, and none when numGroups is negative |
| Wavefront.CellsCount | smithwaterman/SmithWatermanAligner.java:196-204 | the three nested loops visit as many cells as the product of the three sequence lengths |
| Wavefront.EmptyAxisEmptyOrder | smithwaterman/SmithWatermanAligner.java:196-204 | with one empty sequence the loops visit no cell |
| JavaAligner.SmithWatermanAligner.DiagonalisePlane | smithwaterman/SmithWatermanAligner.java:197-203 | the two inner loops append the Coords of one plane, in order, to their groups |
| JavaAligner.SmithWatermanAligner.DiagonaliseLine | smithwaterman/SmithWatermanAligner.java:198-202 | the innermost loop appends the Coords of one line, in order, to their groups |
| JavaAligner.SmithWatermanAligner.Move | smithwaterman/SmithWatermanAligner.java:222-233 | move n gives the predecessor Step(n) and F there plus the column score |
| JavaAligner.SmithWatermanAligner.MoveScores | smithwaterman/SmithWatermanAligner.java:219-233 | the seven move scores, in move order |
| JavaAligner.SmithWatermanAligner.BestScore | smithwaterman/SmithWatermanAligner.java:215-244 | `bestScore` returns the first strictly greater move score starting from 0, a fresh Coord at that move's predecessor (origin if none), and advances the id counter once |
| JavaAligner.SmithWatermanAligner.MovePrefixAll | smithwaterman/SmithWatermanAligner.java:219-241 | the moves run through by the loop are all seven |
| JavaAligner.SmithWatermanAligner.MoveScoresPick | smithwaterman/SmithWatermanAligner.java:215-244 | when the predecessors hold their recurrence values, `bestScore` gives F and T of the recurrence |
| JavaAligner.SmithWatermanAligner.Align | smithwaterman/SmithWatermanAligner.java:66-177 | negative MAX_THREADS raises on the first group; zero computes nothing and returns empty strings; otherwise every cell holds the recurrence and the result is the backtrace from T of the best cell |
| JavaAligner.JavaResult | smithwaterman/SmithWatermanAligner.java:66-177 | NegativeArraySize exactly when MAX_THREADS is negative and there is a group; any result is three strands of equal length |
| JavaAligner.JavaEmptyInput | smithwaterman/SmithWatermanAligner.java:66-174 | with an empty sequence `bestT` stays the Coord (0, 0, 0) and `align`, when it returns, returns three empty strings |
| JavaAligner.SmithWatermanAligner.ScanGroups | smithwaterman/SmithWatermanAligner.java:79-131 | the group loop fills every group and keeps the scan's best score and Coord, or raises for a negative thread count |
| JavaAligner.SmithWatermanAligner.ProcessGroup | smithwaterman/SmithWatermanAligner.java:85-130 | one pass fills its group on top of the earlier ones and extends the scan by that group |
| JavaAligner.SmithWatermanAligner.PredecessorsReady | smithwaterman/SmithWatermanAligner.java:71-79 | once the earlier anti-diagonals are filled, every predecessor of a cell holds its recurrence value |
| JavaAligner.SmithWatermanAligner.Store | smithwaterman/SmithWatermanAligner.java:103-104 | writing a recurrence value fills the cell and changes no other cell's state |
| JavaAligner.SmithWatermanAligner.ComputeCell | smithwaterman/SmithWatermanAligner.java:101-104 | a thread's work on one Coord fills its cell with the recurrence's F and T |
| JavaAligner.SmithWatermanAligner.RunThread | smithwaterman/SmithWatermanAligner.java:95-107 | thread t fills exactly the cells whose id is a multiple of t and keeps the others |
| JavaAligner.SmithWatermanAligner.FillGroup | smithwaterman/SmithWatermanAligner.java:85-122 | after the threads of a group, every cell of its anti-diagonal is filled |
| JavaAligner.SmithWatermanAligner.ScanCubes | smithwaterman/SmithWatermanAligner.java:125-130 | the scan never lowers the best score |
| JavaAligner.SmithWatermanAligner.ScanCubesFilled | smithwaterman/SmithWatermanAligner.java:125-130 | on filled cells, scanning the cubes is scanning the recurrence |
| JavaAligner.SmithWatermanAligner.ScanCubesBlank | smithwaterman/SmithWatermanAligner.java:125-130 | on cells never computed, the scan changes nothing |
| JavaAligner.SmithWatermanAligner.ScanGroup | smithwaterman/SmithWatermanAligner.java:124-130 | the scan of one group, equal to the recurrence's scan on filled cells and a no-op on blank ones |
| JavaAligner.SmithWatermanAligner.PrependMove | smithwaterman/SmithWatermanAligner.java:144-167 | of the seven moves, the one T points to puts its column in front of the alignment |
| JavaAligner.SmithWatermanAligner.Backtrace | smithwaterman/SmithWatermanAligner.java:142-174 | the backtrace loop returns the alignment read back from its start cell |
| JavaAligner.SmithWatermanAligner.BackStep | smithwaterman/SmithWatermanAligner.java:143-173 | one round prepends T's column and moves to an earlier cell whose read-back completes the alignment |
| JavaAligner.GroupCoords | smithwaterman/SmithWatermanAligner.java:181-206 | the Coords of group g are exactly the interior cells of anti-diagonal g |
| JavaAligner.PositionsMembers | smithwaterman/SmithWatermanAligner.java:98-104 | the cell of every Coord of a group is one of the group's cells |
| JavaAligner.AppendCoord | smithwaterman/SmithWatermanAligner.java:199-201 | appending a new Coord to its group extends the bucketed enumeration by one cell |
| JavaAligner.Buckets | smithwaterman/SmithWatermanAligner.java:188-201 | the Coords bucketed by anti-diagonal, one group per anti-diagonal up to the group count |
| RubyAligner.LastMax | smithwaterman.rb:73 | `each_with_index.max` returns the largest value and the last index holding it |
| RubyAligner.GroupBest | smithwaterman.rb:73-74 | a group's maximum is absent exactly for an empty group, otherwise it is at an interior cell |
| RubyAligner.RubyScan | smithwaterman.rb:59-79 | the group loop keeps an interior cell |
| RubyAligner.RubyBestCell | smithwaterman.rb:54-79 | the best cell, when there is one, is interior |
| RubyAligner.RubyResult | smithwaterman.rb:52-119 | ArgumentError exactly when the three sequences hold fewer than two residues in all; NoMethodError exactly when they hold more than two and one is empty; a result is three strands of equal length |
| RubyAligner.EndpointOf | smithwaterman.rb:76-77 | the kept end point, when not nil, is inside the cube |
| RubyAligner.GroupEmptyIff | smithwaterman.rb:40-50 | a group is empty exactly when one of the sequences is empty |
| RubyAligner.InteriorInSomeGroup | smithwaterman.rb:41-45 | every interior cell lies in one of the groups |
| RubyAligner.GroupMaximum | smithwaterman.rb:73 | a group's maximum is a cell of its anti-diagonal that none of it beats and that every later cell of it stays strictly below |
| RubyAligner.LevelMaximum | smithwaterman.rb:73 | the last maximum of an anti-diagonal bounds all of it, strictly for later cells |
| RubyAligner.LastMaxBounds | smithwaterman.rb:73 | in enumeration order, the last maximum bounds every cell, strictly for later ones |
| RubyAligner.AbsorbFinds | smithwaterman.rb:74-78 | `if bestF < maxF[0]` extends what the scan has found by one group |
| RubyAligner.RubyScanFinds | smithwaterman.rb:59-79 | after n groups, the best score bounds every cell seen and is held by its cell |
| RubyAligner.BoundedStep | smithwaterman.rb:74-78 | a bound below one anti-diagonal and a bound on it give the larger bound below the next |
| RubyAligner.RubyBestCellIsLastMaximum | smithwaterman.rb:54-79 | there is no best cell exactly when every cell scores 0; otherwise it is positive, unbeaten, strictly better than earlier anti-diagonals and than later cells of its own |
| RubyAligner.RubyDropsTwoColumns | smithwaterman.rb:74-118 | as written, `align` raises TypeError exactly when T of the best cell is on a face; otherwise it returns the reversed read-back from T of T of the best cell, without the last two columns |
| RubyAligner.ReverseReverse | smithwaterman.rb:109-111 | reading a strand backwards twice gives it back |
| RubyAligner.ReversedSnoc | smithwaterman.rb:109-111 | an appended column comes first once the strands are reversed |
| RubyAligner.ReversedTraceStep | smithwaterman.rb:102-116 | one append-and-step of the backtrace preserves the alignment still to be built |
| RubyAligner.ReversedInvolution | smithwaterman.rb:97-118 | reversing the output gives back the alignment read forwards |
| RubyAligner.ReversedKeepsScore | smithwaterman.rb:97-118 | the reversed output has the same score as the alignment |
| RubyAligner.RubySingleResidueExample | smithwaterman.rb:52-119 | for "A" three times, as written `align` raises TypeError, while the intended result is "A" three times |
| RubyAligner.RubySingleResidueBest | smithwaterman.rb:54-79 | for "A" three times, the best cell is (1, 1, 1) |
| RubyAligner.RubyUnitBestCell | smithwaterman.rb:54-79 | with one residue each, a positive (1, 1, 1) is the best cell |
| RubyAligner.RubyBestCellExists | smithwaterman.rb:54-79 | any positive cell means there is a best cell |
| RubyAligner.RubyIntendedAlignmentIsOptimal | smithwaterman.rb:97-118 | read forwards from the best cell itself, the alignment scores exactly the best score, which no cell exceeds, and each strand without gaps is a substring of its input |
| RubyAligner.PredsAt | smithwaterman.rb:66-68 | `ts` holds T of each cell of the group, in order |
| RubyAligner.PushCell | smithwaterman.rb:45 | one push appends the cell to its own group only |
| RubyAligner.PosBuckets | smithwaterman.rb:41-45 | the cells bucketed by anti-diagonal, one group per anti-diagonal up to the group count |
| RubyAligner.Preds | smithwaterman.rb:66-68 | one T entry per cell of the group |
| RubyAligner.Reverse | smithwaterman.rb:109-111 | a strand read backwards has its length |
| RubyAligner.SmithWaterman.constructor | smithwaterman.rb:5-38 | both cubes have one plane per prefix length; the faces hold F = 0, and every other cell is nil |
| RubyAligner.SmithWaterman.Diagonalise | smithwaterman.rb:40-50 | ArgumentError for a negative group count, otherwise exactly the anti-diagonal groups |
| RubyAligner.SmithWaterman.DiagonalisePlane | smithwaterman.rb:43-47 | the two inner loops push the cells of one plane, in order, to their groups |
| RubyAligner.SmithWaterman.DiagonaliseLine | smithwaterman.rb:44-46 | the innermost loop pushes the cells of one line, in order, to their groups |
| RubyAligner.SmithWaterman.MoveScores | smithwaterman.rb:128-139 | the first n move scores, in move order |
| RubyAligner.SmithWaterman.Move | smithwaterman.rb:130-134 | move n gives the predecessor Step(n) and F there plus `score` of the column |
| RubyAligner.SmithWaterman.MaxScore | smithwaterman.rb:125-142 | `maxScore` returns the first strictly greater move score starting from 0 and that move's predecessor, [0, 0, 0] if none |
| RubyAligner.SmithWaterman.MoveScoresPick | smithwaterman.rb:125-142 | on predecessors holding the recurrence, `maxScore` gives F and T of the recurrence |
| RubyAligner.SmithWaterman.PredecessorsReady | smithwaterman.rb:59-70 | once the earlier anti-diagonals are filled, every predecessor holds its recurrence value |
| RubyAligner.SmithWaterman.RunCell | smithwaterman.rb:65-69 | one thread fills its cell and reports F and T of the recurrence |
| RubyAligner.SmithWaterman.Store | smithwaterman.rb:66 | writing the recurrence's F and T fills the cell and keeps every filled cell filled |
| RubyAligner.SmithWaterman.FillGroup | smithwaterman.rb:63-72 | after a group's threads, its anti-diagonal is filled and `fs`, `ts` hold the scores and T entries in group order |
| RubyAligner.SmithWaterman.LevelFilled | smithwaterman.rb:59-72 | a filled anti-diagonal on top of the earlier ones fills everything below the next |
| RubyAligner.SmithWaterman.ProcessGroup | smithwaterman.rb:59-79 | one pass raises NoMethodError on an empty group, otherwise it extends the scan and the kept end point by one group |
| RubyAligner.SmithWaterman.KeepBest | smithwaterman.rb:73-78 | the maximum replaces the running best only when strictly greater, keeping T at its cell's T |
| RubyAligner.SmithWaterman.EndpointAt | smithwaterman.rb:77 | `@T[ts[g]...]` is T at T of the best cell |
| RubyAligner.SmithWaterman.AppendMove | smithwaterman.rb:103-114 | the first move whose predecessor is T appends its column |
| RubyAligner.SmithWaterman.Backtrace | smithwaterman.rb:98-116 | TypeError for a nil end point, otherwise the read-back from it with each strand reversed |
| RubyAligner.SmithWaterman.BackStep | smithwaterman.rb:102-115 | one round appends T's column and moves to an earlier cell, preserving what is left to build |
| RubyAligner.SmithWaterman.Settled | smithwaterman.rb:102 | once all is filled, F holds the recurrence everywhere, faces included |
| RubyAligner.SmithWaterman.Align | smithwaterman.rb:52-119 | `align` returns or raises exactly what RubyResult says |
| RubyAligner.SmithWaterman.ScanGroups | smithwaterman.rb:57-79 | the group loop raises NoMethodError exactly when there are groups but a sequence is empty, otherwise it keeps the scan's best score and end point |
| Adjacency.Slot | graphs.rb:111 | `paths[x]` reaches a row exactly for x in [-n, n), counting back from the end for negative x |
| Adjacency.WalkJoin | floydwarshall.rb:74-76 | two walks meeting at a vertex join into one walk |
| Adjacency.EdgeListSize | graphs.rb:83-91 | `getEdges` yields one pair per adjacency entry |
| Adjacency.Incident | graphs.rb:85-89 | the inner loop yields one pair per neighbour entry of one vertex |
| Adjacency.EdgeListMembers | graphs.rb:83-91 | a pair is listed exactly when its first part is a neighbour entry of its second |
| Adjacency.GetEdges | graphs.rb:83-91 | the loop yields the [neighbour, vertex] pairs vertex by vertex, in list order (floydwarshall.rb:22-30 is the same function) |
| Adjacency.MixStep | graphs.rb:117-123 | writing the next value into cell (i, j) moves the in-place sweep one cell on |
| Adjacency.MixKeep | graphs.rb:121-123 | a cell the round leaves alone can be stepped over |
| Adjacency.MixStart | graphs.rb:114-126 | a round's sweep starts from the matrix before the round |
| Adjacency.MixDone | graphs.rb:114-126 | a round's sweep ends at the matrix after the round |
| Adjacency.MixRowEnd | graphs.rb:115-125 | finishing row i is starting row i + 1 |
| Adjacency.MarkedIsEdge | graphs.rb:111 | the edge writes set paths[x][y] to 1 exactly for the graph's edges (floydwarshall.rb:49 likewise) |
| FloydWarshall.PathsAfter | floydwarshall.rb:39-61 | the length matrix after k rounds is n x n |
| FloydWarshall.IntermediatesAfter | floydwarshall.rb:43-61 | the intermediates matrix after k rounds is n x n |
| FloydWarshall.Mid | floydwarshall.rb:55-58 | a recorded intermediate is an earlier round that strictly shortened the pair |
| Adjacency.MarkedWitness | graphs.rb:111 | paths[x][y] is set to 1 exactly when some edge [nb, y] has nb indexing row x (floydwarshall.rb:49 writes the same cells) |
| FloydWarshall.FloydWarshall | floydwarshall.rb:34-65 | NoMethodError exactly when a neighbour entry is outside [-n, n); otherwise the matrices of the recurrence after all rounds |
| FloydWarshall.Relax | floydwarshall.rb:52-61 | the triple loop, in place, leaves the matrices after all rounds |
| FloydWarshall.RelaxCell | floydwarshall.rb:55-58 | one step of the triple loop advances the in-place sweep by one cell |
| FloydWarshall.CrossFixed | floydwarshall.rb:52-61 | round k leaves row k and column k unchanged, so the in-place update reads the right values |
| FloydWarshall.LenNonIncreasing | floydwarshall.rb:55-58 | no round lengthens paths[i][j]; from round 0, no length exceeds the initial one |
| FloydWarshall.OffDiagonalPositive | floydwarshall.rb:46-57 | distinct vertices never get length 0 |
| FloydWarshall.DiagonalKept | floydwarshall.rb:46-58 | the diagonal keeps 0 (1 with a self loop) and never gets an intermediate |
| FloydWarshall.MidIsLastImprovement | floydwarshall.rb:55-58 | intermediates[i][j] is m exactly when round m was the last to shorten paths[i][j] |
| FloydWarshall.NoMidNoImprovement | floydwarshall.rb:43-58 | intermediates[i][j] stays nil exactly when no round shortened the pair |
| FloydWarshall.NoMidInitial | floydwarshall.rb:43-58 | a pair with nil intermediate still has its initial length |
| FloydWarshall.MidConsistent | floydwarshall.rb:55-58 | the recorded intermediate is an earlier round other than i and j, and splits the length into two no longer together |
| FloydWarshall.Triangle | floydwarshall.rb:52-61 | after k rounds the lengths obey the triangle inequality through every vertex w < k |
| FloydWarshall.ExactAtEnd | floydwarshall.rb:52-65 | at the end the recorded intermediate splits paths[i][j] exactly |
| FloydWarshall.OutcomeConsistent | floydwarshall.rb:34-65 | the returned matrices have what `shortestPath` relies on |
| FloydWarshall.ShortestPath | floydwarshall.rb:68-77 | `shortestPath` lists vertices of the graph, fewer than paths[u][v] of them |
| FloydWarshall.ShortestPathIsWalk | floydwarshall.rb:68-77 | for a reachable pair u != v, u, the listed vertices and v form a walk of exactly paths[u][v] edges |
| Graphs.PathsAfter | graphs.rb:101-126 | the length matrix after k rounds is n x n |
| Graphs.IntermediatesAfter | graphs.rb:105-126 | the intermediates matrix after k rounds is n x n |
| Graphs.Mids | graphs.rb:105-123 | an intermediates list is never empty, and the vertices in it are earlier rounds |
| Graphs.FloydWarshall | graphs.rb:95-130 | NoMethodError exactly when a neighbour entry is outside [-n, n); otherwise the length and intermediates matrices of the recurrence after all rounds |
| Graphs.Relax | graphs.rb:114-126 | the triple loop, in place, leaves the matrices after all rounds |
| Graphs.RelaxCell | graphs.rb:117-123 | one step of the triple loop, with its clear-and-push and its tie push, advances the sweep by one cell |
| Graphs.CrossFixed | graphs.rb:114-126 | round k leaves the lengths of row k and column k unchanged |
| Graphs.RoundKeepsCross | graphs.rb:114-126 | round k leaves the intermediates of row k and column k unchanged |
| Graphs.LenNonIncreasing | graphs.rb:117-118 | no round lengthens paths[i][j]; from round 0, no length exceeds the initial one |
| Graphs.OffDiagonalPositive | graphs.rb:101-118 | distinct vertices are at length at least 1 |
| Graphs.MidsOrdered | graphs.rb:105-123 | each intermediates list is nil first, if at all, then strictly ascending earlier rounds |
| Graphs.NilMeansInitial | graphs.rb:105-123 | nil stays in a list only while the pair has its initial length |
| Graphs.MidsConsistent | graphs.rb:117-123 | each recorded intermediate is an earlier round other than i and j and splits the length into two no longer together |
| Graphs.Triangle | graphs.rb:114-126 | after k rounds the lengths obey the triangle inequality through every vertex w < k |
| Graphs.ExactAtEnd | graphs.rb:114-129 | at the end each recorded intermediate splits paths[i][j] exactly |
| Graphs.OutcomeConsistent | graphs.rb:95-130 | the returned matrices have what `shortestPaths` relies on to terminate |
| Graphs.Combine | graphs.rb:143-150 | at least one prefix and one suffix give at least one path |
| Graphs.Enumerate | graphs.rb:133-155 | `shortestPaths` always returns at least one path |
| Graphs.EnumerateVia | graphs.rb:135-152 | a nonempty intermediates list yields at least one path |
| Graphs.ShortestPaths | graphs.rb:133-155 | the loops return the as-written enumeration, one `pop` per suffix path |
| Graphs.PathsVia | graphs.rb:135-152 | one entry of the intermediates list contributes its part of the enumeration |
| Graphs.CombineLoops | graphs.rb:143-150 | the two nested loops build the as-written combination of prefixes and suffixes |
| Graphs.PopAndJoin | graphs.rb:144-149 | the inner loop pops the prefix once before each suffix and pushes prefix plus suffix |
| Graphs.CorrectedShortestPaths | graphs.rb:133-155 | the enumeration with one `pop` per combination returns at least one path |
| Graphs.CombineWalks | graphs.rb:143-150 | with one pop per combination, prefix walks and suffix walks join into walks of the summed length |
| Graphs.CorrectedPathsAreWalks | graphs.rb:133-155 | with one pop per combination, every path listed for a reachable pair u != v is a walk from u to v of exactly paths[u][v] edges |
| Graphs.ViaWalks | graphs.rb:135-152 | each entry of the intermediates list yields walks of length paths[u][v] |
| Graphs.EdgeIsListed | graphs.rb:111 | with neighbour entries in [0, n), an edge is a listed neighbour |
| Graphs.EdgeKeepsNil | graphs.rb:105-123 | a pair joined by an edge keeps length 1 and the list [nil] in every round |
| Graphs.WitnessTie | graphs.rb:121-122 | on the five-vertex graph below, a tie in round 2 appends 2 after 1 to the list of (3, 0) |
| Graphs.WitnessFarPair | graphs.rb:101-120 | on the five-vertex graph, 4 and 0 are still at the initial length 5 after round 2 |
| Graphs.WitnessFirstRoute | graphs.rb:117-120 | on the five-vertex graph, round 1 sends 3 to 0 in two steps through 1 |
| Graphs.WitnessFourToZero | graphs.rb:95-130 | on the five-vertex graph, 4 reaches 0 in three steps, recorded through 3 |
| Graphs.WitnessMids | graphs.rb:95-130 | the final lists of (4, 0) and (3, 0) on the five-vertex graph are [3] and [1, 2] |
| Graphs.WitnessNil | graphs.rb:105-111 | on the five-vertex graph, neighbours keep the list [nil] |
| Graphs.WitnessMatrices | graphs.rb:95-130 | the final intermediates of the five-vertex graph send 4 to 0 through 3, and 3 to 0 through 1 and 2 |
| Graphs.EnumerateDirect | graphs.rb:136-138 | a list [nil] yields the single path [u, v] |
| Graphs.EnumerateThrough | graphs.rb:135-152 | a list [m1, m2] yields the paths through m1, then those through m2 |
| Graphs.EnumerateOnce | graphs.rb:135-152 | a list [m] yields the combination of the paths to m and from m |
| Graphs.CombineSingle | graphs.rb:143-150 | one prefix and one suffix: the prefix loses its last vertex once |
| Graphs.CombineTwo | graphs.rb:143-150 | one prefix and two suffixes: as written, the prefix loses a second vertex before the second suffix |
| Graphs.EnumerateFourToZero | graphs.rb:133-155 | on matrices of that shape, shortestPaths(4, 0) is [[4,3,1,0],[3,2,0]] as written and [[4,3,1,0],[4,3,2,0]] corrected |
| Graphs.PopDropsPrefix | graphs.rb:143-150 | as written, on the five-vertex graph, the second shortest path from 4 to 0 comes out as [3, 2, 0] |
| Graphs.PopOnceKeepsPrefix | graphs.rb:143-150 | corrected, both shortest paths from 4 to 0 start at 4 |
| Graphs.PathTally | graphs.rb:171-173 | every path is counted once, either as passing v or as avoiding it |
| Graphs.Betweenness | graphs.rb:158-179 | `betweenness` returns or raises exactly what BetweennessOf says, counting over the paths `shortestPaths` returns as written |
| Graphs.CountRow | graphs.rb:169-175 | the loop over t adds the counts of one row of pairs, over the as-written paths |
| Graphs.CountPaths | graphs.rb:171-173 | the loop over one pair's paths adds the counts of those paths |
| Graphs.Fraction | graphs.rb:158-179 | the share of counted paths through v lies in [0, 1]; the only exceptions are NoMethodError and ZeroDivisionError |
| Graphs.BetweennessOf | graphs.rb:158-179 | as written, betweenness is a value in [0, 1], or NoMethodError or ZeroDivisionError |
| Graphs.CorrectedBetweennessOf | graphs.rb:158-179 | over the corrected enumeration, betweenness is a value in [0, 1], or NoMethodError or ZeroDivisionError |
| Graphs.RowTallyPositive | graphs.rb:169-175 | a row contributes some path exactly when it has a counted pair |
| Graphs.GridTallyPositive | graphs.rb:168-176 | some path is counted exactly when some pair is counted |
| Graphs.BetweennessDefined | graphs.rb:158-179 | `betweenness` succeeds exactly when every neighbour entry is in range and some pair (s, t) of vertices other than v remains; the corrected variant succeeds on the same graphs |
| Graphs.AllBetweenness | graphs.rb:182-186 | all values in vertex order, or the first vertex's exception |
| Graphs.AllBetweennessDefined | graphs.rb:182-186 | `allBetweenness` succeeds exactly on graphs with entries in range and either no vertex or at least three |
| Automorphisms.InsertKeepsOrder | graphs.rb:42-43 | inserting into an ascending list keeps it ascending and adds exactly the new element |
| Automorphisms.SortSorts | graphs.rb:42-43 | `sort` returns an ascending rearrangement of its argument |
| Automorphisms.AscendingUnique | graphs.rb:42-43 | an ascending list is fixed by its multiset of elements |
| Automorphisms.SortEqual | graphs.rb:42-43 | two arrays sort equal exactly when they hold the same elements with multiplicity |
| Automorphisms.UniqMembers | graphs.rb:49 | `uniq` keeps every element, adds none, and leaves no repeats |
| Automorphisms.InUniq | graphs.rb:49 | an element is in `s.uniq` exactly when it is in s |
| Automorphisms.UniqOfNoDup | graphs.rb:64 | `uniq` leaves a list without repeats as it is |
| Automorphisms.UniqBang | graphs.rb:62 | `uniq!` returns nil exactly when nothing repeats, otherwise the shorter `uniq` |
| Automorphisms.UniqShorter | graphs.rb:62 | `uniq` never lengthens, and strictly shortens a list with repeats |
| Automorphisms.Insert | graphs.rb:42-43 | inserting adds one element |
| Automorphisms.Sort | graphs.rb:42-43 | `sort` keeps the length |
| Automorphisms.Uniq | graphs.rb:49 | `uniq` never lengthens |
| Automorphisms.SwappableMeans | graphs.rb:40-43 | the swap test holds exactly when the neighbour lists, or the closed neighbourhoods, hold the same vertices; it is symmetric |
| Automorphisms.AutoMorphismOrbitPairs | graphs.rb:34-50 | the loops return OrbitPairs: the pushed pairs in loop order, without repeats |
| Automorphisms.OrbitPairs | graphs.rb:34-50 | the pair list has no repeats |
| Automorphisms.PushPairs | graphs.rb:38-47 | one outer round pushes `[v1, v2].sort` for every passing v2, in order |
| Automorphisms.SortPair | graphs.rb:44 | `[v1, v2].sort` is the two vertices in ascending order |
| Automorphisms.FlattenMembers | graphs.rb:37-48 | a pair is pushed in the whole loop exactly when it is pushed in some round |
| Automorphisms.PairRowMembers | graphs.rb:38-47 | a round pushes exactly the ordered pairs of v1 with the passing vertices |
| Automorphisms.OrbitPairsMembers | graphs.rb:34-50 | the result lists exactly the pairs [a, b], a < b, with the same neighbourhoods or closed neighbourhoods |
| Automorphisms.PairShape | graphs.rb:44-49 | every listed pair is two vertices in ascending order |
| Automorphisms.OverlapSelf | graphs.rb:58 | a nonempty pair shares an element with itself |
| Automorphisms.AutoMorphismOrbits | graphs.rb:52-65 | the loops return Orbits: one orbit per pair, without repeats |
| Automorphisms.Orbits | graphs.rb:52-65 | the orbit list has no repeats |
| Automorphisms.OrbitOf | graphs.rb:55-63 | one outer round builds the orbit of pair i, and `uniq!` never returns nil there |
| Automorphisms.GatherMembers | graphs.rb:57-61 | the gathered vertices are those of the pair and of every pair overlapping it |
| Automorphisms.GatherRepeats | graphs.rb:62 | a pair overlaps itself, so the gathered list always has a repeat and `uniq!` is never nil |
| Automorphisms.StrictWhenDistinct | graphs.rb:62 | a sorted list without repeats is strictly ascending |
| Automorphisms.OrbitShape | graphs.rb:55-63 | each orbit is strictly ascending and holds exactly the vertices of the pairs overlapping its pair |
| Automorphisms.PairInOrbit | graphs.rb:55-63 | each pair lies inside its own orbit |
| Automorphisms.InOrbitList | graphs.rb:55-63 | the orbit list holds the orbit of each pair and nothing else |
| Automorphisms.OrbitList | graphs.rb:55-63 | the outer loop pushes one orbit per pair |
| Automorphisms.OrbitsNoDup | graphs.rb:64 | no orbit is listed twice |
| Automorphisms.OrbitsMembers | graphs.rb:52-65 | the result lists exactly the orbits of the listed pairs |

## Left out

- Threads and `join` in both aligners: the threads of a group run one after the other. Each thread writes the recurrence's value, so any interleaving fills the same cube. Interleavings and the `InterruptedException` exit are not modelled.
- The Blosum table: `Blosum` is not part of this model. The pair score is an arbitrary function `(char, char) -> real` of the input.
- IEEE doubles: scores are exact `real`s. Rounding in `/ 3.0` and in the sums is not modelled, nor are comparisons of rounded values.
- Coords.IdCounter.NewCoord: `currentId` is unbounded; the 32-bit wrap-around after 2^31 Coords is not modelled.
- Java `int` overflow of the group count and of `i + j + k - 3` is not modelled.
- `smithwaterman/Pair.java` is a tuple here.
- `java/SmithWatermanAligner.java`, `smithwaterman/SmithWaterman.java`, `java/SmithWaterman.java`, `sw.rb`, `utils.rb`, `kmedioids.rb` and `c/swcuda.c` are not part of this model. These are drivers, the command line, file reading, an earlier draft and other programs.
- `printMatrix`, the `q2_2_*` functions, the graph constants and the top-level calls of `graphs.rb` and `floydwarshall.rb:81` are not part of this model. They are output and demonstration code.
- Ruby's `@A[i - 1, 1]` gives a one-character string; here it is the character.
- The graphs are `seq<seq<int>>`. Neighbour entries that are not integers are not modelled.
- Out-of-range entries are modelled: Ruby's negative indexing and the NoMethodError on `nil`.
- Rational is modelled as exact `real` division, with ZeroDivisionError as an error result.
- Stack depth of the recursive `shortestPath` and `shortestPaths` is not modelled.
- FloydWarshall.ShortestPathIsWalk: the read-back is shown to be a walk with exactly paths[u][v] edges. It is not shown that no shorter walk exists, i.e. that paths[u][v] is the graph distance. The triangle inequality after every round is what is proved.
- Graphs.CorrectedPathsAreWalks: every listed path is a walk of length paths[u][v] between reachable vertices. Not proved: that every shortest path is listed, or that a path is listed only once.
- For pairs never improved (paths[u][v] is still the vertex count), `shortestPaths` returns the fake path [[u, v]]. This behaviour is modelled but is not a walk.
- Automorphisms.OrbitPairsMembers: it states the test the code applies, equal neighbourhoods. It does not prove that such a pair is exchanged by an automorphism of the graph, or that the merged orbits are the orbits of the automorphism group.
- Automorphisms.UniqMembers: the order `uniq` keeps (first occurrences, in order) is the definition of `Uniq`. The lemmas state membership, absence of repeats and identity on lists without repeats, not the order.
- Ruby's `sort` is an insertion sort here. Its output is the unique ascending rearrangement (Automorphisms.AscendingUnique), so any correct sort gives the same array.

## Findings

| source | as written | input that shows it | evidently intended | confidence | as-written member | corrected member |
|---|---|---|---|---|---|---|
| smithwaterman/SmithWatermanAligner.java:128 | `bestT = T[c.x][c.y][c.z]` keeps T of the best cell, so the backtrace at lines 138-174 starts one cell late and the best cell's own column is lost | A = B = C = "A" with a pair score of 2 for identical characters and -1 otherwise: `align` returns three empty strings | the backtrace starts at the best cell itself and returns "A", "A", "A" | not executed | JavaAligner.JavaDropsBestColumn | JavaAligner.IntendedAlignmentIsOptimal |
| smithwaterman.rb:77 | `bestT = @T[ts[g]...]` is T of T of the best cell, two columns back, and nil when T of the best cell is on a face; lines 109-111 append columns, so every strand comes out reversed | A = B = C = "A" with a pair score of 2 for identical characters and -1 otherwise: `align` raises TypeError at `@F[i]` | the backtrace starts at the best cell and returns "A", "A", "A" read forwards | not executed | RubyAligner.RubyDropsTwoColumns | RubyAligner.RubyIntendedAlignmentIsOptimal |
| graphs.rb:146 | `uToMid.pop` runs once per suffix path, so the shared prefix loses one more vertex for each further suffix | graph [[1,2],[0,3],[0,3],[1,2,4],[3]], `shortestPaths(4, 0, ...)` gives [[4,3,1,0],[3,2,0]] | the last vertex of each prefix is dropped once, giving [[4,3,1,0],[4,3,2,0]] | not executed | Graphs.PopDropsPrefix | Graphs.CorrectedPathsAreWalks |
