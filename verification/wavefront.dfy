/**
 * The anti-diagonal grouping of the interior cells used by `diagonalise`
 * in both aligners (smithwaterman/SmithWatermanAligner.java and
 * smithwaterman.rb): the cells (i, j, k) with 1 <= i <= |A|, 1 <= j <= |B|,
 * 1 <= k <= |C| are enumerated i-outer, j-middle, k-inner and cell (i, j, k)
 * goes to group i + j + k - 3.
 *
 * The enumeration and the grouping are specification functions here; the
 * loops of the two `diagonalise` methods are proved to build exactly them.
 */
module Wavefront {
  import opened Recurrence

  /** Lexicographic order on cells: the order in which the nested loops visit them. */
  predicate Before(p: Pos, q: Pos)
  {
    p.x < q.x || (p.x == q.x && (p.y < q.y || (p.y == q.y && p.z < q.z)))
  }

  /** Strictly increasing in lexicographic order (so also free of duplicates). */
  predicate Ascending(s: seq<Pos>)
  {
    forall m, n :: 0 <= m < n < |s| ==> Before(s[m], s[n])
  }

  /** An interior cell of the cube for sequences of lengths la, lb and lc. */
  predicate Inside(la: nat, lb: nat, lc: nat, p: Pos)
  {
    1 <= p.x <= la && 1 <= p.y <= lb && 1 <= p.z <= lc
  }

  /** The cells visited by the innermost loop for fixed i and j, up to k = lc. */
  function Line(i: int, j: int, lc: nat): seq<Pos>
  {
    if lc == 0 then [] else Line(i, j, lc - 1) + [Pos(i, j, lc)]
  }

  /** The cells visited by the two inner loops for fixed i, up to j = lb. */
  function Plane(i: int, lb: nat, lc: nat): seq<Pos>
  {
    if lb == 0 then [] else Plane(i, lb - 1, lc) + Line(i, lb, lc)
  }

  /** All interior cells in the order the three nested loops visit them, up to i = la. */
  function Cells(la: nat, lb: nat, lc: nat): seq<Pos>
  {
    if la == 0 then [] else Cells(la - 1, lb, lc) + Plane(la, lb, lc)
  }

  /** The cells of s that belong to group g (i + j + k - 3 == g), in the order of s. */
  function Bucket(s: seq<Pos>, g: int): seq<Pos>
  {
    if s == [] then []
    else Bucket(s[..|s| - 1], g) + (if Sum(s[|s| - 1]) == g + 3 then [s[|s| - 1]] else [])
  }

  /** `aLength + bLength + cLength - 2`: the number of groups asked for (negative for tiny inputs). */
  function NumGroups(la: nat, lb: nat, lc: nat): int
  {
    la + lb + lc - 2
  }

  /** Group g as `diagonalise` fills it. */
  function Group(la: nat, lb: nat, lc: nat, g: int): seq<Pos>
  {
    Bucket(Cells(la, lb, lc), g)
  }

  /** All groups, one per non-negative index below NumGroups. */
  function Groups(la: nat, lb: nat, lc: nat): (gs: seq<seq<Pos>>)
    ensures |gs| == if NumGroups(la, lb, lc) > 0 then NumGroups(la, lb, lc) else 0
  {
    seq(if NumGroups(la, lb, lc) > 0 then NumGroups(la, lb, lc) else 0, g => Group(la, lb, lc, g))
  }

  /** The groups one after the other: the order in which the best-cell scan visits cells. */
  function Flatten(gs: seq<seq<Pos>>): seq<Pos>
  {
    if gs == [] then [] else Flatten(gs[..|gs| - 1]) + gs[|gs| - 1]
  }

  /** The scan order of the whole cube. */
  function Order(la: nat, lb: nat, lc: nat): seq<Pos>
  {
    Flatten(Groups(la, lb, lc))
  }

  /** Wave order: by anti-diagonal first, lexicographically within one. */
  predicate WaveBefore(p: Pos, q: Pos)
  {
    Sum(p) < Sum(q) || (Sum(p) == Sum(q) && Before(p, q))
  }

  predicate WaveAscending(s: seq<Pos>)
  {
    forall m, n :: 0 <= m < n < |s| ==> WaveBefore(s[m], s[n])
  }

  /** In a wave-ascending run no cell is wave-before one at the same or an earlier index. */
  lemma WaveAscendingNoBackward(s: seq<Pos>)
    requires WaveAscending(s)
    ensures forall m, k :: 0 <= k <= m < |s| ==> !WaveBefore(s[m], s[k])
  {
    forall m, k | 0 <= k <= m < |s|
      ensures !WaveBefore(s[m], s[k])
    {
      if k < m {
        assert WaveBefore(s[k], s[m]);
      }
    }
  }

  /** In a run in group order, a cell that comes before another sits at a smaller index. */
  lemma WaveBeforeIndex(s: seq<Pos>, m: int, k: int)
    requires WaveAscending(s) && 0 <= m < |s| && 0 <= k < |s| && WaveBefore(s[m], s[k])
    ensures m < k
  {
    WaveAscendingNoBackward(s);
  }

  /** In an ascending run no cell comes before one at the same or an earlier index. */
  lemma AscendingNoBackward(s: seq<Pos>)
    requires Ascending(s)
    ensures forall m, k :: 0 <= k <= m < |s| ==> !Before(s[m], s[k])
  {
    forall m, k | 0 <= k <= m < |s|
      ensures !Before(s[m], s[k])
    {
      if k < m {
        assert Before(s[k], s[m]);
      }
    }
  }

  // ---------------------------------------------------------------------
  // The enumeration
  // ---------------------------------------------------------------------

  /** Joining two ascending runs whose every element is in order gives an ascending run. */
  lemma AscendingConcat(s: seq<Pos>, t: seq<Pos>)
    requires Ascending(s) && Ascending(t)
    requires forall x, y :: x in s && y in t ==> Before(x, y)
    ensures Ascending(s + t)
  {
    forall m, n | 0 <= m < n < |s + t|
      ensures Before((s + t)[m], (s + t)[n])
    {
      if n < |s| {
      } else if m >= |s| {
        assert (s + t)[m] == t[m - |s|] && (s + t)[n] == t[n - |s|];
      } else {
        assert (s + t)[m] in s && (s + t)[n] in t;
      }
    }
  }

  lemma {:induction false} LineShape(i: int, j: int, lc: nat)
    ensures |Line(i, j, lc)| == lc && Ascending(Line(i, j, lc))
    ensures forall p :: p in Line(i, j, lc) <==> p.x == i && p.y == j && 1 <= p.z <= lc
  {
    if lc > 0 {
      LineShape(i, j, lc - 1);
      AscendingConcat(Line(i, j, lc - 1), [Pos(i, j, lc)]);
    }
  }

  lemma {:induction false} PlaneMembers(i: int, lb: nat, lc: nat)
    ensures forall p :: p in Plane(i, lb, lc) <==> p.x == i && 1 <= p.y <= lb && 1 <= p.z <= lc
  {
    if lb > 0 {
      PlaneMembers(i, lb - 1, lc);
      LineShape(i, lb, lc);
    }
  }

  lemma {:induction false} PlaneLength(i: int, lb: nat, lc: nat)
    ensures |Plane(i, lb, lc)| == lb * lc
  {
    if lb > 0 {
      PlaneLength(i, lb - 1, lc);
      LineShape(i, lb, lc);
      ProductStep(lb, lc);
    }
  }

  lemma {:induction false} PlaneAscending(i: int, lb: nat, lc: nat)
    ensures Ascending(Plane(i, lb, lc))
  {
    if lb > 0 {
      PlaneAscending(i, lb - 1, lc);
      PlaneMembers(i, lb - 1, lc);
      LineShape(i, lb, lc);
      AscendingConcat(Plane(i, lb - 1, lc), Line(i, lb, lc));
    }
  }

  /** (n - 1) * m + m == n * m, kept apart from the sequence reasoning. */
  lemma ProductStep(n: nat, m: nat)
    requires n > 0
    ensures (n - 1) * m + m == n * m
  {
  }

  lemma {:induction false} CellsMembers(la: nat, lb: nat, lc: nat)
    ensures forall p :: p in Cells(la, lb, lc) <==> Inside(la, lb, lc, p)
  {
    if la > 0 {
      CellsMembers(la - 1, lb, lc);
      PlaneMembers(la, lb, lc);
    }
  }

  lemma {:induction false} CellsLength(la: nat, lb: nat, lc: nat)
    ensures |Cells(la, lb, lc)| == la * (lb * lc)
  {
    if la > 0 {
      CellsLength(la - 1, lb, lc);
      PlaneLength(la, lb, lc);
      ProductStep(la, lb * lc);
    }
  }

  lemma {:induction false} CellsAscending(la: nat, lb: nat, lc: nat)
    ensures Ascending(Cells(la, lb, lc))
  {
    if la > 0 {
      CellsAscending(la - 1, lb, lc);
      PlaneAscending(la, lb, lc);
      var s, t := Cells(la - 1, lb, lc), Plane(la, lb, lc);
      forall x, y | x in s && y in t
        ensures Before(x, y)
      {
        CellsMembers(la - 1, lb, lc);
        PlaneMembers(la, lb, lc);
        assert x.x < y.x;
      }
      AscendingConcat(s, t);
      assert Cells(la, lb, lc) == s + t;
    }
  }

  /**
   * The nested loops visit every interior cell exactly once, in
   * lexicographic order, la * lb * lc cells in all.
   */
  lemma CellsShape(la: nat, lb: nat, lc: nat)
    ensures |Cells(la, lb, lc)| == la * lb * lc && Ascending(Cells(la, lb, lc))
    ensures forall p :: p in Cells(la, lb, lc) <==> Inside(la, lb, lc, p)
  {
    CellsMembers(la, lb, lc);
    CellsLength(la, lb, lc);
    CellsAscending(la, lb, lc);
    assert la * (lb * lc) == la * lb * lc;
  }

  /** A bucket keeps exactly the cells of its anti-diagonal, in their original order. */
  lemma BucketShape(s: seq<Pos>, g: int)
    ensures forall p :: p in Bucket(s, g) <==> p in s && Sum(p) == g + 3
    ensures Ascending(s) ==> Ascending(Bucket(s, g))
  {
    BucketMembers(s, g);
    if Ascending(s) {
      BucketAscending(s, g);
    }
  }

  /** The bucket keeps exactly the cells of s on the plane i + j + k == g + 3. */
  lemma {:induction false} BucketMembers(s: seq<Pos>, g: int)
    ensures forall p :: p in Bucket(s, g) <==> p in s && Sum(p) == g + 3
  {
    if s != [] {
      BucketMembers(s[..|s| - 1], g);
      assert s == s[..|s| - 1] + [s[|s| - 1]];
    }
  }

  /** Filtering keeps the order of an ascending sequence. */
  lemma {:induction false} BucketAscending(s: seq<Pos>, g: int)
    requires Ascending(s)
    ensures Ascending(Bucket(s, g))
  {
    if s != [] {
      var init := s[..|s| - 1];
      var last := s[|s| - 1];
      assert Ascending(init);
      BucketAscending(init, g);
      BucketMembers(init, g);
      forall x | x in Bucket(init, g)
        ensures Before(x, last)
      {
        var m :| 0 <= m < |init| && init[m] == x;
      }
      AscendingConcat(Bucket(init, g), if Sum(last) == g + 3 then [last] else []);
    }
  }

  /**
   * Group g holds exactly the interior cells with i + j + k - 3 == g, each
   * once, in i-outer / j-middle / k-inner order.
   */
  lemma GroupShape(la: nat, lb: nat, lc: nat, g: int)
    ensures Ascending(Group(la, lb, lc, g))
    ensures forall p :: p in Group(la, lb, lc, g) <==> Inside(la, lb, lc, p) && Sum(p) == g + 3
  {
    CellsShape(la, lb, lc);
    BucketShape(Cells(la, lb, lc), g);
  }

  /** When one sequence is empty there is no interior cell, so every group is empty. */
  lemma EmptyAxisEmptyGroups(la: nat, lb: nat, lc: nat, g: int)
    requires la == 0 || lb == 0 || lc == 0
    ensures Group(la, lb, lc, g) == []
  {
    CellsLength(la, lb, lc);
    assert Cells(la, lb, lc) == [];
  }

  /** The scan visits la * lb * lc cells. */
  lemma CellsCount(la: nat, lb: nat, lc: nat)
    ensures |Cells(la, lb, lc)| == la * lb * lc
  {
    CellsLength(la, lb, lc);
    assert la * (lb * lc) == la * lb * lc;
  }

  /** With one empty sequence the scan visits no cell at all. */
  lemma EmptyAxisEmptyOrder(la: nat, lb: nat, lc: nat)
    requires la == 0 || lb == 0 || lc == 0
    ensures Order(la, lb, lc) == []
  {
    var gs := Groups(la, lb, lc);
    for n := 0 to |gs|
      invariant Flatten(gs[..n]) == []
    {
      EmptyAxisEmptyGroups(la, lb, lc, n);
      assert gs[..n + 1][..n] == gs[..n];
    }
    assert gs[..|gs|] == gs;
  }

  /** The prefix of the scan made of the first n groups. */
  lemma {:induction false} FlattenPrefix(la: nat, lb: nat, lc: nat, n: nat)
    requires n <= |Groups(la, lb, lc)|
    ensures WaveAscending(Flatten(Groups(la, lb, lc)[..n]))
    ensures forall p :: p in Flatten(Groups(la, lb, lc)[..n]) <==> Inside(la, lb, lc, p) && Sum(p) < n + 3
  {
    var gs := Groups(la, lb, lc);
    if n > 0 {
      FlattenPrefix(la, lb, lc, n - 1);
      assert gs[..n][..n - 1] == gs[..n - 1];
      var s := Flatten(gs[..n - 1]);
      var t := gs[n - 1];
      assert Flatten(gs[..n]) == s + t;
      GroupShape(la, lb, lc, n - 1);
      forall m, k | 0 <= m < k < |s + t|
        ensures WaveBefore((s + t)[m], (s + t)[k])
      {
        if k < |s| {
        } else if m >= |s| {
          assert (s + t)[m] == t[m - |s|] && (s + t)[k] == t[k - |s|];
        } else {
          assert (s + t)[m] in s && (s + t)[k] in t;
        }
      }
    }
  }

  /**
   * The scan visits every interior cell exactly once: it holds exactly the
   * interior cells, by anti-diagonal and lexicographically within one.
   */
  lemma OrderShape(la: nat, lb: nat, lc: nat)
    ensures WaveAscending(Order(la, lb, lc))
    ensures forall p :: p in Order(la, lb, lc) <==> Inside(la, lb, lc, p)
  {
    var gs := Groups(la, lb, lc);
    FlattenPrefix(la, lb, lc, |gs|);
    assert gs[..|gs|] == gs;
  }
}
