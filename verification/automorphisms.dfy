/**
 * The automorphism part of graphs.rb: the pairs of vertices that can be
 * swapped because they have the same neighbours (or the same closed
 * neighbourhoods), and the orbits built by merging every pair with the
 * pairs it shares a vertex with.
 *
 * Ruby's `sort`, `uniq` and `uniq!` are modelled as functions whose
 * properties are proved as lemmas; the loops of the two Ruby methods are
 * methods proved to compute the functions OrbitPairs and Orbits, and what
 * those promise is proved as lemmas about them.
 */
module Automorphisms {
  import opened Outcome
  import opened Adjacency

  /** Non-decreasing, as Ruby's `sort` leaves an array of integers. */
  predicate Ascending(s: seq<int>)
  {
    forall i, j :: 0 <= i < j < |s| ==> s[i] <= s[j]
  }

  /** Strictly increasing. */
  predicate StrictlyAscending(s: seq<int>)
  {
    forall i, j :: 0 <= i < j < |s| ==> s[i] < s[j]
  }

  /** No element occurs twice. */
  predicate NoDup<T(==)>(s: seq<T>)
  {
    forall i, j :: 0 <= i < j < |s| ==> s[i] != s[j]
  }

  /** Puts x in front of the first element of s that is not smaller than it. */
  function Insert(x: int, s: seq<int>): (r: seq<int>)
    ensures |r| == |s| + 1
  {
    if s == [] || x <= s[0] then [x] + s else [s[0]] + Insert(x, s[1..])
  }

  /** Ruby's `sort` on an array of integers (an insertion sort). */
  function Sort(s: seq<int>): (r: seq<int>)
    ensures |r| == |s|
  {
    if s == [] then [] else Insert(s[0], Sort(s[1..]))
  }

  /** A value no greater than the first element of an ascending list can go in front. */
  lemma AscendingCons(a: int, t: seq<int>)
    requires Ascending(t) && (t != [] ==> a <= t[0])
    ensures Ascending([a] + t)
  {
  }

  /** Inserting into an ascending list keeps it ascending and adds exactly x. */
  lemma {:induction false} InsertKeepsOrder(x: int, s: seq<int>)
    requires Ascending(s)
    ensures Ascending(Insert(x, s)) && multiset(Insert(x, s)) == multiset(s) + multiset{x}
  {
    if s == [] || x <= s[0] {
      AscendingCons(x, s);
    } else {
      assert s == [s[0]] + s[1..];
      InsertKeepsOrder(x, s[1..]);
      AscendingCons(s[0], Insert(x, s[1..]));
    }
  }

  /** `sort` returns an ascending rearrangement of its argument. */
  lemma {:induction false} SortSorts(s: seq<int>)
    ensures Ascending(Sort(s)) && multiset(Sort(s)) == multiset(s)
  {
    if s != [] {
      assert s == [s[0]] + s[1..];
      SortSorts(s[1..]);
      InsertKeepsOrder(s[0], Sort(s[1..]));
    }
  }

  /** Two ascending lists with the same elements start with the same element. */
  lemma HeadsAgree(a: seq<int>, b: seq<int>)
    requires Ascending(a) && Ascending(b) && multiset(a) == multiset(b) && a != []
    ensures b != [] && a[0] == b[0]
  {
    assert a[0] in multiset(a);
    assert a[0] in b && b[0] in multiset(b);
    assert b[0] in a;
    var i :| 0 <= i < |a| && a[i] == b[0];
    var j :| 0 <= j < |b| && b[j] == a[0];
    assert a[0] <= a[i] && b[0] <= b[j];
  }

  /** Dropping the same first element from two lists with the same elements. */
  lemma TailsAgree(a: seq<int>, b: seq<int>)
    requires a != [] && b != [] && a[0] == b[0] && multiset(a) == multiset(b)
    ensures multiset(a[1..]) == multiset(b[1..])
  {
    assert a == [a[0]] + a[1..];
    assert b == [b[0]] + b[1..];
    calc {
      multiset(a[1..]);
      multiset(a) - multiset{a[0]};
      multiset(b) - multiset{b[0]};
      multiset(b[1..]);
    }
  }

  /** An ascending list is fixed by the multiset of its elements. */
  lemma {:induction false} AscendingUnique(a: seq<int>, b: seq<int>)
    requires Ascending(a) && Ascending(b) && multiset(a) == multiset(b)
    ensures a == b
  {
    if a != [] {
      HeadsAgree(a, b);
      TailsAgree(a, b);
      AscendingUnique(a[1..], b[1..]);
      assert a == [a[0]] + a[1..] && b == [b[0]] + b[1..];
    }
  }

  /** Two arrays sort to the same array exactly when they hold the same elements. */
  lemma SortEqual(a: seq<int>, b: seq<int>)
    ensures Sort(a) == Sort(b) <==> multiset(a) == multiset(b)
  {
    SortSorts(a);
    SortSorts(b);
    if multiset(a) == multiset(b) {
      AscendingUnique(Sort(a), Sort(b));
    }
  }

  /** Ruby's `uniq`: the first occurrence of each element, in order. */
  function Uniq<T(==)>(s: seq<T>): (r: seq<T>)
    ensures |r| <= |s|
  {
    if s == [] then []
    else
      var u := Uniq(s[..|s| - 1]);
      if s[|s| - 1] in u then u else u + [s[|s| - 1]]
  }

  /** `uniq` keeps every element once and adds none. */
  lemma {:induction false} UniqMembers<T>(s: seq<T>)
    ensures forall i :: 0 <= i < |s| ==> s[i] in Uniq(s)
    ensures forall i :: 0 <= i < |Uniq(s)| ==> Uniq(s)[i] in s
    ensures NoDup(Uniq(s))
  {
    if s != [] {
      var init := s[..|s| - 1];
      UniqMembers(init);
      forall i | 0 <= i < |s| - 1
        ensures s[i] in Uniq(s)
      {
        assert s[i] == init[i];
      }
    }
  }

  /** An element is in `s.uniq` exactly when it is in s. */
  lemma InUniq<T>(s: seq<T>, x: T)
    ensures x in Uniq(s) <==> x in s
  {
    UniqMembers(s);
    if x in Uniq(s) {
      var i :| 0 <= i < |Uniq(s)| && Uniq(s)[i] == x;
    }
    if x in s {
      var i :| 0 <= i < |s| && s[i] == x;
    }
  }

  /** `uniq` leaves a list without repeats as it is. */
  lemma {:induction false} UniqOfNoDup<T>(s: seq<T>)
    requires NoDup(s)
    ensures Uniq(s) == s
  {
    if s != [] {
      UniqOfNoDup(s[..|s| - 1]);
    }
  }

  /** Ruby's `uniq!`: nil when nothing was removed, the reduced list otherwise. */
  function UniqBang<T(==)>(s: seq<T>): (r: Option<seq<T>>)
    ensures r.None? <==> NoDup(s)
    ensures r.Some? ==> r.value == Uniq(s) && |r.value| < |s|
  {
    if NoDup(s) then None
    else
      UniqShorter(s);
      Some(Uniq(s))
  }

  lemma {:induction false} UniqShorter<T>(s: seq<T>)
    ensures |Uniq(s)| <= |s|
    ensures !NoDup(s) ==> |Uniq(s)| < |s|
  {
    if s != [] {
      var init := s[..|s| - 1];
      UniqShorter(init);
      if !NoDup(s) && NoDup(init) {
        UniqOfNoDup(init);
        var i, j :| 0 <= i < j < |s| && s[i] == s[j];
        assert j == |s| - 1 && init[i] == s[j];
      }
    }
  }

  /**
   * The test of graphs.rb:41-42: the sorted neighbour lists agree, or the
   * sorted neighbour lists with the vertex itself added agree.
   */
  predicate Swappable(g: Graph, v1: nat, v2: nat)
    requires v1 < |g| && v2 < |g|
  {
    Sort(g[v1]) == Sort(g[v2]) || Sort(g[v1] + [v1]) == Sort(g[v2] + [v2])
  }

  /** The same neighbours, or the same closed neighbourhoods, counted with multiplicity. */
  ghost predicate SameNeighbourhood(g: Graph, a: nat, b: nat)
    requires a < |g| && b < |g|
  {
    multiset(g[a]) == multiset(g[b]) || multiset(g[a] + [a]) == multiset(g[b] + [b])
  }

  lemma SwappableMeans(g: Graph, v1: nat, v2: nat)
    requires v1 < |g| && v2 < |g|
    ensures Swappable(g, v1, v2) <==> SameNeighbourhood(g, v1, v2)
    ensures Swappable(g, v1, v2) <==> Swappable(g, v2, v1)
  {
    SortEqual(g[v1], g[v2]);
    SortEqual(g[v1] + [v1], g[v2] + [v2]);
  }

  /** Two distinct vertices as an ascending array. */
  function Ordered(a: int, b: int): seq<int>
  {
    if a < b then [a, b] else [b, a]
  }

  /** The pairs pushed for vertex v1 by the inner loop, for v2 = 0 .. c - 1. */
  ghost function PairRow(g: Graph, v1: nat, c: nat): seq<seq<int>>
    requires v1 < |g| && c <= |g|
  {
    if c == 0 then []
    else PairRow(g, v1, c - 1) + (if v1 != c - 1 && Swappable(g, v1, c - 1) then [Ordered(v1, c - 1)] else [])
  }

  /** The rows of a table laid end to end. */
  function Flatten<T>(rows: seq<seq<T>>): seq<T>
  {
    if rows == [] then [] else Flatten(rows[..|rows| - 1]) + rows[|rows| - 1]
  }

  /** An entry of the laid-out table is an entry of one of its rows, and back. */
  lemma {:induction false} FlattenMembers<T>(rows: seq<seq<T>>, p: T)
    ensures p in Flatten(rows) <==> exists i :: 0 <= i < |rows| && p in rows[i]
  {
    if rows != [] {
      var init := rows[..|rows| - 1];
      FlattenMembers(init, p);
      if p in Flatten(rows) && p !in rows[|rows| - 1] {
        var i :| 0 <= i < |init| && p in init[i];
        assert p in rows[i];
      }
      if exists i :: 0 <= i < |rows| && p in rows[i] {
        var i :| 0 <= i < |rows| && p in rows[i];
        if i < |rows| - 1 {
          assert init[i] == rows[i];
        }
      }
    }
  }

  /** The pairs pushed in the outer loop's rounds v1 = 0 .. r - 1, round by round. */
  ghost function PairRows(g: Graph, r: nat): seq<seq<seq<int>>>
    requires r <= |g|
  {
    seq(r, v1 requires 0 <= v1 < r => PairRow(g, v1, |g|))
  }

  /** What autoMorphismOrbitPairs returns. */
  ghost function OrbitPairs(g: Graph): (r: seq<seq<int>>)
    ensures NoDup(r)
  {
    UniqMembers(Flatten(PairRows(g, |g|)));
    Uniq(Flatten(PairRows(g, |g|)))
  }

  /** graphs.rb:34-50. */
  method AutoMorphismOrbitPairs(graph: Graph) returns (r: seq<seq<int>>)
    ensures r == OrbitPairs(graph)
  {
    var pairs := [];
    for v1 := 0 to |graph|
      invariant pairs == Flatten(PairRows(graph, v1))
    {
      pairs := PushPairs(graph, v1, pairs);
      assert PairRows(graph, v1 + 1)[..v1] == PairRows(graph, v1);
    }
    r := Uniq(pairs);
  }

  /**
   * One round of the outer loop of graphs.rb:37-49: push `[v1, v2].sort`
   * for every other vertex v2 that passes the test, in the order of v2.
   */
  method PushPairs(graph: Graph, v1: nat, pairs: seq<seq<int>>) returns (pushed: seq<seq<int>>)
    requires v1 < |graph|
    ensures pushed == pairs + PairRow(graph, v1, |graph|)
  {
    pushed := pairs;
    for v2 := 0 to |graph|
      invariant pushed == pairs + PairRow(graph, v1, v2)
    {
      ghost var push := if v1 != v2 && Swappable(graph, v1, v2) then [Ordered(v1, v2)] else [];
      if v1 != v2 {
        if Swappable(graph, v1, v2) {
          SortPair(v1, v2);
          pushed := pushed + [Sort([v1, v2])];
        }
      }
      assert PairRow(graph, v1, v2 + 1) == PairRow(graph, v1, v2) + push;
      assert pushed == pairs + (PairRow(graph, v1, v2) + push);
    }
  }

  /** `[v1, v2].sort` for two distinct vertices. */
  lemma SortPair(a: int, b: int)
    requires a != b
    ensures Sort([a, b]) == Ordered(a, b)
  {
    assert [a, b][1..] == [b] && [b][1..] == [];
    assert Sort([b]) == [b];
    assert Insert(a, []) == [a];
  }

  /** A swappable ordered pair, written as its ascending two-element array. */
  ghost predicate PairFrom(g: Graph, p: seq<int>, v1: int, v2: int)
  {
    0 <= v1 < |g| && 0 <= v2 < |g| && v1 != v2 && Swappable(g, v1, v2) && p == Ordered(v1, v2)
  }

  lemma {:induction false} PairRowMembers(g: Graph, v1: nat, c: nat, p: seq<int>)
    requires v1 < |g| && c <= |g|
    ensures p in PairRow(g, v1, c) <==> exists v2 :: 0 <= v2 < c && PairFrom(g, p, v1, v2)
  {
    if c > 0 {
      PairRowMembers(g, v1, c - 1, p);
      var last := if v1 != c - 1 && Swappable(g, v1, c - 1) then [Ordered(v1, c - 1)] else [];
      assert PairRow(g, v1, c) == PairRow(g, v1, c - 1) + last;
      if p in last {
        assert PairFrom(g, p, v1, c - 1);
      }
      if exists v2 :: 0 <= v2 < c && PairFrom(g, p, v1, v2) {
        var v2 :| 0 <= v2 < c && PairFrom(g, p, v1, v2);
        if v2 == c - 1 {
          assert p in last;
        }
      }
    }
  }

  /**
   * autoMorphismOrbitPairs lists exactly the pairs [a, b] with a < b whose
   * neighbour lists, or closed neighbourhoods, hold the same vertices.
   */
  lemma OrbitPairsMembers(g: Graph, p: seq<int>)
    ensures p in OrbitPairs(g) <==>
              exists a: nat, b: nat :: a < b < |g| && p == [a, b] && SameNeighbourhood(g, a, b)
  {
    var rows := PairRows(g, |g|);
    InUniq(Flatten(rows), p);
    FlattenMembers(rows, p);
    if p in OrbitPairs(g) {
      var v1 :| 0 <= v1 < |rows| && p in rows[v1];
      PairRowMembers(g, v1, |g|, p);
      var v2 :| 0 <= v2 < |g| && PairFrom(g, p, v1, v2);
      SwappableMeans(g, v1, v2);
      if v1 < v2 {
        assert p == [v1, v2] && SameNeighbourhood(g, v1, v2);
      } else {
        assert p == [v2, v1] && SameNeighbourhood(g, v2, v1);
      }
    }
    if exists a: nat, b: nat :: a < b < |g| && p == [a, b] && SameNeighbourhood(g, a, b) {
      var a: nat, b: nat :| a < b < |g| && p == [a, b] && SameNeighbourhood(g, a, b);
      SwappableMeans(g, a, b);
      assert PairFrom(g, p, a, b);
      PairRowMembers(g, a, |g|, p);
      assert p in rows[a];
    }
  }

  /** Every listed pair is two vertices, in ascending order. */
  lemma PairShape(g: Graph, p: seq<int>)
    requires p in OrbitPairs(g)
    ensures |p| == 2 && 0 <= p[0] < p[1] < |g|
  {
    OrbitPairsMembers(g, p);
  }

  /** `not (pair & pair2).empty?`: the two arrays share an element. */
  predicate Overlap(p: seq<int>, q: seq<int>)
  {
    exists x :: x in p && x in q
  }

  /** A nonempty array shares its elements with itself. */
  lemma OverlapSelf(p: seq<int>)
    requires p != []
    ensures Overlap(p, p)
  {
    var x := p[0];
    assert x in p && x in p;
  }

  /** orbits[i] after the inner loop of graphs.rb:57-61 has seen the arrays qs. */
  function Gather(p: seq<int>, qs: seq<seq<int>>): seq<int>
  {
    if qs == [] then []
    else Gather(p, qs[..|qs| - 1]) + (if Overlap(p, qs[|qs| - 1]) then p + qs[|qs| - 1] else [])
  }

  /** The orbit of pair p: the gathered vertices without repeats, sorted. */
  function Orbit(p: seq<int>, qs: seq<seq<int>>): seq<int>
  {
    Sort(Uniq(Gather(p, qs)))
  }

  /** The orbits of the first i pairs, in order. */
  function OrbitList(pairs: seq<seq<int>>, i: nat): (r: seq<seq<int>>)
    requires i <= |pairs|
    ensures |r| == i
  {
    seq(i, t requires 0 <= t < i => Orbit(pairs[t], pairs))
  }

  /** What autoMorphismOrbits returns. */
  ghost function Orbits(g: Graph): (r: seq<seq<int>>)
    ensures NoDup(r)
  {
    var pairs := OrbitPairs(g);
    UniqMembers(OrbitList(pairs, |pairs|));
    Uniq(OrbitList(pairs, |pairs|))
  }

  /** graphs.rb:52-65. */
  method AutoMorphismOrbits(graph: Graph) returns (r: seq<seq<int>>)
    ensures r == Orbits(graph)
  {
    var orbits: seq<seq<int>> := [];
    var pairs := AutoMorphismOrbitPairs(graph);
    for i := 0 to |pairs|
      invariant orbits == OrbitList(pairs, i)
    {
      PairShape(graph, pairs[i]);
      var orbit := OrbitOf(pairs, i);
      orbits := orbits + [orbit];
    }
    r := Uniq(orbits);
  }

  /**
   * One round of the outer loop of graphs.rb:55-63: gather into a fresh
   * array every pair that overlaps pair i, together with pair i, then
   * `uniq!` and `sort!` it.  `uniq!` answers nil when nothing repeats; pair
   * i overlaps itself, so its two vertices are always gathered twice.
   */
  method OrbitOf(pairs: seq<seq<int>>, i: nat) returns (orbit: seq<int>)
    requires i < |pairs| && pairs[i] != []
    ensures orbit == Orbit(pairs[i], pairs)
  {
    orbit := [];
    for t := 0 to |pairs|
      invariant orbit == Gather(pairs[i], pairs[..t])
    {
      if Overlap(pairs[i], pairs[t]) {
        orbit := orbit + pairs[i] + pairs[t];
      }
      assert pairs[..t + 1][..t] == pairs[..t];
    }
    assert pairs[..|pairs|] == pairs;
    GatherRepeats(pairs[i], pairs);
    var once := UniqBang(orbit);
    orbit := Sort(once.value);
  }

  /** The vertices gathered for p: those of p and of every array that overlaps it. */
  lemma {:induction false} GatherMembers(p: seq<int>, qs: seq<seq<int>>, x: int)
    ensures x in Gather(p, qs) <==> exists q :: q in qs && Overlap(p, q) && (x in p || x in q)
  {
    if qs != [] {
      var init, last := qs[..|qs| - 1], qs[|qs| - 1];
      GatherMembers(p, init, x);
      assert qs == init + [last];
      if x in Gather(p, qs) && !(x in Gather(p, init)) {
        assert last in qs;
      }
      if exists q :: q in qs && Overlap(p, q) && (x in p || x in q) {
        var q :| q in qs && Overlap(p, q) && (x in p || x in q);
        if q != last {
          assert q in init;
        }
      }
    }
  }

  /**
   * A nonempty pair overlaps itself, so its own elements are gathered
   * twice: `uniq!` always removes something and never returns nil.
   */
  lemma {:induction false} GatherRepeats(p: seq<int>, qs: seq<seq<int>>)
    requires p in qs && p != []
    ensures !NoDup(Gather(p, qs))
  {
    var init, last := qs[..|qs| - 1], qs[|qs| - 1];
    assert qs == init + [last];
    if p == last {
      OverlapSelf(p);
      var tail := p + last;
      var k := |Gather(p, init)|;
      assert Gather(p, qs) == Gather(p, init) + tail;
      assert Gather(p, qs)[k] == Gather(p, qs)[k + |p|];
    } else {
      assert p in init;
      GatherRepeats(p, init);
      var a := Gather(p, init);
      var i, j :| 0 <= i < j < |a| && a[i] == a[j];
      assert Gather(p, qs)[i] == a[i] && Gather(p, qs)[j] == a[j];
    }
  }

  /** An ascending list without repeats is strictly ascending. */
  lemma StrictWhenDistinct(s: seq<int>)
    requires Ascending(s) && NoDup(s)
    ensures StrictlyAscending(s)
  {
  }

  /** The multiset of a list without repeats holds each element once. */
  lemma {:induction false} NoDupMultiset(s: seq<int>, x: int)
    requires NoDup(s)
    ensures multiset(s)[x] <= 1
  {
    if s != [] {
      var init := s[..|s| - 1];
      assert s == init + [s[|s| - 1]];
      NoDupMultiset(init, x);
      if s[|s| - 1] == x {
        assert x !in init;
      }
    }
  }

  /** A list whose multiset holds each element once has no repeats. */
  lemma MultisetNoDup(s: seq<int>)
    requires forall x :: multiset(s)[x] <= 1
    ensures NoDup(s)
  {
    forall i, j | 0 <= i < j < |s|
      ensures s[i] != s[j]
    {
      assert s == s[..i] + [s[i]] + s[i + 1..j] + [s[j]] + s[j + 1..];
      assert multiset(s)[s[i]] >= 1 + (if s[j] == s[i] then 1 else 0);
    }
  }

  /**
   * Each orbit is strictly ascending, and holds exactly the vertices of
   * the pairs that share a vertex with its pair.
   */
  lemma OrbitShape(p: seq<int>, qs: seq<seq<int>>, x: int)
    ensures StrictlyAscending(Orbit(p, qs))
    ensures x in Orbit(p, qs) <==> exists q :: q in qs && Overlap(p, q) && (x in p || x in q)
  {
    var u := Uniq(Gather(p, qs));
    UniqMembers(Gather(p, qs));
    InUniq(Gather(p, qs), x);
    SortSorts(u);
    forall y
      ensures multiset(Sort(u))[y] <= 1
    {
      NoDupMultiset(u, y);
    }
    MultisetNoDup(Sort(u));
    StrictWhenDistinct(Sort(u));
    GatherMembers(p, qs, x);
    assert x in Sort(u) <==> x in multiset(Sort(u));
  }

  /** Each listed pair lies inside its own orbit. */
  lemma PairInOrbit(g: Graph, i: nat)
    requires i < |OrbitPairs(g)|
    ensures var pairs := OrbitPairs(g);
            forall x :: x in pairs[i] ==> x in Orbit(pairs[i], pairs)
  {
    var pairs := OrbitPairs(g);
    var p := pairs[i];
    PairShape(g, p);
    OverlapSelf(p);
    forall x | x in p
      ensures x in Orbit(p, pairs)
    {
      OrbitShape(p, pairs, x);
    }
  }

  /** The orbit list holds the orbit of each pair and nothing else. */
  lemma InOrbitList(pairs: seq<seq<int>>, o: seq<int>)
    ensures o in OrbitList(pairs, |pairs|) <==> exists p :: p in pairs && o == Orbit(p, pairs)
  {
    var all := OrbitList(pairs, |pairs|);
    if o in all {
      var t :| 0 <= t < |all| && all[t] == o;
      assert pairs[t] in pairs;
    }
    if exists p :: p in pairs && o == Orbit(p, pairs) {
      var p :| p in pairs && o == Orbit(p, pairs);
      var t :| 0 <= t < |pairs| && pairs[t] == p;
      assert all[t] == o;
    }
  }

  /** autoMorphismOrbits lists no orbit twice. */
  lemma OrbitsNoDup(g: Graph)
    ensures NoDup(Orbits(g))
  {
    var pairs := OrbitPairs(g);
    UniqMembers(OrbitList(pairs, |pairs|));
  }

  /** autoMorphismOrbits lists exactly the orbits of the listed pairs. */
  lemma OrbitsMembers(g: Graph, o: seq<int>)
    ensures o in Orbits(g) <==> exists p :: p in OrbitPairs(g) && o == Orbit(p, OrbitPairs(g))
  {
    var pairs := OrbitPairs(g);
    InUniq(OrbitList(pairs, |pairs|), o);
    InOrbitList(pairs, o);
  }
}
