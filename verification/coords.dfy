/**
 * smithwaterman/Coord.java: a cell coordinate carrying a serial number
 * drawn from the class-wide counter `currentId`.
 *
 * A Coord is a value here: the only field update in the aligner happens on
 * a freshly built Coord before it is stored, which a functional update
 * models exactly. The static counter is an object of its own that every
 * construction reads and advances.
 */
module Coords {
  import opened Recurrence
  import opened Wavefront

  /** A Coord: the cell (x, y, z) and its serial number. */
  datatype Coord = Coord(x: int, y: int, z: int, id: int)
  {
    /** The cell without its id. */
    function At(): Pos
    {
      Pos(x, y, z)
    }
  }

  /** The static field `Coord.currentId`: the id the next Coord receives. */
  class IdCounter {
    var currentId: int

    /** `private static int currentId = 0`. */
    constructor ()
      ensures currentId == 0
    {
      currentId := 0;
    }

    /** `new Coord(x, y, z)`: store the coordinates, take the current id, advance the counter. */
    method NewCoord(x: int, y: int, z: int) returns (c: Coord)
      modifies this
      ensures c == Coord(x, y, z, old(currentId))
      ensures currentId == old(currentId) + 1
    {
      c := Coord(x, y, z, currentId);
      currentId := currentId + 1;
    }
  }

  /** The cells of s turned into Coords one after the other, starting from id `base`. */
  function Numbered(s: seq<Pos>, base: int): seq<Coord>
  {
    if s == [] then []
    else
      var p := s[|s| - 1];
      Numbered(s[..|s| - 1], base) + [Coord(p.x, p.y, p.z, base + |s| - 1)]
  }

  /** The Coords of cs that belong to group g, in the order of cs. */
  function CoordBucket(cs: seq<Coord>, g: int): seq<Coord>
  {
    if cs == [] then []
    else
      var c := cs[|cs| - 1];
      CoordBucket(cs[..|cs| - 1], g) + (if Sum(c.At()) == g + 3 then [c] else [])
  }

  /** The cells of a list of Coords. */
  function Positions(cs: seq<Coord>): (ps: seq<Pos>)
    ensures |ps| == |cs|
  {
    if cs == [] then [] else Positions(cs[..|cs| - 1]) + [cs[|cs| - 1].At()]
  }

  /** The m-th Coord built from s sits at s[m] and has id base + m. */
  lemma {:induction false} NumberedAt(s: seq<Pos>, base: int)
    ensures |Numbered(s, base)| == |s|
    ensures forall m :: 0 <= m < |s| ==> Numbered(s, base)[m] == Coord(s[m].x, s[m].y, s[m].z, base + m)
  {
    if s != [] {
      NumberedAt(s[..|s| - 1], base);
    }
  }

  /** Positions are read element by element. */
  lemma {:induction false} PositionsAt(cs: seq<Coord>)
    ensures forall m :: 0 <= m < |cs| ==> Positions(cs)[m] == cs[m].At()
  {
    if cs != [] {
      PositionsAt(cs[..|cs| - 1]);
    }
  }

  /** Numbering and then bucketing gives the bucket of the cells. */
  lemma {:induction false} BucketPositions(s: seq<Pos>, base: int, g: int)
    ensures Positions(CoordBucket(Numbered(s, base), g)) == Bucket(s, g)
  {
    if s != [] {
      var init := s[..|s| - 1];
      var p := s[|s| - 1];
      var cs := Numbered(s, base);
      NumberedAt(init, base);
      assert cs[..|cs| - 1] == Numbered(init, base);
      BucketPositions(init, base, g);
      var rest := CoordBucket(Numbered(init, base), g);
      var c := Coord(p.x, p.y, p.z, base + |s| - 1);
      if Sum(p) == g + 3 {
        assert (rest + [c])[..|rest|] == rest;
      } else {
        assert rest + [] == rest;
      }
    }
  }

  /** A Coord of a bucket is one of the Coords bucketed, on the bucket's anti-diagonal. */
  lemma {:induction false} CoordBucketMembers(cs: seq<Coord>, g: int)
    ensures forall c :: c in CoordBucket(cs, g) <==> c in cs && Sum(c.At()) == g + 3
  {
    if cs != [] {
      CoordBucketMembers(cs[..|cs| - 1], g);
      assert cs == cs[..|cs| - 1] + [cs[|cs| - 1]];
    }
  }

  /**
   * Ids follow the enumeration: of two Coords built from an ascending
   * enumeration, the earlier cell has the smaller id, and every id lies in
   * [base, base + |s|). In particular no two Coords share an id.
   */
  lemma IdsFollowEnumeration(s: seq<Pos>, base: int)
    requires Ascending(s)
    ensures forall c :: c in Numbered(s, base) ==> base <= c.id < base + |s|
    ensures forall c, d :: c in Numbered(s, base) && d in Numbered(s, base) ==>
      (c.id < d.id <==> Before(c.At(), d.At())) && (c.id == d.id <==> c == d)
  {
    NumberedAt(s, base);
    var cs := Numbered(s, base);
    forall c, d | c in cs && d in cs
      ensures (c.id < d.id <==> Before(c.At(), d.At())) && (c.id == d.id <==> c == d)
    {
      var m :| 0 <= m < |cs| && cs[m] == c;
      var n :| 0 <= n < |cs| && cs[n] == d;
      assert c.At() == s[m] && d.At() == s[n];
      if m < n {
        assert Before(s[m], s[n]);
      } else if n < m {
        assert Before(s[n], s[m]);
      }
    }
  }
}
