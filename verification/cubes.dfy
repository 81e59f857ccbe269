/**
 * The face initialisation both aligners perform on their score cube: the
 * planes i = 0, j = 0 and k = 0 are set to zero, one plane after the
 * other, with the loop nesting of the source.
 */
module Cubes {
  /** The plane i = 0: F[0][j][k] := zero, j outer and k inner; nothing else changes. */
  method ZeroPlaneA<V>(F: array3<V>, zero: V)
    requires F.Length0 >= 1
    modifies F
    ensures forall x, y, z :: 0 <= x < F.Length0 && 0 <= y < F.Length1 && 0 <= z < F.Length2 ==>
      F[x, y, z] == if x == 0 then zero else old(F[x, y, z])
  {
    for j := 0 to F.Length1
      invariant forall x, y, z :: 0 <= x < F.Length0 && 0 <= y < F.Length1 && 0 <= z < F.Length2 ==>
        F[x, y, z] == if x == 0 && y < j then zero else old(F[x, y, z])
    {
      for k := 0 to F.Length2
        invariant forall x, y, z :: 0 <= x < F.Length0 && 0 <= y < F.Length1 && 0 <= z < F.Length2 ==>
          F[x, y, z] == if x == 0 && (y < j || (y == j && z < k)) then zero else old(F[x, y, z])
      {
        F[0, j, k] := zero;
      }
    }
  }

  /** The plane j = 0: F[i][0][k] := zero, k outer and i inner; nothing else changes. */
  method ZeroPlaneB<V>(F: array3<V>, zero: V)
    requires F.Length1 >= 1
    modifies F
    ensures forall x, y, z :: 0 <= x < F.Length0 && 0 <= y < F.Length1 && 0 <= z < F.Length2 ==>
      F[x, y, z] == if y == 0 then zero else old(F[x, y, z])
  {
    for k := 0 to F.Length2
      invariant forall x, y, z :: 0 <= x < F.Length0 && 0 <= y < F.Length1 && 0 <= z < F.Length2 ==>
        F[x, y, z] == if y == 0 && z < k then zero else old(F[x, y, z])
    {
      for i := 0 to F.Length0
        invariant forall x, y, z :: 0 <= x < F.Length0 && 0 <= y < F.Length1 && 0 <= z < F.Length2 ==>
          F[x, y, z] == if y == 0 && (z < k || (z == k && x < i)) then zero else old(F[x, y, z])
      {
        F[i, 0, k] := zero;
      }
    }
  }

  /** The plane k = 0: F[i][j][0] := zero, i outer and j inner; nothing else changes. */
  method ZeroPlaneC<V>(F: array3<V>, zero: V)
    requires F.Length2 >= 1
    modifies F
    ensures forall x, y, z :: 0 <= x < F.Length0 && 0 <= y < F.Length1 && 0 <= z < F.Length2 ==>
      F[x, y, z] == if z == 0 then zero else old(F[x, y, z])
  {
    for i := 0 to F.Length0
      invariant forall x, y, z :: 0 <= x < F.Length0 && 0 <= y < F.Length1 && 0 <= z < F.Length2 ==>
        F[x, y, z] == if z == 0 && x < i then zero else old(F[x, y, z])
    {
      for j := 0 to F.Length1
        invariant forall x, y, z :: 0 <= x < F.Length0 && 0 <= y < F.Length1 && 0 <= z < F.Length2 ==>
          F[x, y, z] == if z == 0 && (x < i || (x == i && y < j)) then zero else old(F[x, y, z])
      {
        F[i, j, 0] := zero;
      }
    }
  }
}
