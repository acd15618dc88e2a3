/** The regularity check (the function `regularity_degree`): the common
    degree of all vertices, or -1 when two vertices differ. */
module Regularity {
  import opened Graphs

  /** Every one of the n rows has exactly d elements. */
  ghost predicate IsRegular(g: Rows, n: nat, d: int)
    requires |g| == n
  {
    forall i :: 0 <= i < n ==> |g[i]| == d
  }

  /** Compare the popcount of every row with that of row 0, stopping at the
      first row that differs. The empty graph has degree 0. */
  method RegularityDegree(g: Rows, n: nat) returns (r: int)
    requires |g| == n
    ensures n == 0 ==> r == 0
    ensures r >= 0 ==> IsRegular(g, n, r)
    ensures r == -1 <==> exists i :: 1 <= i < n && |g[i]| != |g[0]|
    ensures r >= -1
    ensures forall d :: n > 0 && IsRegular(g, n, d) ==> r == d
  {
    if n == 0 {
      return 0;
    }
    var deg0 := |g[0]|;
    for i := 1 to n
      invariant forall k :: 0 <= k < i ==> |g[k]| == deg0
    {
      var deg := |g[i]|;
      if deg != deg0 {
        return -1;
      }
    }
    return deg0;
  }
}
