/** The per-graph decision (the function `test_bilu_linial`): abort on an
    irregular graph, pass graphs of degree at most 1 without a search, and
    otherwise search from the empty signing; a failed search makes the graph
    a counterexample. */
module Driver {
  import opened Graphs
  import opened Eigen
  import opened Search
  import opened Regularity

  /** What the program does with one graph: abort the run (not regular),
      go on to the next graph (vacuous or satisfied), or report the graph
      and stop the run (counterexample). */
  datatype Outcome = NotRegular | Vacuous | Satisfied | Counterexample

  /** All edges (i, j) of g with i < j. */
  ghost function AllEdges(g: Rows, n: nat): set<Pair>
    requires |g| == n
  {
    Edges(g, n, (0, 0))
  }

  /** The signing that puts exactly the edges of T in subg. */
  ghost function SigningOf(g: Rows, n: nat, T: set<Pair>): Rows
    requires |g| == n
  {
    Assign(Empty(n), n, AllEdges(g, n), T)
  }

  /** Some signing of g passes the leaf test. */
  ghost predicate HasGoodSigning(test: SpectralTest, g: Rows, n: nat, d: int)
    requires |g| == n
  {
    exists T :: T <= AllEdges(g, n) && Oracle(test, g, n, d, SigningOf(g, n, T))
  }

  /** test_bilu_linial for one graph. The ghost `evaluations` counts the
      eigenvalue computations the search ran. */
  method TestBiluLinial(g: Rows, n: nat, test: SpectralTest) returns (outcome: Outcome, ghost evaluations: nat)
    requires |g| == n
    ensures outcome == NotRegular <==> exists i :: 0 <= i < n && |g[i]| != |g[0]|
    ensures outcome == Vacuous <==> (n == 0 || (IsRegular(g, n, |g[0]|) && |g[0]| <= 1))
    ensures outcome == Satisfied <==>
      n > 0 && IsRegular(g, n, |g[0]|) && |g[0]| >= 2 && HasGoodSigning(test, g, n, |g[0]|)
    ensures outcome == Counterexample <==>
      n > 0 && IsRegular(g, n, |g[0]|) && |g[0]| >= 2 && !HasGoodSigning(test, g, n, |g[0]|)
    ensures outcome == NotRegular || outcome == Vacuous ==> evaluations == 0
    ensures outcome == Counterexample ==> evaluations == Pow2(|AllEdges(g, n)|)
  {
    var d := RegularityDegree(g, n);
    if d < 0 {
      return NotRegular, 0;
    }
    if d <= 1 {
      return Vacuous, 0;
    }
    var subg := new set<int>[n];
    for i := 0 to n
      invariant forall k :: 0 <= k < i ==> subg[k] == {}
    {
      subg[i] := {};
    }
    assert subg[..] == Empty(n);
    ExploreFindsCompletion(test, g, n, d, Empty(n), (0, 0));
    ExploreLeafCount(test, g, n, d, Empty(n), (0, 0));
    var satisfied;
    ghost var leaves;
    satisfied, leaves := Go(g, subg, n, d, 0, test);
    evaluations := |leaves|;
    if !satisfied {
      return Counterexample, evaluations;
    }
    ghost var T :| T <= Edges(g, n, (0, 0)) && Oracle(test, g, n, d, Assign(Empty(n), n, Edges(g, n, (0, 0)), T));
    assert T <= AllEdges(g, n) && Oracle(test, g, n, d, SigningOf(g, n, T));
    return Satisfied, evaluations;
  }
}
