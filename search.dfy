/** The backtracking search over edge signings (the function `go`).

    Edges are visited in the order of their positions e = i * n + j with
    i < j and j adjacent to i in g. For the first such edge at or after
    position `mine`, `go` adds it to the signing and recurses; if that fails,
    it removes the edge and recurses again; the first success returns at
    once, leaving the satisfying signing in place. With no edge left, the
    leaf test decides.

    Positions are decoded into pairs (e / n, e % n); the specification walks
    the pairs in lexicographic order, which is the order of positions.
    `Explore` states what one call does: its verdict, the signing it leaves
    behind and the signings it hands to the leaf test, in order. The lemmas
    relate it to an independent description: the completions of the entry
    signing, one per choice of a set T of the remaining edges. */
module Search {
  import opened Graphs
  import opened Eigen

  datatype Option<T> = None | Some(value: T)

  /** The pair (row, column) that position e names. */
  function Cursor(n: nat, e: int): Pair
  {
    if n == 0 then (0, 0) else (e / n, e % n)
  }

  /** The pair after c in scan order. */
  function Next(n: nat, c: Pair): Pair
  {
    if c.1 + 1 < n then (c.0, c.1 + 1) else (c.0 + 1, 0)
  }

  /** p comes at or after c in scan order. */
  predicate AtOrAfter(p: Pair, c: Pair)
  {
    p.0 > c.0 || (p.0 == c.0 && p.1 >= c.1)
  }

  /** The pair p is an edge (i, j) of g with i < j. */
  predicate IsEdge(g: Rows, n: nat, p: Pair)
    requires |g| == n
  {
    0 <= p.0 < p.1 < n && p.1 in g[p.0]
  }

  /** The edges of g at or after c. */
  ghost function Edges(g: Rows, n: nat, c: Pair): set<Pair>
    requires |g| == n
  {
    set i, j | 0 <= i < j < n && j in g[i] && AtOrAfter((i, j), c) :: (i, j)
  }

  /** The first edge at or after c, as the scan loop of `go` finds it. */
  ghost function NextEdge(g: Rows, n: nat, c: Pair): (r: Option<Pair>)
    requires |g| == n
    ensures r.Some? ==> IsEdge(g, n, r.value) && AtOrAfter(r.value, c)
    decreases n - c.0, n - c.1
  {
    if c.0 >= n then None
    else if IsEdge(g, n, c) then Some(c)
    else NextEdge(g, n, Next(n, c))
  }

  /** The scan finds the first edge at or after c: none is left when it
      finds nothing, and otherwise the edges at or after c are the one it
      found and those after it. */
  lemma {:induction false} NextEdgeFirst(g: Rows, n: nat, c: Pair)
    requires |g| == n
    ensures NextEdge(g, n, c).None? ==> Edges(g, n, c) == {}
    ensures NextEdge(g, n, c).Some? ==>
      var e := NextEdge(g, n, c).value;
      e !in Edges(g, n, Next(n, e)) && Edges(g, n, c) == Edges(g, n, Next(n, e)) + {e}
    decreases n - c.0, n - c.1
  {
    if c.0 >= n {
    } else if IsEdge(g, n, c) {
    } else {
      NextEdgeFirst(g, n, Next(n, c));
    }
  }

  /** The outcome of one call of `go`: whether it succeeded, the signing it
      leaves behind, and the signings it handed to the leaf test. */
  datatype Run = Run(found: bool, final: Rows, leaves: seq<Rows>)

  /** What `go` does from the scan position c, starting from signing s. */
  ghost function Explore(test: SpectralTest, g: Rows, n: nat, d: int, s: Rows, c: Pair): (r: Run)
    requires |g| == n && |s| == n
    ensures |r.final| == n && |r.leaves| > 0
    ensures forall k :: 0 <= k < |r.leaves| ==> |r.leaves[k]| == n
    decreases n - c.0, n - c.1
  {
    match NextEdge(g, n, c)
    case None => Run(Oracle(test, g, n, d, s), s, [s])
    case Some(e) =>
      var r1 := Explore(test, g, n, d, Add(s, e.0, e.1), Next(n, e));
      if r1.found then r1
      else
        var r2 := Explore(test, g, n, d, Remove(r1.final, e.0, e.1), Next(n, e));
        Run(r2.found, r2.final, r1.leaves + r2.leaves)
  }

  /** A call at an edge e: the added branch, and when it fails the removed
      branch from the signing the added branch left behind. */
  lemma ExploreAtEdge(test: SpectralTest, g: Rows, n: nat, d: int, s: Rows, c: Pair, e: Pair)
    requires |g| == n && |s| == n && NextEdge(g, n, c) == Some(e)
    ensures var r1 := Explore(test, g, n, d, Add(s, e.0, e.1), Next(n, e));
      r1.found ==> Explore(test, g, n, d, s, c) == r1
    ensures var r1 := Explore(test, g, n, d, Add(s, e.0, e.1), Next(n, e));
      var r2 := Explore(test, g, n, d, Remove(r1.final, e.0, e.1), Next(n, e));
      !r1.found ==> Explore(test, g, n, d, s, c) == Run(r2.found, r2.final, r1.leaves + r2.leaves)
  {
  }

  function Pow2(k: nat): nat
  {
    if k == 0 then 1 else 2 * Pow2(k - 1)
  }

  /** A call changes the signing only on the edges at or after c, and so
      does every signing it hands to the leaf test. */
  lemma {:induction false} ExploreOnlyAhead(test: SpectralTest, g: Rows, n: nat, d: int, s: Rows, c: Pair)
    requires |g| == n && |s| == n
    ensures var r := Explore(test, g, n, d, s, c);
      SameOutside(r.final, s, n, Edges(g, n, c)) &&
      forall k :: 0 <= k < |r.leaves| ==> SameOutside(r.leaves[k], s, n, Edges(g, n, c))
    decreases n - c.0, n - c.1
  {
    var E := Edges(g, n, c);
    NextEdgeFirst(g, n, c);
    match NextEdge(g, n, c)
    case None =>
      SameOutsideRefl(s, n, E);
    case Some(e) =>
      var E' := Edges(g, n, Next(n, e));
      var s1 := Add(s, e.0, e.1);
      AddRemoveOnlyAt(s, n, e.0, e.1, E);
      var r1 := Explore(test, g, n, d, s1, Next(n, e));
      ExploreOnlyAhead(test, g, n, d, s1, Next(n, e));
      SameOutsideTrans(r1.final, s1, s, n, E', E);
      forall k | 0 <= k < |r1.leaves| ensures SameOutside(r1.leaves[k], s, n, E) {
        SameOutsideTrans(r1.leaves[k], s1, s, n, E', E);
      }
      if !r1.found {
        var s2 := Remove(r1.final, e.0, e.1);
        AddRemoveOnlyAt(r1.final, n, e.0, e.1, E);
        SameOutsideTrans(s2, r1.final, s, n, E, E);
        var r2 := Explore(test, g, n, d, s2, Next(n, e));
        ExploreOnlyAhead(test, g, n, d, s2, Next(n, e));
        SameOutsideTrans(r2.final, s2, s, n, E', E);
        forall k | 0 <= k < |r2.leaves| ensures SameOutside(r2.leaves[k], s, n, E) {
          SameOutsideTrans(r2.leaves[k], s2, s, n, E', E);
        }
      }
  }

  /** The search succeeds exactly when some completion of the entry signing
      passes the leaf test: some choice T of the edges at or after c, each
      put in the signing when in T and left out otherwise. */
  lemma {:induction false} ExploreFindsCompletion(test: SpectralTest, g: Rows, n: nat, d: int, s: Rows, c: Pair)
    requires |g| == n && |s| == n
    ensures var E := Edges(g, n, c);
      Explore(test, g, n, d, s, c).found <==>
      exists T :: T <= E && Oracle(test, g, n, d, Assign(s, n, E, T))
    decreases n - c.0, n - c.1
  {
    var E := Edges(g, n, c);
    NextEdgeFirst(g, n, c);
    match NextEdge(g, n, c)
    case None =>
      AssignNothing(s, n, {});
      forall T | T <= E ensures Assign(s, n, E, T) == s {
        AssignNothing(s, n, T);
      }
    case Some(e) =>
      var E' := Edges(g, n, Next(n, e));
      var s1 := Add(s, e.0, e.1);
      var r1 := Explore(test, g, n, d, s1, Next(n, e));
      ExploreFindsCompletion(test, g, n, d, s1, Next(n, e));
      SameOutsideRefl(s, n, E);
      forall T' ensures Assign(s1, n, E', T') == Assign(s, n, E, T' + {e}) {
        DecideFirst(s, s, n, e.0, e.1, E', T');
      }
      if r1.found {
        var T' :| T' <= E' && Oracle(test, g, n, d, Assign(s1, n, E', T'));
        assert T' + {e} <= E && Oracle(test, g, n, d, Assign(s, n, E, T' + {e}));
      } else {
        var s2 := Remove(r1.final, e.0, e.1);
        ExploreOnlyAhead(test, g, n, d, s1, Next(n, e));
        AddRemoveOnlyAt(s, n, e.0, e.1, E);
        SameOutsideTrans(r1.final, s1, s, n, E', E);
        forall T' ensures Assign(s2, n, E', T') == Assign(s, n, E, T' - {e}) {
          DecideFirst(r1.final, s, n, e.0, e.1, E', T');
        }
        ExploreFindsCompletion(test, g, n, d, s2, Next(n, e));
        if Explore(test, g, n, d, s2, Next(n, e)).found {
          var T' :| T' <= E' && Oracle(test, g, n, d, Assign(s2, n, E', T'));
          assert T' - {e} == T';
          assert T' <= E && Oracle(test, g, n, d, Assign(s, n, E, T'));
        } else {
          forall T | T <= E ensures !Oracle(test, g, n, d, Assign(s, n, E, T)) {
            if e in T {
              assert (T - {e}) + {e} == T;
              assert !Oracle(test, g, n, d, Assign(s1, n, E', T - {e}));
            } else {
              assert T - {e} == T;
              assert !Oracle(test, g, n, d, Assign(s2, n, E', T));
            }
          }
        }
      }
  }

  /** On failure every edge at or after c is left out of the signing: the
      final state is the entry state with those edges cleared. */
  lemma {:induction false} ExploreFailureClears(test: SpectralTest, g: Rows, n: nat, d: int, s: Rows, c: Pair)
    requires |g| == n && |s| == n
    requires !Explore(test, g, n, d, s, c).found
    ensures Explore(test, g, n, d, s, c).final == Assign(s, n, Edges(g, n, c), {})
    decreases n - c.0, n - c.1
  {
    var E := Edges(g, n, c);
    NextEdgeFirst(g, n, c);
    match NextEdge(g, n, c)
    case None =>
      AssignNothing(s, n, {});
    case Some(e) =>
      var E' := Edges(g, n, Next(n, e));
      var s1 := Add(s, e.0, e.1);
      var r1 := Explore(test, g, n, d, s1, Next(n, e));
      var s2 := Remove(r1.final, e.0, e.1);
      ExploreOnlyAhead(test, g, n, d, s1, Next(n, e));
      AddRemoveOnlyAt(s, n, e.0, e.1, E);
      SameOutsideTrans(r1.final, s1, s, n, E', E);
      ExploreFailureClears(test, g, n, d, s2, Next(n, e));
      DecideFirst(r1.final, s, n, e.0, e.1, E', {});
      assert {} - {e} == {};
  }

  /** On failure, a call none of whose edges was in the signing on entry
      leaves the signing exactly as it was. */
  lemma ExploreFailureRestores(test: SpectralTest, g: Rows, n: nat, d: int, s: Rows, c: Pair)
    requires |g| == n && |s| == n
    requires !Explore(test, g, n, d, s, c).found
    requires forall v, u :: 0 <= v < n && 0 <= u < n && u != v && Key(v, u) in Edges(g, n, c) ==>
      u !in s[v]
    ensures Explore(test, g, n, d, s, c).final == s
  {
    ExploreFailureClears(test, g, n, d, s, c);
    ClearAbsent(s, n, Edges(g, n, c));
  }

  /** The last signing handed to the leaf test is the one left behind, and
      its verdict is the verdict of the call. */
  lemma {:induction false} ExploreLastLeaf(test: SpectralTest, g: Rows, n: nat, d: int, s: Rows, c: Pair)
    requires |g| == n && |s| == n
    ensures var r := Explore(test, g, n, d, s, c);
      r.leaves[|r.leaves| - 1] == r.final && r.found == Oracle(test, g, n, d, r.final)
    decreases n - c.0, n - c.1
  {
    match NextEdge(g, n, c)
    case None =>
    case Some(e) =>
      var s1 := Add(s, e.0, e.1);
      var r1 := Explore(test, g, n, d, s1, Next(n, e));
      ExploreLastLeaf(test, g, n, d, s1, Next(n, e));
      if !r1.found {
        ExploreLastLeaf(test, g, n, d, Remove(r1.final, e.0, e.1), Next(n, e));
      }
  }

  /** The leaf test runs in order until the first success: every signing
      handed to it before the last one fails. */
  lemma {:induction false} ExploreShortCircuits(test: SpectralTest, g: Rows, n: nat, d: int, s: Rows, c: Pair)
    requires |g| == n && |s| == n
    ensures var r := Explore(test, g, n, d, s, c);
      forall k :: 0 <= k < |r.leaves| - 1 ==> !Oracle(test, g, n, d, r.leaves[k])
    decreases n - c.0, n - c.1
  {
    match NextEdge(g, n, c)
    case None =>
    case Some(e) =>
      var s1 := Add(s, e.0, e.1);
      var r1 := Explore(test, g, n, d, s1, Next(n, e));
      ExploreShortCircuits(test, g, n, d, s1, Next(n, e));
      if !r1.found {
        var r2 := Explore(test, g, n, d, Remove(r1.final, e.0, e.1), Next(n, e));
        ExploreLastLeaf(test, g, n, d, s1, Next(n, e));
        ExploreShortCircuits(test, g, n, d, Remove(r1.final, e.0, e.1), Next(n, e));
        ExploreAtEdge(test, g, n, d, s, c, e);
        forall k | 0 <= k < |r1.leaves| + |r2.leaves| - 1
          ensures !Oracle(test, g, n, d, (r1.leaves + r2.leaves)[k])
        {
          if k >= |r1.leaves| {
            assert (r1.leaves + r2.leaves)[k] == r2.leaves[k - |r1.leaves|];
          }
        }
      }
  }

  /** With k edges at or after c, the leaf test runs at most 2^k times, and
      exactly 2^k times when the search fails. */
  lemma {:induction false} ExploreLeafCount(test: SpectralTest, g: Rows, n: nat, d: int, s: Rows, c: Pair)
    requires |g| == n && |s| == n
    ensures var r := Explore(test, g, n, d, s, c);
      |r.leaves| <= Pow2(|Edges(g, n, c)|) &&
      (!r.found ==> |r.leaves| == Pow2(|Edges(g, n, c)|))
    decreases n - c.0, n - c.1
  {
    NextEdgeFirst(g, n, c);
    match NextEdge(g, n, c)
    case None =>
    case Some(e) =>
      var E' := Edges(g, n, Next(n, e));
      assert |Edges(g, n, c)| == |E'| + 1;
      assert Pow2(|Edges(g, n, c)|) == 2 * Pow2(|E'|);
      var s1 := Add(s, e.0, e.1);
      var r1 := Explore(test, g, n, d, s1, Next(n, e));
      ExploreLeafCount(test, g, n, d, s1, Next(n, e));
      if !r1.found {
        var s2 := Remove(r1.final, e.0, e.1);
        ExploreLeafCount(test, g, n, d, s2, Next(n, e));
      }
  }

  /** The added branch is explored first: the first leaf tested has every
      edge at or after c in the signing. */
  lemma {:induction false} ExploreAddsFirst(test: SpectralTest, g: Rows, n: nat, d: int, s: Rows, c: Pair)
    requires |g| == n && |s| == n
    ensures var E := Edges(g, n, c);
      Explore(test, g, n, d, s, c).leaves[0] == Assign(s, n, E, E)
    decreases n - c.0, n - c.1
  {
    var E := Edges(g, n, c);
    NextEdgeFirst(g, n, c);
    match NextEdge(g, n, c)
    case None =>
      AssignNothing(s, n, E);
    case Some(e) =>
      var E' := Edges(g, n, Next(n, e));
      var s1 := Add(s, e.0, e.1);
      ExploreAddsFirst(test, g, n, d, s1, Next(n, e));
      SameOutsideRefl(s, n, E);
      DecideFirst(s, s, n, e.0, e.1, E', E');
  }

  /** With a symmetric g, a signing of g stays a signing of g (symmetric
      and contained in g) through the whole search: every ADDELEMENT and
      DELELEMENT acts on both orientations of an edge of g. */
  lemma {:induction false} ExploreKeepsSigned(test: SpectralTest, g: Rows, n: nat, d: int, s: Rows, c: Pair)
    requires |g| == n && Symmetric(g, n) && SignedSubgraph(g, s, n)
    ensures var r := Explore(test, g, n, d, s, c);
      SignedSubgraph(g, r.final, n) &&
      forall k :: 0 <= k < |r.leaves| ==> SignedSubgraph(g, r.leaves[k], n)
    decreases n - c.0, n - c.1
  {
    match NextEdge(g, n, c)
    case None =>
    case Some(e) =>
      var s1 := Add(s, e.0, e.1);
      AddRemoveKeepSigned(g, s, n, e.0, e.1);
      var r1 := Explore(test, g, n, d, s1, Next(n, e));
      ExploreKeepsSigned(test, g, n, d, s1, Next(n, e));
      if !r1.found {
        var s2 := Remove(r1.final, e.0, e.1);
        AddRemoveKeepSigned(g, r1.final, n, e.0, e.1);
        ExploreKeepsSigned(test, g, n, d, s2, Next(n, e));
      }
  }

  /** Position e + 1 names the pair after the one position e names. */
  lemma CursorStep(n: nat, e: int)
    requires 0 <= e < n * n
    ensures Cursor(n, e + 1) == Next(n, Cursor(n, e))
  {
    RowBelow(n, e);
    var i, j := e / n, e % n;
    assert e == i * n + j;
    if j + 1 < n {
      DivModDigits(n, i, j + 1);
    } else {
      assert e + 1 == (i + 1) * n + 0;
      DivModDigits(n, i + 1, 0);
    }
  }

  /** The scan steps over a pair that is not an edge. */
  lemma ScanSkips(g: Rows, n: nat, c: Pair)
    requires |g| == n && c.0 < n && !IsEdge(g, n, c)
    ensures NextEdge(g, n, c) == NextEdge(g, n, Next(n, c))
  {
  }

  /** A call depends on its scan position only through the first edge the
      scan finds from there. */
  lemma ExploreSameScan(test: SpectralTest, g: Rows, n: nat, d: int, s: Rows, c: Pair, c': Pair)
    requires |g| == n && |s| == n && NextEdge(g, n, c) == NextEdge(g, n, c')
    ensures Explore(test, g, n, d, s, c) == Explore(test, g, n, d, s, c')
  {
  }

  /** go: scan for the first edge at or after position `mine` and hand it
      to TryEdge; test the leaf when no edge is left. The ghost `leaves`
      records the signings handed to the leaf test, so |leaves| is the
      number of eigenvalue computations. */
  method Go(g: Rows, subg: array<set<int>>, n: nat, d: int, mine: nat, test: SpectralTest)
    returns (found: bool, ghost leaves: seq<Rows>)
    requires |g| == n && subg.Length == n
    modifies subg
    ensures Run(found, subg[..], leaves) == Explore(test, g, n, d, old(subg[..]), Cursor(n, mine))
    decreases n * n - mine, 1
  {
    ghost var s := subg[..];
    ghost var c := Cursor(n, mine);
    var e := mine;
    while e < n * n
      invariant mine <= e
      invariant NextEdge(g, n, Cursor(n, e)) == NextEdge(g, n, c)
      invariant subg[..] == s
    {
      RowBelow(n, e);
      var i := e / n;
      var j := e % n;
      assert Cursor(n, e) == (i, j);
      if i < j && j in g[i] {
        ExploreSameScan(test, g, n, d, s, c, (i, j));
        found, leaves := TryEdge(g, subg, n, d, e, i, j, test);
        return;
      }
      CursorStep(n, e);
      ScanSkips(g, n, (i, j));
      e := e + 1;
    }
    // no edge left: test the leaf
    if n > 0 {
      RowBeyond(n, e);
    }
    assert NextEdge(g, n, c) == None;
    found := HasSmallEigenvalues(g, subg, n, d, test);
    leaves := [subg[..]];
  }

  /** The body of the scan loop of go at the edge (i, j) found at position
      e: add the edge and recurse; on failure remove it and recurse again. */
  method TryEdge(g: Rows, subg: array<set<int>>, n: nat, d: int, e: nat, i: nat, j: nat, test: SpectralTest)
    returns (found: bool, ghost leaves: seq<Rows>)
    requires |g| == n && subg.Length == n && e < n * n
    requires Cursor(n, e) == (i, j) && IsEdge(g, n, (i, j))
    modifies subg
    ensures Run(found, subg[..], leaves) == Explore(test, g, n, d, old(subg[..]), (i, j))
    decreases n * n - e, 0
  {
    ghost var s := subg[..];
    CursorStep(n, e);
    // add (i, j) and recurse
    subg[i] := subg[i] + {j};
    subg[j] := subg[j] + {i};
    assert subg[..] == Add(s, i, j);
    ghost var leaves1;
    found, leaves1 := Go(g, subg, n, d, e + 1, test);
    if found {
      leaves := leaves1;
      return;
    }
    // remove (i, j) and recurse
    ghost var f1 := subg[..];
    subg[i] := subg[i] - {j};
    subg[j] := subg[j] - {i};
    assert subg[..] == Remove(f1, i, j);
    ghost var leaves2;
    found, leaves2 := Go(g, subg, n, d, e + 1, test);
    leaves := leaves1 + leaves2;
  }
}
