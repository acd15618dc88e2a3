/** Adjacency rows and signings.

    A graph on n vertices is held as n rows; row v is the set of neighbours of
    v (one machine word of bits in the program, so POPCOUNT of a row is the
    cardinality of the set). A signing `subg` has the same shape: row v holds
    the neighbours u of v whose edge {v, u} is currently in the signing.

    An edge is named by its upper pair (i, j) with i < j. The program scans
    edges by position e = i * n + j; the position order is the lexicographic
    order on pairs, which is what the specification uses. */
module Graphs {

  type Rows = seq<set<int>>

  /** A pair (i, j) of vertices: an edge when i < j, or a scan position. */
  type Pair = (int, int)

  /** The upper pair naming the unordered pair {v, u}. */
  function Key(v: int, u: int): Pair
  {
    if v < u then (v, u) else (u, v)
  }

  /** Euclidean division by n recovers the two digits of q * n + r. */
  lemma DivModDigits(n: nat, q: int, r: int)
    requires 0 <= q && 0 <= r < n
    ensures (q * n + r) / n == q && (q * n + r) % n == r
  {
    var p := q * n + r;
    var q', r' := p / n, p % n;
    assert p == q' * n + r';
    if q' < q {
      assert (q - q') * n >= n by { MulAtLeast(q - q', n); }
      assert false;
    } else if q' > q {
      assert (q' - q) * n >= n by { MulAtLeast(q' - q, n); }
      assert false;
    }
  }

  lemma MulAtLeast(a: int, n: nat)
    requires a >= 1
    ensures a * n >= n
  {
  }

  lemma MulMono(a: int, b: int, n: nat)
    requires a >= b
    ensures a * n >= b * n
  {
  }

  /** A position below n * n names a row below n. */
  lemma RowBelow(n: nat, e: int)
    requires 0 <= e < n * n
    ensures n > 0 && 0 <= e / n < n && 0 <= e % n < n
  {
    if n == 0 {
      assert false;
    }
    var q, r := e / n, e % n;
    assert e == q * n + r && 0 <= r < n;
    if q >= n {
      MulMono(q, n, n);
      assert false;
    }
  }

  /** A position at or beyond n * n names a row at or beyond n. */
  lemma RowBeyond(n: nat, e: int)
    requires n > 0 && e >= n * n
    ensures e / n >= n
  {
    var q, r := e / n, e % n;
    assert e == q * n + r && 0 <= r < n;
    if q < n {
      MulMono(n - 1, q, n);
      assert false;
    }
  }

  /** The adjacency relation is symmetric on the vertices below n. */
  ghost predicate Symmetric(s: Rows, n: nat)
    requires |s| == n
  {
    forall v, u :: 0 <= v < n && 0 <= u < n ==> (u in s[v] <==> v in s[u])
  }

  /** A signing of g: symmetric and contained row by row in g. */
  ghost predicate SignedSubgraph(g: Rows, s: Rows, n: nat)
    requires |g| == n
  {
    |s| == n && Symmetric(s, n) && forall v :: 0 <= v < n ==> s[v] <= g[v]
  }

  /** The signing with no edge in it. */
  function Empty(n: nat): (s: Rows)
    ensures |s| == n && forall v :: 0 <= v < n ==> s[v] == {}
  {
    seq(n, v => {})
  }

  /** ADDELEMENT of j to row i and of i to row j. */
  function Add(s: Rows, i: int, j: int): (r: Rows)
    requires 0 <= i < |s| && 0 <= j < |s|
    ensures |r| == |s|
  {
    s[i := s[i] + {j}][j := s[j] + {i}]
  }

  /** DELELEMENT of j from row i and of i from row j. */
  function Remove(s: Rows, i: int, j: int): (r: Rows)
    requires 0 <= i < |s| && 0 <= j < |s|
    ensures |r| == |s|
  {
    s[i := s[i] - {j}][j := s[j] - {i}]
  }

  /** The neighbours u of v whose pair {v, u} is in P. */
  function Pairs(n: nat, v: int, P: set<Pair>): set<int>
  {
    set u | 0 <= u < n && u != v && Key(v, u) in P
  }

  /** `s` with every pair of E decided by T: such a pair is in the result
      exactly when it is in T. Pairs outside E are left as they are in `s`. */
  function Assign(s: Rows, n: nat, E: set<Pair>, T: set<Pair>): (r: Rows)
    ensures |r| == |s|
  {
    seq(|s|, v requires 0 <= v < |s| => (s[v] - Pairs(n, v, E)) + Pairs(n, v, T * E))
  }

  lemma AssignAt(s: Rows, n: nat, E: set<Pair>, T: set<Pair>, v: int, u: int)
    requires 0 <= v < |s|
    ensures u in Assign(s, n, E, T)[v] <==>
      if 0 <= u < n && u != v && Key(v, u) in E then Key(v, u) in T else u in s[v]
  {
  }

  /** x and s agree on every pair outside E. */
  ghost predicate SameOutside(x: Rows, s: Rows, n: nat, E: set<Pair>)
  {
    |x| == |s| &&
    forall v, u :: 0 <= v < |s| && !(0 <= u < n && u != v && Key(v, u) in E) ==>
      (u in x[v] <==> u in s[v])
  }

  /** Adding or removing the edge (i, j) changes no pair but {i, j}. */
  lemma AddRemoveOnlyAt(s: Rows, n: nat, i: int, j: int, E: set<Pair>)
    requires |s| == n && 0 <= i < j < n && (i, j) in E
    ensures SameOutside(Add(s, i, j), s, n, E)
    ensures SameOutside(Remove(s, i, j), s, n, E)
  {
  }

  lemma SameOutsideTrans(x: Rows, y: Rows, z: Rows, n: nat, E': set<Pair>, E: set<Pair>)
    requires SameOutside(x, y, n, E') && SameOutside(y, z, n, E) && E' <= E
    ensures SameOutside(x, z, n, E)
  {
  }

  lemma SameOutsideRefl(s: Rows, n: nat, E: set<Pair>)
    ensures SameOutside(s, s, n, E)
  {
  }

  /** Deciding no pair leaves a signing as it is. */
  lemma AssignNothing(s: Rows, n: nat, T: set<Pair>)
    ensures Assign(s, n, {}, T) == s
  {
    forall v | 0 <= v < |s| ensures Assign(s, n, {}, T)[v] == s[v] {
      forall u ensures u in Assign(s, n, {}, T)[v] <==> u in s[v] {
        AssignAt(s, n, {}, T, v, u);
      }
    }
  }

  /** Deciding the edge e = (i, j) by ADDELEMENT (or DELELEMENT) and then
      the pairs of E' is deciding all of E' + {e} at once, with e in (or
      out of) the chosen set. The base x may differ from s on E' + {e}. */
  lemma DecideFirst(x: Rows, s: Rows, n: nat, i: int, j: int, E': set<Pair>, T: set<Pair>)
    requires |s| == n && 0 <= i < j < n && (i, j) !in E'
    requires SameOutside(x, s, n, E' + {(i, j)})
    ensures Assign(Add(x, i, j), n, E', T) == Assign(s, n, E' + {(i, j)}, T + {(i, j)})
    ensures Assign(Remove(x, i, j), n, E', T) == Assign(s, n, E' + {(i, j)}, T - {(i, j)})
  {
    var E, e := E' + {(i, j)}, (i, j);
    var a, r := Add(x, i, j), Remove(x, i, j);
    forall v | 0 <= v < n
      ensures Assign(a, n, E', T)[v] == Assign(s, n, E, T + {e})[v]
      ensures Assign(r, n, E', T)[v] == Assign(s, n, E, T - {e})[v]
    {
      forall u
        ensures u in Assign(a, n, E', T)[v] <==> u in Assign(s, n, E, T + {e})[v]
        ensures u in Assign(r, n, E', T)[v] <==> u in Assign(s, n, E, T - {e})[v]
      {
        AssignAt(a, n, E', T, v, u);
        AssignAt(r, n, E', T, v, u);
        AssignAt(s, n, E, T + {e}, v, u);
        AssignAt(s, n, E, T - {e}, v, u);
      }
    }
  }

  /** Clearing E changes nothing when no pair of E is present. */
  lemma ClearAbsent(s: Rows, n: nat, E: set<Pair>)
    requires forall v, u :: 0 <= v < |s| && 0 <= u < n && u != v && Key(v, u) in E ==> u !in s[v]
    ensures Assign(s, n, E, {}) == s
  {
    forall v | 0 <= v < |s| ensures Assign(s, n, E, {})[v] == s[v] {
      forall u ensures u in Assign(s, n, E, {})[v] <==> u in s[v] {
        AssignAt(s, n, E, {}, v, u);
      }
    }
  }

  /** ADDELEMENT and DELELEMENT on both orientations of an edge of a
      symmetric g keep a signing of g a signing of g. */
  lemma AddRemoveKeepSigned(g: Rows, s: Rows, n: nat, i: int, j: int)
    requires |g| == n && Symmetric(g, n) && SignedSubgraph(g, s, n)
    requires 0 <= i < n && 0 <= j < n && j in g[i]
    ensures SignedSubgraph(g, Add(s, i, j), n) && SignedSubgraph(g, Remove(s, i, j), n)
  {
  }
}
