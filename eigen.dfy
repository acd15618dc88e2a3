/** The leaf test of the search: build the signed adjacency matrix of a
    graph under a signing, then ask whether every eigenvalue lies within
    2 * sqrt(d - 1) in absolute value.

    The eigen-solve and the floating-point threshold are not modelled; they
    are the `SpectralTest` parameter, a total function of the column-major
    matrix, its order n and the degree d. */
module Eigen {
  import opened Graphs

  /** Whether every eigenvalue of the n-by-n column-major matrix is at most
      2 * sqrt(d - 1) in absolute value. */
  type SpectralTest = (seq<real>, nat, int) -> bool

  /** The matrix entry for row i, column j: 0 off the graph, +1 on an edge
      that is in the signing, -1 on an edge of g that is not. */
  function Entry(g: Rows, s: Rows, i: nat, j: int): (x: real)
    requires i < |g| && i < |s|
    ensures x == 0.0 || x == 1.0 || x == -1.0
    ensures x == 0.0 <==> j !in g[i]
  {
    if j !in g[i] then 0.0
    else if j in s[i] then 1.0
    else -1.0
  }

  /** Column j of the signed adjacency matrix. */
  function Column(g: Rows, s: Rows, n: nat, j: int): (col: seq<real>)
    requires |g| == n && |s| == n
  {
    seq(n, i requires 0 <= i < n => Entry(g, s, i, j))
  }

  /** The first j columns, laid out one after another (column-major). */
  function Columns(g: Rows, s: Rows, n: nat, j: nat): seq<real>
    requires |g| == n && |s| == n
  {
    if j == 0 then [] else Columns(g, s, n, j - 1) + Column(g, s, n, j - 1)
  }

  /** The signed adjacency matrix, column-major. */
  function SignedMatrix(g: Rows, s: Rows, n: nat): seq<real>
    requires |g| == n && |s| == n
  {
    Columns(g, s, n, n)
  }

  /** Index k of the first j columns holds row k % n, column k / n. */
  lemma {:induction false} ColumnsAt(g: Rows, s: Rows, n: nat, j: nat, k: int)
    requires |g| == n && |s| == n && 0 <= k < j * n
    ensures |Columns(g, s, n, j)| == j * n
    ensures 0 <= k % n < n && Columns(g, s, n, j)[k] == Entry(g, s, k % n, k / n)
  {
    ColumnsLength(g, s, n, j);
    assert j > 0;
    var before := (j - 1) * n;
    assert j * n == before + n;
    ColumnsLength(g, s, n, j - 1);
    if k < before {
      ColumnsAt(g, s, n, j - 1, k);
    } else {
      var i := k - before;
      DivModDigits(n, j - 1, i);
      assert Columns(g, s, n, j)[k] == Column(g, s, n, j - 1)[i];
    }
  }

  lemma {:induction false} ColumnsLength(g: Rows, s: Rows, n: nat, j: nat)
    requires |g| == n && |s| == n
    ensures |Columns(g, s, n, j)| == j * n
  {
    if j > 0 {
      ColumnsLength(g, s, n, j - 1);
    }
  }

  /** Index k of the matrix holds row k % n, column k / n. */
  lemma SignedMatrixIndex(g: Rows, s: Rows, n: nat, k: int)
    requires |g| == n && |s| == n && 0 <= k < n * n
    ensures |SignedMatrix(g, s, n)| == n * n
    ensures 0 <= k % n < n && SignedMatrix(g, s, n)[k] == Entry(g, s, k % n, k / n)
  {
    ColumnsAt(g, s, n, n, k);
  }

  /** The verdict of the leaf test for signing s. */
  function Oracle(test: SpectralTest, g: Rows, n: nat, d: int, s: Rows): bool
    requires |g| == n && |s| == n
  {
    test(SignedMatrix(g, s, n), n, d)
  }

  /** Entry (i, j) of the matrix sits at index i + j * n, and is 0 exactly off
      the graph, +1 exactly on the edges of the signing, -1 exactly on the
      other edges of g. */
  lemma SignedMatrixAt(g: Rows, s: Rows, n: nat, i: nat, j: nat)
    requires |g| == n && |s| == n && i < n && j < n
    ensures |SignedMatrix(g, s, n)| == n * n && 0 <= i + j * n < n * n
    ensures SignedMatrix(g, s, n)[i + j * n] == 0.0 <==> j !in g[i]
    ensures SignedMatrix(g, s, n)[i + j * n] == 1.0 <==> j in g[i] && j in s[i]
    ensures SignedMatrix(g, s, n)[i + j * n] == -1.0 <==> j in g[i] && j !in s[i]
  {
    CellIndex(n, i, j);
    SignedMatrixIndex(g, s, n, i + j * n);
  }

  /** Under the empty signing every edge of g gets -1: the matrix is the
      negated adjacency matrix. */
  lemma EmptySigningMatrix(g: Rows, n: nat, i: nat, j: nat)
    requires |g| == n && i < n && j < n
    ensures |SignedMatrix(g, Empty(n), n)| == n * n && 0 <= i + j * n < n * n
    ensures SignedMatrix(g, Empty(n), n)[i + j * n] == if j in g[i] then -1.0 else 0.0
  {
    SignedMatrixAt(g, Empty(n), n, i, j);
  }

  /** The matrix is symmetric whenever g and the signing are. */
  lemma SignedMatrixSymmetric(g: Rows, s: Rows, n: nat, i: nat, j: nat)
    requires |g| == n && |s| == n && i < n && j < n
    requires Symmetric(g, n) && Symmetric(s, n)
    ensures |SignedMatrix(g, s, n)| == n * n
    ensures 0 <= i + j * n < n * n && 0 <= j + i * n < n * n
    ensures SignedMatrix(g, s, n)[i + j * n] == SignedMatrix(g, s, n)[j + i * n]
  {
    SignedMatrixAt(g, s, n, i, j);
    SignedMatrixAt(g, s, n, j, i);
  }

  /** The cell (i, j) of an n-by-n column-major matrix sits at index
      i + j * n, and that is the only index with row i and column j. */
  lemma CellIndex(n: nat, i: nat, j: nat)
    requires i < n && j < n
    ensures 0 <= i + j * n < n * n
    ensures (i + j * n) % n == i && (i + j * n) / n == j
  {
    MulMono(n - 1, j, n);
    DivModDigits(n, j, i);
  }

  lemma SameCell(n: nat, k: int, i: int, j: int)
    requires n > 0 && k % n == i && k / n == j
    ensures k == i + j * n
  {
  }

  /** Every index of `a` whose cell (row k % n, column k / n) comes before
      (i, j) in row-by-row order holds the entry of `m`. */
  ghost predicate Filled(a: seq<real>, m: seq<real>, n: nat, i: int, j: int)
  {
    |a| == |m| == n * n &&
    forall k :: 0 <= k < n * n && (k % n < i || (k % n == i && k / n < j)) ==> a[k] == m[k]
  }

  lemma FillStart(a: seq<real>, m: seq<real>, n: nat)
    requires |a| == |m| == n * n
    ensures Filled(a, m, n, 0, 0)
  {
    forall k | 0 <= k < n * n ensures k % n >= 0 && k / n >= 0 {
      RowBelow(n, k);
    }
  }

  /** Writing the entry of cell (i, j) extends the filled part by one cell. */
  lemma FillStep(a: seq<real>, m: seq<real>, n: nat, i: nat, j: nat)
    requires i < n && j < n && Filled(a, m, n, i, j)
    ensures 0 <= i + j * n < n * n && Filled(a[i + j * n := m[i + j * n]], m, n, i, j + 1)
  {
    CellIndex(n, i, j);
    var a' := a[i + j * n := m[i + j * n]];
    forall k | 0 <= k < n * n && (k % n < i || (k % n == i && k / n < j + 1))
      ensures a'[k] == m[k]
    {
      if k % n == i && k / n == j {
        SameCell(n, k, i, j);
      }
    }
  }

  /** A row filled to its end is the start of the next one. */
  lemma FillRow(a: seq<real>, m: seq<real>, n: nat, i: nat)
    requires Filled(a, m, n, i, n)
    ensures Filled(a, m, n, i + 1, 0)
  {
    forall k | 0 <= k < n * n ensures k / n < n {
      RowBelow(n, k);
    }
  }

  lemma FillDone(a: seq<real>, m: seq<real>, n: nat)
    requires Filled(a, m, n, n, 0)
    ensures a == m
  {
    forall k | 0 <= k < n * n ensures a[k] == m[k] {
      RowBelow(n, k);
    }
  }

  /** has_small_eigenvalues: fill the column-major matrix row by row, then
      run the spectral test on it. */
  method HasSmallEigenvalues(g: Rows, subg: array<set<int>>, n: nat, d: int, test: SpectralTest)
    returns (result: bool)
    requires |g| == n && subg.Length == n
    ensures result == Oracle(test, g, n, d, subg[..])
  {
    ghost var m := SignedMatrix(g, subg[..], n);
    ColumnsLength(g, subg[..], n, n);
    var mat := new real[n * n];
    FillStart(mat[..], m, n);
    for i := 0 to n
      invariant Filled(mat[..], m, n, i, 0)
    {
      for j := 0 to n
        invariant Filled(mat[..], m, n, i, j)
      {
        FillStep(mat[..], m, n, i, j);
        SignedMatrixAt(g, subg[..], n, i, j);
        ghost var next := mat[..][i + j * n := m[i + j * n]];
        if j !in g[i] {
          mat[i + j * n] := 0.0;
        } else if j in subg[i] {
          mat[i + j * n] := 1.0;
        } else {
          mat[i + j * n] := -1.0;
        }
        assert mat[..] == next;
      }
      FillRow(mat[..], m, n, i);
    }
    FillDone(mat[..], m, n);
    result := test(mat[..], n, d);
  }
}
