# Bilu–Linial signing search

This project models the core of `bilu-linial.c`. The program checks the
Bilu–Linial conjecture on a stream of regular graphs. For each graph of
degree d it searches for a signing of the edges: a signed adjacency matrix
whose eigenvalues all lie within 2·√(d−1) in absolute value. A graph with
no such signing is reported as a counterexample.

The model has four parts.

- **regularity.dfy** (`Regularity`) models `regularity_degree`: a scanning
  loop with an early return. It yields the common degree (the popcount of
  every row) or −1.
- **eigen.dfy** (`Eigen`) models the matrix-filling loops of
  `has_small_eigenvalues`. They run over the real array `mat`, column-major,
  indexed `i + j*n`.
  - The entries are 0 off the graph, +1 for an edge of g that is in `subg`,
    and −1 for the other edges of g.
  - The eigen-solve and the threshold comparison are one abstract
    `SpectralTest` parameter. It is a total function of the matrix, n and d.
  - `Oracle` is that test applied to `SignedMatrix`, the reference
    definition of the matrix.
- **search.dfy** (`Search`) models `go` as a recursive method that mutates
  the `array<set<int>>` `subg` in place.
  - `Explore` is a pure specification of one call. It gives the verdict,
    the signing left behind, and the sequence of signings handed to the
    leaf test.
  - The position scan `e = mine .. n*n−1` is decoded into pairs
    `(e / n, e % n)`, and the specification walks the pairs in
    lexicographic order.
  - `Go` is proved to produce exactly `Explore`'s run.
  - The lemmas relate `Explore` to an independent description: the
    completions `Assign(s, n, E, T)` of the entry signing, one for each
    choice T of the remaining edges E.
- **driver.dfy** (`Driver`) models the decision of `test_bilu_linial` as
  an `Outcome` value.

Graph rows are sets of vertices. POPCOUNT is set cardinality, and
ADDELEMENT/DELELEMENT are set union and difference. `graphs.dfy` (`Graphs`)
holds these rows, the signing operations (`Add`, `Remove`, `Assign`) and a
few integer division facts.

The code writes +1 for edges of g that are in `subg` (line 75) and −1 for
the other edges of g (line 77), and the model follows it. Swapping the two
values negates the matrix and leaves every |λ| unchanged, so the verdict
does not depend on the choice.

## Model

| member | source | states |
|---|---|---|
| Regularity.RegularityDegree | bilu-linial.c:32-46 | 0 for the empty graph. Otherwise −1 exactly when some row i ≥ 1 has a popcount different from row 0. A non-negative result is a degree every row has, and it is the only such degree. |
| Eigen.Entry | bilu-linial.c:72-78 | The three-way branch for one cell: the entry is 0, +1 or −1, and it is 0 exactly when j is not adjacent to i. |
| Eigen.HasSmallEigenvalues | bilu-linial.c:68-79 | The nested loops fill `mat` with exactly `SignedMatrix(g, subg)`, so the result is the spectral test of that matrix (`Oracle`). |
| Eigen.SignedMatrixIndex | bilu-linial.c:68-79 | The matrix has n·n entries, and index k holds row k % n, column k / n (column-major layout). |
| Eigen.SignedMatrixAt | bilu-linial.c:68-79 | Entry `i + j*n` is 0 iff j is not adjacent to i. It is +1 iff the edge is in g and in the signing, and −1 iff the edge is in g but not in the signing. |
| Eigen.EmptySigningMatrix | bilu-linial.c:68-79 | Under the empty signing, every edge of g gets −1 and every non-edge 0. |
| Eigen.SignedMatrixSymmetric | bilu-linial.c:68-79 | When g and the signing are symmetric, so is the matrix: entry (i, j) equals entry (j, i). |
| Search.NextEdge | bilu-linial.c:115-124 | The scan loop: the edge it finds is an edge of g (i < j, j adjacent to i) at or after the cursor. That it is the first such edge is stated by NextEdgeFirst. |
| Search.Explore | bilu-linial.c:112-150 | The pure model of one call of `go`: its verdict, the signing left behind and the ordered signings handed to the leaf test. Its own contract fixes only sizes (n rows, at least one leaf); its meaning comes from the lemmas in the rows below. |
| Graphs.Add | bilu-linial.c:128-131 | The paired ADDELEMENT calls: j joins row i and i joins row j. The contract keeps the number of rows; AddRemoveOnlyAt and AddRemoveKeepSigned state its effect. |
| Graphs.Remove | bilu-linial.c:137-140 | The paired DELELEMENT calls: j leaves row i and i leaves row j. The contract keeps the number of rows; AddRemoveOnlyAt and AddRemoveKeepSigned state its effect. |
| Search.Go | bilu-linial.c:112-150 | The verdict, the final contents of `subg` and the sequence of leaf evaluations equal those of `Explore` from the entry signing at position `mine`. Terminates by `n*n − mine`. |
| Search.TryEdge | bilu-linial.c:126-145 | At edge (i, j): add both orientations and recurse. Return at once on success; otherwise remove both and recurse again. The result is `Explore`'s run at that edge. |
| Search.NextEdgeFirst | bilu-linial.c:115-124 | The scan finds the first edge (i < j, j adjacent to i) at or after the cursor. If it finds none, no edge is left. Otherwise the remaining edges are the one found plus those after it. |
| Search.CursorStep | bilu-linial.c:115-117 | Position e + 1 decodes to the pair after the one position e decodes to. |
| Search.ExploreFindsCompletion | bilu-linial.c:112-150 | The search succeeds iff some subset T of the edges at or after the cursor makes the leaf test pass: each edge of T is in the signing and each other remaining edge is out. |
| Search.ExploreOnlyAhead | bilu-linial.c:126-145 | The final signing and every leaf differ from the entry signing only on edges at or after the cursor. |
| Search.ExploreFailureClears | bilu-linial.c:136-145 | On failure, the signing left behind is the entry signing with every remaining edge removed. |
| Search.ExploreFailureRestores | bilu-linial.c:132-145 | On failure, if no remaining edge was in the signing on entry, the signing is restored exactly. |
| Search.ExploreLastLeaf | bilu-linial.c:132-149 | The last signing tested is the one left in `subg`, and its verdict is the call's verdict. On success, `subg` holds the satisfying signing. |
| Search.ExploreShortCircuits | bilu-linial.c:132-143 | Every leaf tested before the last one failed: the search stops at the first success. |
| Search.ExploreLeafCount | bilu-linial.c:128-149 | With k remaining edges, the leaf test runs at most 2^k times, and exactly 2^k times when the search fails. |
| Search.ExploreAddsFirst | bilu-linial.c:127-132 | The first signing tested has every remaining edge added: the added branch is always explored first. |
| Search.ExploreKeepsSigned | bilu-linial.c:126-140 | With g symmetric, a signing that is symmetric and contained in g stays so in the final state and in every leaf. |
| Graphs.AddRemoveKeepSigned | bilu-linial.c:128-140 | Adding or removing both orientations of an edge of a symmetric g keeps a signing of g symmetric and contained in g. |
| Graphs.AddRemoveOnlyAt | bilu-linial.c:128-140 | Adding or removing the edge (i, j) changes no pair other than {i, j}. |
| Graphs.DecideFirst | bilu-linial.c:128-141 | Adding (or removing) edge e and then deciding the later edges by T is the same as deciding e and the later edges together, with e in (or out of) the chosen set. |
| Driver.TestBiluLinial | bilu-linial.c:152-180 | The four outcomes, each as an iff. NotRegular when some row's degree differs from row 0's. Vacuous for regular graphs of degree ≤ 1, with no leaf evaluation. Satisfied when some signing of all edges passes the leaf test, starting from an emptied `subg` at position 0. Counterexample exactly when none does, after exactly 2^|E| leaf evaluations. |

## Left out

- The eigen-solve (`LAPACKE_dsyev`, lines 83-94) and the threshold loop over `fabs(eig[i]) > 2*sqrt(d-1)` (lines 97-105) use a foreign numeric library and floating point. They are the abstract `SpectralTest` parameter. The call passes `'U'` (line 85), so the real solver reads only the entries `mat[i + j*n]` with i ≤ j; `SpectralTest` receives the whole matrix, and that dependence on the upper triangle alone is not modelled.
- The `eig` array and its NaN initialisation (lines 63 and 80) feed only the eigen-solve, so they are not modelled.
- `malloc`/`free`, the allocation-failure `PANIC`, and the `PANIC` on a failed eigen-solve (lines 62-66, 91-93, 107-108) are left out. The model allocates `mat` with `new`.
- The `PANIC` on an irregular graph (line 156) is the `NotRegular` outcome. The `exit` after a counterexample (lines 174-178) is the `Counterexample` outcome. `dump_graph` (lines 48-58) and all printing are I/O.
- `readg`, `nauty_check`, `usage`, `main` and the bitset macros (lines 9-10, 21-30, 182-228) are external library code or command-line plumbing. Rows are sets, so `n ≤ WORDSIZE` and `MAXM == 1` need no modelling.
- Search.TryEdge: the source has the branch inline in `go`'s scan loop. The model makes it a separate method, mutually recursive with `Go`, with the same statements and order.
- Search.Go: the recursion-depth bound (at most the number of edges) is not stated as a lemma. Termination is proved by the decreases clause `n*n − mine`.
- C `int` width: the positions `e < n*n` with `n ≤ 64` cannot overflow, so integers are unbounded and non-negative here. Division and remainder on non-negative values agree with C's truncating operators.
