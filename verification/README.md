# Seeded image segmentation: a Dafny model of the discrete core

`SeededSegmentation` segments a colour image into background and foreground.
It takes two seed masks. It builds the graph Laplacian `L` of the 8-connected
pixel grid, weighting each edge by colour affinity. It then solves
`(Is + L L) x = b`, where `Is` marks the seeded pixels and `b` holds their
labels (+1 background, -1 foreground). Finally it thresholds `x` at 0.

This project models the combinatorial part of that pipeline and proves its
structural properties.

- `Grid` (grid.dfy): grid bounds and row-major flattening `row * cols + col`.
  It also holds the eight neighbourhood offsets. They are proved to be exactly
  the king moves, closed under negation, pairwise distinct and never `(0, 0)`.
  In-grid neighbours number 3 at a corner, 5 on the rest of the border and 8
  inside.
- `Affinity` (affinity.dfy): the infinity-norm colour distance, C's `round`,
  and the EPSILON quantisation of the raw weight. Each edge weight is
  symmetric and at least EPSILON.
- `Sparse` (sparse.dfy): a sparse matrix as the list of its `(row, col,
  value)` insertions. The value at a position is the sum of the triplets there,
  which is what `w + d` computes.
- `AffinityGraph` (affinity_graph.dfy): `calculateLaplacian` as three nested
  loops (`CalculateLaplacian`, `VisitPixel`), with a functional reference
  definition of the same pass. Proved about it:
  - every index is inside the N x N matrix, `w` has no diagonal entry, and
    neither `w` nor `d` inserts a position twice;
  - the closed form of every entry (degree, minus the weight, or zero);
  - symmetry when the weight is symmetric;
  - every row sums to zero;
  - row p of `w` has one entry per in-grid neighbour;
  - off-diagonal entries are at most minus the weight's lower bound;
  - on a uniform image the diagonal is 3u, 5u or 8u.
- `Seeds` (seeds.dfy): the `Is` / `b` assembly. A pixel in both masks gets
  `Is = 1, b = 0`. For disjoint masks the masks can be decoded back from `b`.
- `Segmentation` (segmentation.dfy): the constructor's checks, and the system
  handed to the solver with its proved shape. Also the threshold `(1 + -1) / 2
  = 0`, the row-major reshape (and its inverse), and the whole `segment`
  call. The solver is a parameter.

## Model

| member | source | states |
|---|---|---|
| Segmentation.Create | MathTools/seededsegmentation.cpp:3-14 | Construction fails exactly when beta < 0 or sigma <= 0. A negative beta is reported first, whatever sigma is. beta = 0 with sigma > 0 succeeds and binds the image and both parameters unchanged. |
| Affinity.InfDistance | MathTools/seededsegmentation.cpp:47-50 | The distance bounds every channel's absolute difference and equals one of them: it is the largest. |
| Affinity.InfDistanceIsSymmetric | MathTools/seededsegmentation.cpp:47-50 | The infinity-norm distance is symmetric and non-negative. It is zero exactly when the two colours are equal. |
| Affinity.Round | MathTools/seededsegmentation.cpp:53 | The result is within 1/2 of its argument. In a halfway case it is the integer farther from zero, as C's round is. A non-negative argument gives a non-negative result. |
| Affinity.Quantise | MathTools/seededsegmentation.cpp:52-55 | A non-negative raw weight quantises to at least EPSILON. The result is within EPSILON/2 of raw weight + EPSILON. |
| Affinity.EdgeWeightSymmetricPositive | MathTools/seededsegmentation.cpp:34-55 | The quantised weight exp(-(beta/sigma) d^2) is the same in both directions of an edge. For a valid segmenter it is at least EPSILON, so it is strictly positive. |
| Affinity.EdgeWeightOfEqualColours | MathTools/seededsegmentation.cpp:47-55 | Between two equal colours the weight is the quantised kernel at 0. Every edge of a uniform image therefore carries the same weight. |
| Grid.FlattenInRange | MathTools/seededsegmentation.cpp:44-46 | A pixel that passes the two bounds checks flattens to an index in [0, rows*cols). |
| Grid.FlattenInjective | MathTools/seededsegmentation.cpp:58 | Two in-grid pixels with the same flat index are the same pixel. |
| Grid.FlattenMonotone | MathTools/seededsegmentation.cpp:41-42 | The row-by-row, column-by-column loop order visits flat indices in strictly increasing order. |
| Grid.UnflattenFlatten | MathTools/seededsegmentation.cpp:58 | Division and remainder by cols recover the pixel from its flat index. |
| Grid.Unflatten | MathTools/seededsegmentation.cpp:101-102 | Every flat index below rows*cols is the index of exactly the in-grid pixel (p / cols, p % cols). |
| Grid.OffsetTables | MathTools/seededsegmentation.cpp:31-33 | Visited in order k = 0..7, the offsets are dy = {-1, -1, -1, 0, 0, 1, 1, 1} and dx = {-1, 0, 1, -1, 1, -1, 0, 1}. |
| Grid.OffsetIsKingMove | MathTools/seededsegmentation.cpp:31-33 | The eight (dy, dx) offsets are exactly the moves to a different cell at Chebyshev distance one. |
| Grid.OffsetsClosedUnderNegation | MathTools/seededsegmentation.cpp:32-33 | Offset 7-k is the negation of offset k, and no offset is (0, 0). |
| Grid.OffsetsDistinct | MathTools/seededsegmentation.cpp:32-33 | No two offsets are equal. |
| Grid.NeighbourSymmetric | MathTools/seededsegmentation.cpp:32-33 | q is an offset-neighbour of p iff p is one of q. No pixel is its own neighbour. |
| Grid.NeighbourCountIsClippedWindow | MathTools/seededsegmentation.cpp:44-46 | The number of offsets that pass both bounds checks is the clipped 3x3 window's size minus one. |
| Grid.NeighbourCountByPosition | MathTools/seededsegmentation.cpp:44-46 | With at least two rows and two columns, a corner has 3 neighbours, another border pixel 5, an interior pixel 8. |
| AffinityGraph.VisitPixel | MathTools/seededsegmentation.cpp:43-59 | The inner offset loop skips out-of-grid offsets. It returns exactly the pixel's reference triplets and degree. Its triplets sum to minus the degree. |
| AffinityGraph.CalculateLaplacian | MathTools/seededsegmentation.cpp:29-66 | The full pass produces the reference `w` and `d`. Every index of `w + d` is in [0, N). `w` has no diagonal triplet. `d` only has diagonal triplets. Neither inserts a position twice, which `insert` at lines 58 and 61 requires. |
| AffinityGraph.PixelEntriesShape | MathTools/seededsegmentation.cpp:44-58 | A pixel's triplets lie in its own row, have in-range off-diagonal columns, and never repeat a column. |
| AffinityGraph.PixelEntriesAt | MathTools/seededsegmentation.cpp:44-58 | The value a pixel's triplets assemble to at (p, q) is minus the edge weight when an offset reaches q, and zero otherwise. |
| AffinityGraph.PixelEntriesRow | MathTools/seededsegmentation.cpp:43-58 | A pixel's triplets sum to minus its degree and number as many as its in-bounds offsets. |
| AffinityGraph.ScanShape | MathTools/seededsegmentation.cpp:41-63 | Triplets written before pixel (i, j) are in earlier rows, inside the matrix and off the diagonal, with no position repeated. Diagonal triplets are on the diagonal. |
| AffinityGraph.OffDiagonalAtScan | MathTools/seededsegmentation.cpp:41-63 | Before the loops reach pixel (i, j), w[p][q] is minus the edge weight when p is a pixel already visited and q a king move from it, and 0 otherwise. |
| AffinityGraph.OffDiagonalRowSumScan | MathTools/seededsegmentation.cpp:41-63 | Row p of `w` sums to minus p's degree once the loops have passed p, and to 0 before. |
| AffinityGraph.OffDiagonalRowCountScan | MathTools/seededsegmentation.cpp:41-63 | Row p of `w` holds one triplet per in-grid neighbour of p once the loops have passed p, and none before. |
| AffinityGraph.DiagonalAtScan | MathTools/seededsegmentation.cpp:41-63 | Row p of `d` holds p's degree at (p, p) once the loops have passed p. Every other entry of the row is 0, and so is the whole row before p. |
| AffinityGraph.OffDiagonalAt | MathTools/seededsegmentation.cpp:41-63 | After the loops, w[p][q] is minus the weight of the edge when q is a king move from p, and 0 otherwise. |
| AffinityGraph.OffDiagonalRowSum | MathTools/seededsegmentation.cpp:41-63 | After the loops, row p of `w` sums to minus p's degree. |
| AffinityGraph.OffDiagonalRowCount | MathTools/seededsegmentation.cpp:41-63 | After the loops, row p of `w` holds exactly one triplet per in-grid neighbour of p. |
| AffinityGraph.DiagonalAt | MathTools/seededsegmentation.cpp:41-63 | After the loops, row p of `d` holds p's degree at (p, p) and 0 everywhere else. |
| AffinityGraph.DiagonalRowSum | MathTools/seededsegmentation.cpp:61 | After the loops, row p of `d` sums to p's degree. |
| AffinityGraph.BlockAt | MathTools/seededsegmentation.cpp:44-58 | The triplets written while visiting pixel (i, j) put minus the edge weight at ((i, j), q) for every in-grid king move q. They write nothing in any other row or column. |
| AffinityGraph.BlockInRow | MathTools/seededsegmentation.cpp:43-58 | The triplets written while visiting pixel (i, j) sum to minus its degree in row (i, j) and number its in-grid neighbours. They add nothing to any other row. |
| AffinityGraph.DiagonalDistinct | MathTools/seededsegmentation.cpp:41-63 | The diagonal triplets inserted into `d` before pixel (i, j) never repeat a position. |
| AffinityGraph.LaplacianWellFormed | MathTools/seededsegmentation.cpp:36-65 | Every index is inside the N x N matrix. `w` has no self-loop. `d` is diagonal. Neither has a duplicate insertion. |
| AffinityGraph.LaplacianAt | MathTools/seededsegmentation.cpp:41-65 | For grid pixels p, q: L[p][q] is p's degree when p = q, minus the weight when q is a king move from p, and 0 otherwise. |
| AffinityGraph.LaplacianSymmetric | MathTools/seededsegmentation.cpp:47-65 | With a symmetric weight, L[p][q] = L[q][p] for all p, q in [0, N). |
| AffinityGraph.LaplacianRowSumZero | MathTools/seededsegmentation.cpp:43-65 | Every row of w + d sums to zero over all N columns. |
| AffinityGraph.LaplacianRowCount | MathTools/seededsegmentation.cpp:44-58 | Row p of `w` holds exactly as many triplets as p has in-grid neighbours, so at most 8. |
| AffinityGraph.PixelEntriesBounded | MathTools/seededsegmentation.cpp:51-58 | With every weight at least lo, each triplet written for a pixel is at most -lo. |
| AffinityGraph.DegreeBounded | MathTools/seededsegmentation.cpp:43-56 | With every weight at least lo, the degree accumulated over the first k offsets is at least lo times the number of those offsets that pass both bounds checks. |
| AffinityGraph.ScanBounded | MathTools/seededsegmentation.cpp:41-63 | With every weight at least lo, every triplet written so far is at most -lo. |
| AffinityGraph.LaplacianBounded | MathTools/seededsegmentation.cpp:51-61 | With every weight at least lo, every off-diagonal entry is at most -lo. Every degree is at least lo times the neighbour count. |
| AffinityGraph.DegreeUniform | MathTools/seededsegmentation.cpp:43-56 | On a uniform image, a pixel's degree is its neighbour count times the single edge weight. |
| AffinityGraph.UniformImageLaplacian | MathTools/seededsegmentation.cpp:41-65 | On a uniform image with at least 2 rows and 2 columns: neighbours are joined by -u. The diagonal is 3u at a corner, 5u on the rest of the border and 8u inside. |
| Sparse.AtDistinct | MathTools/seededsegmentation.cpp:58 | When no position repeats, the assembled value at an inserted position is the inserted value. |
| Seeds.SeedConstraints | MathTools/seededsegmentation.cpp:76-79 | Is[i] is 0 or 1, and 1 iff pixel i is in either mask. b[i] is +1 iff background only, -1 iff foreground only, and 0 iff the masks agree. |
| Seeds.UnconstrainedAndConflicting | MathTools/seededsegmentation.cpp:77-78 | An unconstrained pixel has bias 0. A pixel in both masks has Is = 1 and b = 0. |
| Seeds.DecodeSeedConstraints | MathTools/seededsegmentation.cpp:76-79 | For disjoint masks, reading background where b = +1 and foreground where b = -1 gives back both masks. |
| Seeds.DecodeConflict | MathTools/seededsegmentation.cpp:78 | A pixel in both masks decodes as in neither, so the conflict is lost. |
| Segmentation.WeightOf | MathTools/seededsegmentation.cpp:34-55 | The segmenter's weight function is symmetric and at least EPSILON everywhere. |
| Segmentation.EdgeWeightsValid | MathTools/seededsegmentation.cpp:47-55 | For valid parameters, every edge weight is symmetric and at least EPSILON. |
| Segmentation.LaplacianStructure | MathTools/seededsegmentation.cpp:29-66 | For a symmetric weight bounded below by lo: L is in range and symmetric, and has zero row sums. Each off-diagonal entry is zero or at most -lo. |
| Segmentation.SystemFor | MathTools/seededsegmentation.cpp:70-84 | The system given to the solver has N unknowns and a 0/1 Is. Its L is in range and symmetric, with zero row sums. Each off-diagonal entry is zero or at most -EPSILON. |
| Segmentation.ThresholdValue | MathTools/seededsegmentation.cpp:96-98 | The threshold lies strictly between the two labels, equally far from each, and is 0. |
| Segmentation.RowOf | MathTools/seededsegmentation.cpp:100-103 | Row r of the flat vector has cols values, and its column c is entry r*cols + c. |
| Segmentation.Reshape | MathTools/seededsegmentation.cpp:100-103 | The reshaped grid is rows x cols, and cell (r, c) is entry r*cols + c: row-major, no transposition. |
| Segmentation.ConcatReshape | MathTools/seededsegmentation.cpp:100-103 | Laying the reshaped rows end to end gives back the flat solution vector. |
| Segmentation.ApplyThreshold | MathTools/seededsegmentation.cpp:20-27 | The mask has the field's shape. |
| Segmentation.Segment | MathTools/seededsegmentation.cpp:68-106 | A factorisation failure gives DecompositionFailed and a solve failure gives SolvingFailed, each iff the solver reports it. The result is a success iff the solver returns a solution, and then it is a rows x cols mask. Its cell (i, j) applies the threshold rule to x[i*cols + j] against 0. With a sound solver, x solves (Is + L L) x = b for the assembled system. |

## Left out

- Floating point is not modelled. Colours, weights and the solution are
  mathematical reals.
- `exp` and the value of `EPSILON` are parameters (`Numerics`). The model
  assumes only EPSILON > 0 and a non-negative exponential. The header that
  defines EPSILON is not part of this model.
- The assignment of the double solution into a single-precision image
  (line 102) is not modelled. A tiny positive value that rounds to zero there
  reaches the threshold as exactly 0 rather than as a positive value.
- The sparse Cholesky factorisation and solve (lines 83-94) belong to a
  foreign numerical library. The solver is a parameter that reports a solution
  or one of its two failure stages. `Sound` states what a correct solution
  satisfies. The product `L L` is described through `Solves`; it is not formed.
- `Segment` requires the solver to return a vector of length N, as the
  library always does.
- The OpenCV `threshold` call and its `MAX_BINARY_VALUE` / `THRESHOLD_TYPE`
  constants are defined in a header that is not part of this model. The
  comparison rule is the parameter `above`. The output is a boolean mask
  rather than a float image holding the maximum value or 0.
- Segmentation.ApplyThreshold: states only that the mask has the field's
  shape. The per-cell value is stated by `Segment`, in terms of the parameter
  rule `above`.
- Seeds.SeedConstraints: the masks are modelled as booleans. The source reads
  each element as a one-byte `bool` (`at<bool>(i)`, lines 77-78), so the
  model assumes one-byte mask elements holding 0 or 1. A 0/255 mask is not
  modelled: its bias would be +-255 rather than +-1.
- The mask length is not checked by the source (`at<bool>(i)`), so equal
  lengths are a precondition of `Segment` and `SystemFor`. The code raises no
  error on mismatched masks or on an empty image. The model follows the code:
  an empty image gives an empty Laplacian.
- `unsigned int` / `int` index arithmetic is unbounded here. Overflow needs
  2^31 or more pixels: the pixel count `cols * rows` (line 30) is a signed
  `int` product.
- The segmenter holds its image as a value. The source keeps a `cv::Mat`
  (line 6), which shares the caller's pixel buffer. A caller who changes
  the image between construction and `segment` changes the colours read at
  lines 48-49; that aliasing is not modelled.
- Not modelled: exception classes and messages (replaced by the `Error`
  variants), `reserve`, `Mat` / `SparseMatrix` storage formats, and the
  destructor.
