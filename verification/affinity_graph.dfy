/**
  The graph Laplacian of the 8-connected pixel grid.

  For every pixel p = (i, j) in row-major order and every neighbourhood offset
  that stays inside the grid, the off-diagonal matrix `w` receives the triplet
  (p, q, -weight(p, q)) and the weight is added to p's degree; afterwards the
  diagonal matrix `d` receives (p, p, degree). The Laplacian is `w + d`.

  The weight is any function of the two endpoint colours; the properties that
  need it symmetric or positive say so.
 */
module AffinityGraph {
  import opened Grid
  import opened Sparse
  import opened Affinity

  /** The bound input image: rows x cols colours, stored row by row. */
  datatype Image = Image(rows: nat, cols: nat, pixels: seq<seq<Color>>)
  {
    predicate Valid()
    {
      |pixels| == rows && forall r :: 0 <= r < rows ==> |pixels[r]| == cols
    }

    function At(r: int, c: int): Color
      requires Valid() && InGrid(rows, cols, r, c)
    {
      pixels[r][c]
    }

    /** Number of pixels, the order of the Laplacian. */
    function Size(): nat
    {
      rows * cols
    }
  }

  type WeightFn = (Color, Color) -> real

  ghost predicate Symmetric(weight: WeightFn)
  {
    forall a, b :: weight(a, b) == weight(b, a)
  }

  /** Weight of the edge from (i, j) along offset k. */
  function OffsetWeight(img: Image, weight: WeightFn, i: int, j: int, k: nat): real
    requires img.Valid() && InGrid(img.rows, img.cols, i, j)
    requires k < NeighbourhoodSize && InBounds(img.rows, img.cols, i, j, k)
  {
    weight(img.At(i, j), img.At(i + DY(k), j + DX(k)))
  }

  /** Node index reached from (i, j) along offset k. */
  function Target(img: Image, i: int, j: int, k: nat): int
    requires k < NeighbourhoodSize
  {
    Flatten(img.cols, i + DY(k), j + DX(k))
  }

  /** The triplet offset k of pixel (i, j) inserts into `w`: one if the offset stays in the grid, none otherwise. */
  function OffsetEntries(img: Image, weight: WeightFn, i: int, j: int, k: nat): seq<Entry>
    requires img.Valid() && InGrid(img.rows, img.cols, i, j) && k < NeighbourhoodSize
  {
    if InBounds(img.rows, img.cols, i, j, k) then
      [Entry(Flatten(img.cols, i, j), Target(img, i, j, k), -OffsetWeight(img, weight, i, j, k))]
    else []
  }

  /** What offset k of pixel (i, j) adds to the degree. */
  function OffsetDegree(img: Image, weight: WeightFn, i: int, j: int, k: nat): real
    requires img.Valid() && InGrid(img.rows, img.cols, i, j) && k < NeighbourhoodSize
  {
    if InBounds(img.rows, img.cols, i, j, k) then OffsetWeight(img, weight, i, j, k) else 0.0
  }

  /** Triplets inserted into `w` for pixel (i, j) by the first k offsets. */
  function PixelEntries(img: Image, weight: WeightFn, i: int, j: int, k: nat): seq<Entry>
    requires img.Valid() && InGrid(img.rows, img.cols, i, j) && k <= NeighbourhoodSize
  {
    if k == 0 then []
    else PixelEntries(img, weight, i, j, k - 1) + OffsetEntries(img, weight, i, j, k - 1)
  }

  /** The degree accumulated for pixel (i, j) over the first k offsets. */
  function Degree(img: Image, weight: WeightFn, i: int, j: int, k: nat): real
    requires img.Valid() && InGrid(img.rows, img.cols, i, j) && k <= NeighbourhoodSize
  {
    if k == 0 then 0.0
    else Degree(img, weight, i, j, k - 1) + OffsetDegree(img, weight, i, j, k - 1)
  }

  /** Node indices reached by the in-grid offsets among the first k. */
  function Targets(img: Image, i: int, j: int, k: nat): set<int>
    requires k <= NeighbourhoodSize
  {
    if k == 0 then {}
    else Targets(img, i, j, k - 1) + if InBounds(img.rows, img.cols, i, j, k - 1) then {Target(img, i, j, k - 1)} else {}
  }

  /** Scan positions: (i, j) with j <= cols, and the scan ends at (rows, 0). */
  predicate ScanPos(img: Image, i: int, j: int)
  {
    0 <= i <= img.rows && 0 <= j <= img.cols && (i == img.rows ==> j == 0)
  }

  /** Off-diagonal triplets of every pixel before (i, j) in row-major order. */
  function OffDiagonalUpTo(img: Image, weight: WeightFn, i: nat, j: nat): seq<Entry>
    requires img.Valid() && ScanPos(img, i, j)
    decreases i, j
  {
    if j > 0 then OffDiagonalUpTo(img, weight, i, j - 1) + PixelEntries(img, weight, i, j - 1, NeighbourhoodSize)
    else if i > 0 then OffDiagonalUpTo(img, weight, i - 1, img.cols)
    else []
  }

  /** The triplet `d` receives for pixel (i, j): its degree on the diagonal. */
  function DiagonalEntry(img: Image, weight: WeightFn, i: int, j: int): Entry
    requires img.Valid() && InGrid(img.rows, img.cols, i, j)
  {
    Entry(Flatten(img.cols, i, j), Flatten(img.cols, i, j), Degree(img, weight, i, j, NeighbourhoodSize))
  }

  /** Diagonal triplets of every pixel before (i, j) in row-major order. */
  function DiagonalUpTo(img: Image, weight: WeightFn, i: nat, j: nat): seq<Entry>
    requires img.Valid() && ScanPos(img, i, j)
    decreases i, j
  {
    if j > 0 then DiagonalUpTo(img, weight, i, j - 1) + [DiagonalEntry(img, weight, i, j - 1)]
    else if i > 0 then DiagonalUpTo(img, weight, i - 1, img.cols)
    else []
  }

  /** The matrix `w` after the full pass. */
  function OffDiagonalPart(img: Image, weight: WeightFn): seq<Entry>
    requires img.Valid()
  {
    OffDiagonalUpTo(img, weight, img.rows, 0)
  }

  /** The matrix `d` after the full pass. */
  function DiagonalPart(img: Image, weight: WeightFn): seq<Entry>
    requires img.Valid()
  {
    DiagonalUpTo(img, weight, img.rows, 0)
  }

  /** The Laplacian `w + d`. */
  function Laplacian(img: Image, weight: WeightFn): seq<Entry>
    requires img.Valid()
  {
    OffDiagonalPart(img, weight) + DiagonalPart(img, weight)
  }

  /** Offset k' < k moves (i, j) onto (r, c). */
  predicate OffsetBelow(i: int, j: int, r: int, c: int, k: nat)
  {
    exists k' :: 0 <= k' < k && k' < NeighbourhoodSize && r == i + DY(k') && c == j + DX(k')
  }

  /**
    The row-major walk computes the Laplacian: the method follows the three
    nested loops of `calculateLaplacian`, including the two bounds checks that skip an
    offset, and returns the two triplet lists it inserted.
   */
  method CalculateLaplacian(img: Image, weight: WeightFn) returns (w: seq<Entry>, d: seq<Entry>)
    requires img.Valid()
    ensures w == OffDiagonalPart(img, weight) && d == DiagonalPart(img, weight)
    ensures InRange(w + d, img.Size()) && OffDiagonal(w) && DistinctPositions(w)
    ensures (forall e :: e in d ==> e.row == e.col) && DistinctPositions(d)
  {
    w, d := [], [];
    var i := 0;
    while i < img.rows
      invariant 0 <= i <= img.rows
      invariant w == OffDiagonalUpTo(img, weight, i, 0) && d == DiagonalUpTo(img, weight, i, 0)
    {
      var j := 0;
      while j < img.cols
        invariant 0 <= j <= img.cols
        invariant w == OffDiagonalUpTo(img, weight, i, j) && d == DiagonalUpTo(img, weight, i, j)
      {
        var block, degree := VisitPixel(img, weight, i, j);
        w := w + block;
        d := d + [Entry(i * img.cols + j, i * img.cols + j, degree)];
        j := j + 1;
      }
      RowWrap(img, weight, i + 1, 0);
      i := i + 1;
    }
    LaplacianWellFormed(img, weight);
  }

  /**
    The innermost loop for pixel (i, j): walks the eight offsets, skips those
    that leave the grid, and returns the inserted triplets with the degree.
    The triplets lie in the pixel's row and sum to minus the degree.
   */
  method VisitPixel(img: Image, weight: WeightFn, i: int, j: int) returns (block: seq<Entry>, degree: real)
    requires img.Valid() && InGrid(img.rows, img.cols, i, j)
    ensures block == PixelEntries(img, weight, i, j, NeighbourhoodSize)
    ensures degree == Degree(img, weight, i, j, NeighbourhoodSize)
    ensures RowSum(block, Flatten(img.cols, i, j)) == -degree
  {
    block, degree := [], 0.0;
    var k := 0;
    while k < NeighbourhoodSize
      invariant 0 <= k <= NeighbourhoodSize
      invariant block == PixelEntries(img, weight, i, j, k)
      invariant degree == Degree(img, weight, i, j, k)
    {
      if i + DY(k) < 0 || i + DY(k) >= img.rows {
        assert OffsetEntries(img, weight, i, j, k) == [] && OffsetDegree(img, weight, i, j, k) == 0.0;
        k := k + 1;
        continue;
      }
      if j + DX(k) < 0 || j + DX(k) >= img.cols {
        assert OffsetEntries(img, weight, i, j, k) == [] && OffsetDegree(img, weight, i, j, k) == 0.0;
        k := k + 1;
        continue;
      }
      var value := weight(img.At(i, j), img.At(i + DY(k), j + DX(k)));
      degree := degree + value;
      var entry := Entry(i * img.cols + j, (i + DY(k)) * img.cols + (j + DX(k)), -value);
      assert OffsetEntries(img, weight, i, j, k) == [entry] && OffsetDegree(img, weight, i, j, k) == value;
      block := block + [entry];
      k := k + 1;
    }
    PixelEntriesRow(img, weight, i, j, NeighbourhoodSize);
  }

  /** The reached nodes lie inside the matrix and differ from the pixel's own node. */
  lemma {:induction false} TargetsShape(img: Image, i: int, j: int, k: nat)
    requires InGrid(img.rows, img.cols, i, j) && k <= NeighbourhoodSize
    ensures forall q :: q in Targets(img, i, j, k) ==> 0 <= q < img.Size() && q != Flatten(img.cols, i, j)
  {
    if k > 0 {
      TargetsShape(img, i, j, k - 1);
      if InBounds(img.rows, img.cols, i, j, k - 1) {
        var r2, c2 := i + DY(k - 1), j + DX(k - 1);
        FlattenInRange(img.rows, img.cols, r2, c2);
        OffsetsClosedUnderNegation(k - 1);
        if Flatten(img.cols, r2, c2) == Flatten(img.cols, i, j) {
          FlattenInjective(img.rows, img.cols, i, j, r2, c2);
        }
      }
    }
  }

  /** A later in-grid offset reaches a node no earlier offset reached. */
  lemma {:induction false} TargetFresh(img: Image, i: int, j: int, k: nat, m: nat)
    requires InGrid(img.rows, img.cols, i, j) && k <= m < NeighbourhoodSize
    requires InBounds(img.rows, img.cols, i, j, m)
    ensures Target(img, i, j, m) !in Targets(img, i, j, k)
  {
    if k > 0 {
      TargetFresh(img, i, j, k - 1, m);
      if InBounds(img.rows, img.cols, i, j, k - 1) {
        OffsetsDistinct(k - 1, m);
        if Target(img, i, j, k - 1) == Target(img, i, j, m) {
          FlattenInjective(img.rows, img.cols, i + DY(k - 1), j + DX(k - 1), i + DY(m), j + DX(m));
        }
      }
    }
  }

  /** Every triplet of a pixel's block lies in that pixel's row at a reached node, and columns are never repeated. */
  lemma {:induction false} PixelEntriesTargets(img: Image, weight: WeightFn, i: int, j: int, k: nat)
    requires img.Valid() && InGrid(img.rows, img.cols, i, j) && k <= NeighbourhoodSize
    ensures forall e :: e in PixelEntries(img, weight, i, j, k) ==>
      e.row == Flatten(img.cols, i, j) && e.col in Targets(img, i, j, k)
    ensures DistinctPositions(PixelEntries(img, weight, i, j, k))
  {
    if k > 0 {
      PixelEntriesTargets(img, weight, i, j, k - 1);
      var prev := PixelEntries(img, weight, i, j, k - 1);
      var step := OffsetEntries(img, weight, i, j, k - 1);
      assert PixelEntries(img, weight, i, j, k) == prev + step;
      if InBounds(img.rows, img.cols, i, j, k - 1) {
        TargetFresh(img, i, j, k - 1, k - 1);
        DistinctSnoc(prev, step[0]);
        assert step == [step[0]];
      } else {
        assert prev + step == prev;
      }
    }
  }

  /** Every triplet of a pixel's block lies in that pixel's row, inside the matrix and off its diagonal. */
  lemma PixelEntriesShape(img: Image, weight: WeightFn, i: int, j: int)
    requires img.Valid() && InGrid(img.rows, img.cols, i, j)
    ensures forall e :: e in PixelEntries(img, weight, i, j, NeighbourhoodSize) ==>
      e.row == Flatten(img.cols, i, j) && 0 <= e.col < img.Size() && e.col != e.row
    ensures DistinctPositions(PixelEntries(img, weight, i, j, NeighbourhoodSize))
  {
    PixelEntriesTargets(img, weight, i, j, NeighbourhoodSize);
    TargetsShape(img, i, j, NeighbourhoodSize);
  }

  /**
    The value a pixel's block assembles to at (pixel, (r, c)): minus the edge
    weight when one of the first k offsets reaches (r, c), zero otherwise.
   */
  lemma {:induction false} PixelEntriesAt(img: Image, weight: WeightFn, i: int, j: int, k: nat, r: int, c: int)
    requires img.Valid() && InGrid(img.rows, img.cols, i, j) && k <= NeighbourhoodSize
    requires InGrid(img.rows, img.cols, r, c)
    ensures At(PixelEntries(img, weight, i, j, k), Flatten(img.cols, i, j), Flatten(img.cols, r, c))
         == if OffsetBelow(i, j, r, c, k) then -weight(img.At(i, j), img.At(r, c)) else 0.0
  {
    if k > 0 {
      PixelEntriesAt(img, weight, i, j, k - 1, r, c);
      PixelEntriesAtStep(img, weight, i, j, k, r, c);
      OffsetBelowStep(i, j, r, c, k);
    }
  }

  /** The k-th offset adds minus the edge weight at (pixel, (r, c)) exactly when it reaches (r, c). */
  lemma PixelEntriesAtStep(img: Image, weight: WeightFn, i: int, j: int, k: nat, r: int, c: int)
    requires img.Valid() && InGrid(img.rows, img.cols, i, j) && 0 < k <= NeighbourhoodSize
    requires InGrid(img.rows, img.cols, r, c)
    ensures At(PixelEntries(img, weight, i, j, k), Flatten(img.cols, i, j), Flatten(img.cols, r, c))
         == At(PixelEntries(img, weight, i, j, k - 1), Flatten(img.cols, i, j), Flatten(img.cols, r, c))
          + if r == i + DY(k - 1) && c == j + DX(k - 1) then -weight(img.At(i, j), img.At(r, c)) else 0.0
  {
    var p, q := Flatten(img.cols, i, j), Flatten(img.cols, r, c);
    AtAppend(PixelEntries(img, weight, i, j, k - 1), OffsetEntries(img, weight, i, j, k - 1), p, q);
    OffsetEntriesAt(img, weight, i, j, k - 1, r, c);
  }

  /** Offset k writes minus the edge weight at (pixel, (r, c)) exactly when it reaches (r, c) inside the grid. */
  lemma OffsetEntriesAt(img: Image, weight: WeightFn, i: int, j: int, k: nat, r: int, c: int)
    requires img.Valid() && InGrid(img.rows, img.cols, i, j) && k < NeighbourhoodSize
    requires InGrid(img.rows, img.cols, r, c)
    ensures At(OffsetEntries(img, weight, i, j, k), Flatten(img.cols, i, j), Flatten(img.cols, r, c))
         == if r == i + DY(k) && c == j + DX(k) then -weight(img.At(i, j), img.At(r, c)) else 0.0
  {
    var p, q := Flatten(img.cols, i, j), Flatten(img.cols, r, c);
    if InBounds(img.rows, img.cols, i, j, k) {
      var e := Entry(p, Target(img, i, j, k), -OffsetWeight(img, weight, i, j, k));
      assert OffsetEntries(img, weight, i, j, k) == [e];
      Single(e, p, q);
      if e.col == q {
        FlattenInjective(img.rows, img.cols, i + DY(k), j + DX(k), r, c);
      }
    } else {
      assert OffsetEntries(img, weight, i, j, k) == [];
    }
  }

  /** Offset k adds minus its degree contribution to the pixel's row, in one triplet if it stays in the grid. */
  lemma OffsetEntriesRow(img: Image, weight: WeightFn, i: int, j: int, k: nat)
    requires img.Valid() && InGrid(img.rows, img.cols, i, j) && k < NeighbourhoodSize
    ensures RowSum(OffsetEntries(img, weight, i, j, k), Flatten(img.cols, i, j)) == -OffsetDegree(img, weight, i, j, k)
    ensures RowCount(OffsetEntries(img, weight, i, j, k), Flatten(img.cols, i, j))
         == if InBounds(img.rows, img.cols, i, j, k) then 1 else 0
  {
    if InBounds(img.rows, img.cols, i, j, k) {
      var e := Entry(Flatten(img.cols, i, j), Target(img, i, j, k), -OffsetWeight(img, weight, i, j, k));
      assert OffsetEntries(img, weight, i, j, k) == [e];
      Single(e, e.row, e.col);
    } else {
      assert OffsetEntries(img, weight, i, j, k) == [];
    }
  }

  /** Offset k - 1 reaches (r, c) exactly when OffsetBelow grows at k, and then no earlier offset did. */
  lemma OffsetBelowStep(i: int, j: int, r: int, c: int, k: nat)
    requires 0 < k <= NeighbourhoodSize
    ensures OffsetBelow(i, j, r, c, k) <==> OffsetBelow(i, j, r, c, k - 1) || (r == i + DY(k - 1) && c == j + DX(k - 1))
    ensures r == i + DY(k - 1) && c == j + DX(k - 1) ==> !OffsetBelow(i, j, r, c, k - 1)
  {
    if OffsetBelow(i, j, r, c, k - 1) {
      var k' :| 0 <= k' < k - 1 && k' < NeighbourhoodSize && r == i + DY(k') && c == j + DX(k');
      OffsetsDistinct(k', k - 1);
    }
    if r == i + DY(k - 1) && c == j + DX(k - 1) {
      assert 0 <= k - 1 < k;
    }
  }

  /** A pixel's block sums to minus its degree and holds one triplet per in-bounds offset. */
  lemma {:induction false} PixelEntriesRow(img: Image, weight: WeightFn, i: int, j: int, k: nat)
    requires img.Valid() && InGrid(img.rows, img.cols, i, j) && k <= NeighbourhoodSize
    ensures RowSum(PixelEntries(img, weight, i, j, k), Flatten(img.cols, i, j)) == -Degree(img, weight, i, j, k)
    ensures RowCount(PixelEntries(img, weight, i, j, k), Flatten(img.cols, i, j))
         == CountInBounds(img.rows, img.cols, i, j, k)
  {
    if k > 0 {
      PixelEntriesRow(img, weight, i, j, k - 1);
      var prev, step := PixelEntries(img, weight, i, j, k - 1), OffsetEntries(img, weight, i, j, k - 1);
      RowSumAppend(prev, step, Flatten(img.cols, i, j));
      RowCountAppend(prev, step, Flatten(img.cols, i, j));
      OffsetEntriesRow(img, weight, i, j, k - 1);
    }
  }

  /** The scan at the start of row i is the scan at the end of row i - 1. */
  lemma RowWrap(img: Image, weight: WeightFn, i: nat, j: nat)
    requires img.Valid() && 0 < i <= img.rows && j == 0
    ensures OffDiagonalUpTo(img, weight, i, j) == OffDiagonalUpTo(img, weight, i - 1, img.cols)
    ensures DiagonalUpTo(img, weight, i, j) == DiagonalUpTo(img, weight, i - 1, img.cols)
    ensures Flatten(img.cols, i - 1, img.cols) == Flatten(img.cols, i, j)
  {
  }

  /** Before the first pixel nothing has been written. */
  lemma ScanStart(img: Image, weight: WeightFn, i: nat, j: nat)
    requires img.Valid() && i == 0 && j == 0
    ensures OffDiagonalUpTo(img, weight, i, j) == [] && DiagonalUpTo(img, weight, i, j) == []
  {
  }

  /** A pixel of the grid comes before the start of row i exactly when it comes before the end of row i - 1. */
  lemma BeforeWrap(cols: int, i: int, j: int, pi: int, pj: int)
    requires j == 0 && 0 <= pj < cols
    ensures Before(pi, pj, i, j) <==> Before(pi, pj, i - 1, cols)
  {
  }

  /** Moving the scan one pixel on passes exactly that pixel. */
  lemma BeforeStep(i: int, j: int, pi: int, pj: int)
    ensures Before(pi, pj, i, j) <==> Before(pi, pj, i, j - 1) || (pi == i && pj == j - 1)
    ensures !(Before(pi, pj, i, j - 1) && pi == i && pj == j - 1)
  {
  }

  /**
    Triplets written before (i, j) lie in earlier rows of the matrix, inside
    it and off its diagonal, and no position is written twice.
   */
  lemma {:induction false} ScanShape(img: Image, weight: WeightFn, i: nat, j: nat)
    requires img.Valid() && ScanPos(img, i, j)
    ensures forall e :: e in OffDiagonalUpTo(img, weight, i, j) ==>
      0 <= e.row < Flatten(img.cols, i, j) && 0 <= e.col < img.Size() && e.row != e.col
    ensures DistinctPositions(OffDiagonalUpTo(img, weight, i, j))
    ensures forall e :: e in DiagonalUpTo(img, weight, i, j) ==>
      0 <= e.row < Flatten(img.cols, i, j) && e.col == e.row
    decreases i, j
  {
    if j > 0 {
      ScanShape(img, weight, i, j - 1);
      var a := OffDiagonalUpTo(img, weight, i, j - 1);
      var b := PixelEntries(img, weight, i, j - 1, NeighbourhoodSize);
      PixelEntriesShape(img, weight, i, j - 1);
      FlattenInRange(img.rows, img.cols, i, j - 1);
      DistinctAppend(a, b);
      assert forall e :: e in a + b ==> e in a || e in b;
    } else if i > 0 {
      ScanShape(img, weight, i - 1, img.cols);
      RowWrap(img, weight, i, j);
    }
  }

  /** The diagonal triplets written before (i, j) never repeat a position. */
  lemma {:induction false} DiagonalDistinct(img: Image, weight: WeightFn, i: nat, j: nat)
    requires img.Valid() && ScanPos(img, i, j)
    ensures DistinctPositions(DiagonalUpTo(img, weight, i, j))
    decreases i, j
  {
    if j > 0 {
      DiagonalDistinct(img, weight, i, j - 1);
      ScanShape(img, weight, i, j - 1);
      var e := DiagonalEntry(img, weight, i, j - 1);
      assert e.row == Flatten(img.cols, i, j - 1);
      DistinctSnoc(DiagonalUpTo(img, weight, i, j - 1), e);
    } else if i > 0 {
      DiagonalDistinct(img, weight, i - 1, img.cols);
      RowWrap(img, weight, i, j);
    } else {
      ScanStart(img, weight, i, j);
    }
  }

  /** Concatenating blocks that share no row keeps positions distinct. */
  lemma DistinctAppend(a: seq<Entry>, b: seq<Entry>)
    requires DistinctPositions(a) && DistinctPositions(b)
    requires forall x, y :: x in a && y in b ==> x.row != y.row
    ensures DistinctPositions(a + b)
  {
    forall s, t | 0 <= s < t < |a + b|
      ensures (a + b)[s].row != (a + b)[t].row || (a + b)[s].col != (a + b)[t].col
    {
      if s < |a| && t >= |a| {
        assert (a + b)[s] in a && (a + b)[t] in b;
      } else if s >= |a| {
        assert (a + b)[s] == b[s - |a|] && (a + b)[t] == b[t - |a|];
      }
    }
  }

  /** Before (i, j) the scan has written the entries of `w` in the rows of the pixels it has passed. */
  lemma {:induction false} OffDiagonalAtScan(img: Image, weight: WeightFn, i: nat, j: nat, pi: int, pj: int, r: int, c: int)
    requires img.Valid() && ScanPos(img, i, j) && InGrid(img.rows, img.cols, pi, pj)
    requires InGrid(img.rows, img.cols, r, c)
    ensures At(OffDiagonalUpTo(img, weight, i, j), Flatten(img.cols, pi, pj), Flatten(img.cols, r, c))
         == if Before(pi, pj, i, j) then (if KingMove(pi, pj, r, c) then -weight(img.At(pi, pj), img.At(r, c)) else 0.0) else 0.0
    decreases i, j
  {
    if j > 0 {
      OffDiagonalAtScan(img, weight, i, j - 1, pi, pj, r, c);
      OffDiagonalAtAdvance(img, weight, i, j, pi, pj, r, c);
    } else if i > 0 {
      OffDiagonalAtScan(img, weight, i - 1, img.cols, pi, pj, r, c);
      RowWrap(img, weight, i, j);
      BeforeWrap(img.cols, i, j, pi, pj);
    } else {
      ScanStart(img, weight, i, j);
    }
  }

  /**
    The entries of `w` after the full pass: at (pixel (pi, pj), pixel (r, c))
    minus the edge weight when (r, c) is a king-move neighbour, zero otherwise.
   */
  lemma OffDiagonalAt(img: Image, weight: WeightFn, pi: int, pj: int, r: int, c: int)
    requires img.Valid() && InGrid(img.rows, img.cols, pi, pj) && InGrid(img.rows, img.cols, r, c)
    ensures At(OffDiagonalPart(img, weight), Flatten(img.cols, pi, pj), Flatten(img.cols, r, c))
         == if KingMove(pi, pj, r, c) then -weight(img.At(pi, pj), img.At(r, c)) else 0.0
  {
    OffDiagonalAtScan(img, weight, img.rows, 0, pi, pj, r, c);
  }

  /** The entry claim of the scan carries over from before pixel (i, j - 1) to after it. */
  lemma OffDiagonalAtAdvance(img: Image, weight: WeightFn, i: nat, j: nat, pi: int, pj: int, r: int, c: int)
    requires img.Valid() && i < img.rows && 0 < j <= img.cols && InGrid(img.rows, img.cols, pi, pj)
    requires InGrid(img.rows, img.cols, r, c)
    requires At(OffDiagonalUpTo(img, weight, i, j - 1), Flatten(img.cols, pi, pj), Flatten(img.cols, r, c))
          == if Before(pi, pj, i, j - 1) then (if KingMove(pi, pj, r, c) then -weight(img.At(pi, pj), img.At(r, c)) else 0.0) else 0.0
    ensures At(OffDiagonalUpTo(img, weight, i, j), Flatten(img.cols, pi, pj), Flatten(img.cols, r, c))
         == if Before(pi, pj, i, j) then (if KingMove(pi, pj, r, c) then -weight(img.At(pi, pj), img.At(r, c)) else 0.0) else 0.0
  {
    OffDiagonalAtStep(img, weight, i, j, pi, pj, r, c);
    BeforeStep(i, j, pi, pj);
  }

  /** Passing pixel (i, j - 1) changes an entry of `w` only in that pixel's own row. */
  lemma OffDiagonalAtStep(img: Image, weight: WeightFn, i: nat, j: nat, pi: int, pj: int, r: int, c: int)
    requires img.Valid() && i < img.rows && 0 < j <= img.cols
    requires InGrid(img.rows, img.cols, pi, pj) && InGrid(img.rows, img.cols, r, c)
    ensures At(OffDiagonalUpTo(img, weight, i, j), Flatten(img.cols, pi, pj), Flatten(img.cols, r, c))
         == At(OffDiagonalUpTo(img, weight, i, j - 1), Flatten(img.cols, pi, pj), Flatten(img.cols, r, c))
          + if i == pi && j - 1 == pj && KingMove(pi, pj, r, c) then -weight(img.At(pi, pj), img.At(r, c)) else 0.0
  {
    AtAppend(OffDiagonalUpTo(img, weight, i, j - 1), PixelEntries(img, weight, i, j - 1, NeighbourhoodSize),
             Flatten(img.cols, pi, pj), Flatten(img.cols, r, c));
    BlockAt(img, weight, i, j - 1, pi, pj, r, c);
  }

  /** Before (i, j) row (pi, pj) of `w` sums to minus the degree once the scan has passed that pixel, to zero before. */
  lemma {:induction false} OffDiagonalRowSumScan(img: Image, weight: WeightFn, i: nat, j: nat, pi: int, pj: int)
    requires img.Valid() && ScanPos(img, i, j) && InGrid(img.rows, img.cols, pi, pj)
    ensures RowSum(OffDiagonalUpTo(img, weight, i, j), Flatten(img.cols, pi, pj))
         == if Before(pi, pj, i, j) then -Degree(img, weight, pi, pj, NeighbourhoodSize) else 0.0
    decreases i, j
  {
    if j > 0 {
      OffDiagonalRowSumScan(img, weight, i, j - 1, pi, pj);
      OffDiagonalRowSumAdvance(img, weight, i, j, pi, pj);
    } else if i > 0 {
      OffDiagonalRowSumScan(img, weight, i - 1, img.cols, pi, pj);
      RowWrap(img, weight, i, j);
      BeforeWrap(img.cols, i, j, pi, pj);
    } else {
      ScanStart(img, weight, i, j);
    }
  }

  /** Row (pi, pj) of `w` after the full pass sums to minus the pixel's degree. */
  lemma OffDiagonalRowSum(img: Image, weight: WeightFn, pi: int, pj: int)
    requires img.Valid() && InGrid(img.rows, img.cols, pi, pj)
    ensures RowSum(OffDiagonalPart(img, weight), Flatten(img.cols, pi, pj)) == -Degree(img, weight, pi, pj, NeighbourhoodSize)
  {
    OffDiagonalRowSumScan(img, weight, img.rows, 0, pi, pj);
  }

  /** Before (i, j) row (pi, pj) of `w` holds one triplet per neighbour once the scan has passed that pixel, none before. */
  lemma {:induction false} OffDiagonalRowCountScan(img: Image, weight: WeightFn, i: nat, j: nat, pi: int, pj: int)
    requires img.Valid() && ScanPos(img, i, j) && InGrid(img.rows, img.cols, pi, pj)
    ensures RowCount(OffDiagonalUpTo(img, weight, i, j), Flatten(img.cols, pi, pj))
         == if Before(pi, pj, i, j) then NeighbourCount(img.rows, img.cols, pi, pj) else 0
    decreases i, j
  {
    if j > 0 {
      OffDiagonalRowCountScan(img, weight, i, j - 1, pi, pj);
      OffDiagonalRowCountAdvance(img, weight, i, j, pi, pj);
    } else if i > 0 {
      OffDiagonalRowCountScan(img, weight, i - 1, img.cols, pi, pj);
      RowWrap(img, weight, i, j);
      BeforeWrap(img.cols, i, j, pi, pj);
    } else {
      ScanStart(img, weight, i, j);
    }
  }

  /** Row (pi, pj) of `w` after the full pass holds one triplet per in-grid neighbour. */
  lemma OffDiagonalRowCount(img: Image, weight: WeightFn, pi: int, pj: int)
    requires img.Valid() && InGrid(img.rows, img.cols, pi, pj)
    ensures RowCount(OffDiagonalPart(img, weight), Flatten(img.cols, pi, pj)) == NeighbourCount(img.rows, img.cols, pi, pj)
  {
    OffDiagonalRowCountScan(img, weight, img.rows, 0, pi, pj);
  }

  /** The row-sum claim of the scan carries over from before pixel (i, j - 1) to after it. */
  lemma OffDiagonalRowSumAdvance(img: Image, weight: WeightFn, i: nat, j: nat, pi: int, pj: int)
    requires img.Valid() && i < img.rows && 0 < j <= img.cols && InGrid(img.rows, img.cols, pi, pj)
    requires RowSum(OffDiagonalUpTo(img, weight, i, j - 1), Flatten(img.cols, pi, pj))
          == if Before(pi, pj, i, j - 1) then -Degree(img, weight, pi, pj, NeighbourhoodSize) else 0.0
    ensures RowSum(OffDiagonalUpTo(img, weight, i, j), Flatten(img.cols, pi, pj))
         == if Before(pi, pj, i, j) then -Degree(img, weight, pi, pj, NeighbourhoodSize) else 0.0
  {
    OffDiagonalRowSumStep(img, weight, i, j, pi, pj);
    BeforeStep(i, j, pi, pj);
  }

  /** Passing pixel (i, j - 1) adds minus its degree to the sum of row (pi, pj) of `w` when it is that pixel, and nothing otherwise. */
  lemma OffDiagonalRowSumStep(img: Image, weight: WeightFn, i: nat, j: nat, pi: int, pj: int)
    requires img.Valid() && i < img.rows && 0 < j <= img.cols && InGrid(img.rows, img.cols, pi, pj)
    ensures RowSum(OffDiagonalUpTo(img, weight, i, j), Flatten(img.cols, pi, pj))
         == RowSum(OffDiagonalUpTo(img, weight, i, j - 1), Flatten(img.cols, pi, pj))
          + if i == pi && j - 1 == pj then -Degree(img, weight, pi, pj, NeighbourhoodSize) else 0.0
  {
    var a, b, p := OffDiagonalUpTo(img, weight, i, j - 1), PixelEntries(img, weight, i, j - 1, NeighbourhoodSize), Flatten(img.cols, pi, pj);
    RowSumAppend(a, b, p);
    BlockInRow(img, weight, i, j - 1, pi, pj);
  }

  /** The row-count claim of the scan carries over from before pixel (i, j - 1) to after it. */
  lemma OffDiagonalRowCountAdvance(img: Image, weight: WeightFn, i: nat, j: nat, pi: int, pj: int)
    requires img.Valid() && i < img.rows && 0 < j <= img.cols && InGrid(img.rows, img.cols, pi, pj)
    requires RowCount(OffDiagonalUpTo(img, weight, i, j - 1), Flatten(img.cols, pi, pj))
          == if Before(pi, pj, i, j - 1) then NeighbourCount(img.rows, img.cols, pi, pj) else 0
    ensures RowCount(OffDiagonalUpTo(img, weight, i, j), Flatten(img.cols, pi, pj))
         == if Before(pi, pj, i, j) then NeighbourCount(img.rows, img.cols, pi, pj) else 0
  {
    OffDiagonalRowCountStep(img, weight, i, j, pi, pj);
    BeforeStep(i, j, pi, pj);
  }

  /** Passing pixel (i, j - 1) adds its neighbour count to the triplets of row (pi, pj) of `w` when it is that pixel, and none otherwise. */
  lemma OffDiagonalRowCountStep(img: Image, weight: WeightFn, i: nat, j: nat, pi: int, pj: int)
    requires img.Valid() && i < img.rows && 0 < j <= img.cols && InGrid(img.rows, img.cols, pi, pj)
    ensures RowCount(OffDiagonalUpTo(img, weight, i, j), Flatten(img.cols, pi, pj))
         == RowCount(OffDiagonalUpTo(img, weight, i, j - 1), Flatten(img.cols, pi, pj))
          + if i == pi && j - 1 == pj then NeighbourCount(img.rows, img.cols, pi, pj) else 0
  {
    var a, b, p := OffDiagonalUpTo(img, weight, i, j - 1), PixelEntries(img, weight, i, j - 1, NeighbourhoodSize), Flatten(img.cols, pi, pj);
    RowCountAppend(a, b, p);
    BlockInRow(img, weight, i, j - 1, pi, pj);
  }

  /** Before (i, j) row (pi, pj) of `d` holds the degree on the diagonal once the scan has passed that pixel, nothing before. */
  lemma {:induction false} DiagonalAtScan(img: Image, weight: WeightFn, i: nat, j: nat, pi: int, pj: int, q: int)
    requires img.Valid() && ScanPos(img, i, j) && InGrid(img.rows, img.cols, pi, pj)
    ensures At(DiagonalUpTo(img, weight, i, j), Flatten(img.cols, pi, pj), q)
         == if Before(pi, pj, i, j) then (if q == Flatten(img.cols, pi, pj) then Degree(img, weight, pi, pj, NeighbourhoodSize) else 0.0) else 0.0
    decreases i, j
  {
    if j > 0 {
      DiagonalAtScan(img, weight, i, j - 1, pi, pj, q);
      DiagonalAtAdvance(img, weight, i, j, pi, pj, q);
    } else if i > 0 {
      DiagonalAtScan(img, weight, i - 1, img.cols, pi, pj, q);
      RowWrap(img, weight, i, j);
      BeforeWrap(img.cols, i, j, pi, pj);
    } else {
      ScanStart(img, weight, i, j);
    }
  }

  /** Row (pi, pj) of `d` after the full pass holds the pixel's degree on the diagonal and nothing else. */
  lemma DiagonalAt(img: Image, weight: WeightFn, pi: int, pj: int, q: int)
    requires img.Valid() && InGrid(img.rows, img.cols, pi, pj)
    ensures At(DiagonalPart(img, weight), Flatten(img.cols, pi, pj), q)
         == if q == Flatten(img.cols, pi, pj) then Degree(img, weight, pi, pj, NeighbourhoodSize) else 0.0
  {
    DiagonalAtScan(img, weight, img.rows, 0, pi, pj, q);
  }


  /** Row (pi, pj) of `d` after the full pass sums to the pixel's degree. */
  lemma DiagonalRowSum(img: Image, weight: WeightFn, pi: int, pj: int)
    requires img.Valid() && InGrid(img.rows, img.cols, pi, pj)
    ensures RowSum(DiagonalPart(img, weight), Flatten(img.cols, pi, pj)) == Degree(img, weight, pi, pj, NeighbourhoodSize)
  {
    var p := Flatten(img.cols, pi, pj);
    ScanShape(img, weight, img.rows, 0);
    RowSumOneColumn(DiagonalPart(img, weight), p, p);
    DiagonalAt(img, weight, pi, pj, p);
  }


  /** The diagonal claim of the scan carries over from before pixel (i, j - 1) to after it. */
  lemma DiagonalAtAdvance(img: Image, weight: WeightFn, i: nat, j: nat, pi: int, pj: int, q: int)
    requires img.Valid() && i < img.rows && 0 < j <= img.cols && InGrid(img.rows, img.cols, pi, pj)
    requires At(DiagonalUpTo(img, weight, i, j - 1), Flatten(img.cols, pi, pj), q)
          == if Before(pi, pj, i, j - 1) then (if q == Flatten(img.cols, pi, pj) then Degree(img, weight, pi, pj, NeighbourhoodSize) else 0.0) else 0.0
    ensures At(DiagonalUpTo(img, weight, i, j), Flatten(img.cols, pi, pj), q)
         == if Before(pi, pj, i, j) then (if q == Flatten(img.cols, pi, pj) then Degree(img, weight, pi, pj, NeighbourhoodSize) else 0.0) else 0.0
  {
    DiagonalAtStep(img, weight, i, j, pi, pj, q);
    BeforeStep(i, j, pi, pj);
  }

  /** Passing pixel (i, j - 1) writes the diagonal entry of row (pi, pj) of `d` when it is that pixel, and nothing else of that row. */
  lemma DiagonalAtStep(img: Image, weight: WeightFn, i: nat, j: nat, pi: int, pj: int, q: int)
    requires img.Valid() && i < img.rows && 0 < j <= img.cols && InGrid(img.rows, img.cols, pi, pj)
    ensures At(DiagonalUpTo(img, weight, i, j), Flatten(img.cols, pi, pj), q)
         == At(DiagonalUpTo(img, weight, i, j - 1), Flatten(img.cols, pi, pj), q)
          + if i == pi && j - 1 == pj && q == Flatten(img.cols, pi, pj) then Degree(img, weight, pi, pj, NeighbourhoodSize) else 0.0
  {
    var e, p := DiagonalEntry(img, weight, i, j - 1), Flatten(img.cols, pi, pj);
    AtAppend(DiagonalUpTo(img, weight, i, j - 1), [e], p, q);
    Single(e, p, q);
    if i != pi || j - 1 != pj {
      OtherPixelRow(img, weight, i, j - 1, pi, pj);
    }
  }


  /**
    The block of pixel (i, j) holds minus the edge weight at (pixel, neighbour)
    for every king-move neighbour inside the grid and nothing anywhere else.
   */
  lemma BlockAt(img: Image, weight: WeightFn, i: int, j: int, pi: int, pj: int, r: int, c: int)
    requires img.Valid() && InGrid(img.rows, img.cols, i, j)
    requires InGrid(img.rows, img.cols, pi, pj) && InGrid(img.rows, img.cols, r, c)
    ensures At(PixelEntries(img, weight, i, j, NeighbourhoodSize), Flatten(img.cols, pi, pj), Flatten(img.cols, r, c))
         == if pi == i && pj == j && KingMove(pi, pj, r, c) then -weight(img.At(pi, pj), img.At(r, c)) else 0.0
  {
    if pi == i && pj == j {
      PixelEntriesAt(img, weight, i, j, NeighbourhoodSize, r, c);
      OffsetIsKingMove(i, j, r, c);
      assert OffsetBelow(i, j, r, c, NeighbourhoodSize) == IsOffsetOf(i, j, r, c);
    } else {
      OtherPixelRow(img, weight, i, j, pi, pj);
      PixelEntriesShape(img, weight, i, j);
      AtOtherRow(PixelEntries(img, weight, i, j, NeighbourhoodSize), Flatten(img.cols, pi, pj), Flatten(img.cols, r, c));
    }
  }

  /** The block of pixel (i, j) contributes to row (pi, pj) of `w` only when it is that pixel's own block. */
  lemma BlockInRow(img: Image, weight: WeightFn, i: int, j: int, pi: int, pj: int)
    requires img.Valid() && InGrid(img.rows, img.cols, i, j) && InGrid(img.rows, img.cols, pi, pj)
    ensures RowSum(PixelEntries(img, weight, i, j, NeighbourhoodSize), Flatten(img.cols, pi, pj))
         == if pi == i && pj == j then -Degree(img, weight, pi, pj, NeighbourhoodSize) else 0.0
    ensures RowCount(PixelEntries(img, weight, i, j, NeighbourhoodSize), Flatten(img.cols, pi, pj))
         == if pi == i && pj == j then NeighbourCount(img.rows, img.cols, pi, pj) else 0
  {
    if pi == i && pj == j {
      PixelEntriesRow(img, weight, pi, pj, NeighbourhoodSize);
    } else {
      OtherPixelRow(img, weight, i, j, pi, pj);
      PixelEntriesShape(img, weight, i, j);
      AtOtherRow(PixelEntries(img, weight, i, j, NeighbourhoodSize), Flatten(img.cols, pi, pj), 0);
    }
  }

  /** Two different grid pixels have different rows in the matrix. */
  lemma OtherPixelRow(img: Image, weight: WeightFn, i: int, j: int, pi: int, pj: int)
    requires img.Valid() && InGrid(img.rows, img.cols, i, j) && InGrid(img.rows, img.cols, pi, pj)
    requires pi != i || pj != j
    ensures Flatten(img.cols, pi, pj) != Flatten(img.cols, i, j)
  {
    if Flatten(img.cols, pi, pj) == Flatten(img.cols, i, j) {
      FlattenInjective(img.rows, img.cols, pi, pj, i, j);
    }
  }

  /** The structural facts about the full pass that the method promises. */
  lemma LaplacianWellFormed(img: Image, weight: WeightFn)
    requires img.Valid()
    ensures InRange(Laplacian(img, weight), img.Size())
    ensures OffDiagonal(OffDiagonalPart(img, weight)) && DistinctPositions(OffDiagonalPart(img, weight))
    ensures (forall e :: e in DiagonalPart(img, weight) ==> e.row == e.col) && DistinctPositions(DiagonalPart(img, weight))
  {
    ScanShape(img, weight, img.rows, 0);
    DiagonalDistinct(img, weight, img.rows, 0);
    var w, d := OffDiagonalPart(img, weight), DiagonalPart(img, weight);
    assert Flatten(img.cols, img.rows, 0) == img.Size();
    assert forall e :: e in w + d ==> e in w || e in d;
  }

  /**
    The Laplacian entry for two grid pixels: the degree on the diagonal, minus
    the edge weight between king-move neighbours, and zero elsewhere.
   */
  lemma LaplacianAt(img: Image, weight: WeightFn, r1: int, c1: int, r2: int, c2: int)
    requires img.Valid() && InGrid(img.rows, img.cols, r1, c1) && InGrid(img.rows, img.cols, r2, c2)
    ensures At(Laplacian(img, weight), Flatten(img.cols, r1, c1), Flatten(img.cols, r2, c2))
         == if r1 == r2 && c1 == c2 then Degree(img, weight, r1, c1, NeighbourhoodSize)
            else if KingMove(r1, c1, r2, c2) then -weight(img.At(r1, c1), img.At(r2, c2))
            else 0.0
  {
    var p, q := Flatten(img.cols, r1, c1), Flatten(img.cols, r2, c2);
    AtAppend(OffDiagonalPart(img, weight), DiagonalPart(img, weight), p, q);
    OffDiagonalAt(img, weight, r1, c1, r2, c2);
    DiagonalAt(img, weight, r1, c1, q);
    if p == q {
      FlattenInjective(img.rows, img.cols, r1, c1, r2, c2);
    }
  }

  /** With a symmetric weight the Laplacian is a symmetric matrix. */
  lemma LaplacianSymmetric(img: Image, weight: WeightFn, p: int, q: int)
    requires img.Valid() && Symmetric(weight)
    requires 0 <= p < img.Size() && 0 <= q < img.Size()
    ensures At(Laplacian(img, weight), p, q) == At(Laplacian(img, weight), q, p)
  {
    Unflatten(img.rows, img.cols, p);
    Unflatten(img.rows, img.cols, q);
    var r1, c1, r2, c2 := p / img.cols, p % img.cols, q / img.cols, q % img.cols;
    LaplacianAt(img, weight, r1, c1, r2, c2);
    LaplacianAt(img, weight, r2, c2, r1, c1);
    NeighbourSymmetric(r1, c1, r2, c2);
    OffsetIsKingMove(r1, c1, r2, c2);
    OffsetIsKingMove(r2, c2, r1, c1);
  }

  /** Every row of the Laplacian sums to zero over all columns of the matrix. */
  lemma LaplacianRowSumZero(img: Image, weight: WeightFn, p: int)
    requires img.Valid() && 0 <= p < img.Size()
    ensures RowTotal(Laplacian(img, weight), p, img.Size()) == 0.0
  {
    Unflatten(img.rows, img.cols, p);
    var r, c := p / img.cols, p % img.cols;
    var w, d := OffDiagonalPart(img, weight), DiagonalPart(img, weight);
    LaplacianWellFormed(img, weight);
    assert forall e: Entry :: e in w + d ==> 0 <= e.col < img.Size();
    RowTotalIsRowSum(w + d, p, img.Size());
    RowSumAppend(w, d, p);
    OffDiagonalRowSum(img, weight, r, c);
    DiagonalRowSum(img, weight, r, c);
  }

  /** Row p of `w` holds exactly one triplet per in-grid neighbour of pixel p. */
  lemma LaplacianRowCount(img: Image, weight: WeightFn, r: int, c: int)
    requires img.Valid() && InGrid(img.rows, img.cols, r, c)
    ensures RowCount(OffDiagonalPart(img, weight), Flatten(img.cols, r, c)) == NeighbourCount(img.rows, img.cols, r, c)
  {
    OffDiagonalRowCount(img, weight, r, c);
  }

  /** A weight bounded below by lo makes every off-diagonal triplet of a block at most -lo. */
  lemma {:induction false} PixelEntriesBounded(img: Image, weight: WeightFn, lo: real, i: int, j: int, k: nat)
    requires img.Valid() && InGrid(img.rows, img.cols, i, j) && k <= NeighbourhoodSize
    requires forall a, b :: weight(a, b) >= lo
    ensures ValuesAtMost(PixelEntries(img, weight, i, j, k), -lo)
  {
    if k > 0 {
      PixelEntriesBounded(img, weight, lo, i, j, k - 1);
      OffsetEntriesBounded(img, weight, lo, i, j, k - 1);
      ValuesAppend(PixelEntries(img, weight, i, j, k - 1), OffsetEntries(img, weight, i, j, k - 1), -lo);
    }
  }

  lemma OffsetEntriesBounded(img: Image, weight: WeightFn, lo: real, i: int, j: int, k: nat)
    requires img.Valid() && InGrid(img.rows, img.cols, i, j) && k < NeighbourhoodSize
    requires forall a, b :: weight(a, b) >= lo
    ensures ValuesAtMost(OffsetEntries(img, weight, i, j, k), -lo)
  {
  }

  /** n copies of x added up, the form in which a degree accumulates. */
  function Times(n: nat, x: real): real
  {
    if n == 0 then 0.0 else Times(n - 1, x) + x
  }

  /** Adding up n copies of x is multiplying x by n. */
  lemma {:induction false} TimesIsProduct(n: nat, x: real)
    ensures Times(n, x) == n as real * x
  {
    if n > 0 {
      TimesIsProduct(n - 1, x);
    }
  }

  /** Offset k adds at least lo to the degree when it stays in the grid, and nothing otherwise. */
  lemma OffsetDegreeBounded(img: Image, weight: WeightFn, lo: real, i: int, j: int, k: nat)
    requires img.Valid() && InGrid(img.rows, img.cols, i, j) && k < NeighbourhoodSize
    requires forall a, b :: weight(a, b) >= lo
    ensures InBounds(img.rows, img.cols, i, j, k) ==> OffsetDegree(img, weight, i, j, k) >= lo
    ensures !InBounds(img.rows, img.cols, i, j, k) ==> OffsetDegree(img, weight, i, j, k) == 0.0
  {
  }

  /** A weight bounded below by lo makes a degree at least lo per in-grid offset. */
  lemma {:induction false} DegreeBounded(img: Image, weight: WeightFn, lo: real, i: int, j: int, k: nat)
    requires img.Valid() && InGrid(img.rows, img.cols, i, j) && k <= NeighbourhoodSize
    requires forall a, b :: weight(a, b) >= lo
    ensures Degree(img, weight, i, j, k) >= Times(CountInBounds(img.rows, img.cols, i, j, k), lo)
  {
    if k > 0 {
      DegreeBounded(img, weight, lo, i, j, k - 1);
      OffsetDegreeBounded(img, weight, lo, i, j, k - 1);
    }
  }

  /** Triplets written before (i, j) are all at most -lo when every weight is at least lo. */
  lemma {:induction false} ScanBounded(img: Image, weight: WeightFn, lo: real, i: nat, j: nat)
    requires img.Valid() && ScanPos(img, i, j)
    requires forall a, b :: weight(a, b) >= lo
    ensures ValuesAtMost(OffDiagonalUpTo(img, weight, i, j), -lo)
    decreases i, j
  {
    if j > 0 {
      ScanBounded(img, weight, lo, i, j - 1);
      PixelEntriesBounded(img, weight, lo, i, j - 1, NeighbourhoodSize);
      ValuesAppend(OffDiagonalUpTo(img, weight, i, j - 1), PixelEntries(img, weight, i, j - 1, NeighbourhoodSize), -lo);
    } else if i > 0 {
      ScanBounded(img, weight, lo, i - 1, img.cols);
      RowWrap(img, weight, i, j);
    }
  }

  /**
    With every edge weight at least lo, every off-diagonal entry of the
    Laplacian is at most -lo and every degree is at least lo times the
    pixel's neighbour count; for lo > 0 the off-diagonals are strictly
    negative and no pixel with a neighbour has a zero degree.
   */
  lemma LaplacianBounded(img: Image, weight: WeightFn, lo: real)
    requires img.Valid()
    requires forall a, b :: weight(a, b) >= lo
    ensures forall e :: e in OffDiagonalPart(img, weight) ==> e.value <= -lo
    ensures forall r, c :: InGrid(img.rows, img.cols, r, c) ==>
      Degree(img, weight, r, c, NeighbourhoodSize) >= NeighbourCount(img.rows, img.cols, r, c) as real * lo
  {
    ScanBounded(img, weight, lo, img.rows, 0);
    forall r, c | InGrid(img.rows, img.cols, r, c)
      ensures Degree(img, weight, r, c, NeighbourhoodSize) >= NeighbourCount(img.rows, img.cols, r, c) as real * lo
    {
      DegreeBounded(img, weight, lo, r, c, NeighbourhoodSize);
      TimesIsProduct(NeighbourCount(img.rows, img.cols, r, c), lo);
    }
  }

  /** Every pixel of the image has the colour of (r, c). */
  ghost predicate Uniform(img: Image, r: int, c: int)
    requires img.Valid() && InGrid(img.rows, img.cols, r, c)
  {
    forall r', c' :: InGrid(img.rows, img.cols, r', c') ==> img.At(r', c') == img.At(r, c)
  }

  /** On a uniform image an in-grid offset adds the weight of equal colours to the degree. */
  lemma OffsetDegreeUniform(img: Image, weight: WeightFn, i: int, j: int, k: nat)
    requires img.Valid() && InGrid(img.rows, img.cols, i, j) && k < NeighbourhoodSize
    requires Uniform(img, i, j)
    ensures InBounds(img.rows, img.cols, i, j, k) ==> OffsetDegree(img, weight, i, j, k) == weight(img.At(i, j), img.At(i, j))
    ensures !InBounds(img.rows, img.cols, i, j, k) ==> OffsetDegree(img, weight, i, j, k) == 0.0
  {
    if InBounds(img.rows, img.cols, i, j, k) {
      assert img.At(i + DY(k), j + DX(k)) == img.At(i, j);
    }
  }

  /** On a uniform image a degree adds up the weight of equal colours once per in-grid offset. */
  lemma {:induction false} DegreeUniform(img: Image, weight: WeightFn, i: int, j: int, k: nat)
    requires img.Valid() && InGrid(img.rows, img.cols, i, j) && k <= NeighbourhoodSize
    requires Uniform(img, i, j)
    ensures Degree(img, weight, i, j, k)
         == Times(CountInBounds(img.rows, img.cols, i, j, k), weight(img.At(i, j), img.At(i, j)))
  {
    if k > 0 {
      DegreeUniform(img, weight, i, j, k - 1);
      OffsetDegreeUniform(img, weight, i, j, k - 1);
    }
  }

  /**
    On a uniform image with at least two rows and two columns every edge has
    the same weight u: the diagonal is 3u at a corner, 5u on the rest of the
    border and 8u inside, and neighbours are joined by -u.
   */
  lemma UniformImageLaplacian(img: Image, weight: WeightFn, r: int, c: int, r2: int, c2: int)
    requires img.Valid() && img.rows >= 2 && img.cols >= 2
    requires InGrid(img.rows, img.cols, r, c) && Uniform(img, r, c)
    requires InGrid(img.rows, img.cols, r2, c2) && KingMove(r, c, r2, c2)
    ensures var u := weight(img.At(r, c), img.At(r, c));
      var diag := At(Laplacian(img, weight), Flatten(img.cols, r, c), Flatten(img.cols, r, c));
      && At(Laplacian(img, weight), Flatten(img.cols, r, c), Flatten(img.cols, r2, c2)) == -u
      && (OnBorder(img.rows, r) && OnBorder(img.cols, c) ==> diag == 3.0 * u)
      && (OnBorder(img.rows, r) != OnBorder(img.cols, c) ==> diag == 5.0 * u)
      && (!OnBorder(img.rows, r) && !OnBorder(img.cols, c) ==> diag == 8.0 * u)
  {
    LaplacianAt(img, weight, r, c, r, c);
    LaplacianAt(img, weight, r, c, r2, c2);
    DegreeUniform(img, weight, r, c, NeighbourhoodSize);
    TimesIsProduct(NeighbourCount(img.rows, img.cols, r, c), weight(img.At(r, c), img.At(r, c)));
    NeighbourCountByPosition(img.rows, img.cols, r, c);
  }
}
