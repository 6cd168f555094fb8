/**
  The pixel grid: bounds, row-major flattening of (row, col) to a node index,
  and the fixed 8-cell neighbourhood used to connect pixels.
 */
module Grid {

  /** (r, c) lies inside a rows x cols grid. */
  predicate InGrid(rows: int, cols: int, r: int, c: int)
  {
    0 <= r < rows && 0 <= c < cols
  }

  /** Row-major node index of pixel (r, c). */
  function Flatten(cols: int, r: int, c: int): int
  {
    r * cols + c
  }

  /** Pixel (r1, c1) comes strictly before (r2, c2) in row-major order. */
  predicate Before(r1: int, c1: int, r2: int, c2: int)
  {
    r1 < r2 || (r1 == r2 && c1 < c2)
  }

  lemma MulMonotone(a: int, b: int, n: nat)
    requires a <= b
    ensures a * n <= b * n
  {
  }

  /** Flattening maps the grid into [0, rows * cols). */
  lemma FlattenInRange(rows: int, cols: int, r: int, c: int)
    requires InGrid(rows, cols, r, c)
    ensures 0 <= Flatten(cols, r, c) < rows * cols
  {
    MulMonotone(0, r, cols);
    MulMonotone(r + 1, rows, cols);
  }

  /** Flattening is strictly monotone in row-major order (the second pixel may sit at column cols). */
  lemma FlattenMonotone(cols: nat, r1: int, c1: int, r2: int, c2: int)
    requires 0 <= c1 < cols && 0 <= c2 <= cols
    requires Before(r1, c1, r2, c2)
    ensures Flatten(cols, r1, c1) < Flatten(cols, r2, c2)
  {
    if r1 < r2 {
      MulMonotone(r1 + 1, r2, cols);
    }
  }

  /** Two grid pixels with the same index are the same pixel. */
  lemma FlattenInjective(rows: int, cols: int, r1: int, c1: int, r2: int, c2: int)
    requires InGrid(rows, cols, r1, c1) && InGrid(rows, cols, r2, c2)
    requires Flatten(cols, r1, c1) == Flatten(cols, r2, c2)
    ensures r1 == r2 && c1 == c2
  {
    if Before(r1, c1, r2, c2) {
      FlattenMonotone(cols, r1, c1, r2, c2);
    } else if Before(r2, c2, r1, c1) {
      FlattenMonotone(cols, r2, c2, r1, c1);
    }
  }

  /** Flattening followed by division and remainder by cols recovers the pixel. */
  lemma {:induction false} UnflattenFlatten(rows: int, cols: int, r: int, c: int)
    requires InGrid(rows, cols, r, c)
    ensures Flatten(cols, r, c) / cols == r && Flatten(cols, r, c) % cols == c
  {
    var p := Flatten(cols, r, c);
    var r', c' := p / cols, p % cols;
    assert p == r' * cols + c';
    FlattenInRange(rows, cols, r, c);
    assert 0 <= c' < cols;
    if r' >= rows {
      MulMonotone(rows, r', cols);
    }
    FlattenInjective(rows, cols, r, c, r', c');
  }

  /** Every node index of a rows x cols grid is the index of the pixel (p / cols, p % cols). */
  lemma Unflatten(rows: nat, cols: nat, p: int)
    requires 0 <= p < rows * cols
    ensures cols > 0
    ensures InGrid(rows, cols, p / cols, p % cols) && Flatten(cols, p / cols, p % cols) == p
  {
    if p / cols >= rows {
      MulMonotone(rows, p / cols, cols);
    }
  }

  /** The size of the neighbourhood walked around each pixel. */
  const NeighbourhoodSize: nat := 8

  /** Row offset of neighbourhood position k: the row above, the pixel's own row, the row below. */
  function DY(k: nat): int
    requires k < NeighbourhoodSize
  {
    if k < 3 then -1 else if k < 5 then 0 else 1
  }

  /** Column offset of neighbourhood position k: left, middle, right within each row of the window. */
  function DX(k: nat): int
    requires k < NeighbourhoodSize
  {
    if k == 0 || k == 3 || k == 5 then -1 else if k == 1 || k == 6 then 0 else 1
  }

  /** The two offset tables, in the order they are visited. */
  lemma OffsetTables()
    ensures [DY(0), DY(1), DY(2), DY(3), DY(4), DY(5), DY(6), DY(7)] == [-1, -1, -1, 0, 0, 1, 1, 1]
    ensures [DX(0), DX(1), DX(2), DX(3), DX(4), DX(5), DX(6), DX(7)] == [-1, 0, 1, -1, 1, -1, 0, 1]
  {
  }

  /** Offset k around pixel (r, c) stays inside the grid. */
  predicate InBounds(rows: int, cols: int, r: int, c: int, k: nat)
    requires k < NeighbourhoodSize
  {
    InGrid(rows, cols, r + DY(k), c + DX(k))
  }

  /** Some neighbourhood offset moves (r1, c1) onto (r2, c2). */
  predicate IsOffsetOf(r1: int, c1: int, r2: int, c2: int)
  {
    exists k :: 0 <= k < NeighbourhoodSize && r2 == r1 + DY(k) && c2 == c1 + DX(k)
  }

  /** The reference neighbour relation: distinct pixels at Chebyshev distance one (a king's move). */
  predicate KingMove(r1: int, c1: int, r2: int, c2: int)
  {
    (r1 != r2 || c1 != c2) && -1 <= r2 - r1 <= 1 && -1 <= c2 - c1 <= 1
  }

  /** The offsets are exactly the eight king moves; in particular (0, 0) is not one of them. */
  lemma OffsetIsKingMove(r1: int, c1: int, r2: int, c2: int)
    ensures IsOffsetOf(r1, c1, r2, c2) <==> KingMove(r1, c1, r2, c2)
  {
    if KingMove(r1, c1, r2, c2) {
      var dy, dx := r2 - r1, c2 - c1;
      var k := if dy == -1 then 1 + dx else if dy == 0 then (if dx == -1 then 3 else 4) else 6 + dx;
      assert r2 == r1 + DY(k) && c2 == c1 + DX(k);
    }
  }

  /** Offset 7 - k is the negation of offset k: the offset set is closed under negation. */
  lemma OffsetsClosedUnderNegation(k: nat)
    requires k < NeighbourhoodSize
    ensures DY(NeighbourhoodSize - 1 - k) == -DY(k) && DX(NeighbourhoodSize - 1 - k) == -DX(k)
    ensures DY(k) != 0 || DX(k) != 0
  {
  }

  /** No two offsets coincide, so a pixel never writes the same neighbour twice. */
  lemma OffsetsDistinct(k1: nat, k2: nat)
    requires k1 < k2 < NeighbourhoodSize
    ensures DY(k1) != DY(k2) || DX(k1) != DX(k2)
  {
  }

  /** The neighbour relation on the grid is symmetric and irreflexive. */
  lemma NeighbourSymmetric(r1: int, c1: int, r2: int, c2: int)
    ensures IsOffsetOf(r1, c1, r2, c2) <==> IsOffsetOf(r2, c2, r1, c1)
    ensures !IsOffsetOf(r1, c1, r1, c1)
  {
    OffsetIsKingMove(r1, c1, r2, c2);
    OffsetIsKingMove(r2, c2, r1, c1);
    OffsetIsKingMove(r1, c1, r1, c1);
  }

  /** Number of offsets among the first k that stay inside the grid around (r, c). */
  function CountInBounds(rows: int, cols: int, r: int, c: int, k: nat): nat
    requires k <= NeighbourhoodSize
  {
    if k == 0 then 0
    else CountInBounds(rows, cols, r, c, k - 1) + (if InBounds(rows, cols, r, c, k - 1) then 1 else 0)
  }

  /** Number of in-grid neighbours of (r, c). */
  function NeighbourCount(rows: int, cols: int, r: int, c: int): nat
  {
    CountInBounds(rows, cols, r, c, NeighbourhoodSize)
  }

  /** Number of positions among x - 1, x, x + 1 that lie in [0, n). */
  function Span(n: int, x: int): nat
  {
    (if 0 <= x - 1 < n then 1 else 0) + (if 0 <= x < n then 1 else 0) + (if 0 <= x + 1 < n then 1 else 0)
  }

  /**
    The neighbour count of an in-grid pixel is the size of the 3 x 3 window
    clipped to the grid, less the pixel itself.
   */
  lemma NeighbourCountIsClippedWindow(rows: int, cols: int, r: int, c: int)
    requires InGrid(rows, cols, r, c)
    ensures NeighbourCount(rows, cols, r, c) == Span(rows, r) * Span(cols, c) - 1
  {
    var s := Span(cols, c);
    assert CountInBounds(rows, cols, r, c, 1) == if InBounds(rows, cols, r, c, 0) then 1 else 0;
    assert CountInBounds(rows, cols, r, c, 2)
        == CountInBounds(rows, cols, r, c, 1) + if InBounds(rows, cols, r, c, 1) then 1 else 0;
    assert CountInBounds(rows, cols, r, c, 6)
        == CountInBounds(rows, cols, r, c, 5) + if InBounds(rows, cols, r, c, 5) then 1 else 0;
    assert CountInBounds(rows, cols, r, c, 7)
        == CountInBounds(rows, cols, r, c, 6) + if InBounds(rows, cols, r, c, 6) then 1 else 0;
    // the row above, the pixel's own row, the row below
    assert CountInBounds(rows, cols, r, c, 3) == if 0 <= r - 1 < rows then s else 0;
    assert CountInBounds(rows, cols, r, c, 5) == CountInBounds(rows, cols, r, c, 3) + s - 1;
    assert CountInBounds(rows, cols, r, c, 8)
        == CountInBounds(rows, cols, r, c, 5) + if 0 <= r + 1 < rows then s else 0;
  }

  /** Position x is the first or the last of n positions (a border row, or a border column). */
  predicate OnBorder(n: int, x: int) { x == 0 || x == n - 1 }

  /**
    In a grid with at least two rows and two columns a corner pixel has 3
    neighbours, any other border pixel 5 and an interior pixel 8.
   */
  lemma NeighbourCountByPosition(rows: int, cols: int, r: int, c: int)
    requires rows >= 2 && cols >= 2
    requires InGrid(rows, cols, r, c)
    ensures OnBorder(rows, r) && OnBorder(cols, c) ==> NeighbourCount(rows, cols, r, c) == 3
    ensures OnBorder(rows, r) != OnBorder(cols, c) ==> NeighbourCount(rows, cols, r, c) == 5
    ensures !OnBorder(rows, r) && !OnBorder(cols, c) ==> NeighbourCount(rows, cols, r, c) == 8
  {
    NeighbourCountIsClippedWindow(rows, cols, r, c);
    assert Span(rows, r) == if OnBorder(rows, r) then 2 else 3;
    assert Span(cols, c) == if OnBorder(cols, c) then 2 else 3;
  }
}
