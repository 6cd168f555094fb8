/**
  The segmentation engine: parameter validation at construction, assembly of
  the linear system (Is + L L) x = b, the call into an external sparse solver,
  and the thresholding of the solution reshaped back into the image grid.

  The solver is a parameter. It reports one of its two failure points or a
  solution; the model says what a solution must satisfy but not how it is
  found.
 */
module Segmentation {
  import opened Grid
  import opened Sparse
  import opened Affinity
  import opened AffinityGraph
  import opened Seeds

  datatype Error = NegativeBeta | NonPositiveSigma | DecompositionFailed | SolvingFailed

  datatype Result<T> = Success(value: T) | Failure(error: Error)

  /** The engine: the image and the kernel parameters bound at construction. */
  datatype Segmenter = Segmenter(image: Image, beta: real, sigma: real)
  {
    /** What construction guarantees of a segmenter. */
    predicate Valid()
    {
      image.Valid() && beta >= 0.0 && sigma > 0.0
    }
  }

  /**
    The numerical context of the weight: the quantisation step EPSILON and the
    exponential function, which stay outside the model.
   */
  datatype Numerics = Numerics(eps: real, exp: real -> real)
  {
    ghost predicate Valid()
    {
      ValidNumerics(eps, exp)
    }
  }

  /** Construction rejects a negative beta first, then a non-positive sigma; beta = 0 is accepted. */
  function Create(image: Image, beta: real, sigma: real): (r: Result<Segmenter>)
    requires image.Valid()
    ensures r.Success? <==> beta >= 0.0 && sigma > 0.0
    ensures r.Success? ==> r.value.Valid() && r.value == Segmenter(image, beta, sigma)
    ensures beta < 0.0 ==> r == Failure(NegativeBeta)
    ensures beta >= 0.0 && sigma <= 0.0 ==> r == Failure(NonPositiveSigma)
  {
    if beta < 0.0 then Failure(NegativeBeta)
    else if sigma <= 0.0 then Failure(NonPositiveSigma)
    else Success(Segmenter(image, beta, sigma))
  }

  function WeightParamsOf(s: Segmenter, num: Numerics): WeightParams
  {
    WeightParams(s.beta, s.sigma, num.eps, num.exp)
  }

  /** The edge weight function of a segmenter: symmetric and at least EPSILON. */
  function WeightOf(s: Segmenter, num: Numerics): (weight: WeightFn)
    requires s.Valid() && num.Valid()
    ensures Symmetric(weight)
    ensures forall a, b :: weight(a, b) >= num.eps
  {
    var prm := WeightParamsOf(s, num);
    var weight := (a: Color, b: Color) => EdgeWeight(prm, a, b);
    EdgeWeightsValid(prm);
    weight
  }

  lemma EdgeWeightsValid(prm: WeightParams)
    requires prm.Valid()
    ensures forall a, b :: EdgeWeight(prm, a, b) == EdgeWeight(prm, b, a) && EdgeWeight(prm, a, b) >= prm.eps
  {
    forall a, b
      ensures EdgeWeight(prm, a, b) == EdgeWeight(prm, b, a) && EdgeWeight(prm, a, b) >= prm.eps
    {
      EdgeWeightSymmetricPositive(prm, a, b);
    }
  }

  /** The data handed to the solver: Is, L and b over n unknowns. */
  datatype System = System(size: nat, constraint: seq<real>, laplacian: seq<Entry>, bias: seq<real>)

  /** Row p of the sparse matrix es applied to the vector v. */
  function RowTimes(es: seq<Entry>, v: seq<real>, p: int): real
    decreases |es|
  {
    if es == [] then 0.0
    else
      var e := es[|es| - 1];
      RowTimes(es[..|es| - 1], v, p) + (if e.row == p && 0 <= e.col < |v| then e.value * v[e.col] else 0.0)
  }

  /** The sparse matrix es applied to v, over n rows. */
  function MatVec(es: seq<Entry>, v: seq<real>, n: nat): seq<real>
  {
    seq(n, p requires 0 <= p < n => RowTimes(es, v, p))
  }

  /** x solves (Is + L L) x = b. */
  ghost predicate Solves(sys: System, x: seq<real>)
  {
    && |x| == sys.size && |sys.constraint| == sys.size && |sys.bias| == sys.size
    && var lx := MatVec(sys.laplacian, x, sys.size);
       forall p :: 0 <= p < sys.size ==>
         sys.constraint[p] * x[p] + RowTimes(sys.laplacian, lx, p) == sys.bias[p]
  }

  /** What the solver reports: a solution, or which of its two stages failed. */
  datatype Outcome = Solved(x: seq<real>) | FactorizationFailed | SolveFailed

  type Solver = System -> Outcome

  /** A solver that reports success only with a solution of the system. */
  ghost predicate Sound(solver: Solver)
  {
    forall sys :: solver(sys).Solved? ==> Solves(sys, solver(sys).x)
  }

  /**
    The system a segmentation call builds: the seed constraints and the
    Laplacian of the bound image under the segmenter's weight. Its Laplacian
    lies inside the n x n matrix, is symmetric, has zero row sums and strictly
    negative off-diagonal entries; Is is 0/1.
   */
  function SystemFor(s: Segmenter, num: Numerics, background: seq<bool>, foreground: seq<bool>): (sys: System)
    requires s.Valid() && num.Valid()
    requires |background| == |foreground| == s.image.Size()
    ensures sys.size == s.image.Size() && |sys.constraint| == |sys.bias| == sys.size
    ensures forall i :: 0 <= i < sys.size ==> (sys.constraint[i] == 0.0 || sys.constraint[i] == 1.0)
    ensures InRange(sys.laplacian, sys.size)
    ensures forall p, q :: 0 <= p < sys.size && 0 <= q < sys.size ==>
      At(sys.laplacian, p, q) == At(sys.laplacian, q, p)
    ensures forall p :: 0 <= p < sys.size ==> RowTotal(sys.laplacian, p, sys.size) == 0.0
    ensures forall p, q :: 0 <= p < sys.size && 0 <= q < sys.size && p != q ==>
      At(sys.laplacian, p, q) <= -num.eps || At(sys.laplacian, p, q) == 0.0
  {
    var weight := WeightOf(s, num);
    var seeds := SeedConstraints(background, foreground);
    LaplacianStructure(s.image, weight, num.eps);
    System(s.image.Size(), seeds.diag, Laplacian(s.image, weight), seeds.bias)
  }

  /** The quantified form of the Laplacian lemmas, for a symmetric weight bounded below by lo. */
  lemma LaplacianStructure(img: Image, weight: WeightFn, lo: real)
    requires img.Valid() && Symmetric(weight)
    requires forall a, b :: weight(a, b) >= lo
    ensures InRange(Laplacian(img, weight), img.Size())
    ensures forall p, q :: 0 <= p < img.Size() && 0 <= q < img.Size() ==>
      At(Laplacian(img, weight), p, q) == At(Laplacian(img, weight), q, p)
    ensures forall p :: 0 <= p < img.Size() ==> RowTotal(Laplacian(img, weight), p, img.Size()) == 0.0
    ensures forall p, q :: 0 <= p < img.Size() && 0 <= q < img.Size() && p != q ==>
      At(Laplacian(img, weight), p, q) <= -lo || At(Laplacian(img, weight), p, q) == 0.0
  {
    LaplacianWellFormed(img, weight);
    forall p, q | 0 <= p < img.Size() && 0 <= q < img.Size()
      ensures At(Laplacian(img, weight), p, q) == At(Laplacian(img, weight), q, p)
    {
      LaplacianSymmetric(img, weight, p, q);
    }
    forall p | 0 <= p < img.Size()
      ensures RowTotal(Laplacian(img, weight), p, img.Size()) == 0.0
    {
      LaplacianRowSumZero(img, weight, p);
    }
    forall p, q | 0 <= p < img.Size() && 0 <= q < img.Size() && p != q
      ensures At(Laplacian(img, weight), p, q) <= -lo || At(Laplacian(img, weight), p, q) == 0.0
    {
      Unflatten(img.rows, img.cols, p);
      Unflatten(img.rows, img.cols, q);
      LaplacianAt(img, weight, p / img.cols, p % img.cols, q / img.cols, q % img.cols);
    }
  }

  /** The labels the bias encodes, and the threshold half-way between them. */
  const BackgroundValue: real := 1.0
  const ForegroundValue: real := -1.0

  function ThresholdValue(): (t: real)
    ensures ForegroundValue < t < BackgroundValue
    ensures t - ForegroundValue == BackgroundValue - t
    ensures t == 0.0
  {
    (BackgroundValue + ForegroundValue) / 2.0
  }

  /** A flat row-major vector cut into rows of cols values. */
  function Reshape(x: seq<real>, rows: nat, cols: nat): (g: seq<seq<real>>)
    requires |x| == rows * cols
    ensures |g| == rows && forall r :: 0 <= r < rows ==> |g[r]| == cols
    ensures forall r, c :: InGrid(rows, cols, r, c) ==>
      0 <= Flatten(cols, r, c) < |x| && g[r][c] == x[Flatten(cols, r, c)]
  {
    var g := seq(rows, r requires 0 <= r < rows => RowOf(x, rows, cols, r));
    assert forall r, c :: InGrid(rows, cols, r, c) ==> g[r][c] == RowOf(x, rows, cols, r)[c];
    g
  }

  /** Row r of a flat row-major vector. */
  function RowOf(x: seq<real>, rows: nat, cols: nat, r: int): (row: seq<real>)
    requires |x| == rows * cols && 0 <= r < rows
    ensures |row| == cols
    ensures forall c :: 0 <= c < cols ==> 0 <= Flatten(cols, r, c) < |x| && row[c] == x[Flatten(cols, r, c)]
  {
    RowSlice(rows, cols, r);
    x[r * cols .. (r + 1) * cols]
  }

  lemma RowSlice(rows: nat, cols: nat, r: int)
    requires 0 <= r < rows
    ensures 0 <= r * cols <= (r + 1) * cols <= rows * cols
    ensures (r + 1) * cols == r * cols + cols
  {
    MulMonotone(0, r, cols);
    MulMonotone(r + 1, rows, cols);
  }

  /** The rows of a grid laid end to end. */
  function Concat(g: seq<seq<real>>): seq<real>
  {
    if g == [] then [] else Concat(g[..|g| - 1]) + g[|g| - 1]
  }

  /** Reshaping then laying the rows end to end gives back the flat vector: no transposition, no loss. */
  lemma {:induction false} ConcatReshape(x: seq<real>, rows: nat, cols: nat)
    requires |x| == rows * cols
    ensures Concat(Reshape(x, rows, cols)) == x
    decreases rows
  {
    if rows > 0 {
      var g := Reshape(x, rows, cols);
      RowSlice(rows, cols, rows - 1);
      var x' := x[..(rows - 1) * cols];
      assert Reshape(x', rows - 1, cols) == g[..rows - 1] by {
        forall r | 0 <= r < rows - 1
          ensures Reshape(x', rows - 1, cols)[r] == g[r]
        {
          RowSlice(rows - 1, cols, r);
          RowSlice(rows, cols, r);
        }
      }
      ConcatReshape(x', rows - 1, cols);
      assert x == x' + x[(rows - 1) * cols ..];
    }
  }

  /** The segmentation mask: on exactly where the rule accepts the value against the threshold. */
  function ApplyThreshold(field: seq<seq<real>>, t: real, above: (real, real) -> bool): (mask: seq<seq<bool>>)
    ensures |mask| == |field|
    ensures forall r :: 0 <= r < |field| ==> |mask[r]| == |field[r]|
  {
    seq(|field|, r requires 0 <= r < |field| =>
      seq(|field[r]|, c requires 0 <= c < |field[r]| => above(field[r][c], t)))
  }

  /**
    One segmentation call. It assembles the seed constraints and the
    Laplacian, hands the system to the solver, reports the solver's failure
    stage as an error, and otherwise thresholds the solution at 0, pixel (r, c)
    reading solution entry r * cols + c. Any mask it returns is the threshold
    of a solution of (Is + L L) x = b when the solver is sound.
   */
  method Segment(s: Segmenter, num: Numerics, background: seq<bool>, foreground: seq<bool>,
                 solver: Solver, above: (real, real) -> bool) returns (r: Result<seq<seq<bool>>>)
    requires s.Valid() && num.Valid()
    requires |background| == |foreground| == s.image.Size()
    requires forall sys :: solver(sys).Solved? ==> |solver(sys).x| == sys.size
    ensures solver(SystemFor(s, num, background, foreground)).FactorizationFailed? <==> r == Failure(DecompositionFailed)
    ensures solver(SystemFor(s, num, background, foreground)).SolveFailed? <==> r == Failure(SolvingFailed)
    ensures r.Success? <==> solver(SystemFor(s, num, background, foreground)).Solved?
    ensures r.Success? ==>
      var x := solver(SystemFor(s, num, background, foreground)).x;
      && solver(SystemFor(s, num, background, foreground)).Solved?
      && |r.value| == s.image.rows
      && (forall i :: 0 <= i < s.image.rows ==> |r.value[i]| == s.image.cols)
      && (forall i, j :: InGrid(s.image.rows, s.image.cols, i, j) ==>
            0 <= Flatten(s.image.cols, i, j) < |x| && r.value[i][j] == above(x[Flatten(s.image.cols, i, j)], 0.0))
      && (Sound(solver) ==> Solves(SystemFor(s, num, background, foreground), x))
  {
    var seeds := SeedConstraints(background, foreground);
    var weight := WeightOf(s, num);
    var w, d := CalculateLaplacian(s.image, weight);
    var sys := System(s.image.Size(), seeds.diag, w + d, seeds.bias);
    assert sys == SystemFor(s, num, background, foreground);
    match solver(sys)
    case FactorizationFailed =>
      r := Failure(DecompositionFailed);
    case SolveFailed =>
      r := Failure(SolvingFailed);
    case Solved(x) =>
      var field := Reshape(x, s.image.rows, s.image.cols);
      r := Success(ApplyThreshold(field, ThresholdValue(), above));
  }
}
