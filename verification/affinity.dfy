/**
  Edge weights between neighbouring pixels.

  The weight of an edge is a function of the infinity-norm distance between
  the two endpoint colours: the exponential kernel exp(-(beta/sigma) d^2),
  quantised to a multiple of EPSILON and then raised by EPSILON so that it is
  never zero. The exponential and the value of EPSILON are parameters of the
  model; every number is a mathematical real, not a floating-point value.
 */
module Affinity {

  /** A pixel colour with three channels. */
  datatype Color = Color(c0: real, c1: real, c2: real)

  function Abs(x: real): real
  {
    if x < 0.0 then -x else x
  }

  function Max(a: real, b: real): real
  {
    if a < b then b else a
  }

  /** The largest absolute channel difference between two colours. */
  function InfDistance(a: Color, b: Color): (d: real)
    ensures Abs(a.c0 - b.c0) <= d && Abs(a.c1 - b.c1) <= d && Abs(a.c2 - b.c2) <= d
    ensures d == Abs(a.c0 - b.c0) || d == Abs(a.c1 - b.c1) || d == Abs(a.c2 - b.c2)
  {
    Max(Abs(a.c0 - b.c0), Max(Abs(a.c1 - b.c1), Abs(a.c2 - b.c2)))
  }

  /** The distance is a metric's first three axioms: symmetric, non-negative, zero exactly on equal colours. */
  lemma InfDistanceIsSymmetric(a: Color, b: Color)
    ensures InfDistance(a, b) == InfDistance(b, a)
    ensures InfDistance(a, b) >= 0.0
    ensures InfDistance(a, b) == 0.0 <==> a == b
  {
  }

  /** C's round: to the nearest integer, halfway cases away from zero. */
  function Round(x: real): (n: int)
    ensures Abs(n as real - x) <= 0.5
    ensures Abs(n as real - x) < 0.5 || Abs(n as real) > Abs(x)
    ensures x >= 0.0 ==> n >= 0
  {
    if x >= 0.0 then (x + 0.5).Floor else -((0.5 - x).Floor)
  }

  /**
    The quantisation of a raw weight v: round v to a multiple of eps, then add
    eps. For a non-negative raw weight the result is at least eps, and it never
    differs from v + eps by more than half a step.
   */
  function Quantise(eps: real, v: real): (q: real)
    requires eps > 0.0
    ensures v >= 0.0 ==> q >= eps
    ensures Abs(q - (v + eps)) <= eps / 2.0
  {
    var n := Round(v / eps);
    var err := n as real - v / eps;
    assert n as real * eps - v == err * eps;
    AbsScale(err, eps);
    HalfStep(Abs(err), eps);
    n as real * eps + eps
  }

  lemma AbsScale(x: real, k: real)
    requires k > 0.0
    ensures Abs(x * k) == Abs(x) * k
  {
  }

  lemma HalfStep(x: real, k: real)
    requires 0.0 <= x <= 0.5 && k > 0.0
    ensures x * k <= k / 2.0
  {
  }

  /** A positive quantisation step and a non-negative exponential. */
  ghost predicate ValidNumerics(eps: real, kernel: real -> real)
  {
    eps > 0.0 && forall x :: kernel(x) >= 0.0
  }

  /** The parameters the weight depends on; `kernel` stands for the exponential. */
  datatype WeightParams = WeightParams(beta: real, sigma: real, eps: real, kernel: real -> real)
  {
    /** Parameters the constructor accepts, a positive EPSILON and a non-negative kernel. */
    ghost predicate Valid()
    {
      beta >= 0.0 && sigma > 0.0 && ValidNumerics(eps, kernel)
    }
  }

  /** The kernel's argument for colour distance d: -(beta/sigma) d^2. */
  function Exponent(prm: WeightParams, d: real): real
    requires prm.sigma > 0.0
  {
    (-prm.beta / prm.sigma) * d * d
  }

  /** The quantised weight of the edge between colours a and b. */
  function EdgeWeight(prm: WeightParams, a: Color, b: Color): real
    requires prm.sigma > 0.0 && prm.eps > 0.0
  {
    Quantise(prm.eps, prm.kernel(Exponent(prm, InfDistance(a, b))))
  }

  /** Every edge weight is symmetric in its endpoints and at least EPSILON, hence strictly positive. */
  lemma EdgeWeightSymmetricPositive(prm: WeightParams, a: Color, b: Color)
    requires prm.Valid()
    ensures EdgeWeight(prm, a, b) == EdgeWeight(prm, b, a)
    ensures EdgeWeight(prm, a, b) >= prm.eps > 0.0
  {
    InfDistanceIsSymmetric(a, b);
  }

  /** A uniform region: every edge inside it carries the weight of distance zero, kernel(0) quantised. */
  lemma EdgeWeightOfEqualColours(prm: WeightParams, a: Color)
    requires prm.Valid()
    ensures EdgeWeight(prm, a, a) == Quantise(prm.eps, prm.kernel(0.0))
  {
    InfDistanceIsSymmetric(a, a);
  }
}
