/**
  Seed constraints: the two user masks become a 0/1 constraint diagonal `Is`
  and a bias vector `b`, one entry per pixel in row-major order. Background
  seeds pull towards +1, foreground seeds towards -1; a pixel in both masks is
  constrained (Is = 1) towards 0.
 */
module Seeds {

  /** The diagonal of Is and the vector b. */
  datatype Constraints = Constraints(diag: seq<real>, bias: seq<real>)

  /** A mask bit as the number it converts to. */
  function Bit(b: bool): real
  {
    if b then 1.0 else 0.0
  }

  /** The constraints for a background mask and a foreground mask of the same length. */
  function SeedConstraints(background: seq<bool>, foreground: seq<bool>): (r: Constraints)
    requires |background| == |foreground|
    ensures |r.diag| == |r.bias| == |background|
    ensures forall i :: 0 <= i < |r.diag| ==> (r.diag[i] == 0.0 || r.diag[i] == 1.0)
    ensures forall i :: 0 <= i < |r.bias| ==> -1.0 <= r.bias[i] <= 1.0
    ensures forall i :: 0 <= i < |r.diag| ==> (r.diag[i] == 1.0 <==> background[i] || foreground[i])
    ensures forall i :: 0 <= i < |r.bias| ==>
      && (r.bias[i] == 1.0 <==> background[i] && !foreground[i])
      && (r.bias[i] == -1.0 <==> foreground[i] && !background[i])
      && (r.bias[i] == 0.0 <==> background[i] == foreground[i])
  {
    Constraints(
      seq(|background|, i requires 0 <= i < |background| => Bit(background[i] || foreground[i])),
      seq(|background|, i requires 0 <= i < |background| => Bit(background[i]) - Bit(foreground[i])))
  }

  /** An unconstrained pixel has no bias, and a pixel in both masks is constrained towards 0. */
  lemma UnconstrainedAndConflicting(background: seq<bool>, foreground: seq<bool>, i: int)
    requires |background| == |foreground| && 0 <= i < |background|
    ensures SeedConstraints(background, foreground).diag[i] == 0.0 ==> SeedConstraints(background, foreground).bias[i] == 0.0
    ensures background[i] && foreground[i] ==>
      SeedConstraints(background, foreground).diag[i] == 1.0 && SeedConstraints(background, foreground).bias[i] == 0.0
  {
  }

  /** The masks a constraint pair encodes: background where b = +1, foreground where b = -1. */
  function Decode(c: Constraints): (masks: (seq<bool>, seq<bool>))
  {
    (seq(|c.bias|, i requires 0 <= i < |c.bias| => c.bias[i] == 1.0),
     seq(|c.bias|, i requires 0 <= i < |c.bias| => c.bias[i] == -1.0))
  }

  /** For disjoint masks the constraints lose nothing: decoding gives the masks back. */
  lemma DecodeSeedConstraints(background: seq<bool>, foreground: seq<bool>)
    requires |background| == |foreground|
    requires forall i :: 0 <= i < |background| ==> !(background[i] && foreground[i])
    ensures Decode(SeedConstraints(background, foreground)) == (background, foreground)
  {
    var c := SeedConstraints(background, foreground);
    assert Decode(c).0 == background;
    assert Decode(c).1 == foreground;
  }

  /** A pixel in both masks decodes as unseeded: the conflict is not recoverable. */
  lemma DecodeConflict(background: seq<bool>, foreground: seq<bool>, i: int)
    requires |background| == |foreground| && 0 <= i < |background|
    requires background[i] && foreground[i]
    ensures !Decode(SeedConstraints(background, foreground)).0[i]
    ensures !Decode(SeedConstraints(background, foreground)).1[i]
  {
  }
}
