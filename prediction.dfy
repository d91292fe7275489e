/** The decision rule of `MainActivity.predict`: the model's single output
    score becomes one of two labels by `(confidence < 0.5) ? "Fracture" :
    "No Fracture"`. */
module Prediction {

  /** A Java `float` as far as the comparison with `0.5` can tell: a finite
      value (kept exact, as a real), one of the two infinities, or NaN. */
  datatype Score = Finite(value: real) | PositiveInfinity | NegativeInfinity | NaN

  /** Java's `<` between a `float` and a `double` constant: the float is
      widened exactly, infinities compare as the extremes, and every
      comparison with NaN is false. */
  function LessThan(s: Score, bound: real): bool {
    match s
    case Finite(v) => v < bound
    case NegativeInfinity => true
    case PositiveInfinity => false
    case NaN => false
  }

  const FractureLabel: string := "Fracture"
  const NoFractureLabel: string := "No Fracture"

  /** The threshold the score is compared with. */
  const Threshold: real := 0.5

  /** The predicted class: one of the two labels, "Fracture" exactly when the
      score is below one half. */
  function PredictedClass(confidence: Score): (predicted: string)
    ensures predicted == FractureLabel || predicted == NoFractureLabel
    ensures predicted == FractureLabel <==> LessThan(confidence, Threshold)
  {
    if LessThan(confidence, Threshold) then FractureLabel else NoFractureLabel
  }

  /** On finite scores the rule is a threshold: below 0.5 is "Fracture", and
      0.5 itself and everything above it is "No Fracture". */
  lemma FiniteThreshold(v: real)
    ensures PredictedClass(Finite(v)) == FractureLabel <==> v < 0.5
    ensures PredictedClass(Finite(v)) == NoFractureLabel <==> v >= 0.5
  {
  }

  /** A NaN score, which every comparison rejects, is labelled "No
      Fracture"; so is positive infinity, while negative infinity is
      "Fracture". */
  lemma NonFiniteScores()
    ensures PredictedClass(NaN) == NoFractureLabel
    ensures PredictedClass(PositiveInfinity) == NoFractureLabel
    ensures PredictedClass(NegativeInfinity) == FractureLabel
  {
  }

  /** Lowering a finite score never turns "Fracture" into "No Fracture". */
  lemma FractureDownwardClosed(u: real, v: real)
    requires u <= v && PredictedClass(Finite(v)) == FractureLabel
    ensures PredictedClass(Finite(u)) == FractureLabel
  {
  }
}
