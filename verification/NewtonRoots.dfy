// The Newton refinements of include/math.h and include/math/gxMath.h in exact
// real arithmetic.  The first estimates (a table, a bit trick, an instruction)
// are parameters.
module NewtonRoots {

  /** One step towards 1/sqrt(x). */
  function InvSqrtStep(x: real, g: real): real {
    0.5 * g * (3.0 - g * g * x)
  }

  /** How far g is from 1/sqrt(x): zero exactly when x * g * g == 1. */
  function Error(x: real, g: real): real {
    1.0 - x * g * g
  }

  /** What a step makes of the error d. */
  function NextError(d: real): real {
    d * d * (3.0 + d) / 4.0
  }

  lemma StepError(x: real, g: real)
    ensures Error(x, InvSqrtStep(x, g)) == NextError(Error(x, g))
  {
    var d := Error(x, g);
    var g' := InvSqrtStep(x, g);
    assert g' == g * (2.0 + d) / 2.0;
    assert x * g' * g' == (x * g * g) * ((2.0 + d) * (2.0 + d)) / 4.0;
    assert (1.0 - d) * ((2.0 + d) * (2.0 + d)) == 4.0 - d * d * (3.0 + d);
  }

  /** The error becomes at most its square, and g stays an underestimate. */
  lemma NextErrorSmall(d: real)
    requires -1.0 <= d <= 1.0
    ensures 0.0 <= NextError(d) <= d * d <= 1.0
  {
    var s := d * d;
    ProductNonNegative(1.0 - d, 1.0 + d);
    assert (1.0 - d) * (1.0 + d) == 1.0 - s;
    ProductNonNegative(if d >= 0.0 then d else -d, if d >= 0.0 then d else -d);
    ProductNonNegative(s, 3.0 + d);
    ProductNonNegative(s, 1.0 - d);
    assert s * (3.0 + d) + s * (1.0 - d) == 4.0 * s;
  }

  lemma ProductNonNegative(a: real, b: real)
    requires a >= 0.0 && b >= 0.0
    ensures a * b >= 0.0
  {
  }

  lemma StepPositive(x: real, g: real)
    requires g > 0.0 && -1.0 <= Error(x, g) <= 1.0
    ensures InvSqrtStep(x, g) > 0.0
  {
    assert InvSqrtStep(x, g) == g * (2.0 + Error(x, g)) / 2.0;
  }

  lemma SquareMonotone(a: real, b: real)
    requires 0.0 <= a <= b
    ensures a * a <= b * b
  {
  }

  /** The eighth power of the first error bounds the third. */
  function Pow8(d: real): real {
    var s := d * d;
    (s * s) * (s * s)
  }

  function ThreeSteps(x: real, g: real): real {
    InvSqrtStep(x, InvSqrtStep(x, InvSqrtStep(x, g)))
  }

  lemma ThreeStepsError(x: real, g: real)
    requires g > 0.0 && -1.0 <= Error(x, g) <= 1.0
    ensures ThreeSteps(x, g) > 0.0 && 0.0 <= Error(x, ThreeSteps(x, g)) <= Pow8(Error(x, g))
  {
    hide InvSqrtStep, Error;
    var g1 := InvSqrtStep(x, g);
    var g2 := InvSqrtStep(x, g1);
    var d := Error(x, g);
    StepFacts(x, g);
    StepFacts(x, g1);
    StepFacts(x, g2);
    SquareMonotone(Error(x, g1), d * d);
    SquareMonotone(Error(x, g2), (d * d) * (d * d));
  }

  /** sqrtf, with the value of the estimate instruction as a parameter. */
  method Sqrtf(x: real, estimate: real) returns (result: real)
    requires x > 0.0 ==> estimate > 0.0 && -1.0 <= Error(x, estimate) <= 1.0
    ensures x <= 0.0 ==> result == x
    ensures x > 0.0 ==>
              result >= 0.0 && x * (1.0 - Pow8(Error(x, estimate))) <= result * result <= x
  {
    if x > 0.0 {
      var guess := estimate;
      guess := 0.5 * guess * (3.0 - guess * guess * x);
      guess := 0.5 * guess * (3.0 - guess * guess * x);
      guess := 0.5 * guess * (3.0 - guess * guess * x);
      assert guess == ThreeSteps(x, estimate);
      ThreeStepsError(x, estimate);
      hide InvSqrtStep, Error, ThreeSteps, Pow8;
      result := x * guess;
      RootBounds(x, guess, result, Pow8(Error(x, estimate)));
      return result;
    }
    return x;
  }

  lemma StepFacts(x: real, g: real)
    requires g > 0.0 && -1.0 <= Error(x, g) <= 1.0
    ensures InvSqrtStep(x, g) > 0.0
    ensures 0.0 <= Error(x, InvSqrtStep(x, g)) <= Error(x, g) * Error(x, g) <= 1.0
  {
    StepError(x, g);
    NextErrorSmall(Error(x, g));
    StepPositive(x, g);
  }

  /** r = x * g as a square root of x, when g has error d. */
  lemma RootBounds(x: real, g: real, r: real, bound: real)
    requires x > 0.0 && g > 0.0 && r == x * g && 0.0 <= Error(x, g) <= bound
    ensures r >= 0.0 && x * (1.0 - bound) <= r * r <= x
  {
    var d := Error(x, g);
    assert r * r == x * (1.0 - d);
    ProductNonNegative(x, g);
    ProductNonNegative(x, d);
    ProductNonNegative(x, bound - d);
  }

  /** gxMathFastInvSqrt: one fused polynomial for a positive value. */
  function FastInvSqrt(value: real, guess: real): (r: real)
    ensures value <= 0.0 ==> r == 0.0
  {
    if value <= 0.0 then 0.0
    else
      var product := guess * (value * guess);
      var correction := 3.0 - product;
      0.0625 * guess * correction * -(correction * (product * correction) - 12.0)
  }

  /** The fused form is two Newton steps, whatever the first guess. */
  lemma FusedIsTwoSteps(value: real, guess: real)
    requires value > 0.0
    ensures FastInvSqrt(value, guess) == InvSqrtStep(value, InvSqrtStep(value, guess))
  {
    var p := guess * (value * guess);
    var c := 3.0 - p;
    var g1 := InvSqrtStep(value, guess);
    assert g1 == 0.5 * guess * c;
    assert g1 * g1 * value == 0.25 * (c * (p * c));
    assert InvSqrtStep(value, g1) == 0.5 * (0.5 * guess * c) * (3.0 - 0.25 * (c * (p * c)));
    FusedAlgebra(guess * c, c * (p * c));
  }

  lemma FusedAlgebra(gc: real, q: real)
    ensures 0.5 * (0.5 * gc) * (3.0 - 0.25 * q) == 0.0625 * gc * -(q - 12.0)
  {
  }

  /** Hence its error is at most the fourth power of the guess's. */
  lemma FastInvSqrtError(value: real, guess: real)
    requires value > 0.0 && guess > 0.0 && -1.0 <= Error(value, guess) <= 1.0
    ensures var d := Error(value, guess);
            && FastInvSqrt(value, guess) > 0.0
            && 0.0 <= Error(value, FastInvSqrt(value, guess)) <= (d * d) * (d * d)
  {
    hide FastInvSqrt, InvSqrtStep, Error;
    FusedIsTwoSteps(value, guess);
    StepFacts(value, guess);
    StepFacts(value, InvSqrtStep(value, guess));
    SquareMonotone(Error(value, InvSqrtStep(value, guess)), Error(value, guess) * Error(value, guess));
  }

  /** gxMathFastSqrt: one step on an estimate of the root for a positive value. */
  function FastSqrt(value: real, guess: real): (r: real)
    ensures value <= 0.0 ==> r == 0.0
  {
    if value <= 0.0 then 0.0
    else
      var correction := 3.0 - (guess * guess) / value;
      0.5 * (guess * correction)
  }

  /** It is the same step as on guess / value, an estimate of 1/sqrt(value). */
  lemma FastSqrtIsInvSqrtStep(value: real, guess: real)
    requires value > 0.0
    ensures FastSqrt(value, guess) == value * InvSqrtStep(value, guess / value)
  {
    var g := guess / value;
    assert guess == g * value;
    assert (guess * guess) / value == g * g * value by {
      assert guess * guess == (g * g * value) * value;
    }
    assert value * InvSqrtStep(value, g) == 0.5 * ((g * value) * (3.0 - g * g * value));
  }

  /** So its square misses the value by at most the square of the relative error. */
  lemma FastSqrtError(value: real, guess: real)
    requires value > 0.0 && guess > 0.0
    requires -1.0 <= 1.0 - (guess * guess) / value <= 1.0
    ensures var d := 1.0 - (guess * guess) / value;
            var r := FastSqrt(value, guess);
            r >= 0.0 && value * (1.0 - d * d) <= r * r <= value
  {
    var g := guess / value;
    var d := 1.0 - (guess * guess) / value;
    assert guess == g * value;
    assert Error(value, g) == d by {
      assert guess * guess == (value * g * g) * value;
    }
    FastSqrtIsInvSqrtStep(value, guess);
    StepFacts(value, g);
    hide InvSqrtStep, Error, FastSqrt;
    RootBounds(value, InvSqrtStep(value, g), FastSqrt(value, guess), d * d);
  }
}
