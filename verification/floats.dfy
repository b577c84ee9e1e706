/**
  The few IEEE-754 double behaviours the program relies on: NaN and the
  infinities compare and multiply differently from reals. Finite values are
  exact reals; rounding is not modelled.
 */
module Floats {

  datatype Float = Finite(value: real) | NaN | PosInf | NegInf

  /** `isnan(f)` */
  predicate IsNaN(f: Float) {
    f.NaN?
  }

  /** The comparison `x < f` for a finite `x`: false whenever `f` is NaN. */
  predicate Less(x: real, f: Float) {
    match f
    case Finite(v) => x < v
    case PosInf => true
    case NaN => false
    case NegInf => false
  }

  /** The comparison `f > x` for a finite `x`: false whenever `f` is NaN. */
  predicate Greater(f: Float, x: real) {
    match f
    case Finite(v) => v > x
    case PosInf => true
    case NaN => false
    case NegInf => false
  }

  /**
    The test `f * g == 0`. A NaN operand makes the product NaN, and an
    infinite operand makes it infinite or NaN (infinity times zero), so only
    two finite operands can multiply to zero.
   */
  predicate ProductIsZero(f: Float, g: Float) {
    f.Finite? && g.Finite? && f.value * g.value == 0.0
  }

  /** On two finite operands the product is zero exactly when one factor is. */
  lemma ProductIsZeroIff(f: Float, g: Float)
    requires f.Finite? && g.Finite?
    ensures ProductIsZero(f, g) <==> f.value == 0.0 || g.value == 0.0
  {
    if f.value != 0.0 && g.value != 0.0 {
      assert f.value * g.value != 0.0;
    }
  }
}
