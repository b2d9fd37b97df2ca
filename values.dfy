/** Values shared by the evaluation bookkeeping of the splicing model's
    training module: floating-point numbers that may be NaN, the optional
    and error-carrying results the Python code produces, and the errors it
    raises. */
module Values {

  /** A floating-point number as numpy sees it: NaN, or an ordinary value.
      Rounding is not modelled; an ordinary value is an exact real. */
  datatype Num = NaN | Real(v: real)

  /** Python's `None` or a value. */
  datatype Option<T> = None | Some(value: T)

  /** The exceptions the evaluation code can raise on its own inputs. */
  datatype EvalError =
    | IndexError         // an index past the end of a numpy array
    | ZeroDivisionError  // a Python division by zero

  /** A value, or the exception raised instead of returning one. */
  datatype Result<T> = Success(value: T) | Failure(error: EvalError)

  /** `x >= t` on a numpy float: false whenever `x` is NaN. */
  predicate AtLeast(x: Num, t: real) {
    x.Real? && t <= x.v
  }

  /** `x < t` on a numpy float: false whenever `x` is NaN. */
  predicate Below(x: Num, t: real) {
    x.Real? && x.v < t
  }

  /** `x > t` on a numpy float: false whenever `x` is NaN. */
  predicate Above(x: Num, t: real) {
    x.Real? && t < x.v
  }
}
