/** Values of the Python and numpy world that the utility helpers receive and return. */
module PyValues {

  /** Python's None, or a value. */
  datatype Option<+T> = None | Some(value: T)

  /** A return value, or the exception raised instead of returning. */
  datatype Result<+R, +E> = Success(value: R) | Failure(error: E)

  /** An argument that a helper accepts in several shapes: Python's None,
      a single scalar (something `np.isscalar` accepts and that cannot be
      iterated or indexed, such as a number), or an ordered sequence (a list,
      tuple or one-dimensional array) of scalars. Sets, dicts, dict views and
      generators are none of these. */
  datatype ScalarOrSeq<T> = Nothing | Scalar(value: T) | Sequence(items: seq<T>)

  /** What `np.array` builds from such an argument: the zero-dimensional
      object array that wraps None, or a one-dimensional array. */
  datatype NdArray<T> = ZeroDimNone | Vector(items: seq<T>)

  /** The exceptions the helpers let escape. */
  datatype Error =
    | NotACoordinate(message: string)  // the bare `Exception` raised by ensure_3d
    | ZeroDimIteration                 // numpy's TypeError: iteration over a 0-d array
    | TakeOutOfBounds                  // numpy's IndexError from np.take
}
