/** Basic values shared by every price feed. */
module Values {

  /** A Wad is a fixed-point decimal counted in units of 10^-18.
      Only its integer count is modelled; its arithmetic lives outside this model. */
  type Wad = int

  /** A value that may be absent; the model's counterpart of Python's `Optional`. */
  datatype Option<+T> = None | Some(value: T)

  /** The outcome of an operation that may raise. */
  datatype Result<+T, +E> = Success(value: T) | Failure(error: E)
}
