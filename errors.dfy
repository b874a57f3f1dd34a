/** Outcomes shared by the matrix library: the errors an operation can end
    with, and the wrappers that carry either a value or such an error. */
module Errors {

  /** The ways an operation on a matrix can fail.
      DimensionError is the library's MatrixDimensionError, which every bound
      check raises. FellOffLattice stands for the Python AttributeError raised
      when a walk steps past the last node of a row or column and then calls a
      method on None. */
  datatype MatrixError = DimensionError | FellOffLattice

  /** A value, or the error that stopped the operation producing it. */
  datatype Result<T> = Ok(value: T) | Err(error: MatrixError)

  /** The outcome of an operation that returns nothing. */
  datatype Status = Done | Failed(error: MatrixError)

  /** A possibly missing value: the head node of a lattice holds None. */
  datatype Option<T> = None | Some(value: T)
}
