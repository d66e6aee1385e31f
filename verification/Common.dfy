/** Small datatypes shared by every component of the model. */
module Common {

  /** A byte of storage, as an integer so that little-endian arithmetic stays linear. */
  newtype byte = x: int | 0 <= x < 256

  datatype Option<+T> = None | Some(value: T)

  datatype Result<+T, +E> = Ok(value: T) | Err(error: E)

  type Order<!R> = (R, R) -> bool

  ghost predicate TotalOrder<R(!new)>(le: Order<R>) {
    && (forall x, y :: le(x, y) || le(y, x))
    && (forall x, y :: le(x, y) && le(y, x) ==> x == y)
    && forall x, y, z :: le(x, y) && le(y, z) ==> le(x, z)
  }
}
