/** The values the map's operations hand back: an optional value where the
    Java library returns a possibly-null reference, and a result carrying the
    one exception the modelled operations raise. */
module Outcomes {

  /** A reference that may be null: the value a key maps to, or its absence. */
  datatype Option<+T> = None | Some(value: T)

  /** An IndexOutOfBoundsException from ArrayList.get (or its array subclass
      for a negative index); index and size are the model's record of the
      failing call: the requested index and the size of the list. */
  datatype Error = IndexOutOfBounds(index: int, size: nat)

  /** Either the value an operation returns or the exception it raises. */
  datatype Result<+T> = Ok(value: T) | Err(error: Error)
}
