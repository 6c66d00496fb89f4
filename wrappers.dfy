/** Small datatypes shared by the modules: an optional value and the outcome
    of a call that either returns a value or ends with a Java exception. */
module Wrappers {

  datatype Option<T> = None | Some(value: T)

  /** The exceptions the modelled Java code throws, explicitly or implicitly. */
  datatype Exception =
    | IllegalArgument     // IllegalArgumentException
    | IllegalState        // IllegalStateException
    | NullPointer         // a null map lookup that is unboxed or dereferenced
    | IndexOutOfBounds    // a list or array index outside its bounds
    | NegativeArraySize   // an array created with a negative length
    | OutOfMemory         // a loop that never ends, adding to a list each time

  datatype Result<T> = Ok(value: T) | Thrown(exception: Exception)
}
