/** Failure-carrying wrappers shared by the whole model. */
module Common {

  /** An optional value. Where an operation of the library fails through a
      defect, the model returns `None` for exactly those inputs: a panic (an
      unsigned underflow, a slice bound overrun), or a read past the end of
      an allocation through a raw pointer, which is undefined behaviour
      rather than a panic. */
  datatype Option<+T> = None | Some(value: T)

  /** The outcome of a fallible conversion: `Ok` carries the converted value,
      `Err` hands the original back unchanged. */
  datatype Result<+T, +E> = Ok(value: T) | Err(error: E)
}
