/** Outcomes of operations that can fail: the exceptions and empty optionals of the service. */
module Results {
  datatype Option<+T> = None | Some(value: T)

  /** `Threw` stands for an exception that leaves the operation. */
  datatype Result<+T> = Ok(value: T) | Threw
}
