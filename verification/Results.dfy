/** Outcomes of operations that the source ends with a value, with nothing, or with an exception. */
module Results {

  datatype Option<+T> = None | Some(value: T)

  /** `Rejected` stands for a raised exception; its text is documentation only. */
  datatype Result<+T> = Ok(value: T) | Rejected(reason: string)
}
