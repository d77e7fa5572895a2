/** Success-or-failure values.  `Err` stands for the exception a function of the
    repository raises; its text is a short form of the exception's message. */
module Outcomes {
  datatype Option<+T> = None | Some(value: T)

  datatype Result<+T> = Ok(value: T) | Err(reason: string)
}
