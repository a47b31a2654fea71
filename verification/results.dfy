/** Failure-carrying wrappers shared by every module of the model.
    The source reports failures by raising an exception (Python) or throwing an
    Error (JavaScript) whose message is a string; `Err` carries that message. */
module Results {

  datatype Option<+T> = None | Some(value: T)

  datatype Result<+T> = Ok(value: T) | Err(message: string)
}
