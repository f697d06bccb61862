/** Outcomes shared by the model: a value or the Java exception that the source throws. */
module Results {

  datatype Option<+T> = None | Some(value: T)

  /** The exceptions the modelled code raises (or lets escape). */
  datatype Exception =
    | IllegalArgument(message: string)
    | FileAlreadyExists(path: string)
    | ClassCast

  datatype Result<+T> = Ok(value: T) | Err(error: Exception)
}
