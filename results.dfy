/** Failure-carrying values shared by the index builder and the composer. */
module Results {

  datatype Option<T> = None | Some(value: T)

  /** The ways the template pipeline fails. The wording of the messages is not modelled. */
  datatype Error =
    | NotFound(name: string)  // a requested template name has no entry in the index
    | WalkFailed              // the directory walk reported an error
    | ReadFailed              // a template file could not be read as text

  datatype Result<T> = Ok(value: T) | Err(error: Error)
}
