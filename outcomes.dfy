/** Success and failure values shared by every module of the model. */
module Outcomes {

  /** The exceptions the tree engine raises. The first three come from relationship
      validation, the next two from structural and frozen-node checks, the last two
      from the content registry. */
  datatype Error =
    | ChildWasRejected
    | ParentWasRejected
    | MutualRejection
    | InvalidTreeMovement
    | InvalidOperation
    | AlreadyRegistered
    | NotRegistered

  datatype Option<+T> = None | Some(value: T)

  /** A value, or the exception that was raised instead of computing it. */
  datatype Result<+T> = Ok(value: T) | Err(error: Error)

  /** The outcome of an operation that returns nothing on success. */
  datatype Outcome = Pass | Fail(error: Error)
}
