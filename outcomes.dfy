/** Results shared by the model: a Java reference that may be null, and the
    exceptions the path layer lets escape to its callers. */
module Outcomes {

  /** A Java reference that may be null. */
  datatype Option<+T> = None | Some(value: T)

  /** The NullPointerExceptions the path layer raises instead of returning:
      `OutsideRoot` when getParts returned null and the caller read its length,
      `NoParent` when File.getParent returned null and getParts dereferenced it. */
  datatype Error = OutsideRoot | NoParent

  /** A value, or the exception thrown while computing it. */
  datatype Result<+T> = Ok(value: T) | Err(error: Error)
}
