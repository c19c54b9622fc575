/** Result and Option types shared by every module, and the error kinds of the import rewriter. */
module Wrappers {

  /** The kinds of error the rewriter reports. The message texts of the source are not modelled. */
  datatype Error =
    | NormalizeFailed        // a `..` climbs above the first component of the path
    | NoRelativePath         // no relative path exists between the two paths
    | MissingSuffix          // the file name has no extension
    | UnsupportedSuffix(suffix: string)
    | ReplacerFailed(message: string)  // whatever a caller-supplied replacer reports

  datatype Option<+T> = None | Some(value: T)

  datatype Result<+T> = Ok(value: T) | Err(error: Error) {
    predicate IsFailure() { Err? }

    function PropagateFailure<U>(): Result<U>
      requires Err?
    {
      Err(error)
    }

    function Extract(): T
      requires Ok?
    {
      value
    }
  }
}
