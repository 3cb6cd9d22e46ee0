/** Failure-carrying datatypes shared by the text-history model. */
module Wrappers {

  /** An optional argument: `None` stands for an argument left at its default. */
  datatype Option<+T> = None | Some(value: T) {

    /** The argument as given, or `default` when it was left out. */
    function GetOr(default: T): T {
      if Some? then value else default
    }
  }

  /** Either a value or the kind of error the operation reports. */
  datatype Result<+T, +E> = Ok(value: T) | Err(error: E)
}
