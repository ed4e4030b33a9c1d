/** Success and failure wrappers shared by the whole model. */
module Outcomes {

  datatype Option<+T> = None | Some(value: T)

  datatype Result<+T, +E> = Ok(value: T) | Err(error: E)

  /** The Python exceptions the modelled code can raise. */
  datatype Failure =
    | AttributeError     // no timestamp in a name (`None.group()`), or an unknown index key
    | ValueError         // a timestamp whose fields are not a calendar date-time
    | FileNotFoundError  // a placeholder whose store entry no longer exists
}
