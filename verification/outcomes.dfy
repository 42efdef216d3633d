/**
  Error kinds of the ndctl device manager and the result/option wrappers
  every operation of the model returns.
*/
module Outcomes {

  /** Why construction of the manager failed. */
  datatype InitReason =
    | ContextUnavailable   // the ndctl context could not be created
    | SysReadOnly          // /sys is mounted read-only

  /**
    The error kinds the manager distinguishes. Error message strings are not
    modelled: only which kind of failure was returned.
  */
  datatype Error =
    | InitFailure(reason: InitReason)
    | AlreadyExists        // create on a volume id that is already active
    | NotFound             // the namespace lookup by name failed
    | AllocationFailure    // the facility refused to create the namespace
    | ZeroizeFailure       // clearing the start of the device failed
    | DestroyFailure       // the facility refused to destroy the namespace

  /** A Go `(value, error)` pair: exactly one of the two is meaningful. */
  datatype Result<+T> = Ok(value: T) | Err(error: Error)

  datatype Option<+T> = None | Some(value: T)
}
