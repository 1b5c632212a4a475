/** Option and Result types shared by every module of the model, and the
    failures the modelled code raises. */
module Outcomes {

  datatype Option<T> = None | Some(value: T)

  /** The two runtime failures of the core. `InvalidState` is Java's
      IllegalStateException, carrying its message; `MissingLastActionTime` is
      the failure of unboxing the last-action session attribute before any
      action was ever registered. */
  datatype Error =
    | InvalidState(message: string)
    | MissingLastActionTime

  datatype Result<T> = Success(value: T) | Failure(error: Error)
}
