/** Nullable values and the outcome of a service call.

    Java's `null` becomes `None`; the service's exceptions become the error
    variants of `Outcome`, so that every caller's failure handling is visible
    in the type instead of travelling by stack unwinding.
 */
module Wrappers {

  /** A Java reference that may be null. */
  datatype Option<+T> = None | Some(value: T) {

    /** The value, or `default` when it is null. */
    function GetOr(default: T): T {
      match this
      case Some(v) => v
      case None => default
    }
  }

  /** What a service operation produced.
      - `Ok`: it returned normally;
      - `NotFound`: it threw the not-found exception with this message;
      - `InvalidRequest`: it threw the invalid-request exception with this message;
      - `Failure`: anything else went wrong (a null dereference, an unknown enum
        name, a storage error); the cause is never shown to the client, so the
        model keeps no message for it.
   */
  datatype Outcome<+T> =
    | Ok(value: T)
    | NotFound(message: string)
    | InvalidRequest(message: string)
    | Failure
}
