/** Outcomes of calls into the hosted backend, and JavaScript's nullable values. */
module Outcomes {

  /** What an awaited backend call hands back: its data, or an error carrying a message. */
  datatype Result<+T> = Ok(value: T) | Err(message: string)

  /** A value that may be `null` (or `undefined`) on the JavaScript side. */
  datatype Option<+T> = None | Some(value: T)

  /** The nothing-to-report payload of calls that only succeed or fail. */
  type Unit = ()
}
