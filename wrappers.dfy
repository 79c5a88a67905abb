// Small failure-compatible wrappers: Java's nullable references and the
// "logged, or thrown" outcome of a dictionary load.
module Wrappers {

  /** A Java reference that may be null. */
  datatype Option<+T> = None | Some(value: T)

  /** The outcome of a step that either completes or aborts with a message. */
  datatype Outcome = Pass | Fail(message: string)
}
