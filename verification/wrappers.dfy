/** Failure-carrying datatypes shared by the model.
    `Option` stands for Rust's `Option`; `Outcome` stands for a computation that
    either returns a value or aborts the process (a Rust `panic!`, an `unwrap` on
    an error, a `todo!()`, or a NULL dereference in C). */
module Wrappers {

  datatype Option<+T> = None | Some(value: T) {
    function GetOr(default: T): T {
      match this
      case Some(v) => v
      case None => default
    }
  }

  datatype Outcome<+T> = Ok(value: T) | Panic {
    predicate IsFailure() { Panic? }
  }
}
