/** Optional values and fallible results, shared by every module of the model. */
module Wrappers {
  datatype Option<T> = None | Some(value: T)
  {
    predicate IsSome() { Some? }

    function UnwrapOr(default: T): (r: T)
      ensures Some? ==> r == value
      ensures None? ==> r == default
    {
      match this
      case Some(v) => v
      case None => default
    }
  }

  /** A result whose error is the message the program reports (`anyhow`'s and `String`'s
      display on the Rust side, `Error.message` on the JavaScript side). */
  datatype Result<T> = Ok(value: T) | Err(error: string)
  {
    predicate IsOk() { Ok? }
  }

  /** Outcome of an operation that returns nothing but may fail. */
  datatype Status = Done | Failed(error: string)
}
