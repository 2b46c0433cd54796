/** Option and Result values used for the game's "no signed-in user" case
    and for operations the game rejects with an alert. */
module Wrappers {

  datatype Option<+T> = None | Some(value: T)

  /** A rejected operation carries the reason; an accepted one the new value. */
  datatype Result<+R, +E> = Success(value: R) | Failure(error: E)
}
