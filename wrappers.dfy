/** Nullable values and thrown-or-returned outcomes of the C# source. */
module Wrappers {

  /** A C# reference that may be null: `None` is null. */
  datatype Option<+T> = None | Some(value: T) {

    /** The C# `??` operator. */
    function GetOr(default: T): (r: T)
      ensures Some? ==> r == value
      ensures None? ==> r == default
    {
      match this
      case Some(v) => v
      case None => default
    }
  }

  /** A constructor that either returns a value or throws an exception. */
  datatype Result<+R, +E> = Success(value: R) | Failure(error: E)
}
