/** Failure-carrying values used throughout the model.
    `Option` stands for a nullable result (`int?`, `Guid?`, a reference that may be null);
    `Result` stands for a call that either returns or lets an exception escape. */
module Wrappers {

  datatype Option<+T> = None | Some(value: T) {

    /** The C# `??` operator: the carried value, or `fallback` when absent. */
    function GetOr(fallback: T): (r: T)
      ensures Some? ==> r == value
      ensures None? ==> r == fallback
    {
      match this
      case Some(v) => v
      case None => fallback
    }
  }

  /** The exceptions that can escape the modelled code: `ArgumentOutOfRangeException` from
      `Math.Round` with a bad digit count, and whatever `DateTime.ToString(pattern)` throws
      (`FormatException` for an invalid pattern, `ArgumentOutOfRangeException` for a date
      the culture's calendar cannot show), which the model does not tell apart. */
  datatype Exception = ArgumentOutOfRange | DateFormatFailure

  datatype Result<+T> = Ok(value: T) | Err(error: Exception)
}
